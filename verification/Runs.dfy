/** Whole runs of the storage engine: any interleaving of its operations, with crashes
    between them and inside them, and what the durable snapshot guarantees throughout. */
module Runs {
  import opened Bytes
  import opened Events
  import opened Index
  import opened StoreSpec

  datatype Config = Config(cap: nat, ttl: u32)

  /** One lock-protected step, or a loss of power. Snapshot commits are atomic and succeed;
      a query is known here by the position at which its backwards scan stopped. */
  datatype Op =
    | SaveOp(ev: Event, fate: Fate)
    | DeleteOp(id: Key)
    | QueryOp(stop: nat)
    | GetOp(id: Key)
    | PurgeOp
    | CompactOp
    | RestartOp
    | CrashOp
    | CrashInSave(ev: Event, whole: bool)    // the file is written, wholly or partly; the index is not
    | CrashInDelete(id: Key)                 // the file is unlinked; the snapshot is not written
    | CrashInSweep(lo: nat, hi: nat)         // some expired files are unlinked; no snapshot

  datatype Timed = Timed(op: Op, now: u32)

  function Step(g: Config, s: Store, op: Op, now: u32): Store {
    match op
    case SaveOp(ev, fate) => Save(s, g.cap, g.ttl, ev, now, fate)
    case DeleteOp(id) => Delete(s, id)
    case QueryOp(stop) => BuryAll(s, Stale(s.index, stop, |s.index|, now))
    case GetOp(_) => s
    case PurgeOp => Purge(s, now)
    case CompactOp => Compact(s)
    case RestartOp => Recover(Persist(s))
    case CrashOp => Recover(s)
    case CrashInSave(ev, whole) =>
      if SaveStatus(s, g.cap, ev, Written) == Ok
      then Recover(s.(files := s.files[PathFor(ev.id, s.next) := if whole then Whole(ev) else Partial]))
      else Recover(s)
    case CrashInDelete(id) =>
      (match Find(s.index, id)
       case None => Recover(s)
       case Some(i) => Recover(BuryAll(s, {i})))
    case CrashInSweep(lo, hi) => Recover(BuryAll(s, Stale(s.index, lo, hi, now)))
  }

  function Run(g: Config, s: Store, trace: seq<Timed>): Store
    decreases |trace|
  {
    if trace == [] then s else Run(g, Step(g, s, trace[0].op, trace[0].now), trace[1..])
  }

  /** The clock does not go back. */
  predicate Ordered(trace: seq<Timed>, from: u32) {
    trace == [] || (from <= trace[0].now && Ordered(trace[1..], trace[0].now))
  }

  function EndTime(trace: seq<Timed>, from: u32): u32 {
    if trace == [] then from else EndTime(trace[1..], trace[0].now)
  }

  /** The 32-bit file index has room for `n` more saves. */
  predicate Room(s: Store, n: nat) {
    s.next + n < TWO_32
  }

  const EMPTY := Store([], 0, map[], Snapshot([], 0))

  // ---------------------------------------------------------------- the snapshot

  ghost predicate Aged(e: Entry, e': Entry, now: int) {
    e' == e || (e' == e.(deleted := true) && Expired(e, now))
  }

  /** How far RAM may run ahead of the snapshot: fewer than ten saves, in the same block of
      ten, and tombstones only on entries that had already expired. */
  ghost predicate Track(s: Store, now: int) {
    var n := |s.snap.entries|;
    && n <= |s.index| && n / 10 == |s.index| / 10
    && s.next == s.snap.next + (|s.index| - n)
    && (forall i :: 0 <= i < n ==> Aged(s.snap.entries[i], s.index[i], now))
    && (forall i :: n <= i < |s.index| ==> s.index[i].fileIndex == s.snap.next + (i - n))
  }

  lemma TrackPersisted(s: Store, now: int)
    ensures Track(Persist(s), now)
    ensures Track(Recover(s), now)
  {
  }

  lemma TrackSwept(s: Store, w: set<nat>, was: int, now: int)
    requires Track(s, was) && was <= now
    requires forall i :: i in w && i < |s.index| ==> Expired(s.index[i], now)
    ensures Track(BuryAll(s, w), now)
  {
    var s' := BuryAll(s, w);
    forall i | 0 <= i < |s.snap.entries|
      ensures Aged(s.snap.entries[i], s'.index[i], now)
    {
      assert Aged(s.snap.entries[i], s.index[i], was);
    }
  }

  lemma TrackSaved(g: Config, s: Store, ev: Event, fate: Fate, was: int, now: u32)
    requires Track(s, was) && was <= now && Room(s, 1)
    ensures Track(Save(s, g.cap, g.ttl, ev, now, fate), now)
  {
    var s' := Save(s, g.cap, g.ttl, ev, now, fate);
    forall i | 0 <= i < |s.snap.entries|
      ensures Aged(s.snap.entries[i], s.index[i], now)
    {
      assert Aged(s.snap.entries[i], s.index[i], was);
    }
    if SaveStatus(s, g.cap, ev, fate) == Ok {
      if |s'.index| % 10 == 0 {
        TrackPersisted(s', now);
      } else {
        assert |s'.index| / 10 == |s.index| / 10;
      }
    }
  }

  lemma RecoverInv(s: Store, cap: nat)
    requires |s.snap.entries| <= cap && Sound(s.snap.entries, s.snap.next, s.files)
    ensures Inv(Recover(s), cap)
  {
  }

  lemma CrashInSaveInv(g: Config, s: Store, ev: Event, whole: bool, now: u32)
    requires Inv(s, g.cap)
    ensures Inv(Step(g, s, CrashInSave(ev, whole), now), g.cap)
  {
    var file := if whole then Whole(ev) else Partial;
    FreshPath(s.snap.entries, s.snap.next, s.next, s.files, ev.id, file, 0);
  }

  lemma TrackLater(s: Store, was: int, now: int)
    requires Track(s, was) && was <= now
    ensures Track(s, now)
  {
    forall i | 0 <= i < |s.snap.entries|
      ensures Aged(s.snap.entries[i], s.index[i], now)
    {
      assert Aged(s.snap.entries[i], s.index[i], was);
    }
  }

  lemma CrashInDeleteInv(g: Config, s: Store, id: Key, now: u32)
    requires Inv(s, g.cap)
    ensures Inv(Step(g, s, CrashInDelete(id), now), g.cap)
  {
    match Find(s.index, id)
    case None => RecoverInv(s, g.cap);
    case Some(i) =>
      BuryInv(s, g.cap, {i});
      RecoverInv(BuryAll(s, {i}), g.cap);
      assert Step(g, s, CrashInDelete(id), now) == Recover(BuryAll(s, {i}));
  }

  lemma CrashInSweepInv(g: Config, s: Store, lo: nat, hi: nat, now: u32)
    requires Inv(s, g.cap)
    ensures Inv(Step(g, s, CrashInSweep(lo, hi), now), g.cap)
  {
    var s' := BuryAll(s, Stale(s.index, lo, hi, now));
    BuryInv(s, g.cap, Stale(s.index, lo, hi, now));
    RecoverInv(s', g.cap);
    assert Step(g, s, CrashInSweep(lo, hi), now) == Recover(s');
  }

  lemma PersistInv(s: Store, cap: nat)
    requires Inv(s, cap)
    ensures Inv(Persist(s), cap)
  {
  }

  lemma StepInv(g: Config, s: Store, op: Op, now: u32)
    requires Inv(s, g.cap) && s.snap.next <= s.next && Room(s, 1)
    ensures Inv(Step(g, s, op, now), g.cap)
  {
    match op
    case SaveOp(ev, fate) => SaveInv(s, g.cap, g.cap, g.ttl, ev, now, fate);
    case DeleteOp(id) => DeleteInv(s, g.cap, id);
    case QueryOp(stop) => BuryInv(s, g.cap, Stale(s.index, stop, |s.index|, now));
    case GetOp(_) =>
    case PurgeOp => BuryInv(s, g.cap, Stale(s.index, 0, |s.index|, now));
    case CompactOp => CompactInv(s, g.cap);
    case RestartOp =>
      PersistInv(s, g.cap);
      RecoverInv(Persist(s), g.cap);
    case CrashOp => RecoverInv(s, g.cap);
    case CrashInSave(ev, whole) => CrashInSaveInv(g, s, ev, whole, now);
    case CrashInDelete(id) => CrashInDeleteInv(g, s, id, now);
    case CrashInSweep(lo, hi) => CrashInSweepInv(g, s, lo, hi, now);
  }

  /** Every step but a save and a query ends with the snapshot equal to RAM, or changes
      neither. */
  lemma StepSettles(g: Config, s: Store, op: Op, now: u32)
    requires !op.SaveOp? && !op.QueryOp?
    ensures var s' := Step(g, s, op, now);
            (s'.index == s.index && s'.next == s.next && s'.snap == s.snap)
            || s'.snap == Snapshot(s'.index, s'.next)
  {
  }

  lemma StepTrack(g: Config, s: Store, op: Op, was: int, now: u32)
    requires Track(s, was) && was <= now && Room(s, 1)
    ensures Track(Step(g, s, op, now), now)
  {
    match op
    case SaveOp(ev, fate) => TrackSaved(g, s, ev, fate, was, now);
    case QueryOp(stop) => TrackSwept(s, Stale(s.index, stop, |s.index|, now), was, now);
    case _ =>
      StepSettles(g, s, op, now);
      TrackLater(s, was, now);
  }

  lemma StepNext(g: Config, s: Store, op: Op, now: u32)
    requires s.snap.next <= s.next && Room(s, 1)
    ensures Step(g, s, op, now).next <= s.next + 1
  {
  }

  /** Every step, crash or not, keeps the storage invariant and the bond with the snapshot. */
  lemma StepKeeps(g: Config, s: Store, op: Op, was: int, now: u32)
    requires Inv(s, g.cap) && Track(s, was) && was <= now && Room(s, 1)
    ensures Inv(Step(g, s, op, now), g.cap) && Track(Step(g, s, op, now), now)
    ensures Step(g, s, op, now).next <= s.next + 1
  {
    StepInv(g, s, op, now);
    StepTrack(g, s, op, was, now);
    StepNext(g, s, op, now);
  }

  /** Crash consistency: in every reachable state the index is sound, it agrees with the
      files, and the snapshot trails it as `Track` says. */
  lemma {:induction false} RunKeeps(g: Config, s: Store, trace: seq<Timed>, from: u32)
    requires Inv(s, g.cap) && Track(s, from) && Ordered(trace, from) && Room(s, |trace|)
    ensures Inv(Run(g, s, trace), g.cap) && Track(Run(g, s, trace), EndTime(trace, from))
    ensures Run(g, s, trace).next <= s.next + |trace|
    decreases |trace|
  {
    if trace != [] {
      StepKeeps(g, s, trace[0].op, from, trace[0].now);
      RunKeeps(g, Step(g, s, trace[0].op, trace[0].now), trace[1..], trace[0].now);
    }
  }

  lemma EmptyKeeps(g: Config)
    ensures Inv(EMPTY, g.cap) && Track(EMPTY, 0)
  {
  }

  lemma {:induction false} SerialsBelow(index: seq<Entry>, files: Files, t: int, bound: int)
    requires forall i :: 0 <= i < |index| ==> index[i].fileIndex < bound
    ensures forall x :: x in Shown(index, files, t) ==> x.serial < bound
  {
    if index != [] {
      SerialsBelow(index[1..], files, t, bound);
    }
  }

  lemma {:induction false} SerialsFrom(index: seq<Entry>, files: Files, t: int, bound: int)
    requires forall i :: 0 <= i < |index| ==> bound <= index[i].fileIndex
    ensures forall x :: x in Shown(index, files, t) ==> bound <= x.serial
  {
    if index != [] {
      SerialsFrom(index[1..], files, t, bound);
    }
  }

  lemma {:induction false} ShownLength(index: seq<Entry>, files: Files, t: int)
    ensures |Shown(index, files, t)| <= |index|
  {
    if index != [] {
      ShownLength(index[1..], files, t);
    }
  }

  /** An index that begins with entries showing what the snapshot's show, and goes on with
      newer serials, shows the snapshot's list once the newer serials are cut. */
  lemma {:induction false} CutShows(snap: Snapshot, index: seq<Entry>, files: Files, t: int)
    requires Rising(snap.entries, snap.next) && |snap.entries| <= |index|
    requires forall i :: 0 <= i < |snap.entries| ==>
      ShowOne(snap.entries[i], files, t) == ShowOne(index[i], files, t)
    requires forall i :: |snap.entries| <= i < |index| ==> snap.next <= index[i].fileIndex
    ensures Shown(snap.entries, files, t) == Keep(Shown(index, files, t), Before(snap.next))
    ensures |Shown(index, files, t)| <= |Shown(snap.entries, files, t)| + |index| - |snap.entries|
  {
    var n, cut := |snap.entries|, Before(snap.next);
    var kept, lost := index[..n], index[n..];
    assert index == kept + lost;
    ShownAppend(kept, lost, files, t);
    ShownSame(kept, files, snap.entries, files, t);
    SerialsBelow(snap.entries, files, t, snap.next);
    SerialsFrom(lost, files, t, snap.next);
    KeepAppend(Shown(kept, files, t), Shown(lost, files, t), cut);
    KeepAll(Shown(kept, files, t), cut);
    KeepNone(Shown(lost, files, t), cut);
    ShownLength(lost, files, t);
  }

  /** A restart loses the last saves only, at most nine, and what remains visible is what
      was visible, restricted to the entries of the snapshot. */
  lemma {:induction false} CrashLosesAtMostNine(s: Store, cap: nat, now: int, t: int)
    requires Inv(s, cap) && Track(s, now) && now <= t
    ensures s.next - s.snap.next == |s.index| - |s.snap.entries| <= 9
    ensures Shown(Recover(s).index, s.files, t)
         == Keep(Shown(s.index, s.files, t), Before(s.snap.next))
    ensures |Shown(s.index, s.files, t)| <= |Shown(Recover(s).index, s.files, t)| + 9
  {
    forall i | 0 <= i < |s.snap.entries|
      ensures ShowOne(s.snap.entries[i], s.files, t) == ShowOne(s.index[i], s.files, t)
    {
      assert Aged(s.snap.entries[i], s.index[i], now);
    }
    CutShows(s.snap, s.index, s.files, t);
  }

  /** Every step is a save, answered OK. */
  predicate AllSaved(g: Config, s: Store, trace: seq<Timed>)
    decreases |trace|
  {
    trace == [] ||
    (&& trace[0].op.SaveOp? && SaveStatus(s, g.cap, trace[0].op.ev, trace[0].op.fate) == Ok
     && AllSaved(g, Step(g, s, trace[0].op, trace[0].now), trace[1..]))
  }

  lemma SavedOne(g: Config, s: Store, op: Op, now: u32)
    requires op.SaveOp? && SaveStatus(s, g.cap, op.ev, op.fate) == Ok
    ensures var s' := Step(g, s, op, now);
            && |s'.index| == |s.index| + 1
            && s'.snap == if (|s.index| + 1) % 10 == 0 then Snapshot(s'.index, s'.next) else s.snap
  {
  }

  /** Saves become durable ten at a time: within a block of ten the snapshot stays as it was,
      and the save that completes the block writes all of it. */
  lemma {:induction false} SavesAwaitTenth(g: Config, s: Store, trace: seq<Timed>)
    requires AllSaved(g, s, trace) && 0 < |trace| && |s.index| % 10 + |trace| <= 10
    ensures var s' := Run(g, s, trace);
            && |s'.index| == |s.index| + |trace|
            && s'.snap == if |s.index| % 10 + |trace| == 10 then Snapshot(s'.index, s'.next) else s.snap
    decreases |trace|
  {
    var s1 := Step(g, s, trace[0].op, trace[0].now);
    SavedOne(g, s, trace[0].op, trace[0].now);
    if |trace| == 1 {
      assert Run(g, s1, trace[1..]) == s1;
    } else {
      SavesAwaitTenth(g, s1, trace[1..]);
    }
  }

  /** So the nine are reached: a loss of power after the first nine saves leaves nothing, after
      the tenth everything. */
  lemma {:induction false} FirstNineAreLost(g: Config, trace: seq<Timed>)
    requires AllSaved(g, EMPTY, trace) && 0 < |trace| <= 10
    ensures Recover(Run(g, EMPTY, trace)).index == if |trace| == 10 then Run(g, EMPTY, trace).index else []
  {
    SavesAwaitTenth(g, EMPTY, trace);
  }
}
