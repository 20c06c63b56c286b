/** Which saves are refused as duplicates. An entry blocks its id for as long as it is live,
    whether or not anyone can see its event; this module says, over whole runs, when the
    two come apart, and which live entries have lost their file. */
module Duplicates {
  import opened Bytes
  import opened Events
  import opened Index
  import opened StoreSpec
  import opened Runs
  import opened Lifetimes

  // ---------------------------------------------------------------- without crashes

  predicate Keeps(e: Entry, files: Files) {
    e.deleted || PathOf(e) in files
  }

  /** Every live entry has its file. */
  ghost predicate Complete(index: seq<Entry>, files: Files) {
    forall i :: 0 <= i < |index| ==> Keeps(index[i], files)
  }

  lemma BuryComplete(index: seq<Entry>, next: int, files: Files, w: set<nat>)
    requires Rising(index, next) && Complete(index, files)
    ensures Complete(Bury(index, w), files - PathsAt(index, w))
  {
    forall i | 0 <= i < |index|
      ensures Keeps(Bury(index, w)[i], files - PathsAt(index, w))
    {
      assert Keeps(index[i], files);
      if i !in w { BuryPathKept(index, next, w, i); }
    }
  }

  lemma SaveComplete(g: Config, s: Store, ev: Event, fate: Fate, now: u32)
    requires Rising(s.index, s.next) && Complete(s.index, s.files)
    ensures Complete(Save(s, g.cap, g.ttl, ev, now, fate).index, Save(s, g.cap, g.ttl, ev, now, fate).files)
  {
    var s' := Save(s, g.cap, g.ttl, ev, now, fate);
    forall i | 0 <= i < |s'.index|
      ensures Keeps(s'.index[i], s'.files)
    {
      if i < |s.index| { assert Keeps(s.index[i], s.files); }
    }
  }

  lemma CompactComplete(s: Store)
    requires Complete(s.index, s.files)
    ensures Complete(Compact(s).index, s.files)
  {
    LiveMembers(s.index);
    forall i | 0 <= i < |Live(s.index)|
      ensures Keeps(Live(s.index)[i], s.files)
    {
      assert Live(s.index)[i] in s.index;
    }
  }

  lemma DeleteComplete(s: Store, id: Key)
    requires Rising(s.index, s.next) && Complete(s.index, s.files)
    ensures Complete(Delete(s, id).index, Delete(s, id).files)
  {
    match Find(s.index, id)
    case None =>
    case Some(i) => BuryComplete(s.index, s.next, s.files, {i});
  }

  /** Without loss of power, every live entry keeps its file: with the storage invariant,
      its path maps to exactly its event. */
  lemma StepComplete(g: Config, s: Store, op: Op, now: u32)
    requires Inv(s, g.cap) && Complete(s.index, s.files) && (Boots(op) ==> op.RestartOp?)
    ensures Complete(Step(g, s, op, now).index, Step(g, s, op, now).files)
  {
    match op
    case SaveOp(ev, fate) => SaveComplete(g, s, ev, fate, now);
    case DeleteOp(id) => DeleteComplete(s, id);
    case QueryOp(stop) => BuryComplete(s.index, s.next, s.files, Stale(s.index, stop, |s.index|, now));
    case PurgeOp => BuryComplete(s.index, s.next, s.files, Stale(s.index, 0, |s.index|, now));
    case CompactOp => CompactComplete(s);
    case GetOp(_) =>
    case RestartOp =>
  }

  lemma {:induction false} RunComplete(g: Config, s: Store, trace: seq<Timed>, from: u32)
    requires Inv(s, g.cap) && Track(s, from) && Ordered(trace, from) && Room(s, |trace|)
    requires Complete(s.index, s.files)
    requires forall k :: 0 <= k < |trace| && Boots(trace[k].op) ==> trace[k].op.RestartOp?
    ensures Complete(Run(g, s, trace).index, Run(g, s, trace).files)
    decreases |trace|
  {
    if trace != [] {
      StepKeeps(g, s, trace[0].op, from, trace[0].now);
      StepComplete(g, s, trace[0].op, trace[0].now);
      RunComplete(g, Step(g, s, trace[0].op, trace[0].now), trace[1..], trace[0].now);
    }
  }

  // ---------------------------------------------------------------- with crashes

  /** The ids whose delete lost power and that were neither saved nor deleted since. */
  function CutAfter(g: Config, s: Store, op: Op, cut: set<Key>): set<Key> {
    match op
    case CrashInDelete(id) => cut + {id}
    case DeleteOp(id) => cut - {id}
    case SaveOp(ev, fate) => if SaveStatus(s, g.cap, ev, fate) == Ok then cut - {ev.id} else cut
    case _ => cut
  }

  function CutRun(g: Config, s: Store, cut: set<Key>, trace: seq<Timed>): set<Key>
    decreases |trace|
  {
    if trace == [] then cut
    else CutRun(g, Step(g, s, trace[0].op, trace[0].now), CutAfter(g, s, trace[0].op, cut), trace[1..])
  }

  /** A live entry without a file has expired, or its delete was cut short. */
  predicate Excused(e: Entry, files: Files, cut: set<Key>, now: int) {
    Keeps(e, files) || Expired(e, now) || e.id in cut
  }

  ghost predicate AllExcused(index: seq<Entry>, files: Files, cut: set<Key>, now: int) {
    forall i :: 0 <= i < |index| ==> Excused(index[i], files, cut, now)
  }

  ghost predicate Accounted(s: Store, cut: set<Key>, now: int) {
    AllExcused(s.index, s.files, cut, now) && AllExcused(s.snap.entries, s.files, cut, now)
  }

  lemma ExcusedLater(index: seq<Entry>, files: Files, files': Files, cut: set<Key>, cut': set<Key>, was: int, now: int)
    requires AllExcused(index, files, cut, was) && was <= now && cut <= cut'
    requires forall i :: 0 <= i < |index| && PathOf(index[i]) in files ==> PathOf(index[i]) in files'
    ensures AllExcused(index, files', cut', now)
  {
    forall i | 0 <= i < |index|
      ensures Excused(index[i], files', cut', now)
    {
      assert Excused(index[i], files, cut, was);
    }
  }

  lemma BuryExcused(index: seq<Entry>, next: int, files: Files, w: set<nat>, cut: set<Key>, now: int)
    requires Rising(index, next) && AllExcused(index, files, cut, now)
    ensures AllExcused(Bury(index, w), files - PathsAt(index, w), cut, now)
  {
    forall i | 0 <= i < |index|
      ensures Excused(Bury(index, w)[i], files - PathsAt(index, w), cut, now)
    {
      assert Excused(index[i], files, cut, now);
      if i !in w { BuryPathKept(index, next, w, i); }
    }
  }

  /** An entry of the snapshot loses its file only with the entry of RAM at its position. */
  lemma SnapshotExcused(s: Store, w: set<nat>, cut: set<Key>, was: int, now: int)
    requires Track(s, was) && Rising(s.index, s.next) && AllExcused(s.snap.entries, s.files, cut, now)
    requires forall i :: i in w && i < |s.snap.entries| ==>
               Expired(s.snap.entries[i], now) || s.snap.entries[i].id in cut
    ensures AllExcused(s.snap.entries, s.files - PathsAt(s.index, w), cut, now)
  {
    forall j | 0 <= j < |s.snap.entries|
      ensures Excused(s.snap.entries[j], s.files - PathsAt(s.index, w), cut, now)
    {
      var e := s.snap.entries[j];
      assert Excused(e, s.files, cut, now) && Aged(e, s.index[j], was);
      if PathOf(e) in PathsAt(s.index, w) {
        var i :| i in w && i < |s.index| && PathOf(s.index[i]) == PathOf(e);
        SerialsApart(s.index, s.next, i, j);
      }
    }
  }

  /** An id no live entry of RAM carries is not needed among the cut ones. */
  lemma Forget(s: Store, id: Key, cut: set<Key>, was: int, now: int)
    requires Track(s, was) && was <= now && Find(s.index, id).None? && Accounted(s, cut, now)
    ensures Accounted(s, cut - {id}, now)
  {
    forall i | 0 <= i < |s.index|
      ensures Excused(s.index[i], s.files, cut - {id}, now)
    {
      assert Excused(s.index[i], s.files, cut, now);
    }
    forall i | 0 <= i < |s.snap.entries|
      ensures Excused(s.snap.entries[i], s.files, cut - {id}, now)
    {
      assert Excused(s.snap.entries[i], s.files, cut, now) && Aged(s.snap.entries[i], s.index[i], was);
    }
  }

  lemma SweepAccounted(s: Store, cap: nat, w: set<nat>, cut: set<Key>, was: int, now: int)
    requires Inv(s, cap) && Track(s, was) && was <= now && Accounted(s, cut, now)
    requires forall i :: i in w && i < |s.index| ==> Expired(s.index[i], now)
    ensures Accounted(BuryAll(s, w), cut, now)
  {
    BuryExcused(s.index, s.next, s.files, w, cut, now);
    forall i | i in w && i < |s.snap.entries|
      ensures Expired(s.snap.entries[i], now)
    {
      assert Aged(s.snap.entries[i], s.index[i], was);
    }
    SnapshotExcused(s, w, cut, was, now);
  }

  lemma AppendExcused(index: seq<Entry>, e: Entry, files: Files, cut: set<Key>, now: int)
    requires AllExcused(index, files, cut, now) && PathOf(e) in files
    ensures AllExcused(index + [e], files, cut, now)
  {
  }

  lemma SaveAccounted(g: Config, s: Store, ev: Event, fate: Fate, cut: set<Key>, was: int, now: u32)
    requires Inv(s, g.cap) && Track(s, was) && was <= now && Room(s, 1) && Accounted(s, cut, now)
    ensures Accounted(Save(s, g.cap, g.ttl, ev, now, fate), CutAfter(g, s, SaveOp(ev, fate), cut), now)
  {
    var s' := Save(s, g.cap, g.ttl, ev, now, fate);
    match SaveStatus(s, g.cap, ev, fate)
    case Ok =>
      Forget(s, ev.id, cut, was, now);
      ExcusedLater(s.index, s.files, s'.files, cut - {ev.id}, cut - {ev.id}, now, now);
      ExcusedLater(s.snap.entries, s.files, s'.files, cut - {ev.id}, cut - {ev.id}, now, now);
      AppendExcused(s.index, Digest(ev, ExpiryOf(now, g.ttl, ev.expiration), s.next), s'.files, cut - {ev.id}, now);
    case Io =>
      ExcusedLater(s.index, s.files, s'.files, cut, cut, now, now);
      ExcusedLater(s.snap.entries, s.files, s'.files, cut, cut, now, now);
    case _ =>
  }

  lemma DeleteAccounted(g: Config, s: Store, id: Key, cut: set<Key>, was: int, now: int)
    requires Inv(s, g.cap) && Track(s, was) && was <= now && Accounted(s, cut, now)
    ensures Accounted(Delete(s, id), cut - {id}, now)
  {
    match Find(s.index, id)
    case None => Forget(s, id, cut, was, now);
    case Some(i) =>
      BuryExcused(s.index, s.next, s.files, {i}, cut, now);
      BuriedIsNotFound(s.index, id);
      TrackPersisted(BuryAll(s, {i}), now);
      Forget(Delete(s, id), id, cut, now, now);
  }

  lemma CompactAccounted(s: Store, cut: set<Key>, now: int)
    requires Accounted(s, cut, now)
    ensures Accounted(Compact(s), cut, now)
  {
    LiveMembers(s.index);
    forall i | 0 <= i < |Live(s.index)|
      ensures Excused(Live(s.index)[i], s.files, cut, now)
    {
      assert Live(s.index)[i] in s.index;
    }
  }

  lemma CutDeleteAccounted(g: Config, s: Store, id: Key, cut: set<Key>, was: int, now: u32)
    requires Inv(s, g.cap) && Track(s, was) && was <= now && Accounted(s, cut, now)
    ensures Accounted(Step(g, s, CrashInDelete(id), now), cut + {id}, now)
  {
    ExcusedLater(s.snap.entries, s.files, s.files, cut, cut + {id}, now, now);
    if Find(s.index, id).Some? {
      var i := Find(s.index, id).value;
      if i < |s.snap.entries| { assert Aged(s.snap.entries[i], s.index[i], was); }
      SnapshotExcused(s, {i}, cut + {id}, was, now);
    }
  }

  lemma AccountedLater(s: Store, cut: set<Key>, was: int, now: int)
    requires Accounted(s, cut, was) && was <= now
    ensures Accounted(s, cut, now)
  {
    ExcusedLater(s.index, s.files, s.files, cut, cut, was, now);
    ExcusedLater(s.snap.entries, s.files, s.files, cut, cut, was, now);
  }

  lemma RecoverAccounted(s: Store, cut: set<Key>, now: int)
    requires Accounted(s, cut, now)
    ensures Accounted(Recover(s), cut, now) && Accounted(Recover(Persist(s)), cut, now)
  {
  }

  lemma StaleAccounted(s: Store, cap: nat, lo: nat, hi: nat, cut: set<Key>, was: int, now: int)
    requires Inv(s, cap) && Track(s, was) && was <= now && Accounted(s, cut, now)
    ensures Accounted(BuryAll(s, Stale(s.index, lo, hi, now)), cut, now)
  {
    SweepAccounted(s, cap, Stale(s.index, lo, hi, now), cut, was, now);
  }

  lemma CutSaveAccounted(g: Config, s: Store, ev: Event, whole: bool, cut: set<Key>, now: u32)
    requires Accounted(s, cut, now)
    ensures Accounted(Step(g, s, CrashInSave(ev, whole), now), cut, now)
  {
    var file := if whole then Whole(ev) else Partial;
    ExcusedLater(s.snap.entries, s.files, s.files[PathFor(ev.id, s.next) := file], cut, cut, now, now);
  }

  lemma CutSweepAccounted(g: Config, s: Store, lo: nat, hi: nat, cut: set<Key>, was: int, now: u32)
    requires Inv(s, g.cap) && Track(s, was) && was <= now && Accounted(s, cut, now)
    ensures Accounted(Step(g, s, CrashInSweep(lo, hi), now), cut, now)
  {
    var s' := BuryAll(s, Stale(s.index, lo, hi, now));
    StaleAccounted(s, g.cap, lo, hi, cut, was, now);
    RecoverAccounted(s', cut, now);
    assert Step(g, s, CrashInSweep(lo, hi), now) == Recover(s');
  }

  lemma BootAccounted(g: Config, s: Store, op: Op, cut: set<Key>, was: int, now: u32)
    requires Inv(s, g.cap) && Track(s, was) && was <= now && Accounted(s, cut, now) && Boots(op)
    ensures Accounted(Step(g, s, op, now), CutAfter(g, s, op, cut), now)
  {
    match op
    case RestartOp => RecoverAccounted(s, cut, now);
    case CrashOp => RecoverAccounted(s, cut, now);
    case CrashInSave(ev, whole) => CutSaveAccounted(g, s, ev, whole, cut, now);
    case CrashInDelete(id) => CutDeleteAccounted(g, s, id, cut, was, now);
    case CrashInSweep(lo, hi) => CutSweepAccounted(g, s, lo, hi, cut, was, now);
  }

  /** Every step, crash or not, accounts for the live entries without a file. */
  lemma StepAccounted(g: Config, s: Store, op: Op, cut: set<Key>, was: int, now: u32)
    requires Inv(s, g.cap) && Track(s, was) && was <= now && Room(s, 1) && Accounted(s, cut, was)
    ensures Accounted(Step(g, s, op, now), CutAfter(g, s, op, cut), now)
  {
    AccountedLater(s, cut, was, now);
    match op
    case SaveOp(ev, fate) => SaveAccounted(g, s, ev, fate, cut, was, now);
    case DeleteOp(id) => DeleteAccounted(g, s, id, cut, was, now);
    case QueryOp(stop) => StaleAccounted(s, g.cap, stop, |s.index|, cut, was, now);
    case GetOp(_) =>
    case PurgeOp => StaleAccounted(s, g.cap, 0, |s.index|, cut, was, now);
    case CompactOp => CompactAccounted(s, cut, now);
    case _ => BootAccounted(g, s, op, cut, was, now);
  }

  lemma {:induction false} RunAccounted(g: Config, s: Store, trace: seq<Timed>, cut: set<Key>, from: u32)
    requires Inv(s, g.cap) && Track(s, from) && Ordered(trace, from) && Room(s, |trace|) && Accounted(s, cut, from)
    ensures Accounted(Run(g, s, trace), CutRun(g, s, cut, trace), EndTime(trace, from))
    decreases |trace|
  {
    if trace != [] {
      StepKeeps(g, s, trace[0].op, from, trace[0].now);
      StepAccounted(g, s, trace[0].op, cut, from, trace[0].now);
      RunAccounted(g, Step(g, s, trace[0].op, trace[0].now), trace[1..], CutAfter(g, s, trace[0].op, cut),
                   trace[0].now);
    }
  }

  // ---------------------------------------------------------------- duplicates, exactly

  ghost predicate Visible(s: Store, id: Key, now: int) {
    exists x :: x in Shown(s.index, s.files, now) && x.event.id == id
  }

  predicate LiveWith(s: Store, id: Key, i: nat)
    requires i < |s.index|
  {
    !s.index[i].deleted && s.index[i].id == id
  }

  /** An expired entry of the id that no query or purge has swept yet. */
  ghost predicate Unswept(s: Store, id: Key, now: int) {
    exists i :: 0 <= i < |s.index| && LiveWith(s, id, i) && Expired(s.index[i], now)
  }

  /** An unexpired entry of the id whose file is gone. */
  ghost predicate FileLost(s: Store, id: Key, now: int) {
    exists i :: 0 <= i < |s.index| && LiveWith(s, id, i) && !Expired(s.index[i], now) && PathOf(s.index[i]) !in s.files
  }

  lemma DuplicateCases(s: Store, cap: nat, ev: Event, fate: Fate, now: int)
    requires Inv(s, cap)
    ensures SaveStatus(s, cap, ev, fate) == Duplicate
       <==> Visible(s, ev.id, now) || Unswept(s, ev.id, now) || FileLost(s, ev.id, now)
  {
    ShownMembers(s.index, s.files, now);
    if Visible(s, ev.id, now) {
      var x :| x in Shown(s.index, s.files, now) && x.event.id == ev.id;
      var i :| 0 <= i < |s.index| && ShowOne(s.index[i], s.files, now) == [x];
      assert FileOk(s.index[i], s.files);
    }
    if Find(s.index, ev.id).Some? {
      var i := Find(s.index, ev.id).value;
      assert FileOk(s.index[i], s.files) && LiveWith(s, ev.id, i);
      if !Expired(s.index[i], now) && PathOf(s.index[i]) in s.files {
        var x := Saved(s.files[PathOf(s.index[i])].event, s.index[i].expiresAt, s.index[i].fileIndex);
        assert ShowOne(s.index[i], s.files, now) == [x];
        assert x in Shown(s.index, s.files, now);
      }
    }
  }

  // ---------------------------------------------------------------- what a cut delete leaves

  /** No entry of a cut id has a file. */
  ghost predicate CutsGone(s: Store, cut: set<Key>) {
    forall id :: id in cut ==> DiesBy(s, id, 0)
  }

  lemma StepCutsGone(g: Config, s: Store, op: Op, cut: set<Key>, was: int, now: u32)
    requires Inv(s, g.cap) && Track(s, was) && Room(s, 1) && CutsGone(s, cut)
    ensures CutsGone(Step(g, s, op, now), CutAfter(g, s, op, cut))
  {
    forall id | id in CutAfter(g, s, op, cut)
      ensures DiesBy(Step(g, s, op, now), id, 0)
    {
      if op == CrashInDelete(id) {
        DeleteEnds(g, s, op, id, was, now);
      } else {
        StepDies(g, s, op, now, id, 0);
      }
    }
  }

  lemma {:induction false} RunCutsGone(g: Config, s: Store, trace: seq<Timed>, cut: set<Key>, from: u32)
    requires Inv(s, g.cap) && Track(s, from) && Ordered(trace, from) && Room(s, |trace|) && CutsGone(s, cut)
    ensures CutsGone(Run(g, s, trace), CutRun(g, s, cut, trace))
    decreases |trace|
  {
    if trace != [] {
      StepKeeps(g, s, trace[0].op, from, trace[0].now);
      StepCutsGone(g, s, trace[0].op, cut, from, trace[0].now);
      RunCutsGone(g, Step(g, s, trace[0].op, trace[0].now), trace[1..], CutAfter(g, s, trace[0].op, cut), trace[0].now);
    }
  }

  ghost predicate LiveUnexpired(s: Store, id: Key, now: int) {
    exists i :: 0 <= i < |s.index| && LiveWith(s, id, i) && !Expired(s.index[i], now)
  }

  /** A live entry that has not expired lost its file exactly if its delete was cut. */
  lemma LostIsCut(s: Store, cut: set<Key>, id: Key, was: int, now: int)
    requires Accounted(s, cut, was) && CutsGone(s, cut) && was <= now
    ensures FileLost(s, id, now) <==> LiveUnexpired(s, id, now) && id in cut
  {
    if FileLost(s, id, now) {
      var i :| 0 <= i < |s.index| && LiveWith(s, id, i) && !Expired(s.index[i], now) && PathOf(s.index[i]) !in s.files;
      assert Excused(s.index[i], s.files, cut, was);
    }
    if LiveUnexpired(s, id, now) && id in cut {
      var i :| 0 <= i < |s.index| && LiveWith(s, id, i) && !Expired(s.index[i], now);
      assert EntryDiesBy(s.index[i], s.files, id, 0);
    }
  }

  /** Duplicates, over whole runs with crashes: a save is refused as one exactly when the
      event can be seen, or an expired entry of it has not been swept, or an unexpired one
      is live whose delete lost power, with no accepted save and no delete of the id since.
      That last case is exactly the loss of the file. */
  lemma {:induction false} DuplicateIff(g: Config, trace: seq<Timed>, ev: Event, fate: Fate, now: u32)
    requires Ordered(trace, 0) && |trace| < TWO_32 && EndTime(trace, 0) <= now
    ensures var s, cut := Run(g, EMPTY, trace), CutRun(g, EMPTY, {}, trace);
            && (SaveStatus(s, g.cap, ev, fate) == Duplicate
                <==> Visible(s, ev.id, now) || Unswept(s, ev.id, now)
                     || (LiveUnexpired(s, ev.id, now) && ev.id in cut))
            && (FileLost(s, ev.id, now) <==> LiveUnexpired(s, ev.id, now) && ev.id in cut)
  {
    var s := Run(g, EMPTY, trace);
    EmptyKeeps(g);
    RunKeeps(g, EMPTY, trace, 0);
    RunAccounted(g, EMPTY, trace, {}, 0);
    RunCutsGone(g, EMPTY, trace, {}, 0);
    LostIsCut(s, CutRun(g, EMPTY, {}, trace), ev.id, EndTime(trace, 0), now);
    DuplicateCases(s, g.cap, ev, fate, now);
  }

  // ---------------------------------------------------------------- each case occurs

  lemma {:induction false} RunCons(g: Config, s: Store, op: Op, now: u32, rest: seq<Timed>)
    ensures Run(g, s, [Timed(op, now)] + rest) == Run(g, Step(g, s, op, now), rest)
  {
    assert ([Timed(op, now)] + rest)[1..] == rest;
  }

  function OneEntry(ev: Event, ttl: u32): Entry {
    Digest(ev, ExpiryOf(0, ttl, ev.expiration), 0)
  }

  lemma FirstSave(g: Config, ev: Event)
    requires g.cap > 0
    ensures Step(g, EMPTY, SaveOp(ev, Written), 0)
         == Store([OneEntry(ev, g.ttl)], 1, map[PathFor(ev.id, 0) := Whole(ev)], Snapshot([], 0))
  {
  }

  lemma {:induction false} ShownOnly(e: Entry, files: Files, t: int)
    ensures Shown([e], files, t) == ShowOne(e, files, t)
  {
    assert Shown([e][1..], files, t) == [];
  }

  /** With no crash at all: saved with a TTL of one second, at second 5 the event cannot be
      seen, and saving it again is refused. */
  lemma {:induction false} ExpiredStillDuplicate(g: Config, ev: Event, fate: Fate)
    requires g.cap > 0 && g.ttl == 1 && ev.expiration == 0
    ensures var s := Run(g, EMPTY, [Timed(SaveOp(ev, Written), 0)]);
            Shown(s.index, s.files, 5) == [] && SaveStatus(s, g.cap, ev, fate) == Duplicate
  {
    var s := Step(g, EMPTY, SaveOp(ev, Written), 0);
    assert Run(g, s, []) == s && [Timed(SaveOp(ev, Written), 0)][1..] == [];
    FirstSave(g, ev);
    ShownOnly(s.index[0], s.files, 5);
  }

  lemma {:induction false} RunFour(g: Config, s: Store, a: Timed, b: Timed, c: Timed, d: Timed)
    ensures Run(g, s, [a, b, c, d]) ==
      Step(g, Step(g, Step(g, Step(g, s, a.op, a.now), b.op, b.now), c.op, c.now), d.op, d.now)
  {
    assert [a, b, c, d] == [a] + ([b] + ([c] + ([d] + [])));
    RunCons(g, s, a.op, a.now, [b] + ([c] + ([d] + [])));
    var s1 := Step(g, s, a.op, a.now);
    RunCons(g, s1, b.op, b.now, [c] + ([d] + []));
    var s2 := Step(g, s1, b.op, b.now);
    RunCons(g, s2, c.op, c.now, [d] + []);
    RunCons(g, Step(g, s2, c.op, c.now), d.op, d.now, []);
  }

  /** A sweep of the only entry, then a crash. */
  lemma SweepThenCrash(g: Config, e: Entry, files: Files, now: u32)
    requires !e.deleted && Expired(e, now)
    ensures var s := Store([e], 1, files, Snapshot([e], 1));
            Step(g, Step(g, s, QueryOp(0), now), CrashOp, now) == Store([e], 1, files - {PathOf(e)}, Snapshot([e], 1))
  {
    assert Stale([e], 0, 1, now) == {0};
    assert PathsAt([e], {0}) == {PathOf(e)};
  }

  /** The store after a first save, an orderly restart, a query past the expiry and a crash. */
  lemma {:induction false} SweptAway(g: Config, ev: Event, save: Timed, restart: Timed, query: Timed, crash: Timed)
    requires g.cap > 0 && g.ttl == 1 && ev.expiration == 0
    requires save == Timed(SaveOp(ev, Written), 0) && restart.op == RestartOp
    requires query == Timed(QueryOp(0), 5) && crash == Timed(CrashOp, 5)
    ensures var e := OneEntry(ev, 1);
            Run(g, EMPTY, [save, restart, query, crash])
              == Store([e], 1, map[PathFor(ev.id, 0) := Whole(ev)] - {PathOf(e)}, Snapshot([e], 1))
  {
    RunFour(g, EMPTY, save, restart, query, crash);
    FirstSave(g, ev);
    SweepThenCrash(g, OneEntry(ev, 1), map[PathFor(ev.id, 0) := Whole(ev)], 5);
  }

  /** With a plain crash and no delete: a query sweeps the expired entry, the crash brings
      the entry back without its file; the event is seen at no time, and is still refused. */
  lemma {:induction false} CrashUndoesSweep(g: Config, ev: Event, fate: Fate, save: Timed, restart: Timed,
                                            query: Timed, crash: Timed, t: int)
    requires g.cap > 0 && g.ttl == 1 && ev.expiration == 0
    requires save == Timed(SaveOp(ev, Written), 0) && restart == Timed(RestartOp, 0)
    requires query == Timed(QueryOp(0), 5) && crash == Timed(CrashOp, 5)
    ensures var s := Run(g, EMPTY, [save, restart, query, crash]);
            Shown(s.index, s.files, t) == [] && SaveStatus(s, g.cap, ev, fate) == Duplicate
  {
    SweptAway(g, ev, save, restart, query, crash);
    ShownOnly(OneEntry(ev, 1), map[PathFor(ev.id, 0) := Whole(ev)] - {PathOf(OneEntry(ev, 1))}, t);
  }
}
