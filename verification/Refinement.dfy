/** The storage engine refines a plain list of saved events: no tombstones, no files, no
    compaction, no chunks. Saves append, deletes filter, a crash cuts the newest serials,
    and time alone hides what has expired. */
module Refinement {
  import opened Bytes
  import opened Events
  import opened Index
  import opened StoreSpec
  import opened Runs

  datatype Ref = Ref(list: seq<Saved>, next: nat)

  /** The list machine sees of the engine only whether a save answered OK and how many
      serials a crash left (`kept`). */
  function RefStep(ttl: u32, r: Ref, op: Op, now: u32, ok: bool, kept: nat): Ref {
    match op
    case SaveOp(ev, _) =>
      if ok then Ref(r.list + [Saved(ev, ExpiryOf(now, ttl, ev.expiration), r.next)], r.next + 1) else r
    case DeleteOp(id) => r.(list := Keep(r.list, OtherId(id)))
    case CrashInDelete(id) => Ref(Keep(Keep(r.list, OtherId(id)), Before(kept)), kept)
    case CrashOp => Ref(Keep(r.list, Before(kept)), kept)
    case CrashInSave(_, _) => Ref(Keep(r.list, Before(kept)), kept)
    case CrashInSweep(_, _) => Ref(Keep(r.list, Before(kept)), kept)
    case _ => r
  }

  ghost predicate SameView(s: Store, r: Ref, t: int) {
    Shown(s.index, s.files, t) == Keep(r.list, Unexpired(t))
  }

  /** At every instant from `now` on, the engine shows what the list shows. */
  ghost predicate Refines(s: Store, r: Ref, now: int) {
    s.next == r.next && forall t :: now <= t ==> SameView(s, r, t)
  }

  predicate Answer(g: Config, s: Store, op: Op) {
    op.SaveOp? && SaveStatus(s, g.cap, op.ev, op.fate) == Ok
  }

  /** The engine after step `op`, before any loss of RAM. */
  function BeforeCrash(g: Config, s: Store, op: Op, now: u32): Store {
    match op
    case CrashInSave(ev, whole) =>
      if SaveStatus(s, g.cap, ev, Written) == Ok
      then s.(files := s.files[PathFor(ev.id, s.next) := if whole then Whole(ev) else Partial])
      else s
    case CrashInDelete(id) =>
      if Find(s.index, id).Some? then BuryAll(s, {Find(s.index, id).value}) else s
    case CrashInSweep(lo, hi) => BuryAll(s, Stale(s.index, lo, hi, now))
    case _ => s
  }

  predicate Crashes(op: Op) {
    op.CrashOp? || op.CrashInSave? || op.CrashInDelete? || op.CrashInSweep?
  }

  /** Cutting power in the middle of an operation is finishing part of its file work, then
      losing RAM. */
  lemma CrashIsRecover(g: Config, s: Store, op: Op, now: u32)
    requires Crashes(op)
    ensures Step(g, s, op, now) == Recover(BeforeCrash(g, s, op, now))
    ensures BeforeCrash(g, s, op, now).snap == s.snap && BeforeCrash(g, s, op, now).next == s.next
    ensures op.CrashInDelete? ==>
      BeforeCrash(g, s, op, now).index == Delete(s, op.id).index
      && BeforeCrash(g, s, op, now).files == Delete(s, op.id).files
  {
  }

  /** The part-done file work of an interrupted operation shows nothing new and hides only
      the id being deleted. The entry an interrupted delete leaves in the snapshot is
      still live, but its file is gone. */
  lemma {:induction false} BeforeCrashShows(g: Config, s: Store, op: Op, now: u32, t: int)
    requires Inv(s, g.cap) && Crashes(op) && now <= t
    ensures var b := BeforeCrash(g, s, op, now);
            Shown(b.index, b.files, t) ==
              if op.CrashInDelete? then Keep(Shown(s.index, s.files, t), OtherId(op.id))
              else Shown(s.index, s.files, t)
  {
    match op
    case CrashInSave(ev, whole) =>
      FreshPath(s.index, s.next, s.next, s.files, ev.id, if whole then Whole(ev) else Partial, t);
    case CrashInDelete(id) =>
      CrashIsRecover(g, s, op, now);
      DeleteThins(s, g.cap, id, t);
    case CrashInSweep(lo, hi) =>
      BuryStaleUnseen(s, g.cap, Stale(s.index, lo, hi, now), now, t);
    case _ =>
  }

  /** The snapshot shows, entry by entry, what the index it trails shows. */
  ghost predicate Trails(b: Store, t: int) {
    && Rising(b.snap.entries, b.snap.next) && |b.snap.entries| <= |b.index|
    && (forall i :: 0 <= i < |b.snap.entries| ==>
          ShowOne(b.snap.entries[i], b.files, t) == ShowOne(b.index[i], b.files, t))
    && (forall i :: |b.snap.entries| <= i < |b.index| ==> b.snap.next <= b.index[i].fileIndex)
  }

  /** Before the crash, entries stay in place and are at most tombstoned, with their file
      unlinked. */
  lemma BeforeCrashMarks(g: Config, s: Store, op: Op, now: u32)
    requires Crashes(op)
    ensures var b := BeforeCrash(g, s, op, now);
            && b.snap == s.snap && |b.index| == |s.index|
            && forall i :: 0 <= i < |s.index| ==>
                 b.index[i] == s.index[i]
                 || (b.index[i] == s.index[i].(deleted := true) && PathOf(s.index[i]) !in b.files)
  {
  }

  /** It still does so for the state an interrupted operation leaves. */
  lemma BeforeCrashTrails(g: Config, s: Store, op: Op, was: int, now: u32, t: int)
    requires Inv(s, g.cap) && Track(s, was) && was <= now <= t && Crashes(op)
    ensures Trails(BeforeCrash(g, s, op, now), t)
  {
    var b := BeforeCrash(g, s, op, now);
    BeforeCrashMarks(g, s, op, now);
    forall i | 0 <= i < |s.snap.entries|
      ensures ShowOne(s.snap.entries[i], b.files, t) == ShowOne(b.index[i], b.files, t)
    {
      assert Aged(s.snap.entries[i], s.index[i], was);
    }
  }

  lemma {:induction false} BootShows(b: Store, t: int)
    requires Trails(b, t)
    ensures Shown(Recover(b).index, b.files, t) == Keep(Shown(b.index, b.files, t), Before(b.snap.next))
  {
    CutShows(b.snap, b.index, b.files, t);
  }

  /** What a boot shows after an interrupted operation. */
  lemma {:induction false} CrashShows(g: Config, s: Store, op: Op, was: int, now: u32, t: int)
    requires Inv(s, g.cap) && Track(s, was) && was <= now <= t && Crashes(op)
    ensures var s' := Step(g, s, op, now);
            var list := if op.CrashInDelete? then Keep(Shown(s.index, s.files, t), OtherId(op.id))
                        else Shown(s.index, s.files, t);
            Shown(s'.index, s'.files, t) == Keep(list, Before(s.snap.next))
  {
    CrashIsRecover(g, s, op, now);
    BeforeCrashShows(g, s, op, now, t);
    BeforeCrashTrails(g, s, op, was, now, t);
    BootShows(BeforeCrash(g, s, op, now), t);
  }

  lemma StepSameView(g: Config, s: Store, r: Ref, op: Op, was: u32, now: u32, t: int)
    requires Inv(s, g.cap) && Track(s, was) && was <= now <= t && Room(s, 1)
    requires s.next == r.next && SameView(s, r, t)
    ensures SameView(Step(g, s, op, now), RefStep(g.ttl, r, op, now, Answer(g, s, op), s.snap.next), t)
  {
    if Crashes(op) {
      CrashShows(g, s, op, was, now, t);
      if op.CrashInDelete? {
        KeepCommutes(r.list, Unexpired(t), OtherId(op.id));
        KeepCommutes(Keep(r.list, OtherId(op.id)), Unexpired(t), Before(s.snap.next));
      } else {
        KeepCommutes(r.list, Unexpired(t), Before(s.snap.next));
      }
    } else {
      match op
      case SaveOp(ev, fate) =>
        SaveShows(s, g.cap, g.ttl, ev, now, fate, t);
        KeepAppend(r.list, [Saved(ev, ExpiryOf(now, g.ttl, ev.expiration), s.next)], Unexpired(t));
      case DeleteOp(id) =>
        DeleteThins(s, g.cap, id, t);
        KeepCommutes(r.list, Unexpired(t), OtherId(id));
      case QueryOp(stop) => BuryStaleUnseen(s, g.cap, Stale(s.index, stop, |s.index|, now), now, t);
      case PurgeOp => BuryStaleUnseen(s, g.cap, Stale(s.index, 0, |s.index|, now), now, t);
      case CompactOp => LiveShown(s.index, s.files, t);
      case GetOp(_) =>
      case RestartOp =>
    }
  }

  /** One step of the engine is one step of the list. */
  lemma StepRefines(g: Config, s: Store, r: Ref, op: Op, was: u32, now: u32)
    requires Inv(s, g.cap) && Track(s, was) && was <= now && Room(s, 1)
    requires Refines(s, r, was)
    ensures Refines(Step(g, s, op, now), RefStep(g.ttl, r, op, now, Answer(g, s, op), s.snap.next), now)
    ensures s.next - 9 <= s.snap.next <= s.next
  {
    var s', r' := Step(g, s, op, now), RefStep(g.ttl, r, op, now, Answer(g, s, op), s.snap.next);
    forall t: int | now <= t
      ensures SameView(s', r', t)
    {
      assert SameView(s, r, t);
      StepSameView(g, s, r, op, was, now, t);
    }
  }

  /** The list machine run beside the engine. */
  function RefRun(g: Config, s: Store, r: Ref, trace: seq<Timed>): Ref
    decreases |trace|
  {
    if trace == [] then r
    else
      var r' := RefStep(g.ttl, r, trace[0].op, trace[0].now, Answer(g, s, trace[0].op), s.snap.next);
      RefRun(g, Step(g, s, trace[0].op, trace[0].now), r', trace[1..])
  }

  /** Whole-run refinement, crashes included: from the empty store, whatever the
      interleaving, the engine shows at every later instant exactly what the list shows. */
  lemma {:induction false} RunRefines(g: Config, s: Store, r: Ref, trace: seq<Timed>, from: u32)
    requires Inv(s, g.cap) && Track(s, from) && Ordered(trace, from) && Room(s, |trace|)
    requires Refines(s, r, from)
    ensures Refines(Run(g, s, trace), RefRun(g, s, r, trace), EndTime(trace, from))
    decreases |trace|
  {
    if trace != [] {
      StepKeeps(g, s, trace[0].op, from, trace[0].now);
      StepRefines(g, s, r, trace[0].op, from, trace[0].now);
      var s' := Step(g, s, trace[0].op, trace[0].now);
      var r' := RefStep(g.ttl, r, trace[0].op, trace[0].now, Answer(g, s, trace[0].op), s.snap.next);
      RunRefines(g, s', r', trace[1..], trace[0].now);
    }
  }

  lemma EmptyRefines()
    ensures Refines(EMPTY, Ref([], 0), 0)
  {
    assert forall t: int :: SameView(EMPTY, Ref([], 0), t);
  }

  /** Every query, after any run from the empty store, answers from the list alone: its
      newest unexpired events that pass, as many as the limit allows. */
  lemma {:induction false} RunQuery(g: Config, trace: seq<Timed>, f: Filter, most: nat, now: u32)
    requires Ordered(trace, 0) && |trace| < TWO_32 && EndTime(trace, 0) <= now
    ensures var s, list := Run(g, EMPTY, trace), RefRun(g, EMPTY, Ref([], 0), trace).list;
            Take(Newest(Shown(s.index, s.files, now), f), most) ==
            Take(Newest(Keep(list, Unexpired(now)), f), most)
  {
    EmptyKeeps(g);
    EmptyRefines();
    RunRefines(g, EMPTY, Ref([], 0), trace, 0);
    assert SameView(Run(g, EMPTY, trace), RefRun(g, EMPTY, Ref([], 0), trace), now);
  }

  /** A get answers with the event of that id that would be visible if nothing expired. */
  lemma GetShown(s: Store, cap: nat, id: Key, ev: Event)
    requires Inv(s, cap)
    ensures Get(s, id) == Some(ev) <==> exists x :: x in Shown(s.index, s.files, 0) && x.event == ev && ev.id == id
  {
    ShownMembers(s.index, s.files, 0);
    if Get(s, id) == Some(ev) {
      var i := Find(s.index, id).value;
      assert FileOk(s.index[i], s.files);
      var x := Saved(ev, s.index[i].expiresAt, s.index[i].fileIndex);
      assert ShowOne(s.index[i], s.files, 0) == [x];
      assert x in Shown(s.index, s.files, 0);
    }
    if x :| x in Shown(s.index, s.files, 0) && x.event == ev && ev.id == id {
      var i :| 0 <= i < |s.index| && ShowOne(s.index[i], s.files, 0) == [x];
      assert FileOk(s.index[i], s.files);
      LiveApart(s.index, Find(s.index, id).value, i);
    }
  }

  // ---------------------------------------------------------------- duplicates

  /** What can be seen is refused as a duplicate. */
  lemma {:induction false} VisibleIsDuplicate(s: Store, cap: nat, ev: Event, fate: Fate, t: int, x: Saved)
    requires Inv(s, cap) && x in Shown(s.index, s.files, t) && x.event.id == ev.id
    ensures SaveStatus(s, cap, ev, fate) == Duplicate
  {
    ShownMembers(s.index, s.files, t);
    var i :| 0 <= i < |s.index| && ShowOne(s.index[i], s.files, t) == [x];
    assert FileOk(s.index[i], s.files);
  }

  /** The converse can fail, in the ways `Duplicates.DuplicateIff` lists. Right after a
      crash inside a delete nothing with the id is visible at any time, yet saving it again
      is refused exactly when the snapshot still holds a live entry for it. */
  lemma InterruptedDeleteRefusesResave(g: Config, s: Store, id: Key, ev: Event, fate: Fate, was: int, now: u32)
    requires Inv(s, g.cap) && Track(s, was) && was <= now && Room(s, 1) && ev.id == id
    ensures var s' := Step(g, s, CrashInDelete(id), now);
            && (forall t: int, x :: now <= t && x in Shown(s'.index, s'.files, t) ==> x.event.id != id)
            && (SaveStatus(s', g.cap, ev, fate) == Duplicate
                <==> exists i :: 0 <= i < |s.snap.entries|
                       && s.snap.entries[i].id == id && !s.snap.entries[i].deleted)
  {
    var s' := Step(g, s, CrashInDelete(id), now);
    forall t: int, x | now <= t && x in Shown(s'.index, s'.files, t)
      ensures x.event.id != id
    {
      CrashShows(g, s, CrashInDelete(id), was, now, t);
      var thin := Keep(Shown(s.index, s.files, t), OtherId(id));
      KeepMembers(Shown(s.index, s.files, t), OtherId(id));
      KeepMembers(thin, Before(s.snap.next));
    }
  }

  // ---------------------------------------------------------------- a new event is kept

  /** Availability: after any run, an event whose id no live entry has is stored whenever the
      index has room and the file can be written. From then on until it expires it is the
      newest event that can be seen, and what could be seen before still can. In every other
      case nothing visible changes. */
  lemma {:induction false} WrittenSaveShows(g: Config, trace: seq<Timed>, ev: Event, fate: Fate, now: u32, t: int)
    requires Ordered(trace, 0) && |trace| < TWO_32 && EndTime(trace, 0) <= now
    requires 0 < now + g.ttl < TWO_32 && ev.expiration < TWO_32
    ensures var s := Run(g, EMPTY, trace);
            var s' := Step(g, s, SaveOp(ev, fate), now);
            var stored := && (forall i :: 0 <= i < |s.index| ==> s.index[i].deleted || s.index[i].id != ev.id)
                          && |s.index| < g.cap && fate == Written;
            && (SaveStatus(s, g.cap, ev, fate) == Ok <==> stored)
            && Shown(s'.index, s'.files, t) == Shown(s.index, s.files, t) +
                 if stored && t <= now + g.ttl && (ev.expiration > 0 ==> t <= ev.expiration)
                 then [Saved(ev, ExpiryOf(now, g.ttl, ev.expiration), s.next)] else []
  {
    var s := Run(g, EMPTY, trace);
    EmptyKeeps(g);
    RunKeeps(g, EMPTY, trace, 0);
    SaveAnswers(s, g.cap, ev, fate);
    SaveShows(s, g.cap, g.ttl, ev, now, fate, t);
    SeenUntilExpiry(now, g.ttl, ev.expiration, t);
    KeepOne(Saved(ev, ExpiryOf(now, g.ttl, ev.expiration), s.next), t);
  }
}
