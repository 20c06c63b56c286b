/** How long an event can be seen: deleted events stay deleted, expired ones stay expired,
    and the cleanup schedule takes dead entries out of the index. */
module Lifetimes {
  import opened Bytes
  import opened Events
  import opened Index
  import opened StoreSpec
  import opened Runs

  // ---------------------------------------------------------------- no resurrection

  ghost predicate EntryDiesBy(e: Entry, files: Files, id: Key, x: int) {
    e.id == id && PathOf(e) in files ==> 0 < e.expiresAt <= x
  }

  ghost predicate EntriesDieBy(index: seq<Entry>, files: Files, id: Key, x: int) {
    forall i :: 0 <= i < |index| ==> EntryDiesBy(index[i], files, id, x)
  }

  /** Every file an entry of `id` resolves to, in RAM or in the snapshot, dies by instant
      `x`. With `x` = 0 there is no such file at all. */
  ghost predicate DiesBy(s: Store, id: Key, x: int) {
    EntriesDieBy(s.index, s.files, id, x) && EntriesDieBy(s.snap.entries, s.files, id, x)
  }

  /** The step saves the id, and is answered OK. */
  predicate Saves(g: Config, s: Store, op: Op, id: Key) {
    op.SaveOp? && op.ev.id == id && SaveStatus(s, g.cap, op.ev, op.fate) == Ok
  }

  /** No step of the run does; saves of the id that are refused may be among them. */
  predicate Unsaved(g: Config, s: Store, trace: seq<Timed>, id: Key)
    decreases |trace|
  {
    trace == [] ||
    (!Saves(g, s, trace[0].op, id) && Unsaved(g, Step(g, s, trace[0].op, trace[0].now), trace[1..], id))
  }

  lemma FewerFilesDie(index: seq<Entry>, files: Files, gone: set<Path>, id: Key, x: int)
    requires EntriesDieBy(index, files, id, x)
    ensures EntriesDieBy(index, files - gone, id, x)
  {
    forall i | 0 <= i < |index|
      ensures EntryDiesBy(index[i], files - gone, id, x)
    {
      assert EntryDiesBy(index[i], files, id, x);
    }
  }

  lemma BuryDies(s: Store, w: set<nat>, id: Key, x: int)
    requires DiesBy(s, id, x)
    ensures DiesBy(BuryAll(s, w), id, x)
  {
    var s' := BuryAll(s, w);
    FewerFilesDie(s.snap.entries, s.files, PathsAt(s.index, w), id, x);
    forall i | 0 <= i < |s'.index|
      ensures EntryDiesBy(s'.index[i], s'.files, id, x)
    {
      assert EntryDiesBy(s.index[i], s.files, id, x);
    }
  }

  /** Writing at the next file index brings no file back to an entry that lost its own. */
  lemma WriteDies(index: seq<Entry>, next: u32, next': u32, files: Files, ev: Event, file: File, id: Key, x: int)
    requires Rising(index, next) && next <= next' && EntriesDieBy(index, files, id, x)
    ensures EntriesDieBy(index, files[PathFor(ev.id, next') := file], id, x)
  {
    forall i | 0 <= i < |index|
      ensures EntryDiesBy(index[i], files[PathFor(ev.id, next') := file], id, x)
    {
      assert EntryDiesBy(index[i], files, id, x);
      assert index[i].fileIndex < next';
    }
  }

  lemma AppendDies(s: Store, ttl: u32, ev: Event, now: u32, id: Key, x: int)
    requires Rising(s.index, s.next) && Rising(s.snap.entries, s.snap.next) && s.snap.next <= s.next
    requires DiesBy(s, id, x) && ev.id != id
    ensures DiesBy(Appended(s, ttl, ev, now), id, x)
  {
    var s' := Appended(s, ttl, ev, now);
    WriteDies(s.index, s.next, s.next, s.files, ev, Whole(ev), id, x);
    WriteDies(s.snap.entries, s.snap.next, s.next, s.files, ev, Whole(ev), id, x);
    forall i | 0 <= i < |s'.index|
      ensures EntryDiesBy(s'.index[i], s'.files, id, x)
    {
      if i < |s.index| { assert EntryDiesBy(s.index[i], s'.files, id, x); }
    }
  }

  lemma SaveDies(g: Config, s: Store, ev: Event, fate: Fate, now: u32, id: Key, x: int)
    requires Inv(s, g.cap) && DiesBy(s, id, x) && !Saves(g, s, SaveOp(ev, fate), id) && Room(s, 1)
    ensures DiesBy(Save(s, g.cap, g.ttl, ev, now, fate), id, x)
  {
    match SaveStatus(s, g.cap, ev, fate)
    case Ok => AppendDies(s, g.ttl, ev, now, id, x);
    case Io =>
      FewerFilesDie(s.index, s.files, {PathFor(ev.id, s.next)}, id, x);
      FewerFilesDie(s.snap.entries, s.files, {PathFor(ev.id, s.next)}, id, x);
    case _ =>
  }

  lemma CompactDies(s: Store, id: Key, x: int)
    requires DiesBy(s, id, x)
    ensures DiesBy(Compact(s), id, x)
  {
    LiveMembers(s.index);
    forall i | 0 <= i < |Live(s.index)|
      ensures EntryDiesBy(Live(s.index)[i], s.files, id, x)
    {
      assert Live(s.index)[i] in s.index;
      var j :| 0 <= j < |s.index| && s.index[j] == Live(s.index)[i];
      assert EntryDiesBy(s.index[j], s.files, id, x);
    }
  }

  lemma RecoverDies(s: Store, id: Key, x: int)
    requires DiesBy(s, id, x)
    ensures DiesBy(Recover(s), id, x) && DiesBy(Persist(s), id, x) && DiesBy(Recover(Persist(s)), id, x)
  {
  }

  lemma DeleteDies(s: Store, d: Key, id: Key, x: int)
    requires DiesBy(s, id, x)
    ensures DiesBy(Delete(s, d), id, x)
  {
    match Find(s.index, d)
    case None =>
    case Some(i) =>
      BuryDies(s, {i}, id, x);
      RecoverDies(BuryAll(s, {i}), id, x);
  }

  lemma CutDeleteDies(g: Config, s: Store, d: Key, now: u32, id: Key, x: int)
    requires DiesBy(s, id, x)
    ensures DiesBy(Step(g, s, CrashInDelete(d), now), id, x)
  {
    match Find(s.index, d)
    case None => RecoverDies(s, id, x);
    case Some(i) =>
      BuryDies(s, {i}, id, x);
      RecoverDies(BuryAll(s, {i}), id, x);
      assert Step(g, s, CrashInDelete(d), now) == Recover(BuryAll(s, {i}));
  }

  lemma CutSweepDies(g: Config, s: Store, lo: nat, hi: nat, now: u32, id: Key, x: int)
    requires DiesBy(s, id, x)
    ensures DiesBy(Step(g, s, CrashInSweep(lo, hi), now), id, x)
  {
    var s' := BuryAll(s, Stale(s.index, lo, hi, now));
    BuryDies(s, Stale(s.index, lo, hi, now), id, x);
    RecoverDies(s', id, x);
    assert Step(g, s, CrashInSweep(lo, hi), now) == Recover(s');
  }

  lemma CutSaveDies(g: Config, s: Store, ev: Event, whole: bool, now: u32, id: Key, x: int)
    requires Inv(s, g.cap) && DiesBy(s, id, x) && Room(s, 1)
    ensures DiesBy(Step(g, s, CrashInSave(ev, whole), now), id, x)
  {
    WriteDies(s.snap.entries, s.snap.next, s.next, s.files, ev, if whole then Whole(ev) else Partial, id, x);
  }

  /** The steps that end with a boot. */
  predicate Boots(op: Op) {
    op.RestartOp? || op.CrashOp? || op.CrashInSave? || op.CrashInDelete? || op.CrashInSweep?
  }

  lemma BootDies(g: Config, s: Store, op: Op, now: u32, id: Key, x: int)
    requires Inv(s, g.cap) && DiesBy(s, id, x) && Room(s, 1) && Boots(op)
    ensures DiesBy(Step(g, s, op, now), id, x)
  {
    match op
    case RestartOp => RecoverDies(s, id, x);
    case CrashOp => RecoverDies(s, id, x);
    case CrashInSave(ev, whole) => CutSaveDies(g, s, ev, whole, now, id, x);
    case CrashInDelete(d) => CutDeleteDies(g, s, d, now, id, x);
    case CrashInSweep(lo, hi) => CutSweepDies(g, s, lo, hi, now, id, x);
  }

  lemma StepDies(g: Config, s: Store, op: Op, now: u32, id: Key, x: int)
    requires Inv(s, g.cap) && DiesBy(s, id, x) && !Saves(g, s, op, id) && Room(s, 1)
    ensures DiesBy(Step(g, s, op, now), id, x)
  {
    match op
    case SaveOp(ev, fate) => SaveDies(g, s, ev, fate, now, id, x);
    case DeleteOp(d) => DeleteDies(s, d, id, x);
    case QueryOp(stop) => BuryDies(s, Stale(s.index, stop, |s.index|, now), id, x);
    case GetOp(_) =>
    case PurgeOp => BuryDies(s, Stale(s.index, 0, |s.index|, now), id, x);
    case CompactOp => CompactDies(s, id, x);
    case _ => BootDies(g, s, op, now, id, x);
  }

  lemma {:induction false} RunDies(g: Config, s: Store, trace: seq<Timed>, from: u32, id: Key, x: int)
    requires Inv(s, g.cap) && Track(s, from) && Ordered(trace, from) && Room(s, |trace|)
    requires DiesBy(s, id, x) && Unsaved(g, s, trace, id)
    ensures DiesBy(Run(g, s, trace), id, x)
    decreases |trace|
  {
    if trace != [] {
      StepKeeps(g, s, trace[0].op, from, trace[0].now);
      StepDies(g, s, trace[0].op, trace[0].now, id, x);
      RunDies(g, Step(g, s, trace[0].op, trace[0].now), trace[1..], trace[0].now, id, x);
    }
  }

  /** What the snapshot lists is in RAM under the same name, so a file missing there is
      missing for both. */
  lemma GoneFromSnapshot(s: Store, index: seq<Entry>, files: Files, now: int, id: Key)
    requires Track(s, now) && |index| == |s.index|
    requires forall i :: 0 <= i < |index| ==> index[i] == s.index[i] || index[i] == s.index[i].(deleted := true)
    requires EntriesDieBy(index, files, id, 0)
    ensures EntriesDieBy(s.snap.entries, files, id, 0)
  {
    forall i | 0 <= i < |s.snap.entries|
      ensures EntryDiesBy(s.snap.entries[i], files, id, 0)
    {
      assert Aged(s.snap.entries[i], s.index[i], now);
      assert EntryDiesBy(index[i], files, id, 0);
    }
  }

  /** With no live entry of the id, no entry of it has a file. */
  lemma TombstonesHaveNoFile(index: seq<Entry>, files: Files, id: Key)
    requires FilesAgree(index, files) && Find(index, id).None?
    ensures EntriesDieBy(index, files, id, 0)
  {
    forall i | 0 <= i < |index|
      ensures EntryDiesBy(index[i], files, id, 0)
    {
      assert FileOk(index[i], files);
    }
  }

  lemma BuriedIsNotFound(index: seq<Entry>, id: Key)
    requires LiveDistinct(index) && Find(index, id).Some?
    ensures Find(Bury(index, {Find(index, id).value}), id).None?
  {
    forall j | 0 <= j < |index|
      ensures Bury(index, {Find(index, id).value})[j].deleted || index[j].id != id
    {
      LiveApart(index, Find(index, id).value, j);
    }
  }

  /** A delete that finds no live entry of the id finds no file of it either. */
  lemma MissedEnds(s: Store, cap: nat, id: Key, was: int)
    requires Inv(s, cap) && Track(s, was) && Find(s.index, id).None?
    ensures DiesBy(s, id, 0)
  {
    TombstonesHaveNoFile(s.index, s.files, id);
    GoneFromSnapshot(s, s.index, s.files, was, id);
  }

  /** One that finds it leaves none, in RAM or in the snapshot. */
  lemma FoundEnds(s: Store, cap: nat, id: Key, was: int)
    requires Inv(s, cap) && Track(s, was) && Find(s.index, id).Some?
    ensures DiesBy(BuryAll(s, {Find(s.index, id).value}), id, 0)
  {
    var k := Find(s.index, id).value;
    var b := BuryAll(s, {k});
    BurySound(s.index, s.next, s.files, {k});
    BuriedIsNotFound(s.index, id);
    TombstonesHaveNoFile(b.index, b.files, id);
    GoneFromSnapshot(s, b.index, b.files, was, id);
  }

  /** A delete leaves no entry of the id with a file, whether it found one, found none, or
      lost power between the unlink and the snapshot. */
  lemma DeleteEnds(g: Config, s: Store, op: Op, id: Key, was: int, now: u32)
    requires Inv(s, g.cap) && Track(s, was)
    requires op == DeleteOp(id) || op == CrashInDelete(id)
    ensures DiesBy(Step(g, s, op, now), id, 0)
  {
    if Find(s.index, id).None? {
      MissedEnds(s, g.cap, id, was);
    } else {
      FoundEnds(s, g.cap, id, was);
    }
  }

  lemma {:induction false} DeadUnseen(s: Store, cap: nat, id: Key, x: int, t: int)
    requires Inv(s, cap) && DiesBy(s, id, x) && x < t
    ensures forall y :: y in Shown(s.index, s.files, t) ==> y.event.id != id
    ensures x <= 0 ==> Get(s, id).None?
  {
    ShownMembers(s.index, s.files, t);
    forall y | y in Shown(s.index, s.files, t)
      ensures y.event.id != id
    {
      var i :| 0 <= i < |s.index| && ShowOne(s.index[i], s.files, t) == [y];
      assert FileOk(s.index[i], s.files) && EntryDiesBy(s.index[i], s.files, id, x);
    }
    if Find(s.index, id).Some? {
      assert EntryDiesBy(s.index[Find(s.index, id).value], s.files, id, x);
    }
  }

  /** No resurrection: after a delete, even one cut by a crash, and any run with further
      crashes in which no save of the id is answered OK, no query at any time and no get
      return it. */
  lemma {:induction false} NoResurrection(g: Config, s: Store, op: Op, id: Key, was: u32, now: u32, rest: seq<Timed>)
    requires Inv(s, g.cap) && Track(s, was) && was <= now && Room(s, 1 + |rest|) && Ordered(rest, now)
    requires op == DeleteOp(id) || op == CrashInDelete(id)
    requires Unsaved(g, Step(g, s, op, now), rest, id)
    ensures var s' := Run(g, Step(g, s, op, now), rest);
            && Get(s', id).None?
            && forall t: int, y :: 0 < t && y in Shown(s'.index, s'.files, t) ==> y.event.id != id
  {
    var s1 := Step(g, s, op, now);
    StepKeeps(g, s, op, was, now);
    DeleteEnds(g, s, op, id, was, now);
    RunDies(g, s1, rest, now, id, 0);
    RunKeeps(g, s1, rest, now);
    forall t: int | 0 < t
      ensures forall y :: y in Shown(Run(g, s1, rest).index, Run(g, s1, rest).files, t) ==> y.event.id != id
    {
      DeadUnseen(Run(g, s1, rest), g.cap, id, 0, t);
    }
  }

  // ---------------------------------------------------------------- time to live

  /** Right after a save that returned OK the id has one file, and it carries the expiry. */
  lemma SaveDiesBy(g: Config, s: Store, ev: Event, was: int, now: u32)
    requires Inv(s, g.cap) && Track(s, was) && was <= now && Room(s, 1)
    requires SaveStatus(s, g.cap, ev, Written) == Ok
    requires 0 < ExpiryOf(now, g.ttl, ev.expiration)
    ensures DiesBy(Save(s, g.cap, g.ttl, ev, now, Written), ev.id, ExpiryOf(now, g.ttl, ev.expiration))
  {
    var x, p := ExpiryOf(now, g.ttl, ev.expiration), PathFor(ev.id, s.next);
    TombstonesHaveNoFile(s.index, s.files, ev.id);
    GoneFromSnapshot(s, s.index, s.files, was, ev.id);
    WriteDies(s.index, s.next, s.next, s.files, ev, Whole(ev), ev.id, 0);
    WriteDies(s.snap.entries, s.snap.next, s.next, s.files, ev, Whole(ev), ev.id, 0);
    var s' := Save(s, g.cap, g.ttl, ev, now, Written);
    forall i | 0 <= i < |s'.index|
      ensures EntryDiesBy(s'.index[i], s'.files, ev.id, x)
    {
      if i < |s.index| { assert EntryDiesBy(s.index[i], s'.files, ev.id, 0); }
    }
    forall i | 0 <= i < |s.snap.entries|
      ensures EntryDiesBy(s.snap.entries[i], s'.files, ev.id, x)
    {
      assert EntryDiesBy(s.snap.entries[i], s'.files, ev.id, 0);
    }
  }

  /** TTL safety: an event saved at `now` is shown at no instant past its expiry, whatever
      purges, queries, compactions, restarts and crashes come between, as long as no later
      save of it is answered OK (sending it again may well be refused). The expiry is
      positive and honours TTL and NIP-40 under the conditions of `ExpiryHonouredIff`. */
  lemma {:induction false} ExpiredStaysHidden(g: Config, s: Store, ev: Event, was: u32, now: u32, rest: seq<Timed>,
                                              t: int)
    requires Inv(s, g.cap) && Track(s, was) && was <= now && Room(s, 1 + |rest|) && Ordered(rest, now)
    requires SaveStatus(s, g.cap, ev, Written) == Ok
    requires Unsaved(g, Step(g, s, SaveOp(ev, Written), now), rest, ev.id)
    requires 0 < ExpiryOf(now, g.ttl, ev.expiration) < t
    ensures var s' := Run(g, Step(g, s, SaveOp(ev, Written), now), rest);
            forall y :: y in Shown(s'.index, s'.files, t) ==> y.event.id != ev.id
  {
    var s1, x := Step(g, s, SaveOp(ev, Written), now), ExpiryOf(now, g.ttl, ev.expiration);
    StepKeeps(g, s, SaveOp(ev, Written), was, now);
    SaveDiesBy(g, s, ev, was, now);
    RunDies(g, s1, rest, now, ev.id, x);
    RunKeeps(g, s1, rest, now);
    DeadUnseen(Run(g, s1, rest), g.cap, ev.id, x, t);
  }

  // ---------------------------------------------------------------- bounded reclamation

  /** The engine, with the running cleanup task's count of purges since its last compaction. */
  datatype Sched = Sched(store: Store, cycles: nat)

  /** The next locked call of the cleanup task (the cleaner), or any step of anyone else. */
  datatype Act = Task | Client(op: Op)

  datatype TimedAct = TimedAct(act: Act, now: u32)
  const COMPACT_EVERY: nat := 10

  /** The cleaner compacts when ten purges have gone by, and otherwise purges. The two are
      separate calls: clients may step in between. */
  function TaskCall(c: Sched, now: u32): Sched {
    if c.cycles >= COMPACT_EVERY then Sched(Compact(c.store), 0) else Sched(Purge(c.store, now), c.cycles + 1)
  }

  /** The cleaner's count after an act: a boot starts a new cleanup task, which counts from 0. */
  function CountAfter(cycles: nat, act: Act): nat {
    match act
    case Task => if cycles >= COMPACT_EVERY then 0 else cycles + 1
    case Client(op) => if Boots(op) then 0 else cycles
  }

  function ActStep(g: Config, c: Sched, a: TimedAct): Sched {
    match a.act
    case Task => TaskCall(c, a.now)
    case Client(op) => Sched(Step(g, c.store, op, a.now), if Boots(op) then 0 else c.cycles)
  }

  function ActRun(g: Config, c: Sched, acts: seq<TimedAct>): Sched
    decreases |acts|
  {
    if acts == [] then c else ActRun(g, ActStep(g, c, acts[0]), acts[1..])
  }

  /** Whatever has happened, the count is at most ten: a compaction follows the tenth purge. */
  lemma {:induction false} CyclesBounded(g: Config, c: Sched, acts: seq<TimedAct>)
    requires c.cycles <= 10
    ensures ActRun(g, c, acts).cycles <= 10
    decreases |acts|
  {
    if acts != [] {
      CyclesBounded(g, ActStep(g, c, acts[0]), acts[1..]);
    }
  }

  /** Orderly restarts allowed, crashes not: a crash brings back entries of the snapshot.
      Nobody but the cleaner compacts. */
  predicate Orderly(a: Act) {
    a.Client? ==> a.op.SaveOp? || a.op.DeleteOp? || a.op.QueryOp? || a.op.GetOp? || a.op.PurgeOp? || a.op.RestartOp?
  }

  predicate AllOrderly(acts: seq<TimedAct>) {
    forall j :: 0 <= j < |acts| ==> Orderly(acts[j].act)
  }

  /** Whether the cleaner compacts during the acts: it does once it gets eleven calls in a row
      from one boot, the purges already counted included. */
  predicate Compacts(cycles: nat, acts: seq<TimedAct>)
    decreases |acts|
  {
    acts != [] &&
    match acts[0].act
    case Task => cycles >= COMPACT_EVERY || Compacts(cycles + 1, acts[1..])
    case Client(op) => Compacts(if Boots(op) then 0 else cycles, acts[1..])
  }

  /** No live entry older than serial `k` had expired at `t`. */
  ghost predicate Buried(index: seq<Entry>, k: nat, t: int) {
    forall i :: 0 <= i < |index| && index[i].fileIndex < k && !index[i].deleted ==> !Expired(index[i], t)
  }

  /** No entry at all older than serial `k` had expired at `t`: they no longer take space. */
  ghost predicate Reclaimed(index: seq<Entry>, k: nat, t: int) {
    forall i :: 0 <= i < |index| && index[i].fileIndex < k ==> !Expired(index[i], t)
  }

  lemma CompactReclaims(s: Store, k: nat, t: int)
    ensures Buried(s.index, k, t) ==> Reclaimed(Compact(s).index, k, t)
    ensures Reclaimed(s.index, k, t) ==> Reclaimed(Compact(s).index, k, t)
  {
    LiveMembers(s.index);
    forall i | 0 <= i < |Live(s.index)|
      ensures Live(s.index)[i] in s.index && !Live(s.index)[i].deleted
    {
      assert Live(s.index)[i] in Live(s.index);
    }
  }

  predicate Follows(e: Entry, e': Entry) {
    e'.fileIndex == e.fileIndex && e'.expiresAt == e.expiresAt && (e.deleted ==> e'.deleted)
  }

  /** Entries keep their place, name and expiry, tombstones stay, and what is new is newer. */
  ghost predicate Extends(index: seq<Entry>, index': seq<Entry>, next: int) {
    && |index| <= |index'|
    && (forall i :: 0 <= i < |index| ==> Follows(index[i], index'[i]))
    && (forall i :: |index| <= i < |index'| ==> next <= index'[i].fileIndex)
  }

  lemma ExtendsReclaims(index: seq<Entry>, index': seq<Entry>, next: int, k: nat, t: int)
    requires Extends(index, index', next) && k <= next
    ensures Buried(index, k, t) ==> Buried(index', k, t)
    ensures Reclaimed(index, k, t) <==> Reclaimed(index', k, t)
  {
    if Reclaimed(index', k, t) {
      forall i | 0 <= i < |index| && index[i].fileIndex < k
        ensures !Expired(index[i], t)
      {
        assert Follows(index[i], index'[i]);
      }
    }
  }

  /** A step of a client neither revives an old entry nor brings one back, and takes none away. */
  lemma StepExtends(g: Config, s: Store, op: Op, now: u32)
    requires Orderly(Client(op)) && Room(s, 1)
    ensures s.next <= Step(g, s, op, now).next <= s.next + 1
    ensures Extends(s.index, Step(g, s, op, now).index, s.next)
  {
  }

  lemma PurgeExtends(s: Store, now: int)
    ensures Extends(s.index, Purge(s, now).index, s.next) && Purge(s, now).next == s.next
  {
  }

  /** One act: what is buried stays so, and leaves the index just when the cleaner compacts. */
  lemma ActReclaims(g: Config, c: Sched, a: TimedAct, k: nat, t: int)
    requires Orderly(a.act) && k <= c.store.next && Room(c.store, 1) && Buried(c.store.index, k, t)
    ensures var c' := ActStep(g, c, a);
            && c.store.next <= c'.store.next <= c.store.next + 1 && Buried(c'.store.index, k, t)
            && (Reclaimed(c'.store.index, k, t)
                <==> Reclaimed(c.store.index, k, t) || (a.act.Task? && c.cycles >= COMPACT_EVERY))
  {
    var c' := ActStep(g, c, a);
    match a.act {
      case Task =>
        if c.cycles >= COMPACT_EVERY {
          CompactReclaims(c.store, k, t);
          assert Reclaimed(c'.store.index, k, t) && Buried(c'.store.index, k, t);
        } else {
          PurgeExtends(c.store, a.now);
          ExtendsReclaims(c.store.index, c'.store.index, c.store.next, k, t);
        }
      case Client(op) =>
        StepExtends(g, c.store, op, a.now);
        ExtendsReclaims(c.store.index, c'.store.index, c.store.next, k, t);
    }
  }

  lemma StepCounts(g: Config, c: Sched, a: TimedAct)
    ensures ActStep(g, c, a).cycles == CountAfter(c.cycles, a.act)
  {
  }

  lemma {:induction false} CompactsCons(cycles: nat, acts: seq<TimedAct>)
    requires acts != []
    ensures Compacts(cycles, acts)
       <==> (acts[0].act.Task? && cycles >= COMPACT_EVERY) || Compacts(CountAfter(cycles, acts[0].act), acts[1..])
  {
  }

  /** What is buried leaves the index exactly when the cleaner compacts. */
  lemma {:induction false} ActsReclaim(g: Config, c: Sched, acts: seq<TimedAct>, k: nat, t: int)
    requires AllOrderly(acts) && k <= c.store.next && Room(c.store, |acts|)
    requires Buried(c.store.index, k, t)
    ensures Reclaimed(ActRun(g, c, acts).store.index, k, t)
       <==> Reclaimed(c.store.index, k, t) || Compacts(c.cycles, acts)
    decreases |acts|
  {
    if acts != [] {
      CompactsCons(c.cycles, acts);
      StepCounts(g, c, acts[0]);
      ActReclaims(g, c, acts[0], k, t);
      ActsReclaim(g, ActStep(g, c, acts[0]), acts[1..], k, t);
    }
  }

  lemma PurgeBuries(s: Store, now: int)
    ensures Buried(Purge(s, now).index, s.next, now)
  {
    forall i | 0 <= i < |s.index| && !s.index[i].deleted && Expired(s.index[i], now)
      ensures i in Stale(s.index, 0, |s.index|, now)
    {
    }
  }

  lemma PurgeReclaimsNone(s: Store, now: int, k: nat, t: int)
    requires k <= s.next
    ensures Reclaimed(s.index, k, t) <==> Reclaimed(Purge(s, now).index, k, t)
  {
    PurgeExtends(s, now);
    ExtendsReclaims(s.index, Purge(s, now).index, s.next, k, t);
  }

  lemma FirstPurge(c: Sched, now: u32)
    requires c.cycles < COMPACT_EVERY
    ensures var c', k := TaskCall(c, now), c.store.next;
            && c'.cycles == c.cycles + 1 && c'.store.next == k && Buried(c'.store.index, k, now)
            && (Reclaimed(c.store.index, k, now) <==> Reclaimed(c'.store.index, k, now))
  {
    PurgeBuries(c.store, now);
    PurgeReclaimsNone(c.store, now, c.store.next, now);
  }

  lemma ExtendsThen(a: seq<Entry>, b: seq<Entry>, c: seq<Entry>, next: int, later: int)
    requires Extends(a, b, next) && Extends(b, c, later) && next <= later
    ensures Extends(a, c, next)
  {
    forall i | 0 <= i < |a|
      ensures Follows(a[i], c[i])
    {
      assert Follows(a[i], b[i]) && Follows(b[i], c[i]);
    }
    forall i | |a| <= i < |c|
      ensures next <= c[i].fileIndex
    {
      if i < |b| { assert Follows(b[i], c[i]); }
    }
  }

  /** Until the cleaner compacts, every entry keeps its place. */
  lemma {:induction false} ActsExtend(g: Config, c: Sched, acts: seq<TimedAct>)
    requires AllOrderly(acts) && Room(c.store, |acts|) && !Compacts(c.cycles, acts)
    ensures Extends(c.store.index, ActRun(g, c, acts).store.index, c.store.next)
    decreases |acts|
  {
    if acts != [] {
      var c' := ActStep(g, c, acts[0]);
      match acts[0].act {
        case Task => PurgeExtends(c.store, acts[0].now);
        case Client(op) => StepExtends(g, c.store, op, acts[0].now);
      }
      ActsExtend(g, c', acts[1..]);
      ExtendsThen(c.store.index, c'.store.index, ActRun(g, c', acts[1..]).store.index, c.store.next, c'.store.next);
    }
  }

  /** Reclamation, exactly: when some entry has expired as the cleaner purges, all such entries
      are out of the index after any orderly acts if and only if the cleaner compacts in them. */
  lemma {:induction false} ReclaimedIff(g: Config, c: Sched, now: u32, acts: seq<TimedAct>)
    requires AllOrderly(acts) && Room(c.store, |acts|) && c.cycles < 10
    requires !Reclaimed(c.store.index, c.store.next, now)
    ensures Reclaimed(ActRun(g, TaskCall(c, now), acts).store.index, c.store.next, now)
       <==> Compacts(c.cycles + 1, acts)
  {
    FirstPurge(c, now);
    ActsReclaim(g, TaskCall(c, now), acts, c.store.next, now);
  }

  /** The cleaner's calls among the acts. */
  function Calls(acts: seq<TimedAct>): nat {
    if acts == [] then 0 else (if acts[0].act.Task? then 1 else 0) + Calls(acts[1..])
  }

  predicate NoBoot(acts: seq<TimedAct>) {
    forall j :: 0 <= j < |acts| && acts[j].act.Client? ==> !Boots(acts[j].act.op)
  }

  lemma {:induction false} EnoughCalls(cycles: nat, acts: seq<TimedAct>)
    requires NoBoot(acts) && cycles + Calls(acts) > COMPACT_EVERY && Calls(acts) > 0
    ensures Compacts(cycles, acts)
    decreases |acts|
  {
    if acts[0].act.Task? {
      if cycles < COMPACT_EVERY {
        EnoughCalls(cycles + 1, acts[1..]);
      }
    } else {
      EnoughCalls(cycles, acts[1..]);
    }
  }

  lemma {:induction false} CompactsWithin(cycles: nat, a: seq<TimedAct>, b: seq<TimedAct>)
    requires cycles <= COMPACT_EVERY && NoBoot(b) && Calls(b) > COMPACT_EVERY
    ensures Compacts(cycles, a + b)
    decreases |a|
  {
    if a == [] {
      assert a + b == b;
      EnoughCalls(cycles, b);
    } else {
      assert (a + b)[1..] == a[1..] + b;
      match a[0].act
      case Task => if cycles < COMPACT_EVERY { CompactsWithin(cycles + 1, a[1..], b); }
      case Client(op) => CompactsWithin(if Boots(op) then 0 else cycles, a[1..], b);
    }
  }

  /** What has expired when the cleaner purges is out of the index once it compacts. */
  lemma {:induction false} CompactingReclaims(g: Config, c: Sched, now: u32, acts: seq<TimedAct>)
    requires AllOrderly(acts) && Room(c.store, |acts|) && c.cycles < COMPACT_EVERY
    requires Compacts(c.cycles + 1, acts)
    ensures Reclaimed(ActRun(g, TaskCall(c, now), acts).store.index, c.store.next, now)
  {
    FirstPurge(c, now);
    ActsReclaim(g, TaskCall(c, now), acts, c.store.next, now);
  }

  /** Bounded reclamation: what has expired when the cleaner purges is out of the index after
      at most ten more of its calls, nine purges and a compaction, if it is not restarted
      among them; whatever clients do meanwhile, and whatever came before. */
  lemma {:induction false} ReclaimedWithinTenCycles(g: Config, c: Sched, now: u32, acts: seq<TimedAct>)
    requires AllOrderly(acts) && Room(c.store, |acts|) && c.cycles < 10
    requires NoBoot(acts) && Calls(acts) >= 10
    ensures Reclaimed(ActRun(g, TaskCall(c, now), acts).store.index, c.store.next, now)
  {
    EnoughCalls(c.cycles + 1, acts);
    CompactingReclaims(g, c, now, acts);
  }

  /** With restarts on the way, it takes eleven calls in a row between two of them. */
  lemma {:induction false} ReclaimedDespiteRestarts(g: Config, c: Sched, now: u32, before: seq<TimedAct>,
                                                    steady: seq<TimedAct>)
    requires AllOrderly(before + steady) && Room(c.store, |before| + |steady|) && c.cycles < 10
    requires NoBoot(steady) && Calls(steady) > 10
    ensures Reclaimed(ActRun(g, TaskCall(c, now), before + steady).store.index, c.store.next, now)
  {
    CompactsWithin(c.cycles + 1, before, steady);
    CompactingReclaims(g, c, now, before + steady);
  }

  function TaskCalls(n: nat, now: u32): seq<TimedAct> {
    seq(n, _ => TimedAct(Task, now))
  }

  lemma {:induction false} TaskCallsCount(cycles: nat, n: nat, now: u32, rest: seq<TimedAct>)
    requires cycles + n <= COMPACT_EVERY
    ensures Compacts(cycles, TaskCalls(n, now) + rest) <==> Compacts(cycles + n, rest)
    decreases n
  {
    if n == 0 {
      assert TaskCalls(0, now) + rest == rest;
    } else {
      assert (TaskCalls(n, now) + rest)[1..] == TaskCalls(n - 1, now) + rest;
      TaskCallsCount(cycles + 1, n - 1, now, rest);
    }
  }

  lemma {:induction false} CallsAppend(a: seq<TimedAct>, b: seq<TimedAct>)
    ensures Calls(a + b) == Calls(a) + Calls(b)
  {
    if a == [] {
      assert a + b == b;
    } else {
      assert (a + b)[1..] == a[1..] + b;
      CallsAppend(a[1..], b);
    }
  }

  lemma {:induction false} CallsOfTask(n: nat, now: u32)
    ensures Calls(TaskCalls(n, now)) == n
  {
    if n > 0 {
      assert TaskCalls(n, now)[1..] == TaskCalls(n - 1, now);
      CallsOfTask(n - 1, now);
    }
  }

  function RestartedCalls(now: u32): seq<TimedAct> {
    TaskCalls(8, now) + [TimedAct(Client(RestartOp), now)] + TaskCalls(9, now)
  }

  lemma RestartedNeverCompacts(now: u32)
    ensures !Compacts(1, RestartedCalls(now)) && AllOrderly(RestartedCalls(now))
  {
    var boot, last := [TimedAct(Client(RestartOp), now)], TaskCalls(9, now);
    assert RestartedCalls(now) == TaskCalls(8, now) + (boot + last);
    TaskCallsCount(1, 8, now, boot + last);
    assert (boot + last)[1..] == last;
    TaskCallsCount(0, 9, now, []);
    assert last + [] == last;
  }

  lemma RestartedCount(now: u32)
    ensures Calls(RestartedCalls(now)) == 17
  {
    var boot, last := [TimedAct(Client(RestartOp), now)], TaskCalls(9, now);
    assert RestartedCalls(now) == TaskCalls(8, now) + (boot + last);
    CallsAppend(TaskCalls(8, now), boot + last);
    CallsAppend(boot, last);
    CallsOfTask(8, now);
    CallsOfTask(9, now);
  }

  /** Ten cycles are not enough when a restart falls among them: after a purge, eight more,
      a restart and nine more, every entry of the index still has its place, expired or not. */
  lemma {:induction false} RestartDelaysReclaim(g: Config, s: Store, now: u32)
    requires Room(s, 18)
    ensures var index := ActRun(g, TaskCall(Sched(s, 0), now), RestartedCalls(now)).store.index;
            && Calls(RestartedCalls(now)) == 17
            && |s.index| <= |index|
            && forall i :: 0 <= i < |s.index| ==> Follows(s.index[i], index[i])
  {
    RestartedNeverCompacts(now);
    RestartedCount(now);
    PurgeExtends(s, now);
    var c := TaskCall(Sched(s, 0), now);
    ActsExtend(g, c, RestartedCalls(now));
    ExtendsThen(s.index, c.store.index, ActRun(g, c, RestartedCalls(now)).store.index, s.next, s.next);
  }

  /** Right after a compaction a save is refused as FULL only when live entries alone fill
      the index. */
  lemma FullOfLiveEntries(s: Store, cap: nat, ev: Event, fate: Fate)
    requires |s.index| <= cap && SaveStatus(Compact(s), cap, ev, fate) == Full
    ensures forall e :: e in Compact(s).index ==> !e.deleted
    ensures |Compact(s).index| == cap && Compact(s) == s
  {
    LiveMembers(s.index);
    LiveLength(s.index);
  }
}
