/** Deletion requests within whole runs: the snapshot bond survives them, and what they
    delete stays deleted. */
module DeletionRuns {
  import opened Bytes
  import opened Events
  import opened StoreSpec
  import opened NvsLayout
  import opened StorageEngine
  import opened Runs
  import opened Lifetimes
  import opened DeletionSpec

  /** A deletion keeps the snapshot's bond: every delete is durable at once, and only
      expired entries may lack their tombstone. */
  lemma DeletedTrack(s: Store, s': Store, d: set<nat>, x: set<nat>, was: int, now: int)
    requires Track(s, was) && was <= now && Deleted(s, s', d, x, now)
    ensures Track(s', now)
  {
    if d == {} && s'.snap == s.snap {
      assert d + x == x;
      TrackSwept(s, x, was, now);
      assert BuryAll(s, x) == s';
    } else {
      forall i | 0 <= i < |s'.snap.entries|
        ensures Aged(s'.snap.entries[i], s'.index[i], now)
      {
        assert Between(s.index[i], s'.snap.entries[i], s'.index[i], now);
      }
    }
  }

  /** No entry of a deleted position's id has a file any more. */
  lemma DeletedDies(s: Store, s': Store, d: set<nat>, x: set<nat>, now: int, i: nat)
    requires Inv(s, MAX_ENTRIES) && Deleted(s, s', d, x, now) && i in d
    ensures DiesBy(s', s.index[i].id, 0)
  {
    var id := s.index[i].id;
    BurySound(s.index, s.next, s.files, d + x);
    forall j | 0 <= j < |s'.index|
      ensures EntryDiesBy(s'.index[j], s'.files, id, 0)
    {
      assert FileOk(s'.index[j], s'.files);
      LiveApart(s.index, i, j);
    }
    forall j | 0 <= j < |s'.snap.entries|
      ensures EntryDiesBy(s'.snap.entries[j], s'.files, id, 0)
    {
      assert Between(s.index[j], s'.snap.entries[j], s'.index[j], now);
      assert EntryDiesBy(s'.index[j], s'.files, id, 0);
    }
  }

  /** Whatever a deletion request deleted is returned by no query and no get, through any
      later run with crashes in which no save of it is answered OK. */
  lemma {:induction false} DeletedForGood(g: Config, s: Store, s': Store, req: Request, del: Event, a: set<nat>,
                                          b: set<nat>, x: set<nat>, was: int, now: u32, rest: seq<Timed>, i: nat)
    requires g.cap <= MAX_ENTRIES && Inv(s, g.cap) && Track(s, was) && was <= now
    requires Processed(s, s', req, del, a, b, x, now) && i in a + b
    requires Ordered(rest, now) && Room(s', |rest|)
    requires Unsaved(g, s', rest, s.index[i].id)
    ensures var after := Run(g, s', rest);
            && Get(after, s.index[i].id).None?
            && forall t: int, y :: 0 < t && y in Shown(after.index, after.files, t) ==> y.event.id != s.index[i].id
  {
    var after := Run(g, s', rest);
    DeletedInv(s, s', g.cap, a + b, x, now);
    DeletedTrack(s, s', a + b, x, was, now);
    DeletedDies(s, s', a + b, x, now, i);
    RunDies(g, s', rest, now, s.index[i].id, 0);
    RunKeeps(g, s', rest, now);
    forall t: int | 0 < t
      ensures forall y :: y in Shown(after.index, after.files, t) ==> y.event.id != s.index[i].id
    {
      DeadUnseen(after, g.cap, s.index[i].id, 0, t);
    }
  }

  // ---------------------------------------------------------------- a request is a run

  /** Nothing but queries and deletes, all at one instant. */
  predicate Quiet(trace: seq<Timed>, now: u32) {
    forall k :: 0 <= k < |trace| ==> trace[k].now == now && (trace[k].op.QueryOp? || trace[k].op.DeleteOp?)
  }

  lemma {:induction false} QuietOrdered(trace: seq<Timed>, now: u32)
    requires Quiet(trace, now)
    ensures Ordered(trace, now) && EndTime(trace, now) == now
  {
    if trace != [] {
      QuietOrdered(trace[1..], now);
    }
  }

  lemma {:induction false} RunAppend(g: Config, s: Store, a: seq<Timed>, b: seq<Timed>)
    ensures Run(g, s, a + b) == Run(g, Run(g, s, a), b)
    decreases |a|
  {
    if a == [] {
      assert a + b == b;
    } else {
      assert (a + b)[1..] == a[1..] + b;
      RunAppend(g, Step(g, s, a[0].op, a[0].now), a[1..], b);
    }
  }

  lemma {:induction false} RunOne(g: Config, s: Store, op: Op, now: u32)
    ensures Run(g, s, [Timed(op, now)]) == Step(g, s, op, now)
  {
    assert Run(g, Step(g, s, op, now), []) == Step(g, s, op, now);
  }

  lemma ListedRun(g: Config, s: Store, req: Request, text: string, now: u32) returns (trace: seq<Timed>)
    ensures Quiet(trace, now) && Run(g, s, trace) == AfterListed(s, req, text)
  {
    trace := [];
    if Listed(s, req, text) {
      var op := DeleteOp(HexToBytes(text, 32).value);
      RunOne(g, s, op, now);
      trace := [Timed(op, now)];
    }
  }

  lemma {:induction false} IdsRun(g: Config, s: Store, req: Request, n: nat, now: u32) returns (trace: seq<Timed>)
    requires n <= |req.ids|
    ensures Quiet(trace, now) && Run(g, s, trace) == AfterIds(s, req, n)
  {
    trace := [];
    if n > 0 {
      var front := IdsRun(g, s, req, n - 1, now);
      var last := ListedRun(g, AfterIds(s, req, n - 1), req, req.ids[n - 1], now);
      RunAppend(g, s, front, last);
      trace := front + last;
    }
  }

  lemma {:induction false} EachRun(g: Config, s: Store, events: seq<Event>, dTag: Option<string>, now: u32)
      returns (trace: seq<Timed>)
    ensures Quiet(trace, now) && Run(g, s, trace) == DeleteEach(s, events, dTag)
    decreases |events|
  {
    trace := [];
    if events != [] {
      if TagFits(dTag, events[0]) {
        var op := DeleteOp(events[0].id);
        trace := EachRun(g, Delete(s, events[0].id), events[1..], dTag, now);
        RunAppend(g, s, [Timed(op, now)], trace);
        RunOne(g, s, op, now);
        trace := [Timed(op, now)] + trace;
      } else {
        trace := EachRun(g, s, events[1..], dTag, now);
      }
    }
  }

  lemma {:induction false} SelectorsRun(g: Config, s: Store, sels: seq<Selector>, now: u32) returns (trace: seq<Timed>)
    ensures Quiet(trace, now) && Run(g, s, trace) == AfterAll(s, sels, now)
    decreases |sels|
  {
    trace := [];
    if sels != [] {
      trace := SelectorsRun(g, s, sels[..|sels| - 1], now);
      var s1, sel := AfterAll(s, sels[..|sels| - 1], now), sels[|sels| - 1];
      var query := QueryOp(Stop(s1, sel, now));
      var deletes := EachRun(g, Swept(s1, Stop(s1, sel, now), now), Scanned(s1, Stop(s1, sel, now), now, sel.f),
                              sel.dTag, now);
      RunOne(g, s1, query, now);
      RunAppend(g, s1, [Timed(query, now)], deletes);
      RunAppend(g, s, trace, [Timed(query, now)] + deletes);
      trace := trace + ([Timed(query, now)] + deletes);
    }
  }

  /** A deletion request is a run of queries and deletes at one instant, so everything
      proved of runs, the refinement and the lifetimes included, holds of runs with
      deletion requests in them. */
  lemma RequestIsRun(g: Config, s: Store, req: Request, del: Event, now: u32) returns (trace: seq<Timed>)
    ensures Run(g, s, trace) == AfterRequest(s, req, del, now)
    ensures Ordered(trace, now) && EndTime(trace, now) == now
    ensures forall k :: 0 <= k < |trace| ==> trace[k].op.QueryOp? || trace[k].op.DeleteOp?
  {
    var ids := IdsRun(g, s, req, |req.ids|, now);
    var rest := SelectorsRun(g, AfterIds(s, req, |req.ids|), AllSelectors(req, del), now);
    RunAppend(g, s, ids, rest);
    trace := ids + rest;
    QuietOrdered(trace, now);
  }
}
