/** What a REQ replay and a fan-out send, as functions of the store and the subscription
    table, and what a client can rely on. */
module Delivery {
  import opened Bytes
  import opened Events
  import opened StoreSpec
  import opened NvsLayout
  import opened StorageEngine
  import opened Answers
  import S = SubTable

  const DEFAULT_LIMIT: u16 := 100
  const MAX_SENT_IDS: nat := 64

  datatype Message =
    | EventMsg(fd: int, subId: string, event: Event)
    | EoseMsg(fd: int, subId: string)
    | ClosedMsg(fd: int, subId: string, reason: string)
    | OkMsg(fd: int, id: Key, accepted: bool)

  /** The limit of a filter as the handler passes it on, in 16 bits. */
  function LimitOf(f: Filter): u16 {
    if f.limit > 0 then f.limit % 0x1_0000 else DEFAULT_LIMIT
  }

  /** The answer of one query of a REQ. */
  ghost function ResultsOf(s: Store, f: Filter, now: int): seq<Event> {
    Take(Newest(Shown(s.index, s.files, now), f), Min(LimitOf(f), MAX_RESULTS))
  }

  /** What one filter of a REQ is answered with: 100 events at most when it sets no limit, and
      otherwise as many as the low 16 bits of its limit say, up to 500; the newest saves first. */
  lemma ResultsAnswer(s: Store, f: Filter, now: int) returns (hits: seq<Saved>)
    requires Inv(s, 5000)
    ensures IsAnswer(Shown(s.index, s.files, now), f, if f.limit <= 0 then 100 else Min(f.limit % 65536, 500),
                    ResultsOf(s, f, now), hits)
  {
    hits := QueryAnswers(s, f, LimitOf(f), now);
  }

  /** A positive limit is honoured, up to 500, unless it needs more than 16 bits; one that
      is a multiple of 65536 returns nothing at all. */
  lemma LimitHonouredIff(f: Filter)
    requires f.limit > 0
    ensures Min(LimitOf(f), MAX_RESULTS) == Min(f.limit, 500) <==> f.limit < 65536 || f.limit % 65536 >= 500
    ensures LimitOf(f) == 0 <==> f.limit % 65536 == 0
  {
  }

  /** The results of the first n queries, one after the other. */
  ghost function AllResults(s: Store, filters: seq<Filter>, n: nat, now: int): seq<Event>
    requires n <= |filters|
  {
    if n == 0 then [] else AllResults(s, filters, n - 1, now) + ResultsOf(s, filters[n - 1], now)
  }

  // ---------------------------------------------------------------- capped duplicate suppression

  function IdsOf(events: seq<Event>): (ids: seq<Key>)
    ensures |ids| == |events|
  {
    seq(|events|, i requires 0 <= i < |events| => events[i].id)
  }

  function Recorded(seen: seq<Key>, id: Key): seq<Key> {
    if |seen| < MAX_SENT_IDS then seen + [id] else seen
  }

  /** The events that pass the buffer of sent ids, and the buffer afterwards: it records the
      first 64 ids sent and then stops recording. */
  function Replayed(results: seq<Event>, seen: seq<Key>): seq<Event> {
    if results == [] then []
    else if results[0].id in seen then Replayed(results[1..], seen)
    else [results[0]] + Replayed(results[1..], Recorded(seen, results[0].id))
  }

  function SeenAfter(results: seq<Event>, seen: seq<Key>): seq<Key> {
    if results == [] then seen
    else if results[0].id in seen then SeenAfter(results[1..], seen)
    else SeenAfter(results[1..], Recorded(seen, results[0].id))
  }

  lemma {:induction false} ReplayedSnoc(results: seq<Event>, e: Event, seen: seq<Key>)
    ensures var buffer := SeenAfter(results, seen);
            && Replayed(results + [e], seen) == Replayed(results, seen) + (if e.id in buffer then [] else [e])
            && SeenAfter(results + [e], seen) == if e.id in buffer then buffer else Recorded(buffer, e.id)
  {
    if results == [] {
      assert results + [e] == [e];
    } else {
      assert (results + [e])[1..] == results[1..] + [e];
      ReplayedSnoc(results[1..], e, if results[0].id in seen then seen else Recorded(seen, results[0].id));
    }
  }

  /** Starting from a buffer, nothing recorded in it is sent, everything sent was a result,
      and every result is sent or shares its id with something sent or recorded. */
  lemma {:induction false} ReplayedUnion(results: seq<Event>, seen: seq<Key>)
    ensures forall e :: e in Replayed(results, seen) ==> e in results && e.id !in seen
    ensures forall e :: e in results ==> e.id in seen || e.id in IdsOf(Replayed(results, seen))
  {
    if results != [] {
      var e, rest := results[0], results[1..];
      var next := if e.id in seen then seen else Recorded(seen, e.id);
      ReplayedUnion(rest, next);
      assert results == [e] + rest;
      if e.id !in seen {
        var sent := Replayed(results, seen);
        assert sent == [e] + Replayed(rest, next);
        assert IdsOf(sent)[0] == e.id;
        forall i | 0 <= i < |Replayed(rest, next)|
          ensures IdsOf(Replayed(rest, next))[i] in IdsOf(sent)
        {
          assert IdsOf(sent)[i + 1] == IdsOf(Replayed(rest, next))[i];
        }
      }
    }
  }

  /** Ids sent before the buffer filled up are never sent again. */
  lemma {:induction false} EarlyIdsOnce(results: seq<Event>, seen: seq<Key>, p: nat, q: nat)
    requires |seen| <= 64
    requires p < q < |Replayed(results, seen)| && p + |seen| < 64
    ensures Replayed(results, seen)[p].id != Replayed(results, seen)[q].id
  {
    if results != [] {
      var e, rest := results[0], results[1..];
      if e.id in seen {
        EarlyIdsOnce(rest, seen, p, q);
      } else {
        var next := Recorded(seen, e.id);
        assert Replayed(results, seen)[1..] == Replayed(rest, next);
        if p == 0 {
          ReplayedUnion(rest, next);
          assert Replayed(results, seen)[q] == Replayed(rest, next)[q - 1];
          assert Replayed(rest, next)[q - 1] in Replayed(rest, next);
        } else {
          EarlyIdsOnce(rest, next, p - 1, q - 1);
        }
      }
    }
  }

  lemma {:induction false} AllVisible(s: Store, filters: seq<Filter>, n: nat, now: int)
    requires n <= |filters|
    ensures forall e :: e in AllResults(s, filters, n, now)
              ==> exists x: Saved :: x in Shown(s.index, s.files, now) && x.event == e
  {
    if n > 0 {
      AllVisible(s, filters, n - 1, now);
      var list := Shown(s.index, s.files, now);
      NewestVisible(list, filters[n - 1]);
      var results := ResultsOf(s, filters[n - 1], now);
      forall e | e in results
        ensures exists x: Saved :: x in list && x.event == e
      {
        assert e in Newest(list, filters[n - 1]);
      }
    }
  }

  /** Visible events with one id are one event. */
  lemma {:induction false} VisibleById(s: Store, now: int, x: Saved, y: Saved)
    requires Inv(s, MAX_ENTRIES) && x.event.id == y.event.id
    requires x in Shown(s.index, s.files, now) && y in Shown(s.index, s.files, now)
    ensures x == y
  {
    ShownMembers(s.index, s.files, now);
    var i :| 0 <= i < |s.index| && ShowOne(s.index[i], s.files, now) == [x];
    var j :| 0 <= j < |s.index| && ShowOne(s.index[j], s.files, now) == [y];
    assert FileOk(s.index[i], s.files) && FileOk(s.index[j], s.files);
    LiveApart(s.index, i, j);
  }

  lemma {:induction false} ResultsById(s: Store, filters: seq<Filter>, now: int, a: Event, b: Event)
    requires Inv(s, MAX_ENTRIES) && a.id == b.id
    requires a in AllResults(s, filters, |filters|, now) && b in AllResults(s, filters, |filters|, now)
    ensures a == b
  {
    AllVisible(s, filters, |filters|, now);
    var x: Saved :| x in Shown(s.index, s.files, now) && x.event == a;
    var y: Saved :| y in Shown(s.index, s.files, now) && y.event == b;
    VisibleById(s, now, x, y);
  }

  /** Delivery of a REQ: what is sent is exactly the union of the per-filter results, and
      the first 64 events sent are never repeated, nor is anything if no more than 64 are. */
  lemma {:induction false} ReplayDelivers(s: Store, filters: seq<Filter>, now: int)
    requires Inv(s, MAX_ENTRIES)
    ensures var results := AllResults(s, filters, |filters|, now);
            var sent := Replayed(results, []);
            && (forall e :: e in sent <==> e in results)
            && (forall p: nat, q: nat :: p < q < |sent| && p < 64 ==> sent[p].id != sent[q].id)
  {
    var results := AllResults(s, filters, |filters|, now);
    var sent := Replayed(results, []);
    ReplayedUnion(results, []);
    forall e | e in results
      ensures e in sent
    {
      var i :| 0 <= i < |sent| && IdsOf(sent)[i] == e.id;
      assert sent[i] in sent;
      ResultsById(s, filters, now, sent[i], e);
    }
    forall p: nat, q: nat | p < q < |sent| && p < 64
      ensures sent[p].id != sent[q].id
    {
      EarlyIdsOnce(results, [], p, q);
    }
  }

  lemma TakeIds(sent: seq<Event>, e: Event)
    ensures var ids := Take(IdsOf(sent), 64);
            Take(IdsOf(sent + [e]), 64) == if |ids| < 64 then ids + [e.id] else ids
  {
    assert IdsOf(sent + [e]) == IdsOf(sent) + [e.id];
  }

  /** The buffer holds the ids of the first 64 events sent. */
  lemma {:induction false} BufferIs(results: seq<Event>)
    ensures SeenAfter(results, []) == Take(IdsOf(Replayed(results, [])), 64)
  {
    if results != [] {
      var front, last := results[..|results| - 1], results[|results| - 1];
      assert results == front + [last];
      BufferIs(front);
      ReplayedSnoc(front, last, []);
      TakeIds(Replayed(front, []), last);
    }
  }

  /** A result is suppressed exactly when one of the first 64 events sent before it has its id. */
  lemma {:induction false} SuppressedIff(before: seq<Event>, e: Event)
    ensures var sent := Replayed(before, []);
            Replayed(before + [e], []) ==
              if exists i :: 0 <= i < 64 && i < |sent| && sent[i].id == e.id then sent else sent + [e]
  {
    var sent := Replayed(before, []);
    BufferIs(before);
    ReplayedSnoc(before, e, []);
    if e.id in Take(IdsOf(sent), 64) {
      var i :| 0 <= i < |Take(IdsOf(sent), 64)| && Take(IdsOf(sent), 64)[i] == e.id;
      assert sent[i].id == e.id;
    }
    if i :| 0 <= i < 64 && i < |sent| && sent[i].id == e.id {
      assert Take(IdsOf(sent), 64)[i] == e.id;
    }
  }

  // ---------------------------------------------------------------- the order of a replay

  /** `at` are the positions of the results that are sent. */
  ghost predicate Picks(results: seq<Event>, sent: seq<Event>, at: seq<nat>) {
    && |at| == |sent|
    && (forall i :: 0 <= i < |at| ==> at[i] < |results| && results[at[i]] == sent[i])
    && forall i, j :: 0 <= i < j < |at| ==> at[i] < at[j]
  }

  /** Nothing before its position has the id of the i-th event sent. */
  ghost predicate IsFirst(results: seq<Event>, sent: seq<Event>, at: seq<nat>, i: nat)
    requires Picks(results, sent, at) && i < |sent|
  {
    forall p :: 0 <= p < at[i] ==> results[p].id != sent[i].id
  }

  function Shifted(at: seq<nat>): (r: seq<nat>)
    ensures |r| == |at| && forall i :: 0 <= i < |at| ==> r[i] == at[i] + 1
  {
    seq(|at|, i requires 0 <= i < |at| => at[i] + 1)
  }

  /** So it is for the first event sent and the next `room`. */
  ghost predicate Firsts(results: seq<Event>, sent: seq<Event>, at: seq<nat>, room: int) {
    Picks(results, sent, at) && forall i :: 0 <= i < |sent| && i <= room ==> IsFirst(results, sent, at, i)
  }

  lemma SkippedFirst(results: seq<Event>, sent: seq<Event>, at: seq<nat>, room: int)
    requires results != [] && Firsts(results[1..], sent, at, room)
    requires forall e :: e in sent ==> e.id != results[0].id
    ensures Firsts(results, sent, Shifted(at), room)
  {
    forall i | 0 <= i < |sent| && i <= room
      ensures IsFirst(results, sent, Shifted(at), i)
    {
      assert IsFirst(results[1..], sent, at, i) && sent[i] in sent;
      assert forall p :: 0 < p < at[i] + 1 ==> results[p] == results[1..][p - 1];
    }
  }

  lemma ConsPicks(results: seq<Event>, sent: seq<Event>, at: seq<nat>)
    requires results != [] && Picks(results[1..], sent, at)
    ensures Picks(results, sent, Shifted(at)) && Picks(results, [results[0]] + sent, [0] + Shifted(at))
  {
  }

  lemma ConsFirst(results: seq<Event>, sent: seq<Event>, at: seq<nat>, i: nat)
    requires results != [] && Picks(results[1..], sent, at) && i < |sent|
    requires IsFirst(results[1..], sent, at, i) && sent[i].id != results[0].id
    requires Picks(results, [results[0]] + sent, [0] + Shifted(at))
    ensures IsFirst(results, [results[0]] + sent, [0] + Shifted(at), i + 1)
  {
    forall p | 0 <= p < at[i] + 1
      ensures results[p].id != sent[i].id
    {
      if p > 0 { assert results[p] == results[1..][p - 1]; }
    }
  }

  lemma SentFirst(results: seq<Event>, sent: seq<Event>, at: seq<nat>, room: int)
    requires results != [] && Firsts(results[1..], sent, at, room - 1)
    requires room > 0 ==> forall e :: e in sent ==> e.id != results[0].id
    ensures Firsts(results, [results[0]] + sent, [0] + Shifted(at), room)
  {
    var all, places := [results[0]] + sent, [0] + Shifted(at);
    ConsPicks(results, sent, at);
    forall i | 0 <= i < |all| && i <= room
      ensures IsFirst(results, all, places, i)
    {
      if i > 0 {
        assert IsFirst(results[1..], sent, at, i - 1) && sent[i - 1] in sent;
        ConsFirst(results, sent, at, i - 1);
      }
    }
  }

  lemma {:induction false} SentAt(results: seq<Event>, seen: seq<Key>) returns (at: seq<nat>)
    ensures Firsts(results, Replayed(results, seen), at, 64 - |seen|)
  {
    at := [];
    if results != [] {
      var e, rest := results[0], results[1..];
      if e.id in seen {
        at := SentAt(rest, seen);
        ReplayedUnion(rest, seen);
        SkippedFirst(results, Replayed(rest, seen), at, 64 - |seen|);
        at := Shifted(at);
      } else {
        var next := Recorded(seen, e.id);
        at := SentAt(rest, next);
        ReplayedUnion(rest, next);
        SentFirst(results, Replayed(rest, next), at, 64 - |seen|);
        at := [0] + Shifted(at);
      }
    }
  }

  /** Position p of all the results is position q of the k-th query's. */
  lemma {:induction false} PlaceOf(s: Store, filters: seq<Filter>, n: nat, now: int, p: nat) returns (k: nat, q: nat)
    requires n <= |filters| && p < |AllResults(s, filters, n, now)|
    ensures k < n && q < |ResultsOf(s, filters[k], now)|
    ensures p == |AllResults(s, filters, k, now)| + q
    ensures AllResults(s, filters, n, now)[p] == ResultsOf(s, filters[k], now)[q]
  {
    var front := |AllResults(s, filters, n - 1, now)|;
    if p < front {
      k, q := PlaceOf(s, filters, n - 1, now, p);
    } else {
      k, q := n - 1, p - front;
    }
  }

  lemma {:induction false} AllResultsGrow(s: Store, filters: seq<Filter>, k: nat, l: nat, now: int)
    requires k <= l <= |filters|
    ensures |AllResults(s, filters, k, now)| <= |AllResults(s, filters, l, now)|
  {
    if k < l {
      AllResultsGrow(s, filters, k, l - 1, now);
    }
  }

  /** The results of an earlier query lie before those of a later one. */
  lemma {:induction false} EarlierQuery(s: Store, filters: seq<Filter>, m: nat, k: nat, n: nat, now: int, e: Event)
      returns (p: nat)
    requires m < k <= n <= |filters| && e in ResultsOf(s, filters[m], now)
    ensures p < |AllResults(s, filters, k, now)| <= |AllResults(s, filters, n, now)|
    ensures AllResults(s, filters, n, now)[p] == e
    decreases n
  {
    AllResultsGrow(s, filters, k, n, now);
    if n == m + 1 {
      var q :| 0 <= q < |ResultsOf(s, filters[m], now)| && ResultsOf(s, filters[m], now)[q] == e;
      p := |AllResults(s, filters, m, now)| + q;
    } else {
      p := EarlierQuery(s, filters, m, if k < n then k else n - 1, n - 1, now, e);
    }
  }

  /** Query k is the first that returns the event. */
  ghost predicate FirstIn(s: Store, filters: seq<Filter>, now: int, e: Event, k: nat) {
    && k < |filters| && e in ResultsOf(s, filters[k], now)
    && forall m :: 0 <= m < k ==> e !in ResultsOf(s, filters[m], now)
  }

  /** The save of event a is newer than that of b. */
  ghost predicate Newer(s: Store, now: int, a: Event, b: Event) {
    exists x, y :: x in Shown(s.index, s.files, now) && y in Shown(s.index, s.files, now)
      && x.event == a && y.event == b && x.serial > y.serial
  }

  lemma ResultsNewer(s: Store, f: Filter, now: int, p: nat, q: nat)
    requires Inv(s, MAX_ENTRIES) && p < q < |ResultsOf(s, f, now)|
    ensures Newer(s, now, ResultsOf(s, f, now)[p], ResultsOf(s, f, now)[q])
  {
    var hits := ResultsAnswer(s, f, now);
    assert hits[p] in hits && hits[q] in hits;
  }

  /** Event a is sent before event b: an earlier query returns it first, or the same query
      does and its save is newer. */
  ghost predicate Precedes(s: Store, filters: seq<Filter>, now: int, a: Event, b: Event) {
    exists k: nat, l: nat :: k <= l && FirstIn(s, filters, now, a, k) && FirstIn(s, filters, now, b, l)
      && (k == l ==> Newer(s, now, a, b))
  }

  lemma FirstPlace(s: Store, filters: seq<Filter>, now: int, p: nat) returns (k: nat, q: nat)
    requires Inv(s, MAX_ENTRIES)
    requires var all := AllResults(s, filters, |filters|, now);
             p < |all| && forall r :: 0 <= r < p ==> all[r].id != all[p].id
    ensures FirstIn(s, filters, now, AllResults(s, filters, |filters|, now)[p], k)
    ensures q < |ResultsOf(s, filters[k], now)| && p == |AllResults(s, filters, k, now)| + q
    ensures AllResults(s, filters, |filters|, now)[p] == ResultsOf(s, filters[k], now)[q]
  {
    var e := AllResults(s, filters, |filters|, now)[p];
    k, q := PlaceOf(s, filters, |filters|, now, p);
    forall m | 0 <= m < k
      ensures e !in ResultsOf(s, filters[m], now)
    {
      if e in ResultsOf(s, filters[m], now) {
        var r := EarlierQuery(s, filters, m, k, |filters|, now, e);
        assert false;
      }
    }
  }

  lemma {:induction false} PlacesInOrder(s: Store, filters: seq<Filter>, now: int, k: nat, q: nat, l: nat, r: nat)
    requires k < |filters| && q < |ResultsOf(s, filters[k], now)|
    requires l < |filters| && r < |ResultsOf(s, filters[l], now)|
    requires |AllResults(s, filters, k, now)| + q < |AllResults(s, filters, l, now)| + r
    ensures k <= l && (k == l ==> q < r)
  {
    if l < k { AllResultsGrow(s, filters, l + 1, k, now); }
  }

  /** The order of a replay: among the first 64 events sent, those of an earlier filter come
      first, and of one filter the newest saves. */
  lemma {:induction false} ReplayOrder(s: Store, filters: seq<Filter>, now: int, i: nat, j: nat)
    requires Inv(s, MAX_ENTRIES)
    requires i < j < 64 && j < |Replayed(AllResults(s, filters, |filters|, now), [])|
    ensures var sent := Replayed(AllResults(s, filters, |filters|, now), []);
            Precedes(s, filters, now, sent[i], sent[j])
  {
    var results := AllResults(s, filters, |filters|, now);
    var sent := Replayed(results, []);
    var at := SentAt(results, []);
    assert IsFirst(results, sent, at, i) && IsFirst(results, sent, at, j);
    var k, q := FirstPlace(s, filters, now, at[i]);
    var l, r := FirstPlace(s, filters, now, at[j]);
    PlacesInOrder(s, filters, now, k, q, l, r);
    if k == l { ResultsNewer(s, filters[k], now, q, r); }
  }

  // ---------------------------------------------------------------- messages

  function EventMsgs(fd: int, id: string, events: seq<Event>): (r: seq<Message>)
    ensures |r| == |events|
  {
    seq(|events|, i requires 0 <= i < |events| => EventMsg(fd, id, events[i]))
  }

  /** The messages `sent` answer a REQ the relay accepted: they all go to that subscription;
      the last one, and no other, is EOSE; an event is sent if and only if some filter's query
      returns it. With a buffer of sent ids (`once`) none of the first 64 events is repeated,
      and these come in the order of the filters and then of the saves, newest first. */
  ghost predicate Streams(s: Store, filters: seq<Filter>, now: int, fd: int, id: string, once: bool,
                          sent: seq<Message>)
  {
    && |sent| > 0 && sent[|sent| - 1] == EoseMsg(fd, id)
    && (forall i :: 0 <= i < |sent| - 1 ==> sent[i].EventMsg? && sent[i].fd == fd && sent[i].subId == id)
    && (forall e :: EventMsg(fd, id, e) in sent
          <==> exists k :: 0 <= k < |filters| && e in ResultsOf(s, filters[k], now))
    && (once ==> forall i: nat, j: nat :: i < j < |sent| - 1 && i < 64 ==> sent[i].event.id != sent[j].event.id)
    && (once ==> forall i: nat, j: nat :: i < j < 64 && j < |sent| - 1 ==>
          Precedes(s, filters, now, sent[i].event, sent[j].event))
  }

  lemma {:induction false} InAllResults(s: Store, filters: seq<Filter>, n: nat, now: int, e: Event)
    requires n <= |filters|
    ensures e in AllResults(s, filters, n, now) <==> exists k :: 0 <= k < n && e in ResultsOf(s, filters[k], now)
  {
    if n > 0 {
      InAllResults(s, filters, n - 1, now, e);
    }
  }

  lemma MsgsOf(fd: int, id: string, events: seq<Event>, e: Event)
    ensures EventMsg(fd, id, e) in EventMsgs(fd, id, events) + [EoseMsg(fd, id)] <==> e in events
  {
    var sent := EventMsgs(fd, id, events) + [EoseMsg(fd, id)];
    if e in events {
      var i :| 0 <= i < |events| && events[i] == e;
      assert sent[i] == EventMsg(fd, id, e);
    }
  }

  lemma {:induction false} StreamsOf(s: Store, filters: seq<Filter>, now: int, fd: int, id: string, once: bool,
                                     events: seq<Event>)
    requires Inv(s, MAX_ENTRIES)
    requires var results := AllResults(s, filters, |filters|, now);
             events == if once then Replayed(results, []) else results
    ensures Streams(s, filters, now, fd, id, once, EventMsgs(fd, id, events) + [EoseMsg(fd, id)])
  {
    var sent := EventMsgs(fd, id, events) + [EoseMsg(fd, id)];
    ReplayDelivers(s, filters, now);
    forall e
      ensures EventMsg(fd, id, e) in sent <==> exists k :: 0 <= k < |filters| && e in ResultsOf(s, filters[k], now)
    {
      MsgsOf(fd, id, events, e);
      InAllResults(s, filters, |filters|, now, e);
    }
    forall i: nat, j: nat | once && i < j < 64 && j < |sent| - 1
      ensures Precedes(s, filters, now, sent[i].event, sent[j].event)
    {
      ReplayOrder(s, filters, now, i, j);
    }
  }

  function FanoutMsgs(matches: seq<S.Match>, ev: Event): (r: seq<Message>)
    ensures |r| == |matches|
  {
    seq(|matches|, i requires 0 <= i < |matches| => EventMsg(matches[i].fd, matches[i].subId, ev))
  }

  lemma {:induction false} FanoutCount(matches: seq<S.Match>, ev: Event, fd: int, id: string)
    ensures multiset(FanoutMsgs(matches, ev))[EventMsg(fd, id, ev)] == multiset(matches)[S.Match(fd, id)]
  {
    if matches != [] {
      var front, last := matches[..|matches| - 1], matches[|matches| - 1];
      FanoutCount(front, ev, fd, id);
      assert matches == front + [last];
      assert FanoutMsgs(matches, ev) == FanoutMsgs(front, ev) + [EventMsg(last.fd, last.subId, ev)];
    }
  }

  /** Fan-out exactness: one send to each subscription that wants the event, none to any
      other, and no more than 64. */
  lemma {:induction false} FanoutExact(slots: seq<S.Slot>, ev: Event, onEmpty: bool, fd: int, id: string)
    requires S.KeysDistinct(slots) && |slots| == 64
    ensures var sent := FanoutMsgs(S.Matching(slots, ev, onEmpty, |slots|), ev);
            && |sent| <= 64
            && multiset(sent)[EventMsg(fd, id, ev)] == if S.Wants(slots, (fd, id), ev, onEmpty) then 1 else 0
  {
    FanoutCount(S.Matching(slots, ev, onEmpty, |slots|), ev, fd, id);
    S.MatchedOnce(slots, ev, onEmpty, fd, id);
  }

  /** A subscription of the table wants the event: one of its filters accepts it. */
  ghost predicate Subscribed(slots: seq<S.Slot>, ev: Event, onEmpty: bool, fd: int, id: string) {
    && (fd, id) in S.Table(slots)
    && var filters := S.Table(slots)[(fd, id)];
       (filters == [] && onEmpty) || exists f :: f in filters && Accepts(f, ev)
  }

  /** The messages `sent` are one for each subscription that wants the event. */
  ghost predicate FannedOut(slots: seq<S.Slot>, ev: Event, onEmpty: bool, sent: seq<Message>) {
    && |sent| <= 64 && (forall m :: m in sent ==> m.EventMsg? && m.event == ev)
    && forall fd: int, id: string ::
         multiset(sent)[EventMsg(fd, id, ev)] == if Subscribed(slots, ev, onEmpty, fd, id) then 1 else 0
  }

  lemma {:induction false} FansOut(slots: seq<S.Slot>, ev: Event, onEmpty: bool)
    requires S.KeysDistinct(slots) && |slots| == 64
    ensures FannedOut(slots, ev, onEmpty, FanoutMsgs(S.Matching(slots, ev, onEmpty, |slots|), ev))
  {
    var sent := FanoutMsgs(S.Matching(slots, ev, onEmpty, |slots|), ev);
    forall fd: int, id: string
      ensures multiset(sent)[EventMsg(fd, id, ev)] == if Subscribed(slots, ev, onEmpty, fd, id) then 1 else 0
    {
      FanoutExact(slots, ev, onEmpty, fd, id);
    }
  }
}
