/** The message handlers over the storage engine and the tables: EVENT, REQ and fan-out. */
module Handlers {
  import opened Bytes
  import opened Events
  import opened Index
  import opened StoreSpec
  import opened NvsLayout
  import opened StorageEngine
  import opened Delivery
  import D = DeletionSpec
  import Deletion
  import S = SubTable
  import R = RateLimiter
  import Relay
  import opened Server

  /** What queries leave of a store: nothing visible from `now` on has changed. */
  ghost predicate SameFromNow(s: Store, s': Store, now: int) {
    && Inv(s', MAX_ENTRIES) && s'.snap == s.snap && s'.next == s.next
    && forall t: int :: now <= t ==> Shown(s'.index, s'.files, t) == Shown(s.index, s.files, t)
  }

  lemma QueryKeepsView(s: Store, s1: Store, stop: nat, now: int)
    requires Inv(s1, MAX_ENTRIES) && SameFromNow(s, s1, now)
    ensures SameFromNow(s, Swept(s1, stop, now), now)
  {
    var w := Stale(s1.index, stop, |s1.index|, now);
    BuryInv(s1, MAX_ENTRIES, w);
    forall t: int | now <= t
      ensures Shown(Swept(s1, stop, now).index, Swept(s1, stop, now).files, t) == Shown(s.index, s.files, t)
    {
      BuryStaleUnseen(s1, MAX_ENTRIES, w, now, t);
    }
  }

  /** One query of a REQ: its results are those of the store the REQ began with. */
  method QueryOne(engine: Engine, f: Filter, now: u32, ghost s: Store) returns (events: seq<Event>)
    requires engine.Layout() && Inv(engine.Abs(), MAX_ENTRIES) && SameFromNow(s, engine.Abs(), now)
    modifies engine, engine.index
    ensures engine.Layout() && SameFromNow(s, engine.Abs(), now)
    ensures events == ResultsOf(s, f, now)
  {
    ghost var s1 := engine.Abs();
    ghost var stop;
    var limit := if f.limit > 0 then f.limit % 0x1_0000 else DEFAULT_LIMIT;
    events, stop := engine.QueryEvents(f, limit, now);
    QueryKeepsView(s, s1, stop, now);
  }

  /** The search of the ids sent so far. */
  method WasSent(ids: seq<Key>, id: Key) returns (found: bool)
    ensures found <==> id in ids
  {
    for k := 0 to |ids|
      invariant id !in ids[..k]
    {
      if ids[k] == id {
        return true;
      }
    }
    found := false;
  }

  /** One result: sent unless its id is in the buffer, and recorded while there is room. */
  method SendNext(event: Event, sentBefore: seq<Event>, ids: seq<Key>, haveBuffer: bool, ghost done: seq<Event>)
    returns (sent: seq<Event>, sentIds: seq<Key>)
    requires sentBefore == if haveBuffer then Replayed(done, []) else done
    requires haveBuffer ==> ids == SeenAfter(done, [])
    ensures sent == if haveBuffer then Replayed(done + [event], []) else done + [event]
    ensures haveBuffer ==> sentIds == SeenAfter(done + [event], [])
  {
    ReplayedSnoc(done, event, []);
    sent, sentIds := sentBefore, ids;
    var duplicate := false;
    if haveBuffer {
      duplicate := WasSent(ids, event.id);
    }
    if !duplicate {
      sent := sent + [event];
      if haveBuffer && |ids| < MAX_SENT_IDS {
        sentIds := sentIds + [event.id];
      }
    }
  }

  /** The inner loop: each event not in the buffer is sent, and recorded while there is room. */
  method SendNew(events: seq<Event>, sentBefore: seq<Event>, ids: seq<Key>, haveBuffer: bool, ghost done: seq<Event>)
      returns (sent: seq<Event>, sentIds: seq<Key>)
    requires sentBefore == if haveBuffer then Replayed(done, []) else done
    requires haveBuffer ==> ids == SeenAfter(done, [])
    ensures sent == if haveBuffer then Replayed(done + events, []) else done + events
    ensures haveBuffer ==> sentIds == SeenAfter(done + events, [])
  {
    sent, sentIds := sentBefore, ids;
    assert done + events[..0] == done;
    for e := 0 to |events|
      invariant sent == if haveBuffer then Replayed(done + events[..e], []) else done + events[..e]
      invariant haveBuffer ==> sentIds == SeenAfter(done + events[..e], [])
    {
      assert done + events[..e + 1] == done + events[..e] + [events[e]];
      sent, sentIds := SendNext(events[e], sent, sentIds, haveBuffer, done + events[..e]);
    }
    assert done + events[..|events|] == done + events;
  }

  /** The replay loops of `handle_req`. Without memory for the buffer of sent ids nothing
      is suppressed. */
  method ReplayStored(engine: Engine, filters: seq<Filter>, haveBuffer: bool, now: u32) returns (sent: seq<Event>)
    requires engine.Layout() && Inv(engine.Abs(), MAX_ENTRIES)
    modifies engine, engine.index
    ensures engine.Layout() && SameFromNow(old(engine.Abs()), engine.Abs(), now)
    ensures sent == var results := AllResults(old(engine.Abs()), filters, |filters|, now);
                    if haveBuffer then Replayed(results, []) else results
  {
    ghost var s := engine.Abs();
    ghost var done: seq<Event> := [];
    var sentIds: seq<Key> := [];
    sent := [];
    for i := 0 to |filters|
      invariant engine.Layout() && SameFromNow(s, engine.Abs(), now)
      invariant done == AllResults(s, filters, i, now)
      invariant sent == (if haveBuffer then Replayed(done, []) else done)
      invariant haveBuffer ==> sentIds == SeenAfter(done, [])
    {
      var events := QueryOne(engine, filters[i], now, s);
      sent, sentIds := SendNew(events, sent, sentIds, haveBuffer, done);
      done := done + events;
    }
  }

  /** The answer to a REQ the router admitted. */
  ghost function ReqAnswer(s: Store, status: S.SubStatus, fd: int, id: string, filters: seq<Filter>,
                           haveBuffer: bool, now: int): seq<Message> {
    if status != S.SubOk then [ClosedMsg(fd, id, "error: too many subscriptions")]
    else
      var results := AllResults(s, filters, |filters|, now);
      EventMsgs(fd, id, if haveBuffer then Replayed(results, []) else results) + [EoseMsg(fd, id)]
  }

  /** What that answer says: the stored events and EOSE when the subscription was stored, and
      otherwise one refusal. */
  lemma {:induction false} ReqAnswers(s: Store, status: S.SubStatus, fd: int, id: string, filters: seq<Filter>,
                                      haveBuffer: bool, now: int)
    requires Inv(s, MAX_ENTRIES)
    ensures var sent := ReqAnswer(s, status, fd, id, filters, haveBuffer, now);
            if status == S.SubOk then Streams(s, filters, now, fd, id, haveBuffer, sent)
            else |sent| == 1 && sent[0].ClosedMsg? && sent[0].fd == fd && sent[0].subId == id
  {
    var results := AllResults(s, filters, |filters|, now);
    StreamsOf(s, filters, now, fd, id, haveBuffer, if haveBuffer then Replayed(results, []) else results);
  }

  /** `handle_req` */
  method HandleReq(tables: Tables, engine: Engine, fd: int, id: string, filters: seq<Filter>,
                   failAt: Option<nat>, haveBuffer: bool, now: u32) returns (sent: seq<Message>)
    requires tables.Valid() && engine.Layout() && Inv(engine.Abs(), MAX_ENTRIES) && |id| <= S.MAX_ID_LEN
    modifies tables.subs, tables.subs.subs, engine, engine.index
    ensures tables.Valid() && tables.Abs() == Relay.Added(old(tables.Abs()), fd, id, filters, failAt)
    ensures engine.Layout() && SameFromNow(old(engine.Abs()), engine.Abs(), now)
    ensures sent == ReqAnswer(old(engine.Abs()), S.AddStatus(old(tables.subs.subs[..]), fd, id, filters, failAt),
                              fd, id, filters, haveBuffer, now)
  {
    var status := tables.AddSub(fd, id, filters, failAt);
    if status != S.SubOk {
      return [ClosedMsg(fd, id, "error: too many subscriptions")];
    }
    var events := ReplayStored(engine, filters, haveBuffer, now);
    sent := EventMsgs(fd, id, events) + [EoseMsg(fd, id)];
  }

  /** The REQ case of `router_dispatch`: rate, id, number of filters, then the handler. */
  method DispatchReq(tables: Tables, engine: Engine, fd: int, id: string, filters: seq<Filter>,
                     failAt: Option<nat>, haveBuffer: bool, t1: nat, t2: nat, now: u32) returns (sent: seq<Message>)
    requires tables.Valid() && engine.Layout() && Inv(engine.Abs(), MAX_ENTRIES)
    modifies tables.subs, tables.subs.subs, tables.limiter.buckets, engine, engine.index
    ensures tables.Valid()
    ensures tables.Abs()
         == Relay.Next(old(tables.Abs()), tables.limiter.config, Relay.Req(fd, id, filters, failAt, t1, t2))
    ensures engine.Layout() && SameFromNow(old(engine.Abs()), engine.Abs(), now)
    ensures sent ==
      if !R.Allowed(old(tables.limiter.buckets[..]), tables.limiter.config, fd, R.ReqRate, t1, t2)
      then [ClosedMsg(fd, id, "rate-limited:")]
      else if |id| == 0 || |id| > S.MAX_ID_LEN then [ClosedMsg(fd, id, "error: invalid subscription id")]
      else if |filters| > S.MAX_FILTERS then [ClosedMsg(fd, id, "error: too many filters")]
      else ReqAnswer(old(engine.Abs()), S.AddStatus(old(tables.subs.subs[..]), fd, id, filters, failAt),
                     fd, id, filters, haveBuffer, now)
    ensures
      if && R.Allowed(old(tables.limiter.buckets[..]), tables.limiter.config, fd, R.ReqRate, t1, t2)
         && 1 <= |id| <= 64 && |filters| <= 4
         && S.AddStatus(old(tables.subs.subs[..]), fd, id, filters, failAt) == S.SubOk
      then Streams(old(engine.Abs()), filters, now, fd, id, haveBuffer, sent)
      else |sent| == 1 && sent[0].ClosedMsg? && sent[0].fd == fd && sent[0].subId == id
  {
    ReqAnswers(engine.Abs(), S.AddStatus(tables.subs.subs[..], fd, id, filters, failAt), fd, id, filters, haveBuffer,
               now);
    var allowed := tables.Check(fd, R.ReqRate, t1, t2);
    if !allowed {
      return [ClosedMsg(fd, id, "rate-limited:")];
    }
    if |id| == 0 || |id| > S.MAX_ID_LEN {
      return [ClosedMsg(fd, id, "error: invalid subscription id")];
    }
    if |filters| > S.MAX_FILTERS {
      return [ClosedMsg(fd, id, "error: too many filters")];
    }
    sent := HandleReq(tables, engine, fd, id, filters, failAt, haveBuffer, now);
  }

  /** `broadcaster_fanout` */
  method Fanout(tables: Tables, ev: Event, onEmpty: bool) returns (sent: seq<Message>)
    requires tables.Valid()
    ensures sent == FanoutMsgs(S.Matching(tables.subs.subs[..], ev, onEmpty, S.MAX_SUBS), ev)
  {
    var matches := tables.subs.MatchEvent(ev, onEmpty);
    sent := [];
    for i := 0 to |matches|
      invariant sent == FanoutMsgs(matches, ev)[..i]
    {
      sent := sent + [EventMsg(matches[i].fd, matches[i].subId, ev)];
    }
  }

  /** NIP-01's ephemeral kinds are not stored. */
  predicate Ephemeral(kind: u16) {
    20000 <= kind < 30000
  }

  predicate Acceptable(status: Status) {
    status.Ok? || status.Duplicate?
  }

  datatype EventStatus = Accepted | Rejected | StorageFailed

  ghost function AfterDeletion(s: Store, ev: Event, request: Option<D.Request>, now: int): Store {
    if ev.kind == DELETION_KIND && request.Some? then D.AfterRequest(s, request.value, ev, now) else s
  }

  ghost function StoreAfter(s: Store, cap: nat, ttl: u32, ev: Event, request: Option<D.Request>, now: u32, fate: Fate)
    : Store {
    var cleared := AfterDeletion(s, ev, request, now);
    if Ephemeral(ev.kind) then cleared else Save(cleared, cap, ttl, ev, now, fate)
  }

  ghost function StoreStatus(s: Store, cap: nat, ev: Event, request: Option<D.Request>, now: u32, fate: Fate): Status {
    if Ephemeral(ev.kind) then Ok else SaveStatus(AfterDeletion(s, ev, request, now), cap, ev, fate)
  }

  /** The store after the deletion an event asks for, spelt out. */
  ghost function Cleared(s: Store, ev: Event, request: Option<D.Request>, now: int): Store {
    if ev.kind == 5 && request.Some? then D.AfterRequest(s, request.value, ev, now) else s
  }

  ghost predicate LiveIn(s: Store, id: Key) {
    exists i :: 0 <= i < |s.index| && !s.index[i].deleted && s.index[i].id == id
  }

  /** An event is kept: it is ephemeral, which nothing stores, or already there, or its file
      could be written with room in the index. */
  ghost predicate Kept(s: Store, cap: nat, ev: Event, fate: Fate) {
    20000 <= ev.kind < 30000 || LiveIn(s, ev.id) || (|s.index| < cap && fate == Written)
  }

  /** The storage answers that let an event through are exactly those. */
  lemma KeptIff(s: Store, cap: nat, ev: Event, request: Option<D.Request>, now: u32, fate: Fate)
    ensures Acceptable(StoreStatus(s, cap, ev, request, now, fate))
       <==> Kept(Cleared(s, ev, request, now), cap, ev, fate)
  {
    SaveAnswers(Cleared(s, ev, request, now), cap, ev, fate);
  }

  /** The answer to an EVENT: the last message says whether it was accepted, and if it was,
      those before it are the fan-out; otherwise there are none. */
  ghost predicate Answered(slots: seq<S.Slot>, ev: Event, onEmpty: bool, fd: int, accepted: bool, sent: seq<Message>) {
    && |sent| > 0 && sent[|sent| - 1] == OkMsg(fd, ev.id, accepted)
    && (if accepted then FannedOut(slots, ev, onEmpty, sent[..|sent| - 1]) else |sent| == 1)
  }

  lemma {:induction false} EventAnswers(slots: seq<S.Slot>, ev: Event, onEmpty: bool, fd: int, accepted: bool)
    requires S.KeysDistinct(slots) && |slots| == 64
    ensures Answered(slots, ev, onEmpty, fd, accepted,
                     (if accepted then FanoutMsgs(S.Matching(slots, ev, onEmpty, 64), ev) else [])
                     + [OkMsg(fd, ev.id, accepted)])
  {
    FansOut(slots, ev, onEmpty);
    var out := FanoutMsgs(S.Matching(slots, ev, onEmpty, 64), ev);
    assert (out + [OkMsg(fd, ev.id, accepted)])[..|out|] == out;
  }

  /** The storage part of `handle_event`: the deletion a kind-5 event asks for, then the
      save unless the event is ephemeral. */
  method StoreEvent(engine: Engine, ev: Event, request: Option<D.Request>, now: u32, fate: Fate)
    returns (result: Status)
    requires engine.Valid()
    requires request.Some? ==> request.value.pubkey == Hex(ev.pubkey)
    modifies engine, engine.index
    ensures engine.Layout() && (old(engine.nextFileIndex) + 1 < TWO_32 ==> engine.Valid())
    ensures engine.Abs() == StoreAfter(old(engine.Abs()), engine.cap, engine.ttl, ev, request, now, fate)
    ensures result == StoreStatus(old(engine.Abs()), engine.cap, ev, request, now, fate)
  {
    if ev.kind == DELETION_KIND {
      ghost var s := engine.Abs();
      var deleted := Deletion.DeletionProcess(engine, ev, request, now);
      if request.Some? {
        D.AfterRequestKeeps(s, request.value, ev, now);
      }
    }
    result := Ok;
    if !Ephemeral(ev.kind) {
      result := engine.SaveEvent(ev, now, fate);
    }
  }

  /** `handle_event`: an invalid event changes nothing; a full or failing store stops before
      the fan-out, but after the deletion; a duplicate is accepted and fanned out again. */
  method HandleEvent(tables: Tables, engine: Engine, ev: Event, valid: bool, request: Option<D.Request>,
                     now: u32, fate: Fate, onEmpty: bool) returns (status: EventStatus, sent: seq<Message>)
    requires tables.Valid() && engine.Valid()
    requires request.Some? ==> request.value.pubkey == Hex(ev.pubkey)
    modifies engine, engine.index
    ensures engine.Layout() && (old(engine.nextFileIndex) + 1 < TWO_32 ==> engine.Valid())
    ensures engine.Abs() ==
      if valid then StoreAfter(old(engine.Abs()), engine.cap, engine.ttl, ev, request, now, fate) else old(engine.Abs())
    ensures status ==
      if !valid then Rejected
      else if Acceptable(StoreStatus(old(engine.Abs()), engine.cap, ev, request, now, fate)) then Accepted
      else StorageFailed
    ensures sent ==
      if status == Accepted then FanoutMsgs(S.Matching(tables.subs.subs[..], ev, onEmpty, S.MAX_SUBS), ev) else []
  {
    sent := [];
    if !valid {
      return Rejected, [];
    }
    var result := StoreEvent(engine, ev, request, now, fate);
    if !Acceptable(result) {
      return StorageFailed, [];
    }
    sent := Fanout(tables, ev, onEmpty);
    status := Accepted;
  }

  /** The EVENT case of `router_dispatch`: the rate check, the handler, then the OK answer. */
  method DispatchEvent(tables: Tables, engine: Engine, fd: int, ev: Event, valid: bool, request: Option<D.Request>,
                       t1: nat, t2: nat, now: u32, fate: Fate, onEmpty: bool) returns (sent: seq<Message>)
    requires tables.Valid() && engine.Valid()
    requires request.Some? ==> request.value.pubkey == Hex(ev.pubkey)
    modifies tables.limiter.buckets, engine, engine.index
    ensures tables.Valid()
    ensures tables.Abs() == Relay.Next(old(tables.Abs()), tables.limiter.config, Relay.Publish(fd, t1, t2))
    ensures engine.Layout() && (old(engine.nextFileIndex) + 1 < TWO_32 ==> engine.Valid())
    ensures
      var allowed := R.Allowed(old(tables.limiter.buckets[..]), tables.limiter.config, fd, R.EventRate, t1, t2);
      var accepted := allowed && valid
                      && Acceptable(StoreStatus(old(engine.Abs()), engine.cap, ev, request, now, fate));
      && engine.Abs() == (if allowed && valid
                          then StoreAfter(old(engine.Abs()), engine.cap, engine.ttl, ev, request, now, fate)
                          else old(engine.Abs()))
      && sent == (if accepted then FanoutMsgs(S.Matching(tables.subs.subs[..], ev, onEmpty, S.MAX_SUBS), ev) else [])
                 + [OkMsg(fd, ev.id, accepted)]
    ensures
      var allowed := R.Allowed(old(tables.limiter.buckets[..]), tables.limiter.config, fd, R.EventRate, t1, t2);
      var kept := Kept(Cleared(old(engine.Abs()), ev, request, now), engine.cap, ev, fate);
      Answered(tables.subs.subs[..], ev, onEmpty, fd, allowed && valid && kept, sent)
  {
    KeptIff(engine.Abs(), engine.cap, ev, request, now, fate);
    EventAnswers(tables.subs.subs[..], ev, onEmpty, fd,
                 && R.Allowed(tables.limiter.buckets[..], tables.limiter.config, fd, R.EventRate, t1, t2)
                 && valid && Acceptable(StoreStatus(engine.Abs(), engine.cap, ev, request, now, fate)));
    var allowed := tables.Check(fd, R.EventRate, t1, t2);
    if !allowed {
      return [OkMsg(fd, ev.id, false)];
    }
    var status;
    status, sent := HandleEvent(tables, engine, ev, valid, request, now, fate, onEmpty);
    sent := sent + [OkMsg(fd, ev.id, status.Accepted?)];
  }

  // ---------------------------------------------------------------- what an accepted event achieves

  lemma AfterDeletionInv(s: Store, cap: nat, ev: Event, request: Option<D.Request>, now: int)
    requires Inv(s, cap) && cap <= MAX_ENTRIES
    ensures Inv(AfterDeletion(s, ev, request, now), cap) && AfterDeletion(s, ev, request, now).next == s.next
  {
    if ev.kind == DELETION_KIND && request.Some? {
      var a, b, x := D.RequestProcessed(s, request.value, ev, now);
      D.DeletedInv(s, AfterDeletion(s, ev, request, now), cap, a + b, x, now);
    }
  }

  /** A save that returned OK is what a get then finds. */
  lemma SavedIsFound(s: Store, cap: nat, ttl: u32, ev: Event, now: u32)
    requires Inv(s, cap) && s.next + 1 < TWO_32 && SaveStatus(s, cap, ev, Written) == Ok
    ensures Get(Save(s, cap, ttl, ev, now, Written), ev.id) == Some(ev)
  {
    var s' := Save(s, cap, ttl, ev, now, Written);
    SaveInv(s, cap, cap, ttl, ev, now, Written);
    assert s'.index[|s.index|].id == ev.id && !s'.index[|s.index|].deleted;
    LiveApart(s'.index, Find(s'.index, ev.id).value, |s.index|);
  }

  /** An event whose storage answered OK or duplicate is live in the index afterwards. If it was
      new, a get returns it, and at every instant up to its expiry it is the newest visible
      event, after what its own deletion request left. A refused one leaves what is
      visible as the deletion left it. */
  lemma {:induction false} AcceptedIsStored(s: Store, cap: nat, ttl: u32, ev: Event, request: Option<D.Request>,
                                            now: u32, fate: Fate, t: int)
    requires Inv(s, cap) && cap <= MAX_ENTRIES && s.next + 1 < TWO_32 && !Ephemeral(ev.kind)
    ensures var cleared, s' := AfterDeletion(s, ev, request, now), StoreAfter(s, cap, ttl, ev, request, now, fate);
            var status := StoreStatus(s, cap, ev, request, now, fate);
            && (status == Ok || status == Duplicate ==> Find(s'.index, ev.id).Some?)
            && (status == Ok ==> Get(s', ev.id) == Some(ev))
            && Shown(s'.index, s'.files, t) == Shown(cleared.index, cleared.files, t) +
                 (if status == Ok then Keep([Saved(ev, ExpiryOf(now, ttl, ev.expiration), s.next)], Unexpired(t))
                  else [])
  {
    var cleared := AfterDeletion(s, ev, request, now);
    AfterDeletionInv(s, cap, ev, request, now);
    SaveShows(cleared, cap, ttl, ev, now, fate, t);
    if StoreStatus(s, cap, ev, request, now, fate) == Ok {
      SavedIsFound(cleared, cap, ttl, ev, now);
    }
  }

  /** What an EVENT does to what can be seen, told without the answers of the store: a new one
      that is not ephemeral, with room in the index and its file written, is what a get then
      returns, and the newest visible event up to its expiry. Nothing else changes, but for
      what its own deletion request removed. */
  lemma {:induction false} EventStored(s: Store, cap: nat, ttl: u32, ev: Event, request: Option<D.Request>, now: u32,
                                       fate: Fate, t: int)
    requires Inv(s, cap) && cap <= 5000 && s.next + 1 < TWO_32
    requires 0 < now + ttl < TWO_32 && ev.expiration < TWO_32
    ensures var before, s' := Cleared(s, ev, request, now), StoreAfter(s, cap, ttl, ev, request, now, fate);
            var isNew := && !(20000 <= ev.kind < 30000) && !LiveIn(before, ev.id)
                         && |before.index| < cap && fate == Written;
            && Shown(s'.index, s'.files, t) == Shown(before.index, before.files, t) +
                 (if isNew && t <= now + ttl && (ev.expiration > 0 ==> t <= ev.expiration)
                  then [Saved(ev, ExpiryOf(now, ttl, ev.expiration), s.next)] else [])
            && (isNew ==> Get(s', ev.id) == Some(ev))
            && (Kept(before, cap, ev, fate) ==> 20000 <= ev.kind < 30000 || LiveIn(s', ev.id))
  {
    var before := Cleared(s, ev, request, now);
    SaveAnswers(before, cap, ev, fate);
    if !Ephemeral(ev.kind) {
      AcceptedIsStored(s, cap, ttl, ev, request, now, fate, t);
      SeenUntilExpiry(now, ttl, ev.expiration, t);
      KeepOne(Saved(ev, ExpiryOf(now, ttl, ev.expiration), s.next), t);
    }
  }
}
