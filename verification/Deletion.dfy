/** NIP-09 deletion over the storage engine: by event id, by address, by kind. */
module Deletion {
  import opened Bytes
  import opened Events
  import opened StoreSpec
  import opened NvsLayout
  import opened StorageEngine
  import opened DeletionSpec

  /** One listed id: decoded, looked up, authorized, deleted. */
  method DeleteListed(engine: Engine, req: Request, text: string) returns (hit: bool)
    requires engine.Layout()
    modifies engine, engine.index
    ensures engine.Layout()
    ensures hit <==> Listed(old(engine.Abs()), req, text)
    ensures engine.Abs() == AfterListed(old(engine.Abs()), req, text)
  {
    var id := HexToBytes(text, 32);
    if id.None? {
      return false;
    }
    var target := engine.GetEvent(id.value);
    if target.None? || !Authorized(req, target.value) {
      return false;
    }
    var status := engine.DeleteEvent(id.value);
    hit := status.Ok?;
  }

  /** One more of the listed ids. */
  method DeleteNext(engine: Engine, req: Request, i: nat, deleted: nat, ghost s: Store) returns (count: nat)
    requires engine.Layout() && i < |req.ids|
    requires engine.Abs() == AfterIds(s, req, i) && deleted == CountIds(s, req, i)
    modifies engine, engine.index
    ensures engine.Layout()
    ensures engine.Abs() == AfterIds(s, req, i + 1) && count == CountIds(s, req, i + 1)
  {
    IdsStep(s, req, i);
    var hit := DeleteListed(engine, req, req.ids[i]);
    count := if hit then deleted + 1 else deleted;
  }

  method DeleteByEventIds(engine: Engine, req: Request) returns (deleted: nat)
    requires engine.Layout()
    modifies engine, engine.index
    ensures engine.Layout()
    ensures engine.Abs() == AfterIds(old(engine.Abs()), req, |req.ids|)
    ensures deleted == CountIds(old(engine.Abs()), req, |req.ids|)
  {
    ghost var s := engine.Abs();
    deleted := 0;
    for i := 0 to |req.ids|
      invariant engine.Layout()
      invariant engine.Abs() == AfterIds(s, req, i) && deleted == CountIds(s, req, i)
    {
      deleted := DeleteNext(engine, req, i, deleted, s);
    }
  }

  /** One result: deleted if its d-tag fits. */
  method DeleteResult(engine: Engine, ev: Event, dTag: Option<string>) returns (hits: nat)
    requires engine.Layout()
    modifies engine, engine.index
    ensures engine.Layout()
    ensures engine.Abs() == Dropped(old(engine.Abs()), ev, dTag)
    ensures hits == |DroppedAt(old(engine.Abs()), ev, dTag)|
  {
    hits := 0;
    if TagFits(dTag, ev) {
      var status := engine.DeleteEvent(ev.id);
      if status.Ok? {
        hits := 1;
      }
    }
  }

  /** A query, then a delete of each result whose d-tag fits: the inner part of deletion by
      address and by kind. */
  method DeleteMatching(engine: Engine, sel: Selector, now: u32) returns (deleted: nat)
    requires engine.Layout() && Inv(engine.Abs(), MAX_ENTRIES)
    modifies engine, engine.index
    ensures engine.Layout()
    ensures engine.Abs() == AfterSelector(old(engine.Abs()), sel, now)
    ensures deleted == CountSelector(old(engine.Abs()), sel, now)
  {
    ghost var s := engine.Abs();
    var events;
    ghost var stop;
    events, stop := engine.QueryEvents(sel.f, sel.cap, now);
    StopUnique(s, engine.Abs(), sel.f, Min(sel.cap, MAX_RESULTS), now, events, stop);
    deleted := 0;
    assert events[0..] == events;
    for e := 0 to |events|
      invariant engine.Layout()
      invariant DeleteEach(engine.Abs(), events[e..], sel.dTag) == AfterSelector(s, sel, now)
      invariant deleted + CountEach(engine.Abs(), events[e..], sel.dTag) == CountSelector(s, sel, now)
    {
      EachStep(engine.Abs(), events, e, sel.dTag);
      var hits := DeleteResult(engine, events[e], sel.dTag);
      deleted := deleted + hits;
    }
  }

  /** The loop deletion by address and deletion by kind share: one query after another. */
  method DeleteSelected(engine: Engine, sels: seq<Selector>, now: u32) returns (deleted: nat)
    requires engine.Layout() && Inv(engine.Abs(), MAX_ENTRIES)
    modifies engine, engine.index
    ensures engine.Layout()
    ensures engine.Abs() == AfterAll(old(engine.Abs()), sels, now)
    ensures deleted == CountAll(old(engine.Abs()), sels, now)
  {
    ghost var s := engine.Abs();
    deleted := 0;
    for k := 0 to |sels|
      invariant engine.Layout()
      invariant engine.Abs() == AfterAll(s, sels[..k], now) && deleted == CountAll(s, sels[..k], now)
    {
      OneMoreSelector(s, sels, k, now);
      var more := DeleteMatching(engine, sels[k], now);
      deleted := deleted + more;
    }
    TakeWhole(sels);
  }

  method DeleteByAddresses(engine: Engine, req: Request, until: int, now: u32) returns (deleted: nat)
    requires engine.Layout() && Inv(engine.Abs(), MAX_ENTRIES)
    modifies engine, engine.index
    ensures engine.Layout()
    ensures engine.Abs() == AfterAll(old(engine.Abs()), AddressSelectors(req, |req.addresses|, until), now)
    ensures deleted == CountAll(old(engine.Abs()), AddressSelectors(req, |req.addresses|, until), now)
  {
    var sels := [];
    for i := 0 to |req.addresses|
      invariant sels == AddressSelectors(req, i, until)
    {
      var address := req.addresses[i];
      if address.None? || address.value.pubkey != req.pubkey {
        continue;
      }
      var f := AuthorKindFilter(address.value.pubkey, address.value.kind, until, ADDRESS_CAP);
      sels := sels + [Selector(f, ADDRESS_CAP, Some(address.value.dTag))];
    }
    deleted := DeleteSelected(engine, sels, now);
  }

  /** The kinds of the first 32 "k" tags. */
  method CollectKinds(tags: seq<seq<string>>) returns (kinds: seq<int>)
    ensures kinds == Take(KindTags(tags), KIND_TAGS_CAP)
  {
    kinds := [];
    var i := 0;
    while i < |tags| && |kinds| < KIND_TAGS_CAP
      invariant i <= |tags| && |kinds| <= KIND_TAGS_CAP
      invariant KindTags(tags) == kinds + KindTags(tags[i..])
    {
      if |tags[i]| >= 2 && tags[i][0] == "k" {
        kinds := kinds + [Atoi(tags[i][1])];
      }
      i := i + 1;
    }
  }

  method DeleteByKinds(engine: Engine, del: Event, now: u32) returns (deleted: nat)
    requires engine.Layout() && Inv(engine.Abs(), MAX_ENTRIES)
    modifies engine, engine.index
    ensures engine.Layout()
    ensures engine.Abs() == AfterAll(old(engine.Abs()), KindTagSelectors(del), now)
    ensures deleted == CountAll(old(engine.Abs()), KindTagSelectors(del), now)
  {
    var kinds := CollectKinds(del.tags);
    if |kinds| == 0 {
      return 0;
    }
    var pubkey := Hex(del.pubkey);
    var sels := [];
    for k := 0 to |kinds|
      invariant sels == KindSelectors(pubkey, kinds, k, del.createdAt)
    {
      sels := sels + [KindSelector(pubkey, kinds[k], del.createdAt)];
    }
    deleted := DeleteSelected(engine, sels, now);
  }

  /** `deletion_process`. The library's parser takes the request's author from the event. */
  method DeletionProcess(engine: Engine, del: Event, request: Option<Request>, now: u32) returns (deleted: nat)
    requires engine.Valid()
    requires request.Some? ==> request.value.pubkey == Hex(del.pubkey)
    modifies engine, engine.index
    ensures engine.Valid()
    ensures if del.kind == DELETION_KIND && request.Some?
            then && engine.Abs() == AfterRequest(old(engine.Abs()), request.value, del, now)
                 && deleted == CountRequest(old(engine.Abs()), request.value, del, now)
            else deleted == 0 && engine.Abs() == old(engine.Abs())
  {
    if del.kind != DELETION_KIND || request.None? {
      return 0;
    }
    ghost var s := engine.Abs();
    var req := request.value;
    deleted := DeleteByEventIds(engine, req);
    ghost var s1 := engine.Abs();
    AfterIdsInv(s, req);
    var more := DeleteByAddresses(engine, req, del.createdAt, now);
    AfterAllInv(s1, AddressSelectors(req, |req.addresses|, del.createdAt), now);
    deleted := deleted + more;
    more := DeleteByKinds(engine, del, now);
    deleted := deleted + more;
    AfterAllInv(s1, AllSelectors(req, del), now);
    AfterAllAppend(s1, AddressSelectors(req, |req.addresses|, del.createdAt), KindTagSelectors(del), now);
  }
}
