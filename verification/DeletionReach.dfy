/** How far a deletion request reaches, told without its queries: which "k" tags count, which
    visible events go, and which stay. */
module DeletionReach {
  import opened Bytes
  import opened Events
  import opened Index
  import opened StoreSpec
  import opened NvsLayout
  import opened StorageEngine
  import opened Answers
  import opened DeletionSpec

  // ---------------------------------------------------------------- the text of a tag

  function Digit(d: nat): char
    requires d < 10
  {
    '0' + d as char
  }

  /** A number in decimal, as clients write it. */
  function Decimal(n: nat): (text: string)
    ensures text != [] && forall i :: 0 <= i < |text| ==> '0' <= text[i] <= '9'
  {
    if n < 10 then [Digit(n)] else Decimal(n / 10) + [Digit(n % 10)]
  }

  lemma {:induction false} DigitsSnoc(text: string, d: nat, acc: int)
    requires d < 10 && forall i :: 0 <= i < |text| ==> '0' <= text[i] <= '9'
    ensures Digits(text + [Digit(d)], acc) == 10 * Digits(text, acc) + d
  {
    if text == [] {
      assert [] + [Digit(d)] == [Digit(d)] && [Digit(d)][1..] == [];
    } else {
      assert (text + [Digit(d)])[1..] == text[1..] + [Digit(d)];
      DigitsSnoc(text[1..], d, 10 * acc + (text[0] as int - '0' as int));
    }
  }

  lemma {:induction false} DigitsOfDecimal(n: nat)
    ensures Digits(Decimal(n), 0) == n
  {
    if n < 10 {
      assert [Digit(n)][1..] == [];
    } else {
      DigitsOfDecimal(n / 10);
      DigitsSnoc(Decimal(n / 10), n % 10, 0);
    }
  }

  /** The number a tag is read as is the one written in it. */
  lemma {:induction false} AtoiInvertsDecimal(n: nat)
    ensures Atoi(Decimal(n)) == n
  {
    DigitsOfDecimal(n);
  }

  predicate IsDTag(tag: seq<string>) {
    |tag| >= 2 && tag[0] == "d"
  }

  /** The d-tag of an event is its first one, or empty. */
  lemma {:induction false} FirstDTag(tags: seq<seq<string>>)
    ensures if exists i :: 0 <= i < |tags| && IsDTag(tags[i])
            then exists i :: 0 <= i < |tags| && IsDTag(tags[i]) && DTag(tags) == tags[i][1]
                   && forall j :: 0 <= j < i ==> !IsDTag(tags[j])
            else DTag(tags) == ""
  {
    if tags != [] && !IsDTag(tags[0]) {
      FirstDTag(tags[1..]);
      if i :| 0 <= i < |tags| && IsDTag(tags[i]) {
        assert IsDTag(tags[1..][i - 1]);
        var k :| 0 <= k < |tags[1..]| && IsDTag(tags[1..][k]) && DTag(tags[1..]) == tags[1..][k][1]
                 && forall j :: 0 <= j < k ==> !IsDTag(tags[1..][j]);
        assert forall j :: 0 < j < k + 1 ==> tags[j] == tags[1..][j - 1];
        assert IsDTag(tags[k + 1]);
      }
    }
  }

  // ---------------------------------------------------------------- which "k" tags count

  /** How many "k" tags come before position i. */
  function KTagsBefore(tags: seq<seq<string>>, i: nat): nat
    requires i <= |tags|
  {
    if i == 0 then 0
    else KTagsBefore(tags, i - 1) + if |tags[i - 1]| >= 2 && tags[i - 1][0] == "k" then 1 else 0
  }

  predicate KindAt(tags: seq<seq<string>>, i: nat, kind: int)
    requires i < |tags|
  {
    |tags[i]| >= 2 && tags[i][0] == "k" && Atoi(tags[i][1]) == kind && KTagsBefore(tags, i) < 32
  }

  /** The kind stands in one of the first 32 "k" tags. */
  ghost predicate KindListed(tags: seq<seq<string>>, kind: int) {
    exists i :: 0 <= i < |tags| && KindAt(tags, i, kind)
  }

  function KindOfTag(tag: seq<string>): seq<int> {
    if IsKindTag(tag) then [Atoi(tag[1])] else []
  }

  lemma {:induction false} KindTagsOne(tag: seq<string>)
    ensures KindTags([tag]) == KindOfTag(tag)
  {
    assert [tag][1..] == [];
  }

  lemma {:induction false} KindTagsCons(tags: seq<seq<string>>)
    requires tags != []
    ensures KindTags(tags) == KindOfTag(tags[0]) + KindTags(tags[1..])
  {
  }

  lemma {:induction false} KindTagsSnoc(tags: seq<seq<string>>, tag: seq<string>)
    ensures KindTags(tags + [tag]) == KindTags(tags) + KindOfTag(tag)
  {
    if tags == [] {
      assert [] + [tag] == [tag];
      KindTagsOne(tag);
    } else {
      assert (tags + [tag])[1..] == tags[1..] + [tag];
      KindTagsSnoc(tags[1..], tag);
      KindTagsCons(tags);
      KindTagsCons(tags + [tag]);
    }
  }

  lemma {:induction false} KTagsCounted(tags: seq<seq<string>>, n: nat)
    requires n <= |tags|
    ensures |KindTags(tags[..n])| == KTagsBefore(tags, n)
  {
    if n > 0 {
      KTagsCounted(tags, n - 1);
      assert tags[..n] == tags[..n - 1] + [tags[n - 1]];
      KindTagsSnoc(tags[..n - 1], tags[n - 1]);
    }
  }

  lemma KindAtLast(tags: seq<seq<string>>, m: nat, kind: int)
    requires m < |tags|
    ensures (exists i :: 0 <= i < m + 1 && KindAt(tags, i, kind))
       <==> (exists i :: 0 <= i < m && KindAt(tags, i, kind)) || KindAt(tags, m, kind)
  {
  }

  lemma TakeMore<T>(a: seq<T>, b: seq<T>, n: nat, x: T)
    requires |b| <= 1
    ensures x in Take(a + b, n) <==> x in Take(a, n) || (|a| < n && x in b)
  {
    if |a| < n {
      assert Take(a + b, n) == a + b && Take(a, n) == a;
    } else {
      assert Take(a + b, n) == Take(a, n);
    }
  }

  /** Among the kinds of the first n tags, the first 32 are those whose tag stands among the
      first 32. */
  lemma {:induction false} KindsUpTo(tags: seq<seq<string>>, n: nat, kind: int)
    requires n <= |tags|
    ensures kind in Take(KindTags(tags[..n]), 32) <==> exists i :: 0 <= i < n && KindAt(tags, i, kind)
  {
    if n > 0 {
      var m := n - 1;
      KindsUpTo(tags, m, kind);
      KTagsCounted(tags, m);
      assert tags[..n] == tags[..m] + [tags[m]];
      KindTagsSnoc(tags[..m], tags[m]);
      TakeMore(KindTags(tags[..m]), KindOfTag(tags[m]), 32, kind);
      KindAtLast(tags, m, kind);
    }
  }

  lemma {:induction false} KindListedIff(tags: seq<seq<string>>, kind: int)
    ensures kind in Take(KindTags(tags), KIND_TAGS_CAP) <==> KindListed(tags, kind)
  {
    KindsUpTo(tags, |tags|, kind);
    assert tags[..|tags|] == tags;
  }

  // ---------------------------------------------------------------- the reach of one query

  /** An event of the requester, of a kind, and no newer than a request with a date. */
  predicate Own(del: Event, ev: Event, kind: int) {
    ev.pubkey == del.pubkey && ev.kind == kind && (del.createdAt > 0 ==> ev.createdAt <= del.createdAt)
  }

  /** The visible ones among them. */
  function OwnVisible(s: Store, del: Event, kind: int, now: int): set<Saved> {
    set x | x in Shown(s.index, s.files, now) && Own(del, x.event, kind)
  }

  ghost predicate AllInRange(s: Store, now: int) {
    forall x :: x in Shown(s.index, s.files, now) ==> 0 <= x.event.createdAt < 0x1_0000_0000
  }

  lemma {:induction false} HitsAreFew(hits: seq<Saved>, r: seq<Event>, all: set<Saved>)
    requires NewestFirst(hits, r) && forall x :: x in hits ==> x in all
    ensures |r| <= |all|
    decreases |hits|
  {
    if hits != [] {
      var last, front := hits[|hits| - 1], hits[..|hits| - 1];
      forall x | x in front
        ensures x in all - {last}
      {
        var i :| 0 <= i < |front| && front[i] == x;
        assert hits[i].serial > hits[|hits| - 1].serial && hits[i] in hits;
      }
      assert last in hits;
      HitsAreFew(front, r[..|r| - 1], all - {last});
    }
  }

  lemma OwnPasses(del: Event, kind: int, cap: u16, ev: Event)
    requires del.createdAt < TWO_32 && 0 <= ev.createdAt < 0x1_0000_0000
    ensures Passes(AuthorKindFilter(Hex(del.pubkey), kind, del.createdAt, cap), ev) <==> Own(del, ev, kind)
  {
    OwnSelectorPasses(del.pubkey, kind, del.createdAt, cap, ev);
    AuthorKindAcceptsIff(del.pubkey, kind, del.createdAt, cap, ev);
  }

  /** A query's cap covers the requester's events of the kind if there are no more of them. */
  lemma {:induction false} FewOwn(s: Store, del: Event, kind: int, cap: u16, dTag: Option<string>, now: int)
    requires Inv(s, MAX_ENTRIES) && AllInRange(s, now) && del.createdAt < TWO_32 && cap <= 500
    requires |OwnVisible(s, del, kind, now)| <= cap
    ensures Few(s, Selector(AuthorKindFilter(Hex(del.pubkey), kind, del.createdAt, cap), cap, dTag), now)
  {
    var f := AuthorKindFilter(Hex(del.pubkey), kind, del.createdAt, cap);
    var list := Shown(s.index, s.files, now);
    ShownOlder(s.index, s.files, now, s.next);
    var hits := NewestHits(list, f);
    forall x | x in hits
      ensures x in OwnVisible(s, del, kind, now)
    {
      OwnPasses(del, kind, cap, x.event);
    }
    HitsAreFew(hits, Newest(list, f), OwnVisible(s, del, kind, now));
  }

  /** An event still visible after its selector was cleared does not fit. */
  lemma {:induction false} NotLeft(s: Store, del: Event, kind: int, cap: u16, dTag: Option<string>, now: int, x: Saved)
    requires del.createdAt < TWO_32 && 0 <= x.event.createdAt < 0x1_0000_0000 && Own(del, x.event, kind)
    requires NoneLeft(s, Selector(AuthorKindFilter(Hex(del.pubkey), kind, del.createdAt, cap), cap, dTag), now)
    requires TagFits(dTag, x.event)
    ensures x !in Shown(s.index, s.files, now)
  {
    var f := AuthorKindFilter(Hex(del.pubkey), kind, del.createdAt, cap);
    OwnPasses(del, kind, cap, x.event);
    NewestVisible(Shown(s.index, s.files, now), f);
  }

  lemma {:induction false} AddressSelectorAt(req: Request, n: nat, until: int, i: nat) returns (k: nat)
    requires i < n <= |req.addresses| && req.addresses[i].Some? && req.addresses[i].value.pubkey == req.pubkey
    ensures k < |AddressSelectors(req, n, until)|
    ensures [AddressSelectors(req, n, until)[k]] == AddressSelector(req, req.addresses[i], until)
  {
    if i < n - 1 {
      k := AddressSelectorAt(req, n - 1, until, i);
    } else {
      k := |AddressSelectors(req, n - 1, until)|;
    }
  }

  // ---------------------------------------------------------------- what a request deletes

  /** By kind: of a kind in one of the first 32 "k" tags, the visible events of the requester
      that are no newer than a dated request all go, if there are at most 500. */
  lemma {:induction false} KindReach(s: Store, req: Request, del: Event, kind: int, now: int, x: Saved)
    requires Inv(s, 5000) && AllInRange(s, now) && del.createdAt < TWO_32
    requires KindListed(del.tags, kind) && |OwnVisible(s, del, kind, now)| <= 500
    requires x in OwnVisible(s, del, kind, now)
    ensures var s' := AfterRequest(s, req, del, now); x !in Shown(s'.index, s'.files, now)
  {
    KindListedIff(del.tags, kind);
    FewOwn(s, del, kind, KIND_CAP, None, now);
    KindLeavesNone(s, req, del, kind, now);
    NotLeft(AfterRequest(s, req, del, now), del, kind, KIND_CAP, None, now, x);
  }

  /** By address: with an address that names the requester, its visible events of the kind and
      d-tag, no newer than a dated request, all go, if there are at most 100 of the kind. */
  lemma {:induction false} AddressReach(s: Store, req: Request, del: Event, i: nat, now: int, x: Saved)
    requires Inv(s, 5000) && AllInRange(s, now) && del.createdAt < TWO_32
    requires req.pubkey == Hex(del.pubkey) && i < |req.addresses|
    requires req.addresses[i].Some? && req.addresses[i].value.pubkey == req.pubkey
    requires |OwnVisible(s, del, req.addresses[i].value.kind, now)| <= 100
    requires x in OwnVisible(s, del, req.addresses[i].value.kind, now)
    requires DTag(x.event.tags) == req.addresses[i].value.dTag
    ensures var s' := AfterRequest(s, req, del, now); x !in Shown(s'.index, s'.files, now)
  {
    var address := req.addresses[i].value;
    var k := AddressSelectorAt(req, |req.addresses|, del.createdAt, i);
    assert AllSelectors(req, del)[k] == AddressSelectors(req, |req.addresses|, del.createdAt)[k];
    FewOwn(s, del, address.kind, ADDRESS_CAP, Some(address.dTag), now);
    var a, b, expired := RequestProcessed(s, req, del, now);
    assert Few(s, AllSelectors(req, del)[k], now);
    NotLeft(AfterRequest(s, req, del, now), del, address.kind, ADDRESS_CAP, Some(address.dTag), now, x);
  }

  lemma {:induction false} UnlistedMembers(list: seq<Saved>, req: Request)
    ensures forall x :: x in Unlisted(list, req) <==> x in list && !ChosenById(req, |req.ids|, x.event)
  {
    if list != [] {
      UnlistedMembers(list[1..], req);
      assert list == [list[0]] + list[1..];
    }
  }

  lemma {:induction false} ThinAllMembers(list: seq<Saved>, sels: seq<Selector>)
    ensures forall x :: x in ThinAll(list, sels) ==> x in list
    decreases |sels|
  {
    if sels != [] {
      ThinAllMembers(list, sels[..|sels| - 1]);
      ThinMembers(ThinAll(list, sels[..|sels| - 1]), sels[|sels| - 1]);
    }
  }

  /** One of the listed texts spells the id. */
  ghost predicate IdListed(req: Request, id: Key) {
    exists k :: 0 <= k < |req.ids| && HexToBytes(req.ids[k], 32) == Some(id)
  }

  /** By id: a visible event of the requester whose id is listed goes, whatever its date; and
      a request makes nothing visible. */
  lemma {:induction false} IdReach(s: Store, req: Request, del: Event, now: int)
    requires Inv(s, 5000) && req.pubkey == Hex(del.pubkey)
    ensures var s' := AfterRequest(s, req, del, now);
            forall x :: x in Shown(s'.index, s'.files, now) ==>
              x in Shown(s.index, s.files, now) && !(x.event.pubkey == del.pubkey && IdListed(req, x.event.id))
  {
    RequestThins(s, req, del, now);
    UnlistedMembers(Shown(s.index, s.files, now), req);
    ThinAllMembers(Unlisted(Shown(s.index, s.files, now), req), AllSelectors(req, del));
  }

  // ---------------------------------------------------------------- what a request spares

  /** An address of the requester with the event's kind and d-tag. */
  ghost predicate AddressListed(req: Request, del: Event, ev: Event) {
    exists i :: 0 <= i < |req.addresses| && req.addresses[i] == Some(Address(ev.kind, Hex(del.pubkey), DTag(ev.tags)))
  }

  /** The events a request names: the requester's own, by id, or by address or kind and no
      newer than a dated request. */
  ghost predicate Names(req: Request, del: Event, ev: Event) {
    && ev.pubkey == del.pubkey
    && (|| IdListed(req, ev.id)
        || ((del.createdAt > 0 ==> ev.createdAt <= del.createdAt)
            && (AddressListed(req, del, ev) || KindListed(del.tags, ev.kind))))
  }

  lemma NamesIff(req: Request, del: Event, ev: Event)
    requires req.pubkey == Hex(del.pubkey)
    ensures RequestNames(req, del, ev) <==> Names(req, del, ev)
  {
    KindListedIff(del.tags, ev.kind);
    if ChosenById(req, |req.ids|, ev) { HexInjective(ev.pubkey, del.pubkey); }
    if i :| 0 <= i < |req.addresses| && Addresses(req, req.addresses[i], ev) {
      assert req.addresses[i] == Some(Address(ev.kind, Hex(del.pubkey), DTag(ev.tags)));
    }
    if i :| 0 <= i < |req.addresses| && req.addresses[i] == Some(Address(ev.kind, Hex(del.pubkey), DTag(ev.tags))) {
      assert Addresses(req, req.addresses[i], ev);
    }
  }

  /** What was visible and is not named still is. */
  lemma {:induction false} RequestSpares(s: Store, req: Request, del: Event, now: int, x: Saved)
    requires Inv(s, 5000) && req.pubkey == Hex(del.pubkey)
    requires x in Shown(s.index, s.files, now) && !Names(req, del, x.event)
    ensures var s' := AfterRequest(s, req, del, now); x in Shown(s'.index, s'.files, now)
  {
    var s' := AfterRequest(s, req, del, now);
    var a, b, expired := RequestProcessed(s, req, del, now);
    ShownMembers(s.index, s.files, now);
    var i: nat :| i < |s.index| && ShowOne(s.index[i], s.files, now) == [x];
    BuryShowsRest(s.index, s.next, s.files, a + b + expired, now, i);
    NamesIff(req, del, x.event);
    if s'.index[i] != s.index[i] {
      OnlyOwnEvents(s, s', req, del, a, b, expired, now, i);
      assert false;
    }
    ShownMembers(s'.index, s'.files, now);
    assert ShowOne(s'.index[i], s'.files, now) == [x];
  }

  /** A request whose kinds and addresses fit their caps deletes exactly what it names: of what
      was visible, an event is gone afterwards if and only if the request names it. */
  lemma {:induction false} DeletesExactly(s: Store, req: Request, del: Event, now: int, x: Saved)
    requires Inv(s, 5000) && AllInRange(s, now) && del.createdAt < TWO_32 && req.pubkey == Hex(del.pubkey)
    requires x in Shown(s.index, s.files, now)
    requires AddressListed(req, del, x.event) ==> |OwnVisible(s, del, x.event.kind, now)| <= 100
    requires KindListed(del.tags, x.event.kind) ==> |OwnVisible(s, del, x.event.kind, now)| <= 500
    ensures var s' := AfterRequest(s, req, del, now);
            x in Shown(s'.index, s'.files, now) <==> !Names(req, del, x.event)
  {
    IdReach(s, req, del, now);
    if !Names(req, del, x.event) {
      RequestSpares(s, req, del, now, x);
    } else if !IdListed(req, x.event.id) {
      assert x in OwnVisible(s, del, x.event.kind, now);
      if KindListed(del.tags, x.event.kind) {
        KindReach(s, req, del, x.event.kind, now, x);
      } else {
        var i :| 0 <= i < |req.addresses|
                 && req.addresses[i] == Some(Address(x.event.kind, Hex(del.pubkey), DTag(x.event.tags)));
        AddressReach(s, req, del, i, now, x);
      }
    }
  }

  // ---------------------------------------------------------------- the caps, exactly

  function PassingIn(list: seq<Saved>, f: Filter): set<Saved> {
    set y | y in list && Passes(f, y.event)
  }

  function NewerPassing(list: seq<Saved>, f: Filter, x: Saved): set<Saved> {
    set y | y in list && Passes(f, y.event) && y.serial > x.serial
  }

  lemma OlderTail(list: seq<Saved>)
    requires list != [] && Older(list)
    ensures Older(list[1..]) && list == [list[0]] + list[1..]
    ensures forall y :: y in list[1..] ==> list[0].serial < y.serial
  {
    forall y | y in list[1..]
      ensures list[0].serial < y.serial
    {
      var k :| 0 <= k < |list[1..]| && list[1..][k] == y;
      assert list[k + 1] == y;
    }
  }

  lemma PassingCons(list: seq<Saved>, f: Filter)
    requires list != [] && Older(list)
    ensures PassingIn(list, f) == PassingIn(list[1..], f) + (if Passes(f, list[0].event) then {list[0]} else {})
    ensures list[0] !in PassingIn(list[1..], f)
  {
    OlderTail(list);
  }

  lemma {:induction false} NewestCount(list: seq<Saved>, f: Filter)
    requires Older(list)
    ensures |Newest(list, f)| == |PassingIn(list, f)|
  {
    if list != [] {
      OlderTail(list);
      NewestCount(list[1..], f);
      PassingCons(list, f);
    }
  }

  lemma NewerCons(list: seq<Saved>, f: Filter, x: Saved)
    requires list != [] && Older(list) && x in list
    ensures NewerPassing(list, f, x) == if x == list[0] then PassingIn(list[1..], f) else NewerPassing(list[1..], f, x)
  {
    OlderTail(list);
  }

  /** What one query and its deletes leave of a visible list: an event goes exactly when it
      passes, its d-tag fits, and fewer than the cap of the passing ones are newer. */
  lemma {:induction false} ThinIff(list: seq<Saved>, sel: Selector, x: Saved)
    requires Older(list) && x in list
    ensures x in Thin(list, sel) <==>
      !(&& Passes(sel.f, x.event) && TagFits(sel.dTag, x.event)
        && |NewerPassing(list, sel.f, x)| < Min(sel.cap, MAX_RESULTS))
  {
    OlderTail(list);
    NewerCons(list, sel.f, x);
    NewestCount(list[1..], sel.f);
    ThinMembers(list[1..], sel);
    ConsParts(list[0], Thin(list[1..], sel));
    if x != list[0] { ThinIff(list[1..], sel, x); }
  }

  lemma {:induction false} SoleSelector(s: Store, req: Request, del: Event, sel: Selector, now: int)
    requires req.ids == [] && AllSelectors(req, del) == [sel]
    ensures AfterRequest(s, req, del, now) == AfterSelector(s, sel, now)
  {
    assert [sel][..0] == [];
    assert AfterAll(s, [], now) == s;
  }

  /** The requester's visible events of a kind that are newer saves than x. */
  function OwnNewer(s: Store, del: Event, kind: int, now: int, x: Saved): set<Saved> {
    set y | y in OwnVisible(s, del, kind, now) && y.serial > x.serial
  }

  lemma {:induction false} NewerIsOwn(s: Store, del: Event, kind: int, cap: u16, now: int, x: Saved)
    requires AllInRange(s, now) && del.createdAt < TWO_32 && x in OwnVisible(s, del, kind, now)
    ensures var f := AuthorKindFilter(Hex(del.pubkey), kind, del.createdAt, cap);
            NewerPassing(Shown(s.index, s.files, now), f, x) == OwnNewer(s, del, kind, now, x) && Passes(f, x.event)
  {
    var f := AuthorKindFilter(Hex(del.pubkey), kind, del.createdAt, cap);
    forall y | y in Shown(s.index, s.files, now)
      ensures Passes(f, y.event) <==> Own(del, y.event, kind)
    {
      OwnPasses(del, kind, cap, y.event);
    }
  }

  lemma {:induction false} SoleQuery(s: Store, req: Request, del: Event, kind: int, cap: u16, dTag: Option<string>,
                                     now: int, x: Saved)
    requires Inv(s, 5000) && AllInRange(s, now) && del.createdAt < TWO_32
    requires req.ids == []
    requires AllSelectors(req, del)
          == [Selector(AuthorKindFilter(Hex(del.pubkey), kind, del.createdAt, cap), cap, dTag)]
    requires x in OwnVisible(s, del, kind, now)
    ensures var s' := AfterRequest(s, req, del, now);
            x in Shown(s'.index, s'.files, now) <==>
              !(TagFits(dTag, x.event) && |OwnNewer(s, del, kind, now, x)| < Min(cap, 500))
  {
    var f := AuthorKindFilter(Hex(del.pubkey), kind, del.createdAt, cap);
    var list := Shown(s.index, s.files, now);
    SoleSelector(s, req, del, Selector(f, cap, dTag), now);
    SelectorThins(s, Selector(f, cap, dTag), now);
    ShownOlder(s.index, s.files, now, s.next);
    ThinIff(list, Selector(f, cap, dTag), x);
    NewerIsOwn(s, del, kind, cap, now, x);
  }

  /** A request with one address and nothing else: of the requester's events of that kind, one
      goes exactly when its d-tag is the address's and fewer than 100 of them are newer. */
  lemma {:induction false} SoleAddress(s: Store, req: Request, del: Event, kind: int, dTag: string, now: int, x: Saved)
    requires Inv(s, 5000) && AllInRange(s, now) && del.createdAt < TWO_32
    requires req == Request(Hex(del.pubkey), [], [Some(Address(kind, Hex(del.pubkey), dTag))])
    requires KindTags(del.tags) == [] && x in OwnVisible(s, del, kind, now)
    ensures var s' := AfterRequest(s, req, del, now);
            x in Shown(s'.index, s'.files, now) <==>
              !(DTag(x.event.tags) == dTag && |OwnNewer(s, del, kind, now, x)| < 100)
  {
    assert AddressSelectors(req, 1, del.createdAt)
        == AddressSelectors(req, 0, del.createdAt) + AddressSelector(req, req.addresses[0], del.createdAt);
    assert KindTagSelectors(del) == [];
    SoleQuery(s, req, del, kind, ADDRESS_CAP, Some(dTag), now, x);
  }

  /** A request with one "k" tag and nothing else: one of them goes exactly when fewer than 500
      are newer. */
  lemma {:induction false} SoleKind(s: Store, req: Request, del: Event, kind: int, now: int, x: Saved)
    requires Inv(s, 5000) && AllInRange(s, now) && del.createdAt < TWO_32
    requires req.ids == [] && req.addresses == []
    requires KindTags(del.tags) == [kind] && x in OwnVisible(s, del, kind, now)
    ensures var s' := AfterRequest(s, req, del, now);
            x in Shown(s'.index, s'.files, now) <==> |OwnNewer(s, del, kind, now, x)| >= 500
  {
    var kinds := Take(KindTags(del.tags), KIND_TAGS_CAP);
    assert kinds == [kind];
    var first := KindSelector(Hex(del.pubkey), kind, del.createdAt);
    assert KindSelectors(Hex(del.pubkey), kinds, 1, del.createdAt)
        == KindSelectors(Hex(del.pubkey), kinds, 0, del.createdAt) + [first];
    SoleQuery(s, req, del, kind, KIND_CAP, None, now, x);
  }
}
