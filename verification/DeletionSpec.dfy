/** What a NIP-09 deletion request does to the store, and what that achieves. The methods
    are in `Deletion`. */
module DeletionSpec {
  import opened Bytes
  import opened Events
  import opened Index
  import opened StoreSpec
  import opened NvsLayout
  import opened StorageEngine
  import opened Runs

  /** An address "kind:pubkey:d" as `sscanf` splits it. */
  datatype Address = Address(kind: int, pubkey: string, dTag: string)

  /** `nostr_deletion_parse` fills this from the deletion event; `pubkey` is its author.
      An address that does not split is None. */
  datatype Request = Request(pubkey: string, ids: seq<string>, addresses: seq<Option<Address>>)

  const ADDRESS_CAP: u16 := 100
  const KIND_CAP: u16 := 500
  const KIND_TAGS_CAP: nat := 32

  /** `nostr_deletion_authorized`: an author may delete their own events. */
  predicate Authorized(req: Request, ev: Event) {
    req.pubkey == Hex(ev.pubkey)
  }

  function AuthorKindFilter(pubkey: string, kind: int, until: int, limit: int): Filter {
    Filter([], [pubkey], [kind], [], 0, until, limit)
  }

  /** What the query of an address or of a kind selects: the author's events of the kind, no
      newer than `until` if that is positive, and all of those. */
  lemma AuthorKindAcceptsIff(author: Key, kind: int, until: int, limit: int, ev: Event)
    ensures Accepts(AuthorKindFilter(Hex(author), kind, until, limit), ev)
       <==> ev.pubkey == author && ev.kind == kind && (until > 0 ==> ev.createdAt <= until)
  {
    var f := AuthorKindFilter(Hex(author), kind, until, limit);
    if p :| p in f.authors && p <= Hex(ev.pubkey) {
      assert p == Hex(author) && p == Hex(ev.pubkey);
      HexInjective(ev.pubkey, author);
    }
    if ev.pubkey == author { assert Hex(author) in f.authors && Hex(author) <= Hex(ev.pubkey); }
  }

  // ---------------------------------------------------------------- "k" tags

  function Digits(s: string, acc: int): int {
    if s != "" && '0' <= s[0] <= '9' then Digits(s[1..], 10 * acc + (s[0] as int - '0' as int)) else acc
  }

  function Atoi(s: string): int {
    if s == "" then 0
    else if s[0] == ' ' || '\t' <= s[0] <= '\r' then Atoi(s[1..])
    else if s[0] == '-' then -Digits(s[1..], 0)
    else if s[0] == '+' then Digits(s[1..], 0)
    else Digits(s, 0)
  }

  predicate IsKindTag(tag: seq<string>) {
    |tag| >= 2 && tag[0] == "k"
  }

  /** All the kinds named by "k" tags, in order. */
  function KindTags(tags: seq<seq<string>>): seq<int> {
    if tags == [] then []
    else (if IsKindTag(tags[0]) then [Atoi(tags[0][1])] else []) + KindTags(tags[1..])
  }

  // ---------------------------------------------------------------- what a deletion leaves

  /** The event an entry's file holds. */
  ghost function StoredAt(s: Store, i: nat): Option<Event>
    requires i < |s.index|
  {
    var p := PathOf(s.index[i]);
    if p in s.files && s.files[p].Whole? then Some(s.files[p].event) else None
  }

  /** Exactly the positions `w` are tombstoned and their files unlinked. */
  ghost predicate Buries(s: Store, s': Store, w: set<nat>) {
    s'.index == Bury(s.index, w) && s'.files == s.files - PathsAt(s.index, w) && s'.next == s.next
  }

  /** `d` are live positions, `x` expired ones, and none is both. */
  ghost predicate Spots(s: Store, d: set<nat>, x: set<nat>, now: int) {
    && d !! x
    && (forall i :: i in d ==> i < |s.index| && !s.index[i].deleted)
    && (forall i :: i in x ==> i < |s.index| && IsStale(s.index[i], now))
  }

  ghost predicate Between(e: Entry, kept: Entry, e': Entry, now: int) {
    kept == e' || (kept == e && Aged(kept, e', now))
  }

  /** The snapshot is as before if nothing was deleted; otherwise it is the index as of the
      last delete, so it lacks only tombstones of entries swept as expired since. */
  ghost predicate Settled(s: Store, s': Store, d: set<nat>, now: int) {
    || (d == {} && s'.snap == s.snap)
    || (&& s'.snap.next == s'.next && |s'.snap.entries| == |s'.index| == |s.index|
        && forall i :: 0 <= i < |s'.index| ==> Between(s.index[i], s'.snap.entries[i], s'.index[i], now))
  }

  /** From s to s': live positions `d` deleted, expired positions `x` swept away by the
      queries on the way, nothing else touched, every delete durable. */
  ghost predicate Deleted(s: Store, s': Store, d: set<nat>, x: set<nat>, now: int) {
    Buries(s, s', d + x) && Spots(s, d, x, now) && Settled(s, s', d, now)
  }

  lemma NothingDeleted(s: Store, now: int)
    ensures Deleted(s, s, {}, {}, now)
  {
    BuryNothing(s);
    assert BuryAll(s, {} + {}) == s;
  }

  lemma QueryDeletes(s: Store, stop: nat, now: int)
    ensures Deleted(s, Swept(s, stop, now), {}, Stale(s.index, stop, |s.index|, now), now)
  {
    var x := Stale(s.index, stop, |s.index|, now);
    assert {} + x == x;
  }

  lemma DeleteDeletes(s: Store, id: Key, now: int)
    requires Find(s.index, id).Some?
    ensures Deleted(s, Delete(s, id), {Find(s.index, id).value}, {}, now)
  {
    var d := {Find(s.index, id).value};
    assert d + {} == d;
  }

  lemma BuriesThen(s: Store, s1: Store, s2: Store, w: set<nat>, w': set<nat>)
    requires Buries(s, s1, w) && Buries(s1, s2, w')
    ensures Buries(s, s2, w + w')
  {
    BuryTwice(s, w, w');
  }

  /** What is still live or expired after a burial was so before, and was not buried. */
  lemma SpotsThen(s: Store, s1: Store, d: set<nat>, x: set<nat>, d': set<nat>, x': set<nat>, now: int)
    requires Buries(s, s1, d + x) && Spots(s, d, x, now) && Spots(s1, d', x', now)
    ensures (d + x) !! (d' + x') && Spots(s, d + d', x + x', now)
  {
    forall i | i in d' + x'
      ensures i !in d + x && i < |s.index| && s1.index[i] == s.index[i]
    {
      assert i < |s1.index| && !s1.index[i].deleted;
    }
  }

  lemma SettledThen(s: Store, s1: Store, s2: Store, d: set<nat>, x: set<nat>, d': set<nat>, x': set<nat>, now: int)
    requires Deleted(s, s1, d, x, now) && Deleted(s1, s2, d', x', now)
    ensures Settled(s, s2, d + d', now)
  {
    if !(d' == {} && s2.snap == s1.snap) {
      forall i | 0 <= i < |s2.index|
        ensures Between(s.index[i], s2.snap.entries[i], s2.index[i], now)
      {
        assert Between(s1.index[i], s2.snap.entries[i], s2.index[i], now);
      }
    } else if !(d == {} && s1.snap == s.snap) {
      forall i | 0 <= i < |s2.index|
        ensures Between(s.index[i], s2.snap.entries[i], s2.index[i], now)
      {
        assert Between(s.index[i], s1.snap.entries[i], s1.index[i], now);
      }
    }
  }

  lemma Regroup(d: set<nat>, x: set<nat>, d': set<nat>, x': set<nat>)
    requires (d + x) !! (d' + x')
    ensures d + x + (d' + x') == d + d' + (x + x') && |d + d'| == |d| + |d'|
  {
    assert d !! d';
  }

  /** Deletions compose. */
  lemma DeletedThen(s: Store, s1: Store, s2: Store, d: set<nat>, x: set<nat>, d': set<nat>, x': set<nat>, now: int)
    requires Deleted(s, s1, d, x, now) && Deleted(s1, s2, d', x', now)
    ensures |d + d'| == |d| + |d'|
    ensures Deleted(s, s2, d + d', x + x', now)
  {
    SpotsThen(s, s1, d, x, d', x', now);
    SettledThen(s, s1, s2, d, x, d', x', now);
    BuriesThen(s, s1, s2, d + x, d' + x');
    Regroup(d, x, d', x');
  }

  /** One more delete that finds its entry. */
  lemma DeletedThenOne(s: Store, s1: Store, d: set<nat>, x: set<nat>, id: Key, now: int)
    requires Deleted(s, s1, d, x, now) && Find(s1.index, id).Some?
    ensures var i := Find(s1.index, id).value;
            |d + {i}| == |d| + 1 && Deleted(s, Delete(s1, id), d + {i}, x, now)
  {
    DeleteDeletes(s1, id, now);
    DeletedThen(s, s1, Delete(s1, id), d, x, {Find(s1.index, id).value}, {}, now);
    assert x + {} == x;
  }

  /** The snapshot a delete wrote is sound over the files that are left. */
  lemma SettledSound(s: Store, s': Store, w: set<nat>, d: set<nat>, now: int)
    requires Sound(s.index, s.next, s.files) && Buries(s, s', w) && Settled(s, s', d, now) && s'.snap != s.snap
    ensures Sound(s'.snap.entries, s'.snap.next, s'.files)
  {
    var kept := s'.snap.entries;
    BurySound(s.index, s.next, s.files, w);
    forall i | 0 <= i < |kept|
      ensures kept[i].fileIndex == s.index[i].fileIndex && kept[i].id == s.index[i].id
      ensures s.index[i].deleted ==> kept[i].deleted
      ensures FileOk(kept[i], s'.files)
    {
      assert Between(s.index[i], kept[i], s'.index[i], now);
      assert FileOk(s'.index[i], s'.files) && FileOk(s.index[i], s.files);
    }
    forall i: nat, j: nat | i < j < |kept|
      ensures InOrder(kept, i, j) && IdsDiffer(kept, i, j)
    {
      assert InOrder(s.index, i, j) && IdsDiffer(s.index, i, j);
    }
  }

  /** A deletion keeps the storage invariant. */
  lemma DeletedInv(s: Store, s': Store, cap: nat, d: set<nat>, x: set<nat>, now: int)
    requires Inv(s, cap) && Deleted(s, s', d, x, now)
    ensures Inv(s', cap)
  {
    BuryInv(s, cap, d + x);
    if s'.snap != s.snap {
      SettledSound(s, s', d + x, d, now);
    }
  }

  /** A position the deletion left alone still holds what it held. */
  lemma UntouchedKeeps(s: Store, s': Store, w: set<nat>, i: nat)
    requires Buries(s, s', w) && Rising(s.index, s.next) && i < |s.index|
    ensures |s'.index| == |s.index|
    ensures s'.index[i] == if i in w then s.index[i].(deleted := true) else s.index[i]
    ensures i !in w ==> StoredAt(s', i) == StoredAt(s, i)
  {
    if i !in w {
      BuryPathKept(s.index, s.next, w, i);
    }
  }

  lemma {:induction false} NewestThinner(list: seq<Saved>, c: Cond, f: Filter)
    ensures |Newest(Keep(list, c), f)| <= |Newest(list, f)|
    ensures forall e :: e in Newest(Keep(list, c), f) ==> e in Newest(list, f)
  {
    if list != [] {
      NewestThinner(list[1..], c, f);
      if Holds(c, list[0]) {
        assert ([list[0]] + Keep(list[1..], c))[1..] == Keep(list[1..], c);
      }
    }
  }

  /** After a deletion every query returns fewer of the same events. */
  lemma {:induction false} DeletedShrinks(s: Store, s': Store, d: set<nat>, x: set<nat>, now: int, f: Filter)
    requires Deleted(s, s', d, x, now) && Inv(s, MAX_ENTRIES)
    ensures var was := Newest(Shown(s.index, s.files, now), f);
            var left := Newest(Shown(s'.index, s'.files, now), f);
            |left| <= |was| && forall e :: e in left ==> e in was
  {
    BuryThins(s, MAX_ENTRIES, d + x, now);
    NewestThinner(Shown(s.index, s.files, now), NoneOf(SerialsAt(s.index, d + x)), f);
  }

  // ---------------------------------------------------------------- by event id

  /** Some listed id names this event, and its author asks. */
  ghost predicate ChosenById(req: Request, n: nat, ev: Event)
    requires n <= |req.ids|
  {
    Authorized(req, ev) && exists k :: 0 <= k < n && HexToBytes(req.ids[k], 32) == Some(ev.id)
  }

  /** The text names a live entry with a file, whose author asks. */
  ghost predicate Listed(s: Store, req: Request, text: string) {
    var id := HexToBytes(text, 32);
    id.Some? && Get(s, id.value).Some? && Authorized(req, Get(s, id.value).value)
  }

  ghost function ListedAt(s: Store, req: Request, text: string): set<nat> {
    if Listed(s, req, text) then {Find(s.index, HexToBytes(text, 32).value).value} else {}
  }

  ghost function Gain(s: Store, req: Request, text: string): nat {
    if Listed(s, req, text) then 1 else 0
  }

  ghost function AfterListed(s: Store, req: Request, text: string): Store {
    if Listed(s, req, text) then Delete(s, HexToBytes(text, 32).value) else s
  }

  ghost predicate LiveChosen(s: Store, req: Request, n: nat, i: nat)
    requires i < |s.index| && n <= |req.ids|
  {
    !s.index[i].deleted && StoredAt(s, i).Some? && ChosenById(req, n, StoredAt(s, i).value)
  }

  /** `d` is the set of live positions whose stored event one of the first n ids chooses. */
  ghost predicate ByIdExactly(s: Store, req: Request, n: nat, d: set<nat>)
    requires n <= |req.ids|
  {
    && (forall i :: i in d ==> i < |s.index|)
    && forall i :: 0 <= i < |s.index| ==> (i in d <==> LiveChosen(s, req, n, i))
  }

  /** After n listed ids: the deletion so far, of exactly the chosen positions. */
  ghost predicate ByIdState(s: Store, s1: Store, req: Request, n: nat, d: set<nat>, now: int)
    requires n <= |req.ids|
  {
    Deleted(s, s1, d, {}, now) && ByIdExactly(s, req, n, d)
  }

  lemma ByIdStart(s: Store, req: Request, now: int)
    ensures ByIdState(s, s, req, 0, {}, now)
  {
    NothingDeleted(s, now);
  }

  lemma ChosenStep(req: Request, n: nat, ev: Event)
    requires n < |req.ids|
    ensures ChosenById(req, n + 1, ev)
       <==> ChosenById(req, n, ev) || (Authorized(req, ev) && HexToBytes(req.ids[n], 32) == Some(ev.id))
  {
  }

  lemma NothingMoreById(s: Store, req: Request, n: nat, d: set<nat>)
    requires n < |req.ids| && ByIdExactly(s, req, n, d) && HexToBytes(req.ids[n], 32).None?
    ensures ByIdExactly(s, req, n + 1, d)
  {
    forall i | 0 <= i < |s.index|
      ensures i in d <==> LiveChosen(s, req, n + 1, i)
    {
      if StoredAt(s, i).Some? { ChosenStep(req, n, StoredAt(s, i).value); }
    }
  }

  /** The entry one more listed id adds: the live one it finds, if authorized. */
  ghost predicate Hits(s1: Store, req: Request, id: Key, i: nat) {
    Find(s1.index, id) == Some(i) && Get(s1, id).Some? && Authorized(req, Get(s1, id).value)
  }

  /** A delete of a live id finds its position, unless that is already buried. */
  lemma LiveIsFound(index: seq<Entry>, w: set<nat>, i: nat)
    requires LiveDistinct(index) && i < |index| && !index[i].deleted
    ensures Find(Bury(index, w), index[i].id) == if i in w then None else Some(i)
  {
    var after, id := Bury(index, w), index[i].id;
    if Find(after, id).Some? {
      var v := Find(after, id).value;
      assert !index[v].deleted && index[v].id == id;
      LiveApart(index, i, v);
    } else {
      assert after[i].deleted;
    }
  }

  lemma ByIdAt(s: Store, s1: Store, req: Request, n: nat, id: Key, d: set<nat>, i: nat)
    requires Inv(s, MAX_ENTRIES) && Buries(s, s1, d) && i < |s.index|
    requires n < |req.ids| && HexToBytes(req.ids[n], 32) == Some(id)
    requires i in d ==> LiveChosen(s, req, n, i)
    requires i !in d ==> !LiveChosen(s, req, n, i)
    ensures LiveChosen(s, req, n + 1, i) <==> i in d || Hits(s1, req, id, i)
  {
    UntouchedKeeps(s, s1, d, i);
    assert FileOk(s.index[i], s.files);
    if !s.index[i].deleted { LiveIsFound(s.index, d, i); }
    if StoredAt(s, i).Some? { ChosenStep(req, n, StoredAt(s, i).value); }
  }

  /** One listed id deletes the one live entry it names, if it is still there and authorized. */
  lemma ByIdStep(s: Store, s1: Store, req: Request, n: nat, id: Key, d: set<nat>)
    requires Inv(s, MAX_ENTRIES) && Buries(s, s1, d)
    requires n < |req.ids| && ByIdExactly(s, req, n, d) && HexToBytes(req.ids[n], 32) == Some(id)
    ensures var found := Get(s1, id).Some? && Authorized(req, Get(s1, id).value);
            ByIdExactly(s, req, n + 1, if found then d + {Find(s1.index, id).value} else d)
  {
    forall i | 0 <= i < |s.index|
      ensures LiveChosen(s, req, n + 1, i) <==> i in d || Hits(s1, req, id, i)
    {
      ByIdAt(s, s1, req, n, id, d, i);
    }
  }

  lemma ByIdAdvance(s: Store, s1: Store, req: Request, n: nat, d: set<nat>, now: int)
    requires Inv(s, MAX_ENTRIES) && n < |req.ids| && ByIdState(s, s1, req, n, d, now)
    ensures var at := ListedAt(s1, req, req.ids[n]);
            && |d + at| == |d| + Gain(s1, req, req.ids[n])
            && ByIdState(s, AfterListed(s1, req, req.ids[n]), req, n + 1, d + at, now)
  {
    assert d + {} == d;
    if HexToBytes(req.ids[n], 32).None? {
      NothingMoreById(s, req, n, d);
    } else {
      var id := HexToBytes(req.ids[n], 32).value;
      ByIdStep(s, s1, req, n, id, d);
      if Listed(s1, req, req.ids[n]) {
        DeletedThenOne(s, s1, d, {}, id, now);
      }
    }
  }

  /** The state after the first n listed ids, and how many of them deleted something. */
  ghost function AfterIds(s: Store, req: Request, n: nat): Store
    requires n <= |req.ids|
  {
    if n == 0 then s else AfterListed(AfterIds(s, req, n - 1), req, req.ids[n - 1])
  }

  ghost function CountIds(s: Store, req: Request, n: nat): nat
    requires n <= |req.ids|
  {
    if n == 0 then 0
    else CountIds(s, req, n - 1) + Gain(AfterIds(s, req, n - 1), req, req.ids[n - 1])
  }

  /** After n listed ids: `d` is deleted, and counted. */
  ghost predicate IdsState(s: Store, req: Request, n: nat, d: set<nat>, now: int)
    requires n <= |req.ids|
  {
    ByIdState(s, AfterIds(s, req, n), req, n, d, now) && |d| == CountIds(s, req, n)
  }

  lemma IdsStep(s: Store, req: Request, n: nat)
    requires n < |req.ids|
    ensures AfterIds(s, req, n + 1) == AfterListed(AfterIds(s, req, n), req, req.ids[n])
    ensures CountIds(s, req, n + 1) == CountIds(s, req, n) + Gain(AfterIds(s, req, n), req, req.ids[n])
  {
  }

  lemma NoIdYet(s: Store, req: Request, now: int)
    ensures IdsState(s, req, 0, {}, now)
  {
    ByIdStart(s, req, now);
  }

  lemma OneMoreId(s: Store, req: Request, n: nat, d: set<nat>, now: int) returns (d': set<nat>)
    requires Inv(s, MAX_ENTRIES) && n < |req.ids| && IdsState(s, req, n, d, now)
    ensures IdsState(s, req, n + 1, d', now)
  {
    IdsStep(s, req, n);
    ByIdAdvance(s, AfterIds(s, req, n), req, n, d, now);
    d' := d + ListedAt(AfterIds(s, req, n), req, req.ids[n]);
  }

  /** Deleting by id deletes exactly the live events the requester wrote and listed. */
  lemma {:induction false} IdsDelete(s: Store, req: Request, n: nat, now: int) returns (d: set<nat>)
    requires Inv(s, MAX_ENTRIES) && n <= |req.ids|
    ensures IdsState(s, req, n, d, now)
  {
    if n == 0 {
      d := {};
      NoIdYet(s, req, now);
    } else {
      var m := n - 1;
      d := IdsDelete(s, req, m, now);
      d := OneMoreId(s, req, m, d, now);
    }
  }

  // ---------------------------------------------------------------- by query

  predicate TagFits(dTag: Option<string>, ev: Event) {
    dTag.Some? ==> DTag(ev.tags) == dTag.value
  }

  /** A position the query's scan down to `stop` returned, with the wanted d-tag. */
  ghost predicate Matched(s: Store, f: Filter, dTag: Option<string>, stop: nat, now: int, i: nat)
    requires i < |s.index|
  {
    stop <= i && Hit(s.index[i], s.files, now, f) != [] && TagFits(dTag, Hit(s.index[i], s.files, now, f)[0])
  }

  /** `d` is the set of matched positions, of those whose event is among the first n results. */
  ghost predicate MatchedAmong(s: Store, f: Filter, dTag: Option<string>, stop: nat, now: int,
                               results: seq<Event>, n: nat, d: set<nat>)
    requires n <= |results|
  {
    && (forall i :: i in d ==> i < |s.index|)
    && forall i :: 0 <= i < |s.index| ==>
         (i in d <==> Matched(s, f, dTag, stop, now, i) && Hit(s.index[i], s.files, now, f)[0] in results[..n])
  }

  ghost predicate MatchState(s: Store, s1: Store, f: Filter, dTag: Option<string>, stop: nat,
                             results: seq<Event>, n: nat, d: set<nat>, x: set<nat>, now: int)
    requires n <= |results|
  {
    Deleted(s, s1, d, x, now) && MatchedAmong(s, f, dTag, stop, now, results, n, d)
  }

  lemma MatchStart(s: Store, f: Filter, dTag: Option<string>, stop: nat, results: seq<Event>, now: int)
    ensures MatchState(s, Swept(s, stop, now), f, dTag, stop, results, 0, {}, Stale(s.index, stop, |s.index|, now), now)
  {
    QueryDeletes(s, stop, now);
  }

  /** Some position from `lo` on is a hit with event e. */
  ghost predicate HitFrom(s: Store, lo: nat, now: int, f: Filter, e: Event) {
    exists i :: lo <= i < |s.index| && Hit(s.index[i], s.files, now, f) == [e]
  }

  lemma HitFromStep(s: Store, lo: nat, now: int, f: Filter, e: Event)
    requires lo < |s.index|
    ensures HitFrom(s, lo, now, f, e) <==> HitFrom(s, lo + 1, now, f, e) || e in Hit(s.index[lo], s.files, now, f)
  {
  }

  /** The results of a scan are the hits of the positions it covered. */
  lemma {:induction false} ScannedMember(s: Store, lo: nat, now: int, f: Filter, e: Event)
    requires Inv(s, MAX_ENTRIES) && lo <= |s.index|
    ensures e in Scanned(s, lo, now, f) <==> HitFrom(s, lo, now, f, e)
    decreases |s.index| - lo
  {
    if lo == |s.index| {
      EmptyScan(s, now, f);
    } else {
      ScanStep(s, MAX_ENTRIES, lo, now, f);
      ScannedMember(s, lo + 1, now, f, e);
      HitFromStep(s, lo, now, f, e);
    }
  }

  lemma HitFacts(s: Store, f: Filter, now: int, i: nat)
    requires Inv(s, MAX_ENTRIES) && i < |s.index| && Hit(s.index[i], s.files, now, f) != []
    ensures !s.index[i].deleted && !IsStale(s.index[i], now)
    ensures Hit(s.index[i], s.files, now, f)[0].id == s.index[i].id
  {
    assert FileOk(s.index[i], s.files);
  }

  /** Ids tell hits apart. */
  lemma HitUnique(s: Store, f: Filter, now: int, i: nat, j: nat)
    requires Inv(s, MAX_ENTRIES) && i < |s.index| && j < |s.index|
    requires Hit(s.index[i], s.files, now, f) != [] && Hit(s.index[j], s.files, now, f) != []
    requires Hit(s.index[i], s.files, now, f)[0].id == Hit(s.index[j], s.files, now, f)[0].id
    ensures i == j
  {
    HitFacts(s, f, now, i);
    HitFacts(s, f, now, j);
    LiveApart(s.index, i, j);
  }

  /** One result more: its position joins the matched ones, if the d-tag fits. */
  lemma MatchedOneMore(s: Store, f: Filter, dTag: Option<string>, stop: nat, now: int,
                       results: seq<Event>, n: nat, d: set<nat>, i: nat)
    requires Inv(s, MAX_ENTRIES) && n < |results| && MatchedAmong(s, f, dTag, stop, now, results, n, d)
    requires stop <= i < |s.index| && Hit(s.index[i], s.files, now, f) == [results[n]]
    ensures MatchedAmong(s, f, dTag, stop, now, results, n + 1, if TagFits(dTag, results[n]) then d + {i} else d)
  {
    assert results[..n + 1] == results[..n] + [results[n]];
    forall j | 0 <= j < |s.index| && Matched(s, f, dTag, stop, now, j)
      ensures Hit(s.index[j], s.files, now, f)[0] in results[..n + 1]
         <==> Hit(s.index[j], s.files, now, f)[0] in results[..n] || j == i
    {
      if Hit(s.index[j], s.files, now, f)[0] == results[n] { HitUnique(s, f, now, i, j); }
    }
  }

  lemma AlreadyIn(d: set<nat>, i: nat)
    ensures i in d ==> d + {i} == d
  {
  }

  /** The position of the n-th result, and what a delete of its id would find now. */
  lemma ResultPosition(s: Store, s1: Store, w: set<nat>, f: Filter, stop: nat, results: seq<Event>, n: nat, now: int)
      returns (i: nat)
    requires Inv(s, MAX_ENTRIES) && stop <= |s.index| && results == Scanned(s, stop, now, f) && n < |results|
    requires Buries(s, s1, w)
    ensures stop <= i < |s.index| && Hit(s.index[i], s.files, now, f) == [results[n]]
    ensures !IsStale(s.index[i], now)
    ensures Find(s1.index, results[n].id) == if i in w then None else Some(i)
  {
    ScannedMember(s, stop, now, f, results[n]);
    assert results[n] in results;
    i :| stop <= i < |s.index| && Hit(s.index[i], s.files, now, f) == [results[n]];
    HitFacts(s, f, now, i);
    LiveIsFound(s.index, w, i);
  }

  /** The position a result's delete tombstones, and the state it leaves. */
  ghost function DroppedAt(s: Store, ev: Event, dTag: Option<string>): set<nat> {
    if TagFits(dTag, ev) && Find(s.index, ev.id).Some? then {Find(s.index, ev.id).value} else {}
  }

  ghost function Dropped(s: Store, ev: Event, dTag: Option<string>): Store {
    if TagFits(dTag, ev) then Delete(s, ev.id) else s
  }

  lemma MatchAdvance(s: Store, s1: Store, f: Filter, dTag: Option<string>, stop: nat,
                     results: seq<Event>, n: nat, d: set<nat>, x: set<nat>, now: int)
    requires Inv(s, MAX_ENTRIES) && stop <= |s.index| && results == Scanned(s, stop, now, f)
    requires n < |results| && MatchState(s, s1, f, dTag, stop, results, n, d, x, now)
    ensures var at := DroppedAt(s1, results[n], dTag);
            && |d + at| == |d| + |at|
            && MatchState(s, Dropped(s1, results[n], dTag), f, dTag, stop, results, n + 1, d + at, x, now)
  {
    var ev := results[n];
    assert d + {} == d;
    var i := ResultPosition(s, s1, d + x, f, stop, results, n, now);
    MatchedOneMore(s, f, dTag, stop, now, results, n, d, i);
    if TagFits(dTag, ev) {
      if Find(s1.index, ev.id).Some? {
        DeletedThenOne(s, s1, d, x, ev.id, now);
      } else {
        AlreadyIn(d, i);
      }
    }
  }

  // ---------------------------------------------------------------- what a query's deletes achieve

  /** One address or kind of a request: its query, its cap, and the d-tag that must fit. */
  datatype Selector = Selector(f: Filter, cap: u16, dTag: Option<string>)

  ghost predicate Chosen(s: Store, i: nat, sel: Selector) {
    && i < |s.index| && StoredAt(s, i).Some?
    && Accepts(sel.f, StoredAt(s, i).value) && TagFits(sel.dTag, StoredAt(s, i).value)
  }

  /** The query's cap covers everything visible it asks for. */
  ghost predicate Few(s: Store, sel: Selector, now: int) {
    |Newest(Shown(s.index, s.files, now), sel.f)| <= Min(sel.cap, MAX_RESULTS)
  }

  ghost predicate NoneLeft(s: Store, sel: Selector, now: int) {
    forall e :: e in Newest(Shown(s.index, s.files, now), sel.f) ==> !TagFits(sel.dTag, e)
  }

  ghost predicate ChosenBy(s: Store, sels: seq<Selector>, d: set<nat>) {
    forall i :: i in d ==> exists k :: 0 <= k < |sels| && Chosen(s, i, sels[k])
  }

  ghost predicate Emptied(s: Store, s': Store, sels: seq<Selector>, now: int) {
    forall k :: 0 <= k < |sels| && Few(s, sels[k], now) ==> NoneLeft(s', sels[k], now)
  }

  /** Deletions by selectors: only chosen positions go, and nothing chosen stays visible
      where the cap was enough. */
  ghost predicate Cleared(s: Store, s': Store, sels: seq<Selector>, d: set<nat>, x: set<nat>, now: int) {
    Deleted(s, s', d, x, now) && ChosenBy(s, sels, d) && Emptied(s, s', sels, now)
  }

  lemma MatchedAreChosen(s: Store, sel: Selector, stop: nat, results: seq<Event>, d: set<nat>, now: int)
    requires MatchedAmong(s, sel.f, sel.dTag, stop, now, results, |results|, d)
    ensures forall i :: i in d ==> Chosen(s, i, sel)
  {
  }

  lemma ClearedNothing(s: Store, now: int)
    ensures Cleared(s, s, [], {}, {}, now)
  {
    NothingDeleted(s, now);
  }

  lemma LeftThen(s: Store, s1: Store, s2: Store, a: seq<Selector>, d: set<nat>, x: set<nat>,
                 b: seq<Selector>, d': set<nat>, x': set<nat>, now: int, k: nat)
    requires Inv(s, MAX_ENTRIES) && Inv(s1, MAX_ENTRIES)
    requires Cleared(s, s1, a, d, x, now) && Cleared(s1, s2, b, d', x', now)
    requires k < |a + b| && Few(s, (a + b)[k], now)
    ensures NoneLeft(s2, (a + b)[k], now)
  {
    var sel := (a + b)[k];
    DeletedShrinks(s, s1, d, x, now, sel.f);
    DeletedShrinks(s1, s2, d', x', now, sel.f);
    if k < |a| {
      assert NoneLeft(s1, a[k], now);
    } else {
      assert Few(s1, b[k - |a|], now);
    }
  }

  lemma ChosenThen(s: Store, s1: Store, a: seq<Selector>, d: set<nat>, x: set<nat>,
                   b: seq<Selector>, d': set<nat>, x': set<nat>, now: int, i: nat)
    requires Inv(s, MAX_ENTRIES) && Deleted(s, s1, d, x, now) && Spots(s1, d', x', now) && i in d + d'
    requires i in d ==> exists k :: 0 <= k < |a| && Chosen(s, i, a[k])
    requires i in d' ==> exists k :: 0 <= k < |b| && Chosen(s1, i, b[k])
    ensures exists k :: 0 <= k < |a + b| && Chosen(s, i, (a + b)[k])
  {
    if i in d {
      var k :| 0 <= k < |a| && Chosen(s, i, a[k]);
      assert (a + b)[k] == a[k];
    } else {
      var k :| 0 <= k < |b| && Chosen(s1, i, b[k]);
      assert (a + b)[|a| + k] == b[k];
      UntouchedKeeps(s, s1, d + x, i);
    }
  }

  /** Clearing one list of selectors after another. */
  lemma ClearedThen(s: Store, s1: Store, s2: Store, a: seq<Selector>, d: set<nat>, x: set<nat>,
                    b: seq<Selector>, d': set<nat>, x': set<nat>, now: int)
    requires Inv(s, MAX_ENTRIES) && Cleared(s, s1, a, d, x, now) && Cleared(s1, s2, b, d', x', now)
    ensures |d + d'| == |d| + |d'|
    ensures Cleared(s, s2, a + b, d + d', x + x', now)
  {
    DeletedThen(s, s1, s2, d, x, d', x', now);
    DeletedInv(s, s1, MAX_ENTRIES, d, x, now);
    forall i | i in d + d'
      ensures exists k :: 0 <= k < |a + b| && Chosen(s, i, (a + b)[k])
    {
      ChosenThen(s, s1, a, d, x, b, d', x', now, i);
    }
    forall k | 0 <= k < |a + b| && Few(s, (a + b)[k], now)
      ensures NoneLeft(s2, (a + b)[k], now)
    {
      LeftThen(s, s1, s2, a, d, x, b, d', x', now, k);
    }
  }

  // ---------------------------------------------------------------- a query and its deletes, as functions

  /** How many events pass at or above each position. */
  ghost function Counts(s: Store, now: int, f: Filter): (c: seq<nat>)
    ensures |c| == |s.index| + 1
  {
    seq(|s.index| + 1, i requires 0 <= i <= |s.index| => |Scanned(s, i, now, f)|)
  }

  /** Going down a position adds one event or none. */
  ghost predicate Stepwise(c: seq<nat>) {
    |c| > 0 && c[|c| - 1] == 0 && forall i :: 0 < i < |c| ==> c[i] <= c[i - 1] <= c[i] + 1
  }

  /** The scan stops at the top-most position with enough events, or at the bottom. */
  function StopIn(c: seq<nat>, i: nat, most: nat): (stop: nat)
    requires i < |c|
    ensures stop <= i
  {
    if i == 0 || c[i] >= most then i else StopIn(c, i - 1, most)
  }

  ghost function StopAt(s: Store, f: Filter, most: nat, now: int): (stop: nat)
    ensures stop <= |s.index|
  {
    StopIn(Counts(s, now, f), |s.index|, most)
  }

  lemma CountStep(s: Store, i: nat, now: int, f: Filter)
    requires Inv(s, MAX_ENTRIES) && 0 < i <= |s.index|
    ensures |Scanned(s, i, now, f)| <= |Scanned(s, i - 1, now, f)| <= |Scanned(s, i, now, f)| + 1
  {
    ScanStep(s, MAX_ENTRIES, i - 1, now, f);
  }

  lemma CountsStepwise(s: Store, now: int, f: Filter)
    requires Inv(s, MAX_ENTRIES)
    ensures Stepwise(Counts(s, now, f))
  {
    var c := Counts(s, now, f);
    EmptyScan(s, now, f);
    forall i | 0 < i < |c|
      ensures c[i] <= c[i - 1] <= c[i] + 1
    {
      CountStep(s, i, now, f);
    }
  }

  lemma {:induction false} StopInAnswers(c: seq<nat>, i: nat, most: nat)
    requires Stepwise(c) && i < |c| && c[i] <= most && (i + 1 < |c| ==> c[i + 1] < most)
    ensures var stop := StopIn(c, i, most);
            c[stop] <= most && (stop == 0 || c[stop] == most) && (stop + 1 < |c| ==> c[stop + 1] < most)
  {
    if i > 0 && c[i] < most {
      StopInAnswers(c, i - 1, most);
    }
  }

  lemma {:induction false} StopInIs(c: seq<nat>, i: nat, most: nat, stop: nat)
    requires Stepwise(c) && stop <= i < |c|
    requires (stop == 0 || c[stop] == most) && (stop + 1 < |c| ==> c[stop + 1] < most)
    ensures StopIn(c, i, most) == stop
    ensures i > stop ==> c[i] < most
  {
    if i > stop {
      StopInIs(c, i - 1, most, stop);
    }
  }

  /** The scan's stopping place answers the query. */
  lemma StopAnswers(s: Store, f: Filter, most: nat, now: int)
    requires Inv(s, MAX_ENTRIES)
    ensures var stop := StopAt(s, f, most, now);
            QueryAnswer(s, Swept(s, stop, now), f, most, now, Scanned(s, stop, now, f), stop)
  {
    var c, stop := Counts(s, now, f), StopAt(s, f, most, now);
    CountsStepwise(s, now, f);
    StopInAnswers(c, |s.index|, most);
    assert c[stop] == |Scanned(s, stop, now, f)|;
    assert stop < |s.index| ==> c[stop + 1] == |Scanned(s, stop + 1, now, f)|;
    ScanDone(s, Swept(s, stop, now), stop, Scanned(s, stop, now, f), most, now, f);
  }

  lemma StopIsUnique(s: Store, f: Filter, most: nat, now: int, stop: nat)
    requires Inv(s, MAX_ENTRIES) && stop <= |s.index|
    requires stop == 0 || |Scanned(s, stop, now, f)| == most
    requires stop < |s.index| ==> |Scanned(s, stop + 1, now, f)| < most
    ensures stop == StopAt(s, f, most, now)
  {
    var c := Counts(s, now, f);
    CountsStepwise(s, now, f);
    assert c[stop] == |Scanned(s, stop, now, f)|;
    assert stop < |s.index| ==> c[stop + 1] == |Scanned(s, stop + 1, now, f)|;
    StopInIs(c, |s.index|, most, stop);
  }

  /** A query has only one place to stop. */
  lemma StopUnique(s: Store, s': Store, f: Filter, most: nat, now: int, results: seq<Event>, stop: nat)
    requires Inv(s, MAX_ENTRIES) && QueryAnswer(s, s', f, most, now, results, stop)
    ensures stop == StopAt(s, f, most, now)
    ensures s' == Swept(s, stop, now) && results == Scanned(s, stop, now, f)
  {
    StopIsUnique(s, f, most, now, stop);
  }

  /** A delete of each event whose d-tag fits, and how many found their entry. */
  ghost function DeleteEach(s: Store, events: seq<Event>, dTag: Option<string>): Store
    decreases |events|
  {
    if events == [] then s
    else DeleteEach(Dropped(s, events[0], dTag), events[1..], dTag)
  }

  ghost function CountEach(s: Store, events: seq<Event>, dTag: Option<string>): nat
    decreases |events|
  {
    if events == [] then 0
    else |DroppedAt(s, events[0], dTag)| + CountEach(Dropped(s, events[0], dTag), events[1..], dTag)
  }

  ghost function Stop(s: Store, sel: Selector, now: int): (stop: nat)
    ensures stop <= |s.index|
  {
    StopAt(s, sel.f, Min(sel.cap, MAX_RESULTS), now)
  }

  lemma FrontLast<T>(s: seq<T>)
    requires |s| > 0
    ensures s[..|s| - 1] + [s[|s| - 1]] == s
  {
  }

  lemma DropOne<T>(s: seq<T>, n: nat)
    requires n < |s|
    ensures s[n..] != [] && s[n..][0] == s[n] && s[n..][1..] == s[n + 1..]
  {
  }

  /** One query and the deletes of its results. */
  ghost function AfterSelector(s: Store, sel: Selector, now: int): Store {
    DeleteEach(Swept(s, Stop(s, sel, now), now), Scanned(s, Stop(s, sel, now), now, sel.f), sel.dTag)
  }

  ghost function CountSelector(s: Store, sel: Selector, now: int): nat {
    CountEach(Swept(s, Stop(s, sel, now), now), Scanned(s, Stop(s, sel, now), now, sel.f), sel.dTag)
  }

  /** All of them, in order. */
  ghost function AfterAll(s: Store, sels: seq<Selector>, now: int): Store {
    if sels == [] then s else AfterSelector(AfterAll(s, sels[..|sels| - 1], now), sels[|sels| - 1], now)
  }

  ghost function CountAll(s: Store, sels: seq<Selector>, now: int): nat {
    if sels == [] then 0
    else
      CountAll(s, sels[..|sels| - 1], now)
      + CountSelector(AfterAll(s, sels[..|sels| - 1], now), sels[|sels| - 1], now)
  }

  /** One selector more. */
  lemma {:induction false} AfterAllSnoc(s: Store, sels: seq<Selector>, sel: Selector, now: int)
    ensures AfterAll(s, sels + [sel], now) == AfterSelector(AfterAll(s, sels, now), sel, now)
    ensures CountAll(s, sels + [sel], now) == CountAll(s, sels, now) + CountSelector(AfterAll(s, sels, now), sel, now)
  {
    assert (sels + [sel])[..|sels + [sel]| - 1] == sels;
  }

  lemma {:induction false} EachStep(s: Store, results: seq<Event>, n: nat, dTag: Option<string>)
    requires n < |results|
    ensures var s' := Dropped(s, results[n], dTag);
            && DeleteEach(s, results[n..], dTag) == DeleteEach(s', results[n + 1..], dTag)
            && CountEach(s, results[n..], dTag)
               == |DroppedAt(s, results[n], dTag)| + CountEach(s', results[n + 1..], dTag)
  {
    assert results[n..][1..] == results[n + 1..];
  }

  lemma {:induction false} EachDeletes(s: Store, s1: Store, f: Filter, dTag: Option<string>, stop: nat,
                                       results: seq<Event>, n: nat, d: set<nat>, x: set<nat>, now: int)
      returns (d': set<nat>)
    requires Inv(s, MAX_ENTRIES) && stop <= |s.index| && results == Scanned(s, stop, now, f)
    requires n <= |results| && MatchState(s, s1, f, dTag, stop, results, n, d, x, now)
    ensures MatchState(s, DeleteEach(s1, results[n..], dTag), f, dTag, stop, results, |results|, d', x, now)
    ensures |d'| == |d| + CountEach(s1, results[n..], dTag)
    decreases |results| - n
  {
    d' := d;
    if n < |results| {
      EachStep(s1, results, n, dTag);
      MatchAdvance(s, s1, f, dTag, stop, results, n, d, x, now);
      var s2, at := Dropped(s1, results[n], dTag), DroppedAt(s1, results[n], dTag);
      d' := EachDeletes(s, s2, f, dTag, stop, results, n + 1, d + at, x, now);
    }
  }

  // ---------------------------------------------------------------- exactly which events go

  /** The events a delete by d-tag passes over. */
  function Unfit(events: seq<Event>, dTag: Option<string>): seq<Event> {
    if events == [] then []
    else if TagFits(dTag, events[0]) then Unfit(events[1..], dTag)
    else [events[0]] + Unfit(events[1..], dTag)
  }

  lemma {:induction false} UnfitAppend(a: seq<Event>, b: seq<Event>, dTag: Option<string>)
    ensures Unfit(a + b, dTag) == Unfit(a, dTag) + Unfit(b, dTag)
  {
    if a == [] {
      assert a + b == b;
    } else {
      assert (a + b)[1..] == a[1..] + b;
      UnfitAppend(a[1..], b, dTag);
    }
  }

  /** One selector's query and deletes tombstone the matched positions of its scan. */
  lemma SelectorMatches(s: Store, sel: Selector, now: int) returns (d: set<nat>, x: set<nat>)
    requires Inv(s, MAX_ENTRIES)
    ensures var stop := Stop(s, sel, now);
            var results := Scanned(s, stop, now, sel.f);
            && MatchState(s, AfterSelector(s, sel, now), sel.f, sel.dTag, stop, results, |results|, d, x, now)
            && |d| == CountSelector(s, sel, now)
            && (forall i :: i in d + x ==> stop <= i)
  {
    var stop := Stop(s, sel, now);
    var results := Scanned(s, stop, now, sel.f);
    x := Stale(s.index, stop, |s.index|, now);
    MatchStart(s, sel.f, sel.dTag, stop, results, now);
    assert results[0..] == results;
    d := EachDeletes(s, Swept(s, stop, now), sel.f, sel.dTag, stop, results, 0, {}, x, now);
  }

  /** The oldest event of the list goes: it passes, its d-tag fits, and fewer than the cap
      of the newer ones pass. */
  predicate Goes(list: seq<Saved>, sel: Selector)
    requires list != []
  {
    && Passes(sel.f, list[0].event) && TagFits(sel.dTag, list[0].event)
    && |Newest(list[1..], sel.f)| < Min(sel.cap, MAX_RESULTS)
  }

  /** What a selector leaves of a visible list, oldest save first. */
  function Thin(list: seq<Saved>, sel: Selector): seq<Saved> {
    if list == [] then []
    else if Goes(list, sel) then Thin(list[1..], sel)
    else [list[0]] + Thin(list[1..], sel)
  }

  /** A higher position has fewer passing events above it. */
  lemma {:induction false} ScannedFewer(s: Store, lo: nat, hi: nat, now: int, f: Filter)
    requires Inv(s, MAX_ENTRIES) && lo <= hi <= |s.index|
    ensures |Scanned(s, hi, now, f)| <= |Scanned(s, lo, now, f)|
    decreases hi - lo
  {
    if lo < hi {
      CountStep(s, lo + 1, now, f);
      ScannedFewer(s, lo + 1, hi, now, f);
    }
  }

  /** Position i holds a result whose d-tag fits, within the cap. */
  ghost predicate GoesAt(s: Store, sel: Selector, now: int, i: nat)
    requires i < |s.index|
  {
    var hit := Hit(s.index[i], s.files, now, sel.f);
    hit != [] && TagFits(sel.dTag, hit[0]) && |Scanned(s, i + 1, now, sel.f)| < Min(sel.cap, MAX_RESULTS)
  }

  ghost predicate ThinnedAt(s: Store, s': Store, sel: Selector, now: int, i: nat)
    requires i < |s.index| == |s'.index|
  {
    ShowOne(s'.index[i], s'.files, now) == if GoesAt(s, sel, now, i) then [] else ShowOne(s.index[i], s.files, now)
  }

  lemma StopBounds(s: Store, sel: Selector, now: int)
    requires Inv(s, MAX_ENTRIES)
    ensures Stop(s, sel, now) > 0 ==> |Scanned(s, Stop(s, sel, now), now, sel.f)| == Min(sel.cap, MAX_RESULTS)
    ensures Stop(s, sel, now) < |s.index| ==>
              |Scanned(s, Stop(s, sel, now) + 1, now, sel.f)| < Min(sel.cap, MAX_RESULTS)
  {
    StopAnswers(s, sel.f, Min(sel.cap, MAX_RESULTS), now);
  }

  lemma StopFull(s: Store, sel: Selector, now: int, i: nat)
    requires Inv(s, MAX_ENTRIES) && i <= Stop(s, sel, now) && 0 < Stop(s, sel, now)
    ensures |Scanned(s, i, now, sel.f)| >= Min(sel.cap, MAX_RESULTS)
  {
    StopBounds(s, sel, now);
    ScannedFewer(s, i, Stop(s, sel, now), now, sel.f);
  }

  lemma StopRoom(s: Store, sel: Selector, now: int, i: nat)
    requires Inv(s, MAX_ENTRIES) && Stop(s, sel, now) < i <= |s.index|
    ensures |Scanned(s, i, now, sel.f)| < Min(sel.cap, MAX_RESULTS)
  {
    StopBounds(s, sel, now);
    ScannedFewer(s, Stop(s, sel, now) + 1, i, now, sel.f);
  }

  /** The scan's positions are those with room under the cap above them. */
  lemma StopIsCap(s: Store, sel: Selector, now: int, i: nat)
    requires Inv(s, MAX_ENTRIES) && i < |s.index|
    ensures Stop(s, sel, now) <= i <==> |Scanned(s, i + 1, now, sel.f)| < Min(sel.cap, MAX_RESULTS)
  {
    if Stop(s, sel, now) <= i { StopRoom(s, sel, now, i + 1); } else { StopFull(s, sel, now, i + 1); }
  }

  lemma TakeWhole<T>(s: seq<T>)
    ensures s[..|s|] == s
  {
  }

  lemma MatchedIsGone(s: Store, sel: Selector, d: set<nat>, now: int, i: nat)
    requires Inv(s, MAX_ENTRIES) && i < |s.index|
    requires var stop := Stop(s, sel, now);
             var results := Scanned(s, stop, now, sel.f);
             MatchedAmong(s, sel.f, sel.dTag, stop, now, results, |results|, d)
    ensures i in d <==> GoesAt(s, sel, now, i)
  {
    var stop := Stop(s, sel, now);
    var results := Scanned(s, stop, now, sel.f);
    StopIsCap(s, sel, now, i);
    var hit := Hit(s.index[i], s.files, now, sel.f);
    if stop <= i && hit != [] {
      assert hit == [hit[0]];
      ScannedMember(s, stop, now, sel.f, hit[0]);
      assert HitFrom(s, stop, now, sel.f, hit[0]);
      TakeWhole(results);
    }
  }

  lemma SelectorThinsAt(s: Store, s': Store, sel: Selector, d: set<nat>, x: set<nat>, now: int, i: nat)
    requires Inv(s, MAX_ENTRIES) && Deleted(s, s', d, x, now) && i < |s.index|
    requires i in d <==> GoesAt(s, sel, now, i)
    ensures |s'.index| == |s.index| && ThinnedAt(s, s', sel, now, i)
  {
    BuryShowsRest(s.index, s.next, s.files, d + x, now, i);
  }

  lemma ConsParts<T>(x: T, rest: seq<T>)
    ensures ([x] + rest)[0] == x && ([x] + rest)[1..] == rest
  {
  }

  /** One entry more, which shows one event or none. */
  lemma {:induction false} ThinStep(shown: seq<Saved>, left: seq<Saved>, rest: seq<Saved>, sel: Selector)
    requires |shown| <= 1
    requires left == if shown != [] && Goes([shown[0]] + rest, sel) then [] else shown
    ensures left + Thin(rest, sel) == Thin(shown + rest, sel)
  {
    if shown == [] {
      assert shown + rest == rest && left + Thin(rest, sel) == Thin(rest, sel);
    } else {
      assert shown == [shown[0]];
      ConsParts(shown[0], rest);
    }
  }

  /** A position hits exactly when it shows an event that passes. */
  lemma HitIsPass(s: Store, f: Filter, now: int, i: nat)
    requires Inv(s, MAX_ENTRIES) && i < |s.index|
    ensures var shown, hit := ShowOne(s.index[i], s.files, now), Hit(s.index[i], s.files, now, f);
            && (hit != [] <==> shown != [] && Passes(f, shown[0].event))
            && (hit != [] ==> hit[0] == shown[0].event)
  {
    assert FileOk(s.index[i], s.files);
    if ShowOne(s.index[i], s.files, now) != [] {
      MayMatchByDigest(s.index[i], ShowOne(s.index[i], s.files, now)[0].event, f);
    }
  }

  lemma {:induction false} ShownThin(s: Store, s': Store, sel: Selector, now: int, lo: nat)
    requires Inv(s, MAX_ENTRIES) && lo <= |s.index| == |s'.index|
    requires forall i :: lo <= i < |s.index| ==> ThinnedAt(s, s', sel, now, i)
    ensures Shown(s'.index[lo..], s'.files, now) == Thin(Shown(s.index[lo..], s.files, now), sel)
    decreases |s.index| - lo
  {
    if lo < |s.index| {
      DropOne(s.index, lo);
      DropOne(s'.index, lo);
      ShownThin(s, s', sel, now, lo + 1);
      assert ThinnedAt(s, s', sel, now, lo);
      HitIsPass(s, sel.f, now, lo);
      ThinStep(ShowOne(s.index[lo], s.files, now), ShowOne(s'.index[lo], s'.files, now),
               Shown(s.index[lo + 1..], s.files, now), sel);
    }
  }

  /** A selector's query and deletes thin the visible list, and do nothing else to it. */
  lemma {:induction false} SelectorThins(s: Store, sel: Selector, now: int)
    requires Inv(s, MAX_ENTRIES)
    ensures var s' := AfterSelector(s, sel, now);
            Shown(s'.index, s'.files, now) == Thin(Shown(s.index, s.files, now), sel)
  {
    var s' := AfterSelector(s, sel, now);
    var d, x := SelectorMatches(s, sel, now);
    forall i: nat | i < |s.index|
      ensures |s'.index| == |s.index| && ThinnedAt(s, s', sel, now, i)
    {
      MatchedIsGone(s, sel, d, now, i);
      SelectorThinsAt(s, s', sel, d, x, now, i);
    }
    ShownThin(s, s', sel, now, 0);
    assert s.index[0..] == s.index && s'.index[0..] == s'.index;
  }

  lemma TakeSnoc<T>(s: seq<T>, x: T, most: nat)
    ensures var n, n' := Min(most, |s|), Min(most, |s + [x]|);
            && (|s| < most ==>
                  n == |s| && (s + [x])[..n'] == s + [x] && (s + [x])[n'..] == [] && s[..n] == s && s[n..] == [])
            && (|s| >= most ==> (s + [x])[..n'] == s[..n] && (s + [x])[n'..] == s[n..] + [x])
  {
  }

  /** Of the events `was`, those among the first `cap` whose d-tag fits are not in `left`. */
  predicate LeavesUnfit(was: seq<Event>, left: seq<Event>, sel: Selector) {
    var n := Min(Min(sel.cap, MAX_RESULTS), |was|);
    left == Unfit(was[..n], sel.dTag) + was[n..]
  }

  lemma {:induction false} LeavesMore(was: seq<Event>, left: seq<Event>, ev: Event, sel: Selector)
    requires LeavesUnfit(was, left, sel)
    ensures LeavesUnfit(was + [ev],
                        if |was| < Min(sel.cap, MAX_RESULTS) && TagFits(sel.dTag, ev) then left else left + [ev], sel)
  {
    TakeSnoc(was, ev, Min(sel.cap, MAX_RESULTS));
    UnfitAppend(was, [ev], sel.dTag);
    assert Unfit([ev], sel.dTag) == if TagFits(sel.dTag, ev) then [] else [ev];
  }

  /** Of the passing events, newest first, exactly those among the first `cap` whose d-tag
      fits disappear. */
  lemma {:induction false} NewestThin(list: seq<Saved>, sel: Selector)
    ensures LeavesUnfit(Newest(list, sel.f), Newest(Thin(list, sel), sel.f), sel)
  {
    if list != [] {
      NewestThin(list[1..], sel);
      ConsParts(list[0], Thin(list[1..], sel));
      if Passes(sel.f, list[0].event) {
        LeavesMore(Newest(list[1..], sel.f), Newest(Thin(list[1..], sel), sel.f), list[0].event, sel);
      }
    }
  }

  /** Deletion completeness up to the cap: of the visible events the query asks for, newest
      save first, exactly those among the first `cap` whose d-tag fits disappear. */
  lemma {:induction false} SelectorLeaves(s: Store, sel: Selector, now: int)
    requires Inv(s, MAX_ENTRIES)
    ensures var was, s' := Newest(Shown(s.index, s.files, now), sel.f), AfterSelector(s, sel, now);
            var n := Min(Min(sel.cap, 500), |was|);
            Newest(Shown(s'.index, s'.files, now), sel.f) == Unfit(was[..n], sel.dTag) + was[n..]
  {
    SelectorThins(s, sel, now);
    NewestThin(Shown(s.index, s.files, now), sel);
  }

  /** What is passed over is passed on: the index test on an own event in range is the full
      filter, for every bound a 32-bit clock can give. */
  lemma OwnSelectorPasses(author: Key, kind: int, until: int, cap: u16, ev: Event)
    requires until < TWO_32 && InRange(ev)
    ensures Passes(AuthorKindFilter(Hex(author), kind, until, cap), ev)
       <==> Accepts(AuthorKindFilter(Hex(author), kind, until, cap), ev)
  {
    if Accepts(AuthorKindFilter(Hex(author), kind, until, cap), ev) {
      IndexTestComplete(AuthorKindFilter(Hex(author), kind, until, cap), ev);
    }
  }

  lemma {:induction false} ThinMembers(list: seq<Saved>, sel: Selector)
    ensures forall x :: x in Thin(list, sel) ==> x in list
  {
    if list != [] {
      ThinMembers(list[1..], sel);
    }
  }

  /** The same in the terms of NIP-01, for a selector of a request: of the visible events
      of the author and kind, not newer than the request, exactly those among the newest
      `cap` whose d-tag fits disappear. */
  lemma {:induction false} SelectorLeavesAccepted(s: Store, author: Key, kind: int, until: int, cap: u16,
                                                  dTag: Option<string>, now: int)
    requires Inv(s, MAX_ENTRIES) && until < TWO_32
    requires forall x :: x in Shown(s.index, s.files, now) ==> InRange(x.event)
    ensures var f := AuthorKindFilter(Hex(author), kind, until, cap);
            var s' := AfterSelector(s, Selector(f, cap, dTag), now);
            var was := NewestAccepted(Shown(s.index, s.files, now), f);
            var n := Min(Min(cap, 500), |was|);
            NewestAccepted(Shown(s'.index, s'.files, now), f) == Unfit(was[..n], dTag) + was[n..]
  {
    var f := AuthorKindFilter(Hex(author), kind, until, cap);
    var sel := Selector(f, cap, dTag);
    SelectorLeaves(s, sel, now);
    SelectorThins(s, sel, now);
    ThinMembers(Shown(s.index, s.files, now), sel);
    PassesIsAccepts(Shown(s.index, s.files, now), f);
    PassesIsAccepts(Thin(Shown(s.index, s.files, now), sel), f);
  }

  lemma {:induction false} UnfitMembers(events: seq<Event>, dTag: Option<string>)
    ensures forall e :: e in Unfit(events, dTag) ==> !TagFits(dTag, e)
  {
    if events != [] {
      UnfitMembers(events[1..], dTag);
    }
  }

  lemma FewLeaveNone(s: Store, sel: Selector, now: int)
    requires Inv(s, MAX_ENTRIES) && Few(s, sel, now)
    ensures NoneLeft(AfterSelector(s, sel, now), sel, now)
  {
    var was := Newest(Shown(s.index, s.files, now), sel.f);
    SelectorLeaves(s, sel, now);
    UnfitMembers(was, sel.dTag);
    TakeWhole(was);
    assert was[|was|..] == [];
  }

  /** One selector's query and deletes clear it. */
  lemma SelectorClears(s: Store, sel: Selector, now: int) returns (d: set<nat>, x: set<nat>)
    requires Inv(s, MAX_ENTRIES)
    ensures Cleared(s, AfterSelector(s, sel, now), [sel], d, x, now) && |d| == CountSelector(s, sel, now)
  {
    var stop := Stop(s, sel, now);
    d, x := SelectorMatches(s, sel, now);
    MatchedAreChosen(s, sel, stop, Scanned(s, stop, now, sel.f), d, now);
    forall i | i in d
      ensures exists k :: 0 <= k < |[sel]| && Chosen(s, i, [sel][k])
    {
      assert Chosen(s, i, [sel][0]);
    }
    if Few(s, sel, now) {
      FewLeaveNone(s, sel, now);
    }
  }

  lemma OneMoreClears(s: Store, s1: Store, front: seq<Selector>, last: Selector, d: set<nat>, x: set<nat>, now: int)
      returns (d': set<nat>, x': set<nat>)
    requires Inv(s, MAX_ENTRIES) && Cleared(s, s1, front, d, x, now)
    ensures Cleared(s, AfterSelector(s1, last, now), front + [last], d', x', now)
    ensures |d'| == |d| + CountSelector(s1, last, now)
  {
    DeletedInv(s, s1, MAX_ENTRIES, d, x, now);
    d', x' := SelectorClears(s1, last, now);
    ClearedThen(s, s1, AfterSelector(s1, last, now), front, d, x, [last], d', x', now);
    d', x' := d + d', x + x';
  }

  lemma {:induction false} AllClear(s: Store, sels: seq<Selector>, now: int) returns (d: set<nat>, x: set<nat>)
    requires Inv(s, MAX_ENTRIES)
    ensures Cleared(s, AfterAll(s, sels, now), sels, d, x, now) && |d| == CountAll(s, sels, now)
    decreases |sels|
  {
    d, x := {}, {};
    if sels == [] {
      ClearedNothing(s, now);
    } else {
      FrontLast(sels);
      var front, last := sels[..|sels| - 1], sels[|sels| - 1];
      d, x := AllClear(s, front, now);
      d, x := OneMoreClears(s, AfterAll(s, front, now), front, last, d, x, now);
    }
  }

  lemma {:induction false} AfterAllInv(s: Store, sels: seq<Selector>, now: int)
    requires Inv(s, MAX_ENTRIES)
    ensures Inv(AfterAll(s, sels, now), MAX_ENTRIES)
  {
    var d, x := AllClear(s, sels, now);
    DeletedInv(s, AfterAll(s, sels, now), MAX_ENTRIES, d, x, now);
  }

  /** One selector more, of a list, and the state before it is sound. */
  lemma {:induction false} OneMoreSelector(s: Store, sels: seq<Selector>, k: nat, now: int)
    requires Inv(s, MAX_ENTRIES) && k < |sels|
    ensures AfterAll(s, sels[..k + 1], now) == AfterSelector(AfterAll(s, sels[..k], now), sels[k], now)
    ensures CountAll(s, sels[..k + 1], now) ==
      CountAll(s, sels[..k], now) + CountSelector(AfterAll(s, sels[..k], now), sels[k], now)
    ensures Inv(AfterAll(s, sels[..k], now), MAX_ENTRIES)
  {
    FrontLast(sels[..k + 1]);
    assert sels[..k + 1][..k] == sels[..k];
    AfterAllSnoc(s, sels[..k], sels[k], now);
    AfterAllInv(s, sels[..k], now);
  }

  function ThinAll(list: seq<Saved>, sels: seq<Selector>): seq<Saved> {
    if sels == [] then list else Thin(ThinAll(list, sels[..|sels| - 1]), sels[|sels| - 1])
  }

  /** A list of selectors thins the visible list once for each, in order. */
  lemma {:induction false} AllThin(s: Store, sels: seq<Selector>, now: int)
    requires Inv(s, MAX_ENTRIES)
    ensures Shown(AfterAll(s, sels, now).index, AfterAll(s, sels, now).files, now)
         == ThinAll(Shown(s.index, s.files, now), sels)
    decreases |sels|
  {
    if sels != [] {
      var front, last := sels[..|sels| - 1], sels[|sels| - 1];
      AllThin(s, front, now);
      AfterAllInv(s, front, now);
      SelectorThins(AfterAll(s, front, now), last, now);
    }
  }

  // ---------------------------------------------------------------- addresses and kinds

  /** The selector of an address the requester may delete at; None for one that does not
      split or names somebody else. */
  function AddressSelector(req: Request, address: Option<Address>, until: int): seq<Selector> {
    if address.None? || address.value.pubkey != req.pubkey then []
    else [Selector(AuthorKindFilter(address.value.pubkey, address.value.kind, until, ADDRESS_CAP),
                   ADDRESS_CAP, Some(address.value.dTag))]
  }

  function AddressSelectors(req: Request, n: nat, until: int): seq<Selector>
    requires n <= |req.addresses|
  {
    if n == 0 then []
    else AddressSelectors(req, n - 1, until) + AddressSelector(req, req.addresses[n - 1], until)
  }

  function KindSelector(pubkey: string, kind: int, until: int): Selector {
    Selector(AuthorKindFilter(pubkey, kind, until, KIND_CAP), KIND_CAP, None)
  }

  function KindSelectors(pubkey: string, kinds: seq<int>, n: nat, until: int): seq<Selector>
    requires n <= |kinds|
  {
    if n == 0 then [] else KindSelectors(pubkey, kinds, n - 1, until) + [KindSelector(pubkey, kinds[n - 1], until)]
  }

  /** The selectors of the "k" tags of a deletion event: the first 32 of them. */
  function KindTagSelectors(del: Event): seq<Selector> {
    var kinds := Take(KindTags(del.tags), KIND_TAGS_CAP);
    KindSelectors(Hex(del.pubkey), kinds, |kinds|, del.createdAt)
  }

  // ---------------------------------------------------------------- the whole request

  function AllSelectors(req: Request, del: Event): seq<Selector> {
    AddressSelectors(req, |req.addresses|, del.createdAt) + KindTagSelectors(del)
  }

  predicate Addresses(req: Request, address: Option<Address>, ev: Event) {
    && address.Some? && address.value.pubkey == req.pubkey
    && address.value.kind == ev.kind && address.value.dTag == DTag(ev.tags)
  }

  /** The request names the event by an address: its author, kind and d-tag. */
  ghost predicate NamedByAddress(req: Request, ev: Event) {
    exists i :: 0 <= i < |req.addresses| && Addresses(req, req.addresses[i], ev)
  }

  /** One of the first 32 "k" tags of the deletion event is the event's kind. */
  predicate NamedByKind(del: Event, ev: Event) {
    ev.kind in Take(KindTags(del.tags), KIND_TAGS_CAP)
  }

  predicate NotNewer(del: Event, ev: Event) {
    del.createdAt > 0 ==> ev.createdAt <= del.createdAt
  }

  lemma {:induction false} AddressOf(req: Request, n: nat, until: int, sel: Selector) returns (i: nat)
    requires n <= |req.addresses| && sel in AddressSelectors(req, n, until)
    ensures i < n && AddressSelector(req, req.addresses[i], until) == [sel]
  {
    if sel in AddressSelectors(req, n - 1, until) {
      i := AddressOf(req, n - 1, until, sel);
    } else {
      i := n - 1;
    }
  }

  lemma {:induction false} KindOf(pubkey: string, kinds: seq<int>, n: nat, until: int, sel: Selector) returns (k: nat)
    requires n <= |kinds| && sel in KindSelectors(pubkey, kinds, n, until)
    ensures k < n && sel == KindSelector(pubkey, kinds[k], until)
  {
    if sel in KindSelectors(pubkey, kinds, n - 1, until) {
      k := KindOf(pubkey, kinds, n - 1, until, sel);
    } else {
      k := n - 1;
    }
  }

  lemma AcceptedIsOwn(del: Event, ev: Event, kind: int, cap: u16)
    requires Accepts(AuthorKindFilter(Hex(del.pubkey), kind, del.createdAt, cap), ev)
    ensures ev.pubkey == del.pubkey && ev.kind == kind && NotNewer(del, ev)
  {
    AuthorKindAcceptsIff(del.pubkey, kind, del.createdAt, cap, ev);
  }

  /** An event a selector of the request chooses was written by the requester, no later
      than the request, and is named in it: sharing the four indexed author bytes is not
      enough. */
  lemma ChosenIsOwn(s: Store, i: nat, req: Request, del: Event, k: nat)
    requires req.pubkey == Hex(del.pubkey) && k < |AllSelectors(req, del)|
    requires Chosen(s, i, AllSelectors(req, del)[k])
    ensures var ev := StoredAt(s, i).value;
            ev.pubkey == del.pubkey && NotNewer(del, ev) && (NamedByAddress(req, ev) || NamedByKind(del, ev))
  {
    var sel, ev := AllSelectors(req, del)[k], StoredAt(s, i).value;
    if k < |AddressSelectors(req, |req.addresses|, del.createdAt)| {
      var j := AddressOf(req, |req.addresses|, del.createdAt, sel);
      AcceptedIsOwn(del, ev, req.addresses[j].value.kind, ADDRESS_CAP);
      assert Addresses(req, req.addresses[j], ev);
    } else {
      var kinds := Take(KindTags(del.tags), KIND_TAGS_CAP);
      var j := KindOf(Hex(del.pubkey), kinds, |kinds|, del.createdAt, sel);
      AcceptedIsOwn(del, ev, kinds[j], KIND_CAP);
    }
  }

  /** What a processed request did: `a` by id, `b` by address or kind, `x` expired. */
  ghost predicate Processed(s: Store, s': Store, req: Request, del: Event, a: set<nat>, b: set<nat>, x: set<nat>,
                            now: int) {
    && Deleted(s, s', a + b, x, now) && a !! b
    // by id: exactly the listed live events of the requester
    && ByIdExactly(s, req, |req.ids|, a)
    // by address and kind: only chosen events, and all of them that the caps cover
    && ChosenBy(s, AllSelectors(req, del), b) && Emptied(s, s', AllSelectors(req, del), now)
  }

  lemma ClearedAfter(s: Store, s1: Store, s2: Store, a: set<nat>, sels: seq<Selector>, b: set<nat>, x: set<nat>,
                     now: int)
    requires Inv(s, MAX_ENTRIES) && Deleted(s, s1, a, {}, now) && Cleared(s1, s2, sels, b, x, now)
    ensures ChosenBy(s, sels, b) && Emptied(s, s2, sels, now)
  {
    forall i | i in b
      ensures exists k :: 0 <= k < |sels| && Chosen(s, i, sels[k])
    {
      var k :| 0 <= k < |sels| && Chosen(s1, i, sels[k]);
      UntouchedKeeps(s, s1, a + {}, i);
    }
    forall k | 0 <= k < |sels| && Few(s, sels[k], now)
      ensures NoneLeft(s2, sels[k], now)
    {
      DeletedShrinks(s, s1, a, {}, now, sels[k].f);
      assert Few(s1, sels[k], now);
    }
  }

  lemma ProcessedBoth(s: Store, s1: Store, s2: Store, req: Request, del: Event, a: set<nat>, b: set<nat>, x: set<nat>,
                      now: int)
    requires Inv(s, MAX_ENTRIES) && ByIdState(s, s1, req, |req.ids|, a, now)
    requires Cleared(s1, s2, AllSelectors(req, del), b, x, now)
    ensures Processed(s, s2, req, del, a, b, x, now) && |a + b| == |a| + |b|
  {
    DeletedThen(s, s1, s2, a, {}, b, x, now);
    SpotsThen(s, s1, a, {}, b, x, now);
    ClearedAfter(s, s1, s2, a, AllSelectors(req, del), b, x, now);
    assert {} + x == x;
  }

  /** The whole request: by id, then by address, then by kind. */
  ghost function AfterRequest(s: Store, req: Request, del: Event, now: int): Store {
    AfterAll(AfterIds(s, req, |req.ids|), AllSelectors(req, del), now)
  }

  ghost function CountRequest(s: Store, req: Request, del: Event, now: int): nat {
    CountIds(s, req, |req.ids|) + CountAll(AfterIds(s, req, |req.ids|), AllSelectors(req, del), now)
  }

  lemma {:induction false} AfterIdsInv(s: Store, req: Request)
    requires Inv(s, MAX_ENTRIES)
    ensures Inv(AfterIds(s, req, |req.ids|), MAX_ENTRIES)
  {
    var d := IdsDelete(s, req, |req.ids|, 0);
    DeletedInv(s, AfterIds(s, req, |req.ids|), MAX_ENTRIES, d, {}, 0);
  }

  lemma ConcatFront<T>(a: seq<T>, b: seq<T>)
    ensures b == [] ==> a + b == a
    ensures b != [] ==> a + b == a + b[..|b| - 1] + [b[|b| - 1]]
  {
  }

  lemma {:induction false} AfterAllAppend(s: Store, a: seq<Selector>, b: seq<Selector>, now: int)
    ensures AfterAll(s, a + b, now) == AfterAll(AfterAll(s, a, now), b, now)
    ensures CountAll(s, a + b, now) == CountAll(s, a, now) + CountAll(AfterAll(s, a, now), b, now)
    decreases |b|
  {
    ConcatFront(a, b);
    if b != [] {
      AfterAllAppend(s, a, b[..|b| - 1], now);
      AfterAllSnoc(s, a + b[..|b| - 1], b[|b| - 1], now);
    }
  }

  /** What a deletion request achieves, and that its count is the number of entries it
      tombstoned by deletion, not counting those its queries swept away as expired. */
  lemma RequestProcessed(s: Store, req: Request, del: Event, now: int) returns (a: set<nat>, b: set<nat>, x: set<nat>)
    requires Inv(s, MAX_ENTRIES)
    ensures Processed(s, AfterRequest(s, req, del, now), req, del, a, b, x, now)
    ensures CountRequest(s, req, del, now) == |a + b|
  {
    var s1 := AfterIds(s, req, |req.ids|);
    a := IdsDelete(s, req, |req.ids|, now);
    DeletedInv(s, s1, MAX_ENTRIES, a, {}, now);
    b, x := AllClear(s1, AllSelectors(req, del), now);
    ProcessedBoth(s, s1, AfterRequest(s, req, del, now), req, del, a, b, x, now);
  }

  /** The list without the events the request names by id and may delete. */
  ghost function Unlisted(list: seq<Saved>, req: Request): seq<Saved> {
    if list == [] then []
    else if ChosenById(req, |req.ids|, list[0].event) then Unlisted(list[1..], req)
    else [list[0]] + Unlisted(list[1..], req)
  }

  ghost predicate UnlistedAt(s: Store, s': Store, req: Request, now: int, i: nat)
    requires i < |s.index| == |s'.index|
  {
    ShowOne(s'.index[i], s'.files, now) == Unlisted(ShowOne(s.index[i], s.files, now), req)
  }

  lemma {:induction false} UnlistedAppend(a: seq<Saved>, b: seq<Saved>, req: Request)
    ensures Unlisted(a + b, req) == Unlisted(a, req) + Unlisted(b, req)
  {
    if a == [] {
      assert a + b == b;
    } else {
      assert (a + b)[1..] == a[1..] + b;
      UnlistedAppend(a[1..], b, req);
    }
  }

  lemma {:induction false} ShownUnlisted(s: Store, s': Store, req: Request, now: int, lo: nat)
    requires lo <= |s.index| == |s'.index|
    requires forall i :: lo <= i < |s.index| ==> UnlistedAt(s, s', req, now, i)
    ensures Shown(s'.index[lo..], s'.files, now) == Unlisted(Shown(s.index[lo..], s.files, now), req)
    decreases |s.index| - lo
  {
    if lo < |s.index| {
      DropOne(s.index, lo);
      DropOne(s'.index, lo);
      ShownUnlisted(s, s', req, now, lo + 1);
      assert UnlistedAt(s, s', req, now, lo);
      UnlistedAppend(ShowOne(s.index[lo], s.files, now), Shown(s.index[lo + 1..], s.files, now), req);
    }
  }

  lemma ListedAreGone(s: Store, s': Store, req: Request, d: set<nat>, now: int, i: nat)
    requires Inv(s, MAX_ENTRIES) && ByIdState(s, s', req, |req.ids|, d, now) && i < |s.index|
    ensures |s'.index| == |s.index| && UnlistedAt(s, s', req, now, i)
  {
    BuryShowsRest(s.index, s.next, s.files, d + {}, now, i);
    assert i in d <==> LiveChosen(s, req, |req.ids|, i);
  }

  /** Deletion by id takes exactly the listed own events off the visible list. */
  lemma {:induction false} IdsThin(s: Store, req: Request, now: int)
    requires Inv(s, MAX_ENTRIES)
    ensures var s' := AfterIds(s, req, |req.ids|);
            Shown(s'.index, s'.files, now) == Unlisted(Shown(s.index, s.files, now), req)
  {
    var s' := AfterIds(s, req, |req.ids|);
    var d := IdsDelete(s, req, |req.ids|, now);
    forall i: nat | i < |s.index|
      ensures |s'.index| == |s.index| && UnlistedAt(s, s', req, now, i)
    {
      ListedAreGone(s, s', req, d, now, i);
    }
    ShownUnlisted(s, s', req, now, 0);
    assert s.index[0..] == s.index && s'.index[0..] == s'.index;
  }

  /** A deletion request on the visible list, exactly: the listed own events go, then each
      address and kind in order takes what it selects, newest first, up to its cap. */
  lemma {:induction false} RequestThins(s: Store, req: Request, del: Event, now: int)
    requires Inv(s, MAX_ENTRIES)
    ensures var s' := AfterRequest(s, req, del, now);
            Shown(s'.index, s'.files, now) ==
            ThinAll(Unlisted(Shown(s.index, s.files, now), req), AllSelectors(req, del))
  {
    IdsThin(s, req, now);
    AfterIdsInv(s, req);
    AllThin(AfterIds(s, req, |req.ids|), AllSelectors(req, del), now);
  }

  lemma AfterRequestKeeps(s: Store, req: Request, del: Event, now: int)
    requires Inv(s, MAX_ENTRIES)
    ensures Inv(AfterRequest(s, req, del, now), MAX_ENTRIES) && AfterRequest(s, req, del, now).next == s.next
  {
    var a, b, x := RequestProcessed(s, req, del, now);
    DeletedInv(s, AfterRequest(s, req, del, now), MAX_ENTRIES, a + b, x, now);
  }

  ghost predicate RequestNames(req: Request, del: Event, ev: Event) {
    && ev.pubkey == del.pubkey
    && (ChosenById(req, |req.ids|, ev) || (NotNewer(del, ev) && (NamedByAddress(req, ev) || NamedByKind(del, ev))))
  }

  /** Deletion frame: every newly tombstoned entry had expired, or holds an event of the
      requester that the request names by id, or by address or kind and not newer than it. */
  lemma OnlyOwnEvents(s: Store, s': Store, req: Request, del: Event, a: set<nat>, b: set<nat>, x: set<nat>, now: int,
                      i: nat)
    requires req.pubkey == Hex(del.pubkey) && Processed(s, s', req, del, a, b, x, now)
    requires i < |s.index| && s'.index[i] != s.index[i]
    ensures s'.index[i] == s.index[i].(deleted := true)
    ensures Expired(s.index[i], now) || (StoredAt(s, i).Some? && RequestNames(req, del, StoredAt(s, i).value))
  {
    assert i in a + b + x;
    if i in a {
      assert LiveChosen(s, req, |req.ids|, i);
      HexInjective(StoredAt(s, i).value.pubkey, del.pubkey);
    } else if i in b {
      var k :| 0 <= k < |AllSelectors(req, del)| && Chosen(s, i, AllSelectors(req, del)[k]);
      ChosenIsOwn(s, i, req, del, k);
    }
  }

  // ---------------------------------------------------------------- the time bound of a request

  /** A deletion query spares every event newer than the request exactly when the request's
      `created_at` is positive; 0 and below read as "no bound" (a kind that no event can
      have selects nothing either way). */
  lemma TimeBoundIff(author: Key, kind: int, until: int, cap: u16)
    ensures (forall ev :: Accepts(AuthorKindFilter(Hex(author), kind, until, cap), ev) ==> ev.createdAt <= until)
       <==> until > 0 || !(0 <= kind < 0x1_0000)
  {
    if until <= 0 && 0 <= kind < 0x1_0000 {
      var f := AuthorKindFilter(Hex(author), kind, until, cap);
      var newer := Event(author, author, 1, kind, [], 0, "");
      assert Hex(author) in f.authors && Hex(author) <= Hex(newer.pubkey);
      assert Accepts(f, newer) && newer.createdAt > until;
    }
  }

  lemma {:induction false} KindSelectorAt(pubkey: string, kinds: seq<int>, n: nat, until: int, j: nat)
    requires j < n <= |kinds|
    ensures |KindSelectors(pubkey, kinds, n, until)| == n
    ensures KindSelectors(pubkey, kinds, n, until)[j] == KindSelector(pubkey, kinds[j], until)
  {
    if j < n - 1 {
      KindSelectorAt(pubkey, kinds, n - 1, until, j);
    } else if n > 1 {
      KindSelectorAt(pubkey, kinds, n - 1, until, 0);
    }
  }

  lemma KindSelected(req: Request, del: Event, kind: int) returns (k: nat)
    requires kind in Take(KindTags(del.tags), KIND_TAGS_CAP)
    ensures k < |AllSelectors(req, del)|
    ensures AllSelectors(req, del)[k] == KindSelector(Hex(del.pubkey), kind, del.createdAt)
  {
    var kinds := Take(KindTags(del.tags), KIND_TAGS_CAP);
    var j :| 0 <= j < |kinds| && kinds[j] == kind;
    KindSelectorAt(Hex(del.pubkey), kinds, |kinds|, del.createdAt, j);
    k := |AddressSelectors(req, |req.addresses|, del.createdAt)| + j;
  }

  /** A kind of the request whose cap suffices leaves nothing it selects. */
  lemma KindLeavesNone(s: Store, req: Request, del: Event, kind: int, now: int)
    requires Inv(s, MAX_ENTRIES) && kind in Take(KindTags(del.tags), KIND_TAGS_CAP)
    requires Few(s, KindSelector(Hex(del.pubkey), kind, del.createdAt), now)
    ensures NoneLeft(AfterRequest(s, req, del, now), KindSelector(Hex(del.pubkey), kind, del.createdAt), now)
  {
    var k := KindSelected(req, del, kind);
    var a, b, x := RequestProcessed(s, req, del, now);
    assert Few(s, AllSelectors(req, del)[k], now);
  }

  lemma UntimedSelects(del: Event, ev: Event)
    requires del.createdAt <= 0 && InRange(ev) && ev.pubkey == del.pubkey
    ensures Passes(KindSelector(Hex(del.pubkey), ev.kind, del.createdAt).f, ev)
  {
    var f := KindSelector(Hex(del.pubkey), ev.kind, del.createdAt).f;
    assert Hex(del.pubkey) in f.authors && Hex(del.pubkey) <= Hex(ev.pubkey);
    OwnSelectorPasses(del.pubkey, ev.kind, del.createdAt, KIND_CAP, ev);
  }

  /** The whole failing family: with `created_at` at most 0, every visible event of the
      requester of a "k"-tagged kind goes, however new, up to the cap. */
  lemma {:induction false} UntimedRequestTakesNewer(s: Store, req: Request, del: Event, now: int, x: Saved)
    requires Inv(s, MAX_ENTRIES) && del.createdAt <= 0
    requires InRange(x.event) && x.event.pubkey == del.pubkey && NamedByKind(del, x.event)
    requires Few(s, KindSelector(Hex(del.pubkey), x.event.kind, del.createdAt), now)
    ensures x !in Shown(AfterRequest(s, req, del, now).index, AfterRequest(s, req, del, now).files, now)
  {
    var s' := AfterRequest(s, req, del, now);
    KindLeavesNone(s, req, del, x.event.kind, now);
    UntimedSelects(del, x.event);
    NewestVisible(Shown(s'.index, s'.files, now), KindSelector(Hex(del.pubkey), x.event.kind, del.createdAt).f);
  }

  lemma {:induction false} OneShown(e: Entry, files: Files, now: int, x: Saved)
    requires ShowOne(e, files, now) == [x]
    ensures Shown([e], files, now) == [x]
  {
    assert Shown([e][1..], files, now) == [];
  }

  lemma KindOfOne()
    ensures Take(KindTags([["k", "1"]]), KIND_TAGS_CAP) == [1]
  {
    assert Digits("1"[1..], 1) == 1;
    assert Atoi("1") == 1;
    assert KindTags([["k", "1"]][1..]) == [];
  }

  lemma {:induction false} NewestShorter(list: seq<Saved>, f: Filter)
    ensures |Newest(list, f)| <= |list|
  {
    if list != [] {
      NewestShorter(list[1..], f);
    }
  }

  /** A concrete one: an event of second 100, and a deletion of kind 1 dated 0. */
  lemma UntimedRequestExample(author: Key, id: Key, req: Request)
    ensures var ev := Event(id, author, 100, 1, [], 0, "");
            var del := Event(author, author, 0, DELETION_KIND, [["k", "1"]], 0, "");
            var s := Appended(EMPTY, 1000, ev, 100);
            var s' := AfterRequest(s, req, del, 100);
            && ev.createdAt > del.createdAt
            && Saved(ev, 1100, 0) in Shown(s.index, s.files, 100)
            && Saved(ev, 1100, 0) !in Shown(s'.index, s'.files, 100)
  {
    var ev := Event(id, author, 100, 1, [], 0, "");
    var del := Event(author, author, 0, DELETION_KIND, [["k", "1"]], 0, "");
    var s := Appended(EMPTY, 1000, ev, 100);
    AppendedInv(EMPTY, MAX_ENTRIES, 1000, ev, 100);
    OneShown(s.index[0], s.files, 100, Saved(ev, 1100, 0));
    KindOfOne();
    assert NamedByKind(del, ev);
    NewestShorter(Shown(s.index, s.files, 100), KindSelector(Hex(author), 1, 0).f);
    UntimedRequestTakesNewer(s, req, del, 100, Saved(ev, 1100, 0));
  }
}
