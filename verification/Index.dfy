/** The 52-byte index entry: how it digests an event, how it expires, where its file lies,
    and the lossy test on it that lets a query skip reading files. */
module Index {
  import opened Bytes
  import opened Events

  datatype Entry = Entry(id: Key, createdAt: u32, expiresAt: u32, fileIndex: u32,
                         kind: u16, author4: seq<u8>, deleted: bool)

  const ZERO_ENTRY := Entry(seq(32, (i: int) => 0), 0, 0, 0, 0, [0, 0, 0, 0], false)

  // ---------------------------------------------------------------- expiry

  /** The instant written at a save: the TTL counted from the save, in wrapping seconds,
      or the NIP-40 value when its low 32 bits are smaller. */
  function ExpiryOf(now: u32, ttl: u32, expiration: int): u32 {
    var byTtl := ToU32(now + ttl);
    if expiration > 0 && ToU32(expiration) < byTtl then ToU32(expiration) else byTtl
  }

  predicate Expired(e: Entry, now: int) {
    e.expiresAt > 0 && e.expiresAt < now
  }

  /** NIP-40: the entry dies at the tag's instant or with the TTL, whichever is first. */
  ghost predicate HonoursExpiry(now: u32, ttl: u32, expiration: int) {
    ExpiryOf(now, ttl, expiration) ==
      if expiration > 0 then Min(expiration, now + ttl) else now + ttl
  }

  /** While the TTL sum does not wrap, the expiry is honoured unless the tag's value is
      2^32 or more and its low half happens to fall before the TTL. */
  lemma ExpiryHonouredIff(now: u32, ttl: u32, expiration: int)
    requires now + ttl < TWO_32
    ensures HonoursExpiry(now, ttl, expiration)
       <==> (expiration < TWO_32 || now + ttl <= expiration % TWO_32)
    ensures HonoursExpiry(now, ttl, expiration) && 0 < now + ttl
       ==> 0 < ExpiryOf(now, ttl, expiration) <= now + ttl
  {
  }

  /** The instants at which an event saved at `now` can be seen, for a NIP-40 value the field
      can hold: up to the TTL, and up to that value if there is one. */
  lemma SeenUntilExpiry(now: u32, ttl: u32, expiration: int, t: int)
    requires 0 < now + ttl < TWO_32 && expiration < TWO_32
    ensures 0 < ExpiryOf(now, ttl, expiration) < t
       <==> !(t <= now + ttl && (expiration > 0 ==> t <= expiration))
  {
  }

  // ---------------------------------------------------------------- digest and path

  function Digest(ev: Event, expiresAt: u32, fileIndex: u32): Entry {
    Entry(ev.id, ToU32(ev.createdAt), expiresAt, fileIndex, ev.kind, ev.pubkey[..4], false)
  }

  /** Entry `e` was written for event `ev`. */
  predicate Describes(e: Entry, ev: Event) {
    && e.id == ev.id && e.createdAt == ToU32(ev.createdAt)
    && e.kind == ev.kind && e.author4 == ev.pubkey[..4]
  }

  /** No reading of the 32-bit clock finds the entry expired. */
  ghost predicate NeverExpires(e: Entry) {
    forall now: u32 :: !Expired(e, now)
  }

  /** An entry lives for ever exactly when its field is 0, which the expiry test reads as
      "never", or 2^32 - 1, which no 32-bit clock reading exceeds. A save writes the first
      when the sum wraps to 0 or the tag is a positive multiple of 2^32; it writes the
      second when the sum is all ones and the tag is absent or all ones in its low half. */
  lemma NeverExpiresIff(now: u32, ttl: u32, ev: Event, fileIndex: u32)
    ensures var x := ExpiryOf(now, ttl, ev.expiration);
            && (NeverExpires(Digest(ev, x, fileIndex)) <==> x == 0 || x == TWO_32 - 1)
            && (x == 0 <==> (now + ttl) % TWO_32 == 0 || (ev.expiration > 0 && ev.expiration % TWO_32 == 0))
            && (x == TWO_32 - 1 <==>
                  && (now + ttl) % TWO_32 == TWO_32 - 1
                  && (ev.expiration <= 0 || ev.expiration % TWO_32 == TWO_32 - 1))
  {
    var x := ExpiryOf(now, ttl, ev.expiration);
    if 0 < x < TWO_32 - 1 {
      var later: u32 := x + 1;
      assert Expired(Digest(ev, x, fileIndex), later);
    }
  }

  /** A file name, by the two things it is made of. */
  datatype Path = Path(prefix: seq<u8>, fileIndex: u32)

  function PathFor(id: Key, fileIndex: u32): Path {
    Path(id[..16], fileIndex)
  }

  function PathOf(e: Entry): Path {
    PathFor(e.id, e.fileIndex)
  }

  /** The text `get_event_path` prints. */
  function PathText(id: Key, fileIndex: u32): string {
    "/littlefs/events/" + Hex(id[..1]) + "/" + Hex(id[..16]) + "_" + Hex(BigEndian(fileIndex)) + ".bin"
  }

  /** Two entries share a file name exactly when they agree on the first 16 id bytes and
      the file index, so `Path` stands for the printed text. */
  lemma PathTextInjective(id: Key, k: u32, id': Key, k': u32)
    ensures PathText(id, k) == PathText(id', k') <==> PathFor(id, k) == PathFor(id', k')
  {
    if PathText(id, k) == PathText(id', k') {
      var s, s' := PathText(id, k), PathText(id', k');
      assert Hex(id[..16]) == Hex(id'[..16]) by {
        assert s[20..52] == Hex(id[..16]) && s'[20..52] == Hex(id'[..16]);
      }
      assert Hex(BigEndian(k)) == Hex(BigEndian(k')) by {
        assert s[53..61] == Hex(BigEndian(k)) && s'[53..61] == Hex(BigEndian(k'));
      }
      HexInjective(id[..16], id'[..16]);
      HexInjective(BigEndian(k), BigEndian(k'));
      BigEndianInjective(k, k');
    }
    if PathFor(id, k) == PathFor(id', k') {
      assert id[..1] == id[..16][..1] && id'[..1] == id'[..16][..1];
    }
  }

  // ---------------------------------------------------------------- the index test

  predicate TimeMayMatch(e: Entry, f: Filter) {
    && (f.since > 0 ==> ToU32(f.since) <= e.createdAt)
    && (f.until > 0 ==> e.createdAt <= ToU32(f.until))
  }

  predicate IdMatches(e: Entry, id: string) {
    HexToBytes(id, 32) == Some(e.id)
  }

  predicate SomeIdMatches(e: Entry, f: Filter) {
    exists k :: 0 <= k < |f.ids| && IdMatches(e, f.ids[k])
  }

  predicate AuthorMatches(e: Entry, author: string) {
    |author| >= 8 && HexToBytes(author, 4) == Some(e.author4)
  }

  predicate SomeAuthorMatches(e: Entry, f: Filter) {
    exists k :: 0 <= k < |f.authors| && AuthorMatches(e, f.authors[k])
  }

  /** `index_matches_filter`, read as a condition. The loops are in `Engine.IndexMatches`. */
  predicate MayMatch(e: Entry, f: Filter) {
    && TimeMayMatch(e, f)
    && (f.kinds != [] ==> e.kind in f.kinds)
    && (f.ids != [] ==> SomeIdMatches(e, f))
    && (f.authors != [] ==> SomeAuthorMatches(e, f))
  }

  /** The event passes the whole query test: index entry first, then the loaded event. */
  predicate Passes(f: Filter, ev: Event) {
    MayMatch(Digest(ev, 0, 0), f) && Accepts(f, ev)
  }

  lemma MayMatchByDigest(e: Entry, ev: Event, f: Filter)
    requires Describes(e, ev)
    ensures MayMatch(e, f) <==> MayMatch(Digest(ev, 0, 0), f)
  {
    forall k | 0 <= k < |f.ids|
      ensures IdMatches(e, f.ids[k]) <==> IdMatches(Digest(ev, 0, 0), f.ids[k])
    {
    }
    forall k | 0 <= k < |f.authors|
      ensures AuthorMatches(e, f.authors[k]) <==> AuthorMatches(Digest(ev, 0, 0), f.authors[k])
    {
    }
  }

  /** Filters for which the index test loses nothing. */
  predicate FullLength(f: Filter) {
    && (forall id :: id in f.ids ==> |id| >= 64)
    && (forall a :: a in f.authors ==> |a| >= 8)
  }

  /** The only way an `until` is misread: it needs more than 32 bits, its low half is not
      all ones, and `since` leaves some representable instant open. */
  predicate UntilMisread(f: Filter) {
    f.until >= TWO_32 && f.until % TWO_32 < TWO_32 - 1 && f.since < TWO_32
  }

  predicate InRange(ev: Event) {
    0 <= ev.createdAt < TWO_32
  }

  lemma IdKept(ev: Event, f: Filter)
    requires Accepts(f, ev) && FullLength(f) && f.ids != []
    ensures SomeIdMatches(Digest(ev, 0, 0), f)
  {
    var p :| p in f.ids && p <= Hex(ev.id);
    var k :| 0 <= k < |f.ids| && f.ids[k] == p;
    assert p == Hex(ev.id);
    DecodeEncode(ev.id, p);
    assert IdMatches(Digest(ev, 0, 0), f.ids[k]);
  }

  lemma AuthorKept(ev: Event, f: Filter)
    requires Accepts(f, ev) && FullLength(f) && f.authors != []
    ensures SomeAuthorMatches(Digest(ev, 0, 0), f)
  {
    var p :| p in f.authors && p <= Hex(ev.pubkey);
    var k :| 0 <= k < |f.authors| && f.authors[k] == p;
    HexPrefix(ev.pubkey, 4);
    assert Hex(ev.pubkey[..4]) <= p;
    DecodeEncode(ev.pubkey[..4], p);
    assert AuthorMatches(Digest(ev, 0, 0), f.authors[k]);
  }

  lemma BoundsKept(ev: Event, f: Filter)
    requires Accepts(f, ev) && InRange(ev) && !UntilMisread(f)
    ensures TimeMayMatch(Digest(ev, 0, 0), f)
  {
  }

  /** Prefilter completeness: with full-length ids and author prefixes of at least 8 digits,
      the index test rejects some in-range event the filter accepts only if `until` is misread. */
  lemma IndexTestComplete(f: Filter, ev: Event)
    requires FullLength(f) && !UntilMisread(f)
    requires InRange(ev) && Accepts(f, ev)
    ensures Passes(f, ev)
  {
    BoundsKept(ev, f);
    if f.ids != [] { IdKept(ev, f); }
    if f.authors != [] { AuthorKept(ev, f); }
  }

  /** The filter that only bounds time. */
  function TimeFilter(since: int, until: int): Filter {
    Filter([], [], [], [], since, until, 0)
  }

  function AnEvent(createdAt: int): Event {
    Event(seq(32, (i: int) => 0), seq(32, (i: int) => 0), createdAt, 1, [], 0, "")
  }

  /** The exact role of the time bounds: truncating `since` never loses an in-range event,
      truncating `until` does precisely when `UntilMisread`. */
  lemma TimeBoundsCompleteIff(since: int, until: int)
    ensures UntilMisread(TimeFilter(since, until))
       <==> exists ev :: InRange(ev) && Accepts(TimeFilter(since, until), ev)
                         && !Passes(TimeFilter(since, until), ev)
  {
    var f := TimeFilter(since, until);
    if UntilMisread(f) {
      var ev := AnEvent(TWO_32 - 1);
      assert InRange(ev) && Accepts(f, ev) && !Passes(f, ev);
    } else {
      forall ev | InRange(ev) && Accepts(f, ev)
        ensures Passes(f, ev)
      {
        IndexTestComplete(f, ev);
      }
    }
  }

  /** Without the length conditions the test does lose events: a filter naming only
      shortened ids passes nothing, and one naming only short author prefixes neither. */
  lemma ShortIdsPassNothing(f: Filter, ev: Event)
    requires (f.ids != [] && forall id :: id in f.ids ==> |id| < 64)
          || (f.authors != [] && forall a :: a in f.authors ==> |a| < 8)
    ensures !Passes(f, ev)
  {
  }

  /** The text starts with the digits of `b`, in either case. */
  ghost predicate Spells(s: string, b: seq<u8>) {
    |s| >= 2 * |b| && forall i :: 0 <= i < 2 * |b| ==> HexValue(s[i]) == HexValue(Hex(b)[i])
  }

  lemma SpelledAt(s: string, b: seq<u8>, j: nat)
    requires |s| >= 2 * |b| && j < |b|
    requires Spells(s, b)
    ensures HexValue(s[2 * j]) >= 0 && HexValue(s[2 * j + 1]) >= 0
    ensures ByteAt(s[2 * j], s[2 * j + 1]) == b[j]
  {
    HexAt(b, j);
    assert HexValue(s[2 * j]) == HexValue(Hex(b)[2 * j]);
    assert HexValue(s[2 * j + 1]) == HexValue(Hex(b)[2 * j + 1]);
  }

  lemma DecodedAt(s: string, b: seq<u8>, i: nat)
    requires HexToBytes(s, |b|) == Some(b) && i < 2 * |b|
    ensures HexValue(s[i]) == HexValue(Hex(b)[i])
  {
    var j := i / 2;
    assert HexToBytes(s, |b|).value[j] == ByteAt(s[2 * j], s[2 * j + 1]);
    HexAt(b, j);
    assert i == 2 * j || i == 2 * j + 1;
  }

  lemma SpellsIff(s: string, b: seq<u8>)
    ensures Spells(s, b) <==> HexToBytes(s, |b|) == Some(b)
  {
    if Spells(s, b) {
      forall i | 0 <= i < 2 * |b|
        ensures HexValue(s[i]) >= 0
      {
        assert i == 2 * (i / 2) || i == 2 * (i / 2) + 1;
        SpelledAt(s, b, i / 2);
      }
      var r := HexToBytes(s, |b|);
      assert r.Some?;
      forall j | 0 <= j < |b|
        ensures r.value[j] == b[j]
      {
        SpelledAt(s, b, j);
      }
      assert r.value == b;
    }
    if HexToBytes(s, |b|) == Some(b) {
      forall i | 0 <= i < 2 * |b|
        ensures HexValue(s[i]) == HexValue(Hex(b)[i])
      {
        DecodedAt(s, b, i);
      }
    }
  }

  /** Some id of the filter is spelt out in full. */
  ghost predicate SpellsId(f: Filter, id: Key) {
    exists k :: 0 <= k < |f.ids| && Spells(f.ids[k], id)
  }

  /** Some author of the filter is spelt out for at least the four indexed bytes. */
  ghost predicate SpellsAuthor(f: Filter, pubkey: Key) {
    exists k :: 0 <= k < |f.authors| && Spells(f.authors[k], pubkey[..4])
  }

  lemma SpellsIdIff(f: Filter, ev: Event)
    ensures SpellsId(f, ev.id) <==> SomeIdMatches(Digest(ev, 0, 0), f)
  {
    forall k | 0 <= k < |f.ids|
      ensures IdMatches(Digest(ev, 0, 0), f.ids[k]) <==> Spells(f.ids[k], ev.id)
    {
      SpellsIff(f.ids[k], ev.id);
    }
  }

  lemma SpellsAuthorIff(f: Filter, ev: Event)
    ensures SpellsAuthor(f, ev.pubkey)
       <==> SomeAuthorMatches(Digest(ev, 0, 0), f)
  {
    forall k | 0 <= k < |f.authors|
      ensures AuthorMatches(Digest(ev, 0, 0), f.authors[k]) <==> Spells(f.authors[k], ev.pubkey[..4])
    {
      SpellsIff(f.authors[k], ev.pubkey[..4]);
    }
  }

  /** What the index test can lose on an event the filter accepts, exactly: a misread time
      bound, an id given by a proper prefix, or an author given by fewer than 8 digits. */
  lemma PassesIff(f: Filter, ev: Event)
    requires InRange(ev) && Accepts(f, ev)
    ensures Passes(f, ev)
       <==> (&& (f.until > 0 ==> ev.createdAt <= f.until % TWO_32)
             && (f.ids != [] ==> SpellsId(f, ev.id))
             && (f.authors != [] ==> SpellsAuthor(f, ev.pubkey)))
  {
    SpellsIdIff(f, ev);
    SpellsAuthorIff(f, ev);
    assert TimeMayMatch(Digest(ev, 0, 0), f) <==> (f.until > 0 ==> ev.createdAt <= f.until % TWO_32);
  }
}
