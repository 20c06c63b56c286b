/** The storage engine: an index array changed in place over event files and a chunked
    snapshot. Every method is tied to the step of `StoreSpec` it performs. */
module StorageEngine {
  import opened Bytes
  import opened Events
  import opened Index
  import opened StoreSpec
  import opened NvsLayout

  const MAX_RESULTS: nat := 500

  // ---------------------------------------------------------------- loop steps

  /** The non-volatile storage holds snapshot `snap`, the empty one before any was written. */
  ghost predicate Durable(nvs: Nvs, snap: Snapshot) {
    && |snap.entries| <= MAX_ENTRIES
    && (nvs == NvsOf(snap) || (nvs == NO_NVS && snap == Snapshot([], 0)))
  }

  /** The first k chunks of n entries are in place. */
  ghost predicate Loaded(index: seq<Entry>, chunks: map<nat, seq<Entry>>, n: nat, k: nat) {
    && |index| == n
    && (forall j: nat :: j < k ==> j in chunks && |chunks[j]| == ChunkLen(n, j))
    && forall j: nat, x :: j < k && 0 <= x < ChunkLen(n, j) ==> index[CHUNK * j + x] == chunks[j][x]
  }

  lemma LoadedUp(before: seq<Entry>, after: seq<Entry>, chunks: map<nat, seq<Entry>>, n: nat, k: nat)
    requires Loaded(before, chunks, n, k) && |after| == n
    requires k < NumChunks(n) && k in chunks && |chunks[k]| == ChunkLen(n, k)
    requires forall x :: 0 <= x < CHUNK * k ==> after[x] == before[x]
    requires forall x :: 0 <= x < ChunkLen(n, k) ==> after[CHUNK * k + x] == chunks[k][x]
    ensures Loaded(after, chunks, n, k + 1)
  {
    forall j: nat, x | j < k + 1 && 0 <= x < ChunkLen(n, j)
      ensures after[CHUNK * j + x] == chunks[j][x]
    {
      if j < k { assert before[CHUNK * j + x] == chunks[j][x]; }
    }
  }

  lemma LoadedAll(index: seq<Entry>, chunks: map<nat, seq<Entry>>, n: nat, k: nat)
    requires Loaded(index, chunks, n, k) && k == NumChunks(n)
    ensures HasChunks(chunks, n) && index == Join(chunks, n)
  {
    forall i | 0 <= i < n
      ensures index[i] == Join(chunks, n)[i]
    {
      assert i == CHUNK * (i / CHUNK) + i % CHUNK && i / CHUNK < k;
    }
  }

  lemma TakeSound(index: seq<Entry>, next: u32, files: Files, n: nat)
    requires Sound(index, next, files)
    ensures Sound(Take(index, n), next, files)
  {
    forall i: nat, j: nat | i < j < |Take(index, n)|
      ensures InOrder(Take(index, n), i, j) && IdsDiffer(Take(index, n), i, j)
    {
      assert InOrder(index, i, j) && IdsDiffer(index, i, j);
    }
    forall i | 0 <= i < |Take(index, n)|
      ensures FileOk(Take(index, n)[i], files)
    {
      assert FileOk(index[i], files);
    }
  }

  /** The state after tombstoning the expired entries from position `lo` on. */
  ghost function Swept(s: Store, lo: nat, now: int): Store {
    BuryAll(s, Stale(s.index, lo, |s.index|, now))
  }

  ghost function SweptBelow(s: Store, hi: nat, now: int): Store {
    BuryAll(s, Stale(s.index, 0, hi, now))
  }

  /** The passing events from position `lo` on, newest first. */
  ghost function Scanned(s: Store, lo: nat, now: int, f: Filter): seq<Event>
    requires lo <= |s.index|
  {
    Newest(Shown(s.index[lo..], s.files, now), f)
  }

  lemma BuryNothing(s: Store)
    ensures BuryAll(s, {}) == s
  {
    assert s.files - PathsAt(s.index, {}) == s.files;
  }

  lemma EmptyScan(s: Store, now: int, f: Filter)
    ensures Swept(s, |s.index|, now) == s && Scanned(s, |s.index|, now, f) == []
  {
    assert Stale(s.index, |s.index|, |s.index|, now) == {};
    BuryNothing(s);
  }

  lemma EmptyPurge(s: Store, now: int)
    ensures Stale(s.index, 0, 0, now) == {} && SweptBelow(s, 0, now) == s
  {
    assert Stale(s.index, 0, 0, now) == {};
    BuryNothing(s);
  }

  predicate IsStale(e: Entry, now: int) {
    !e.deleted && Expired(e, now)
  }

  lemma PurgeStep(s: Store, i: nat, now: int)
    requires i < |s.index|
    ensures SweptBelow(s, i, now).index[i] == s.index[i]
    ensures |Stale(s.index, 0, i + 1, now)| ==
      |Stale(s.index, 0, i, now)| + if IsStale(s.index[i], now) then 1 else 0
    ensures SweptBelow(s, i + 1, now) ==
      if IsStale(s.index[i], now) then BuryAll(SweptBelow(s, i, now), {i}) else SweptBelow(s, i, now)
  {
    var w := Stale(s.index, 0, i, now);
    assert Stale(s.index, 0, i + 1, now) == if IsStale(s.index[i], now) then w + {i} else w;
    BuryTwice(s, w, {i});
  }

  /** Scanning position i meets the entry as it was, with its own file untouched. */
  lemma SweepStep(s: Store, cap: nat, i: nat, now: int)
    requires Inv(s, cap) && i < |s.index|
    ensures var b, e := Swept(s, i + 1, now), s.index[i];
            && b.index[i] == e
            && (PathOf(e) in b.files <==> PathOf(e) in s.files)
            && (PathOf(e) in b.files ==> b.files[PathOf(e)] == s.files[PathOf(e)])
            && Swept(s, i, now) == if IsStale(e, now) then BuryAll(b, {i}) else b
  {
    var w := Stale(s.index, i + 1, |s.index|, now);
    assert Stale(s.index, i, |s.index|, now) == if IsStale(s.index[i], now) then w + {i} else w;
    BuryTwice(s, w, {i});
    BuryPathKept(s.index, s.next, w, i);
  }

  /** What an entry adds to the results of a scan. */
  ghost function Hit(e: Entry, files: Files, now: int, f: Filter): seq<Event> {
    if !e.deleted && !Expired(e, now) && MayMatch(e, f)
       && PathOf(e) in files && files[PathOf(e)].Whole? && Accepts(f, files[PathOf(e)].event)
    then [files[PathOf(e)].event] else []
  }

  lemma ScanStep(s: Store, cap: nat, i: nat, now: int, f: Filter)
    requires Inv(s, cap) && i < |s.index|
    ensures Scanned(s, i, now, f) == Scanned(s, i + 1, now, f) + Hit(s.index[i], s.files, now, f)
  {
    var e := s.index[i];
    var rest := Shown(s.index[i + 1..], s.files, now);
    assert s.index[i..][1..] == s.index[i + 1..];
    assert Shown(s.index[i..], s.files, now) == ShowOne(e, s.files, now) + rest;
    assert FileOk(e, s.files);
    if ShowOne(e, s.files, now) != [] {
      var x := ShowOne(e, s.files, now)[0];
      assert ([x] + rest)[1..] == rest;
      MayMatchByDigest(e, x.event, f);
    } else {
      assert Hit(e, s.files, now, f) == [];
      assert ShowOne(e, s.files, now) + rest == rest;
    }
  }

  /** A scan that has worked its way down to position i. */
  ghost predicate ScanState(s: Store, b: Store, i: nat, results: seq<Event>, most: nat, now: int, f: Filter)
    requires i <= |s.index|
  {
    && b == Swept(s, i, now) && results == Scanned(s, i, now, f) && |results| <= most
    && (i < |s.index| ==> |Scanned(s, i + 1, now, f)| < most)
  }

  lemma ScanAdvance(s: Store, b: Store, cap: nat, i: nat, results: seq<Event>, most: nat, now: int, f: Filter)
    requires Inv(s, cap) && i < |s.index| && ScanState(s, b, i + 1, results, most, now, f) && |results| < most
    ensures |b.index| == |s.index| && b.index[i] == s.index[i]
    ensures var e := b.index[i];
            ScanState(s, if IsStale(e, now) then BuryAll(b, {i}) else b, i,
                      results + Hit(e, b.files, now, f), most, now, f)
  {
    SweepStep(s, cap, i, now);
    ScanStep(s, cap, i, now, f);
  }

  /** What a query from state `s` to state `s'` promises. */
  ghost predicate QueryAnswer(s: Store, s': Store, f: Filter, most: int, now: int, results: seq<Event>, stop: nat)
    requires most >= 0
  {
    // the answer of the naive scan over everything visible
    && results == Take(Newest(Shown(s.index, s.files, now), f), most)
    // the scan went exactly as far as it had to
    && stop <= |s.index| && results == Scanned(s, stop, now, f)
    && (stop > 0 ==> |results| == most)
    && (stop < |s.index| ==> |Scanned(s, stop + 1, now, f)| < most)
    // and tombstoned the expired entries it passed, nothing else
    && s' == Swept(s, stop, now)
  }

  lemma {:induction false} ScanIsPrefix(s: Store, i: nat, now: int, f: Filter)
    requires i <= |s.index|
    ensures Scanned(s, i, now, f) <= Newest(Shown(s.index, s.files, now), f)
    ensures i == 0 ==> Scanned(s, i, now, f) == Newest(Shown(s.index, s.files, now), f)
  {
    var older, newer := s.index[..i], s.index[i..];
    assert older + newer == s.index;
    ShownAppend(older, newer, s.files, now);
    NewestAppend(Shown(older, s.files, now), Shown(newer, s.files, now), f);
  }

  /** A scan that ran out of entries or reached its limit has answered the query. */
  lemma ScanDone(s: Store, b: Store, i: nat, results: seq<Event>, most: nat, now: int, f: Filter)
    requires i <= |s.index| && ScanState(s, b, i, results, most, now, f)
    requires i == 0 || |results| == most
    ensures QueryAnswer(s, b, f, most, now, results, i)
  {
    ScanIsPrefix(s, i, now, f);
    var all := Newest(Shown(s.index, s.files, now), f);
    assert results <= all;
    assert results == all[..|results|];
  }

  lemma LiveStep(index: seq<Entry>, r: nat)
    requires r < |index|
    ensures Live(index[..r + 1]) == if index[r].deleted then Live(index[..r]) else Live(index[..r]) + [index[r]]
  {
    assert index[..r + 1] == index[..r] + [index[r]];
    LiveAppend(index[..r], [index[r]]);
  }

  /** The chunks of a snapshot, by their keys and contents. */
  lemma SameChunks(chunks: map<nat, seq<Entry>>, snap: Snapshot)
    requires |snap.entries| <= MAX_ENTRIES
    requires forall j :: j in chunks <==> 0 <= j < NumChunks(|snap.entries|)
    requires forall j :: 0 <= j < NumChunks(|snap.entries|) ==> chunks[j] == ChunkAt(snap.entries, j)
    ensures chunks == NvsOf(snap).chunks
  {
  }

  // ---------------------------------------------------------------- the engine

  class Engine {
    const cap: nat
    const ttl: u32
    const index: array<Entry>
    var indexCount: nat
    var nextFileIndex: u32
    var files: Files
    var nvs: Nvs
    ghost var snap: Snapshot

    /** The fields fit together; what the index says is `Inv`'s business. */
    ghost predicate Layout()
      reads this
    {
      && index.Length == cap <= MAX_ENTRIES && indexCount <= cap
      && Durable(nvs, snap)
    }

    ghost function Abs(): Store
      reads this, index
      requires indexCount <= index.Length
    {
      Store(index[..indexCount], nextFileIndex, files, snap)
    }

    ghost predicate Valid()
      reads this, index
    {
      Layout() && Inv(Abs(), MAX_ENTRIES)
    }

    /** Copies one chunk into the index. */
    method ReadChunk(i: nat, chunk: seq<Entry>)
      requires i + |chunk| <= index.Length
      modifies index
      ensures forall x :: 0 <= x < index.Length ==>
        index[x] == if i <= x < i + |chunk| then chunk[x - i] else old(index[x])
    {
      forall x | i <= x < i + |chunk| {
        index[x] := chunk[x - i];
      }
    }

    /** Reads the count, the next file index and the chunks; fails on a missing key or a
        chunk of the wrong size. */
    method LoadIndex() returns (ok: bool)
      requires index.Length == cap && indexCount == 0 && nextFileIndex == 0
      modifies this, index
      ensures nvs == old(nvs) && files == old(files) && snap == old(snap)
      ensures ok <==> LoadOf(nvs, cap).Some?
      ensures ok ==> indexCount <= cap && Snapshot(index[..indexCount], nextFileIndex) == LoadOf(nvs, cap).value
    {
      if nvs == NO_NVS {
        return true;
      }
      if nvs.count.None? {
        return false;
      }
      indexCount := nvs.count.value;
      if indexCount > cap {
        indexCount := cap;
      }
      if nvs.next.None? {
        return false;
      }
      nextFileIndex := nvs.next.value;
      var n := indexCount;
      var i, k := 0, 0;
      while i < n
        invariant i == CHUNK * k && k <= NumChunks(n)
        invariant indexCount == n <= cap && nvs.next == Some(nextFileIndex)
        invariant nvs == old(nvs) && files == old(files) && snap == old(snap)
        invariant forall j: nat :: j < k ==> j in nvs.chunks && |nvs.chunks[j]| == ChunkLen(n, j)
        invariant Loaded(index[..n], nvs.chunks, n, k)
      {
        var entries := n - i;
        if entries > CHUNK {
          entries := CHUNK;
        }
        if k !in nvs.chunks || |nvs.chunks[k]| != entries {
          assert !HasChunks(nvs.chunks, n);
          return false;
        }
        ghost var before := index[..n];
        ReadChunk(i, nvs.chunks[k]);
        LoadedUp(before, index[..n], nvs.chunks, n, k);
        i, k := i + CHUNK, k + 1;
      }
      LoadedAll(index[..n], nvs.chunks, n, k);
      return true;
    }

    /** The boot of `storage_init`, over the files and the snapshot an earlier run left: an
        index that does not read back is dropped, file index and all. */
    constructor (cap: nat, ttl: u32, files: Files, nvs: Nvs, ghost snap: Snapshot)
      requires cap <= MAX_ENTRIES && Durable(nvs, snap) && Sound(snap.entries, snap.next, files)
      ensures fresh(index) && Layout()
      ensures this.cap == cap && this.ttl == ttl && this.nvs == nvs
      ensures |snap.entries| <= cap || cap % CHUNK == 0 ==>
        Valid() && Abs() == Store(Take(snap.entries, cap), snap.next, files, snap)
      ensures |snap.entries| > cap && cap % CHUNK != 0 ==>
        Abs() == Store([], 0, files, snap)
    {
      this.cap, this.ttl, this.files, this.nvs, this.snap := cap, ttl, files, nvs, snap;
      indexCount, nextFileIndex := 0, 0;
      index := new Entry[cap](_ => ZERO_ENTRY);
      new;
      var ok := LoadIndex();
      LoadInvertsSave(snap, cap);
      if !ok {
        indexCount, nextFileIndex := 0, 0;
      } else {
        TakeSound(snap.entries, snap.next, files, cap);
      }
    }

    /** Erases chunk keys from c up to the first one missing: all of them, when they are
        contiguous. */
    method EraseFrom(chunks: map<nat, seq<Entry>>, from: nat, ghost m: nat) returns (r: map<nat, seq<Entry>>)
      requires from <= MAX_CHUNKS && m <= MAX_CHUNKS
      requires forall j :: j in chunks <==> 0 <= j < m || 0 <= j < from
      ensures forall j :: j in r <==> 0 <= j < from
      ensures forall j :: j in r ==> r[j] == chunks[j]
    {
      r := chunks;
      var c := from;
      while c < MAX_CHUNKS
        invariant from <= c <= MAX_CHUNKS
        invariant forall j :: j in r <==> 0 <= j < from || c <= j < m
        invariant forall j :: j in r ==> j in chunks && r[j] == chunks[j]
      {
        if c !in r {
          break;
        }
        r := r - {c};
        c := c + 1;
      }
    }

    /** The first loop of the snapshot: every chunk of the index under its key. */
    method WriteChunks(before: map<nat, seq<Entry>>) returns (chunks: map<nat, seq<Entry>>)
      requires indexCount <= index.Length
      ensures forall j :: j in chunks <==> j in before || 0 <= j < NumChunks(indexCount)
      ensures forall j :: 0 <= j < NumChunks(indexCount) ==> chunks[j] == ChunkAt(index[..indexCount], j)
    {
      chunks := before;
      var i, k := 0, 0;
      while i < indexCount
        invariant i == CHUNK * k && k <= NumChunks(indexCount)
        invariant forall j :: j in chunks <==> j in before || 0 <= j < k
        invariant forall j :: 0 <= j < k ==> chunks[j] == ChunkAt(index[..indexCount], j)
      {
        var entries := indexCount - i;
        if entries > CHUNK {
          entries := CHUNK;
        }
        assert index[i..i + entries] == index[..indexCount][i..i + entries];
        assert entries == ChunkLen(indexCount, k);
        chunks := chunks[k := index[i..i + entries]];
        i, k := i + CHUNK, k + 1;
      }
    }

    /** Writes the snapshot: chunks of the index, then the chunks of a longer one erased up
        to the first key that is missing. */
    method SaveIndex()
      requires Layout()
      modifies this`nvs, this`snap
      ensures Layout() && Abs() == Persist(old(Abs())) && nvs == NvsOf(snap)
    {
      ghost var now := Snapshot(index[..indexCount], nextFileIndex);
      ghost var m := NumChunks(|snap.entries|);
      assert forall k :: k in nvs.chunks <==> 0 <= k < m;
      var numChunks := (indexCount + CHUNK - 1) / CHUNK;
      var chunks := WriteChunks(nvs.chunks);
      chunks := EraseFrom(chunks, numChunks, m);
      SameChunks(chunks, now);
      nvs := Nvs(Some(indexCount), Some(nextFileIndex), chunks);
      snap := now;
    }

    method FindIndexEntry(id: Key) returns (r: Option<nat>)
      requires indexCount <= index.Length
      ensures r == Find(index[..indexCount], id)
    {
      for i := 0 to indexCount
        invariant FindFrom(index[..indexCount], id, i) == Find(index[..indexCount], id)
      {
        if index[i].id == id && !index[i].deleted {
          return Some(i);
        }
      }
      return None;
    }

    method EventExists(id: Key) returns (r: bool)
      requires indexCount <= index.Length
      ensures r <==> exists i :: 0 <= i < indexCount && index[i].id == id && !index[i].deleted
    {
      var found := FindIndexEntry(id);
      r := found.Some?;
    }

    /** `load_event_from_file` */
    method Load(p: Path) returns (r: Option<Event>)
      ensures r == if p in files && files[p].Whole? then Some(files[p].event) else None
    {
      r := if p in files && files[p].Whole? then Some(files[p].event) else None;
    }

    method GetEvent(id: Key) returns (r: Option<Event>)
      requires indexCount <= index.Length
      ensures r == Get(Abs(), id)
    {
      var found := FindIndexEntry(id);
      if found.None? {
        return None;
      }
      r := Load(PathOf(index[found.value]));
    }

    /** The written file, the new entry and the counters of an accepted save. */
    method AppendEntry(ev: Event, now: u32)
      requires Layout() && indexCount < cap
      modifies this`files, this`indexCount, this`nextFileIndex, index
      ensures Layout() && Abs() == Appended(old(Abs()), ttl, ev, now)
    {
      ghost var s := Abs();
      files := files[PathFor(ev.id, nextFileIndex) := Whole(ev)];
      var expiresAt := ToU32(now + ttl);
      if ev.expiration > 0 && ToU32(ev.expiration) < expiresAt {
        expiresAt := ToU32(ev.expiration);
      }
      index[indexCount] := Entry(ev.id, ToU32(ev.createdAt), expiresAt, nextFileIndex, ev.kind, ev.pubkey[..4], false);
      indexCount := indexCount + 1;
      nextFileIndex := ToU32(nextFileIndex + 1);
      assert Abs().index == s.index + [Digest(ev, ExpiryOf(now, ttl, ev.expiration), s.next)];
    }

    /** Files stay apart for as long as the 32-bit file index has not wrapped. */
    method SaveEvent(ev: Event, now: u32, fate: Fate) returns (r: Status)
      requires Valid()
      modifies this, index
      ensures Layout() && (old(nextFileIndex) + 1 < TWO_32 ==> Valid())
      ensures r == SaveStatus(old(Abs()), cap, ev, fate)
      ensures Abs() == Save(old(Abs()), cap, ttl, ev, now, fate)
    {
      ghost var s := Abs();
      if nextFileIndex + 1 < TWO_32 {
        SaveInv(s, MAX_ENTRIES, cap, ttl, ev, now, fate);
      }
      var existing := FindIndexEntry(ev.id);
      if existing.Some? {
        return Duplicate;
      }
      if indexCount >= cap {
        return Full;
      }
      if fate.OutOfMemory? {
        return NoMem;
      }
      if fate.NotSerializable? {
        return Serialize;
      }
      var path := PathFor(ev.id, nextFileIndex);
      if fate.CannotOpen? {
        return Io;
      }
      if fate.ShortWrite? {
        files := files - {path};
        return Io;
      }
      AppendEntry(ev, now);
      if indexCount % 10 == 0 {
        SaveIndex();
      }
      return Ok;
    }

    /** `index_matches_filter` */
    method IndexMatches(e: Entry, f: Filter) returns (r: bool)
      ensures r == MayMatch(e, f)
    {
      if f.since > 0 && e.createdAt < ToU32(f.since) {
        return false;
      }
      if f.until > 0 && e.createdAt > ToU32(f.until) {
        return false;
      }
      if |f.kinds| > 0 {
        var found := false;
        for k := 0 to |f.kinds|
          invariant !found && e.kind !in f.kinds[..k]
        {
          if f.kinds[k] == e.kind {
            found := true;
            break;
          }
        }
        if !found {
          return false;
        }
      }
      if |f.ids| > 0 {
        var found := false;
        for k := 0 to |f.ids|
          invariant !found && forall j :: 0 <= j < k ==> !IdMatches(e, f.ids[j])
        {
          var bytes := HexToBytes(f.ids[k], 32);
          if bytes.Some? && bytes.value == e.id {
            found := true;
            assert IdMatches(e, f.ids[k]);
            break;
          }
        }
        if !found {
          return false;
        }
      }
      if |f.authors| > 0 {
        var found := false;
        for k := 0 to |f.authors|
          invariant !found && forall j :: 0 <= j < k ==> !AuthorMatches(e, f.authors[j])
        {
          if |f.authors[k]| >= 8 {
            var bytes := HexToBytes(f.authors[k], 4);
            if bytes.Some? && bytes.value == e.author4 {
              found := true;
              assert AuthorMatches(e, f.authors[k]);
              break;
            }
          }
        }
        if !found {
          return false;
        }
      }
      return true;
    }

    /** `mark_entry_expired` on position i */
    method MarkEntryExpired(i: nat)
      requires i < indexCount <= index.Length
      modifies this`files, index
      ensures Abs() == BuryAll(old(Abs()), {i})
    {
      ghost var s := Abs();
      files := files - {PathOf(index[i])};
      index[i] := index[i].(deleted := true);
      assert PathsAt(s.index, {i}) == {PathOf(s.index[i])};
      assert Abs().index == Bury(s.index, {i});
    }

    /** The index test, then the file, then the full filter. */
    method LoadMatching(e: Entry, f: Filter) returns (r: Option<Event>)
      ensures r == if MayMatch(e, f) && PathOf(e) in files && files[PathOf(e)].Whole?
                      && Accepts(f, files[PathOf(e)].event)
                   then Some(files[PathOf(e)].event) else None
    {
      var may := IndexMatches(e, f);
      if !may {
        return None;
      }
      r := Load(PathOf(e));
      if r.Some? && !Accepts(f, r.value) {
        r := None;
      }
    }

    /** The body of the scan loop at position i: nothing for a tombstone, a new tombstone
        for an expired entry, otherwise the event if it passes. */
    method ScanEntry(i: nat, f: Filter, now: u32) returns (hit: seq<Event>)
      requires i < indexCount <= index.Length
      modifies this`files, index
      ensures Abs() == if IsStale(old(index[i]), now) then BuryAll(old(Abs()), {i}) else old(Abs())
      ensures hit == Hit(old(index[i]), old(files), now, f)
    {
      hit := [];
      if index[i].deleted {
        return;
      }
      if index[i].expiresAt > 0 && index[i].expiresAt < now {
        MarkEntryExpired(i);
        return;
      }
      var event := LoadMatching(index[i], f);
      if event.Some? {
        hit := [event.value];
      }
    }

    /** The loop of the query. */
    method ScanDown(f: Filter, most: nat, now: u32) returns (results: seq<Event>, ghost stop: nat)
      requires indexCount <= index.Length && Inv(Abs(), MAX_ENTRIES)
      modifies this`files, index
      ensures stop <= |old(Abs()).index| && ScanState(old(Abs()), Abs(), stop, results, most, now, f)
      ensures stop == 0 || |results| == most
    {
      ghost var s := Abs();
      results := [];
      var i := indexCount;
      EmptyScan(s, now, f);
      while i > 0 && |results| < most
        invariant 0 <= i <= indexCount
        invariant ScanState(s, Abs(), i, results, most, now, f)
      {
        i := i - 1;
        ScanAdvance(s, Abs(), MAX_ENTRIES, i, results, most, now, f);
        assert index[i] == Abs().index[i];
        var hit := ScanEntry(i, f, now);
        results := results + hit;
      }
      stop := i;
    }

    /** The backwards scan. `results` are the newest visible events that pass the filter, as
        many as the limit allows; `stop` is where the scan ended, and the only other effect
        is that expired entries from there on are tombstoned, without a snapshot. `Valid()` is
        kept, by `BuryInv`. */
    method QueryEvents(f: Filter, limit: u16, now: u32) returns (results: seq<Event>, ghost stop: nat)
      requires Layout() && Inv(Abs(), MAX_ENTRIES)
      modifies this`files, index
      ensures Layout()
      ensures QueryAnswer(old(Abs()), Abs(), f, Min(limit, MAX_RESULTS), now, results, stop)
    {
      ghost var s := Abs();
      var most := if limit > MAX_RESULTS then MAX_RESULTS else limit;
      results, stop := ScanDown(f, most, now);
      ScanDone(s, Abs(), stop, results, most, now, f);
    }

    /** The loop of the purge. */
    method MarkAllExpired(now: u32) returns (purged: nat)
      requires indexCount <= index.Length
      modifies this`files, index
      ensures Abs() == SweptBelow(old(Abs()), indexCount, now)
      ensures purged == |Stale(old(Abs()).index, 0, indexCount, now)|
    {
      ghost var s := Abs();
      purged := 0;
      EmptyPurge(s, now);
      for i := 0 to indexCount
        invariant Abs() == SweptBelow(s, i, now)
        invariant purged == |Stale(s.index, 0, i, now)|
      {
        PurgeStep(s, i, now);
        assert index[i] == Abs().index[i];
        if index[i].deleted {
          continue;
        }
        if index[i].expiresAt > 0 && index[i].expiresAt < now {
          MarkEntryExpired(i);
          purged := purged + 1;
        }
      }
    }

    method PurgeExpired(now: u32) returns (purged: nat)
      requires Valid()
      modifies this, index
      ensures Valid()
      ensures purged == |Stale(old(Abs()).index, 0, |old(Abs()).index|, now)|
      ensures Abs() == Purge(old(Abs()), now)
    {
      BuryInv(Abs(), MAX_ENTRIES, Stale(Abs().index, 0, |Abs().index|, now));
      purged := MarkAllExpired(now);
      if purged > 0 {
        SaveIndex();
      }
    }

    /** The two-position loop: the live entries end up first, in their old order. */
    method MoveLiveDown() returns (w: nat)
      requires indexCount <= index.Length
      modifies index
      ensures w <= indexCount && index[..w] == Live(old(index[..indexCount]))
    {
      ghost var entries := index[..indexCount];
      w := 0;
      for r := 0 to indexCount
        invariant w <= r
        invariant index[..w] == Live(entries[..r])
        invariant forall j :: r <= j < indexCount ==> index[j] == entries[j]
      {
        LiveStep(entries, r);
        assert index[r] == entries[r];
        if !index[r].deleted {
          ghost var kept := index[..w];
          if w != r {
            index[w] := index[r];
          }
          assert index[..w + 1] == kept + [entries[r]];
          w := w + 1;
        }
      }
      assert entries[..indexCount] == entries;
    }

    /** In-place stable compaction by a read and a write position. */
    method CompactIndex() returns (compacted: nat)
      requires Valid()
      modifies this, index
      ensures Valid()
      ensures compacted == |old(Abs()).index| - |Abs().index|
      ensures Abs() == Compact(old(Abs()))
    {
      ghost var s := Abs();
      CompactInv(s, MAX_ENTRIES);
      LiveLength(s.index);
      var w := MoveLiveDown();
      compacted := indexCount - w;
      if compacted > 0 {
        indexCount := w;
        SaveIndex();
      }
    }

    /** Keeps `Valid()` too, by `DeleteInv`. */
    method DeleteEvent(id: Key) returns (r: Status)
      requires Layout()
      modifies this, index
      ensures Layout()
      ensures r == if Find(old(Abs()).index, id).Some? then Ok else NotFound
      ensures Abs() == Delete(old(Abs()), id)
    {
      var found := FindIndexEntry(id);
      if found.None? {
        return NotFound;
      }
      MarkEntryExpired(found.value);
      SaveIndex();
      return Ok;
    }

    /** The orderly shutdown of `storage_destroy`. */
    method Destroy()
      requires Valid()
      modifies this
      ensures Valid() && nvs == NvsOf(snap)
      ensures Abs() == Persist(old(Abs()))
    {
      SaveIndex();
    }
  }
}
