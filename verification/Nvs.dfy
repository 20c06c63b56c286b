/** The index snapshot as it lies in non-volatile storage: a count, the next file index,
    and chunks of fifty entries under numbered keys. */
module NvsLayout {
  import opened Bytes
  import opened Index
  import opened StoreSpec

  const CHUNK: nat := 50
  const MAX_CHUNKS: nat := 100
  const MAX_ENTRIES: nat := 5000

  /** Key "idx_<k>" is the number k. */
  datatype Nvs = Nvs(count: Option<u16>, next: Option<u32>, chunks: map<nat, seq<Entry>>)

  const NO_NVS := Nvs(None, None, map[])

  function NumChunks(n: nat): nat {
    (n + CHUNK - 1) / CHUNK
  }

  /** The number of entries in chunk k of n entries. */
  function ChunkLen(n: nat, k: nat): int {
    Min(CHUNK, n - CHUNK * k)
  }

  function ChunkAt(entries: seq<Entry>, k: nat): seq<Entry>
    requires k < NumChunks(|entries|)
  {
    entries[CHUNK * k..CHUNK * k + ChunkLen(|entries|, k)]
  }

  /** What a committed save leaves: exactly ceil(n / 50) chunks, cut in order. */
  function NvsOf(snap: Snapshot): Nvs
    requires |snap.entries| <= MAX_ENTRIES
  {
    Nvs(Some(|snap.entries|), Some(snap.next),
        map k: nat | k < NumChunks(|snap.entries|) :: ChunkAt(snap.entries, k))
  }

  /** Chunks 0, 1, ... needed for n entries are there with the expected sizes. */
  predicate HasChunks(chunks: map<nat, seq<Entry>>, n: nat) {
    forall k: nat :: k < NumChunks(n) ==> k in chunks && |chunks[k]| == ChunkLen(n, k)
  }

  function EntryIn(chunks: map<nat, seq<Entry>>, n: nat, i: nat): Entry
    requires HasChunks(chunks, n) && i < n
  {
    assert i / CHUNK < NumChunks(n);
    chunks[i / CHUNK][i % CHUNK]
  }

  function Join(chunks: map<nat, seq<Entry>>, n: nat): (r: seq<Entry>)
    requires HasChunks(chunks, n)
    ensures |r| == n
  {
    seq(n, i requires 0 <= i < n => EntryIn(chunks, n, i))
  }

  /** What a boot with room for `cap` entries reads, None when it must start afresh. */
  function LoadOf(nvs: Nvs, cap: nat): Option<Snapshot> {
    if nvs == NO_NVS then Some(Snapshot([], 0))
    else if nvs.count.None? || nvs.next.None? then None
    else
      var n := Min(nvs.count.value, cap);
      if HasChunks(nvs.chunks, n) then Some(Snapshot(Join(nvs.chunks, n), nvs.next.value)) else None
  }

  lemma ChunksThere(snap: Snapshot, n: nat)
    requires |snap.entries| <= MAX_ENTRIES
    requires n == |snap.entries| || (n < |snap.entries| && n % CHUNK == 0)
    ensures HasChunks(NvsOf(snap).chunks, n)
  {
    var m, chunks := |snap.entries|, NvsOf(snap).chunks;
    forall k: nat | k < NumChunks(n)
      ensures k in chunks && |chunks[k]| == ChunkLen(n, k)
    {
      assert k < NumChunks(m);
      if n < m { assert CHUNK * k + CHUNK <= n; }
    }
  }

  lemma EntryThere(snap: Snapshot, n: nat, i: nat)
    requires |snap.entries| <= MAX_ENTRIES && i < n <= |snap.entries| && HasChunks(NvsOf(snap).chunks, n)
    ensures EntryIn(NvsOf(snap).chunks, n, i) == snap.entries[i]
  {
    assert i == CHUNK * (i / CHUNK) + i % CHUNK;
  }

  lemma LoadsBack(snap: Snapshot, n: nat)
    requires |snap.entries| <= MAX_ENTRIES
    requires n == |snap.entries| || (n < |snap.entries| && n % CHUNK == 0)
    ensures var chunks := NvsOf(snap).chunks; HasChunks(chunks, n) && Join(chunks, n) == snap.entries[..n]
  {
    ChunksThere(snap, n);
    forall i | 0 <= i < n
      ensures Join(NvsOf(snap).chunks, n)[i] == snap.entries[i]
    {
      EntryThere(snap, n, i);
    }
  }

  /** A capacity within a chunk expects a shorter chunk there. */
  lemma WrongChunk(snap: Snapshot, cap: nat)
    requires cap < |snap.entries| <= MAX_ENTRIES && cap % CHUNK != 0
    ensures !HasChunks(NvsOf(snap).chunks, cap)
  {
    var k := cap / CHUNK;
    assert cap == CHUNK * k + cap % CHUNK;
    assert k < NumChunks(cap) && k < NumChunks(|snap.entries|);
    assert |NvsOf(snap).chunks[k]| != ChunkLen(cap, k);
  }

  /** Snapshot round trip. A boot reads back every entry when they fit, and the first `cap`
      when they do not but `cap` cuts between chunks, as the capacities 5000 and 1000 do;
      otherwise the last chunk has the wrong size and the whole index is dropped. */
  lemma LoadInvertsSave(snap: Snapshot, cap: nat)
    requires |snap.entries| <= 5000
    ensures LoadOf(NvsOf(snap), cap) ==
      if |snap.entries| <= cap || cap % 50 == 0
      then Some(Snapshot(Take(snap.entries, cap), snap.next)) else None
  {
    if |snap.entries| <= cap || cap % CHUNK == 0 {
      var n := Min(|snap.entries|, cap);
      LoadsBack(snap, n);
      assert Take(snap.entries, cap) == snap.entries[..n];
    } else {
      WrongChunk(snap, cap);
    }
  }
}
