/** Events, NIP-01 filters and the matching rule the relay calls on a loaded event. */
module Events {
  import opened Bytes

  /** `expiration` is the value of the NIP-40 tag, 0 when there is none. */
  datatype Event = Event(id: Key, pubkey: Key, createdAt: int, kind: u16,
                         tags: seq<seq<string>>, expiration: int, content: string)

  /** A tag condition of a filter: `#e`, `#p` or another single-letter tag. */
  datatype TagFilter = TagFilter(name: char, values: seq<string>)

  datatype Filter = Filter(ids: seq<string>, authors: seq<string>, kinds: seq<int>,
                           tags: seq<TagFilter>, since: int, until: int, limit: int)

  const DELETION_KIND: u16 := 5

  predicate MatchesHexPrefix(b: seq<u8>, prefixes: seq<string>) {
    exists p :: p in prefixes && p <= Hex(b)
  }

  predicate TagMatches(tf: TagFilter, e: Event) {
    exists t :: t in e.tags && |t| >= 2 && t[0] == [tf.name] && t[1] in tf.values
  }

  /** `nostr_filter_matches`: every condition present in the filter holds of the event. */
  predicate Accepts(f: Filter, e: Event) {
    && (f.kinds != [] ==> e.kind in f.kinds)
    && (f.authors != [] ==> MatchesHexPrefix(e.pubkey, f.authors))
    && (f.ids != [] ==> MatchesHexPrefix(e.id, f.ids))
    && (f.since > 0 ==> f.since <= e.createdAt)
    && (f.until > 0 ==> e.createdAt <= f.until)
    && (forall tf :: tf in f.tags ==> TagMatches(tf, e))
  }

  /** A filter rejects an event only for a condition it has: no listed value fits, or a bound is
      passed, or some tag condition has no tag of the event to meet it. */
  lemma RejectsIff(f: Filter, e: Event)
    ensures !Accepts(f, e) <==>
      || (f.kinds != [] && forall k :: k in f.kinds ==> k != e.kind)
      || (f.authors != [] && forall p :: p in f.authors ==> !(p <= Hex(e.pubkey)))
      || (f.ids != [] && forall p :: p in f.ids ==> !(p <= Hex(e.id)))
      || (0 < f.since && e.createdAt < f.since) || 0 < f.until < e.createdAt
      || exists tf :: tf in f.tags && forall t :: t in e.tags && |t| >= 2 && t[0] == [tf.name] ==> t[1] !in tf.values
  {
    if tf :| tf in f.tags && !TagMatches(tf, e) {
      assert forall t :: t in e.tags && |t| >= 2 && t[0] == [tf.name] ==> t[1] !in tf.values;
    }
    if tf :| tf in f.tags && forall t :: t in e.tags && |t| >= 2 && t[0] == [tf.name] ==> t[1] !in tf.values {
      assert !TagMatches(tf, e);
    }
  }

  /** `nostr_filters_match`. The library's answer for an empty list is not visible in this
      repository (its test doubles disagree), so it is the parameter `onEmpty`. */
  predicate AcceptsAny(fs: seq<Filter>, e: Event, onEmpty: bool) {
    if fs == [] then onEmpty else exists f :: f in fs && Accepts(f, e)
  }

  /** `nostr_event_get_d_tag`, with "" for an event without one. */
  function DTag(tags: seq<seq<string>>): string {
    if tags == [] then ""
    else if |tags[0]| >= 2 && tags[0][0] == "d" then tags[0][1]
    else DTag(tags[1..])
  }
}
