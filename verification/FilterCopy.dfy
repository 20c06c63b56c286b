/** `filter_copy` and `copy_filters_to_slot` over an explicit heap: which blocks a copy
    allocates, that it shares none with its source, and that a failed one leaks none.
    Elsewhere filters are values; this module is why they may be. */
module FilterCopy {
  import opened Bytes
  import opened Events
  import S = SubTable

  /** An address; 0 is NULL. */
  type Ptr = nat

  /** What `malloc` gave out and how it was filled. The length of a list stands for the
      count kept beside its pointer. */
  datatype Block =
    | Chars(text: string)
    | Strings(ptrs: seq<Ptr>)
    | Ints(ints: seq<int>)
    | Tags(tags: seq<TagRec>)

  /** `nostr_generic_tag_filter_t` */
  datatype TagRec = TagRec(name: char, values: Ptr)

  type Blocks = map<Ptr, Block>

  // ---------------------------------------------------------------- what pointers mean

  function TextAt(h: Blocks, p: Ptr): string {
    if p in h && h[p].Chars? then h[p].text else ""
  }

  function TextsOf(h: Blocks, ptrs: seq<Ptr>): (r: seq<string>)
    ensures |r| == |ptrs|
  {
    seq(|ptrs|, i requires 0 <= i < |ptrs| => TextAt(h, ptrs[i]))
  }

  function PtrsAt(h: Blocks, p: Ptr): seq<Ptr> {
    if p in h && h[p].Strings? then h[p].ptrs else []
  }

  /** The strings a `char **` leads to. */
  function ListAt(h: Blocks, p: Ptr): seq<string> {
    TextsOf(h, PtrsAt(h, p))
  }

  function ElementsOf(ptrs: seq<Ptr>): set<Ptr> {
    set q | q in ptrs
  }

  /** The blocks it owns: its own and those of its strings. */
  function ListBlocks(h: Blocks, p: Ptr): set<Ptr> {
    if p == 0 then {} else {p} + ElementsOf(PtrsAt(h, p))
  }

  /** NULL, or a nonempty list of strings that are there. */
  predicate SoundList(h: Blocks, p: Ptr) {
    p == 0 || (p in h && h[p].Strings? && h[p].ptrs != [] && forall q :: q in h[p].ptrs ==> q in h && h[q].Chars?)
  }

  // ---------------------------------------------------------------- growing and shrinking

  /** Exactly the blocks `s` were added, and no other changed. */
  ghost predicate Grown(h: Blocks, h': Blocks, s: set<Ptr>) {
    && h'.Keys == h.Keys + s && h.Keys !! s
    && forall p :: p in h ==> h'[p] == h[p]
  }

  lemma GrownThen(h: Blocks, h1: Blocks, h2: Blocks, s: set<Ptr>, t: set<Ptr>)
    requires Grown(h, h1, s) && Grown(h1, h2, t)
    ensures Grown(h, h2, s + t) && s !! t
  {
  }

  /** Freeing what was added restores the heap. */
  lemma GrownFreed(h: Blocks, h': Blocks, s: set<Ptr>)
    requires Grown(h, h', s)
    ensures h' - s == h
  {
  }

  /** The allocations a copy of the list makes. */
  function ListCost(h: Blocks, p: Ptr): nat {
    if p == 0 then 0 else |PtrsAt(h, p)| + 1
  }

  /** A sound list means the same, and owns the same, in a grown heap. */
  lemma ListGrown(h: Blocks, h': Blocks, s: set<Ptr>, p: Ptr)
    requires Grown(h, h', s) && SoundList(h, p) && 0 !in h'
    ensures SoundList(h', p) && ListAt(h', p) == ListAt(h, p) && ListBlocks(h', p) == ListBlocks(h, p)
    ensures ListBlocks(h, p) <= h.Keys && ListCost(h', p) == ListCost(h, p)
  {
    assert PtrsAt(h', p) == PtrsAt(h, p);
  }

  /** Nor does freeing other blocks change it. */
  lemma ListKept(h: Blocks, s: set<Ptr>, p: Ptr)
    requires SoundList(h, p) && ListBlocks(h, p) !! s && 0 !in h
    ensures SoundList(h - s, p) && ListAt(h - s, p) == ListAt(h, p) && ListBlocks(h - s, p) == ListBlocks(h, p)
  {
    if p != 0 {
      assert PtrsAt(h - s, p) == PtrsAt(h, p);
      assert forall q :: q in PtrsAt(h, p) ==> q in ElementsOf(PtrsAt(h, p));
    }
  }

  /** The first i strings have been duplicated. */
  ghost predicate Copying(h: Blocks, h': Blocks, dst: Ptr, from: seq<Ptr>, ptrs: seq<Ptr>, i: nat)
    requires i <= |from|
  {
    && Grown(h, h', {dst} + ElementsOf(ptrs)) && |ptrs| == i
    && (forall j :: 0 <= j < i ==> ptrs[j] in h' && h'[ptrs[j]] == Chars(TextAt(h, from[j])))
  }

  lemma CopiedString(h: Blocks, h1: Blocks, q: Ptr, dst: Ptr, from: seq<Ptr>, ptrs: seq<Ptr>, i: nat)
    requires i < |from| && Copying(h, h1, dst, from, ptrs, i) && q !in h1 && dst in h1 && dst !in ptrs && dst !in h
    ensures Copying(h, h1[q := Chars(TextAt(h, from[i]))][dst := Strings(ptrs + [q])], dst, from, ptrs + [q], i + 1)
  {
    assert {dst} + ElementsOf(ptrs + [q]) == {dst} + ElementsOf(ptrs) + {q};
  }

  // ---------------------------------------------------------------- tag conditions and kinds

  function TagsAt(h: Blocks, p: Ptr): seq<TagRec> {
    if p in h && h[p].Tags? then h[p].tags else []
  }

  function SpeltTags(h: Blocks, tags: seq<TagRec>): (r: seq<TagFilter>)
    ensures |r| == |tags|
  {
    seq(|tags|, i requires 0 <= i < |tags| => TagFilter(tags[i].name, ListAt(h, tags[i].values)))
  }

  function GenericAt(h: Blocks, p: Ptr): seq<TagFilter> {
    SpeltTags(h, TagsAt(h, p))
  }

  function ValuesBlocks(h: Blocks, tags: seq<TagRec>): set<Ptr> {
    if tags == [] then {} else ValuesBlocks(h, tags[..|tags| - 1]) + ListBlocks(h, tags[|tags| - 1].values)
  }

  function GenericBlocks(h: Blocks, p: Ptr): set<Ptr> {
    if p == 0 then {} else {p} + ValuesBlocks(h, TagsAt(h, p))
  }

  predicate SoundTags(h: Blocks, tags: seq<TagRec>) {
    forall t :: t in tags ==> SoundList(h, t.values)
  }

  predicate SoundGeneric(h: Blocks, p: Ptr) {
    p == 0 || (p in h && h[p].Tags? && h[p].tags != [] && SoundTags(h, h[p].tags))
  }

  function ValuesCost(h: Blocks, tags: seq<TagRec>): nat {
    if tags == [] then 0 else ValuesCost(h, tags[..|tags| - 1]) + ListCost(h, tags[|tags| - 1].values)
  }

  /** One allocation for the array of conditions, and what their values take. */
  function GenericCost(h: Blocks, p: Ptr): nat {
    if p == 0 then 0 else 1 + ValuesCost(h, TagsAt(h, p))
  }

  function KindsAt(h: Blocks, p: Ptr): seq<int> {
    if p in h && h[p].Ints? then h[p].ints else []
  }

  predicate SoundKinds(h: Blocks, p: Ptr) {
    p == 0 || (p in h && h[p].Ints? && h[p].ints != [])
  }

  function KindsBlocks(p: Ptr): set<Ptr> {
    if p == 0 then {} else {p}
  }

  function KindsCost(p: Ptr): nat {
    if p == 0 then 0 else 1
  }

  lemma {:induction false} TagsGrown(h: Blocks, h': Blocks, s: set<Ptr>, tags: seq<TagRec>)
    requires Grown(h, h', s) && SoundTags(h, tags) && 0 !in h'
    ensures SoundTags(h', tags) && SpeltTags(h', tags) == SpeltTags(h, tags)
    ensures ValuesBlocks(h', tags) == ValuesBlocks(h, tags) && ValuesBlocks(h, tags) <= h.Keys
    ensures ValuesCost(h', tags) == ValuesCost(h, tags)
  {
    forall t | t in tags
      ensures SoundList(h', t.values) && ListAt(h', t.values) == ListAt(h, t.values)
    {
      ListGrown(h, h', s, t.values);
    }
    if tags != [] {
      ListGrown(h, h', s, tags[|tags| - 1].values);
      TagsGrown(h, h', s, tags[..|tags| - 1]);
    }
  }

  lemma {:induction false} ValuesHave(h: Blocks, tags: seq<TagRec>, t: TagRec)
    requires t in tags
    ensures ListBlocks(h, t.values) <= ValuesBlocks(h, tags)
  {
    if t in tags[..|tags| - 1] {
      ValuesHave(h, tags[..|tags| - 1], t);
    }
  }

  lemma {:induction false} ValuesSame(h: Blocks, h': Blocks, tags: seq<TagRec>)
    requires forall t :: t in tags ==> ListBlocks(h', t.values) == ListBlocks(h, t.values)
    ensures ValuesBlocks(h', tags) == ValuesBlocks(h, tags)
  {
    if tags != [] {
      ValuesSame(h, h', tags[..|tags| - 1]);
      assert tags[|tags| - 1] in tags;
    }
  }

  lemma {:induction false} TagsKept(h: Blocks, s: set<Ptr>, tags: seq<TagRec>)
    requires SoundTags(h, tags) && ValuesBlocks(h, tags) !! s && 0 !in h
    ensures SoundTags(h - s, tags) && SpeltTags(h - s, tags) == SpeltTags(h, tags)
    ensures ValuesBlocks(h - s, tags) == ValuesBlocks(h, tags)
  {
    forall t | t in tags
      ensures SoundList(h - s, t.values) && ListAt(h - s, t.values) == ListAt(h, t.values)
      ensures ListBlocks(h - s, t.values) == ListBlocks(h, t.values)
    {
      ValuesHave(h, tags, t);
      ListKept(h, s, t.values);
    }
    ValuesSame(h, h - s, tags);
  }

  lemma SpeltMore(h: Blocks, tags: seq<TagRec>, t: TagRec)
    ensures SpeltTags(h, tags + [t]) == SpeltTags(h, tags) + [TagFilter(t.name, ListAt(h, t.values))]
  {
  }

  /** The lists owned by the first tags are owned whole: a list found among them has its
      strings among them too. */
  lemma {:induction false} OwnedWhole(h: Blocks, tags: seq<TagRec>, p: Ptr)
    requires SoundTags(h, tags) && p in ValuesBlocks(h, tags) && p in h && h[p].Strings?
    ensures ElementsOf(PtrsAt(h, p)) <= ValuesBlocks(h, tags)
  {
    var front, last := tags[..|tags| - 1], tags[|tags| - 1];
    if p in ValuesBlocks(h, front) {
      OwnedWhole(h, front, p);
    } else {
      assert SoundList(h, last.values);
    }
  }

  /** Freeing one list more. */
  lemma {:induction false} FreedMore(h: Blocks, tags: seq<TagRec>, p: Ptr)
    requires SoundTags(h, tags) && SoundList(h, p)
    ensures var s := ValuesBlocks(h, tags);
            h - s - ListBlocks(h - s, p) == h - (s + ListBlocks(h, p))
  {
    var s := ValuesBlocks(h, tags);
    if p != 0 {
      if p in s {
        OwnedWhole(h, tags, p);
      } else {
        assert PtrsAt(h - s, p) == PtrsAt(h, p);
      }
    }
  }

  lemma {:induction false} ValuesStep(h: Blocks, tags: seq<TagRec>, i: nat)
    requires i < |tags|
    ensures ValuesBlocks(h, tags[..i + 1]) == ValuesBlocks(h, tags[..i]) + ListBlocks(h, tags[i].values)
    ensures ValuesCost(h, tags[..i + 1]) == ValuesCost(h, tags[..i]) + ListCost(h, tags[i].values)
  {
    assert tags[..i + 1][..i] == tags[..i];
  }

  lemma {:induction false} ValuesCostGrows(h: Blocks, tags: seq<TagRec>, n: nat)
    requires n <= |tags|
    ensures ValuesCost(h, tags[..n]) <= ValuesCost(h, tags)
    decreases |tags|
  {
    if n < |tags| {
      ValuesCostGrows(h, tags[..|tags| - 1], n);
      assert tags[..|tags| - 1][..n] == tags[..n];
    } else {
      assert tags[..n] == tags;
    }
  }

  /** The first i conditions have been copied. */
  ghost predicate CopyingTags(h: Blocks, h': Blocks, dst: Ptr, from: seq<TagRec>, tags: seq<TagRec>, i: nat)
    requires i <= |from|
  {
    && Grown(h, h', {dst} + ValuesBlocks(h', tags)) && SoundTags(h', tags) && |tags| == i
    && SpeltTags(h', tags) == SpeltTags(h, from[..i])
  }

  lemma CopiedSpelling(h: Blocks, h2: Blocks, from: seq<TagRec>, tags: seq<TagRec>, i: nat, values: Ptr)
    requires i < |from| && SpeltTags(h2, tags) == SpeltTags(h, from[..i])
    requires ListAt(h2, values) == ListAt(h, from[i].values)
    ensures SpeltTags(h2, tags + [TagRec(from[i].name, values)]) == SpeltTags(h, from[..i + 1])
  {
    SpeltMore(h2, tags, TagRec(from[i].name, values));
    SpeltMore(h, from[..i], from[i]);
    assert from[..i + 1] == from[..i] + [from[i]];
  }

  lemma CopiedTag(h: Blocks, h1: Blocks, h2: Blocks, dst: Ptr, from: seq<TagRec>, tags: seq<TagRec>, i: nat,
                  values: Ptr)
    requires i < |from| && SoundTags(h, from) && 0 !in h2 && dst !in h
    requires CopyingTags(h, h1, dst, from, tags, i) && Grown(h1, h2, ListBlocks(h2, values)) && SoundList(h2, values)
    requires ListAt(h2, values) == ListAt(h, from[i].values)
    ensures CopyingTags(h, h2, dst, from, tags + [TagRec(from[i].name, values)], i + 1)
  {
    var more := tags + [TagRec(from[i].name, values)];
    TagsGrown(h1, h2, ListBlocks(h2, values), tags);
    GrownThen(h, h1, h2, {dst} + ValuesBlocks(h1, tags), ListBlocks(h2, values));
    assert more[..i] == tags && more[..i + 1] == more;
    ValuesStep(h2, more, i);
    assert {dst} + ValuesBlocks(h1, tags) + ListBlocks(h2, values) == {dst} + ValuesBlocks(h2, more);
    CopiedSpelling(h, h2, from, tags, i, values);
  }

  /** Filling in the array of conditions changes nothing the conditions own. */
  lemma WrittenTags(h: Blocks, h': Blocks, dst: Ptr, from: seq<TagRec>, tags: seq<TagRec>, i: nat, b: Block)
    requires i <= |from| && CopyingTags(h, h', dst, from, tags, i) && b.Tags? && dst in h' && h'[dst].Tags? && dst !in h
    ensures CopyingTags(h, h'[dst := b], dst, from, tags, i)
  {
    var h2 := h'[dst := b];
    forall t | t in tags
      ensures SoundList(h2, t.values) && ListAt(h2, t.values) == ListAt(h', t.values)
      ensures ListBlocks(h2, t.values) == ListBlocks(h', t.values)
    {
      assert SoundList(h', t.values);
      if t.values != 0 {
        assert PtrsAt(h2, t.values) == PtrsAt(h', t.values);
      }
    }
    ValuesSame(h', h2, tags);
  }

  // ---------------------------------------------------------------- filters

  /** `nostr_filter_t` as the C code holds it: pointers it owns, NULL for an empty list. */
  datatype FilterRec = FilterRec(ids: Ptr, authors: Ptr, kinds: Ptr, eTags: Ptr, pTags: Ptr, generic: Ptr,
                                 since: int, until: int, limit: int)

  const NO_FILTER := FilterRec(0, 0, 0, 0, 0, 0, 0, 0, 0)

  /** What the lists say. */
  datatype Words = Words(ids: seq<string>, authors: seq<string>, kinds: seq<int>,
                         eTags: seq<string>, pTags: seq<string>, generic: seq<TagFilter>)

  const NO_WORDS := Words([], [], [], [], [], [])

  function WordsAt(h: Blocks, f: FilterRec): Words {
    Words(ListAt(h, f.ids), ListAt(h, f.authors), KindsAt(h, f.kinds), ListAt(h, f.eTags), ListAt(h, f.pTags),
          GenericAt(h, f.generic))
  }

  function TagPart(name: char, values: seq<string>): seq<TagFilter> {
    if values == [] then [] else [TagFilter(name, values)]
  }

  /** The filter a record spells. */
  function FilterAt(h: Blocks, f: FilterRec): Filter {
    var w := WordsAt(h, f);
    Filter(w.ids, w.authors, w.kinds, TagPart('e', w.eTags) + TagPart('p', w.pTags) + w.generic, f.since, f.until,
           f.limit)
  }

  function PlainBlocks(h: Blocks, f: FilterRec): set<Ptr> {
    ListBlocks(h, f.ids) + ListBlocks(h, f.authors) + KindsBlocks(f.kinds)
  }

  function TaggedBlocks(h: Blocks, f: FilterRec): set<Ptr> {
    ListBlocks(h, f.eTags) + ListBlocks(h, f.pTags) + GenericBlocks(h, f.generic)
  }

  /** The blocks it owns. */
  function FilterBlocks(h: Blocks, f: FilterRec): set<Ptr> {
    PlainBlocks(h, f) + TaggedBlocks(h, f)
  }

  predicate SoundTagged(h: Blocks, f: FilterRec) {
    && SoundList(h, f.eTags) && SoundList(h, f.pTags) && SoundGeneric(h, f.generic)
    && ListBlocks(h, f.eTags) !! ListBlocks(h, f.pTags)
    && ListBlocks(h, f.eTags) + ListBlocks(h, f.pTags) !! GenericBlocks(h, f.generic)
  }

  predicate Apart(h: Blocks, f: FilterRec) {
    && ListBlocks(h, f.ids) !! ListBlocks(h, f.authors)
    && ListBlocks(h, f.ids) + ListBlocks(h, f.authors) !! KindsBlocks(f.kinds)
    && ListBlocks(h, f.eTags) !! ListBlocks(h, f.pTags)
    && ListBlocks(h, f.eTags) + ListBlocks(h, f.pTags) !! GenericBlocks(h, f.generic)
    && PlainBlocks(h, f) !! TaggedBlocks(h, f)
  }

  /** Every list is sound, and no two own a block together. */
  predicate SoundFilter(h: Blocks, f: FilterRec) {
    && SoundList(h, f.ids) && SoundList(h, f.authors) && SoundKinds(h, f.kinds) && SoundTagged(h, f) && Apart(h, f)
  }

  function PlainCost(h: Blocks, f: FilterRec): nat {
    ListCost(h, f.ids) + ListCost(h, f.authors) + KindsCost(f.kinds)
  }

  function TaggedCost(h: Blocks, f: FilterRec): nat {
    ListCost(h, f.eTags) + ListCost(h, f.pTags) + GenericCost(h, f.generic)
  }

  /** The allocations a copy makes. */
  function FilterCost(h: Blocks, f: FilterRec): nat {
    PlainCost(h, f) + TaggedCost(h, f)
  }

  lemma GenericGrown(h: Blocks, h': Blocks, s: set<Ptr>, p: Ptr)
    requires Grown(h, h', s) && SoundGeneric(h, p) && 0 !in h'
    ensures SoundGeneric(h', p) && GenericAt(h', p) == GenericAt(h, p) && GenericBlocks(h', p) == GenericBlocks(h, p)
    ensures GenericBlocks(h, p) <= h.Keys && GenericCost(h', p) == GenericCost(h, p)
  {
    assert TagsAt(h', p) == TagsAt(h, p);
    if p != 0 {
      TagsGrown(h, h', s, TagsAt(h, p));
    }
  }

  lemma GenericKept(h: Blocks, s: set<Ptr>, p: Ptr)
    requires SoundGeneric(h, p) && GenericBlocks(h, p) !! s && 0 !in h
    ensures SoundGeneric(h - s, p) && GenericAt(h - s, p) == GenericAt(h, p)
    ensures GenericBlocks(h - s, p) == GenericBlocks(h, p)
  {
    if p != 0 {
      assert TagsAt(h - s, p) == TagsAt(h, p);
      TagsKept(h, s, TagsAt(h, p));
    }
  }

  /** A sound filter means the same, and owns the same, in a grown heap. */
  lemma FilterGrown(h: Blocks, h': Blocks, s: set<Ptr>, f: FilterRec)
    requires Grown(h, h', s) && SoundFilter(h, f) && 0 !in h'
    ensures SoundFilter(h', f) && WordsAt(h', f) == WordsAt(h, f) && FilterBlocks(h', f) == FilterBlocks(h, f)
    ensures FilterBlocks(h, f) <= h.Keys && FilterCost(h', f) == FilterCost(h, f)
  {
    ListGrown(h, h', s, f.ids);
    ListGrown(h, h', s, f.authors);
    ListGrown(h, h', s, f.eTags);
    ListGrown(h, h', s, f.pTags);
    GenericGrown(h, h', s, f.generic);
  }

  /** Freeing blocks it does not own changes nothing in it. */
  lemma FilterKept(h: Blocks, s: set<Ptr>, f: FilterRec)
    requires SoundFilter(h, f) && FilterBlocks(h, f) !! s && 0 !in h
    ensures SoundFilter(h - s, f) && WordsAt(h - s, f) == WordsAt(h, f) && FilterBlocks(h - s, f) == FilterBlocks(h, f)
  {
    ListKept(h, s, f.ids);
    ListKept(h, s, f.authors);
    ListKept(h, s, f.eTags);
    ListKept(h, s, f.pTags);
    GenericKept(h, s, f.generic);
  }

  lemma TaggedKept(h: Blocks, s: set<Ptr>, f: FilterRec)
    requires SoundTagged(h, f) && TaggedBlocks(h, f) !! s && 0 !in h
    ensures SoundTagged(h - s, f) && TaggedBlocks(h - s, f) == TaggedBlocks(h, f)
  {
    ListKept(h, s, f.eTags);
    ListKept(h, s, f.pTags);
    GenericKept(h, s, f.generic);
  }

  lemma FreedParts(h: Blocks, s: set<Ptr>, t: set<Ptr>)
    ensures h - s - t == h - (s + t)
  {
  }

  /** A copy under way: the heap has grown by what the record owns, and it says `w`. */
  ghost predicate Built(h: Blocks, h': Blocks, f: FilterRec, w: Words) {
    Grown(h, h', FilterBlocks(h', f)) && SoundFilter(h', f) && WordsAt(h', f) == w
  }

  function PlainWords(h: Blocks, f: FilterRec): Words {
    NO_WORDS.(ids := ListAt(h, f.ids), authors := ListAt(h, f.authors), kinds := KindsAt(h, f.kinds))
  }

  function TaggedWords(w: Words, h: Blocks, f: FilterRec): Words {
    w.(eTags := ListAt(h, f.eTags), pTags := ListAt(h, f.pTags), generic := GenericAt(h, f.generic))
  }

  datatype Field = Ids | Authors | ETags | PTags

  function Slot(f: FilterRec, k: Field): Ptr {
    match k case Ids => f.ids case Authors => f.authors case ETags => f.eTags case PTags => f.pTags
  }

  function With(f: FilterRec, k: Field, p: Ptr): FilterRec {
    match k
    case Ids => f.(ids := p)
    case Authors => f.(authors := p)
    case ETags => f.(eTags := p)
    case PTags => f.(pTags := p)
  }

  function WithWords(w: Words, k: Field, list: seq<string>): Words {
    match k
    case Ids => w.(ids := list)
    case Authors => w.(authors := list)
    case ETags => w.(eTags := list)
    case PTags => w.(pTags := list)
  }

  lemma WithOne(f: FilterRec, g: FilterRec, k1: Field, k2: Field)
    requires g == With(f, k1, Slot(g, k1)) && k1 != k2
    ensures Slot(g, k2) == Slot(f, k2) && g == With(g, k2, Slot(g, k2))
  {
  }

  lemma WithTwo(f: FilterRec, g: FilterRec, last: FilterRec, k1: Field, k2: Field)
    requires g == With(f, k1, Slot(g, k1)) && last == With(g, k2, Slot(last, k2)) && k1 != k2
    ensures last == With(With(f, k1, Slot(last, k1)), k2, Slot(last, k2))
  {
  }

  /** A list of new blocks in the place of an empty one. */
  lemma AddedApart(h: Blocks, f: FilterRec, k: Field, p: Ptr)
    requires Apart(h, f) && Slot(f, k) == 0 && ListBlocks(h, p) !! FilterBlocks(h, f)
    ensures Apart(h, With(f, k, p)) && FilterBlocks(h, With(f, k, p)) == FilterBlocks(h, f) + ListBlocks(h, p)
  {
  }

  lemma AddedList(h: Blocks, h1: Blocks, h2: Blocks, f: FilterRec, w: Words, k: Field, p: Ptr)
    requires Built(h, h1, f, w) && Slot(f, k) == 0 && 0 !in h2
    requires Grown(h1, h2, ListBlocks(h2, p)) && SoundList(h2, p)
    ensures Built(h, h2, With(f, k, p), WithWords(w, k, ListAt(h2, p)))
  {
    FilterGrown(h1, h2, ListBlocks(h2, p), f);
    GrownThen(h, h1, h2, FilterBlocks(h1, f), ListBlocks(h2, p));
    AddedApart(h2, f, k, p);
  }

  lemma AddedKinds(h: Blocks, h1: Blocks, h2: Blocks, f: FilterRec, w: Words, p: Ptr)
    requires Built(h, h1, f, w) && f.kinds == 0 && 0 !in h2
    requires Grown(h1, h2, KindsBlocks(p)) && SoundKinds(h2, p)
    ensures Built(h, h2, f.(kinds := p), w.(kinds := KindsAt(h2, p)))
  {
    FilterGrown(h1, h2, KindsBlocks(p), f);
    GrownThen(h, h1, h2, FilterBlocks(h1, f), KindsBlocks(p));
    assert FilterBlocks(h2, f.(kinds := p)) == FilterBlocks(h1, f) + KindsBlocks(p);
  }

  lemma AddedGeneric(h: Blocks, h1: Blocks, h2: Blocks, f: FilterRec, w: Words, p: Ptr)
    requires Built(h, h1, f, w) && f.generic == 0 && 0 !in h2
    requires Grown(h1, h2, GenericBlocks(h2, p)) && SoundGeneric(h2, p)
    ensures Built(h, h2, f.(generic := p), w.(generic := GenericAt(h2, p)))
  {
    FilterGrown(h1, h2, GenericBlocks(h2, p), f);
    GrownThen(h, h1, h2, FilterBlocks(h1, f), GenericBlocks(h2, p));
    assert FilterBlocks(h2, f.(generic := p)) == FilterBlocks(h1, f) + GenericBlocks(h2, p);
  }

  // ---------------------------------------------------------------- the filters of a message

  function FiltersAt(h: Blocks, fs: seq<FilterRec>): (r: seq<Filter>)
    ensures |r| == |fs|
  {
    seq(|fs|, i requires 0 <= i < |fs| => FilterAt(h, fs[i]))
  }

  function AllBlocks(h: Blocks, fs: seq<FilterRec>): set<Ptr> {
    if fs == [] then {} else AllBlocks(h, fs[..|fs| - 1]) + FilterBlocks(h, fs[|fs| - 1])
  }

  /** Every filter is sound, and no two own a block together. */
  predicate SoundAll(h: Blocks, fs: seq<FilterRec>) {
    fs == [] ||
    (&& SoundAll(h, fs[..|fs| - 1]) && SoundFilter(h, fs[|fs| - 1])
     && AllBlocks(h, fs[..|fs| - 1]) !! FilterBlocks(h, fs[|fs| - 1]))
  }

  lemma SpeltFilters(h: Blocks, fs: seq<FilterRec>)
    requires fs != []
    ensures FiltersAt(h, fs) == FiltersAt(h, fs[..|fs| - 1]) + [FilterAt(h, fs[|fs| - 1])]
  {
  }

  lemma SameSpelling(h: Blocks, h': Blocks, fs: seq<FilterRec>)
    requires fs != [] && FiltersAt(h', fs[..|fs| - 1]) == FiltersAt(h, fs[..|fs| - 1])
    requires WordsAt(h', fs[|fs| - 1]) == WordsAt(h, fs[|fs| - 1])
    ensures FiltersAt(h', fs) == FiltersAt(h, fs)
  {
    SpeltFilters(h, fs);
    SpeltFilters(h', fs);
  }

  lemma {:induction false} AllGrown(h: Blocks, h': Blocks, s: set<Ptr>, fs: seq<FilterRec>)
    requires Grown(h, h', s) && SoundAll(h, fs) && 0 !in h'
    ensures SoundAll(h', fs) && FiltersAt(h', fs) == FiltersAt(h, fs) && AllBlocks(h', fs) == AllBlocks(h, fs)
    ensures AllBlocks(h, fs) <= h.Keys
  {
    if fs != [] {
      var front, last := fs[..|fs| - 1], fs[|fs| - 1];
      AllGrown(h, h', s, front);
      FilterGrown(h, h', s, last);
      SameSpelling(h, h', fs);
    }
  }

  lemma {:induction false} AllKept(h: Blocks, s: set<Ptr>, fs: seq<FilterRec>)
    requires SoundAll(h, fs) && AllBlocks(h, fs) !! s && 0 !in h
    ensures SoundAll(h - s, fs) && FiltersAt(h - s, fs) == FiltersAt(h, fs) && AllBlocks(h - s, fs) == AllBlocks(h, fs)
  {
    if fs != [] {
      var front, last := fs[..|fs| - 1], fs[|fs| - 1];
      AllKept(h, s, front);
      FilterKept(h, s, last);
      SameSpelling(h, h - s, fs);
    }
  }

  lemma {:induction false} SoundPrefix(h: Blocks, fs: seq<FilterRec>, i: nat)
    requires SoundAll(h, fs) && i < |fs|
    ensures SoundAll(h, fs[..i + 1]) && fs[..i + 1][..i] == fs[..i] && SoundFilter(h, fs[i])
    ensures AllBlocks(h, fs[..i + 1]) == AllBlocks(h, fs[..i]) + FilterBlocks(h, fs[i])
    ensures AllBlocks(h, fs[..i]) !! FilterBlocks(h, fs[i])
    decreases |fs|
  {
    if i + 1 < |fs| {
      SoundPrefix(h, fs[..|fs| - 1], i);
      assert fs[..|fs| - 1][..i + 1] == fs[..i + 1] && fs[..|fs| - 1][..i] == fs[..i];
    } else {
      assert fs[..i + 1] == fs;
    }
  }

  function Costs(h: Blocks, fs: seq<FilterRec>): (r: seq<nat>)
    ensures |r| == |fs|
  {
    seq(|fs|, i requires 0 <= i < |fs| => FilterCost(h, fs[i]))
  }

  /** The first copy that runs out of memory, with `left` allocations to go. */
  function FailAt(costs: seq<nat>, left: nat): Option<nat> {
    if costs == [] then None
    else if left < costs[0] then Some(0)
    else match FailAt(costs[1..], left - costs[0])
      case None => None
      case Some(i) => Some(i + 1)
  }

  /** The copies before position i are made, and `left` allocations remain of `all`. */
  ghost predicate Upto(costs: seq<nat>, i: nat, all: nat, left: nat)
    requires i <= |costs|
  {
    match FailAt(costs[i..], left)
    case None => FailAt(costs, all).None?
    case Some(j) => FailAt(costs, all) == Some(i + j)
  }

  lemma {:induction false} UptoStep(costs: seq<nat>, i: nat, all: nat, left: nat)
    requires i < |costs| && Upto(costs, i, all, left)
    ensures left < costs[i] ==> FailAt(costs, all) == Some(i)
    ensures left >= costs[i] ==> Upto(costs, i + 1, all, left - costs[i])
  {
    assert costs[i..][0] == costs[i] && costs[i..][1..] == costs[i + 1..];
  }

  /** A copy that fails among the first four leaves none stored. */
  lemma {:induction false} CopiedNone(filters: seq<Filter>, costs: seq<nat>, all: nat, i: nat)
    requires i < |Take(filters, S.MAX_FILTERS)| && FailAt(costs, all) == Some(i)
    ensures S.Copied(filters, FailAt(costs, all)) == None
  {
  }

  /** Otherwise they are all stored. */
  lemma {:induction false} CopiedAll(filters: seq<Filter>, costs: seq<nat>, all: nat, left: nat)
    requires |costs| == |filters| && Upto(costs, |Take(filters, S.MAX_FILTERS)|, all, left)
    ensures S.Copied(filters, FailAt(costs, all)) == Some(Take(filters, S.MAX_FILTERS))
  {
  }

  /** The first i filters have been stored. */
  ghost predicate Storing(h: Blocks, h': Blocks, fs: seq<FilterRec>, slot: seq<FilterRec>, i: nat)
    requires i <= |fs|
  {
    && Grown(h, h', AllBlocks(h', slot)) && SoundAll(h', slot) && |slot| == i
    && FiltersAt(h', slot) == FiltersAt(h, fs[..i])
  }

  /** The next filter to copy is still what it was. */
  lemma {:induction false} NextSource(h: Blocks, h1: Blocks, fs: seq<FilterRec>, slot: seq<FilterRec>, i: nat)
    requires i < |fs| && SoundAll(h, fs) && Storing(h, h1, fs, slot, i) && 0 !in h1
    ensures SoundFilter(h1, fs[i]) && FilterAt(h1, fs[i]) == FilterAt(h, fs[i])
    ensures FilterCost(h1, fs[i]) == FilterCost(h, fs[i])
  {
    SoundPrefix(h, fs, i);
    FilterGrown(h, h1, AllBlocks(h1, slot), fs[i]);
  }

  lemma StoredMore(h: Blocks, h1: Blocks, h2: Blocks, fs: seq<FilterRec>, slot: seq<FilterRec>, i: nat, f: FilterRec)
    requires i < |fs| && Storing(h, h1, fs, slot, i) && 0 !in h2
    requires Grown(h1, h2, FilterBlocks(h2, f)) && SoundFilter(h2, f) && FilterAt(h2, f) == FilterAt(h, fs[i])
    ensures Storing(h, h2, fs, slot + [f], i + 1)
  {
    var more := slot + [f];
    AllGrown(h1, h2, FilterBlocks(h2, f), slot);
    GrownThen(h, h1, h2, AllBlocks(h1, slot), FilterBlocks(h2, f));
    assert more[..|more| - 1] == slot;
    SpeltFilters(h2, more);
    SpeltFilters(h, fs[..i + 1]);
    assert fs[..i + 1][..i] == fs[..i];
  }

  /** All filters of the slot have been stored. */
  lemma {:induction false} StoredAll(h: Blocks, h': Blocks, fs: seq<FilterRec>, slot: seq<FilterRec>, n: nat,
                                     costs: seq<nat>, all: nat, left: nat)
    requires n == |Take(fs, S.MAX_FILTERS)| && Storing(h, h', fs, slot, n) && costs == Costs(h, fs)
    requires Upto(costs, n, all, left)
    ensures S.Copied(FiltersAt(h, fs), FailAt(costs, all)) == Some(FiltersAt(h', slot))
  {
    CopiedAll(FiltersAt(h, fs), costs, all, left);
    assert FiltersAt(h', slot) == Take(FiltersAt(h, fs), S.MAX_FILTERS);
  }

  // ---------------------------------------------------------------- the allocator

  class Memory {
    var blocks: Blocks
    var next: Ptr

    /** How many allocations will still succeed. */
    var left: nat

    predicate Valid()
      reads this
    {
      next > 0 && forall p :: p in blocks ==> 0 < p < next
    }

    constructor (left: nat)
      ensures Valid() && blocks == map[] && this.left == left
    {
      blocks, next, this.left := map[], 1, left;
    }

    /** `malloc`, and the block's first contents. */
    method Allocate(b: Block) returns (p: Ptr)
      requires Valid()
      modifies this
      ensures Valid() && next >= old(next)
      ensures (p == 0) == (old(left) == 0)
      ensures p == 0 ==> blocks == old(blocks) && left == 0
      ensures p != 0 ==> p >= old(next) && blocks == old(blocks)[p := b] && left == old(left) - 1
    {
      if left == 0 {
        return 0;
      }
      p := next;
      blocks, next, left := blocks[p := b], next + 1, left - 1;
    }

    method Write(p: Ptr, b: Block)
      requires Valid() && p in blocks
      modifies this`blocks
      ensures Valid() && blocks == old(blocks)[p := b]
    {
      blocks := blocks[p := b];
    }

    method Free(p: Ptr)
      requires Valid()
      modifies this`blocks
      ensures Valid() && blocks == old(blocks) - {p}
    {
      blocks := blocks - {p};
    }

    /** Frees a list and its strings. */
    method FreeList(p: Ptr)
      requires Valid()
      modifies this`blocks
      ensures Valid() && blocks == old(blocks) - ListBlocks(old(blocks), p)
    {
      if p == 0 {
        return;
      }
      ghost var h := blocks;
      var ptrs := PtrsAt(blocks, p);
      for i := 0 to |ptrs|
        invariant Valid() && blocks == h - ElementsOf(ptrs[..i])
      {
        assert ElementsOf(ptrs[..i + 1]) == ElementsOf(ptrs[..i]) + {ptrs[i]};
        Free(ptrs[i]);
      }
      assert ptrs[..|ptrs|] == ptrs;
      Free(p);
    }

    /** `copy_string_array`: the array first, then each string; when an allocation fails,
        everything is given back. */
    method CopyStrings(src: Ptr) returns (dst: Ptr, ok: bool)
      requires Valid() && SoundList(blocks, src)
      modifies this
      ensures Valid() && next >= old(next)
      ensures ok == (old(left) >= ListCost(old(blocks), src))
      ensures ok ==> left == old(left) - ListCost(old(blocks), src)
      ensures ok ==> Grown(old(blocks), blocks, ListBlocks(blocks, dst)) && SoundList(blocks, dst)
      ensures ok ==> ListAt(blocks, dst) == ListAt(old(blocks), src)
      ensures !ok ==> dst == 0 && blocks == old(blocks)
    {
      ghost var h := blocks;
      dst, ok := 0, true;
      if src == 0 {
        return;
      }
      var from := blocks[src].ptrs;
      dst := Allocate(Strings([]));
      if dst == 0 {
        return 0, false;
      }
      var ptrs := [];
      for i := 0 to |from|
        invariant Valid() && dst != 0 && next >= old(next) && left + i + 1 == old(left)
        invariant dst in blocks && dst !in h && dst !in ptrs
        invariant blocks[dst] == Strings(ptrs) && Copying(h, blocks, dst, from, ptrs, i)
      {
        ghost var h1 := blocks;
        var q := Allocate(Chars(blocks[from[i]].text));
        if q == 0 {
          GrownFreed(h, blocks, {dst} + ElementsOf(ptrs));
          FreeList(dst);
          return 0, false;
        }
        CopiedString(h, h1, q, dst, from, ptrs, i);
        ptrs := ptrs + [q];
        Write(dst, Strings(ptrs));
      }
    }

    /** Gives back what was copied before an allocation failed. */
    method DropTags(p: Ptr, tags: seq<TagRec>)
      requires Valid() && p in blocks && blocks[p] == Tags(tags) && SoundTags(blocks, tags)
      modifies this`blocks
      ensures Valid() && blocks == old(blocks) - ({p} + ValuesBlocks(old(blocks), tags))
    {
      ghost var h := blocks;
      assert h - ValuesBlocks(h, tags[..0]) == h;
      for i := 0 to |tags|
        invariant Valid() && blocks == h - ValuesBlocks(h, tags[..i])
      {
        FreedMore(h, tags[..i], tags[i].values);
        ValuesStep(h, tags, i);
        FreeList(tags[i].values);
      }
      assert tags[..|tags|] == tags;
      Free(p);
    }

    /** Frees an array of conditions and their values. */
    method FreeGeneric(p: Ptr)
      requires Valid() && SoundGeneric(blocks, p)
      modifies this`blocks
      ensures Valid() && blocks == old(blocks) - GenericBlocks(old(blocks), p)
    {
      if p == 0 {
        return;
      }
      DropTags(p, blocks[p].tags);
    }

    /** One condition more: its values copied and entered in the array, or everything so
        far given back. */
    method AppendTag(dst: Ptr, from: seq<TagRec>, tags: seq<TagRec>, i: nat, ghost h: Blocks)
        returns (more: seq<TagRec>, ok: bool)
      requires Valid() && 0 !in h && i < |from| && SoundTags(h, from)
      requires dst in blocks && dst !in h && blocks[dst] == Tags(tags) && CopyingTags(h, blocks, dst, from, tags, i)
      modifies this
      ensures Valid() && next >= old(next)
      ensures ok == (old(left) >= ListCost(h, from[i].values))
      ensures ok ==> left == old(left) - ListCost(h, from[i].values)
      ensures ok ==> dst in blocks && blocks[dst] == Tags(more) && CopyingTags(h, blocks, dst, from, more, i + 1)
      ensures !ok ==> blocks == h
    {
      ghost var h1 := blocks;
      more := tags;
      ListGrown(h, h1, {dst} + ValuesBlocks(h1, tags), from[i].values);
      var values;
      values, ok := CopyStrings(from[i].values);
      if ok {
        CopiedTag(h, h1, blocks, dst, from, tags, i, values);
        more := tags + [TagRec(from[i].name, values)];
        WrittenTags(h, blocks, dst, from, more, i + 1, Tags(more));
        Write(dst, Tags(more));
      } else {
        DropTags(dst, tags);
        GrownFreed(h, h1, {dst} + ValuesBlocks(h1, tags));
      }
    }

    /** The loop of `copy_generic_tags`: each condition's values in turn. */
    method CopyTags(dst: Ptr, from: seq<TagRec>, ghost h: Blocks) returns (tags: seq<TagRec>, ok: bool)
      requires Valid() && 0 !in h && SoundTags(h, from)
      requires dst in blocks && dst !in h && blocks[dst] == Tags([]) && CopyingTags(h, blocks, dst, from, [], 0)
      modifies this
      ensures Valid() && next >= old(next)
      ensures ok == (old(left) >= ValuesCost(h, from))
      ensures ok ==> left == old(left) - ValuesCost(h, from)
      ensures ok ==> dst in blocks && blocks[dst] == Tags(tags) && CopyingTags(h, blocks, dst, from, tags, |from|)
      ensures !ok ==> blocks == h
    {
      tags, ok := [], true;
      for i := 0 to |from|
        invariant Valid() && next >= old(next) && left + ValuesCost(h, from[..i]) == old(left)
        invariant dst in blocks && blocks[dst] == Tags(tags) && CopyingTags(h, blocks, dst, from, tags, i)
      {
        ValuesStep(h, from, i);
        ValuesCostGrows(h, from, i + 1);
        tags, ok := AppendTag(dst, from, tags, i, h);
        if !ok {
          return;
        }
      }
      assert from[..|from|] == from;
    }

    /** `copy_generic_tags` */
    method CopyGeneric(src: Ptr) returns (dst: Ptr, ok: bool)
      requires Valid() && SoundGeneric(blocks, src)
      modifies this
      ensures Valid() && next >= old(next)
      ensures ok == (old(left) >= GenericCost(old(blocks), src))
      ensures ok ==> left == old(left) - GenericCost(old(blocks), src)
      ensures ok ==> Grown(old(blocks), blocks, GenericBlocks(blocks, dst)) && SoundGeneric(blocks, dst)
      ensures ok ==> GenericAt(blocks, dst) == GenericAt(old(blocks), src)
      ensures !ok ==> dst == 0 && blocks == old(blocks)
    {
      ghost var h := blocks;
      dst, ok := 0, true;
      if src == 0 {
        return;
      }
      var from := blocks[src].tags;
      dst := Allocate(Tags([]));
      if dst == 0 {
        return 0, false;
      }
      assert from[..0] == [];
      ghost var tags;
      tags, ok := CopyTags(dst, from, h);
      if !ok {
        dst := 0;
      }
    }

    /** `copy_int_array` */
    method CopyInts(src: Ptr) returns (dst: Ptr, ok: bool)
      requires Valid() && SoundKinds(blocks, src)
      modifies this
      ensures Valid() && next >= old(next)
      ensures ok == (old(left) >= KindsCost(src))
      ensures ok ==> left == old(left) - KindsCost(src)
      ensures ok ==> Grown(old(blocks), blocks, KindsBlocks(dst)) && SoundKinds(blocks, dst)
      ensures ok ==> KindsAt(blocks, dst) == KindsAt(old(blocks), src)
      ensures !ok ==> dst == 0 && blocks == old(blocks)
    {
      dst, ok := 0, true;
      if src == 0 {
        return;
      }
      dst := Allocate(blocks[src]);
      ok := dst != 0;
    }

    method FreePlain(f: FilterRec)
      requires Valid() && SoundFilter(blocks, f)
      modifies this`blocks
      ensures Valid() && blocks == old(blocks) - PlainBlocks(old(blocks), f)
    {
      ghost var h := blocks;
      FreeList(f.ids);
      ListKept(h, ListBlocks(h, f.ids), f.authors);
      FreeList(f.authors);
      if f.kinds != 0 {
        Free(f.kinds);
      }
    }

    method FreeTagged(f: FilterRec)
      requires Valid() && SoundTagged(blocks, f)
      modifies this`blocks
      ensures Valid() && blocks == old(blocks) - TaggedBlocks(old(blocks), f)
    {
      ghost var h := blocks;
      FreeList(f.eTags);
      ListKept(h, ListBlocks(h, f.eTags), f.pTags);
      FreeList(f.pTags);
      FreedParts(h, ListBlocks(h, f.eTags), ListBlocks(h, f.pTags));
      GenericKept(h, ListBlocks(h, f.eTags) + ListBlocks(h, f.pTags), f.generic);
      FreeGeneric(f.generic);
    }

    /** `nostr_filter_free`: every block it owns, once. */
    method FreeFilter(f: FilterRec)
      requires Valid() && SoundFilter(blocks, f)
      modifies this`blocks
      ensures Valid() && blocks == old(blocks) - FilterBlocks(old(blocks), f)
    {
      ghost var h := blocks;
      FreePlain(f);
      TaggedKept(h, PlainBlocks(h, f), f);
      FreeTagged(f);
      FreedParts(h, PlainBlocks(h, f), TaggedBlocks(h, f));
    }

    /** One string list of `filter_copy`. */
    method CopyField(src: FilterRec, k: Field, f: FilterRec, ghost h: Blocks, ghost w: Words)
      returns (more: FilterRec, ok: bool)
      requires Valid() && 0 !in h && SoundFilter(h, src) && Built(h, blocks, f, w) && Slot(f, k) == 0
      modifies this
      ensures Valid() && next >= old(next)
      ensures ok == (old(left) >= ListCost(h, Slot(src, k)))
      ensures ok ==> left == old(left) - ListCost(h, Slot(src, k))
      ensures ok ==> Built(h, blocks, more, WithWords(w, k, ListAt(h, Slot(src, k))))
      ensures more == With(f, k, Slot(more, k))
      ensures !ok ==> blocks == old(blocks) && more == f
    {
      ghost var h1 := blocks;
      ListGrown(h, h1, FilterBlocks(h1, f), Slot(src, k));
      more := f;
      var p;
      p, ok := CopyStrings(Slot(src, k));
      if ok {
        AddedList(h, h1, blocks, f, w, k, p);
        more := With(f, k, p);
      }
    }

    /** Two string lists, the second only if the first could be copied. */
    method CopyFields(src: FilterRec, k1: Field, k2: Field, f: FilterRec, ghost h: Blocks, ghost w: Words)
      returns (more: FilterRec, ok: bool)
      requires Valid() && 0 !in h && SoundFilter(h, src) && Built(h, blocks, f, w)
      requires k1 != k2 && Slot(f, k1) == Slot(f, k2) == 0
      modifies this
      ensures Valid() && next >= old(next)
      ensures var cost := ListCost(h, Slot(src, k1)) + ListCost(h, Slot(src, k2));
              ok == (old(left) >= cost) && (ok ==> left == old(left) - cost)
      ensures more == With(With(f, k1, Slot(more, k1)), k2, Slot(more, k2))
      ensures Grown(h, blocks, FilterBlocks(blocks, more)) && SoundFilter(blocks, more)
      ensures ok ==> Built(h, blocks, more, WithWords(WithWords(w, k1, ListAt(h, Slot(src, k1))), k2,
                                                      ListAt(h, Slot(src, k2))))
    {
      more, ok := CopyField(src, k1, f, h, w);
      ghost var first := more;
      WithOne(f, first, k1, k2);
      if ok {
        more, ok := CopyField(src, k2, more, h, WithWords(w, k1, ListAt(h, Slot(src, k1))));
      }
      WithTwo(f, first, more, k1, k2);
    }

    method AddKinds(src: FilterRec, f: FilterRec, ghost h: Blocks, ghost w: Words) returns (more: FilterRec, ok: bool)
      requires Valid() && 0 !in h && SoundFilter(h, src) && Built(h, blocks, f, w) && f.kinds == 0
      modifies this
      ensures Valid() && next >= old(next)
      ensures ok == (old(left) >= KindsCost(src.kinds)) && (ok ==> left == old(left) - KindsCost(src.kinds))
      ensures ok ==> Built(h, blocks, more, w.(kinds := KindsAt(h, src.kinds)))
      ensures more == f.(kinds := more.kinds)
      ensures !ok ==> blocks == old(blocks) && more == f
    {
      ghost var h1 := blocks;
      more := f;
      var kinds;
      kinds, ok := CopyInts(src.kinds);
      if ok {
        AddedKinds(h, h1, blocks, f, w, kinds);
        more := f.(kinds := kinds);
      }
    }

    /** The plain lists, from an empty record. */
    method CopyPlain(src: FilterRec, ghost h: Blocks) returns (f: FilterRec, ok: bool)
      requires Valid() && blocks == h && SoundFilter(h, src)
      modifies this
      ensures Valid() && next >= old(next)
      ensures ok == (old(left) >= PlainCost(h, src)) && (ok ==> left == old(left) - PlainCost(h, src))
      ensures f.eTags == f.pTags == f.generic == 0
      ensures Grown(h, blocks, FilterBlocks(blocks, f)) && SoundFilter(blocks, f)
      ensures ok ==> WordsAt(blocks, f) == PlainWords(h, src)
    {
      f, ok := CopyFields(src, Ids, Authors, NO_FILTER, h, NO_WORDS);
      if ok {
        ghost var w := WithWords(WithWords(NO_WORDS, Ids, ListAt(h, src.ids)), Authors, ListAt(h, src.authors));
        f, ok := AddKinds(src, f, h, w);
      }
    }

    method AddGeneric(src: FilterRec, f: FilterRec, ghost h: Blocks, ghost w: Words) returns (more: FilterRec, ok: bool)
      requires Valid() && 0 !in h && SoundFilter(h, src) && Built(h, blocks, f, w) && f.generic == 0
      modifies this
      ensures Valid() && next >= old(next)
      ensures ok == (old(left) >= GenericCost(h, src.generic))
      ensures ok ==> left == old(left) - GenericCost(h, src.generic)
      ensures ok ==> Built(h, blocks, more, w.(generic := GenericAt(h, src.generic)))
      ensures !ok ==> blocks == old(blocks) && more == f
    {
      ghost var h1 := blocks;
      more := f;
      GenericGrown(h, h1, FilterBlocks(h1, f), src.generic);
      var generic;
      generic, ok := CopyGeneric(src.generic);
      if ok {
        AddedGeneric(h, h1, blocks, f, w, generic);
        more := f.(generic := generic);
      }
    }

    /** The tag conditions, after the plain lists. */
    method CopyTagged(src: FilterRec, plain: FilterRec, ghost h: Blocks, ghost v: Words)
      returns (f: FilterRec, ok: bool)
      requires Valid() && 0 !in h && SoundFilter(h, src) && Built(h, blocks, plain, v)
      requires plain.eTags == plain.pTags == plain.generic == 0
      modifies this
      ensures Valid() && next >= old(next)
      ensures ok == (old(left) >= TaggedCost(h, src)) && (ok ==> left == old(left) - TaggedCost(h, src))
      ensures Grown(h, blocks, FilterBlocks(blocks, f)) && SoundFilter(blocks, f)
      ensures ok ==> WordsAt(blocks, f) == TaggedWords(v, h, src)
    {
      f, ok := CopyFields(src, ETags, PTags, plain, h, v);
      if ok {
        ghost var w := WithWords(WithWords(v, ETags, ListAt(h, src.eTags)), PTags, ListAt(h, src.pTags));
        f, ok := AddGeneric(src, f, h, w);
      }
    }

    /** The bounds are copied last. */
    static function Bounded(f: FilterRec, src: FilterRec, ghost h: Blocks): (r: FilterRec)
      ensures FilterBlocks(h, r) == FilterBlocks(h, f) && WordsAt(h, r) == WordsAt(h, f)
      ensures SoundFilter(h, f) ==> SoundFilter(h, r)
      ensures r.since == src.since && r.until == src.until && r.limit == src.limit
    {
      f.(since := src.since, until := src.until, limit := src.limit)
    }

    /** `filter_copy`: a deep copy in new blocks, or, when an allocation fails, everything
        given back and a cleared record. */
    method CopyFilter(src: FilterRec) returns (dst: FilterRec, ok: bool)
      requires Valid() && SoundFilter(blocks, src)
      modifies this
      ensures Valid() && next >= old(next)
      ensures ok == (old(left) >= FilterCost(old(blocks), src))
      ensures ok ==> left == old(left) - FilterCost(old(blocks), src)
      ensures ok ==> Grown(old(blocks), blocks, FilterBlocks(blocks, dst)) && SoundFilter(blocks, dst)
      ensures ok ==> FilterAt(blocks, dst) == FilterAt(old(blocks), src)
      ensures !ok ==> dst == NO_FILTER && blocks == old(blocks)
    {
      ghost var h := blocks;
      dst, ok := CopyPlain(src, h);
      if ok {
        dst, ok := CopyTagged(src, dst, h, WordsAt(blocks, dst));
      }
      if !ok {
        ghost var h1 := blocks;
        FreeFilter(dst);
        GrownFreed(h, h1, FilterBlocks(h1, dst));
        return NO_FILTER, false;
      }
      assert WordsAt(blocks, dst) == WordsAt(h, src);
      dst := Bounded(dst, src, blocks);
    }

    /** Frees every filter of a message, as `router_msg_free` does. */
    method FreeAll(fs: seq<FilterRec>)
      requires Valid() && SoundAll(blocks, fs)
      modifies this`blocks
      ensures Valid() && blocks == old(blocks) - AllBlocks(old(blocks), fs)
    {
      ghost var h := blocks;
      assert h - AllBlocks(h, fs[..0]) == h;
      for i := 0 to |fs|
        invariant Valid() && blocks == h - AllBlocks(h, fs[..i])
      {
        SoundPrefix(h, fs, i);
        FilterKept(h, AllBlocks(h, fs[..i]), fs[i]);
        FreeFilter(fs[i]);
        FreedParts(h, AllBlocks(h, fs[..i]), FilterBlocks(h, fs[i]));
      }
      assert fs[..|fs|] == fs;
    }

    /** Gives back what was stored before a copy failed. */
    method DropAll(slot: seq<FilterRec>, ghost h: Blocks)
      requires Valid() && SoundAll(blocks, slot) && Grown(h, blocks, AllBlocks(blocks, slot))
      modifies this`blocks
      ensures Valid() && blocks == h
    {
      GrownFreed(h, blocks, AllBlocks(blocks, slot));
      FreeAll(slot);
    }

    method CopyOneMore(fs: seq<FilterRec>, slot: seq<FilterRec>, i: nat, ghost h: Blocks, ghost all: nat)
        returns (more: seq<FilterRec>, ok: bool)
      requires Valid() && 0 !in h && i < |fs| && SoundAll(h, fs) && Storing(h, blocks, fs, slot, i)
      requires Upto(Costs(h, fs), i, all, left)
      modifies this
      ensures Valid() && next >= old(next)
      ensures ok ==> Storing(h, blocks, fs, more, i + 1) && Upto(Costs(h, fs), i + 1, all, left)
      ensures !ok ==> more == [] && blocks == h && FailAt(Costs(h, fs), all) == Some(i)
    {
      ghost var h1 := blocks;
      NextSource(h, h1, fs, slot, i);
      UptoStep(Costs(h, fs), i, all, left);
      var f;
      f, ok := CopyFilter(fs[i]);
      if ok {
        StoredMore(h, h1, blocks, fs, slot, i, f);
        more := slot + [f];
      } else {
        more := [];
        DropAll(slot, h);
      }
    }

    /** `copy_filters_to_slot`, for at most four filters: all of them are stored in new
        blocks, or none is and the heap is as before. Which, is what the subscription
        table's `failAt` stands for: the first copy the memory does not suffice for. */
    method CopyFilters(fs: seq<FilterRec>) returns (slot: seq<FilterRec>, ok: bool)
      requires Valid() && SoundAll(blocks, fs)
      modifies this
      ensures Valid() && next >= old(next)
      ensures S.Copied(FiltersAt(old(blocks), fs), FailAt(Costs(old(blocks), fs), old(left)))
           == if ok then Some(FiltersAt(blocks, slot)) else None
      ensures ok ==> Grown(old(blocks), blocks, AllBlocks(blocks, slot)) && SoundAll(blocks, slot)
      ensures !ok ==> slot == [] && blocks == old(blocks)
    {
      ghost var h, all, costs := blocks, left, Costs(blocks, fs);
      slot, ok := [], true;
      var n := if |fs| > S.MAX_FILTERS then S.MAX_FILTERS else |fs|;
      assert costs[0..] == costs;
      for i := 0 to n
        invariant Valid() && next >= old(next) && Upto(costs, i, all, left)
        invariant Storing(h, blocks, fs, slot, i)
      {
        slot, ok := CopyOneMore(fs, slot, i, h, all);
        if !ok {
          CopiedNone(FiltersAt(h, fs), costs, all, i);
          return;
        }
      }
      StoredAll(h, blocks, fs, slot, n, costs, all, left);
    }

    /** The life of a REQ's filters: copied into the slot, then freed with the message.
        What the slot holds spells what the message's filters did, no block of the message
        is left, and none has leaked. */
    method StoreThenFree(message: seq<FilterRec>) returns (slot: seq<FilterRec>, ok: bool)
      requires Valid() && SoundAll(blocks, message)
      modifies this
      ensures Valid()
      ensures S.Copied(FiltersAt(old(blocks), message), FailAt(Costs(old(blocks), message), old(left)))
           == if ok then Some(FiltersAt(blocks, slot)) else None
      ensures SoundAll(blocks, slot)
      ensures blocks.Keys == old(blocks).Keys - AllBlocks(old(blocks), message) + AllBlocks(blocks, slot)
      ensures AllBlocks(old(blocks), message) !! blocks.Keys
    {
      ghost var h := blocks;
      slot, ok := CopyFilters(message);
      ghost var h1 := blocks;
      if ok {
        AllGrown(h, h1, AllBlocks(h1, slot), message);
      } else {
        AllGrown(h, h, {}, message);
      }
      AllKept(h1, AllBlocks(h, message), slot);
      FreeAll(message);
    }
  }
}
