/** The subscription table and the heap together: over every add, replacement and removal the
    heap holds exactly the blocks of the filters stored in active slots, each owned once. */
module SlotHeap {
  import opened Bytes
  import opened Events
  import opened FilterCopy
  import S = SubTable

  // ---------------------------------------------------------------- what the slots own

  /** The blocks owned by the slots. */
  function OwnedBlocks(h: Blocks, owned: seq<seq<FilterRec>>): set<Ptr> {
    set i, p | 0 <= i < |owned| && p in AllBlocks(h, owned[i]) :: p
  }

  predicate ApartAt(h: Blocks, owned: seq<seq<FilterRec>>, i: nat, j: nat)
    requires i < |owned| && j < |owned|
  {
    AllBlocks(h, owned[i]) !! AllBlocks(h, owned[j])
  }

  /** No two slots own a block together. */
  ghost predicate AllApart(h: Blocks, owned: seq<seq<FilterRec>>) {
    forall i: nat, j: nat :: i < j < |owned| ==> ApartAt(h, owned, i, j)
  }

  /** What slot i owns is sound and spells the filters the table has for it; a slot that is
      not active owns nothing. */
  predicate Spells(h: Blocks, owned: seq<seq<FilterRec>>, slots: seq<S.Slot>, i: nat)
    requires i < |owned| == |slots|
  {
    && SoundAll(h, owned[i]) && slots[i].filters == FiltersAt(h, owned[i])
    && (!slots[i].active ==> owned[i] == [])
  }

  ghost predicate Mirrors(h: Blocks, owned: seq<seq<FilterRec>>, slots: seq<S.Slot>) {
    && |owned| == |slots| && 0 !in h && AllApart(h, owned)
    && forall i: nat :: i < |owned| ==> Spells(h, owned, slots, i)
  }

  /** Beside the slots' blocks there are those of a parsed message, and no others. */
  ghost predicate Beside(h: Blocks, owned: seq<seq<FilterRec>>, message: seq<FilterRec>) {
    && SoundAll(h, message) && OwnedBlocks(h, owned) !! AllBlocks(h, message)
    && h.Keys == OwnedBlocks(h, owned) + AllBlocks(h, message)
  }

  /** The heap is exactly what the slots and a parsed message own, and the slots spell the
      table. With no message, nothing has leaked. */
  ghost predicate Exact(h: Blocks, owned: seq<seq<FilterRec>>, slots: seq<S.Slot>, message: seq<FilterRec>) {
    Mirrors(h, owned, slots) && Beside(h, owned, message)
  }

  lemma {:induction false} OwnedHas(h: Blocks, owned: seq<seq<FilterRec>>, i: nat)
    requires i < |owned|
    ensures AllBlocks(h, owned[i]) <= OwnedBlocks(h, owned)
  {
  }

  lemma {:induction false} ApartEither(h: Blocks, owned: seq<seq<FilterRec>>, i: nat, j: nat)
    requires AllApart(h, owned) && i < |owned| && j < |owned| && i != j
    ensures AllBlocks(h, owned[i]) !! AllBlocks(h, owned[j])
  {
    if i < j { assert ApartAt(h, owned, i, j); } else { assert ApartAt(h, owned, j, i); }
  }

  /** Every slot owns what it did, but slot i now owns the blocks `s`. */
  ghost predicate SameBut(h: Blocks, h': Blocks, owned: seq<seq<FilterRec>>, after: seq<seq<FilterRec>>, i: nat,
                          s: set<Ptr>)
  {
    && |after| == |owned|
    && forall j: nat :: j < |owned| ==> AllBlocks(h', after[j]) == if j == i then s else AllBlocks(h, owned[j])
  }

  lemma StillApart(h: Blocks, h': Blocks, owned: seq<seq<FilterRec>>, after: seq<seq<FilterRec>>, i: nat,
                   s: set<Ptr>)
    requires SameBut(h, h', owned, after, i, s) && AllApart(h, owned) && s !! OwnedBlocks(h, owned)
    ensures AllApart(h', after)
  {
    forall j: nat, k: nat | j < k < |after|
      ensures ApartAt(h', after, j, k)
    {
      assert ApartAt(h, owned, j, k);
      OwnedHas(h, owned, j);
      OwnedHas(h, owned, k);
    }
  }

  lemma {:induction false} OwnedMore(h: Blocks, h': Blocks, owned: seq<seq<FilterRec>>, after: seq<seq<FilterRec>>,
                                     i: nat, s: set<Ptr>)
    requires SameBut(h, h', owned, after, i, s) && i < |owned| && AllBlocks(h, owned[i]) == {}
    ensures OwnedBlocks(h', after) == OwnedBlocks(h, owned) + s
  {
    forall p | p in OwnedBlocks(h, owned) + s
      ensures p in OwnedBlocks(h', after)
    {
      if p in s {
        assert p in AllBlocks(h', after[i]);
      } else {
        var j :| 0 <= j < |owned| && p in AllBlocks(h, owned[j]);
        assert p in AllBlocks(h', after[j]);
      }
    }
  }

  lemma {:induction false} OwnedFewer(h: Blocks, h': Blocks, owned: seq<seq<FilterRec>>, after: seq<seq<FilterRec>>,
                                      i: nat)
    requires SameBut(h, h', owned, after, i, {}) && AllApart(h, owned) && i < |owned|
    ensures OwnedBlocks(h', after) == OwnedBlocks(h, owned) - AllBlocks(h, owned[i])
  {
    forall p | p in OwnedBlocks(h, owned) && p !in AllBlocks(h, owned[i])
      ensures p in OwnedBlocks(h', after)
    {
      var j :| 0 <= j < |owned| && p in AllBlocks(h, owned[j]);
      assert p in AllBlocks(h', after[j]);
    }
    forall p | p in OwnedBlocks(h', after)
      ensures p in OwnedBlocks(h, owned) && p !in AllBlocks(h, owned[i])
    {
      var j :| 0 <= j < |after| && p in AllBlocks(h', after[j]);
      ApartEither(h, owned, i, j);
    }
  }

  // ---------------------------------------------------------------- clearing and filling a slot

  lemma {:induction false} ClearedAt(h: Blocks, owned: seq<seq<FilterRec>>, slots: seq<S.Slot>, i: nat, slot: S.Slot,
                                     j: nat)
    requires Mirrors(h, owned, slots) && i < |owned| && slot.filters == [] && j < |owned|
    ensures var s, after := AllBlocks(h, owned[i]), owned[i := []];
            && Spells(h - s, after, slots[i := slot], j)
            && AllBlocks(h - s, after[j]) == if j == i then {} else AllBlocks(h, owned[j])
  {
    if j != i {
      ApartEither(h, owned, i, j);
      assert Spells(h, owned, slots, j);
      AllKept(h, AllBlocks(h, owned[i]), owned[j]);
    }
  }

  /** A slot whose blocks are freed owns nothing, and no other slot notices. */
  lemma {:induction false} ClearedSlot(h: Blocks, owned: seq<seq<FilterRec>>, slots: seq<S.Slot>, i: nat, slot: S.Slot)
    requires Mirrors(h, owned, slots) && i < |owned| && slot.filters == []
    ensures var s := AllBlocks(h, owned[i]);
            && Mirrors(h - s, owned[i := []], slots[i := slot])
            && OwnedBlocks(h - s, owned[i := []]) == OwnedBlocks(h, owned) - s
  {
    var s, after, left := AllBlocks(h, owned[i]), owned[i := []], slots[i := slot];
    forall j: nat | j < |owned|
      ensures Spells(h - s, after, left, j)
      ensures AllBlocks(h - s, after[j]) == if j == i then {} else AllBlocks(h, owned[j])
    {
      ClearedAt(h, owned, slots, i, slot, j);
    }
    StillApart(h, h - s, owned, after, i, {});
    OwnedFewer(h, h - s, owned, after, i);
  }

  lemma {:induction false} FilledAt(h: Blocks, h': Blocks, owned: seq<seq<FilterRec>>, slots: seq<S.Slot>, i: nat,
                                    fs: seq<FilterRec>, slot: S.Slot, j: nat)
    requires Mirrors(h, owned, slots) && i < |owned| && owned[i] == [] && 0 !in h' && j < |owned|
    requires Grown(h, h', AllBlocks(h', fs)) && SoundAll(h', fs) && slot.filters == FiltersAt(h', fs) && slot.active
    ensures var after := owned[i := fs];
            && Spells(h', after, slots[i := slot], j)
            && AllBlocks(h', after[j]) == (if j == i then AllBlocks(h', fs) else AllBlocks(h, owned[j]))
            && AllBlocks(h, owned[j]) <= h.Keys
  {
    assert Spells(h, owned, slots, j);
    AllGrown(h, h', AllBlocks(h', fs), owned[j]);
  }

  lemma {:induction false} FilledSame(h: Blocks, h': Blocks, owned: seq<seq<FilterRec>>, slots: seq<S.Slot>, i: nat,
                                      fs: seq<FilterRec>, slot: S.Slot)
    requires Mirrors(h, owned, slots) && i < |owned| && owned[i] == [] && 0 !in h'
    requires Grown(h, h', AllBlocks(h', fs)) && SoundAll(h', fs) && slot.filters == FiltersAt(h', fs) && slot.active
    ensures SameBut(h, h', owned, owned[i := fs], i, AllBlocks(h', fs)) && OwnedBlocks(h, owned) <= h.Keys
  {
    var s, after := AllBlocks(h', fs), owned[i := fs];
    forall j: nat | j < |owned|
      ensures AllBlocks(h', after[j]) == if j == i then s else AllBlocks(h, owned[j])
      ensures AllBlocks(h, owned[j]) <= h.Keys
    {
      FilledAt(h, h', owned, slots, i, fs, slot, j);
    }
  }

  /** Filters in new blocks fill an empty slot, and no other slot notices. */
  lemma {:induction false} FilledSlot(h: Blocks, h': Blocks, owned: seq<seq<FilterRec>>, slots: seq<S.Slot>, i: nat,
                                      fs: seq<FilterRec>, slot: S.Slot)
    requires Mirrors(h, owned, slots) && i < |owned| && owned[i] == [] && 0 !in h'
    requires Grown(h, h', AllBlocks(h', fs)) && SoundAll(h', fs) && slot.filters == FiltersAt(h', fs) && slot.active
    ensures Mirrors(h', owned[i := fs], slots[i := slot])
    ensures OwnedBlocks(h', owned[i := fs]) == OwnedBlocks(h, owned) + AllBlocks(h', fs)
  {
    var after, left := owned[i := fs], slots[i := slot];
    forall j: nat | j < |owned|
      ensures Spells(h', after, left, j)
    {
      FilledAt(h, h', owned, slots, i, fs, slot, j);
    }
    FilledSame(h, h', owned, slots, i, fs, slot);
    StillApart(h, h', owned, after, i, AllBlocks(h', fs));
    OwnedMore(h, h', owned, after, i, AllBlocks(h', fs));
  }

  /** A slot that owns nothing may be rewritten as long as it has no filters. */
  lemma BlankSlot(h: Blocks, owned: seq<seq<FilterRec>>, slots: seq<S.Slot>, i: nat, slot: S.Slot)
    requires Mirrors(h, owned, slots) && i < |owned| && owned[i] == [] && slot.filters == []
    ensures Mirrors(h, owned, slots[i := slot])
  {
    var left := slots[i := slot];
    forall j: nat | j < |owned|
      ensures Spells(h, owned, left, j)
    {
      assert Spells(h, owned, slots, j);
    }
  }

  /** The message is freed: what is left belongs to the slots. */
  lemma {:induction false} FreedMessage(h: Blocks, owned: seq<seq<FilterRec>>, slots: seq<S.Slot>,
                                        message: seq<FilterRec>)
    requires Exact(h, owned, slots, message)
    ensures Exact(h - AllBlocks(h, message), owned, slots, [])
  {
    var s := AllBlocks(h, message);
    forall j: nat | j < |owned|
      ensures Spells(h - s, owned, slots, j)
      ensures AllBlocks(h - s, owned[j]) == AllBlocks(h, owned[j])
    {
      OwnedHas(h, owned, j);
      assert Spells(h, owned, slots, j);
      AllKept(h, s, owned[j]);
    }
    StillApart(h, h - s, owned, owned, |owned|, {});
    assert OwnedBlocks(h - s, owned) == OwnedBlocks(h, owned);
  }

  // ---------------------------------------------------------------- the message beside them

  lemma ListCostKept(h: Blocks, s: set<Ptr>, p: Ptr)
    requires SoundList(h, p) && ListBlocks(h, p) !! s
    ensures ListCost(h - s, p) == ListCost(h, p)
  {
    if p != 0 { assert PtrsAt(h - s, p) == PtrsAt(h, p); }
  }

  lemma {:induction false} ValuesCostKept(h: Blocks, s: set<Ptr>, tags: seq<TagRec>)
    requires SoundTags(h, tags) && ValuesBlocks(h, tags) !! s
    ensures ValuesCost(h - s, tags) == ValuesCost(h, tags)
  {
    if tags != [] {
      ValuesCostKept(h, s, tags[..|tags| - 1]);
      ListCostKept(h, s, tags[|tags| - 1].values);
    }
  }

  lemma FilterCostKept(h: Blocks, s: set<Ptr>, f: FilterRec)
    requires SoundFilter(h, f) && FilterBlocks(h, f) !! s
    ensures FilterCost(h - s, f) == FilterCost(h, f)
  {
    ListCostKept(h, s, f.ids);
    ListCostKept(h, s, f.authors);
    ListCostKept(h, s, f.eTags);
    ListCostKept(h, s, f.pTags);
    if f.generic != 0 {
      assert TagsAt(h - s, f.generic) == TagsAt(h, f.generic);
      ValuesCostKept(h, s, TagsAt(h, f.generic));
    }
  }

  lemma CostsSnoc(h: Blocks, fs: seq<FilterRec>)
    requires fs != []
    ensures Costs(h, fs) == Costs(h, fs[..|fs| - 1]) + [FilterCost(h, fs[|fs| - 1])]
  {
  }

  /** What a copy of a message costs does not depend on blocks it does not own. */
  lemma {:induction false} CostsKept(h: Blocks, s: set<Ptr>, fs: seq<FilterRec>)
    requires SoundAll(h, fs) && AllBlocks(h, fs) !! s
    ensures Costs(h - s, fs) == Costs(h, fs)
  {
    if fs != [] {
      CostsKept(h, s, fs[..|fs| - 1]);
      FilterCostKept(h, s, fs[|fs| - 1]);
      CostsSnoc(h, fs);
      CostsSnoc(h - s, fs);
    }
  }

  lemma {:induction false} ClearedExact(h: Blocks, owned: seq<seq<FilterRec>>, slots: seq<S.Slot>,
                                        message: seq<FilterRec>, i: nat, slot: S.Slot)
    requires Exact(h, owned, slots, message) && i < |owned| && slot.filters == []
    ensures var s := AllBlocks(h, owned[i]);
            && Exact(h - s, owned[i := []], slots[i := slot], message)
            && FiltersAt(h - s, message) == FiltersAt(h, message) && Costs(h - s, message) == Costs(h, message)
  {
    var s := AllBlocks(h, owned[i]);
    ClearedSlot(h, owned, slots, i, slot);
    OwnedHas(h, owned, i);
    AllKept(h, s, message);
    CostsKept(h, s, message);
  }

  lemma {:induction false} FilledExact(h: Blocks, h': Blocks, owned: seq<seq<FilterRec>>, slots: seq<S.Slot>,
                                       message: seq<FilterRec>, i: nat, fs: seq<FilterRec>, slot: S.Slot)
    requires Exact(h, owned, slots, message) && i < |owned| && owned[i] == [] && 0 !in h'
    requires Grown(h, h', AllBlocks(h', fs)) && SoundAll(h', fs) && slot.filters == FiltersAt(h', fs) && slot.active
    ensures Exact(h', owned[i := fs], slots[i := slot], message)
  {
    FilledSlot(h, h', owned, slots, i, fs, slot);
    AllGrown(h, h', AllBlocks(h', fs), message);
  }

  // ---------------------------------------------------------------- what an add changes

  /** The slot an add fills: the one it replaces, or else a free one within the quota. */
  function Target(slots: seq<S.Slot>, fd: int, id: string): (r: Option<nat>)
    ensures r.Some? ==> r.value < |slots|
  {
    var existing := S.FindFrom(slots, fd, id, 0);
    if existing.Some? then existing
    else if |S.OfConn(slots, fd, |slots|)| >= S.MAX_PER_CONN then None
    else S.FreeFrom(slots, 0)
  }

  /** Slot i after an add that fills it. */
  predicate FilledBy(slot: S.Slot, copied: Option<seq<Filter>>) {
    match copied
    case Some(filters) => slot.active && slot.filters == filters
    case None => slot.filters == []
  }

  /** An add changes its target alone, and nothing when it has none. */
  lemma AddAtTarget(slots: seq<S.Slot>, fd: int, id: string, filters: seq<Filter>, failAt: Option<nat>)
    ensures var after := S.Add(slots, fd, id, filters, failAt);
            match Target(slots, fd, id)
            case None => after == slots
            case Some(i) =>
              |after| == |slots| && after == slots[i := after[i]] && FilledBy(after[i], S.Copied(filters, failAt))
  {
  }

  /** Only the outcome of the copy matters to the table, and only to an add with a target. */
  lemma SameOutcome(slots: seq<S.Slot>, fd: int, id: string, filters: seq<Filter>, a: Option<nat>, b: Option<nat>)
    requires Target(slots, fd, id).None? || S.Copied(filters, a) == S.Copied(filters, b)
    ensures S.Add(slots, fd, id, filters, a) == S.Add(slots, fd, id, filters, b)
    ensures S.AddStatus(slots, fd, id, filters, a) == S.AddStatus(slots, fd, id, filters, b)
  {
  }

  lemma RemoveAllStep(slots: seq<S.Slot>, fd: int, i: nat)
    requires i < |slots|
    ensures var left := S.RemoveAll(slots, fd, i);
            S.RemoveAll(slots, fd, i + 1)
              == if slots[i].active && slots[i].fd == fd then left[i := S.EMPTY_SLOT] else left
  {
  }

  // ---------------------------------------------------------------- the table over the heap

  class Subscriptions {
    const mgr: S.SubManager
    const mem: Memory
    const owned: array<seq<FilterRec>>

    /** Beside a parsed message the heap holds the blocks of the active slots and no others. */
    ghost predicate Holds(message: seq<FilterRec>)
      reads mgr, mgr.subs, mem, owned
    {
      && mgr.Valid() && mem.Valid() && owned.Length == S.MAX_SUBS
      && Exact(mem.blocks, owned[..], mgr.subs[..], message)
    }

    constructor (memory: Memory)
      requires memory.Valid() && memory.blocks == map[]
      ensures mem == memory && Holds([]) && fresh(mgr) && fresh(mgr.subs) && fresh(owned)
    {
      mgr := new S.SubManager();
      mem := memory;
      owned := new seq<FilterRec>[S.MAX_SUBS](_ => []);
    }

    /** `free_filters` on slot i. */
    method FreeAt(i: nat, ghost slots: seq<S.Slot>, ghost slot: S.Slot, ghost message: seq<FilterRec>)
      requires mem.Valid() && i < owned.Length && slot.filters == []
      requires Exact(mem.blocks, owned[..], slots, message)
      modifies mem, owned
      ensures mem.Valid() && mem.left == old(mem.left) && owned[..] == old(owned[..])[i := []]
      ensures Exact(mem.blocks, owned[..], slots[i := slot], message)
      ensures FiltersAt(mem.blocks, message) == FiltersAt(old(mem.blocks), message)
      ensures Costs(mem.blocks, message) == Costs(old(mem.blocks), message)
    {
      ghost var before := owned[..];
      assert Spells(mem.blocks, before, slots, i);
      ClearedExact(mem.blocks, before, slots, message, i, slot);
      mem.FreeAll(owned[i]);
      owned[i] := [];
      assert owned[..] == before[i := []];
    }

    /** `copy_filters_to_slot` on slot i, which owns nothing. */
    method FillAt(i: nat, message: seq<FilterRec>, ghost slots: seq<S.Slot>, ghost slot: S.Slot) returns (ok: bool)
      requires mem.Valid() && i < owned.Length && owned[i] == []
      requires Exact(mem.blocks, owned[..], slots, message)
      requires FilledBy(slot, S.Copied(FiltersAt(mem.blocks, message), FailAt(Costs(mem.blocks, message), mem.left)))
      modifies mem, owned
      ensures mem.Valid() && Exact(mem.blocks, owned[..], slots[i := slot], message)
      ensures ok <==> S.Copied(FiltersAt(old(mem.blocks), message),
                               FailAt(Costs(old(mem.blocks), message), old(mem.left))).Some?
    {
      ghost var h, before := mem.blocks, owned[..];
      var fs;
      fs, ok := mem.CopyFilters(message);
      if ok {
        FilledExact(h, mem.blocks, before, slots, message, i, fs, slot);
        owned[i] := fs;
        assert owned[..] == before[i := fs];
      } else {
        BlankSlot(h, before, slots, i, slot);
      }
    }

    method ReplaceAt(i: nat, message: seq<FilterRec>, ghost slots: seq<S.Slot>, ghost slot: S.Slot)
      returns (ok: bool)
      requires mem.Valid() && i < owned.Length
      requires Exact(mem.blocks, owned[..], slots, message)
      requires FilledBy(slot, S.Copied(FiltersAt(mem.blocks, message), FailAt(Costs(mem.blocks, message), mem.left)))
      modifies mem, owned
      ensures mem.Valid() && Exact(mem.blocks, owned[..], slots[i := slot], message)
      ensures ok <==> S.Copied(FiltersAt(old(mem.blocks), message),
                               FailAt(Costs(old(mem.blocks), message), old(mem.left))).Some?
    {
      ghost var emptied := slots[i].(filters := []);
      FreeAt(i, slots, emptied, message);
      ok := FillAt(i, message, slots[i := emptied], slot);
      assert slots[i := emptied][i := slot] == slots[i := slot];
    }

    /** `router_msg_free` */
    method FreeMessage(message: seq<FilterRec>)
      requires Holds(message)
      modifies mem
      ensures Holds([])
    {
      FreedMessage(mem.blocks, owned[..], mgr.subs[..], message);
      mem.FreeAll(message);
    }

    /** `sub_manager_remove` */
    method RemoveSub(fd: int, id: string, ghost message: seq<FilterRec>) returns (r: S.SubStatus)
      requires Holds(message)
      modifies mgr, mgr.subs, mem, owned
      ensures Holds(message) && mgr.subs[..] == S.Remove(old(mgr.subs[..]), fd, id)
    {
      ghost var slots := mgr.subs[..];
      var found := mgr.Find(fd, id);
      if found.Some? {
        FreeAt(found.value, slots, S.EMPTY_SLOT, message);
      }
      r := mgr.RemoveSub(fd, id);
    }

    /** One turn of the loop of `sub_manager_remove_all`. */
    method FreeIfOf(fd: int, i: nat, ghost message: seq<FilterRec>)
      requires mem.Valid() && owned.Length == mgr.subs.Length && i < owned.Length
      requires Exact(mem.blocks, owned[..], S.RemoveAll(mgr.subs[..], fd, i), message)
      modifies mem, owned
      ensures mem.Valid() && Exact(mem.blocks, owned[..], S.RemoveAll(mgr.subs[..], fd, i + 1), message)
    {
      RemoveAllStep(mgr.subs[..], fd, i);
      if mgr.subs[i].active && mgr.subs[i].fd == fd {
        FreeAt(i, S.RemoveAll(mgr.subs[..], fd, i), S.EMPTY_SLOT, message);
      }
    }

    /** `sub_manager_remove_all` */
    method RemoveConn(fd: int, ghost message: seq<FilterRec>)
      requires Holds(message)
      modifies mgr, mgr.subs, mem, owned
      ensures Holds(message) && mgr.subs[..] == S.RemoveAll(old(mgr.subs[..]), fd, S.MAX_SUBS)
    {
      ghost var slots := mgr.subs[..];
      assert S.RemoveAll(slots, fd, 0) == slots;
      for i := 0 to S.MAX_SUBS
        invariant mgr.Valid() && mgr.subs[..] == slots
        invariant mem.Valid() && owned.Length == S.MAX_SUBS
        invariant Exact(mem.blocks, owned[..], S.RemoveAll(slots, fd, i), message)
      {
        FreeIfOf(fd, i, message);
      }
      mgr.RemoveConn(fd);
    }

    /** The heap's part of an add. */
    method StoreFilters(fd: int, id: string, message: seq<FilterRec>) returns (ok: bool)
      requires Holds(message)
      modifies mem, owned
      ensures mem.Valid()
      ensures var filters := FiltersAt(old(mem.blocks), message);
              var failAt := FailAt(Costs(old(mem.blocks), message), old(mem.left));
              && Exact(mem.blocks, owned[..], S.Add(mgr.subs[..], fd, id, filters, failAt), message)
              && (Target(mgr.subs[..], fd, id).None? || (ok <==> S.Copied(filters, failAt).Some?))
    {
      ghost var slots := mgr.subs[..];
      ghost var filters, failAt := FiltersAt(mem.blocks, message), FailAt(Costs(mem.blocks, message), mem.left);
      ghost var after := S.Add(slots, fd, id, filters, failAt);
      AddAtTarget(slots, fd, id, filters, failAt);
      var existing := mgr.Find(fd, id);
      if existing.Some? {
        ok := ReplaceAt(existing.value, message, slots, after[existing.value]);
        return;
      }
      var n := mgr.CountOf(fd);
      if n >= S.MAX_PER_CONN {
        return true;
      }
      var free := mgr.FindFreeSlot();
      if free.None? {
        return true;
      }
      assert Spells(mem.blocks, owned[..], slots, free.value);
      ok := FillAt(free.value, message, slots, after[free.value]);
    }

    /** `sub_manager_add`: the filters of a subscription that is replaced are freed first; then
        the message's are copied, all or none. */
    method AddSub(fd: int, id: string, message: seq<FilterRec>) returns (r: S.SubStatus)
      requires Holds(message) && |id| <= S.MAX_ID_LEN
      modifies mgr, mgr.subs, mem, owned
      ensures Holds(message)
      ensures var filters := FiltersAt(old(mem.blocks), message);
              var failAt := FailAt(Costs(old(mem.blocks), message), old(mem.left));
              && r == S.AddStatus(old(mgr.subs[..]), fd, id, filters, failAt)
              && mgr.subs[..] == S.Add(old(mgr.subs[..]), fd, id, filters, failAt)
    {
      var filters := FiltersAt(mem.blocks, message);
      ghost var failAt := FailAt(Costs(mem.blocks, message), mem.left);
      var ok := StoreFilters(fd, id, message);
      var outcome := if ok then None else Some(0);
      SameOutcome(mgr.subs[..], fd, id, filters, failAt, outcome);
      r := mgr.AddSub(fd, id, filters, outcome);
    }

    /** A REQ's filters from parse to free: what is left on the heap is what the slots own. */
    method Request(fd: int, id: string, message: seq<FilterRec>) returns (r: S.SubStatus)
      requires Holds(message) && |id| <= S.MAX_ID_LEN
      modifies mgr, mgr.subs, mem, owned
      ensures Holds([])
      ensures var filters := FiltersAt(old(mem.blocks), message);
              var failAt := FailAt(Costs(old(mem.blocks), message), old(mem.left));
              && r == S.AddStatus(old(mgr.subs[..]), fd, id, filters, failAt)
              && mgr.subs[..] == S.Add(old(mgr.subs[..]), fd, id, filters, failAt)
    {
      r := AddSub(fd, id, message);
      FreeMessage(message);
    }
  }
}
