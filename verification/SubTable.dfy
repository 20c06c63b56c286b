/** The subscription table: 64 slots filled and cleared in place, meaning a map from
    (connection, subscription id) to filters. */
module SubTable {
  import opened Bytes
  import opened Events

  const MAX_SUBS: nat := 64
  const MAX_PER_CONN: nat := 8
  const MAX_FILTERS: nat := 4
  const MAX_ID_LEN: nat := 64

  datatype Slot = Slot(subId: string, fd: int, filters: seq<Filter>, eventsSent: nat, active: bool)
  const EMPTY_SLOT := Slot("", 0, [], 0, false)

  datatype SubStatus = SubOk | NoMemory | TooManySubs | UnknownSub
  datatype Match = Match(fd: int, subId: string)
  type Key2 = (int, string)

  // ---------------------------------------------------------------- lookups

  predicate Holds(slot: Slot, fd: int, id: string) {
    slot.active && slot.fd == fd && slot.subId == id
  }

  /** The first slot of the key (`sub_manager_find`). */
  function FindFrom(slots: seq<Slot>, fd: int, id: string, i: nat): (r: Option<nat>)
    requires i <= |slots|
    ensures r.Some? ==> i <= r.value < |slots| && Holds(slots[r.value], fd, id)
    ensures r.None? ==> forall j :: i <= j < |slots| ==> !Holds(slots[j], fd, id)
    decreases |slots| - i
  {
    if i == |slots| then None
    else if Holds(slots[i], fd, id) then Some(i)
    else FindFrom(slots, fd, id, i + 1)
  }

  function FreeFrom(slots: seq<Slot>, i: nat): (r: Option<nat>)
    requires i <= |slots|
    ensures r.Some? ==> i <= r.value < |slots| && !slots[r.value].active
    ensures r.None? ==> forall j :: i <= j < |slots| ==> slots[j].active
    decreases |slots| - i
  {
    if i == |slots| then None else if !slots[i].active then Some(i) else FreeFrom(slots, i + 1)
  }

  /** The active slots of one connection, and of all, below position n. */
  function OfConn(slots: seq<Slot>, fd: int, n: nat): set<nat> {
    set i: nat | i < n && i < |slots| && slots[i].active && slots[i].fd == fd
  }

  function Active(slots: seq<Slot>, n: nat): set<nat> {
    set i: nat | i < n && i < |slots| && slots[i].active
  }

  predicate Apart(slots: seq<Slot>, i: nat, j: nat)
    requires i < |slots| && j < |slots|
  {
    slots[i].active && slots[j].active ==> slots[i].fd != slots[j].fd || slots[i].subId != slots[j].subId
  }

  ghost predicate KeysDistinct(slots: seq<Slot>) {
    forall i: nat, j: nat :: i < j < |slots| ==> Apart(slots, i, j)
  }

  /** Keys are distinct and every quota holds. */
  ghost predicate Sound(slots: seq<Slot>) {
    && KeysDistinct(slots)
    && (forall i :: 0 <= i < |slots| && slots[i].active ==> |slots[i].filters| <= MAX_FILTERS)
    && (forall fd :: |OfConn(slots, fd, |slots|)| <= MAX_PER_CONN)
  }

  /** What the table means: the filters of each key. */
  function Keys(slots: seq<Slot>): set<Key2> {
    set i: nat | i < |slots| && slots[i].active :: (slots[i].fd, slots[i].subId)
  }

  function Lookup(slots: seq<Slot>, key: Key2): seq<Filter> {
    match FindFrom(slots, key.0, key.1, 0)
    case None => []
    case Some(i) => slots[i].filters
  }

  function Table(slots: seq<Slot>): map<Key2, seq<Filter>> {
    map key | key in Keys(slots) :: Lookup(slots, key)
  }

  // ---------------------------------------------------------------- the operations

  /** `copy_filters_to_slot`: at most four filters; running out of memory at the
      `failAt`-th copy leaves none. */
  function Copied(filters: seq<Filter>, failAt: Option<nat>): Option<seq<Filter>> {
    var fs := Take(filters, MAX_FILTERS);
    if failAt.Some? && failAt.value < |fs| then None else Some(fs)
  }

  function AddStatus(slots: seq<Slot>, fd: int, id: string, filters: seq<Filter>, failAt: Option<nat>): SubStatus {
    if FindFrom(slots, fd, id, 0).Some? then (if Copied(filters, failAt).Some? then SubOk else NoMemory)
    else if |OfConn(slots, fd, |slots|)| >= MAX_PER_CONN then TooManySubs
    else if FreeFrom(slots, 0).None? || Copied(filters, failAt).None? then NoMemory
    else SubOk
  }

  function Add(slots: seq<Slot>, fd: int, id: string, filters: seq<Filter>, failAt: Option<nat>): seq<Slot> {
    var copied := Copied(filters, failAt);
    match FindFrom(slots, fd, id, 0)
    case Some(i) => slots[i := slots[i].(filters := if copied.Some? then copied.value else [], eventsSent := 0)]
    case None =>
      if |OfConn(slots, fd, |slots|)| >= MAX_PER_CONN || FreeFrom(slots, 0).None? then slots
      else slots[FreeFrom(slots, 0).value :=
        if copied.Some? then Slot(Take(id, MAX_ID_LEN), fd, copied.value, 0, true) else EMPTY_SLOT]
  }

  function Remove(slots: seq<Slot>, fd: int, id: string): seq<Slot> {
    match FindFrom(slots, fd, id, 0)
    case None => slots
    case Some(i) => slots[i := EMPTY_SLOT]
  }

  /** Slots below n of the connection cleared. */
  function RemoveAll(slots: seq<Slot>, fd: int, n: nat): (r: seq<Slot>)
    ensures |r| == |slots|
  {
    seq(|slots|, i requires 0 <= i < |slots| =>
      if i < n && slots[i].active && slots[i].fd == fd then EMPTY_SLOT else slots[i])
  }

  /** The keys whose filters match, in slot order, from the first n slots. */
  function Matching(slots: seq<Slot>, ev: Event, onEmpty: bool, n: nat): (r: seq<Match>)
    requires n <= |slots|
    ensures |r| <= n
  {
    if n == 0 then []
    else if slots[n - 1].active && AcceptsAny(slots[n - 1].filters, ev, onEmpty)
    then Matching(slots, ev, onEmpty, n - 1) + [Match(slots[n - 1].fd, slots[n - 1].subId)]
    else Matching(slots, ev, onEmpty, n - 1)
  }

  // ---------------------------------------------------------------- soundness is kept

  lemma TakeIs<T>(s: seq<T>, n: nat)
    ensures Take(s, n) == s[..if |s| > n then n else |s|]
    ensures |s| <= n ==> Take(s, n) == s
  {
  }

  lemma OfConnUp(slots: seq<Slot>, fd: int, i: nat)
    requires i < |slots|
    ensures i !in OfConn(slots, fd, i)
    ensures OfConn(slots, fd, i + 1) == OfConn(slots, fd, i) + if slots[i].active && slots[i].fd == fd then {i} else {}
  {
  }

  lemma ActiveCleared(slots: seq<Slot>, i: nat)
    requires i < |slots| && slots[i].active
    ensures |Active(slots[i := EMPTY_SLOT], |slots|)| == |Active(slots, |slots|)| - 1
  {
    assert Active(slots[i := EMPTY_SLOT], |slots|) == Active(slots, |slots|) - {i};
  }

  /** A key is in the table exactly when its slot is found, and there is one such slot. */
  lemma {:induction false} KeysFound(slots: seq<Slot>, fd: int, id: string)
    ensures (fd, id) in Keys(slots) <==> FindFrom(slots, fd, id, 0).Some?
  {
    if i: nat :| i < |slots| && slots[i].active && (slots[i].fd, slots[i].subId) == (fd, id) {
      assert Holds(slots[i], fd, id);
    }
  }

  lemma ActiveFilled(slots: seq<Slot>, i: nat, slot: Slot)
    requires i < |slots| && !slots[i].active && slot.active
    ensures |Active(slots[i := slot], |slots|)| == |Active(slots, |slots|)| + 1
    ensures |OfConn(slots[i := slot], slot.fd, |slots|)| == |OfConn(slots, slot.fd, |slots|)| + 1
    ensures forall fd :: fd != slot.fd ==> OfConn(slots[i := slot], fd, |slots|) == OfConn(slots, fd, |slots|)
  {
    assert Active(slots[i := slot], |slots|) == Active(slots, |slots|) + {i};
    assert OfConn(slots[i := slot], slot.fd, |slots|) == OfConn(slots, slot.fd, |slots|) + {i};
  }

  lemma {:induction false} OnlySlot(slots: seq<Slot>, fd: int, id: string, i: nat)
    requires KeysDistinct(slots) && i < |slots| && Holds(slots[i], fd, id)
    ensures FindFrom(slots, fd, id, 0) == Some(i) && (fd, id) in Keys(slots)
    ensures Table(slots)[(fd, id)] == slots[i].filters
  {
    var j := FindFrom(slots, fd, id, 0).value;
    assert i != j ==> Apart(slots, if i < j then i else j, if i < j then j else i);
  }

  lemma {:induction false} SameElsewhere(slots: seq<Slot>, after: seq<Slot>, i: nat, slot: Slot, key: Key2)
    requires KeysDistinct(slots) && i < |slots| && after == slots[i := slot] && slot.active && KeysDistinct(after)
    requires if slots[i].active then Holds(slots[i], slot.fd, slot.subId)
             else FindFrom(slots, slot.fd, slot.subId, 0).None?
    ensures key in Keys(after) <==> key in Keys(slots) || key == (slot.fd, slot.subId)
    ensures key == (slot.fd, slot.subId) ==> Lookup(after, key) == slot.filters
    ensures key != (slot.fd, slot.subId) && key in Keys(slots) ==> Lookup(after, key) == Lookup(slots, key)
  {
    KeysFound(slots, key.0, key.1);
    KeysFound(after, key.0, key.1);
    if key == (slot.fd, slot.subId) {
      OnlySlot(after, slot.fd, slot.subId, i);
    } else if key in Keys(slots) {
      OnlySlot(after, key.0, key.1, FindFrom(slots, key.0, key.1, 0).value);
    }
  }

  /** Writing an active slot of a key that had this slot, or none, binds that key. */
  lemma BoundTable(slots: seq<Slot>, i: nat, slot: Slot)
    requires KeysDistinct(slots) && i < |slots| && slot.active
    requires if slots[i].active then Holds(slots[i], slot.fd, slot.subId)
             else FindFrom(slots, slot.fd, slot.subId, 0).None?
    ensures KeysDistinct(slots[i := slot])
    ensures Table(slots[i := slot]) == Table(slots)[(slot.fd, slot.subId) := slot.filters]
  {
    var after := slots[i := slot];
    forall j: nat, k: nat | j < k < |after|
      ensures Apart(after, j, k)
    {
      assert Apart(slots, j, k);
    }
    forall key: Key2
      ensures key in Keys(after) <==> key in Keys(slots) || key == (slot.fd, slot.subId)
      ensures key in Keys(after) ==> Lookup(after, key) == Table(slots)[(slot.fd, slot.subId) := slot.filters][key]
    {
      SameElsewhere(slots, after, i, slot, key);
    }
  }

  lemma ClearedKey(slots: seq<Slot>, i: nat, key: Key2)
    requires KeysDistinct(slots) && i < |slots|
    ensures var was, left := FindFrom(slots, key.0, key.1, 0), FindFrom(slots[i := EMPTY_SLOT], key.0, key.1, 0);
            left == if was == Some(i) then None else was
    ensures FindFrom(slots, key.0, key.1, 0) == Some(i) <==> Holds(slots[i], key.0, key.1)
  {
    var after := slots[i := EMPTY_SLOT];
    if FindFrom(after, key.0, key.1, 0).Some? {
      OnlySlot(slots, key.0, key.1, FindFrom(after, key.0, key.1, 0).value);
    }
    if Holds(slots[i], key.0, key.1) {
      OnlySlot(slots, key.0, key.1, i);
    } else if FindFrom(slots, key.0, key.1, 0).Some? {
      assert Holds(after[FindFrom(slots, key.0, key.1, 0).value], key.0, key.1);
    }
  }

  lemma ClearedLookup(slots: seq<Slot>, i: nat, key: Key2)
    requires KeysDistinct(slots) && i < |slots|
    ensures key in Keys(slots[i := EMPTY_SLOT]) <==> key in Keys(slots) && !Holds(slots[i], key.0, key.1)
    ensures key in Keys(slots[i := EMPTY_SLOT]) ==> Lookup(slots[i := EMPTY_SLOT], key) == Lookup(slots, key)
  {
    KeysFound(slots, key.0, key.1);
    KeysFound(slots[i := EMPTY_SLOT], key.0, key.1);
    ClearedKey(slots, i, key);
  }

  /** The keys left, and what each still looks up. */
  lemma UnboundKeys(slots: seq<Slot>, i: nat)
    requires KeysDistinct(slots) && i < |slots|
    ensures var after, was := slots[i := EMPTY_SLOT], Table(slots);
            Table(after) == map key | key in was && !Holds(slots[i], key.0, key.1) :: was[key]
  {
    var after := slots[i := EMPTY_SLOT];
    forall key: Key2
      ensures key in Keys(after) <==> key in Keys(slots) && !Holds(slots[i], key.0, key.1)
      ensures key in Keys(after) ==> Lookup(after, key) == Lookup(slots, key)
    {
      ClearedLookup(slots, i, key);
    }
  }

  /** Clearing a slot unbinds its key. */
  lemma UnboundTable(slots: seq<Slot>, i: nat)
    requires KeysDistinct(slots) && i < |slots|
    ensures KeysDistinct(slots[i := EMPTY_SLOT])
    ensures Table(slots[i := EMPTY_SLOT]) ==
      if slots[i].active then Table(slots) - {(slots[i].fd, slots[i].subId)} else Table(slots)
  {
    var after := slots[i := EMPTY_SLOT];
    forall j: nat, k: nat | j < k < |after|
      ensures Apart(after, j, k)
    {
      assert Apart(slots, j, k);
    }
    UnboundKeys(slots, i);
  }

  lemma SameActivity(slots: seq<Slot>, after: seq<Slot>)
    requires |after| == |slots|
    requires forall i :: 0 <= i < |slots| ==>
      after[i].active == slots[i].active && (slots[i].active ==> after[i].fd == slots[i].fd)
    ensures Active(after, |slots|) == Active(slots, |slots|)
    ensures forall fd :: OfConn(after, fd, |slots|) == OfConn(slots, fd, |slots|)
  {
  }

  lemma FewerPerConn(slots: seq<Slot>, after: seq<Slot>)
    requires |after| == |slots| && Sound(slots)
    requires forall i :: 0 <= i < |slots| ==> after[i] == slots[i] || after[i] == EMPTY_SLOT
    ensures forall fd :: |OfConn(after, fd, |after|)| <= MAX_PER_CONN
  {
    forall fd
      ensures |OfConn(after, fd, |after|)| <= MAX_PER_CONN
    {
      SubsetSize(OfConn(after, fd, |after|), OfConn(slots, fd, |slots|));
    }
  }

  lemma {:induction false} ReplaceSound(slots: seq<Slot>, i: nat, slot: Slot)
    requires Sound(slots) && i < |slots| && slot.active && Holds(slots[i], slot.fd, slot.subId)
    requires |slot.filters| <= MAX_FILTERS
    ensures Sound(slots[i := slot]) && Active(slots[i := slot], |slots|) == Active(slots, |slots|)
  {
    var after := slots[i := slot];
    BoundTable(slots, i, slot);
    SameActivity(slots, after);
    forall fd
      ensures |OfConn(after, fd, |slots|)| <= MAX_PER_CONN
    {
      assert OfConn(after, fd, |slots|) == OfConn(slots, fd, |slots|);
    }
  }

  lemma {:induction false} InsertSound(slots: seq<Slot>, i: nat, slot: Slot)
    requires Sound(slots) && i < |slots| && !slots[i].active && slot.active && |slot.filters| <= MAX_FILTERS
    requires FindFrom(slots, slot.fd, slot.subId, 0).None? && |OfConn(slots, slot.fd, |slots|)| < MAX_PER_CONN
    ensures Sound(slots[i := slot]) && |Active(slots[i := slot], |slots|)| == |Active(slots, |slots|)| + 1
  {
    var after := slots[i := slot];
    BoundTable(slots, i, slot);
    ActiveFilled(slots, i, slot);
    forall fd
      ensures |OfConn(after, fd, |slots|)| <= MAX_PER_CONN
    {
      assert fd != slot.fd ==> OfConn(after, fd, |slots|) == OfConn(slots, fd, |slots|);
    }
  }

  lemma {:induction false} EmptySound(slots: seq<Slot>, i: nat)
    requires Sound(slots) && i < |slots| && !slots[i].active
    ensures Sound(slots[i := EMPTY_SLOT]) && Active(slots[i := EMPTY_SLOT], |slots|) == Active(slots, |slots|)
  {
    UnboundTable(slots, i);
    SameActivity(slots, slots[i := EMPTY_SLOT]);
    FewerPerConn(slots, slots[i := EMPTY_SLOT]);
  }

  lemma {:induction false} AddSound(slots: seq<Slot>, fd: int, id: string, filters: seq<Filter>, failAt: Option<nat>)
    requires Sound(slots) && |id| <= MAX_ID_LEN
    ensures var after := Add(slots, fd, id, filters, failAt);
            && Sound(after)
            && |Active(after, |slots|)| == |Active(slots, |slots|)| +
                 if FindFrom(slots, fd, id, 0).None? && AddStatus(slots, fd, id, filters, failAt) == SubOk then 1 else 0
  {
    TakeIs(id, MAX_ID_LEN);
    var after := Add(slots, fd, id, filters, failAt);
    if FindFrom(slots, fd, id, 0).Some? {
      var i := FindFrom(slots, fd, id, 0).value;
      ReplaceSound(slots, i, after[i]);
    } else if |OfConn(slots, fd, |slots|)| < MAX_PER_CONN && FreeFrom(slots, 0).Some? {
      var i := FreeFrom(slots, 0).value;
      if Copied(filters, failAt).Some? {
        InsertSound(slots, i, after[i]);
      } else {
        EmptySound(slots, i);
      }
    }
  }

  lemma {:induction false} RemoveSound(slots: seq<Slot>, fd: int, id: string)
    requires Sound(slots)
    ensures Sound(Remove(slots, fd, id))
    ensures |Active(Remove(slots, fd, id), |slots|)| ==
      |Active(slots, |slots|)| - if FindFrom(slots, fd, id, 0).Some? then 1 else 0
  {
    if FindFrom(slots, fd, id, 0).Some? {
      var i := FindFrom(slots, fd, id, 0).value;
      UnboundTable(slots, i);
      ActiveCleared(slots, i);
      FewerPerConn(slots, Remove(slots, fd, id));
    }
  }

  lemma RemoveAllSound(slots: seq<Slot>, fd: int, n: nat)
    requires Sound(slots)
    ensures Sound(RemoveAll(slots, fd, n))
  {
    var after := RemoveAll(slots, fd, n);
    forall j: nat, k: nat | j < k < |after|
      ensures Apart(after, j, k)
    {
      assert Apart(slots, j, k);
    }
    FewerPerConn(slots, after);
  }

  // ---------------------------------------------------------------- the table in place

  class SubManager {
    const subs: array<Slot>
    var activeCount: nat

    ghost predicate Valid()
      reads this, subs
    {
      subs.Length == MAX_SUBS && Sound(subs[..]) && activeCount == |Active(subs[..], MAX_SUBS)|
    }

    constructor ()
      ensures Valid() && fresh(subs) && Table(subs[..]) == map[] && activeCount == 0
      ensures forall i :: 0 <= i < MAX_SUBS ==> subs[i] == EMPTY_SLOT
    {
      subs := new Slot[MAX_SUBS](_ => EMPTY_SLOT);
      activeCount := 0;
      new;
      assert forall fd :: OfConn(subs[..], fd, |subs[..]|) == {};
      assert Active(subs[..], MAX_SUBS) == {};
      assert Keys(subs[..]) == {};
    }

    method Find(fd: int, id: string) returns (r: Option<nat>)
      requires subs.Length == MAX_SUBS
      ensures r == FindFrom(subs[..], fd, id, 0)
    {
      for i := 0 to MAX_SUBS
        invariant FindFrom(subs[..], fd, id, i) == FindFrom(subs[..], fd, id, 0)
      {
        if subs[i].active && subs[i].fd == fd && subs[i].subId == id {
          return Some(i);
        }
      }
      return None;
    }

    method FindFreeSlot() returns (r: Option<nat>)
      requires subs.Length == MAX_SUBS
      ensures r == FreeFrom(subs[..], 0)
    {
      for i := 0 to MAX_SUBS
        invariant FreeFrom(subs[..], i) == FreeFrom(subs[..], 0)
      {
        if !subs[i].active {
          return Some(i);
        }
      }
      return None;
    }

    /** `sub_manager_count`, and the count inside an insertion. */
    method CountOf(fd: int) returns (n: nat)
      requires subs.Length == MAX_SUBS
      ensures n == |OfConn(subs[..], fd, MAX_SUBS)|
    {
      n := 0;
      assert OfConn(subs[..], fd, 0) == {};
      for i := 0 to MAX_SUBS
        invariant n == |OfConn(subs[..], fd, i)|
      {
        OfConnUp(subs[..], fd, i);
        if subs[i].active && subs[i].fd == fd {
          n := n + 1;
        }
      }
    }

    /** `sub_manager_add`. The router hands over ids of at most 64 characters. */
    method AddSub(fd: int, id: string, filters: seq<Filter>, failAt: Option<nat>) returns (r: SubStatus)
      requires Valid() && |id| <= MAX_ID_LEN
      modifies this, subs
      ensures Valid()
      ensures r == AddStatus(old(subs[..]), fd, id, filters, failAt)
      ensures subs[..] == Add(old(subs[..]), fd, id, filters, failAt)
    {
      ghost var s := subs[..];
      AddSound(s, fd, id, filters, failAt);
      var count := if |filters| > MAX_FILTERS then MAX_FILTERS else |filters|;
      var fails := failAt.Some? && failAt.value < count;
      TakeIs(filters, MAX_FILTERS);
      var existing := Find(fd, id);
      if existing.Some? {
        var i := existing.value;
        subs[i] := subs[i].(filters := [], eventsSent := 0);
        if fails {
          assert subs[..] == Add(s, fd, id, filters, failAt);
          return NoMemory;
        }
        subs[i] := subs[i].(filters := filters[..count]);
        assert subs[..] == Add(s, fd, id, filters, failAt);
        return SubOk;
      }
      var n := CountOf(fd);
      if n >= MAX_PER_CONN {
        return TooManySubs;
      }
      var free := FindFreeSlot();
      if free.None? {
        return NoMemory;
      }
      if fails {
        subs[free.value] := EMPTY_SLOT;
        return NoMemory;
      }
      subs[free.value] := Slot(Take(id, MAX_ID_LEN), fd, filters[..count], 0, true);
      activeCount := activeCount + 1;
      return SubOk;
    }

    method RemoveSub(fd: int, id: string) returns (r: SubStatus)
      requires Valid()
      modifies this, subs
      ensures Valid()
      ensures r == if (fd, id) in Table(old(subs[..])) then SubOk else UnknownSub
      ensures subs[..] == Remove(old(subs[..]), fd, id)
    {
      KeysFound(subs[..], fd, id);
      RemoveSound(subs[..], fd, id);
      var found := Find(fd, id);
      if found.None? {
        return UnknownSub;
      }
      subs[found.value] := EMPTY_SLOT;
      activeCount := activeCount - 1;
      return SubOk;
    }

    method RemoveConn(fd: int)
      requires Valid()
      modifies this, subs
      ensures Valid()
      ensures subs[..] == RemoveAll(old(subs[..]), fd, MAX_SUBS)
    {
      ghost var s := subs[..];
      RemoveAllSound(s, fd, MAX_SUBS);
      assert RemoveAll(s, fd, 0) == s;
      for i := 0 to MAX_SUBS
        invariant subs[..] == RemoveAll(s, fd, i)
        invariant activeCount == |Active(subs[..], MAX_SUBS)|
      {
        if subs[i].active && subs[i].fd == fd {
          ActiveCleared(subs[..], i);
          subs[i] := EMPTY_SLOT;
          activeCount := activeCount - 1;
        }
        assert subs[..] == RemoveAll(s, fd, i + 1);
      }
    }

    method MatchEvent(ev: Event, onEmpty: bool) returns (matches: seq<Match>)
      requires Valid()
      ensures matches == Matching(subs[..], ev, onEmpty, MAX_SUBS) && |matches| <= MAX_SUBS
    {
      matches := [];
      for i := 0 to MAX_SUBS
        invariant matches == Matching(subs[..], ev, onEmpty, i)
      {
        if !subs[i].active {
          continue;
        }
        if AcceptsAny(subs[i].filters, ev, onEmpty) {
          matches := matches + [Match(subs[i].fd, subs[i].subId)];
        }
      }
    }
  }

  // ---------------------------------------------------------------- what the operations mean

  /** An add replaces or inserts one key; a failed insert changes nothing; a failed update
      leaves the key with no filters. */
  lemma AddRefines(slots: seq<Slot>, fd: int, id: string, filters: seq<Filter>, failAt: Option<nat>)
    requires KeysDistinct(slots) && |id| <= 64
    ensures var was := Table(slots);
            Table(Add(slots, fd, id, filters, failAt)) ==
              match AddStatus(slots, fd, id, filters, failAt)
              case SubOk => was[(fd, id) := Take(filters, 4)]
              case NoMemory => if (fd, id) in was then was[(fd, id) := []] else was
              case TooManySubs => was
              case UnknownSub => was
  {
    KeysFound(slots, fd, id);
    TakeIs(id, MAX_ID_LEN);
    var after := Add(slots, fd, id, filters, failAt);
    if FindFrom(slots, fd, id, 0).Some? {
      var i := FindFrom(slots, fd, id, 0).value;
      BoundTable(slots, i, after[i]);
    } else if |OfConn(slots, fd, |slots|)| < MAX_PER_CONN && FreeFrom(slots, 0).Some? {
      var i := FreeFrom(slots, 0).value;
      if Copied(filters, failAt).Some? {
        BoundTable(slots, i, after[i]);
      } else {
        UnboundTable(slots, i);
      }
    }
  }

  /** The 64-character limit on ids matters: the key of a longer id is stored cut, is never
      found again, and collides exactly when the cut id is already there. */
  lemma {:induction false} LongIdCollides(slots: seq<Slot>, fd: int, id: string, filters: seq<Filter>,
                                          failAt: Option<nat>)
    requires KeysDistinct(slots) && AddStatus(slots, fd, id, filters, failAt) == SubOk
    ensures KeysDistinct(Add(slots, fd, id, filters, failAt))
       <==> (FindFrom(slots, fd, id, 0).Some? || FindFrom(slots, fd, Take(id, 64), 0).None?)
  {
    var after := Add(slots, fd, id, filters, failAt);
    if FindFrom(slots, fd, id, 0).Some? {
      BoundTable(slots, FindFrom(slots, fd, id, 0).value, after[FindFrom(slots, fd, id, 0).value]);
    } else {
      var i := FreeFrom(slots, 0).value;
      if FindFrom(slots, fd, Take(id, MAX_ID_LEN), 0).None? {
        BoundTable(slots, i, after[i]);
      } else {
        var j := FindFrom(slots, fd, Take(id, MAX_ID_LEN), 0).value;
        assert !Apart(after, if i < j then i else j, if i < j then j else i);
      }
    }
  }

  lemma RemoveRefines(slots: seq<Slot>, fd: int, id: string)
    requires KeysDistinct(slots)
    ensures Table(Remove(slots, fd, id)) == Table(slots) - {(fd, id)}
  {
    KeysFound(slots, fd, id);
    if FindFrom(slots, fd, id, 0).Some? {
      UnboundTable(slots, FindFrom(slots, fd, id, 0).value);
    }
  }

  /** Removing a connection deletes exactly its keys. */
  lemma RemoveAllRefines(slots: seq<Slot>, fd: int)
    requires KeysDistinct(slots)
    ensures Table(RemoveAll(slots, fd, |slots|)) == map key | key in Table(slots) && key.0 != fd :: Table(slots)[key]
  {
    var after := RemoveAll(slots, fd, |slots|);
    forall j: nat, k: nat | j < k < |after|
      ensures Apart(after, j, k)
    {
      assert Apart(slots, j, k);
    }
    forall key: Key2
      ensures key in Keys(after) <==> key in Keys(slots) && key.0 != fd
      ensures key in Keys(after) ==> Lookup(after, key) == Lookup(slots, key)
    {
      KeysFound(slots, key.0, key.1);
      KeysFound(after, key.0, key.1);
      if FindFrom(after, key.0, key.1, 0).Some? {
        OnlySlot(slots, key.0, key.1, FindFrom(after, key.0, key.1, 0).value);
      }
      if FindFrom(slots, key.0, key.1, 0).Some? && key.0 != fd {
        assert Holds(after[FindFrom(slots, key.0, key.1, 0).value], key.0, key.1);
      }
    }
  }

  // ---------------------------------------------------------------- quotas, by keys

  /** The keys a connection has in the table. */
  function KeysOf(slots: seq<Slot>, fd: int): set<Key2> {
    set key | key in Table(slots) && key.0 == fd
  }

  function KeysBelow(slots: seq<Slot>, fd: int, n: nat): set<Key2> {
    set i: nat | i < n && i < |slots| && slots[i].active && slots[i].fd == fd :: (fd, slots[i].subId)
  }

  lemma KeysBelowUp(slots: seq<Slot>, fd: int, n: nat)
    requires KeysDistinct(slots) && n < |slots|
    ensures var mine := slots[n].active && slots[n].fd == fd;
            && KeysBelow(slots, fd, n + 1) == KeysBelow(slots, fd, n) + (if mine then {(fd, slots[n].subId)} else {})
            && (mine ==> (fd, slots[n].subId) !in KeysBelow(slots, fd, n))
  {
    forall i: nat | i < n && slots[i].active && slots[i].fd == fd && slots[n].active && slots[n].fd == fd
      ensures slots[i].subId != slots[n].subId
    {
      assert Apart(slots, i, n);
    }
  }

  lemma {:induction false} KeysBelowCount(slots: seq<Slot>, fd: int, n: nat)
    requires KeysDistinct(slots) && n <= |slots|
    ensures |KeysBelow(slots, fd, n)| == |OfConn(slots, fd, n)|
  {
    if n == 0 {
      assert KeysBelow(slots, fd, 0) == {} && OfConn(slots, fd, 0) == {};
    } else {
      var m := n - 1;
      KeysBelowCount(slots, fd, m);
      OfConnUp(slots, fd, m);
      KeysBelowUp(slots, fd, m);
    }
  }

  /** The quota counts the keys of the connection. */
  lemma {:induction false} QuotaIsKeys(slots: seq<Slot>, fd: int)
    requires KeysDistinct(slots)
    ensures |OfConn(slots, fd, |slots|)| == |KeysOf(slots, fd)|
  {
    KeysBelowCount(slots, fd, |slots|);
    assert KeysBelow(slots, fd, |slots|) == KeysOf(slots, fd);
  }

  // ---------------------------------------------------------------- fan-out

  /** The subscription wants the event. */
  predicate Wants(slots: seq<Slot>, key: Key2, ev: Event, onEmpty: bool) {
    key in Table(slots) && AcceptsAny(Table(slots)[key], ev, onEmpty)
  }

  lemma CountSnoc(ms: seq<Match>, x: Match, m: Match)
    ensures multiset(ms + [x])[m] == multiset(ms)[m] + if x == m then 1 else 0
  {
  }

  /** How often the first n slots match a key. */
  function Times(slots: seq<Slot>, ev: Event, onEmpty: bool, m: Match, n: nat): nat
    requires n <= |slots|
  {
    multiset(Matching(slots, ev, onEmpty, n))[m]
  }

  lemma MatchStep(slots: seq<Slot>, ev: Event, onEmpty: bool, fd: int, id: string, n: nat)
    requires n < |slots|
    ensures Times(slots, ev, onEmpty, Match(fd, id), n + 1) == Times(slots, ev, onEmpty, Match(fd, id), n)
      + if Holds(slots[n], fd, id) && AcceptsAny(slots[n].filters, ev, onEmpty) then 1 else 0
  {
    CountSnoc(Matching(slots, ev, onEmpty, n), Match(slots[n].fd, slots[n].subId), Match(fd, id));
  }

  lemma {:induction false} MatchedUpTo(slots: seq<Slot>, ev: Event, onEmpty: bool, fd: int, id: string, i: nat, n: nat)
    requires n <= |slots| && i <= |slots|
    requires forall j :: 0 <= j < |slots| ==> (Holds(slots[j], fd, id) <==> j == i)
    ensures Times(slots, ev, onEmpty, Match(fd, id), n)
         == if i < n && AcceptsAny(slots[i].filters, ev, onEmpty) then 1 else 0
  {
    if n > 0 {
      var m := n - 1;
      MatchedUpTo(slots, ev, onEmpty, fd, id, i, m);
      MatchStep(slots, ev, onEmpty, fd, id, m);
      assert Holds(slots[m], fd, id) <==> m == i;
    }
  }

  /** Fan-out exactness: each subscription that wants the event is matched once, every
      other not at all. */
  lemma {:induction false} MatchedOnce(slots: seq<Slot>, ev: Event, onEmpty: bool, fd: int, id: string)
    requires KeysDistinct(slots)
    ensures multiset(Matching(slots, ev, onEmpty, |slots|))[Match(fd, id)] ==
      if Wants(slots, (fd, id), ev, onEmpty) then 1 else 0
  {
    KeysFound(slots, fd, id);
    if FindFrom(slots, fd, id, 0).Some? {
      var i := FindFrom(slots, fd, id, 0).value;
      OnlySlot(slots, fd, id, i);
      forall j | 0 <= j < |slots| && Holds(slots[j], fd, id)
        ensures j == i
      {
        OnlySlot(slots, fd, id, j);
      }
      MatchedUpTo(slots, ev, onEmpty, fd, id, i, |slots|);
    } else {
      MatchedUpTo(slots, ev, onEmpty, fd, id, |slots|, |slots|);
    }
  }
}
