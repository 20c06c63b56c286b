/** The storage engine as a state machine on values: the index in RAM, the event files,
    and the durable snapshot of the index. `Engine` refines each step on an array. */
module StoreSpec {
  import opened Bytes
  import opened Events
  import opened Index

  /** A file holds the serialization of an event, or bytes that do not parse. */
  datatype File = Whole(event: Event) | Partial

  type Files = map<Path, File>
  datatype Snapshot = Snapshot(entries: seq<Entry>, next: u32)
  datatype Store = Store(index: seq<Entry>, next: u32, files: Files, snap: Snapshot)
  datatype Status = Ok | Full | Duplicate | NotFound | Io | NoMem | Serialize

  /** What the environment does to a save once the index has accepted it. */
  datatype Fate = Written | OutOfMemory | NotSerializable | CannotOpen | ShortWrite

  /** One stored event as a client can observe it. */
  datatype Saved = Saved(event: Event, expiresAt: u32, serial: nat)

  // ---------------------------------------------------------------- what is visible

  /** The event of an entry that is live, unexpired at `t`, and whose file loads. */
  function ShowOne(e: Entry, files: Files, t: int): seq<Saved> {
    if !e.deleted && !Expired(e, t) && PathOf(e) in files && files[PathOf(e)].Whole?
    then [Saved(files[PathOf(e)].event, e.expiresAt, e.fileIndex)]
    else []
  }

  /** Everything visible at `t`, oldest save first. */
  function Shown(index: seq<Entry>, files: Files, t: int): seq<Saved> {
    if index == [] then [] else ShowOne(index[0], files, t) + Shown(index[1..], files, t)
  }

  /** The naive scan: the visible events that pass the filter, newest save first. */
  function Newest(list: seq<Saved>, f: Filter): seq<Event> {
    if list == [] then []
    else if Passes(f, list[0].event) then Newest(list[1..], f) + [list[0].event]
    else Newest(list[1..], f)
  }

  lemma {:induction false} NewestVisible(list: seq<Saved>, f: Filter)
    ensures forall e :: e in Newest(list, f) <==> exists x: Saved :: x in list && x.event == e && Passes(f, e)
  {
    if list != [] {
      NewestVisible(list[1..], f);
      assert list == [list[0]] + list[1..];
    }
  }

  function NewestAccepted(list: seq<Saved>, f: Filter): seq<Event> {
    if list == [] then []
    else if Accepts(f, list[0].event) then NewestAccepted(list[1..], f) + [list[0].event]
    else NewestAccepted(list[1..], f)
  }

  /** The naive scan in the terms of NIP-01: for filters the index test reads correctly,
      the visible events the filter accepts, newest save first. */
  lemma {:induction false} PassesIsAccepts(list: seq<Saved>, f: Filter)
    requires FullLength(f) && !UntilMisread(f) && forall x :: x in list ==> InRange(x.event)
    ensures Newest(list, f) == NewestAccepted(list, f)
  {
    if list != [] {
      PassesIsAccepts(list[1..], f);
      if Accepts(f, list[0].event) { IndexTestComplete(f, list[0].event); }
    }
  }

  /** Conditions by which lists of saved events are thinned. */
  datatype Cond = Unexpired(t: int) | OtherId(id: Key) | Before(serial: nat) | NoneOf(serials: set<int>)

  predicate Holds(c: Cond, x: Saved) {
    match c
    case Unexpired(t) => !(0 < x.expiresAt < t)
    case OtherId(id) => x.event.id != id
    case Before(serial) => x.serial < serial
    case NoneOf(serials) => x.serial !in serials
  }

  function Keep(list: seq<Saved>, c: Cond): seq<Saved> {
    if list == [] then []
    else if Holds(c, list[0]) then [list[0]] + Keep(list[1..], c)
    else Keep(list[1..], c)
  }

  lemma {:induction false} ShownAppend(a: seq<Entry>, b: seq<Entry>, files: Files, t: int)
    ensures Shown(a + b, files, t) == Shown(a, files, t) + Shown(b, files, t)
  {
    if a == [] {
      assert a + b == b;
    } else {
      assert (a + b)[1..] == a[1..] + b;
      ShownAppend(a[1..], b, files, t);
    }
  }

  lemma {:induction false} NewestAppend(a: seq<Saved>, b: seq<Saved>, f: Filter)
    ensures Newest(a + b, f) == Newest(b, f) + Newest(a, f)
  {
    if a == [] {
      assert a + b == b;
    } else {
      assert (a + b)[1..] == a[1..] + b;
      NewestAppend(a[1..], b, f);
    }
  }

  lemma {:induction false} KeepAppend(a: seq<Saved>, b: seq<Saved>, c: Cond)
    ensures Keep(a + b, c) == Keep(a, c) + Keep(b, c)
  {
    if a == [] {
      assert a + b == b;
    } else {
      assert (a + b)[1..] == a[1..] + b;
      KeepAppend(a[1..], b, c);
    }
  }

  lemma {:induction false} KeepCommutes(list: seq<Saved>, c: Cond, d: Cond)
    ensures Keep(Keep(list, c), d) == Keep(Keep(list, d), c)
  {
    if list != [] {
      var x, rest := list[0], list[1..];
      KeepCommutes(rest, c, d);
      assert ([x] + Keep(rest, c))[1..] == Keep(rest, c);
      assert ([x] + Keep(rest, d))[1..] == Keep(rest, d);
    }
  }

  lemma {:induction false} KeepAll(list: seq<Saved>, c: Cond)
    requires forall x :: x in list ==> Holds(c, x)
    ensures Keep(list, c) == list
  {
    if list != [] {
      KeepAll(list[1..], c);
    }
  }

  lemma {:induction false} KeepNone(list: seq<Saved>, c: Cond)
    requires forall x :: x in list ==> !Holds(c, x)
    ensures Keep(list, c) == []
  {
    if list != [] {
      KeepNone(list[1..], c);
    }
  }

  lemma {:induction false} KeepMembers(list: seq<Saved>, c: Cond)
    ensures forall x :: x in Keep(list, c) <==> x in list && Holds(c, x)
  {
    if list != [] {
      KeepMembers(list[1..], c);
      assert list == list[..1] + list[1..];
    }
  }

  /** A visible event comes from an entry of the index, and conversely. */
  lemma {:induction false} ShownMembers(index: seq<Entry>, files: Files, t: int)
    ensures forall x :: x in Shown(index, files, t)
              <==> exists i :: 0 <= i < |index| && ShowOne(index[i], files, t) == [x]
  {
    if index != [] {
      ShownMembers(index[1..], files, t);
      forall x
        ensures x in Shown(index, files, t)
           <==> exists i :: 0 <= i < |index| && ShowOne(index[i], files, t) == [x]
      {
        if x in Shown(index[1..], files, t) {
          var i :| 0 <= i < |index[1..]| && ShowOne(index[1..][i], files, t) == [x];
          assert ShowOne(index[i + 1], files, t) == [x];
        }
        if i :| 0 <= i < |index| && ShowOne(index[i], files, t) == [x] {
          if i > 0 { assert index[1..][i - 1] == index[i]; }
        }
      }
    }
  }

  /** Two indexes that show the same entry by entry show the same list. */
  lemma {:induction false} ShownSame(a: seq<Entry>, fa: Files, b: seq<Entry>, fb: Files, t: int)
    requires |a| == |b|
    requires forall i :: 0 <= i < |a| ==> ShowOne(b[i], fb, t) == ShowOne(a[i], fa, t)
    ensures Shown(b, fb, t) == Shown(a, fa, t)
  {
    if a != [] {
      assert ShowOne(b[0], fb, t) == ShowOne(a[0], fa, t);
      forall i | 0 <= i < |a[1..]|
        ensures ShowOne(b[1..][i], fb, t) == ShowOne(a[1..][i], fa, t)
      {
        assert a[1..][i] == a[i + 1] && b[1..][i] == b[i + 1];
      }
      ShownSame(a[1..], fa, b[1..], fb, t);
    }
  }

  /** Thinning entry by entry thins the list. */
  lemma {:induction false} ShownKeep(a: seq<Entry>, fa: Files, b: seq<Entry>, fb: Files, t: int, c: Cond)
    requires |a| == |b|
    requires forall i :: 0 <= i < |a| ==> ShowOne(b[i], fb, t) == Keep(ShowOne(a[i], fa, t), c)
    ensures Shown(b, fb, t) == Keep(Shown(a, fa, t), c)
  {
    if a != [] {
      assert ShowOne(b[0], fb, t) == Keep(ShowOne(a[0], fa, t), c);
      forall i | 0 <= i < |a[1..]|
        ensures ShowOne(b[1..][i], fb, t) == Keep(ShowOne(a[1..][i], fa, t), c)
      {
        assert a[1..][i] == a[i + 1] && b[1..][i] == b[i + 1];
      }
      ShownKeep(a[1..], fa, b[1..], fb, t, c);
      KeepAppend(ShowOne(a[0], fa, t), Shown(a[1..], fa, t), c);
    }
  }

  // ---------------------------------------------------------------- the invariant

  predicate InOrder(index: seq<Entry>, i: nat, j: nat)
    requires i < |index| && j < |index|
  {
    index[i].fileIndex < index[j].fileIndex
  }

  /** File indices strictly rise along the index and stay below the next one. */
  ghost predicate Rising(index: seq<Entry>, next: int) {
    && (forall i: nat, j: nat :: i < j < |index| ==> InOrder(index, i, j))
    && (forall i :: 0 <= i < |index| ==> index[i].fileIndex < next)
  }

  predicate IdsDiffer(index: seq<Entry>, i: nat, j: nat)
    requires i < |index| && j < |index|
  {
    index[i].deleted || index[j].deleted || index[i].id != index[j].id
  }

  /** No two live entries carry the same id. */
  ghost predicate LiveDistinct(index: seq<Entry>) {
    forall i: nat, j: nat :: i < j < |index| ==> IdsDiffer(index, i, j)
  }

  lemma SerialsApart(index: seq<Entry>, next: int, i: nat, j: nat)
    requires Rising(index, next) && i < |index| && j < |index|
    ensures index[i].fileIndex == index[j].fileIndex ==> i == j
  {
    if i < j { assert InOrder(index, i, j); }
    if j < i { assert InOrder(index, j, i); }
  }

  lemma LiveApart(index: seq<Entry>, i: nat, j: nat)
    requires LiveDistinct(index) && i < |index| && j < |index|
    ensures !index[i].deleted && !index[j].deleted && index[i].id == index[j].id ==> i == j
  {
    if i < j { assert IdsDiffer(index, i, j); }
    if j < i { assert IdsDiffer(index, j, i); }
  }

  /** An entry whose file exists is live, and the file holds the event it describes. */
  ghost predicate FileOk(e: Entry, files: Files) {
    PathOf(e) in files ==>
      !e.deleted && files[PathOf(e)].Whole? && Describes(e, files[PathOf(e)].event)
  }

  ghost predicate FilesAgree(index: seq<Entry>, files: Files) {
    forall i :: 0 <= i < |index| ==> FileOk(index[i], files)
  }

  ghost predicate Sound(index: seq<Entry>, next: int, files: Files) {
    Rising(index, next) && LiveDistinct(index) && FilesAgree(index, files)
  }

  ghost predicate Inv(s: Store, cap: nat) {
    match s
    case Store(index, next, files, Snapshot(entries, snapNext)) =>
      && |index| <= cap && |entries| <= cap && snapNext <= next
      && Sound(index, next, files) && Sound(entries, snapNext, files)
  }

  // ---------------------------------------------------------------- tombstones

  /** Positions `w` get the tombstone flag; nothing else changes or moves. */
  function Bury(index: seq<Entry>, w: set<nat>): (r: seq<Entry>)
    ensures |r| == |index|
  {
    seq(|index|, i requires 0 <= i < |index| =>
      if i in w then index[i].(deleted := true) else index[i])
  }

  function PathsAt(index: seq<Entry>, w: set<nat>): set<Path> {
    set i | i in w && i < |index| :: PathOf(index[i])
  }

  /** Tombstones positions `w` and unlinks their files. */
  function BuryAll(s: Store, w: set<nat>): Store {
    s.(index := Bury(s.index, w), files := s.files - PathsAt(s.index, w))
  }

  /** The live entries of [lo, hi) that have expired: what `mark_entry_expired` is called on. */
  function Stale(index: seq<Entry>, lo: nat, hi: nat, now: int): set<nat> {
    set i: nat | lo <= i < hi && i < |index| && !index[i].deleted && Expired(index[i], now)
  }

  function Persist(s: Store): Store {
    s.(snap := Snapshot(s.index, s.next))
  }

  lemma BuryPathKept(index: seq<Entry>, next: int, w: set<nat>, i: nat)
    requires Rising(index, next) && i < |index| && i !in w
    ensures PathOf(index[i]) !in PathsAt(index, w)
  {
    forall j | j in w && j < |index|
      ensures PathOf(index[j]) != PathOf(index[i])
    {
      SerialsApart(index, next, i, j);
    }
  }

  /** Burying hides exactly the buried positions: unlinking one entry's file never
      takes away another entry's. */
  lemma BuryShowsRest(index: seq<Entry>, next: int, files: Files, w: set<nat>, t: int, i: nat)
    requires Rising(index, next) && i < |index|
    ensures ShowOne(Bury(index, w)[i], files - PathsAt(index, w), t)
         == if i in w then [] else ShowOne(index[i], files, t)
  {
    if i !in w {
      BuryPathKept(index, next, w, i);
    }
  }

  lemma BurySound(index: seq<Entry>, next: int, files: Files, w: set<nat>)
    requires Sound(index, next, files)
    ensures Sound(Bury(index, w), next, files - PathsAt(index, w))
  {
    var index', files' := Bury(index, w), files - PathsAt(index, w);
    forall i: nat, j: nat | i < j < |index'|
      ensures InOrder(index', i, j) && IdsDiffer(index', i, j)
    {
      assert InOrder(index, i, j) && IdsDiffer(index, i, j);
    }
    forall i | 0 <= i < |index'|
      ensures FileOk(index'[i], files')
    {
      assert FileOk(index[i], files);
      assert PathOf(index'[i]) == PathOf(index[i]);
      if i in w { assert PathOf(index[i]) in PathsAt(index, w); }
    }
  }

  lemma FewerFilesAgree(index: seq<Entry>, files: Files, gone: set<Path>)
    requires FilesAgree(index, files)
    ensures FilesAgree(index, files - gone)
  {
    forall i | 0 <= i < |index|
      ensures FileOk(index[i], files - gone)
    {
      assert FileOk(index[i], files);
    }
  }

  lemma BuryInv(s: Store, cap: nat, w: set<nat>)
    requires Inv(s, cap)
    ensures Inv(BuryAll(s, w), cap)
  {
    BurySound(s.index, s.next, s.files, w);
    FewerFilesAgree(s.snap.entries, s.files, PathsAt(s.index, w));
  }

  lemma PathsAtUnion(index: seq<Entry>, v: set<nat>, w: set<nat>)
    ensures PathsAt(index, v + w) == PathsAt(index, v) + PathsAt(index, w)
  {
  }

  /** Burying twice is burying the union. */
  lemma BuryTwice(s: Store, v: set<nat>, w: set<nat>)
    ensures BuryAll(BuryAll(s, v), w) == BuryAll(s, v + w)
  {
    var once := Bury(s.index, v);
    assert Bury(once, w) == Bury(s.index, v + w);
    PathsAtUnion(s.index, v, w);
    assert PathsAt(once, w) == PathsAt(s.index, w) by {
      assert forall i :: 0 <= i < |once| ==> PathOf(once[i]) == PathOf(s.index[i]);
    }
    assert s.files - PathsAt(s.index, v) - PathsAt(once, w) == s.files - PathsAt(s.index, v + w);
  }

  /** Burying expired entries changes nothing anyone can see from then on. */
  lemma {:induction false} BuryStaleUnseen(s: Store, cap: nat, w: set<nat>, now: int, t: int)
    requires Inv(s, cap) && now <= t
    requires forall i :: i in w && i < |s.index| ==> Expired(s.index[i], now)
    ensures Shown(BuryAll(s, w).index, BuryAll(s, w).files, t) == Shown(s.index, s.files, t)
  {
    var s' := BuryAll(s, w);
    forall i | 0 <= i < |s.index|
      ensures ShowOne(s'.index[i], s'.files, t) == ShowOne(s.index[i], s.files, t)
    {
      BuryShowsRest(s.index, s.next, s.files, w, t, i);
    }
    ShownSame(s.index, s.files, s'.index, s'.files, t);
  }

  /** The serials at a set of positions. */
  function SerialsAt(index: seq<Entry>, w: set<nat>): set<int> {
    set i | i in w && i < |index| :: index[i].fileIndex
  }

  /** In general, burying takes exactly the buried serials off the visible list. */
  lemma {:induction false} BuryThins(s: Store, cap: nat, w: set<nat>, t: int)
    requires Inv(s, cap)
    ensures Shown(BuryAll(s, w).index, BuryAll(s, w).files, t)
         == Keep(Shown(s.index, s.files, t), NoneOf(SerialsAt(s.index, w)))
  {
    var s', c := BuryAll(s, w), NoneOf(SerialsAt(s.index, w));
    forall i | 0 <= i < |s.index|
      ensures ShowOne(s'.index[i], s'.files, t) == Keep(ShowOne(s.index[i], s.files, t), c)
    {
      BuryShowsRest(s.index, s.next, s.files, w, t, i);
      assert i in w <==> s.index[i].fileIndex in SerialsAt(s.index, w) by {
        if s.index[i].fileIndex in SerialsAt(s.index, w) {
          var j :| j in w && j < |s.index| && s.index[j].fileIndex == s.index[i].fileIndex;
          SerialsApart(s.index, s.next, i, j);
        }
      }
    }
    ShownKeep(s.index, s.files, s'.index, s'.files, t, c);
  }

  // ---------------------------------------------------------------- lookup and delete

  /** The first live entry with the id (`find_index_entry`). */
  function FindFrom(index: seq<Entry>, id: Key, i: nat): (r: Option<nat>)
    requires i <= |index|
    ensures r.Some? ==> i <= r.value < |index| && index[r.value].id == id && !index[r.value].deleted
    ensures r.None? ==> forall j :: i <= j < |index| ==> index[j].deleted || index[j].id != id
    decreases |index| - i
  {
    if i == |index| then None
    else if index[i].id == id && !index[i].deleted then Some(i)
    else FindFrom(index, id, i + 1)
  }

  function Find(index: seq<Entry>, id: Key): (r: Option<nat>)
    ensures r.Some? ==> r.value < |index| && index[r.value].id == id && !index[r.value].deleted
    ensures r.None? <==> forall j :: 0 <= j < |index| ==> index[j].deleted || index[j].id != id
  {
    FindFrom(index, id, 0)
  }

  function Delete(s: Store, id: Key): Store {
    match Find(s.index, id)
    case None => s
    case Some(i) => Persist(BuryAll(s, {i}))
  }

  /** Deleting removes the id from what is visible, now and later, and nothing else. */
  lemma {:induction false} DeleteThins(s: Store, cap: nat, id: Key, t: int)
    requires Inv(s, cap)
    ensures Shown(Delete(s, id).index, Delete(s, id).files, t)
         == Keep(Shown(s.index, s.files, t), OtherId(id))
  {
    var s' := Delete(s, id);
    var w: set<nat> := if Find(s.index, id).Some? then {Find(s.index, id).value} else {};
    assert s'.index == Bury(s.index, w);
    assert s'.files == s.files - PathsAt(s.index, w);
    forall i | 0 <= i < |s.index|
      ensures ShowOne(s'.index[i], s'.files, t) == Keep(ShowOne(s.index[i], s.files, t), OtherId(id))
    {
      BuryShowsRest(s.index, s.next, s.files, w, t, i);
      assert FileOk(s.index[i], s.files);
      if Find(s.index, id).Some? { LiveApart(s.index, Find(s.index, id).value, i); }
    }
    ShownKeep(s.index, s.files, s'.index, s'.files, t, OtherId(id));
  }

  lemma DeleteInv(s: Store, cap: nat, id: Key)
    requires Inv(s, cap)
    ensures Inv(Delete(s, id), cap)
  {
    if Find(s.index, id).Some? {
      BuryInv(s, cap, {Find(s.index, id).value});
    }
  }

  // ---------------------------------------------------------------- save

  function SaveStatus(s: Store, cap: nat, ev: Event, fate: Fate): Status {
    if Find(s.index, ev.id).Some? then Duplicate
    else if |s.index| >= cap then Full
    else match fate
      case OutOfMemory => NoMem
      case NotSerializable => Serialize
      case CannotOpen => Io
      case ShortWrite => Io
      case Written => Ok
  }

  /** A save that returns OK, told without the function that answers: no live entry has the
      id, the index has room, and the file is written whole. Each failure likewise. */
  lemma SaveAnswers(s: Store, cap: nat, ev: Event, fate: Fate)
    ensures var status := SaveStatus(s, cap, ev, fate);
            var isNew := forall i :: 0 <= i < |s.index| ==> s.index[i].deleted || s.index[i].id != ev.id;
            && (status == Duplicate <==> !isNew)
            && (status == Full <==> isNew && |s.index| >= cap)
            && (status == NoMem <==> isNew && |s.index| < cap && fate == OutOfMemory)
            && (status == Serialize <==> isNew && |s.index| < cap && fate == NotSerializable)
            && (status == Io <==> isNew && |s.index| < cap && (fate == CannotOpen || fate == ShortWrite))
            && (status == Ok <==> isNew && |s.index| < cap && fate == Written)
  {
  }

  /** The file written and the entry appended. */
  function Appended(s: Store, ttl: u32, ev: Event, now: u32): Store {
    s.(index := s.index + [Digest(ev, ExpiryOf(now, ttl, ev.expiration), s.next)],
       next := ToU32(s.next + 1),
       files := s.files[PathFor(ev.id, s.next) := Whole(ev)])
  }

  /** An accepted save appends, and writes the snapshot when the count reaches a multiple
      of 10. A short write leaves no file behind. */
  function Save(s: Store, cap: nat, ttl: u32, ev: Event, now: u32, fate: Fate): Store {
    match SaveStatus(s, cap, ev, fate)
    case Ok =>
      var s' := Appended(s, ttl, ev, now);
      if |s'.index| % 10 == 0 then Persist(s') else s'
    case Io => if fate.ShortWrite? then s.(files := s.files - {PathFor(ev.id, s.next)}) else s
    case _ => s
  }

  /** A write at the next file index touches no file of the index or of the snapshot. */
  lemma FreshPath(index: seq<Entry>, next: u32, next': u32, files: Files, id: Key, file: File, t: int)
    requires Rising(index, next) && next <= next' && FilesAgree(index, files)
    ensures FilesAgree(index, files[PathFor(id, next') := file])
    ensures Shown(index, files[PathFor(id, next') := file], t) == Shown(index, files, t)
    ensures Shown(index, files - {PathFor(id, next')}, t) == Shown(index, files, t)
  {
    var p := PathFor(id, next');
    forall i | 0 <= i < |index|
      ensures PathOf(index[i]) != p
      ensures FileOk(index[i], files[p := file])
    {
      assert FileOk(index[i], files);
    }
    ShownSame(index, files, index, files[p := file], t);
    ShownSame(index, files, index, files - {p}, t);
  }

  /** Appending the entry of a fresh id under the next file index keeps an index sound. */
  lemma AppendSound(index: seq<Entry>, next: u32, files: Files, ev: Event, expiresAt: u32)
    requires Sound(index, next, files) && Find(index, ev.id).None?
    ensures Sound(index + [Digest(ev, expiresAt, next)], next + 1, files[PathFor(ev.id, next) := Whole(ev)])
  {
    var files' := files[PathFor(ev.id, next) := Whole(ev)];
    var index' := index + [Digest(ev, expiresAt, next)];
    FreshPath(index, next, next, files, ev.id, Whole(ev), 0);
    forall i: nat, j: nat | i < j < |index'|
      ensures InOrder(index', i, j) && IdsDiffer(index', i, j)
    {
      if j < |index| { assert InOrder(index, i, j) && IdsDiffer(index, i, j); }
    }
    forall i | 0 <= i < |index'|
      ensures FileOk(index'[i], files')
    {
      if i < |index| {
        assert FileOk(index[i], files');
      }
    }
  }

  lemma AppendedInv(s: Store, bound: nat, ttl: u32, ev: Event, now: u32)
    requires Inv(s, bound) && |s.index| < bound && s.next + 1 < TWO_32 && Find(s.index, ev.id).None?
    ensures Inv(Appended(s, ttl, ev, now), bound)
  {
    AppendSound(s.index, s.next, s.files, ev, ExpiryOf(now, ttl, ev.expiration));
    FreshPath(s.snap.entries, s.snap.next, s.next, s.files, ev.id, Whole(ev), 0);
  }

  lemma SaveInv(s: Store, bound: nat, cap: nat, ttl: u32, ev: Event, now: u32, fate: Fate)
    requires Inv(s, bound) && cap <= bound && s.next + 1 < TWO_32
    ensures Inv(Save(s, cap, ttl, ev, now, fate), bound)
  {
    match SaveStatus(s, cap, ev, fate)
    case Ok =>
      AppendedInv(s, bound, ttl, ev, now);
    case Io =>
      FewerFilesAgree(s.index, s.files, {PathFor(ev.id, s.next)});
      FewerFilesAgree(s.snap.entries, s.files, {PathFor(ev.id, s.next)});
    case _ =>
  }

  /** A save that returns OK adds its event at the end of what is visible until it expires;
      one that fails changes nothing visible. */
  lemma {:induction false} SaveShows(s: Store, cap: nat, ttl: u32, ev: Event, now: u32, fate: Fate, t: int)
    requires Inv(s, cap)
    ensures var s' := Save(s, cap, ttl, ev, now, fate);
            Shown(s'.index, s'.files, t) == Shown(s.index, s.files, t) +
              if SaveStatus(s, cap, ev, fate) == Ok
              then Keep([Saved(ev, ExpiryOf(now, ttl, ev.expiration), s.next)], Unexpired(t)) else []
  {
    FreshPath(s.index, s.next, s.next, s.files, ev.id, Whole(ev), t);
    if SaveStatus(s, cap, ev, fate) == Ok {
      var e := Digest(ev, ExpiryOf(now, ttl, ev.expiration), s.next);
      ShownAppend(s.index, [e], s.files[PathFor(ev.id, s.next) := Whole(ev)], t);
    }
  }

  lemma KeepOne(x: Saved, t: int)
    ensures Keep([x], Unexpired(t)) == if 0 < x.expiresAt < t then [] else [x]
  {
    assert Keep([x][1..], Unexpired(t)) == [];
  }

  // ---------------------------------------------------------------- purge and compaction

  function Purge(s: Store, now: int): Store {
    var w := Stale(s.index, 0, |s.index|, now);
    if w == {} then s else Persist(BuryAll(s, w))
  }

  /** The live entries in their old order. */
  function Live(index: seq<Entry>): (r: seq<Entry>)
    ensures |r| <= |index|
  {
    if index == [] then []
    else if index[0].deleted then Live(index[1..])
    else [index[0]] + Live(index[1..])
  }

  function Compact(s: Store): Store {
    if Live(s.index) == s.index then s else Persist(s.(index := Live(s.index)))
  }

  lemma {:induction false} LiveAppend(a: seq<Entry>, b: seq<Entry>)
    ensures Live(a + b) == Live(a) + Live(b)
  {
    if a == [] {
      assert a + b == b;
    } else {
      assert (a + b)[1..] == a[1..] + b;
      LiveAppend(a[1..], b);
    }
  }

  /** Compaction keeps exactly the live entries: same members, order, and nothing dead. */
  lemma {:induction false} LiveMembers(index: seq<Entry>)
    ensures forall e :: e in Live(index) <==> e in index && !e.deleted
  {
    if index != [] {
      LiveMembers(index[1..]);
      assert forall e :: e in index <==> e == index[0] || e in index[1..];
    }
  }

  lemma {:induction false} LiveLength(index: seq<Entry>)
    ensures |Live(index)| == |index| <==> Live(index) == index
  {
    if index != [] {
      LiveLength(index[1..]);
    }
  }

  lemma {:induction false} LiveShown(index: seq<Entry>, files: Files, t: int)
    ensures Shown(Live(index), files, t) == Shown(index, files, t)
  {
    if index != [] {
      LiveShown(index[1..], files, t);
      var head := if index[0].deleted then [] else [index[0]];
      ShownAppend(head, Live(index[1..]), files, t);
    }
  }

  /** Entry `e` may stand right before the entries of `rest`. */
  ghost predicate Precedes(e: Entry, rest: seq<Entry>) {
    forall x :: x in rest ==> e.fileIndex < x.fileIndex && (e.deleted || x.deleted || x.id != e.id)
  }

  lemma RisingTail(index: seq<Entry>, next: int)
    requires Rising(index, next) && LiveDistinct(index) && index != []
    ensures Rising(index[1..], next) && LiveDistinct(index[1..]) && Precedes(index[0], index[1..])
  {
    var rest := index[1..];
    forall x | x in rest
      ensures index[0].fileIndex < x.fileIndex && (index[0].deleted || x.deleted || x.id != index[0].id)
    {
      var i :| 0 <= i < |rest| && rest[i] == x;
      assert index[i + 1] == x;
      assert InOrder(index, 0, i + 1) && IdsDiffer(index, 0, i + 1);
    }
    forall i: nat, j: nat | i < j < |rest|
      ensures InOrder(rest, i, j) && IdsDiffer(rest, i, j)
    {
      assert InOrder(index, i + 1, j + 1) && IdsDiffer(index, i + 1, j + 1);
    }
  }

  lemma RisingCons(e: Entry, rest: seq<Entry>, next: int)
    requires Rising(rest, next) && LiveDistinct(rest) && e.fileIndex < next && Precedes(e, rest)
    ensures Rising([e] + rest, next) && LiveDistinct([e] + rest)
  {
    var all := [e] + rest;
    forall i: nat, j: nat | i < j < |all|
      ensures InOrder(all, i, j) && IdsDiffer(all, i, j)
    {
      assert all[j] == rest[j - 1] && all[j] in rest;
      if i > 0 { assert InOrder(rest, i - 1, j - 1) && IdsDiffer(rest, i - 1, j - 1); }
    }
  }

  lemma {:induction false} LiveRising(index: seq<Entry>, next: int)
    requires Rising(index, next) && LiveDistinct(index)
    ensures Rising(Live(index), next) && LiveDistinct(Live(index))
  {
    if index != [] {
      RisingTail(index, next);
      LiveRising(index[1..], next);
      LiveMembers(index[1..]);
      if !index[0].deleted {
        RisingCons(index[0], Live(index[1..]), next);
      }
    }
  }

  lemma CompactInv(s: Store, cap: nat)
    requires Inv(s, cap)
    ensures Inv(Compact(s), cap)
  {
    LiveRising(s.index, s.next);
    LiveMembers(s.index);
    forall i | 0 <= i < |Live(s.index)|
      ensures FileOk(Live(s.index)[i], s.files)
    {
      var e := Live(s.index)[i];
      assert e in s.index;
      var j :| 0 <= j < |s.index| && s.index[j] == e;
      assert FileOk(s.index[j], s.files);
    }
  }

  // ---------------------------------------------------------------- get

  /** `storage_get_event`: the loaded file of the live entry, expired or not. */
  function Get(s: Store, id: Key): Option<Event> {
    match Find(s.index, id)
    case None => None
    case Some(i) =>
      var p := PathOf(s.index[i]);
      if p in s.files && s.files[p].Whole? then Some(s.files[p].event) else None
  }

  // ---------------------------------------------------------------- restart

  /** What a boot reads back: the snapshot becomes the index; files are as they were. */
  function Recover(s: Store): Store {
    Store(s.snap.entries, s.snap.next, s.files, s.snap)
  }
}
