/** What a query answers, told without the functions that compute it. */
module Answers {
  import opened Bytes
  import opened Events
  import opened Index
  import opened StoreSpec
  import opened NvsLayout
  import opened StorageEngine
  import opened Runs

  /** Older saves come first. */
  ghost predicate Older(list: seq<Saved>) {
    forall i, j :: 0 <= i < j < |list| ==> list[i].serial < list[j].serial
  }

  ghost predicate After(list: seq<Saved>, serial: int) {
    forall i :: 0 <= i < |list| ==> serial < list[i].serial
  }

  lemma OlderCons(shown: seq<Saved>, rest: seq<Saved>, serial: int)
    requires |shown| <= 1 && (shown != [] ==> shown[0].serial == serial) && Older(rest) && After(rest, serial)
    ensures Older(shown + rest)
  {
  }

  /** What can be seen is listed in the order of the saves. */
  lemma {:induction false} ShownOlder(index: seq<Entry>, files: Files, t: int, next: int)
    requires Rising(index, next) && LiveDistinct(index)
    ensures Older(Shown(index, files, t))
  {
    if index != [] {
      var e, rest := index[0], Shown(index[1..], files, t);
      RisingTail(index, next);
      ShownOlder(index[1..], files, t, next);
      ShownMembers(index[1..], files, t);
      forall i | 0 <= i < |rest|
        ensures e.fileIndex < rest[i].serial
      {
        assert rest[i] in rest;
        var k :| 0 <= k < |index[1..]| && ShowOne(index[1..][k], files, t) == [rest[i]];
        assert index[1..][k] in index[1..];
      }
      OlderCons(ShowOne(e, files, t), rest, e.fileIndex);
    }
  }

  /** The events `r` are those of the saves `hits`, newest first. */
  ghost predicate NewestFirst(hits: seq<Saved>, r: seq<Event>) {
    && |hits| == |r| && (forall i :: 0 <= i < |r| ==> hits[i].event == r[i])
    && forall i, j :: 0 <= i < j < |hits| ==> hits[i].serial > hits[j].serial
  }

  lemma NewestFirstSnoc(hits: seq<Saved>, r: seq<Event>, x: Saved)
    requires NewestFirst(hits, r) && forall h :: h in hits ==> x.serial < h.serial
    ensures NewestFirst(hits + [x], r + [x.event])
  {
    assert forall i :: 0 <= i < |hits| ==> hits[i] in hits;
  }

  lemma {:induction false} NewestHits(list: seq<Saved>, f: Filter) returns (hits: seq<Saved>)
    requires Older(list)
    ensures NewestFirst(hits, Newest(list, f))
    ensures forall x :: x in hits <==> x in list && Passes(f, x.event)
  {
    hits := [];
    if list != [] {
      assert list == [list[0]] + list[1..];
      hits := NewestHits(list[1..], f);
      if Passes(f, list[0].event) {
        forall h | h in hits
          ensures list[0].serial < h.serial
        {
          var k :| 0 <= k < |list[1..]| && list[1..][k] == h;
          assert list[k + 1] == h;
        }
        NewestFirstSnoc(hits, Newest(list[1..], f), list[0]);
        hits := hits + [list[0]];
      }
    }
  }

  /** `r` answers a query that may return `most` events: those of the saves `hits`, newest
      first; all of them visible and passing; and if one that is visible and passes is left
      out, the answer is full and has only newer ones. */
  ghost predicate IsAnswer(list: seq<Saved>, f: Filter, most: nat, r: seq<Event>, hits: seq<Saved>) {
    && NewestFirst(hits, r) && |r| <= most
    && (forall h :: h in hits ==> h in list && Passes(f, h.event))
    && forall x :: x in list && Passes(f, x.event) && x !in hits ==>
         |r| == most && forall h :: h in hits ==> h.serial > x.serial
  }

  lemma FirstHits(list: seq<Saved>, f: Filter, most: nat, all: seq<Saved>) returns (hits: seq<Saved>)
    requires NewestFirst(all, Newest(list, f))
    requires forall x :: x in all <==> x in list && Passes(f, x.event)
    ensures IsAnswer(list, f, most, Take(Newest(list, f), most), hits)
  {
    hits := Take(all, most);
    forall x | x in all && x !in hits
      ensures |hits| == most && forall h :: h in hits ==> h.serial > x.serial
    {
      var j :| 0 <= j < |all| && all[j] == x;
      forall h | h in hits
        ensures h.serial > x.serial
      {
        var i :| 0 <= i < |hits| && hits[i] == h;
        assert hits[i] == all[i];
      }
    }
  }

  /** Every query on a sound store, whatever its limit: at most 500 events, the newest saves
      first, and none left out while there is room. */
  lemma {:induction false} QueryAnswers(s: Store, f: Filter, limit: nat, now: int) returns (hits: seq<Saved>)
    requires Inv(s, 5000)
    ensures IsAnswer(Shown(s.index, s.files, now), f, Min(limit, 500),
                    Take(Newest(Shown(s.index, s.files, now), f), Min(limit, MAX_RESULTS)), hits)
  {
    ShownOlder(s.index, s.files, now, s.next);
    var all := NewestHits(Shown(s.index, s.files, now), f);
    hits := FirstHits(Shown(s.index, s.files, now), f, Min(limit, 500), all);
  }
}
