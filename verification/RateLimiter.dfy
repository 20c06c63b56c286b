/** The fixed-window rate limiter: at most sixteen buckets found by linear scan, and the
    bound it puts on any trace of checks. */
module RateLimiter {
  import opened Bytes

  datatype RateType = EventRate | ReqRate
  datatype RateConfig = RateConfig(eventsPerMinute: u16, reqsPerMinute: u16)
  datatype Bucket = Bucket(fd: int, eventCount: u16, reqCount: u16, windowStart: u32, active: bool)
  const MAX_BUCKETS: nat := 16
  const WINDOW: nat := 60
  const NO_BUCKET := Bucket(0, 0, 0, 0, false)

  function Limit(config: RateConfig, ty: RateType): u16 {
    if ty.EventRate? then config.eventsPerMinute else config.reqsPerMinute
  }

  function Count(b: Bucket, ty: RateType): u16 {
    if ty.EventRate? then b.eventCount else b.reqCount
  }

  // ---------------------------------------------------------------- one bucket

  function Fresh(fd: int, at: nat): Bucket {
    Bucket(fd, 0, 0, ToU32(at), true)
  }

  /** A window at least 60 wrapped seconds old is replaced by one starting now. */
  function Rolled(b: Bucket, at: nat): Bucket {
    if ToU32(ToU32(at) - b.windowStart) >= WINDOW
    then b.(eventCount := 0, reqCount := 0, windowStart := ToU32(at)) else b
  }

  predicate HasRoom(b: Bucket, config: RateConfig, ty: RateType) {
    Count(b, ty) < Limit(config, ty)
  }

  function Charged(b: Bucket, config: RateConfig, ty: RateType): Bucket {
    if !HasRoom(b, config, ty) then b
    else if ty.EventRate? then b.(eventCount := b.eventCount + 1) else b.(reqCount := b.reqCount + 1)
  }

  // ---------------------------------------------------------------- the table

  function BucketFrom(buckets: seq<Bucket>, fd: int, i: nat): (r: Option<nat>)
    requires i <= |buckets|
    ensures r.Some? ==> i <= r.value < |buckets| && buckets[r.value].active && buckets[r.value].fd == fd
    ensures r.None? ==> forall j :: i <= j < |buckets| ==> !(buckets[j].active && buckets[j].fd == fd)
    decreases |buckets| - i
  {
    if i == |buckets| then None
    else if buckets[i].active && buckets[i].fd == fd then Some(i)
    else BucketFrom(buckets, fd, i + 1)
  }

  function FreeFrom(buckets: seq<Bucket>, i: nat): (r: Option<nat>)
    requires i <= |buckets|
    ensures r.Some? ==> i <= r.value < |buckets| && !buckets[r.value].active
    ensures r.None? ==> forall j :: i <= j < |buckets| ==> buckets[j].active
    decreases |buckets| - i
  {
    if i == |buckets| then None else if !buckets[i].active then Some(i) else FreeFrom(buckets, i + 1)
  }

  /** The slot `get_bucket` answers with: the fd's own, else a free one, else none. */
  function SlotFor(buckets: seq<Bucket>, fd: int): (r: Option<nat>)
    ensures r.Some? ==> r.value < |buckets|
  {
    if BucketFrom(buckets, fd, 0).Some? then BucketFrom(buckets, fd, 0) else FreeFrom(buckets, 0)
  }

  function Got(buckets: seq<Bucket>, fd: int, at: nat): seq<Bucket> {
    if BucketFrom(buckets, fd, 0).Some? then buckets
    else match FreeFrom(buckets, 0)
      case None => buckets
      case Some(i) => buckets[i := Fresh(fd, at)]
  }

  /** `rate_limiter_check`: the clock is read once for a new bucket (`t1`), once for the
      window (`t2`). */
  function AfterCheck(buckets: seq<Bucket>, config: RateConfig, fd: int, ty: RateType, t1: nat, t2: nat): seq<Bucket> {
    match SlotFor(buckets, fd)
    case None => buckets
    case Some(i) =>
      var got := Got(buckets, fd, t1);
      got[i := Charged(Rolled(got[i], t2), config, ty)]
  }

  predicate Allowed(buckets: seq<Bucket>, config: RateConfig, fd: int, ty: RateType, t1: nat, t2: nat) {
    match SlotFor(buckets, fd)
    case None => false
    case Some(i) => HasRoom(Rolled(Got(buckets, fd, t1)[i], t2), config, ty)
  }

  function AfterReset(buckets: seq<Bucket>, fd: int): seq<Bucket> {
    match BucketFrom(buckets, fd, 0)
    case None => buckets
    case Some(i) => buckets[i := buckets[i].(active := false)]
  }

  // ---------------------------------------------------------------- isolation

  /** At most one active bucket an fd. */
  ghost predicate OnePerFd(buckets: seq<Bucket>) {
    forall i: nat, j: nat :: i < j < |buckets| && buckets[i].active && buckets[j].active
      ==> buckets[i].fd != buckets[j].fd
  }

  function BucketOf(buckets: seq<Bucket>, fd: int): Option<Bucket> {
    match BucketFrom(buckets, fd, 0)
    case None => None
    case Some(i) => Some(buckets[i])
  }

  /** The fd has a bucket or can be given one. */
  predicate Available(buckets: seq<Bucket>, fd: int) {
    SlotFor(buckets, fd).Some?
  }

  lemma {:induction false} BucketOfIs(buckets: seq<Bucket>, fd: int, i: nat)
    requires OnePerFd(buckets) && i < |buckets| && buckets[i].active && buckets[i].fd == fd
    ensures BucketFrom(buckets, fd, 0) == Some(i) && BucketOf(buckets, fd) == Some(buckets[i])
  {
  }

  /** Changing the slot of one fd leaves every other fd's bucket as it was. */
  lemma {:induction false} SlotUpdate(buckets: seq<Bucket>, i: nat, b: Bucket, fd: int)
    requires OnePerFd(buckets) && i < |buckets| && (!buckets[i].active || buckets[i].fd == fd)
    requires b.active ==> b.fd == fd && (buckets[i].active || BucketFrom(buckets, fd, 0).None?)
    ensures OnePerFd(buckets[i := b])
    ensures forall g :: g != fd ==> BucketOf(buckets[i := b], g) == BucketOf(buckets, g)
    ensures b.active ==> BucketOf(buckets[i := b], fd) == Some(b)
    ensures !b.active && buckets[i].active ==> BucketOf(buckets[i := b], fd).None?
  {
    var after := buckets[i := b];
    forall g | g != fd
      ensures BucketOf(after, g) == BucketOf(buckets, g)
    {
      if BucketFrom(buckets, g, 0).Some? {
        BucketOfIs(after, g, BucketFrom(buckets, g, 0).value);
      }
    }
    if b.active { BucketOfIs(after, fd, i); }
  }

  function OwnRolled(own: Option<Bucket>, fd: int, t1: nat, t2: nat): Bucket {
    Rolled(if own.Some? then own.value else Fresh(fd, t1), t2)
  }

  /** What a check does to the checked fd's own bucket, given that it has or gets one. */
  function OwnAfter(own: Option<Bucket>, config: RateConfig, fd: int, ty: RateType, t1: nat, t2: nat): Bucket {
    Charged(OwnRolled(own, fd, t1, t2), config, ty)
  }

  /** A check concerns only its own fd's bucket; without a slot it is refused and nothing
      changes. */
  lemma CheckKeeps(buckets: seq<Bucket>, config: RateConfig, fd: int, ty: RateType, t1: nat, t2: nat)
    requires OnePerFd(buckets)
    ensures var after := AfterCheck(buckets, config, fd, ty, t1, t2);
            && OnePerFd(after) && |after| == |buckets|
            && (forall g :: g != fd ==> BucketOf(after, g) == BucketOf(buckets, g))
            && (Available(buckets, fd) ==>
                  && BucketOf(after, fd) == Some(OwnAfter(BucketOf(buckets, fd), config, fd, ty, t1, t2))
                  && (Allowed(buckets, config, fd, ty, t1, t2)
                      <==> HasRoom(OwnRolled(BucketOf(buckets, fd), fd, t1, t2), config, ty)))
            && (!Available(buckets, fd) ==> after == buckets && !Allowed(buckets, config, fd, ty, t1, t2))
  {
    if Available(buckets, fd) {
      var i := SlotFor(buckets, fd).value;
      var b := Charged(Rolled(Got(buckets, fd, t1)[i], t2), config, ty);
      assert AfterCheck(buckets, config, fd, ty, t1, t2) == buckets[i := b];
      SlotUpdate(buckets, i, b, fd);
    }
  }

  lemma ResetKeeps(buckets: seq<Bucket>, fd: int)
    requires OnePerFd(buckets)
    ensures OnePerFd(AfterReset(buckets, fd)) && BucketOf(AfterReset(buckets, fd), fd).None?
    ensures forall g :: g != fd ==> BucketOf(AfterReset(buckets, fd), g) == BucketOf(buckets, g)
  {
    if BucketFrom(buckets, fd, 0).Some? {
      var i := BucketFrom(buckets, fd, 0).value;
      SlotUpdate(buckets, i, buckets[i].(active := false), fd);
    }
  }

  // ---------------------------------------------------------------- the limiter

  class Limiter {
    const config: RateConfig
    const buckets: array<Bucket>

    ghost predicate Valid()
      reads buckets
    {
      buckets.Length == MAX_BUCKETS && OnePerFd(buckets[..])
    }

    constructor (config: RateConfig)
      ensures this.config == config && fresh(buckets) && Valid()
      ensures forall i :: 0 <= i < MAX_BUCKETS ==> buckets[i] == NO_BUCKET
    {
      this.config := config;
      buckets := new Bucket[MAX_BUCKETS](_ => NO_BUCKET);
    }

    /** `get_bucket` */
    method GetBucket(fd: int, at: nat) returns (r: Option<nat>)
      requires Valid()
      modifies buckets
      ensures r == SlotFor(old(buckets[..]), fd) && buckets[..] == Got(old(buckets[..]), fd, at)
    {
      for i := 0 to MAX_BUCKETS
        invariant BucketFrom(buckets[..], fd, i) == BucketFrom(buckets[..], fd, 0)
        invariant buckets[..] == old(buckets[..])
      {
        if buckets[i].active && buckets[i].fd == fd {
          return Some(i);
        }
      }
      for i := 0 to MAX_BUCKETS
        invariant FreeFrom(buckets[..], i) == FreeFrom(buckets[..], 0)
        invariant buckets[..] == old(buckets[..])
      {
        if !buckets[i].active {
          buckets[i] := Bucket(fd, 0, 0, ToU32(at), true);
          return Some(i);
        }
      }
      return None;
    }

    method Check(fd: int, ty: RateType, t1: nat, t2: nat) returns (allowed: bool)
      requires Valid()
      modifies buckets
      ensures Valid()
      ensures allowed == Allowed(old(buckets[..]), config, fd, ty, t1, t2)
      ensures buckets[..] == AfterCheck(old(buckets[..]), config, fd, ty, t1, t2)
    {
      CheckKeeps(buckets[..], config, fd, ty, t1, t2);
      var slot := GetBucket(fd, t1);
      if slot.None? {
        return false;
      }
      var i := slot.value;
      var now := ToU32(t2);
      if ToU32(now - buckets[i].windowStart) >= WINDOW {
        buckets[i] := buckets[i].(eventCount := 0, reqCount := 0, windowStart := now);
      }
      allowed := true;
      if ty.EventRate? {
        if buckets[i].eventCount >= config.eventsPerMinute {
          allowed := false;
        } else {
          buckets[i] := buckets[i].(eventCount := buckets[i].eventCount + 1);
        }
      } else {
        if buckets[i].reqCount >= config.reqsPerMinute {
          allowed := false;
        } else {
          buckets[i] := buckets[i].(reqCount := buckets[i].reqCount + 1);
        }
      }
    }

    method Reset(fd: int)
      requires Valid()
      modifies buckets
      ensures Valid()
      ensures buckets[..] == AfterReset(old(buckets[..]), fd)
    {
      for i := 0 to MAX_BUCKETS
        invariant BucketFrom(buckets[..], fd, i) == BucketFrom(buckets[..], fd, 0)
        invariant buckets[..] == old(buckets[..])
      {
        if buckets[i].active && buckets[i].fd == fd {
          buckets[i] := buckets[i].(active := false);
          return;
        }
      }
    }
  }
}
