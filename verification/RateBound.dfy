/** What the rate limiter guarantees over traces: a bound on the checks allowed in any
    interval, and the reason for every refusal. Times are real seconds since boot; the
    table only ever sees them modulo 2^32. */
module RateBound {
  import opened Bytes
  import opened RateLimiter

  datatype RateOp =
    | CheckOp(fd: int, ty: RateType, t1: nat, t2: nat)
    | ResetOp(fd: int)

  function Apply(buckets: seq<Bucket>, config: RateConfig, op: RateOp): seq<Bucket> {
    match op
    case CheckOp(fd, ty, t1, t2) => AfterCheck(buckets, config, fd, ty, t1, t2)
    case ResetOp(fd) => AfterReset(buckets, fd)
  }

  function Replay(buckets: seq<Bucket>, config: RateConfig, trace: seq<RateOp>): seq<Bucket>
    decreases |trace|
  {
    if trace == [] then buckets else Replay(Apply(buckets, config, trace[0]), config, trace[1..])
  }

  predicate Grants(buckets: seq<Bucket>, config: RateConfig, op: RateOp, fd: int, ty: RateType) {
    op.CheckOp? && op.fd == fd && op.ty == ty && Allowed(buckets, config, fd, ty, op.t1, op.t2)
  }

  /** How many checks of the fd and type the trace allows. */
  function Granted(buckets: seq<Bucket>, config: RateConfig, trace: seq<RateOp>, fd: int, ty: RateType): nat
    decreases |trace|
  {
    if trace == [] then 0
    else (if Grants(buckets, config, trace[0], fd, ty) then 1 else 0)
         + Granted(Apply(buckets, config, trace[0]), config, trace[1..], fd, ty)
  }

  /** Clock readings do not go back, start at `from` and stay below `to`. */
  predicate Within(trace: seq<RateOp>, from: nat, to: nat) {
    trace == [] ||
    if trace[0].CheckOp? then from <= trace[0].t1 <= trace[0].t2 < to && Within(trace[1..], trace[0].t2, to)
    else Within(trace[1..], from, to)
  }

  predicate NoReset(trace: seq<RateOp>, fd: int) {
    forall k :: 0 <= k < |trace| ==> trace[k] != ResetOp(fd)
  }

  /** The bucket's window began at real second w. */
  predicate BeganAt(own: Option<Bucket>, w: nat) {
    own.Some? ==> own.value.windowStart == ToU32(w)
  }

  lemma ModShift(x: int, k: int)
    ensures (x + TWO_32 * k) % TWO_32 == x % TWO_32
  {
  }

  /** A window replaced after a wrapped minute is replaced after a real minute. */
  lemma WrappedAge(w: nat, t: nat)
    requires w <= t
    ensures ToU32(ToU32(t) - ToU32(w)) == (t - w) % TWO_32
    ensures ToU32(ToU32(t) - ToU32(w)) <= t - w
  {
    var a, b := t / TWO_32, w / TWO_32;
    assert t == TWO_32 * a + ToU32(t) && w == TWO_32 * b + ToU32(w);
    ModShift(ToU32(t) - ToU32(w), a - b);
  }

  // ---------------------------------------------------------------- the bound

  /** How many windows can begin at seconds `from` or later and before `to`, a minute apart. */
  function Windows(from: nat, to: nat): nat {
    if from >= to then 0 else (to - 1 - from) / WINDOW + 1
  }

  function Max(a: nat, b: nat): nat {
    if a <= b then b else a
  }

  function Left(b: Bucket, config: RateConfig, ty: RateType): nat {
    if HasRoom(b, config, ty) then Limit(config, ty) - Count(b, ty) else 0
  }

  /** What is left of the current window, plus a full limit for every window that can still begin. */
  function Budget(own: Option<Bucket>, config: RateConfig, ty: RateType, w: nat, from: nat, to: nat): nat {
    if own.None? then Limit(config, ty) * Windows(from, to)
    else Left(own.value, config, ty) + Limit(config, ty) * Windows(Max(w + WINDOW, from), to)
  }

  lemma MulMono(l: nat, a: nat, b: nat)
    requires a <= b
    ensures l * a <= l * b && l * (a + 1) == l * a + l
  {
  }

  lemma BudgetLater(own: Option<Bucket>, config: RateConfig, ty: RateType, w: nat, from: nat, later: nat, to: nat)
    requires from <= later
    ensures Budget(own, config, ty, w, later, to) <= Budget(own, config, ty, w, from, to)
  {
    MulMono(Limit(config, ty), Windows(later, to), Windows(from, to));
    MulMono(Limit(config, ty), Windows(Max(w + WINDOW, later), to), Windows(Max(w + WINDOW, from), to));
  }

  /** A full limit and the windows after it cost no more than the windows from here on. */
  lemma BudgetOfNewWindow(config: RateConfig, ty: RateType, at: nat, to: nat)
    requires at < to
    ensures Limit(config, ty) + Limit(config, ty) * Windows(at + WINDOW, to) == Limit(config, ty) * Windows(at, to)
  {
    assert Windows(at, to) == Windows(at + WINDOW, to) + 1;
    MulMono(Limit(config, ty), Windows(at + WINDOW, to), Windows(at, to));
  }

  /** Rolling never raises the budget, and tells when the window now in force began. */
  lemma RollKeepsBudget(own: Option<Bucket>, config: RateConfig, ty: RateType, fd: int, w: nat, from: nat,
                        t1: nat, t2: nat, to: nat) returns (w': nat)
    requires BeganAt(own, w) && (own.Some? ==> w <= from) && from <= t1 <= t2 < to
    ensures w' <= t2 && OwnRolled(own, fd, t1, t2).windowStart == ToU32(w')
    ensures Left(OwnRolled(own, fd, t1, t2), config, ty) + Limit(config, ty) * Windows(Max(w' + WINDOW, t2), to)
         <= Budget(own, config, ty, w, from, to)
  {
    var begun := if own.Some? then w else t1;
    var b := if own.Some? then own.value else Fresh(fd, t1);
    WrappedAge(begun, t2);
    BudgetLater(own, config, ty, w, from, t2, to);
    if ToU32(ToU32(t2) - b.windowStart) >= WINDOW {
      w' := t2;
      assert Max(w' + WINDOW, t2) == t2 + WINDOW;
      BudgetOfNewWindow(config, ty, t2, to);
      assert begun + WINDOW <= t2;
    } else {
      w' := begun;
      if own.None? {
        BudgetLater(own, config, ty, w, from, t1, to);
        BudgetOfNewWindow(config, ty, t1, to);
        MulMono(Limit(config, ty), Windows(Max(t1 + WINDOW, t2), to), Windows(t1 + WINDOW, to));
      }
    }
  }

  /** A step costs the fd's budget at least what it grants. */
  lemma StepSpends(buckets: seq<Bucket>, config: RateConfig, op: RateOp, fd: int, ty: RateType, w: nat, from: nat,
                   to: nat)
      returns (w': nat)
    requires OnePerFd(buckets) && op != ResetOp(fd) && Within([op], from, to)
    requires BeganAt(BucketOf(buckets, fd), w) && (BucketOf(buckets, fd).Some? ==> w <= from)
    ensures var after := BucketOf(Apply(buckets, config, op), fd);
            var at := if op.CheckOp? then op.t2 else from;
            && OnePerFd(Apply(buckets, config, op))
            && BeganAt(after, w') && (after.Some? ==> w' <= at)
            && (if Grants(buckets, config, op, fd, ty) then 1 else 0) + Budget(after, config, ty, w', at, to)
               <= Budget(BucketOf(buckets, fd), config, ty, w, from, to)
  {
    var own := BucketOf(buckets, fd);
    w' := w;
    match op
    case ResetOp(g) => ResetKeeps(buckets, g);
    case CheckOp(g, ty', t1, t2) =>
      CheckKeeps(buckets, config, g, ty', t1, t2);
      if g != fd || !Available(buckets, fd) {
        BudgetLater(own, config, ty, w, from, t2, to);
      } else {
        w' := RollKeepsBudget(own, config, ty, fd, w, from, t1, t2, to);
      }
  }

  lemma {:induction false} TraceSpends(buckets: seq<Bucket>, config: RateConfig, trace: seq<RateOp>, fd: int,
                                       ty: RateType, w: nat, from: nat, to: nat)
    requires OnePerFd(buckets) && NoReset(trace, fd) && Within(trace, from, to)
    requires BeganAt(BucketOf(buckets, fd), w) && (BucketOf(buckets, fd).Some? ==> w <= from)
    ensures Granted(buckets, config, trace, fd, ty) <= Budget(BucketOf(buckets, fd), config, ty, w, from, to)
    decreases |trace|
  {
    if trace != [] {
      var op := trace[0];
      var w' := StepSpends(buckets, config, op, fd, ty, w, from, to);
      assert forall k :: 0 <= k < |trace[1..]| ==> trace[1..][k] == trace[k + 1];
      TraceSpends(Apply(buckets, config, op), config, trace[1..], fd, ty, w', if op.CheckOp? then op.t2 else from, to);
    }
  }

  lemma WindowsIn(from: nat, d: nat)
    ensures Windows(from, from + d) == (d + 59) / 60
  {
  }

  lemma BudgetBound(own: Option<Bucket>, config: RateConfig, ty: RateType, w: nat, from: nat, d: nat)
    ensures Budget(own, config, ty, w, from, from + d) <= ((d + 59) / 60 + 1) * Limit(config, ty)
  {
    var l, n := Limit(config, ty), Windows(from, from + d);
    WindowsIn(from, d);
    MulMono(l, Windows(Max(w + WINDOW, from), from + d), n);
    MulMono(l, n, n);
  }

  /** The rate bound: whatever the other fds do, in any d seconds one fd that is not reset
      is allowed at most (ceil(d / 60) + 1) times the limit, the 32-bit clock wrapping or not. */
  lemma RateBounded(buckets: seq<Bucket>, config: RateConfig, trace: seq<RateOp>, fd: int, ty: RateType,
                    w: nat, from: nat, d: nat)
    requires OnePerFd(buckets) && NoReset(trace, fd) && Within(trace, from, from + d)
    requires BeganAt(BucketOf(buckets, fd), w) && (BucketOf(buckets, fd).Some? ==> w <= from)
    ensures Granted(buckets, config, trace, fd, ty) <= ((d + 59) / 60 + 1) * Limit(config, ty)
  {
    TraceSpends(buckets, config, trace, fd, ty, w, from, from + d);
    BudgetBound(BucketOf(buckets, fd), config, ty, w, from, d);
  }

  /** In particular, never more than twice the limit in one minute. */
  lemma AtMostTwiceAMinute(buckets: seq<Bucket>, config: RateConfig, trace: seq<RateOp>, fd: int, ty: RateType,
                           w: nat, from: nat)
    requires OnePerFd(buckets) && NoReset(trace, fd) && Within(trace, from, from + 60)
    requires BeganAt(BucketOf(buckets, fd), w) && (BucketOf(buckets, fd).Some? ==> w <= from)
    ensures Granted(buckets, config, trace, fd, ty) <= 2 * Limit(config, ty)
  {
    RateBounded(buckets, config, trace, fd, ty, w, from, 60);
  }

  // ---------------------------------------------------------------- why a check is refused

  lemma {:induction false} ReplayAppend(buckets: seq<Bucket>, config: RateConfig, a: seq<RateOp>, b: seq<RateOp>)
    ensures Replay(buckets, config, a + b) == Replay(Replay(buckets, config, a), config, b)
    decreases |a|
  {
    if a == [] {
      assert a + b == b;
    } else {
      assert (a + b)[1..] == a[1..] + b;
      ReplayAppend(Apply(buckets, config, a[0]), config, a[1..], b);
    }
  }

  lemma {:induction false} GrantedAppend(buckets: seq<Bucket>, config: RateConfig, a: seq<RateOp>, b: seq<RateOp>,
                                         fd: int, ty: RateType)
    ensures Granted(buckets, config, a + b, fd, ty)
         == Granted(buckets, config, a, fd, ty) + Granted(Replay(buckets, config, a), config, b, fd, ty)
    decreases |a|
  {
    if a == [] {
      assert a + b == b;
    } else {
      assert (a + b)[1..] == a[1..] + b;
      GrantedAppend(Apply(buckets, config, a[0]), config, a[1..], b, fd, ty);
    }
  }

  /** The checks allowed from step k on. */
  ghost function Tally(buckets: seq<Bucket>, config: RateConfig, trace: seq<RateOp>, k: nat, fd: int, ty: RateType): nat
    requires k <= |trace|
  {
    Granted(Replay(buckets, config, trace[..k]), config, trace[k..], fd, ty)
  }

  /** The fd's bucket, if any, began its window at w, during or after step k of the trace,
      and its counts are the checks allowed from that step on, none above the limit. */
  ghost predicate Accounts(buckets: seq<Bucket>, config: RateConfig, trace: seq<RateOp>, fd: int, k: nat, w: nat) {
    var own := BucketOf(Replay(buckets, config, trace), fd);
    && OnePerFd(Replay(buckets, config, trace)) && k <= |trace|
    && (own.Some? ==>
          && own.value.windowStart == ToU32(w)
          && k < |trace| && trace[k].CheckOp? && trace[k].fd == fd && (w == trace[k].t1 || w == trace[k].t2)
          && forall ty :: Tally(buckets, config, trace, k, fd, ty) == Count(own.value, ty) <= Limit(config, ty))
  }

  lemma {:induction false} TallyStep(buckets: seq<Bucket>, config: RateConfig, front: seq<RateOp>, op: RateOp,
                                     k: nat, fd: int, ty: RateType)
    requires k <= |front|
    ensures Tally(buckets, config, front + [op], k, fd, ty) == Tally(buckets, config, front, k, fd, ty)
         + if Grants(Replay(buckets, config, front), config, op, fd, ty) then 1 else 0
  {
    var all := front + [op];
    assert all[..k] == front[..k] && all[k..] == front[k..] + [op] && front[..k] + front[k..] == front;
    GrantedAppend(Replay(buckets, config, front[..k]), config, front[k..], [op], fd, ty);
    ReplayAppend(buckets, config, front[..k], front[k..]);
  }

  lemma HistoryStep(buckets: seq<Bucket>, config: RateConfig, front: seq<RateOp>, op: RateOp, fd: int, k: nat, w: nat)
      returns (k': nat, w': nat)
    requires Accounts(buckets, config, front, fd, k, w)
    ensures Accounts(buckets, config, front + [op], fd, k', w')
  {
    var was := Replay(buckets, config, front);
    k', w' := k, w;
    ReplayAppend(buckets, config, front, [op]);
    assert Replay(was, config, [op]) == Apply(was, config, op);
    forall ty
      ensures Tally(buckets, config, front + [op], k, fd, ty)
           == Tally(buckets, config, front, k, fd, ty) + if Grants(was, config, op, fd, ty) then 1 else 0
      ensures Tally(buckets, config, front + [op], |front|, fd, ty) == if Grants(was, config, op, fd, ty) then 1 else 0
    {
      TallyStep(buckets, config, front, op, k, fd, ty);
      TallyStep(buckets, config, front, op, |front|, fd, ty);
      assert front[|front|..] == [];
    }
    match op
    case ResetOp(g) => ResetKeeps(was, g);
    case CheckOp(g, ty, t1, t2) =>
      CheckKeeps(was, config, g, ty, t1, t2);
      if g == fd && Available(was, fd) {
        var own := BucketOf(was, fd);
        if own.None? {
          k' := |front|;
          w' := if Rolled(Fresh(fd, t1), t2) == Fresh(fd, t1) then t1 else t2;
        } else if Rolled(own.value, t2) != own.value {
          k', w' := |front|, t2;
        }
      }
  }

  lemma {:induction false} History(buckets: seq<Bucket>, config: RateConfig, trace: seq<RateOp>, fd: int)
    returns (k: nat, w: nat)
    requires OnePerFd(buckets) && BucketOf(buckets, fd).None?
    ensures Accounts(buckets, config, trace, fd, k, w)
    decreases |trace|
  {
    k, w := 0, 0;
    if trace != [] {
      var front, op := trace[..|trace| - 1], trace[|trace| - 1];
      assert trace == front + [op];
      k, w := History(buckets, config, front, fd);
      k, w := HistoryStep(buckets, config, front, op, fd, k, w);
    }
  }

  /** Justification: a check that has a slot, its own or a free one, is refused exactly
      when its bucket's window is less than 60 wrapped seconds old and the limit was
      already granted since that window began (or the limit is 0). Over any trace from a
      table that did not know the fd. */
  lemma RefusedIff(buckets: seq<Bucket>, config: RateConfig, trace: seq<RateOp>, fd: int, ty: RateType, t1: nat,
                   t2: nat)
      returns (k: nat, w: nat)
    requires OnePerFd(buckets) && BucketOf(buckets, fd).None?
    requires Available(Replay(buckets, config, trace), fd)
    ensures Accounts(buckets, config, trace, fd, k, w)
    ensures !Allowed(Replay(buckets, config, trace), config, fd, ty, t1, t2)
       <==> || Limit(config, ty) == 0
            || (&& BucketOf(Replay(buckets, config, trace), fd).Some?
                && Tally(buckets, config, trace, k, fd, ty) == Limit(config, ty)
                && ToU32(ToU32(t2) - ToU32(w)) < 60)
  {
    k, w := History(buckets, config, trace, fd);
    CheckKeeps(Replay(buckets, config, trace), config, fd, ty, t1, t2);
  }

  // ---------------------------------------------------------------- the bound after any history

  /** Every reading of an ordered trace lies in its interval. */
  lemma {:induction false} ReadingWithin(trace: seq<RateOp>, from: nat, to: nat, k: nat)
    requires Within(trace, from, to) && k < |trace| && trace[k].CheckOp?
    ensures from <= trace[k].t1 <= trace[k].t2 < to
  {
    if k > 0 {
      ReadingWithin(trace[1..], if trace[0].CheckOp? then trace[0].t2 else from, to, k - 1);
    }
  }

  /** The rate bound, closed: start from a table that does not know the fd, let anything
      happen up to second `from`, resets included; in the d seconds after it the fd is
      allowed at most (ceil(d / 60) + 1) times the limit, unless it is reset meanwhile. */
  lemma RateBoundedAfter(buckets: seq<Bucket>, config: RateConfig, front: seq<RateOp>, trace: seq<RateOp>,
                         fd: int, ty: RateType, from: nat, d: nat)
    requires OnePerFd(buckets) && BucketOf(buckets, fd).None? && Within(front, 0, from + 1)
    requires NoReset(trace, fd) && Within(trace, from, from + d)
    ensures Granted(Replay(buckets, config, front), config, trace, fd, ty)
         <= ((d + 59) / 60 + 1) * Limit(config, ty)
  {
    var k, w := History(buckets, config, front, fd);
    var own := BucketOf(Replay(buckets, config, front), fd);
    if own.Some? {
      ReadingWithin(front, 0, from + 1, k);
    }
    RateBounded(Replay(buckets, config, front), config, trace, fd, ty, w, from, d);
  }

  // ---------------------------------------------------------------- by message type

  /** EVENTs: at most (ceil(d / 60) + 1) times the configured events a minute, after any
      history, in any d seconds without a reset. */
  lemma EventsBounded(buckets: seq<Bucket>, config: RateConfig, front: seq<RateOp>, trace: seq<RateOp>, fd: int,
                      from: nat, d: nat)
    requires OnePerFd(buckets) && BucketOf(buckets, fd).None? && Within(front, 0, from + 1)
    requires NoReset(trace, fd) && Within(trace, from, from + d)
    ensures Granted(Replay(buckets, config, front), config, trace, fd, EventRate)
         <= ((d + 59) / 60 + 1) * config.eventsPerMinute
  {
    RateBoundedAfter(buckets, config, front, trace, fd, EventRate, from, d);
  }

  /** REQs likewise, by the configured requests a minute. */
  lemma ReqsBounded(buckets: seq<Bucket>, config: RateConfig, front: seq<RateOp>, trace: seq<RateOp>, fd: int,
                    from: nat, d: nat)
    requires OnePerFd(buckets) && BucketOf(buckets, fd).None? && Within(front, 0, from + 1)
    requires NoReset(trace, fd) && Within(trace, from, from + d)
    ensures Granted(Replay(buckets, config, front), config, trace, fd, ReqRate)
         <= ((d + 59) / 60 + 1) * config.reqsPerMinute
  {
    RateBoundedAfter(buckets, config, front, trace, fd, ReqRate, from, d);
  }

  /** An EVENT is refused exactly when as many EVENTs as are configured for a minute were
      allowed in its window, which is less than 60 wrapped seconds old; REQs do not count. */
  lemma EventRefusedIff(buckets: seq<Bucket>, config: RateConfig, trace: seq<RateOp>, fd: int, t1: nat, t2: nat)
    returns (k: nat, w: nat)
    requires OnePerFd(buckets) && BucketOf(buckets, fd).None?
    requires Available(Replay(buckets, config, trace), fd)
    ensures Accounts(buckets, config, trace, fd, k, w)
    ensures !Allowed(Replay(buckets, config, trace), config, fd, EventRate, t1, t2)
       <==> || config.eventsPerMinute == 0
            || (&& BucketOf(Replay(buckets, config, trace), fd).Some?
                && Tally(buckets, config, trace, k, fd, EventRate) == config.eventsPerMinute
                && ToU32(ToU32(t2) - ToU32(w)) < 60)
  {
    k, w := RefusedIff(buckets, config, trace, fd, EventRate, t1, t2);
  }

  /** A REQ likewise; EVENTs do not count. */
  lemma ReqRefusedIff(buckets: seq<Bucket>, config: RateConfig, trace: seq<RateOp>, fd: int, t1: nat, t2: nat)
    returns (k: nat, w: nat)
    requires OnePerFd(buckets) && BucketOf(buckets, fd).None?
    requires Available(Replay(buckets, config, trace), fd)
    ensures Accounts(buckets, config, trace, fd, k, w)
    ensures !Allowed(Replay(buckets, config, trace), config, fd, ReqRate, t1, t2)
       <==> || config.reqsPerMinute == 0
            || (&& BucketOf(Replay(buckets, config, trace), fd).Some?
                && Tally(buckets, config, trace, k, fd, ReqRate) == config.reqsPerMinute
                && ToU32(ToU32(t2) - ToU32(w)) < 60)
  {
    k, w := RefusedIff(buckets, config, trace, fd, ReqRate, t1, t2);
  }
}
