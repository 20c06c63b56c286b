/** The three tables together. Connections, subscriptions and rate buckets count and search
    on their own; that none of them can run out while the others have room is a fact about
    all three: 8 connections x 8 subscriptions = 64 slots, and 16 buckets for 8 connections. */
module Relay {
  import opened Bytes
  import opened Events
  import C = Connections
  import S = SubTable
  import R = RateLimiter

  datatype State = State(conns: seq<C.Conn>, connCount: nat, slots: seq<S.Slot>, subCount: nat, buckets: seq<R.Bucket>)

  datatype Step =
    | Open(fd: int, at: nat)
    | Req(fd: int, id: string, filters: seq<Filter>, failAt: Option<nat>, t1: nat, t2: nat)
    | Publish(fd: int, t1: nat, t2: nat)
    | CloseSub(fd: int, id: string)
    | Close(fd: int)

  /** What the network stack guarantees: an opened descriptor is not open already, and
      messages come from open ones. A close may name any descriptor. */
  predicate Possible(r: State, step: Step) {
    match step
    case Open(fd, _) => fd !in C.OpenFds(r.conns)
    case Req(fd, _, _, _, _, _) => fd in C.OpenFds(r.conns)
    case Publish(fd, _, _) => fd in C.OpenFds(r.conns)
    case CloseSub(fd, _) => fd in C.OpenFds(r.conns)
    case Close(_) => true
  }

  /** The router's checks of a REQ: rate, a nonempty id that fits, at most four filters. */
  predicate Admitted(r: State, config: R.RateConfig, fd: int, id: string, filters: seq<Filter>, t1: nat, t2: nat) {
    && R.Allowed(r.buckets, config, fd, R.ReqRate, t1, t2)
    && 0 < |id| <= S.MAX_ID_LEN && |filters| <= S.MAX_FILTERS
  }

  function Added(r: State, fd: int, id: string, filters: seq<Filter>, failAt: Option<nat>): State {
    var isNew := S.FindFrom(r.slots, fd, id, 0).None? && S.AddStatus(r.slots, fd, id, filters, failAt) == S.SubOk;
    r.(slots := S.Add(r.slots, fd, id, filters, failAt), subCount := r.subCount + if isNew then 1 else 0)
  }

  function Next(r: State, config: R.RateConfig, step: Step): State {
    match step
    case Open(fd, at) =>
      var accepted := C.StatusOfOpen(r.conns, r.connCount) == C.Opened;
      r.(conns := C.AfterOpen(r.conns, r.connCount, fd, at), connCount := r.connCount + if accepted then 1 else 0)
    case Req(fd, id, filters, failAt, t1, t2) =>
      var r' := r.(buckets := R.AfterCheck(r.buckets, config, fd, R.ReqRate, t1, t2));
      if Admitted(r, config, fd, id, filters, t1, t2) then Added(r', fd, id, filters, failAt) else r'
    case Publish(fd, t1, t2) => r.(buckets := R.AfterCheck(r.buckets, config, fd, R.EventRate, t1, t2))
    case CloseSub(fd, id) =>
      var found := S.FindFrom(r.slots, fd, id, 0).Some?;
      r.(slots := S.Remove(r.slots, fd, id), subCount := if found && r.subCount > 0 then r.subCount - 1 else r.subCount)
    case Close(fd) =>
      var removed := |S.OfConn(r.slots, fd, |r.slots|)|;
      var found := C.FindFrom(r.conns, fd, 0).Some?;
      State(C.AfterClose(r.conns, fd), if found && r.connCount > 0 then r.connCount - 1 else r.connCount,
            S.RemoveAll(r.slots, fd, |r.slots|), if removed <= r.subCount then r.subCount - removed else 0,
            R.AfterReset(r.buckets, fd))
  }

  /** Every active subscription, and every bucket, belongs to an open connection. */
  ghost predicate SubsOpen(slots: seq<S.Slot>, fds: set<int>) {
    forall i :: 0 <= i < |slots| && slots[i].active ==> slots[i].fd in fds
  }

  ghost predicate BucketsOpen(buckets: seq<R.Bucket>, fds: set<int>) {
    forall i :: 0 <= i < |buckets| && buckets[i].active ==> buckets[i].fd in fds
  }

  ghost predicate Inv(r: State) {
    && |r.conns| == C.MAX_CONNECTIONS && |r.slots| == S.MAX_SUBS && |r.buckets| == R.MAX_BUCKETS
    && r.connCount == |C.ActiveConns(r.conns)| && C.OnePerFd(r.conns) && r.subCount == |S.Active(r.slots, S.MAX_SUBS)|
    && S.Sound(r.slots) && R.OnePerFd(r.buckets)
    && SubsOpen(r.slots, C.OpenFds(r.conns)) && BucketsOpen(r.buckets, C.OpenFds(r.conns))
  }

  const START := State(seq(C.MAX_CONNECTIONS, _ => C.NO_CONN), 0, seq(S.MAX_SUBS, _ => S.EMPTY_SLOT), 0,
                       seq(R.MAX_BUCKETS, _ => R.NO_BUCKET))

  lemma StartInv()
    ensures Inv(START)
  {
    assert C.ActiveConns(START.conns) == {} && S.Active(START.slots, S.MAX_SUBS) == {};
    forall fd: int
      ensures |S.OfConn(START.slots, fd, |START.slots|)| <= S.MAX_PER_CONN
    {
      assert S.OfConn(START.slots, fd, |START.slots|) == {};
    }
  }

  // ---------------------------------------------------------------- pigeonhole

  lemma {:induction false} AllActiveSize(slots: seq<S.Slot>, n: nat)
    requires n <= |slots| && forall i :: 0 <= i < n ==> slots[i].active
    ensures |S.Active(slots, n)| == n
  {
    if n == 0 {
      assert S.Active(slots, 0) == {};
    } else {
      AllActiveSize(slots, n - 1);
      assert S.Active(slots, n) == S.Active(slots, n - 1) + {n - 1};
    }
  }

  lemma {:induction false} AllOpenSize(conns: seq<C.Conn>)
    requires forall i :: 0 <= i < |conns| ==> conns[i].active
    ensures |C.ActiveConns(conns)| == |conns|
  {
    if conns == [] {
      assert C.ActiveConns(conns) == {};
    } else {
      var front := conns[..|conns| - 1];
      AllOpenSize(front);
      assert C.ActiveConns(conns) == C.ActiveConns(front) + {|front|};
    }
  }

  lemma {:induction false} OpenFdsSize(conns: seq<C.Conn>)
    ensures |C.OpenFds(conns)| <= |conns|
  {
    if conns != [] {
      var front, last := conns[..|conns| - 1], conns[|conns| - 1];
      OpenFdsSize(front);
      var more := if last.active then {last.fd} else {};
      forall fd
        ensures fd in C.OpenFds(conns) <==> fd in C.OpenFds(front) + more
      {
        if fd in C.OpenFds(front) {
          var j: nat :| j < |front| && front[j].active && front[j].fd == fd;
          assert conns[j] == front[j];
        }
        if fd in more { assert conns[|conns| - 1] == last; }
      }
      assert C.OpenFds(conns) == C.OpenFds(front) + more;
    }
  }

  /** The active slots whose connection is in a set. */
  function SlotsOf(slots: seq<S.Slot>, fds: set<int>): set<nat> {
    set i: nat | i < |slots| && slots[i].active && slots[i].fd in fds
  }

  lemma SlotsSplit(slots: seq<S.Slot>, fds: set<int>, fd: int)
    requires fd in fds
    ensures |SlotsOf(slots, fds)| == |S.OfConn(slots, fd, |slots|)| + |SlotsOf(slots, fds - {fd})|
  {
    assert SlotsOf(slots, fds) == S.OfConn(slots, fd, |slots|) + SlotsOf(slots, fds - {fd});
  }

  /** Eight slots a connection at most. */
  lemma {:induction false} SlotsBounded(slots: seq<S.Slot>, fds: set<int>)
    requires S.Sound(slots)
    ensures |SlotsOf(slots, fds)| <= S.MAX_PER_CONN * |fds|
    decreases |fds|
  {
    if fd :| fd in fds {
      SlotsSplit(slots, fds, fd);
      SlotsBounded(slots, fds - {fd});
    } else {
      assert SlotsOf(slots, fds) == {};
    }
  }

  /** A connection below its quota finds a free subscription slot. */
  lemma SubSlotFree(r: State, fd: int)
    requires Inv(r) && fd in C.OpenFds(r.conns) && |S.OfConn(r.slots, fd, |r.slots|)| < 8
    ensures S.FreeFrom(r.slots, 0).Some?
  {
    var fds := C.OpenFds(r.conns);
    OpenFdsSize(r.conns);
    SlotsSplit(r.slots, fds, fd);
    SlotsBounded(r.slots, fds - {fd});
    assert S.Active(r.slots, S.MAX_SUBS) == SlotsOf(r.slots, fds);
    if forall i :: 0 <= i < |r.slots| ==> r.slots[i].active {
      AllActiveSize(r.slots, |r.slots|);
    }
  }

  /** Buckets of distinct descriptors are as many as their descriptors. */
  lemma {:induction false} BucketFdsSize(buckets: seq<R.Bucket>, n: nat)
    requires n <= |buckets| && R.OnePerFd(buckets) && forall i :: 0 <= i < n ==> buckets[i].active
    ensures |set i: nat | i < n :: buckets[i].fd| == n
  {
    if n > 0 {
      BucketFdsSize(buckets, n - 1);
      var front := set i: nat | i < n - 1 :: buckets[i].fd;
      assert buckets[n - 1].fd !in front;
      assert (set i: nat | i < n :: buckets[i].fd) == front + {buckets[n - 1].fd};
    }
  }

  /** A full bucket table serves sixteen open connections. */
  lemma FullBuckets(buckets: seq<R.Bucket>, fds: set<int>)
    requires R.OnePerFd(buckets) && BucketsOpen(buckets, fds)
    ensures (forall i :: 0 <= i < |buckets| ==> buckets[i].active) ==> |buckets| <= |fds|
  {
    if forall i :: 0 <= i < |buckets| ==> buckets[i].active {
      BucketFdsSize(buckets, |buckets|);
      var used := set i: nat | i < |buckets| :: buckets[i].fd;
      SubsetSize(used, fds);
    }
  }

  /** An open connection has a rate bucket or can get one. */
  lemma BucketFree(r: State, fd: int)
    requires Inv(r) && fd in C.OpenFds(r.conns)
    ensures R.Available(r.buckets, fd)
  {
    OpenFdsSize(r.conns);
    FullBuckets(r.buckets, C.OpenFds(r.conns));
  }

  /** A connection the counter admits finds a free connection slot. */
  lemma ConnSlotFree(r: State)
    requires Inv(r) && r.connCount < 8
    ensures C.FreeFrom(r.conns, 0).Some?
  {
    if forall i :: 0 <= i < |r.conns| ==> r.conns[i].active {
      AllOpenSize(r.conns);
    }
  }

  // ---------------------------------------------------------------- every run

  lemma MoreOpen(slots: seq<S.Slot>, buckets: seq<R.Bucket>, fds: set<int>, more: set<int>)
    requires SubsOpen(slots, fds) && BucketsOpen(buckets, fds) && fds <= more
    ensures SubsOpen(slots, more) && BucketsOpen(buckets, more)
  {
  }

  lemma CheckOpen(buckets: seq<R.Bucket>, config: R.RateConfig, fd: int, ty: R.RateType, t1: nat, t2: nat,
                  fds: set<int>)
    requires BucketsOpen(buckets, fds) && fd in fds
    ensures BucketsOpen(R.AfterCheck(buckets, config, fd, ty, t1, t2), fds)
  {
  }

  lemma RemovedCount(slots: seq<S.Slot>, fd: int)
    ensures |S.Active(S.RemoveAll(slots, fd, |slots|), |slots|)| ==
      |S.Active(slots, |slots|)| - |S.OfConn(slots, fd, |slots|)|
  {
    assert S.Active(slots, |slots|) ==
      S.Active(S.RemoveAll(slots, fd, |slots|), |slots|) + S.OfConn(slots, fd, |slots|);
  }

  lemma CloseKeeps(r: State, config: R.RateConfig, fd: int)
    requires Inv(r)
    ensures Inv(Next(r, config, Close(fd)))
  {
    var r' := Next(r, config, Close(fd));
    S.RemoveAllSound(r.slots, fd, |r.slots|);
    RemovedCount(r.slots, fd);
    R.ResetKeeps(r.buckets, fd);
    var left := C.OpenFds(r.conns) - {fd};
    assert SubsOpen(r'.slots, left);
    assert R.BucketFrom(r'.buckets, fd, 0).None?;
    assert BucketsOpen(r'.buckets, left);
    if C.FindFrom(r.conns, fd, 0).Some? {
      C.CloseActive(r.conns, C.FindFrom(r.conns, fd, 0).value);
      C.OpenApart(r.conns, C.FindFrom(r.conns, fd, 0).value, C.NO_CONN);
    }
    MoreOpen(r'.slots, r'.buckets, left, C.OpenFds(r'.conns));
  }

  lemma NextKeeps(r: State, config: R.RateConfig, step: Step)
    requires Inv(r) && Possible(r, step)
    ensures Inv(Next(r, config, step))
  {
    var fds := C.OpenFds(r.conns);
    match step
    case Open(fd, at) =>
      if C.StatusOfOpen(r.conns, r.connCount) == C.Opened {
        var i := C.FreeFrom(r.conns, 0).value;
        C.OpenActive(r.conns, i, C.Conn(fd, true, ToU32(at), ToU32(at)));
        C.OpenApart(r.conns, i, C.Conn(fd, true, ToU32(at), ToU32(at)));
        MoreOpen(r.slots, r.buckets, fds, fds + {fd});
      }
    case Req(fd, id, filters, failAt, t1, t2) =>
      R.CheckKeeps(r.buckets, config, fd, R.ReqRate, t1, t2);
      CheckOpen(r.buckets, config, fd, R.ReqRate, t1, t2, fds);
      if Admitted(r, config, fd, id, filters, t1, t2) {
        S.AddSound(r.slots, fd, id, filters, failAt);
      }
    case Publish(fd, t1, t2) =>
      R.CheckKeeps(r.buckets, config, fd, R.EventRate, t1, t2);
      CheckOpen(r.buckets, config, fd, R.EventRate, t1, t2, fds);
    case CloseSub(fd, id) =>
      S.RemoveSound(r.slots, fd, id);
    case Close(fd) =>
      CloseKeeps(r, config, fd);
  }

  function Run(r: State, config: R.RateConfig, steps: seq<Step>): State
    decreases |steps|
  {
    if steps == [] then r else Run(Next(r, config, steps[0]), config, steps[1..])
  }

  predicate AllPossible(r: State, config: R.RateConfig, steps: seq<Step>)
    decreases |steps|
  {
    steps == [] || (Possible(r, steps[0]) && AllPossible(Next(r, config, steps[0]), config, steps[1..]))
  }

  lemma {:induction false} RunKeeps(r: State, config: R.RateConfig, steps: seq<Step>)
    requires Inv(r) && AllPossible(r, config, steps)
    ensures Inv(Run(r, config, steps))
    decreases |steps|
  {
    if steps != [] {
      NextKeeps(r, config, steps[0]);
      RunKeeps(Next(r, config, steps[0]), config, steps[1..]);
    }
  }

  /** Slot exhaustion is unreachable. After any run from the empty relay: an open the
      counter admits succeeds; a check from an open connection has a bucket; and an admitted
      REQ is refused only for its connection's own quota or for lack of memory while
      copying its filters. */
  lemma {:induction false} NeverExhausted(config: R.RateConfig, steps: seq<Step>, fd: int)
    requires AllPossible(START, config, steps)
    ensures var r := Run(START, config, steps);
            && Inv(r) && |r.conns| == 8 && |r.slots| == 64 && |r.buckets| == 16
            && C.StatusOfOpen(r.conns, r.connCount) != C.NoSlot
            && (fd in C.OpenFds(r.conns) ==>
                  && R.Available(r.buckets, fd)
                  && forall id, filters, failAt ::
                       S.AddStatus(r.slots, fd, id, filters, failAt) == S.NoMemory ==> S.Copied(filters, failAt).None?)
  {
    StartInv();
    RunKeeps(START, config, steps);
    var r := Run(START, config, steps);
    if r.connCount < C.MAX_CONNECTIONS { ConnSlotFree(r); }
    if fd in C.OpenFds(r.conns) {
      BucketFree(r, fd);
      if |S.OfConn(r.slots, fd, |r.slots|)| < S.MAX_PER_CONN { SubSlotFree(r, fd); }
    }
  }

  // ---------------------------------------------------------------- what each step answers and does

  /** An open succeeds exactly while fewer than eight fds are open, and then opens its fd. */
  lemma OpenMeans(r: State, config: R.RateConfig, fd: int, at: nat)
    requires Inv(r)
    ensures var r', was := Next(r, config, Open(fd, at)), C.OpenFds(r.conns);
            && |was| <= 8
            && (C.StatusOfOpen(r.conns, r.connCount) == C.Opened <==> |was| < 8)
            && (C.StatusOfOpen(r.conns, r.connCount) == C.TooMany <==> |was| == 8)
            && C.OpenFds(r'.conns) == (if |was| < 8 then was + {fd} else was)
            && r'.slots == r.slots && r'.buckets == r.buckets
  {
    C.OpenFdsCount(r.conns);
    if r.connCount < 8 {
      ConnSlotFree(r);
      C.OpenActive(r.conns, C.FreeFrom(r.conns, 0).value, C.Conn(fd, true, ToU32(at), ToU32(at)));
    }
  }

  /** A REQ is admitted by its rate, an id of 1 to 64 characters and at most four filters. It
      is then stored exactly when its key is known or its connection has fewer than eight, and
      its filters can be copied; a known key whose new filters cannot be copied has none. */
  lemma ReqMeans(r: State, config: R.RateConfig, fd: int, id: string, filters: seq<Filter>, failAt: Option<nat>,
                 t1: nat, t2: nat)
    requires Inv(r) && fd in C.OpenFds(r.conns)
    ensures var r', was := Next(r, config, Req(fd, id, filters, failAt, t1, t2)), S.Table(r.slots);
            var admitted := R.Allowed(r.buckets, config, fd, R.ReqRate, t1, t2) && 1 <= |id| <= 64 && |filters| <= 4;
            var fits := (fd, id) in was || |S.KeysOf(r.slots, fd)| < 8;
            var copied := failAt.None? || failAt.value >= |filters|;
            && |S.KeysOf(r.slots, fd)| <= 8
            && (admitted ==> (S.AddStatus(r.slots, fd, id, filters, failAt) == S.SubOk <==> fits && copied))
            && S.Table(r'.slots) == (if !admitted || !fits then was
                                     else if copied then was[(fd, id) := filters]
                                     else if (fd, id) in was then was[(fd, id) := []] else was)
            && r'.conns == r.conns
  {
    S.KeysFound(r.slots, fd, id);
    S.QuotaIsKeys(r.slots, fd);
    if |S.OfConn(r.slots, fd, |r.slots|)| < S.MAX_PER_CONN { SubSlotFree(r, fd); }
    if |id| <= 64 { S.AddRefines(r.slots, fd, id, filters, failAt); }
    S.TakeIs(filters, 4);
  }

  /** An EVENT changes no connection and no subscription. */
  lemma PublishMeans(r: State, config: R.RateConfig, fd: int, t1: nat, t2: nat)
    requires Inv(r)
    ensures var r' := Next(r, config, Publish(fd, t1, t2));
            && r'.conns == r.conns && r'.slots == r.slots
            && forall g :: g != fd ==> R.BucketOf(r'.buckets, g) == R.BucketOf(r.buckets, g)
  {
    R.CheckKeeps(r.buckets, config, fd, R.EventRate, t1, t2);
  }

  /** A CLOSE takes one key out of the table. */
  lemma CloseSubMeans(r: State, config: R.RateConfig, fd: int, id: string)
    requires Inv(r)
    ensures var r' := Next(r, config, CloseSub(fd, id));
            && S.Table(r'.slots) == S.Table(r.slots) - {(fd, id)}
            && r'.conns == r.conns && r'.buckets == r.buckets
  {
    S.RemoveRefines(r.slots, fd, id);
  }

  /** A closed connection takes along its fd, its keys and its rate bucket, and nothing else. */
  lemma CloseMeans(r: State, config: R.RateConfig, fd: int)
    requires Inv(r)
    ensures var r', was := Next(r, config, Close(fd)), S.Table(r.slots);
            && C.OpenFds(r'.conns) == C.OpenFds(r.conns) - {fd}
            && S.Table(r'.slots) == (map key | key in was && key.0 != fd :: was[key])
            && R.BucketOf(r'.buckets, fd).None?
            && forall g :: g != fd ==> R.BucketOf(r'.buckets, g) == R.BucketOf(r.buckets, g)
  {
    S.RemoveAllRefines(r.slots, fd);
    R.ResetKeeps(r.buckets, fd);
    if C.FindFrom(r.conns, fd, 0).Some? {
      C.CloseActive(r.conns, C.FindFrom(r.conns, fd, 0).value);
      C.ClosedFd(r.conns, C.FindFrom(r.conns, fd, 0).value);
    }
  }
}
