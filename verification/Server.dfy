/** The three tables as the objects the server changes in place, tied to the state machine
    of `Relay`: accepting and closing connections, and admitting messages. */
module Server {
  import opened Bytes
  import opened Events
  import C = Connections
  import S = SubTable
  import R = RateLimiter
  import opened Relay

  lemma StartsEmpty(conns: C.ConnTable, subs: S.SubManager, limiter: R.Limiter)
    requires conns.conns.Length == C.MAX_CONNECTIONS
    requires forall i :: 0 <= i < C.MAX_CONNECTIONS ==> conns.conns[i] == C.NO_CONN
    requires subs.subs.Length == S.MAX_SUBS && forall i :: 0 <= i < S.MAX_SUBS ==> subs.subs[i] == S.EMPTY_SLOT
    requires limiter.buckets.Length == R.MAX_BUCKETS
    requires forall i :: 0 <= i < R.MAX_BUCKETS ==> limiter.buckets[i] == R.NO_BUCKET
    ensures conns.conns[..] == START.conns && subs.subs[..] == START.slots && limiter.buckets[..] == START.buckets
  {
  }

  class Tables {
    const conns: C.ConnTable
    const subs: S.SubManager
    const limiter: R.Limiter

    ghost predicate Valid()
      reads conns, conns.conns, subs, subs.subs, limiter.buckets
    {
      conns.Valid() && subs.Valid() && limiter.Valid()
    }

    ghost function Abs(): State
      reads conns, conns.conns, subs, subs.subs, limiter.buckets
    {
      State(conns.conns[..], conns.connectionCount, subs.subs[..], subs.activeCount, limiter.buckets[..])
    }

    constructor (config: R.RateConfig)
      ensures Valid() && Abs() == START && limiter.config == config
    {
      conns := new C.ConnTable();
      subs := new S.SubManager();
      limiter := new R.Limiter(config);
      new;
      StartsEmpty(conns, subs, limiter);
    }

    /** `on_open` */
    method OnOpen(fd: int, at: nat) returns (r: C.OpenStatus)
      requires Valid()
      modifies conns, conns.conns
      ensures Valid() && Abs() == Next(old(Abs()), limiter.config, Open(fd, at))
      ensures r == C.StatusOfOpen(old(conns.conns[..]), old(conns.connectionCount))
    {
      r := conns.OnOpen(fd, at);
    }

    /** `on_ws_disconnect`: all subscriptions of the connection go, then its bucket. */
    method OnWsDisconnect(fd: int)
      requires Valid()
      modifies subs, subs.subs, limiter.buckets
      ensures Valid()
      ensures subs.subs[..] == S.RemoveAll(old(subs.subs[..]), fd, S.MAX_SUBS)
      ensures limiter.buckets[..] == R.AfterReset(old(limiter.buckets[..]), fd)
    {
      subs.RemoveConn(fd);
      limiter.Reset(fd);
    }

    /** `on_close`: the disconnect callback first, then the connection slot. */
    method OnClose(fd: int)
      requires Valid() && Inv(Abs())
      modifies conns, conns.conns, subs, subs.subs, limiter.buckets
      ensures Valid() && Abs() == Next(old(Abs()), limiter.config, Close(fd)) && Inv(Abs())
    {
      CloseKeeps(Abs(), limiter.config, fd);
      OnWsDisconnect(fd);
      conns.OnClose(fd);
    }

    /** The rate check of the router. */
    method Check(fd: int, ty: R.RateType, t1: nat, t2: nat) returns (allowed: bool)
      requires Valid()
      modifies limiter.buckets
      ensures Valid()
      ensures allowed == R.Allowed(old(limiter.buckets[..]), limiter.config, fd, ty, t1, t2)
      ensures Abs() == old(Abs()).(buckets := R.AfterCheck(old(limiter.buckets[..]), limiter.config, fd, ty, t1, t2))
    {
      allowed := limiter.Check(fd, ty, t1, t2);
    }

    method AddSub(fd: int, id: string, filters: seq<Filter>, failAt: Option<nat>) returns (r: S.SubStatus)
      requires Valid() && |id| <= S.MAX_ID_LEN
      modifies subs, subs.subs
      ensures Valid()
      ensures r == S.AddStatus(old(subs.subs[..]), fd, id, filters, failAt)
      ensures Abs() == Added(old(Abs()), fd, id, filters, failAt)
    {
      S.AddSound(subs.subs[..], fd, id, filters, failAt);
      r := subs.AddSub(fd, id, filters, failAt);
    }

    /** `handle_close`, without the answer. */
    method CloseSubscription(fd: int, id: string) returns (r: S.SubStatus)
      requires Valid()
      modifies subs, subs.subs
      ensures Valid() && Abs() == Next(old(Abs()), limiter.config, CloseSub(fd, id))
      ensures r == if (fd, id) in S.Table(old(subs.subs[..])) then S.SubOk else S.UnknownSub
    {
      S.RemoveSound(subs.subs[..], fd, id);
      r := subs.RemoveSub(fd, id);
    }
  }
}
