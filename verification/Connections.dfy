/** The connection table of the WebSocket server: eight slots and a counter of its own. */
module Connections {
  import opened Bytes

  const MAX_CONNECTIONS: nat := 8

  datatype Conn = Conn(fd: int, active: bool, connectedAt: u32, lastActivity: u32)
  const NO_CONN := Conn(0, false, 0, 0)

  datatype OpenStatus = Opened | TooMany | NoSlot

  function FreeFrom(conns: seq<Conn>, i: nat): (r: Option<nat>)
    requires i <= |conns|
    ensures r.Some? ==> i <= r.value < |conns| && !conns[r.value].active
    ensures r.None? ==> forall j :: i <= j < |conns| ==> conns[j].active
    decreases |conns| - i
  {
    if i == |conns| then None else if !conns[i].active then Some(i) else FreeFrom(conns, i + 1)
  }

  function FindFrom(conns: seq<Conn>, fd: int, i: nat): (r: Option<nat>)
    requires i <= |conns|
    ensures r.Some? ==> i <= r.value < |conns| && conns[r.value].active && conns[r.value].fd == fd
    ensures r.None? ==> forall j :: i <= j < |conns| ==> !(conns[j].active && conns[j].fd == fd)
    decreases |conns| - i
  {
    if i == |conns| then None
    else if conns[i].active && conns[i].fd == fd then Some(i)
    else FindFrom(conns, fd, i + 1)
  }

  function ActiveConns(conns: seq<Conn>): set<nat> {
    set i: nat | i < |conns| && conns[i].active
  }

  function OpenFds(conns: seq<Conn>): set<int> {
    set i: nat | i < |conns| && conns[i].active :: conns[i].fd
  }

  predicate FdsDiffer(conns: seq<Conn>, i: nat, j: nat)
    requires i < |conns| && j < |conns|
  {
    conns[i].active && conns[j].active ==> conns[i].fd != conns[j].fd
  }

  /** At most one active slot an fd. */
  ghost predicate OnePerFd(conns: seq<Conn>) {
    forall i: nat, j: nat :: i < j < |conns| ==> FdsDiffer(conns, i, j)
  }

  function StatusOfOpen(conns: seq<Conn>, count: nat): OpenStatus {
    if count >= MAX_CONNECTIONS then TooMany else if FreeFrom(conns, 0).None? then NoSlot else Opened
  }

  function AfterOpen(conns: seq<Conn>, count: nat, fd: int, at: nat): seq<Conn> {
    if StatusOfOpen(conns, count) != Opened then conns
    else conns[FreeFrom(conns, 0).value := Conn(fd, true, ToU32(at), ToU32(at))]
  }

  function AfterClose(conns: seq<Conn>, fd: int): seq<Conn> {
    match FindFrom(conns, fd, 0)
    case None => conns
    case Some(i) => conns[i := NO_CONN]
  }

  lemma OpenActive(conns: seq<Conn>, i: nat, c: Conn)
    requires i < |conns| && !conns[i].active && c.active
    ensures |ActiveConns(conns[i := c])| == |ActiveConns(conns)| + 1
    ensures OpenFds(conns[i := c]) == OpenFds(conns) + {c.fd}
  {
    assert ActiveConns(conns[i := c]) == ActiveConns(conns) + {i};
    forall fd
      ensures fd in OpenFds(conns[i := c]) <==> fd in OpenFds(conns) + {c.fd}
    {
      if fd in OpenFds(conns) {
        var j: nat :| j < |conns| && conns[j].active && conns[j].fd == fd;
        assert conns[i := c][j] == conns[j];
      }
      assert conns[i := c][i] == c;
    }
  }

  lemma CloseActive(conns: seq<Conn>, i: nat)
    requires i < |conns| && conns[i].active
    ensures |ActiveConns(conns[i := NO_CONN])| == |ActiveConns(conns)| - 1
    ensures OpenFds(conns) - {conns[i].fd} <= OpenFds(conns[i := NO_CONN]) <= OpenFds(conns)
  {
    assert ActiveConns(conns[i := NO_CONN]) == ActiveConns(conns) - {i};
    forall fd | fd in OpenFds(conns) - {conns[i].fd}
      ensures fd in OpenFds(conns[i := NO_CONN])
    {
      var j: nat :| j < |conns| && conns[j].active && conns[j].fd == fd;
      assert conns[i := NO_CONN][j] == conns[j];
    }
  }

  lemma OpenApart(conns: seq<Conn>, i: nat, c: Conn)
    requires OnePerFd(conns) && i < |conns| && (c.active ==> c.fd !in OpenFds(conns))
    ensures OnePerFd(conns[i := c])
  {
    var after := conns[i := c];
    forall j: nat, k: nat | j < k < |after|
      ensures FdsDiffer(after, j, k)
    {
      assert FdsDiffer(conns, j, k);
    }
  }

  /** A closed fd is not open any more. */
  lemma ClosedFd(conns: seq<Conn>, i: nat)
    requires OnePerFd(conns) && i < |conns| && conns[i].active
    ensures conns[i].fd !in OpenFds(conns[i := NO_CONN])
  {
    var after := conns[i := NO_CONN];
    forall j: nat | j < |conns| && after[j].active
      ensures after[j].fd != conns[i].fd
    {
      assert j < i ==> FdsDiffer(conns, j, i);
      assert i < j ==> FdsDiffer(conns, i, j);
    }
  }

  lemma OpenFdsUp(conns: seq<Conn>)
    requires OnePerFd(conns) && conns != []
    ensures var front, last := conns[..|conns| - 1], conns[|conns| - 1];
            && ActiveConns(conns) == ActiveConns(front) + (if last.active then {|front|} else {})
            && OpenFds(conns) == OpenFds(front) + (if last.active then {last.fd} else {})
            && (last.active ==> last.fd !in OpenFds(front))
  {
    var front, last := conns[..|conns| - 1], conns[|conns| - 1];
    assert conns == front + [last];
    forall fd
      ensures fd in OpenFds(conns) <==> fd in OpenFds(front) || (last.active && fd == last.fd)
    {
      if i: nat :| i < |front| && front[i].active && front[i].fd == fd { assert conns[i] == front[i]; }
      if last.active && fd == last.fd { assert conns[|front|] == last; }
    }
    forall i: nat | i < |front| && front[i].active && last.active
      ensures front[i].fd != last.fd
    {
      assert FdsDiffer(conns, i, |front|);
    }
  }

  /** As many fds are open as slots are active. */
  lemma {:induction false} OpenFdsCount(conns: seq<Conn>)
    requires OnePerFd(conns)
    ensures |OpenFds(conns)| == |ActiveConns(conns)| <= |conns|
  {
    if conns == [] {
      assert ActiveConns(conns) == {} && OpenFds(conns) == {};
    } else {
      var front, last := conns[..|conns| - 1], conns[|conns| - 1];
      forall i: nat, j: nat | i < j < |front|
        ensures FdsDiffer(front, i, j)
      {
        assert FdsDiffer(conns, i, j);
      }
      OpenFdsCount(front);
      OpenFdsUp(conns);
    }
  }

  class ConnTable {
    const conns: array<Conn>
    var connectionCount: nat

    ghost predicate Valid()
      reads this, conns
    {
      conns.Length == MAX_CONNECTIONS && connectionCount == |ActiveConns(conns[..])|
    }

    constructor ()
      ensures Valid() && fresh(conns) && connectionCount == 0
      ensures forall i :: 0 <= i < MAX_CONNECTIONS ==> conns[i] == NO_CONN
    {
      conns := new Conn[MAX_CONNECTIONS](_ => NO_CONN);
      connectionCount := 0;
      new;
      assert ActiveConns(conns[..]) == {};
    }

    method FindFreeSlot() returns (r: Option<nat>)
      requires conns.Length == MAX_CONNECTIONS
      ensures r == FreeFrom(conns[..], 0)
    {
      for i := 0 to MAX_CONNECTIONS
        invariant FreeFrom(conns[..], i) == FreeFrom(conns[..], 0)
      {
        if !conns[i].active {
          return Some(i);
        }
      }
      return None;
    }

    method FindByFd(fd: int) returns (r: Option<nat>)
      requires conns.Length == MAX_CONNECTIONS
      ensures r == FindFrom(conns[..], fd, 0)
    {
      for i := 0 to MAX_CONNECTIONS
        invariant FindFrom(conns[..], fd, i) == FindFrom(conns[..], fd, 0)
      {
        if conns[i].active && conns[i].fd == fd {
          return Some(i);
        }
      }
      return None;
    }

    method OnOpen(fd: int, at: nat) returns (r: OpenStatus)
      requires Valid()
      modifies this, conns
      ensures Valid()
      ensures r == StatusOfOpen(old(conns[..]), old(connectionCount))
      ensures conns[..] == AfterOpen(old(conns[..]), old(connectionCount), fd, at)
      ensures connectionCount == old(connectionCount) + if r == Opened then 1 else 0
    {
      if connectionCount >= MAX_CONNECTIONS {
        return TooMany;
      }
      var slot := FindFreeSlot();
      if slot.None? {
        return NoSlot;
      }
      OpenActive(conns[..], slot.value, Conn(fd, true, ToU32(at), ToU32(at)));
      conns[slot.value] := Conn(fd, true, ToU32(at), ToU32(at));
      connectionCount := connectionCount + 1;
      return Opened;
    }

    /** The connection's own part of `on_close`, after the disconnect callback. */
    method OnClose(fd: int)
      requires Valid()
      modifies this, conns
      ensures Valid()
      ensures conns[..] == AfterClose(old(conns[..]), fd)
    {
      var slot := FindByFd(fd);
      if slot.Some? {
        CloseActive(conns[..], slot.value);
        conns[slot.value] := NO_CONN;
        connectionCount := connectionCount - 1;
      }
    }
  }
}
