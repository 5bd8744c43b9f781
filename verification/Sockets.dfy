/**
 The socket table: each application has a listening socket and a few connections, and a set of descriptors to watch is
 kept beside the table.
 */
module Sockets {
  const APPS: nat := 16
  const CONNECTIONS: nat := 5
  const UNUSED: int := -1

  /** The listening socket is in the first slot of an application's row, its connections in the others. */
  const LINK: nat := 0
  const ROW: nat := 1 + CONNECTIONS

  datatype Net = Net(rows: seq<seq<int>>, listeners: set<int>, max: int)

  datatype Op = Create(app: nat, fd: int) | Attach(app: nat, fd: int) | Dettach(app: nat, fd: int)

  function Init(): Net {
    Net(seq(APPS, _ => seq(ROW, _ => UNUSED)), {}, 0)
  }

  predicate Shape(rows: seq<seq<int>>) {
    |rows| == APPS && forall a :: 0 <= a < APPS ==> |rows[a]| == ROW
  }

  /** The first slot at or after k that holds fd. */
  function SlotOf(row: seq<int>, fd: int, k: nat): (n: nat)
    requires k <= |row|
    ensures k <= n <= |row| && (n < |row| ==> row[n] == fd)
    ensures forall j :: k <= j < n ==> row[j] != fd
    decreases |row| - k
  {
    if k == |row| || row[k] == fd then k else SlotOf(row, fd, k + 1)
  }

  function Put(rows: seq<seq<int>>, a: nat, k: nat, fd: int): (r: seq<seq<int>>)
    requires Shape(rows) && a < APPS && k < ROW
    ensures Shape(r)
  {
    rows[a := rows[a][k := fd]]
  }

  function Listen(net: Net, a: nat, k: nat, fd: int): Net
    requires Shape(net.rows) && a < APPS && k < ROW
  {
    Net(Put(net.rows, a, k, fd), net.listeners + {fd}, if fd > net.max then fd else net.max)
  }

  function Next(net: Net, op: Op): (n: Net)
    requires Shape(net.rows) && op.app < APPS
    ensures Shape(n.rows)
  {
    match op
    case Create(app, fd) => Listen(net, app, LINK, fd)
    case Attach(app, fd) =>
      var k := SlotOf(net.rows[app], UNUSED, LINK + 1);
      if k < ROW then Listen(net, app, k, fd) else net
    case Dettach(app, fd) =>
      var k := SlotOf(net.rows[app], fd, LINK + 1);
      if k < ROW
      then Net(Put(net.rows, app, k, UNUSED), net.listeners - {fd}, if fd == net.max then net.max - 1 else net.max)
      else net
  }

  // ---------- the table and the watched descriptors ----------

  ghost predicate Holds(rows: seq<seq<int>>, a: nat, k: nat, fd: int)
    requires Shape(rows)
  {
    a < APPS && k < ROW && rows[a][k] == fd
  }

  ghost predicate Owned(rows: seq<seq<int>>, fd: int)
    requires Shape(rows)
  {
    fd != UNUSED && exists a: nat, k: nat :: Holds(rows, a, k, fd)
  }

  ghost predicate OneOwner(rows: seq<seq<int>>, fd: int)
    requires Shape(rows)
  {
    forall a: nat, k: nat, b: nat, l: nat :: Holds(rows, a, k, fd) && Holds(rows, b, l, fd) ==> a == b && k == l
  }

  /** What every run keeps: owned descriptors are watched, have one owner, and the mark bounds all that is watched. */
  ghost predicate Valid(net: Net) {
    && Shape(net.rows)
    && (forall fd :: Owned(net.rows, fd) ==> fd in net.listeners && OneOwner(net.rows, fd))
    && (forall fd :: fd in net.listeners ==> 0 <= fd <= net.max)
  }

  /** Descriptors that are watched but belong to nobody any more. */
  ghost function Leaked(net: Net): set<int>
    requires Shape(net.rows)
  {
    set fd | fd in net.listeners && !Owned(net.rows, fd)
  }

  /** The watched descriptors are exactly those in the table. */
  ghost predicate Agrees(net: Net) {
    Valid(net) && forall fd :: fd in net.listeners <==> Owned(net.rows, fd)
  }

  lemma AgreesIffNoLeak(net: Net)
    requires Valid(net)
    ensures Agrees(net) <==> Leaked(net) == {}
  {
    assert forall fd :: fd in Leaked(net) <==> fd in net.listeners && !Owned(net.rows, fd);
  }

  /** A new descriptor is none of those that are open, and all that are watched are open. */
  predicate Admissible(net: Net, op: Op) {
    && op.app < APPS
    && op.fd >= 0
    && (op.Dettach? || op.fd !in net.listeners)
  }

  /** The listening socket that a new server for the same application makes unreachable. */
  function Overwritten(net: Net, op: Op): set<int>
    requires Shape(net.rows) && op.app < APPS
  {
    if op.Create? && net.rows[op.app][LINK] != UNUSED then {net.rows[op.app][LINK]} else {}
  }

  // ---------- one operation ----------

  lemma HoldsAfterPut(rows: seq<seq<int>>, a: nat, k: nat, fd: int, b: nat, l: nat, x: int)
    requires Shape(rows) && a < APPS && k < ROW
    ensures Holds(Put(rows, a, k, fd), b, l, x) <==> if b == a && l == k then x == fd else Holds(rows, b, l, x)
  {
  }

  /** Storing a new descriptor makes it owned; the one whose slot it takes is owned no longer. */
  lemma OwnedAfterListen(net: Net, a: nat, k: nat, fd: int, x: int)
    requires Valid(net) && a < APPS && k < ROW && fd >= 0 && fd !in net.listeners
    ensures Owned(Put(net.rows, a, k, fd), x) <==> x == fd || (Owned(net.rows, x) && x != net.rows[a][k])
    ensures OneOwner(net.rows, x) && x != fd ==> OneOwner(Put(net.rows, a, k, fd), x)
    ensures OneOwner(Put(net.rows, a, k, fd), fd)
  {
    var rows' := Put(net.rows, a, k, fd);
    forall b: nat, l: nat
      ensures Holds(rows', b, l, x) <==> if b == a && l == k then x == fd else Holds(net.rows, b, l, x)
      ensures Holds(rows', b, l, fd) <==> if b == a && l == k then true else Holds(net.rows, b, l, fd)
    {
      HoldsAfterPut(net.rows, a, k, fd, b, l, x);
      HoldsAfterPut(net.rows, a, k, fd, b, l, fd);
    }
    assert !Owned(net.rows, fd);
    assert Holds(rows', a, k, fd);
    if Owned(net.rows, x) {
      var b: nat, l: nat :| Holds(net.rows, b, l, x);
      assert x != net.rows[a][k] ==> Holds(rows', b, l, x);
      assert Holds(net.rows, a, k, net.rows[a][k]);
    }
  }

  lemma ListenKeeps(net: Net, a: nat, k: nat, fd: int)
    requires Valid(net) && a < APPS && k < ROW && fd >= 0 && fd !in net.listeners
    ensures Valid(Listen(net, a, k, fd))
    ensures Leaked(Listen(net, a, k, fd)) ==
              Leaked(net) + if net.rows[a][k] != UNUSED then {net.rows[a][k]} else {}
  {
    var n, gone := Listen(net, a, k, fd), net.rows[a][k];
    assert Holds(net.rows, a, k, gone);
    assert gone != UNUSED ==> Owned(net.rows, gone);
    forall x
      ensures Owned(n.rows, x) <==> x == fd || (Owned(net.rows, x) && x != gone)
      ensures Owned(n.rows, x) ==> OneOwner(n.rows, x)
    {
      OwnedAfterListen(net, a, k, fd, x);
    }
  }

  lemma OwnedAfterRemove(net: Net, a: nat, k: nat, x: int)
    requires Valid(net) && a < APPS && k < ROW && net.rows[a][k] != UNUSED
    ensures Owned(Put(net.rows, a, k, UNUSED), x) <==> Owned(net.rows, x) && x != net.rows[a][k]
    ensures Owned(net.rows, x) && x != net.rows[a][k] ==> OneOwner(Put(net.rows, a, k, UNUSED), x)
  {
    var rows', gone := Put(net.rows, a, k, UNUSED), net.rows[a][k];
    forall b: nat, l: nat
      ensures Holds(rows', b, l, x) <==> if b == a && l == k then x == UNUSED else Holds(net.rows, b, l, x)
    {
      HoldsAfterPut(net.rows, a, k, UNUSED, b, l, x);
    }
    assert Holds(net.rows, a, k, gone);
    assert Owned(net.rows, gone);
    if Owned(net.rows, x) && x != gone {
      var b: nat, l: nat :| Holds(net.rows, b, l, x);
      assert Holds(rows', b, l, x);
    }
  }

  lemma RemoveKeeps(net: Net, a: nat, k: nat, n: Net)
    requires Valid(net) && a < APPS && k < ROW && net.rows[a][k] != UNUSED
    requires n == Net(Put(net.rows, a, k, UNUSED), net.listeners - {net.rows[a][k]},
                      if net.rows[a][k] == net.max then net.max - 1 else net.max)
    ensures Valid(n) && Leaked(n) == Leaked(net)
  {
    var gone := net.rows[a][k];
    assert Holds(net.rows, a, k, gone);
    assert Owned(net.rows, gone);
    forall x
      ensures Owned(n.rows, x) <==> Owned(net.rows, x) && x != gone
      ensures Owned(n.rows, x) ==> OneOwner(n.rows, x)
    {
      OwnedAfterRemove(net, a, k, x);
    }
  }

  /** No operation loses a descriptor but the creation of a second server for the same application. */
  lemma NextKeeps(net: Net, op: Op)
    requires Valid(net) && Admissible(net, op)
    ensures Valid(Next(net, op))
    ensures Leaked(Next(net, op)) == Leaked(net) + Overwritten(net, op)
  {
    match op
    case Create(app, fd) => ListenKeeps(net, app, LINK, fd);
    case Attach(app, fd) =>
      var k := SlotOf(net.rows[app], UNUSED, LINK + 1);
      if k < ROW {
        ListenKeeps(net, app, k, fd);
      }
    case Dettach(app, fd) =>
      var k := SlotOf(net.rows[app], fd, LINK + 1);
      if k < ROW {
        RemoveKeeps(net, app, k, Next(net, op));
      }
  }

  // ---------- what an operation does ----------

  ghost predicate Connected(rows: seq<seq<int>>, app: nat, fd: int)
    requires Shape(rows) && app < APPS
  {
    fd in rows[app][LINK + 1..]
  }

  lemma ConnectedAt(rows: seq<seq<int>>, app: nat, fd: int)
    requires Shape(rows) && app < APPS
    ensures Connected(rows, app, fd) <==> exists k: nat :: k != LINK && Holds(rows, app, k, fd)
    ensures Connected(rows, app, fd) <==> SlotOf(rows[app], fd, LINK + 1) < ROW
  {
    var row := rows[app];
    assert forall k: nat :: LINK < k < ROW ==> row[k] == row[LINK + 1..][k - 1];
    if Connected(rows, app, fd) {
      var j :| 0 <= j < ROW - 1 && row[LINK + 1..][j] == fd;
      assert row[j + 1] == fd && Holds(rows, app, j + 1, fd);
    }
  }

  /** A slot is as it was. */
  ghost predicate SameSlot(net: Net, n: Net, a: nat, k: nat)
    requires Shape(net.rows) && Shape(n.rows)
  {
    a < APPS && k < ROW ==> n.rows[a][k] == net.rows[a][k]
  }

  /** A new server holds its descriptor, which is watched; every other slot stays. */
  lemma CreateOpens(net: Net, app: nat, fd: int, n: Net)
    requires Valid(net) && Admissible(net, Create(app, fd)) && n == Next(net, Create(app, fd))
    ensures n.rows[app][LINK] == fd && n.listeners == net.listeners + {fd}
    ensures forall a: nat, k: nat :: (a, k) != (app, LINK) ==> SameSlot(net, n, a, k)
    ensures fd > net.max ==> n.max == fd
    ensures fd <= net.max ==> n.max == net.max
  {
  }

  /**
   A new connection takes the first unused slot of its application and is watched; every other slot stays. Without an
   unused slot nothing changes.
   */
  lemma AttachOpens(net: Net, app: nat, fd: int, n: Net) returns (k: nat)
    requires Valid(net) && Admissible(net, Attach(app, fd)) && n == Next(net, Attach(app, fd))
    ensures Connected(net.rows, app, UNUSED) ==>
              && Connected(n.rows, app, fd)
              && LINK < k < ROW && net.rows[app][k] == UNUSED && n.rows[app][k] == fd
              && (forall j :: LINK < j < k ==> net.rows[app][j] != UNUSED)
              && n.listeners == net.listeners + {fd}
              && (forall a: nat, l: nat :: (a, l) != (app, k) ==> SameSlot(net, n, a, l))
              && (fd > net.max ==> n.max == fd) && (fd <= net.max ==> n.max == net.max)
    ensures !Connected(net.rows, app, UNUSED) ==> n == net
  {
    ConnectedAt(net.rows, app, UNUSED);
    k := SlotOf(net.rows[app], UNUSED, LINK + 1);
    if k < ROW {
      assert Holds(n.rows, app, k, fd);
      ConnectedAt(n.rows, app, fd);
    }
  }

  /**
   A connection that is dettached is not watched any more and stands in no slot of any row; every other slot stays. If the
   application has no such connection nothing changes.
   */
  lemma DettachCloses(net: Net, app: nat, fd: int, n: Net)
    requires Valid(net) && Admissible(net, Dettach(app, fd)) && n == Next(net, Dettach(app, fd))
    ensures Connected(net.rows, app, fd) ==>
              && n.listeners == net.listeners - {fd} && !Owned(n.rows, fd)
              && (forall a: nat, k: nat :: a < APPS && k < ROW && net.rows[a][k] != fd ==> n.rows[a][k] == net.rows[a][k])
              && (forall a: nat, k: nat :: a < APPS && k < ROW && net.rows[a][k] == fd ==> n.rows[a][k] == UNUSED)
              && (fd == net.max ==> n.max == net.max - 1) && (fd != net.max ==> n.max == net.max)
    ensures !Connected(net.rows, app, fd) ==> n == net
  {
    ConnectedAt(net.rows, app, fd);
    var k := SlotOf(net.rows[app], fd, LINK + 1);
    if k < ROW {
      assert Holds(net.rows, app, k, fd) && Owned(net.rows, fd);
      OwnedAfterRemove(net, app, k, fd);
      forall a: nat, l: nat | a < APPS && l < ROW && net.rows[a][l] == fd
        ensures a == app && l == k
      {
        assert Holds(net.rows, a, l, fd) && OneOwner(net.rows, fd);
      }
    }
  }

  // ---------- whole runs ----------

  ghost predicate AllAdmissible(net: Net, ops: seq<Op>)
    requires Shape(net.rows)
    decreases |ops|
  {
    ops != [] ==> Admissible(net, ops[0]) && AllAdmissible(Next(net, ops[0]), ops[1..])
  }

  ghost function RunOps(net: Net, ops: seq<Op>): (n: Net)
    requires Shape(net.rows) && AllAdmissible(net, ops)
    ensures Shape(n.rows)
    decreases |ops|
  {
    if ops == [] then net else RunOps(Next(net, ops[0]), ops[1..])
  }

  ghost function AllOverwritten(net: Net, ops: seq<Op>): set<int>
    requires Shape(net.rows) && AllAdmissible(net, ops)
    decreases |ops|
  {
    if ops == [] then {} else Overwritten(net, ops[0]) + AllOverwritten(Next(net, ops[0]), ops[1..])
  }

  lemma {:induction false} RunKeeps(net: Net, ops: seq<Op>)
    requires Valid(net) && AllAdmissible(net, ops)
    ensures Valid(RunOps(net, ops))
    ensures Leaked(RunOps(net, ops)) == Leaked(net) + AllOverwritten(net, ops)
    decreases |ops|
  {
    if ops != [] {
      NextKeeps(net, ops[0]);
      RunKeeps(Next(net, ops[0]), ops[1..]);
    }
  }

  lemma InitAgrees()
    ensures Agrees(Init()) && Leaked(Init()) == {}
  {
    assert forall fd :: !Owned(Init().rows, fd);
  }

  /**
   After every run the mark bounds what is watched and no descriptor has two owners; and the watched descriptors are
   exactly those in the table if and only if no server was created for an application that had one.
   */
  lemma AllRuns(ops: seq<Op>, n: Net)
    requires AllAdmissible(Init(), ops) && n == RunOps(Init(), ops)
    ensures Valid(n)
    ensures Agrees(n) <==> AllOverwritten(Init(), ops) == {}
  {
    InitAgrees();
    RunKeeps(Init(), ops);
    AgreesIffNoLeak(n);
  }

  // ---------- what is ready ----------

  datatype Event = Timeout | GenericError | Ready(app: nat, link: bool, fd: int)

  /** The descriptor that is served: the least of those that are ready. */
  ghost predicate IsLeast(ready: set<int>, fd: int) {
    fd in ready && forall x :: x in ready ==> fd <= x
  }

  /** The outcome of serving a descriptor: its owner, or the generic error if it has none. */
  ghost predicate Serves(rows: seq<seq<int>>, fd: int, e: Event)
    requires Shape(rows)
  {
    match e
    case Timeout => false
    case GenericError => !Owned(rows, fd)
    case Ready(app, link, x) => x == fd && exists k: nat :: Holds(rows, app, k, fd) && (link <==> k == LINK)
  }

  /** While table and watched set agree, whatever is ready has exactly one outcome, and that is not the error. */
  lemma ReadyHasOwner(net: Net, fd: int, d: Event, e: Event)
    requires Agrees(net) && fd in net.listeners
    requires Serves(net.rows, fd, d) && Serves(net.rows, fd, e)
    ensures d == e && d.Ready?
  {
    assert Owned(net.rows, fd) && OneOwner(net.rows, fd);
    var k: nat :| Holds(net.rows, d.app, k, fd) && (d.link <==> k == LINK);
    var l: nat :| Holds(net.rows, e.app, l, fd) && (e.link <==> l == LINK);
  }

  class SocketHandler {
    const table: array<seq<int>>
    var listeners: set<int>
    var maxListener: int

    function State(): Net
      reads this, table
    {
      Net(table[..], listeners, maxListener)
    }

    constructor ()
      ensures State() == Init() && fresh(table)
    {
      table := new seq<int>[APPS](_ => seq(ROW, _ => UNUSED));
      listeners, maxListener := {}, 0;
      new;
      assert table[..] == Init().rows;
    }

    method AppendListener(fd: int)
      modifies this
      ensures listeners == old(listeners) + {fd}
      ensures maxListener == if fd > old(maxListener) then fd else old(maxListener)
    {
      maxListener := if fd > maxListener then fd else maxListener;
      listeners := listeners + {fd};
    }

    method CreateServer(app: nat, fd: int)
      requires Valid(State()) && Admissible(State(), Create(app, fd))
      modifies this, table
      ensures State() == Next(old(State()), Create(app, fd)) && Valid(State())
      ensures table[app][LINK] == fd && listeners == old(listeners) + {fd}
    {
      NextKeeps(State(), Create(app, fd));
      CreateOpens(State(), app, fd, Next(State(), Create(app, fd)));
      table[app] := table[app][LINK := fd];
      AppendListener(fd);
    }

    method AttachConnection(app: nat, fd: int) returns (ok: bool)
      requires Valid(State()) && Admissible(State(), Attach(app, fd))
      modifies this, table
      ensures State() == Next(old(State()), Attach(app, fd)) && Valid(State())
      ensures ok <==> State() != old(State())
      ensures ok <==> UNUSED in old(table[app])[LINK + 1..]
      ensures ok ==> fd in table[app][LINK + 1..] && listeners == old(listeners) + {fd}
    {
      NextKeeps(State(), Attach(app, fd));
      ghost var _ := AttachOpens(State(), app, fd, Next(State(), Attach(app, fd)));
      var k := FindSlot(app, UNUSED);
      ok := k < ROW;
      if ok {
        table[app] := table[app][k := fd];
        AppendListener(fd);
      }
    }

    method DettachConnection(app: nat, fd: int)
      requires Valid(State()) && Admissible(State(), Dettach(app, fd))
      modifies this, table
      ensures State() == Next(old(State()), Dettach(app, fd)) && Valid(State())
      ensures fd in old(table[app])[LINK + 1..] ==> listeners == old(listeners) - {fd} && !Owned(table[..], fd)
      ensures fd !in old(table[app])[LINK + 1..] ==> State() == old(State())
    {
      NextKeeps(State(), Dettach(app, fd));
      DettachCloses(State(), app, fd, Next(State(), Dettach(app, fd)));
      var k := FindSlot(app, fd);
      if k < ROW {
        table[app] := table[app][k := UNUSED];
        listeners := listeners - {fd};
        maxListener := if fd == maxListener then maxListener - 1 else maxListener;
      }
    }

    /** The connection slot of the application that holds fd, or one past the last. */
    method FindSlot(app: nat, fd: int) returns (k: nat)
      requires Shape(table[..]) && app < APPS
      ensures k == SlotOf(table[app], fd, LINK + 1)
      ensures k < ROW <==> fd in table[app][LINK + 1..]
    {
      var row := table[app];
      k := LINK + 1;
      while k < ROW && row[k] != fd
        invariant LINK + 1 <= k <= ROW
        invariant SlotOf(row, fd, LINK + 1) == SlotOf(row, fd, k)
        invariant fd !in row[LINK + 1..k]
      {
        k := k + 1;
      }
    }

    /**
     Waits, and serves the least descriptor that is ready. The count is what the wait returns: zero when nothing happened in
     time, less on an error. Only descriptors that are watched, up to the mark, can be ready.
     */
    method Select(count: int, ready: set<int>) returns (e: Event)
      requires Valid(State()) && (count > 0 ==> ready != {} && ready <= listeners)
      ensures e == Timeout <==> count == 0
      ensures count < 0 ==> e == GenericError
      ensures count > 0 ==> exists fd :: IsLeast(ready, fd) && Serves(table[..], fd, e)
      ensures count > 0 && Agrees(State()) ==> e.Ready?
    {
      if count == 0 {
        return Timeout;
      }
      if count < 0 {
        return GenericError;
      }
      var fd := 0;
      while fd <= maxListener && fd !in ready
        invariant 0 <= fd && forall x :: x in ready ==> fd <= x
      {
        fd := fd + 1;
      }
      assert IsLeast(ready, fd) by {
        var x :| x in ready;
        assert x in listeners;
      }
      e := Owner(fd);
    }

    /** The first row that holds the descriptor; in a row the listening socket is looked at first. */
    method Owner(fd: int) returns (e: Event)
      requires Shape(table[..]) && fd != UNUSED
      ensures Serves(table[..], fd, e)
    {
      var a := 0;
      while a < APPS
        invariant 0 <= a <= APPS
        invariant forall b: nat, k: nat :: b < a ==> !Holds(table[..], b, k, fd)
      {
        if table[a][LINK] == fd {
          assert Holds(table[..], a, LINK, fd);
          return Ready(a, true, fd);
        }
        var k := FindSlot(a, fd);
        if k < ROW {
          assert Holds(table[..], a, k, fd);
          return Ready(a, false, fd);
        }
        a := a + 1;
      }
      e := GenericError;
    }
  }
}
