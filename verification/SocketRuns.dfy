/**
 What the socket table and the watched descriptors are after any run: the listening sockets and connections that were opened
 and are not closed again, as maps.
 */
module SocketRuns {
  import opened Sockets

  // ---------- what is open ----------

  /** Listening sockets by application, connections with their application, and sockets that were overwritten. */
  datatype Open = Open(links: map<nat, int>, conns: map<int, nat>, lost: set<int>)

  function ConnsOf(o: Open, app: nat): set<int> {
    set fd | fd in o.conns && o.conns[fd] == app
  }

  function OpenNext(o: Open, op: Op): Open {
    match op
    case Create(app, fd) =>
      Open(o.links[app := fd], o.conns, if app in o.links then o.lost + {o.links[app]} else o.lost)
    case Attach(app, fd) =>
      if |ConnsOf(o, app)| < 5 then Open(o.links, o.conns[fd := app], o.lost) else o
    case Dettach(app, fd) =>
      if fd in ConnsOf(o, app) then Open(o.links, o.conns - {fd}, o.lost) else o
  }

  function OpenAfter(o: Open, ops: seq<Op>): Open
    decreases |ops|
  {
    if ops == [] then o else OpenAfter(OpenNext(o, ops[0]), ops[1..])
  }

  function Watched(o: Open): set<int> {
    o.links.Values + o.conns.Keys + o.lost
  }

  ghost predicate LinksMatch(o: Open, rows: seq<seq<int>>)
    requires Shape(rows)
  {
    && (forall a :: a in o.links ==> a < APPS && o.links[a] >= 0)
    && (forall a: nat :: a < APPS ==> rows[a][LINK] == if a in o.links then o.links[a] else UNUSED)
  }

  ghost predicate ConnsMatch(o: Open, rows: seq<seq<int>>)
    requires Shape(rows)
  {
    && (forall fd :: fd in o.conns ==> fd >= 0 && o.conns[fd] < APPS)
    && (forall a: nat, fd :: a < APPS && fd >= 0 ==> (Connected(rows, a, fd) <==> fd in o.conns && o.conns[fd] == a))
  }

  ghost predicate Matches(o: Open, net: Net) {
    && Valid(net) && (forall a: nat, k: nat :: a < APPS && k < ROW ==> net.rows[a][k] >= UNUSED)
    && LinksMatch(o, net.rows) && ConnsMatch(o, net.rows) && net.listeners == Watched(o) && Leaked(net) == o.lost
  }

  // ---------- how many connections there are ----------

  function Used(c: seq<int>): set<int> {
    set x | x in c && x != UNUSED
  }

  ghost predicate Distinct(c: seq<int>) {
    forall i, j :: 0 <= i < j < |c| && c[i] == c[j] ==> c[i] == UNUSED
  }

  lemma UsedOfMore(x: int, rest: seq<int>)
    ensures Used([x] + rest) == Used(rest) + if x == UNUSED then {} else {x}
  {
  }

  lemma DistinctRest(x: int, rest: seq<int>)
    requires Distinct([x] + rest)
    ensures Distinct(rest) && (x != UNUSED ==> x !in Used(rest))
  {
    var c := [x] + rest;
    assert forall j :: 0 <= j < |rest| ==> rest[j] == c[j + 1];
    assert c[0] == x;
  }

  /** Among different descriptors there is an unused slot exactly if there are fewer than slots. */
  lemma {:induction false} UsedCount(c: seq<int>)
    requires Distinct(c)
    ensures |Used(c)| <= |c| && (|Used(c)| < |c| <==> UNUSED in c)
    decreases |c|
  {
    if c != [] {
      var x, rest := c[0], c[1..];
      assert c == [x] + rest;
      DistinctRest(x, rest);
      UsedOfMore(x, rest);
      UsedCount(rest);
    }
  }

  lemma RoomIffFewer(o: Open, net: Net, app: nat)
    requires Matches(o, net) && app < APPS
    ensures Connected(net.rows, app, UNUSED) <==> |ConnsOf(o, app)| < 5
  {
    var c := net.rows[app][LINK + 1..];
    forall i, j | 0 <= i < j < |c| && c[i] == c[j]
      ensures c[i] == UNUSED
    {
      assert Holds(net.rows, app, i + 1, c[i]) && Holds(net.rows, app, j + 1, c[i]);
      assert Owned(net.rows, c[i]) ==> OneOwner(net.rows, c[i]);
    }
    UsedCount(c);
    forall fd
      ensures fd in Used(c) <==> fd in ConnsOf(o, app)
    {
      if fd in c && fd != UNUSED {
        var i :| 0 <= i < |c| && c[i] == fd;
        assert net.rows[app][i + 1] == fd;
      }
      assert fd >= 0 ==> (Connected(net.rows, app, fd) <==> fd in o.conns && o.conns[fd] == app);
    }
    assert Used(c) == ConnsOf(o, app);
  }

  // ---------- the table and what is open ----------

  lemma MatchesCreate(o: Open, net: Net, op: Op, n: Net)
    requires Matches(o, net) && op.Create? && Admissible(net, op) && n == Next(net, op)
    ensures Matches(OpenNext(o, op), n)
  {
    var app, fd := op.app, op.fd;
    NextKeeps(net, op);
    CreateOpens(net, app, fd, n);
    var o' := OpenNext(o, op);
    forall a: nat, x | a < APPS
      ensures Connected(n.rows, a, x) <==> Connected(net.rows, a, x)
    {
      SameTail(net, n, a);
    }
    assert o.links.Values + {fd} + o.lost == o'.links.Values + o'.lost by {
      ReplacedValue(o.links, app, fd, o.lost);
    }
  }

  lemma SameTail(net: Net, n: Net, a: nat)
    requires Shape(net.rows) && Shape(n.rows) && a < APPS
    requires forall k: nat :: k != LINK ==> SameSlot(net, n, a, k)
    ensures n.rows[a][LINK + 1..] == net.rows[a][LINK + 1..]
  {
    forall k: nat | LINK < k < ROW
      ensures n.rows[a][k] == net.rows[a][k]
    {
      assert SameSlot(net, n, a, k);
    }
  }

  lemma ReplacedValue(m: map<nat, int>, k: nat, v: int, lost: set<int>)
    ensures m.Values + {v} + lost == m[k := v].Values + if k in m then lost + {m[k]} else lost
  {
    var m' := m[k := v];
    forall x
      ensures x in m.Values + {v} + lost <==> x in m'.Values + if k in m then lost + {m[k]} else lost
    {
      if x in m.Values {
        var i :| i in m && m[i] == x;
        assert i != k ==> i in m' && m'[i] == x;
      }
      if x in m'.Values {
        var i :| i in m' && m'[i] == x;
        assert i != k ==> i in m && m[i] == x;
      }
      assert k in m' && m'[k] == v;
    }
  }

  lemma MatchesAttach(o: Open, net: Net, op: Op, n: Net)
    requires Matches(o, net) && op.Attach? && Admissible(net, op) && n == Next(net, op)
    ensures Matches(OpenNext(o, op), n)
  {
    var app, fd := op.app, op.fd;
    NextKeeps(net, op);
    RoomIffFewer(o, net, app);
    var k := AttachOpens(net, app, fd, n);
    if Connected(net.rows, app, UNUSED) {
      ConnsAfterAttach(o, net, app, fd, k, n);
      LinksStay(net, n, app, k);
      WatchedWith(o, fd, app);
    }
  }

  lemma WatchedWith(o: Open, fd: int, app: nat)
    ensures Watched(Open(o.links, o.conns[fd := app], o.lost)) == Watched(o) + {fd}
  {
  }

  lemma ConnsAfterAttach(o: Open, net: Net, app: nat, fd: int, k: nat, n: Net)
    requires Shape(net.rows) && Shape(n.rows) && ConnsMatch(o, net.rows) && fd !in o.conns && fd >= 0
    requires app < APPS && LINK < k < ROW && net.rows[app][k] == UNUSED && n.rows[app][k] == fd
    requires forall b: nat, l: nat :: (b, l) != (app, k) ==> SameSlot(net, n, b, l)
    ensures ConnsMatch(Open(o.links, o.conns[fd := app], o.lost), n.rows)
  {
    forall a: nat, x | a < APPS && x >= 0
      ensures Connected(n.rows, a, x) <==> Connected(net.rows, a, x) || (a == app && x == fd)
    {
      ConnectedAfterPut(net, n, app, k, fd, a, x);
    }
  }

  lemma ConnectedAfterPut(net: Net, n: Net, app: nat, k: nat, fd: int, a: nat, x: int)
    requires Shape(net.rows) && Shape(n.rows) && app < APPS && LINK < k < ROW && a < APPS
    requires n.rows[app][k] == fd && forall b: nat, l: nat :: (b, l) != (app, k) ==> SameSlot(net, n, b, l)
    requires x != net.rows[app][k]
    ensures Connected(n.rows, a, x) <==> Connected(net.rows, a, x) || (a == app && x == fd)
  {
    forall l: nat
      ensures l != LINK && Holds(n.rows, a, l, x) <==>
                l != LINK && if (a, l) == (app, k) then x == fd else Holds(net.rows, a, l, x)
    {
      assert (a, l) != (app, k) ==> SameSlot(net, n, a, l);
    }
    ConnectedAt(net.rows, a, x);
    ConnectedAt(n.rows, a, x);
    assert a == app && x == fd ==> Holds(n.rows, a, k, x);
  }

  lemma LinksStay(net: Net, n: Net, app: nat, k: nat)
    requires Shape(net.rows) && Shape(n.rows) && k != LINK
    requires forall b: nat, l: nat :: (b, l) != (app, k) ==> SameSlot(net, n, b, l)
    ensures forall a: nat :: a < APPS ==> n.rows[a][LINK] == net.rows[a][LINK]
  {
    forall a: nat | a < APPS
      ensures n.rows[a][LINK] == net.rows[a][LINK]
    {
      assert SameSlot(net, n, a, LINK);
    }
  }

  lemma MatchesDettach(o: Open, net: Net, op: Op, n: Net)
    requires Matches(o, net) && op.Dettach? && Admissible(net, op) && n == Next(net, op)
    ensures Matches(OpenNext(o, op), n)
  {
    var app, fd := op.app, op.fd;
    NextKeeps(net, op);
    DettachCloses(net, app, fd, n);
    assert Connected(net.rows, app, fd) <==> fd in ConnsOf(o, app);
    if Connected(net.rows, app, fd) {
      ConnectedAt(net.rows, app, fd);
      var k: nat :| k != LINK && Holds(net.rows, app, k, fd);
      NotALink(o, net, app, k, fd);
      ConnsAfterDettach(o, net, app, fd, n);
      assert LinksMatch(o, n.rows);
      WatchedWithout(o, fd, app);
    }
  }

  lemma WatchedWithout(o: Open, fd: int, app: nat)
    requires fd in ConnsOf(o, app) && fd !in o.links.Values && fd !in o.lost
    ensures Watched(Open(o.links, o.conns - {fd}, o.lost)) == Watched(o) - {fd}
  {
  }

  lemma ConnsAfterDettach(o: Open, net: Net, app: nat, fd: int, n: Net)
    requires Shape(net.rows) && Shape(n.rows) && ConnsMatch(o, net.rows) && fd in o.conns
    requires forall b: nat, k: nat :: b < APPS && k < ROW && net.rows[b][k] != fd ==> n.rows[b][k] == net.rows[b][k]
    requires forall b: nat, k: nat :: b < APPS && k < ROW && net.rows[b][k] == fd ==> n.rows[b][k] == UNUSED
    ensures ConnsMatch(Open(o.links, o.conns - {fd}, o.lost), n.rows)
  {
    forall a: nat, x | a < APPS && x >= 0
      ensures Connected(n.rows, a, x) <==> Connected(net.rows, a, x) && x != fd
    {
      ConnectedWithout(net, n, fd, a, x);
    }
  }

  /** A connection is no listening socket, and was never overwritten. */
  lemma NotALink(o: Open, net: Net, app: nat, k: nat, fd: int)
    requires Matches(o, net) && fd >= 0 && k != LINK && Holds(net.rows, app, k, fd)
    ensures fd !in o.links.Values && fd !in o.lost
    ensures forall a: nat :: a < APPS ==> net.rows[a][LINK] != fd
  {
    assert Owned(net.rows, fd) && OneOwner(net.rows, fd);
    assert fd !in Leaked(net);
    forall a: nat | a < APPS
      ensures net.rows[a][LINK] != fd
    {
      assert Holds(net.rows, a, LINK, net.rows[a][LINK]);
    }
  }

  lemma ConnectedWithout(net: Net, n: Net, fd: int, a: nat, x: int)
    requires Shape(net.rows) && Shape(n.rows) && a < APPS && x >= 0
    requires forall b: nat, k: nat :: b < APPS && k < ROW && net.rows[b][k] != fd ==> n.rows[b][k] == net.rows[b][k]
    requires forall b: nat, k: nat :: b < APPS && k < ROW && net.rows[b][k] == fd ==> n.rows[b][k] == UNUSED
    ensures Connected(n.rows, a, x) <==> Connected(net.rows, a, x) && x != fd
  {
    ConnectedAt(net.rows, a, x);
    ConnectedAt(n.rows, a, x);
    assert forall k: nat :: Holds(n.rows, a, k, x) <==> Holds(net.rows, a, k, x) && x != fd;
  }

  lemma MatchesNext(o: Open, net: Net, op: Op)
    requires Matches(o, net) && Admissible(net, op)
    ensures Matches(OpenNext(o, op), Next(net, op))
  {
    match op
    case Create(_, _) => MatchesCreate(o, net, op, Next(net, op));
    case Attach(_, _) => MatchesAttach(o, net, op, Next(net, op));
    case Dettach(_, _) => MatchesDettach(o, net, op, Next(net, op));
  }

  // ---------- whole runs ----------

  lemma {:induction false} MatchesRun(o: Open, net: Net, ops: seq<Op>)
    requires Matches(o, net) && AllAdmissible(net, ops)
    ensures Matches(OpenAfter(o, ops), RunOps(net, ops))
    decreases |ops|
  {
    if ops != [] {
      MatchesNext(o, net, ops[0]);
      MatchesRun(OpenNext(o, ops[0]), Next(net, ops[0]), ops[1..]);
    }
  }

  lemma MatchesInit(net: Net)
    requires net == Init()
    ensures Matches(Open(map[], map[], {}), net)
  {
    InitAgrees();
    assert Watched(Open(map[], map[], {})) == {};
    assert forall a: nat, fd :: a < APPS && fd >= 0 ==> !Connected(net.rows, a, fd);
  }

  /**
   After every run the table holds exactly the listening sockets and connections that were opened and not closed since, each
   with the application that opened it, and what is watched is these and the listening sockets that were overwritten.
   */
  lemma RunMatches(ops: seq<Op>, n: Net, o: Open)
    requires AllAdmissible(Init(), ops) && n == RunOps(Init(), ops) && o == OpenAfter(Open(map[], map[], {}), ops)
    ensures |n.rows| == 16 && LinksMatch(o, n.rows) && ConnsMatch(o, n.rows)
    ensures n.listeners == o.links.Values + o.conns.Keys + o.lost
  {
    MatchesInit(Init());
    MatchesRun(Open(map[], map[], {}), Init(), ops);
  }
}
