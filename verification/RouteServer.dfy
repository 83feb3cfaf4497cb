/** The route server's objects: routing tables, the participants' peers that own two of them each, and
    the server that passes messages to the peers and decides.

    `Server.View` is the value of all tables; every method is proved to do to it what the functions of
    the module of values say. */
module RouteServer {
  import opened Wrappers
  import opened BestPath
  import opened Decision

  /** A routing table. Rows are only ever added at the end. */
  class Rib {
    var rows: seq<Route>

    constructor ()
      ensures rows == []
    {
      rows := [];
    }

    method Add(row: Route)
      modifies this
      ensures rows == old(rows) + [row]
    {
      rows := rows + [row];
    }

    /** The first row of the prefix. */
    method Get(prefix: string) returns (row: Option<Route>)
      ensures row == FirstFor(rows, prefix)
      ensures row.None? <==> forall r | r in rows :: r.prefix != prefix
      ensures row.Some? ==> exists i: nat ::
                && i < |rows| && rows[i] == row.value && rows[i].prefix == prefix
                && forall j | 0 <= j < i :: rows[j].prefix != prefix
    {
      row := FirstFor(rows, prefix);
      FirstForIsFirst(rows, prefix);
    }

    method GetAll(prefix: string) returns (found: seq<Route>)
      ensures found == RowsFor(rows, prefix)
    {
      found := [];
      for i := 0 to |rows|
        invariant found == RowsFor(rows[..i], prefix)
      {
        assert rows[..i + 1] == rows[..i] + [rows[i]];
        assert rows[..i + 1][..i] == rows[..i];
        if rows[i].prefix == prefix {
          found := found + [rows[i]];
        }
      }
      assert rows[..|rows|] == rows;
    }

    method Delete(prefix: string)
      modifies this
      ensures rows == RowsExcept(old(rows), prefix)
    {
      var kept: seq<Route> := [];
      for i := 0 to |rows|
        invariant rows == old(rows) && kept == RowsExcept(rows[..i], prefix)
      {
        assert rows[..i + 1] == rows[..i] + [rows[i]];
        assert rows[..i + 1][..i] == rows[..i];
        if rows[i].prefix != prefix {
          kept := kept + [rows[i]];
        }
      }
      assert rows[..|rows|] == rows;
      rows := kept;
    }

    method DeleteAll()
      modifies this
      ensures rows == []
    {
      rows := [];
    }
  }

  /** A participant's side of the server. */
  class Peer {
    const ips: set<string>
    const input: Rib
    const local: Rib

    constructor (ips: set<string>)
      ensures this.ips == ips && fresh(input) && fresh(local) && input != local
      ensures input.rows == [] && local.rows == []
    {
      this.ips := ips;
      input := new Rib();
      local := new Rib();
    }

    function Tables(): Tables
      reads input, local
    {
      Decision.Tables(input.rows, local.rows)
    }

    /** The session is down: its routes are forgotten. */
    method Down()
      requires input != local
      modifies input, local
      ensures Tables() == Downed(old(Tables()))
    {
      var routes := input.rows;
      for i := 0 to |routes|
        invariant input.rows == routes && local.rows == Cleared(old(local.rows), routes[..i])
      {
        assert routes[..i + 1][..i] == routes[..i];
        local.Delete(routes[i].prefix);
      }
      assert routes[..|routes|] == routes;
      input.DeleteAll();
    }

    method Announce(routes: seq<(string, string)>, a: Attribute) returns (list: seq<Item>)
      requires input != local
      modifies input
      ensures input.rows == WithRoutes(old(input.rows), routes, a)
      ensures AddsRows(old(input.rows), input.rows, routes, a)
      ensures list == AnnouncedItems(old(input.rows), routes, a)
    {
      ghost var before := input.rows;
      list := [];
      for i := 0 to |routes|
        invariant input.rows == WithRoutes(old(input.rows), routes[..i], a)
        invariant list == AnnouncedItems(old(input.rows), routes[..i], a)
      {
        assert routes[..i + 1][..i] == routes[..i];
        input.Add(RowOf(routes[i], a));
        var announced := input.Get(routes[i].0);
        if announced.Some? {
          list := list + [Announced(announced.value)];
        }
      }
      assert routes[..|routes|] == routes;
      RowsAdded(before, routes, a);
    }

    method Withdraw(prefixes: seq<string>) returns (list: seq<Item>)
      requires input != local
      modifies input
      ensures input.rows == WithoutRoutes(old(input.rows), prefixes)
      ensures list == WithdrawnItems(old(input.rows), prefixes)
    {
      list := [];
      for i := 0 to |prefixes|
        invariant input.rows == WithoutRoutes(old(input.rows), prefixes[..i])
        invariant list == WithdrawnItems(old(input.rows), prefixes[..i])
      {
        assert prefixes[..i + 1][..i] == prefixes[..i];
        var deleted := input.Get(prefixes[i]);
        input.Delete(prefixes[i]);
        list := list + [Withdrawn(deleted)];
      }
      assert prefixes[..|prefixes|] == prefixes;
    }

    /** Applies an update; fails when routes are announced without attributes. */
    method Apply(u: Update) returns (list: seq<Item>, ok: bool)
      requires input != local
      modifies input
      ensures Report(Tables(), list, ok) == Updated(old(Tables()), u)
    {
      list, ok := [], true;
      if u.announce.Some? {
        if u.announce.value != [] {
          if u.attribute.None? {
            return [], false;
          }
          list := Announce(u.announce.value, u.attribute.value);
        }
      } else if u.withdraw.Some? {
        list := Withdraw(u.withdraw.value);
      }
    }

    method Receive(m: Message) returns (list: seq<Item>, ok: bool)
      requires input != local
      modifies input, local
      ensures Report(Tables(), list, ok) == Received(old(Tables()), ips, m)
    {
      list, ok := [], true;
      match m
      case Neighbor(ip, down, update) =>
        if ip.Some? && ip.value in ips {
          if down {
            Down();
          }
          if update.Some? {
            list, ok := Apply(update.value);
          }
        }
      case Notification(kind) =>
        if kind == "shutdown" {
          input.DeleteAll();
          local.DeleteAll();
        }
      case OtherMessage =>
    }
  }

  class Server {
    const participants: seq<Peer>

    /** Every participant gets a peer with two empty tables. */
    constructor (ips: seq<set<string>>)
      ensures Valid() && fresh(Ribs()) && Ips() == ips
      ensures forall i: nat | i < |participants| :: View()[i] == Tables([], [])
    {
      var peers: seq<Peer> := [];
      for n := 0 to |ips|
        invariant |peers| == n
        invariant forall i: nat | i < n :: fresh(peers[i].input) && fresh(peers[i].local)
        invariant forall i: nat | i < n :: peers[i].ips == ips[i] && peers[i].input != peers[i].local
        invariant forall i: nat | i < n :: peers[i].input.rows == [] && peers[i].local.rows == []
        invariant forall i: nat, j: nat | i < j < n :: Apart(peers[i], peers[j])
      {
        var peer := new Peer(ips[n]);
        peers := peers + [peer];
      }
      participants := peers;
    }

    ghost predicate Valid() {
      && (forall i: nat | i < |participants| :: participants[i].input != participants[i].local)
      && (forall i: nat, j: nat | i < j < |participants| :: Apart(participants[i], participants[j]))
    }

    static ghost predicate Apart(p: Peer, q: Peer) {
      p.input != q.input && p.input != q.local && p.local != q.input && p.local != q.local
    }

    ghost function Ribs(): set<object> {
      (set p | p in participants :: p.input) + (set p | p in participants :: p.local)
    }

    ghost function View(): (x: Exchange)
      reads Ribs()
      ensures |x| == |participants|
      ensures forall i: nat | i < |x| :: x[i] == participants[i].Tables()
    {
      seq(|participants|, i requires 0 <= i < |participants| reads Ribs() =>
        assert participants[i].input in Ribs() && participants[i].local in Ribs();
        participants[i].Tables())
    }

    ghost function Ips(): (ips: seq<set<string>>)
      ensures |ips| == |participants|
      ensures forall i: nat | i < |ips| :: ips[i] == participants[i].ips
    {
      seq(|participants|, i requires 0 <= i < |participants| => participants[i].ips)
    }

    /** The routes for a prefix that the other participants announced. */
    method RoutesOfOthers(me: nat, prefix: string, ghost x: Exchange) returns (routes: seq<Route>)
      requires Valid() && me < |participants| && x == View()
      ensures View() == x && routes == Others(x, me, prefix)
    {
      routes := [];
      for j := 0 to |participants|
        invariant View() == x && routes == OthersUpTo(x, me, prefix, j)
      {
        assert x[j] == participants[j].Tables();
        if j != me {
          var found := participants[j].input.GetAll(prefix);
          routes := routes + found;
        }
      }
    }

    method DeleteLocal(i: nat, prefix: string)
      requires Valid() && i < |participants|
      modifies participants[i].local
      ensures var was := old(View()); View() == was[i := was[i].(local := RowsExcept(was[i].local, prefix))]
    {
      ghost var was := View();
      participants[i].local.Delete(prefix);
    }

    method AddLocal(i: nat, row: Route)
      requires Valid() && i < |participants|
      modifies participants[i].local
      ensures var was := old(View()); View() == was[i := was[i].(local := was[i].local + [row])]
    {
      ghost var was := View();
      participants[i].local.Add(row);
    }

    /** The best of the routes that the other participants announced, if there are any. */
    method BestOfOthers(me: nat, prefix: string, ghost x: Exchange) returns (best: Option<Selection>)
      requires Valid() && me < |participants| && x == View()
      ensures View() == x
      ensures best == if Others(x, me, prefix) == [] then None else Some(BestOf(Others(x, me, prefix)))
    {
      hide BestOf, OthersUpTo;
      var routes := RoutesOfOthers(me, prefix, x);
      if routes == [] {
        return None;
      }
      var selected := BestPathSelection(routes);
      return Some(selected);
    }

    /** One participant's turn after an announcement. */
    method AnnounceTurn(prefix: string, i: nat) returns (ok: bool)
      requires Valid() && i < |participants|
      modifies participants[i].local
      ensures (View(), ok) == DecideFor(old(View()), true, prefix, i)
    {
      ghost var was := View();
      assert |was| == |participants|;
      hide View, Others, BestOf, RowsExcept;
      ok := true;
      var best := BestOfOthers(i, prefix, was);
      if best.Some? {
        if best.value.Fails? {
          ok := false;
        } else {
          DeleteLocal(i, prefix);
          AddLocal(i, best.value.route);
          assert View() == was[i := was[i].(local := RowsExcept(was[i].local, prefix) + [best.value.route])];
        }
      }
    }

    /** One participant's turn after a withdrawal: only if it uses a route for the prefix. */
    method WithdrawTurn(prefix: string, i: nat) returns (ok: bool)
      requires Valid() && i < |participants|
      modifies participants[i].local
      ensures (View(), ok) == DecideFor(old(View()), false, prefix, i)
    {
      ghost var was := View();
      assert |was| == |participants|;
      hide View, Others, BestOf, RowsExcept, RowsFor;
      ok := true;
      var used := LocalRows(i, prefix, was);
      if used != [] {
        DeleteLocal(i, prefix);
        SameOthers(was, i, prefix, RowsExcept(was[i].local, prefix));
        var best := BestOfOthers(i, prefix, View());
        if best.Some? {
          if best.value.Fails? {
            ok := false;
          } else {
            AddLocal(i, best.value.route);
            assert View() == was[i := was[i].(local := RowsExcept(was[i].local, prefix) + [best.value.route])];
          }
        }
      }
    }

    method LocalRows(i: nat, prefix: string, ghost x: Exchange) returns (rows: seq<Route>)
      requires Valid() && i < |participants| && x == View()
      ensures View() == x && rows == RowsFor(x[i].local, prefix)
    {
      rows := participants[i].local.GetAll(prefix);
    }

    /** One participant's turn in the decision process. */
    method Turn(announce: bool, prefix: string, i: nat) returns (ok: bool)
      requires Valid() && i < |participants|
      modifies participants[i].local
      ensures (View(), ok) == DecideFor(old(View()), announce, prefix, i)
    {
      hide View, DecideFor;
      if announce {
        ok := AnnounceTurn(prefix, i);
      } else {
        ok := WithdrawTurn(prefix, i);
      }
    }

    /** The decision process for one prefix: every participant takes its turn. */
    method Decide(announce: bool, prefix: string) returns (ok: bool)
      requires Valid()
      modifies Ribs()
      ensures (View(), ok) == DecideFrom(old(View()), announce, prefix, 0)
    {
      hide View, DecideFor;
      ok := true;
      var i := 0;
      while i < |participants|
        invariant i <= |participants|
        invariant DecideFrom(old(View()), announce, prefix, 0) == DecideFrom(View(), announce, prefix, i)
      {
        assert participants[i].local in Ribs();
        ok := Turn(announce, prefix, i);
        if !ok {
          return;
        }
        i := i + 1;
      }
    }

    /** The items of a report, one after the other. */
    method DecideList(list: seq<Item>) returns (ok: bool)
      requires Valid()
      modifies Ribs()
      ensures (View(), ok) == DecideAll(old(View()), list)
    {
      hide View, DecideFrom;
      ok := true;
      var i := 0;
      while i < |list|
        invariant i <= |list|
        invariant DecideAll(old(View()), list) == DecideAll(View(), list[i..])
      {
        assert list[i..][0] == list[i] && list[i..][1..] == list[i + 1..];
        match list[i] {
          case Announced(route) =>
            ok := Decide(true, route.prefix);
          case Withdrawn(gone) =>
            if gone.Some? {
              ok := Decide(false, gone.value.prefix);
            }
        }
        if !ok {
          return;
        }
        i := i + 1;
      }
    }

    /** Participant `i` receives a message. */
    method ReceiveAt(m: Message, i: nat) returns (list: seq<Item>, ok: bool)
      requires Valid() && i < |participants|
      modifies participants[i].input, participants[i].local
      ensures var was := old(View());
              var r := Received(was[i], Ips()[i], m);
              View() == was[i := r.tables] && list == r.list && ok == r.ok
    {
      ghost var was := View();
      list, ok := participants[i].Receive(m);
    }

    method ReceiveAll(m: Message) returns (list: seq<Item>, ok: bool)
      requires Valid()
      modifies Ribs()
      ensures Receipt(View(), list, ok) == ReceiveFrom(old(View()), Ips(), m, 0)
    {
      hide View, Ips, Received;
      list, ok := [], true;
      var i := 0;
      while i < |participants|
        invariant i <= |participants| && list == [] && ok
        invariant ReceiveFrom(old(View()), Ips(), m, 0) == ReceiveFrom(View(), Ips(), m, i)
      {
        assert participants[i].local in Ribs() && participants[i].input in Ribs();
        list, ok := ReceiveAt(m, i);
        if list != [] || !ok {
          return;
        }
        i := i + 1;
      }
    }

    /** One turn of the server's loop: the participants receive a message up to the first that reports
        something, then the reported prefixes are decided. */
    method Process(m: Message) returns (ok: bool)
      requires Valid()
      modifies Ribs()
      ensures (View(), ok) == Processed(old(View()), Ips(), m)
    {
      hide View, Ips, ReceiveFrom, DecideAll;
      var list, received := ReceiveAll(m);
      if participants == [] || !received {
        return false;
      }
      ok := DecideList(list);
    }
  }

  lemma SameOthers(x: Exchange, i: nat, prefix: string, local: seq<Route>)
    requires i < |x|
    ensures Others(x[i := x[i].(local := local)], i, prefix) == Others(x, i, prefix)
  {
    OthersSame(x, x[i := x[i].(local := local)], i, prefix, |x|);
  }
}
