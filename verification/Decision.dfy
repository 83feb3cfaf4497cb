/** What the route server does to its participants' tables, and what every decision keeps. */
module Decision {
  import opened Wrappers
  import opened BestPath

  /** The two tables of a participant. */
  datatype Tables = Tables(input: seq<Route>, local: seq<Route>)

  /** The tables of all participants, in the order in which the server goes through them. */
  type Exchange = seq<Tables>

  // ----- rows of a table -----

  function RowsFor(rows: seq<Route>, prefix: string): seq<Route> {
    if rows == [] then []
    else
      var last := rows[|rows| - 1];
      RowsFor(rows[..|rows| - 1], prefix) + (if last.prefix == prefix then [last] else [])
  }

  function RowsExcept(rows: seq<Route>, prefix: string): seq<Route> {
    if rows == [] then []
    else
      var last := rows[|rows| - 1];
      RowsExcept(rows[..|rows| - 1], prefix) + (if last.prefix == prefix then [] else [last])
  }

  function FirstFor(rows: seq<Route>, prefix: string): Option<Route> {
    if RowsFor(rows, prefix) == [] then None else Some(RowsFor(rows, prefix)[0])
  }

  lemma {:induction false} RowsForHas(rows: seq<Route>, prefix: string, r: Route)
    ensures r in RowsFor(rows, prefix) <==> r in rows && r.prefix == prefix
  {
    if rows != [] {
      RowsForHas(rows[..|rows| - 1], prefix, r);
      assert rows == rows[..|rows| - 1] + [rows[|rows| - 1]];
    }
  }

  lemma {:induction false} RowsForConcat(a: seq<Route>, b: seq<Route>, prefix: string)
    ensures RowsFor(a + b, prefix) == RowsFor(a, prefix) + RowsFor(b, prefix)
  {
    if b == [] {
      assert a + b == a;
    } else {
      RowsForConcat(a, b[..|b| - 1], prefix);
      assert (a + b)[..|a + b| - 1] == a + b[..|b| - 1];
    }
  }

  lemma {:induction false} RowsForExcept(rows: seq<Route>, p: string, q: string)
    ensures RowsFor(RowsExcept(rows, p), q) == if p == q then [] else RowsFor(rows, q)
  {
    if rows != [] {
      var init, last := rows[..|rows| - 1], rows[|rows| - 1];
      RowsForExcept(init, p, q);
      RowsForConcat(RowsExcept(init, p), [last], q);
      assert [last][..0] == [];
      assert RowsExcept(rows, p) == if last.prefix == p then RowsExcept(init, p) else RowsExcept(init, p) + [last];
    }
  }

  lemma FirstForIsFirst(rows: seq<Route>, prefix: string)
    ensures var first := FirstFor(rows, prefix);
            && (first.None? <==> forall r | r in rows :: r.prefix != prefix)
            && (first.Some? ==> exists i: nat ::
                  && i < |rows| && rows[i] == first.value && rows[i].prefix == prefix
                  && forall j | 0 <= j < i :: rows[j].prefix != prefix)
  {
    forall r {
      RowsForHas(rows, prefix, r);
    }
    if RowsFor(rows, prefix) != [] {
      assert RowsFor(rows, prefix)[0] in RowsFor(rows, prefix);
      var i := FirstRowOf(rows, prefix);
    }
  }

  lemma {:induction false} FirstRowOf(rows: seq<Route>, prefix: string) returns (i: nat)
    requires RowsFor(rows, prefix) != []
    ensures i < |rows| && rows[i] == RowsFor(rows, prefix)[0] && rows[i].prefix == prefix
    ensures forall j | 0 <= j < i :: rows[j].prefix != prefix
  {
    var init := rows[..|rows| - 1];
    if RowsFor(init, prefix) == [] {
      i := |init|;
      forall j | 0 <= j < i
        ensures rows[j].prefix != prefix
      {
        RowsForHas(init, prefix, init[j]);
      }
    } else {
      i := FirstRowOf(init, prefix);
    }
  }

  // ----- messages -----

  datatype Attribute = Attribute(origin: string, asPath: seq<string>, med: Med, atomic: string)

  /** An update; the address family of the lists is IPv4 unicast, and a list without it is empty. */
  datatype Update = Update(attribute: Option<Attribute>, announce: Option<seq<(string, string)>>,
                           withdraw: Option<seq<string>>)

  datatype Message =
    | Neighbor(ip: Option<string>, down: bool, update: Option<Update>)
    | Notification(kind: string)
    | OtherMessage

  /** What a participant reports for the decision process. */
  datatype Item = Announced(route: Route) | Withdrawn(gone: Option<Route>)

  /** A participant's tables after a message, its report, and whether the processing got through. */
  datatype Report = Report(tables: Tables, list: seq<Item>, ok: bool)

  function RowOf(route: (string, string), a: Attribute): Route {
    Route(route.0, route.1, a.origin, a.asPath, a.med, a.atomic)
  }

  /** Announced routes are added; rows of the same prefix stay. */
  function WithRoutes(input: seq<Route>, routes: seq<(string, string)>, a: Attribute): seq<Route> {
    if routes == [] then input
    else WithRoutes(input, routes[..|routes| - 1], a) + [RowOf(routes[|routes| - 1], a)]
  }

  /** The earlier rows, then a row for each route with its next hop and the attributes of the update. */
  ghost predicate AddsRows(before: seq<Route>, after: seq<Route>, routes: seq<(string, string)>, a: Attribute) {
    && |after| == |before| + |routes|
    && after[..|before|] == before
    && forall i | 0 <= i < |routes| ::
         var row := after[|before| + i];
         && row.prefix == routes[i].0 && row.nextHop == routes[i].1
         && row.origin == a.origin && row.asPath == a.asPath && row.med == a.med && row.atomic == a.atomic
  }

  /** What an announcement leaves in the table. */
  lemma {:induction false} RowsAdded(input: seq<Route>, routes: seq<(string, string)>, a: Attribute)
    ensures AddsRows(input, WithRoutes(input, routes, a), routes, a)
  {
    if routes != [] {
      var init := routes[..|routes| - 1];
      RowsAdded(input, init, a);
      assert WithRoutes(input, routes, a) == WithRoutes(input, init, a) + [RowOf(routes[|routes| - 1], a)];
    }
  }

  function AnnouncedItems(input: seq<Route>, routes: seq<(string, string)>, a: Attribute): seq<Item> {
    if routes == [] then []
    else
      var row := FirstFor(WithRoutes(input, routes, a), routes[|routes| - 1].0);
      AnnouncedItems(input, routes[..|routes| - 1], a) + (if row.Some? then [Announced(row.value)] else [])
  }

  function WithoutRoutes(input: seq<Route>, prefixes: seq<string>): seq<Route> {
    if prefixes == [] then input
    else RowsExcept(WithoutRoutes(input, prefixes[..|prefixes| - 1]), prefixes[|prefixes| - 1])
  }

  function WithdrawnItems(input: seq<Route>, prefixes: seq<string>): seq<Item> {
    if prefixes == [] then []
    else
      var init, last := prefixes[..|prefixes| - 1], prefixes[|prefixes| - 1];
      WithdrawnItems(input, init) + [Withdrawn(FirstFor(WithoutRoutes(input, init), last))]
  }

  /** The local table without the prefixes of the given rows. */
  function Cleared(local: seq<Route>, rows: seq<Route>): seq<Route> {
    if rows == [] then local
    else RowsExcept(Cleared(local, rows[..|rows| - 1]), rows[|rows| - 1].prefix)
  }

  function Downed(t: Tables): Tables {
    Tables([], Cleared(t.local, t.input))
  }

  function Updated(t: Tables, u: Update): Report {
    if u.announce.Some? then
      if u.announce.value == [] then Report(t, [], true)
      else if u.attribute.None? then Report(t, [], false)
      else
        Report(t.(input := WithRoutes(t.input, u.announce.value, u.attribute.value)),
               AnnouncedItems(t.input, u.announce.value, u.attribute.value), true)
    else if u.withdraw.Some? then
      Report(t.(input := WithoutRoutes(t.input, u.withdraw.value)), WithdrawnItems(t.input, u.withdraw.value), true)
    else Report(t, [], true)
  }

  /** What a message does to a participant with the addresses `ips`. */
  function Received(t: Tables, ips: set<string>, m: Message): Report {
    match m
    case Neighbor(ip, down, update) =>
      if ip.None? || ip.value !in ips then Report(t, [], true)
      else
        var s := if down then Downed(t) else t;
        if update.None? then Report(s, [], true) else Updated(s, update.value)
    case Notification(kind) => Report(if kind == "shutdown" then Tables([], []) else t, [], true)
    case OtherMessage => Report(t, [], true)
  }

  // ----- the decision process -----

  /** The routes for a prefix that the participants before `upto`, other than `me`, announced. */
  function OthersUpTo(x: Exchange, me: nat, prefix: string, upto: nat): seq<Route>
    requires upto <= |x|
  {
    if upto == 0 then []
    else OthersUpTo(x, me, prefix, upto - 1) +
         (if upto - 1 == me then [] else RowsFor(x[upto - 1].input, prefix))
  }

  function Others(x: Exchange, me: nat, prefix: string): seq<Route> {
    OthersUpTo(x, me, prefix, |x|)
  }

  /** One participant's turn: the new exchange, and whether a best path could be selected. */
  function DecideFor(x: Exchange, announce: bool, prefix: string, i: nat): (r: (Exchange, bool))
    requires i < |x|
    ensures |r.0| == |x|
  {
    var others := Others(x, i, prefix);
    var rest := RowsExcept(x[i].local, prefix);
    if (if announce then others == [] else RowsFor(x[i].local, prefix) == []) then (x, true)
    else if others == [] then (x[i := x[i].(local := rest)], true)
    else
      match BestOf(others)
      case Fails => (if announce then x else x[i := x[i].(local := rest)], false)
      case Best(r) => (x[i := x[i].(local := rest + [r])], true)
  }

  /** The turns of the participants from `i` on; the first failure ends them. */
  function DecideFrom(x: Exchange, announce: bool, prefix: string, i: nat): (r: (Exchange, bool))
    requires i <= |x|
    ensures |r.0| == |x|
    decreases |x| - i
  {
    if i == |x| then (x, true)
    else
      var (y, ok) := DecideFor(x, announce, prefix, i);
      if ok then DecideFrom(y, announce, prefix, i + 1) else (y, false)
  }

  function DecideItem(x: Exchange, item: Item): (r: (Exchange, bool))
    ensures |r.0| == |x|
  {
    match item
    case Announced(route) => DecideFrom(x, true, route.prefix, 0)
    case Withdrawn(gone) => if gone.Some? then DecideFrom(x, false, gone.value.prefix, 0) else (x, true)
  }

  function DecideAll(x: Exchange, list: seq<Item>): (r: (Exchange, bool))
    ensures |r.0| == |x|
    decreases |list|
  {
    if list == [] then (x, true)
    else
      var (y, ok) := DecideItem(x, list[0]);
      if ok then DecideAll(y, list[1..]) else (y, false)
  }

  // ----- one message -----

  datatype Receipt = Receipt(x: Exchange, list: seq<Item>, ok: bool)

  /** The participants from `i` on receive the message, up to the first that has something to report. */
  function ReceiveFrom(x: Exchange, ips: seq<set<string>>, m: Message, i: nat): (r: Receipt)
    requires i <= |x| == |ips|
    ensures |r.x| == |x|
    decreases |x| - i
  {
    if i == |x| then Receipt(x, [], true)
    else
      var r := Received(x[i], ips[i], m);
      var y := x[i := r.tables];
      if !r.ok || r.list != [] then Receipt(y, r.list, r.ok) else ReceiveFrom(y, ips, m, i + 1)
  }

  /** Receiving, then deciding. Without participants there is no list to go through. */
  function Processed(x: Exchange, ips: seq<set<string>>, m: Message): (Exchange, bool)
    requires |x| == |ips|
  {
    var r := ReceiveFrom(x, ips, m, 0);
    if x == [] || !r.ok then (r.x, false) else DecideAll(r.x, r.list)
  }

  // ----- what is kept -----

  /** The local table holds the best of the others' routes for the prefix and nothing else, or nothing
      when there are none. */
  ghost predicate LocalIsBest(x: Exchange, i: nat, prefix: string)
    requires i < |x|
  {
    var others, rows := Others(x, i, prefix), RowsFor(x[i].local, prefix);
    if others == [] then rows == [] else BestOf(others).Best? && rows == [BestOf(others).route]
  }

  ghost predicate Settled(x: Exchange, prefix: string) {
    forall i: nat | i < |x| :: LocalIsBest(x, i, prefix)
  }

  ghost predicate AllSettled(x: Exchange) {
    forall prefix: string :: Settled(x, prefix)
  }

  /** What the turns from `i` on need: a decision after an announcement overwrites wherever there are
      routes, one after a withdrawal looks only where there is a local row. */
  ghost predicate ReadyFrom(x: Exchange, announce: bool, prefix: string, i: nat) {
    forall j: nat | i <= j < |x| ::
      var others, rows := Others(x, j, prefix), RowsFor(x[j].local, prefix);
      if announce then others == [] ==> rows == [] else rows == [] ==> others == []
  }

  ghost predicate Ready(x: Exchange, announce: bool, prefix: string) {
    ReadyFrom(x, announce, prefix, 0)
  }

  /** The two exchanges have the same rows for the prefix. */
  ghost predicate SameFor(x: Exchange, y: Exchange, prefix: string) {
    && |x| == |y|
    && forall i: nat | i < |x| ::
         && RowsFor(x[i].input, prefix) == RowsFor(y[i].input, prefix)
         && RowsFor(x[i].local, prefix) == RowsFor(y[i].local, prefix)
  }

  lemma {:induction false} OthersSame(x: Exchange, y: Exchange, me: nat, prefix: string, upto: nat)
    requires |x| == |y| && upto <= |x|
    requires forall j: nat | j < upto && j != me :: RowsFor(x[j].input, prefix) == RowsFor(y[j].input, prefix)
    ensures OthersUpTo(x, me, prefix, upto) == OthersUpTo(y, me, prefix, upto)
  {
    hide RowsFor;
    if upto > 0 {
      OthersSame(x, y, me, prefix, upto - 1);
    }
  }

  lemma SettledSame(x: Exchange, y: Exchange, prefix: string)
    requires SameFor(x, y, prefix)
    ensures Settled(x, prefix) <==> Settled(y, prefix)
    ensures forall announce :: Ready(x, announce, prefix) <==> Ready(y, announce, prefix)
  {
    forall i: nat | i < |x|
      ensures Others(x, i, prefix) == Others(y, i, prefix)
    {
      OthersSame(x, y, i, prefix, |x|);
    }
    assert forall i: nat | i < |x| :: LocalIsBest(x, i, prefix) <==> LocalIsBest(y, i, prefix);
  }

  lemma {:induction false} OthersHas(x: Exchange, me: nat, prefix: string, upto: nat, r: Route)
    requires upto <= |x|
    ensures r in OthersUpTo(x, me, prefix, upto) <==>
            exists j: nat :: j < upto && j != me && r in RowsFor(x[j].input, prefix)
  {
    hide RowsFor;
    if upto > 0 {
      OthersHas(x, me, prefix, upto - 1, r);
      var rows := if upto - 1 == me then [] else RowsFor(x[upto - 1].input, prefix);
      assert OthersUpTo(x, me, prefix, upto) == OthersUpTo(x, me, prefix, upto - 1) + rows;
      assert r in OthersUpTo(x, me, prefix, upto) <==> r in OthersUpTo(x, me, prefix, upto - 1) || r in rows;
    }
  }

  /** No participant is given a route that nobody else announced. */
  lemma LocalRoutesComeFromOthers(x: Exchange, i: nat, r: Route)
    requires AllSettled(x) && i < |x| && r in x[i].local
    ensures exists j: nat :: j < |x| && j != i && r in x[j].input
  {
    assert Settled(x, r.prefix) && LocalIsBest(x, i, r.prefix);
    RowsForHas(x[i].local, r.prefix, r);
    var others := Others(x, i, r.prefix);
    BestIsBest(others);
    OthersHas(x, i, r.prefix, |x|, r);
    var j: nat :| j < |x| && j != i && r in RowsFor(x[j].input, r.prefix);
    RowsForHas(x[j].input, r.prefix, r);
  }

  lemma OthersHavePrefix(x: Exchange, i: nat, prefix: string, r: Route)
    requires r in Others(x, i, prefix)
    ensures r.prefix == prefix
  {
    OthersHas(x, i, prefix, |x|, r);
    var j: nat :| j < |x| && j != i && r in RowsFor(x[j].input, prefix);
    RowsForHas(x[j].input, prefix, r);
  }

  // ----- a decision settles its prefix and touches no other -----

  /** Only the local table of `i` changes, and only at the prefix. */
  ghost predicate OnlyLocal(x: Exchange, y: Exchange, i: nat, prefix: string)
    requires i < |x|
  {
    && |y| == |x|
    && (forall j: nat | j < |x| && j != i :: y[j] == x[j])
    && y[i].input == x[i].input
    && forall q | q != prefix :: RowsFor(y[i].local, q) == RowsFor(x[i].local, q)
  }

  lemma TurnFrame(x: Exchange, announce: bool, prefix: string, i: nat)
    requires i < |x|
    ensures OnlyLocal(x, DecideFor(x, announce, prefix, i).0, i, prefix)
  {
    var others := Others(x, i, prefix);
    var rest := RowsExcept(x[i].local, prefix);
    forall q | q != prefix
      ensures RowsFor(rest, q) == RowsFor(x[i].local, q)
      ensures others != [] && BestOf(others).Best? ==>
                RowsFor(rest + [BestOf(others).route], q) == RowsFor(x[i].local, q)
    {
      RowsForExcept(x[i].local, prefix, q);
      if others != [] && BestOf(others).Best? {
        var r := BestOf(others).route;
        BestIsBest(others);
        OthersHavePrefix(x, i, prefix, r);
        RowsForConcat(rest, [r], q);
      }
    }
  }

  /** After its turn the participant holds the best of the others' routes; the turn fails only when no
      best path can be selected. */
  lemma TurnSettles(x: Exchange, announce: bool, prefix: string, i: nat)
    requires i < |x|
    requires var others, rows := Others(x, i, prefix), RowsFor(x[i].local, prefix);
             if announce then others == [] ==> rows == [] else rows == [] ==> others == []
    ensures var (y, ok) := DecideFor(x, announce, prefix, i);
            && (ok ==> LocalIsBest(y, i, prefix))
            && (ok <==> Others(x, i, prefix) == [] || BestOf(Others(x, i, prefix)).Best?)
  {
    var others := Others(x, i, prefix);
    var rest := RowsExcept(x[i].local, prefix);
    var y := DecideFor(x, announce, prefix, i).0;
    OthersSame(x, y, i, prefix, |x|);
    RowsForExcept(x[i].local, prefix, prefix);
    if others != [] && BestOf(others).Best? {
      var r := BestOf(others).route;
      BestIsBest(others);
      OthersHavePrefix(x, i, prefix, r);
      RowsForConcat(rest, [r], prefix);
    }
  }

  /** A turn in every state of the tables, settled or not. After an announcement a participant is left
      alone to which nobody else offers a route, and after a withdrawal one that has no row for the prefix;
      otherwise the best of the others' rows is its only one. A failing selection leaves the row after an
      announcement and none after a withdrawal. */
  lemma TurnOutcome(x: Exchange, announce: bool, prefix: string, i: nat)
    requires i < |x|
    ensures var (y, ok) := DecideFor(x, announce, prefix, i);
            var others, before, after := Others(x, i, prefix), RowsFor(x[i].local, prefix), RowsFor(y[i].local, prefix);
            && ((if announce then others == [] else before == []) ==> ok && y == x)
            && (!announce && before != [] && others == [] ==> ok && after == [])
            && ((announce || before != []) && others != [] ==>
                  && (ok <==> BestOf(others).Best?)
                  && (ok ==> after == [BestOf(others).route])
                  && (!ok ==> after == if announce then before else []))
  {
    var others := Others(x, i, prefix);
    RowsForExcept(x[i].local, prefix, prefix);
    if others != [] && BestOf(others).Best? {
      var r := BestOf(others).route;
      BestIsBest(others);
      OthersHavePrefix(x, i, prefix, r);
      RowsForConcat(RowsExcept(x[i].local, prefix), [r], prefix);
    }
  }

  ghost predicate SettledUpTo(x: Exchange, prefix: string, i: nat)
    requires i <= |x|
  {
    forall j: nat | j < i :: LocalIsBest(x, j, prefix)
  }

  /** The selection succeeds for every participant from `i` on that is offered a route. */
  ghost predicate Selectable(x: Exchange, prefix: string, i: nat) {
    forall j: nat | i <= j < |x| :: Others(x, j, prefix) == [] || BestOf(Others(x, j, prefix)).Best?
  }

  lemma TurnStep(x: Exchange, announce: bool, prefix: string, i: nat)
    requires i < |x| && ReadyFrom(x, announce, prefix, i) && SettledUpTo(x, prefix, i)
    ensures var (y, ok) := DecideFor(x, announce, prefix, i);
            && (ok ==> SettledUpTo(y, prefix, i + 1) && ReadyFrom(y, announce, prefix, i + 1))
            && (Selectable(x, prefix, i) <==> ok && Selectable(y, prefix, i + 1))
  {
    var (y, ok) := DecideFor(x, announce, prefix, i);
    TurnSettles(x, announce, prefix, i);
    TurnFrame(x, announce, prefix, i);
    hide DecideFor, RowsFor, OthersUpTo;
    forall j: nat | j < |x|
      ensures Others(y, j, prefix) == Others(x, j, prefix)
      ensures j != i && LocalIsBest(x, j, prefix) ==> LocalIsBest(y, j, prefix)
    {
      OthersSame(x, y, j, prefix, |x|);
    }
  }

  /** The turns from `i` on, when those before `i` have been taken: if all get through the prefix is
      settled, and they get through exactly when every selection succeeds. */
  lemma {:induction false} TurnsSettle(x: Exchange, announce: bool, prefix: string, i: nat)
    requires i <= |x| && ReadyFrom(x, announce, prefix, i) && SettledUpTo(x, prefix, i)
    ensures var (y, ok) := DecideFrom(x, announce, prefix, i);
            (ok ==> Settled(y, prefix)) && (ok <==> Selectable(x, prefix, i))
    decreases |x| - i
  {
    hide DecideFor, ReadyFrom, Selectable, SettledUpTo, Settled;
    if i == |x| {
      NoTurnsLeft(x, prefix);
    } else {
      TurnStep(x, announce, prefix, i);
      var (y, ok) := DecideFor(x, announce, prefix, i);
      if ok {
        TurnsSettle(y, announce, prefix, i + 1);
      }
    }
  }

  lemma NoTurnsLeft(x: Exchange, prefix: string)
    requires SettledUpTo(x, prefix, |x|)
    ensures Settled(x, prefix) && Selectable(x, prefix, |x|)
  {
  }

  lemma {:induction false} TurnsFrame(x: Exchange, announce: bool, prefix: string, i: nat, q: string)
    requires i <= |x| && q != prefix
    ensures SameFor(x, DecideFrom(x, announce, prefix, i).0, q)
    decreases |x| - i
  {
    if i < |x| {
      TurnFrame(x, announce, prefix, i);
      var (y, ok) := DecideFor(x, announce, prefix, i);
      assert SameFor(x, y, q);
      hide RowsFor, DecideFor, OnlyLocal;
      if ok {
        TurnsFrame(y, announce, prefix, i + 1, q);
      }
    }
  }
}
