/** A single announcement: what the server makes of it, and runs of two announcements in which the
    attributes decide. */
module Announcements {
  import opened Wrappers
  import opened BestPath
  import opened Decision
  import opened DecisionRuns

  function Announcement(ip: string, prefix: string, hop: string, a: Attribute): Message {
    Neighbor(Some(ip), false, Some(Update(Some(a), Some([(prefix, hop)]), None)))
  }

  /** The row of an announced route. */
  function Row(prefix: string, hop: string, a: Attribute): Route {
    Route(prefix, hop, a.origin, a.asPath, a.med, a.atomic)
  }

  function WithRow(x: Exchange, k: nat, row: Route): Exchange
    requires k < |x|
  {
    x[k := x[k].(input := x[k].input + [row])]
  }

  /** The address is one of participant `k` and of no earlier one. */
  ghost predicate Owner(ips: seq<set<string>>, ip: string, k: nat) {
    k < |ips| && ip in ips[k] && forall j: nat | j < k :: ip !in ips[j]
  }

  /** An announced route becomes a row of its participant, and all local tables are settled afterwards,
      if all selections succeed. */
  lemma Announces(x: Exchange, ips: seq<set<string>>, k: nat, ip: string, p: string, h: string, a: Attribute)
    requires |x| == |ips| && Owner(ips, ip, k) && AllSettled(x)
    requires Selectable(WithRow(x, k, Row(p, h, a)), p, 0)
    ensures var (y, ok) := Processed(x, ips, Announcement(ip, p, h, a));
            ok && AllSettled(y) && SameInputs(WithRow(x, k, Row(p, h, a)), y)
  {
    var m, y := Announcement(ip, p, h, a), WithRow(x, k, Row(p, h, a));
    var item := Reported(x[k].input, p, h, a);
    OwnerReceives(x, ips, k, ip, p, h, a, item, 0);
    hide *;
    MessageKeepsSettled(x, ips, m);
    OnlyItem(item, p);
    OneDecision(x, ips, m, y, item);
  }

  lemma OnlyItem(item: Item, p: string)
    requires item.Announced? && item.route.prefix == p
    ensures forall q: string :: Listed([item], q) <==> q == p
  {
    assert [item][0] == item;
  }

  lemma OneDecision(x: Exchange, ips: seq<set<string>>, m: Message, y: Exchange, item: Item)
    requires |x| == |ips| > 0 && ReceiveFrom(x, ips, m, 0) == Receipt(y, [item], true) && item.Announced?
    ensures SameInputs(y, Processed(x, ips, m).0)
  {
    hide ReceiveFrom, DecideFrom;
    assert [item][1..] == [];
    assert DecideAll(y, [item]).0 == DecideItem(y, item).0;
    TurnsKeepInputs(y, true, item.route.prefix, 0);
  }

  /** What the announcement reports. */
  lemma Reported(input: seq<Route>, p: string, h: string, a: Attribute) returns (item: Item)
    ensures item.Announced? && item.route.prefix == p
    ensures AnnouncedItems(input, [(p, h)], a) == [item]
    ensures WithRoutes(input, [(p, h)], a) == input + [Row(p, h, a)]
  {
    hide RowsFor;
    var routes, row := [(p, h)], Row(p, h, a);
    var none := routes[..0];
    assert WithRoutes(input, none, a) == input && AnnouncedItems(input, none, a) == [];
    assert WithRoutes(input, routes, a) == input + [row];
    RowAdded(input, row, p);
    item := Announced(FirstFor(input + [row], p).value);
  }

  lemma {:induction false} OwnerReceives(x: Exchange, ips: seq<set<string>>, k: nat, ip: string, p: string, h: string,
                                         a: Attribute, item: Item, i: nat)
    requires |x| == |ips| && Owner(ips, ip, k) && i <= k
    requires AnnouncedItems(x[k].input, [(p, h)], a) == [item]
    requires WithRoutes(x[k].input, [(p, h)], a) == x[k].input + [Row(p, h, a)]
    ensures ReceiveFrom(x, ips, Announcement(ip, p, h, a), i) == Receipt(WithRow(x, k, Row(p, h, a)), [item], true)
    ensures !TakesDown(ips, Announcement(ip, p, h, a))
    decreases k - i
  {
    hide AnnouncedItems, WithRoutes;
    if i < k {
      OwnerReceives(x, ips, k, ip, p, h, a, item, i + 1);
      assert x[i := x[i]] == x;
    }
  }

  // ----- the MEDs decide -----

  /** Two of three participants announce a prefix by equally long paths through the same neighbour AS: the
      third is given the route of the lower MED, whatever the next hops are. */
  lemma MedsDecide(ips: seq<set<string>>, b: string, c: string, p: string, h: string, k: string,
                   high: Attribute, low: Attribute)
    requires |ips| == 3 && Owner(ips, b, 1) && Owner(ips, c, 2)
    requires high.asPath == low.asPath == ["65000", "100"] && high.med == Number(50) && low.med == Number(10)
    ensures var none := Tables([], []);
            var (x, ok) := Run([none, none, none], ips, [Announcement(b, p, h, high), Announcement(c, p, k, low)]);
            && ok && |x| == 3
            && RowsFor(x[0].local, p) == [Route(p, k, low.origin, ["65000", "100"], Number(10), low.atomic)]
  {
    LowerMedIsChosen(Row(p, k, low), Row(p, h, high));
    hide BestOf, Run;
    SecondIsChosen(ips, b, c, p, h, k, high, low);
  }

  lemma SecondIsChosen(ips: seq<set<string>>, b: string, c: string, p: string, h: string, k: string,
                       high: Attribute, low: Attribute)
    requires |ips| == 3 && Owner(ips, b, 1) && Owner(ips, c, 2)
    requires BestOf([Row(p, h, high), Row(p, k, low)]) == Best(Row(p, k, low))
    ensures var none := Tables([], []);
            var (x, ok) := Run([none, none, none], ips, [Announcement(b, p, h, high), Announcement(c, p, k, low)]);
            ok && |x| == 3 && RowsFor(x[0].local, p) == [Row(p, k, low)]
  {
    var none := Tables([], []);
    var x, first, second := [none, none, none], Row(p, h, high), Row(p, k, low);
    EmptyIsSettled(x);
    hide BestOf, AllSettled, Processed, Selectable, Announcement, Owner, RowsFor;
    FirstSelectable(WithRow(x, 1, first), first);
    Announces(x, ips, 1, b, p, h, high);
    var y := Processed(x, ips, Announcement(b, p, h, high)).0;
    SecondSelectable(WithRow(y, 2, second), first, second);
    Announces(y, ips, 2, c, p, k, low);
    var z := Processed(y, ips, Announcement(c, p, k, low)).0;
    RunOfTwo(x, ips, Announcement(b, p, h, high), Announcement(c, p, k, low));
    ThirdHolds(z, first, second);
  }

  lemma BestOfOne(r: Route)
    ensures BestOf([r]) == Best(r)
  {
    ShortestOfOne(r);
    hide Shortest;
  }

  lemma OthersNext(x: Exchange, me: nat, p: string, upto: nat)
    requires upto < |x|
    ensures OthersUpTo(x, me, p, 0) == []
    ensures OthersUpTo(x, me, p, upto + 1) ==
            OthersUpTo(x, me, p, upto) + (if upto == me then [] else RowsFor(x[upto].input, p))
  {
    hide RowsFor;
  }

  lemma OthersOfThree(x: Exchange, p: string, i: nat)
    requires |x| == 3 && i < 3
    ensures var a, b, c := RowsFor(x[0].input, p), RowsFor(x[1].input, p), RowsFor(x[2].input, p);
            Others(x, i, p) == if i == 0 then b + c else if i == 1 then a + c else a + b
  {
    hide RowsFor, OthersUpTo;
    OthersNext(x, i, p, 0);
    OthersNext(x, i, p, 1);
    OthersNext(x, i, p, 2);
  }

  lemma FirstSelectable(y: Exchange, first: Route)
    requires |y| == 3 && y[0].input == [] && y[1].input == [first] && y[2].input == []
    ensures Selectable(y, first.prefix, 0)
  {
    BestOfOne(first);
    OneRoute(first);
    hide BestOf, RowsFor, Others;
    forall j: nat | j < 3
      ensures Others(y, j, first.prefix) == [] || BestOf(Others(y, j, first.prefix)).Best?
    {
      OthersOfThree(y, first.prefix, j);
      assert [] + [first] == [first] && [first] + [] == [first];
    }
  }

  lemma SecondSelectable(z: Exchange, first: Route, second: Route)
    requires |z| == 3 && z[0].input == [] && z[1].input == [first] && z[2].input == [second]
    requires first.prefix == second.prefix && BestOf([first, second]).Best?
    ensures Selectable(z, first.prefix, 0)
  {
    BestOfOne(first);
    BestOfOne(second);
    OneRoute(first);
    OneRoute(second);
    hide BestOf, RowsFor, Others;
    forall j: nat | j < 3
      ensures BestOf(Others(z, j, first.prefix)).Best?
    {
      OthersOfThree(z, first.prefix, j);
      assert [first] + [second] == [first, second] && [] + [first] == [first] && [] + [second] == [second];
    }
  }

  lemma ThirdHolds(z: Exchange, first: Route, second: Route)
    requires |z| == 3 && AllSettled(z) && z[1].input == [first] && z[2].input == [second]
    requires first.prefix == second.prefix && BestOf([first, second]) == Best(second)
    ensures RowsFor(z[0].local, first.prefix) == [second]
  {
    hide BestOf, RowsFor, Others;
    OneRoute(first);
    OneRoute(second);
    OthersOfThree(z, first.prefix, 0);
    assert Settled(z, first.prefix);
    assert LocalIsBest(z, 0, first.prefix);
    assert [first] + [second] == [first, second];
  }

  lemma RunOfTwo(x: Exchange, ips: seq<set<string>>, m: Message, n: Message)
    requires |x| == |ips| && |Processed(x, ips, m).0| == |x|
    ensures var (y, ok) := Processed(x, ips, m);
            Run(x, ips, [m, n]) == if ok then Processed(y, ips, n) else (y, false)
  {
    hide Processed;
    assert [m, n][1..] == [n] && [n][1..] == [];
    var y := Processed(x, ips, m).0;
    ProcessedLength(y, ips, n);
    assert Run(Processed(y, ips, n).0, ips, []) == (Processed(y, ips, n).0, true);
  }
}
