/** What a participant is given when its neighbours announce a prefix again: the rows that they replace
    stay in the tables and take part in the selection. */
module Reannouncements {
  import opened Wrappers
  import opened Ipv4Text
  import opened BestPath
  import opened Decision
  import opened DecisionRuns
  import opened Announcements

  // ----- the latest announcements -----

  function LastOf(rows: seq<Route>): seq<Route> {
    if rows == [] then [] else [rows[|rows| - 1]]
  }

  /** The latest announcement of each participant before `upto`, other than `me`. */
  function LatestUpTo(x: Exchange, me: nat, prefix: string, upto: nat): seq<Route>
    requires upto <= |x|
  {
    if upto == 0 then []
    else LatestUpTo(x, me, prefix, upto - 1) +
         (if upto - 1 == me then [] else LastOf(RowsFor(x[upto - 1].input, prefix)))
  }

  function Latest(x: Exchange, me: nat, prefix: string): seq<Route> {
    LatestUpTo(x, me, prefix, |x|)
  }

  /** No route more often, and not empty unless the whole is. */
  ghost predicate PartOf(part: seq<Route>, all: seq<Route>) {
    multiset(part) <= multiset(all) && (part == [] ==> all == [])
  }

  lemma {:induction false} LatestIsPart(x: Exchange, me: nat, prefix: string, upto: nat)
    requires upto <= |x|
    ensures PartOf(LatestUpTo(x, me, prefix, upto), OthersUpTo(x, me, prefix, upto))
  {
    hide RowsFor, PartOf, LastOf;
    if upto == 0 {
      LastIsPart([]);
    } else {
      LatestIsPart(x, me, prefix, upto - 1);
      var rows := if upto - 1 == me then [] else RowsFor(x[upto - 1].input, prefix);
      LastIsPart(rows);
      PartAppend(LatestUpTo(x, me, prefix, upto - 1), OthersUpTo(x, me, prefix, upto - 1), LastOf(rows), rows);
    }
  }

  lemma PartAppend(a: seq<Route>, b: seq<Route>, c: seq<Route>, d: seq<Route>)
    requires PartOf(a, b) && PartOf(c, d)
    ensures PartOf(a + c, b + d)
  {
    assert multiset(a + c) == multiset(a) + multiset(c) && multiset(b + d) == multiset(b) + multiset(d);
  }

  lemma LastIsPart(rows: seq<Route>)
    ensures PartOf(LastOf(rows), rows) && LastOf([]) == [] && PartOf([], [])
  {
    if rows != [] {
      assert rows == rows[..|rows| - 1] + LastOf(rows);
    }
  }

  // ----- selecting among a part of the routes -----

  /** The route survives among a part of the routes only because a route outside the part beats it. */
  ghost predicate Revived(all: seq<Route>, part: seq<Route>, q: Route) {
    Survives(part, q) && !Survives(all, q)
  }

  /** The route would be chosen against `q` in the last step. */
  ghost predicate Undercuts(r: Route, q: Route) {
    IsCanonical(r.nextHop) && HopOf(r).Some? && HopOf(q).Some? && HopOf(r).value <= HopOf(q).value
  }

  lemma PartSurvives(all: seq<Route>, part: seq<Route>, r: Route)
    requires multiset(part) <= multiset(all) && Survives(all, r) && r in part
    ensures Survives(part, r)
  {
    PartHas(all, part);
  }

  lemma PartHas(all: seq<Route>, part: seq<Route>)
    requires multiset(part) <= multiset(all)
    ensures forall q | q in part :: q in all
  {
    forall q | q in part
      ensures q in all
    {
      assert q in multiset(part);
    }
  }

  /** A part that holds one of the shortest routes has no more shortest routes. */
  lemma ShortestOfPart(all: seq<Route>, part: seq<Route>, r: Route)
    requires multiset(part) <= multiset(all) && r in part && r in Shortest(all)
    ensures multiset(Shortest(part)) <= multiset(Shortest(all))
    ensures |Shortest(part)| <= |Shortest(all)|
  {
    PartHas(all, part);
    ShortestHas(all, r);
    var n := |r.asPath|;
    assert MinLength(all) == n && MinLength(part) == n;
    forall q
      ensures multiset(Shortest(part))[q] <= multiset(Shortest(all))[q]
    {
      OfLengthMultiset(all, n, q);
      OfLengthMultiset(part, n, q);
    }
    NoMore(Shortest(part), Shortest(all));
  }

  lemma NoMore(a: seq<Route>, b: seq<Route>)
    requires forall q :: multiset(a)[q] <= multiset(b)[q]
    ensures multiset(a) <= multiset(b) && |a| <= |b|
  {
    assert multiset(a) <= multiset(b);
    assert multiset(b) == multiset(a) + (multiset(b) - multiset(a));
    assert |multiset(a)| == |a| && |multiset(b)| == |b|;
  }

  lemma FinalistsOfPart(all: seq<Route>, part: seq<Route>, r: Route)
    requires multiset(part) <= multiset(all) && r in part && r in Shortest(all)
    requires forall q :: !Revived(all, part, q)
    ensures |Finalists(Shortest(part))| <= |Finalists(Shortest(all))|
  {
    ShortestOfPart(all, part, r);
    var s, t := Shortest(part), Shortest(all);
    hide Shortest, Finalists, Survives, Unbeaten;
    forall q
      ensures multiset(Finalists(s))[q] <= multiset(Finalists(t))[q]
    {
      FinalistsMultiset(s, q);
      FinalistsMultiset(t, q);
      SurvivesIsUnbeaten(part, q);
      SurvivesIsUnbeaten(all, q);
      assert !Revived(all, part, q);
    }
    NoMore(Finalists(s), Finalists(t));
  }

  /** The route can be chosen: it survives, and against any other survivor it has the lowest next hop in
      its canonical form. */
  ghost predicate Wins(routes: seq<Route>, r: Route) {
    && Survives(routes, r)
    && forall q | Survives(routes, q) && q != r :: LowestSurvivor(routes, r) && IsCanonical(r.nextHop)
  }

  /** What is chosen wins, and all that win have its next hop. */
  lemma WinnersShareHop(routes: seq<Route>)
    requires BestOf(routes).Best?
    ensures Wins(routes, BestOf(routes).route)
    ensures forall r | Wins(routes, r) :: r.nextHop == BestOf(routes).route.nextHop
  {
    hide BestOf, Survives, LowestSurvivor, IsCanonical;
    var best := BestOf(routes).route;
    BestIsBest(routes);
    forall r | Wins(routes, r) && r != best
      ensures r.nextHop == best.nextHop
    {
      SameHop(routes, r, best);
    }
  }

  /** The route undercuts every route that only routes outside the part beat. */
  ghost predicate UndercutsRevived(all: seq<Route>, part: seq<Route>, r: Route) {
    forall q | Revived(all, part, q) :: Undercuts(r, q)
  }

  lemma WinnerStaysLowest(all: seq<Route>, part: seq<Route>, r: Route)
    requires multiset(part) <= multiset(all) && BestOf(all).Best? && Wins(all, r) && r in part
    requires UndercutsRevived(all, part, r)
    requires |Finalists(Shortest(part))| > 1 || exists q :: Survives(part, q) && q != r
    ensures LowestSurvivor(part, r) && IsCanonical(r.nextHop)
  {
    hide BestOf, Survives, Shortest, Finalists, IsCanonical, HopOf;
    PartSurvives(all, part, r);
    SurvivorIsShortest(all, r);
    if q :| Survives(part, q) && q != r {
      assert Revived(all, part, q) || Survives(all, q);
    } else {
      FinalistsOfPart(all, part, r);
      ManyFinalists(all);
      ChosenInLastStep(all);
      BestIsBest(all);
      assert Survives(part, BestOf(all).route) ==> BestOf(all).route == r;
      OneOfMany(all, r);
    }
    forall q | Survives(part, q)
      ensures HopOf(q).Some? && HopOf(r).Some? && HopOf(r).value <= HopOf(q).value
    {
      assert q == r || Revived(all, part, q) || Survives(all, q);
    }
  }

  /** Where the last step chooses among several, every winner is one that it could choose. */
  lemma OneOfMany(routes: seq<Route>, r: Route)
    requires BestOf(routes).Best? && Wins(routes, r)
    requires LowestSurvivor(routes, BestOf(routes).route) && IsCanonical(BestOf(routes).route.nextHop)
    ensures LowestSurvivor(routes, r) && IsCanonical(r.nextHop)
  {
    hide BestOf, Survives, IsCanonical, HopOf;
    BestIsBest(routes);
  }

  lemma SurvivorIsShortest(routes: seq<Route>, r: Route)
    requires Survives(routes, r)
    ensures r in Shortest(routes)
  {
    ShortestHas(routes, r);
  }

  lemma ManyFinalists(routes: seq<Route>)
    ensures |Finalists(Shortest(routes))| > 1 ==> |Shortest(routes)| > 1
  {
    var best := Shortest(routes);
    hide Finalists, Unbeaten, Shortest;
    forall r
      ensures multiset(Finalists(best))[r] <= multiset(best)[r]
    {
      FinalistsMultiset(best, r);
    }
    NoMore(Finalists(best), best);
  }

  lemma PartSelects(all: seq<Route>, part: seq<Route>, r: Route)
    requires multiset(part) <= multiset(all) && BestOf(all).Best? && Wins(all, r) && r in part
    requires UndercutsRevived(all, part, r)
    ensures BestOf(part).Best?
  {
    hide BestOf, Survives, Shortest, Finalists, IsCanonical, LowestSurvivor, UndercutsRevived;
    SurvivorIsShortest(all, r);
    ShortestOfPart(all, part, r);
    PartHas(all, part);
    WhenSelectionFails(all);
    WhenSelectionFails(part);
    if |Finalists(Shortest(part))| > 1 {
      WinnerStaysLowest(all, part, r);
    }
  }

  lemma SameHop(part: seq<Route>, a: Route, b: Route)
    requires LowestSurvivor(part, a) && LowestSurvivor(part, b) && IsCanonical(a.nextHop) && IsCanonical(b.nextHop)
    ensures a.nextHop == b.nextHop
  {
    hide IpToLong, IsCanonical, Survives;
    TextRoundTripIff(a.nextHop);
    TextRoundTripIff(b.nextHop);
  }

  lemma LowestUndercuts(routes: seq<Route>, r: Route, q: Route)
    requires LowestSurvivor(routes, r) && IsCanonical(r.nextHop) && Survives(routes, q)
    ensures Undercuts(r, q)
  {
  }

  /** When a route of the part wins among all, the part's best route has the same next hop if and only if
      that route undercuts every route that only routes outside the part beat. */
  lemma BestOfPartIff(all: seq<Route>, part: seq<Route>, r: Route)
    requires multiset(part) <= multiset(all) && BestOf(all).Best? && r in part && Wins(all, r)
    ensures BestOf(part).Best? && BestOf(part).route.nextHop == BestOf(all).route.nextHop <==>
            UndercutsRevived(all, part, r)
  {
    hide BestOf, Survives, LowestSurvivor, IsCanonical, IpToLong;
    WinnersShareHop(all);
    PartSurvives(all, part, r);
    if BestOf(part).Best? {
      BestIsBest(part);
    }
    if BestOf(part).Best? && BestOf(part).route.nextHop == r.nextHop {
      forall q | Revived(all, part, q)
        ensures Undercuts(r, q)
      {
        LowestUndercuts(part, BestOf(part).route, q);
      }
    }
    if UndercutsRevived(all, part, r) {
      PartSelects(all, part, r);
      if BestOf(part).route != r {
        WinnerStaysLowest(all, part, r);
        SameHop(part, r, BestOf(part).route);
      }
    }
  }

  // ----- the local tables -----

  /** The local table leads to the next hop that the selection among the others' latest announcements
      gives; it is empty when there are none. */
  ghost predicate LocalIsCurrent(x: Exchange, i: nat, prefix: string)
    requires i < |x|
  {
    var latest, rows := Latest(x, i, prefix), RowsFor(x[i].local, prefix);
    if latest == [] then rows == []
    else |rows| == 1 && BestOf(latest).Best? && BestOf(latest).route.nextHop == rows[0].nextHop
  }

  /** When a latest announcement wins among all rows, a settled local table is that of the latest ones if
      and only if the winner undercuts every latest announcement that only superseded rows beat on MED.
      When none does, a superseded row is in use, and its next hop is right only if a latest
      announcement that wins among the latest ones happens to have it. */
  lemma CurrentIff(x: Exchange, i: nat, prefix: string)
    requires i < |x| && LocalIsBest(x, i, prefix) && Others(x, i, prefix) != []
    ensures var others, latest, rows := Others(x, i, prefix), Latest(x, i, prefix), RowsFor(x[i].local, prefix);
            if exists r :: r in latest && Wins(others, r) then
              forall r | r in latest && Wins(others, r) ::
                LocalIsCurrent(x, i, prefix) <==> UndercutsRevived(others, latest, r)
            else
              && |rows| == 1 && rows[0] !in latest
              && (LocalIsCurrent(x, i, prefix) <==>
                    BestOf(latest).Best? && exists r :: Wins(latest, r) && r.nextHop == rows[0].nextHop)
  {
    hide BestOf, UndercutsRevived, Wins, RowsFor, OthersUpTo, LatestUpTo;
    var others, latest := Others(x, i, prefix), Latest(x, i, prefix);
    LatestIsPart(x, i, prefix, |x|);
    assert latest != [];
    WinnersShareHop(others);
    forall r | r in latest && Wins(others, r)
      ensures LocalIsCurrent(x, i, prefix) <==> UndercutsRevived(others, latest, r)
    {
      BestOfPartIff(others, latest, r);
    }
    if BestOf(latest).Best? {
      WinnersShareHop(latest);
    }
  }

  /** Without a second row there is nothing superseded. */
  lemma CurrentWithoutSecondRows(x: Exchange, i: nat, prefix: string)
    requires i < |x| && LocalIsBest(x, i, prefix)
    requires forall j: nat | j < |x| && j != i :: |RowsFor(x[j].input, prefix)| <= 1
    ensures LocalIsCurrent(x, i, prefix)
  {
    hide BestOf, RowsFor;
    LatestIsAll(x, i, prefix, |x|);
    if Others(x, i, prefix) != [] {
      BestIsBest(Others(x, i, prefix));
    }
  }

  lemma {:induction false} LatestIsAll(x: Exchange, me: nat, prefix: string, upto: nat)
    requires upto <= |x|
    requires forall j: nat | j < upto && j != me :: |RowsFor(x[j].input, prefix)| <= 1
    ensures LatestUpTo(x, me, prefix, upto) == OthersUpTo(x, me, prefix, upto)
  {
    hide RowsFor;
    if upto > 0 {
      LatestIsAll(x, me, prefix, upto - 1);
      assert upto - 1 != me ==> LastOf(RowsFor(x[upto - 1].input, prefix)) == RowsFor(x[upto - 1].input, prefix);
    }
  }

  // ----- runs without re-announcements -----

  /** No participant has two rows for a prefix. */
  ghost predicate SingleRows(x: Exchange) {
    forall i: nat, p: string | i < |x| :: |RowsFor(x[i].input, p)| <= 1
  }

  /** The prefixes that the message announces are different ones, of which its participant has no row. */
  ghost predicate AnnouncesAnew(x: Exchange, ips: seq<set<string>>, m: Message)
    requires |x| == |ips|
  {
    IsAnnouncement(m) && m.ip.Some? ==>
      var routes := m.update.value.announce.value;
      && (forall j: nat, l: nat | j < l < |routes| :: routes[j].0 != routes[l].0)
      && forall i: nat, j: nat | i < |x| && m.ip.value in ips[i] && j < |routes| ::
           RowsFor(x[i].input, routes[j].0) == []
  }

  lemma {:induction false} RowsOfAnnounced(input: seq<Route>, routes: seq<(string, string)>, a: Attribute, p: string)
    requires forall j: nat, l: nat | j < l < |routes| :: routes[j].0 != routes[l].0
    ensures |RowsFor(WithRoutes(input, routes, a), p)| == |RowsFor(input, p)| + if Names(routes, p) then 1 else 0
  {
    hide RowsFor;
    if routes != [] {
      var init, last := routes[..|routes| - 1], routes[|routes| - 1];
      RowsOfAnnounced(input, init, a, p);
      NamesNext(routes, p);
      RowAdded(WithRoutes(input, init, a), RowOf(last, a), p);
    }
  }

  lemma UpdateKeepsSingle(t: Tables, u: Update)
    requires forall p: string :: |RowsFor(t.input, p)| <= 1
    requires u.announce.Some? ==>
               var routes := u.announce.value;
               && (forall j: nat, l: nat | j < l < |routes| :: routes[j].0 != routes[l].0)
               && forall j: nat | j < |routes| :: RowsFor(t.input, routes[j].0) == []
    ensures forall p: string :: |RowsFor(Updated(t, u).tables.input, p)| <= 1
  {
    hide RowsFor, WithRoutes, WithoutRoutes;
    forall p: string
      ensures |RowsFor(Updated(t, u).tables.input, p)| <= 1
    {
      if u.announce.Some? && u.attribute.Some? {
        RowsOfAnnounced(t.input, u.announce.value, u.attribute.value, p);
      } else if u.announce.None? && u.withdraw.Some? {
        WithdrawnFor(t.input, u.withdraw.value, p);
      }
    }
  }

  /** An announcement that reports nothing changes nothing. */
  lemma NothingReported(t: Tables, u: Update)
    requires u.announce.Some?
    ensures var r := Updated(t, u); r.list == [] ==> r.tables == t
  {
    if u.announce.value != [] && u.attribute.Some? {
      AnnouncedFor(t.input, u.announce.value, u.attribute.value, "");
    }
  }

  lemma ReceivedKeepsSingle(x: Exchange, ips: seq<set<string>>, m: Message, i: nat)
    requires i < |x| == |ips| && SingleRows(x) && AnnouncesAnew(x, ips, m) && !TakesDown(ips, m)
    ensures var r := Received(x[i], ips[i], m);
            && SingleRows(x[i := r.tables])
            && (r.list == [] ==> AnnouncesAnew(x[i := r.tables], ips, m))
  {
    var r := Received(x[i], ips[i], m);
    hide RowsFor, Updated;
    NoRows();
    if m.Neighbor? && m.ip.Some? && m.ip.value in ips[i] && m.update.Some? {
      UpdateKeepsSingle(x[i], m.update.value);
      if IsAnnouncement(m) {
        NothingReported(x[i], m.update.value);
        assert r.list == [] ==> x[i := r.tables] == x;
      }
    }
  }

  lemma {:induction false} ReceiptKeepsSingle(x: Exchange, ips: seq<set<string>>, m: Message, i: nat)
    requires i <= |x| == |ips| && SingleRows(x) && AnnouncesAnew(x, ips, m) && !TakesDown(ips, m)
    ensures SingleRows(ReceiveFrom(x, ips, m, i).x)
    decreases |x| - i
  {
    hide RowsFor, Received, SingleRows, AnnouncesAnew, TakesDown;
    if i < |x| {
      var r := Received(x[i], ips[i], m);
      ReceivedKeepsSingle(x, ips, m, i);
      if r.ok && r.list == [] {
        ReceiptKeepsSingle(x[i := r.tables], ips, m, i + 1);
      }
    }
  }

  lemma {:induction false} DecisionsKeepInputs(x: Exchange, list: seq<Item>)
    ensures SameInputs(x, DecideAll(x, list).0)
    decreases |list|
  {
    hide DecideFrom;
    if list != [] {
      var (y, ok) := DecideItem(x, list[0]);
      match list[0] {
        case Announced(route) => TurnsKeepInputs(x, true, route.prefix, 0);
        case Withdrawn(gone) =>
          if gone.Some? {
            TurnsKeepInputs(x, false, gone.value.prefix, 0);
          }
      }
      if ok {
        DecisionsKeepInputs(y, list[1..]);
      }
    }
  }

  lemma MessageKeepsSingle(x: Exchange, ips: seq<set<string>>, m: Message)
    requires |x| == |ips| && SingleRows(x) && AnnouncesAnew(x, ips, m) && !TakesDown(ips, m)
    ensures SingleRows(Processed(x, ips, m).0)
  {
    hide RowsFor, DecideAll, ReceiveFrom;
    ReceiptKeepsSingle(x, ips, m, 0);
    var r := ReceiveFrom(x, ips, m, 0);
    DecisionsKeepInputs(r.x, r.list);
  }

  /** No prefix is announced again before it has been withdrawn. */
  ghost predicate NeverAgain(x: Exchange, ips: seq<set<string>>, messages: seq<Message>)
    requires |x| == |ips|
    decreases |messages|
  {
    messages == [] ||
      (ProcessedLength(x, ips, messages[0]);
       && AnnouncesAnew(x, ips, messages[0])
       && NeverAgain(Processed(x, ips, messages[0]).0, ips, messages[1..]))
  }

  lemma {:induction false} RunKeepsSingle(x: Exchange, ips: seq<set<string>>, messages: seq<Message>)
    requires |x| == |ips| && SingleRows(x) && NeverAgain(x, ips, messages)
    requires forall j: nat | j < |messages| :: !TakesDown(ips, messages[j])
    ensures SingleRows(Run(x, ips, messages).0) && |Run(x, ips, messages).0| == |x|
    decreases |messages|
  {
    hide SingleRows, AnnouncesAnew, TakesDown, Processed;
    if messages != [] {
      MessageKeepsSingle(x, ips, messages[0]);
      ProcessedLength(x, ips, messages[0]);
      var (y, ok) := Processed(x, ips, messages[0]);
      if ok {
        RunKeepsSingle(y, ips, messages[1..]);
      }
    }
  }

  /** Over every run in which no session goes down and no prefix is announced again before it has been
      withdrawn: every local table is that of the others' latest announcements. */
  lemma RunStaysCurrent(x: Exchange, ips: seq<set<string>>, messages: seq<Message>)
    requires |x| == |ips| && AllSettled(x) && SingleRows(x) && NeverAgain(x, ips, messages)
    requires forall j: nat | j < |messages| :: !TakesDown(ips, messages[j])
    ensures var (y, ok) := Run(x, ips, messages);
            ok ==> |y| == |x| && forall i: nat, p: string | i < |y| :: LocalIsCurrent(y, i, p)
  {
    hide AllSettled, SingleRows, TakesDown, NeverAgain, Run;
    RunKeepsSettled(x, ips, messages);
    RunKeepsSingle(x, ips, messages);
    var (y, ok) := Run(x, ips, messages);
    if ok {
      forall i: nat, p: string | i < |y|
        ensures LocalIsCurrent(y, i, p)
      {
        SettledIsCurrent(y, i, p);
      }
    }
  }

  lemma SettledIsCurrent(x: Exchange, i: nat, p: string)
    requires i < |x| && AllSettled(x) && SingleRows(x)
    ensures LocalIsCurrent(x, i, p)
  {
    assert Settled(x, p) && LocalIsBest(x, i, p);
    CurrentWithoutSecondRows(x, i, p);
  }

  lemma NoRows()
    ensures forall p: string :: RowsFor([], p) == []
  {
  }

  // ----- an example -----

  /** The first of two participants announces a prefix, and the second can select. */
  lemma FirstAnnounces(x: Exchange, ips: seq<set<string>>, ip: string, p: string, h: string, a: Attribute)
    requires |x| == |ips| == 2 && Owner(ips, ip, 0) && AllSettled(x) && x[1].input == []
    requires BestOf(RowsFor(x[0].input, p) + [Row(p, h, a)]).Best?
    ensures var (y, ok) := Processed(x, ips, Announcement(ip, p, h, a));
            && ok && |y| == 2 && AllSettled(y)
            && y[0].input == x[0].input + [Row(p, h, a)] && y[1].input == []
  {
    var row := Row(p, h, a);
    RowAdded(x[0].input, row, p);
    NoRows();
    assert row.prefix == p;
    TwoSelectable(WithRow(x, 0, row), p);
    hide Processed, Announcement, RowsFor, BestOf, AllSettled, Row, Selectable;
    Announces(x, ips, 0, ip, p, h, a);
  }

  lemma TwoSelectable(y: Exchange, p: string)
    requires |y| == 2 && RowsFor(y[1].input, p) == [] && BestOf(RowsFor(y[0].input, p)).Best?
    ensures Selectable(y, p, 0)
  {
    hide RowsFor, BestOf;
    OthersOfTwo(y, p);
  }

  lemma OthersOfTwo(x: Exchange, p: string)
    requires |x| == 2
    ensures Others(x, 0, p) == RowsFor(x[1].input, p) && Others(x, 1, p) == RowsFor(x[0].input, p)
    ensures Latest(x, 1, p) == LastOf(RowsFor(x[0].input, p))
  {
    hide RowsFor;
    assert OthersUpTo(x, 0, p, 1) == [] && OthersUpTo(x, 1, p, 1) == RowsFor(x[0].input, p);
    assert LatestUpTo(x, 1, p, 1) == LastOf(RowsFor(x[0].input, p));
  }

  /** The first of two participants announces a prefix, and later again with a longer path and another
      next hop: the second keeps the route that was replaced. */
  lemma SupersededExample(ips: seq<set<string>>, ip: string, p: string, a: Attribute, b: Attribute,
                          h: string, k: string)
    requires |ips| == 2 && Owner(ips, ip, 0) && |a.asPath| == 1 && |b.asPath| == 2 && h != k
    ensures var none := Tables([], []);
            var (x, ok) := Run([none, none], ips, [Announcement(ip, p, h, a), Announcement(ip, p, k, b)]);
            && ok && |x| == 2 && RowsFor(x[1].local, p) == [Route(p, h, a.origin, a.asPath, a.med, a.atomic)]
            && Latest(x, 1, p) == [Route(p, k, b.origin, b.asPath, b.med, b.atomic)] && !LocalIsCurrent(x, 1, p)
  {
    var x := [Tables([], []), Tables([], [])];
    var row, next := Row(p, h, a), Row(p, k, b);
    var m, n := Announcement(ip, p, h, a), Announcement(ip, p, k, b);
    assert row.prefix == p && next.prefix == p && row.nextHop != next.nextHop;
    hide BestOf, Processed, Announcement, RowsFor, AllSettled, LatestUpTo, OthersUpTo, LocalIsBest;
    BestOfTwo(row, next);
    EmptyIsSettled(x);
    NoRows();
    assert [] + [row] == [row] && [row] + [next] == [row, next];
    RowAdded([], row, p);
    RowAdded([row], next, p);
    FirstAnnounces(x, ips, ip, p, h, a);
    var y := Processed(x, ips, m).0;
    FirstAnnounces(y, ips, ip, p, k, b);
    var z := Processed(y, ips, n).0;
    RunOfTwo(x, ips, m, n);
    SecondHolds(z, p, row, next);
  }

  lemma BestOfTwo(row: Route, next: Route)
    requires |row.asPath| < |next.asPath|
    ensures BestOf([row]) == Best(row) && BestOf([next]) == Best(next) && BestOf([row, next]) == Best(row)
  {
    hide OfLength, MinLength;
    ShortestOfOne(row);
    ShortestOfOne(next);
    ShortestNext([row], next);
    assert [row] + [next] == [row, next];
    hide Shortest, Finalists;
  }

  lemma SecondHolds(z: Exchange, p: string, row: Route, next: Route)
    requires |z| == 2 && AllSettled(z) && RowsFor(z[0].input, p) == [row, next] && row.nextHop != next.nextHop
    requires BestOf([row, next]) == Best(row) && BestOf([next]) == Best(next)
    ensures RowsFor(z[1].local, p) == [row] && Latest(z, 1, p) == [next] && !LocalIsCurrent(z, 1, p)
  {
    hide BestOf, RowsFor, OthersUpTo, LatestUpTo;
    OthersOfTwo(z, p);
    assert Settled(z, p) && LocalIsBest(z, 1, p);
  }
}
