/** Every message leaves all local tables settled, over every run; the exception is a session that goes
    down. */
module DecisionRuns {
  import opened Wrappers
  import opened BestPath
  import opened Decision

  function PrefixOf(item: Item): Option<string> {
    match item
    case Announced(route) => Some(route.prefix)
    case Withdrawn(gone) => if gone.Some? then Some(gone.value.prefix) else None
  }

  /** Some item is for the prefix. */
  predicate Listed(list: seq<Item>, prefix: string) {
    exists j: nat :: j < |list| && PrefixOf(list[j]) == Some(prefix)
  }

  /** Every prefix is settled, or listed and ready for the decision. */
  ghost predicate Covered(x: Exchange, announce: bool, list: seq<Item>) {
    && (forall j: nat | j < |list| :: list[j].Announced? == announce)
    && forall p: string :: Settled(x, p) || (Listed(list, p) && Ready(x, announce, p))
  }

  lemma SettledIsReady(x: Exchange, announce: bool, p: string)
    requires Settled(x, p)
    ensures Ready(x, announce, p)
  {
    hide RowsFor, Others;
    forall i: nat | i < |x|
      ensures Others(x, i, p) == [] <==> RowsFor(x[i].local, p) == []
    {
      assert LocalIsBest(x, i, p);
    }
  }

  /** The inputs are as they were for every prefix. */
  ghost predicate SameInputs(x: Exchange, y: Exchange) {
    |x| == |y| && forall i: nat | i < |x| :: x[i].input == y[i].input
  }

  lemma SelectableSame(x: Exchange, y: Exchange, p: string)
    requires SameInputs(x, y)
    ensures Selectable(x, p, 0) <==> Selectable(y, p, 0)
  {
    forall j: nat | j < |x|
      ensures Others(x, j, p) == Others(y, j, p)
    {
      OthersSame(x, y, j, p, |x|);
    }
  }

  lemma {:induction false} TurnsKeepInputs(x: Exchange, announce: bool, p: string, i: nat)
    requires i <= |x|
    ensures SameInputs(x, DecideFrom(x, announce, p, i).0)
    decreases |x| - i
  {
    hide DecideFor;
    if i < |x| {
      var (y, ok) := DecideFor(x, announce, p, i);
      TurnKeepsInputs(x, announce, p, i);
      if ok {
        TurnsKeepInputs(y, announce, p, i + 1);
      }
    }
  }

  lemma TurnKeepsInputs(x: Exchange, announce: bool, p: string, i: nat)
    requires i < |x|
    ensures SameInputs(x, DecideFor(x, announce, p, i).0)
  {
  }

  lemma ItemStep(x: Exchange, announce: bool, list: seq<Item>)
    requires list != [] && Covered(x, announce, list)
    ensures var (y, ok) := DecideItem(x, list[0]);
            && (ok ==> Covered(y, announce, list[1..]))
            && (ok <==> PrefixOf(list[0]).None? || Selectable(x, PrefixOf(list[0]).value, 0))
            && SameInputs(x, y)
  {
    var (y, ok) := DecideItem(x, list[0]);
    var rest := list[1..];
    assert list[0].Announced? == announce;
    forall p: string
      ensures Listed(list, p) <==> PrefixOf(list[0]) == Some(p) || Listed(rest, p)
    {
      if Listed(list, p) && PrefixOf(list[0]) != Some(p) {
        var j: nat :| j < |list| && PrefixOf(list[j]) == Some(p);
        assert rest[j - 1] == list[j];
      }
      if Listed(rest, p) {
        var j: nat :| j < |rest| && PrefixOf(rest[j]) == Some(p);
        assert list[j + 1] == rest[j];
      }
    }
    if PrefixOf(list[0]).Some? {
      var p := PrefixOf(list[0]).value;
      if Settled(x, p) {
        SettledIsReady(x, announce, p);
      }
      TurnsSettle(x, announce, p, 0);
      TurnsKeepInputs(x, announce, p, 0);
      forall q: string | q != p
        ensures Settled(x, q) <==> Settled(y, q)
        ensures Ready(x, announce, q) <==> Ready(y, announce, q)
      {
        TurnsFrame(x, announce, p, 0, q);
        SettledSame(x, y, q);
      }
    }
  }

  /** Once all items have been decided every prefix is settled. The decisions get through exactly when
      every participant that is offered routes for a listed prefix can select one. */
  lemma {:induction false} DecisionsSettle(x: Exchange, announce: bool, list: seq<Item>)
    requires Covered(x, announce, list)
    ensures var (y, ok) := DecideAll(x, list);
            && (ok ==> AllSettled(y))
            && (ok <==> forall p: string | Listed(list, p) :: Selectable(x, p, 0))
    decreases |list|
  {
    hide Covered, Selectable, SameInputs, Settled, PrefixOf, DecideItem;
    if list == [] {
      NothingListed(x, announce);
    } else {
      ItemStep(x, announce, list);
      var (y, ok) := DecideItem(x, list[0]);
      if ok {
        DecisionsSettle(y, announce, list[1..]);
        forall p: string
          ensures Selectable(x, p, 0) <==> Selectable(y, p, 0)
        {
          SelectableSame(x, y, p);
        }
      }
    }
  }

  lemma NothingListed(x: Exchange, announce: bool)
    requires Covered(x, announce, [])
    ensures AllSettled(x) && forall p: string :: !Listed([], p)
  {
  }

  // ----- what an update leaves to decide -----

  predicate Names(routes: seq<(string, string)>, p: string) {
    exists j: nat :: j < |routes| && routes[j].0 == p
  }

  lemma NamesNext(routes: seq<(string, string)>, p: string)
    requires routes != []
    ensures Names(routes, p) <==> Names(routes[..|routes| - 1], p) || routes[|routes| - 1].0 == p
  {
  }

  lemma ListedLast(list: seq<Item>, item: Item, p: string)
    ensures Listed(list + [item], p) <==> Listed(list, p) || PrefixOf(item) == Some(p)
  {
    var more := list + [item];
    assert more[|list|] == item && forall j: nat | j < |list| :: more[j] == list[j];
  }

  lemma RowAdded(before: seq<Route>, row: Route, p: string)
    ensures RowsFor(before + [row], p) == if row.prefix == p then RowsFor(before, p) + [row] else RowsFor(before, p)
    ensures var first := FirstFor(before + [row], row.prefix); first.Some? && first.value.prefix == row.prefix
  {
    RowsForConcat(before, [row], p);
    RowsForConcat(before, [row], row.prefix);
    FirstRow(before + [row], row.prefix);
  }

  lemma {:induction false} AnnouncedFor(input: seq<Route>, routes: seq<(string, string)>, a: Attribute, p: string)
    ensures var rows := RowsFor(WithRoutes(input, routes, a), p);
            if Names(routes, p) then rows != [] else rows == RowsFor(input, p)
    ensures Listed(AnnouncedItems(input, routes, a), p) <==> Names(routes, p)
    ensures routes != [] ==> AnnouncedItems(input, routes, a) != []
    ensures forall j: nat | j < |AnnouncedItems(input, routes, a)| :: AnnouncedItems(input, routes, a)[j].Announced?
  {
    hide RowsFor, FirstFor, Listed, Names;
    if routes == [] {
      NothingNamed(p);
    } else {
      var init, last := routes[..|routes| - 1], routes[|routes| - 1];
      AnnouncedFor(input, init, a, p);
      NamesNext(routes, p);
      var before, row := WithRoutes(input, init, a), RowOf(last, a);
      RowAdded(before, row, p);
      var items, item := AnnouncedItems(input, init, a), Announced(FirstFor(before + [row], last.0).value);
      ListedLast(items, item, p);
      assert AnnouncedItems(input, routes, a) == items + [item];
    }
  }

  lemma NothingNamed(p: string)
    ensures !Names([], p) && !Listed([], p)
  {
  }

  lemma {:induction false} WithdrawnFor(input: seq<Route>, prefixes: seq<string>, p: string)
    ensures RowsFor(WithoutRoutes(input, prefixes), p) == if p in prefixes then [] else RowsFor(input, p)
    ensures Listed(WithdrawnItems(input, prefixes), p) <==> p in prefixes && RowsFor(input, p) != []
    ensures |WithdrawnItems(input, prefixes)| == |prefixes|
    ensures forall j: nat | j < |prefixes| :: !WithdrawnItems(input, prefixes)[j].Announced?
  {
    hide RowsFor, FirstFor, Listed;
    if prefixes == [] {
      NothingNamed(p);
    } else {
      var init, last := prefixes[..|prefixes| - 1], prefixes[|prefixes| - 1];
      WithdrawnFor(input, init, p);
      assert prefixes == init + [last];
      var before := WithoutRoutes(input, init);
      RowsForExcept(before, last, p);
      FirstRow(before, last);
      var items, item := WithdrawnItems(input, init), Withdrawn(FirstFor(before, last));
      ListedLast(items, item, p);
      assert WithdrawnItems(input, prefixes) == items + [item];
    }
  }

  /** A withdrawal reports no route exactly when some prefix has no row: it had none, or was withdrawn
      twice. The program then fails after the decisions, once a virtual next hop has been assigned. */
  lemma {:induction false} UnknownWithdrawalIff(input: seq<Route>, prefixes: seq<string>)
    ensures Withdrawn(None) in WithdrawnItems(input, prefixes) <==>
            exists j: nat :: j < |prefixes| && (RowsFor(input, prefixes[j]) == [] || prefixes[j] in prefixes[..j])
  {
    hide RowsFor, FirstFor;
    if prefixes != [] {
      var init, last := prefixes[..|prefixes| - 1], prefixes[|prefixes| - 1];
      UnknownWithdrawalIff(input, init);
      WithdrawnFor(input, init, last);
      FirstRow(WithoutRoutes(input, init), last);
      assert forall j: nat | j < |init| :: prefixes[j] == init[j] && prefixes[..j] == init[..j];
      assert prefixes[|init|] == last && prefixes[..|init|] == init;
    }
  }

  lemma FirstRow(rows: seq<Route>, prefix: string)
    ensures var first := FirstFor(rows, prefix);
            (first.Some? <==> RowsFor(rows, prefix) != []) && (first.Some? ==> first.value.prefix == prefix)
  {
  }

  lemma {:induction false} OthersNone(x: Exchange, me: nat, p: string, upto: nat)
    requires upto <= |x|
    ensures OthersUpTo(x, me, p, upto) == [] <==> forall j: nat | j < upto && j != me :: RowsFor(x[j].input, p) == []
  {
    hide RowsFor;
    if upto > 0 {
      OthersNone(x, me, p, upto - 1);
    }
  }

  /** When one participant's rows for a prefix become more than none, the prefix is ready for a decision
      after an announcement; when they become none, for one after a withdrawal. */
  lemma ReadyAfter(x: Exchange, k: nat, t: Tables, announce: bool, p: string)
    requires k < |x| && Settled(x, p) && t.local == x[k].local
    requires if announce then RowsFor(t.input, p) != [] else RowsFor(t.input, p) == []
    ensures Ready(x[k := t], announce, p)
  {
    var y := x[k := t];
    hide RowsFor, OthersUpTo;
    forall j: nat | j < |x|
      ensures var others, rows := Others(y, j, p), RowsFor(y[j].local, p);
              if announce then others == [] ==> rows == [] else rows == [] ==> others == []
    {
      assert LocalIsBest(x, j, p);
      OthersNone(x, j, p, |x|);
      OthersNone(y, j, p, |x|);
      if j == k {
        OthersSame(x, y, j, p, |x|);
      } else {
        assert y[k] == t && y[j] == x[j];
        assert forall m: nat | m < |x| && m != k :: y[m] == x[m];
      }
    }
  }

  lemma UnchangedAt(x: Exchange, k: nat, t: Tables, p: string)
    requires k < |x| && Settled(x, p) && t.local == x[k].local && RowsFor(t.input, p) == RowsFor(x[k].input, p)
    ensures Settled(x[k := t], p)
  {
    SettledSame(x, x[k := t], p);
  }

  lemma UpdateCovers(x: Exchange, k: nat, u: Update)
    requires k < |x| && AllSettled(x) && Updated(x[k], u).ok
    ensures var r := Updated(x[k], u);
            Covered(x[k := r.tables], u.announce.Some?, r.list) && (r.list == [] ==> r.tables == x[k])
  {
    var r := Updated(x[k], u);
    var input, t := x[k].input, r.tables;
    var announce := u.announce.Some?;
    assert x[k := x[k]] == x;
    if u.announce.Some? && u.announce.value != [] {
      AnnouncedFor(input, u.announce.value, u.attribute.value, "");
    } else if u.announce.None? && u.withdraw.Some? {
      WithdrawnFor(input, u.withdraw.value, "");
    }
    hide RowsFor, Ready, Settled, Listed;
    forall p: string
      ensures Settled(x[k := t], p) || (Listed(r.list, p) && Ready(x[k := t], announce, p))
    {
      assert Settled(x, p);
      if u.announce.Some? && u.announce.value != [] {
        AnnouncedFor(input, u.announce.value, u.attribute.value, p);
        if Names(u.announce.value, p) {
          ReadyAfter(x, k, t, true, p);
        } else {
          UnchangedAt(x, k, t, p);
        }
      } else if u.announce.None? && u.withdraw.Some? {
        WithdrawnFor(input, u.withdraw.value, p);
        if p in u.withdraw.value && RowsFor(input, p) != [] {
          ReadyAfter(x, k, t, false, p);
        } else {
          UnchangedAt(x, k, t, p);
        }
      }
    }
  }

  // ----- messages -----

  /** The message takes down the session of some participant. */
  predicate TakesDown(ips: seq<set<string>>, m: Message) {
    && m.Neighbor? && m.down && m.ip.Some?
    && exists k: nat :: k < |ips| && m.ip.value in ips[k]
  }

  function IsAnnouncement(m: Message): bool {
    m.Neighbor? && m.update.Some? && m.update.value.announce.Some?
  }

  lemma {:induction false} ReceiptCovers(x: Exchange, ips: seq<set<string>>, m: Message, i: nat)
    requires i <= |x| == |ips| && AllSettled(x) && !TakesDown(ips, m)
    requires m != Notification("shutdown") && ReceiveFrom(x, ips, m, i).ok
    ensures var r := ReceiveFrom(x, ips, m, i); Covered(r.x, IsAnnouncement(m), r.list)
    decreases |x| - i
  {
    if i < |x| {
      var r := Received(x[i], ips[i], m);
      assert x[i := x[i]] == x;
      if m.Neighbor? && m.ip.Some? && m.ip.value in ips[i] && m.update.Some? {
        UpdateCovers(x, i, m.update.value);
      }
      if r.list == [] {
        ReceiptCovers(x, ips, m, i + 1);
      }
    }
  }

  lemma {:induction false} ShutdownEmpties(x: Exchange, ips: seq<set<string>>, i: nat)
    requires i <= |x| == |ips| && forall j: nat | j < i :: x[j] == Tables([], [])
    ensures var r := ReceiveFrom(x, ips, Notification("shutdown"), i);
            r.ok && r.list == [] && forall j: nat | j < |x| :: r.x[j] == Tables([], [])
    decreases |x| - i
  {
    if i < |x| {
      ShutdownEmpties(x[i := Tables([], [])], ips, i + 1);
    }
  }

  lemma EmptyIsSettled(x: Exchange)
    requires forall j: nat | j < |x| :: x[j] == Tables([], [])
    ensures AllSettled(x)
  {
    forall p: string, i: nat | i < |x|
      ensures LocalIsBest(x, i, p)
    {
      OthersNone(x, i, p, |x|);
    }
  }

  /** After every message that takes no session down, all local tables are settled. The processing
      gets through unless there is no participant, routes are announced without attributes, or some
      participant cannot select among the routes for a reported prefix. */
  lemma MessageKeepsSettled(x: Exchange, ips: seq<set<string>>, m: Message)
    requires |x| == |ips| && AllSettled(x) && !TakesDown(ips, m)
    ensures var (y, ok) := Processed(x, ips, m);
            var r := ReceiveFrom(x, ips, m, 0);
            && (ok ==> AllSettled(y))
            && (ok <==> x != [] && r.ok && forall p: string | Listed(r.list, p) :: Selectable(r.x, p, 0))
  {
    var r := ReceiveFrom(x, ips, m, 0);
    if m == Notification("shutdown") {
      ShutdownEmpties(x, ips, 0);
      EmptyIsSettled(r.x);
    } else if r.ok {
      ReceiptCovers(x, ips, m, 0);
      DecisionsSettle(r.x, IsAnnouncement(m), r.list);
    }
  }

  function Run(x: Exchange, ips: seq<set<string>>, messages: seq<Message>): (Exchange, bool)
    requires |x| == |ips|
    decreases |messages|
  {
    if messages == [] then (x, true)
    else
      var (y, ok) := Processed(x, ips, messages[0]);
      if ok then ProcessedLength(x, ips, messages[0]); Run(y, ips, messages[1..]) else (y, false)
  }

  lemma ProcessedLength(x: Exchange, ips: seq<set<string>>, m: Message)
    requires |x| == |ips|
    ensures |Processed(x, ips, m).0| == |x|
  {
  }

  /** Over every run without a session going down: all local tables are settled. */
  lemma {:induction false} RunKeepsSettled(x: Exchange, ips: seq<set<string>>, messages: seq<Message>)
    requires |x| == |ips| && AllSettled(x) && forall j: nat | j < |messages| :: !TakesDown(ips, messages[j])
    ensures var (y, ok) := Run(x, ips, messages); ok ==> AllSettled(y)
    decreases |messages|
  {
    hide AllSettled, TakesDown, Processed;
    if messages != [] {
      MessageKeepsSettled(x, ips, messages[0]);
      ProcessedLength(x, ips, messages[0]);
      var (y, ok) := Processed(x, ips, messages[0]);
      if ok {
        RunKeepsSettled(y, ips, messages[1..]);
      }
    }
  }

  // ----- a session that goes down -----

  lemma {:induction false} ClearedFor(local: seq<Route>, rows: seq<Route>, p: string)
    ensures RowsFor(Cleared(local, rows), p) == if RowsFor(rows, p) == [] then RowsFor(local, p) else []
  {
    if rows != [] {
      var init, last := rows[..|rows| - 1], rows[|rows| - 1];
      ClearedFor(local, init, p);
      RowsForExcept(Cleared(local, init), last.prefix, p);
    }
  }

  lemma {:induction false} DownReceived(x: Exchange, ips: seq<set<string>>, m: Message, k: nat, i: nat)
    requires i <= |x| == |ips| && k < |x| && m.Neighbor? && m.down && m.ip.Some? && m.update.None?
    requires forall j: nat | j < |x| :: m.ip.value in ips[j] <==> j == k
    ensures ReceiveFrom(x, ips, m, i) == Receipt(if i <= k then x[k := Downed(x[k])] else x, [], true)
    decreases |x| - i
  {
    if i < |x| {
      var r := Received(x[i], ips[i], m);
      DownReceived(x[i := r.tables], ips, m, k, i + 1);
      assert i != k ==> x[i := r.tables] == x;
    }
  }

  /** A session that goes down clears the participant's routes and decides nothing: the local tables
      stay settled if and only if the participant had announced nothing, or is alone. */
  lemma DownKeepsSettledIff(x: Exchange, ips: seq<set<string>>, m: Message, k: nat)
    requires |x| == |ips| && k < |x| && AllSettled(x)
    requires m.Neighbor? && m.down && m.ip.Some? && m.update.None?
    requires forall j: nat | j < |x| :: m.ip.value in ips[j] <==> j == k
    ensures Processed(x, ips, m) == (x[k := Downed(x[k])], true)
    ensures AllSettled(x[k := Downed(x[k])]) <==> x[k].input == [] || |x| == 1
  {
    DownReceived(x, ips, m, k, 0);
    var y := x[k := Downed(x[k])];
    if x[k].input == [] {
      assert Downed(x[k]) == x[k];
      assert y == x;
    } else if |x| == 1 {
      forall p: string, i: nat | i < |y|
        ensures LocalIsBest(y, i, p)
      {
        assert Settled(x, p) && LocalIsBest(x, i, p);
        OthersNone(x, i, p, |x|);
        OthersNone(y, i, p, |y|);
        ClearedFor(x[k].local, x[k].input, p);
      }
    } else {
      DownUnsettles(x, k);
    }
  }

  /** The first of two participants had announced a route and goes down: the other one keeps it. */
  lemma DownExample(ips: seq<set<string>>, ip: string, r: Route)
    requires |ips| == 2 && ip in ips[0] && ip !in ips[1]
    ensures var x, y := [Tables([r], []), Tables([], [r])], [Tables([], []), Tables([], [r])];
            AllSettled(x) && Processed(x, ips, Neighbor(Some(ip), true, None)) == (y, true) && !AllSettled(y)
  {
    var x := [Tables([r], []), Tables([], [r])];
    ShortestOfOne(r);
    OneRoute(r);
    forall p: string, i: nat | i < |x|
      ensures LocalIsBest(x, i, p)
    {
      OthersNone(x, 0, p, 1);
      assert x[0].input == [r] && OthersUpTo(x, 1, p, 0) == [];
      assert OthersUpTo(x, 1, p, 1) == [] + RowsFor([r], p) == RowsFor([r], p);
      assert OthersUpTo(x, 1, p, 2) == OthersUpTo(x, 1, p, 1) + [] == RowsFor([r], p);
    }
    DownKeepsSettledIff(x, ips, Neighbor(Some(ip), true, None), 0);
    var y := [Tables([], []), Tables([], [r])];
    var none := [r][..0];
    assert Cleared(x[0].local, none) == [] && x[0].input == [r];
    assert Downed(x[0]) == Tables([], []);
    assert x[0 := Downed(x[0])] == y;
  }

  lemma OneRoute(r: Route)
    ensures forall p :: RowsFor([r], p) == if r.prefix == p then [r] else []
    ensures forall p :: RowsFor([], p) == []
  {
    var none: seq<Route> := [r][..0];
    assert forall p :: RowsFor(none, p) == [];
  }

  lemma DownUnsettles(x: Exchange, k: nat)
    requires k < |x| && AllSettled(x) && x[k].input != [] && |x| > 1
    ensures !AllSettled(x[k := Downed(x[k])])
  {
    var t, p := Downed(x[k]), x[k].input[0].prefix;
    RowsForHas(x[k].input, p, x[k].input[0]);
    ClearedFor(x[k].local, x[k].input, p);
    assert Settled(x, p);
    RouteLost(x, k, t, p);
    assert !Settled(x[k := t], p);
  }

  /** The participant lost its route for the prefix and its local row, and nobody decided again. */
  lemma RouteLost(x: Exchange, k: nat, t: Tables, p: string)
    requires k < |x| && |x| > 1 && Settled(x, p) && RowsFor(x[k].input, p) != []
    requires RowsFor(t.local, p) == [] && RowsFor(t.input, p) == []
    ensures !Settled(x[k := t], p)
  {
    hide RowsFor, OthersUpTo;
    var y := x[k := t];
    OthersSame(x, y, k, p, |x|);
    if Others(x, k, p) == [] {
      var j: nat := if k == 0 then 1 else 0;
      OthersNone(x, k, p, |x|);
      OthersNone(x, j, p, |x|);
      OthersNone(y, j, p, |x|);
      assert LocalIsBest(x, j, p) && y[j] == x[j];
      assert forall m: nat | m < |x| && m != k :: y[m] == x[m];
      assert !LocalIsBest(y, j, p);
    } else {
      assert !LocalIsBest(y, k, p);
    }
  }
}
