/** Best-path selection: shortest AS path, then lowest MED among routes of one neighbour AS, then
    lowest next hop. */
module BestPath {
  import opened Wrappers
  import opened Ipv4Text

  /** A missing MED is stored as an empty text, which sorts after every number. */
  datatype Med = Number(value: int) | Missing {
    predicate Below(other: Med) {
      Number? && (other.Missing? || value < other.value)
    }
  }

  /** A row of a routing table. The AS path is the list of its numbers, as texts; the next hop is a text
      too, in whatever form it came. */
  datatype Route = Route(prefix: string, nextHop: string, origin: string, asPath: seq<string>, med: Med, atomic: string)

  datatype Selection = Best(route: Route) | Fails

  function AdvertisedAs(r: Route): string {
    if r.asPath == [] then "" else r.asPath[0]
  }

  // ----- 1. shortest AS path -----

  function MinLength(routes: seq<Route>): (m: nat)
    requires routes != []
    ensures forall r | r in routes :: m <= |r.asPath|
    ensures exists r :: r in routes && |r.asPath| == m
  {
    var last := routes[|routes| - 1];
    if |routes| == 1 then
      assert last in routes;
      |last.asPath|
    else
      var init := routes[..|routes| - 1];
      var m := MinLength(init);
      assert routes == init + [last];
      assert forall r | r in routes :: r in init || r == last;
      assert last in routes && forall r | r in init :: r in routes;
      if |last.asPath| < m then |last.asPath| else m
  }

  function OfLength(routes: seq<Route>, n: nat): seq<Route> {
    if routes == [] then []
    else
      var last := routes[|routes| - 1];
      OfLength(routes[..|routes| - 1], n) + (if |last.asPath| == n then [last] else [])
  }

  lemma {:induction false} OfLengthHas(routes: seq<Route>, n: nat, r: Route)
    ensures r in OfLength(routes, n) <==> r in routes && |r.asPath| == n
  {
    if routes != [] {
      OfLengthHas(routes[..|routes| - 1], n, r);
      assert routes == routes[..|routes| - 1] + [routes[|routes| - 1]];
    }
  }

  lemma {:induction false} OfLengthNone(routes: seq<Route>, n: nat)
    requires forall r | r in routes :: |r.asPath| != n
    ensures OfLength(routes, n) == []
  {
    if routes != [] {
      OfLengthNone(routes[..|routes| - 1], n);
      assert routes[|routes| - 1] in routes;
    }
  }

  function Shortest(routes: seq<Route>): seq<Route> {
    if routes == [] then [] else OfLength(routes, MinLength(routes))
  }

  lemma MinLengthNext(init: seq<Route>, last: Route)
    requires init != []
    ensures var m := MinLength(init);
            MinLength(init + [last]) == if |last.asPath| < m then |last.asPath| else m
  {
    assert (init + [last])[..|init|] == init;
  }

  /** What one more route does to the shortest routes. */
  lemma ShortestNext(init: seq<Route>, last: Route)
    requires init != []
    ensures Shortest(init) != []
    ensures var m := MinLength(init);
            Shortest(init + [last]) ==
            if |last.asPath| == m then Shortest(init) + [last]
            else if |last.asPath| < m then [last]
            else Shortest(init)
  {
    var m := MinLength(init);
    MinLengthNext(init, last);
    assert (init + [last])[..|init|] == init;
    if |last.asPath| < m {
      OfLengthNone(init, |last.asPath|);
    }
    var r :| r in init && |r.asPath| == m;
    OfLengthHas(init, m, r);
  }

  method ShortestRoutes(routes: seq<Route>) returns (best: seq<Route>)
    ensures best == Shortest(routes)
  {
    best := [];
    var minLength := 0;
    var i := 0;
    while i < |routes|
      invariant i <= |routes| && (i == 0 <==> best == [])
      invariant best == Shortest(routes[..i])
      invariant i > 0 ==> minLength == MinLength(routes[..i])
    {
      hide OfLength, MinLength, Shortest;
      var route := routes[i];
      ghost var init := routes[..i];
      assert routes[..i + 1] == init + [route];
      if i > 0 {
        ShortestNext(init, route);
        MinLengthNext(init, route);
      } else {
        assert init + [route] == [route];
        ShortestOfOne(route);
      }
      if best == [] {
        minLength := |route.asPath|;
        best := best + [route];
      } else if minLength == |route.asPath| {
        best := best + [route];
      } else if minLength > |route.asPath| {
        best := [];
        minLength := |route.asPath|;
        best := best + [route];
      }
      i := i + 1;
    }
    assert routes[..|routes|] == routes;
  }

  lemma ShortestOfOne(route: Route)
    ensures Shortest([route]) == [route] && MinLength([route]) == |route.asPath|
  {
    var none: seq<Route> := [route][..0];
    assert OfLength(none, |route.asPath|) == [];
  }

  // ----- the sorted list of neighbour ASes -----

  predicate LexLe(a: string, b: string) {
    a == "" || (b != "" && (a[0] < b[0] || (a[0] == b[0] && LexLe(a[1..], b[1..]))))
  }

  lemma {:induction false} LexOrder(a: string, b: string)
    ensures LexLe(a, a) && (LexLe(a, b) || LexLe(b, a))
    ensures LexLe(a, b) && LexLe(b, a) ==> a == b
  {
    if a != "" {
      if b != "" {
        LexOrder(a[1..], b[1..]);
        assert a == [a[0]] + a[1..] && b == [b[0]] + b[1..];
      } else {
        LexOrder(a[1..], b);
      }
    }
  }

  lemma {:induction false} LexTransitive(a: string, b: string, c: string)
    requires LexLe(a, b) && LexLe(b, c)
    ensures LexLe(a, c)
  {
    if a != "" && a[0] == b[0] && b[0] == c[0] {
      LexTransitive(a[1..], b[1..], c[1..]);
    }
  }

  /** The order of texts: a proper start comes first, and otherwise the first difference decides. */
  lemma {:induction false} LexLeIff(a: string, b: string)
    ensures LexLe(a, b) <==> a <= b || exists k: nat :: k < |a| && k < |b| && a[..k] == b[..k] && a[k] < b[k]
  {
    if a != "" && b != "" {
      var s, t := a[1..], b[1..];
      LexLeIff(s, t);
      assert a == [a[0]] + s && b == [b[0]] + t;
      if a[0] == b[0] {
        if k: nat :| k < |s| && k < |t| && s[..k] == t[..k] && s[k] < t[k] {
          assert a[..k + 1] == [a[0]] + s[..k] && b[..k + 1] == [b[0]] + t[..k];
          assert a[k + 1] < b[k + 1];
        }
        if k: nat :| k < |a| && k < |b| && a[..k] == b[..k] && a[k] < b[k] {
          assert s[..k - 1] == a[..k][1..] && t[..k - 1] == b[..k][1..];
          assert s[k - 1] < t[k - 1];
        }
      } else {
        assert a[..0] == b[..0];
        assert forall k: nat | 0 < k && k < |a| && k < |b| :: a[..k][0] != b[..k][0];
      }
    }
  }

  ghost predicate SortedNames(list: seq<string>) {
    forall i, j | 0 <= i < j < |list| :: LexLe(list[i], list[j])
  }

  function InsertName(sorted: seq<string>, name: string): seq<string> {
    if sorted == [] || LexLe(name, sorted[0]) then [name] + sorted
    else [sorted[0]] + InsertName(sorted[1..], name)
  }

  /** Python's `list.sort`. */
  function SortNames(list: seq<string>): seq<string> {
    if list == [] then [] else InsertName(SortNames(list[1..]), list[0])
  }

  lemma {:induction false} InsertNameSorted(sorted: seq<string>, name: string)
    requires SortedNames(sorted)
    ensures SortedNames(InsertName(sorted, name))
    ensures forall n :: n in InsertName(sorted, name) <==> n == name || n in sorted
    ensures |InsertName(sorted, name)| == |sorted| + 1
  {
    if sorted == [] {
    } else if LexLe(name, sorted[0]) {
      forall j | 0 <= j < |sorted|
        ensures LexLe(name, sorted[j])
      {
        if j > 0 {
          LexTransitive(name, sorted[0], sorted[j]);
        }
      }
    } else {
      LexOrder(name, sorted[0]);
      InsertNameSorted(sorted[1..], name);
      var rest := InsertName(sorted[1..], name);
      assert sorted == [sorted[0]] + sorted[1..];
      forall j | 0 <= j < |rest|
        ensures LexLe(sorted[0], rest[j])
      {
        assert rest[j] in rest;
        if rest[j] != name {
          var k :| 0 <= k < |sorted[1..]| && sorted[1..][k] == rest[j];
          assert sorted[k + 1] == rest[j];
        }
      }
    }
  }

  lemma {:induction false} SortNamesSorted(list: seq<string>)
    ensures SortedNames(SortNames(list)) && |SortNames(list)| == |list|
    ensures forall n :: n in SortNames(list) <==> n in list
  {
    if list != [] {
      SortNamesSorted(list[1..]);
      InsertNameSorted(SortNames(list[1..]), list[0]);
      assert list == [list[0]] + list[1..];
    }
  }

  /** `list.count(name)`. */
  function Count(list: seq<string>, name: string): (n: nat)
    ensures n <= |list|
  {
    if list == [] then 0 else (if list[0] == name then 1 else 0) + Count(list[1..], name)
  }

  lemma {:induction false} CountNone(list: seq<string>, name: string)
    requires name !in list
    ensures Count(list, name) == 0
  {
    if list != [] {
      CountNone(list[1..], name);
    }
  }

  lemma {:induction false} CountConcat(a: seq<string>, b: seq<string>, name: string)
    ensures Count(a + b, name) == Count(a, name) + Count(b, name)
  {
    if a == [] {
      assert a + b == b;
    } else {
      CountConcat(a[1..], b, name);
      assert (a + b)[1..] == a[1..] + b;
    }
  }

  /** In a sorted list the occurrences of the first name come first, and nowhere else. */
  lemma {:induction false} FirstGroup(list: seq<string>)
    requires SortedNames(list) && list != []
    ensures var n := Count(list, list[0]);
            1 <= n <= |list| && list[0] !in list[n..] && forall j | 0 <= j < n :: list[j] == list[0]
  {
    var a, rest := list[0], list[1..];
    if rest != [] && rest[0] == a {
      FirstGroup(rest);
      assert list[Count(list, a)..] == rest[Count(rest, a)..];
      forall j | 0 <= j < Count(list, a)
        ensures list[j] == a
      {
        if j > 0 {
          assert list[j] == rest[j - 1];
        }
      }
    } else {
      forall j | 0 <= j < |rest|
        ensures rest[j] != a
      {
        if j > 0 {
          assert rest[j] == list[j + 1] && rest[0] == list[1];
          LexOrder(a, list[1]);
          assert LexLe(list[0], list[1]) && LexLe(list[1], list[j + 1]);
        }
      }
      CountNone(rest, a);
      assert list[1..] == rest;
    }
  }

  // ----- 2. lowest MED within each neighbour AS -----

  function From(routes: seq<Route>, name: string): seq<Route> {
    if routes == [] then []
    else
      var last := routes[|routes| - 1];
      From(routes[..|routes| - 1], name) + (if AdvertisedAs(last) == name then [last] else [])
  }

  lemma {:induction false} FromHas(routes: seq<Route>, name: string, r: Route)
    ensures r in From(routes, name) <==> r in routes && AdvertisedAs(r) == name
  {
    if routes != [] {
      FromHas(routes[..|routes| - 1], name, r);
      assert routes == routes[..|routes| - 1] + [routes[|routes| - 1]];
    }
  }

  function LowestMed(routes: seq<Route>): (m: Med)
    requires routes != []
    ensures forall r | r in routes :: !r.med.Below(m)
    ensures exists r :: r in routes && r.med == m
  {
    var last := routes[|routes| - 1];
    if |routes| == 1 then
      assert last in routes;
      last.med
    else
      var init := routes[..|routes| - 1];
      var m := LowestMed(init);
      assert routes == init + [last];
      assert forall r | r in routes :: r in init || r == last;
      assert last in routes && forall r | r in init :: r in routes;
      if last.med.Below(m) then last.med else m
  }

  function WithMed(routes: seq<Route>, m: Med): seq<Route> {
    if routes == [] then []
    else
      var last := routes[|routes| - 1];
      WithMed(routes[..|routes| - 1], m) + (if last.med == m then [last] else [])
  }

  lemma {:induction false} WithMedHas(routes: seq<Route>, m: Med, r: Route)
    ensures r in WithMed(routes, m) <==> r in routes && r.med == m
  {
    if routes != [] {
      WithMedHas(routes[..|routes| - 1], m, r);
      assert routes == routes[..|routes| - 1] + [routes[|routes| - 1]];
    }
  }

  /** The routes of one AS that its other routes do not beat on MED. */
  function LowestOf(routes: seq<Route>): seq<Route> {
    if routes == [] then [] else WithMed(routes, LowestMed(routes))
  }

  /** The groups in the order of the sorted list, each once. */
  function PostMed(best: seq<Route>, asList: seq<string>): seq<Route>
    decreases |asList|
  {
    if asList == [] then []
    else
      var n := Count(asList, asList[0]);
      assert n >= 1;
      LowestOf(From(best, asList[0])) + PostMed(best, asList[n..])
  }

  /** A route of the list that no other route of the list and of its neighbour AS beats on MED. */
  ghost predicate Unbeaten(routes: seq<Route>, r: Route) {
    r in routes && forall q | q in routes && AdvertisedAs(q) == AdvertisedAs(r) :: !q.med.Below(r.med)
  }

  lemma LowestOfHas(routes: seq<Route>, name: string, r: Route)
    ensures r in LowestOf(From(routes, name)) <==> Unbeaten(routes, r) && AdvertisedAs(r) == name
  {
    var group := From(routes, name);
    forall q {
      FromHas(routes, name, q);
    }
    if group != [] {
      var m := LowestMed(group);
      WithMedHas(group, m, r);
      if r in group && r.med != m {
        var q :| q in group && q.med == m;
        assert !r.med.Below(m) && q in routes;
      }
    }
  }

  lemma FirstOrLater(list: seq<string>, n: nat, name: string)
    requires 1 <= n <= |list| && forall j | 0 <= j < n :: list[j] == list[0]
    ensures name in list <==> name == list[0] || name in list[n..]
  {
    assert list == list[..n] + list[n..];
    assert list[0] in list[..n];
  }

  lemma {:induction false} PostMedHas(routes: seq<Route>, asList: seq<string>, r: Route)
    requires SortedNames(asList)
    ensures r in PostMed(routes, asList) <==> Unbeaten(routes, r) && AdvertisedAs(r) in asList
    decreases |asList|
  {
    if asList != [] {
      FirstGroup(asList);
      var n := Count(asList, asList[0]);
      PostMedHas(routes, asList[n..], r);
      LowestOfHas(routes, asList[0], r);
      FirstOrLater(asList, n, AdvertisedAs(r));
      hide Count, LowestOf, From, Unbeaten, AdvertisedAs;
      assert PostMed(routes, asList) == LowestOf(From(routes, asList[0])) + PostMed(routes, asList[n..]);
    }
  }

  function NamesOf(routes: seq<Route>): seq<string> {
    seq(|routes|, i requires 0 <= i < |routes| => AdvertisedAs(routes[i]))
  }

  function Finalists(best: seq<Route>): seq<Route> {
    PostMed(best, SortNames(NamesOf(best)))
  }

  lemma FinalistsHas(best: seq<Route>, r: Route)
    ensures r in Finalists(best) <==> Unbeaten(best, r)
  {
    var names := NamesOf(best);
    SortNamesSorted(names);
    PostMedHas(best, SortNames(names), r);
    if r in best {
      var i :| 0 <= i < |best| && best[i] == r;
      assert names[i] == AdvertisedAs(r);
    }
  }

  // ----- 3. lowest next hop -----

  /** `ip_to_long` of the next hop, which fails for a text that is no address. */
  function HopOf(r: Route): Option<nat> {
    IpToLong(r.nextHop)
  }

  function LowestHop(routes: seq<Route>): (h: Option<nat>)
    requires routes != []
    ensures h.Some? ==> h.value < 0x1_0000_0000
  {
    hide IpToLong;
    var last := HopOf(routes[|routes| - 1]);
    if |routes| == 1 then last else LowerHop(LowestHop(routes[..|routes| - 1]), last)
  }

  function LowerHop(h: Option<nat>, hop: Option<nat>): Option<nat> {
    if h.None? || hop.None? then None else if h.value > hop.value then hop else h
  }

  /** `h` is the lowest next hop of the routes, or nothing when some next hop is no address. */
  ghost predicate IsLowestHop(h: Option<nat>, routes: seq<Route>) {
    && (h.Some? <==> forall r | r in routes :: HopOf(r).Some?)
    && (h.Some? ==> forall r | r in routes :: h.value <= HopOf(r).value)
    && (h.Some? ==> exists r :: r in routes && HopOf(r) == h)
  }

  lemma {:induction false} LowestHopIsLowest(routes: seq<Route>)
    requires routes != []
    ensures IsLowestHop(LowestHop(routes), routes)
  {
    var init, last := routes[..|routes| - 1], routes[|routes| - 1];
    assert routes == init + [last];
    hide HopOf;
    if init != [] {
      LowestHopIsLowest(init);
      LowestOfOneMore(LowestHop(init), init, last);
    }
  }

  lemma LowestOfOneMore(h: Option<nat>, init: seq<Route>, last: Route)
    requires IsLowestHop(h, init)
    ensures IsLowestHop(LowerHop(h, HopOf(last)), init + [last])
  {
    hide HopOf;
    var routes := init + [last];
    assert forall r :: r in routes <==> r in init || r == last;
    assert last in routes;
  }

  /** `get_index`: the first route whose next hop is the text. */
  function FirstWithHop(routes: seq<Route>, text: string): (r: Option<Route>)
    ensures r.Some? ==> r.value in routes && r.value.nextHop == text
    ensures r.None? <==> forall q | q in routes :: q.nextHop != text
  {
    if routes == [] then None
    else
      assert routes == [routes[0]] + routes[1..];
      if routes[0].nextHop == text then Some(routes[0]) else FirstWithHop(routes[1..], text)
  }

  lemma {:induction false} FirstWithHopIsFirst(routes: seq<Route>, text: string) returns (i: nat)
    requires FirstWithHop(routes, text).Some?
    ensures i < |routes| && routes[i] == FirstWithHop(routes, text).value && routes[i].nextHop == text
    ensures forall j | 0 <= j < i :: routes[j].nextHop != text
  {
    if routes[0].nextHop == text {
      i := 0;
    } else {
      i := FirstWithHopIsFirst(routes[1..], text);
      i := i + 1;
    }
  }

  /** The route whose next hop is the canonical text of the lowest address. */
  function OfLowestHop(routes: seq<Route>): Selection
    requires routes != []
  {
    var lowest := LowestHop(routes);
    if lowest.None? then Fails
    else
      var r := FirstWithHop(routes, LongToIp(lowest.value));
      if r.None? then Fails else Best(r.value)
  }

  /** No route of the list has a lower next hop. */
  ghost predicate IsLowest(routes: seq<Route>, r: Route) {
    && r in routes && HopOf(r).Some?
    && forall q | q in routes :: HopOf(q).Some? && HopOf(r).value <= HopOf(q).value
  }

  /** The last step succeeds exactly when some route of the lowest next hop writes it canonically; then
      it chooses such a route. */
  lemma OfLowestHopIff(routes: seq<Route>)
    requires routes != []
    ensures OfLowestHop(routes).Best? <==> exists r :: IsLowest(routes, r) && IsCanonical(r.nextHop)
    ensures OfLowestHop(routes).Best? ==>
            var r := OfLowestHop(routes).route; IsLowest(routes, r) && IsCanonical(r.nextHop)
    ensures forall r :: IsLowest(routes, r) && IsCanonical(r.nextHop) ==>
                        OfLowestHop(routes).Best? && OfLowestHop(routes).route.nextHop == r.nextHop
  {
    hide IpToLong, LongToIp, IsCanonical;
    var lowest := LowestHop(routes);
    LowestHopIsLowest(routes);
    if lowest.Some? {
      LongRoundTrip(lowest.value);
    }
    forall r | IsLowest(routes, r)
      ensures lowest == HopOf(r)
      ensures IsCanonical(r.nextHop) ==> LongToIp(lowest.value) == r.nextHop
    {
      TextRoundTripIff(r.nextHop);
    }
  }

  // ----- the selection -----

  function BestOf(routes: seq<Route>): Selection {
    var best := Shortest(routes);
    if |best| == 1 then Best(best[0])
    else if best == [] || best[0].asPath == [] then Fails
    else
      var finalists := Finalists(best);
      if |finalists| == 1 then Best(finalists[0])
      else if finalists == [] then Fails
      else OfLowestHop(finalists)
  }

  // ----- the loops of the selection -----

  method AdvertisedAses(best: seq<Route>) returns (ok: bool, asList: seq<string>)
    ensures ok <==> forall r | r in best :: r.asPath != []
    ensures ok ==> asList == NamesOf(best)
  {
    ok, asList := true, [];
    for i := 0 to |best|
      invariant forall r | r in best[..i] :: r.asPath != []
      invariant asList == NamesOf(best)[..i]
    {
      if best[i].asPath == [] {
        return false, asList;
      }
      assert best[..i + 1] == best[..i] + [best[i]];
      asList := asList + [AdvertisedAs(best[i])];
    }
    assert best[..|best|] == best;
  }

  lemma LowestMedNext(init: seq<Route>, last: Route)
    requires init != []
    ensures var m := LowestMed(init); LowestMed(init + [last]) == if last.med.Below(m) then last.med else m
  {
    assert (init + [last])[..|init|] == init;
  }

  lemma LowestMedOfOne(r: Route)
    ensures LowestMed([r]) == r.med
  {
  }

  method LowestMedLoop(group: seq<Route>) returns (lowest: Med)
    requires group != []
    ensures lowest == LowestMed(group) && WithMed(group, lowest) == LowestOf(group)
  {
    hide LowestMed, WithMed;
    var j := 0;
    lowest := group[j].med;
    j := j + 1;
    assert group[..1] == [group[0]];
    LowestMedOfOne(group[0]);
    while j < |group|
      invariant 1 <= j <= |group|
      invariant lowest == LowestMed(group[..j])
    {
      assert group[..j + 1] == group[..j] + [group[j]];
      LowestMedNext(group[..j], group[j]);
      if group[j].med.Below(lowest) {
        lowest := group[j].med;
      }
      j := j + 1;
    }
    assert group[..|group|] == group;
  }

  lemma {:induction false} CountInsert(sorted: seq<string>, name: string, n: string)
    ensures Count(InsertName(sorted, name), n) == Count(sorted, n) + if n == name then 1 else 0
  {
    if sorted == [] || LexLe(name, sorted[0]) {
      assert ([name] + sorted)[1..] == sorted;
    } else {
      CountInsert(sorted[1..], name, n);
      assert InsertName(sorted, name)[1..] == InsertName(sorted[1..], name);
    }
  }

  lemma {:induction false} CountSorted(list: seq<string>, n: string)
    ensures Count(SortNames(list), n) == Count(list, n)
  {
    if list != [] {
      CountSorted(list[1..], n);
      CountInsert(SortNames(list[1..]), list[0], n);
    }
  }

  lemma {:induction false} GroupSize(routes: seq<Route>, name: string)
    ensures |From(routes, name)| == Count(NamesOf(routes), name)
  {
    if routes != [] {
      var init, last := routes[..|routes| - 1], routes[|routes| - 1];
      GroupSize(init, name);
      assert NamesOf(routes) == NamesOf(init) + [AdvertisedAs(last)];
      CountConcat(NamesOf(init), [AdvertisedAs(last)], name);
      assert Count([AdvertisedAs(last)], name) == if AdvertisedAs(last) == name then 1 else 0;
    }
  }

  /** A group of one keeps its route. */
  lemma LowestOfOne(group: seq<Route>)
    requires |group| == 1
    ensures LowestOf(group) == group
  {
    var none := group[..0];
    assert WithMed(none, group[0].med) == [];
    assert group == [group[0]];
  }

  /** Where a new group starts, counting in the whole list counts in the rest. */
  lemma GroupAt(asList: seq<string>, i: nat)
    requires SortedNames(asList) && i < |asList| && asList[i] !in asList[..i]
    ensures var n := Count(asList, asList[i]);
            n == Count(asList[i..], asList[i]) && 1 <= n && i + n <= |asList|
            && (i + n < |asList| ==> asList[i + n] !in asList[..i + n])
  {
    var a, rest := asList[i], asList[i..];
    assert asList == asList[..i] + rest;
    CountConcat(asList[..i], rest, a);
    CountNone(asList[..i], a);
    FirstGroup(rest);
    var n := Count(rest, a);
    if i + n < |asList| {
      var b := asList[i + n];
      assert b == rest[n] && b in rest[n..];
      LexOrder(a, b);
      forall k | 0 <= k < i + n
        ensures asList[k] != b
      {
        if k < i {
          assert LexLe(asList[k], a) && LexLe(a, b);
        } else {
          assert asList[k] == rest[k - i];
        }
      }
    }
  }

  /** The walk stands at the end or where a new group starts. */
  ghost predicate GroupStart(asList: seq<string>, i: nat) {
    i < |asList| ==> asList[i] !in asList[..i]
  }

  /** What the walk appends at the start of a group, as its two branches compute it. */
  lemma GroupStep(best: seq<Route>, asList: seq<string>, i: nat)
    requires asList == SortNames(NamesOf(best)) && i < |asList| && GroupStart(asList, i)
    ensures var n := Count(asList, asList[i]);
            var group := From(best, asList[i]);
            1 <= n && i + n <= |asList| && |group| == n && GroupStart(asList, i + n)
            && (n == 1 ==> LowestOf(group) == group)
            && PostMed(best, asList[i..]) == LowestOf(group) + PostMed(best, asList[i + n..])
  {
    hide SortedNames, From, SortNames, NamesOf, LowestOf;
    var names, n := NamesOf(best), Count(asList, asList[i]);
    SortNamesSorted(names);
    GroupAt(asList, i);
    GroupSize(best, asList[i]);
    CountSorted(names, asList[i]);
    if n == 1 {
      LowestOfOne(From(best, asList[i]));
    }
    PostMedStep(best, asList, i);
  }

  lemma PostMedStep(best: seq<Route>, asList: seq<string>, i: nat)
    requires i < |asList|
    ensures var n := Count(asList[i..], asList[i]);
            && i + n <= |asList|
            && PostMed(best, asList[i..]) == LowestOf(From(best, asList[i])) + PostMed(best, asList[i + n..])
  {
    var rest := asList[i..];
    var n := Count(rest, asList[i]);
    assert rest[n..] == asList[i + n..];
  }

  /** One turn of the walk: the routes that the group at `i` leaves, and where the next one starts. */
  method KeptOfGroup(best: seq<Route>, asList: seq<string>, i: nat) returns (kept: seq<Route>, next: nat)
    requires asList == SortNames(NamesOf(best)) && i < |asList| && GroupStart(asList, i)
    ensures kept == LowestOf(From(best, asList[i]))
    ensures i < next <= |asList| && GroupStart(asList, next)
    ensures PostMed(best, asList[i..]) == kept + PostMed(best, asList[next..])
  {
    hide *;
    GroupStep(best, asList, i);
    var fromAs := From(best, asList[i]);
    if Count(asList, asList[i]) > 1 {
      var lowest := LowestMedLoop(fromAs);
      return WithMed(fromAs, lowest), i + Count(asList, asList[i]);
    } else {
      return fromAs, i + 1;
    }
  }

  /** The walk by `count` over the sorted list visits each neighbour AS once. */
  method PostMedRoutes(best: seq<Route>, asList: seq<string>) returns (post: seq<Route>)
    requires asList == SortNames(NamesOf(best))
    ensures post == Finalists(best)
  {
    post := [];
    var i := 0;
    assert asList[0..] == asList;
    while i < |asList|
      invariant i <= |asList| && GroupStart(asList, i)
      invariant post + PostMed(best, asList[i..]) == Finalists(best)
    {
      hide *;
      var kept, next := KeptOfGroup(best, asList, i);
      Regroup(post, kept, PostMed(best, asList[next..]));
      post := post + kept;
      i := next;
    }
  }

  lemma Regroup<T>(a: seq<T>, b: seq<T>, c: seq<T>)
    ensures a + (b + c) == (a + b) + c
  {
  }

  lemma LowestHopNext(init: seq<Route>, last: Route)
    requires init != []
    ensures LowestHop(init + [last]) == LowerHop(LowestHop(init), HopOf(last))
  {
    assert (init + [last])[..|init|] == init;
  }

  /** The conversion of the first next hop that is no address ends the loop. */
  method LowestHopLoop(routes: seq<Route>) returns (lowest: Option<nat>)
    requires routes != []
    ensures lowest == LowestHop(routes)
  {
    hide HopOf, LowestHop;
    var i := 0;
    lowest := HopOf(routes[i]);
    assert routes[..1] == [routes[0]];
    LowestHopOfOne(routes[0]);
    i := i + 1;
    while i < |routes| && lowest.Some?
      invariant 1 <= i <= |routes|
      invariant lowest == LowestHop(routes[..i])
    {
      assert routes[..i + 1] == routes[..i] + [routes[i]];
      LowestHopNext(routes[..i], routes[i]);
      var hop := HopOf(routes[i]);
      if hop.None? || lowest.value > hop.value {
        lowest := hop;
      }
      i := i + 1;
    }
    assert routes[..|routes|] == routes;
    LowestHopOfPart(routes, i);
  }

  lemma LowestHopOfOne(r: Route)
    ensures LowestHop([r]) == HopOf(r)
  {
  }

  lemma LowestHopOfPart(routes: seq<Route>, i: nat)
    requires 1 <= i <= |routes|
    ensures LowestHop(routes[..i]).None? ==> LowestHop(routes).None?
  {
    hide HopOf, LowestHop;
    LowestHopIsLowest(routes);
    LowestHopIsLowest(routes[..i]);
    if LowestHop(routes[..i]).None? {
      var r :| r in routes[..i] && HopOf(r).None?;
      assert r in routes;
    }
  }

  method BestPathSelection(routes: seq<Route>) returns (result: Selection)
    ensures result == BestOf(routes)
  {
    var best := ShortestRoutes(routes);
    if |best| == 1 {
      return Best(best[0]);
    }
    var named, asList := AdvertisedAses(best);
    SameLengths(routes);
    if !named {
      return Fails;
    }
    asList := SortNames(asList);
    var finalists := PostMedRoutes(best, asList);
    if |finalists| == 1 {
      return Best(finalists[0]);
    }
    if finalists == [] {
      return Fails;
    }
    var lowest := LowestHopLoop(finalists);
    if lowest.None? {
      return Fails;
    }
    var r := FirstWithHop(finalists, LongToIp(lowest.value));
    return if r.None? then Fails else Best(r.value);
  }

  lemma SameLengths(routes: seq<Route>)
    ensures var best := Shortest(routes);
            best != [] ==> ((exists r :: r in best && r.asPath == []) <==> best[0].asPath == [])
    ensures Finalists([]) == []
  {
    forall r {
      ShortestHas(routes, r);
    }
    var none: seq<Route> := [];
    assert NamesOf(none) == [];
  }

  /** A route that section 9.1.2.2 of RFC 4271 keeps: as short as any, and not beaten on MED by an
      equally short route from the same neighbour AS. */
  ghost predicate Survives(routes: seq<Route>, r: Route) {
    && r in routes
    && (forall q | q in routes :: |r.asPath| <= |q.asPath|)
    && (forall q | q in routes && |q.asPath| == |r.asPath| && AdvertisedAs(q) == AdvertisedAs(r) :: !q.med.Below(r.med))
  }

  /** The two routes come from the same neighbour AS, the first of the path. */
  ghost predicate SameNeighbor(r: Route, q: Route) {
    if r.asPath == [] || q.asPath == [] then r.asPath == q.asPath else r.asPath[0] == q.asPath[0]
  }

  /** The condition in numbers: no route is shorter, and none of the same length from the same neighbour
      has a lower MED, or has one where this has none. */
  lemma SurvivesIff(routes: seq<Route>, r: Route)
    ensures Survives(routes, r) <==>
            && r in routes
            && forall q | q in routes ::
                 && |r.asPath| <= |q.asPath|
                 && (|r.asPath| == |q.asPath| && SameNeighbor(r, q) && q.med.Number? ==>
                       r.med.Number? && r.med.value <= q.med.value)
  {
    forall q | q in routes && |r.asPath| == |q.asPath|
      ensures SameNeighbor(r, q) <==> AdvertisedAs(r) == AdvertisedAs(q)
    {
    }
  }

  /** The chosen route has the lowest MED among the equally long ones of its neighbour. */
  lemma ChosenHasLowestMed(routes: seq<Route>, q: Route)
    requires BestOf(routes).Best? && q in routes
    requires var r := BestOf(routes).route; |q.asPath| == |r.asPath| && SameNeighbor(r, q)
    ensures var r := BestOf(routes).route;
            q.med.Number? ==> r.med.Number? && r.med.value <= q.med.value
  {
    BestIsBest(routes);
    SurvivesIff(routes, BestOf(routes).route);
  }

  /** Of two equally long routes of one neighbour the one of the lower MED is chosen, whatever the order
      and the next hops. */
  lemma LowerMedIsChosen(a: Route, b: Route)
    requires |a.asPath| == |b.asPath| > 0 && a.asPath[0] == b.asPath[0]
    requires a.med.Number? && (b.med.Missing? || a.med.value < b.med.value)
    ensures BestOf([a, b]) == Best(a) && BestOf([b, a]) == Best(a)
  {
    OneOfTwo(a, b, [a, b]);
    OneOfTwo(a, b, [b, a]);
  }

  lemma OneOfTwo(a: Route, b: Route, routes: seq<Route>)
    requires |a.asPath| == |b.asPath| > 0 && a.asPath[0] == b.asPath[0]
    requires a.med.Number? && (b.med.Missing? || a.med.value < b.med.value)
    requires routes == [a, b] || routes == [b, a]
    ensures BestOf(routes) == Best(a)
  {
    ShortestOfTwo(routes[0], routes[1]);
    assert [routes[0], routes[1]] == routes;
    assert multiset(routes) == multiset{a, b};
    hide Finalists, Survives, Unbeaten, Shortest;
    var finalists := Finalists(routes);
    forall r
      ensures multiset(finalists)[r] == if r == a then 1 else 0
    {
      FinalistsMultiset(routes, r);
      SurvivesIsUnbeaten(routes, r);
      SurvivorOfTwo(a, b, routes, r);
    }
    OnlyRoute(finalists, a);
  }

  lemma ShortestOfTwo(a: Route, b: Route)
    requires |a.asPath| == |b.asPath|
    ensures Shortest([a, b]) == [a, b]
  {
    ShortestOfOne(a);
    ShortestNext([a], b);
    hide Shortest;
    assert [a] + [b] == [a, b];
  }

  lemma SurvivorOfTwo(a: Route, b: Route, routes: seq<Route>, r: Route)
    requires |a.asPath| == |b.asPath| > 0 && a.asPath[0] == b.asPath[0]
    requires a.med.Number? && (b.med.Missing? || a.med.value < b.med.value)
    requires routes == [a, b] || routes == [b, a]
    ensures Survives(routes, r) <==> r == a
  {
    SurvivesIff(routes, r);
    hide Survives;
    assert forall q :: q in routes <==> q == a || q == b;
    assert SameNeighbor(a, b) && SameNeighbor(b, a);
  }

  lemma OnlyRoute(list: seq<Route>, a: Route)
    requires forall r :: multiset(list)[r] == if r == a then 1 else 0
    ensures list == [a]
  {
    assert multiset(list) == multiset{a};
    assert |list| == |multiset(list)| == 1;
    assert list[0] in multiset(list);
  }

  lemma MedExample(a: Route, b: Route)
    requires a.asPath == b.asPath == ["65000", "100"] && a.med == Number(10) && b.med == Number(50)
    ensures BestOf([a, b]) == Best(a) && BestOf([b, a]) == Best(a)
  {
    LowerMedIsChosen(a, b);
  }

  lemma ShortestHas(routes: seq<Route>, r: Route)
    ensures r in Shortest(routes) <==> r in routes && forall q | q in routes :: |r.asPath| <= |q.asPath|
  {
    if routes != [] {
      OfLengthHas(routes, MinLength(routes), r);
      if r in routes && forall q | q in routes :: |r.asPath| <= |q.asPath| {
        var q :| q in routes && |q.asPath| == MinLength(routes);
      }
    }
  }

  lemma SurvivesIsUnbeaten(routes: seq<Route>, r: Route)
    ensures Survives(routes, r) <==> Unbeaten(Shortest(routes), r)
  {
    forall q {
      ShortestHas(routes, q);
    }
    if r in Shortest(routes) {
      forall q | q in routes
        ensures |q.asPath| == |r.asPath| <==> q in Shortest(routes)
      {
      }
    }
  }

  /** An unbeaten route exists in every list that is not empty. */
  lemma SomeFinalist(best: seq<Route>)
    requires best != []
    ensures Finalists(best) != []
  {
    var name := AdvertisedAs(best[0]);
    FromHas(best, name, best[0]);
    var group := From(best, name);
    var r :| r in group && r.med == LowestMed(group);
    WithMedHas(group, LowestMed(group), r);
    LowestOfHas(best, name, r);
    FinalistsHas(best, r);
  }

  lemma SurvivorsAreFinalists(routes: seq<Route>, r: Route)
    ensures Survives(routes, r) <==> r in Finalists(Shortest(routes))
  {
    SurvivesIsUnbeaten(routes, r);
    FinalistsHas(Shortest(routes), r);
  }

  /** A survivor that no survivor undercuts; all their next hops are addresses. */
  ghost predicate LowestSurvivor(routes: seq<Route>, r: Route) {
    && Survives(routes, r) && HopOf(r).Some?
    && forall q | Survives(routes, q) :: HopOf(q).Some? && HopOf(r).value <= HopOf(q).value
  }

  lemma LowestOfFinalists(routes: seq<Route>, r: Route)
    ensures IsLowest(Finalists(Shortest(routes)), r) <==> LowestSurvivor(routes, r)
  {
    hide HopOf, Survives, Shortest, Finalists;
    forall q
      ensures Survives(routes, q) <==> q in Finalists(Shortest(routes))
    {
      SurvivorsAreFinalists(routes, q);
    }
  }

  /** The selection fails exactly without routes, when one of several shortest AS paths is empty, and
      when several routes are left for the last step, none of which has the lowest next hop of them all
      in its canonical form. */
  lemma WhenSelectionFails(routes: seq<Route>)
    ensures BestOf(routes).Fails? <==>
            || routes == []
            || (|Shortest(routes)| > 1 && exists r :: r in routes && r.asPath == [])
            || (|Shortest(routes)| > 1 && |Finalists(Shortest(routes))| > 1
                && forall r | LowestSurvivor(routes, r) :: !IsCanonical(r.nextHop))
  {
    hide HopOf, IsCanonical, Finalists, LowestSurvivor, IsLowest, OfLowestHop;
    var best := Shortest(routes);
    if routes != [] {
      var r :| r in routes && |r.asPath| == MinLength(routes);
      ShortestHas(routes, r);
      ShortestHas(routes, best[0]);
      SomeFinalist(best);
      OfLowestHopIff(Finalists(best));
      forall q
        ensures IsLowest(Finalists(best), q) <==> LowestSurvivor(routes, q)
      {
        LowestOfFinalists(routes, q);
      }
    }
  }

  /** The last step, when it chooses among several routes. */
  lemma ChosenInLastStep(routes: seq<Route>)
    requires BestOf(routes).Best? && |Shortest(routes)| > 1 && |Finalists(Shortest(routes))| > 1
    ensures LowestSurvivor(routes, BestOf(routes).route) && IsCanonical(BestOf(routes).route.nextHop)
  {
    hide HopOf, IsCanonical, LowestSurvivor, IsLowest, OfLowestHop;
    OfLowestHopIff(Finalists(Shortest(routes)));
    LowestOfFinalists(routes, BestOf(routes).route);
  }

  /** The best route survives, and every other survivor has a next hop that is no lower. Against other
      survivors only a canonical next hop wins. */
  lemma BestIsBest(routes: seq<Route>)
    requires BestOf(routes).Best?
    ensures var best := BestOf(routes).route;
            && Survives(routes, best)
            && forall q | Survives(routes, q) && q != best :: LowestSurvivor(routes, best) && IsCanonical(best.nextHop)
  {
    hide HopOf, IsCanonical, LowestSurvivor, Survives, IsLowest, OfLowestHop;
    var best, r := Shortest(routes), BestOf(routes).route;
    var finalists := Finalists(best);
    forall q
      ensures Survives(routes, q) <==> q in finalists
    {
      SurvivorsAreFinalists(routes, q);
    }
    if |best| == 1 {
      FinalistsOfOne(best);
    } else if |finalists| == 1 {
      assert finalists == [finalists[0]];
    } else {
      ChosenInLastStep(routes);
      LowestSurvives(routes, r);
    }
  }

  lemma LowestSurvives(routes: seq<Route>, r: Route)
    requires LowestSurvivor(routes, r)
    ensures Survives(routes, r)
  {
  }

  lemma FinalistsOfOne(best: seq<Route>)
    requires |best| == 1
    ensures forall r :: r in Finalists(best) <==> r == best[0]
  {
    forall r
      ensures r in Finalists(best) <==> r == best[0]
    {
      FinalistsHas(best, r);
      assert best == [best[0]];
    }
  }

  /** The chosen next hop does not depend on the order of the routes. */
  lemma OrderDoesNotMatter(a: seq<Route>, b: seq<Route>)
    requires multiset(a) == multiset(b)
    ensures BestOf(a).Best? <==> BestOf(b).Best?
    ensures BestOf(a).Best? ==> BestOf(a).route.nextHop == BestOf(b).route.nextHop
  {
    ShortestPermuted(a, b);
    var s, t := Shortest(a), Shortest(b);
    assert |s| == |multiset(s)| && |t| == |multiset(t)|;
    FinalistsPermuted(s, t);
    hide Shortest, Finalists, OfLowestHop;
    var f, g := Finalists(s), Finalists(t);
    if |s| == 1 {
      SingletonPermuted(s, t);
    } else if s != [] {
      EmptyPath(a, b);
      if |f| == 1 {
        SingletonPermuted(f, g);
      } else if f != [] {
        LowestHopPermuted(f, g);
      }
    }
  }

  lemma EmptyPath(a: seq<Route>, b: seq<Route>)
    requires multiset(Shortest(a)) == multiset(Shortest(b)) && Shortest(a) != [] && Shortest(b) != []
    ensures Shortest(a)[0].asPath == [] <==> Shortest(b)[0].asPath == []
  {
    ShortestHas(a, Shortest(a)[0]);
    assert Shortest(b)[0] in multiset(Shortest(a));
    ShortestHas(a, Shortest(b)[0]);
  }

  lemma SingletonPermuted(a: seq<Route>, b: seq<Route>)
    requires multiset(a) == multiset(b) && |a| == |b| == 1
    ensures a == b
  {
    assert b[0] in multiset(a);
  }

  lemma LowestHopPermuted(a: seq<Route>, b: seq<Route>)
    requires multiset(a) == multiset(b) && a != [] && b != []
    ensures OfLowestHop(a).Best? <==> OfLowestHop(b).Best?
    ensures OfLowestHop(a).Best? ==> OfLowestHop(a).route.nextHop == OfLowestHop(b).route.nextHop
  {
    hide HopOf, IsCanonical, OfLowestHop;
    forall r
      ensures r in a <==> r in b
    {
      assert r in multiset(a) <==> r in multiset(b);
    }
    assert forall r :: IsLowest(a, r) <==> IsLowest(b, r);
    OfLowestHopIff(a);
    OfLowestHopIff(b);
  }

  lemma ShortestPermuted(a: seq<Route>, b: seq<Route>)
    requires multiset(a) == multiset(b)
    ensures multiset(Shortest(a)) == multiset(Shortest(b))
  {
    assert |a| == |multiset(a)| && |b| == |multiset(b)|;
    if a != [] {
      forall r
        ensures r in a <==> r in b
      {
        assert r in multiset(a) <==> r in multiset(b);
      }
      SameMinLength(a, b);
      forall r
        ensures multiset(Shortest(a))[r] == multiset(Shortest(b))[r]
      {
        OfLengthMultiset(a, MinLength(a), r);
        OfLengthMultiset(b, MinLength(a), r);
      }
      assert multiset(Shortest(a)) == multiset(Shortest(b));
    }
  }

  lemma SameMinLength(a: seq<Route>, b: seq<Route>)
    requires a != [] && b != [] && forall r :: r in a <==> r in b
    ensures MinLength(a) == MinLength(b)
  {
    var m, n := MinLength(a), MinLength(b);
    var r :| r in a && |r.asPath| == m;
    var q :| q in b && |q.asPath| == n;
    assert r in b && q in a;
  }

  /** How often the routes of one length occur. */
  lemma {:induction false} OfLengthMultiset(routes: seq<Route>, n: nat, r: Route)
    ensures multiset(OfLength(routes, n))[r] == if |r.asPath| == n then multiset(routes)[r] else 0
  {
    if routes != [] {
      OfLengthMultiset(routes[..|routes| - 1], n, r);
      assert routes == routes[..|routes| - 1] + [routes[|routes| - 1]];
    }
  }

  lemma {:induction false} FromMultiset(routes: seq<Route>, name: string, r: Route)
    ensures multiset(From(routes, name))[r] == if AdvertisedAs(r) == name then multiset(routes)[r] else 0
  {
    if routes != [] {
      FromMultiset(routes[..|routes| - 1], name, r);
      assert routes == routes[..|routes| - 1] + [routes[|routes| - 1]];
    }
  }

  lemma {:induction false} WithMedMultiset(routes: seq<Route>, m: Med, r: Route)
    ensures multiset(WithMed(routes, m))[r] == if r.med == m then multiset(routes)[r] else 0
  {
    if routes != [] {
      WithMedMultiset(routes[..|routes| - 1], m, r);
      assert routes == routes[..|routes| - 1] + [routes[|routes| - 1]];
    }
  }

  lemma LowestOfMultiset(routes: seq<Route>, name: string, r: Route)
    ensures multiset(LowestOf(From(routes, name)))[r] ==
            if Unbeaten(routes, r) && AdvertisedAs(r) == name then multiset(routes)[r] else 0
  {
    var group := From(routes, name);
    LowestOfHas(routes, name, r);
    FromMultiset(routes, name, r);
    if group != [] {
      WithMedMultiset(group, LowestMed(group), r);
      WithMedHas(group, LowestMed(group), r);
    }
  }

  lemma {:induction false} PostMedMultiset(routes: seq<Route>, asList: seq<string>, r: Route)
    requires SortedNames(asList)
    ensures multiset(PostMed(routes, asList))[r] ==
            if Unbeaten(routes, r) && AdvertisedAs(r) in asList then multiset(routes)[r] else 0
    decreases |asList|
  {
    if asList != [] {
      FirstGroup(asList);
      var n := Count(asList, asList[0]);
      PostMedMultiset(routes, asList[n..], r);
      LowestOfMultiset(routes, asList[0], r);
      FirstOrLater(asList, n, AdvertisedAs(r));
      hide Count, LowestOf, From, Unbeaten, AdvertisedAs;
      assert PostMed(routes, asList) == LowestOf(From(routes, asList[0])) + PostMed(routes, asList[n..]);
    }
  }

  /** The finalists are the unbeaten routes, each as often as it occurs. */
  lemma FinalistsMultiset(best: seq<Route>, r: Route)
    ensures multiset(Finalists(best))[r] == if Unbeaten(best, r) then multiset(best)[r] else 0
  {
    var names := NamesOf(best);
    SortNamesSorted(names);
    PostMedMultiset(best, SortNames(names), r);
    if r in best {
      var i :| 0 <= i < |best| && best[i] == r;
      assert names[i] == AdvertisedAs(r);
    }
  }

  lemma FinalistsPermuted(a: seq<Route>, b: seq<Route>)
    requires multiset(a) == multiset(b)
    ensures multiset(Finalists(a)) == multiset(Finalists(b)) && |Finalists(a)| == |Finalists(b)|
  {
    hide Finalists;
    forall r
      ensures r in a <==> r in b
    {
      assert r in multiset(a) <==> r in multiset(b);
    }
    forall r
      ensures multiset(Finalists(a))[r] == multiset(Finalists(b))[r]
    {
      FinalistsMultiset(a, r);
      FinalistsMultiset(b, r);
    }
    assert multiset(Finalists(a)) == multiset(Finalists(b));
    assert |multiset(Finalists(a))| == |Finalists(a)| && |multiset(Finalists(b))| == |Finalists(b)|;
  }

  // ----- next hops that are not canonical -----

  /** Both texts are read as addresses, but the lower one is not the text of its address. */
  lemma ShortFormExample(a: Route, b: Route)
    requires |a.asPath| == |b.asPath| > 0 && a.asPath[0] != b.asPath[0]
    requires a.nextHop == "10.1" && b.nextHop == "10.0.0.2"
    ensures HopOf(a).Some? && HopOf(b).Some?
    ensures BestOf([a, b]).Fails? && BestOf([b, a]).Fails?
  {
    ShortForm();
    ShortFormFails(a, b);
    ShortFormFails(b, a);
  }

  lemma ShortFormFails(a: Route, b: Route)
    requires |a.asPath| == |b.asPath| > 0 && a.asPath[0] != b.asPath[0]
    requires HopOf(a).Some? && HopOf(b).Some?
    requires HopOf(a).value != HopOf(b).value
    requires !IsCanonical(if HopOf(a).value < HopOf(b).value then a.nextHop else b.nextHop)
    ensures BestOf([a, b]).Fails?
  {
    var routes := [a, b];
    TwoFinalists(a, b);
    hide IsCanonical, HopOf, Survives, Shortest, Finalists, BestOf;
    WhenSelectionFails(routes);
  }

  /** Two routes of equal length from two neighbours reach the last step. */
  lemma TwoFinalists(a: Route, b: Route)
    requires |a.asPath| == |b.asPath| > 0 && a.asPath[0] != b.asPath[0]
    ensures Shortest([a, b]) == [a, b] && |Finalists([a, b])| > 1
    ensures forall r :: Survives([a, b], r) <==> r == a || r == b
  {
    hide Shortest, Finalists, Unbeaten, MinLength, Survives;
    ShortestOfTwo(a, b);
    var routes := [a, b];
    forall r
      ensures Unbeaten(routes, r) <==> r == a || r == b
      ensures Unbeaten(routes, r) <==> r in Finalists(routes)
      ensures Unbeaten(routes, r) <==> Survives(routes, r)
    {
      BothUnbeaten(a, b, r);
      FinalistsHas(routes, r);
      SurvivesIsUnbeaten(routes, r);
    }
    assert a in Finalists(routes) && b in Finalists(routes);
  }

  lemma BothUnbeaten(a: Route, b: Route, r: Route)
    requires AdvertisedAs(a) != AdvertisedAs(b)
    ensures Unbeaten([a, b], r) <==> r == a || r == b
  {
  }
}
