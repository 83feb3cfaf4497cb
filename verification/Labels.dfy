/** The labels that divide and conquer gives to merged participants, and which participants
    survive when two labels coincide. */
module Labels {
  import opened Partition

  /** The iteration order of a dictionary with the given keys. */
  type Order = set<string> -> seq<string>

  ghost predicate IsOrder(order: Order) {
    forall names: set<string> :: Lists(order(names), names)
  }

  ghost predicate Lists(list: seq<string>, names: set<string>) {
    |list| == |names| && ToSet(list) == names
  }

  function ToSet(list: seq<string>): set<string> {
    set n | n in list
  }

  /** `list[::2]`. */
  function Evens(list: seq<string>): seq<string> {
    if list == [] then [] else [list[0]] + Odds(list[1..])
  }

  /** `list[1::2]`. */
  function Odds(list: seq<string>): seq<string> {
    if list == [] then [] else Evens(list[1..])
  }

  /** The halves are the entries at even and at odd places. */
  lemma {:induction false} HalvesAt(list: seq<string>)
    ensures |Evens(list)| == (|list| + 1) / 2 && |Odds(list)| == |list| / 2
    ensures forall i | 0 <= i < |Evens(list)| :: Evens(list)[i] == list[2 * i]
    ensures forall i | 0 <= i < |Odds(list)| :: Odds(list)[i] == list[2 * i + 1]
  {
    if list != [] {
      HalvesAt(list[1..]);
      forall i | 0 <= i < |Evens(list)|
        ensures Evens(list)[i] == list[2 * i]
      {
        if i > 0 {
          assert Evens(list)[i] == Odds(list[1..])[i - 1] == list[1..][2 * (i - 1) + 1];
        }
      }
    }
  }

  lemma {:induction false} HalvesSplit(list: seq<string>)
    ensures ToSet(Evens(list)) + ToSet(Odds(list)) == ToSet(list)
    ensures |Evens(list)| + |Odds(list)| == |list|
    ensures |Odds(list)| <= |Evens(list)| <= |Odds(list)| + 1
  {
    if list != [] {
      HalvesSplit(list[1..]);
      assert list == [list[0]] + list[1..];
      assert ToSet(list) == {list[0]} + ToSet(list[1..]);
      assert ToSet(Evens(list)) == {list[0]} + ToSet(Odds(list[1..]));
    }
  }

  lemma {:induction false} SetOfListIsSmall(list: seq<string>)
    ensures |ToSet(list)| <= |list|
  {
    if list != [] {
      SetOfListIsSmall(list[1..]);
      assert ToSet(list) == {list[0]} + ToSet(list[1..]);
    }
  }

  /** The two halves of a listing without repetition are disjoint, and both are smaller. */
  lemma HalvesOf(list: seq<string>, names: set<string>)
    requires Lists(list, names)
    ensures ToSet(Evens(list)) + ToSet(Odds(list)) == names
    ensures ToSet(Evens(list)) !! ToSet(Odds(list))
    ensures |ToSet(Evens(list))| == |Evens(list)| && |ToSet(Odds(list))| == |Odds(list)|
    ensures |names| > 2 ==> 0 < |ToSet(Evens(list))| < |names| && 0 < |ToSet(Odds(list))| < |names|
  {
    var e, o := ToSet(Evens(list)), ToSet(Odds(list));
    HalvesSplit(list);
    SetOfListIsSmall(Evens(list));
    SetOfListIsSmall(Odds(list));
    assert |e + o| == |e| + |o| - |e * o|;
    assert e * o == {};
    assert forall n | n in e :: n !in e * o;
  }

  ghost function Left(names: set<string>, order: Order): (half: set<string>)
    requires IsOrder(order)
    ensures |names| > 2 ==> half != {} && |half| < |names|
  {
    HalvesOf(order(names), names);
    ToSet(Evens(order(names)))
  }

  ghost function Right(names: set<string>, order: Order): (half: set<string>)
    requires IsOrder(order)
    ensures |names| > 2 ==> half != {} && |half| < |names|
    ensures Left(names, order) + half == names && Left(names, order) !! half
  {
    HalvesOf(order(names), names);
    ToSet(Odds(order(names)))
  }

  /** The label of the one entry that divide and conquer returns for `names`. */
  ghost function Label(names: set<string>, order: Order): string
    requires IsOrder(order) && names != {}
    decreases |names|
  {
    assert Lists(order(names), names);
    if |names| == 1 then order(names)[0]
    else if |names| == 2 then order(names)[0] + order(names)[1]
    else Joined(Label(Left(names, order), order), Label(Right(names, order), order), order)
  }

  /** The label of a dictionary with the keys `a` and `b`; with one key when they coincide. */
  ghost function Joined(a: string, b: string, order: Order): string
    requires IsOrder(order)
  {
    assert Lists(order({a, b}), {a, b});
    if a == b then a else order({a, b})[0] + order({a, b})[1]
  }

  /** The participants whose sets reach the result: when the labels of two halves coincide, the
      entry of the right half replaces that of the left. */
  ghost function Kept(names: set<string>, order: Order): (kept: set<string>)
    requires IsOrder(order) && names != {}
    ensures kept <= names
    decreases |names|
  {
    if |names| <= 2 then names
    else
      var left, right := Left(names, order), Right(names, order);
      if Label(left, order) == Label(right, order) then Kept(right, order)
      else Kept(left, order) + Kept(right, order)
  }

  /** No merge on the way puts two entries under one label. */
  ghost predicate NoClash(names: set<string>, order: Order)
    requires IsOrder(order) && names != {}
    decreases |names|
  {
    |names| > 2 ==>
      var left, right := Left(names, order), Right(names, order);
      && Label(left, order) != Label(right, order)
      && NoClash(left, order)
      && NoClash(right, order)
  }

  lemma {:induction false} KeptIffNoClash(names: set<string>, order: Order)
    requires IsOrder(order) && names != {}
    ensures Kept(names, order) == names <==> NoClash(names, order)
    decreases |names|
  {
    if |names| > 2 {
      var left, right := Left(names, order), Right(names, order);
      KeptIffNoClash(left, order);
      KeptIffNoClash(right, order);
      if Kept(names, order) == names {
        var l :| l in left;
        assert l in names && l !in right;
        assert Kept(left, order) == left && Kept(right, order) == right;
      }
    }
  }

  /** The sets of the participants in `names`. */
  ghost function FamilyOf(table: Table, names: set<string>): set<PrefixSet> {
    set p, s | p in table && p in names && s in table[p] :: s
  }

  /** The merged result is exact for whatever sets the participants hold, if and only if no two
      labels coincide on the way. */
  lemma ExactIffNoClash(names: set<string>, order: Order)
    requires IsOrder(order) && names != {}
    ensures NoClash(names, order) <==>
            forall table: Table | table.Keys == names ::
              Blocks(FamilyOf(table, Kept(names, order))) == Blocks(Family(table))
  {
    KeptIffNoClash(names, order);
    var kept := Kept(names, order);
    if kept == names {
      forall table: Table | table.Keys == names
        ensures FamilyOf(table, kept) == Family(table)
      {
      }
    } else {
      var lost :| lost in names && lost !in kept;
      LostSet(names, kept, lost);
    }
  }

  /** The sets of a participant that is not kept are lost. */
  lemma LostSet(names: set<string>, kept: set<string>, lost: string)
    requires kept <= names && lost in names && lost !in kept
    ensures exists table: Table ::
              table.Keys == names && Blocks(FamilyOf(table, kept)) != Blocks(Family(table))
  {
    var table := LostPrefix(names, kept, lost);
    UnionOfBlocks(Family(table));
    UnionOfBlocks(FamilyOf(table, kept));
  }

  lemma LostPrefix(names: set<string>, kept: set<string>, lost: string) returns (table: Table)
    requires kept <= names && lost in names && lost !in kept
    ensures table.Keys == names && Union(FamilyOf(table, kept)) != Union(Family(table))
  {
    var only: PrefixSet := {"10.0.0.0/8"};
    table := map p | p in names :: if p == lost then [only] else [];
    assert only in table[lost] && only in Family(table);
    assert "10.0.0.0/8" in Union(Family(table));
    assert FamilyOf(table, kept) == {};
  }

  /** The same with the covered prefixes alone: without the condition some are lost. */
  lemma CoversIffNoClash(names: set<string>, order: Order)
    requires IsOrder(order) && names != {}
    ensures NoClash(names, order) <==>
            forall table: Table | table.Keys == names ::
              Union(FamilyOf(table, Kept(names, order))) == Union(Family(table))
  {
    KeptIffNoClash(names, order);
    var kept := Kept(names, order);
    if kept == names {
      forall table: Table | table.Keys == names
        ensures FamilyOf(table, kept) == Family(table)
      {
      }
    } else {
      var lost :| lost in names && lost !in kept;
      var table := LostPrefix(names, kept, lost);
    }
  }

  // ----- the length of a label -----

  /** Any two of the names are together no longer than `n`. */
  ghost predicate Fit(names: set<string>, n: nat) {
    forall a, b | a in names && b in names :: |a| <= n && (a != b ==> |a| + |b| <= n)
  }

  lemma FitTogether(left: set<string>, right: set<string>, a: nat, b: nat)
    requires Fit(left, a) && Fit(right, b)
    ensures Fit(left + right, a + b)
  {
  }

  /** Without a clash a label is at least as long as any two of its names together. */
  lemma {:induction false} LabelLength(names: set<string>, order: Order)
    requires IsOrder(order) && names != {} && NoClash(names, order)
    ensures Fit(names, |Label(names, order)|)
    decreases |names|
  {
    if |names| <= 2 {
      LeafLength(names, order);
    } else {
      hide Fit;
      var left, right := Left(names, order), Right(names, order);
      LabelLength(left, order);
      LabelLength(right, order);
      JoinedLength(Label(left, order), Label(right, order), order);
      FitTogether(left, right, |Label(left, order)|, |Label(right, order)|);
    }
  }

  lemma LeafLength(names: set<string>, order: Order)
    requires IsOrder(order) && 0 < |names| <= 2
    ensures Fit(names, |Label(names, order)|)
  {
    var ks := order(names);
    assert Lists(ks, names);
    assert forall n | n in names :: n in ToSet(ks);
  }

  lemma JoinedLength(a: string, b: string, order: Order)
    requires IsOrder(order) && a != b
    ensures |Joined(a, b, order)| == |a| + |b|
  {
    var js := order({a, b});
    assert Lists(js, {a, b}) && |{a, b}| == 2;
    assert ToSet(js) == {js[0], js[1]};
    assert js[0] in {a, b} && js[1] in {a, b} && a in {js[0], js[1]} && b in {js[0], js[1]};
  }

  /** Without a clash the label is a participant's name for a single participant, and for two of which
      one has the empty name. */
  lemma LabelIsNameIff(names: set<string>, order: Order)
    requires IsOrder(order) && names != {} && NoClash(names, order)
    ensures Label(names, order) in names <==> |names| == 1 || (|names| == 2 && "" in names)
  {
    var nkey, ks := Label(names, order), order(names);
    assert Lists(ks, names);
    LabelLength(names, order);
    if nkey in names {
      assert forall n | n in names && n != nkey :: |n| + |nkey| <= |nkey|;
      assert forall n | n in names :: n == nkey || n == "";
      AtMostTwo(names, nkey);
    }
    if |names| == 1 {
      assert ks[0] in ToSet(ks);
    }
    if |names| == 2 && "" in names {
      assert "" in ToSet(ks) && ks[0] in ToSet(ks) && ks[1] in ToSet(ks);
      assert "" + ks[1] == ks[1] && ks[0] + "" == ks[0];
      assert ks[0] == "" || ks[1] == "";
      assert Label(names, order) == ks[0] + ks[1];
    }
  }

  lemma AtMostTwo(names: set<string>, nkey: string)
    requires nkey in names && forall n | n in names :: n == nkey || n == ""
    ensures |names| == 1 || (|names| == 2 && "" in names)
  {
    if "" in names && nkey != "" {
      assert names == {nkey, ""};
    } else {
      assert names == {nkey};
    }
  }

  // ----- a condition on the participants' names -----

  /** No name is a prefix of another one. */
  ghost predicate PrefixFree(names: set<string>) {
    forall m, n | m in names && n in names && m <= n :: m == n
  }

  lemma NoCommonStart(names: set<string>, m: string, n: string, text: string)
    requires PrefixFree(names) && m in names && n in names && m != n
    ensures !(m <= text && n <= text)
  {
  }

  lemma JoinedStarts(a: string, b: string, m: string, n: string, order: Order) returns (k: string)
    requires IsOrder(order) && a != b && m <= a && n <= b && m != "" && n != ""
    ensures k in {m, n} && k <= Joined(a, b, order) && |k| < |Joined(a, b, order)|
  {
    var js := order({a, b});
    assert Lists(js, {a, b}) && |{a, b}| == 2;
    assert js[0] in ToSet(js) && js[1] in ToSet(js);
    assert ToSet(js) == {js[0], js[1]};
    k := if js[0] == a then m else n;
  }

  /** A label starts with one of the names it was made from, and goes on after it when it was
      made from two or more. */
  lemma {:induction false} LabelStarts(names: set<string>, order: Order) returns (n: string)
    requires IsOrder(order) && names != {} && PrefixFree(names) && "" !in names
    ensures n in names && n <= Label(names, order)
    ensures |names| > 1 ==> |n| < |Label(names, order)|
    decreases |names|
  {
    var ks := order(names);
    assert Lists(ks, names);
    if |names| <= 2 {
      n := ks[0];
      assert ks[0] in ToSet(ks);
      if |names| == 2 {
        assert ks[1] in ToSet(ks);
      }
    } else {
      var left, right := Left(names, order), Right(names, order);
      var a, b := Label(left, order), Label(right, order);
      var m := LabelStarts(left, order);
      var m' := LabelStarts(right, order);
      NoCommonStart(names, m, m', a);
      n := JoinedStarts(a, b, m, m', order);
    }
  }

  lemma TwoNames(names: set<string>)
    requires |names| > 1 && PrefixFree(names)
    ensures "" !in names
  {
    var n :| n in names;
    assert |names - {n}| > 0;
    var m :| m in names - {n};
    assert "" <= m && "" <= n;
  }

  /** Names of which none is a prefix of another never clash, and the final label is no name. */
  lemma {:induction false} PrefixFreeNeverClashes(names: set<string>, order: Order)
    requires IsOrder(order) && names != {} && PrefixFree(names)
    ensures NoClash(names, order)
    ensures |names| > 1 ==> Label(names, order) !in names
    decreases |names|
  {
    if |names| > 1 {
      TwoNames(names);
      assert "" !in names;
      var n := LabelStarts(names, order);
      if |names| > 2 {
        var left, right := Left(names, order), Right(names, order);
        PrefixFreeNeverClashes(left, order);
        PrefixFreeNeverClashes(right, order);
        var m := LabelStarts(left, order);
        var m' := LabelStarts(right, order);
        NoCommonStart(names, m, m', Label(left, order));
      }
    }
  }

  /** Three participants whose labels clash: the first and the third merge into the name of the
      second, and their sets are lost. */
  lemma ClashExample(order: Order)
    requires IsOrder(order)
    requires order({"1", "12", "2"}) == ["1", "12", "2"] && order({"1", "2"}) == ["1", "2"]
    ensures !NoClash({"1", "12", "2"}, order)
    ensures Kept({"1", "12", "2"}, order) == {"12"}
  {
    var names := {"1", "12", "2"};
    assert |names| == 3;
    var ks := ["1", "12", "2"];
    assert ks[1..] == ["12", "2"] && ks[1..][1..] == ["2"];
    assert Evens(ks) == ["1"] + Odds(["12", "2"]);
    assert Odds(["12", "2"]) == Evens(["2"]);
    assert Evens(["2"]) == ["2"];
    assert Odds(ks) == Evens(["12", "2"]);
    assert Evens(["12", "2"]) == ["12"] + Odds(["2"]);
    assert Odds(["2"]) == [];
    assert Left(names, order) == {"1", "2"};
    assert Right(names, order) == {"12"};
    assert |{"1", "2"}| == 2;
    assert Label({"1", "2"}, order) == "12";
    assert Lists(order({"12"}), {"12"});
    assert order({"12"})[0] in ToSet(order({"12"}));
    assert Label({"12"}, order) == "12";
  }

  // ----- orders exist -----

  lemma ListsOneMore(rest: seq<string>, names: set<string>, n: string)
    requires n in names && Lists(rest, names - {n})
    ensures Lists([n] + rest, names)
  {
    assert ToSet([n] + rest) == {n} + ToSet(rest);
  }

  ghost function Listing(names: set<string>): (list: seq<string>)
    ensures Lists(list, names)
  {
    if names == {} then []
    else
      var n :| n in names;
      var rest := Listing(names - {n});
      ListsOneMore(rest, names, n);
      [n] + rest
  }

  /** Any listings of two key sets are part of some order. */
  lemma SomeOrder(m: set<string>, ms: seq<string>, n: set<string>, ns: seq<string>) returns (order: Order)
    requires Lists(ms, m) && Lists(ns, n) && m != n
    ensures IsOrder(order) && order(m) == ms && order(n) == ns
  {
    order := (names: set<string>) => if names == m then ms else if names == n then ns else Listing(names);
  }

  /** Names that clash in one order of the dictionary's keys. */
  lemma SomeOrderClashes()
    ensures exists order: Order :: IsOrder(order) && !NoClash({"1", "12", "2"}, order)
  {
    var three, two := ["1", "12", "2"], ["1", "2"];
    assert ToSet(three) == {"1", "12", "2"} && ToSet(two) == {"1", "2"};
    assert |{"1", "12", "2"}| == 3 && |{"1", "2"}| == 2;
    var order := SomeOrder({"1", "12", "2"}, three, {"1", "2"}, two);
    ClashExample(order);
  }
}
