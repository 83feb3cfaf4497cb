/** Decomposition by divide and conquer, in one process and in several. */
module DivideAndConquer {
  import opened Powers
  import opened Partition
  import opened Splitting
  import opened SetOperations
  import opened Labels

  function DividePart2Prefixes(plist: seq<string>, dict: Dict): (tmp: Dict)
    requires ToSet(plist) <= dict.Keys
    ensures tmp.Keys == ToSet(plist)
    ensures forall p | p in tmp :: tmp[p] == dict[p]
  {
    map p | p in ToSet(plist) :: dict[p]
  }

  /** `after` covers what `before` covered and is no finer than the blocks of `family`. */
  ghost predicate Refined(before: Table, after: Table, family: set<PrefixSet>) {
    && after.Keys == before.Keys
    && forall p | p in before :: Between(Members(after[p]), Members(before[p]), family)
  }

  lemma RefinedByDecomposition(before: Table, after: Table, family: set<PrefixSet>)
    requires Decomposed(before, after) && Family(before) <= family
    ensures Refined(before, after, family)
  {
    forall p | p in before
      ensures Between(Members(after[p]), Members(before[p]), family)
    {
      FamilyHas(before, p);
      CutIsBetween(Family(before), family, Members(before[p]));
    }
  }

  lemma UntouchedIsRefined(before: Table, family: set<PrefixSet>)
    requires Family(before) <= family
    ensures Refined(before, before, family)
  {
    forall p | p in before
      ensures Between(Members(before[p]), Members(before[p]), family)
    {
      FamilyHas(before, p);
    }
  }

  lemma FamilyOfHalves(table: Table, left: Table, right: Table, k: set<string>, l: set<string>)
    requires left.Keys + right.Keys == table.Keys && k <= left.Keys && l <= right.Keys
    requires forall p | p in left :: left[p] == table[p]
    requires forall p | p in right :: right[p] == table[p]
    ensures FamilyOf(left, k) + FamilyOf(right, l) == FamilyOf(table, k + l)
    ensures FamilyOf(right, l) == FamilyOf(table, l)
  {
    forall s
      ensures s in FamilyOf(left, k) + FamilyOf(right, l) <==> s in FamilyOf(table, k + l)
    {
      if p :| p in table && p in k + l && s in table[p] {
        assert if p in k then s in left[p] else s in right[p];
      }
    }
    FamilyOfSub(table, right, l);
  }

  lemma FamilyOfSub(table: Table, part: Table, k: set<string>)
    requires k <= part.Keys <= table.Keys && forall p | p in part :: part[p] == table[p]
    ensures FamilyOf(part, k) == FamilyOf(table, k)
  {
  }

  lemma FamilyOfPart(table: Table, part: Table, k: set<string>)
    requires part.Keys <= table.Keys && forall p | p in part :: part[p] == table[p]
    ensures Family(part) <= Family(table)
    ensures FamilyOf(part, k) <= Family(part)
    ensures FamilyOf(table, table.Keys) == Family(table)
  {
  }

  /** The one entry of a result: the blocks of the kept participants under the merged label. */
  ghost predicate Result(nkey: string, lcs: seq<PrefixSet>, before: Table, order: Order)
    requires IsOrder(order) && before.Keys != {}
  {
    && nkey == Label(before.Keys, order)
    && Members(lcs) == Blocks(FamilyOf(before, Kept(before.Keys, order)))
  }

  /** What the merged dictionary holds: the right result replaces a left one of the same label. */
  ghost predicate Merged(merged: Table, left: Table, right: Table, order: Order)
    requires IsOrder(order) && left.Keys != {} && right.Keys != {}
  {
    var a, b := Label(left.Keys, order), Label(right.Keys, order);
    && merged.Keys == {a, b}
    && Members(merged[b]) == Blocks(FamilyOf(right, Kept(right.Keys, order)))
    && (a != b ==> Members(merged[a]) == Blocks(FamilyOf(left, Kept(left.Keys, order))))
  }

  lemma BlocksOfMergedTable(merged: Table, a: string, b: string, f: set<PrefixSet>, g: set<PrefixSet>)
    requires merged.Keys == {a, b} && Members(merged[b]) == Blocks(g)
    requires a != b ==> Members(merged[a]) == Blocks(f)
    ensures Blocks(FamilyOf(merged, {a, b})) == Blocks(if a == b then g else f + g)
  {
    assert FamilyOf(merged, {a, b}) == Members(merged[a]) + Members(merged[b]);
    if a == b {
      BlocksOfMerge(g, g);
      assert FamilyOf(merged, {a, b}) == Blocks(g) + Blocks(g) && g + g == g;
    } else {
      BlocksOfMerge(f, g);
    }
  }

  /** The even and the odd half of a table. */
  ghost predicate HalfTables(before: Table, left: Table, right: Table, order: Order)
    requires IsOrder(order)
  {
    && left.Keys == Left(before.Keys, order) && right.Keys == Right(before.Keys, order)
    && (forall p | p in left :: left[p] == before[p])
    && (forall p | p in right :: right[p] == before[p])
  }

  /** Decomposing the merged dictionary gives the result for the whole. */
  lemma MergedResult(before: Table, left: Table, right: Table, order: Order, merged: Table,
                     nkey: string, lcs: seq<PrefixSet>)
    requires IsOrder(order) && |before.Keys| > 2 && HalfTables(before, left, right, order)
    requires Merged(merged, left, right, order) && Result(nkey, lcs, merged, order)
    ensures Result(nkey, lcs, before, order)
  {
    var a, b := Label(left.Keys, order), Label(right.Keys, order);
    var k, l := Kept(left.Keys, order), Kept(right.Keys, order);
    FamilyOfHalves(before, left, right, k, l);
    LabelOfTwo(a, b, order);
    BlocksOfMergedTable(merged, a, b, FamilyOf(left, k), FamilyOf(right, l));
    assert Kept(before.Keys, order) == if a == b then l else k + l;
    assert Label(before.Keys, order) == Joined(a, b, order);
  }

  lemma LabelOfTwo(a: string, b: string, order: Order)
    requires IsOrder(order)
    ensures Label({a, b}, order) == Joined(a, b, order)
    ensures Kept({a, b}, order) == {a, b}
  {
    assert Lists(order({a, b}), {a, b});
    if a == b {
      assert {a, b} == {a};
      assert order({a})[0] in ToSet(order({a}));
    } else {
      assert |{a, b}| == 2;
    }
  }

  lemma LeafResult(before: Table, nkey: string, lcs: seq<PrefixSet>, order: Order)
    requires IsOrder(order) && 0 < |before.Keys| <= 2
    requires nkey == (if |before.Keys| == 2 then order(before.Keys)[0] + order(before.Keys)[1]
                      else assert Lists(order(before.Keys), before.Keys); order(before.Keys)[0])
    requires Members(lcs) == Blocks(Family(before))
    ensures Result(nkey, lcs, before, order)
  {
    assert Lists(order(before.Keys), before.Keys);
    FamilyOfPart(before, before, before.Keys);
  }

  /** A process pool: how many processors there are, and how deep the spawning has come. Depth 0
      never spawns, as in the single-process version. */
  datatype Pool = Pool(processors: nat, index: nat) {
    predicate Spawns() {
      index > 0 && Pow2(index) <= processors
    }
  }

  const IN_PROCESS := Pool(0, 0)

  /** Decomposes in place where the recursion ends; merges and decomposes again above. Returns the
      label and the list of the one entry of the resulting dictionary. */
  method DecomposeParallel(dict: Dict, order: Order, pool: Pool, ghost before: Table)
      returns (nkey: string, lcs: seq<PrefixSet>)
    requires IsOrder(order) && dict != map[] && Separate(dict) && before == Contents(dict)
    modifies dict.Values
    ensures before.Keys != {} && Result(nkey, lcs, before, order) && Apart(lcs)
    ensures Refined(before, Contents(dict), Family(before))
    ensures |dict| <= 2 ==> Decomposed(before, Contents(dict))
    decreases |dict|, 4
  {
    assert before.Keys == dict.Keys && |dict| == |dict.Keys|;
    var partList := order(dict.Keys);
    assert Lists(partList, dict.Keys);
    if |partList| <= 2 {
      nkey := if |partList| == 2 then partList[0] + partList[1] else partList[0];
      lcs := DecomposeSimpler(dict);
      LeafResult(before, nkey, lcs, order);
      RefinedByDecomposition(before, Contents(dict), Family(before));
    } else {
      HalvesOf(partList, dict.Keys);
      var tmp1 := DividePart2Prefixes(Evens(partList), dict);
      var tmp2 := DividePart2Prefixes(Odds(partList), dict);
      nkey, lcs := DecomposeHalves(dict, tmp1, tmp2, order, pool, before);
    }
  }

  /** What a spawned process receives: lists of its own with the same contents. */
  method CopyDict(dict: Dict) returns (copy: Dict)
    ensures Contents(copy) == Contents(dict) && Separate(copy) && fresh(copy.Values)
  {
    copy := map[];
    var parts := dict.Keys;
    while parts != {}
      invariant parts <= dict.Keys && copy.Keys == dict.Keys - parts
      invariant forall p | p in copy :: fresh(copy[p]) && copy[p].sets == dict[p].sets
      invariant Separate(copy)
      decreases parts
    {
      var part :| part in parts;
      var list := new SetList(dict[part].sets);
      copy := copy[part := list];
      parts := parts - {part};
    }
  }

  /** The work of a spawned process: it sees copies, so the caller's lists stay as they are. */
  method Spawned(dict: Dict, order: Order, pool: Pool, ghost before: Table) returns (nkey: string, lcs: seq<PrefixSet>)
    requires IsOrder(order) && dict != map[] && Separate(dict) && before == Contents(dict)
    ensures before.Keys != {} && Result(nkey, lcs, before, order) && Apart(lcs)
    ensures Refined(before, Contents(dict), Family(before))
    decreases |dict|, 5
  {
    hide Apart, Result, Refined, Decomposed, Label, Kept, Left, Right, IsOrder;
    assert dict.Keys == Contents(dict).Keys && |dict.Keys| == |dict|;
    UntouchedIsRefined(before, Family(before));
    var copy := CopyDict(dict);
    assert copy.Keys == Contents(copy).Keys && |copy.Keys| == |copy|;
    nkey, lcs := DecomposeParallel(copy, order, pool, before);
  }

  ghost predicate Halves(dict: Dict, tmp1: Dict, tmp2: Dict, order: Order)
    requires IsOrder(order)
  {
    && |dict| > 2 && Separate(dict)
    && tmp1.Keys == Left(dict.Keys, order) && tmp2.Keys == Right(dict.Keys, order)
    && (forall p | p in tmp1 :: tmp1[p] == dict[p])
    && (forall p | p in tmp2 :: tmp2[p] == dict[p])
  }

  lemma HalvesAreSmaller(dict: Dict, tmp1: Dict, tmp2: Dict, order: Order)
    requires IsOrder(order) && Halves(dict, tmp1, tmp2, order)
    ensures 0 < |tmp1| < |dict| && 0 < |tmp2| < |dict|
    ensures Separate(tmp1) && Separate(tmp2) && tmp1.Values !! tmp2.Values
    ensures tmp1.Values <= dict.Values && tmp2.Values <= dict.Values
  {
    assert |dict| == |dict.Keys| && |tmp1| == |tmp1.Keys| && |tmp2| == |tmp2.Keys|;
  }

  /** The halves hold the very lists of the dictionary. */
  lemma HalvesShareLists(dict: Dict, tmp1: Dict, tmp2: Dict, order: Order)
    requires IsOrder(order) && Halves(dict, tmp1, tmp2, order)
    ensures var all, left, right := Contents(dict), Contents(tmp1), Contents(tmp2);
            && all.Keys == dict.Keys && left.Keys == tmp1.Keys && right.Keys == tmp2.Keys
            && left.Keys + right.Keys == all.Keys
            && (forall p | p in left :: left[p] == all[p])
            && (forall p | p in right :: right[p] == all[p])
  {
  }

  /** Solves the two halves, one after the other or each in a process of its own. */
  method SolveHalves(tmp1: Dict, tmp2: Dict, order: Order, pool: Pool,
                     ghost left: Table, ghost right: Table, ghost size: nat)
      returns (key1: string, lcs1: seq<PrefixSet>, key2: string, lcs2: seq<PrefixSet>)
    requires IsOrder(order) && 0 < |tmp1| < size && 0 < |tmp2| < size
    requires Separate(tmp1) && Separate(tmp2) && tmp1.Values !! tmp2.Values
    requires left == Contents(tmp1) && right == Contents(tmp2)
    modifies tmp1.Values, tmp2.Values
    ensures left.Keys != {} && Result(key1, lcs1, left, order)
    ensures right.Keys != {} && Result(key2, lcs2, right, order)
    ensures Refined(left, Contents(tmp1), Family(left))
    ensures Refined(right, Contents(tmp2), Family(right))
    decreases size, 0
  {
    hide Apart, Result, Refined, Decomposed;
    if pool.Spawns() {
      key1, lcs1 := Spawned(tmp1, order, pool.(index := pool.index + 1), left);
      assert Contents(tmp2) == right;
      ghost var leftAfter := Contents(tmp1);
      key2, lcs2 := Spawned(tmp2, order, pool.(index := pool.index + 1), right);
      assert Contents(tmp1) == leftAfter;
    } else {
      key1, lcs1 := DecomposeParallel(tmp1, order, IN_PROCESS, left);
      assert Contents(tmp2) == right;
      ghost var leftAfter := Contents(tmp1);
      key2, lcs2 := DecomposeParallel(tmp2, order, IN_PROCESS, right);
      assert Contents(tmp1) == leftAfter;
    }
  }

  /** Puts the two results under their labels into one dictionary and decomposes that. */
  method MergeResults(key1: string, lcs1: seq<PrefixSet>, key2: string, lcs2: seq<PrefixSet>, order: Order,
                      ghost left: Table, ghost right: Table, ghost size: nat)
      returns (nkey: string, lcs: seq<PrefixSet>, ghost merged: Table)
    requires IsOrder(order) && left.Keys != {} && right.Keys != {} && size > 2
    requires Result(key1, lcs1, left, order) && Result(key2, lcs2, right, order)
    ensures merged.Keys != {}
    ensures Merged(merged, left, right, order) && Result(nkey, lcs, merged, order) && Apart(lcs)
    decreases size, 0
  {
    hide *;
    var both := NewDict(key1, lcs1, key2, lcs2);
    merged := Contents(both);
    MergedTable(merged, left, right, key1, lcs1, key2, lcs2, order);
    nkey, lcs := DecomposeMerged(both, order, merged, size);
  }

  /** A dictionary of two lists of its own; the second one when the keys coincide. */
  method NewDict(key1: string, lcs1: seq<PrefixSet>, key2: string, lcs2: seq<PrefixSet>) returns (both: Dict)
    ensures 0 < |both| <= 2 && Separate(both) && fresh(both.Values)
    ensures Contents(both) == map[key1 := lcs1] + map[key2 := lcs2]
  {
    var list1 := new SetList(lcs1);
    var list2 := new SetList(lcs2);
    both := map[key1 := list1] + map[key2 := list2];
    TwoKeys(both, key1, key2);
  }

  /** Decomposes the dictionary of two results, whose lists belong to nobody else. */
  method DecomposeMerged(both: Dict, order: Order, ghost merged: Table, ghost size: nat)
      returns (nkey: string, lcs: seq<PrefixSet>)
    requires IsOrder(order) && 0 < |both| <= 2 < size && Separate(both) && merged == Contents(both)
    modifies both.Values
    ensures merged.Keys != {} && Result(nkey, lcs, merged, order) && Apart(lcs)
    decreases |both|, 5
  {
    hide *;
    nkey, lcs := DecomposeParallel(both, order, IN_PROCESS, merged);
  }

  /** Decomposes the two halves of the dictionary in place. */
  method RefineHalves(dict: Dict, tmp1: Dict, tmp2: Dict, order: Order, pool: Pool,
                      ghost before: Table, ghost left: Table, ghost right: Table)
      returns (key1: string, lcs1: seq<PrefixSet>, key2: string, lcs2: seq<PrefixSet>)
    requires IsOrder(order) && Halves(dict, tmp1, tmp2, order)
    requires before == Contents(dict) && left == Contents(tmp1) && right == Contents(tmp2)
    modifies dict.Values
    ensures left.Keys != {} && Result(key1, lcs1, left, order)
    ensures right.Keys != {} && Result(key2, lcs2, right, order)
    ensures Refined(before, Contents(dict), Family(before))
    decreases |dict|, 1
  {
    hide Apart, Result, Refined, Decomposed;
    HalvesAreSmaller(dict, tmp1, tmp2, order);
    HalvesShareLists(dict, tmp1, tmp2, order);
    key1, lcs1, key2, lcs2 := SolveHalves(tmp1, tmp2, order, pool, left, right, |dict|);
    HalvesShareLists(dict, tmp1, tmp2, order);
    hide Contents, Halves, Family;
    RefinedHalves(before, left, right, Contents(dict), Contents(tmp1), Contents(tmp2));
  }

  method DecomposeHalves(dict: Dict, tmp1: Dict, tmp2: Dict, order: Order, pool: Pool, ghost before: Table)
      returns (nkey: string, lcs: seq<PrefixSet>)
    requires IsOrder(order) && Halves(dict, tmp1, tmp2, order) && before == Contents(dict)
    modifies dict.Values
    ensures before.Keys != {} && Result(nkey, lcs, before, order) && Apart(lcs)
    ensures Refined(before, Contents(dict), Family(before))
    decreases |dict|, 3
  {
    hide Apart, Result, Refined, Decomposed, Merged, Label, Kept, Left, Right, IsOrder;
    ghost var left, right := Contents(tmp1), Contents(tmp2);
    KeysOfHalves(dict, tmp1, tmp2, order);
    hide Contents, Halves, HalfTables, Family;
    var key1, lcs1, key2, lcs2 := RefineHalves(dict, tmp1, tmp2, order, pool, before, left, right);
    ghost var after := Contents(dict);
    nkey, lcs := CombineBeside(dict, after, key1, lcs1, key2, lcs2, order, before, left, right);
  }

  /** Combining leaves the participants' lists alone. */
  method CombineBeside(ghost dict: Dict, ghost after: Table, key1: string, lcs1: seq<PrefixSet>, key2: string,
                       lcs2: seq<PrefixSet>, order: Order, ghost before: Table, ghost left: Table, ghost right: Table)
      returns (nkey: string, lcs: seq<PrefixSet>)
    requires IsOrder(order) && |before.Keys| > 2 && HalfTables(before, left, right, order)
    requires left.Keys != {} && Result(key1, lcs1, left, order)
    requires right.Keys != {} && Result(key2, lcs2, right, order)
    requires Contents(dict) == after
    ensures before.Keys != {} && Result(nkey, lcs, before, order) && Apart(lcs)
    ensures Contents(dict) == after
    decreases |before.Keys|, 2
  {
    hide *;
    nkey, lcs := CombineHalves(key1, lcs1, key2, lcs2, order, before, left, right);
  }

  /** The result for the whole dictionary from the results for its halves. */
  method CombineHalves(key1: string, lcs1: seq<PrefixSet>, key2: string, lcs2: seq<PrefixSet>, order: Order,
                       ghost before: Table, ghost left: Table, ghost right: Table)
      returns (nkey: string, lcs: seq<PrefixSet>)
    requires IsOrder(order) && |before.Keys| > 2 && HalfTables(before, left, right, order)
    requires left.Keys != {} && Result(key1, lcs1, left, order)
    requires right.Keys != {} && Result(key2, lcs2, right, order)
    ensures before.Keys != {} && Result(nkey, lcs, before, order) && Apart(lcs)
    decreases |before.Keys|, 1
  {
    hide Apart, Result, Refined, Decomposed, Merged, Label, Kept, Left, Right, IsOrder, Family;
    ghost var merged;
    nkey, lcs, merged := MergeResults(key1, lcs1, key2, lcs2, order, left, right, |before.Keys|);
    MergedResult(before, left, right, order, merged, nkey, lcs);
  }

  lemma KeysOfHalves(dict: Dict, tmp1: Dict, tmp2: Dict, order: Order)
    requires IsOrder(order) && Halves(dict, tmp1, tmp2, order)
    ensures |Contents(dict).Keys| == |dict|
    ensures HalfTables(Contents(dict), Contents(tmp1), Contents(tmp2), order)
  {
    assert Contents(dict).Keys == dict.Keys && |dict.Keys| == |dict|;
  }

  lemma TwoKeys(both: Dict, a: string, b: string)
    requires both.Keys == {a, b}
    ensures 0 < |both| <= 2
  {
    assert a in both;
    assert |both| == |both.Keys|;
  }

  lemma MergedTable(merged: Table, left: Table, right: Table, key1: string, lcs1: seq<PrefixSet>,
                    key2: string, lcs2: seq<PrefixSet>, order: Order)
    requires IsOrder(order) && left.Keys != {} && right.Keys != {}
    requires Result(key1, lcs1, left, order) && Result(key2, lcs2, right, order)
    requires merged == map[key1 := lcs1] + map[key2 := lcs2]
    ensures Merged(merged, left, right, order)
  {
  }

  lemma RefinedHalves(before: Table, left: Table, right: Table, after: Table, left': Table, right': Table)
    requires left.Keys + right.Keys == before.Keys && after.Keys == before.Keys
    requires forall p | p in left :: left[p] == before[p]
    requires forall p | p in right :: right[p] == before[p]
    requires Refined(left, left', Family(left)) && Refined(right, right', Family(right))
    requires forall p | p in left :: after[p] == left'[p]
    requires forall p | p in right :: after[p] == right'[p]
    ensures Refined(before, after, Family(before))
  {
    FamilyOfPart(before, left, {});
    FamilyOfPart(before, right, {});
    forall p | p in before
      ensures Between(Members(after[p]), Members(before[p]), Family(before))
    {
      var half := if p in left then Family(left) else Family(right);
      BetweenInLarger(Members(after[p]), Members(before[p]), half, Family(before));
    }
  }

  lemma BetweenInLarger(fine: set<PrefixSet>, coarse: set<PrefixSet>, small: set<PrefixSet>, large: set<PrefixSet>)
    requires Between(fine, coarse, small) && small <= large
    ensures Between(fine, coarse, large)
  {
    forall s, x, y | s in fine && Together(large, x, y)
      ensures x in s <==> y in s
    {
      assert Together(small, x, y);
    }
  }
}
