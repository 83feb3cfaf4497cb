/** The in-place decomposition of the participants' prefix sets, over one dictionary.

    The lists are objects: rewriting one of them is seen by everyone who holds it. What a visit of one
    key does to all of them is a split of the value-level table. */
module SetOperations {
  import opened Partition
  import opened Splitting

  /** A participant's list of prefix sets: a shared object, rewritten in place. */
  class SetList {
    var sets: seq<PrefixSet>

    constructor (sets: seq<PrefixSet>)
      ensures this.sets == sets
    {
      this.sets := sets;
    }
  }

  type Dict = map<string, SetList>

  /** Distinct keys hold distinct list objects. */
  ghost predicate Separate(dict: Dict) {
    forall p, q | p in dict && q in dict && p != q :: dict[p] != dict[q]
  }

  ghost function Contents(dict: Dict): Table
    reads dict.Values
  {
    map p | p in dict :: dict[p].sets
  }

  /** The prefixes worth visiting: those of every set with more than one prefix. */
  method GetPdict(dict: Dict) returns (keys: set<Prefix>)
    ensures keys == OfLargerSets(Family(Contents(dict)))
    ensures Unlisted(Contents(dict), keys)
  {
    hide OfLargerSets, Unlisted, Family;
    keys := {};
    var parts := dict.Keys;
    while parts != {}
      invariant parts <= dict.Keys
      invariant forall x :: x in keys <==>
                  exists p :: p in dict && p !in parts && x in OfLargerSets(Members(Contents(dict)[p]))
      decreases parts
    {
      var part :| part in parts;
      var more := PrefixesOf(dict[part].sets);
      keys := keys + more;
      parts := parts - {part};
    }
    LargerSetsOfAll(Contents(dict));
    assert forall x :: x in keys <==> x in OfLargerSets(Family(Contents(dict)));
  }

  /** The prefixes of the sets with more than one prefix. */
  ghost function OfLargerSets(family: set<PrefixSet>): set<Prefix> {
    set s, x | s in family && |s| > 1 && x in s :: x
  }

  lemma LargerSetsOfAll(table: Table)
    ensures forall x :: x in OfLargerSets(Family(table)) <==>
                        exists p :: p in table && x in OfLargerSets(Members(table[p]))
    ensures Unlisted(table, OfLargerSets(Family(table)))
  {
    forall p, x | p in table && x in OfLargerSets(Members(table[p]))
      ensures x in OfLargerSets(Family(table))
    {
      FamilyHas(table, p);
    }
    forall s, x | s in Family(table) && x in s && x !in OfLargerSets(Family(table))
      ensures s == {x}
    {
      assert |s - {x}| == |s| - 1;
    }
  }

  lemma NoLargerSets()
    ensures OfLargerSets(Members([])) == {}
  {
  }

  lemma LargerSetsNext(family: set<PrefixSet>, s: PrefixSet)
    ensures OfLargerSets(family + {s}) == OfLargerSets(family) + if |s| > 1 then s else {}
  {
  }

  method PrefixesOf(list: seq<PrefixSet>) returns (keys: set<Prefix>)
    ensures keys == OfLargerSets(Members(list))
  {
    hide OfLargerSets;
    keys := {};
    NoLargerSets();
    for i := 0 to |list|
      invariant keys == OfLargerSets(Members(list[..i]))
    {
      if |list[i]| > 1 {
        keys := keys + list[i];
      }
      assert list[..i + 1] == list[..i] + [list[i]];
      assert Members(list[..i + 1]) == Members(list[..i]) + {list[i]};
      LargerSetsNext(Members(list[..i]), list[i]);
    }
    assert list[..|list|] == list;
  }

  /** All sets of all lists, one after the other. */
  method Flatten(tdict: Table) returns (pmap: seq<PrefixSet>)
    ensures Members(pmap) == Family(tdict)
  {
    pmap := [];
    var parts := tdict.Keys;
    while parts != {}
      invariant parts <= tdict.Keys
      invariant forall s :: s in pmap <==> exists q :: q in tdict && q !in parts && s in tdict[q]
      decreases parts
    {
      var part :| part in parts;
      var list := tdict[part];
      ghost var seen := pmap;
      for i := 0 to |list|
        invariant pmap == seen + list[..i]
      {
        pmap := pmap + [list[i]];
      }
      parts := parts - {part};
    }
  }

  /** The common part, then what is left of every set outside it. */
  method Pieces(list: seq<PrefixSet>, minSet: PrefixSet) returns (pieces: seq<PrefixSet>)
    ensures pieces == [minSet] + Remainders(list, minSet)
  {
    pieces := [minSet];
    for i := 0 to |list|
      invariant pieces == [minSet] + Remainders(list[..i], minSet)
    {
      var rest := list[i] - minSet;
      if |rest| > 0 {
        pieces := pieces + [rest];
      }
      assert list[..i + 1][..i] == list[..i];
    }
    assert list[..|list|] == list;
  }

  /** The lists of sets that hold `key`, one for each participant that has any. */
  ghost predicate Selection(tdict: Table, dict: Dict, key: Prefix)
    reads dict.Values
  {
    && tdict.Keys <= dict.Keys
    && (forall p | p in dict :: p in tdict <==> Containing(dict[p].sets, key) != [])
    && (forall p | p in tdict :: tdict[p] == Containing(dict[p].sets, key))
  }

  lemma SelectionFamily(tdict: Table, dict: Dict, key: Prefix)
    requires Selection(tdict, dict, key)
    ensures forall s :: s in Family(tdict) <==> s in Family(Contents(dict)) && key in s
    ensures Common(Family(tdict), key) == Common(Family(Contents(dict)), key) || tdict == map[]
  {
    forall s
      ensures s in Family(tdict) <==> s in Family(Contents(dict)) && key in s
    {
      if s in Family(tdict) {
        var p :| p in tdict && s in tdict[p];
        ContainingMembers(dict[p].sets, key);
        assert s in Members(Containing(dict[p].sets, key));
        assert s in Contents(dict)[p];
      }
      if s in Family(Contents(dict)) && key in s {
        var p :| p in dict && s in Contents(dict)[p];
        ContainingMembers(dict[p].sets, key);
        assert s in Members(Containing(dict[p].sets, key));
        assert s in tdict[p];
      }
    }
    if tdict != map[] {
      var p :| p in tdict;
      assert tdict[p][0] in tdict[p];
      assert tdict[p][0] in Family(tdict);
    }
  }

  /** Appends the pieces, then removes every original by value. */
  method ReplaceSets(target: SetList, originals: seq<PrefixSet>, pieces: seq<PrefixSet>, ghost key: Prefix)
    requires originals == Containing(target.sets, key)
    modifies target
    ensures target.sets == Lacking(old(target.sets), key) + pieces
  {
    ghost var rest := target.sets;
    target.sets := target.sets + pieces;
    for i := 0 to |originals|
      invariant target.sets == rest + pieces
      invariant Containing(rest, key) == originals[i..]
      invariant Lacking(rest, key) == Lacking(old(target.sets), key)
    {
      rest := RemoveOne(rest, pieces, key);
      target.sets := RemoveFirst(target.sets, originals[i]);
    }
    NothingContaining(rest, key);
  }

  method RewriteLists(tdict: Table, dict: Dict, backup: Table, minSet: PrefixSet, ghost key: Prefix)
    requires Separate(dict) && tdict.Keys <= dict.Keys && backup == tdict
    requires forall p | p in tdict :: tdict[p] == Containing(dict[p].sets, key)
    modifies set p | p in tdict :: dict[p]
    ensures forall p | p in tdict ::
              dict[p].sets == Lacking(old(dict[p].sets), key) + ([minSet] + Remainders(tdict[p], minSet))
  {
    var parts := tdict.Keys;
    while parts != {}
      invariant parts <= tdict.Keys
      invariant forall p | p in parts :: dict[p].sets == old(dict[p].sets)
      invariant forall p | p in tdict && p !in parts ::
        dict[p].sets == Lacking(old(dict[p].sets), key) + ([minSet] + Remainders(tdict[p], minSet))
      decreases parts
    {
      var part :| part in parts;
      var pieces := Pieces(tdict[part], minSet);
      ReplaceSets(dict[part], backup[part], pieces, key);
      parts := parts - {part};
    }
  }

  lemma IntersectionIsCommon(pmap: seq<PrefixSet>, key: Prefix)
    requires pmap != [] && forall s | s in pmap :: key in s
    ensures Intersection(pmap) == Common(Members(pmap), key) && key in Intersection(pmap)
  {
    assert pmap[0] in Members(pmap);
    forall x
      ensures x in Intersection(pmap) <==> x in Common(Members(pmap), key)
    {
      IntersectionMembers(pmap, x);
    }
    IntersectionMembers(pmap, key);
  }

  /** Splits the sets of every list in `tdict` along their common part: each list in `dict` loses
      the sets recorded in `backup` and gains the pieces, in place. */
  method DecomposeSet(tdict: Table, dict: Dict, backup: Table, ghost key: Prefix)
    requires tdict != map[] && Separate(dict) && Selection(tdict, dict, key) && backup == tdict
    modifies set p | p in tdict :: dict[p]
    ensures forall p | p in tdict ::
              dict[p].sets == Lacking(old(dict[p].sets), key)
                              + ([Common(Family(tdict), key)] + Remainders(tdict[p], Common(Family(tdict), key)))
  {
    var pmap := Flatten(tdict);
    SelectionFamily(tdict, dict, key);
    ghost var q :| q in tdict;
    assert tdict[q][0] in tdict[q] && tdict[q][0] in Members(pmap);
    var minSet := Intersection(pmap);
    IntersectionIsCommon(pmap, key);
    if |minSet| > 0 {
      RewriteLists(tdict, dict, backup, minSet, key);
    }
  }

  /** The sets of one list that hold `key`, in order. */
  method Select(list: seq<PrefixSet>, key: Prefix) returns (tlist: seq<PrefixSet>)
    ensures tlist == Containing(list, key)
  {
    tlist := [];
    for i := 0 to |list|
      invariant Containing(list, key) == tlist + Containing(list[i..], key)
    {
      if key in list[i] {
        tlist := tlist + [list[i]];
      }
      assert list[i..][1..] == list[i + 1..];
    }
  }

  lemma SplitOfList(list: seq<PrefixSet>, key: Prefix, min: PrefixSet)
    requires Containing(list, key) != []
    ensures SplitSets(Members(list), key, min) ==
            Members(Lacking(list, key) + ([min] + Remainders(Containing(list, key), min)))
  {
    var picked := Containing(list, key);
    ContainingMembers(list, key);
    RemainderMembers(picked, min);
    assert picked[0] in Members(picked);
    var pieces := [min] + Remainders(picked, min);
    assert Members(pieces) == {min} + Members(Remainders(picked, min));
    assert Members(Lacking(list, key) + pieces) == Members(Lacking(list, key)) + Members(pieces);
    assert Members(Remainders(picked, min)) == set s | s in list && key in s && s - min != {} :: s - min by {
      assert forall s :: s in picked <==> s in Members(picked);
    }
  }

  lemma UnsplitList(list: seq<PrefixSet>, key: Prefix, min: PrefixSet)
    requires Containing(list, key) == []
    ensures SplitSets(Members(list), key, min) == Members(list)
  {
    ContainingMembers(list, key);
    forall s | s in list
      ensures key !in s
    {
      assert s !in Members(Containing(list, key));
    }
  }

  method SelectAll(dict: Dict, key: Prefix) returns (tempdict: Table)
    ensures Selection(tempdict, dict, key)
  {
    tempdict := map[];
    var parts := dict.Keys;
    while parts != {}
      invariant parts <= dict.Keys && tempdict.Keys <= dict.Keys - parts
      invariant forall p | p in dict && p !in parts :: p in tempdict <==> Containing(dict[p].sets, key) != []
      invariant forall p | p in tempdict :: tempdict[p] == Containing(dict[p].sets, key)
      decreases parts
    {
      var part :| part in parts;
      var tlist := Select(dict[part].sets, key);
      if |tlist| > 0 {
        tempdict := tempdict[part := tlist];
      }
      parts := parts - {part};
    }
  }

  /** Splits all participants' sets along the common part of those that hold `key`, unless only
      one set of one participant holds it. */
  method SplitOnKey(dict: Dict, key: Prefix)
    requires Separate(dict) && key in Union(Family(Contents(dict)))
    modifies dict.Values
    ensures Split(old(Contents(dict)), Contents(dict), key)
    ensures KeepsApart(old(Contents(dict)), Contents(dict))
  {
    var tempdict := SelectAll(dict, key);
    ghost var cur := Contents(dict);
    SelectionFamily(tempdict, dict, key);
    assert tempdict != map[] by {
      var s :| s in Family(cur) && key in s;
      assert s in Family(tempdict);
    }
    if |tempdict| == 1 && OneSet(tempdict) {
      SoleHolder(tempdict, dict, key);
    } else {
      DecomposeSet(tempdict, dict, tempdict, key);
      forall p | p in dict
        ensures Members(dict[p].sets) == SplitSets(Members(cur[p]), key, Common(Family(cur), key))
        ensures Apart(cur[p]) ==> Apart(dict[p].sets)
      {
        if p in tempdict {
          SplitOfList(cur[p], key, Common(Family(cur), key));
          SplitListApart(cur, p, key);
        } else {
          UnsplitList(cur[p], key, Common(Family(cur), key));
        }
      }
    }
  }

  lemma SplitListApart(cur: Table, p: string, key: Prefix)
    requires p in cur && Containing(cur[p], key) != []
    ensures var min := Common(Family(cur), key);
            Apart(cur[p]) ==> Apart(Lacking(cur[p], key) + ([min] + Remainders(Containing(cur[p], key), min)))
  {
    if Apart(cur[p]) {
      FamilyHas(cur, p);
      ContainingMembers(cur[p], key);
      assert Containing(cur[p], key)[0] in Members(Containing(cur[p], key));
      assert Containing(cur[p], key)[0] in Members(cur[p]);
      forall s | s in cur[p] && key in s
        ensures Common(Family(cur), key) <= s
      {
        assert s in Members(cur[p]);
      }
      SplitApart(cur[p], key, Common(Family(cur), key));
    }
  }

  /** `len(tempdict.values()[0]) == 1`, for a dictionary with one entry. */
  predicate OneSet(tdict: Table) {
    forall p | p in tdict :: |tdict[p]| == 1
  }

  lemma SoleHolder(tdict: Table, dict: Dict, key: Prefix)
    requires Selection(tdict, dict, key) && |tdict| == 1 && OneSet(tdict)
    ensures Split(Contents(dict), Contents(dict), key)
  {
    var cur := Contents(dict);
    SelectionFamily(tdict, dict, key);
    var part :| part in tdict;
    assert tdict.Keys == {part} by {
      assert |tdict.Keys - {part}| == 0;
    }
    var only := tdict[part][0];
    assert only in tdict[part];
    assert Family(tdict) == {only};
    assert only in Family(cur);
    assert Common(Family(cur), key) == only;
    forall p | p in cur
      ensures SplitSets(Members(cur[p]), key, only) == Members(cur[p])
    {
      FamilyHas(cur, p);
    }
  }

  /** The distinct sets of all lists, in the order met. */
  method Distinct(dict: Dict) returns (lcs: seq<PrefixSet>)
    ensures Members(lcs) == Family(Contents(dict))
    ensures forall i, j | 0 <= i < j < |lcs| :: lcs[i] != lcs[j]
  {
    lcs := [];
    var parts := dict.Keys;
    while parts != {}
      invariant parts <= dict.Keys
      invariant forall s :: s in lcs <==> exists p :: p in dict && p !in parts && s in dict[p].sets
      invariant forall i, j | 0 <= i < j < |lcs| :: lcs[i] != lcs[j]
      decreases parts
    {
      var part :| part in parts;
      var list := dict[part].sets;
      ghost var seen := lcs;
      for i := 0 to |list|
        invariant forall s :: s in lcs <==> s in seen || s in list[..i]
        invariant forall i, j | 0 <= i < j < |lcs| :: lcs[i] != lcs[j]
      {
        if list[i] !in lcs {
          lcs := lcs + [list[i]];
        }
      }
      parts := parts - {part};
    }
    forall s
      ensures s in Members(lcs) <==> s in Family(Contents(dict))
    {
      if s in lcs {
        var p :| p in dict && s in dict[p].sets;
        assert s in Contents(dict)[p];
      }
    }
  }

  /** The loop's invariant: the keys outside `todo` have been visited. */
  ghost predicate Visited(before: Table, dict: Dict, keys: set<Prefix>, todo: set<Prefix>)
    reads dict.Values
  {
    && Progress(before, Contents(dict), keys - todo)
    && Unlisted(Contents(dict), keys)
    && KeepsApart(before, Contents(dict))
  }

  method VisitKey(dict: Dict, key: Prefix, ghost before: Table, ghost keys: set<Prefix>, ghost todo: set<Prefix>)
    requires Separate(dict) && key in todo && todo <= keys && key in Union(Family(before))
    requires Visited(before, dict, keys, todo)
    modifies dict.Values
    ensures Visited(before, dict, keys, todo - {key})
  {
    hide Progress, Unlisted, Split;
    ghost var cur := Contents(dict);
    ProgressCovers(before, cur, keys - todo);
    SplitOnKey(dict, key);
    SplitAdvances(before, cur, Contents(dict), keys - todo, key);
    SplitKeepsUnlisted(cur, Contents(dict), keys, key);
    assert keys - (todo - {key}) == keys - todo + {key};
  }

  method VisitAll(dict: Dict, keys: set<Prefix>, ghost before: Table)
    requires Separate(dict) && keys <= Union(Family(before))
    requires Visited(before, dict, keys, keys)
    modifies dict.Values
    ensures Visited(before, dict, keys, {})
  {
    var todo := keys;
    while todo != {}
      invariant todo <= keys
      invariant Visited(before, dict, keys, todo)
      decreases todo
    {
      var key :| key in todo;
      VisitKey(dict, key, before, keys, todo);
      todo := todo - {key};
    }
  }

  /** Rewrites every participant's list in place into the blocks of all participants' sets, and
      returns the distinct blocks. The keys are visited in any order. */
  method DecomposeSimpler(dict: Dict) returns (lcs: seq<PrefixSet>)
    requires Separate(dict)
    modifies dict.Values
    ensures Decomposed(old(Contents(dict)), Contents(dict))
    ensures Members(lcs) == Blocks(Family(old(Contents(dict))))
    ensures Apart(lcs)
    ensures KeepsApart(old(Contents(dict)), Contents(dict))
  {
    ghost var before := Contents(dict);
    var pdict := GetPdict(dict);
    ProgressStarts(before);
    assert pdict - pdict == {};
    VisitAll(dict, pdict, before);
    assert pdict - {} == pdict;
    ProgressComplete(before, Contents(dict), pdict);
    DecomposedFamily(before, Contents(dict));
    lcs := Distinct(dict);
    DistinctBlocksApart(Family(before), lcs);
  }

  lemma ProgressCovers(before: Table, cur: Table, done: set<Prefix>)
    requires Progress(before, cur, done)
    ensures Union(Family(before)) <= Union(Family(cur))
  {
    forall x | x in Union(Family(before))
      ensures x in Union(Family(cur))
    {
      var p, s :| p in before && s in before[p] && x in s;
      assert Covered(cur[p], s, x);
      var c :| c in cur[p] && x in c && c <= s;
      assert c in Family(cur);
    }
  }
}
