/** The two entry points: both give every participant the global blocks of its own sets, in place in
    one process, or as results that processes of a second phase send back.

    Both need labels that do not coincide; participants' names of which none is a prefix of another
    suffice. Without that the blocks of some participants are lost. */
module Lcs {
  import opened Partition
  import opened Splitting
  import opened SetOperations
  import opened Labels
  import opened DivideAndConquer

  lemma ExactResult(nkey: string, lcs: seq<PrefixSet>, before: Table, order: Order)
    requires IsOrder(order) && before.Keys != {} && Result(nkey, lcs, before, order)
    ensures NoClash(before.Keys, order) ==> Members(lcs) == Blocks(Family(before))
    ensures NoClash(before.Keys, order) && nkey in before.Keys ==> |before.Keys| <= 2
  {
    KeptIffNoClash(before.Keys, order);
    FamilyOfPart(before, before, before.Keys);
    if NoClash(before.Keys, order) {
      LabelIsNameIff(before.Keys, order);
    }
  }

  lemma FamilyOfTwo(table: Table, p: string, q: string)
    requires table.Keys == {p, q}
    ensures Family(table) == Members(table[p]) + Members(table[q])
  {
  }

  /** Decomposing one participant's list together with the blocks. A participant with the name of the
      blocks' label is left out, since its entry is replaced. */
  method CutList(part: string, list: SetList, nkey: string, lcs: SetList)
    requires list != lcs
    modifies list, lcs
    ensures part == nkey ==> list.sets == old(list.sets)
    ensures part != nkey ==>
              Members(list.sets) == Cut(old(Members(list.sets) + Members(lcs.sets)), old(Members(list.sets)))
    ensures var joint := old((if part == nkey then {} else Members(list.sets)) + Members(lcs.sets));
            Members(lcs.sets) == Cut(joint, old(Members(lcs.sets)))
    ensures old(Apart(lcs.sets)) ==> Apart(lcs.sets)
  {
    hide Cut, Apart, Decomposed, KeepsApart, Family;
    var p2p := map[part := list] + map[nkey := lcs];
    ghost var before := Contents(p2p);
    assert before.Keys == {part, nkey} && before[nkey] == lcs.sets && (part != nkey ==> before[part] == list.sets);
    var x := DecomposeSimpler(p2p);
    ghost var after := Contents(p2p);
    assert after.Keys == {part, nkey} && after[nkey] == lcs.sets && (part != nkey ==> after[part] == list.sets);
    PairCut(before, after, part, nkey);
  }

  lemma PairCut(before: Table, after: Table, part: string, nkey: string)
    requires before.Keys == after.Keys == {part, nkey} && Decomposed(before, after) && KeepsApart(before, after)
    ensures var list, lcs := Members(before[part]), Members(before[nkey]);
            && Members(after[nkey]) == Cut((if part == nkey then {} else list) + lcs, lcs)
            && (part != nkey ==> Members(after[part]) == Cut(list + lcs, list))
    ensures Apart(before[nkey]) ==> Apart(after[nkey])
  {
    hide Cut, Apart;
    FamilyOfTwo(before, part, nkey);
    assert part == nkey ==> Family(before) == {} + Members(before[nkey]);
  }

  /** What `CutList` makes of the global blocks and of a list that is not finer than they are. */
  lemma CutMeaning(part: string, nkey: string, list: set<PrefixSet>, lcs: set<PrefixSet>, coarse: set<PrefixSet>,
                   family: set<PrefixSet>)
    requires coarse <= family && lcs == Blocks(family)
    requires part != nkey ==> Between(list, coarse, family)
    ensures Cut((if part == nkey then {} else list) + lcs, lcs) == Blocks(family)
    ensures part != nkey ==> Cut(list + lcs, list) == Cut(family, coarse)
  {
    if part == nkey {
      BlocksOfMerge(family, family);
      assert Blocks(family) + Blocks(family) == Blocks(family) && family + family == family;
      assert {} + lcs == lcs;
    } else {
      CutAgainstBlocks(family, list, coarse);
    }
  }

  /** Cutting loses no prefix. */
  lemma CutCovers(joint: set<PrefixSet>, part: set<PrefixSet>)
    requires part <= joint
    ensures Union(Cut(joint, part)) == Union(part)
  {
    CutIsBetween(joint, joint, part);
  }

  /** Every list holds its blocks, up to the participants in `todo`. */
  ghost predicate CutUpTo(before: Table, now: Table, todo: set<string>, nkey: string)
    requires now.Keys == before.Keys
  {
    && (forall p | p in before && p !in todo :: Members(now[p]) == Cut(Family(before), Members(before[p])))
    && (forall p | p in before && p in todo ::
          if p == nkey then Members(now[p]) == Cut(Family(before), Members(before[p]))
          else Between(Members(now[p]), Members(before[p]), Family(before)))
  }

  lemma CutStarts(before: Table, now: Table, nkey: string)
    requires Refined(before, now, Family(before))
    ensures nkey !in before || Decomposed(before, now) ==> CutUpTo(before, now, before.Keys, nkey)
  {
  }

  lemma CutPart(before: Table, now: Table, next: Table, todo: set<string>, part: string, nkey: string)
    requires now.Keys == before.Keys == next.Keys && part in todo
    requires CutUpTo(before, now, todo, nkey)
    requires forall p | p in before && p != part :: next[p] == now[p]
    requires part in before && Members(next[part]) == Cut(Family(before), Members(before[part]))
    ensures CutUpTo(before, next, todo - {part}, nkey)
  {
  }

  /** Rewrites every participant's list, in place, into the global blocks of its sets, and returns
      the global blocks, unless labels coincide. What is returned covers the sets of those participants
      whose labels reach the result. */
  method LcsParallel(dict: Dict, order: Order) returns (blocks: seq<PrefixSet>)
    requires IsOrder(order) && dict != map[] && Separate(dict) && dict.Keys != {}
    modifies dict.Values
    ensures NoClash(dict.Keys, order) ==> Decomposed(old(Contents(dict)), Contents(dict))
    ensures NoClash(dict.Keys, order) ==> Members(blocks) == Blocks(Family(old(Contents(dict))))
    ensures Union(Members(blocks)) == Union(FamilyOf(old(Contents(dict)), Kept(dict.Keys, order)))
    ensures Apart(blocks)
  {
    hide Apart, NoClash, Decomposed, IsOrder, Kept, Label;
    ghost var before := Contents(dict);
    assert before.Keys == dict.Keys && |before.Keys| == |dict|;
    var nkey, lcs := DecomposeParallel(dict, order, IN_PROCESS, before);
    ExactResult(nkey, lcs, before, order);
    UnionOfBlocks(FamilyOf(before, Kept(before.Keys, order)));
    blocks := CutAll(dict, nkey, lcs, before, NoClash(dict.Keys, order));
  }

  /** The second phase: cuts every list against the blocks. */
  method CutAll(dict: Dict, nkey: string, lcs: seq<PrefixSet>, ghost before: Table, ghost exact: bool)
      returns (blocks: seq<PrefixSet>)
    requires Separate(dict) && before.Keys == dict.Keys && Apart(lcs)
    requires Refined(before, Contents(dict), Family(before))
    requires exact && nkey in before ==> Decomposed(before, Contents(dict))
    requires exact ==> Members(lcs) == Blocks(Family(before))
    modifies dict.Values
    ensures exact ==> Decomposed(before, Contents(dict)) && Members(blocks) == Blocks(Family(before))
    ensures Union(Members(blocks)) == Union(Members(lcs)) && Apart(blocks)
  {
    hide Apart, Refined, Union, CutUpTo, Decomposed, Family, Blocks;
    CutStarts(before, Contents(dict), nkey);
    var list := new SetList(lcs);
    var todo := dict.Keys;
    while todo != {}
      invariant todo <= dict.Keys
      invariant exact ==> CutUpTo(before, Contents(dict), todo, nkey) && Members(list.sets) == Blocks(Family(before))
      invariant Union(Members(list.sets)) == Union(Members(lcs)) && Apart(list.sets)
      decreases todo
    {
      var part :| part in todo;
      CutOne(dict, part, nkey, list, before, exact, todo);
      todo := todo - {part};
    }
    CutEnds(before, Contents(dict), nkey);
    blocks := list.sets;
  }

  lemma CutEnds(before: Table, now: Table, nkey: string)
    requires now.Keys == before.Keys
    ensures CutUpTo(before, now, {}, nkey) ==> Decomposed(before, now)
  {
  }

  method CutOne(dict: Dict, part: string, nkey: string, lcs: SetList, ghost before: Table, ghost exact: bool,
                ghost todo: set<string>)
    requires Separate(dict) && before.Keys == dict.Keys && part in todo && todo <= dict.Keys && lcs !in dict.Values
    requires exact ==> CutUpTo(before, Contents(dict), todo, nkey) && Members(lcs.sets) == Blocks(Family(before))
    requires Apart(lcs.sets)
    modifies dict.Values, lcs
    ensures exact ==> CutUpTo(before, Contents(dict), todo - {part}, nkey)
    ensures exact ==> Members(lcs.sets) == Blocks(Family(before))
    ensures Union(Members(lcs.sets)) == old(Union(Members(lcs.sets))) && Apart(lcs.sets)
  {
    hide Apart, Cut, Union;
    ghost var now := Contents(dict);
    ghost var list, blocks := Members(now[part]), Members(lcs.sets);
    FamilyHas(before, part);
    CutList(part, dict[part], nkey, lcs);
    CutCovers((if part == nkey then {} else list) + blocks, blocks);
    if exact {
      CutMeaning(part, nkey, list, blocks, Members(before[part]), Family(before));
      CutPart(before, now, Contents(dict), todo, part, nkey);
    }
  }

  // ----- the version with processes -----

  /** What a process of the second phase sends back: the participant's blocks; all blocks where the
      participant's entry was replaced by theirs. */
  ghost function Sent(before: Table, part: string, nkey: string): set<PrefixSet>
    requires part in before
  {
    if part == nkey then Blocks(Family(before)) else Cut(Family(before), Members(before[part]))
  }

  /** The work of a process of the second phase, on copies. */
  method RecutCopy(part: string, list: seq<PrefixSet>, nkey: string, lcs: seq<PrefixSet>)
      returns (result: seq<PrefixSet>)
    ensures Members(result) ==
            if part == nkey then Blocks(Members(lcs)) else Cut(Members(list) + Members(lcs), Members(list))
  {
    var copy := new SetList(list);
    var blocks := new SetList(lcs);
    CutList(part, copy, nkey, blocks);
    assert {} + Members(lcs) == Members(lcs);
    result := if part == nkey then blocks.sets else copy.sets;
  }

  /** The state of the second phase: the first `count` participants have been collected. */
  ghost predicate Collected(before: Table, updated: Table, parts: seq<string>, count: nat, nkey: string, exact: bool)
    requires count <= |parts|
  {
    && updated.Keys == ToSet(parts[..count])
    && (exact ==> forall p | p in updated :: p in before && Members(updated[p]) == Sent(before, p, nkey))
  }

  /** The results of processes for consecutive participants, from `first` on. */
  ghost predicate Queued(before: Table, queue: seq<seq<PrefixSet>>, parts: seq<string>, first: nat,
                         nkey: string, exact: bool) {
    && first + |queue| <= |parts|
    && (exact ==> forall j | 0 <= j < |queue| ::
          parts[first + j] in before && Members(queue[j]) == Sent(before, parts[first + j], nkey))
  }

  /** Starts at most `processors` processes. */
  method StartRound(now: Table, nkey: string, lcs: seq<PrefixSet>, parts: seq<string>, first: nat, processors: nat,
                    ghost before: Table, ghost exact: bool) returns (queue: seq<seq<PrefixSet>>)
    requires before.Keys == now.Keys == ToSet(parts) && first <= |parts|
    requires Refined(before, now, Family(before)) && (exact ==> Members(lcs) == Blocks(Family(before)))
    ensures Queued(before, queue, parts, first, nkey, exact)
    ensures |queue| == if first + processors <= |parts| then processors else |parts| - first
  {
    hide Refined, Sent;
    queue := [];
    var i := 0;
    while i < processors
      invariant i == |queue| && i <= processors
      invariant Queued(before, queue, parts, first, nkey, exact)
    {
      if first + i >= |parts| {
        break;
      }
      var part := parts[first + i];
      var result := RunProcess(now, part, parts, nkey, lcs, before, exact);
      queue := queue + [result];
      i := i + 1;
    }
  }

  method RunProcess(now: Table, part: string, parts: seq<string>, nkey: string, lcs: seq<PrefixSet>,
                    ghost before: Table, ghost exact: bool) returns (result: seq<PrefixSet>)
    requires before.Keys == now.Keys == ToSet(parts) && part in parts
    requires Refined(before, now, Family(before)) && (exact ==> Members(lcs) == Blocks(Family(before)))
    ensures part in before && (exact ==> Members(result) == Sent(before, part, nkey))
  {
    hide Refined, Cut, Sent;
    assert part in ToSet(parts);
    result := RecutCopy(part, now[part], nkey, lcs);
    if exact {
      RecutMeaning(before, now, part, nkey, Members(lcs));
    }
  }

  lemma RecutMeaning(before: Table, now: Table, part: string, nkey: string, lcs: set<PrefixSet>)
    requires part in before && Refined(before, now, Family(before)) && lcs == Blocks(Family(before))
    ensures Sent(before, part, nkey) ==
            if part == nkey then Blocks(lcs) else Cut(Members(now[part]) + lcs, Members(now[part]))
  {
    hide Cut, Between;
    FamilyHas(before, part);
    CutMeaning(part, nkey, Members(now[part]), lcs, Members(before[part]), Family(before));
    assert {} + lcs == lcs;
  }

  /** Collects the results of one round. */
  method EndRound(queue: seq<seq<PrefixSet>>, parts: seq<string>, first: nat, updated: Table, ghost before: Table,
                  ghost nkey: string, ghost exact: bool) returns (next: Table)
    requires first <= |parts| && Collected(before, updated, parts, first, nkey, exact)
    requires Queued(before, queue, parts, first, nkey, exact)
    ensures Collected(before, next, parts, first + |queue|, nkey, exact)
  {
    hide Sent;
    next := updated;
    var j := 0;
    while j < |queue|
      invariant j <= |queue| && Collected(before, next, parts, first + j, nkey, exact)
    {
      var part := parts[first + j];
      assert parts[..first + j + 1] == parts[..first + j] + [part];
      next := next[part := queue[j]];
      j := j + 1;
    }
  }

  lemma OrderLists(order: Order, names: set<string>)
    requires IsOrder(order)
    ensures ToSet(order(names)) == names
  {
    assert Lists(order(names), names);
  }

  /** The version with processes returns a table of its own; the participants' own lists may not be cut
      to the blocks. It needs, beside labels that do not coincide, a final label that is no
      participant's name. */
  method LcsMultiprocess(dict: Dict, order: Order, cpuCount: nat) returns (updated: Table, blocks: seq<PrefixSet>)
    requires IsOrder(order) && dict != map[] && Separate(dict) && dict.Keys != {} && cpuCount > 0
    modifies dict.Values
    ensures updated.Keys == dict.Keys
    ensures NoClash(dict.Keys, order) ==>
              forall p | p in dict :: Members(updated[p]) == Sent(old(Contents(dict)), p, Label(dict.Keys, order))
    ensures Members(blocks) == Blocks(FamilyOf(old(Contents(dict)), Kept(dict.Keys, order))) && Apart(blocks)
    ensures Refined(old(Contents(dict)), Contents(dict), Family(old(Contents(dict))))
  {
    hide Apart, NoClash, Refined, IsOrder, Kept, Label, Sent;
    ghost var before := Contents(dict);
    assert before.Keys == dict.Keys && |before.Keys| == |dict|;
    var processors := if cpuCount == 1 then 8 else cpuCount;
    var nkey, lcs := DecomposeParallel(dict, order, Pool(processors, 1), before);
    ExactResult(nkey, lcs, before, order);
    var parts := order(dict.Keys);
    OrderLists(order, dict.Keys);
    var now := map p | p in dict :: dict[p].sets;
    assert now == Contents(dict);
    updated := CollectAll(now, nkey, lcs, parts, processors, before, NoClash(dict.Keys, order));
    blocks := lcs;
  }

  method CollectAll(now: Table, nkey: string, lcs: seq<PrefixSet>, parts: seq<string>, processors: nat,
                    ghost before: Table, ghost exact: bool) returns (updated: Table)
    requires before.Keys == now.Keys == ToSet(parts) && processors > 0
    requires Refined(before, now, Family(before)) && (exact ==> Members(lcs) == Blocks(Family(before)))
    ensures updated.Keys == before.Keys
    ensures exact ==> forall p | p in before :: Members(updated[p]) == Sent(before, p, nkey)
  {
    hide Refined, Sent;
    updated := map[];
    var first := 0;
    // as many rounds as it takes: ceil(|parts| / processors)
    while first < |parts|
      invariant first <= |parts|
      invariant Collected(before, updated, parts, first, nkey, exact)
    {
      var queue := StartRound(now, nkey, lcs, parts, first, processors, before, exact);
      updated := EndRound(queue, parts, first, updated, before, nkey, exact);
      first := first + |queue|;
    }
    assert parts[..|parts|] == parts;
  }

  /** Without a clash the processes send back exactly the blocks of every participant's sets, for whatever
      sets they are, unless there are two participants of which one has the empty name: then the other
      one is sent all blocks. */
  lemma SentExactIff(names: set<string>, order: Order)
    requires IsOrder(order) && names != {} && NoClash(names, order)
    ensures (forall table: Table, p | table.Keys == names && p in names ::
               Sent(table, p, Label(names, order)) == Cut(Family(table), Members(table[p])))
            <==> !(|names| == 2 && "" in names)
  {
    var nkey := Label(names, order);
    LabelIsNameIff(names, order);
    if |names| == 2 && "" in names {
      var table := SentAll(names, nkey);
    } else {
      forall table: Table, p | table.Keys == names && p in names
        ensures Sent(table, p, nkey) == Cut(Family(table), Members(table[p]))
      {
        if p == nkey {
          assert |names| == 1;
          OnlyName(table, names, p);
        }
      }
    }
  }

  lemma OnlyName(table: Table, names: set<string>, p: string)
    requires table.Keys == names && |names| == 1 && p in names
    ensures Family(table) == Members(table[p])
  {
    assert |names - {p}| == 0;
    assert names == {p} + (names - {p}) == {p};
  }

  /** A participant with the name of the label and no sets is sent those of another one. */
  lemma SentAll(names: set<string>, nkey: string) returns (table: Table)
    requires nkey in names && |names| > 1
    ensures table.Keys == names && Sent(table, nkey, nkey) != Cut(Family(table), Members(table[nkey]))
  {
    hide Blocks, Cut, Union;
    assert |names - {nkey}| > 0;
    var other :| other in names - {nkey};
    var none: seq<PrefixSet>, only: PrefixSet := [], {"10.0.0.0/8"};
    table := map p | p in names :: if p == other then [only] else none;
    assert Members(table[nkey]) == {};
    assert only in table[other] && only in Family(table);
    BlocksOfSome(Family(table), only, "10.0.0.0/8");
  }

  lemma BlocksOfSome(family: set<PrefixSet>, s: PrefixSet, x: Prefix)
    requires s in family && x in s
    ensures Blocks(family) != Cut(family, {})
  {
    assert x in Union(family);
    UnionOfBlocks(family);
    assert Union(Cut(family, {})) == {};
  }
}
