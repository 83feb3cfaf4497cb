/** The coarsest partition from which every set of a family can be rebuilt: its blocks. */
module Partition {

  type Prefix = string
  type PrefixSet = set<Prefix>
  type Table = map<string, seq<PrefixSet>>

  /** The distinct sets in a list. */
  function Members(list: seq<PrefixSet>): set<PrefixSet> {
    set s | s in list
  }

  /** The distinct sets listed by any participant. */
  ghost function Family(table: Table): set<PrefixSet> {
    set p, s | p in table && s in table[p] :: s
  }

  ghost function Union(family: set<PrefixSet>): PrefixSet {
    set s, x | s in family && x in s :: x
  }

  ghost predicate Together(family: set<PrefixSet>, x: Prefix, y: Prefix) {
    forall s | s in family :: x in s <==> y in s
  }

  ghost function Block(family: set<PrefixSet>, x: Prefix): PrefixSet {
    set y | y in Union(family) && Together(family, x, y)
  }

  /** The blocks of `family` that make up the sets of `part`; an empty set stays what it is. */
  ghost function Cut(family: set<PrefixSet>, part: set<PrefixSet>): set<PrefixSet> {
    (set x | x in Union(part) :: Block(family, x)) + (if {} in part then {{}} else {})
  }

  ghost function Blocks(family: set<PrefixSet>): set<PrefixSet> {
    Cut(family, family)
  }

  /** No set of `part` separates two prefixes that `family` keeps together. */
  ghost predicate Respects(part: set<PrefixSet>, family: set<PrefixSet>) {
    forall s, x, y | s in part && Together(family, x, y) :: x in s <==> y in s
  }

  /** `fine` covers what `coarse` covers and is no finer than the blocks of `family`. */
  ghost predicate Between(fine: set<PrefixSet>, coarse: set<PrefixSet>, family: set<PrefixSet>) {
    && Union(fine) == Union(coarse)
    && ({} in fine <==> {} in coarse)
    && Respects(fine, family)
  }

  /** What a finished decomposition of `before` looks like. */
  ghost predicate Decomposed(before: Table, after: Table) {
    && after.Keys == before.Keys
    && forall p | p in before :: Members(after[p]) == Cut(Family(before), Members(before[p]))
  }

  lemma FamilyHas(table: Table, p: string)
    requires p in table
    ensures Members(table[p]) <= Family(table)
    ensures Union(Members(table[p])) <= Union(Family(table))
  {
  }

  lemma BlockOfMember(family: set<PrefixSet>, x: Prefix, y: Prefix)
    requires x in Union(family) && y in Union(family)
    ensures y in Block(family, x) <==> Together(family, x, y)
    ensures Together(family, x, y) ==> Block(family, x) == Block(family, y)
  {
  }

  /** Two prefixes share a block exactly when no set of the family separates them. */
  lemma SameBlockIffUnseparated(family: set<PrefixSet>, x: Prefix, y: Prefix)
    requires x in Union(family) && y in Union(family)
    ensures (exists b :: b in Blocks(family) && x in b && y in b)
       <==> forall s | s in family :: x in s <==> y in s
  {
    if Together(family, x, y) {
      assert Block(family, x) in Blocks(family);
    }
  }

  /** Any two blocks are equal or disjoint. */
  lemma BlocksAreDisjoint(family: set<PrefixSet>, b: PrefixSet, c: PrefixSet)
    requires b in Blocks(family) && c in Blocks(family)
    ensures b == c || b !! c
  {
    if x :| x in b && x in c {
      var u :| u in Union(family) && b == Block(family, u);
      var v :| v in Union(family) && c == Block(family, v);
      BlockOfMember(family, u, x);
      BlockOfMember(family, v, x);
    }
  }

  /** Every set is the union of the blocks that its own list was cut into. */
  lemma SetIsUnionOfItsBlocks(family: set<PrefixSet>, part: set<PrefixSet>, s: PrefixSet)
    requires part <= family && s in part
    ensures s == Union(set b | b in Cut(family, part) && b <= s)
  {
    var inside := set b | b in Cut(family, part) && b <= s;
    forall x | x in s
      ensures x in Union(inside)
    {
      assert x in Union(part) && x in Union(family);
      assert x in Block(family, x) && Block(family, x) in inside;
    }
  }

  lemma TogetherInBlocks(family: set<PrefixSet>, x: Prefix, y: Prefix)
    ensures Together(Blocks(family), x, y) <==> Together(family, x, y)
  {
    if Together(Blocks(family), x, y) {
      forall s | s in family
        ensures x in s <==> y in s
      {
        if x in s { assert Block(family, x) in Blocks(family); }
        if y in s { assert Block(family, y) in Blocks(family); }
      }
    }
    if Together(family, x, y) {
      forall b | b in Blocks(family)
        ensures x in b <==> y in b
      {
        assert x in Union(family) <==> y in Union(family);
      }
    }
  }

  lemma UnionOfBlocks(family: set<PrefixSet>)
    ensures Union(Blocks(family)) == Union(family)
    ensures {} in Blocks(family) <==> {} in family
  {
    forall x | x in Union(family)
      ensures x in Block(family, x) && Block(family, x) in Blocks(family)
    {
      assert Together(family, x, x);
    }
  }

  /** Equal unions, equal separation, equal empties: equal cuts. */
  lemma CutsAgree(f: set<PrefixSet>, g: set<PrefixSet>, p: set<PrefixSet>, q: set<PrefixSet>)
    requires Union(f) == Union(g) && Union(p) == Union(q) && Union(p) <= Union(f)
    requires {} in p <==> {} in q
    requires forall x, y | x in Union(f) && y in Union(f) :: Together(f, x, y) <==> Together(g, x, y)
    ensures Cut(f, p) == Cut(g, q)
  {
    forall x | x in Union(p)
      ensures Block(f, x) == Block(g, x)
    {
    }
  }

  /** Merging the blocks of two families gives the blocks of the joined family. */
  lemma BlocksOfMerge(f: set<PrefixSet>, g: set<PrefixSet>)
    ensures Blocks(Blocks(f) + Blocks(g)) == Blocks(f + g)
  {
    var merged := Blocks(f) + Blocks(g);
    UnionOfBlocks(f);
    UnionOfBlocks(g);
    assert Union(merged) == Union(Blocks(f)) + Union(Blocks(g));
    assert Union(f + g) == Union(f) + Union(g);
    forall x, y
      ensures Together(merged, x, y) <==> Together(f + g, x, y)
    {
      TogetherInBlocks(f, x, y);
      TogetherInBlocks(g, x, y);
      assert Together(merged, x, y) <==> Together(Blocks(f), x, y) && Together(Blocks(g), x, y);
      assert Together(f + g, x, y) <==> Together(f, x, y) && Together(g, x, y);
    }
    CutsAgree(merged, f + g, merged, f + g);
  }

  /** Cutting a list that is already no finer than the blocks against those blocks. */
  lemma CutAgainstBlocks(family: set<PrefixSet>, fine: set<PrefixSet>, coarse: set<PrefixSet>)
    requires coarse <= family && Between(fine, coarse, family)
    ensures Cut(fine + Blocks(family), fine) == Cut(family, coarse)
    ensures Cut(fine + Blocks(family), Blocks(family)) == Blocks(family)
  {
    var joined := fine + Blocks(family);
    UnionOfBlocks(family);
    assert Union(joined) == Union(fine) + Union(Blocks(family));
    assert Union(coarse) <= Union(family);
    forall x, y
      ensures Together(joined, x, y) <==> Together(family, x, y)
    {
      TogetherInBlocks(family, x, y);
      assert Together(joined, x, y) <==> Together(fine, x, y) && Together(Blocks(family), x, y);
    }
    CutsAgree(joined, family, fine, coarse);
    CutsAgree(joined, family, Blocks(family), family);
  }

  /** The blocks of a smaller family are unions of blocks of a larger one. */
  lemma CutIsBetween(small: set<PrefixSet>, large: set<PrefixSet>, part: set<PrefixSet>)
    requires part <= small <= large
    ensures Between(Cut(small, part), part, large)
  {
    assert Union(part) <= Union(small);
    forall x | x in Union(part)
      ensures x in Block(small, x) && Block(small, x) in Cut(small, part)
    {
      assert Together(small, x, x);
    }
    forall x | x in Union(Cut(small, part))
      ensures x in Union(part)
    {
      var u :| u in Union(part) && x in Block(small, u);
      var s :| s in part && u in s;
      assert x in s;
    }
    forall b, x, y | b in Cut(small, part) && Together(large, x, y)
      ensures x in b <==> y in b
    {
      assert Together(small, x, y);
    }
  }

  /** Every participant keeps covering the same prefixes, and all participants together list
      exactly the blocks. */
  lemma DecomposedFamily(before: Table, after: Table)
    requires Decomposed(before, after)
    ensures Family(after) == Blocks(Family(before))
    ensures forall p | p in before :: Union(Members(after[p])) == Union(Members(before[p]))
  {
    var family := Family(before);
    forall b | b in Blocks(family)
      ensures b in Family(after)
    {
      if b == {} && {} in family {
        var p :| p in before && {} in before[p];
        assert {} in Members(before[p]);
        assert {} in Members(after[p]);
      } else {
        var x :| x in Union(family) && b == Block(family, x);
        var p, s :| p in before && s in before[p] && x in s;
        assert s in Members(before[p]);
        assert b in Members(after[p]);
      }
    }
    forall b | b in Family(after)
      ensures b in Blocks(family)
    {
      var p :| p in after && b in after[p];
      assert b in Members(after[p]);
      FamilyHas(before, p);
    }
    forall p | p in before
      ensures Union(Members(after[p])) == Union(Members(before[p]))
    {
      FamilyHas(before, p);
      CutIsBetween(family, family, Members(before[p]));
    }
  }
}
