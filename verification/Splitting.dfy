/** Splitting the lists of prefix sets on one key after another: what one step does to a list,
    and what a run of steps has achieved. */
module Splitting {
  import opened Partition

  // ----- one list, one key -----

  function Containing(list: seq<PrefixSet>, key: Prefix): seq<PrefixSet> {
    if list == [] then []
    else (if key in list[0] then [list[0]] else []) + Containing(list[1..], key)
  }

  function Lacking(list: seq<PrefixSet>, key: Prefix): seq<PrefixSet> {
    if list == [] then []
    else (if key in list[0] then [] else [list[0]]) + Lacking(list[1..], key)
  }

  /** Python's `list.remove`: drops the first equal element. */
  function RemoveFirst(list: seq<PrefixSet>, elem: PrefixSet): seq<PrefixSet>
    requires elem in list
  {
    if list[0] == elem then list[1..] else [list[0]] + RemoveFirst(list[1..], elem)
  }

  function Remainders(list: seq<PrefixSet>, min: PrefixSet): seq<PrefixSet> {
    if list == [] then []
    else Remainders(list[..|list| - 1], min)
         + (if list[|list| - 1] - min == {} then [] else [list[|list| - 1] - min])
  }

  function Intersection(list: seq<PrefixSet>): PrefixSet
    requires list != []
  {
    if |list| == 1 then list[0] else list[0] * Intersection(list[1..])
  }

  lemma {:induction false} ContainingMembers(list: seq<PrefixSet>, key: Prefix)
    ensures Members(Containing(list, key)) == set s | s in list && key in s
    ensures Members(Lacking(list, key)) == set s | s in list && key !in s
  {
    if list != [] {
      ContainingMembers(list[1..], key);
      assert list == [list[0]] + list[1..];
      assert forall s :: s in Containing(list[1..], key) <==> s in Members(Containing(list[1..], key));
      assert forall s :: s in Lacking(list[1..], key) <==> s in Members(Lacking(list[1..], key));
    }
  }

  lemma {:induction false} RemainderMembers(list: seq<PrefixSet>, min: PrefixSet)
    ensures Members(Remainders(list, min)) == set s | s in list && s - min != {} :: s - min
  {
    if list != [] {
      var init, last := list[..|list| - 1], list[|list| - 1];
      RemainderMembers(init, min);
      assert list == init + [last];
      assert forall s :: s in Remainders(init, min) <==> s in Members(Remainders(init, min));
    }
  }

  lemma {:induction false} IntersectionMembers(list: seq<PrefixSet>, x: Prefix)
    requires list != []
    ensures x in Intersection(list) <==> forall s | s in list :: x in s
  {
    if |list| > 1 {
      IntersectionMembers(list[1..], x);
      assert list == [list[0]] + list[1..];
    }
  }

  lemma FirstHasKey(list: seq<PrefixSet>, key: Prefix)
    requires Containing(list, key) != []
    ensures key in Containing(list, key)[0]
  {
    ContainingMembers(list, key);
    assert Containing(list, key)[0] in Members(Containing(list, key));
  }

  /** Removing the first set with the key touches neither the sets without it nor the tail. */
  lemma {:induction false} RemoveOne(list: seq<PrefixSet>, tail: seq<PrefixSet>, key: Prefix)
      returns (rest: seq<PrefixSet>)
    requires Containing(list, key) != []
    ensures Containing(list, key)[0] in list + tail
    ensures RemoveFirst(list + tail, Containing(list, key)[0]) == rest + tail
    ensures Containing(rest, key) == Containing(list, key)[1..]
    ensures Lacking(rest, key) == Lacking(list, key)
  {
    assert list + tail == [list[0]] + (list[1..] + tail);
    if key in list[0] {
      rest := list[1..];
      assert Containing(list, key) == [list[0]] + Containing(list[1..], key);
    } else {
      assert Containing(list, key) == Containing(list[1..], key);
      var r := RemoveOne(list[1..], tail, key);
      rest := [list[0]] + r;
      FirstHasKey(list, key);
      assert rest[1..] == r;
      assert [list[0]] + (r + tail) == rest + tail;
    }
  }

  lemma {:induction false} NothingContaining(list: seq<PrefixSet>, key: Prefix)
    requires Containing(list, key) == []
    ensures Lacking(list, key) == list
  {
    if list != [] {
      NothingContaining(list[1..], key);
    }
  }

  // ----- one key, all participants -----

  /** What all sets of the family that hold `key` have in common. */
  ghost function Common(family: set<PrefixSet>, key: Prefix): PrefixSet {
    set x | x in Union(family) && forall s | s in family && key in s :: x in s
  }

  ghost function SplitSets(sets: set<PrefixSet>, key: Prefix, min: PrefixSet): set<PrefixSet> {
    if exists s :: s in sets && key in s then
      (set s | s in sets && key !in s) + {min}
      + (set s | s in sets && key in s && s - min != {} :: s - min)
    else sets
  }

  /** `next` is `cur` with every set that holds `key` split along their common part. */
  ghost predicate Split(cur: Table, next: Table, key: Prefix) {
    && next.Keys == cur.Keys
    && forall p | p in cur ::
         Members(next[p]) == SplitSets(Members(cur[p]), key, Common(Family(cur), key))
  }

  /** How far the decomposition of `before` has come once the keys `done` were visited. */
  ghost predicate Progress(before: Table, cur: Table, done: set<Prefix>) {
    && cur.Keys == before.Keys
    && AllBetween(before, cur)
    && AllCovered(before, cur)
    && Settled(Family(cur), done)
  }

  ghost predicate AllBetween(before: Table, cur: Table)
    requires cur.Keys == before.Keys
  {
    forall p | p in before :: Between(Members(cur[p]), Members(before[p]), Family(before))
  }

  ghost predicate AllCovered(before: Table, cur: Table)
    requires cur.Keys == before.Keys
  {
    forall p, s, x | p in before && s in before[p] && x in s :: Covered(cur[p], s, x)
  }

  /** All sets that hold one of the keys `done` are equal. */
  ghost predicate Settled(family: set<PrefixSet>, done: set<Prefix>) {
    forall x, b, c | x in done && b in family && c in family && x in b && x in c :: b == c
  }

  ghost predicate Covered(list: seq<PrefixSet>, s: PrefixSet, x: Prefix) {
    exists c :: c in list && x in c && c <= s
  }

  /** Every key that has not been listed occurs in singletons only. */
  ghost predicate Unlisted(table: Table, keys: set<Prefix>) {
    forall s, x | s in Family(table) && x in s && x !in keys :: s == {x}
  }

  lemma SplitHasCommon(cur: set<PrefixSet>, sets: set<PrefixSet>, key: Prefix)
    requires sets <= cur
    ensures Union(SplitSets(sets, key, Common(cur, key))) == Union(sets)
    ensures {} in SplitSets(sets, key, Common(cur, key)) <==> {} in sets
  {
    var min := Common(cur, key);
    var split := SplitSets(sets, key, min);
    if u :| u in sets && key in u {
      assert key in min;
      assert min <= u;
      forall x | x in Union(sets)
        ensures x in Union(split)
      {
        var s :| s in sets && x in s;
        if key !in s {
          assert s in split;
        } else if x in min {
          assert min in split;
        } else {
          assert x in s - min;
          assert s - min in split;
        }
      }
      forall x | x in Union(split)
        ensures x in Union(sets)
      {
        var c :| c in split && x in c;
      }
    }
  }

  lemma SplitCovers(cur: set<PrefixSet>, sets: set<PrefixSet>, key: Prefix, c: PrefixSet, x: Prefix)
    requires sets <= cur && c in sets && x in c
    ensures exists d :: d in SplitSets(sets, key, Common(cur, key)) && x in d && d <= c
  {
    var min := Common(cur, key);
    var split := SplitSets(sets, key, min);
    if key !in c {
      assert c in split;
    } else if x in min {
      assert min in split && min <= c;
    } else {
      assert x in c - min;
      assert c - min in split;
    }
  }

  lemma SplitRespects(before: set<PrefixSet>, cur: set<PrefixSet>, sets: set<PrefixSet>, key: Prefix)
    requires sets <= cur && Respects(cur, before)
    ensures Respects(SplitSets(sets, key, Common(cur, key)), before)
  {
  }

  /** After a split, sets that hold the key are equal, and so are sets that share a prefix on
      which all sets agreed before. */
  lemma SplitEqualises(cur: set<PrefixSet>, key: Prefix, x: Prefix, b: PrefixSet, c: PrefixSet)
    requires x == key || forall s, t | s in cur && t in cur && x in s && x in t :: s == t
    requires b in SplitSets(cur, key, Common(cur, key)) && c in SplitSets(cur, key, Common(cur, key))
    requires x in b && x in c
    ensures b == c
  {
  }

  lemma FamilyOfSplit(cur: Table, next: Table, key: Prefix, b: PrefixSet)
    requires Split(cur, next, key) && b in Family(next)
    ensures b in SplitSets(Family(cur), key, Common(Family(cur), key))
  {
    var p :| p in next && b in next[p];
    assert b in Members(next[p]);
    FamilyHas(cur, p);
  }

  lemma FamilyRespects(before: Table, cur: Table, done: set<Prefix>)
    requires Progress(before, cur, done)
    ensures Respects(Family(cur), Family(before))
  {
  }

  lemma SplitKeepsBetween(before: Table, cur: Table, next: Table, done: set<Prefix>, key: Prefix)
    requires Progress(before, cur, done) && Split(cur, next, key)
    ensures AllBetween(before, next)
  {
    FamilyRespects(before, cur, done);
    forall p | p in before
      ensures Between(Members(next[p]), Members(before[p]), Family(before))
    {
      FamilyHas(cur, p);
      assert Between(Members(cur[p]), Members(before[p]), Family(before));
      SplitHasCommon(Family(cur), Members(cur[p]), key);
      SplitRespects(Family(before), Family(cur), Members(cur[p]), key);
    }
  }

  lemma SplitKeepsCovered(before: Table, cur: Table, next: Table, key: Prefix)
    requires cur.Keys == before.Keys && AllCovered(before, cur) && Split(cur, next, key)
    ensures AllCovered(before, next)
  {
    forall p, s, x | p in before && s in before[p] && x in s
      ensures Covered(next[p], s, x)
    {
      assert Covered(cur[p], s, x);
      var c :| c in cur[p] && x in c && c <= s;
      FamilyHas(cur, p);
      SplitCovers(Family(cur), Members(cur[p]), key, c, x);
      var e :| e in SplitSets(Members(cur[p]), key, Common(Family(cur), key)) && x in e && e <= c;
      assert e in Members(next[p]);
    }
  }

  lemma SplitSettles(cur: Table, next: Table, done: set<Prefix>, key: Prefix)
    requires Settled(Family(cur), done) && Split(cur, next, key)
    ensures Settled(Family(next), done + {key})
  {
    forall x, b, c | x in done + {key} && b in Family(next) && c in Family(next) && x in b && x in c
      ensures b == c
    {
      FamilyOfSplit(cur, next, key, b);
      FamilyOfSplit(cur, next, key, c);
      SplitEqualises(Family(cur), key, x, b, c);
    }
  }

  lemma SplitAdvances(before: Table, cur: Table, next: Table, done: set<Prefix>, key: Prefix)
    requires Progress(before, cur, done) && Split(cur, next, key)
    ensures Progress(before, next, done + {key})
  {
    SplitKeepsBetween(before, cur, next, done, key);
    SplitKeepsCovered(before, cur, next, key);
    SplitSettles(cur, next, done, key);
  }

  lemma SplitKeepsUnlisted(cur: Table, next: Table, keys: set<Prefix>, key: Prefix)
    requires Unlisted(cur, keys) && Split(cur, next, key) && key in keys
    ensures Unlisted(next, keys)
  {
    forall s, x | s in Family(next) && x in s && x !in keys
      ensures s == {x}
    {
      FamilyOfSplit(cur, next, key, s);
      var sets := Family(cur);
      if !(s in sets && key !in s) {
        var u :| u in sets && key in u && x in u;
        assert false;
      }
    }
  }

  /** Once every listed key has been visited the table is fully decomposed. */
  lemma ProgressComplete(before: Table, cur: Table, keys: set<Prefix>)
    requires Progress(before, cur, keys) && Unlisted(cur, keys)
    ensures Decomposed(before, cur)
  {
    var family := Family(before);
    forall p, c, x | p in before && c in cur[p] && x in c
      ensures c == Block(family, x)
    {
      CompleteSetIsBlock(before, cur, keys, p, c, x);
    }
    forall p | p in before
      ensures Members(cur[p]) == Cut(family, Members(before[p]))
    {
      var part := Members(before[p]);
      assert Between(Members(cur[p]), part, family);
      forall c | c in Members(cur[p])
        ensures c in Cut(family, part)
      {
        if c != {} {
          var x :| x in c;
          assert x in Union(Members(cur[p]));
          assert c == Block(family, x);
        }
      }
      forall b | b in Cut(family, part)
        ensures b in Members(cur[p])
      {
        if x :| x in Union(part) && b == Block(family, x) {
          assert x in Union(Members(cur[p]));
          var c :| c in cur[p] && x in c;
        }
      }
    }
  }

  lemma CompleteSetIsBlock(before: Table, cur: Table, keys: set<Prefix>, p: string, c: PrefixSet, x: Prefix)
    requires Progress(before, cur, keys) && Unlisted(cur, keys)
    requires p in before && c in cur[p] && x in c
    ensures c == Block(Family(before), x)
  {
    var family := Family(before);
    FamilyHas(before, p);
    assert Between(Members(cur[p]), Members(before[p]), family);
    assert c in Members(cur[p]);
    forall y | y in c
      ensures y in Block(family, x)
    {
      assert y in Union(Members(cur[p]));
      UnseparatedInside(before, cur, keys, c, x, y);
    }
  }

  lemma UnseparatedInside(before: Table, cur: Table, keys: set<Prefix>, c: PrefixSet, x: Prefix, y: Prefix)
    requires Progress(before, cur, keys) && Unlisted(cur, keys)
    requires c in Family(cur) && x in c && y in c
    ensures Together(Family(before), x, y)
  {
  }

  lemma ProgressStarts(before: Table)
    ensures Progress(before, before, {})
  {
  }

  // ----- lists of disjoint sets -----

  /** The sets of the list are different and disjoint. */
  ghost predicate Apart(list: seq<PrefixSet>) {
    forall i, j | 0 <= i < j < |list| :: list[i] != list[j] && list[i] !! list[j]
  }

  /** Lists of disjoint sets are lists of disjoint sets still. */
  ghost predicate KeepsApart(before: Table, now: Table) {
    forall p | p in before && p in now && Apart(before[p]) :: Apart(now[p])
  }

  lemma ApartConcat(a: seq<PrefixSet>, b: seq<PrefixSet>)
    requires Apart(a) && Apart(b) && forall s, t | s in a && t in b :: s != t && s !! t
    ensures Apart(a + b)
  {
    forall i, j | 0 <= i < j < |a + b|
      ensures (a + b)[i] != (a + b)[j] && (a + b)[i] !! (a + b)[j]
    {
      assert (a + b)[j] in if j < |a| then a else b;
      assert (a + b)[i] in if i < |a| then a else b;
    }
  }

  lemma OnlySet(list: seq<PrefixSet>, key: Prefix) returns (whole: PrefixSet)
    requires Apart(list) && Containing(list, key) != []
    ensures Containing(list, key) == [whole] && whole in list && key in whole
    ensures forall s | s in Lacking(list, key) :: s in list && key !in s && s !! whole
  {
    ApartSplits(list, key);
    ContainingMembers(list, key);
    whole := Containing(list, key)[0];
    assert whole in Members(Containing(list, key));
    forall s | s in Lacking(list, key)
      ensures s in list && key !in s && s !! whole
    {
      assert s in Members(Lacking(list, key));
    }
  }

  lemma RemaindersOfOne(whole: PrefixSet, min: PrefixSet)
    ensures Remainders([whole], min) == if whole - min == {} then [] else [whole - min]
  {
  }

  lemma EmptyOrSome(list: seq<PrefixSet>)
    ensures list == [] || exists s :: s in list
  {
    if list != [] {
      assert list[0] in list;
    }
  }

  lemma {:induction false} ApartSplits(list: seq<PrefixSet>, key: Prefix)
    requires Apart(list)
    ensures Apart(Lacking(list, key)) && |Containing(list, key)| <= 1
    ensures forall s, t | s in Lacking(list, key) && t in Containing(list, key) :: s != t && s !! t
  {
    if list != [] {
      var head, rest := list[0], list[1..];
      ApartSplits(rest, key);
      ContainingMembers(rest, key);
      forall s | s in rest
        ensures head != s && head !! s
      {
        var i :| 0 <= i < |rest| && rest[i] == s;
        assert list[i + 1] == s;
      }
      forall s | s in Containing(rest, key)
        ensures head != s && head !! s && key in s
      {
        assert s in Members(Containing(rest, key));
      }
      forall s | s in Lacking(rest, key)
        ensures head != s && head !! s
      {
        assert s in Members(Lacking(rest, key));
      }
      if key in head {
        EmptyOrSome(Containing(rest, key));
      } else {
        ApartConcat([head], Lacking(rest, key));
      }
    }
  }

  /** Splitting a list of disjoint sets on a key splits one of them in two at most. */
  lemma SplitApart(list: seq<PrefixSet>, key: Prefix, min: PrefixSet)
    requires Apart(list) && Containing(list, key) != [] && key in min
    requires forall s | s in list && key in s :: min <= s
    ensures Apart(Lacking(list, key) + ([min] + Remainders(Containing(list, key), min)))
  {
    ApartSplits(list, key);
    var whole := OnlySet(list, key);
    RemaindersOfOne(whole, min);
    var pieces := [min] + Remainders([whole], min);
    assert Apart(pieces);
    assert forall t | t in pieces :: t <= whole && t != {};
    ApartConcat(Lacking(list, key), pieces);
  }

  lemma DistinctBlocksApart(family: set<PrefixSet>, lcs: seq<PrefixSet>)
    requires Members(lcs) == Blocks(family)
    requires forall i, j | 0 <= i < j < |lcs| :: lcs[i] != lcs[j]
    ensures Apart(lcs)
  {
    forall i, j | 0 <= i < j < |lcs|
      ensures lcs[i] !! lcs[j]
    {
      assert lcs[i] in Members(lcs) && lcs[j] in Members(lcs);
      BlocksAreDisjoint(family, lcs[i], lcs[j]);
    }
  }
}
