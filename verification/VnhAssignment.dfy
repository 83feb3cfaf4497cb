/** Virtual next hops: one tag for each block, and the rewriting of prefix filters into tag filters. */
module VnhAssignment {
  import opened Partition
  import opened Pyretic
  import opened Splitting
  import opened SetOperations
  import opened Labels
  import opened Lcs

  /** The virtual next hops of one participant: block number to block. */
  type Hops = map<nat, PrefixSet>

  /** What `return_vnhop` answers for a prefix in none of the sets. */
  const UNKNOWN_HOP: nat := 0xA1A1A1A1A1A1

  /** The block with a given number; numbers start at 1. */
  function BlockAt(lcs: seq<PrefixSet>, k: nat): PrefixSet
    requires 1 <= k <= |lcs|
  {
    lcs[k - 1]
  }

  /** The blocks among `lcs[..n]` that a participant lists, under their numbers. */
  function Entries(list: seq<PrefixSet>, lcs: seq<PrefixSet>, n: nat): Hops
    requires n <= |lcs|
  {
    map k: nat | 1 <= k <= n && BlockAt(lcs, k) in list :: BlockAt(lcs, k)
  }

  /** The blocks under their numbers. */
  function Numbered(lcs: seq<PrefixSet>, n: nat): map<nat, PrefixSet>
    requires n <= |lcs|
  {
    map k: nat | 1 <= k <= n :: BlockAt(lcs, k)
  }

  /** What the first `n` blocks add to the tags of a participant. */
  function Gained(updated: Table, lcs: seq<PrefixSet>, n: nat, part: string): Hops
    requires n <= |lcs|
  {
    if part in updated then Entries(updated[part], lcs, n) else map[]
  }

  /** `now` is `before` with the first `n` blocks entered for every participant that lists them. */
  ghost predicate Registered(before: map<string, Hops>, now: map<string, Hops>, updated: Table, lcs: seq<PrefixSet>,
                             n: nat)
    requires n <= |lcs|
  {
    forall p :: HopsOf(now, p) == HopsOf(before, p) + Gained(updated, lcs, n, p)
  }

  /** `now` is `before` with one block entered for the participants that list it, `todo` excepted. */
  ghost predicate Entered(before: map<string, Hops>, now: map<string, Hops>, updated: Table, todo: set<string>,
                          pset: PrefixSet, count: nat) {
    forall p :: HopsOf(now, p) ==
      (if p in updated && p !in todo && pset in updated[p] then HopsOf(before, p) + map[count := pset]
       else HopsOf(before, p))
  }

  lemma RegisterNext(before: map<string, Hops>, previous: map<string, Hops>, now: map<string, Hops>,
                     updated: Table, lcs: seq<PrefixSet>, count: nat)
    requires 1 <= count <= |lcs|
    requires Registered(before, previous, updated, lcs, count - 1)
    requires Entered(previous, now, updated, {}, lcs[count - 1], count)
    ensures Registered(before, now, updated, lcs, count)
  {
    forall p
      ensures HopsOf(now, p) == HopsOf(before, p) + Gained(updated, lcs, count, p)
    {
      GainedNext(updated, lcs, count, p);
      if p in updated && lcs[count - 1] in updated[p] {
        Regroup(HopsOf(before, p), Gained(updated, lcs, count - 1, p), map[count := lcs[count - 1]]);
      }
    }
  }

  lemma Regroup(a: Hops, b: Hops, c: Hops)
    ensures a + b + c == a + (b + c)
  {
  }

  lemma GainedNext(updated: Table, lcs: seq<PrefixSet>, count: nat, p: string)
    requires 1 <= count <= |lcs|
    ensures Gained(updated, lcs, count, p) ==
            if p in updated && lcs[count - 1] in updated[p]
            then Gained(updated, lcs, count - 1, p) + map[count := lcs[count - 1]]
            else Gained(updated, lcs, count - 1, p)
  {
  }

  lemma NumberedNext(tables: map<nat, PrefixSet>, lcs: seq<PrefixSet>, count: nat)
    requires 1 <= count <= |lcs|
    ensures (tables + Numbered(lcs, count - 1))[count := lcs[count - 1]] == tables + Numbered(lcs, count)
  {
  }

  lemma NothingRegistered(tables: map<string, Hops>, pfxes: map<nat, PrefixSet>, updated: Table, lcs: seq<PrefixSet>)
    ensures Registered(tables, tables, updated, lcs, 0) && pfxes + Numbered(lcs, 0) == pfxes
  {
    forall p
      ensures Gained(updated, lcs, 0, p) == map[]
    {
    }
  }

  function HopsOf(part2vnh: map<string, Hops>, part: string): Hops {
    if part in part2vnh then part2vnh[part] else map[]
  }

  /** The exchange's tables. The name 'VNH' + str(k) is the number k here; `pool` and `baseMac` are
      the entries under the bare name. */
  class Sdx {
    const pool: seq<string>
    const baseMac: nat
    var vnh2ip: map<nat, string>
    var vnh2mac: map<nat, nat>
    var vnh2pfx: map<nat, PrefixSet>
    var part2vnh: map<string, Hops>

    /** Every name in use has the pool's address and the MAC of its number. */
    ghost predicate Valid()
      reads this`vnh2ip, this`vnh2mac
    {
      && vnh2mac.Keys == vnh2ip.Keys
      && forall k | k in vnh2ip :: 1 <= k < |pool| && vnh2ip[k] == pool[k] && vnh2mac[k] == baseMac + k
    }

    ghost predicate NamedUpTo(n: nat)
      reads this`vnh2mac
    {
      forall k: nat | 1 <= k <= n :: k in vnh2mac
    }

    lemma NamesHaveMacs(n: nat)
      requires Valid() && NamedUpTo(n)
      ensures forall k: nat | 1 <= k <= n :: k in vnh2mac && vnh2mac[k] == baseMac + k
    {
    }

    constructor (pool: seq<string>, baseMac: nat)
      ensures Valid() && this.pool == pool && this.baseMac == baseMac
      ensures vnh2ip == map[] && vnh2mac == map[] && vnh2pfx == map[] && part2vnh == map[]
    {
      this.pool := pool;
      this.baseMac := baseMac;
      vnh2ip, vnh2mac, vnh2pfx, part2vnh := map[], map[], map[], map[];
    }

    /** Gives every block the next number; fails when the pool has no address for a number. */
    method Step4(updated: Table, lcs: seq<PrefixSet>) returns (ok: bool)
      requires Valid()
      modifies this
      ensures Valid()
      ensures ok <==> |lcs| == 0 || |lcs| < |pool|
      ensures ok ==>
                && NamedUpTo(|lcs|)
                && vnh2pfx == old(vnh2pfx) + Numbered(lcs, |lcs|)
                && Registered(old(part2vnh), part2vnh, updated, lcs, |lcs|)
    {
      hide Registered, Numbered, Entered, Gained, HopsOf, Valid;
      var count: nat := 1;
      NothingRegistered(part2vnh, vnh2pfx, updated, lcs);
      while count <= |lcs|
        invariant Valid() && 1 <= count <= |lcs| + 1 && (count == 1 || count <= |pool|)
        invariant NamedUpTo(count - 1)
        invariant vnh2pfx == old(vnh2pfx) + Numbered(lcs, count - 1)
        invariant Registered(old(part2vnh), part2vnh, updated, lcs, count - 1)
      {
        var pset := lcs[count - 1];
        var named := Name(count);
        if !named {
          return false;
        }
        NumberedNext(old(vnh2pfx), lcs, count);
        vnh2pfx := vnh2pfx[count := pset];
        ghost var previous := part2vnh;
        Record(updated, pset, count);
        RegisterNext(old(part2vnh), previous, part2vnh, updated, lcs, count);
        count := count + 1;
      }
      ok := true;
    }

    /** Looks the address of a new number up in the pool. */
    method Name(count: nat) returns (named: bool)
      requires Valid() && count > 0 && NamedUpTo(count - 1)
      modifies this`vnh2ip, this`vnh2mac
      ensures Valid()
      ensures named <==> count < |pool|
      ensures named ==> NamedUpTo(count)
    {
      if count !in vnh2ip {
        if count >= |pool| {
          return false;
        }
        vnh2ip := vnh2ip[count := pool[count]];
        vnh2mac := vnh2mac[count := baseMac + count];
      }
      named := true;
    }

    /** Enters one block for every participant that lists it. */
    method Record(updated: Table, pset: PrefixSet, count: nat)
      modifies this`part2vnh
      ensures Entered(old(part2vnh), part2vnh, updated, {}, pset, count)
    {
      var parts := updated.Keys;
      while parts != {}
        invariant parts <= updated.Keys
        invariant Entered(old(part2vnh), part2vnh, updated, parts, pset, count)
        decreases parts
      {
        var part :| part in parts;
        if pset in updated[part] {
          if part !in part2vnh {
            part2vnh := part2vnh[part := map[]];
          }
          var hops: Hops := part2vnh[part] + map[count := pset];
          part2vnh := part2vnh[part := hops];
        }
        parts := parts - {part};
      }
    }
  }

  /** The tag of a prefix: that of any listed set that holds it. */
  ghost function ReturnVnhop(hops: Hops, macs: map<nat, nat>, pfx: Prefix): (tag: nat)
    requires hops.Keys <= macs.Keys
    ensures (forall name | name in hops :: pfx !in hops[name]) ==> tag == 0xA1A1_A1A1_A1A1
  {
    if exists name :: name in hops && pfx in hops[name] then
      var name :| name in hops && pfx in hops[name];
      macs[name]
    else UNKNOWN_HOP
  }

  ghost function UniqueVnhops(hops: Hops, macs: map<nat, nat>, pfxes: PrefixSet): (tags: set<nat>)
    requires hops.Keys <= macs.Keys
    ensures pfxes != {} ==> tags != {}
  {
    var tags := set pfx | pfx in pfxes :: ReturnVnhop(hops, macs, pfx);
    assert forall pfx | pfx in pfxes :: ReturnVnhop(hops, macs, pfx) in tags;
    tags
  }

  /** A parallel composition of one match for each tag. */
  ghost function MatchVnhops(tags: set<nat>): Policy
    requires tags != {}
  {
    var tag :| tag in tags;
    if tags == {tag} then Match("dstmac", Mac(tag))
    else Parallel([MatchVnhops(tags - {tag}), Match("dstmac", Mac(tag))])
  }

  /** Replaces every prefix filter by a tag filter. */
  ghost function Expand(policy: Policy, hops: Hops, macs: map<nat, nat>, baseMac: nat): Policy
    requires hops.Keys <= macs.Keys
    decreases policy, 0
  {
    match policy
    case Parallel(ps) => Parallel(ExpandAll(ps, hops, macs, baseMac))
    case Sequential(ps) => Sequential(ExpandAll(ps, hops, macs, baseMac))
    case If(pred, t, f) =>
      If(Expand(pred, hops, macs, baseMac), Expand(t, hops, macs, baseMac), Expand(f, hops, macs, baseMac))
    case MatchPrefixesSet(pfxes) =>
      if pfxes != {} then MatchVnhops(UniqueVnhops(hops, macs, pfxes)) else Match("dstmac", Mac(baseMac))
    case _ => policy
  }

  ghost function ExpandAll(ps: seq<Policy>, hops: Hops, macs: map<nat, nat>, baseMac: nat): (qs: seq<Policy>)
    requires hops.Keys <= macs.Keys
    ensures |qs| == |ps|
    decreases ps, 1
  {
    if ps == [] then [] else [Expand(ps[0], hops, macs, baseMac)] + ExpandAll(ps[1..], hops, macs, baseMac)
  }

  // ----- tag filtering is prefix filtering -----

  /** A participant's tags as the assignment leaves them: every number stands for one block of the
      participant's sets, and every block has a number. */
  ghost predicate Assigned(hops: Hops, macs: map<nat, nat>, baseMac: nat, sets: set<PrefixSet>,
                           family: set<PrefixSet>) {
    && sets <= family
    && hops.Values == Cut(family, sets)
    && hops.Keys <= macs.Keys
    && (forall k | k in hops :: 1 <= k && macs[k] == baseMac + k)
    && (forall j, k | j in hops && k in hops && hops[j] == hops[k] :: j == k)
  }

  lemma EntriesAreCut(before: Table, updated: Table, lcs: seq<PrefixSet>, p: string)
    requires Decomposed(before, updated) && p in before && Members(lcs) == Blocks(Family(before))
    ensures Entries(updated[p], lcs, |lcs|).Values == Cut(Family(before), Members(before[p]))
  {
    var hops := Entries(updated[p], lcs, |lcs|);
    DecomposedFamily(before, updated);
    forall b
      ensures b in hops.Values <==> b in Members(updated[p])
    {
      if b in Members(updated[p]) {
        assert b in Family(updated) && b in Members(lcs);
        var i :| 0 <= i < |lcs| && lcs[i] == b;
        assert BlockAt(lcs, i + 1) == b;
        assert i + 1 in hops && hops[i + 1] == b;
      }
    }
  }

  /** Decomposing and then running the assignment on fresh tables establishes `Assigned`. */
  lemma StepsAssign(before: Table, updated: Table, lcs: seq<PrefixSet>, p: string, macs: map<nat, nat>, baseMac: nat)
    requires Decomposed(before, updated) && p in before
    requires Members(lcs) == Blocks(Family(before)) && Apart(lcs)
    requires forall k: nat | 1 <= k <= |lcs| :: k in macs && macs[k] == baseMac + k
    ensures Assigned(Entries(updated[p], lcs, |lcs|), macs, baseMac, Members(before[p]), Family(before))
  {
    FamilyHas(before, p);
    EntriesAreCut(before, updated, lcs, p);
  }

  ghost predicate AllAssigned(part2vnh: map<string, Hops>, macs: map<nat, nat>, baseMac: nat, before: Table) {
    forall p | p in before :: Assigned(HopsOf(part2vnh, p), macs, baseMac, Members(before[p]), Family(before))
  }

  /** Every number that a participant had from an earlier assignment now names a block of its own sets. */
  ghost predicate NumbersReused(old2vnh: map<string, Hops>, names: map<nat, PrefixSet>, n: nat, before: Table) {
    forall p, k | p in before && k in HopsOf(old2vnh, p) ::
      1 <= k <= n && k in names && names[k] in Cut(Family(before), Members(before[p]))
  }

  /** The tags are those of fresh tables exactly if no number of an earlier assignment stays behind. */
  lemma StepsAssignIff(before: Table, updated: Table, lcs: seq<PrefixSet>, p: string, macs: map<nat, nat>, baseMac: nat,
                       earlier: Hops)
    requires Decomposed(before, updated) && p in before && Members(lcs) == Blocks(Family(before)) && Apart(lcs)
    requires forall k: nat | 1 <= k <= |lcs| :: k in macs && macs[k] == baseMac + k
    ensures Assigned(earlier + Entries(updated[p], lcs, |lcs|), macs, baseMac, Members(before[p]), Family(before)) <==>
            forall k | k in earlier :: 1 <= k <= |lcs| && BlockAt(lcs, k) in Cut(Family(before), Members(before[p]))
  {
    hide Cut, Blocks;
    var gained := Entries(updated[p], lcs, |lcs|);
    var hops := earlier + gained;
    StepsAssign(before, updated, lcs, p, macs, baseMac);
    EntriesAreCut(before, updated, lcs, p);
    assert forall k: nat | 1 <= k <= |lcs| ::
        k in gained <==> BlockAt(lcs, k) in Cut(Family(before), Members(before[p]));
    if forall k | k in earlier :: k in gained {
      assert hops == gained;
    } else {
      var k :| k in earlier && k !in gained;
      LeftBehind(earlier, gained, k);
    }
  }

  /** A number that stays behind names no block, or one that has a number already. */
  lemma LeftBehind(earlier: Hops, gained: Hops, k: nat)
    requires k in earlier && k !in gained
    ensures var hops := earlier + gained;
            hops.Values == gained.Values ==> exists j :: j in hops && j != k && hops[j] == hops[k]
  {
    var hops := earlier + gained;
    assert hops[k] in hops.Values;
    if hops.Values == gained.Values {
      var j :| j in gained && gained[j] == hops[k];
      assert hops[j] == hops[k];
    }
  }

  lemma StepsAssignAll(before: Table, updated: Table, lcs: seq<PrefixSet>, earlier: map<string, Hops>,
                       part2vnh: map<string, Hops>, names: map<nat, PrefixSet>, macs: map<nat, nat>, baseMac: nat)
    requires Decomposed(before, updated) && Members(lcs) == Blocks(Family(before)) && Apart(lcs)
    requires forall k: nat | 1 <= k <= |lcs| ::
               k in macs && macs[k] == baseMac + k && k in names && names[k] == BlockAt(lcs, k)
    requires Registered(earlier, part2vnh, updated, lcs, |lcs|)
    ensures AllAssigned(part2vnh, macs, baseMac, before) <==> NumbersReused(earlier, names, |lcs|, before)
  {
    hide Assigned, Cut, Blocks, Apart;
    forall p | p in before
      ensures Assigned(HopsOf(part2vnh, p), macs, baseMac, Members(before[p]), Family(before)) <==>
              forall k | k in HopsOf(earlier, p) ::
                1 <= k <= |lcs| && BlockAt(lcs, k) in Cut(Family(before), Members(before[p]))
    {
      assert p in updated;
      assert HopsOf(part2vnh, p) == HopsOf(earlier, p) + Entries(updated[p], lcs, |lcs|);
      StepsAssignIff(before, updated, lcs, p, macs, baseMac, HopsOf(earlier, p));
    }
  }

  lemma FreshReuses(names: map<nat, PrefixSet>, n: nat, before: Table)
    ensures NumbersReused(map[], names, n, before)
  {
  }

  lemma NumberedNames(earlier: map<nat, PrefixSet>, lcs: seq<PrefixSet>)
    ensures var names := earlier + Numbered(lcs, |lcs|);
            forall k: nat | 1 <= k <= |lcs| :: k in names && names[k] == BlockAt(lcs, k)
  {
  }

  /** The pipeline from prefix sets to tags: decompose all participants' sets, then number the
      blocks. It fails exactly if the address pool is too small. Unless labels coincide, every participant
      ends up with tags for exactly the blocks of its own sets, if and only if every number that it had
      before, as no participant has on fresh tables, now names one of these blocks. */
  method AssignVnhs(dict: Dict, order: Order, sdx: Sdx) returns (ok: bool)
    requires IsOrder(order) && dict != map[] && Separate(dict) && dict.Keys != {}
    requires sdx.Valid()
    modifies dict.Values, sdx
    ensures sdx.Valid()
    ensures var n := |Blocks(Family(old(Contents(dict))))|;
            NoClash(dict.Keys, order) ==>
              && (ok <==> n == 0 || n < |sdx.pool|)
              && (ok ==> (AllAssigned(sdx.part2vnh, sdx.vnh2mac, sdx.baseMac, old(Contents(dict))) <==>
                          NumbersReused(old(sdx.part2vnh), sdx.vnh2pfx, n, old(Contents(dict)))))
    ensures old(sdx.part2vnh) == map[] ==>
              NumbersReused(old(sdx.part2vnh), sdx.vnh2pfx, |Blocks(Family(old(Contents(dict))))|, old(Contents(dict)))
  {
    hide Decomposed, Apart, NoClash, AllAssigned, Registered, IsOrder, Separate, NumbersReused, Numbered;
    hide Blocks, Family, Union, Kept;
    ghost var before := Contents(dict);
    var lcs := LcsParallel(dict, order);
    var updated := map p | p in dict :: dict[p].sets;
    assert updated == Contents(dict);
    ApartSize(lcs);
    ok := sdx.Step4(updated, lcs);
    NumberedNames(old(sdx.vnh2pfx), lcs);
    FreshReuses(sdx.vnh2pfx, |Blocks(Family(before))|, before);
    if NoClash(dict.Keys, order) && ok {
      sdx.NamesHaveMacs(|lcs|);
      StepsAssignAll(before, updated, lcs, old(sdx.part2vnh), sdx.part2vnh, sdx.vnh2pfx, sdx.vnh2mac, sdx.baseMac);
    }
  }

  lemma {:induction false} ApartSize(list: seq<PrefixSet>)
    requires Apart(list)
    ensures |Members(list)| == |list|
  {
    if list != [] {
      var init, last := list[..|list| - 1], list[|list| - 1];
      ApartSize(init);
      assert list == init + [last];
      assert Members(list) == Members(init) + {last};
      forall s | s in init
        ensures s != last
      {
        var i :| 0 <= i < |init| && init[i] == s;
        assert list[i] != list[|list| - 1];
      }
    }
  }

  lemma HopOfPrefix(hops: Hops, macs: map<nat, nat>, baseMac: nat, sets: set<PrefixSet>, family: set<PrefixSet>,
                    x: Prefix)
      returns (k: nat)
    requires Assigned(hops, macs, baseMac, sets, family) && x in Union(sets)
    ensures k in hops && hops[k] == Block(family, x) && ReturnVnhop(hops, macs, x) == baseMac + k
    ensures x in Block(family, x)
  {
    assert Block(family, x) in Cut(family, sets);
    k :| k in hops && hops[k] == Block(family, x);
    assert x in Union(family);
    assert x in hops[k];
    forall j | j in hops && x in hops[j]
      ensures j == k
    {
      assert hops[j] in hops.Values;
      var u :| u in Union(sets) && hops[j] == Block(family, u);
      BlockOfMember(family, u, x);
    }
  }

  /** Two covered prefixes carry the same tag exactly when no set of the family separates them. */
  lemma SameTagIffSameBlock(hops: Hops, macs: map<nat, nat>, baseMac: nat, sets: set<PrefixSet>, family: set<PrefixSet>,
                            x: Prefix, y: Prefix)
    requires Assigned(hops, macs, baseMac, sets, family) && x in Union(sets) && y in Union(sets)
    ensures ReturnVnhop(hops, macs, x) == ReturnVnhop(hops, macs, y) <==> Together(family, x, y)
  {
    var j := HopOfPrefix(hops, macs, baseMac, sets, family, x);
    var k := HopOfPrefix(hops, macs, baseMac, sets, family, y);
    assert x in Union(family) && y in Union(family);
    BlockOfMember(family, x, y);
    if j == k {
      assert y in Block(family, x);
    }
  }

  /** A tag is among those of a set exactly when its prefix is in the set. */
  lemma TagInSetIffPrefixInSet(hops: Hops, macs: map<nat, nat>, baseMac: nat, sets: set<PrefixSet>,
                               family: set<PrefixSet>, s: PrefixSet, x: Prefix)
    requires Assigned(hops, macs, baseMac, sets, family) && s in sets && x in Union(sets)
    ensures ReturnVnhop(hops, macs, x) in UniqueVnhops(hops, macs, s) <==> x in s
  {
    if y :| y in s && ReturnVnhop(hops, macs, y) == ReturnVnhop(hops, macs, x) {
      assert y in Union(sets);
      SameTagIffSameBlock(hops, macs, baseMac, sets, family, x, y);
    }
  }

  lemma {:induction false} MatchVnhopsPasses(tags: set<nat>, packet: Packet)
    requires tags != {}
    ensures Eval(MatchVnhops(tags), packet) ==
            if "dstmac" in packet && packet["dstmac"].Mac? && packet["dstmac"].address in tags then {packet} else {}
    decreases tags
  {
    var tag :| tag in tags && MatchVnhops(tags) ==
      if tags == {tag} then Match("dstmac", Mac(tag))
      else Parallel([MatchVnhops(tags - {tag}), Match("dstmac", Mac(tag))]);
    if tags != {tag} {
      var rest, last := MatchVnhops(tags - {tag}), Match("dstmac", Mac(tag));
      MatchVnhopsPasses(tags - {tag}, packet);
      ParallelOfTwo(rest, last, packet);
    }
  }

  /** The packet goes to a covered prefix and carries that prefix's tag. */
  ghost predicate Tagged(packet: Packet, hops: Hops, macs: map<nat, nat>, sets: set<PrefixSet>)
    requires hops.Keys <= macs.Keys
  {
    && "dstip" in packet && packet["dstip"].Text? && packet["dstip"].text in Union(sets)
    && "dstmac" in packet && packet["dstmac"] == Mac(ReturnVnhop(hops, macs, packet["dstip"].text))
  }

  /** A tagged packet passes the tag filter built for a set exactly when it passes the prefix filter. */
  lemma FilterExact(hops: Hops, macs: map<nat, nat>, baseMac: nat, sets: set<PrefixSet>, family: set<PrefixSet>,
                    s: PrefixSet, packet: Packet)
    requires Assigned(hops, macs, baseMac, sets, family) && s in sets && Tagged(packet, hops, macs, sets)
    ensures Eval(Expand(MatchPrefixesSet(s), hops, macs, baseMac), packet) == Eval(MatchPrefixesSet(s), packet)
  {
    var x := packet["dstip"].text;
    if s == {} {
      var k := HopOfPrefix(hops, macs, baseMac, sets, family, x);
    } else {
      var y :| y in s;
      assert ReturnVnhop(hops, macs, y) in UniqueVnhops(hops, macs, s);
      MatchVnhopsPasses(UniqueVnhops(hops, macs, s), packet);
      TagInSetIffPrefixInSet(hops, macs, baseMac, sets, family, s, x);
    }
  }

  // ----- whole policies -----

  /** Every prefix filter of the policy uses a set that was handed to the decomposition. */
  ghost predicate Handed(policy: Policy, sets: set<PrefixSet>) {
    match policy
    case Parallel(ps) => forall p | p in ps :: Handed(p, sets)
    case Sequential(ps) => forall p | p in ps :: Handed(p, sets)
    case If(pred, t, f) => Handed(pred, sets) && Handed(t, sets) && Handed(f, sets)
    case MatchPrefixesSet(s) => s in sets
    case _ => true
  }

  ghost predicate HasFilter(policy: Policy) {
    match policy
    case Parallel(ps) => exists p | p in ps :: HasFilter(p)
    case Sequential(ps) => exists p | p in ps :: HasFilter(p)
    case If(pred, t, f) => HasFilter(pred) || HasFilter(t) || HasFilter(f)
    case MatchPrefixesSet(_) => true
    case _ => false
  }

  /** The policy may change the destination or the tag. */
  ghost predicate Retags(policy: Policy) {
    match policy
    case Parallel(ps) => exists p | p in ps :: Retags(p)
    case Sequential(ps) => exists p | p in ps :: Retags(p)
    case If(_, t, f) => Retags(t) || Retags(f)
    case Modify(field, _) => field == "dstmac" || field == "dstip"
    case _ => false
  }

  /** No prefix filter comes after a step that may change the destination or the tag. */
  ghost predicate Guarded(policy: Policy) {
    match policy
    case Parallel(ps) => forall p | p in ps :: Guarded(p)
    case Sequential(ps) =>
      && (forall p | p in ps :: Guarded(p))
      && (forall i, j | 0 <= i < j < |ps| :: Retags(ps[i]) ==> !HasFilter(ps[j]))
    case If(pred, t, f) => Guarded(pred) && Guarded(t) && Guarded(f)
    case _ => true
  }

  lemma {:induction false} ExpandUnfiltered(policy: Policy, hops: Hops, macs: map<nat, nat>, baseMac: nat)
    requires hops.Keys <= macs.Keys && !HasFilter(policy)
    ensures Expand(policy, hops, macs, baseMac) == policy
    decreases policy, 0
  {
    match policy
    case Parallel(ps) => ExpandAllUnfiltered(ps, hops, macs, baseMac);
    case Sequential(ps) => ExpandAllUnfiltered(ps, hops, macs, baseMac);
    case If(pred, t, f) =>
      ExpandUnfiltered(pred, hops, macs, baseMac);
      ExpandUnfiltered(t, hops, macs, baseMac);
      ExpandUnfiltered(f, hops, macs, baseMac);
    case _ =>
  }

  lemma {:induction false} ExpandAllUnfiltered(ps: seq<Policy>, hops: Hops, macs: map<nat, nat>, baseMac: nat)
    requires hops.Keys <= macs.Keys && forall p | p in ps :: !HasFilter(p)
    ensures ExpandAll(ps, hops, macs, baseMac) == ps
    decreases ps, 1
  {
    if ps != [] {
      ExpandUnfiltered(ps[0], hops, macs, baseMac);
      ExpandAllUnfiltered(ps[1..], hops, macs, baseMac);
    }
  }

  /** A policy that changes neither destination nor tag leaves both headers alone. */
  lemma {:induction false} KeepsHeaders(policy: Policy, packet: Packet, q: Packet)
    requires !Retags(policy) && q in Eval(policy, packet)
    ensures forall h | h in {"dstip", "dstmac"} :: (h in q <==> h in packet) && (h in q ==> q[h] == packet[h])
    decreases policy, 0
  {
    match policy
    case Parallel(ps) =>
      ParallelHas(ps, packet, q);
      var i :| 0 <= i < |ps| && q in Eval(ps[i], packet);
      KeepsHeaders(ps[i], packet, q);
    case Sequential(ps) => SequenceKeepsHeaders(ps, packet, q);
    case If(pred, t, f) =>
      if Eval(pred, packet) != {} {
        KeepsHeaders(t, packet, q);
      } else {
        KeepsHeaders(f, packet, q);
      }
    case _ =>
  }

  lemma {:induction false} SequenceKeepsHeaders(ps: seq<Policy>, packet: Packet, q: Packet)
    requires (forall p | p in ps :: !Retags(p)) && q in EvalSequential(ps, packet)
    ensures forall h | h in {"dstip", "dstmac"} :: (h in q <==> h in packet) && (h in q ==> q[h] == packet[h])
    decreases ps, 1
  {
    if ps != [] {
      var m :| m in Eval(ps[0], packet) && q in EvalSequential(ps[1..], m);
      KeepsHeaders(ps[0], packet, m);
      SequenceKeepsHeaders(ps[1..], m, q);
    }
  }

  /** Rewriting prefix filters into tag filters preserves the meaning of a policy on every tagged
      packet, for all policies whose filters come before any change of destination or tag. */
  lemma {:induction false} ExpandPreservesMeaning(policy: Policy, hops: Hops, macs: map<nat, nat>, baseMac: nat,
                                                  sets: set<PrefixSet>, family: set<PrefixSet>, packet: Packet)
    requires Assigned(hops, macs, baseMac, sets, family) && Tagged(packet, hops, macs, sets)
    requires Handed(policy, sets) && Guarded(policy)
    ensures Eval(Expand(policy, hops, macs, baseMac), packet) == Eval(policy, packet)
    decreases policy, 0
  {
    match policy
    case Parallel(ps) => ExpandParallel(ps, hops, macs, baseMac, sets, family, packet);
    case Sequential(ps) => ExpandSequential(ps, hops, macs, baseMac, sets, family, packet);
    case If(pred, t, f) =>
      ExpandPreservesMeaning(pred, hops, macs, baseMac, sets, family, packet);
      ExpandPreservesMeaning(t, hops, macs, baseMac, sets, family, packet);
      ExpandPreservesMeaning(f, hops, macs, baseMac, sets, family, packet);
    case MatchPrefixesSet(s) => FilterExact(hops, macs, baseMac, sets, family, s, packet);
    case _ =>
  }

  lemma {:induction false} ExpandParallel(ps: seq<Policy>, hops: Hops, macs: map<nat, nat>, baseMac: nat,
                                          sets: set<PrefixSet>, family: set<PrefixSet>, packet: Packet)
    requires Assigned(hops, macs, baseMac, sets, family) && Tagged(packet, hops, macs, sets)
    requires forall p | p in ps :: Handed(p, sets) && Guarded(p)
    ensures EvalParallel(ExpandAll(ps, hops, macs, baseMac), packet) == EvalParallel(ps, packet)
    decreases ps, 1
  {
    if ps != [] {
      ExpandPreservesMeaning(ps[0], hops, macs, baseMac, sets, family, packet);
      ExpandParallel(ps[1..], hops, macs, baseMac, sets, family, packet);
      assert ExpandAll(ps, hops, macs, baseMac)[1..] == ExpandAll(ps[1..], hops, macs, baseMac);
    }
  }

  lemma {:induction false} ExpandSequential(ps: seq<Policy>, hops: Hops, macs: map<nat, nat>, baseMac: nat,
                                            sets: set<PrefixSet>, family: set<PrefixSet>, packet: Packet)
    requires Assigned(hops, macs, baseMac, sets, family) && Tagged(packet, hops, macs, sets)
    requires forall p | p in ps :: Handed(p, sets) && Guarded(p)
    requires forall i, j | 0 <= i < j < |ps| :: Retags(ps[i]) ==> !HasFilter(ps[j])
    ensures EvalSequential(ExpandAll(ps, hops, macs, baseMac), packet) == EvalSequential(ps, packet)
    decreases ps, 1
  {
    if ps != [] {
      var rest := ps[1..];
      ExpandPreservesMeaning(ps[0], hops, macs, baseMac, sets, family, packet);
      assert ExpandAll(ps, hops, macs, baseMac)[1..] == ExpandAll(rest, hops, macs, baseMac);
      forall q | q in Eval(ps[0], packet)
        ensures EvalSequential(ExpandAll(rest, hops, macs, baseMac), q) == EvalSequential(rest, q)
      {
        if Retags(ps[0]) {
          ExpandAllUnfiltered(rest, hops, macs, baseMac);
        } else {
          KeepsHeaders(ps[0], packet, q);
          ExpandSequential(rest, hops, macs, baseMac, sets, family, q);
        }
      }
      assert EvalAll(ExpandAll(rest, hops, macs, baseMac), Eval(ps[0], packet)) == EvalAll(rest, Eval(ps[0], packet));
    }
  }

  /** The packet passes the tag filter that the program builds for a set. */
  ghost predicate PassesTags(packet: Packet, s: PrefixSet, hops: Hops, macs: map<nat, nat>, baseMac: nat)
    requires hops.Keys <= macs.Keys
  {
    && "dstmac" in packet && packet["dstmac"].Mac?
    && if s == {} then packet["dstmac"].address == baseMac else packet["dstmac"].address in UniqueVnhops(hops, macs, s)
  }

  lemma TagFilterMeaning(s: PrefixSet, hops: Hops, macs: map<nat, nat>, baseMac: nat, packet: Packet)
    requires hops.Keys <= macs.Keys
    ensures Eval(Expand(MatchPrefixesSet(s), hops, macs, baseMac), packet) ==
            if PassesTags(packet, s, hops, macs, baseMac) then {packet} else {}
  {
    if s != {} {
      MatchVnhopsPasses(UniqueVnhops(hops, macs, s), packet);
    }
  }

  /** A change of a header, then a filter of any kind. */
  lemma ChangeThenFilter(field: string, v: Value, filter: Policy, packet: Packet)
    ensures Eval(Sequential([Modify(field, v), filter]), packet) == Eval(filter, packet[field := v])
  {
    var out := packet[field := v];
    forall r
      ensures r in Eval(Sequential([Modify(field, v), filter]), packet) <==> r in Eval(filter, out)
    {
      SequentialOfTwo(Modify(field, v), filter, packet, r);
      assert Eval(Modify(field, v), packet) == {out};
    }
  }

  lemma ExpandChangeThenFilter(field: string, v: Value, s: PrefixSet, hops: Hops, macs: map<nat, nat>, baseMac: nat)
    requires hops.Keys <= macs.Keys
    ensures Expand(Sequential([Modify(field, v), MatchPrefixesSet(s)]), hops, macs, baseMac) ==
            Sequential([Modify(field, v), Expand(MatchPrefixesSet(s), hops, macs, baseMac)])
  {
    var first, second := Modify(field, v), MatchPrefixesSet(s);
    assert [first, second][1..] == [second] && [second][1..] == [];
    assert ExpandAll([second], hops, macs, baseMac) == [Expand(second, hops, macs, baseMac)];
    assert ExpandAll([first, second], hops, macs, baseMac) == [first, Expand(second, hops, macs, baseMac)];
  }

  /** The value is the tag of a block inside the set; for the empty set it is the tag of no block. */
  ghost predicate TagsBlockIn(v: Value, s: PrefixSet, hops: Hops, baseMac: nat) {
    if s == {} then v == Mac(baseMac)
    else exists k :: k in hops && hops[k] != {} && hops[k] <= s && v == Mac(baseMac + k)
  }

  lemma PassesIffTagsBlock(v: Value, s: PrefixSet, hops: Hops, macs: map<nat, nat>, baseMac: nat, sets: set<PrefixSet>,
                           family: set<PrefixSet>, packet: Packet)
    requires Assigned(hops, macs, baseMac, sets, family) && s in sets
    ensures PassesTags(packet["dstmac" := v], s, hops, macs, baseMac) <==> TagsBlockIn(v, s, hops, baseMac)
  {
    hide Cut, Block, Assigned, UniqueVnhops;
    assert hops.Keys <= macs.Keys by {
      AssignedHasMacs(hops, macs, baseMac, sets, family);
    }
    if v.Mac? {
      TagsOfSet(v.address, s, hops, macs, baseMac, sets, family);
    }
  }

  lemma AssignedHasMacs(hops: Hops, macs: map<nat, nat>, baseMac: nat, sets: set<PrefixSet>, family: set<PrefixSet>)
    requires Assigned(hops, macs, baseMac, sets, family)
    ensures hops.Keys <= macs.Keys
  {
  }

  /** The tags of a set are those of the blocks inside it. */
  lemma TagsOfSet(tag: nat, s: PrefixSet, hops: Hops, macs: map<nat, nat>, baseMac: nat, sets: set<PrefixSet>,
                  family: set<PrefixSet>)
    requires Assigned(hops, macs, baseMac, sets, family) && s in sets
    ensures tag in UniqueVnhops(hops, macs, s) <==>
            exists k :: k in hops && hops[k] != {} && hops[k] <= s && tag == baseMac + k
  {
    hide Assigned, ReturnVnhop;
    AssignedHasMacs(hops, macs, baseMac, sets, family);
    if tag in UniqueVnhops(hops, macs, s) {
      var x :| x in s && ReturnVnhop(hops, macs, x) == tag;
      var k := TagOfMember(hops, macs, baseMac, sets, family, s, x);
    }
    if k :| k in hops && hops[k] != {} && hops[k] <= s && tag == baseMac + k {
      var x :| x in hops[k];
      var j := TagOfMember(hops, macs, baseMac, sets, family, s, x);
      OneBlock(hops, macs, baseMac, sets, family, x, j, k);
    }
  }

  lemma TagOfMember(hops: Hops, macs: map<nat, nat>, baseMac: nat, sets: set<PrefixSet>, family: set<PrefixSet>,
                    s: PrefixSet, x: Prefix) returns (k: nat)
    requires Assigned(hops, macs, baseMac, sets, family) && s in sets && x in s
    ensures k in hops && x in hops[k] && hops[k] <= s && ReturnVnhop(hops, macs, x) == baseMac + k
  {
    assert x in Union(sets);
    k := HopOfPrefix(hops, macs, baseMac, sets, family, x);
    assert forall y | y in hops[k] :: Together(family, x, y);
  }

  lemma OneBlock(hops: Hops, macs: map<nat, nat>, baseMac: nat, sets: set<PrefixSet>, family: set<PrefixSet>,
                 x: Prefix, j: nat, k: nat)
    requires Assigned(hops, macs, baseMac, sets, family)
    requires j in hops && k in hops && x in hops[j] && x in hops[k]
    ensures j == k
  {
    assert hops[j] in hops.Values && hops[k] in hops.Values;
    var u :| u in Union(sets) && hops[j] == Block(family, u);
    var v :| v in Union(sets) && hops[k] == Block(family, v);
    BlockOfMember(family, u, x);
    BlockOfMember(family, v, x);
  }

  /** Without that order: a filter after a change of the tag keeps its meaning exactly if the new tag is
      that of a block inside the set just when the destination is in the set; one after a change of the destination,
      exactly if the old and the new destination are both in the set or both outside. */
  lemma FilterAfterChangeIff(field: string, v: Value, s: PrefixSet, hops: Hops, macs: map<nat, nat>, baseMac: nat,
                             sets: set<PrefixSet>, family: set<PrefixSet>, packet: Packet)
    requires Assigned(hops, macs, baseMac, sets, family) && Tagged(packet, hops, macs, sets)
    requires s in sets && field in {"dstip", "dstmac"}
    ensures var policy := Sequential([Modify(field, v), MatchPrefixesSet(s)]);
            var inSet := packet["dstip"].text in s;
            Eval(Expand(policy, hops, macs, baseMac), packet) == Eval(policy, packet) <==>
            if field == "dstmac" then TagsBlockIn(v, s, hops, baseMac) <==> inSet
            else (v.Text? && v.text in s) <==> inSet
  {
    var out := packet[field := v];
    ExpandChangeThenFilter(field, v, s, hops, macs, baseMac);
    ChangeThenFilter(field, v, MatchPrefixesSet(s), packet);
    ChangeThenFilter(field, v, Expand(MatchPrefixesSet(s), hops, macs, baseMac), packet);
    TagFilterMeaning(s, hops, macs, baseMac, out);
    PassesIffTagsBlock(v, s, hops, macs, baseMac, sets, family, packet);
    if field == "dstip" {
      var k := HopOfPrefix(hops, macs, baseMac, sets, family, packet["dstip"].text);
      TagInSetIffPrefixInSet(hops, macs, baseMac, sets, family, s, packet["dstip"].text);
      assert out["dstmac"] == packet["dstmac"];
    }
  }

  /** For example, a packet whose tag is removed before the filter is dropped, although the prefix
      filter lets it through. */
  lemma RetaggedBeforeFilter(hops: Hops, macs: map<nat, nat>, baseMac: nat, sets: set<PrefixSet>,
                             family: set<PrefixSet>, s: PrefixSet, packet: Packet)
    requires Assigned(hops, macs, baseMac, sets, family) && Tagged(packet, hops, macs, sets)
    requires s in sets && packet["dstip"].text in s
    ensures var policy := Sequential([Modify("dstmac", NoValue), MatchPrefixesSet(s)]);
            && !Guarded(policy)
            && Eval(policy, packet) != {}
            && Eval(Expand(policy, hops, macs, baseMac), packet) == {}
  {
    var first, second := Modify("dstmac", NoValue), MatchPrefixesSet(s);
    assert Retags([first, second][0]) && HasFilter([first, second][1]);
    ExpandChangeThenFilter("dstmac", NoValue, s, hops, macs, baseMac);
    ChangeThenFilter("dstmac", NoValue, second, packet);
    ChangeThenFilter("dstmac", NoValue, Expand(second, hops, macs, baseMac), packet);
    TagFilterMeaning(s, hops, macs, baseMac, packet["dstmac" := NoValue]);
  }

  // ----- the default policy -----

  /** Forwards the prefixes that are best reached through a peer to the first port of that peer. */
  ghost function DefaultForwarding(peers: seq<string>, bestPath: map<string, PrefixSet>, ports: map<string, Value>)
      : Policy
    requires forall peer | peer in peers :: peer in bestPath && peer in ports
  {
    Parallel(seq(|peers|, i requires 0 <= i < |peers| => ForwardTo(bestPath[peers[i]], ports[peers[i]])))
  }

  function ForwardTo(pfxes: PrefixSet, port: Value): Policy {
    Sequential([MatchPrefixesSet(pfxes), Modify("outport", port)])
  }

  lemma ForwardToMeaning(pfxes: PrefixSet, port: Value, packet: Packet, q: Packet)
    ensures q in Eval(ForwardTo(pfxes, port), packet) <==>
            InPrefixes(packet, pfxes) && q == packet["outport" := port]
  {
    var first, second := MatchPrefixesSet(pfxes), Modify("outport", port);
    assert ForwardTo(pfxes, port) == Sequential([first, second]);
    SequentialOfTwo(first, second, packet, q);
    if q in Eval(ForwardTo(pfxes, port), packet) {
      var m :| m in Eval(first, packet) && q in Eval(second, m);
      assert m == packet;
    }
    if InPrefixes(packet, pfxes) && q == packet["outport" := port] {
      assert packet in Eval(first, packet) && q in Eval(second, packet);
    }
  }

  /** A packet leaves through the ports of exactly those peers whose best prefixes include its own. */
  lemma DefaultForwardingMeaning(peers: seq<string>, bestPath: map<string, PrefixSet>, ports: map<string, Value>,
                                 packet: Packet, q: Packet)
    requires forall peer | peer in peers :: peer in bestPath && peer in ports
    ensures q in Eval(DefaultForwarding(peers, bestPath, ports), packet) <==>
            exists peer :: peer in peers && InPrefixes(packet, bestPath[peer]) && q == packet["outport" := ports[peer]]
  {
    var ps := DefaultForwarding(peers, bestPath, ports).policies;
    ParallelHas(ps, packet, q);
    forall i | 0 <= i < |peers|
      ensures q in Eval(ps[i], packet) <==>
              InPrefixes(packet, bestPath[peers[i]]) && q == packet["outport" := ports[peers[i]]]
    {
      ForwardToMeaning(bestPath[peers[i]], ports[peers[i]], packet, q);
    }
    if peer :| peer in peers && InPrefixes(packet, bestPath[peer]) && q == packet["outport" := ports[peer]] {
      var i :| 0 <= i < |peers| && peers[i] == peer;
      assert q in Eval(ps[i], packet);
    }
  }
}
