/** CIDR blocks of a general address width: nesting, halves, and the normal form of a set of
    addresses. */
module CidrBlocks {
  import opened Powers

  datatype Net = Net(addr: nat, plen: nat)

  function Size(w: nat, n: Net): (s: nat)
    requires n.plen <= w
    ensures s > 0
  {
    Pow2(w - n.plen)
  }

  /** A prefix length within the width, and no host bits set. */
  predicate IsNet(w: nat, n: Net) {
    n.plen <= w && Aligned(n.addr, w - n.plen) && n.addr + Size(w, n) <= Pow2(w)
  }

  function Broadcast(w: nat, n: Net): nat
    requires n.plen <= w
  {
    n.addr + Size(w, n) - 1
  }

  predicate Has(w: nat, n: Net, x: nat)
    requires n.plen <= w
  {
    n.addr <= x <= Broadcast(w, n)
  }

  predicate Inside(w: nat, n: Net, m: Net)
    requires n.plen <= w && m.plen <= w
  {
    m.addr <= n.addr && Broadcast(w, n) <= Broadcast(w, m)
  }

  predicate Disjoint(w: nat, n: Net, m: Net)
    requires n.plen <= w && m.plen <= w
  {
    Broadcast(w, n) < m.addr || Broadcast(w, m) < n.addr
  }

  /** A block has 2^(width - length) addresses from its first on; one is inside another if it has no other
      addresses, and they are disjoint if they have none in common. */
  lemma BlockRelations(w: nat, n: Net, m: Net)
    requires n.plen <= w && m.plen <= w
    ensures forall x: nat :: Has(w, n, x) <==> n.addr <= x < n.addr + Pow2(w - n.plen)
    ensures Inside(w, n, m) <==> forall x: nat | Has(w, n, x) :: Has(w, m, x)
    ensures Disjoint(w, n, m) <==> forall x: nat :: !(Has(w, n, x) && Has(w, m, x))
  {
    if forall x: nat | Has(w, n, x) :: Has(w, m, x) {
      assert Has(w, n, n.addr) && Has(w, n, Broadcast(w, n));
    }
    if !Disjoint(w, n, m) {
      var x := if n.addr <= m.addr then m.addr else n.addr;
      assert Has(w, n, x) && Has(w, m, x);
    }
  }

  predicate AreNets(w: nat, nets: seq<Net>) {
    forall i | 0 <= i < |nets| :: IsNet(w, nets[i])
  }

  /** Two blocks are nested or disjoint. */
  lemma Nested(w: nat, n: Net, m: Net)
    requires IsNet(w, n) && IsNet(w, m) && m.plen <= n.plen
    ensures Inside(w, n, m) || Disjoint(w, n, m)
  {
    var k := w - n.plen;
    AlignedLess(m.addr, k, w - m.plen);
    Pow2Aligned(k, w - m.plen);
    AlignedAdd(m.addr, Size(w, m), k);
    if m.addr + Size(w, m) <= n.addr {
    } else if n.addr < m.addr {
      AlignedGap(n.addr, m.addr, k);
    } else {
      AlignedGap(n.addr, m.addr + Size(w, m), k);
    }
  }

  lemma NestedWithPoint(w: nat, n: Net, m: Net, x: nat)
    requires IsNet(w, n) && IsNet(w, m) && Has(w, n, x) && Has(w, m, x)
    ensures m.plen <= n.plen ==> Inside(w, n, m)
    ensures n.plen <= m.plen ==> Inside(w, m, n)
    ensures n.plen == m.plen ==> n == m
  {
    if m.plen <= n.plen {
      Nested(w, n, m);
    }
    if n.plen <= m.plen {
      Nested(w, m, n);
    }
  }

  lemma InsideIsLonger(w: nat, n: Net, m: Net)
    requires IsNet(w, n) && IsNet(w, m) && Inside(w, n, m)
    ensures m.plen <= n.plen
    ensures n.plen == m.plen ==> n == m
  {
    Pow2Order(w - m.plen, w - n.plen);
  }

  // ----- halves -----

  function LowHalf(n: Net): Net {
    Net(n.addr, n.plen + 1)
  }

  function HighHalf(w: nat, n: Net): Net
    requires n.plen < w
  {
    Net(n.addr + Pow2(w - n.plen - 1), n.plen + 1)
  }

  lemma Halves(w: nat, n: Net)
    requires IsNet(w, n) && n.plen < w
    ensures IsNet(w, LowHalf(n)) && IsNet(w, HighHalf(w, n))
    ensures Inside(w, LowHalf(n), n) && Inside(w, HighHalf(w, n), n)
    ensures Broadcast(w, LowHalf(n)) + 1 == HighHalf(w, n).addr
    ensures Broadcast(w, HighHalf(w, n)) == Broadcast(w, n)
    ensures 2 * Pow2(w - n.plen - 1) == Size(w, n)
  {
    var k := w - n.plen - 1;
    AlignedLess(n.addr, k, k + 1);
    Pow2Aligned(k, k);
    AlignedAdd(n.addr, Pow2(k), k);
  }

  /** A block strictly inside another lies in one of its halves. */
  lemma InOneHalf(w: nat, c: Net, n: Net)
    requires IsNet(w, c) && IsNet(w, n) && Inside(w, c, n) && c != n
    ensures n.plen < w && n.plen < c.plen
    ensures Inside(w, c, LowHalf(n)) != Inside(w, c, HighHalf(w, n))
  {
    InsideIsLonger(w, c, n);
    Halves(w, n);
    if c.addr <= Broadcast(w, LowHalf(n)) {
      NestedWithPoint(w, c, LowHalf(n), c.addr);
    } else {
      NestedWithPoint(w, c, HighHalf(w, n), c.addr);
    }
  }

  // ----- lists of blocks -----

  ghost predicate Covers(w: nat, nets: seq<Net>, x: nat)
    requires AreNets(w, nets)
  {
    exists n :: n in nets && Has(w, n, x)
  }

  /** The blocks of both lists hold the same addresses. */
  ghost predicate SameAddresses(w: nat, a: seq<Net>, b: seq<Net>)
    requires AreNets(w, a) && AreNets(w, b)
  {
    forall x: nat :: Covers(w, a, x) <==> Covers(w, b, x)
  }

  predicate Ascending(w: nat, nets: seq<Net>)
    requires AreNets(w, nets)
  {
    forall i, j | 0 <= i < j < |nets| :: Broadcast(w, nets[i]) < nets[j].addr
  }

  /** `n` and `m` are the two halves of one block. */
  predicate Mergeable(w: nat, n: Net, m: Net) {
    0 < n.plen <= w && n.plen == m.plen && Aligned(n.addr, w - n.plen + 1) && m.addr == n.addr + Size(w, n)
  }

  /** Sorted, disjoint, and no two blocks are the halves of one. */
  ghost predicate Normal(w: nat, nets: seq<Net>) {
    && AreNets(w, nets)
    && Ascending(w, nets)
    && forall n, m | n in nets && m in nets :: !Mergeable(w, n, m)
  }

  /** Blocks that merge would be neighbours in the list. */
  lemma NormalByNeighbours(w: nat, nets: seq<Net>)
    requires AreNets(w, nets) && Ascending(w, nets)
    requires forall i | 0 <= i < |nets| - 1 :: !Mergeable(w, nets[i], nets[i + 1])
    ensures Normal(w, nets)
  {
    forall n, m | n in nets && m in nets
      ensures !Mergeable(w, n, m)
    {
      var i :| 0 <= i < |nets| && nets[i] == n;
      var j :| 0 <= j < |nets| && nets[j] == m;
      if i + 1 < j {
        assert nets[i + 1].addr <= Broadcast(w, nets[i + 1]) < nets[j].addr;
      } else if j < i {
        assert Broadcast(w, nets[j]) < nets[i].addr;
      }
    }
  }

  /** In a normal list no block made up of its addresses is larger than the blocks it meets: following
      the halves that are not in the list ends at an address that nothing covers. */
  lemma {:induction false} NothingLarger(w: nat, nets: seq<Net>, c: Net)
    requires Normal(w, nets) && IsNet(w, c)
    requires forall x: nat | Has(w, c, x) :: Covers(w, nets, x)
    ensures exists n :: n in nets && Inside(w, c, n)
    decreases w - c.plen
  {
    if forall n | n in nets :: !Inside(w, c, n) {
      if c.plen == w {
        assert Has(w, c, c.addr) && Covers(w, nets, c.addr);
        var n :| n in nets && Has(w, n, c.addr);
        assert Inside(w, c, n);
      } else {
        Halves(w, c);
        var lo, hi := LowHalf(c), HighHalf(w, c);
        NothingLarger(w, nets, lo);
        NothingLarger(w, nets, hi);
        var n :| n in nets && Inside(w, lo, n);
        var m :| m in nets && Inside(w, hi, m);
        HalfOrWhole(w, lo, c, n);
        HalfOrWhole(w, hi, c, m);
        assert Mergeable(w, n, m);
      }
    }
  }

  /** A block around a half of `c`, but not around `c`, is that half. */
  lemma HalfOrWhole(w: nat, half: Net, c: Net, n: Net)
    requires IsNet(w, c) && c.plen < w && IsNet(w, n)
    requires half == LowHalf(c) || half == HighHalf(w, c)
    requires Inside(w, half, n) && !Inside(w, c, n)
    ensures n == half
  {
    Halves(w, c);
    InsideIsLonger(w, half, n);
    if n != half {
      NestedWithPoint(w, n, c, half.addr);
    }
  }

  /** A block made up of a normal list's addresses lies inside each block of the list that it meets. */
  lemma MaximalInNormal(w: nat, nets: seq<Net>, c: Net, n: Net, x: nat)
    requires Normal(w, nets) && IsNet(w, c) && n in nets && Has(w, c, x) && Has(w, n, x)
    requires forall y: nat | Has(w, c, y) :: Covers(w, nets, y)
    ensures Inside(w, c, n)
  {
    NothingLarger(w, nets, c);
    var m :| m in nets && Inside(w, c, m);
    AscendingUnique(w, nets, m, n, x);
  }

  lemma AscendingUnique(w: nat, nets: seq<Net>, n: Net, m: Net, x: nat)
    requires AreNets(w, nets) && Ascending(w, nets)
    requires n in nets && m in nets && Has(w, n, x) && Has(w, m, x)
    ensures n == m
  {
    var i :| 0 <= i < |nets| && nets[i] == n;
    var j :| 0 <= j < |nets| && nets[j] == m;
    assert !(i < j) && !(j < i);
  }

  lemma NormalIncluded(w: nat, a: seq<Net>, b: seq<Net>, n: Net)
    requires Normal(w, a) && Normal(w, b) && SameAddresses(w, a, b) && n in a
    ensures n in b
  {
    assert Has(w, n, n.addr) && Covers(w, a, n.addr) && Covers(w, b, n.addr);
    var m :| m in b && Has(w, m, n.addr);
    forall y: nat | Has(w, n, y)
      ensures Covers(w, b, y)
    {
      assert Covers(w, a, y);
    }
    forall y: nat | Has(w, m, y)
      ensures Covers(w, a, y)
    {
      assert Covers(w, b, y);
    }
    MaximalInNormal(w, b, n, m, n.addr);
    MaximalInNormal(w, a, m, n, n.addr);
    InsideIsLonger(w, n, m);
    InsideIsLonger(w, m, n);
  }

  lemma FirstIsLowest(w: nat, nets: seq<Net>, i: nat)
    requires AreNets(w, nets) && Ascending(w, nets) && i < |nets|
    ensures nets[0].addr <= nets[i].addr && (nets[0].addr == nets[i].addr ==> i == 0)
  {
    if i > 0 {
      assert nets[0].addr <= Broadcast(w, nets[0]) < nets[i].addr;
    }
  }

  lemma {:induction false} AscendingDetermined(w: nat, a: seq<Net>, b: seq<Net>)
    requires AreNets(w, a) && AreNets(w, b) && Ascending(w, a) && Ascending(w, b)
    requires forall n :: n in a <==> n in b
    ensures a == b
    decreases |a|
  {
    if a == [] {
      assert forall i | 0 <= i < |b| :: b[i] in b;
    } else {
      assert a[0] in b && a[0] in a;
      assert b != [] && b[0] in a;
      var i :| 0 <= i < |a| && a[i] == b[0];
      var j :| 0 <= j < |b| && b[j] == a[0];
      FirstIsLowest(w, a, i);
      FirstIsLowest(w, b, j);
      forall n
        ensures n in a[1..] <==> n in b[1..]
      {
        TailHas(w, a, n);
        TailHas(w, b, n);
      }
      AscendingDetermined(w, a[1..], b[1..]);
      assert a == [a[0]] + a[1..] && b == [b[0]] + b[1..];
    }
  }

  lemma TailHas(w: nat, a: seq<Net>, n: Net)
    requires AreNets(w, a) && Ascending(w, a) && a != []
    ensures n in a[1..] <==> n in a && n != a[0]
  {
    if n in a[1..] {
      var i :| 0 <= i < |a[1..]| && a[1..][i] == n;
      assert a[i + 1] == n && Broadcast(w, a[0]) < a[i + 1].addr;
    }
  }

  /** The normal form of a set of addresses is unique. */
  lemma NormalFormUnique(w: nat, a: seq<Net>, b: seq<Net>)
    requires Normal(w, a) && Normal(w, b) && SameAddresses(w, a, b)
    ensures a == b
  {
    forall n
      ensures n in a <==> n in b
    {
      if n in a {
        NormalIncluded(w, a, b, n);
      }
      if n in b {
        NormalIncluded(w, b, a, n);
      }
    }
    AscendingDetermined(w, a, b);
  }

  /** The part of `b` that makes up one block of a normal list: at least one of its blocks. */
  lemma BlockNeedsOne(w: nat, a: seq<Net>, b: seq<Net>, n: Net) returns (i: nat)
    requires Normal(w, a) && AreNets(w, b) && SameAddresses(w, a, b) && n in a
    ensures i < |b| && Inside(w, b[i], n)
  {
    assert Has(w, n, n.addr) && Covers(w, a, n.addr) && Covers(w, b, n.addr);
    var m :| m in b && Has(w, m, n.addr);
    i :| i < |b| && b[i] == m;
    forall y: nat | Has(w, m, y)
      ensures Covers(w, a, y)
    {
      assert Covers(w, b, y);
    }
    MaximalInNormal(w, a, m, n, n.addr);
  }

  /** No list of blocks, overlapping or not, with the same addresses is shorter than the normal one. */
  lemma NormalFormShortest(w: nat, a: seq<Net>, b: seq<Net>)
    requires Normal(w, a) && AreNets(w, b) && SameAddresses(w, a, b)
    ensures |a| <= |b|
  {
    var picks := PickAll(w, a, b, |a|);
    DistinctPicksFit(picks, |b|);
  }

  lemma {:induction false} PickAll(w: nat, a: seq<Net>, b: seq<Net>, count: nat) returns (picks: seq<nat>)
    requires Normal(w, a) && AreNets(w, b) && SameAddresses(w, a, b) && count <= |a|
    ensures |picks| == count
    ensures forall i | 0 <= i < count :: picks[i] < |b| && Inside(w, b[picks[i]], a[i])
    ensures forall i, j | 0 <= i < j < count :: picks[i] != picks[j]
  {
    if count == 0 {
      return [];
    }
    var rest := PickAll(w, a, b, count - 1);
    var last := BlockNeedsOne(w, a, b, a[count - 1]);
    picks := rest + [last];
    forall i | 0 <= i < count - 1
      ensures rest[i] != last
    {
      assert Broadcast(w, a[i]) < a[count - 1].addr;
    }
  }

  function Chosen(picks: seq<nat>): set<nat> {
    if picks == [] then {} else Chosen(picks[..|picks| - 1]) + {picks[|picks| - 1]}
  }

  lemma {:induction false} DistinctPicksFit(picks: seq<nat>, n: nat)
    requires forall i | 0 <= i < |picks| :: picks[i] < n
    requires forall i, j | 0 <= i < j < |picks| :: picks[i] != picks[j]
    ensures |picks| <= n
  {
    ChosenCount(picks);
    RangeCount(Chosen(picks), n);
  }

  lemma {:induction false} ChosenCount(picks: seq<nat>)
    requires forall i, j | 0 <= i < j < |picks| :: picks[i] != picks[j]
    ensures |Chosen(picks)| == |picks|
    ensures forall p | p in Chosen(picks) :: p in picks
  {
    if picks != [] {
      var init, last := picks[..|picks| - 1], picks[|picks| - 1];
      ChosenCount(init);
      assert last !in init;
    }
  }

  lemma {:induction false} RangeCount(chosen: set<nat>, n: nat)
    requires forall p | p in chosen :: p < n
    ensures |chosen| <= n
  {
    if n == 0 {
      assert chosen == {};
    } else {
      RangeCount(chosen - {n - 1}, n - 1);
    }
  }
}
