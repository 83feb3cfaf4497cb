/** Summarising, collapsing, splitting and excluding CIDR blocks. The address width `w` is a
    parameter: 32 for one version, 128 for the other. */
module IpAddress {
  import opened Powers
  import opened CidrBlocks
  import opened Wrappers

  // ----- summarising a range -----

  /** The blocks of `nets` hold exactly the addresses from `lo` up to, not including, `hi`. */
  ghost predicate Tiles(w: nat, nets: seq<Net>, lo: nat, hi: nat)
    requires AreNets(w, nets)
  {
    forall x: nat :: Covers(w, nets, x) <==> lo <= x < hi
  }

  /** Neighbours do not merge, and the last block will not merge with the next one either: it is odd,
      or it was cut short by what is left of the range. */
  ghost predicate Unmerged(w: nat, nets: seq<Net>, cur: nat, left: nat)
    requires AreNets(w, nets)
  {
    && (forall i | 0 <= i < |nets| - 1 :: !Mergeable(w, nets[i], nets[i + 1]))
    && (nets != [] ==>
          var n := nets[|nets| - 1];
          && Broadcast(w, n) + 1 == cur
          && (n.plen == 0 || !Aligned(n.addr, w - n.plen + 1) || left < Size(w, n)))
  }

  lemma UnmergedNext(w: nat, nets: seq<Net>, n: Net, left: nat)
    requires AreNets(w, nets) && IsNet(w, n) && Unmerged(w, nets, n.addr, left) && Size(w, n) <= left
    requires n.plen > 0 && Aligned(n.addr, w - n.plen + 1) ==> left < 2 * Size(w, n)
    ensures AreNets(w, nets + [n]) && Unmerged(w, nets + [n], n.addr + Size(w, n), left - Size(w, n))
  {
  }

  /** The budget of blocks: while they grow their number bounds the alignment of the next address,
      afterwards the sizes fall. */
  ghost predicate Budget(w: nat, count: nat, cur: nat, left: nat, falling: bool, d: nat) {
    if falling then left < Pow2(d) && Aligned(cur, d) && count + d <= 2 * w
    else Aligned(cur, count) && (cur > 0 ==> count <= w)  && (cur == 0 ==> count == 0)
  }

  lemma AppendTile(w: nat, nets: seq<Net>, n: Net, lo: nat, cur: nat)
    requires AreNets(w, nets) && Ascending(w, nets) && IsNet(w, n)
    requires Tiles(w, nets, lo, cur) && n.addr == cur && lo <= cur
    ensures var more := nets + [n];
            && AreNets(w, more) && Ascending(w, more) && Tiles(w, more, lo, cur + Size(w, n))
  {
    var more := nets + [n];
    forall i | 0 <= i < |nets|
      ensures Broadcast(w, nets[i]) < cur
    {
      assert nets[i] in nets && Has(w, nets[i], Broadcast(w, nets[i]));
      assert Covers(w, nets, Broadcast(w, nets[i]));
    }
    forall x: nat
      ensures Covers(w, more, x) <==> lo <= x < cur + Size(w, n)
    {
      CoversAppend(w, nets, n, x);
    }
  }

  lemma CoversAppend(w: nat, nets: seq<Net>, n: Net, x: nat)
    requires AreNets(w, nets) && IsNet(w, n)
    ensures AreNets(w, nets + [n]) && (Covers(w, nets + [n], x) <==> Covers(w, nets, x) || Has(w, n, x))
  {
    if Covers(w, nets, x) {
      var m :| m in nets && Has(w, m, x);
      assert m in nets + [n];
    }
    if Has(w, n, x) {
      assert n in nets + [n];
    }
  }

  /** One step of the range: the next block, and what it keeps. */
  method NextBlock(w: nat, cur: nat, last: nat) returns (n: Net, nbits: nat)
    requires cur <= last < Pow2(w)
    ensures nbits <= w && n == Net(cur, w - nbits) && IsNet(w, n) && cur + Pow2(nbits) <= last + 1
    ensures nbits < w && Aligned(cur, nbits + 1) ==> last + 1 < cur + 2 * Pow2(nbits)
  {
    var zeros := CountRighthandZeroBits(cur, w);
    var room := BitLength(last - cur + 1) - 1;
    BitLengthBounds(last - cur + 1);
    nbits := if zeros < room then zeros else room;
    n := Net(cur, w - nbits);
    AlignedLess(cur, nbits, zeros);
    Pow2Grows(nbits, room);
    if nbits < w && Aligned(cur, nbits + 1) {
      assert nbits == room;
    }
  }

  lemma BudgetHolds(w: nat, count: nat, cur: nat, last: nat, falling: bool, d: nat, nbits: nat)
      returns (falling': bool, d': nat)
    requires w > 0 && cur <= last < Pow2(w) && nbits <= w && Aligned(cur, nbits)
    requires cur + Pow2(nbits) <= last + 1
    requires nbits < w && Aligned(cur, nbits + 1) ==> last + 1 < cur + 2 * Pow2(nbits)
    requires Budget(w, count, cur, last + 1 - cur, falling, d)
    ensures Budget(w, count + 1, cur + Pow2(nbits), last + 1 - cur - Pow2(nbits), falling', d')
  {
    Pow2Aligned(nbits, nbits);
    AlignedAdd(cur, Pow2(nbits), nbits);
    if falling {
      Pow2Order(nbits, d);
      assert Pow2(nbits) < Pow2(d);
      AlignedLess(cur, nbits + 1, d);
      Pow2Order(nbits, w);
      return true, nbits;
    }
    if cur > 0 {
      ZeroAligned(count);
      AlignedGap(0, cur, count);
      Pow2Order(count, w);
    }
    assert count < w;
    if nbits < w && Aligned(cur, nbits + 1) {
      return true, nbits;
    }
    OddStep(w, count, cur, nbits);
    return false, 0;
  }

  lemma OddStep(w: nat, count: nat, cur: nat, nbits: nat)
    requires cur < Pow2(w) && count < w && Aligned(cur, count) && nbits <= w && Aligned(cur, nbits)
    requires nbits == w || !Aligned(cur, nbits + 1)
    ensures Aligned(cur + Pow2(nbits), count + 1)
  {
    if nbits == w {
      if cur > 0 {
        ZeroAligned(w);
        AlignedGap(0, cur, w);
      }
      Pow2Aligned(count + 1, w);
    } else {
      if nbits < count {
        AlignedLess(cur, nbits + 1, count);
      }
      AlignedHalf(cur, nbits);
      Pow2Aligned(nbits + 1, nbits + 1);
      AlignedAdd(cur - Pow2(nbits), Pow2(nbits + 1), nbits + 1);
      assert cur - Pow2(nbits) + Pow2(nbits + 1) == cur + Pow2(nbits);
      AlignedLess(cur + Pow2(nbits), count + 1, nbits + 1);
    }
  }

  /** Aligned, consecutive blocks that hold exactly the addresses from `first` to `last`: the shortest
      list of blocks that does, with at most 2 * w blocks. */
  method SummarizeAddressRange(w: nat, first: nat, last: nat) returns (r: Result<seq<Net>>)
    requires w > 0 && first < Pow2(w) && last < Pow2(w)
    ensures r.Err? <==> first > last
    ensures r.Ok? ==>
              && Normal(w, r.value) && |r.value| <= 2 * w
              && Tiles(w, r.value, first, last + 1)
              && forall other | AreNets(w, other) && Tiles(w, other, first, last + 1) :: |r.value| <= |other|
  {
    if first > last {
      return Err("last IP address must be greater than first");
    }
    var nets: seq<Net> := [];
    var cur := first;
    ghost var falling, d := false, 0;
    while cur <= last
      invariant first <= cur <= last + 1
      invariant AreNets(w, nets) && Ascending(w, nets) && Tiles(w, nets, first, cur)
      invariant Unmerged(w, nets, cur, last + 1 - cur)
      invariant Budget(w, |nets|, cur, last + 1 - cur, falling, d)
      decreases last + 1 - cur
    {
      hide AreNets, Ascending, Tiles, Unmerged, Budget;
      var net, nbits := NextBlock(w, cur, last);
      AppendTile(w, nets, net, first, cur);
      UnmergedNext(w, nets, net, last + 1 - cur);
      falling, d := BudgetHolds(w, |nets|, cur, last, falling, d, nbits);
      nets := nets + [net];
      cur := cur + Pow2(nbits);
      if cur - 1 == Pow2(w) - 1 {
        break;
      }
    }
    NormalByNeighbours(w, nets);
    forall other | AreNets(w, other) && Tiles(w, other, first, last + 1)
      ensures |nets| <= |other|
    {
      NormalFormShortest(w, nets, other);
    }
    return Ok(nets);
  }

  // ----- larger and smaller blocks -----

  /** The block that holds `n` and has a shorter prefix; the whole address space is its own. */
  function Supernet(w: nat, n: Net, prefixlenDiff: int, newPrefix: Option<int>): (r: Result<Net>)
    requires IsNet(w, n)
    ensures r.Ok? ==> IsNet(w, r.value)
    ensures r.Ok? && r.value.plen <= n.plen ==> Inside(w, n, r.value)
    ensures r.Ok? && r.value.plen >= n.plen ==> r.value.addr == n.addr
    ensures n.plen == 0 ==> r == Ok(n)
    ensures n.plen > 0 && newPrefix.None? ==>
              (r.Ok? <==> 0 <= n.plen - prefixlenDiff <= w) && (r.Ok? ==> r.value.plen == n.plen - prefixlenDiff)
    ensures n.plen > 0 && newPrefix.Some? ==>
              && (r.Ok? <==> 0 <= newPrefix.value <= n.plen && prefixlenDiff == 1)
              && (r.Ok? ==> r.value.plen == newPrefix.value)
  {
    if n.plen == 0 then Ok(n)
    else if newPrefix.Some? && newPrefix.value > n.plen then Err("new prefix must be shorter")
    else if newPrefix.Some? && prefixlenDiff != 1 then Err("cannot set prefixlen_diff and new_prefix")
    else
      var plen := if newPrefix.Some? then newPrefix.value else n.plen - prefixlenDiff;
      if plen < 0 then Err("prefixlen_diff too large")
      else if plen > w then Err("not a valid netmask")
      else
        var m := Net(ClearLow(n.addr, w - plen), plen);
        ClearLowProperties(n.addr, w - plen);
        MaskedIsNet(w, n.addr, plen);
        assert m.plen >= n.plen ==> m.addr == n.addr by {
          if m.plen >= n.plen {
            AlignedLess(n.addr, w - plen, w - n.plen);
            ClearLowAligned(n.addr, w - plen);
          }
        }
        assert m.plen <= n.plen ==> Inside(w, n, m) by {
          if m.plen <= n.plen {
            NestedWithPoint(w, n, m, n.addr);
          }
        }
        Ok(m)
  }

  lemma MaskedIsNet(w: nat, addr: nat, plen: nat)
    requires plen <= w && addr < Pow2(w)
    ensures IsNet(w, Net(ClearLow(addr, w - plen), plen))
  {
    var k := w - plen;
    ClearLowProperties(addr, k);
    Pow2Aligned(k, w);
    AlignedGap(ClearLow(addr, k), Pow2(w), k);
  }

  /** A block is one of the halves of its supernet. */
  lemma HalfOfSupernet(w: nat, n: Net)
    requires IsNet(w, n) && n.plen > 0
    ensures var r := Supernet(w, n, 1, None);
            && r.Ok? && r.value.plen == n.plen - 1 && IsNet(w, r.value)
            && (n == LowHalf(r.value) || n == HighHalf(w, r.value))
            && (n == LowHalf(r.value) <==> Aligned(n.addr, w - n.plen + 1))
  {
    var m := Supernet(w, n, 1, None).value;
    Halves(w, m);
    InOneHalf(w, n, m);
    if Inside(w, n, LowHalf(m)) {
      InsideIsLonger(w, n, LowHalf(m));
    } else {
      InsideIsLonger(w, n, HighHalf(w, m));
      if Aligned(n.addr, w - n.plen + 1) {
        AlignedGap(m.addr, n.addr, w - n.plen + 1);
      }
    }
  }

  /** `count` blocks of one size, one after the other from `lo` up to `hi`. */
  ghost predicate Row(w: nat, nets: seq<Net>, plen: nat, lo: nat, hi: nat) {
    && plen <= w && AreNets(w, nets) && Ascending(w, nets) && Tiles(w, nets, lo, hi)
    && (forall n | n in nets :: n.plen == plen)
    && hi == lo + |nets| * Pow2(w - plen)
  }

  lemma RowNext(w: nat, nets: seq<Net>, plen: nat, lo: nat, n: Net)
    requires IsNet(w, n) && n.plen == plen && Row(w, nets, plen, lo, n.addr) && lo <= n.addr
    ensures Row(w, nets + [n], plen, lo, n.addr + Size(w, n))
  {
    AppendTile(w, nets, n, lo, n.addr);
    assert |nets + [n]| * Pow2(w - plen) == |nets| * Pow2(w - plen) + Pow2(w - plen);
  }

  lemma NoRow(w: nat, plen: nat, lo: nat)
    requires plen <= w
    ensures Row(w, [], plen, lo, lo)
  {
  }

  lemma RowCount(count: nat, whole: nat, part: nat)
    requires part <= whole && Pow2(whole) == count * Pow2(part)
    ensures count == Pow2(whole - part)
  {
    Pow2Add(whole - part, part);
    var m, p := Pow2(part), Pow2(whole - part);
    CancelFactor(count, p, m);
  }

  lemma CancelFactor(a: nat, b: nat, m: nat)
    requires m > 0 && a * m == b * m
    ensures a == b
  {
    assert (a - b) * m == 0;
  }

  /** The blocks of a longer prefix that make up `n`: 2^diff of them, in order. A block of one address
      is its own only subnet, whatever is asked for. */
  method Subnets(w: nat, n: Net, prefixlenDiff: int, newPrefix: Option<int>) returns (r: Result<seq<Net>>)
    requires IsNet(w, n)
    ensures n.plen == w ==> r == Ok([n])
    ensures n.plen < w ==>
              (r.Ok? <==> if newPrefix.Some? then n.plen <= newPrefix.value <= w && prefixlenDiff == 1
                          else 0 <= prefixlenDiff <= w - n.plen)
    ensures n.plen < w && r.Ok? ==>
              var plen := if newPrefix.Some? then newPrefix.value else n.plen + prefixlenDiff;
              Row(w, r.value, plen, n.addr, n.addr + Size(w, n)) && |r.value| == Pow2(plen - n.plen)
  {
    if n.plen == w {
      return Ok([n]);
    }
    var diff := prefixlenDiff;
    if newPrefix.Some? {
      if newPrefix.value < n.plen {
        return Err("new prefix must be longer");
      }
      if prefixlenDiff != 1 {
        return Err("cannot set prefixlen_diff and new_prefix");
      }
      diff := newPrefix.value - n.plen;
    }
    if diff < 0 {
      return Err("prefix length diff must be > 0");
    }
    var newPrefixlen := n.plen + diff;
    if newPrefixlen > w {
      return Err("prefix length diff is invalid for netblock");
    }
    var nets := Enumerate(w, n, newPrefixlen);
    RowCount(|nets|, w - n.plen, w - newPrefixlen);
    return Ok(nets);
  }

  method Enumerate(w: nat, n: Net, plen: nat) returns (nets: seq<Net>)
    requires IsNet(w, n) && n.plen <= plen <= w
    ensures Row(w, nets, plen, n.addr, n.addr + Size(w, n))
  {
    hide Row;
    var k := w - plen;
    AlignedLess(n.addr, k, w - n.plen);
    Pow2Aligned(k, w - n.plen);
    Pow2Grows(k, w - n.plen);
    AlignedAdd(n.addr, Size(w, n), k);
    var current := Net(n.addr, plen);
    ghost var hi := n.addr + Size(w, n);
    NoRow(w, plen, n.addr);
    RowNext(w, [], plen, n.addr, current);
    nets := [current];
    assert [] + [current] == nets;
    while Broadcast(w, current) != Broadcast(w, n)
      invariant IsNet(w, current) && current.plen == plen && n.addr <= current.addr
      invariant current.addr + Pow2(k) <= hi
      invariant Row(w, nets, plen, n.addr, current.addr + Pow2(k))
      decreases hi - current.addr
    {
      Pow2Aligned(k, k);
      AlignedAdd(current.addr, Pow2(k), k);
      AlignedGap(current.addr + Pow2(k), hi, k);
      current := Net(Broadcast(w, current) + 1, plen);
      RowNext(w, nets, plen, n.addr, current);
      nets := nets + [current];
    }
  }

  // ----- excluding a block -----

  /** `nets` are disjoint blocks that hold what `whole` holds and `part` does not. */
  ghost predicate Remainder(w: nat, nets: seq<Net>, whole: Net, part: Net)
    requires IsNet(w, whole) && IsNet(w, part)
  {
    && AreNets(w, nets)
    && (forall x: nat :: Covers(w, nets, x) <==> Has(w, whole, x) && !Has(w, part, x))
    && (forall i, j | 0 <= i < j < |nets| :: Disjoint(w, nets[i], nets[j]))
  }

  /** Handing out the other half of what is left keeps the remainder. */
  lemma RemainderNext(w: nat, nets: seq<Net>, whole: Net, left: Net, half: Net, rest: Net)
    requires IsNet(w, whole) && IsNet(w, left) && left.plen < w && Inside(w, left, whole)
    requires Remainder(w, nets, whole, left)
    requires || (half == LowHalf(left) && rest == HighHalf(w, left))
             || (half == HighHalf(w, left) && rest == LowHalf(left))
    ensures IsNet(w, half) && IsNet(w, rest) && Inside(w, rest, whole) && Remainder(w, nets + [half], whole, rest)
  {
    Halves(w, left);
    forall x: nat
      ensures Covers(w, nets + [half], x) <==> Has(w, whole, x) && !Has(w, rest, x)
    {
      CoversAppend(w, nets, half, x);
    }
    forall i | 0 <= i < |nets|
      ensures Disjoint(w, nets[i], half)
    {
      assert nets[i] in nets;
      MeetOrDisjoint(w, nets[i], half);
      if x: nat :| Has(w, nets[i], x) && Has(w, half, x) {
        assert Covers(w, nets, x);
      }
    }
  }

  lemma MeetOrDisjoint(w: nat, n: Net, m: Net)
    requires n.plen <= w && m.plen <= w
    ensures Disjoint(w, n, m) || exists x: nat :: Has(w, n, x) && Has(w, m, x)
  {
    var x := if n.addr < m.addr then m.addr else n.addr;
    assert Disjoint(w, n, m) || (Has(w, n, x) && Has(w, m, x));
  }

  /** What is left of `whole` without `other`: one block for each bit of the difference. */
  method AddressExclude(w: nat, whole: Net, other: Net) returns (r: Result<seq<Net>>)
    requires IsNet(w, whole) && IsNet(w, other)
    ensures r.Ok? <==> Inside(w, other, whole)
    ensures r.Ok? ==> Remainder(w, r.value, whole, other) && |r.value| == other.plen - whole.plen
  {
    if !(other.addr >= whole.addr && Broadcast(w, other) <= Broadcast(w, whole)) {
      return Err("not contained");
    }
    InsideIsLonger(w, other, whole);
    if other == whole {
      return Ok([]);
    }
    var nets: seq<Net> := [];
    ghost var left := whole;
    InOneHalf(w, other, whole);
    var s1, s2 := HalvesOf(w, whole);
    while s1 != other && s2 != other
      invariant IsNet(w, left) && Inside(w, left, whole) && Inside(w, other, left) && other != left
      invariant left.plen < w && s1 == LowHalf(left) && s2 == HighHalf(w, left)
      invariant Remainder(w, nets, whole, left) && |nets| == left.plen - whole.plen
      decreases w - left.plen
    {
      Halves(w, left);
      InOneHalf(w, other, left);
      if s1.addr <= other.addr && Broadcast(w, other) <= Broadcast(w, s1) {
        RemainderNext(w, nets, whole, left, s2, s1);
        nets := nets + [s2];
        left := s1;
        InOneHalf(w, other, left);
        s1, s2 := HalvesOf(w, s1);
      } else if s2.addr <= other.addr && Broadcast(w, other) <= Broadcast(w, s2) {
        RemainderNext(w, nets, whole, left, s1, s2);
        nets := nets + [s1];
        left := s2;
        InOneHalf(w, other, left);
        s1, s2 := HalvesOf(w, s2);
      } else {
        assert false;
      }
    }
    InsideIsLonger(w, other, left);
    if s1 == other {
      RemainderNext(w, nets, whole, left, s2, s1);
      nets := nets + [s2];
    } else if s2 == other {
      RemainderNext(w, nets, whole, left, s1, s2);
      nets := nets + [s1];
    } else {
      assert false;
    }
    return Ok(nets);
  }

  /** `s1, s2 = n.subnets()`. */
  method HalvesOf(w: nat, n: Net) returns (s1: Net, s2: Net)
    requires IsNet(w, n) && n.plen < w
    ensures s1 == LowHalf(n) && s2 == HighHalf(w, n)
  {
    var r := Subnets(w, n, 1, None);
    RowOfTwo(w, r.value, n);
    s1, s2 := r.value[0], r.value[1];
  }

  /** A row holds every block of its size that starts in it. */
  lemma RowHas(w: nat, nets: seq<Net>, plen: nat, lo: nat, hi: nat, n: Net)
    requires Row(w, nets, plen, lo, hi) && IsNet(w, n) && n.plen == plen && lo <= n.addr < hi
    ensures n in nets
  {
    CoveredBy(w, nets, n.addr);
    assert Covers(w, nets, n.addr);
    var m :| m in nets && Has(w, m, n.addr);
    NestedWithPoint(w, m, n, n.addr);
  }

  lemma RowOfTwo(w: nat, nets: seq<Net>, n: Net)
    requires IsNet(w, n) && n.plen < w && Row(w, nets, n.plen + 1, n.addr, n.addr + Size(w, n)) && |nets| == Pow2(1)
    ensures nets == [LowHalf(n), HighHalf(w, n)]
  {
    Halves(w, n);
    assert Pow2(1) == 2 * Pow2(0);
    RowHas(w, nets, n.plen + 1, n.addr, n.addr + Size(w, n), LowHalf(n));
    RowHas(w, nets, n.plen + 1, n.addr, n.addr + Size(w, n), HighHalf(w, n));
    assert Broadcast(w, nets[0]) < nets[1].addr;
    assert LowHalf(n).addr < HighHalf(w, n).addr;
    assert nets == [nets[0], nets[1]];
  }

  lemma CoveredBy(w: nat, nets: seq<Net>, x: nat)
    requires AreNets(w, nets)
    ensures Covers(w, nets, x) <==> exists i :: 0 <= i < |nets| && Has(w, nets[i], x)
  {
  }
}
