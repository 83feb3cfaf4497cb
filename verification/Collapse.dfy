/** Collapsing a list of addresses and blocks to the normal form of the addresses it holds. */
module Collapse {
  import opened Powers
  import opened CidrBlocks
  import opened IpAddress
  import opened Wrappers

  /** An argument of `collapse_addresses`: a single address or a block. */
  datatype Item = Address(ip: nat) | Network(net: Net)

  predicate IsItem(w: nat, item: Item) {
    match item
    case Address(ip) => ip < Pow2(w)
    case Network(net) => IsNet(w, net)
  }

  predicate ItemHas(w: nat, item: Item, x: nat)
    requires IsItem(w, item)
  {
    match item
    case Address(ip) => x == ip
    case Network(net) => Has(w, net, x)
  }

  predicate AreItems(w: nat, items: seq<Item>) {
    forall i | 0 <= i < |items| :: IsItem(w, items[i])
  }

  ghost predicate ItemsCover(w: nat, items: seq<Item>, x: nat)
    requires AreItems(w, items)
  {
    exists i :: 0 <= i < |items| && ItemHas(w, items[i], x)
  }

  // ----- the order of blocks: by address, larger blocks first -----

  predicate Before(n: Net, m: Net) {
    n.addr < m.addr || (n.addr == m.addr && n.plen <= m.plen)
  }

  predicate Sorted(nets: seq<Net>) {
    forall i, j | 0 <= i < j < |nets| :: Before(nets[i], nets[j])
  }

  function InsertNet(sorted: seq<Net>, n: Net): (r: seq<Net>)
    requires Sorted(sorted)
    ensures Sorted(r)
    ensures forall m :: m in r <==> m == n || m in sorted
  {
    if sorted == [] then [n]
    else if Before(n, sorted[0]) then
      assert forall i | 0 <= i < |sorted| :: Before(n, sorted[i]);
      [n] + sorted
    else
      var rest := InsertNet(sorted[1..], n);
      assert forall i | 0 <= i < |rest| :: rest[i] == n || rest[i] in sorted[1..];
      assert sorted == [sorted[0]] + sorted[1..];
      [sorted[0]] + rest
  }

  lemma {:induction false} InsertNetPermutes(sorted: seq<Net>, n: Net)
    requires Sorted(sorted)
    ensures multiset(InsertNet(sorted, n)) == multiset(sorted) + multiset{n}
  {
    if sorted != [] && !Before(n, sorted[0]) {
      InsertNetPermutes(sorted[1..], n);
      assert sorted == [sorted[0]] + sorted[1..];
    }
  }

  method SortNets(nets: seq<Net>) returns (sorted: seq<Net>)
    ensures Sorted(sorted) && multiset(sorted) == multiset(nets)
    ensures forall n :: n in sorted <==> n in nets
  {
    sorted := [];
    for i := 0 to |nets|
      invariant Sorted(sorted) && multiset(sorted) == multiset(nets[..i])
      invariant forall n :: n in sorted <==> n in nets[..i]
    {
      InsertNetPermutes(sorted, nets[i]);
      sorted := InsertNet(sorted, nets[i]);
      assert nets[..i + 1] == nets[..i] + [nets[i]];
    }
    assert nets[..|nets|] == nets;
  }

  predicate Increasing(ips: seq<nat>) {
    forall i, j | 0 <= i < j < |ips| :: ips[i] < ips[j]
  }

  lemma IncreasingTail(ips: seq<nat>)
    requires Increasing(ips) && ips != []
    ensures Increasing(ips[1..])
    ensures forall x :: x in ips <==> x == ips[0] || x in ips[1..]
    ensures forall x | x in ips[1..] :: ips[0] < x
  {
    assert ips == [ips[0]] + ips[1..];
  }

  lemma IncreasingPrepend(ip: nat, ips: seq<nat>)
    requires Increasing(ips) && forall x | x in ips :: ip < x
    ensures Increasing([ip] + ips)
  {
    forall j | 0 <= j < |ips|
      ensures ip < ips[j]
    {
      assert ips[j] in ips;
    }
  }

  function InsertIp(sorted: seq<nat>, ip: nat): (r: seq<nat>)
    requires Increasing(sorted)
    ensures Increasing(r)
    ensures forall x :: x in r <==> x == ip || x in sorted
  {
    if sorted == [] then [ip]
    else
      IncreasingTail(sorted);
      if ip == sorted[0] then sorted
      else if ip < sorted[0] then
        IncreasingPrepend(ip, sorted);
        [ip] + sorted
      else
        var rest := InsertIp(sorted[1..], ip);
        IncreasingPrepend(sorted[0], rest);
        [sorted[0]] + rest
  }

  // ----- one pass and the loop around it -----

  /** The state of a pass over sorted blocks: what has been kept covers what has been read, and the
      rest comes after the last block kept. */
  ghost predicate Passed(w: nat, addresses: seq<Net>, i: nat, ret: seq<Net>, optimized: bool)
    requires AreNets(w, addresses) && i <= |addresses|
  {
    && AreNets(w, ret) && Ascending(w, ret) && SameAddresses(w, addresses[..i], ret)
    && (ret == [] <==> i == 0)
    && (ret != [] ==> forall j | i <= j < |addresses| :: Before(ret[|ret| - 1], addresses[j]))
    && (optimized ==> |ret| < i)
    && (!optimized ==> ret == addresses[..i] && forall k | 0 <= k < |ret| - 1 :: !Mergeable(w, ret[k], ret[k + 1]))
  }

  lemma ReadNext(w: nat, addresses: seq<Net>, i: nat, x: nat)
    requires AreNets(w, addresses) && i < |addresses|
    ensures Covers(w, addresses[..i + 1], x) <==> Covers(w, addresses[..i], x) || Has(w, addresses[i], x)
  {
  }

  /** A block inside the last one kept adds nothing. */
  lemma PassInside(w: nat, addresses: seq<Net>, i: nat, ret: seq<Net>, optimized: bool)
    requires AreNets(w, addresses) && i < |addresses| && Passed(w, addresses, i, ret, optimized)
    requires ret != [] && Inside(w, addresses[i], ret[|ret| - 1])
    ensures Passed(w, addresses, i + 1, ret, true)
  {
    var last := ret[|ret| - 1];
    assert last in ret;
    forall x: nat
      ensures Covers(w, addresses[..i + 1], x) <==> Covers(w, ret, x)
    {
      ReadNext(w, addresses, i, x);
    }
  }

  lemma AfterLast(w: nat, last: Net, cur: Net)
    requires IsNet(w, last) && IsNet(w, cur) && Before(last, cur)
    ensures Broadcast(w, last) < cur.addr || Inside(w, cur, last)
  {
    if cur.addr <= Broadcast(w, last) {
      NestedWithPoint(w, cur, last, cur.addr);
    }
  }

  /** A block after the last one kept is kept. */
  lemma PassAppend(w: nat, addresses: seq<Net>, i: nat, ret: seq<Net>, optimized: bool)
    requires AreNets(w, addresses) && Sorted(addresses) && i < |addresses| && Passed(w, addresses, i, ret, optimized)
    requires ret != [] ==> !Inside(w, addresses[i], ret[|ret| - 1]) && !Mergeable(w, ret[|ret| - 1], addresses[i])
    ensures Passed(w, addresses, i + 1, ret + [addresses[i]], optimized)
  {
    var cur := addresses[i];
    if ret != [] {
      AfterLast(w, ret[|ret| - 1], cur);
    }
    var more := ret + [cur];
    forall k | 0 <= k < |ret|
      ensures Broadcast(w, ret[k]) < cur.addr
    {
      assert ret[k].addr <= ret[|ret| - 1].addr;
    }
    assert AreNets(w, more) && Ascending(w, more);
    forall x: nat
      ensures Covers(w, addresses[..i + 1], x) <==> Covers(w, more, x)
    {
      ReadNext(w, addresses, i, x);
      CoversAppend(w, ret, cur, x);
    }
    assert addresses[..i + 1] == addresses[..i] + [cur];
  }

  /** The second half of the last block's supernet, after the first: both become the supernet. */
  lemma PassMerge(w: nat, addresses: seq<Net>, i: nat, ret: seq<Net>, optimized: bool, whole: Net)
    requires AreNets(w, addresses) && Sorted(addresses)
    requires 0 < i < |addresses| && Passed(w, addresses, i, ret, optimized)
    requires IsNet(w, whole) && whole.plen < w
    requires ret[|ret| - 1] == LowHalf(whole) && addresses[i] == HighHalf(w, whole)
    ensures Passed(w, addresses, i + 1, ret[|ret| - 1 := whole], true)
  {
    var init, last, cur := ret[..|ret| - 1], ret[|ret| - 1], addresses[i];
    var more := ret[|ret| - 1 := whole];
    Halves(w, whole);
    assert ret == init + [last] && more == init + [whole];
    forall x: nat
      ensures Covers(w, addresses[..i + 1], x) <==> Covers(w, more, x)
    {
      ReadNext(w, addresses, i, x);
      CoversAppend(w, init, last, x);
      CoversAppend(w, init, whole, x);
    }
    assert AreNets(w, more) && Ascending(w, more);
  }

  /** One pass: drops blocks inside the last one and merges halves. */
  method Pass(w: nat, addresses: seq<Net>) returns (ret: seq<Net>, optimized: bool)
    requires w > 0 && AreNets(w, addresses) && Sorted(addresses)
    ensures Passed(w, addresses, |addresses|, ret, optimized)
  {
    ret, optimized := [], false;
    for i := 0 to |addresses|
      invariant Passed(w, addresses, i, ret, optimized)
    {
      var cur := addresses[i];
      if ret == [] {
        PassAppend(w, addresses, i, ret, optimized);
        ret := ret + [cur];
      } else {
        var last := ret[|ret| - 1];
        if cur.addr >= last.addr && Broadcast(w, cur) <= Broadcast(w, last) {
          PassInside(w, addresses, i, ret, optimized);
          optimized := true;
        } else {
          WholeIsLast(w, cur, last);
          HalfOfSupernet(w, last);
          var whole := Supernet(w, last, 1, None).value;
          var s1, s2 := HalvesOf(w, whole);
          if cur == s2 {
            PassMerge(w, addresses, i, ret, optimized, whole);
            ret, optimized := ret[|ret| - 1 := whole], true;
          } else {
            NotMergeable(w, last, cur, whole);
            PassAppend(w, addresses, i, ret, optimized);
            ret := ret + [cur];
          }
        }
      }
    }
  }

  lemma WholeIsLast(w: nat, cur: Net, last: Net)
    requires IsNet(w, cur) && IsNet(w, last) && !Inside(w, cur, last)
    ensures last.plen > 0
  {
  }

  lemma NotMergeable(w: nat, last: Net, cur: Net, whole: Net)
    requires IsNet(w, last) && last.plen > 0 && IsNet(w, whole) && whole.plen == last.plen - 1
    requires last == LowHalf(whole) <==> Aligned(last.addr, w - last.plen + 1)
    requires cur != HighHalf(w, whole)
    ensures !Mergeable(w, last, cur)
  {
  }

  /** Passes until nothing changes: the normal form of the addresses. Each pass but the last shortens
      the list. */
  method CollapseRecursive(w: nat, sorted: seq<Net>) returns (addresses: seq<Net>)
    requires w > 0 && AreNets(w, sorted) && Sorted(sorted)
    ensures Normal(w, addresses) && SameAddresses(w, sorted, addresses)
  {
    addresses := sorted;
    while true
      invariant AreNets(w, addresses) && Sorted(addresses) && SameAddresses(w, sorted, addresses)
      decreases |addresses|
    {
      var ret, optimized := Pass(w, addresses);
      assert addresses[..|addresses|] == addresses;
      AscendingIsSorted(w, ret);
      ChainSame(w, sorted, addresses, ret);
      addresses := ret;
      if !optimized {
        NormalByNeighbours(w, ret);
        return;
      }
    }
  }

  lemma AscendingIsSorted(w: nat, nets: seq<Net>)
    requires AreNets(w, nets) && Ascending(w, nets)
    ensures Sorted(nets)
  {
  }

  lemma ChainSame(w: nat, a: seq<Net>, b: seq<Net>, c: seq<Net>)
    requires AreNets(w, a) && AreNets(w, b) && AreNets(w, c) && SameAddresses(w, a, b) && SameAddresses(w, b, c)
    ensures SameAddresses(w, a, c)
  {
  }

  // ----- the entry point -----

  /** The run of consecutive addresses that starts a list, and how many there are. */
  method FindAddressRange(addresses: seq<nat>) returns (first: nat, last: nat, count: nat)
    requires addresses != [] && Increasing(addresses)
    ensures 1 <= count <= |addresses| && first == addresses[0] && last == addresses[count - 1]
    ensures forall j | 0 <= j < count :: addresses[j] == first + j
    ensures count < |addresses| ==> addresses[count] != last + 1
  {
    first, last := addresses[0], addresses[0];
    count := 1;
    while count < |addresses|
      invariant 1 <= count <= |addresses| && last == addresses[count - 1]
      invariant forall j | 0 <= j < count :: addresses[j] == first + j
      decreases |addresses| - count
    {
      var ip := addresses[count];
      if ip == last + 1 {
        last := ip;
        count := count + 1;
      } else {
        break;
      }
    }
  }

  /** Splits the arguments into single addresses, sorted without repetition, and larger blocks. */
  method SplitItems(w: nat, items: seq<Item>) returns (ips: seq<nat>, nets: seq<Net>)
    requires AreItems(w, items)
    ensures AreNets(w, nets) && forall i | 0 <= i < |ips| :: ips[i] < Pow2(w)
    ensures Increasing(ips)
    ensures forall x: nat :: ItemsCover(w, items, x) <==> x in ips || Covers(w, nets, x)
  {
    ips, nets := [], [];
    for k := 0 to |items|
      invariant AreNets(w, nets) && forall i | 0 <= i < |ips| :: ips[i] < Pow2(w)
      invariant Increasing(ips)
      invariant forall x: nat :: ItemsCover(w, items[..k], x) <==> x in ips || Covers(w, nets, x)
    {
      var ips0, nets0 := ips, nets;
      match items[k] {
        case Address(ip) => ips := InsertIp(ips, ip);
        case Network(net) =>
          if net.plen == w {
            ips := InsertIp(ips, net.addr);
            assert Size(w, net) == 1;
          } else {
            nets := nets + [net];
          }
      }
      assert forall i | 0 <= i < |ips| :: ips[i] < Pow2(w) by {
        assert forall i | 0 <= i < |ips| :: ips[i] in ips;
      }
      forall x: nat
        ensures ItemsCover(w, items[..k + 1], x) <==> x in ips || Covers(w, nets, x)
      {
        ItemsNext(w, items, k, x);
        if items[k].Network? && items[k].net.plen != w {
          CoversAppend(w, nets0, items[k].net, x);
        }
      }
    }
    assert items[..|items|] == items;
  }

  lemma ItemsNext(w: nat, items: seq<Item>, k: nat, x: nat)
    requires AreItems(w, items) && k < |items|
    ensures ItemsCover(w, items[..k + 1], x) <==> ItemsCover(w, items[..k], x) || ItemHas(w, items[k], x)
  {
  }

  /** Summarises every run of consecutive addresses. */
  method SummarizeAll(w: nat, ips: seq<nat>) returns (addrs: seq<Net>)
    requires w > 0 && forall i | 0 <= i < |ips| :: ips[i] < Pow2(w)
    requires Increasing(ips)
    ensures AreNets(w, addrs) && forall x: nat :: Covers(w, addrs, x) <==> x in ips
  {
    addrs := [];
    var i := 0;
    while i < |ips|
      invariant i <= |ips| && AreNets(w, addrs)
      invariant forall x: nat :: Covers(w, addrs, x) <==> x in ips[..i]
    {
      var first, last, count := FindAddressRange(ips[i..]);
      var r := SummarizeAddressRange(w, first, last);
      var more := addrs + r.value;
      forall x: nat
        ensures Covers(w, more, x) <==> x in ips[..i + count]
      {
        CoversBoth(w, addrs, r.value, x);
        RangeMembers(ips, i, count, first, x);
      }
      addrs := more;
      i := i + count;
    }
    assert ips[..|ips|] == ips;
  }

  lemma CoversBoth(w: nat, a: seq<Net>, b: seq<Net>, x: nat)
    requires AreNets(w, a) && AreNets(w, b)
    ensures AreNets(w, a + b) && (Covers(w, a + b, x) <==> Covers(w, a, x) || Covers(w, b, x))
  {
  }

  lemma RangeMembers(ips: seq<nat>, i: nat, count: nat, first: nat, x: nat)
    requires i + count <= |ips| && forall j | 0 <= j < count :: ips[i..][j] == first + j
    ensures x in ips[..i + count] <==> x in ips[..i] || first <= x < first + count
  {
    assert ips[..i + count] == ips[..i] + ips[i..i + count];
    if first <= x < first + count {
      assert ips[i..][x - first] == x && ips[i..i + count][x - first] == x;
    }
    if x in ips[i..i + count] {
      var j :| 0 <= j < count && ips[i..i + count][j] == x;
      assert ips[i..][j] == x;
    }
  }

  /** The normal form of the addresses that the arguments hold. */
  method CollapseAddresses(w: nat, items: seq<Item>) returns (nets: seq<Net>)
    requires w > 0 && AreItems(w, items)
    ensures Normal(w, nets)
    ensures forall x: nat :: Covers(w, nets, x) <==> ItemsCover(w, items, x)
  {
    var ips, blocks := SplitItems(w, items);
    var addrs := SummarizeAll(w, ips);
    var all := addrs + blocks;
    var sorted := SortNets(all);
    forall i | 0 <= i < |sorted|
      ensures IsNet(w, sorted[i])
    {
      assert sorted[i] in all;
    }
    forall x: nat
      ensures Covers(w, sorted, x) <==> ItemsCover(w, items, x)
    {
      CoversBoth(w, addrs, blocks, x);
    }
    nets := CollapseRecursive(w, sorted);
  }

  /** Two lists of arguments that hold the same addresses collapse to the same list. */
  lemma CollapseIsCanonical(w: nat, items: seq<Item>, others: seq<Item>, nets: seq<Net>, nets': seq<Net>)
    requires AreItems(w, items) && AreItems(w, others) && Normal(w, nets) && Normal(w, nets')
    requires forall x: nat :: Covers(w, nets, x) <==> ItemsCover(w, items, x)
    requires forall x: nat :: Covers(w, nets', x) <==> ItemsCover(w, others, x)
    ensures nets == nets' <==> forall x: nat :: ItemsCover(w, items, x) <==> ItemsCover(w, others, x)
  {
    if forall x: nat :: ItemsCover(w, items, x) <==> ItemsCover(w, others, x) {
      NormalFormUnique(w, nets, nets');
    }
  }
}
