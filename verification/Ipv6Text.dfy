/** The text form of IPv6 addresses: the printer, the parser, and the notation they share. */
module Ipv6Text {
  import opened Texts

  const HEXTET_COUNT := 8
  const MAX_ADDRESS: nat := 0xFFFF_FFFF_FFFF_FFFF_FFFF_FFFF_FFFF_FFFF

  // ----- hexadecimal -----

  /** The last `width` hexadecimal digits of `n`: `'%0<width>x' % n` when `n` fits. */
  function PadHex(n: nat, width: nat): (s: string)
    ensures |s| == width
  {
    if width == 0 then "" else PadHex(n / 16, width - 1) + [HexDigit(n % 16)]
  }

  lemma HextetLength(n: nat)
    requires n < 0x1_0000
    ensures |ToHex(n)| <= 4
  {
    var a := n / 16;
    var b := a / 16;
    assert b / 16 < 16;
    assert |ToHex(b)| <= 2;
    assert |ToHex(a)| <= 3;
  }

  lemma {:induction false} PadIsHex(n: nat, width: nat)
    ensures IsHex(PadHex(n, width))
  {
    if width > 0 {
      PadIsHex(n / 16, width - 1);
      DigitRoundTrip(n % 16);
    }
  }

  lemma PadHextet(n: nat)
    ensures IsHex(PadHex(n, 4)) && FromHex(PadHex(n, 4)) == n % 0x1_0000
  {
    var a := n / 16;
    var b := a / 16;
    var c := b / 16;
    PadStep(n, 3);
    PadStep(a, 2);
    PadStep(b, 1);
    PadStep(c, 0);
    FourDigits(n, a, b, c);
  }

  lemma FourDigits(n: nat, a: nat, b: nat, c: nat)
    requires a == n / 16 && b == a / 16 && c == b / 16
    ensures n % 0x1_0000 == 16 * (16 * (16 * (c % 16) + b % 16) + a % 16) + n % 16
  {
    var r := 16 * (16 * (16 * (c % 16) + b % 16) + a % 16) + n % 16;
    assert c == 16 * (c / 16) + c % 16;
    assert n == 0x1_0000 * (c / 16) + r;
    assert 0 <= r < 0x1_0000;
  }

  lemma PadStep(n: nat, width: nat)
    ensures IsHex(PadHex(n, width + 1)) && IsHex(PadHex(n / 16, width))
    ensures FromHex(PadHex(n, width + 1)) == 16 * FromHex(PadHex(n / 16, width)) + n % 16
  {
    PadIsHex(n, width + 1);
    PadIsHex(n / 16, width);
    DigitRoundTrip(n % 16);
    var s := PadHex(n, width + 1);
    assert s[..|s| - 1] == PadHex(n / 16, width);
  }

  // ----- addresses as eight numbers -----

  /** The last `count` 16-bit groups of `n`, the highest first. */
  function Groups(n: nat, count: nat): (hs: seq<nat>)
    ensures |hs| == count && forall i | 0 <= i < count :: hs[i] < 0x1_0000
  {
    if count == 0 then [] else Groups(n / 0x1_0000, count - 1) + [n % 0x1_0000]
  }

  /** Shifts in one group after the other, the highest first. */
  function Combine(hs: seq<nat>): nat {
    if hs == [] then 0 else 0x1_0000 * Combine(hs[..|hs| - 1]) + hs[|hs| - 1]
  }

  function Bound(count: nat): nat {
    if count == 0 then 1 else 0x1_0000 * Bound(count - 1)
  }

  lemma {:induction false} GroupsRoundTrip(n: nat, count: nat)
    requires n < Bound(count)
    ensures Combine(Groups(n, count)) == n
  {
    if count > 0 {
      GroupsRoundTrip(n / 0x1_0000, count - 1);
      var hs := Groups(n, count);
      assert hs[..|hs| - 1] == Groups(n / 0x1_0000, count - 1);
    }
  }

  lemma {:induction false} CombineBound(hs: seq<nat>)
    requires forall i | 0 <= i < |hs| :: hs[i] < 0x1_0000
    ensures Combine(hs) < Bound(|hs|)
  {
    if hs != [] {
      CombineBound(hs[..|hs| - 1]);
    }
  }

  /** The four-digit slices of the padded text are the groups. */
  lemma {:induction false} SlicesAreGroups(n: nat, count: nat, k: nat)
    requires k < count
    ensures |PadHex(n, 4 * count)| == 4 * count
    ensures IsHex(PadHex(n, 4 * count)[4 * k..4 * k + 4])
    ensures FromHex(PadHex(n, 4 * count)[4 * k..4 * k + 4]) == Groups(n, count)[k]
    decreases count
  {
    var s, high := PadHex(n, 4 * count), PadHex(n / 0x1_0000, 4 * (count - 1));
    PadSplit(n, 4 * (count - 1));
    assert s == high + PadHex(n, 4);
    if k == count - 1 {
      assert s[4 * k..4 * k + 4] == PadHex(n, 4);
      PadHextet(n);
    } else {
      SlicesAreGroups(n / 0x1_0000, count - 1, k);
      assert s[4 * k..4 * k + 4] == high[4 * k..4 * k + 4];
    }
  }

  lemma PadSplit(n: nat, width: nat)
    ensures PadHex(n, width + 4) == PadHex(n / 0x1_0000, width) + PadHex(n, 4)
  {
    var a := n / 16;
    var b := a / 16;
    var c := b / 16;
    assert c / 16 == n / 0x1_0000;
    assert PadHex(n, width + 4) == PadHex(a, width + 3) + [HexDigit(n % 16)];
    assert PadHex(a, width + 3) == PadHex(b, width + 2) + [HexDigit(a % 16)];
    assert PadHex(b, width + 2) == PadHex(c, width + 1) + [HexDigit(b % 16)];
    assert PadHex(c, width + 1) == PadHex(c / 16, width) + [HexDigit(c % 16)];
    assert PadHex(n, 4) == PadHex(a, 3) + [HexDigit(n % 16)];
    assert PadHex(a, 3) == PadHex(b, 2) + [HexDigit(a % 16)];
    assert PadHex(b, 2) == PadHex(c, 1) + [HexDigit(b % 16)];
    assert PadHex(c, 1) == [HexDigit(c % 16)];
  }

  // ----- the notation -----

  predicate IsHextet(s: string) {
    s != "" && |s| <= 4 && IsHex(s)
  }

  predicate AreHextets(parts: seq<string>) {
    forall i | 0 <= i < |parts| :: IsHextet(parts[i])
  }

  function Values(parts: seq<string>): (hs: seq<nat>)
    requires AreHextets(parts)
    ensures |hs| == |parts|
  {
    seq(|parts|, i requires 0 <= i < |parts| => FromHex(parts[i]))
  }

  function Zeros(count: nat): seq<nat> {
    seq(count, _ => 0)
  }

  /** An empty side of "::" leaves one empty part at the end of the text. */
  function Side(parts: seq<string>): seq<string> {
    if parts == [] then [""] else parts
  }

  /** "::" between `hi` and `lo`, standing for at least one group of zeros. */
  ghost predicate ReadsGap(parts: seq<string>, hs: seq<nat>, hi: seq<string>, lo: seq<string>) {
    && AreHextets(hi) && AreHextets(lo) && |hi| + |lo| < HEXTET_COUNT
    && parts == Side(hi) + [""] + Side(lo)
    && hs == Values(hi) + Zeros(HEXTET_COUNT - |hi| - |lo|) + Values(lo)
  }

  /** The parts between the colons denote the eight groups: all of them written out, or with one run
      of zeros left out. */
  ghost predicate Reads(parts: seq<string>, hs: seq<nat>) {
    || (|parts| == HEXTET_COUNT && AreHextets(parts) && hs == Values(parts))
    || exists hi, lo :: ReadsGap(parts, hs, hi, lo)
  }

  /** The place of "::": the only empty part that is neither first nor last. */
  ghost predicate GapAt(parts: seq<string>, k: nat) {
    && 0 < k < |parts| - 1 && parts[k] == ""
    && forall j | 0 < j < |parts| - 1 && j != k :: parts[j] != ""
  }

  lemma ReadsGapAt(parts: seq<string>, hs: seq<nat>, hi: seq<string>, lo: seq<string>)
    requires ReadsGap(parts, hs, hi, lo)
    ensures GapAt(parts, |Side(hi)|)
    ensures hi == (if parts[0] == "" then [] else parts[..|Side(hi)|])
    ensures lo == (if parts[|parts| - 1] == "" then [] else parts[|Side(hi)| + 1..])
    ensures |parts| == |Side(hi)| + 1 + |Side(lo)|
  {
    var k := |Side(hi)|;
    assert parts[..k] == Side(hi) && parts[k + 1..] == Side(lo) && parts[k] == "";
    forall j | 0 < j < |parts| - 1 && j != k
      ensures parts[j] != ""
    {
      if j < k {
        assert parts[j] == Side(hi)[j];
      } else {
        assert parts[j] == Side(lo)[j - k - 1];
      }
    }
    assert parts[0] == Side(hi)[0];
    assert parts[|parts| - 1] == Side(lo)[|Side(lo)| - 1];
  }

  lemma GapExcludesFull(parts: seq<string>, hs: seq<nat>, hi: seq<string>, lo: seq<string>)
    requires ReadsGap(parts, hs, hi, lo)
    ensures !AreHextets(parts)
  {
    ReadsGapAt(parts, hs, hi, lo);
    assert !IsHextet(parts[|Side(hi)|]);
  }

  lemma OneGap(parts: seq<string>, hs: seq<nat>, hi: seq<string>, lo: seq<string>,
               hs': seq<nat>, hi': seq<string>, lo': seq<string>)
    requires ReadsGap(parts, hs, hi, lo) && ReadsGap(parts, hs', hi', lo')
    ensures hs == hs'
  {
    ReadsGapAt(parts, hs, hi, lo);
    ReadsGapAt(parts, hs', hi', lo');
    assert |Side(hi)| == |Side(hi')|;
    assert hi == hi' && lo == lo';
  }

  /** A text denotes one address at most. */
  lemma ReadsUnique(parts: seq<string>, hs: seq<nat>, hs': seq<nat>)
    requires Reads(parts, hs) && Reads(parts, hs')
    ensures hs == hs' && |hs| == HEXTET_COUNT
  {
    hide ReadsGap;
    if hi, lo :| ReadsGap(parts, hs, hi, lo) {
      GapExcludesFull(parts, hs, hi, lo);
      var hi', lo' :| ReadsGap(parts, hs', hi', lo');
      OneGap(parts, hs, hi, lo, hs', hi', lo');
      GapLength(parts, hs, hi, lo);
    } else if hi', lo' :| ReadsGap(parts, hs', hi', lo') {
      GapExcludesFull(parts, hs', hi', lo');
    }
  }

  lemma GapLength(parts: seq<string>, hs: seq<nat>, hi: seq<string>, lo: seq<string>)
    requires ReadsGap(parts, hs, hi, lo)
    ensures |hs| == HEXTET_COUNT
  {
  }
}
