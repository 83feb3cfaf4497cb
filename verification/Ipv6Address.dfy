/** Printing and parsing IPv6 addresses: the two algorithms, and that they are inverse. */
module Ipv6Address {
  import opened Wrappers
  import opened Texts
  import opened Ipv4Text
  import opened Ipv6Text

  // ----- printing -----

  predicate ZeroRun(hextets: seq<string>, start: nat, len: nat) {
    start + len <= |hextets| && forall k | start <= k < start + len :: hextets[k] == "0"
  }

  /** No run of zeros before `end` is longer, and none as long comes earlier. */
  ghost predicate FirstLongest(hextets: seq<string>, end: nat, start: nat, len: nat) {
    && ZeroRun(hextets, start, len) && start + len <= end
    && forall s: nat, l: nat {:trigger ZeroRun(hextets, s, l)} |
         ZeroRun(hextets, s, l) && s + l <= end && l > 0 :: l < len || (l == len && start <= s)
  }

  /** One run replaced by an empty part, with one more empty part where the run meets an end. */
  function Squeeze(hextets: seq<string>, start: nat, len: nat): seq<string>
    requires start + len <= |hextets|
  {
    Side(hextets[..start]) + [""] + Side(hextets[start + len..])
  }

  /** The first longest run of at least two zeros is left out; nothing is, when there is none. */
  ghost predicate Compressed(hextets: seq<string>, parts: seq<string>) {
    exists start: nat, len: nat ::
      && FirstLongest(hextets, |hextets|, start, len)
      && parts == if len > 1 then Squeeze(hextets, start, len) else hextets
  }

  method CompressHextets(hextets: seq<string>) returns (parts: seq<string>)
    ensures Compressed(hextets, parts)
  {
    var bestStart, bestLen := 0, 0;
    var start, len := -1, 0;
    var index := 0;
    while index < |hextets|
      invariant index <= |hextets| && FirstLongest(hextets, index, bestStart, bestLen)
      invariant -1 <= start && len >= 0
      invariant start == -1 ==> len == 0 && (index == 0 || hextets[index - 1] != "0")
      invariant start >= 0 ==> start + len == index && len > 0 && ZeroRun(hextets, start, len)
      invariant start > 0 ==> hextets[start - 1] != "0"
      invariant len <= bestLen
    {
      if hextets[index] == "0" {
        len := len + 1;
        if start == -1 {
          start := index;
        }
        if len > bestLen {
          bestLen, bestStart := len, start;
        }
      } else {
        len, start := 0, -1;
      }
      forall s: nat, l: nat | ZeroRun(hextets, s, l) && s + l == index + 1 && l > 0
        ensures 0 <= start <= s
      {
        assert hextets[s + l - 1] == "0";
      }
      index := index + 1;
    }
    parts := hextets;
    if bestLen > 1 {
      var bestEnd := bestStart + bestLen;
      if bestEnd == |hextets| {
        parts := parts + [""];
      }
      parts := parts[..bestStart] + [""] + parts[bestEnd..];
      if bestStart == 0 {
        parts := [""] + parts;
      }
      hide FirstLongest, ZeroRun;
      SqueezeSteps(hextets, bestStart, bestLen);
    }
  }

  /** Leaving out the run, with empty parts where it meets an end of the list. */
  lemma SqueezeSteps(hextets: seq<string>, start: nat, len: nat)
    requires start + len <= |hextets|
    ensures var end := start + len;
            var parts := if end == |hextets| then hextets + [""] else hextets;
            var rest := parts[..start] + [""] + parts[end..];
            (if start == 0 then [""] + rest else rest) == Squeeze(hextets, start, len)
  {
  }

  /** The eight groups as hexadecimal numbers without leading zeros. */
  function Hextets(ip: nat): (hextets: seq<string>)
    ensures |hextets| == HEXTET_COUNT
  {
    var hs := Groups(ip, HEXTET_COUNT);
    seq(HEXTET_COUNT, k requires 0 <= k < HEXTET_COUNT => ToHex(hs[k]))
  }

  lemma HextetsAreHextets(ip: nat)
    ensures AreHextets(Hextets(ip)) && Values(Hextets(ip)) == Groups(ip, HEXTET_COUNT)
    ensures forall k | 0 <= k < HEXTET_COUNT ::
              var part := Hextets(ip)[k];
              ':' !in part && '.' !in part && (part == "0" <==> Groups(ip, HEXTET_COUNT)[k] == 0)
  {
    forall k | 0 <= k < HEXTET_COUNT
      ensures var part := Hextets(ip)[k];
              && IsHextet(part) && FromHex(part) == Groups(ip, HEXTET_COUNT)[k]
              && ':' !in part && '.' !in part && (part == "0" <==> Groups(ip, HEXTET_COUNT)[k] == 0)
    {
      HexRoundTrip(Groups(ip, HEXTET_COUNT)[k]);
      HextetLength(Groups(ip, HEXTET_COUNT)[k]);
    }
  }

  /** The text of an address; fails for numbers of more than 128 bits. */
  method StringFromIpInt(ip: nat) returns (r: Result<string>)
    ensures r.Ok? <==> ip <= MAX_ADDRESS
    ensures r.Ok? ==> exists parts :: Compressed(Hextets(ip), parts) && r.value == Join(parts, ':')
    ensures r.Ok? ==> forall c | c in r.value :: '0' <= c <= '9' || 'a' <= c <= 'f' || c == ':'
  {
    if ip > MAX_ADDRESS {
      return Err("IPv6 address is too large");
    }
    var hexStr := PadHex(ip, 32);
    var hextets: seq<string> := [];
    for k := 0 to HEXTET_COUNT
      invariant |hextets| == k && forall j | 0 <= j < k :: hextets[j] == Hextets(ip)[j]
    {
      SlicesAreGroups(ip, HEXTET_COUNT, k);
      hextets := hextets + [ToHex(FromHex(hexStr[4 * k..4 * k + 4]))];
    }
    assert hextets == Hextets(ip);
    var parts := CompressHextets(hextets);
    PrintedInLowerCase(ip, parts);
    return Ok(Join(parts, ':'));
  }

  lemma PrintedInLowerCase(ip: nat, parts: seq<string>)
    requires Compressed(Hextets(ip), parts)
    ensures forall c | c in Join(parts, ':') :: '0' <= c <= '9' || 'a' <= c <= 'f' || c == ':'
  {
    var hextets := Hextets(ip);
    forall k, c | 0 <= k < HEXTET_COUNT && c in hextets[k]
      ensures '0' <= c <= '9' || 'a' <= c <= 'f'
    {
      HexIsLower(Groups(ip, HEXTET_COUNT)[k]);
    }
    hide Hextets;
    var start: nat, len: nat :| FirstLongest(hextets, |hextets|, start, len)
      && parts == if len > 1 then Squeeze(hextets, start, len) else hextets;
    SqueezedParts(hextets, start, len);
    hide FirstLongest, Squeeze, Join;
    assert forall i | 0 <= i < |parts| :: parts[i] == "" || parts[i] in hextets;
    forall c | c in Join(parts, ':')
      ensures '0' <= c <= '9' || 'a' <= c <= 'f' || c == ':'
    {
      JoinHolds(parts, ':', c);
    }
  }

  // ----- parsing -----

  /** A number of at most four hexadecimal digits. */
  function ParseHextet(s: string): (r: Result<nat>)
    ensures r.Ok? <==> IsHextet(s)
    ensures r.Ok? ==> r.value == FromHex(s) && r.value < 0x1_0000
  {
    if !IsHex(s) then Err("Only hex digits permitted")
    else if |s| > 4 then Err("At most 4 characters permitted")
    else if s == "" then Err("invalid literal for int()")
    else
      HexBound(s);
      Ok(FromHex(s))
  }

  lemma HexBound(s: string)
    requires IsHex(s) && |s| <= 4
    ensures FromHex(s) < 0x1_0000
  {
    DigitsBound(s, 16, 4);
    assert Power(16, 4) == 16 * (16 * (16 * (16 * Power(16, 0))));
  }

  /** The parts between the colons, with an IPv4 suffix written as two groups; none for a suffix that is
      not a dotted quad. */
  function Expand(s: string): (parts: Option<seq<string>>)
    ensures parts.Some? ==> parts.value != []
  {
    var parts := Split(s, ':');
    var last := parts[|parts| - 1];
    if '.' in last then
      match DottedQuad(last)
      case None => None
      case Some(ip) => Some(parts[..|parts| - 1] + [ToHex(ip / 0x1_0000 % 0x1_0000), ToHex(ip % 0x1_0000)])
    else Some(parts)
  }

  /** The position of the only empty inner part; `ok` is false when there are several. */
  method FindSkip(parts: seq<string>) returns (ok: bool, skip: Option<nat>)
    ensures !ok ==> forall k :: !GapAt(parts, k)
    ensures ok && skip.Some? ==> GapAt(parts, skip.value)
    ensures ok && skip.None? ==> forall j | 0 < j < |parts| - 1 :: parts[j] != ""
    ensures !ok ==> exists j :: 0 < j < |parts| - 1 && parts[j] == ""
  {
    skip := None;
    var i := 1;
    while i < |parts| - 1
      invariant 1 <= i && (i <= |parts| - 1 || i == 1)
      invariant skip.None? ==> forall j | 0 < j < i && j < |parts| - 1 :: parts[j] != ""
      invariant skip.Some? ==> 0 < skip.value < i && skip.value < |parts| - 1 && parts[skip.value] == ""
      invariant skip.Some? ==> forall j | 0 < j < i && j < |parts| - 1 && j != skip.value :: parts[j] != ""
    {
      if parts[i] == "" {
        if skip.Some? {
          assert parts[skip.value] == "" && parts[i] == "";
          return false, skip;
        }
        skip := Some(i);
      }
      i := i + 1;
    }
    ok := true;
  }

  function HiParts(parts: seq<string>, k: nat): seq<string>
    requires k < |parts|
  {
    if parts[0] == "" then [] else parts[..k]
  }

  function LoParts(parts: seq<string>, k: nat): seq<string>
    requires k < |parts|
  {
    if parts[|parts| - 1] == "" then [] else parts[k + 1..]
  }

  /** With "::" at `k`, what the parser checks is what the notation asks for. */
  lemma ReadsWithGap(parts: seq<string>, k: nat, hs: seq<nat>)
    requires GapAt(parts, k)
    ensures Reads(parts, hs) <==>
            && (parts[0] == "" ==> k == 1) && (parts[|parts| - 1] == "" ==> k == |parts| - 2)
            && ReadsGap(parts, hs, HiParts(parts, k), LoParts(parts, k))
  {
    assert !IsHextet(parts[k]);
    if hi, lo :| ReadsGap(parts, hs, hi, lo) {
      ReadsGapAt(parts, hs, hi, lo);
      assert |Side(hi)| == k;
    }
  }

  lemma ReadsWithoutGap(parts: seq<string>, hs: seq<nat>)
    requires forall k :: !GapAt(parts, k)
    ensures Reads(parts, hs) <==> |parts| == HEXTET_COUNT && AreHextets(parts) && hs == Values(parts)
  {
    if hi, lo :| ReadsGap(parts, hs, hi, lo) {
      ReadsGapAt(parts, hs, hi, lo);
    }
  }

  lemma SideParts(parts: seq<string>, k: nat)
    requires GapAt(parts, k)
    requires (parts[0] == "" ==> k == 1) && (parts[|parts| - 1] == "" ==> k == |parts| - 2)
    ensures parts == Side(HiParts(parts, k)) + [""] + Side(LoParts(parts, k))
  {
  }

  lemma CombineNext(hs: seq<nat>, h: nat)
    ensures Combine(hs + [h]) == 0x1_0000 * Combine(hs) + h
  {
    assert (hs + [h])[..|hs|] == hs;
  }

  /** `ip << 16 * count`. */
  function ShiftGroups(ip: nat, count: nat): nat
    decreases count
  {
    if count == 0 then ip else ShiftGroups(0x1_0000 * ip, count - 1)
  }

  lemma {:induction false} CombineZeros(hs: seq<nat>, count: nat)
    ensures Combine(hs + Zeros(count)) == ShiftGroups(Combine(hs), count)
    decreases count
  {
    if count == 0 {
      assert hs + Zeros(0) == hs;
    } else {
      CombineNext(hs, 0);
      CombineZeros(hs + [0], count - 1);
      assert hs + [0] + Zeros(count - 1) == hs + Zeros(count);
    }
  }

  lemma ValuesNext(parts: seq<string>, i: nat)
    requires i < |parts| && AreHextets(parts[..i]) && IsHextet(parts[i])
    ensures AreHextets(parts[..i + 1]) && Values(parts[..i + 1]) == Values(parts[..i]) + [FromHex(parts[i])]
  {
    assert parts[..i + 1] == parts[..i] + [parts[i]];
  }

  /** Shifts the values of the parts into the number; fails at the first that is none. */
  method ShiftIn(ip: nat, parts: seq<string>, ghost before: seq<nat>) returns (r: Result<nat>)
    requires ip == Combine(before)
    ensures r.Ok? <==> AreHextets(parts)
    ensures r.Ok? ==> r.value == Combine(before + Values(parts))
  {
    var ipInt := ip;
    ghost var done := before;
    for i := 0 to |parts|
      invariant AreHextets(parts[..i]) && ipInt == Combine(done) && done == before + Values(parts[..i])
    {
      var h := ParseHextet(parts[i]);
      if h.Err? {
        return Err(h.message);
      }
      hide Combine;
      CombineNext(done, h.value);
      ipInt := 0x1_0000 * ipInt + h.value;
      done := done + [h.value];
      ValuesNext(parts, i);
    }
    assert parts[..|parts|] == parts;
    return Ok(ipInt);
  }

  /** The answer for the parts between the colons. */
  ghost predicate Answers(parts: seq<string>, r: Result<nat>) {
    && (r.Err? ==> forall hs :: !Reads(parts, hs))
    && (r.Ok? ==> exists hs :: Reads(parts, hs) && r.value == Combine(hs))
  }

  /** How many parts stand before and after "::" at `k`. */
  method SideCounts(parts: seq<string>, k: nat) returns (r: Result<(nat, nat)>)
    requires GapAt(parts, k)
    ensures r.Ok? <==> (parts[0] == "" ==> k == 1) && (parts[|parts| - 1] == "" ==> k == |parts| - 2)
    ensures r.Ok? ==> r.value == (|HiParts(parts, k)|, |LoParts(parts, k)|)
  {
    var partsHi, partsLo := k, |parts| - k - 1;
    if parts[0] == "" {
      partsHi := partsHi - 1;
      if partsHi != 0 {
        return Err("Leading ':' only permitted as part of '::'");
      }
    }
    if parts[|parts| - 1] == "" {
      partsLo := partsLo - 1;
      if partsLo != 0 {
        return Err("Trailing ':' only permitted as part of '::'");
      }
    }
    return Ok((partsHi, partsLo));
  }

  /** The number with `hi` at the top, `lo` at the bottom and zeros between them. */
  method ParseSides(hi: seq<string>, lo: seq<string>) returns (r: Result<nat>)
    ensures r.Ok? <==> AreHextets(hi) && AreHextets(lo) && |hi| + |lo| < HEXTET_COUNT
    ensures r.Ok? ==>
              r.value == Combine(Values(hi) + Zeros(HEXTET_COUNT - |hi| - |lo|) + Values(lo))
  {
    if |hi| + |lo| >= HEXTET_COUNT {
      return Err("Expected at most 7 other parts with '::'");
    }
    var partsSkipped := HEXTET_COUNT - (|hi| + |lo|);
    var high := ShiftIn(0, hi, []);
    if high.Err? {
      return high;
    }
    assert [] + Values(hi) == Values(hi);
    CombineZeros(Values(hi), partsSkipped);
    r := ShiftIn(ShiftGroups(high.value, partsSkipped), lo, Values(hi) + Zeros(partsSkipped));
  }

  method ParseWithGap(parts: seq<string>, k: nat) returns (r: Result<nat>)
    requires GapAt(parts, k)
    ensures Answers(parts, r)
  {
    var counts := SideCounts(parts, k);
    if counts.Err? {
      r := Err(counts.message);
    } else {
      var hi, lo := parts[..counts.value.0], parts[|parts| - counts.value.1..];
      SideSlices(parts, k);
      hide AreHextets, Combine, Values, HiParts, LoParts;
      r := ParseSides(hi, lo);
    }
    hide AreHextets, Combine, Values, HiParts, LoParts, Answers;
    GapAnswer(parts, k, r);
  }

  lemma SideSlices(parts: seq<string>, k: nat)
    requires GapAt(parts, k)
    ensures parts[..|HiParts(parts, k)|] == HiParts(parts, k)
    ensures parts[|parts| - |LoParts(parts, k)|..] == LoParts(parts, k)
  {
  }

  lemma GapAnswer(parts: seq<string>, k: nat, r: Result<nat>)
    requires GapAt(parts, k)
    requires var hi, lo := HiParts(parts, k), LoParts(parts, k);
             && (r.Ok? <==> && (parts[0] == "" ==> k == 1) && (parts[|parts| - 1] == "" ==> k == |parts| - 2)
                            && AreHextets(hi) && AreHextets(lo) && |hi| + |lo| < HEXTET_COUNT)
             && (r.Ok? ==> r.value == Combine(Values(hi) + Zeros(HEXTET_COUNT - |hi| - |lo|) + Values(lo)))
    ensures Answers(parts, r)
  {
    hide Reads, HiParts, LoParts, Combine, Values;
    forall hs {
      ReadsWithGap(parts, k, hs);
    }
    if r.Ok? {
      var hi, lo := HiParts(parts, k), LoParts(parts, k);
      SideParts(parts, k);
      var hs := Values(hi) + Zeros(HEXTET_COUNT - |hi| - |lo|) + Values(lo);
      ReadsWithGap(parts, k, hs);
      assert ReadsGap(parts, hs, hi, lo) && Reads(parts, hs);
    }
  }

  method ParseWithoutGap(parts: seq<string>) returns (r: Result<nat>)
    requires parts != [] && forall j | 0 < j < |parts| - 1 :: parts[j] != ""
    ensures Answers(parts, r)
  {
    forall hs {
      ReadsWithoutGap(parts, hs);
    }
    if |parts| != HEXTET_COUNT {
      return Err("Exactly 8 parts expected without '::'");
    }
    if parts[0] == "" {
      assert !IsHextet(parts[0]);
      return Err("Leading ':' only permitted as part of '::'");
    }
    if parts[|parts| - 1] == "" {
      assert !IsHextet(parts[|parts| - 1]);
      return Err("Trailing ':' only permitted as part of '::'");
    }
    r := ShiftIn(0, parts, []);
    if r.Ok? {
      assert [] + Values(parts) == Values(parts);
      assert Reads(parts, Values(parts));
    }
  }

  lemma TooFewOrTooMany(parts: seq<string>, hs: seq<nat>)
    requires Reads(parts, hs)
    ensures 3 <= |parts| <= HEXTET_COUNT + 1
    ensures |parts| == 3 ==> parts[1] == ""
  {
    if hi, lo :| ReadsGap(parts, hs, hi, lo) {
      ReadsGapAt(parts, hs, hi, lo);
    }
  }

  /** The whole text denotes the number: its parts denote the groups of the number. */
  ghost predicate Denotes(s: string, n: nat) {
    Expand(s).Some? && exists hs :: Reads(Expand(s).value, hs) && n == Combine(hs)
  }

  /** A text denotes one number at most, and that has no more than 128 bits. */
  lemma DenotesUnique(s: string, m: nat, n: nat)
    requires Denotes(s, m) && Denotes(s, n)
    ensures m == n && n <= MAX_ADDRESS
  {
    var parts := Expand(s).value;
    var hs :| Reads(parts, hs) && m == Combine(hs);
    var hs' :| Reads(parts, hs') && n == Combine(hs');
    ReadsUnique(parts, hs, hs');
    ReadsBound(parts, hs);
  }

  lemma GroupsBound(parts: seq<string>, hs: seq<nat>)
    requires Reads(parts, hs)
    ensures forall i | 0 <= i < |hs| :: hs[i] < 0x1_0000
  {
    hide FromHex, IsHextet;
    if hi, lo :| ReadsGap(parts, hs, hi, lo) {
      ValuesBound(hi);
      ValuesBound(lo);
    } else {
      ValuesBound(parts);
    }
  }

  /** The groups that a text denotes make a number of at most 128 bits. */
  lemma ReadsBound(parts: seq<string>, hs: seq<nat>)
    requires Reads(parts, hs)
    ensures Combine(hs) <= MAX_ADDRESS
  {
    hide Reads, Combine;
    ReadsUnique(parts, hs, hs);
    GroupsBound(parts, hs);
    CombineBound(hs);
    assert Bound(HEXTET_COUNT) == MAX_ADDRESS + 1;
  }

  lemma ValuesBound(parts: seq<string>)
    requires AreHextets(parts)
    ensures forall i | 0 <= i < |parts| :: Values(parts)[i] < 0x1_0000
  {
    forall i | 0 <= i < |parts|
      ensures Values(parts)[i] < 0x1_0000
    {
      HexBound(parts[i]);
    }
  }

  /** Accepts exactly the texts that denote a number, and returns that number. */
  method IpIntFromString(s: string) returns (r: Result<nat>)
    ensures r.Err? ==> forall n :: !Denotes(s, n)
    ensures r.Ok? ==> Denotes(s, r.value) && r.value <= MAX_ADDRESS
  {
    r := ParseText(s);
    if r.Ok? {
      ghost var hs :| Reads(Expand(s).value, hs) && r.value == Combine(hs);
      ReadsBound(Expand(s).value, hs);
    }
  }

  method ParseText(s: string) returns (r: Result<nat>)
    ensures Expand(s).None? ==> r.Err?
    ensures Expand(s).Some? ==> Answers(Expand(s).value, r)
  {
    if s == "" {
      assert Split(s, ':') == [""];
      NoneRead(s);
      return Err("Address cannot be empty");
    }
    var parts := Split(s, ':');
    if |parts| < 3 {
      NoneRead(s);
      return Err("At least 3 parts expected");
    }
    var last := parts[|parts| - 1];
    if '.' in last {
      var ipv4 := DottedQuad(last);
      if ipv4.None? {
        return Err("not an IPv4 address");
      }
      parts := parts[..|parts| - 1] + [ToHex(ipv4.value / 0x1_0000 % 0x1_0000), ToHex(ipv4.value % 0x1_0000)];
    }
    if |parts| > HEXTET_COUNT + 1 {
      forall hs | Reads(parts, hs)
        ensures false
      {
        TooFewOrTooMany(parts, hs);
      }
      return Err("At most 8 colons permitted");
    }
    var ok, skip := FindSkip(parts);
    if !ok {
      SeveralGaps(parts);
      return Err("At most one '::' permitted");
    }
    if skip.Some? {
      r := ParseWithGap(parts, skip.value);
    } else {
      r := ParseWithoutGap(parts);
    }
  }

  lemma SeveralGaps(parts: seq<string>)
    requires (forall k :: !GapAt(parts, k)) && exists j :: 0 < j < |parts| - 1 && parts[j] == ""
    ensures forall hs :: !Reads(parts, hs)
  {
    var j :| 0 < j < |parts| - 1 && parts[j] == "";
    assert !IsHextet(parts[j]);
    forall hs {
      ReadsWithoutGap(parts, hs);
    }
  }

  /** Fewer than three parts denote nothing, with an IPv4 suffix or without. */
  lemma NoneRead(s: string)
    requires |Split(s, ':')| < 3
    ensures Expand(s).Some? ==> forall hs :: !Reads(Expand(s).value, hs)
  {
    if Expand(s).Some? {
      var parts := Expand(s).value;
      forall hs
        ensures !Reads(parts, hs)
      {
        if Reads(parts, hs) {
          TooFewOrTooMany(parts, hs);
          var last := Split(s, ':')[|Split(s, ':')| - 1];
          HexRoundTrip(DottedQuad(last).value / 0x1_0000 % 0x1_0000);
        }
      }
    }
  }

  // ----- what texts denote -----

  lemma HextetHasNoColon(s: string)
    requires IsHex(s)
    ensures ':' !in s && '.' !in s
  {
    assert DigitValue(':') == 16 && DigitValue('.') == 16;
  }

  lemma QuadText(a: nat, b: nat, c: nat, d: nat)
    requires a < 256 && b < 256 && c < 256 && d < 256
    ensures ':' !in Dotted(a, b, c, d) && '.' in Dotted(a, b, c, d)
    ensures DottedQuad(Dotted(a, b, c, d)) == Some(Quad(a, b, c, d))
  {
    hide Decimal, Join, DottedQuad, IpToLong, Split;
    DigitsOnly(a);
    DigitsOnly(b);
    DigitsOnly(c);
    DigitsOnly(d);
    var parts := [Decimal(a), Decimal(b), Decimal(c), Decimal(d)];
    JoinHolds(parts, '.', ':');
    JoinHolds(parts, '.', '.');
    DottedReads(a, b, c, d);
    StrictReaderAgrees(Dotted(a, b, c, d));
  }

  lemma DigitsOnly(n: nat)
    ensures ':' !in Decimal(n) && '.' !in Decimal(n)
  {
  }

  /** The number of four octets, the first one on top. */
  function Quad(a: nat, b: nat, c: nat, d: nat): nat {
    0x100_0000 * a + 0x1_0000 * b + 256 * c + d
  }

  lemma QuadBound(a: nat, b: nat, c: nat, d: nat)
    requires a < 256 && b < 256 && c < 256 && d < 256
    ensures Quad(a, b, c, d) == 0x100_0000 * a + 0x1_0000 * b + 256 * c + d < 0x1_0000_0000
  {
  }

  /** The two groups of a number, as texts. */
  function SuffixParts(ip: nat): seq<string> {
    [ToHex(ip / 0x1_0000 % 0x1_0000), ToHex(ip % 0x1_0000)]
  }

  /** The two groups that an IPv4 suffix stands for. */
  lemma SuffixGroups(ip: nat, hs: seq<nat>)
    requires ip < 0x1_0000_0000
    ensures var parts := SuffixParts(ip);
            && |parts| == 2 && AreHextets(parts)
            && Combine(hs + Values(parts)) == 0x1_0000_0000 * Combine(hs) + ip
  {
    var x, y := ip / 0x1_0000, ip % 0x1_0000;
    HexRoundTrip(x);
    HexRoundTrip(y);
    HextetLength(x);
    HextetLength(y);
    assert x % 0x1_0000 == x;
    hide ToHex, FromHex, Combine;
    CombineNext(hs, x);
    CombineNext(hs + [x], y);
    assert Values(SuffixParts(ip)) == [x, y];
    assert hs + [x] + [y] == hs + [x, y];
  }

  /** The parts of a text that ends in a dotted quad. */
  lemma ExpandQuad(before: seq<string>, a: nat, b: nat, c: nat, d: nat)
    requires a < 256 && b < 256 && c < 256 && d < 256
    requires before != [] && forall i | 0 <= i < |before| :: ':' !in before[i]
    ensures Expand(Join(before + [Dotted(a, b, c, d)], ':')) == Some(before + SuffixParts(Quad(a, b, c, d)))
  {
    hide Dotted, DottedQuad, Join, Split, SuffixParts, Quad, Expand;
    var quad := Dotted(a, b, c, d);
    QuadText(a, b, c, d);
    assert forall i | 0 <= i < |before| + 1 :: ':' !in (before + [quad])[i];
    SplitJoin(before + [quad], ':');
    ExpandOf(Join(before + [quad], ':'), before, quad, Quad(a, b, c, d));
  }

  lemma ExpandOf(text: string, before: seq<string>, last: string, ip: nat)
    requires Split(text, ':') == before + [last] && '.' in last && DottedQuad(last) == Some(ip)
    ensures Expand(text) == Some(before + SuffixParts(ip))
  {
    hide DottedQuad, Split, ToHex;
    var parts := Split(text, ':');
    assert parts[..|parts| - 1] == before;
  }

  lemma DenotesBy(s: string, parts: seq<string>, hs: seq<nat>)
    requires Expand(s) == Some(parts) && Reads(parts, hs)
    ensures Denotes(s, Combine(hs))
  {
  }

  /** Six groups and a dotted quad: the quad is the lowest 32 bits, its first octet on top. */
  lemma QuadDenotes(hi: seq<string>, a: nat, b: nat, c: nat, d: nat)
    requires |hi| == 6 && AreHextets(hi) && a < 256 && b < 256 && c < 256 && d < 256
    ensures Denotes(Join(hi + [Dotted(a, b, c, d)], ':'),
                    0x1_0000_0000 * Combine(Values(hi)) + 0x100_0000 * a + 0x1_0000 * b + 256 * c + d)
  {
    hide *;
    var ip, quad := Quad(a, b, c, d), Dotted(a, b, c, d);
    HextetsHaveNoColon(hi);
    ExpandQuad(hi, a, b, c, d);
    QuadBound(a, b, c, d);
    SuffixGroups(ip, Values(hi));
    EightRead(hi, SuffixParts(ip));
    DenotesBy(Join(hi + [quad], ':'), hi + SuffixParts(ip), Values(hi) + Values(SuffixParts(ip)));
  }

  lemma HextetsHaveNoColon(parts: seq<string>)
    requires AreHextets(parts)
    ensures forall i | 0 <= i < |parts| :: ':' !in parts[i]
  {
    forall i | 0 <= i < |parts| {
      HextetHasNoColon(parts[i]);
    }
  }

  lemma EightRead(hi: seq<string>, low: seq<string>)
    requires AreHextets(hi) && AreHextets(low) && |hi| + |low| == 8
    ensures Reads(hi + low, Values(hi) + Values(low))
  {
    hide IsHextet, FromHex;
    assert Values(hi + low) == Values(hi) + Values(low);
  }

  /** The same with "::" among the groups: `hi` before it, `lo` between it and the quad. */
  lemma GapQuadDenotes(hi: seq<string>, lo: seq<string>, a: nat, b: nat, c: nat, d: nat)
    requires |hi| + |lo| < 6 && AreHextets(hi) && AreHextets(lo) && a < 256 && b < 256 && c < 256 && d < 256
    ensures Denotes(Join(Side(hi) + [""] + lo + [Dotted(a, b, c, d)], ':'),
                    0x1_0000_0000 * Combine(Values(hi) + Zeros(6 - |hi| - |lo|) + Values(lo))
                    + 0x100_0000 * a + 0x1_0000 * b + 256 * c + d)
  {
    hide *;
    var ip, quad := Quad(a, b, c, d), Dotted(a, b, c, d);
    var before := Side(hi) + [""] + lo;
    GapHasNoColon(hi, lo);
    ExpandQuad(before, a, b, c, d);
    QuadBound(a, b, c, d);
    assert |before| > 0;
    GapSuffix(hi, lo, Join(before + [quad], ':'), ip);
  }

  lemma GapSuffix(hi: seq<string>, lo: seq<string>, text: string, ip: nat)
    requires |hi| + |lo| < 6 && AreHextets(hi) && AreHextets(lo) && ip < 0x1_0000_0000
    requires Expand(text) == Some(Side(hi) + [""] + lo + SuffixParts(ip))
    ensures Denotes(text, 0x1_0000_0000 * Combine(Values(hi) + Zeros(6 - |hi| - |lo|) + Values(lo)) + ip)
  {
    hide *;
    var hs := Values(hi) + Zeros(6 - |hi| - |lo|) + Values(lo);
    SuffixGroups(ip, hs);
    var low := SuffixParts(ip);
    GapReads(hi, lo, low);
    assert 8 - |hi| - |lo| - |low| == 6 - |hi| - |lo|;
    DenotesBy(text, Side(hi) + [""] + lo + low, hs + Values(low));
  }

  lemma GapHasNoColon(hi: seq<string>, lo: seq<string>)
    requires AreHextets(hi) && AreHextets(lo)
    ensures forall s | s in Side(hi) + [""] + lo :: ':' !in s && '.' !in s
  {
    forall s | s in hi || s in lo
      ensures ':' !in s && '.' !in s
    {
      HextetHasNoColon(s);
    }
  }

  lemma GapReads(hi: seq<string>, lo: seq<string>, low: seq<string>)
    requires AreHextets(hi) && AreHextets(lo) && AreHextets(low) && low != []
    requires |hi| + |lo| + |low| < 8
    ensures var hs := Values(hi) + Zeros(8 - |hi| - |lo| - |low|) + Values(lo) + Values(low);
            Reads(Side(hi) + [""] + lo + low, hs)
  {
    hide IsHextet, FromHex;
    var hs := Values(hi) + Zeros(8 - |hi| - |lo| - |low|) + Values(lo) + Values(low);
    assert Values(lo + low) == Values(lo) + Values(low);
    assert Side(hi) + [""] + lo + low == Side(hi) + [""] + Side(lo + low);
    assert ReadsGap(Side(hi) + [""] + lo + low, hs, hi, lo + low);
  }

  /** A text with "::" and no quad. */
  lemma GapDenotes(hi: seq<string>, lo: seq<string>)
    requires |hi| + |lo| < HEXTET_COUNT && AreHextets(hi) && AreHextets(lo)
    ensures Denotes(Join(Side(hi) + [""] + Side(lo), ':'),
                    Combine(Values(hi) + Zeros(HEXTET_COUNT - |hi| - |lo|) + Values(lo)))
  {
    var parts, hs := Side(hi) + [""] + Side(lo), Values(hi) + Zeros(HEXTET_COUNT - |hi| - |lo|) + Values(lo);
    forall s | s in parts
      ensures ':' !in s && '.' !in s
    {
      if s != "" {
        HextetHasNoColon(s);
      }
    }
    SplitJoin(parts, ':');
    assert Expand(Join(parts, ':')) == Some(parts);
    hide Expand, Join, Combine, IsHextet, FromHex;
    assert ReadsGap(parts, hs, hi, lo) && Reads(parts, hs);
  }

  /** An IPv4-mapped address. */
  lemma MappedExample()
    ensures Denotes("::ffff:1.2.3.4", 0xffff_0102_0304)
  {
    MappedText();
    MappedGroups();
    hide Denotes, Dotted, Join, Combine, Values, AreHextets, Zeros;
    GapQuadDenotes([], ["ffff"], 1, 2, 3, 4);
  }

  lemma MappedGroups()
    ensures AreHextets([]) && AreHextets(["ffff"])
    ensures Combine(Values([]) + Zeros(5) + Values(["ffff"])) == 0xffff
  {
    DigitsOfFour('f', 'f', 'f', 'f');
    hide FromHex, Combine;
    assert Values(["ffff"]) == [0xffff];
    assert Values([]) + Zeros(5) + [0xffff] == Zeros(5) + [0xffff];
    CombineNext(Zeros(5), 0xffff);
    ZerosAreZero(5);
  }

  lemma {:induction false} ZerosAreZero(count: nat)
    ensures Combine(Zeros(count)) == 0
  {
    if count > 0 {
      ZerosAreZero(count - 1);
      assert Zeros(count)[..count - 1] == Zeros(count - 1);
    }
  }

  lemma DigitsOfFour(a: char, b: char, c: char, d: char)
    requires IsHex([a, b, c, d])
    ensures IsHextet([a, b, c, d])
    ensures FromHex([a, b, c, d]) ==
            0x1000 * DigitValue(a) + 0x100 * DigitValue(b) + 0x10 * DigitValue(c) + DigitValue(d)
  {
    var s := [a, b, c, d];
    assert s[..3] == [a, b, c] && s[..3][..2] == [a, b] && s[..3][..2][..1] == [a] && [a][..0] == "";
    assert FromDigits([a], 16) == DigitValue(a);
    assert FromDigits([a, b], 16) == 16 * DigitValue(a) + DigitValue(b);
    assert FromDigits([a, b, c], 16) == 16 * FromDigits([a, b], 16) + DigitValue(c);
  }

  lemma MappedText()
    ensures Join(Side([]) + [""] + ["ffff"] + [Dotted(1, 2, 3, 4)], ':') == "::ffff:1.2.3.4"
  {
    var quad, none: seq<string> := Dotted(1, 2, 3, 4), [];
    QuadExample();
    assert Side(none) == [""];
    hide *;
    JoinPair("ffff", quad, ':');
    JoinFront(["ffff", quad], ':');
    JoinFront([""] + ["ffff", quad], ':');
    MappedLiteral();
    assert Side(none) + [""] + ["ffff"] + [quad] == [""] + ([""] + ["ffff", quad]);
  }

  lemma MappedLiteral()
    ensures [':'] + ([':'] + ("ffff" + [':'] + "1.2.3.4")) == "::ffff:1.2.3.4"
  {
  }

  lemma JoinPair(a: string, b: string, sep: char)
    ensures Join([a, b], sep) == a + [sep] + b
  {
    assert [a, b][1..] == [b];
  }

  lemma JoinFront(rest: seq<string>, sep: char)
    requires rest != []
    ensures Join([""] + rest, sep) == [sep] + Join(rest, sep)
  {
    JoinCons("", rest, sep);
    assert "" + [sep] == [sep];
  }

  lemma QuadExample()
    ensures Dotted(1, 2, 3, 4) == "1.2.3.4"
  {
    assert Decimal(1) == "1" && Decimal(2) == "2" && Decimal(3) == "3" && Decimal(4) == "4";
    hide Decimal, Join;
    JoinCons("3", ["4"], '.');
    JoinCons("2", ["3", "4"], '.');
    JoinCons("1", ["2", "3", "4"], '.');
    JoinOne("4", '.');
    assert ["3"] + ["4"] == ["3", "4"] && ["2"] + ["3", "4"] == ["2", "3", "4"];
    assert ["1"] + ["2", "3", "4"] == ["1", "2", "3", "4"];
  }

  // ----- round trip -----

  /** The compressed parts of an address denote its groups. */
  lemma CompressedReads(ip: nat, parts: seq<string>)
    requires Compressed(Hextets(ip), parts)
    ensures Reads(parts, Groups(ip, HEXTET_COUNT))
    ensures forall i | 0 <= i < |parts| :: ':' !in parts[i] && '.' !in parts[i]
    ensures parts != []
  {
    HextetsAreHextets(ip);
    var hextets := Hextets(ip);
    var start: nat, len: nat :| FirstLongest(hextets, |hextets|, start, len)
      && parts == if len > 1 then Squeeze(hextets, start, len) else hextets;
    if len > 1 {
      SqueezedReads(hextets, start, len, Groups(ip, HEXTET_COUNT));
      SqueezedParts(hextets, start, len);
    }
  }

  lemma SqueezedParts(hextets: seq<string>, start: nat, len: nat)
    requires start + len <= |hextets|
    ensures forall i | 0 <= i < |Squeeze(hextets, start, len)| ::
              Squeeze(hextets, start, len)[i] == "" || Squeeze(hextets, start, len)[i] in hextets
  {
  }

  lemma SqueezedReads(hextets: seq<string>, start: nat, len: nat, hs: seq<nat>)
    requires |hextets| == HEXTET_COUNT && AreHextets(hextets) && Values(hextets) == hs
    requires ZeroRun(hextets, start, len) && len > 1
    requires forall k | 0 <= k < |hextets| && hextets[k] == "0" :: hs[k] == 0
    ensures ReadsGap(Squeeze(hextets, start, len), hs, hextets[..start], hextets[start + len..])
  {
    var hi, lo := hextets[..start], hextets[start + len..];
    assert hs[..start] == Values(hi);
    assert hs[start..start + len] == Zeros(len);
    assert hs[start + len..] == Values(lo);
    assert hs == hs[..start] + hs[start..start + len] + hs[start + len..];
  }

  /** Parsing the text of an address gives the address back. */
  method RoundTrip(ip: nat) returns (text: string, back: nat)
    requires ip <= MAX_ADDRESS
    ensures back == ip
    ensures exists parts :: Compressed(Hextets(ip), parts) && text == Join(parts, ':')
  {
    var printed := StringFromIpInt(ip);
    text := printed.value;
    ghost var parts :| Compressed(Hextets(ip), parts) && text == Join(parts, ':');
    CompressedReads(ip, parts);
    SplitJoin(parts, ':');
    assert Expand(text) == Some(parts);
    GroupsRoundTrip(ip, HEXTET_COUNT);
    assert Denotes(text, ip);
    var parsed := IpIntFromString(text);
    if parsed.Ok? {
      DenotesUnique(text, ip, parsed.value);
    }
    back := parsed.value;
  }
}
