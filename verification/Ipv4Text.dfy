/** The text forms of IPv4 addresses: the canonical dotted form, what `inet_aton` reads, and the
    stricter reader of the address library. */
module Ipv4Text {
  import opened Wrappers
  import opened Texts

  // ----- printing -----

  function Dotted(a: nat, b: nat, c: nat, d: nat): string {
    Join([Decimal(a), Decimal(b), Decimal(c), Decimal(d)], '.')
  }

  /** `inet_ntoa` of the four bytes of a number. */
  function LongToIp(n: nat): string
    requires n < 0x1_0000_0000
  {
    Dotted(n / 0x100_0000, n / 0x1_0000 % 256, n / 256 % 256, n % 256)
  }

  /** Four decimal octets without leading zeros. */
  ghost predicate IsCanonical(text: string) {
    exists a: nat, b: nat, c: nat, d: nat :: a < 256 && b < 256 && c < 256 && d < 256 && text == Dotted(a, b, c, d)
  }

  lemma DottedParts(a: nat, b: nat, c: nat, d: nat)
    ensures Split(Dotted(a, b, c, d), '.') == [Decimal(a), Decimal(b), Decimal(c), Decimal(d)]
  {
    var parts := [Decimal(a), Decimal(b), Decimal(c), Decimal(d)];
    forall i | 0 <= i < |parts|
      ensures '.' !in parts[i]
    {
    }
    SplitJoin(parts, '.');
  }

  // ----- numbers and dots -----

  /** A number as C writes it: decimal, octal after a zero, hexadecimal after `0x`. */
  function CNumber(s: string): Option<nat> {
    if s == "" then None
    else if s[0] != '0' then (if AreDigits(s, 10) then Some(FromDigits(s, 10)) else None)
    else if |s| == 1 then Some(0)
    else if s[1] == 'x' || s[1] == 'X' then
      (if |s| > 2 && AreDigits(s[2..], 16) then Some(FromDigits(s[2..], 16)) else None)
    else if AreDigits(s, 8) then Some(FromDigits(s, 8)) else None
  }

  predicate Below(n: Option<nat>, bound: nat) {
    n.Some? && n.value < bound
  }

  /** `struct.unpack('!L', inet_aton(text))`: up to four numbers, the last of which fills the bytes that
      are left. */
  function IpToLong(text: string): (n: Option<nat>)
    ensures n.Some? ==> n.value < 0x1_0000_0000
  {
    var ns := CNumbers(Split(text, '.'));
    if |ns| == 1 && Below(ns[0], 0x1_0000_0000) then Some(ns[0].value)
    else if |ns| == 2 && Below(ns[0], 256) && Below(ns[1], 0x100_0000) then
      Some(0x100_0000 * ns[0].value + ns[1].value)
    else if |ns| == 3 && Below(ns[0], 256) && Below(ns[1], 256) && Below(ns[2], 0x1_0000) then
      Some(0x100_0000 * ns[0].value + 0x1_0000 * ns[1].value + ns[2].value)
    else if |ns| == 4 && Below(ns[0], 256) && Below(ns[1], 256) && Below(ns[2], 256) && Below(ns[3], 256) then
      Some(FromOctets(ns[0].value, ns[1].value, ns[2].value, ns[3].value))
    else None
  }

  function CNumbers(parts: seq<string>): seq<Option<nat>> {
    seq(|parts|, i requires 0 <= i < |parts| => CNumber(parts[i]))
  }

  function FromOctets(a: nat, b: nat, c: nat, d: nat): nat {
    0x100_0000 * a + 0x1_0000 * b + 256 * c + d
  }

  lemma DecimalIsCNumber(n: nat)
    ensures CNumber(Decimal(n)) == Some(n)
  {
    DecimalRoundTrip(n);
  }

  lemma DottedReads(a: nat, b: nat, c: nat, d: nat)
    requires a < 256 && b < 256 && c < 256 && d < 256
    ensures IpToLong(Dotted(a, b, c, d)) == Some(FromOctets(a, b, c, d))
    ensures LongToIp(FromOctets(a, b, c, d)) == Dotted(a, b, c, d)
  {
    DottedParts(a, b, c, d);
    DecimalIsCNumber(a);
    DecimalIsCNumber(b);
    DecimalIsCNumber(c);
    DecimalIsCNumber(d);
    OctetsBack(a, b, c, d);
  }

  lemma OctetsBack(a: nat, b: nat, c: nat, d: nat)
    requires a < 256 && b < 256 && c < 256 && d < 256
    ensures var n := FromOctets(a, b, c, d);
            n / 0x100_0000 == a && n / 0x1_0000 % 256 == b && n / 256 % 256 == c && n % 256 == d
  {
    var n := FromOctets(a, b, c, d);
    assert n / 0x1_0000 == 256 * a + b;
    assert n / 256 == 256 * (256 * a + b) + c;
  }

  lemma OctetsOf(n: nat)
    requires n < 0x1_0000_0000
    ensures FromOctets(n / 0x100_0000, n / 0x1_0000 % 256, n / 256 % 256, n % 256) == n
    ensures n / 0x100_0000 < 256
  {
    var a, b := n / 256, n / 0x1_0000;
    assert n == 256 * a + n % 256 && a == 256 * b + a % 256 && b == 256 * (n / 0x100_0000) + b % 256;
  }

  /** Reading what was printed gives the number back. */
  lemma LongRoundTrip(n: nat)
    requires n < 0x1_0000_0000
    ensures IpToLong(LongToIp(n)) == Some(n)
    ensures IsCanonical(LongToIp(n))
  {
    OctetsOf(n);
    DottedReads(n / 0x100_0000, n / 0x1_0000 % 256, n / 256 % 256, n % 256);
  }

  /** Printing what was read gives the text back exactly for the canonical texts. */
  lemma TextRoundTripIff(text: string)
    ensures IpToLong(text).Some? && LongToIp(IpToLong(text).value) == text <==> IsCanonical(text)
  {
    if IsCanonical(text) {
      var a: nat, b: nat, c: nat, d: nat :|
        a < 256 && b < 256 && c < 256 && d < 256 && text == Dotted(a, b, c, d);
      DottedReads(a, b, c, d);
    }
    if IpToLong(text).Some? {
      LongRoundTrip(IpToLong(text).value);
    }
  }

  /** A short form and a canonical text; the short form means the lower address. */
  lemma ShortForm()
    ensures IpToLong("10.1") == Some(0x0a00_0001) && !IsCanonical("10.1")
    ensures IpToLong("10.0.0.2") == Some(0x0a00_0002)
  {
    ShortTexts();
    hide Decimal, IpToLong, IsCanonical, Dotted;
    TwoNumbers(10, 1);
    DottedReads(10, 0, 0, 2);
  }

  /** Two numbers are the first byte and the other three; the canonical text has four. */
  lemma TwoNumbers(a: nat, b: nat)
    requires a < 256 && b < 0x100_0000
    ensures var text := Join([Decimal(a), Decimal(b)], '.');
            IpToLong(text) == Some(0x100_0000 * a + b) && !IsCanonical(text)
  {
    hide Decimal, Split, CNumber, Join;
    var parts := [Decimal(a), Decimal(b)];
    SplitJoin(parts, '.');
    DecimalIsCNumber(a);
    DecimalIsCNumber(b);
    assert CNumbers(parts) == [Some(a), Some(b)];
    FourParts(Join(parts, '.'));
  }

  /** One number is the whole address; of three, the last fills two bytes. */
  lemma OneOrThreeNumbers(a: nat, b: nat, c: nat, n: nat)
    requires a < 256 && b < 256 && c < 0x1_0000 && n < 0x1_0000_0000
    ensures IpToLong(Decimal(n)) == Some(n)
    ensures IpToLong(Join([Decimal(a), Decimal(b), Decimal(c)], '.')) == Some(0x100_0000 * a + 0x1_0000 * b + c)
  {
    hide Decimal, Split, CNumber, Join;
    SplitAfter(Decimal(n), "", '.') by {
      NoDots(n);
    }
    DecimalIsCNumber(n);
    assert CNumbers([Decimal(n)]) == [Some(n)];
    ThreeNumbers(a, b, c);
  }

  lemma NoDots(n: nat)
    ensures '.' !in Decimal(n)
  {
  }

  lemma ThreeNumbers(a: nat, b: nat, c: nat)
    requires a < 256 && b < 256 && c < 0x1_0000
    ensures IpToLong(Join([Decimal(a), Decimal(b), Decimal(c)], '.')) == Some(0x100_0000 * a + 0x1_0000 * b + c)
  {
    NoDots(a);
    NoDots(b);
    NoDots(c);
    DecimalIsCNumber(a);
    DecimalIsCNumber(b);
    DecimalIsCNumber(c);
    hide Decimal, Split, CNumber, Join, IpToLong;
    var parts := [Decimal(a), Decimal(b), Decimal(c)];
    SplitJoin(parts, '.');
    ThreeParts(Join(parts, '.'), parts, a, b, c);
  }

  lemma ThreeParts(text: string, parts: seq<string>, a: nat, b: nat, c: nat)
    requires a < 256 && b < 256 && c < 0x1_0000 && |parts| == 3 && Split(text, '.') == parts
    requires CNumber(parts[0]) == Some(a) && CNumber(parts[1]) == Some(b) && CNumber(parts[2]) == Some(c)
    ensures IpToLong(text) == Some(0x100_0000 * a + 0x1_0000 * b + c)
  {
    hide Split, CNumber;
  }

  /** Numbers in the three notations of C. */
  lemma CNumberForms(n: nat, s: string)
    requires AreDigits(s, 8)
    ensures CNumber(Decimal(n)) == Some(n) && CNumber("0x" + ToHex(n)) == Some(n) && CNumber("0X" + ToHex(n)) == Some(n)
    ensures s != "" ==> CNumber("0" + s) == Some(FromDigits("0" + s, 8))
  {
    DecimalIsCNumber(n);
    HexRoundTrip(n);
    assert ("0x" + ToHex(n))[2..] == ToHex(n) && ("0X" + ToHex(n))[2..] == ToHex(n);
    assert DigitValue('0') == 0 && DigitValue('x') == 16 && DigitValue('X') == 16;
    var t := "0" + s;
    assert s != "" ==> t[1] == s[0];
  }

  lemma FourParts(text: string)
    ensures IsCanonical(text) ==> |Split(text, '.')| == 4
  {
    if IsCanonical(text) {
      var a: nat, b: nat, c: nat, d: nat :|
        a < 256 && b < 256 && c < 256 && d < 256 && text == Dotted(a, b, c, d);
      DottedParts(a, b, c, d);
    }
  }

  lemma ShortTexts()
    ensures Join([Decimal(10), Decimal(1)], '.') == "10.1" && Dotted(10, 0, 0, 2) == "10.0.0.2"
  {
    var ten, zero, two := Decimal(10), Decimal(0), Decimal(2);
    assert ten == "10" && zero == "0" && Decimal(1) == "1" && two == "2";
    hide Decimal;
    assert Join([zero, two], '.') == "0.2" && Join([zero, zero, two], '.') == "0.0.2";
  }

  // ----- the strict reader -----

  /** One octet: at most three decimal digits, and none that could be meant as an octal number. */
  function ParseOctet(s: string): Result<nat> {
    if s == "" then Err("Empty octet not permitted")
    else if !AreDigits(s, 10) then Err("Only decimal digits permitted")
    else if |s| > 3 then Err("At most 3 characters permitted")
    else
      var n := FromDigits(s, 10);
      if n > 7 && s[0] == '0' then Err("Ambiguous (octal/decimal) value not permitted")
      else if n > 255 then Err("Octet (> 255) not permitted")
      else Ok(n)
  }

  /** Exactly the short decimal numbers below 256 are octets that C would read as the same number. */
  lemma OctetIff(s: string)
    ensures ParseOctet(s).Ok? <==>
            && 1 <= |s| <= 3 && AreDigits(s, 10) && FromDigits(s, 10) < 256
            && CNumber(s) == Some(FromDigits(s, 10))
    ensures ParseOctet(s).Ok? ==> ParseOctet(s).value == FromDigits(s, 10)
  {
    hide FromDigits, CNumber, AreDigits;
    if 1 <= |s| <= 3 && AreDigits(s, 10) {
      CNumberOfDigits(s);
    }
  }

  lemma CNumberOfDigits(s: string)
    requires 1 <= |s| <= 3 && AreDigits(s, 10)
    ensures CNumber(s) == Some(FromDigits(s, 10)) <==> s[0] != '0' || FromDigits(s, 10) <= 7
  {
    hide FromDigits;
    if s[0] == '0' {
      SmallOctal(s);
      assert |s| > 1 ==> DigitValue(s[1]) < 10;
    }
  }

  /** A text of two or three decimal digits that starts with a zero. */
  lemma SmallOctal(s: string)
    requires 1 <= |s| <= 3 && AreDigits(s, 10) && s[0] == '0'
    ensures FromDigits(s, 10) <= 7 <==> AreDigits(s, 8) && FromDigits(s, 8) == FromDigits(s, 10)
    ensures |s| == 1 ==> FromDigits(s, 10) == 0
  {
    var last := DigitValue(s[|s| - 1]);
    var init := s[..|s| - 1];
    assert FromDigits(init[..0], 10) == 0 && FromDigits(init[..0], 8) == 0;
    if |s| == 3 {
      assert init[..1][..0] == init[..0] && init[..|init| - 1] == init[..1];
      assert init[..1][..|init[..1]| - 1] == init[..0];
      var mid := DigitValue(s[1]);
      assert FromDigits(init[..1], 10) == 0;
      assert FromDigits(init, 10) == mid && FromDigits(s, 10) == 10 * mid + last;
      assert mid < 8 ==> FromDigits(init[..1], 8) == 0 && FromDigits(init, 8) == mid;
    } else if |s| == 2 {
      assert init[..|init| - 1] == init[..0];
      assert FromDigits(init, 10) == 0 && FromDigits(s, 10) == last;
    } else {
      assert init == init[..0] && FromDigits(s, 10) == 0;
    }
  }

  /** The number of a dotted quad. */
  function DottedQuad(s: string): (n: Option<nat>)
    ensures n.Some? ==> n.value < 0x1_0000_0000
  {
    var octets := Split(s, '.');
    if |octets| != 4 then None
    else
      var a, b, c, d := ParseOctet(octets[0]), ParseOctet(octets[1]), ParseOctet(octets[2]), ParseOctet(octets[3]);
      if a.Ok? && b.Ok? && c.Ok? && d.Ok? then
        OctetIff(octets[0]);
        OctetIff(octets[1]);
        OctetIff(octets[2]);
        OctetIff(octets[3]);
        Some(FromOctets(a.value, b.value, c.value, d.value))
      else None
  }

  /** What the strict reader accepts `inet_aton` reads as the same number; and it accepts every canonical
      text. */
  lemma StrictReaderAgrees(s: string)
    ensures DottedQuad(s).Some? ==> IpToLong(s) == DottedQuad(s)
    ensures IsCanonical(s) ==> DottedQuad(s).Some?
  {
    hide CNumber, ParseOctet, FromDigits, FromOctets, IsCanonical, AreDigits;
    var octets := Split(s, '.');
    forall i | 0 <= i < |octets| {
      OctetIff(octets[i]);
    }
    if IsCanonical(s) {
      CanonicalIsStrict(s);
    }
  }

  lemma CanonicalIsStrict(s: string)
    requires IsCanonical(s)
    ensures DottedQuad(s).Some?
  {
    hide ParseOctet, Dotted, FromOctets;
    var a: nat, b: nat, c: nat, d: nat :|
      a < 256 && b < 256 && c < 256 && d < 256 && s == Dotted(a, b, c, d);
    DottedParts(a, b, c, d);
    CanonicalOctet(a);
    CanonicalOctet(b);
    CanonicalOctet(c);
    CanonicalOctet(d);
  }

  lemma CanonicalOctet(n: nat)
    requires n < 256
    ensures ParseOctet(Decimal(n)) == Ok(n)
  {
    DecimalRoundTrip(n);
    assert n / 10 < 100 && n / 10 / 10 < 10;
    assert |Decimal(n / 10 / 10)| == 1 && |Decimal(n / 10)| <= 2;
    assert |Decimal(n)| <= 3;
  }
}
