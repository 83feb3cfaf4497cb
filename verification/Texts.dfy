/** Numbers as texts, and texts that are lists of parts. */
module Texts {

  // ----- digits -----

  function HexDigit(d: nat): char
    requires d < 16
  {
    "0123456789abcdef"[d]
  }

  /** The value of a digit, hexadecimal ones of either case; 16 for any other character. */
  function DigitValue(c: char): (v: nat)
    ensures v <= 16
  {
    if '0' <= c <= '9' then (c as int) - ('0' as int)
    else if 'a' <= c <= 'f' then (c as int) - ('a' as int) + 10
    else if 'A' <= c <= 'F' then (c as int) - ('A' as int) + 10
    else 16
  }

  predicate AreDigits(s: string, base: nat) {
    forall i | 0 <= i < |s| :: DigitValue(s[i]) < base
  }

  /** `int(s, base)`. */
  function FromDigits(s: string, base: nat): nat
    requires AreDigits(s, base)
  {
    if s == "" then 0 else base * FromDigits(s[..|s| - 1], base) + DigitValue(s[|s| - 1])
  }

  function Power(base: nat, n: nat): nat {
    if n == 0 then 1 else base * Power(base, n - 1)
  }

  lemma {:induction false} DigitsBound(s: string, base: nat, width: nat)
    requires base > 0 && AreDigits(s, base) && |s| <= width
    ensures FromDigits(s, base) < Power(base, width)
    decreases width
  {
    if s == "" {
      PowerPositive(base, width);
    } else {
      var init := s[..|s| - 1];
      DigitsBound(init, base, width - 1);
      OneMoreDigit(base, FromDigits(init, base), Power(base, width - 1), DigitValue(s[|s| - 1]));
    }
  }

  lemma {:induction false} PowerPositive(base: nat, n: nat)
    requires base > 0
    ensures Power(base, n) > 0
  {
    if n > 0 {
      PowerPositive(base, n - 1);
    }
  }

  lemma OneMoreDigit(base: nat, a: nat, p: nat, d: nat)
    requires a < p && d < base
    ensures base * a + d < base * p
  {
    assert base * (a + 1) <= base * p;
  }

  predicate IsHex(s: string) {
    AreDigits(s, 16)
  }

  function FromHex(s: string): nat
    requires IsHex(s)
  {
    FromDigits(s, 16)
  }

  /** `'%x' % n`. */
  function ToHex(n: nat): string {
    if n < 16 then [HexDigit(n)] else ToHex(n / 16) + [HexDigit(n % 16)]
  }

  lemma DigitRoundTrip(d: nat)
    requires d < 16
    ensures DigitValue(HexDigit(d)) == d && HexDigit(d) != ':' && HexDigit(d) != '.'
  {
  }

  lemma {:induction false} HexRoundTrip(n: nat)
    ensures IsHex(ToHex(n)) && FromHex(ToHex(n)) == n
    ensures ToHex(n) != "" && ':' !in ToHex(n) && '.' !in ToHex(n)
    ensures ToHex(n) == "0" <==> n == 0
    ensures ToHex(n)[0] == '0' <==> n == 0
    decreases n
  {
    if n < 16 {
      DigitRoundTrip(n);
      assert ToHex(n)[..0] == "" && FromDigits("", 16) == 0;
      assert HexDigit(0) == '0';
    } else {
      HexRoundTrip(n / 16);
      DigitRoundTrip(n % 16);
      assert ToHex(n)[..|ToHex(n)| - 1] == ToHex(n / 16);
      assert |ToHex(n)| >= 2;
    }
  }

  /** Digits are printed in lower case. */
  lemma {:induction false} HexIsLower(n: nat)
    ensures forall c | c in ToHex(n) :: '0' <= c <= '9' || 'a' <= c <= 'f'
  {
    DigitForms(n % 16);
    if n >= 16 {
      HexIsLower(n / 16);
    }
  }

  lemma DigitForms(d: nat)
    requires d < 16
    ensures var c := HexDigit(d);
            if d < 10 then '0' <= c <= '9' && c as int == '0' as int + d
            else 'a' <= c <= 'f' && c as int == 'a' as int + d - 10
  {
  }

  /** The case of a digit makes no difference. */
  lemma CaseInsensitive(c: char)
    requires 'A' <= c <= 'F'
    ensures DigitValue(c) == DigitValue(c - 'A' + 'a') < 16
  {
  }

  // ----- decimal -----

  /** `str` of a number. */
  function Decimal(n: nat): (s: string)
    ensures s != [] && forall i | 0 <= i < |s| :: '0' <= s[i] <= '9'
  {
    if n < 10 then [HexDigit(n)] else Decimal(n / 10) + [HexDigit(n % 10)]
  }

  /** Reading gives the number back; a leading zero is only written for zero itself. */
  lemma {:induction false} DecimalRoundTrip(n: nat)
    ensures AreDigits(Decimal(n), 10) && FromDigits(Decimal(n), 10) == n
    ensures Decimal(n)[0] == '0' <==> n == 0
    ensures n == 0 ==> |Decimal(n)| == 1
    decreases n
  {
    if n < 10 {
      DigitRoundTrip(n);
      assert Decimal(n)[..0] == "";
      assert FromDigits("", 10) == 0;
    } else {
      DecimalRoundTrip(n / 10);
      DigitRoundTrip(n % 10);
      assert Decimal(n)[..|Decimal(n)| - 1] == Decimal(n / 10);
    }
  }

  lemma DecimalInjective(m: nat, n: nat)
    requires Decimal(m) == Decimal(n)
    ensures m == n
  {
    DecimalRoundTrip(m);
    DecimalRoundTrip(n);
  }

  // ----- splitting and joining -----

  /** `sep.join(parts)`. */
  function Join(parts: seq<string>, sep: char): string {
    if parts == [] then "" else if |parts| == 1 then parts[0] else parts[0] + [sep] + Join(parts[1..], sep)
  }

  /** `s.split(sep)`. */
  function Split(s: string, sep: char): (parts: seq<string>)
    ensures parts != []
  {
    if s == "" then [""]
    else
      var rest := Split(s[1..], sep);
      if s[0] == sep then [""] + rest else [[s[0]] + rest[0]] + rest[1..]
  }

  lemma {:induction false} SplitAfter(head: string, tail: string, sep: char)
    requires sep !in head
    ensures Split(head + [sep] + tail, sep) == [head] + Split(tail, sep)
    ensures Split(head, sep) == [head]
  {
    if head == "" {
      assert (head + [sep] + tail)[1..] == tail;
    } else {
      SplitAfter(head[1..], tail, sep);
      assert (head + [sep] + tail)[1..] == head[1..] + [sep] + tail;
      assert [head[0]] + head[1..] == head;
    }
  }

  lemma {:induction false} SplitJoin(parts: seq<string>, sep: char)
    requires parts != [] && forall i | 0 <= i < |parts| :: sep !in parts[i]
    ensures Split(Join(parts, sep), sep) == parts
  {
    if |parts| == 1 {
      SplitAfter(parts[0], "", sep);
    } else {
      SplitJoin(parts[1..], sep);
      SplitAfter(parts[0], Join(parts[1..], sep), sep);
    }
  }

  /** Every text is the join of its parts, and no part holds the separator. */
  lemma {:induction false} JoinSplit(s: string, sep: char)
    ensures Join(Split(s, sep), sep) == s
    ensures forall i | 0 <= i < |Split(s, sep)| :: sep !in Split(s, sep)[i]
  {
    if s != "" {
      var rest := Split(s[1..], sep);
      JoinSplit(s[1..], sep);
      assert s == [s[0]] + s[1..];
      if s[0] == sep {
        assert Split(s, sep)[1..] == rest;
      } else {
        assert Split(s, sep)[1..] == rest[1..];
        if |rest| > 1 {
          assert Join(rest, sep) == rest[0] + [sep] + Join(rest[1..], sep);
        }
      }
    }
  }

  lemma JoinCons(head: string, rest: seq<string>, sep: char)
    requires rest != []
    ensures Join([head] + rest, sep) == head + [sep] + Join(rest, sep)
  {
    assert ([head] + rest)[1..] == rest;
  }

  lemma JoinOne(part: string, sep: char)
    ensures Join([part], sep) == part
  {
  }

  lemma {:induction false} JoinHolds(parts: seq<string>, sep: char, c: char)
    ensures c in Join(parts, sep) <==> (|parts| > 1 && c == sep) || exists i :: 0 <= i < |parts| && c in parts[i]
  {
    if |parts| > 1 {
      JoinHolds(parts[1..], sep, c);
      assert forall i | 0 <= i < |parts| - 1 :: parts[1..][i] == parts[i + 1];
    }
  }
}
