/** Powers of two, alignment and bit counts, all by halving. */
module Powers {

  function Pow2(n: nat): (p: nat)
    ensures p > 0
  {
    if n == 0 then 1 else 2 * Pow2(n - 1)
  }

  /** `x >> k`. */
  function ShiftRight(x: nat, k: nat): nat {
    if k == 0 then x else ShiftRight(x / 2, k - 1)
  }

  /** The low `k` bits of `x` are zero. */
  predicate Aligned(x: nat, k: nat) {
    k == 0 || (x % 2 == 0 && Aligned(x / 2, k - 1))
  }

  /** `x` with its low `k` bits cleared. */
  function ClearLow(x: nat, k: nat): nat {
    if k == 0 then x else 2 * ClearLow(x / 2, k - 1)
  }

  lemma {:induction false} Pow2Add(a: nat, b: nat)
    ensures Pow2(a + b) == Pow2(a) * Pow2(b)
  {
    if a > 0 {
      Pow2Add(a - 1, b);
      assert Pow2(a + b) == 2 * (Pow2(a - 1) * Pow2(b));
    }
  }

  lemma {:induction false} Pow2Grows(a: nat, b: nat)
    requires a <= b
    ensures Pow2(a) <= Pow2(b)
    ensures a < b ==> 2 * Pow2(a) <= Pow2(b)
  {
    if a < b {
      Pow2Grows(a, b - 1);
    }
  }

  lemma Pow2Order(a: nat, b: nat)
    ensures Pow2(a) == Pow2(b) <==> a == b
    ensures Pow2(a) < Pow2(b) <==> a < b
  {
  }

  lemma {:induction false} AlignedLess(x: nat, a: nat, b: nat)
    requires a <= b && Aligned(x, b)
    ensures Aligned(x, a)
  {
    if a > 0 {
      AlignedLess(x / 2, a - 1, b - 1);
    }
  }

  lemma {:induction false} AlignedAdd(x: nat, y: nat, k: nat)
    requires Aligned(x, k) && Aligned(y, k)
    ensures Aligned(x + y, k)
    ensures x >= y ==> Aligned(x - y, k)
  {
    if k > 0 {
      AlignedAdd(x / 2, y / 2, k - 1);
      assert (x + y) / 2 == x / 2 + y / 2;
      assert x >= y ==> (x - y) / 2 == x / 2 - y / 2;
    }
  }

  lemma {:induction false} Pow2Aligned(a: nat, b: nat)
    requires a <= b
    ensures Aligned(Pow2(b), a)
  {
    if a > 0 {
      Pow2Aligned(a - 1, b - 1);
    }
  }

  /** Two multiples of 2^k are at least 2^k apart. */
  lemma {:induction false} AlignedGap(x: nat, y: nat, k: nat)
    requires Aligned(x, k) && Aligned(y, k) && x < y
    ensures x + Pow2(k) <= y
  {
    if k > 0 {
      AlignedGap(x / 2, y / 2, k - 1);
    }
  }

  lemma {:induction false} ZeroAligned(k: nat)
    ensures Aligned(0, k)
  {
    if k > 0 {
      ZeroAligned(k - 1);
    }
  }

  /** The bit above the alignment decides between a multiple of 2^(k+1) and 2^k more than one. */
  lemma {:induction false} AlignedHalf(x: nat, k: nat)
    requires Aligned(x, k)
    ensures ShiftRight(x, k) % 2 == 0 <==> Aligned(x, k + 1)
    ensures !Aligned(x, k + 1) ==> x >= Pow2(k) && Aligned(x - Pow2(k), k + 1)
  {
    if k > 0 {
      AlignedHalf(x / 2, k - 1);
      if !Aligned(x, k + 1) {
        assert (x - Pow2(k)) / 2 == x / 2 - Pow2(k - 1);
      }
    } else if x % 2 == 1 {
      assert Aligned((x - 1) / 2, 0);
    }
  }

  lemma {:induction false} ClearLowProperties(x: nat, k: nat)
    ensures Aligned(ClearLow(x, k), k)
    ensures ClearLow(x, k) <= x < ClearLow(x, k) + Pow2(k)
  {
    if k > 0 {
      ClearLowProperties(x / 2, k - 1);
    }
  }

  lemma {:induction false} ClearLowAligned(x: nat, k: nat)
    requires Aligned(x, k)
    ensures ClearLow(x, k) == x
  {
    if k > 0 {
      ClearLowAligned(x / 2, k - 1);
    }
  }

  /** Being aligned is being a multiple of the power of two. */
  lemma {:induction false} AlignedIff(x: nat, k: nat)
    ensures Aligned(x, k) <==> exists m: nat :: Times(m, Pow2(k)) == x
  {
    hide Times;
    if k == 0 {
      TimesOne(x);
      assert Times(x, Pow2(0)) == x;
    } else {
      AlignedIff(x / 2, k - 1);
      if Aligned(x, k) {
        var m: nat :| Times(m, Pow2(k - 1)) == x / 2;
        TimesTwice(m, Pow2(k - 1));
        assert Times(m, Pow2(k)) == x;
      }
      if m: nat :| Times(m, Pow2(k)) == x {
        TimesTwice(m, Pow2(k - 1));
        assert Times(m, Pow2(k - 1)) == x / 2;
      }
    }
  }

  ghost function Times(m: nat, n: nat): nat {
    m * n
  }

  lemma TimesOne(x: nat)
    ensures Times(x, 1) == x
  {
  }

  lemma TimesTwice(m: nat, n: nat)
    ensures Times(m, 2 * n) == 2 * Times(m, n)
  {
  }

  // ----- bit counts -----

  /** Python's `int.bit_length`. */
  function BitLength(n: nat): nat {
    if n == 0 then 0 else 1 + BitLength(n / 2)
  }

  lemma {:induction false} BitLengthBounds(n: nat)
    requires n > 0
    ensures BitLength(n) >= 1 && Pow2(BitLength(n) - 1) <= n < Pow2(BitLength(n))
  {
    if n > 1 {
      BitLengthBounds(n / 2);
    }
  }

  /** The number of zero bits on the right of `number`, at most `bits`. */
  method CountRighthandZeroBits(number: nat, bits: nat) returns (count: nat)
    ensures count <= bits && Aligned(number, count)
    ensures number == 0 ==> count == bits
    ensures count < bits ==> !Aligned(number, count + 1)
  {
    if number == 0 {
      ZeroAligned(bits);
      return bits;
    }
    var i := 0;
    while i < bits
      invariant i <= bits && Aligned(number, i)
    {
      AlignedHalf(number, i);
      if ShiftRight(number, i) % 2 == 1 {
        return i;
      }
      i := i + 1;
    }
    return bits;
  }
}
