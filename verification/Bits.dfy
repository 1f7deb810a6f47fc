/** Bit-level facts the instruction semantics rest on: words built from a predicate on bit positions,
    the bits of shifted and masked words, counting and finding set bits, and two's complement. */
module Bits {
  import opened Words

  /** The word of n bits whose bit i is f(i). */
  function FromBits(f: nat -> bool, n: nat): (r: nat)
    ensures r < Pow2(n)
  {
    if n == 0 then 0 else Low(f(n - 1)) * Pow2(n - 1) + FromBits(f, n - 1)
  }

  lemma {:induction false} BitOfFromBits(f: nat -> bool, n: nat, i: nat)
    ensures Bit(FromBits(f, n), i) <==> i < n && f(i)
  {
    if n == 0 {
      BitOfZero(i);
    } else {
      BitOfFromBits(f, n - 1, i);
      BitOfSum(Low(f(n - 1)), FromBits(f, n - 1), n - 1, i);
      if i >= n - 1 { BitOfLow(f(n - 1), i - (n - 1)); }
    }
  }

  lemma FromBitsBits(f: nat -> bool, n: nat)
    ensures forall i: nat :: Bit(FromBits(f, n), i) <==> i < n && f(i)
  {
    forall i: nat ensures Bit(FromBits(f, n), i) <==> i < n && f(i) {
      BitOfFromBits(f, n, i);
    }
  }

  lemma BitOfLow(b: bool, i: nat)
    ensures Bit(Low(b), i) <==> i == 0 && b
  {
    if i > 0 { BitOfZero(i - 1); }
  }

  /** The bits of high * 2^k + low. */
  lemma {:induction false} BitOfSum(high: nat, low: nat, k: nat, i: nat)
    requires low < Pow2(k)
    ensures Bit(high * Pow2(k) + low, i) <==> if i < k then Bit(low, i) else Bit(high, i - k)
    decreases k
  {
    if k > 0 {
      MulTwice(high, Pow2(k - 1));
      var half := high * Pow2(k - 1);
      assert high * Pow2(k) + low == 2 * half + low;
      assert (2 * half + low) / 2 == half + low / 2 && (2 * half + low) % 2 == low % 2;
      if i > 0 { BitOfSum(high, low / 2, k - 1, i - 1); }
    }
  }

  // ---- shifts and masks ----

  /** x shifted left by k places, unbounded: x * 2^k. */
  function Shl(x: nat, k: nat): nat {
    if k == 0 then x else 2 * Shl(x, k - 1)
  }

  /** x shifted right by k places: x / 2^k. */
  function Shr(x: nat, k: nat): (r: nat)
    ensures r <= x
  {
    if k == 0 then x else Shr(x / 2, k - 1)
  }

  /** The low k bits of x: x mod 2^k. */
  function Lows(x: nat, k: nat): (r: nat)
    ensures r <= x && r < Pow2(k)
  {
    if k == 0 then 0 else x % 2 + 2 * Lows(x / 2, k - 1)
  }

  lemma {:induction false} ShlIsProduct(x: nat, k: nat)
    ensures Shl(x, k) == x * Pow2(k)
  {
    if k > 0 {
      ShlIsProduct(x, k - 1);
      MulTwice(x, Pow2(k - 1));
    }
  }

  lemma {:induction false} SplitAt(x: nat, k: nat)
    ensures x == Shr(x, k) * Pow2(k) + Lows(x, k)
    decreases k
  {
    if k > 0 {
      SplitAt(x / 2, k - 1);
      MulTwice(Shr(x, k), Pow2(k - 1));
    }
  }

  lemma ShrIsQuotient(x: nat, k: nat)
    ensures Shr(x, k) == x / Pow2(k) && Lows(x, k) == x % Pow2(k)
  {
    SplitAt(x, k);
    DivModUnique(x, Pow2(k), Shr(x, k), Lows(x, k));
  }

  lemma {:induction false} BitOfShl(x: nat, k: nat, i: nat)
    ensures Bit(Shl(x, k), i) <==> i >= k && Bit(x, i - k)
  {
    if k > 0 && i > 0 { BitOfShl(x, k - 1, i - 1); }
  }

  lemma {:induction false} BitOfShr(x: nat, k: nat, i: nat)
    ensures Bit(Shr(x, k), i) <==> Bit(x, i + k)
    decreases k
  {
    if k > 0 { BitOfShr(x / 2, k - 1, i); }
  }

  lemma {:induction false} BitOfLows(x: nat, k: nat, i: nat)
    ensures Bit(Lows(x, k), i) <==> i < k && Bit(x, i)
    decreases k
  {
    if k == 0 {
      BitOfZero(i);
    } else {
      assert Lows(x, k) / 2 == Lows(x / 2, k - 1) && Lows(x, k) % 2 == x % 2;
      if i > 0 { BitOfLows(x / 2, k - 1, i - 1); }
    }
  }

  lemma LowsOfSmall(x: nat, k: nat)
    requires x < Pow2(k)
    ensures Lows(x, k) == x && Shr(x, k) == 0
  {
    ShrIsQuotient(x, k);
    DivModUnique(x, Pow2(k), 0, x);
  }

  lemma BitOfOnes(k: nat, i: nat)
    ensures Bit(Pow2(k) - 1, i) <==> i < k
  {
    if i < k {
      OnesBelow(k, i);
    } else {
      BitAbove(Pow2(k) - 1, k, i);
    }
  }

  lemma {:induction false} OnesBelow(k: nat, i: nat)
    requires i < k
    ensures Bit(Pow2(k) - 1, i)
  {
    assert (Pow2(k) - 1) / 2 == Pow2(k - 1) - 1 && (Pow2(k) - 1) % 2 == 1;
    if i > 0 { OnesBelow(k - 1, i - 1); }
  }

  /** The most significant bit of a word is its comparison with the middle. */
  lemma TopBit(x: nat, k: nat)
    requires x < Pow2(k + 1)
    ensures Bit(x, k) <==> x >= Pow2(k)
  {
    if x >= Pow2(k) {
      BitOfSum(1, x - Pow2(k), k, k);
    } else {
      BitOfSum(0, x, k, k);
    }
  }

  // ---- products ----

  /** The product as repeated addition. */
  function Times(x: nat, y: nat): nat {
    if x == 0 then 0 else Times(x - 1, y) + y
  }

  lemma {:induction false} TimesIsProduct(x: nat, y: nat)
    ensures Times(x, y) == x * y
  {
    if x > 0 {
      TimesIsProduct(x - 1, y);
      assert x * y == (x - 1) * y + y;
    }
  }

  // ---- counting and finding ----

  function Popcount(x: nat): nat {
    if x == 0 then 0 else x % 2 + Popcount(x / 2)
  }

  /** How many of the bits below position n are set. */
  function CountBelow(x: nat, n: nat): nat {
    if n == 0 then 0 else CountBelow(x, n - 1) + Low(Bit(x, n - 1))
  }

  lemma {:induction false} CountBelowShift(x: nat, n: nat)
    ensures CountBelow(x, n + 1) == x % 2 + CountBelow(x / 2, n)
  {
    if n > 0 { CountBelowShift(x, n - 1); }
  }

  lemma {:induction false} CountOfZero(n: nat)
    ensures CountBelow(0, n) == 0
  {
    if n > 0 {
      CountOfZero(n - 1);
      BitOfZero(n - 1);
    }
  }

  lemma {:induction false} PopcountCounts(x: nat, n: nat)
    requires x < Pow2(n)
    ensures Popcount(x) == CountBelow(x, n)
    decreases n
  {
    if x == 0 {
      CountOfZero(n);
    } else {
      CountBelowShift(x, n - 1);
      PopcountCounts(x / 2, n - 1);
    }
  }

  /** Counting after masking with 2^n - 1 counts the bits below n. */
  lemma PopcountMasked(x: nat, n: nat)
    ensures Popcount(BitAnd(x, Pow2(n) - 1)) == CountBelow(x, n)
  {
    MaskIsRemainder(x, n);
    ShrIsQuotient(x, n);
    PopcountCounts(Lows(x, n), n);
    CountSame(Lows(x, n), x, n, n);
  }

  lemma {:induction false} CountSame(x: nat, y: nat, k: nat, n: nat)
    requires k <= n && x == Lows(y, n)
    ensures CountBelow(x, k) == CountBelow(y, k)
    decreases k
  {
    if k > 0 {
      CountSame(x, y, k - 1, n);
      BitOfLows(y, n, k - 1);
    }
  }

  lemma {:induction false} CountBelowAtMost(x: nat, n: nat)
    ensures CountBelow(x, n) <= n
  {
    if n > 0 { CountBelowAtMost(x, n - 1); }
  }

  /** Position of the lowest set bit; the width when there is none. */
  function Ctz(x: nat, width: nat): (r: nat)
    ensures r <= width
    decreases width
  {
    if width == 0 || x % 2 == 1 then 0 else 1 + Ctz(x / 2, width - 1)
  }

  lemma {:induction false} CtzFinds(x: nat, width: nat)
    ensures Ctz(x, width) < width ==> Bit(x, Ctz(x, width))
    ensures forall i: nat :: i < Ctz(x, width) ==> !Bit(x, i)
    decreases width
  {
    if width > 0 && x % 2 == 0 {
      CtzFinds(x / 2, width - 1);
      forall i: nat | i < Ctz(x, width) ensures !Bit(x, i) {
        if i > 0 { assert !Bit(x / 2, i - 1); }
      }
    }
  }

  lemma {:induction false} CtzOfNonzero(x: nat, width: nat)
    requires 0 < x < Pow2(width)
    ensures Ctz(x, width) < width
    decreases width
  {
    if x % 2 == 0 { CtzOfNonzero(x / 2, width - 1); }
  }

  // ---- two's complement ----

  /** The value of the low n bits of x read as two's complement. */
  function Signed(x: nat, n: nat): (r: int)
    requires n > 0 && x < Pow2(n)
    ensures -(Pow2(n - 1) as int) <= r < Pow2(n - 1)
  {
    if x < Pow2(n - 1) then x else x - Pow2(n)
  }

  /** Flipping the sign bit and subtracting it sign-extends. */
  lemma XorSubtractExtends(x: nat, n: nat)
    requires n > 0 && x < Pow2(n)
    ensures BitXor(x, Pow2(n - 1)) - Pow2(n - 1) == Signed(x, n)
  {
    var s := Pow2(n - 1);
    if x >= s {
      XorTop(x - s, true, n - 1);
    } else {
      XorTop(x, false, n - 1);
    }
  }

  /** Flipping bit k of low + b * 2^k. */
  lemma {:induction false} XorTop(low: nat, b: bool, k: nat)
    requires low < Pow2(k)
    ensures BitXor(low + (if b then Pow2(k) else 0), Pow2(k)) == low + (if b then 0 else Pow2(k))
    decreases k
  {
    if k > 0 { XorTop(low / 2, b, k - 1); }
  }
}
