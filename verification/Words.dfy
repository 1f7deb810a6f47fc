/** Machine words as bounded naturals, with the bit operations written out bit by bit.
    The other modules use the lemmas here to trade masks for remainders. */
module Words {

  const TWO32: nat := 0x1_0000_0000
  const TWO64: nat := 0x1_0000_0000_0000_0000
  const PAGE: nat := 0x1000

  type U32 = x: int | 0 <= x < TWO32
  type U64 = x: int | 0 <= x < TWO64

  /** The unchecked conversion of an arithmetic result to 64 bits. */
  function Wrap64(x: int): U64 {
    x % TWO64
  }

  function Pow2(n: nat): (p: nat)
    ensures p > 0
  {
    if n == 0 then 1 else 2 * Pow2(n - 1)
  }

  /** Bit i of x, counted from the least significant. */
  predicate Bit(x: nat, i: nat) {
    if i == 0 then x % 2 == 1 else Bit(x / 2, i - 1)
  }

  function Low(b: bool): (r: nat) {
    if b then 1 else 0
  }

  function BitAnd(x: nat, y: nat): (r: nat)
    ensures r <= x && r <= y
  {
    if x == 0 || y == 0 then 0 else 2 * BitAnd(x / 2, y / 2) + Low(x % 2 == 1 && y % 2 == 1)
  }

  function BitOr(x: nat, y: nat): (r: nat)
    ensures x <= r && y <= r <= x + y
  {
    if x == 0 then y else if y == 0 then x else 2 * BitOr(x / 2, y / 2) + Low(x % 2 == 1 || y % 2 == 1)
  }

  function BitXor(x: nat, y: nat): (r: nat)
    ensures r <= x + y
  {
    if x == 0 then y else if y == 0 then x else 2 * BitXor(x / 2, y / 2) + Low(x % 2 != y % 2)
  }

  /** The complement of x in a word of n bits. */
  function BitNot(x: nat, n: nat): (r: nat)
    requires x < Pow2(n)
    ensures r < Pow2(n)
  {
    Pow2(n) - 1 - x
  }

  lemma Pow2Known()
    ensures Pow2(8) == 0x100 && Pow2(12) == PAGE && Pow2(16) == 0x1_0000
    ensures Pow2(32) == TWO32 && Pow2(64) == TWO64
  {
    assert Pow2(8) == 0x100;
    assert Pow2(12) == 0x1000;
    Pow2Add(8, 8);
    Pow2Add(16, 16);
    Pow2Add(32, 32);
  }

  lemma {:induction false} Pow2Add(a: nat, b: nat)
    ensures Pow2(a + b) == Pow2(a) * Pow2(b)
  {
    if a > 0 {
      Pow2Add(a - 1, b);
      MulTwice(Pow2(b), Pow2(a - 1));
    }
  }

  lemma {:induction false} Pow2Monotone(a: nat, b: nat)
    requires a <= b
    ensures Pow2(a) <= Pow2(b)
  {
    if a < b {
      Pow2Monotone(a, b - 1);
    }
  }

  // ---- single bits of the operations ----

  lemma {:induction false} BitOfZero(i: nat)
    ensures !Bit(0, i)
  {
    if i > 0 { BitOfZero(i - 1); }
  }

  lemma {:induction false} BitAndAt(x: nat, y: nat, i: nat)
    ensures Bit(BitAnd(x, y), i) <==> Bit(x, i) && Bit(y, i)
    decreases i
  {
    BitOfZero(i);
    if i > 0 && x != 0 && y != 0 {
      BitAndAt(x / 2, y / 2, i - 1);
    }
  }

  lemma {:induction false} BitOrAt(x: nat, y: nat, i: nat)
    ensures Bit(BitOr(x, y), i) <==> Bit(x, i) || Bit(y, i)
    decreases i
  {
    BitOfZero(i);
    if i > 0 && x != 0 && y != 0 {
      BitOrAt(x / 2, y / 2, i - 1);
    }
  }

  lemma {:induction false} BitXorAt(x: nat, y: nat, i: nat)
    ensures Bit(BitXor(x, y), i) <==> Bit(x, i) != Bit(y, i)
    decreases i
  {
    BitOfZero(i);
    if i > 0 && x != 0 && y != 0 {
      BitXorAt(x / 2, y / 2, i - 1);
    }
  }

  lemma {:induction false} BitNotAt(x: nat, n: nat, i: nat)
    requires x < Pow2(n) && i < n
    ensures Bit(BitNot(x, n), i) <==> !Bit(x, i)
    decreases i
  {
    if i > 0 {
      assert BitNot(x, n) / 2 == BitNot(x / 2, n - 1);
      BitNotAt(x / 2, n - 1, i - 1);
    }
  }

  lemma {:induction false} BitAbove(x: nat, n: nat, i: nat)
    requires x < Pow2(n) && n <= i
    ensures !Bit(x, i)
    decreases n
  {
    if n == 0 {
      BitOfZero(i);
    } else {
      BitAbove(x / 2, n - 1, i - 1);
    }
  }

  /** A word is determined by its bits. */
  lemma {:induction false} BitsDetermine(x: nat, y: nat, n: nat)
    requires x < Pow2(n) && y < Pow2(n)
    requires forall i :: 0 <= i < n ==> (Bit(x, i) <==> Bit(y, i))
    ensures x == y
  {
    if n > 0 {
      forall i | 0 <= i < n - 1 ensures Bit(x / 2, i) <==> Bit(y / 2, i) {
        assert Bit(x, i + 1) <==> Bit(y, i + 1);
      }
      BitsDetermine(x / 2, y / 2, n - 1);
      assert Bit(x, 0) <==> Bit(y, 0);
    }
  }

  lemma {:induction false} BitwiseBound(x: nat, y: nat, n: nat)
    requires x < Pow2(n) && y < Pow2(n)
    ensures BitOr(x, y) < Pow2(n) && BitXor(x, y) < Pow2(n)
    decreases n
  {
    if n > 0 && x != 0 && y != 0 {
      BitwiseBound(x / 2, y / 2, n - 1);
    }
  }

  // ---- masks as remainders ----

  /** Masking with 2^k - 1 is the remainder by 2^k. */
  lemma {:induction false} MaskIsRemainder(x: nat, k: nat)
    ensures BitAnd(x, Pow2(k) - 1) == x % Pow2(k)
    decreases k
  {
    if k == 0 {
    } else if x == 0 {
      DivModUnique(0, Pow2(k), 0, 0);
    } else {
      var p := Pow2(k - 1);
      var m := Pow2(k) - 1;
      assert m == 2 * (p - 1) + 1;
      assert m / 2 == p - 1 && m % 2 == 1;
      MaskIsRemainder(x / 2, k - 1);
      assert BitAnd(x, m) == 2 * BitAnd(x / 2, p - 1) + x % 2;
      HalfRemainder(x, p);
    }
  }

  lemma HalfRemainder(x: nat, p: nat)
    requires p > 0
    ensures x % (2 * p) == 2 * ((x / 2) % p) + x % 2
  {
    var q := (x / 2) / p;
    var r := (x / 2) % p;
    assert x == q * (2 * p) + (2 * r + x % 2) by {
      assert x / 2 == q * p + r;
      assert 2 * (q * p) == q * (2 * p);
    }
    DivModUnique(x, 2 * p, q, 2 * r + x % 2);
  }

  lemma DivModUnique(x: int, d: nat, q: int, r: int)
    requires d > 0 && 0 <= r < d && x == q * d + r
    ensures x / d == q && x % d == r
  {
    var q', r' := x / d, x % d;
    var e := q - q';
    assert e * d == q * d - q' * d;
    assert (-e) * d == -(e * d);
    if e >= 1 {
      MulAtLeast(e, d);
    } else if e <= -1 {
      MulAtLeast(-e, d);
    }
  }

  lemma MulTwice(x: int, y: int)
    ensures x * (2 * y) == 2 * (x * y) && (2 * y) * x == 2 * (x * y)
  {
  }

  lemma MulAtLeast(e: int, d: nat)
    requires e >= 1
    ensures e * d >= d
  {
    assert (e - 1) * d >= 0;
    assert (e - 1) * d == e * d - d;
  }

  /** Clearing the bits of a mask subtracts exactly the bits it selects. */
  lemma {:induction false} AndNotIsDifference(x: nat, m: nat, n: nat)
    requires x < Pow2(n) && m < Pow2(n)
    ensures BitAnd(x, BitNot(m, n)) == x - BitAnd(x, m)
    decreases n
  {
    if n > 0 && x != 0 {
      assert BitNot(m, n) / 2 == BitNot(m / 2, n - 1);
      AndNotIsDifference(x / 2, m / 2, n - 1);
      if m == 0 {
        AndAllOnes(x, n);
      } else if BitNot(m, n) == 0 {
        AndAllOnes(x, n);
      }
    }
  }

  lemma AndAllOnes(x: nat, n: nat)
    requires x < Pow2(n)
    ensures BitAnd(x, Pow2(n) - 1) == x
  {
    MaskIsRemainder(x, n);
    DivModUnique(x, Pow2(n), 0, x);
  }

  /** Setting bits below 2^k in a multiple of 2^k adds them. */
  lemma {:induction false} OrDisjointIsSum(high: nat, low: nat, k: nat)
    requires low < Pow2(k)
    ensures BitOr(high * Pow2(k), low) == high * Pow2(k) + low
    decreases k
  {
    if k > 0 && high != 0 && low != 0 {
      OrDisjointIsSum(high, low / 2, k - 1);
      MulTwice(high, Pow2(k - 1));
      OrOfEven(high * Pow2(k - 1), low);
    }
  }

  lemma OrOfEven(half: nat, low: nat)
    ensures BitOr(2 * half, low) == 2 * BitOr(half, low / 2) + low % 2
  {
  }

  predicate IsPow2(n: nat) {
    n == 1 || (n > 1 && n % 2 == 0 && IsPow2(n / 2))
  }

  function Log2(n: nat): (k: nat)
    requires IsPow2(n)
    ensures Pow2(k) == n
  {
    if n == 1 then 0 else 1 + Log2(n / 2)
  }

  /** n & (n - 1) is zero exactly for the powers of two. */
  lemma {:induction false} Pow2Test(n: nat)
    requires n > 0
    ensures BitAnd(n, n - 1) == 0 <==> IsPow2(n)
  {
    if n > 1 {
      if n % 2 == 0 {
        assert (n - 1) / 2 == n / 2 - 1;
        Pow2Test(n / 2);
      } else {
        assert (n - 1) / 2 == n / 2;
        AndSelf(n / 2);
      }
    }
  }

  lemma {:induction false} AndSelf(x: nat)
    ensures BitAnd(x, x) == x
  {
    if x > 0 { AndSelf(x / 2); }
  }

  lemma ClearLowBits(x: nat, k: nat, n: nat)
    requires x < Pow2(n) && Pow2(k) <= Pow2(n)
    ensures BitAnd(x, BitNot(Pow2(k) - 1, n)) == x - x % Pow2(k)
  {
    AndNotIsDifference(x, Pow2(k) - 1, n);
    MaskIsRemainder(x, k);
  }

  /** The address of the page holding a byte. */
  function PageDown(value: U64): U64 {
    value - value % PAGE
  }

  /** Clearing the low twelve bits of an address yields its page. */
  lemma PageDownIsMask(value: U64)
    ensures PAGE - 1 < Pow2(64) && BitAnd(value, BitNot(PAGE - 1, 64)) == PageDown(value)
  {
    Pow2Known();
    ClearLowBits(value, 12, 64);
  }
}
