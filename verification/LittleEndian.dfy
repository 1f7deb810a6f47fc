/** Fixed-width little-endian encodings of unsigned numbers. */
module LittleEndian {
  import opened Words

  type U8 = x: int | 0 <= x < 256

  function Encode(value: nat, width: nat): (r: seq<U8>)
    ensures |r| == width
  {
    if width == 0 then [] else [value % 256] + Encode(value / 256, width - 1)
  }

  function Decode(bytes: seq<U8>): (r: nat)
    ensures r < Pow2(8 * |bytes|)
  {
    if bytes == [] then 0
    else
      Pow2Eight(|bytes| - 1);
      bytes[0] + 256 * Decode(bytes[1..])
  }

  lemma Pow2Eight(k: nat)
    ensures Pow2(8 * (k + 1)) == 256 * Pow2(8 * k)
  {
    Pow2Known();
    Pow2Add(8, 8 * k);
  }

  lemma {:induction false} DecodeEncode(value: nat, width: nat)
    requires value < Pow2(8 * width)
    ensures Decode(Encode(value, width)) == value
    decreases width
  {
    if width > 0 {
      Pow2Eight(width - 1);
      DecodeEncode(value / 256, width - 1);
      assert Encode(value, width)[1..] == Encode(value / 256, width - 1);
    }
  }

  lemma {:induction false} EncodeDecode(bytes: seq<U8>)
    ensures Encode(Decode(bytes), |bytes|) == bytes
  {
    if bytes != [] {
      var rest := Decode(bytes[1..]);
      DivModUnique(bytes[0] + 256 * rest, 256, rest, bytes[0]);
      EncodeDecode(bytes[1..]);
      assert bytes == [bytes[0]] + bytes[1..];
    }
  }

  /** Byte k is the digit of 256 to the k. */
  lemma {:induction false} EncodeAt(x: nat, n: nat, k: nat)
    requires k < n
    ensures Encode(x, n)[k] == x / Pow2(8 * k) % 0x100
  {
    if k > 0 {
      EncodeAt(x / 0x100, n - 1, k - 1);
      Pow2Known();
      Pow2Add(8, 8 * (k - 1));
      var d := Pow2(8 * (k - 1));
      DivDiv(x, 0x100, d);
    }
  }

  lemma DivDiv(x: nat, a: nat, b: nat)
    requires a > 0 && b > 0
    ensures a * b > 0 && x / a / b == x / (a * b)
  {
    var q, r, t := x / a / b, (x / a) % b, x % a;
    assert x == (q * b + r) * a + t;
    assert (q * b + r) * a == q * (a * b) + r * a;
    assert r * a + t < a * b by { assert r <= b - 1; assert r * a <= (b - 1) * a == a * b - a; }
    DivModUnique(x, a * b, q, r * a + t);
  }
}
