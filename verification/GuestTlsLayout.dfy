/** The Variant II static TLS layout: registration of module templates and the offsets it assigns
    below the thread pointer. */
module GuestTlsLayout {
  import opened LittleEndian
  import opened Words

  const RESERVATION: nat := 0x10000
  const INT_MAX: nat := 0x7FFF_FFFF

  datatype Error = BadModuleId | NotPowerOfTwo | BadSize | DifferentTemplate | Overflow | ReservationExceeded
  datatype Result<T> = Ok(value: T) | Err(error: Error)

  datatype Module = Module(image: seq<U8>, memorySize: U64, alignment: U64, bias: U64, staticOffset: nat)

  datatype Registry = Registry(modules: map<U64, Module>, staticSize: nat, maximumAlignment: U64, generation: nat)

  const EMPTY: Registry := Registry(map[], 0, 1, 0)

  /** Checked addition, then the masked correction with its sum taken modulo 2^64. */
  function CalculateStaticOffset(previous: nat, size: U64, alignment: U64, bias: U64): Result<nat>
    requires alignment > 0
  {
    if previous + size + alignment >= TWO64 then Err(Overflow)
    else
      var result := previous + size + alignment - 1;
      Ok(result - BitAnd(Wrap64(result + bias), alignment - 1))
  }

  function Register(
      r: Registry, id: U64, image: seq<U8>, memorySize: U64, alignment: U64, bias: U64): (Result<nat>, Registry) {
    var normalized: U64 := if alignment == 0 then 1 else alignment;
    if id == 0 then (Err(BadModuleId), r)
    else if BitAnd(normalized, normalized - 1) != 0 then (Err(NotPowerOfTwo), r)
    else if memorySize > INT_MAX || |image| > memorySize then (Err(BadSize), r)
    else if id in r.modules then
      var m := r.modules[id];
      if m.memorySize != memorySize || m.alignment != normalized || m.bias != bias || m.image != image
      then (Err(DifferentTemplate), r) else (Ok(m.staticOffset), r)
    else
      match CalculateStaticOffset(r.staticSize, memorySize, normalized, bias)
      case Err(e) => (Err(e), r)
      case Ok(offset) =>
        if offset > RESERVATION then (Err(ReservationExceeded), r)
        else
          (Ok(offset), Registry(
             r.modules[id := Module(image, memorySize, normalized, bias, offset)], offset,
             if normalized > r.maximumAlignment then normalized else r.maximumAlignment, r.generation + 1))
  }

  // ---- the offset is the least admissible one ----

  /** (-offset) mod align == bias mod align, in 64 bits. */
  predicate Congruent(offset: nat, alignment: U64, bias: U64)
    requires alignment > 0
  {
    Wrap64(-(offset as int)) % alignment == bias % alignment
  }

  lemma {:induction false} Pow2Divides(a: nat, k: nat)
    requires IsPow2(a) && a <= Pow2(k)
    ensures Pow2(k) % a == 0
    decreases k
  {
    if a == 1 {
    } else if k > 0 {
      Pow2Divides(a / 2, k - 1);
      HalfDivides(Pow2(k - 1), a / 2);
    }
  }

  lemma HalfDivides(x: nat, a: nat)
    requires a > 0 && x % a == 0
    ensures (2 * x) % (2 * a) == 0
  {
    var q := x / a;
    assert 2 * x == q * (2 * a) by { assert x == q * a; assert 2 * (q * a) == q * (2 * a); }
    DivModUnique(2 * x, 2 * a, q, 0);
  }

  /** For an alignment that divides 2^64 the congruence says the alignment divides offset + bias. */
  lemma CongruentIff(offset: nat, alignment: U64, bias: U64)
    requires IsPow2(alignment) && offset < TWO64
    ensures Congruent(offset, alignment, bias) <==> (offset + bias) % alignment == 0
  {
    Pow2Known();
    Pow2Divides(alignment, 64);
    WrapKeepsRemainder(-(offset as int), alignment);
    RemainderOfSum(offset, bias, alignment);
  }

  lemma WrapKeepsRemainder(x: int, a: U64)
    requires a > 0 && TWO64 % a == 0
    ensures Wrap64(x) % a == x % a
  {
    var q, p := x / TWO64, TWO64 / a;
    assert TWO64 == p * a;
    assert x == q * TWO64 + Wrap64(x);
    var r, s := Wrap64(x) % a, Wrap64(x) / a;
    assert x == (q * p + s) * a + r by {
      assert Wrap64(x) == s * a + r;
      assert q * TWO64 == (q * p) * a by { assert q * (p * a) == (q * p) * a; }
      assert (q * p + s) * a == (q * p) * a + s * a;
    }
    DivModUnique(x, a, q * p + s, r);
  }

  lemma RemainderOfSum(x: int, y: int, a: nat)
    requires a > 0
    ensures (-x) % a == y % a <==> (x + y) % a == 0
  {
    var q, r := (-x) / a, (-x) % a;
    var p, s := y / a, y % a;
    assert -x == q * a + r && y == p * a + s;
    assert x + y == (p - q) * a + (s - r) by { assert (p - q) * a == p * a - q * a; }
    if s >= r {
      DivModUnique(x + y, a, p - q, s - r);
    } else {
      assert x + y == (p - q - 1) * a + (s - r + a) by { assert (p - q - 1) * a == (p - q) * a - a; }
      DivModUnique(x + y, a, p - q - 1, s - r + a);
    }
  }

  /** Two offsets with the same congruence that are less than one alignment apart are equal. */
  lemma CloseMultiplesEqual(x: nat, y: nat, bias: nat, a: nat)
    requires a > 0 && (x + bias) % a == 0 && (y + bias) % a == 0 && y <= x < y + a
    ensures x == y
  {
    var p, q := (x + bias) / a, (y + bias) / a;
    assert x + bias == p * a && y + bias == q * a;
    assert (p - q) * a == x - y by { assert (p - q) * a == p * a - q * a; }
    assert (q - p) * a == y - x by { assert (q - p) * a == q * a - p * a; }
    if p > q { MulAtLeast(p - q, a); }
    if p < q { MulAtLeast(q - p, a); }
  }

  /** The assigned offset leaves room for the block, has the congruence, and is the least such offset. */
  lemma StaticOffsetIsLeast(previous: nat, size: U64, alignment: U64, bias: U64)
    requires IsPow2(alignment) && CalculateStaticOffset(previous, size, alignment, bias).Ok?
    ensures var offset := CalculateStaticOffset(previous, size, alignment, bias).value;
      && previous + size <= offset < previous + size + alignment
      && Congruent(offset, alignment, bias)
      && forall y: nat :: previous + size <= y && y < TWO64 && Congruent(y, alignment, bias) ==> offset <= y
  {
    StaticOffsetFits(previous, size, alignment, bias);
    var offset := CalculateStaticOffset(previous, size, alignment, bias).value;
    forall y: nat | previous + size <= y && y < TWO64 && Congruent(y, alignment, bias) ensures offset <= y {
      NoSmallerOffset(previous + size, offset, alignment, bias, y);
    }
  }

  lemma StaticOffsetFits(previous: nat, size: U64, alignment: U64, bias: U64)
    requires IsPow2(alignment) && CalculateStaticOffset(previous, size, alignment, bias).Ok?
    ensures var offset := CalculateStaticOffset(previous, size, alignment, bias).value;
      previous + size <= offset < previous + size + alignment && offset < TWO64 && Congruent(offset, alignment, bias)
  {
    MaskedOffset(previous + size + alignment - 1, alignment, bias);
    CongruentIff(CalculateStaticOffset(previous, size, alignment, bias).value, alignment, bias);
  }

  lemma NoSmallerOffset(least: nat, offset: nat, alignment: U64, bias: U64, y: nat)
    requires IsPow2(alignment) && least <= offset < least + alignment && offset < TWO64
      && Congruent(offset, alignment, bias)
    requires least <= y < TWO64 && Congruent(y, alignment, bias)
    ensures offset <= y
  {
    CongruentIff(offset, alignment, bias);
    CongruentIff(y, alignment, bias);
    if y < offset { CloseMultiplesEqual(offset, y, bias, alignment); }
  }

  lemma MaskedOffset(result: nat, alignment: U64, bias: U64)
    requires IsPow2(alignment)
    ensures var cut := BitAnd(Wrap64(result + bias), alignment - 1);
      0 <= cut < alignment && (result - cut + bias) % alignment == 0
  {
    var x := result + bias;
    assert TWO64 % alignment == 0 by {
      Pow2Known();
      Pow2Divides(alignment, 64);
    }
    MaskIsRemainder(Wrap64(x), Log2(alignment));
    WrapKeepsRemainder(x, alignment);
    CutRemainder(x, alignment);
    assert result - x % alignment + bias == x - x % alignment;
  }

  lemma CutRemainder(x: int, a: nat)
    requires a > 0
    ensures 0 <= x % a < a && (x - x % a) % a == 0
  {
    var q, r := x / a, x % a;
    assert x == q * a + r;
    DivModUnique(x - r, a, q, 0);
  }

  // ---- what every sequence of registrations keeps ----

  /** The bytes of a block, as distances below the thread pointer: (offset - size, offset]. */
  predicate Apart(m: Module, n: Module) {
    m.staticOffset + n.memorySize <= n.staticOffset || n.staticOffset + m.memorySize <= m.staticOffset
  }

  predicate LaidModule(r: Registry, m: Module) {
    && |m.image| <= m.memorySize <= INT_MAX && m.memorySize <= m.staticOffset <= r.staticSize
    && IsPow2(m.alignment) && m.alignment <= r.maximumAlignment && Congruent(m.staticOffset, m.alignment, m.bias)
  }

  ghost predicate LaidOut(r: Registry) {
    && r.staticSize <= RESERVATION
    && (forall id :: id in r.modules ==> id != 0 && LaidModule(r, r.modules[id]))
    && (forall i, j :: i in r.modules && j in r.modules && i != j ==> Apart(r.modules[i], r.modules[j]))
  }

  lemma RegisterKeepsLayout(r: Registry, id: U64, image: seq<U8>, memorySize: U64, alignment: U64, bias: U64)
    requires LaidOut(r)
    ensures LaidOut(Register(r, id, image, memorySize, alignment, bias).1)
  {
    var normalized: U64 := if alignment == 0 then 1 else alignment;
    var r' := Register(r, id, image, memorySize, alignment, bias).1;
    if r' != r {
      Pow2Test(normalized);
      StaticOffsetIsLeast(r.staticSize, memorySize, normalized, bias);
    }
  }

  datatype Request = Request(id: U64, image: seq<U8>, memorySize: U64, alignment: U64, bias: U64)

  function RegisterAll(r: Registry, requests: seq<Request>): Registry
    decreases |requests|
  {
    if requests == [] then r
    else
      var q := requests[0];
      RegisterAll(Register(r, q.id, q.image, q.memorySize, q.alignment, q.bias).1, requests[1..])
  }

  /** After any sequence of registrations all blocks fit the reservation and are pairwise disjoint. */
  lemma {:induction false} RegisterAllKeepsLayout(r: Registry, requests: seq<Request>)
    requires LaidOut(r)
    ensures LaidOut(RegisterAll(r, requests))
    decreases |requests|
  {
    if requests != [] {
      var q := requests[0];
      RegisterKeepsLayout(r, q.id, q.image, q.memorySize, q.alignment, q.bias);
      RegisterAllKeepsLayout(Register(r, q.id, q.image, q.memorySize, q.alignment, q.bias).1, requests[1..]);
    }
  }

  /** A registration is rejected without effect, or repeats one that is already there without effect
      and with the same answer, or adds exactly one module at the top of the layout. */
  lemma RegisterTrichotomy(r: Registry, q: Request)
    ensures var (answer, r') := Register(r, q.id, q.image, q.memorySize, q.alignment, q.bias);
      var again := Register(r', q.id, q.image, q.memorySize, q.alignment, q.bias);
      && (answer.Err? ==> r' == r)
      && (answer.Ok? ==> again == (answer, r') && q.id in r'.modules && r'.modules[q.id].staticOffset == answer.value)
      && (answer.Ok? && q.id !in r.modules ==>
            r'.modules.Keys == r.modules.Keys + {q.id} && r'.staticSize == answer.value
              && r'.generation == r.generation + 1)
      && (answer.Ok? && q.id in r.modules ==> r' == r)
  {
  }

  // ---- what a registration stores, and when it is accepted ----

  /** No alignment means alignment 1. */
  function Normalized(q: Request): U64 {
    if q.alignment == 0 then 1 else q.alignment
  }

  /** An accepted request is stored as it was made; the other modules stay as they were. */
  lemma RegisterStores(r: Registry, q: Request)
    requires Register(r, q.id, q.image, q.memorySize, q.alignment, q.bias).0.Ok?
    ensures var (answer, r') := Register(r, q.id, q.image, q.memorySize, q.alignment, q.bias);
      && q.id in r'.modules
      && r'.modules[q.id] == Module(q.image, q.memorySize, if q.alignment == 0 then 1 else q.alignment, q.bias,
                                    answer.value)
      && (forall j :: j != q.id ==> (j in r'.modules <==> j in r.modules))
      && (forall j :: j != q.id && j in r.modules ==> r'.modules[j] == r.modules[j])
      && r'.maximumAlignment >= r.maximumAlignment
      && (q.id !in r.modules ==> r'.maximumAlignment in {r.maximumAlignment, r'.modules[q.id].alignment})
  {
  }

  predicate Sized(q: Request) {
    q.id != 0 && IsPow2(Normalized(q)) && |q.image| <= q.memorySize < 0x8000_0000
  }

  /** A first registration is accepted exactly when its numbers are legal and some admissible offset lies in the
      64 KiB below the thread pointer; the answer is then the least one. */
  lemma RegisterAcceptedIff(r: Registry, q: Request)
    requires LaidOut(r) && q.id !in r.modules
    ensures var answer := Register(r, q.id, q.image, q.memorySize, q.alignment, q.bias).0;
      && (answer.Ok? <==> Sized(q) && exists y: nat :: Admissible(r, q, y) && y <= 0x1_0000)
      && (answer.Ok? ==> Admissible(r, q, answer.value) && forall y: nat :: Admissible(r, q, y) ==> answer.value <= y)
  {
    hide BitAnd, Congruent;
    var a := Normalized(q);
    Pow2Test(a);
    if Sized(q) {
      NoOverflow(r, q);
      var offset := CalculateStaticOffset(r.staticSize, q.memorySize, a, q.bias).value;
      StaticOffsetFits(r.staticSize, q.memorySize, a, q.bias);
      CongruentIff(offset, a, q.bias);
      assert Admissible(r, q, offset);
      forall y: nat | Admissible(r, q, y) ensures offset <= y {
        if y < offset { CloseMultiplesEqual(offset, y, q.bias, a); }
      }
    }
  }

  /** Room for the block above what is taken, with the alignment dividing offset plus bias. */
  predicate Admissible(r: Registry, q: Request, y: nat) {
    r.staticSize + q.memorySize <= y && (y + q.bias) % Normalized(q) == 0
  }

  lemma NoOverflow(r: Registry, q: Request)
    requires LaidOut(r) && Sized(q)
    ensures CalculateStaticOffset(r.staticSize, q.memorySize, Normalized(q), q.bias).Ok?
  {
    hide BitAnd;
    var k := Log2(Normalized(q));
    Pow2Known();
    if k >= 64 { Pow2Monotone(64, k); }
    Pow2Monotone(k, 63);
    assert Pow2(64) == 2 * Pow2(63);
  }

  /** Which of the numbers a rejected registration is blamed on. */
  lemma RegisterErrors(r: Registry, q: Request)
    ensures var answer := Register(r, q.id, q.image, q.memorySize, q.alignment, q.bias).0;
      && (answer == Err(BadModuleId) <==> q.id == 0)
      && (answer == Err(NotPowerOfTwo) <==> q.id != 0 && !IsPow2(Normalized(q)))
      && (answer == Err(BadSize) <==>
            q.id != 0 && IsPow2(Normalized(q)) && (q.memorySize >= 0x8000_0000 || |q.image| > q.memorySize))
      && (answer == Err(DifferentTemplate) ==> q.id in r.modules)
      && (answer == Err(ReservationExceeded) || answer == Err(Overflow) ==> q.id !in r.modules)
  {
    hide BitAnd;
    Pow2Test(Normalized(q));
  }

  /** The greatest alignment of all modules, or 1 when there is none. */
  predicate IsMaximum(r: Registry) {
    && (forall id :: id in r.modules ==> r.modules[id].alignment <= r.maximumAlignment)
    && (r.maximumAlignment == 1 || exists id :: id in r.modules && r.modules[id].alignment == r.maximumAlignment)
  }

  lemma RegisterKeepsMaximum(r: Registry, q: Request)
    requires IsMaximum(r)
    ensures IsMaximum(Register(r, q.id, q.image, q.memorySize, q.alignment, q.bias).1)
  {
    hide BitAnd;
    var r' := Register(r, q.id, q.image, q.memorySize, q.alignment, q.bias).1;
    if r' != r && r.maximumAlignment < Normalized(q) {
      assert q.id in r'.modules && r'.modules[q.id].alignment == r'.maximumAlignment;
    } else if r' != r && r.maximumAlignment != 1 {
      var id :| id in r.modules && r.modules[id].alignment == r.maximumAlignment;
      assert id in r'.modules && r'.modules[id] == r.modules[id];
    }
  }

  /** After any registrations from the start the greatest alignment is known. */
  lemma {:induction false} RegisterAllKeepsMaximum(r: Registry, requests: seq<Request>)
    requires r == EMPTY || IsMaximum(r)
    ensures IsMaximum(RegisterAll(r, requests))
    decreases |requests|
  {
    if requests != [] {
      var q := requests[0];
      RegisterKeepsMaximum(r, q);
      RegisterAllKeepsMaximum(Register(r, q.id, q.image, q.memorySize, q.alignment, q.bias).1, requests[1..]);
    }
  }

  /** A repeated registration is accepted exactly when it asks for what is stored, and nothing changes. */
  lemma RegisterRepeatedIff(r: Registry, q: Request)
    requires LaidOut(r) && q.id in r.modules
    ensures var (answer, r') := Register(r, q.id, q.image, q.memorySize, q.alignment, q.bias);
      var m := r.modules[q.id];
      && r' == r
      && (answer.Ok? <==> m == Module(q.image, q.memorySize, Normalized(q), q.bias, m.staticOffset))
      && (answer.Ok? ==> answer.value == m.staticOffset)
  {
    hide BitAnd;
    Pow2Test(Normalized(q));
    assert LaidModule(r, r.modules[q.id]);
  }
}
