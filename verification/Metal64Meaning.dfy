/** The 64-bit expressions over register pairs compute what the 64-bit scalar instructions promise:
    shifts, fields, the whole-quad multiplication and sign extension by exclusive-or and subtract. */
module Metal64Meaning {
  import opened Bits
  import opened Gen5Isa
  import opened MetalEmission
  import opened MetalMeaning
  import opened MetalRelation
  import opened MetalScalarMeaning
  import opened MetalScalarSimulation
  import opened MetalTarget
  import opened Words

  // ---- bits of 64-bit operations ----

  lemma LogicBits64(x: U64, y: U64, i: nat)
    ensures Bit(BitAnd(x, y), i) <==> Bit(x, i) && Bit(y, i)
    ensures Bit(Or64(x, y), i) <==> Bit(x, i) || Bit(y, i)
    ensures Bit(Xor64(x, y), i) <==> Bit(x, i) != Bit(y, i)
    ensures i < 64 ==> (Bit(Not64(x), i) <==> !Bit(x, i))
  {
    hide Bit;
    Pow2Known();
    BitAndAt(x, y, i);
    BitOrAt(x, y, i);
    BitXorAt(x, y, i);
    if i < 64 { BitNotAt(x, 64, i); }
  }

  lemma ShlBits64(x: U64, k: nat, i: nat)
    ensures Bit(Low64(Shl(x, k)), i) <==> i < 64 && i >= k && Bit(x, i - k)
  {
    hide Bit, Shl;
    BitOfLows(Shl(x, k), 64, i);
    BitOfShl(x, k, i);
  }

  lemma ShiftUpWord(x: U64, k: nat)
    ensures Low64(Shl(x, k)) == ShiftUp64(x, k)
  {
    hide Bit, Low64, Shl;
    forall i: nat | i < 64 ensures Bit(Low64(Shl(x, k)), i) <==> Bit(ShiftUp64(x, k), i) {
      ShlBits64(x, k, i);
    }
    SameBits64(Low64(Shl(x, k)), ShiftUp64(x, k));
  }

  lemma ShiftDownWord(x: U64, k: nat)
    ensures Shr(x, k) == ShiftDown64(x, k)
  {
    hide Bit, Shr;
    forall i: nat | i < 64 ensures Bit(Shr(x, k), i) <==> Bit(ShiftDown64(x, k), i) {
      BitOfShr(x, k, i);
    }
    SameBits64(Shr(x, k), ShiftDown64(x, k));
  }

  lemma NotWord(x: U64)
    ensures Not64(x) == NotOf64(x)
  {
    hide Bit, Not64;
    forall i: nat | i < 64 ensures Bit(Not64(x), i) <==> Bit(NotOf64(x), i) {
      LogicBits64(x, 0, i);
    }
    SameBits64(Not64(x), NotOf64(x));
  }

  function LogicWord64(op: Logic, x: U64, y: U64): U64 {
    match op
    case AndL => BitAnd(x, y)
    case OrL => Or64(x, y)
    case XorL => Xor64(x, y)
    case NandL => Not64(BitAnd(x, y))
    case NorL => Not64(Or64(x, y))
    case XnorL => Not64(Xor64(x, y))
    case Andn1L => BitAnd(Not64(x), y)
    case Andn2L => BitAnd(x, Not64(y))
    case Orn1L => Or64(Not64(x), y)
    case Orn2L => Or64(x, Not64(y))
  }

  lemma LogicWordAt64(op: Logic, x: U64, y: U64, j: nat)
    requires j < 64
    ensures Bit(LogicWord64(op, x, y), j) <==> Truth(op, Bit(x, j), Bit(y, j))
  {
    hide Bit, BitAnd, Or64, Xor64, Not64;
    LogicBits64(x, y, j);
    LogicBits64(y, x, j);
    match op
    case NandL => LogicBits64(BitAnd(x, y), 0, j);
    case NorL => LogicBits64(Or64(x, y), 0, j);
    case XnorL => LogicBits64(Xor64(x, y), 0, j);
    case Andn1L => LogicBits64(Not64(x), y, j);
    case Andn2L => LogicBits64(x, Not64(y), j);
    case Orn1L => LogicBits64(Not64(x), y, j);
    case Orn2L => LogicBits64(x, Not64(y), j);
    case _ =>
  }

  lemma LogicWordRight64(op: Logic, x: U64, y: U64)
    ensures LogicWord64(op, x, y) == Logic64(op, x, y)
  {
    hide Bit, LogicWord64;
    forall j: nat | j < 64 ensures Bit(LogicWord64(op, x, y), j) <==> Bit(Logic64(op, x, y), j) {
      LogicWordAt64(op, x, y, j);
    }
    SameBits64(LogicWord64(op, x, y), Logic64(op, x, y));
  }

  lemma LogicMeaning64(op: Logic, p: LExpr, q: LExpr, m: Machine, i: nat)
    requires i < |m.lanes|
    ensures EvalL(Logic64Expr(op, p, q), m, i) == Logic64(op, EvalL(p, m, i), EvalL(q, m, i))
  {
    hide EvalU, EvalI, EvalL, EvalB, Wrap64, BitAnd, Or64, Xor64, Not64, Shl, Shr, Low64, Times, Logic64;
    EvL(m, i);
    LogicWordRight64(op, EvalL(p, m, i), EvalL(q, m, i));
  }

  // ---- whole quads ----

  /** Multiplying a word whose bits sit at multiples of four by fifteen fills every group. */
  lemma {:induction false} FillQuads(y: nat, n: nat, i: nat)
    requires forall j: nat :: Bit(y, j) ==> j % 4 == 0 && j < 4 * n
    ensures Bit(15 * y, i) <==> Bit(y, i / 4 * 4)
    decreases n
  {
    if n == 0 {
      ZeroFromBits(y);
      BitOfZero(i);
      BitOfZero(i / 4 * 4);
    } else {
      var high, low := Shr(y, 4), Lows(y, 4);
      QuadSplit(y, high, low);
      forall j: nat | Bit(high, j) ensures j % 4 == 0 && j < 4 * (n - 1) {
        BitOfShr(y, 4, j);
      }
      assert Pow2(4) == 16;
      BitOfSum(15 * high, 15 * low, 4, i);
      if i < 4 {
        LowQuad(y, low, i);
      } else {
        FillQuads(high, n - 1, i - 4);
        BitOfShr(y, 4, (i - 4) / 4 * 4);
        assert (i - 4) / 4 * 4 + 4 == i / 4 * 4;
      }
    }
  }

  lemma {:induction false} ZeroFromBits(y: nat)
    requires forall j: nat :: !Bit(y, j)
    ensures y == 0
  {
    if y > 0 {
      assert !Bit(y, 0);
      forall j: nat ensures !Bit(y / 2, j) {
        assert !Bit(y, j + 1);
      }
      ZeroFromBits(y / 2);
    }
  }

  lemma QuadSplit(y: nat, high: nat, low: nat)
    requires high == Shr(y, 4) && low == Lows(y, 4)
    requires forall j: nat :: Bit(y, j) ==> j % 4 == 0
    ensures low <= 1 && 15 * y == (15 * high) * Pow2(4) + 15 * low
  {
    hide Shr, Bit;
    SplitAt(y, 4);
    assert Pow2(4) == 16;
    forall j: nat | 1 <= j < 4 ensures !Bit(low, j) {
      BitOfLows(y, 4, j);
      assert j % 4 != 0;
    }
    OnlyLowBit(low);
  }

  lemma OnlyLowBit(low: nat)
    requires low < 16 && !Bit(low, 1) && !Bit(low, 2) && !Bit(low, 3)
    ensures low <= 1
  {
    assert Bit(low, 3) == Bit(low / 2 / 2, 1);
    assert Bit(low, 2) == Bit(low / 2 / 2, 0);
  }

  lemma LowQuad(y: nat, low: nat, i: nat)
    requires low == Lows(y, 4) && low <= 1 && i < 4
    ensures Bit(15 * low, i) <==> Bit(y, 0)
  {
    BitOfLows(y, 4, 0);
    assert Pow2(4) == 16;
    if low == 1 { BitOfOnes(4, i); } else { BitOfZero(i); }
  }

  /** One bit in each of n groups of four. */
  function QuadOnes(n: nat): nat {
    if n == 0 then 0 else 1 + 16 * QuadOnes(n - 1)
  }

  lemma {:induction false} QuadOnesBits(n: nat, j: nat)
    ensures Bit(QuadOnes(n), j) <==> j % 4 == 0 && j < 4 * n
  {
    if n == 0 {
      BitOfZero(j);
    } else {
      assert Pow2(4) == 16;
      BitOfSum(QuadOnes(n - 1), 1, 4, j);
      if j < 4 { BitOfLow(true, j); } else { QuadOnesBits(n - 1, j - 4); }
    }
  }

  lemma QuadOnesKnown()
    ensures QuadOnes(16) == 0x1111_1111_1111_1111
  {
    assert QuadOnes(4) == 0x1111;
    assert QuadOnes(8) == 0x1111_1111;
    assert QuadOnes(12) == 0x1111_1111_1111;
  }

  /** The lowest bit of each group of four, set if any bit of the group is. */
  function QuadAnyWord(x: U64): U64 {
    BitAnd(Or64(Or64(Or64(x, Shr(x, 1)), Shr(x, 2)), Shr(x, 3)), 0x1111_1111_1111_1111)
  }

  lemma QuadAnyBits(x: U64, j: nat)
    ensures Bit(QuadAnyWord(x), j) <==> j % 4 == 0 && j < 64 && QuadAny(x, j)
  {
    hide Bit, BitAnd, Or64, Shr, QuadOnes;
    QuadOnesKnown();
    QuadOnesBits(16, j);
    LogicBits64(x, Shr(x, 1), j);
    LogicBits64(Or64(x, Shr(x, 1)), Shr(x, 2), j);
    LogicBits64(Or64(Or64(x, Shr(x, 1)), Shr(x, 2)), Shr(x, 3), j);
    LogicBits64(Or64(Or64(Or64(x, Shr(x, 1)), Shr(x, 2)), Shr(x, 3)), 0x1111_1111_1111_1111, j);
    BitOfShr(x, 1, j);
    BitOfShr(x, 2, j);
    BitOfShr(x, 3, j);
  }

  lemma QuadsFit(x: U64)
    ensures Wrap64(Times(QuadAnyWord(x), 15)) == 15 * QuadAnyWord(x)
  {
    hide Or64, Shr, Times;
    var y := QuadAnyWord(x);
    TimesIsProduct(y, 15);
    assert y <= 0x1111_1111_1111_1111;
  }

  /** The multiplication trick is whole-quad mode. */
  lemma WholeQuadsByMultiplication(x: U64)
    ensures Wrap64(Times(QuadAnyWord(x), 15)) == WholeQuads(x)
  {
    hide Bit, Wrap64, Times, QuadAnyWord;
    QuadsFit(x);
    var y := QuadAnyWord(x);
    forall j: nat | Bit(y, j) ensures j % 4 == 0 && j < 4 * 16 {
      QuadAnyBits(x, j);
    }
    forall j: nat | j < 64 ensures Bit(Wrap64(Times(y, 15)), j) <==> Bit(WholeQuads(x), j) {
      FillQuads(y, 16, j);
      QuadAnyBits(x, j / 4 * 4);
      SameQuad(x, j);
    }
    SameBits64(Wrap64(Times(y, 15)), WholeQuads(x));
  }

  lemma SameQuad(x: U64, j: nat)
    ensures QuadAny(x, j / 4 * 4) <==> QuadAny(x, j)
  {
    assert j / 4 * 4 / 4 * 4 == j / 4 * 4;
  }

  // ---- fields ----

  lemma FieldWord64(x: U64, offset: nat, width: nat)
    requires width <= 64
    ensures Lows(Shr(x, offset), width) == Field64(x, offset, width)
  {
    hide Bit, Lows, Shr, Pow2;
    Pow2Known();
    LowsBelow(Shr(x, offset), width, 64);
    forall i: nat | i < 64 ensures Bit(Lows(Shr(x, offset), width), i) <==> Bit(Field64(x, offset, width), i) {
      BitOfLows(Shr(x, offset), width, i);
      BitOfShr(x, offset, i);
    }
    SameBits64(Lows(Shr(x, offset), width), Field64(x, offset, width));
  }

  /** Exclusive-or and subtraction of the sign bit sign-extend a field of x. */
  lemma SignExtendByXor(x: U64, offset: nat, width: nat)
    requires 0 < width <= 64
    ensures var field, sign := Lows(Shr(x, offset), width), Pow2(width - 1);
      Wrap64(BitXor(field, sign) - sign) == FieldSigned64(x, offset, width)
  {
    hide Bit, Lows, Shr, Pow2, Wrap64, BitXor;
    var field := Lows(Shr(x, offset), width);
    XorSubtractExtends(field, width);
    ExtendIsSigned64(field, width);
    var l, r := Wrap64(Signed(field, width)), FieldSigned64(x, offset, width);
    forall j: nat | j < 64 ensures Bit(l, j) <==> Bit(r, j) {
      var at := Least(j, width - 1);
      BitOfLows(Shr(x, offset), width, at);
      BitOfShr(x, offset, at);
      ExtendedBits(field, width, 64, j);
    }
    SameBits64(l, r);
  }

  lemma ExtendIsSigned64(field: nat, width: nat)
    requires 0 < width <= 64 && field < Pow2(width)
    ensures ExtendTo(field, width, 64) == Wrap64(Signed(field, width))
  {
    hide Pow2;
    Pow2Known();
    Pow2Monotone(width, 64);
  }

  lemma EmptyField64(x: U64, offset: nat)
    ensures Field64(x, offset, 0) == 0 && FieldSigned64(x, offset, 0) == 0
  {
    hide Bit;
    forall j: nat | j < 64 ensures Bit(Field64(x, offset, 0), j) <==> Bit(0, j) {
      BitOfZero(j);
    }
    forall j: nat | j < 64 ensures Bit(FieldSigned64(x, offset, 0), j) <==> Bit(0, j) {
      BitOfZero(j);
    }
    SameBits64(Field64(x, offset, 0), 0);
    SameBits64(FieldSigned64(x, offset, 0), 0);
  }

  /** 2^n and 2^n - 1 as 64-bit words. */
  lemma PowerWord(n: nat)
    requires n < 64
    ensures Pow2(n) < TWO64 && Low64(Shl(1, n)) == Pow2(n) && Wrap64(Pow2(n) - 1) == Pow2(n) - 1
  {
    hide Shl, Lows, Pow2;
    PowerFits64(n);
    ShlIsProduct(1, n);
    LowsOfSmall(Pow2(n), 64);
  }

  lemma PowerFits64(n: nat)
    requires n < 64
    ensures Pow2(n) < TWO64 == Pow2(64)
  {
    Pow2Known();
    Pow2Monotone(n, 63);
    assert Pow2(64) == 2 * Pow2(63);
  }

  lemma OnesWord64(offset: nat, width: nat)
    requires width < 64
    ensures Pow2(width) - 1 < TWO64 && Low64(Shl(Pow2(width) - 1, offset)) == Ones64(offset, width)
  {
    hide Bit, Low64, Shl, Wrap64, Pow2;
    PowerWord(width);
    var l, r := Low64(Shl(Pow2(width) - 1, offset)), Ones64(offset, width);
    forall i: nat | i < 64 ensures Bit(l, i) <==> Bit(r, i) {
      ShlBits64(Pow2(width) - 1, offset, i);
      if i >= offset { BitOfOnes(width, i - offset); }
    }
    SameBits64(l, r);
  }

  // ---- register pairs ----

  lemma PairWord(low: U32, high: U32)
    ensures Or64(low, Low64(Shl(high, 32))) == Pair(low, high)
  {
    hide Bit, Shl, Lows, BitOr, Pow2;
    Pow2Known();
    ShlIsProduct(high, 32);
    LowsOfSmall(high * Pow2(32), 64);
    OrDisjointIsSum(high, low, 32);
    OrCommutes(low, high * Pow2(32));
  }

  lemma OrCommutes(x: U64, y: U64)
    ensures BitOr(x, y) == BitOr(y, x)
  {
    hide Bit, BitOr;
    forall i: nat | i < 64 ensures Bit(Or64(x, y), i) <==> Bit(Or64(y, x), i) {
      LogicBits64(x, y, i);
      LogicBits64(y, x, i);
    }
    SameBits64(Or64(x, y), Or64(y, x));
  }

  lemma PairMeaning(low: UExpr, high: UExpr, m: Machine, i: nat)
    requires i < |m.lanes|
    ensures EvalL(PairExpr(low, high), m, i) == Pair(EvalU(low, m, i), EvalU(high, m, i))
  {
    hide EvalU, EvalI, EvalL, EvalB, Wrap64, Wrap32, BitAnd, Or64, Xor64, Shl, Shr, Low64, Times, Pair;
    EvL(m, i);
    EvLit(32, m, i);
    PairWord(EvalU(low, m, i), EvalU(high, m, i));
  }

  lemma Raw64Meaning(o: Operand, m: Machine, w: Wave, i: nat)
    requires Relates(m, w) && i < LANES && OperandOk(o) && PairOk(o)
    ensures EvalL(Raw64(o), m, i) == Source64(o, w, i)
  {
    hide EvalU, EvalI, EvalL, EvalB, Wrap64, Wrap32, PairExpr, Pair, SourceExpr, ReadOperand;
    EvL(m, i);
    match o
    case Scalar(r) =>
      if r + 1 < SCALARS {
        PairMeaning(S(r), S(r + 1), m, i);
        ReadsPair(r, m, w, i);
      }
    case Vector(r) =>
      PairMeaning(V(r), V(r + 1), m, i);
      ReadsVectorPair(r, m, w, i);
    case _ => SourceMeaning(o, m, w, i);
  }

  lemma ReadsPair(r: nat, m: Machine, w: Wave, i: nat)
    requires Relates(m, w) && i < LANES && r + 1 < SCALARS
    ensures EvalU(S(r), m, i) == w.s[r] && EvalU(S(r + 1), m, i) == w.s[r + 1]
  {
    hide Bit, Wrap32;
    assert LaneMatches(m.lanes[i], w, i);
  }

  lemma ReadsVectorPair(r: nat, m: Machine, w: Wave, i: nat)
    requires Relates(m, w) && i < LANES && r + 1 < VECTORS
    ensures EvalU(V(r), m, i) == w.v[i][r] && EvalU(V(r + 1), m, i) == w.v[i][r + 1]
  {
    hide Bit, Wrap32;
    assert LaneMatches(m.lanes[i], w, i);
  }

  /** The two words a 64-bit value is stored as. */
  lemma HalvesMeaning(e: LExpr, m: Machine, i: nat)
    requires i < |m.lanes|
    ensures EvalU(LowHalf(e), m, i) == EvalL(e, m, i) % TWO32
    ensures EvalU(LowHalf(LShiftR(e, Wide(Lit(32)))), m, i) == EvalL(e, m, i) / TWO32
  {
    hide EvalU, EvalI, EvalL, EvalB, Wrap64, Wrap32, BitAnd, Or64, Xor64, Shl, Shr, Lows, Times;
    EvL(m, i);
    EvU(m, i);
    HalvesOf(EvalL(e, m, i));
  }

  lemma HalvesOf(x: U64)
    ensures Low32(x) == x % TWO32 && Low32(Shr(x, 32)) == x / TWO32
  {
    hide Shr, Lows;
    Pow2Known();
    ShrIsQuotient(x, 32);
    LowsOfSmall(x / TWO32, 32);
  }
}
