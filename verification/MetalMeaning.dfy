/** The emitted expressions compute what the instructions promise: one lemma per opcode family, over
    the values of the operands. */
module MetalMeaning {
  import opened Bits
  import opened Gen5Isa
  import opened MetalEmission
  import opened MetalTarget
  import opened Words

  // ---- bits of the target's operations ----

  lemma SameBits(x: U32, y: U32)
    requires forall i: nat :: i < 32 ==> (Bit(x, i) <==> Bit(y, i))
    ensures x == y
  {
    Pow2Known();
    BitsDetermine(x, y, 32);
  }

  lemma SameBits64(x: U64, y: U64)
    requires forall i: nat :: i < 64 ==> (Bit(x, i) <==> Bit(y, i))
    ensures x == y
  {
    Pow2Known();
    BitsDetermine(x, y, 64);
  }

  lemma NotBit(x: U32, i: nat)
    requires i < 32
    ensures Bit(Not32(x), i) <==> !Bit(x, i)
  {
    Pow2Known();
    BitNotAt(x, 32, i);
  }

  lemma HighBitsClear(x: U32, i: nat)
    requires i >= 32
    ensures !Bit(x, i)
  {
    Pow2Known();
    BitAbove(x, 32, i);
  }

  /** Bit i of every two-operand logic operation. */
  lemma LogicBits(x: U32, y: U32, i: nat)
    ensures Bit(BitAnd(x, y), i) <==> Bit(x, i) && Bit(y, i)
    ensures Bit(Or32(x, y), i) <==> Bit(x, i) || Bit(y, i)
    ensures Bit(Xor32(x, y), i) <==> Bit(x, i) != Bit(y, i)
    ensures i < 32 ==> (Bit(Not32(x), i) <==> !Bit(x, i))
  {
    BitAndAt(x, y, i);
    BitOrAt(x, y, i);
    BitXorAt(x, y, i);
    if i < 32 { NotBit(x, i); }
  }

  lemma FiveIsRemainder(x: nat)
    ensures BitAnd(x, 31) == x % 32 && BitAnd(x, 63) == x % 64
  {
    assert Pow2(5) == 32 && Pow2(6) == 64;
    MaskIsRemainder(x, 5);
    MaskIsRemainder(x, 6);
  }

  lemma FiveMeaning(x: UExpr, m: Machine, i: nat)
    requires i < |m.lanes|
    ensures EvalU(Five(x), m, i) == EvalU(x, m, i) % 32
  {
    hide EvalU, EvalI, EvalL, EvalB;
    EvU(m, i);
    FiveIsRemainder(EvalU(x, m, i));
  }

  lemma ShlBits(x: U32, k: nat, i: nat)
    requires k < 32
    ensures Bit(Low32(Shl(x, k)), i) <==> i < 32 && i >= k && Bit(x, i - k)
  {
    BitOfLows(Shl(x, k), 32, i);
    BitOfShl(x, k, i);
  }

  lemma OnesKnown()
    ensures Pow2(24) == 0x100_0000 && Pow2(16) == 0x1_0000 && Pow2(7) == 0x80 && Pow2(31) == 0x8000_0000
  {
    Pow2Known();
    Pow2Add(8, 16);
    assert Pow2(7) == 128;
    assert Pow2(32) == 2 * Pow2(31);
  }

  lemma MaskIsLows(x: nat)
    ensures BitAnd(x, 0xFF_FFFF) == Lows(x, 24) && BitAnd(x, 0xFFFF) == Lows(x, 16) && BitAnd(x, 0xFF) == Lows(x, 8)
    ensures BitAnd(x, 0x7F) == Lows(x, 7)
  {
    OnesKnown();
    Pow2Known();
    LowsMask(x, 24);
    LowsMask(x, 16);
    LowsMask(x, 8);
    LowsMask(x, 7);
  }

  lemma LowsMask(x: nat, k: nat)
    ensures BitAnd(x, Pow2(k) - 1) == Lows(x, k)
  {
    MaskIsRemainder(x, k);
    ShrIsQuotient(x, k);
  }

  lemma Low32Is(x: nat)
    ensures Low32(x) == Wrap32(x)
  {
    Pow2Known();
    ShrIsQuotient(x, 32);
  }

  lemma LowsBelow(x: nat, k: nat, n: nat)
    requires k <= n
    ensures Lows(x, k) < Pow2(n)
  {
    Pow2Monotone(k, n);
  }

  // ---- arithmetic shift ----

  /** Halving a negative or non-negative integer moves its bits down and keeps the sign bit. */
  lemma HalfBits(z: I32, i: nat)
    requires i < 32
    ensures Bit(Wrap32(z / 2), i) <==> Bit(Wrap32(z), Least(i + 1, 31))
  {
    OnesKnown();
    var x := Wrap32(z);
    TopBit(x, 31);
    if z >= 0 {
      assert Wrap32(z / 2) == x / 2;
      if i == 31 { HighBitsClear(x, 32); }
    } else {
      assert Wrap32(z / 2) == 1 * Pow2(31) + x / 2;
      BitOfSum(1, x / 2, 31, i);
    }
  }

  lemma {:induction false} ShrSignedBits(z: I32, k: nat, i: nat)
    requires i < 32
    ensures Bit(Wrap32(ShrSigned(z, k)), i) <==> Bit(Wrap32(z), Least(i + k, 31))
    decreases k
  {
    if k > 0 {
      ShrSignedBits(z / 2, k - 1, i);
      HalfBits(z, Least(i + k - 1, 31));
    }
  }

  lemma AshrBits(x: U32, k: nat, i: nat)
    requires i < 32
    ensures Bit(Wrap32(ShrSigned(AsSigned(x), k)), i) <==> Bit(x, Least(i + k, 31))
  {
    ShrSignedBits(AsSigned(x), k, i);
  }

  // ---- bitwise opcodes ----

  lemma BitMeaning(op: BitOp, a: UExpr, b: UExpr, c: UExpr, m: Machine, i: nat)
    requires i < |m.lanes|
    ensures EvalU(BitExpr(op, a, b, c), m, i) == BitValue(op, EvalU(a, m, i), EvalU(b, m, i), EvalU(c, m, i))
  {
    hide EvalU, EvalI, EvalL, EvalB;
    EvU(m, i);
    var x, y, z := EvalU(a, m, i), EvalU(b, m, i), EvalU(c, m, i);
    BitUnfolds(op, a, b, c, m, i);
    forall j: nat | j < 32 ensures Bit(BitWord(op, x, y, z), j) <==> Bit(BitValue(op, x, y, z), j) {
      BitWordAt(op, x, y, z, j);
    }
    SameBits(BitWord(op, x, y, z), BitValue(op, x, y, z));
  }

  function BitWord(op: BitOp, x: U32, y: U32, z: U32): U32 {
    match op
    case VAnd => BitAnd(x, y)
    case VOr => Or32(x, y)
    case VXor => Xor32(x, y)
    case VXnor => Not32(Xor32(x, y))
    case VNot => Not32(x)
    case VAndOr => Or32(BitAnd(x, y), z)
    case VOr3 => Or32(Or32(x, y), z)
    case VBfi => Or32(BitAnd(x, y), BitAnd(Not32(x), z))
    case VBfrev => Reverse32(x)
  }

  lemma BitWordAt(op: BitOp, x: U32, y: U32, z: U32, j: nat)
    requires j < 32
    ensures Bit(BitWord(op, x, y, z), j) <==> Bit(BitValue(op, x, y, z), j)
  {
    LogicBits(x, y, j);
    match op
    case VXnor => NotBit(Xor32(x, y), j);
    case VAndOr => LogicBits(BitAnd(x, y), z, j);
    case VOr3 => LogicBits(Or32(x, y), z, j);
    case VBfi =>
      LogicBits(Not32(x), z, j);
      LogicBits(BitAnd(x, y), BitAnd(Not32(x), z), j);
    case _ =>
  }

  lemma EvUn(op: UnOp, a: UExpr, m: Machine, i: nat)
    requires i < |m.lanes|
    ensures EvalU(Un(op, a), m, i) == UnaryU(op, EvalU(a, m, i))
  {
  }

  lemma EvBin(op: BinOp, a: UExpr, b: UExpr, m: Machine, i: nat)
    requires i < |m.lanes|
    ensures EvalU(Bin(op, a, b), m, i) == BinaryU(op, EvalU(a, m, i), EvalU(b, m, i), Junk32(m))
  {
  }

  lemma BitUnfolds(op: BitOp, a: UExpr, b: UExpr, c: UExpr, m: Machine, i: nat)
    requires i < |m.lanes|
    ensures EvalU(BitExpr(op, a, b, c), m, i) == BitWord(op, EvalU(a, m, i), EvalU(b, m, i), EvalU(c, m, i))
  {
    hide EvalU, EvalI, EvalL, EvalB, BitAnd, Or32, Xor32, Not32, Reverse32, BinaryU, UnaryU;
    WordMeaning(a, b, m, i);
    match op
    case VXnor => WordMeaning(Xor(a, b), c, m, i);
    case VAndOr => WordMeaning(And(a, b), c, m, i);
    case VOr3 => WordMeaning(Or(a, b), c, m, i);
    case VBfi =>
      WordMeaning(Not(a), c, m, i);
      WordMeaning(And(a, b), And(Not(a), c), m, i);
    case _ =>
  }

  lemma WordMeaning(a: UExpr, b: UExpr, m: Machine, i: nat)
    requires i < |m.lanes|
    ensures EvalU(And(a, b), m, i) == BitAnd(EvalU(a, m, i), EvalU(b, m, i))
    ensures EvalU(Or(a, b), m, i) == Or32(EvalU(a, m, i), EvalU(b, m, i))
    ensures EvalU(Xor(a, b), m, i) == Xor32(EvalU(a, m, i), EvalU(b, m, i))
    ensures EvalU(Not(a), m, i) == Not32(EvalU(a, m, i))
    ensures EvalU(ReverseBits(a), m, i) == Reverse32(EvalU(a, m, i))
  {
    hide EvalU, BitAnd, Or32, Xor32, Not32, Reverse32;
    EvBin(AndOp, a, b, m, i);
    EvBin(OrOp, a, b, m, i);
    EvBin(XorOp, a, b, m, i);
    EvUn(NotOp, a, m, i);
    EvUn(ReverseOp, a, m, i);
  }

  // ---- arithmetic opcodes ----

  lemma MaskedMeaning(x: UExpr, m: Machine, i: nat)
    requires i < |m.lanes|
    ensures EvalU(And(x, Lit(0xFF_FFFF)), m, i) == Lows(EvalU(x, m, i), 24)
    ensures EvalU(And(x, Lit(0xFFFF)), m, i) == Lows(EvalU(x, m, i), 16)
  {
    hide EvalU, EvalI, EvalL, EvalB;
    EvU(m, i);
    MaskIsLows(EvalU(x, m, i));
  }

  lemma WrapShift(x: int, q: int)
    ensures Wrap32(x + TWO32 * q) == Wrap32(x)
  {
  }

  /** Reducing an intermediate result modulo 2^32 does not change the final one. */
  lemma WrapInside(x: int, y: int)
    ensures Wrap32(Wrap32(x) + y) == Wrap32(x + y) && Wrap32(Wrap32(x) - y) == Wrap32(x - y)
  {
    var q := x / TWO32;
    assert x == Wrap32(x) + TWO32 * q;
    hide Wrap32;
    WrapShift(Wrap32(x) + y, q);
    WrapShift(Wrap32(x) - y, q);
  }

  lemma ArithMeaning(op: ArithOp, a: UExpr, b: UExpr, c: UExpr, m: Machine, i: nat)
    requires i < |m.lanes|
    ensures EvalU(ArithExpr(op, a, b, c), m, i)
         == ArithValue(if op == VMulU24 then VMulLo else op, EvalU(a, m, i), EvalU(b, m, i), EvalU(c, m, i))
  {
    hide EvalU, EvalI, EvalL, EvalB, Times, SignedTimes, Wrap32, Low32, Shl, Lows, HighWord, AsSigned, Five;
    match op
    case VMulHiU24 => MulHi24Meaning(a, b, m, i);
    case VMadU24 => Mad24Meaning(a, b, c, m, i);
    case VMadU16 => Mad16Meaning(a, b, c, m, i);
    case VMulHiI => SignedHighMeaning(a, b, m, i);
    case VAdd3 => Add3Meaning(a, b, c, m, i);
    case VAddLshl => AddLshlMeaning(a, b, c, m, i);
    case VLshlAdd => LshlAddMeaning(a, b, c, m, i);
    case _ => SingleMeaning(op, a, b, c, m, i);
  }

  predicate IsSingle(op: ArithOp) {
    op.VMov? || op.VAdd? || op.VSub? || op.VSubrev? || op.VMulLo? || op.VMulU24? || op.VMulHiU?
  }

  /** The opcodes that are one operator, or none. */
  lemma SingleMeaning(op: ArithOp, a: UExpr, b: UExpr, c: UExpr, m: Machine, i: nat)
    requires i < |m.lanes| && IsSingle(op)
    ensures EvalU(ArithExpr(op, a, b, c), m, i)
         == ArithValue(if op == VMulU24 then VMulLo else op, EvalU(a, m, i), EvalU(b, m, i), EvalU(c, m, i))
  {
    hide EvalU, EvalI, EvalL, EvalB, Times, Wrap32, HighWord, BinaryU;
    SumMeaning(a, b, m, i);
    SumMeaning(b, a, m, i);
    ProductMeaning(a, b, m, i);
  }

  lemma SumMeaning(a: UExpr, b: UExpr, m: Machine, i: nat)
    requires i < |m.lanes|
    ensures EvalU(Add(a, b), m, i) == Wrap32(EvalU(a, m, i) + EvalU(b, m, i))
    ensures EvalU(Sub(a, b), m, i) == Wrap32(EvalU(a, m, i) - EvalU(b, m, i))
  {
    hide EvalU, Wrap32;
    EvBin(AddOp, a, b, m, i);
    EvBin(SubOp, a, b, m, i);
  }

  lemma ProductMeaning(a: UExpr, b: UExpr, m: Machine, i: nat)
    requires i < |m.lanes|
    ensures EvalU(Mul(a, b), m, i) == Wrap32(Times(EvalU(a, m, i), EvalU(b, m, i)))
    ensures EvalU(MulHi(a, b), m, i) == HighWord(EvalU(a, m, i), EvalU(b, m, i))
  {
    hide EvalU, Wrap32, Times, HighWord;
    EvBin(MulOp, a, b, m, i);
    EvBin(MulHiOp, a, b, m, i);
  }

  lemma Add3Meaning(a: UExpr, b: UExpr, c: UExpr, m: Machine, i: nat)
    requires i < |m.lanes|
    ensures EvalU(Add(Add(a, b), c), m, i) == Wrap32(EvalU(a, m, i) + EvalU(b, m, i) + EvalU(c, m, i))
  {
    hide EvalU, EvalI, EvalL, EvalB, Wrap32, Low32;
    EvU(m, i);
    WrapInside(EvalU(a, m, i) + EvalU(b, m, i), EvalU(c, m, i));
  }

  lemma AddLshlMeaning(a: UExpr, b: UExpr, c: UExpr, m: Machine, i: nat)
    requires i < |m.lanes|
    ensures EvalU(ShiftL(Add(a, b), Five(c)), m, i)
         == Low32(Shl(Wrap32(EvalU(a, m, i) + EvalU(b, m, i)), EvalU(c, m, i) % 32))
  {
    hide EvalU, EvalI, EvalL, EvalB;
    EvU(m, i);
    ShiftLeftMeaning(Add(a, b), c, m, i);
  }

  lemma MulHi24Meaning(a: UExpr, b: UExpr, m: Machine, i: nat)
    requires i < |m.lanes|
    ensures EvalU(MulHi(And(a, Lit(0xFF_FFFF)), And(b, Lit(0xFF_FFFF))), m, i)
         == HighWord(Lows(EvalU(a, m, i), 24), Lows(EvalU(b, m, i), 24))
  {
    hide EvalU, EvalI, EvalL, EvalB;
    EvU(m, i);
    hide Lows, BitAnd, HighWord;
    MaskedMeaning(a, m, i);
    MaskedMeaning(b, m, i);
  }

  lemma Mad24Meaning(a: UExpr, b: UExpr, c: UExpr, m: Machine, i: nat)
    requires i < |m.lanes|
    ensures EvalU(Add(Mul(And(a, Lit(0xFF_FFFF)), And(b, Lit(0xFF_FFFF))), c), m, i)
         == Wrap32(Times(Lows(EvalU(a, m, i), 24), Lows(EvalU(b, m, i), 24)) + EvalU(c, m, i))
  {
    hide EvalU, EvalI, EvalL, EvalB;
    hide Times, Wrap32, Lows, BitAnd;
    MadMeaning(And(a, Lit(0xFF_FFFF)), And(b, Lit(0xFF_FFFF)), c, m, i);
    MaskedMeaning(a, m, i);
    MaskedMeaning(b, m, i);
  }

  lemma Mad16Meaning(a: UExpr, b: UExpr, c: UExpr, m: Machine, i: nat)
    requires i < |m.lanes|
    ensures EvalU(Add(Mul(And(a, Lit(0xFFFF)), And(b, Lit(0xFFFF))), c), m, i)
         == Wrap32(Times(Lows(EvalU(a, m, i), 16), Lows(EvalU(b, m, i), 16)) + EvalU(c, m, i))
  {
    hide EvalU, EvalI, EvalL, EvalB;
    hide Times, Wrap32, Lows, BitAnd;
    MadMeaning(And(a, Lit(0xFFFF)), And(b, Lit(0xFFFF)), c, m, i);
    MaskedMeaning(a, m, i);
    MaskedMeaning(b, m, i);
  }

  lemma MadMeaning(a: UExpr, b: UExpr, c: UExpr, m: Machine, i: nat)
    requires i < |m.lanes|
    ensures EvalU(Add(Mul(a, b), c), m, i) == Wrap32(Times(EvalU(a, m, i), EvalU(b, m, i)) + EvalU(c, m, i))
  {
    hide EvalU, EvalI, EvalL, EvalB;
    EvU(m, i);
    hide Times, Wrap32;
    WrapInside(Times(EvalU(a, m, i), EvalU(b, m, i)), EvalU(c, m, i));
  }

  lemma SignedHighMeaning(a: UExpr, b: UExpr, m: Machine, i: nat)
    requires i < |m.lanes|
    ensures EvalU(FromInt(IMulHi(AsInt(a), AsInt(b))), m, i)
      == Wrap32(SignedTimes(AsSigned(EvalU(a, m, i)), AsSigned(EvalU(b, m, i))) / TWO32)
  {
    hide EvalU, EvalI, EvalL, EvalB;
    EvU(m, i);
    EvI(m, i);
    assert EvalI(IMulHi(AsInt(a), AsInt(b)), m, i) == SignedHighWord(EvalI(AsInt(a), m, i), EvalI(AsInt(b), m, i));
  }

  lemma ShiftLeftMeaning(x: UExpr, k: UExpr, m: Machine, i: nat)
    requires i < |m.lanes|
    ensures EvalU(ShiftL(x, Five(k)), m, i) == Low32(Shl(EvalU(x, m, i), EvalU(k, m, i) % 32))
    ensures EvalU(ShiftR(x, Five(k)), m, i) == Shr(EvalU(x, m, i), EvalU(k, m, i) % 32)
  {
    hide EvalU, EvalI, EvalL, EvalB;
    EvU(m, i);
    FiveMeaning(k, m, i);
  }

  lemma LshlAddMeaning(a: UExpr, b: UExpr, c: UExpr, m: Machine, i: nat)
    requires i < |m.lanes|
    ensures EvalU(Add(ShiftL(a, Five(b)), c), m, i) == Wrap32(Shl(EvalU(a, m, i), EvalU(b, m, i) % 32) + EvalU(c, m, i))
  {
    hide EvalU, EvalI, EvalL, EvalB, Wrap32, Low32, Lows;
    EvU(m, i);
    ShiftLeftMeaning(a, b, m, i);
    Low32Is(Shl(EvalU(a, m, i), EvalU(b, m, i) % 32));
    WrapInside(Shl(EvalU(a, m, i), EvalU(b, m, i) % 32), EvalU(c, m, i));
  }

  // ---- minima, maxima, medians ----

  lemma OrderMeaning(op: OrderOp, a: UExpr, b: UExpr, c: UExpr, m: Machine, i: nat)
    requires i < |m.lanes|
    ensures EvalU(OrderExpr(op, a, b, c), m, i) == OrderValue(op, EvalU(a, m, i), EvalU(b, m, i), EvalU(c, m, i))
  {
    hide EvalU, EvalI, EvalL, EvalB;
    match op
    case VMinI | VMaxI | VMin3I | VMax3I => SignedOrderMeaning(op, a, b, c, m, i);
    case VMed3I => SignedMedianMeaning(a, b, c, m, i);
    case _ => UnsignedOrderMeaning(op, a, b, c, m, i);
  }

  lemma UnsignedOrderMeaning(op: OrderOp, a: UExpr, b: UExpr, c: UExpr, m: Machine, i: nat)
    requires i < |m.lanes| && op in {VMinU, VMaxU, VMin3U, VMax3U, VMed3U}
    ensures EvalU(OrderExpr(op, a, b, c), m, i) == OrderValue(op, EvalU(a, m, i), EvalU(b, m, i), EvalU(c, m, i))
  {
    hide EvalU, EvalI, EvalL, EvalB, Wrap32, Low32, Times, Shl, Shr, BitAnd, Or32, Xor32, HighWord, Lows;
    EvU(m, i);
  }

  lemma SignedOrderMeaning(op: OrderOp, a: UExpr, b: UExpr, c: UExpr, m: Machine, i: nat)
    requires i < |m.lanes| && op in {VMinI, VMaxI, VMin3I, VMax3I}
    ensures EvalU(OrderExpr(op, a, b, c), m, i) == OrderValue(op, EvalU(a, m, i), EvalU(b, m, i), EvalU(c, m, i))
  {
    hide EvalU, EvalI, EvalL, EvalB;
    EvU(m, i);
    EvI(m, i);
  }

  lemma SignedMedianMeaning(a: UExpr, b: UExpr, c: UExpr, m: Machine, i: nat)
    requires i < |m.lanes|
    ensures EvalU(FromInt(IMax(IMin(AsInt(a), AsInt(b)), IMin(IMax(AsInt(a), AsInt(b)), AsInt(c)))), m, i)
         == Wrap32(Median(AsSigned(EvalU(a, m, i)), AsSigned(EvalU(b, m, i)), AsSigned(EvalU(c, m, i))))
  {
    hide EvalU, EvalI, EvalL, EvalB, Lows, Wrap32, AsSigned, SignedHighWord;
    EvU(m, i);
    EvI(m, i);
  }

  // ---- shifts and fields ----

  lemma LshlBits(x: U32, k: nat)
    requires k < 32
    ensures Low32(Shl(x, k)) == ShiftUp(x, k)
  {
    hide Low32, Shl;
    forall i: nat | i < 32 ensures Bit(Low32(Shl(x, k)), i) <==> Bit(ShiftUp(x, k), i) {
      ShlBits(x, k, i);
    }
    SameBits(Low32(Shl(x, k)), ShiftUp(x, k));
  }

  lemma LshrBits(x: U32, k: nat)
    ensures Shr(x, k) == ShiftDown(x, k)
  {
    hide Shr;
    forall i: nat | i < 32 ensures Bit(Shr(x, k), i) <==> Bit(ShiftDown(x, k), i) {
      BitOfShr(x, k, i);
    }
    SameBits(Shr(x, k), ShiftDown(x, k));
  }

  lemma AshrWord(x: U32, k: nat)
    ensures Wrap32(ShrSigned(AsSigned(x), k)) == ShiftDownSigned(x, k)
  {
    hide Wrap32, AsSigned, ShrSigned;
    forall i: nat | i < 32 ensures Bit(Wrap32(ShrSigned(AsSigned(x), k)), i) <==> Bit(ShiftDownSigned(x, k), i) {
      AshrBits(x, k, i);
    }
    SameBits(Wrap32(ShrSigned(AsSigned(x), k)), ShiftDownSigned(x, k));
  }

  lemma OrWord(x: U32, y: U32)
    ensures Or32(x, y) == OrOf(x, y)
  {
    hide Or32;
    forall i: nat | i < 32 ensures Bit(Or32(x, y), i) <==> Bit(OrOf(x, y), i) {
      LogicBits(x, y, i);
    }
    SameBits(Or32(x, y), OrOf(x, y));
  }

  /** 2^n - 1 in a word. */
  lemma BelowMeaning(n: UExpr, m: Machine, i: nat)
    requires i < |m.lanes| && EvalU(n, m, i) < 32
    ensures EvalU(Below(n), m, i) == Pow2(EvalU(n, m, i)) - 1
  {
    hide EvalU, EvalI, EvalL, EvalB, Low32, Shl, Wrap32, Pow2;
    EvU(m, i);
    BelowPower(EvalU(n, m, i));
  }

  lemma BelowPower(n: nat)
    requires n < 32
    ensures Pow2(n) < TWO32 && Wrap32(Low32(Shl(1, n)) - 1) == Pow2(n) - 1
  {
    hide Shl, Lows, Pow2;
    PowerFits(n);
    ShlIsProduct(1, n);
    LowsOfSmall(Pow2(n), 32);
  }

  lemma PowerFits(n: nat)
    requires n < 32
    ensures Pow2(n) < TWO32 == Pow2(32)
  {
    OnesKnown();
    Pow2Known();
    Pow2Monotone(n, 31);
  }

  /** A run of ones, clipped to the word. */
  lemma OnesWord(width: nat, offset: nat)
    requires width < 32 && offset < 32
    ensures Low32(Shl(Pow2(width) - 1, offset)) == Ones(offset, width)
  {
    hide Low32, Shl, Wrap32, Pow2;
    BelowPower(width);
    var l, r := Low32(Shl(Pow2(width) - 1, offset)), Ones(offset, width);
    forall i: nat | i < 32 ensures Bit(l, i) <==> Bit(r, i) {
      ShlBits(Pow2(width) - 1, offset, i);
      if i >= offset { BitOfOnes(width, i - offset); }
    }
    SameBits(l, r);
  }

  lemma OnesMeaning(width: UExpr, offset: UExpr, m: Machine, i: nat)
    requires i < |m.lanes|
    ensures EvalU(ShiftL(Below(Five(width)), Five(offset)), m, i)
         == Ones(EvalU(offset, m, i) % 32, EvalU(width, m, i) % 32)
  {
    hide EvalU, EvalI, EvalL, EvalB, Low32, Shl, Wrap32, Pow2, Ones, Five, Below, ShiftL;
    FiveMeaning(width, m, i);
    BelowMeaning(Five(width), m, i);
    ShiftLeftMeaning(Below(Five(width)), offset, m, i);
    OnesWord(EvalU(width, m, i) % 32, EvalU(offset, m, i) % 32);
  }

  lemma FieldWord(x: U32, offset: nat, width: nat)
    requires width <= 32
    ensures Lows(Shr(x, offset), width) == Field(x, offset, width)
  {
    hide Lows, Shr, Pow2;
    Pow2Known();
    LowsBelow(Shr(x, offset), width, 32);
    forall i: nat | i < 32 ensures Bit(Lows(Shr(x, offset), width), i) <==> Bit(Field(x, offset, width), i) {
      BitOfLows(Shr(x, offset), width, i);
      BitOfShr(x, offset, i);
    }
    SameBits(Lows(Shr(x, offset), width), Field(x, offset, width));
  }

  /** extract_bits is defined exactly when the field fits; only bit-field extract can miss that. */
  predicate ShiftDefined(op: ShiftOp, b: U32, c: U32) {
    op == VBfe ==> b % 32 + c % 32 <= 32
  }

  lemma AshrMeaning(x: UExpr, k: UExpr, m: Machine, i: nat)
    requires i < |m.lanes|
    ensures EvalU(FromInt(IShiftR(AsInt(x), Five(k))), m, i) == ShiftDownSigned(EvalU(x, m, i), EvalU(k, m, i) % 32)
  {
    hide EvalU, EvalI, EvalL, EvalB, Wrap32, AsSigned, ShrSigned, ShiftDownSigned, Five;
    EvU(m, i);
    EvI(m, i);
    FiveMeaning(k, m, i);
    AshrWord(EvalU(x, m, i), EvalU(k, m, i) % 32);
  }

  lemma BfeMeaning(a: UExpr, b: UExpr, c: UExpr, m: Machine, i: nat)
    requires i < |m.lanes|
    ensures EvalU(ExtractBits(a, Five(b), Five(c)), m, i)
         == if EvalU(b, m, i) % 32 + EvalU(c, m, i) % 32 <= 32
            then Field(EvalU(a, m, i), EvalU(b, m, i) % 32, EvalU(c, m, i) % 32) else Junk32(m)
  {
    hide EvalU, EvalI, EvalL, EvalB, Lows, Shr, Field, Five;
    EvU(m, i);
    FiveMeaning(b, m, i);
    FiveMeaning(c, m, i);
    FieldWord(EvalU(a, m, i), EvalU(b, m, i) % 32, EvalU(c, m, i) % 32);
  }

  lemma LshlOrMeaning(a: UExpr, b: UExpr, c: UExpr, m: Machine, i: nat)
    requires i < |m.lanes|
    ensures EvalU(Or(ShiftL(a, Five(b)), c), m, i) == OrOf(ShiftUp(EvalU(a, m, i), EvalU(b, m, i) % 32), EvalU(c, m, i))
  {
    hide EvalU, EvalI, EvalL, EvalB, Or32, Low32, Shl, OrOf, ShiftUp, Five;
    EvU(m, i);
    FiveMeaning(b, m, i);
    LshlBits(EvalU(a, m, i), EvalU(b, m, i) % 32);
    OrWord(ShiftUp(EvalU(a, m, i), EvalU(b, m, i) % 32), EvalU(c, m, i));
  }

  lemma ShiftMeaning(op: ShiftOp, a: UExpr, b: UExpr, c: UExpr, m: Machine, i: nat)
    requires i < |m.lanes| && ShiftDefined(op, EvalU(b, m, i), EvalU(c, m, i))
    ensures EvalU(ShiftExpr(op, a, b, c), m, i) == ShiftValue(op, EvalU(a, m, i), EvalU(b, m, i), EvalU(c, m, i))
  {
    hide EvalU, EvalI, EvalL, EvalB, Low32, Shl, Shr, Or32, Five, ShiftL, ShiftR, Below, Or;
    hide ShiftUp, ShiftDown, ShiftDownSigned, OrOf, Field, Ones;
    var x, y, z := EvalU(a, m, i), EvalU(b, m, i), EvalU(c, m, i);
    match op
    case VLshl => ShiftLeftMeaning(a, b, m, i); LshlBits(x, y % 32);
    case VLshlrev => ShiftLeftMeaning(b, a, m, i); LshlBits(y, x % 32);
    case VLshr => ShiftLeftMeaning(a, b, m, i); LshrBits(x, y % 32);
    case VLshrrev => ShiftLeftMeaning(b, a, m, i); LshrBits(y, x % 32);
    case VAshr => AshrMeaning(a, b, m, i);
    case VAshrrev => AshrMeaning(b, a, m, i);
    case VLshlOr => LshlOrMeaning(a, b, c, m, i);
    case VBfe => BfeMeaning(a, b, c, m, i);
    case VBfm => OnesMeaning(a, b, m, i);
  }

  // ---- counting ----

  lemma SmallWrap(x: nat)
    requires x < TWO32
    ensures Wrap32(x) == x
  {
  }

  /** Counting the mask bits below a lane number. */
  lemma PartialMeaning(a: UExpr, n: UExpr, m: Machine, i: nat)
    requires i < |m.lanes| && EvalU(n, m, i) < 32
    ensures EvalU(PopCount(And(a, Below(n))), m, i) == CountBelow(EvalU(a, m, i), EvalU(n, m, i))
  {
    hide EvalU, EvalI, EvalL, EvalB, Wrap32, Low32, Lows, Pow2, BitAnd, Below, Shl, Shr, CountBelow, Popcount;
    BelowMeaning(n, m, i);
    EvU(m, i);
    PopcountMasked(EvalU(a, m, i), EvalU(n, m, i));
  }

  lemma PopcountMeaning(a: UExpr, m: Machine, i: nat)
    requires i < |m.lanes|
    ensures EvalU(PopCount(a), m, i) == CountBelow(EvalU(a, m, i), 32)
  {
    hide EvalU, EvalI, EvalL, EvalB, CountBelow, Popcount;
    EvU(m, i);
    Pow2Known();
    PopcountCounts(EvalU(a, m, i), 32);
  }

  lemma LaneMeaning(m: Machine, i: nat)
    requires i < |m.lanes| && i < 64
    ensures EvalU(LaneId, m, i) == i
    ensures EvalB(Cmp(Ge, LaneId, Lit(32)), m, i) <==> i >= 32
    ensures i >= 32 ==> EvalU(Sub(LaneId, Lit(32)), m, i) == i - 32
  {
    hide EvalU, EvalI, EvalL, EvalB, Wrap32;
    EvU(m, i);
    EvB(m, i);
    SmallWrap(i);
    if i >= 32 { SmallWrap(i - 32); }
  }

  /** On either wave size, for each of its lanes; only the forms the wave sizes use differ. */
  lemma MbcntLoMeaning(wave64: bool, a: UExpr, b: UExpr, m: Machine, i: nat)
    requires i < |m.lanes| && i < (if wave64 then 64 else 32)
    ensures EvalU(MbcntLoExpr(wave64, a, b), m, i)
         == Wrap32(CountBelow(EvalU(a, m, i), if i < 32 then i else 32) + EvalU(b, m, i))
  {
    hide EvalU, EvalI, EvalL, EvalB, Wrap32, Low32, Lows, Below, And, PopCount, CountBelow;
    LaneMeaning(m, i);
    if i < 32 { PartialMeaning(a, LaneId, m, i); }
    PopcountMeaning(a, m, i);
    EvU(m, i);
  }

  lemma MbcntHiMeaning(wave64: bool, a: UExpr, b: UExpr, m: Machine, i: nat)
    requires i < |m.lanes| && i < (if wave64 then 64 else 32)
    ensures EvalU(MbcntHiExpr(wave64, a, b), m, i)
         == Wrap32((if i < 32 then 0 else CountBelow(EvalU(a, m, i), i - 32)) + EvalU(b, m, i))
  {
    hide EvalU, EvalI, EvalL, EvalB, Wrap32, Low32, Lows, Below, And, PopCount, CountBelow, Sub;
    LaneMeaning(m, i);
    if i >= 32 { PartialMeaning(a, Sub(LaneId, Lit(32)), m, i); }
    SmallWrap(EvalU(b, m, i));
    EvU(m, i);
  }

  lemma CountMeaning(op: CountOp, a: UExpr, b: UExpr, m: Machine, i: nat)
    requires i < |m.lanes| && i < 32
    ensures EvalU(CountExpr(op, a, b), m, i) == CountValue(op, EvalU(a, m, i), EvalU(b, m, i), i)
  {
    hide EvalU, EvalI, EvalL, EvalB, Popcount, CountBelow, Ctz, MbcntLoExpr, MbcntHiExpr;
    match op
    case VBcnt =>
      EvU(m, i);
      Pow2Known();
      PopcountCounts(EvalU(a, m, i), 32);
    case VFfbl =>
      EvU(m, i);
      EvB(m, i);
    case VMbcntLo => MbcntLoMeaning(false, a, b, m, i);
    case VMbcntHi => MbcntHiMeaning(false, a, b, m, i);
  }

  /** The opcode whose value is computed: the 24-bit multiply is emitted as a full one. */
  function EmittedOp(op: VOp): VOp {
    if op == Arith(VMulU24) then Arith(VMulLo) else op
  }

  /** The value an expression should have, for operands that evaluate as a, b and c do. */
  ghost predicate Computes(op: VOp, a: UExpr, b: UExpr, c: UExpr, m: Machine, i: nat)
    requires i < |m.lanes|
  {
    EvalU(VectorExpr(op, a, b, c), m, i)
      == VectorValue(EmittedOp(op), EvalU(a, m, i), EvalU(b, m, i), EvalU(c, m, i), i)
  }

  lemma ArithComputes(op: VOp, a: UExpr, b: UExpr, c: UExpr, m: Machine, i: nat)
    requires i < |m.lanes| && i < 32 && op.Arith?
    ensures Computes(op, a, b, c, m, i)
  {
    hide EvalU, EvalI, EvalL, EvalB, Wrap32, ArithExpr, ArithValue;
    ArithMeaning(op.a, a, b, c, m, i);
  }

  lemma OrderComputes(op: VOp, a: UExpr, b: UExpr, c: UExpr, m: Machine, i: nat)
    requires i < |m.lanes| && i < 32 && op.Order?
    ensures Computes(op, a, b, c, m, i)
  {
    hide EvalU, EvalI, EvalL, EvalB, Wrap32, OrderExpr, OrderValue;
    OrderMeaning(op.o, a, b, c, m, i);
  }

  lemma BitwiseComputes(op: VOp, a: UExpr, b: UExpr, c: UExpr, m: Machine, i: nat)
    requires i < |m.lanes| && i < 32 && op.Bitwise?
    ensures Computes(op, a, b, c, m, i)
  {
    hide EvalU, EvalI, EvalL, EvalB, Wrap32, BitExpr, BitValue;
    BitMeaning(op.b, a, b, c, m, i);
  }

  lemma ShiftComputes(op: VOp, a: UExpr, b: UExpr, c: UExpr, m: Machine, i: nat)
    requires i < |m.lanes| && i < 32 && op.Shift? && ShiftDefined(op.h, EvalU(b, m, i), EvalU(c, m, i))
    ensures Computes(op, a, b, c, m, i)
  {
    hide EvalU, EvalI, EvalL, EvalB, Wrap32, ShiftExpr, ShiftValue;
    ShiftMeaning(op.h, a, b, c, m, i);
  }

  lemma CountingComputes(op: VOp, a: UExpr, b: UExpr, c: UExpr, m: Machine, i: nat)
    requires i < |m.lanes| && i < 32 && op.Counting?
    ensures Computes(op, a, b, c, m, i)
  {
    hide EvalU, EvalI, EvalL, EvalB, Wrap32, CountExpr, CountValue;
    CountMeaning(op.n, a, b, m, i);
  }

  /** Every vector expression computes the value of the opcode it is emitted for, whatever its operands. */
  lemma VectorMeaning(op: VOp, a: UExpr, b: UExpr, c: UExpr, m: Machine, i: nat)
    requires i < |m.lanes| && i < 32
    requires op.Shift? ==> ShiftDefined(op.h, EvalU(b, m, i), EvalU(c, m, i))
    ensures Computes(op, a, b, c, m, i)
  {
    hide Computes, EvalU, ShiftDefined;
    match op
    case Arith(_) => ArithComputes(op, a, b, c, m, i);
    case Order(_) => OrderComputes(op, a, b, c, m, i);
    case Bitwise(_) => BitwiseComputes(op, a, b, c, m, i);
    case Shift(_) => ShiftComputes(op, a, b, c, m, i);
    case Counting(_) => CountingComputes(op, a, b, c, m, i);
  }

  // ---- SDWA sources ----

  lemma ShiftMaskMeaning(x: UExpr, k: U32, m: Machine, i: nat)
    requires i < |m.lanes| && k < 32
    ensures EvalU(And(ShiftR(x, Lit(k)), Lit(0xFF)), m, i) == Lows(Shr(EvalU(x, m, i), k), 8)
    ensures EvalU(And(ShiftR(x, Lit(k)), Lit(0xFFFF)), m, i) == Lows(Shr(EvalU(x, m, i), k), 16)
    ensures EvalU(And(x, Lit(0xFF)), m, i) == Lows(EvalU(x, m, i), 8)
    ensures EvalU(And(x, Lit(0xFFFF)), m, i) == Lows(EvalU(x, m, i), 16)
  {
    hide EvalU, EvalI, EvalL, EvalB, Wrap32, Low32, Lows, BitAnd, Shr, Shl;
    EvU(m, i);
    MaskIsLows(Shr(EvalU(x, m, i), k));
    MaskIsLows(EvalU(x, m, i));
  }

  lemma SelectMeaning(x: UExpr, select: nat, m: Machine, i: nat)
    requires i < |m.lanes| && select < 6
    ensures var width := if select <= 3 then 8 else 16;
      var offset := if select <= 3 then 8 * select else if select == 4 then 0 else 16;
      EvalU(SelectExpr(x, select), m, i) == Lows(Shr(EvalU(x, m, i), offset), width)
  {
    hide EvalU, EvalI, EvalL, EvalB, Lows, And, ShiftR;
    ShiftMaskMeaning(x, if 0 < select <= 3 then 8 * select else 16, m, i);
  }

  /** Reading a small field as signed, through the word that holds it. */
  lemma ExtendMeaning(field: U32, width: nat, junk: U32)
    requires width == 8 || width == 16
    requires field < Pow2(width)
    ensures SignedExtract(AsSigned(field), 0, width, junk) == Signed(field, width)
  {
    hide Lows;
    OnesKnown();
    Pow2Known();
    LowsOfSmall(field, width);
  }

  lemma FieldMeaning(x: UExpr, select: nat, extend: bool, m: Machine, i: nat)
    requires i < |m.lanes| && select < 6
    ensures EvalU(ExtendExpr(SelectExpr(x, select), select, extend), m, i)
      == Wrap32(SdwaField(EvalU(x, m, i), select, extend))
    ensures -0x8000 <= SdwaField(EvalU(x, m, i), select, extend) < 0x1_0000
  {
    hide EvalU, EvalI, EvalL, EvalB, Lows, Shr, SignedExtract, SelectExpr;
    OnesKnown();
    Pow2Known();
    assert Pow2(15) == 0x8000;
    SelectMeaning(x, select, m, i);
    var word := EvalU(SelectExpr(x, select), m, i);
    if extend {
      EvU(m, i);
      EvI(m, i);
      ExtendMeaning(word, if select <= 3 then 8 else 16, Junk32(m));
    }
  }

  lemma SignedOfWrap(z: int)
    requires -0x8000_0000 <= z < 0x8000_0000
    ensures AsSigned(Wrap32(z)) == z
  {
  }

  lemma SdwaMeaning(x: UExpr, select: nat, extend: bool, absolute: bool, negate: bool, m: Machine, i: nat)
    requires i < |m.lanes| && select < 7
    ensures EvalU(SdwaExpr(x, select, extend, absolute, negate), m, i)
         == SdwaValue(EvalU(x, m, i), select, extend, absolute, negate)
  {
    hide EvalU, EvalI, EvalL, EvalB, SdwaField, SelectExpr, ExtendExpr, Wrap32, AsSigned, Sub;
    var e := ExtendExpr(SelectExpr(x, select), select, extend);
    var word := EvalU(x, m, i);
    var field: int := if select == 6 then (if absolute then AsSigned(word) else word)
                      else SdwaField(word, select, extend);
    assert EvalU(e, m, i) == Wrap32(field) && (absolute ==> AsSigned(Wrap32(field)) == field) by {
      if select == 6 {
        WholeWord(x, extend);
        WrapOfSigned(word);
        SmallWrap(word);
      } else {
        FieldMeaning(x, select, extend, m, i);
        SignedOfWrap(field);
      }
    }
    MagnitudeMeaning(e, field, absolute, m, i);
    if negate {
      NegateMeaning(if absolute then FromInt(IAbs(AsInt(e))) else e, if absolute then Abs(field) else field, m, i);
    }
  }

  lemma MagnitudeMeaning(e: UExpr, field: int, absolute: bool, m: Machine, i: nat)
    requires i < |m.lanes| && EvalU(e, m, i) == Wrap32(field) && (absolute ==> AsSigned(Wrap32(field)) == field)
    ensures EvalU(if absolute then FromInt(IAbs(AsInt(e))) else e, m, i)
      == Wrap32(if absolute then Abs(field) else field)
  {
    hide EvalU, EvalI, EvalL, EvalB, Wrap32, AsSigned;
    EvU(m, i);
    EvI(m, i);
    WrapOfSigned(Wrap32(Abs(field)));
  }

  lemma WholeWord(x: UExpr, extend: bool)
    ensures ExtendExpr(SelectExpr(x, 6), 6, extend) == x
  {
  }

  lemma WrapOfSigned(x: U32)
    ensures Wrap32(AsSigned(x)) == x
  {
  }

  lemma NegateMeaning(e: UExpr, z: int, m: Machine, i: nat)
    requires i < |m.lanes| && EvalU(e, m, i) == Wrap32(z)
    ensures EvalU(Sub(Lit(0), e), m, i) == Wrap32(-z)
  {
    hide EvalU, EvalI, EvalL, EvalB;
    EvU(m, i);
  }
}
