/** The scalar expressions compute what the scalar instructions promise, and the condition-bit
    expressions hold exactly when the instructions set the condition bit. */
module MetalScalarMeaning {
  import opened Bits
  import opened Gen5Isa
  import opened MetalEmission
  import opened MetalMeaning
  import opened MetalRelation
  import opened MetalTarget
  import opened Words

  // ---- logic ----

  function LogicWord(op: Logic, x: U32, y: U32): U32 {
    match op
    case AndL => BitAnd(x, y)
    case OrL => Or32(x, y)
    case XorL => Xor32(x, y)
    case NandL => Not32(BitAnd(x, y))
    case NorL => Not32(Or32(x, y))
    case XnorL => Not32(Xor32(x, y))
    case Andn1L => BitAnd(Not32(x), y)
    case Andn2L => BitAnd(x, Not32(y))
    case Orn1L => Or32(Not32(x), y)
    case Orn2L => Or32(x, Not32(y))
  }

  lemma LogicUnfolds(op: Logic, x: UExpr, y: UExpr, m: Machine, i: nat)
    requires i < |m.lanes|
    ensures EvalU(LogicExpr(op, x, y), m, i) == LogicWord(op, EvalU(x, m, i), EvalU(y, m, i))
  {
    hide EvalU, EvalI, EvalL, EvalB, Wrap32, Low32, BitAnd, Or32, Xor32, Not32, Shl, Shr, Times, HighWord;
    EvU(m, i);
  }

  lemma LogicWordAt(op: Logic, x: U32, y: U32, j: nat)
    requires j < 32
    ensures Bit(LogicWord(op, x, y), j) <==> Truth(op, Bit(x, j), Bit(y, j))
  {
    hide BitAnd, Or32, Xor32, Not32;
    LogicBits(x, y, j);
    LogicBits(y, x, j);
    match op
    case NandL => NotBit(BitAnd(x, y), j);
    case NorL => NotBit(Or32(x, y), j);
    case XnorL => NotBit(Xor32(x, y), j);
    case Andn1L => LogicBits(Not32(x), y, j);
    case Andn2L => LogicBits(x, Not32(y), j);
    case Orn1L => LogicBits(Not32(x), y, j);
    case Orn2L => LogicBits(x, Not32(y), j);
    case _ =>
  }

  lemma LogicMeaning(op: Logic, x: UExpr, y: UExpr, m: Machine, i: nat)
    requires i < |m.lanes|
    ensures EvalU(LogicExpr(op, x, y), m, i) == Logic32(op, EvalU(x, m, i), EvalU(y, m, i))
  {
    hide EvalU, EvalI, EvalL, EvalB, LogicWord, LogicExpr, Wrap32;
    var a, b := EvalU(x, m, i), EvalU(y, m, i);
    LogicUnfolds(op, x, y, m, i);
    forall j: nat | j < 32 ensures Bit(LogicWord(op, a, b), j) <==> Bit(Logic32(op, a, b), j) {
      LogicWordAt(op, a, b, j);
    }
    SameBits(LogicWord(op, a, b), Logic32(op, a, b));
  }

  // ---- packing ----

  /** The halves of a packed word: low sixteen bits of one, the other's at its own place or moved. */
  lemma PackBits(x: U32, y: U32, i: nat)
    ensures Bit(BitAnd(x, 0xFFFF), i) <==> i < 16 && Bit(x, i)
    ensures Bit(BitAnd(y, 0xFFFF_0000), i) <==> 16 <= i < 32 && Bit(y, i)
    ensures Bit(Low32(Shl(y, 16)), i) <==> 16 <= i < 32 && Bit(y, i - 16)
    ensures Bit(Shr(x, 16), i) <==> Bit(x, i + 16)
  {
    hide BitAnd, Shl, Shr, Low32, Pow2;
    OnesKnown();
    Pow2Known();
    BitAndAt(x, 0xFFFF, i);
    BitOfOnes(16, i);
    BitAndAt(y, 0xFFFF_0000, i);
    HighHalfBits(i);
    ShlBits(y, 16, i);
    BitOfShr(x, 16, i);
  }

  lemma HighHalfBits(i: nat)
    ensures Bit(0xFFFF_0000, i) <==> 16 <= i < 32
  {
    hide Pow2;
    OnesKnown();
    BitOfSum(0xFFFF, 0, 16, i);
    BitOfZero(i);
    if i >= 16 { BitOfOnes(16, i - 16); }
  }

  function PackWord(op: SOp, x: U32, y: U32): U32
    requires op.SPackLl? || op.SPackLh? || op.SPackHh?
  {
    match op
    case SPackLl => Or32(BitAnd(x, 0xFFFF), Low32(Shl(y, 16)))
    case SPackLh => Or32(BitAnd(x, 0xFFFF), BitAnd(y, 0xFFFF_0000))
    case SPackHh => Or32(Shr(x, 16), BitAnd(y, 0xFFFF_0000))
  }

  lemma PackMeaning(op: SOp, x: UExpr, y: UExpr, m: Machine, i: nat)
    requires i < |m.lanes| && (op.SPackLl? || op.SPackLh? || op.SPackHh?)
    ensures EvalU(ScalarExprOf(op, x, y), m, i) == ScalarValue(op, EvalU(x, m, i), EvalU(y, m, i), m.lanes[i].scc)
  {
    hide EvalU, EvalI, EvalL, EvalB, Wrap32, PackWord;
    PackUnfolds(op, x, y, m, i);
    PackedRight(op, EvalU(x, m, i), EvalU(y, m, i), m.lanes[i].scc);
  }

  lemma PackUnfolds(op: SOp, x: UExpr, y: UExpr, m: Machine, i: nat)
    requires i < |m.lanes| && (op.SPackLl? || op.SPackLh? || op.SPackHh?)
    ensures EvalU(ScalarExprOf(op, x, y), m, i) == PackWord(op, EvalU(x, m, i), EvalU(y, m, i))
  {
    hide EvalU, EvalI, EvalL, EvalB, Wrap32, BitAnd, Or32, Xor32, Shl, Shr, Low32, Lows, Times, HighWord;
    EvU(m, i);
  }

  lemma PackWordAt(op: SOp, a: U32, b: U32, j: nat)
    requires j < 32 && (op.SPackLl? || op.SPackLh? || op.SPackHh?)
    ensures Bit(PackWord(op, a, b), j) <==> if j < 16 then Bit(a, if op.SPackHh? then j + 16 else j)
                                            else Bit(b, if op.SPackLl? then j - 16 else j)
  {
    hide BitAnd, Or32, Shl, Shr, Low32, Bit;
    PackBits(a, b, j);
    match op
    case SPackLl => LogicBits(BitAnd(a, 0xFFFF), Low32(Shl(b, 16)), j);
    case SPackLh => LogicBits(BitAnd(a, 0xFFFF), BitAnd(b, 0xFFFF_0000), j);
    case SPackHh =>
      LogicBits(Shr(a, 16), BitAnd(b, 0xFFFF_0000), j);
      if j >= 16 { HighBitsClear(a, j + 16); }
  }

  lemma PackedRight(op: SOp, a: U32, b: U32, scc: bool)
    requires op.SPackLl? || op.SPackLh? || op.SPackHh?
    ensures PackWord(op, a, b) == ScalarValue(op, a, b, scc)
  {
    hide PackWord, Bit;
    forall j: nat | j < 32 ensures Bit(PackWord(op, a, b), j) <==> Bit(ScalarValue(op, a, b, scc), j) {
      PackWordAt(op, a, b, j);
    }
    SameBits(PackWord(op, a, b), ScalarValue(op, a, b, scc));
  }

  // ---- values ----

  /** The opcodes emitted as one expression. */
  predicate Direct(op: SOp) {
    op != SAddc && op != SSubb && op != SBfeU && op != SBfeI
  }

  lemma LshlAddConstant(x: UExpr, n: U32, y: UExpr, m: Machine, i: nat)
    requires i < |m.lanes| && n < 32
    ensures EvalU(Add(ShiftL(x, Lit(n)), y), m, i) == Wrap32(Shl(EvalU(x, m, i), n) + EvalU(y, m, i))
  {
    hide EvalU, EvalI, EvalL, EvalB, Wrap32, Shl, Low32;
    EvU(m, i);
    Low32Is(Shl(EvalU(x, m, i), n));
    WrapInside(Shl(EvalU(x, m, i), n), EvalU(y, m, i));
  }

  lemma ShiftValueMeaning(op: SOp, x: UExpr, y: UExpr, m: Machine, i: nat)
    requires i < |m.lanes| && (op.SLshl? || op.SLshr? || op.SAshr? || op.SBfm?)
    ensures EvalU(ScalarExprOf(op, x, y), m, i) == ScalarValue(op, EvalU(x, m, i), EvalU(y, m, i), m.lanes[i].scc)
  {
    hide EvalU, EvalI, EvalL, EvalB, Wrap32, Low32, Shl, Shr, ShiftUp, ShiftDown, ShiftDownSigned, Ones;
    hide Five, ShiftL, ShiftR, Below;
    var a, b := EvalU(x, m, i), EvalU(y, m, i);
    match op
    case SLshl => ShiftLeftMeaning(x, y, m, i); LshlBits(a, b % 32);
    case SLshr => ShiftLeftMeaning(x, y, m, i); LshrBits(a, b % 32);
    case SAshr => AshrMeaning(x, y, m, i);
    case SBfm => OnesMeaning(x, y, m, i);
  }

  lemma OrderValueMeaning(op: SOp, x: UExpr, y: UExpr, m: Machine, i: nat)
    requires i < |m.lanes| && (op.SMinU? || op.SMaxU? || op.SMinI? || op.SMaxI?)
    ensures EvalU(ScalarExprOf(op, x, y), m, i) == ScalarValue(op, EvalU(x, m, i), EvalU(y, m, i), m.lanes[i].scc)
  {
    hide EvalU, EvalI, EvalL, EvalB, Wrap32;
    var o := if op.SMinU? then VMinU else if op.SMaxU? then VMaxU else if op.SMinI? then VMinI else VMaxI;
    OrderMeaning(o, x, y, Lit(0), m, i);
  }

  lemma ArithValueMeaning(op: SOp, x: UExpr, y: UExpr, m: Machine, i: nat)
    requires i < |m.lanes| && (op.SAdd? || op.SAddI? || op.SSub? || op.SSubI? || op.SMul? || op.SMulHi? || op.SCselect?)
    ensures EvalU(ScalarExprOf(op, x, y), m, i) == ScalarValue(op, EvalU(x, m, i), EvalU(y, m, i), m.lanes[i].scc)
  {
    hide EvalU, EvalI, EvalL, EvalB, Wrap32, Low32, Times, HighWord, Shl, Shr, BitAnd, Or32, Xor32;
    EvU(m, i);
    SccRead(m, i);
  }

  lemma SccRead(m: Machine, i: nat)
    requires i < |m.lanes|
    ensures EvalB(Scc, m, i) == m.lanes[i].scc
  {
  }

  lemma DirectMeaning(op: SOp, x: UExpr, y: UExpr, m: Machine, i: nat)
    requires i < |m.lanes| && Direct(op) && (op.SLshlAdd? ==> op.n < 32)
    ensures EvalU(ScalarExprOf(op, x, y), m, i) == ScalarValue(op, EvalU(x, m, i), EvalU(y, m, i), m.lanes[i].scc)
  {
    hide EvalU, EvalI, EvalL, EvalB, Wrap32, Shl, Times;
    match op
    case SLogic(l) => LogicMeaning(l, x, y, m, i);
    case SLshl | SLshr | SAshr | SBfm => ShiftValueMeaning(op, x, y, m, i);
    case SMinU | SMaxU | SMinI | SMaxI => OrderValueMeaning(op, x, y, m, i);
    case SPackLl | SPackLh | SPackHh => PackMeaning(op, x, y, m, i);
    case SLshlAdd(n) => LshlAddConstant(x, n, y, m, i);
    case SAdd | SAddI | SSub | SSubI | SMul | SMulHi | SCselect => ArithValueMeaning(op, x, y, m, i);
  }

  // ---- the condition bit ----

  lemma SignBit(x: U32)
    ensures Bit(x, 31) <==> x >= 0x8000_0000
    ensures Shr(x, 31) != 0 <==> x >= 0x8000_0000
  {
    hide Shr, Pow2;
    OnesKnown();
    Pow2Known();
    TopBit(x, 31);
    ShrIsQuotient(x, 31);
  }

  predicate Negative(x: U32) {
    x >= 0x8000_0000
  }

  lemma OverflowBits(x: U32, y: U32, r: U32)
    ensures Negative(BitAnd(Not32(Xor32(x, y)), Xor32(x, r)))
      <==> Negative(x) == Negative(y) && Negative(r) != Negative(x)
    ensures Negative(BitAnd(Xor32(x, y), Xor32(x, r))) <==> Negative(x) != Negative(y) && Negative(r) != Negative(x)
  {
    hide BitAnd, Xor32, Not32, Bit;
    SignBit(x);
    SignBit(y);
    SignBit(r);
    SignBit(BitAnd(Not32(Xor32(x, y)), Xor32(x, r)));
    SignBit(BitAnd(Xor32(x, y), Xor32(x, r)));
    LogicBits(x, y, 31);
    LogicBits(x, r, 31);
    NotBit(Xor32(x, y), 31);
    LogicBits(Not32(Xor32(x, y)), Xor32(x, r), 31);
    LogicBits(Xor32(x, y), Xor32(x, r), 31);
  }

  /** Addition overflows when the operands agree in sign and the sum does not. */
  lemma AddOverflow(x: U32, y: U32)
    ensures Negative(x) == Negative(y) && Negative(Wrap32(x + y)) != Negative(x)
       <==> AsSigned(x) + AsSigned(y) != AsSigned(Wrap32(x + y))
  {
    hide Wrap32;
    WrapOfSum(x, y);
  }

  /** Subtraction overflows when the operands differ in sign and the difference takes the other's. */
  lemma SubOverflow(x: U32, y: U32)
    ensures Negative(x) != Negative(y) && Negative(Wrap32(x - y)) != Negative(x)
       <==> AsSigned(x) - AsSigned(y) != AsSigned(Wrap32(x - y))
  {
    hide Wrap32;
    WrapOfSum(x, y);
  }

  lemma SignSetMeaning(e: UExpr, m: Machine, i: nat)
    requires i < |m.lanes|
    ensures EvalB(SignSet(e), m, i) <==> Negative(EvalU(e, m, i))
  {
    hide EvalU, EvalI, EvalL, EvalB, Wrap32, Shr, Shl;
    EvU(m, i);
    EvB(m, i);
    SignBit(EvalU(e, m, i));
  }

  lemma OverflowUnfolds(x: UExpr, y: UExpr, r: UExpr, m: Machine, i: nat)
    requires i < |m.lanes|
    ensures EvalU(And(Not(Xor(x, y)), Xor(x, r)), m, i)
         == BitAnd(Not32(Xor32(EvalU(x, m, i), EvalU(y, m, i))), Xor32(EvalU(x, m, i), EvalU(r, m, i)))
    ensures EvalU(And(Xor(x, y), Xor(x, r)), m, i)
         == BitAnd(Xor32(EvalU(x, m, i), EvalU(y, m, i)), Xor32(EvalU(x, m, i), EvalU(r, m, i)))
  {
    hide EvalU, EvalI, EvalL, EvalB, Wrap32, BitAnd, Xor32, Not32, Or32, Low32, Shl, Shr, Times, HighWord;
    EvU(m, i);
  }

  lemma AddOverflowMeaning(x: UExpr, y: UExpr, r: UExpr, m: Machine, i: nat)
    requires i < |m.lanes| && EvalU(r, m, i) == Wrap32(EvalU(x, m, i) + EvalU(y, m, i))
    ensures EvalB(SignSet(And(Not(Xor(x, y)), Xor(x, r))), m, i)
        <==> AsSigned(EvalU(x, m, i)) + AsSigned(EvalU(y, m, i)) != AsSigned(EvalU(r, m, i))
  {
    hide EvalU, EvalI, EvalL, EvalB, Wrap32, AsSigned, BitAnd, Xor32, Not32, SignSet, Negative;
    hide And, Xor, Not;
    SignSetMeaning(And(Not(Xor(x, y)), Xor(x, r)), m, i);
    OverflowUnfolds(x, y, r, m, i);
    OverflowBits(EvalU(x, m, i), EvalU(y, m, i), EvalU(r, m, i));
    AddOverflow(EvalU(x, m, i), EvalU(y, m, i));
  }

  lemma SubOverflowMeaning(x: UExpr, y: UExpr, r: UExpr, m: Machine, i: nat)
    requires i < |m.lanes| && EvalU(r, m, i) == Wrap32(EvalU(x, m, i) - EvalU(y, m, i))
    ensures EvalB(SignSet(And(Xor(x, y), Xor(x, r))), m, i)
        <==> AsSigned(EvalU(x, m, i)) - AsSigned(EvalU(y, m, i)) != AsSigned(EvalU(r, m, i))
  {
    hide EvalU, EvalI, EvalL, EvalB, Wrap32, AsSigned, BitAnd, Xor32, SignSet, Negative;
    hide And, Xor, Not;
    SignSetMeaning(And(Xor(x, y), Xor(x, r)), m, i);
    OverflowUnfolds(x, y, r, m, i);
    OverflowBits(EvalU(x, m, i), EvalU(y, m, i), EvalU(r, m, i));
    SubOverflow(EvalU(x, m, i), EvalU(y, m, i));
  }

  lemma WrapOfSum(x: U32, y: U32)
    ensures Wrap32(x + y) == if x + y < TWO32 then x + y else x + y - TWO32
    ensures Wrap32(x - y) == if x < y then x - y + TWO32 else x - y
  {
  }

  /** The opcodes whose condition bit the emitted code treats as the instruction set does. */
  predicate SccFaithful(op: SOp) {
    !op.SLshlAdd?
  }

  lemma OrderScc(op: SOp, x: UExpr, y: UExpr, r: UExpr, m: Machine, i: nat, scc: bool)
    requires i < |m.lanes| && (op.SMinU? || op.SMaxU? || op.SMinI? || op.SMaxI?)
    ensures EvalB(SccExprOf(op, x, y, r).value, m, i) <==> ScalarScc(op, EvalU(x, m, i), EvalU(y, m, i), scc)
  {
    hide EvalU, EvalI, EvalL, EvalB, AsSigned, Wrap32, Shl;
    EvB(m, i);
    EvI(m, i);
  }

  lemma CarryScc(op: SOp, x: UExpr, y: UExpr, r: UExpr, m: Machine, i: nat, scc: bool)
    requires i < |m.lanes| && (op.SAdd? || op.SSub?)
    requires EvalU(r, m, i) == ScalarValue(op, EvalU(x, m, i), EvalU(y, m, i), scc)
    ensures EvalB(SccExprOf(op, x, y, r).value, m, i) <==> ScalarScc(op, EvalU(x, m, i), EvalU(y, m, i), scc)
  {
    hide EvalU, EvalI, EvalL, EvalB, Wrap32, Shl;
    WrapOfSum(EvalU(x, m, i), EvalU(y, m, i));
    EvB(m, i);
  }

  lemma OverflowScc(op: SOp, x: UExpr, y: UExpr, r: UExpr, m: Machine, i: nat, scc: bool)
    requires i < |m.lanes| && (op.SAddI? || op.SSubI?)
    requires EvalU(r, m, i) == ScalarValue(op, EvalU(x, m, i), EvalU(y, m, i), scc)
    ensures EvalB(SccExprOf(op, x, y, r).value, m, i) <==> ScalarScc(op, EvalU(x, m, i), EvalU(y, m, i), scc)
  {
    hide EvalU, EvalI, EvalL, EvalB, Wrap32, AsSigned, SignSet, Shl;
    if op.SAddI? { AddOverflowMeaning(x, y, r, m, i); } else { SubOverflowMeaning(x, y, r, m, i); }
  }

  lemma SccMeaning(op: SOp, x: UExpr, y: UExpr, r: UExpr, m: Machine, i: nat, scc: bool)
    requires i < |m.lanes| && Direct(op) && SccFaithful(op)
    requires EvalU(r, m, i) == ScalarValue(op, EvalU(x, m, i), EvalU(y, m, i), scc)
    ensures SccExprOf(op, x, y, r).Some? ==>
      (EvalB(SccExprOf(op, x, y, r).value, m, i) <==> ScalarScc(op, EvalU(x, m, i), EvalU(y, m, i), scc))
    ensures SccExprOf(op, x, y, r).None? ==> ScalarScc(op, EvalU(x, m, i), EvalU(y, m, i), scc) == scc
  {
    hide EvalU, EvalI, EvalL, EvalB, Wrap32, AsSigned, SignSet, NonZero, Shl, ScalarValue, Negative;
    match op
    case SAddI | SSubI => OverflowScc(op, x, y, r, m, i, scc);
    case SAdd | SSub => CarryScc(op, x, y, r, m, i, scc);
    case SMinI | SMaxI | SMinU | SMaxU => OrderScc(op, x, y, r, m, i, scc);
    case SLogic(_) | SLshl | SLshr | SAshr => NonZeroMeaning(r, m, i);
    case _ =>
  }
}
