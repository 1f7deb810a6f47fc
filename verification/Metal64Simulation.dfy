/** Running the statements emitted for a 64-bit scalar instruction does to every lane what the
    instruction does to the shared scalar file and condition bit. */
module Metal64Simulation {
  import opened Bits
  import opened Gen5Isa
  import opened Metal64Meaning
  import opened MetalEmission
  import opened MetalMeaning
  import opened MetalMiscSimulation
  import opened MetalRelation
  import opened MetalScalarMeaning
  import opened MetalScalarSimulation
  import opened MetalTarget
  import opened MetalVectorSimulation
  import opened Words

  // ---- wide temporaries ----

  lemma NextWide(code: seq<Stmt>, k: nat, e: LExpr, m: Machine, w: Wave)
    requires Relates(Run(code, m), w)
    ensures var m1 := Run(code, m);
      var m2 := Run(code + [LetL(k, e)], m);
      && Relates(m2, w) && TempsKept(m1, m2, k) && |m1.lanes| == LANES
      && forall i: nat :: i < LANES ==> EvalL(LT(k), m2, i) == EvalL(e, m1, i)
  {
    RunAppend(code, [LetL(k, e)], m);
    RunOne(LetL(k, e), Run(code, m));
    LetWide(k, e, Run(code, m), w);
  }

  lemma KeptWide(j: nat, m: Machine, m': Machine, k: nat, i: nat)
    requires TempsKept(m, m', k) && j < k && i < |m.lanes|
    ensures EvalL(LT(j), m', i) == EvalL(LT(j), m, i)
  {
    hide EvalU, EvalL, EvalB;
    assert TempKept(m, m', i, j);
  }

  ghost predicate HoldsWide(m: Machine, k: nat, x: U64) {
    |m.lanes| == LANES && forall i: nat :: i < LANES ==> EvalL(LT(k), m, i) == x
  }

  lemma WideKept(j: nat, m: Machine, m': Machine, k: nat, x: U64)
    requires TempsKept(m, m', k) && j < k && HoldsWide(m, j, x)
    ensures HoldsWide(m', j, x)
  {
    hide EvalL;
    forall i: nat | i < LANES ensures EvalL(LT(j), m', i) == x {
      KeptWide(j, m, m', k, i);
    }
  }

  lemma NarrowKept(j: nat, m: Machine, m': Machine, k: nat, x: U32)
    requires TempsKept(m, m', k) && j < k && HoldsAll(m, j, x)
    ensures HoldsAll(m', j, x)
  {
    hide EvalU;
    forall i: nat | i < LANES ensures EvalU(T(j), m', i) == x {
      KeptTemp(j, m, m', k, i);
    }
  }

  /** The next temporary holds x, given its expression evaluates to x; the earlier ones stay. */
  lemma NextHolds(code: seq<Stmt>, k: nat, e: UExpr, m: Machine, w: Wave, x: U32)
    requires Relates(Run(code, m), w) && forall i: nat :: i < LANES ==> EvalU(e, Run(code, m), i) == x
    ensures var m1, m2 := Run(code, m), Run(code + [Let(k, e)], m);
      Relates(m2, w) && TempsKept(m1, m2, k) && HoldsAll(m2, k, x)
  {
    hide EvalU, EvalL, EvalB, Step, StepLane;
    NextTemp(code, k, e, m, w);
  }

  lemma NextHoldsWide(code: seq<Stmt>, k: nat, e: LExpr, m: Machine, w: Wave, x: U64)
    requires Relates(Run(code, m), w) && forall i: nat :: i < LANES ==> EvalL(e, Run(code, m), i) == x
    ensures var m1, m2 := Run(code, m), Run(code + [LetL(k, e)], m);
      Relates(m2, w) && TempsKept(m1, m2, k) && HoldsWide(m2, k, x)
  {
    hide EvalU, EvalL, EvalB, Step, StepLane;
    NextWide(code, k, e, m, w);
  }

  // ---- storing a pair ----

  /** Both registers, also when the first is the null register and the second is EXEC. */
  function StorePair(s: seq<U32>, r: nat, x: U64): (t: seq<U32>)
    ensures |t| == |s|
  {
    WriteScalar(WriteScalar(s, r, x % TWO32), r + 1, x / TWO32)
  }

  lemma StoreScalar64Relates(r: nat, j: nat, k: nat, m: Machine, w: Wave, x: U64)
    requires Relates(m, w) && j < k && HoldsWide(m, j, x)
    ensures var m' := Run(StoreScalar64(r, LT(j), k), m);
      Relates(m', w.(s := StorePair(w.s, r, x))) && TempsKept(m, m', k)
  {
    hide Bit, EvalU, EvalI, EvalL, EvalB, Wrap32, Wrap64, StoreScalar, WriteScalar, StoreTemps;
    var low, high := LowHalf(LT(j)), LowHalf(LShiftR(LT(j), Wide(Lit(32))));
    var first, second := StoreScalar(r, low, k), StoreScalar(r + 1, high, k + StoreTemps(r));
    forall i: nat | i < LANES ensures EvalU(low, m, i) == x % TWO32 {
      HalvesMeaning(LT(j), m, i);
    }
    StoreScalarRelates(r, low, k, m, w, x % TWO32);
    var m1 := Run(first, m);
    var w1 := w.(s := WriteScalar(w.s, r, x % TWO32));
    forall i: nat | i < LANES ensures EvalU(high, m1, i) == x / TWO32 {
      KeptWide(j, m, m1, k, i);
      HalvesMeaning(LT(j), m1, i);
    }
    StoreScalarRelates(r + 1, high, k + StoreTemps(r), m1, w1, x / TWO32);
    RunAppend(first, second, m);
    KeptTwice(m, m1, Run(second, m1), k, k + StoreTemps(r));
  }

  lemma WideNonZero(j: nat, m: Machine, i: nat)
    requires i < |m.lanes|
    ensures EvalB(LCmp(Ne, LT(j), LLit(0)), m, i) <==> EvalL(LT(j), m, i) != 0
  {
    hide EvalU, EvalI, EvalL, EvalB;
    EvB(m, i);
    EvL(m, i);
  }

  /** The value in a wide temporary stored as a pair, and the condition bit after it if asked. */
  lemma Finish64(code: seq<Stmt>, k: nat, dst: nat, sets: bool, m: Machine, w: Wave, x: U64)
    requires Relates(Run(code, m), w) && HoldsWide(Run(code, m), k, x)
    ensures Relates(Run(code + StoreScalar64(dst, LT(k), k + 1)
                        + (if sets then [SetScc(LCmp(Ne, LT(k), LLit(0)))] else []), m),
                    w.(s := StorePair(w.s, dst, x), scc := if sets then x != 0 else w.scc))
  {
    hide Bit, EvalU, EvalI, EvalL, EvalB, Wrap32, Wrap64, StoreScalar64, StorePair, Step, StepLane;
    var store := StoreScalar64(dst, LT(k), k + 1);
    var c := LCmp(Ne, LT(k), LLit(0));
    var m1 := Run(code, m);
    var m2 := Run(store, m1);
    StoreScalar64Relates(dst, k, k + 1, m1, w, x);
    RunAppend(code, store, m);
    if sets {
      RunAppend(code + store, [SetScc(c)], m);
      forall i: nat | i < LANES ensures EvalB(c, m2, i) <==> x != 0 {
        KeptWide(k, m1, m2, k + 1, i);
        WideNonZero(k, m2, i);
      }
      SetSccRelates(c, m2, w.(s := StorePair(w.s, dst, x)), x != 0);
    } else {
      assert code + store + [] == code + store;
    }
  }

  // ---- operands ----

  lemma Uniform64Meaning(j: nat, src: seq<Operand>, m: Machine, w: Wave, i: nat)
    requires Relates(m, w) && i < LANES && j < |src| && OperandOk(src[j]) && !src[j].Vector?
    ensures EvalL(Raw64(src[j]), m, i) == Uniform64(j, src, w)
  {
    hide EvalU, EvalI, EvalL, EvalB, Wrap32, Wrap64, Raw64, Pair;
    Raw64Meaning(src[j], m, w, i);
  }

  lemma FirstWide(src: seq<Operand>, k: nat, m: Machine, w: Wave)
    requires Relates(m, w) && ScalarSourcesOk(src, 1)
    ensures var m' := Run([LetL(k, Raw64(src[0]))], m);
      Relates(m', w) && HoldsWide(m', k, Uniform64(0, src, w))
  {
    hide Bit, EvalU, EvalI, EvalL, EvalB, Wrap32, Wrap64, Raw64, Uniform64, Step, StepLane;
    RunOne(LetL(k, Raw64(src[0])), m);
    LetWide(k, Raw64(src[0]), m, w);
    forall i: nat | i < LANES ensures EvalL(Raw64(src[0]), m, i) == Uniform64(0, src, w) {
      Uniform64Meaning(0, src, m, w, i);
    }
  }

  // ---- expressions over the temporaries ----

  lemma SixBits(x: UExpr, m: Machine, i: nat)
    requires i < |m.lanes|
    ensures EvalU(And(x, Lit(63)), m, i) == EvalU(x, m, i) % 64
  {
    hide EvalU, EvalI, EvalL, EvalB, Wrap32, BitAnd, Or32, Xor32, Shl, Shr, Times, HighWord;
    EvU(m, i);
    FiveIsRemainder(EvalU(x, m, i));
  }

  lemma WideShiftMeaning(x: LExpr, n: LExpr, m: Machine, i: nat)
    requires i < |m.lanes| && EvalL(n, m, i) < 64
    ensures EvalL(LShiftL(x, n), m, i) == ShiftUp64(EvalL(x, m, i), EvalL(n, m, i))
    ensures EvalL(LShiftR(x, n), m, i) == ShiftDown64(EvalL(x, m, i), EvalL(n, m, i))
      == Shr(EvalL(x, m, i), EvalL(n, m, i))
  {
    hide EvalU, EvalI, EvalL, EvalB, Wrap64, BitAnd, Or64, Xor64, Shl, Shr, Low64, Times, ShiftUp64, ShiftDown64;
    EvL(m, i);
    ShiftUpWord(EvalL(x, m, i), EvalL(n, m, i));
    ShiftDownWord(EvalL(x, m, i), EvalL(n, m, i));
  }

  lemma BelowWideMeaning(n: LExpr, m: Machine, i: nat)
    requires i < |m.lanes| && EvalL(n, m, i) < 64
    ensures EvalL(BelowWide(n), m, i) == Pow2(EvalL(n, m, i)) - 1
  {
    hide EvalU, EvalI, EvalL, EvalB, Wrap64, BitAnd, Or64, Xor64, Shl, Shr, Low64, Times, Pow2;
    EvL(m, i);
    PowerWord(EvalL(n, m, i));
  }

  lemma QuadExprMeaning(x: LExpr, m: Machine, i: nat)
    requires i < |m.lanes|
    ensures EvalL(LAnd(LOr(LOr(LOr(x, LShiftR(x, Wide(Lit(1)))), LShiftR(x, Wide(Lit(2)))), LShiftR(x, Wide(Lit(3)))),
                       LLit(0x1111_1111_1111_1111)), m, i)
         == QuadAnyWord(EvalL(x, m, i))
  {
    hide EvalU, EvalI, EvalL, EvalB, Wrap64, BitAnd, Or64, Xor64, Shl, Shr, Low64, Times;
    EvL(m, i);
    EvLit(1, m, i);
    EvLit(2, m, i);
    EvLit(3, m, i);
  }

  lemma FillMeaning(q: LExpr, x: U64, m: Machine, i: nat)
    requires i < |m.lanes| && EvalL(q, m, i) == QuadAnyWord(x)
    ensures EvalL(LMul(q, LLit(0xF)), m, i) == WholeQuads(x)
  {
    hide EvalU, EvalI, EvalL, EvalB, Wrap64, BitAnd, Or64, Xor64, Shl, Shr, Low64, Times, WholeQuads, QuadAnyWord;
    EvL(m, i);
    WholeQuadsByMultiplication(x);
  }

  /** A mask of width ones, all 64 when the width is the whole word. */
  lemma MaskMeaning(width: UExpr, m: Machine, i: nat)
    requires i < |m.lanes| && EvalU(width, m, i) <= 64
    ensures EvalL(LCond(Cmp(Ge, width, Lit(64)), LLit(0xFFFF_FFFF_FFFF_FFFF), BelowWide(Wide(width))), m, i)
         == Pow2(EvalU(width, m, i)) - 1
  {
    hide EvalU, EvalI, EvalL, EvalB, Wrap64, BelowWide, Pow2;
    EvL(m, i);
    EvB(m, i);
    EvLit(64, m, i);
    Pow2Known();
    if EvalU(width, m, i) < 64 { BelowWideMeaning(Wide(width), m, i); }
  }

  lemma ExtractMeaning(x: LExpr, offset: UExpr, mask: LExpr, width: nat, m: Machine, i: nat)
    requires i < |m.lanes| && EvalU(offset, m, i) < 64 && width <= 64 && EvalL(mask, m, i) == Pow2(width) - 1
    ensures EvalL(LAnd(LShiftR(x, Wide(offset)), mask), m, i) == Lows(Shr(EvalL(x, m, i), EvalU(offset, m, i)), width)
  {
    hide EvalU, EvalI, EvalL, EvalB, Wrap64, BitAnd, Or64, Xor64, Shl, Shr, Lows, Times, Pow2;
    EvL(m, i);
    LowsMask(Shr(EvalL(x, m, i), EvalU(offset, m, i)), width);
  }

  lemma SignMeaning(width: UExpr, m: Machine, i: nat)
    requires i < |m.lanes| && EvalU(width, m, i) <= 64
    ensures EvalL(LCond(Cmp(Eq, width, Lit(0)), LLit(0), LShiftL(LLit(1), Wide(Sub(width, Lit(1))))), m, i)
         == if EvalU(width, m, i) == 0 then 0 else Pow2(EvalU(width, m, i) - 1)
  {
    hide EvalU, EvalI, EvalL, EvalB, Wrap64, Wrap32, BitAnd, Or64, Xor64, Shl, Shr, Low64, Times, Pow2;
    EvL(m, i);
    EvB(m, i);
    EvLit(0, m, i);
    if EvalU(width, m, i) > 0 {
      EvBin(SubOp, width, Lit(1), m, i);
      EvLit(1, m, i);
      SmallWrap(EvalU(width, m, i) - 1);
      PowerWord(EvalU(width, m, i) - 1);
    }
  }

  lemma XorSubtractMeaning(width: UExpr, e: LExpr, sign: LExpr, m: Machine, i: nat)
    requires i < |m.lanes|
    ensures EvalL(LCond(Cmp(Eq, width, Lit(0)), LLit(0), LSub(LXor(e, sign), sign)), m, i)
         == if EvalU(width, m, i) == 0 then 0 else Wrap64(BitXor(EvalL(e, m, i), EvalL(sign, m, i)) - EvalL(sign, m, i))
  {
    hide EvalU, EvalI, EvalL, EvalB, Wrap64, Wrap32, BitAnd, BitXor, Or64, Shl, Shr, Low64, Times;
    EvL(m, i);
    EvB(m, i);
    EvLit(0, m, i);
  }

  // ---- preparing each value ----

  function First(src: seq<Operand>, k: nat): seq<Stmt>
    requires |src| >= 1
  {
    [LetL(k, Raw64(src[0]))]
  }

  function Spec64(op: LOp, src: seq<Operand>, w: Wave): U64
    requires WellFormed(w)
  {
    Value64(op, Uniform64(0, src, w), Uniform64(1, src, w), Uniform(0, src, w), Uniform(1, src, w), w.scc)
  }

  /** The prepared machine still represents the wave, and the value expression is the value. */
  ghost predicate Ready64(value: LExpr, m: Machine, w: Wave, x: U64) {
    Relates(m, w) && forall i: nat :: i < LANES ==> EvalL(value, m, i) == x
  }

  lemma PreparedPlain(op: LOp, src: seq<Operand>, k: nat, m: Machine, w: Wave)
    requires Relates(m, w) && ScalarSourcesOk(src, 1) && (op.SMov64? || op.SNot64?)
    ensures Ready64(Prepare64(op, src, k).1, Run(First(src, k), m), w, Spec64(op, src, w))
  {
    hide Bit, EvalU, EvalI, EvalL, EvalB, Wrap32, Wrap64, Raw64, Uniform64, Uniform, NotOf64, Not64;
    FirstWide(src, k, m, w);
    var m0 := Run(First(src, k), m);
    forall i: nat | i < LANES ensures EvalL(Prepare64(op, src, k).1, m0, i) == Spec64(op, src, w) {
      EvL(m0, i);
      NotWord(Uniform64(0, src, w));
    }
  }

  lemma PreparedWqm(src: seq<Operand>, k: nat, m: Machine, w: Wave)
    requires Relates(m, w) && ScalarSourcesOk(src, 1)
    ensures var (prepare, value, used) := Prepare64(SWqm64, src, k);
      Ready64(value, Run(First(src, k) + prepare, m), w, Spec64(SWqm64, src, w))
  {
    hide Bit, EvalU, EvalI, EvalL, EvalB, Wrap32, Wrap64, Raw64, Uniform64, Uniform, WholeQuads, QuadAnyWord, Step,
         StepLane;
    var (prepare, value, used) := Prepare64(SWqm64, src, k);
    var x := Uniform64(0, src, w);
    FirstWide(src, k, m, w);
    var m0 := Run(First(src, k), m);
    forall i: nat | i < LANES ensures EvalL(prepare[0].w, m0, i) == QuadAnyWord(x) {
      QuadExprMeaning(LT(k), m0, i);
    }
    NextHoldsWide(First(src, k), k + 1, prepare[0].w, m, w, QuadAnyWord(x));
    var m1 := Run(First(src, k) + prepare, m);
    forall i: nat | i < LANES ensures EvalL(value, m1, i) == WholeQuads(x) {
      FillMeaning(LT(k + 1), x, m1, i);
    }
  }

  lemma PreparedShift(op: LOp, src: seq<Operand>, k: nat, m: Machine, w: Wave)
    requires Relates(m, w) && ScalarSourcesOk(src, 2) && (op.SLshl64? || op.SLshr64?)
    ensures var (prepare, value, used) := Prepare64(op, src, k);
      Ready64(value, Run(First(src, k) + prepare, m), w, Spec64(op, src, w))
  {
    hide Bit, EvalU, EvalI, EvalL, EvalB, Wrap32, Wrap64, Raw64, Raw, Uniform64, Uniform, ShiftUp64, ShiftDown64, Step,
         StepLane, And;
    var (prepare, value, used) := Prepare64(op, src, k);
    var x, y := Uniform64(0, src, w), Uniform(1, src, w);
    FirstWide(src, k, m, w);
    var m0 := Run(First(src, k), m);
    forall i: nat | i < LANES ensures EvalU(prepare[0].e, m0, i) == y % 64 {
      UniformMeaning(1, src, m0, w, i);
      SixBits(Raw(1, src, Plain), m0, i);
    }
    NextHolds(First(src, k), k + 1, prepare[0].e, m, w, y % 64);
    var m1 := Run(First(src, k) + prepare, m);
    WideKept(k, m0, m1, k + 1, x);
    forall i: nat | i < LANES ensures EvalL(value, m1, i) == Spec64(op, src, w) {
      EvL(m1, i);
      WideShiftMeaning(LT(k), Wide(T(k + 1)), m1, i);
    }
  }

  lemma PreparedLogic(op: LOp, src: seq<Operand>, k: nat, m: Machine, w: Wave)
    requires Relates(m, w) && ScalarSourcesOk(src, 2) && (op.SLogic64? || op.SCselect64?)
    ensures var (prepare, value, used) := Prepare64(op, src, k);
      Ready64(value, Run(First(src, k) + prepare, m), w, Spec64(op, src, w))
  {
    hide Bit, EvalU, EvalI, EvalL, EvalB, Wrap32, Wrap64, Raw64, Uniform64, Uniform, Logic64, Logic64Expr, Step,
         StepLane;
    var (prepare, value, used) := Prepare64(op, src, k);
    var x, y := Uniform64(0, src, w), Uniform64(1, src, w);
    FirstWide(src, k, m, w);
    var m0 := Run(First(src, k), m);
    forall i: nat | i < LANES ensures EvalL(prepare[0].w, m0, i) == y {
      Uniform64Meaning(1, src, m0, w, i);
    }
    NextHoldsWide(First(src, k), k + 1, prepare[0].w, m, w, y);
    var m1 := Run(First(src, k) + prepare, m);
    WideKept(k, m0, m1, k + 1, x);
    forall i: nat | i < LANES ensures EvalL(value, m1, i) == Spec64(op, src, w) {
      assert LaneMatches(m1.lanes[i], w, i);
      if op.SLogic64? {
        LogicMeaning64(op.op, LT(k), LT(k + 1), m1, i);
      } else {
        EvL(m1, i);
        SccRead(m1, i);
      }
    }
  }

  lemma PreparedBfm(src: seq<Operand>, k: nat, m: Machine, w: Wave)
    requires Relates(m, w) && ScalarSourcesOk(src, 2)
    ensures var (prepare, value, used) := Prepare64(SBfm64, src, k);
      Ready64(value, Run(First(src, k) + prepare, m), w, Spec64(SBfm64, src, w))
  {
    hide Bit, EvalU, EvalI, EvalL, EvalB, Wrap32, Wrap64, Raw64, Raw, Uniform64, Uniform, Ones64, Step, StepLane, And,
         BelowWide;
    hide ShiftUp64, Low64, Shl, Pow2;
    var (prepare, value, used) := Prepare64(SBfm64, src, k);
    var e1, e2 := prepare[0].w, prepare[1].w;
    var x, y := Uniform(0, src, w), Uniform(1, src, w);
    FirstWide(src, k, m, w);
    var m0 := Run(First(src, k), m);
    var code1 := First(src, k) + [LetL(k + 1, e1)];
    forall i: nat | i < LANES ensures EvalL(e1, m0, i) == x % 64 {
      UniformMeaning(0, src, m0, w, i);
      SixBits(Raw(0, src, Plain), m0, i);
      EvL(m0, i);
    }
    NextHoldsWide(First(src, k), k + 1, e1, m, w, x % 64);
    var m1 := Run(code1, m);
    forall i: nat | i < LANES ensures EvalL(e2, m1, i) == y % 64 {
      UniformMeaning(1, src, m1, w, i);
      SixBits(Raw(1, src, Plain), m1, i);
      EvL(m1, i);
    }
    NextHoldsWide(code1, k + 2, e2, m, w, y % 64);
    assert First(src, k) + prepare == code1 + [LetL(k + 2, e2)];
    var m2 := Run(First(src, k) + prepare, m);
    WideKept(k + 1, m1, m2, k + 2, x % 64);
    forall i: nat | i < LANES ensures EvalL(value, m2, i) == Ones64(y % 64, x % 64) {
      BelowWideMeaning(LT(k + 1), m2, i);
      WideShiftMeaning(BelowWide(LT(k + 1)), LT(k + 2), m2, i);
      OnesWord64(y % 64, x % 64);
      ShiftUpWord(Pow2(x % 64) - 1, y % 64);
    }
  }

  // ---- bit-field extracts ----

  /** After the five temporaries of an extract: offset, width, mask and the field itself. */
  ghost predicate BfePrepared(k: nat, m: Machine, w: Wave, x: U64, y: U32) {
    && Relates(m, w) && HoldsAll(m, k + 2, y % 64) && HoldsAll(m, k + 3, FieldWidth(y, y % 64, 64))
    && HoldsWide(m, k + 5, Field64(x, y % 64, FieldWidth(y, y % 64, 64)))
  }

  lemma FieldFits(x: U64, offset: nat, width: nat)
    requires width <= 64
    ensures Lows(Shr(x, offset), width) == Field64(x, offset, width)
  {
    FieldWord64(x, offset, width);
  }

  lemma PreparedBfeU(src: seq<Operand>, k: nat, m: Machine, w: Wave)
    requires Relates(m, w) && ScalarSourcesOk(src, 2)
    ensures BfePrepared(k, Run(First(src, k) + PrepareBfe64(src, k), m), w, Uniform64(0, src, w), Uniform(1, src, w))
  {
    hide Bit, EvalU, EvalI, EvalL, EvalB, Wrap32, Wrap64, Raw64, Raw, Uniform64, Uniform, Field64, FieldWidth, Step,
         StepLane;
    hide And, Min, BelowWide, Lows, Shr, Pow2, LShiftR, LAnd, Sub, ShiftR;
    var x, y := Uniform64(0, src, w), Uniform(1, src, w);
    var offset: U32, width: U32 := y % 64, WidthOf(y);
    var e1, e2 := Raw(1, src, Plain), And(T(k + 1), Lit(63));
    var e3 := Min(And(ShiftR(T(k + 1), Lit(16)), Lit(0x7F)), Sub(Lit(64), T(k + 2)));
    var e4 := LCond(Cmp(Ge, T(k + 3), Lit(64)), LLit(0xFFFF_FFFF_FFFF_FFFF), BelowWide(Wide(T(k + 3))));
    var e5 := LAnd(LShiftR(LT(k), Wide(T(k + 2))), LT(k + 4));
    var c0 := First(src, k);
    var c1 := c0 + [Let(k + 1, e1)];
    var c2 := c1 + [Let(k + 2, e2)];
    var c3 := c2 + [Let(k + 3, e3)];
    var c4 := c3 + [LetL(k + 4, e4)];
    var c5 := c4 + [LetL(k + 5, e5)];
    assert First(src, k) + PrepareBfe64(src, k) == c5;
    var m0, m1, m2, m3, m4, m5 := Run(c0, m), Run(c1, m), Run(c2, m), Run(c3, m), Run(c4, m), Run(c5, m);
    FirstWide(src, k, m, w);
    forall i: nat | i < LANES ensures EvalU(e1, m0, i) == y { UniformMeaning(1, src, m0, w, i); }
    NextHolds(c0, k + 1, e1, m, w, y);
    forall i: nat | i < LANES ensures EvalU(e2, m1, i) == offset { SixBits(T(k + 1), m1, i); }
    NextHolds(c1, k + 2, e2, m, w, offset);
    NarrowKept(k + 1, m1, m2, k + 2, y);
    forall i: nat | i < LANES ensures EvalU(e3, m2, i) == width { WidthMeaning(T(k + 1), T(k + 2), 64, m2, i); }
    NextHolds(c2, k + 3, e3, m, w, width);
    NarrowKept(k + 2, m2, m3, k + 3, offset);
    Pow2Fits(width);
    forall i: nat | i < LANES ensures EvalL(e4, m3, i) == Pow2(width) - 1 { MaskMeaning(T(k + 3), m3, i); }
    NextHoldsWide(c3, k + 4, e4, m, w, Pow2(width) - 1);
    NarrowKept(k + 2, m3, m4, k + 4, offset);
    NarrowKept(k + 3, m3, m4, k + 4, width);
    WideKept(k, m0, m1, k + 1, x);
    WideKept(k, m1, m2, k + 2, x);
    WideKept(k, m2, m3, k + 3, x);
    WideKept(k, m3, m4, k + 4, x);
    forall i: nat | i < LANES ensures EvalL(e5, m4, i) == Field64(x, offset, width) {
      ExtractMeaning(LT(k), T(k + 2), LT(k + 4), width, m4, i);
      FieldFits(x, offset, width);
    }
    NextHoldsWide(c4, k + 5, e5, m, w, Field64(x, offset, width));
    NarrowKept(k + 2, m4, m5, k + 5, offset);
    NarrowKept(k + 3, m4, m5, k + 5, width);
  }

  function WidthOf(y: U32): (width: U32)
    ensures width == FieldWidth(y, y % 64, 64) && width <= 64
  {
    FieldWidth(y, y % 64, 64)
  }

  lemma Pow2Fits(width: nat)
    requires width <= 64
    ensures Pow2(width) <= TWO64
  {
    Pow2Known();
    Pow2Monotone(width, 64);
  }

  lemma PreparedBfeI(src: seq<Operand>, k: nat, m: Machine, w: Wave)
    requires Relates(m, w) && ScalarSourcesOk(src, 2)
    ensures var (prepare, value, used) := Prepare64(SBfeI64, src, k);
      Ready64(value, Run(First(src, k) + prepare, m), w, Spec64(SBfeI64, src, w))
  {
    hide Bit, EvalU, EvalI, EvalL, EvalB, Wrap32, Wrap64, Raw64, Raw, Uniform64, Uniform, Field64, FieldWidth, Step,
         StepLane;
    hide PrepareBfe64, FieldSigned64, LSub, LXor, LShiftL, Sub, Pow2, First;
    var x, y := Uniform64(0, src, w), Uniform(1, src, w);
    var offset: U32, width: U32 := y % 64, WidthOf(y);
    var e6 := LCond(Cmp(Eq, T(k + 3), Lit(0)), LLit(0), LShiftL(LLit(1), Wide(Sub(T(k + 3), Lit(1)))));
    var e7 := LCond(Cmp(Eq, T(k + 3), Lit(0)), LLit(0), LSub(LXor(LT(k + 5), LT(k + 6)), LT(k + 6)));
    var c5 := First(src, k) + PrepareBfe64(src, k);
    var c6 := c5 + [LetL(k + 6, e6)];
    var c7 := c6 + [LetL(k + 7, e7)];
    BfeICode(src, k);
    var m5, m6, m7 := Run(c5, m), Run(c6, m), Run(c7, m);
    PreparedBfeU(src, k, m, w);
    var field := Field64(x, offset, width);
    var sign: U64 := SignOf(width);
    forall i: nat | i < LANES ensures EvalL(e6, m5, i) == sign { SignMeaning(T(k + 3), m5, i); }
    NextHoldsWide(c5, k + 6, e6, m, w, sign);
    NarrowKept(k + 3, m5, m6, k + 6, width);
    WideKept(k + 5, m5, m6, k + 6, field);
    forall i: nat | i < LANES ensures EvalL(e7, m6, i) == FieldSigned64(x, offset, width) {
      XorSubtractMeaning(T(k + 3), LT(k + 5), LT(k + 6), m6, i);
      SignedFieldByXor(x, offset, width);
    }
    NextHoldsWide(c6, k + 7, e7, m, w, FieldSigned64(x, offset, width));
  }

  function SignOf(width: U32): U64
    requires width <= 64
  {
    if width == 0 then 0 else
      PowerFits64(width - 1);
      Pow2(width - 1)
  }

  lemma SignedFieldByXor(x: U64, offset: nat, width: U32)
    requires width <= 64
    ensures FieldSigned64(x, offset, width)
         == if width == 0 then 0 else Wrap64(BitXor(Field64(x, offset, width), SignOf(width)) - SignOf(width))
  {
    hide FieldSigned64, Field64, Wrap64, BitXor, Pow2;
    if width == 0 {
      EmptyField64(x, offset);
    } else {
      FieldWord64(x, offset, width);
      SignExtendByXor(x, offset, width);
    }
  }

  lemma BfeICode(src: seq<Operand>, k: nat)
    requires |src| >= 2
    ensures First(src, k) + Prepare64(SBfeI64, src, k).0
      == First(src, k) + PrepareBfe64(src, k)
         + [LetL(k + 6, LCond(Cmp(Eq, T(k + 3), Lit(0)), LLit(0), LShiftL(LLit(1), Wide(Sub(T(k + 3), Lit(1))))))]
         + [LetL(k + 7, LCond(Cmp(Eq, T(k + 3), Lit(0)), LLit(0), LSub(LXor(LT(k + 5), LT(k + 6)), LT(k + 6))))]
  {
    hide PrepareBfe64, First, LSub, LXor, LShiftL, Sub;
  }

  // ---- all 64-bit instructions ----

  lemma Prepared(op: LOp, src: seq<Operand>, k: nat, m: Machine, w: Wave)
    requires Relates(m, w) && AsWritten(Scalar64(op, 0, src))
    ensures var (prepare, value, used) := Prepare64(op, src, k);
      Ready64(value, Run(First(src, k) + prepare, m), w, Spec64(op, src, w))
  {
    hide Bit, EvalU, EvalI, EvalL, EvalB, Wrap32, Wrap64, Raw64, Raw, Uniform64, Uniform, Step, StepLane, FieldWidth,
         PrepareBfe64;
    match op
    case SMov64 | SNot64 =>
      PreparedPlain(op, src, k, m, w);
      assert First(src, k) + [] == First(src, k);
    case SWqm64 => PreparedWqm(src, k, m, w);
    case SLshl64 | SLshr64 => PreparedShift(op, src, k, m, w);
    case SBfm64 => PreparedBfm(src, k, m, w);
    case SBfeU64 => PreparedBfeU(src, k, m, w);
    case SBfeI64 => PreparedBfeI(src, k, m, w);
    case SLogic64(_) | SCselect64 => PreparedLogic(op, src, k, m, w);
  }

  /** What the emitted code leaves in the condition bit. */
  predicate EmittedScc64(op: LOp, value: U64, scc: bool) {
    if Sets64(op) then value != 0 else scc
  }

  function EmittedScalar64(op: LOp, dst: nat, src: seq<Operand>, w: Wave): (w': Wave)
    requires WellFormed(w)
    ensures WellFormed(w')
  {
    var value := Spec64(op, src, w);
    w.(s := StorePair(w.s, dst, value), scc := EmittedScc64(op, value, w.scc))
  }

  lemma Scalar64Relates(op: LOp, dst: nat, src: seq<Operand>, k: nat, m: Machine, w: Wave)
    requires Relates(m, w) && AsWritten(Scalar64(op, dst, src))
    ensures Relates(Run(EmitScalar64(op, dst, src, k), m),
                    EmittedScalar64(op, dst, src, w))
  {
    hide Bit, EvalU, EvalI, EvalL, EvalB, Wrap32, Wrap64, Raw64, Raw, Uniform64, Uniform, Step, StepLane, Value64;
    hide StoreScalar64, StorePair, Prepare64;
    Prepared(op, src, k, m, w);
    var (prepare, value, used) := Prepare64(op, src, k);
    var code, stored := First(src, k) + prepare, k + 1 + used;
    NextHoldsWide(code, stored, value, m, w, Spec64(op, src, w));
    Finish64(code + [LetL(stored, value)], stored, dst, Sets64(op), m, w, Spec64(op, src, w));
  }

  // ---- saveexec over the pair ----

  lemma Saveexec64Prepared(logic: Logic, src: seq<Operand>, k: nat, m: Machine, w: Wave)
    requires Relates(m, w) && ScalarSourcesOk(src, 1)
    ensures var saved := Pair(w.s[EXEC], w.s[EXEC + 1]);
      var m' := Run(First(src, k) + [LetL(k + 1, Scalar64Expr(EXEC))]
                    + [LetL(k + 2, Logic64Expr(logic, LT(k), LT(k + 1)))], m);
      Relates(m', w) && HoldsWide(m', k + 1, saved) && HoldsWide(m', k + 2, Logic64(logic, Uniform64(0, src, w), saved))
  {
    hide Bit, EvalU, EvalI, EvalL, EvalB, Wrap32, Wrap64, Raw64, Uniform64, Step, StepLane, Logic64Expr, Logic64, Pair,
         PairExpr;
    var x, saved := Uniform64(0, src, w), Pair(w.s[EXEC], w.s[EXEC + 1]);
    var e1, e2 := Scalar64Expr(EXEC), Logic64Expr(logic, LT(k), LT(k + 1));
    var c0 := First(src, k);
    var c1 := c0 + [LetL(k + 1, e1)];
    var c2 := c1 + [LetL(k + 2, e2)];
    var m0, m1, m2 := Run(c0, m), Run(c1, m), Run(c2, m);
    FirstWide(src, k, m, w);
    forall i: nat | i < LANES ensures EvalL(e1, m0, i) == saved {
      PairMeaning(S(EXEC), S(EXEC + 1), m0, i);
      ReadsPair(EXEC, m0, w, i);
    }
    NextHoldsWide(c0, k + 1, e1, m, w, saved);
    WideKept(k, m0, m1, k + 1, x);
    forall i: nat | i < LANES ensures EvalL(e2, m1, i) == Logic64(logic, x, saved) {
      LogicMeaning64(logic, LT(k), LT(k + 1), m1, i);
    }
    NextHoldsWide(c1, k + 2, e2, m, w, Logic64(logic, x, saved));
    WideKept(k + 1, m1, m2, k + 2, saved);
  }

  lemma Saveexec64Code(logic: Logic, dst: nat, src: seq<Operand>, k: nat)
    requires |src| >= 1
    ensures var low, high := LowHalf(LT(k + 2)), LowHalf(LShiftR(LT(k + 2), Wide(Lit(32))));
      EmitSaveexec64(logic, dst, src, k)
      == First(src, k) + [LetL(k + 1, Scalar64Expr(EXEC))] + [LetL(k + 2, Logic64Expr(logic, LT(k), LT(k + 1)))]
         + StoreScalar64(dst, LT(k + 1), k + 3)
         + ([SetS(EXEC, low), SetS(EXEC + 1, high)] + [SetExec(LaneBitExpr(low))])
         + [SetScc(LCmp(Ne, LT(k + 2), LLit(0)))]
  {
    hide StoreScalar64, Logic64Expr, Scalar64Expr, LaneBitExpr, Raw64;
  }

  function EmittedSaveexec64(logic: Logic, dst: nat, src: seq<Operand>, w: Wave): (w': Wave)
    requires WellFormed(w)
    ensures WellFormed(w')
  {
    var saved := Pair(w.s[EXEC], w.s[EXEC + 1]);
    var mask := Logic64(logic, Uniform64(0, src, w), saved);
    w.(s := StorePair(w.s, dst, saved)[EXEC := mask % TWO32][EXEC + 1 := mask / TWO32], scc := mask != 0)
  }

  lemma Saveexec64Relates(logic: Logic, dst: nat, src: seq<Operand>, k: nat, m: Machine, w: Wave)
    requires Relates(m, w) && ScalarSourcesOk(src, 1)
    ensures Relates(Run(EmitSaveexec64(logic, dst, src, k), m), EmittedSaveexec64(logic, dst, src, w))
  {
    hide Bit, EvalU, EvalI, EvalL, EvalB, Wrap32, Wrap64, Raw64, Uniform64, Step, StepLane, Logic64Expr, Logic64, Pair,
         PairExpr;
    hide StoreScalar64, StorePair, LaneBitExpr, Scalar64Expr;
    Saveexec64Prepared(logic, src, k, m, w);
    var saved := Pair(w.s[EXEC], w.s[EXEC + 1]);
    var mask := Logic64(logic, Uniform64(0, src, w), saved);
    var code := First(src, k) + [LetL(k + 1, Scalar64Expr(EXEC))] + [LetL(k + 2, Logic64Expr(logic, LT(k), LT(k + 1)))];
    var store := StoreScalar64(dst, LT(k + 1), k + 3);
    var low, high, k2 := LowHalf(LT(k + 2)), LowHalf(LShiftR(LT(k + 2), Wide(Lit(32)))), k + 2;
    var m2 := Run(code, m);
    var m3 := Run(store, m2);
    var w3 := w.(s := StorePair(w.s, dst, saved));
    StoreScalar64Relates(dst, k + 1, k + 3, m2, w, saved);
    WideKept(k2, m2, m3, k + 3, mask);
    forall i: nat, m': Machine | i < LANES && SameHere(m3, m', i)
      ensures EvalU(low, m', i) == mask % TWO32 && EvalU(high, m', i) == mask / TWO32
    {
      EvTemps(k2, m3, i);
      EvTemps(k2, m', i);
      HalvesMeaning(LT(k2), m', i);
    }
    ExecReplaced(low, high, m3, w3, mask % TWO32, mask / TWO32);
    var write := [SetS(EXEC, low), SetS(EXEC + 1, high)] + [SetExec(LaneBitExpr(low))];
    var m4, c := Run(write, m3), LCmp(Ne, LT(k2), LLit(0));
    forall i: nat | i < LANES ensures EvalB(c, m4, i) <==> mask != 0 {
      EvTemps(k2, m3, i);
      EvTemps(k2, m4, i);
      WideNonZero(k2, m4, i);
    }
    SetSccRelates(c, m4, w3.(s := w3.s[EXEC := mask % TWO32][EXEC + 1 := mask / TWO32]), mask != 0);
    Saveexec64Code(logic, dst, src, k);
    RunAppend(code + store + write, [SetScc(c)], m);
    RunAppend(code + store, write, m);
    RunAppend(code, store, m);
  }
}
