/** Running the statements emitted for a scalar instruction does to every lane's copy of the scalar
    file and condition bit what the instruction does to the shared ones. */
module MetalScalarSimulation {
  import opened Bits
  import opened Gen5Isa
  import opened MetalEmission
  import opened MetalMeaning
  import opened MetalRelation
  import opened MetalScalarMeaning
  import opened MetalTarget
  import opened MetalVectorSimulation
  import opened Words

  // ---- bit-field extracts ----

  lemma SignedFieldWord(x: U32, offset: nat, width: nat)
    requires 0 < width <= 32 && offset + width <= 32
    ensures Wrap32(SignedField(x, offset, width)) == FieldSigned(x, offset, width)
  {
    hide Bit, Lows, Shr, Pow2, Wrap32;
    var field := Lows(Shr(x, offset), width);
    var l, r := Wrap32(SignedField(x, offset, width)), FieldSigned(x, offset, width);
    forall j: nat | j < 32 ensures Bit(l, j) <==> Bit(r, j) {
      var at := Least(j, width - 1);
      BitOfLows(Shr(x, offset), width, at);
      BitOfShr(x, offset, at);
      ExtendedBits(field, width, 32, j);
      ExtendIsSigned(field, width);
    }
    SameBits(l, r);
  }

  /** A field extended to a word of n bits by repeating its top bit. */
  function ExtendTo(field: nat, width: nat, n: nat): (r: nat)
    requires 0 < width <= n && field < Pow2(width)
  {
    Pow2Monotone(width, n);
    if field < Pow2(width - 1) then field else field + (Pow2(n) - Pow2(width))
  }

  lemma ExtendedBits(field: nat, width: nat, n: nat, j: nat)
    requires 0 < width <= n && field < Pow2(width) && j < n
    ensures Bit(ExtendTo(field, width, n), j) <==> Bit(field, Least(j, width - 1))
  {
    hide Bit, Pow2;
    TopBit(field, width - 1);
    if field < Pow2(width - 1) {
      if j >= width - 1 { BitAbove(field, width - 1, j); }
    } else {
      HighOnes(field, width, n, j);
    }
  }

  lemma HighOnes(field: nat, width: nat, n: nat, j: nat)
    requires 0 < width <= n && field < Pow2(width) && j < n
    ensures Pow2(width) <= Pow2(n)
    ensures Bit(field + (Pow2(n) - Pow2(width)), j) <==> j >= width || Bit(field, j)
  {
    hide Bit, Pow2;
    Pow2Monotone(width, n);
    Pow2Add(width, n - width);
    var ones := Pow2(n - width) - 1;
    assert Pow2(n) - Pow2(width) == ones * Pow2(width) by {
      assert (ones + 1) * Pow2(width) == ones * Pow2(width) + Pow2(width);
      assert Pow2(width) * Pow2(n - width) == (ones + 1) * Pow2(width);
    }
    BitOfSum(ones, field, width, j);
    if j >= width { BitOfOnes(n - width, j - width); }
  }

  lemma ExtendIsSigned(field: nat, width: nat)
    requires 0 < width <= 32 && field < Pow2(width)
    ensures ExtendTo(field, width, 32) == Wrap32(Signed(field, width))
  {
    hide Pow2;
    Pow2Known();
    Pow2Monotone(width, 32);
  }

  lemma EmptyField(x: U32, offset: nat)
    ensures Field(x, offset, 0) == 0 && FieldSigned(x, offset, 0) == 0
  {
    hide Bit;
    forall j: nat | j < 32 ensures Bit(Field(x, offset, 0), j) <==> Bit(0, j) {
      BitOfZero(j);
    }
    forall j: nat | j < 32 ensures Bit(FieldSigned(x, offset, 0), j) <==> Bit(0, j) {
      BitOfZero(j);
    }
    SameBits(Field(x, offset, 0), 0);
    SameBits(FieldSigned(x, offset, 0), 0);
  }

  lemma SevenBits(control: UExpr, m: Machine, i: nat)
    requires i < |m.lanes|
    ensures EvalU(And(ShiftR(control, Lit(16)), Lit(0x7F)), m, i) == Lows(Shr(EvalU(control, m, i), 16), 7)
  {
    hide EvalU, EvalI, EvalL, EvalB, Wrap32, BitAnd, Shr, Shl, Lows, Or32, Xor32, Times, HighWord;
    EvU(m, i);
    MaskIsLows(Shr(EvalU(control, m, i), 16));
  }

  lemma WidthMeaning(control: UExpr, offset: UExpr, bits: U32, m: Machine, i: nat)
    requires i < |m.lanes| && EvalU(offset, m, i) < bits <= 64
    ensures EvalU(Min(And(ShiftR(control, Lit(16)), Lit(0x7F)), Sub(Lit(bits), offset)), m, i)
         == FieldWidth(EvalU(control, m, i), EvalU(offset, m, i), bits)
  {
    hide EvalU, EvalI, EvalL, EvalB, Wrap32, And, ShiftR, Lows, Shr;
    SevenBits(control, m, i);
    EvBin(MinOp, And(ShiftR(control, Lit(16)), Lit(0x7F)), Sub(Lit(bits), offset), m, i);
    EvBin(SubOp, Lit(bits), offset, m, i);
    EvLit(bits, m, i);
    SmallWrap(bits - EvalU(offset, m, i));
  }

  lemma BfeUMeaning(x: UExpr, offset: UExpr, width: UExpr, m: Machine, i: nat)
    requires i < |m.lanes| && EvalU(offset, m, i) + EvalU(width, m, i) <= 32
    ensures EvalU(Cond(Cmp(Eq, width, Lit(0)), Lit(0), ExtractBits(x, offset, width)), m, i)
         == Field(EvalU(x, m, i), EvalU(offset, m, i), EvalU(width, m, i))
  {
    hide EvalU, EvalI, EvalL, EvalB, Wrap32, Lows, Shr, Field;
    EvU(m, i);
    EvB(m, i);
    EmptyField(EvalU(x, m, i), EvalU(offset, m, i));
    FieldWord(EvalU(x, m, i), EvalU(offset, m, i), EvalU(width, m, i));
  }

  lemma BfeIMeaning(x: UExpr, offset: UExpr, width: UExpr, m: Machine, i: nat)
    requires i < |m.lanes| && EvalU(offset, m, i) + EvalU(width, m, i) <= 32
    ensures EvalU(Cond(Cmp(Eq, width, Lit(0)), Lit(0), FromInt(IExtractBits(AsInt(x), offset, width))), m, i)
         == FieldSigned(EvalU(x, m, i), EvalU(offset, m, i), EvalU(width, m, i))
  {
    hide EvalU, EvalI, EvalL, EvalB, Wrap32, FieldSigned, SignedField, AsSigned;
    EvU(m, i);
    EvB(m, i);
    EvI(m, i);
    EmptyField(EvalU(x, m, i), EvalU(offset, m, i));
    WrapOfSigned(EvalU(x, m, i));
    if EvalU(width, m, i) > 0 { SignedFieldWord(EvalU(x, m, i), EvalU(offset, m, i), EvalU(width, m, i)); }
  }

  // ---- operands and results ----

  /** Both operands in temporaries that every lane agrees on. */
  lemma UniformTemps(src: seq<Operand>, k: nat, m: Machine, w: Wave)
    requires Relates(m, w) && ScalarSourcesOk(src, 2)
    ensures var m' := Run([Let(k, Raw(0, src, Plain)), Let(k + 1, Raw(1, src, Plain))], m);
      Relates(m', w) && forall i: nat :: i < LANES ==>
        EvalU(T(k), m', i) == Uniform(0, src, w) && EvalU(T(k + 1), m', i) == Uniform(1, src, w)
  {
    hide Bit, EvalU, EvalI, EvalL, EvalB, Wrap32, Raw, Uniform, Step, StepLane;
    var st0, st1 := Let(k, Raw(0, src, Plain)), Let(k + 1, Raw(1, src, Plain));
    var m1 := Step(st0, m);
    var m2 := Step(st1, m1);
    RunTwo(st0, st1, m);
    LetU(k, Raw(0, src, Plain), m, w);
    LetU(k + 1, Raw(1, src, Plain), m1, w);
    forall i: nat | i < LANES
      ensures EvalU(T(k), m2, i) == Uniform(0, src, w)
      ensures EvalU(T(k + 1), m2, i) == Uniform(1, src, w)
    {
      KeptTemp(k, m1, m2, k + 1, i);
      UniformMeaning(0, src, m, w, i);
      UniformMeaning(1, src, m1, w, i);
    }
  }

  /** A result stored, and the condition bit set after it. */
  lemma ResultThenScc(code: seq<Stmt>, dst: nat, k: nat, c: BExpr, m: Machine, w: Wave, x: U32, scc: bool)
    requires Relates(Run(code, m), w) && forall i: nat :: i < LANES ==> EvalU(T(k), Run(code, m), i) == x
    requires forall i: nat, m': Machine :: i < LANES && TempsKept(Run(code, m), m', k + 1) ==>
      (EvalB(c, m', i) <==> scc)
    ensures Relates(Run(code + StoreScalar(dst, T(k), k + 1) + [SetScc(c)], m),
                    w.(s := WriteScalar(w.s, dst, x), scc := scc))
  {
    hide Bit, EvalU, EvalI, EvalL, EvalB, Wrap32, StoreScalar, WriteScalar, Step, StepLane;
    var m1 := Run(code, m);
    var store := StoreScalar(dst, T(k), k + 1);
    var m2 := Run(store, m1);
    RunAppend(code + store, [SetScc(c)], m);
    RunAppend(code, store, m);
    StoreScalarRelates(dst, T(k), k + 1, m1, w, x);
    forall i: nat | i < LANES ensures EvalB(c, m2, i) <==> scc {
    }
    SetSccRelates(c, m2, w.(s := WriteScalar(w.s, dst, x)), scc);
  }

  /** The condition bit set first, then the result stored. */
  lemma SccThenResult(code: seq<Stmt>, dst: nat, k: nat, c: BExpr, m: Machine, w: Wave, x: U32, scc: bool)
    requires Relates(Run(code, m), w)
    requires forall i: nat :: i < LANES ==> EvalU(T(k), Run(code, m), i) == x && (EvalB(c, Run(code, m), i) <==> scc)
    ensures Relates(Run(code + [SetScc(c)] + StoreScalar(dst, T(k), k + 1), m),
                    w.(s := WriteScalar(w.s, dst, x), scc := scc))
  {
    hide Bit, EvalU, EvalI, EvalL, EvalB, Wrap32, StoreScalar, WriteScalar;
    var m1 := Run(code, m);
    var m2 := Step(SetScc(c), m1);
    var store := StoreScalar(dst, T(k), k + 1);
    RunAppend(code + [SetScc(c)], store, m);
    RunAppend(code, [SetScc(c)], m);
    RunOne(SetScc(c), m1);
    SetSccRelates(c, m1, w, scc);
    forall i: nat | i < |m1.lanes| ensures SameTemps(m1.lanes[i], m2.lanes[i]) {
    }
    SameTempsKept(m1, m2, k + 1);
    forall i: nat | i < LANES ensures EvalU(T(k), m2, i) == x {
      KeptTemp(k, m1, m2, k + 1, i);
    }
    StoreScalarRelates(dst, T(k), k + 1, m2, w.(scc := scc), x);
  }

  // ---- two-operand opcodes ----

  /** What the condition bit becomes, read off temporaries that later stores leave alone. */
  lemma SccLater(op: SOp, k: nat, m: Machine, m': Machine, i: nat, scc: bool)
    requires i < |m.lanes| && TempsKept(m, m', k + 3) && Direct(op) && SccFaithful(op)
    requires EvalU(T(k + 2), m, i) == ScalarValue(op, EvalU(T(k), m, i), EvalU(T(k + 1), m, i), scc)
    ensures SccExprOf(op, T(k), T(k + 1), T(k + 2)).Some? ==>
      (EvalB(SccExprOf(op, T(k), T(k + 1), T(k + 2)).value, m', i)
       <==> ScalarScc(op, EvalU(T(k), m, i), EvalU(T(k + 1), m, i), scc))
    ensures SccExprOf(op, T(k), T(k + 1), T(k + 2)).None? ==>
      ScalarScc(op, EvalU(T(k), m, i), EvalU(T(k + 1), m, i), scc) == scc
  {
    hide EvalU, EvalI, EvalL, EvalB, Wrap32, ScalarValue, ScalarScc, SccExprOf;
    KeptTemp(k, m, m', k + 3, i);
    KeptTemp(k + 1, m, m', k + 3, i);
    KeptTemp(k + 2, m, m', k + 3, i);
    SccMeaning(op, T(k), T(k + 1), T(k + 2), m', i, scc);
  }

  function Operands(src: seq<Operand>, k: nat): seq<Stmt>
    requires |src| >= 2
  {
    [Let(k, Raw(0, src, Plain)), Let(k + 1, Raw(1, src, Plain))]
  }

  /** Temporary k holds x in every lane. */
  ghost predicate HoldsAll(m: Machine, k: nat, x: U32) {
    |m.lanes| == LANES && forall i: nat :: i < LANES ==> EvalU(T(k), m, i) == x
  }

  lemma DirectPrepared(op: SOp, src: seq<Operand>, k: nat, m: Machine, w: Wave)
    requires Relates(m, w) && ScalarSourcesOk(src, 2) && Direct(op) && (op.SLshlAdd? ==> op.n < 32)
    ensures var m' := Run(Operands(src, k) + [Let(k + 2, ScalarExprOf(op, T(k), T(k + 1)))], m);
      var x, y := Uniform(0, src, w), Uniform(1, src, w);
      Relates(m', w) && HoldsAll(m', k, x) && HoldsAll(m', k + 1, y)
        && HoldsAll(m', k + 2, ScalarValue(op, x, y, w.scc))
  {
    hide Bit, EvalU, EvalI, EvalL, EvalB, Wrap32, Raw, Uniform, Step, StepLane, ScalarValue, ScalarExprOf;
    var e := ScalarExprOf(op, T(k), T(k + 1));
    UniformTemps(src, k, m, w);
    NextTemp(Operands(src, k), k + 2, e, m, w);
    var m1, m2, k1, k2 := Run(Operands(src, k), m), Run(Operands(src, k) + [Let(k + 2, e)], m), k + 1, k + 2;
    forall i: nat | i < LANES ensures EvalU(T(k), m2, i) == Uniform(0, src, w) {
      KeptTemp(k, m1, m2, k2, i);
    }
    forall i: nat | i < LANES ensures EvalU(T(k1), m2, i) == Uniform(1, src, w) {
      assert EvalU(T(k), m1, i) == Uniform(0, src, w);
      KeptTemp(k1, m1, m2, k2, i);
    }
    forall i: nat | i < LANES
      ensures EvalU(T(k2), m2, i) == ScalarValue(op, Uniform(0, src, w), Uniform(1, src, w), w.scc) {
      assert LaneMatches(m1.lanes[i], w, i);
      DirectMeaning(op, T(k), T(k + 1), m1, i);
    }
  }

  lemma DirectRelates(op: SOp, dst: nat, src: seq<Operand>, k: nat, m: Machine, w: Wave)
    requires Relates(m, w) && AsWritten(ScalarOp(op, dst, src)) && Direct(op) && SccFaithful(op)
    ensures Relates(Run(EmitScalar(op, dst, src, k), m), ExecuteScalar(op, dst, src, w))
  {
    hide Bit, EvalU, EvalI, EvalL, EvalB, Wrap32, StoreScalar, WriteScalar, Raw, Uniform, Step, StepLane;
    hide ScalarValue, ScalarScc, ScalarExprOf, SccExprOf, Operands;
    var code := Operands(src, k) + [Let(k + 2, ScalarExprOf(op, T(k), T(k + 1)))];
    var c := SccExprOf(op, T(k), T(k + 1), T(k + 2));
    EmitDirect(op, dst, src, k);
    DirectPrepared(op, src, k, m, w);
    var m2, x, y, k2 := Run(code, m), Uniform(0, src, w), Uniform(1, src, w), k + 2;
    var value, scc := ScalarValue(op, x, y, w.scc), ScalarScc(op, x, y, w.scc);
    if c.Some? {
      forall i: nat, m': Machine | i < LANES && TempsKept(m2, m', k2 + 1) ensures EvalB(c.value, m', i) <==> scc {
        SccLater(op, k, m2, m', i, w.scc);
      }
      ResultThenScc(code, dst, k2, c.value, m, w, value, scc);
    } else {
      KeptItself(m2, k + 3);
      SccLater(op, k, m2, m2, 0, w.scc);
      assert EvalU(T(k), m2, 0) == x && EvalU(T(k + 1), m2, 0) == y;
      assert code + StoreScalar(dst, T(k2), k2 + 1) + [] == code + StoreScalar(dst, T(k2), k2 + 1);
      RunAppend(code, StoreScalar(dst, T(k2), k2 + 1), m);
      StoreScalarRelates(dst, T(k2), k2 + 1, m2, w, value);
    }
  }

  lemma KeptItself(m: Machine, k: nat)
    ensures TempsKept(m, m, k)
  {
  }

  lemma EmitDirect(op: SOp, dst: nat, src: seq<Operand>, k: nat)
    requires |src| >= 2 && Direct(op)
    ensures var code := Operands(src, k) + [Let(k + 2, ScalarExprOf(op, T(k), T(k + 1)))];
      var c := SccExprOf(op, T(k), T(k + 1), T(k + 2));
      EmitScalar(op, dst, src, k)
      == code + StoreScalar(dst, T(k + 2), k + 3) + (if c.Some? then [SetScc(c.value)] else [])
  {
    hide StoreScalar, ScalarExprOf, SccExprOf, Raw;
  }

  // ---- opcodes with further temporaries ----

  lemma AddcScalarRelates(dst: nat, src: seq<Operand>, k: nat, m: Machine, w: Wave)
    requires Relates(m, w) && ScalarSourcesOk(src, 2)
    ensures Relates(Run(EmitScalar(SAddc, dst, src, k), m), ExecuteScalar(SAddc, dst, src, w))
  {
    hide Bit, EvalU, EvalI, EvalL, EvalB, Wrap32, StoreScalar, WriteScalar, Raw, Uniform, Step, StepLane, FlagExpr;
    var lets := Operands(src, k);
    var e2, e3 := Add(T(k), T(k + 1)), Add(T(k + 2), FlagExpr(Scc));
    var code2 := lets + [Let(k + 2, e2)];
    var code := code2 + [Let(k + 3, e3)];
    UniformTemps(src, k, m, w);
    NextTemp(lets, k + 2, e2, m, w);
    NextTemp(code2, k + 3, e3, m, w);
    var m1, m2, m3, k3 := Run(lets, m), Run(code2, m), Run(code, m), k + 3;
    var x, y := Uniform(0, src, w), Uniform(1, src, w);
    var c := BOr(Cmp(Lt, T(k + 2), T(k)), Cmp(Lt, T(k + 3), T(k + 2)));
    forall i: nat | i < LANES
      ensures EvalU(T(k3), m3, i) == ScalarValue(SAddc, x, y, w.scc)
        && (EvalB(c, m3, i) <==> ScalarScc(SAddc, x, y, w.scc))
    {
      assert LaneMatches(m2.lanes[i], w, i);
      SccRead(m2, i);
      FlagMeaning(Scc, m2, i);
      EvBin(AddOp, T(k), T(k + 1), m1, i);
      EvBin(AddOp, T(k + 2), FlagExpr(Scc), m2, i);
      KeptTemp(k, m1, m2, k + 2, i);
      KeptTemp(k, m2, m3, k + 3, i);
      KeptTemp(k + 2, m2, m3, k + 3, i);
      EvB(m3, i);
      AddCarryValue(x, y, Flag(w.scc));
    }
    SccThenResult(code, dst, k3, c, m, w, ScalarValue(SAddc, x, y, w.scc), ScalarScc(SAddc, x, y, w.scc));
  }

  lemma SubbScalarRelates(dst: nat, src: seq<Operand>, k: nat, m: Machine, w: Wave)
    requires Relates(m, w) && ScalarSourcesOk(src, 2)
    ensures Relates(Run(EmitScalar(SSubb, dst, src, k), m), ExecuteScalar(SSubb, dst, src, w))
  {
    hide Bit, EvalU, EvalI, EvalL, EvalB, Wrap32, StoreScalar, WriteScalar, Raw, Uniform, Step, StepLane, FlagExpr;
    var lets := Operands(src, k);
    var e2, e3, e4 := FlagExpr(Scc), Sub(T(k), T(k + 1)), Sub(T(k + 3), T(k + 2));
    var code2 := lets + [Let(k + 2, e2)];
    var code3 := code2 + [Let(k + 3, e3)];
    var code := code3 + [Let(k + 4, e4)];
    UniformTemps(src, k, m, w);
    NextTemp(lets, k + 2, e2, m, w);
    NextTemp(code2, k + 3, e3, m, w);
    NextTemp(code3, k + 4, e4, m, w);
    var m1, m2, m3, m4, k4 := Run(lets, m), Run(code2, m), Run(code3, m), Run(code, m), k + 4;
    var x, y := Uniform(0, src, w), Uniform(1, src, w);
    var c := BOr(Cmp(Gt, T(k + 1), T(k)), BAnd(Cmp(Eq, T(k + 2), Lit(1)), Cmp(Eq, T(k + 1), T(k))));
    forall i: nat | i < LANES
      ensures EvalU(T(k4), m4, i) == ScalarValue(SSubb, x, y, w.scc)
        && (EvalB(c, m4, i) <==> ScalarScc(SSubb, x, y, w.scc))
    {
      assert LaneMatches(m1.lanes[i], w, i);
      SccRead(m1, i);
      FlagMeaning(Scc, m1, i);
      SubbTemps(k, m1, m2, m3, m4, i);
      EvBin(SubOp, T(k), T(k + 1), m2, i);
      EvBin(SubOp, T(k + 3), T(k + 2), m3, i);
      EvB(m4, i);
      EvLit(1, m4, i);
      SubBorrowValue(x, y, Flag(w.scc));
    }
    SccThenResult(code, dst, k4, c, m, w, ScalarValue(SSubb, x, y, w.scc), ScalarScc(SSubb, x, y, w.scc));
  }

  /** Which temporaries still hold what they held, step by step. */
  lemma SubbTemps(k: nat, m1: Machine, m2: Machine, m3: Machine, m4: Machine, i: nat)
    requires TempsKept(m1, m2, k + 2) && TempsKept(m2, m3, k + 3) && TempsKept(m3, m4, k + 4) && i < |m1.lanes|
    ensures EvalU(T(k), m2, i) == EvalU(T(k), m1, i) && EvalU(T(k + 1), m2, i) == EvalU(T(k + 1), m1, i)
    ensures EvalU(T(k), m4, i) == EvalU(T(k), m1, i) && EvalU(T(k + 1), m4, i) == EvalU(T(k + 1), m1, i)
    ensures EvalU(T(k + 2), m3, i) == EvalU(T(k + 2), m2, i) && EvalU(T(k + 2), m4, i) == EvalU(T(k + 2), m2, i)
  {
    hide EvalU, EvalL, EvalB, TempKept;
    KeptTemp(k, m1, m2, k + 2, i);
    KeptTemp(k, m2, m3, k + 3, i);
    KeptTemp(k, m3, m4, k + 4, i);
    KeptTemp(k + 1, m1, m2, k + 2, i);
    KeptTemp(k + 1, m2, m3, k + 3, i);
    KeptTemp(k + 1, m3, m4, k + 4, i);
    KeptTemp(k + 2, m2, m3, k + 3, i);
    KeptTemp(k + 2, m3, m4, k + 4, i);
  }

  function FieldExpr(op: SOp, k: nat): UExpr
    requires op.SBfeU? || op.SBfeI?
  {
    Cond(Cmp(Eq, T(k + 3), Lit(0)), Lit(0),
         if op.SBfeI? then FromInt(IExtractBits(AsInt(T(k)), T(k + 2), T(k + 3)))
         else ExtractBits(T(k), T(k + 2), T(k + 3)))
  }

  lemma FieldExprMeaning(op: SOp, k: nat, m: Machine, i: nat, x: U32, y: U32, scc: bool)
    requires i < |m.lanes| && (op.SBfeU? || op.SBfeI?)
    requires EvalU(T(k), m, i) == x && EvalU(T(k + 2), m, i) == y % 32
      && EvalU(T(k + 3), m, i) == FieldWidth(y, y % 32, 32)
    ensures EvalU(FieldExpr(op, k), m, i) == ScalarValue(op, x, y, scc)
  {
    hide EvalU, EvalI, EvalL, EvalB, Wrap32, Field, FieldSigned, Lows, Shr;
    if op.SBfeU? { BfeUMeaning(T(k), T(k + 2), T(k + 3), m, i); } else { BfeIMeaning(T(k), T(k + 2), T(k + 3), m, i); }
  }

  lemma BfeRelates(op: SOp, dst: nat, src: seq<Operand>, k: nat, m: Machine, w: Wave)
    requires Relates(m, w) && ScalarSourcesOk(src, 2) && (op.SBfeU? || op.SBfeI?)
    ensures Relates(Run(EmitScalar(op, dst, src, k), m), ExecuteScalar(op, dst, src, w))
  {
    hide Bit, EvalU, EvalI, EvalL, EvalB, Wrap32, StoreScalar, WriteScalar, Raw, Uniform, Step, StepLane, Five,
         FieldWidth;
    hide ScalarValue, NonZero;
    var lets := Operands(src, k);
    var e2, e3 := Five(T(k + 1)), Min(And(ShiftR(T(k + 1), Lit(16)), Lit(0x7F)), Sub(Lit(32), T(k + 2)));
    var e4 := FieldExpr(op, k);
    var code2 := lets + [Let(k + 2, e2)];
    var code3 := code2 + [Let(k + 3, e3)];
    var code := code3 + [Let(k + 4, e4)];
    UniformTemps(src, k, m, w);
    NextTemp(lets, k + 2, e2, m, w);
    NextTemp(code2, k + 3, e3, m, w);
    NextTemp(code3, k + 4, e4, m, w);
    var m1, m2, m3, m4, k4 := Run(lets, m), Run(code2, m), Run(code3, m), Run(code, m), k + 4;
    var x, y := Uniform(0, src, w), Uniform(1, src, w);
    var value := ScalarValue(op, x, y, w.scc);
    forall i: nat | i < LANES ensures EvalU(T(k4), m4, i) == value {
      BfeTemps(k, m1, m2, m3, i);
      FiveMeaning(T(k + 1), m1, i);
      WidthMeaning(T(k + 1), T(k + 2), 32, m2, i);
      FieldExprMeaning(op, k, m3, i, x, y, w.scc);
    }
    forall i: nat, m': Machine | i < LANES && TempsKept(m4, m', k4 + 1)
      ensures EvalB(NonZero(T(k4)), m', i) <==> value != 0 {
      KeptTemp(k4, m4, m', k4 + 1, i);
      NonZeroMeaning(T(k4), m', i);
    }
    ResultThenScc(code, dst, k4, NonZero(T(k4)), m, w, value, value != 0);
    FieldScc(op, x, y, w.scc);
  }

  lemma FieldScc(op: SOp, x: U32, y: U32, scc: bool)
    requires op.SBfeU? || op.SBfeI?
    ensures ScalarScc(op, x, y, scc) <==> ScalarValue(op, x, y, scc) != 0
  {
    hide ScalarValue;
  }

  lemma BfeTemps(k: nat, m1: Machine, m2: Machine, m3: Machine, i: nat)
    requires TempsKept(m1, m2, k + 2) && TempsKept(m2, m3, k + 3) && i < |m1.lanes|
    ensures EvalU(T(k), m3, i) == EvalU(T(k), m1, i) && EvalU(T(k + 1), m2, i) == EvalU(T(k + 1), m1, i)
    ensures EvalU(T(k + 2), m3, i) == EvalU(T(k + 2), m2, i)
  {
    hide EvalU, EvalL, EvalB, TempKept;
    KeptTemp(k, m1, m2, k + 2, i);
    KeptTemp(k, m2, m3, k + 3, i);
    KeptTemp(k + 1, m1, m2, k + 2, i);
    KeptTemp(k + 2, m2, m3, k + 3, i);
  }

  /** Every two-operand scalar instruction whose condition bit is treated faithfully. */
  lemma ScalarRelates(op: SOp, dst: nat, src: seq<Operand>, k: nat, m: Machine, w: Wave)
    requires Relates(m, w) && AsWritten(ScalarOp(op, dst, src)) && SccFaithful(op)
    ensures Relates(Run(Emit(ScalarOp(op, dst, src), k), m), Execute(ScalarOp(op, dst, src), w))
  {
    hide Bit, EvalU, EvalI, EvalL, EvalB, Wrap32, EmitScalar, ExecuteScalar, LaneMatches, Run, WellFormed;
    match op
    case SAddc => AddcScalarRelates(dst, src, k, m, w);
    case SSubb => SubbScalarRelates(dst, src, k, m, w);
    case SBfeU | SBfeI => BfeRelates(op, dst, src, k, m, w);
    case _ => DirectRelates(op, dst, src, k, m, w);
  }
}
