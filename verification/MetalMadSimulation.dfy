/** The 32 by 32 plus 64 bit multiply-add into a register pair, with its carry. */
module MetalMadSimulation {
  import opened Bits
  import opened Gen5Isa
  import opened Metal64Meaning
  import opened Metal64Simulation
  import opened MetalEmission
  import opened MetalMeaning
  import opened MetalRelation
  import opened MetalTarget
  import opened MetalVectorSimulation
  import opened Words

  /** A sum modulo 2^64 is below an addend exactly when it wrapped. */
  lemma WideSum(p: U64, a: U64)
    ensures Wrap64(p + a) < a <==> p + a >= TWO64
    ensures Wrap64(p + a) % TWO32 == Wrap32(p + a)
  {
  }

  lemma SmallWrap64(x: nat)
    requires x < TWO64
    ensures Wrap64(x) == x
  {
  }

  /** The wide sum of a lane, as the temporaries hold it. */
  ghost predicate MadReady(src: seq<Operand>, control: Control, k: nat, m: Machine, w: Wave, i: nat)
    requires WellFormed(w) && i < LANES && |src| > 2
  {
    && |m.lanes| == LANES && EvalL(LT(k + 1), m, i) == Source64(src[2], w, i)
    && EvalL(LT(k + 2), m, i) == Wrap64(MadWide(src, control, w, i))
  }

  lemma ProductMeaning(a: UExpr, b: UExpr, m: Machine, i: nat)
    requires i < |m.lanes|
    ensures EvalL(LMul(Wide(a), Wide(b)), m, i) == Times(EvalU(a, m, i), EvalU(b, m, i))
  {
    hide EvalU, EvalI, EvalL, EvalB, Wrap64, Times, Shl, Shr, BitAnd, Or64, Xor64;
    EvL(m, i);
    ProductFits(EvalU(a, m, i), EvalU(b, m, i));
    SmallWrap64(Times(EvalU(a, m, i), EvalU(b, m, i)));
  }

  lemma MadPrepared(src: seq<Operand>, control: Control, k: nat, m: Machine, w: Wave)
    requires Relates(m, w) && SourcesOk(src, 3) && PairOk(src[2]) && !control.SdwaControl?
    ensures var m' := Run(MadCode(src, control, k), m);
      Relates(m', w) && forall i: nat :: i < LANES ==> MadReady(src, control, k, m', w, i)
  {
    hide Bit, EvalU, EvalI, EvalL, EvalB, Wrap32, Wrap64, Raw64, Raw, Source64, SourceOrZero, Step, StepLane,
         Times, LMul;
    var e0, e1, e2 :=
      LMul(Wide(Raw(0, src, control)), Wide(Raw(1, src, control))), Raw64(src[2]), LAdd(LT(k), LT(k + 1));
    var c0 := [LetL(k, e0)];
    var c1 := c0 + [LetL(k + 1, e1)];
    var c2 := c1 + [LetL(k + 2, e2)];
    var m0, m1, m2 := Run(c0, m), Run(c1, m), Run(c2, m);
    RunOne(LetL(k, e0), m);
    LetWide(k, e0, m, w);
    NextWide(c0, k + 1, e1, m, w);
    NextWide(c1, k + 2, e2, m, w);
    forall i: nat | i < LANES ensures MadReady(src, control, k, m2, w, i) {
      RawMeaning(0, src, control, m, w, i);
      RawMeaning(1, src, control, m, w, i);
      ProductMeaning(Raw(0, src, control), Raw(1, src, control), m, i);
      Raw64Meaning(src[2], m0, w, i);
      KeptWide(k, m0, m1, k + 1, i);
      KeptWide(k + 1, m1, m2, k + 2, i);
      SumMeaning(LT(k), LT(k + 1), m1, i);
    }
  }

  lemma SumMeaning(p: LExpr, q: LExpr, m: Machine, i: nat)
    requires i < |m.lanes|
    ensures EvalL(LAdd(p, q), m, i) == Wrap64(EvalL(p, m, i) + EvalL(q, m, i))
  {
    hide EvalU, EvalI, EvalL, EvalB, Wrap64, Times, Shl, Shr, BitAnd, Or64, Xor64;
    EvL(m, i);
  }

  function MadCode(src: seq<Operand>, control: Control, k: nat): seq<Stmt>
    requires |src| >= 3
  {
    [LetL(k, LMul(Wide(Raw(0, src, control)), Wide(Raw(1, src, control))))] + [LetL(k + 1, Raw64(src[2]))]
    + [LetL(k + 2, LAdd(LT(k), LT(k + 1)))]
  }

  lemma MadCodeIs(dst: nat, src: seq<Operand>, control: Control, k: nat)
    requires |src| >= 3
    ensures EmitMadU64(dst, src, control, k)
      == MadCode(src, control, k) + StoreCarryOut(control, LCmp(Lt, LT(k + 2), LT(k + 1)), k + 3)
         + StoreVector(dst + 1, LowHalf(LShiftR(LT(k + 2), Wide(Lit(32)))), true)
         + [Let(k + 4, LowHalf(LT(k + 2)))] + StoreResult(control, dst, k + 4)
  {
    hide StoreCarryOut, StoreVector, StoreResult, Raw, Raw64, LMul, LAdd, LShiftR;
  }

  /** What the emitted code does: the mask first, then both words in the lanes enabled by then. */
  function EmittedMad(dst: nat, src: seq<Operand>, control: Control, w: Wave): (w': Wave)
    requires WellFormed(w) && |src| > 2
    ensures WellFormed(w')
  {
    var w1 := w.(s := EmittedMask(w.s, MaskTarget(control), MadMask(src, control, w)));
    WriteLanes(WriteLanes(w1, dst + 1, MadHigh(src, control, w)), dst, MadLow(src, control, w))
  }

  lemma MadRelates(dst: nat, src: seq<Operand>, control: Control, k: nat, m: Machine, w: Wave)
    requires Relates(m, w) && AsWritten(VMadU64(dst, src, control)) && FlagsSpared(w.s, MaskTarget(control))
    ensures Relates(Run(EmitMadU64(dst, src, control, k), m), EmittedMad(dst, src, control, w))
  {
    hide Bit, EvalU, EvalI, EvalL, EvalB, Wrap32, Wrap64, Step, StepLane, StoreCarryOut, StoreVector, StoreResult,
         LShiftR;
    hide MadCode, MadWide, Source64, EmittedMask, WriteLanes;
    var carry := LCmp(Lt, LT(k + 2), LT(k + 1));
    var high, low := LowHalf(LShiftR(LT(k + 2), Wide(Lit(32)))), LowHalf(LT(k + 2));
    var c0 := MadCode(src, control, k);
    var c1, c2, c3 := StoreCarryOut(control, carry, k + 3), StoreVector(dst + 1, high, true), [Let(k + 4, low)];
    var c4 := StoreResult(control, dst, k + 4);
    MadPrepared(src, control, k, m, w);
    var m0 := Run(c0, m);
    var mask := MadMask(src, control, w);
    forall j: nat ensures Bit(mask, j) <==> j < LANES && ExecAt(w, j) && EvalB(carry, m0, j) {
      if j < LANES { MadLane(src, control, k, m0, m0, w, j); }
    }
    StoreCarryRelates(control, carry, k + 3, m0, w, mask);
    var m1, w1 := Run(c1, m0), w.(s := EmittedMask(w.s, MaskTarget(control), mask));
    forall i: nat | i < LANES ensures EvalU(high, m1, i) == MadHigh(src, control, w)(i) {
      MadLane(src, control, k, m0, m1, w, i);
    }
    StoreVectorRelates(dst + 1, high, m1, w1, MadHigh(src, control, w));
    var m2, w2 := Run(c2, m1), WriteLanes(w1, dst + 1, MadHigh(src, control, w));
    assert TempsKept(m1, m2, k + 3);
    KeptTwice(m0, m1, m2, k + 3, k + 3);
    RunOne(Let(k + 4, low), m2);
    LetU(k + 4, low, m2, w2);
    var m3, g := Run(c3, m2), MadLow(src, control, w);
    forall i: nat | i < LANES ensures EvalU(T(k + 4), m3, i) == g(i) && g(i) == Merge(control, g(i), w2.v[i][dst]) {
      MadLane(src, control, k, m0, m2, w, i);
    }
    StoreResultRelates(control, dst, k + 4, m3, w2, g, g);
    MadCodeIs(dst, src, control, k);
    RunFive(c0, c1, c2, c3, c4, m);
  }

  /** What a lane's wide sum gives the carry and the two words, wherever the temporaries are kept. */
  lemma MadLane(src: seq<Operand>, control: Control, k: nat, m: Machine, m': Machine, w: Wave, i: nat)
    requires WellFormed(w) && i < LANES && |src| > 2 && MadReady(src, control, k, m, w, i)
      && (m' == m || TempsKept(m, m', k + 3))
    ensures EvalB(LCmp(Lt, LT(k + 2), LT(k + 1)), m, i) <==> MadWide(src, control, w, i) >= TWO64
    ensures |m'.lanes| == LANES
    ensures EvalU(LowHalf(LT(k + 2)), m', i) == Wrap32(MadWide(src, control, w, i))
    ensures EvalU(LowHalf(LShiftR(LT(k + 2), Wide(Lit(32)))), m', i) == Wrap64(MadWide(src, control, w, i)) / TWO32
  {
    hide EvalU, EvalI, EvalL, EvalB, Wrap32, Wrap64, Source64, SourceOrZero, Times, LShiftR;
    EvB(m, i);
    if m' != m { KeptWide(k + 2, m, m', k + 3, i); }
    HalvesMeaning(LT(k + 2), m', i);
    ProductFits(SourceOrZero(0, src, control, w, i), SourceOrZero(1, src, control, w, i));
    WideSum(Times(SourceOrZero(0, src, control, w, i), SourceOrZero(1, src, control, w, i)), Source64(src[2], w, i));
  }

  lemma RunFive(c0: seq<Stmt>, c1: seq<Stmt>, c2: seq<Stmt>, c3: seq<Stmt>, c4: seq<Stmt>, m: Machine)
    ensures Run(c0 + c1 + c2 + c3 + c4, m) == Run(c4, Run(c3, Run(c2, Run(c1, Run(c0, m)))))
  {
    hide Run;
    RunAppend(c0 + c1 + c2 + c3, c4, m);
    RunAppend(c0 + c1 + c2, c3, m);
    RunAppend(c0 + c1, c2, m);
    RunAppend(c0, c1, m);
  }
}
