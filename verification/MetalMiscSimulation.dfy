/** The remaining 32-bit scalar instructions: one operand, immediates, compares and saveexec. Where
    the emitted code's condition bit is not the instruction set's, the lemma says what it becomes. */
module MetalMiscSimulation {
  import opened Bits
  import opened Gen5Isa
  import opened MetalEmission
  import opened MetalLaneSimulation
  import opened MetalMeaning
  import opened MetalRelation
  import opened MetalScalarMeaning
  import opened MetalScalarSimulation
  import opened MetalTarget
  import opened MetalVectorSimulation
  import opened Words

  // ---- one operand ----

  lemma UnaryWordRight(op: UOp, x: U32, previous: U32)
    ensures op == SNot ==> Not32(x) == UnaryValue(op, x, previous)
    ensures op == SBrev ==> Reverse32(x) == UnaryValue(op, x, previous)
    ensures op == SBitset1 ==> Or32(previous, Low32(Shl(1, x % 32))) == UnaryValue(op, x, previous)
  {
    hide Bit, Not32, Reverse32, Or32, Low32, Shl;
    if op == SNot {
      forall j: nat | j < 32 ensures Bit(Not32(x), j) <==> Bit(UnaryValue(op, x, previous), j) {
        NotBit(x, j);
      }
      SameBits(Not32(x), UnaryValue(op, x, previous));
    } else if op == SBrev {
      SameBits(Reverse32(x), UnaryValue(op, x, previous));
    } else if op == SBitset1 {
      var l, r := Or32(previous, Low32(Shl(1, x % 32))), UnaryValue(op, x, previous);
      forall j: nat | j < 32 ensures Bit(l, j) <==> Bit(r, j) {
        LogicBits(previous, Low32(Shl(1, x % 32)), j);
        ShlBits(1, x % 32, j);
        if j >= x % 32 { BitOfLow(true, j - x % 32); }
      }
      SameBits(l, r);
    }
  }

  lemma UnaryMeaning(op: UOp, x: UExpr, m: Machine, i: nat, previous: U32)
    requires i < |m.lanes| && op != SBitset1
    ensures EvalU(UnaryExprOf(op, x), m, i) == UnaryValue(op, EvalU(x, m, i), previous)
  {
    hide EvalU, EvalI, EvalL, EvalB, Wrap32, Reverse32, PopcountWord, Ctz, Not32;
    EvU(m, i);
    EvB(m, i);
    UnaryWordRight(op, EvalU(x, m, i), previous);
  }

  lemma BitsetMeaning(dst: nat, x: UExpr, m: Machine, w: Wave, i: nat)
    requires Relates(m, w) && i < LANES
    ensures EvalU(Or(ScalarExpr(dst), ShiftL(Lit(1), Five(x))), m, i)
         == UnaryValue(SBitset1, EvalU(x, m, i), ReadScalar(w.s, dst))
  {
    hide EvalU, EvalI, EvalL, EvalB, Wrap32, Low32, Shl, Or32, Five, ShiftL, UnaryValue, ScalarExpr;
    ReadsScalar(dst, m, w, i);
    ShiftLeftMeaning(Lit(1), x, m, i);
    EvLit(1, m, i);
    EvBin(OrOp, ScalarExpr(dst), ShiftL(Lit(1), Five(x)), m, i);
    UnaryWordRight(SBitset1, EvalU(x, m, i), ReadScalar(w.s, dst));
  }

  lemma ReadsScalar(r: nat, m: Machine, w: Wave, i: nat)
    requires Relates(m, w) && i < LANES
    ensures EvalU(ScalarExpr(r), m, i) == ReadScalar(w.s, r)
  {
    hide Bit, Wrap32;
    assert LaneMatches(m.lanes[i], w, i);
  }

  /** What the emitted code leaves in the condition bit. */
  predicate EmittedUnaryScc(op: UOp, x: U32, previous: U32, scc: bool) {
    if op == SMov || op == SBitset1 then scc else UnaryValue(op, x, previous) != 0
  }

  lemma OneUniform(src: seq<Operand>, k: nat, m: Machine, w: Wave)
    requires Relates(m, w) && ScalarSourcesOk(src, 1)
    ensures var m' := Run([Let(k, Raw(0, src, Plain))], m);
      Relates(m', w) && HoldsAll(m', k, Uniform(0, src, w))
  {
    hide Bit, EvalU, EvalI, EvalL, EvalB, Wrap32, Raw, Uniform, Step, StepLane;
    RunOne(Let(k, Raw(0, src, Plain)), m);
    LetU(k, Raw(0, src, Plain), m, w);
    forall i: nat | i < LANES ensures EvalU(Raw(0, src, Plain), m, i) == Uniform(0, src, w) {
      UniformMeaning(0, src, m, w, i);
    }
  }

  lemma UnaryRelates(op: UOp, dst: nat, src: seq<Operand>, k: nat, m: Machine, w: Wave)
    requires Relates(m, w) && ScalarSourcesOk(src, 1)
    ensures Relates(Run(EmitUnary(op, dst, src, k), m),
                    ExecuteUnary(op, dst, src, w).(scc :=
                        EmittedUnaryScc(op, Uniform(0, src, w), ReadScalar(w.s, dst), w.scc)))
  {
    hide Bit, EvalU, EvalI, EvalL, EvalB, Wrap32, StoreScalar, WriteScalar, Raw, Uniform, Step, StepLane, UnaryValue;
    hide UnaryExprOf, NonZero, ReadScalar, Five, ScalarExpr;
    var first := [Let(k, Raw(0, src, Plain))];
    OneUniform(src, k, m, w);
    var m1, x, previous := Run(first, m), Uniform(0, src, w), ReadScalar(w.s, dst);
    var value := UnaryValue(op, x, previous);
    if op == SMov {
      MovValue(x, previous);
      StoreTempRelates(first, dst, k, m, w, value);
    } else if op == SBitset1 {
      var e := Or(ScalarExpr(dst), ShiftL(Lit(1), Five(T(k))));
      forall i: nat | i < LANES ensures EvalU(e, m1, i) == value {
        BitsetMeaning(dst, T(k), m1, w, i);
      }
      RunAppend(first, StoreScalar(dst, e, k + 1), m);
      StoreScalarRelates(dst, e, k + 1, m1, w, value);
    } else {
      var e, code, k1 := UnaryExprOf(op, T(k)), first + [Let(k + 1, UnaryExprOf(op, T(k)))], k + 1;
      NextTemp(first, k + 1, e, m, w);
      var m2 := Run(code, m);
      forall i: nat | i < LANES ensures EvalU(T(k1), m2, i) == value {
        UnaryMeaning(op, T(k), m1, i, previous);
      }
      forall i: nat, m': Machine | i < LANES && TempsKept(m2, m', k1 + 1)
        ensures EvalB(NonZero(T(k1)), m', i) <==> value != 0 {
        KeptTemp(k1, m2, m', k1 + 1, i);
        NonZeroMeaning(T(k1), m', i);
      }
      ResultThenScc(code, dst, k1, NonZero(T(k1)), m, w, value, value != 0);
    }
  }

  lemma MovValue(x: U32, previous: U32)
    ensures UnaryValue(SMov, x, previous) == x
  {
  }

  // ---- immediates ----

  lemma KRelates(op: KOp, dst: nat, simm: nat, k: nat, m: Machine, w: Wave)
    requires Relates(m, w)
    ensures Relates(Run(EmitK(op, dst, simm, k), m), ExecuteK(op, dst, simm, w).(scc := w.scc))
  {
    hide Bit, EvalU, EvalI, EvalL, EvalB, Wrap32, StoreScalar, WriteScalar, Step, StepLane, ScalarExpr,
         ReadScalar, Times;
    hide SignExtend16;
    var immediate, previous := SignExtend16(simm), ReadScalar(w.s, dst);
    var e := match op
      case SMovk => Lit(immediate)
      case SAddk => Add(ScalarExpr(dst), Lit(immediate))
      case SMulk => Mul(ScalarExpr(dst), Lit(immediate));
    var code := [Let(k, e)];
    RunOne(Let(k, e), m);
    LetU(k, e, m, w);
    forall i: nat | i < LANES ensures EvalU(e, m, i) == KValue(op, previous, immediate) {
      ReadsScalar(dst, m, w, i);
      EvLit(immediate, m, i);
      EvBin(AddOp, ScalarExpr(dst), Lit(immediate), m, i);
      EvBin(MulOp, ScalarExpr(dst), Lit(immediate), m, i);
    }
    StoreTempRelates(code, dst, k, m, w, KValue(op, previous, immediate));
  }

  // ---- compares ----

  lemma ScalarCompareRelates(rel: Rel, signed: bool, src: seq<Operand>, k: nat, m: Machine, w: Wave)
    requires Relates(m, w) && ScalarSourcesOk(src, 2)
    ensures Relates(Run(Emit(ScalarCompare(rel, signed, src), k), m), Execute(ScalarCompare(rel, signed, src), w))
  {
    hide Bit, EvalU, EvalI, EvalL, EvalB, Wrap32, Raw, Uniform, Step, StepLane, CompareExpr, CompareWords;
    var lets := [Let(k, Raw(0, src, Plain)), Let(k + 1, Raw(1, src, Plain))];
    var c := CompareExpr(rel, signed, T(k), T(k + 1));
    UniformTemps(src, k, m, w);
    var m1 := Run(lets, m);
    var scc := CompareWords(rel, signed, Uniform(0, src, w), Uniform(1, src, w));
    forall i: nat | i < LANES ensures EvalB(c, m1, i) <==> scc {
      CompareMeaning(rel, signed, T(k), T(k + 1), m1, i);
      assert EvalU(T(k), m1, i) == Uniform(0, src, w);
    }
    RunAppend(lets, [SetScc(c)], m);
    SetSccRelates(c, m1, w, scc);
  }

  /** The emitted compare extends its constant as signed whatever the compare. */
  lemma ScalarCompareKRelates(rel: Rel, signed: bool, dst: nat, simm: nat, k: nat, m: Machine, w: Wave)
    requires Relates(m, w)
    ensures Relates(Run(Emit(ScalarCompareK(rel, signed, dst, simm), k), m),
                    w.(scc := CompareWords(rel, signed, ReadScalar(w.s, dst), SignExtend16(simm))))
  {
    hide Bit, EvalU, EvalI, EvalL, EvalB, Wrap32, Step, StepLane, CompareExpr, CompareWords, ScalarExpr, ReadScalar,
         SignExtend16;
    var c := CompareExpr(rel, signed, ScalarExpr(dst), Lit(SignExtend16(simm)));
    var scc := CompareWords(rel, signed, ReadScalar(w.s, dst), SignExtend16(simm));
    forall i: nat | i < LANES ensures EvalB(c, m, i) <==> scc {
      CompareMeaning(rel, signed, ScalarExpr(dst), Lit(SignExtend16(simm)), m, i);
      ReadsScalar(dst, m, w, i);
      EvLit(SignExtend16(simm), m, i);
    }
    SetSccRelates(c, m, w, scc);
  }

  lemma BitTestMeaning(x: UExpr, y: UExpr, m: Machine, i: nat)
    requires i < |m.lanes|
    ensures EvalB(Cmp(Ne, And(ShiftR(x, Five(y)), Lit(1)), Lit(0)), m, i) <==> Bit(EvalU(x, m, i), EvalU(y, m, i) % 32)
  {
    hide EvalU, EvalI, EvalL, EvalB, Wrap32, BitAnd, Shr, Five, ShiftR;
    var e := And(ShiftR(x, Five(y)), Lit(1));
    ShiftLeftMeaning(x, y, m, i);
    EvBin(AndOp, ShiftR(x, Five(y)), Lit(1), m, i);
    EvLit(1, m, i);
    NonZeroMeaning(e, m, i);
    LowBit(Shr(EvalU(x, m, i), EvalU(y, m, i) % 32));
    BitOfShr(EvalU(x, m, i), EvalU(y, m, i) % 32, 0);
  }

  lemma BitcmpRelates(set1: bool, src: seq<Operand>, k: nat, m: Machine, w: Wave)
    requires Relates(m, w) && ScalarSourcesOk(src, 2)
    ensures Relates(Run(Emit(ScalarBitcmp(set1, src), k), m), Execute(ScalarBitcmp(set1, src), w))
  {
    hide Bit, EvalU, EvalI, EvalL, EvalB, Wrap32, Raw, Uniform, Step, StepLane, Five, And, ShiftR;
    var lets := [Let(k, Raw(0, src, Plain)), Let(k + 1, Raw(1, src, Plain))];
    var isSet := Cmp(Ne, And(ShiftR(T(k), Five(T(k + 1))), Lit(1)), Lit(0));
    var c := if set1 then isSet else BNot(isSet);
    UniformTemps(src, k, m, w);
    var m1 := Run(lets, m);
    var scc := Bit(Uniform(0, src, w), Uniform(1, src, w) % 32) == set1;
    forall i: nat | i < LANES ensures EvalB(c, m1, i) <==> scc {
      assert EvalU(T(k), m1, i) == Uniform(0, src, w);
      BitTestMeaning(T(k), T(k + 1), m1, i);
      EvB(m1, i);
    }
    RunAppend(lets, [SetScc(c)], m);
    SetSccRelates(c, m1, w, scc);
  }

  // ---- saveexec ----

  predicate SameHere(m: Machine, m': Machine, i: nat)
    requires i < |m.lanes|
  {
    |m'.lanes| == |m.lanes| && m'.junk == m.junk && SameTemps(m.lanes[i], m'.lanes[i])
  }

  /** Both halves of EXEC and the cached flag of every lane, after the destination. */
  lemma ExecReplaced(low: UExpr, high: UExpr, m: Machine, w: Wave, mask: U32, rest: U32)
    requires Relates(m, w)
    requires forall i: nat, m': Machine :: i < LANES && SameHere(m, m', i) ==>
      EvalU(low, m', i) == mask && EvalU(high, m', i) == rest
    ensures Relates(Run([SetS(EXEC, low), SetS(EXEC + 1, high)] + [SetExec(LaneBitExpr(low))], m),
                    w.(s := w.s[EXEC := mask][EXEC + 1 := rest]))
    ensures forall i: nat :: i < LANES ==>
      SameTemps(m.lanes[i], Run([SetS(EXEC, low), SetS(EXEC + 1, high)] + [SetExec(LaneBitExpr(low))], m).lanes[i])
  {
    hide Bit, EvalU, EvalI, EvalL, EvalB, Wrap32, LaneBitExpr;
    var two := [SetS(EXEC, low), SetS(EXEC + 1, high)];
    var m1 := Step(SetS(EXEC, low), m);
    var m2 := Step(SetS(EXEC + 1, high), m1);
    var m3 := Step(SetExec(LaneBitExpr(low)), m2);
    RunAppend(two, [SetExec(LaneBitExpr(low))], m);
    RunTwo(SetS(EXEC, low), SetS(EXEC + 1, high), m);
    RunOne(SetExec(LaneBitExpr(low)), m2);
    var w' := w.(s := w.s[EXEC := mask][EXEC + 1 := rest]);
    forall i: nat | i < LANES ensures LaneMatches(m3.lanes[i], w', i) && SameTemps(m.lanes[i], m3.lanes[i]) {
      assert LaneMatches(m.lanes[i], w, i);
      assert SameHere(m, m, i);
      SetSStep(EXEC, low, m, i, w.s);
      SetSStep(EXEC + 1, high, m1, i, w.s[EXEC := mask]);
      assert SameHere(m, m1, i) && SameHere(m, m2, i);
      LaneBitMeaning(low, m2, i);
    }
  }

  /** The emitted code also clears the register above EXEC. */
  function EmittedSaveexec(logic: Logic, dst: nat, src: seq<Operand>, w: Wave): (w': Wave)
    requires WellFormed(w)
    ensures WellFormed(w')
  {
    var after := ExecuteSaveexec(logic, dst, src, w);
    after.(s := after.s[EXEC + 1 := 0])
  }

  lemma SaveexecRelates(logic: Logic, dst: nat, src: seq<Operand>, k: nat, m: Machine, w: Wave)
    requires Relates(m, w) && ScalarSourcesOk(src, 1)
    ensures Relates(Run(EmitSaveexec(logic, dst, src, k), m), EmittedSaveexec(logic, dst, src, w))
  {
    hide Bit, EvalU, EvalI, EvalL, EvalB, Wrap32, Raw, Uniform, Step, StepLane, StoreScalar, WriteScalar, LogicExpr,
         Logic32;
    hide LaneBitExpr, NonZero;
    var e1, e2 := S(EXEC), LogicExpr(logic, T(k), T(k + 1));
    var code1 := [Let(k, Raw(0, src, Plain))] + [Let(k + 1, e1)];
    var code := code1 + [Let(k + 2, e2)];
    SaveexecPrepared(logic, src, k, m, w);
    var m2, k2 := Run(code, m), k + 2;
    var x, saved := Uniform(0, src, w), w.s[EXEC];
    var mask := Logic32(logic, x, saved);
    var store := StoreScalar(dst, T(k + 1), k + 3);
    var m3 := Run(store, m2);
    var w3 := w.(s := WriteScalar(w.s, dst, saved));
    StoreScalarRelates(dst, T(k + 1), k + 3, m2, w, saved);
    forall i: nat, m': Machine | i < LANES && SameHere(m3, m', i)
      ensures EvalU(T(k2), m', i) == mask && EvalU(Lit(0), m', i) == 0
    {
      KeptTemp(k2, m2, m3, k + 3, i);
      EvTemps(k2, m3, i);
      EvTemps(k2, m', i);
      EvLit(0, m', i);
    }
    ExecReplaced(T(k2), Lit(0), m3, w3, mask, 0);
    var write := [SetS(EXEC, T(k2)), SetS(EXEC + 1, Lit(0))] + [SetExec(LaneBitExpr(T(k2)))];
    var m4 := Run(write, m3);
    forall i: nat | i < LANES ensures EvalB(NonZero(T(k2)), m4, i) <==> mask != 0 {
      assert SameHere(m3, m4, i);
      NonZeroMeaning(T(k2), m4, i);
    }
    SetSccRelates(NonZero(T(k2)), m4, w3.(s := w3.s[EXEC := mask][EXEC + 1 := 0]), mask != 0);
    SaveexecCode(logic, dst, src, k);
    RunAppend(code + store + write, [SetScc(NonZero(T(k2)))], m);
    RunAppend(code + store, write, m);
    RunAppend(code, store, m);
  }

  lemma SaveexecCode(logic: Logic, dst: nat, src: seq<Operand>, k: nat)
    requires |src| >= 1
    ensures EmitSaveexec(logic, dst, src, k)
      == [Let(k, Raw(0, src, Plain))] + [Let(k + 1, S(EXEC))] + [Let(k + 2, LogicExpr(logic, T(k), T(k + 1)))]
         + StoreScalar(dst, T(k + 1), k + 3)
         + ([SetS(EXEC, T(k + 2)), SetS(EXEC + 1, Lit(0))] + [SetExec(LaneBitExpr(T(k + 2)))])
         + [SetScc(NonZero(T(k + 2)))]
  {
    hide Raw, LogicExpr, StoreScalar, LaneBitExpr, NonZero;
  }

  lemma SaveexecPrepared(logic: Logic, src: seq<Operand>, k: nat, m: Machine, w: Wave)
    requires Relates(m, w) && ScalarSourcesOk(src, 1)
    ensures var m' :=
      Run([Let(k, Raw(0, src, Plain))] + [Let(k + 1, S(EXEC))] + [Let(k + 2, LogicExpr(logic, T(k), T(k + 1)))], m);
      && Relates(m', w) && HoldsAll(m', k + 1, w.s[EXEC])
      && HoldsAll(m', k + 2, Logic32(logic, Uniform(0, src, w), w.s[EXEC]))
  {
    hide Bit, EvalU, EvalI, EvalL, EvalB, Wrap32, Raw, Uniform, Step, StepLane, LogicExpr, Logic32;
    var first, e1, e2 := [Let(k, Raw(0, src, Plain))], S(EXEC), LogicExpr(logic, T(k), T(k + 1));
    OneUniform(src, k, m, w);
    NextTemp(first, k + 1, e1, m, w);
    NextTemp(first + [Let(k + 1, e1)], k + 2, e2, m, w);
    var m0, m1, m2, k1, k2 := Run(first, m), Run(first + [Let(k + 1, e1)], m),
      Run(first + [Let(k + 1, e1)] + [Let(k + 2, e2)], m), k + 1, k + 2;
    forall i: nat | i < LANES ensures EvalU(T(k1), m1, i) == w.s[EXEC] {
      ReadsExec(m0, w, i);
    }
    forall i: nat | i < LANES ensures EvalU(T(k1), m2, i) == w.s[EXEC] {
      KeptTemp(k1, m1, m2, k2, i);
    }
    forall i: nat | i < LANES ensures EvalU(T(k2), m2, i) == Logic32(logic, Uniform(0, src, w), w.s[EXEC]) {
      KeptTemp(k, m0, m1, k1, i);
      LogicMeaning(logic, T(k), T(k1), m1, i);
    }
  }

  lemma ReadsExec(m: Machine, w: Wave, i: nat)
    requires Relates(m, w) && i < LANES
    ensures EvalU(S(EXEC), m, i) == w.s[EXEC]
  {
    hide Bit, Wrap32;
    assert LaneMatches(m.lanes[i], w, i);
  }
}
