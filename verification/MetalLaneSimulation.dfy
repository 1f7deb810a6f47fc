/** Compares and cross-lane moves: running what is emitted does to the lanes what the instruction
    does to the wave. */
module MetalLaneSimulation {
  import opened Bits
  import opened Gen5Isa
  import opened MetalEmission
  import opened MetalMeaning
  import opened MetalRelation
  import opened MetalTarget
  import opened MetalVectorSimulation
  import opened Words

  // ---- compares ----

  lemma CompareMeaning(rel: Rel, signed: bool, x: UExpr, y: UExpr, m: Machine, i: nat)
    requires i < |m.lanes|
    ensures EvalB(CompareExpr(rel, signed, x, y), m, i) <==> CompareWords(rel, signed, EvalU(x, m, i), EvalU(y, m, i))
  {
    hide EvalU, EvalI, EvalL, EvalB, AsSigned, Compare;
    EvB(m, i);
    EvI(m, i);
  }

  /** The active lanes that pass become the new mask. */
  lemma StoreConditionRelates(condition: BExpr, r: nat, k: nat, m: Machine, w: Wave, mask: U32)
    requires Relates(m, w) && FlagsSpared(w.s, r)
    requires forall j: nat :: Bit(mask, j) <==> j < LANES && ExecAt(w, j) && EvalB(condition, m, j)
    ensures Relates(Run([LetB(k, BAnd(Exec, condition))] + StoreMask(r, BT(k)), m), w.(s := EmittedMask(w.s, r, mask)))
  {
    hide Bit, EvalU, EvalI, EvalL, EvalB, Wrap32, StoreMask;
    var st := LetB(k, BAnd(Exec, condition));
    LetBool(k, BAnd(Exec, condition), m, w);
    RunCons(st, StoreMask(r, BT(k)), m);
    var m1 := Step(st, m);
    forall j: nat ensures Bit(mask, j) <==> j < LANES && EvalB(BT(k), m1, j) {
      if j < LANES { ActiveMeaning(condition, m, w, j); }
    }
    StoreMaskRelates(r, k, m1, w, mask);
  }

  /** The register a compare's mask goes to. */
  function MaskDestination(toExec: bool, control: Control): nat {
    if toExec then EXEC else CompareTarget(control)
  }

  lemma EmitCompareIs(condition: BExpr, toExec: bool, control: Control, k: nat)
    ensures EmitCompare(condition, toExec, control, k)
         == [LetB(k, BAnd(Exec, condition))] + StoreMask(MaskDestination(toExec, control), BT(k))
  {
  }

  lemma CompareRelates(rel: Rel, signed: bool, toExec: bool, src: seq<Operand>, control: Control, k: nat, m: Machine,
      w: Wave)
    requires Relates(m, w) && SourcesOk(src, 2) && ControlOk(control)
      && FlagsSpared(w.s, MaskDestination(toExec, control))
    ensures Relates(Run(EmitCompare(CompareExpr(rel, signed, Raw(0, src, control), Raw(1, src, control)), toExec,
                                    control, k), m),
                    w.(s := EmittedMask(w.s, MaskDestination(toExec, control),
                                        CompareMask(rel, signed, src, control, w))))
  {
    hide Bit, EvalU, EvalI, EvalL, EvalB, Wrap32, StoreMask, EmitCompare, Raw, SourceOrZero, CompareExpr, EmittedMask,
         CompareWords;
    var condition := CompareExpr(rel, signed, Raw(0, src, control), Raw(1, src, control));
    var mask := CompareMask(rel, signed, src, control, w);
    forall j: nat ensures Bit(mask, j) <==> j < LANES && ExecAt(w, j) && EvalB(condition, m, j) {
      if j < LANES {
        CompareMeaning(rel, signed, Raw(0, src, control), Raw(1, src, control), m, j);
        RawMeaning(0, src, control, m, w, j);
        RawMeaning(1, src, control, m, w, j);
      }
    }
    EmitCompareIs(condition, toExec, control, k);
    StoreConditionRelates(condition, MaskDestination(toExec, control), k, m, w, mask);
  }

  lemma CompareConstRelates(value: bool, toExec: bool, control: Control, k: nat, m: Machine, w: Wave)
    requires Relates(m, w) && FlagsSpared(w.s, MaskDestination(toExec, control))
    ensures Relates(Run(EmitCompare(if value then True else False, toExec, control, k), m),
                    w.(s := EmittedMask(w.s, MaskDestination(toExec, control), if value then w.s[EXEC] else 0)))
  {
    hide Bit, EvalU, EvalI, EvalL, EvalB, Wrap32, StoreMask, EmitCompare, EmittedMask;
    var condition := if value then True else False;
    var mask: U32 := if value then w.s[EXEC] else 0;
    forall j: nat ensures Bit(mask, j) <==> j < LANES && ExecAt(w, j) && EvalB(condition, m, j) {
      BitOfZero(j);
      if j < LANES { EvB(m, j); } else { HighBitsClear(mask, j); }
    }
    EmitCompareIs(condition, toExec, control, k);
    StoreConditionRelates(condition, MaskDestination(toExec, control), k, m, w, mask);
  }

  // ---- reading and writing one lane ----

  lemma ShuffleMeaning(x: UExpr, lane: UExpr, m: Machine, i: nat)
    requires i < |m.lanes| && EvalU(lane, m, i) < |m.lanes|
    ensures EvalU(Shuffle(x, lane), m, i) == EvalU(x, m, EvalU(lane, m, i))
  {
  }

  lemma ExecReads(m: Machine, w: Wave, i: nat)
    requires Relates(m, w) && i < LANES
    ensures EvalB(Exec, m, i) <==> ExecAt(w, i)
  {
    hide Bit;
    assert LaneMatches(m.lanes[i], w, i);
  }

  lemma ExecBallot(m: Machine, w: Wave, i: nat)
    requires Relates(m, w) && i < LANES
    ensures EvalU(Ballot(Exec), m, i) == w.s[EXEC]
  {
    hide Bit, EvalU, EvalI, EvalL, EvalB, Wrap32;
    forall j: nat ensures Bit(w.s[EXEC], j) <==> j < LANES && EvalB(Exec, m, j) {
      if j < LANES { ExecReads(m, w, j); } else { HighBitsClear(w.s[EXEC], j); }
    }
    BallotMeaning(Exec, m, i, w.s[EXEC]);
  }

  lemma FirstLaneMeaning(x: UExpr, m: Machine, i: nat)
    requires i < |m.lanes|
    ensures EvalU(Cond(Cmp(Eq, x, Lit(0)), Lit(0), CtzOf(x)), m, i) == FirstLane(EvalU(x, m, i)) < LANES
  {
    hide EvalU, EvalI, EvalL, EvalB, Wrap32, Ctz, Popcount;
    EvU(m, i);
    EvB(m, i);
    if EvalU(x, m, i) != 0 {
      Pow2Known();
      CtzOfNonzero(EvalU(x, m, i), 32);
    }
  }

  /** A scalar register gets a temporary that every lane agrees on. */
  lemma StoreTempRelates(code: seq<Stmt>, dst: nat, k: nat, m: Machine, w: Wave, x: U32)
    requires Relates(Run(code, m), w) && forall i: nat :: i < LANES ==> EvalU(T(k), Run(code, m), i) == x
    ensures Relates(Run(code + StoreScalar(dst, T(k), k + 1), m), w.(s := WriteScalar(w.s, dst, x)))
  {
    hide Bit, EvalU, EvalI, EvalL, EvalB, Wrap32, StoreScalar, WriteScalar;
    RunAppend(code, StoreScalar(dst, T(k), k + 1), m);
    StoreScalarRelates(dst, T(k), k + 1, Run(code, m), w, x);
  }

  lemma ReadfirstlaneRelates(dst: nat, src: seq<Operand>, k: nat, m: Machine, w: Wave)
    requires Relates(m, w) && SourcesOk(src, 1)
    ensures Relates(Run(Emit(VReadfirstlane(dst, src), k), m), Execute(VReadfirstlane(dst, src), w))
  {
    hide Bit, EvalU, EvalI, EvalL, EvalB, Wrap32, StoreScalar, WriteScalar, Raw, SourceOrZero, FirstLane, CtzOf, Step,
         StepLane;
    var e0, e1, e2 :=
      Ballot(Exec), Cond(Cmp(Eq, T(k), Lit(0)), Lit(0), CtzOf(T(k))), Shuffle(Raw(0, src, Plain), T(k + 1));
    var m1 := Step(Let(k, e0), m);
    var m2 := Step(Let(k + 1, e1), m1);
    var lets := [Let(k, e0), Let(k + 1, e1)];
    RunTwo(Let(k, e0), Let(k + 1, e1), m);
    LetU(k, e0, m, w);
    LetU(k + 1, e1, m1, w);
    NextTemp(lets, k + 2, e2, m, w);
    var code := lets + [Let(k + 2, e2)];
    var lane := FirstLane(w.s[EXEC]);
    var k2, m3 := k + 2, Run(code, m);
    forall i: nat | i < LANES
      ensures lane < LANES && EvalU(T(k2), m3, i) == SourceOrZero(0, src, Plain, w, lane % LANES)
    {
      ExecBallot(m, w, i);
      FirstLaneMeaning(T(k), m1, i);
      ShuffleMeaning(Raw(0, src, Plain), T(k + 1), m2, i);
      RawMeaning(0, src, Plain, m2, w, lane);
    }
    FirstLaneMeaning(T(k), m1, 0);
    StoreTempRelates(code, dst, k + 2, m, w, SourceOrZero(0, src, Plain, w, lane % LANES));
  }

  lemma ReadlaneRelates(dst: nat, src: seq<Operand>, k: nat, m: Machine, w: Wave)
    requires Relates(m, w) && SourcesOk(src, 2) && !src[1].Vector?
    ensures Relates(Run(Emit(VReadlane(dst, src), k), m), Execute(VReadlane(dst, src), w))
  {
    hide Bit, EvalU, EvalI, EvalL, EvalB, Wrap32, StoreScalar, WriteScalar, Raw, SourceOrZero, Five, Uniform, Step,
         StepLane;
    var e0, e1 := Five(Raw(1, src, Plain)), Shuffle(Raw(0, src, Plain), T(k));
    var m1 := Step(Let(k, e0), m);
    RunOne(Let(k, e0), m);
    LetU(k, e0, m, w);
    NextTemp([Let(k, e0)], k + 1, e1, m, w);
    var code := [Let(k, e0)] + [Let(k + 1, e1)];
    var lane := Uniform(1, src, w) % LANES;
    var k1, m2 := k + 1, Run(code, m);
    forall i: nat | i < LANES ensures EvalU(T(k1), m2, i) == SourceOrZero(0, src, Plain, w, lane) {
      UniformMeaning(1, src, m, w, i);
      FiveMeaning(Raw(1, src, Plain), m, i);
      ShuffleMeaning(Raw(0, src, Plain), T(k), m1, i);
      RawMeaning(0, src, Plain, m1, w, lane);
    }
    StoreTempRelates(code, dst, k + 1, m, w, SourceOrZero(0, src, Plain, w, lane));
  }

  lemma OnlyLaneMeaning(lane: UExpr, x: UExpr, y: UExpr, m: Machine, i: nat)
    requires i < |m.lanes| && i < LANES
    ensures EvalU(Cond(Cmp(Eq, LaneId, lane), x, y), m, i) == if i == EvalU(lane, m, i) then EvalU(x, m, i)
                                                              else EvalU(y, m, i)
  {
    hide EvalU, EvalI, EvalL, EvalB, Wrap32;
    LaneMeaning(m, i);
    EvU(m, i);
    EvB(m, i);
  }

  lemma WritelaneRelates(dst: nat, src: seq<Operand>, k: nat, m: Machine, w: Wave)
    requires Relates(m, w) && AsWritten(VWritelane(dst, src))
    ensures Relates(Run(Emit(VWritelane(dst, src), k), m), ExecuteWritelane(dst, src, w))
  {
    hide Bit, EvalU, EvalI, EvalL, EvalB, Wrap32, Raw, SourceOrZero, Five, Uniform;
    var e := Cond(Cmp(Eq, LaneId, Five(Raw(1, src, Plain))), Raw(0, src, Plain), V(dst));
    var w', lane := ExecuteWritelane(dst, src, w), Uniform(1, src, w) % LANES;
    var m' := Step(SetV(dst, e, false), m);
    RunOne(SetV(dst, e, false), m);
    forall i: nat | i < LANES ensures LaneMatches(m'.lanes[i], w', i) {
      assert LaneMatches(m.lanes[i], w, i);
      UniformMeaning(1, src, m, w, i);
      FiveMeaning(Raw(1, src, Plain), m, i);
      OnlyLaneMeaning(Five(Raw(1, src, Plain)), Raw(0, src, Plain), V(dst), m, i);
      RawMeaning(0, src, Plain, m, w, i);
      ReadsVector(dst, m, w, i);
    }
  }
}
