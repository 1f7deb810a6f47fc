/** The translation preserves meaning: for programs of any length over the supported subset, running
    the emitted statements on lanes that represent a wave ends in lanes that represent the wave the
    instruction set's semantics reaches, for every run in which each instruction meets its condition. */
module MetalTranslation {
  import opened Bits
  import opened Gen5Isa
  import opened Metal64Simulation
  import opened MetalEmission
  import opened MetalEmitted
  import opened MetalLaneSimulation
  import opened MetalMadSimulation
  import opened MetalMeaning
  import opened MetalMiscSimulation
  import opened MetalReadings
  import opened MetalRelation
  import opened MetalScalarMeaning
  import opened MetalScalarSimulation
  import opened MetalTarget
  import opened MetalVectorSimulation
  import opened Words

  // ---- one instruction ----

  /** Each enabled lane's extract stays inside its word, with the operands as the emitted text reads them. */
  predicate FieldsFit(i: Instruction, w: Wave)
    requires WellFormed(w)
  {
    i.VectorOp? && i.op == Shift(VBfe) ==>
      var src := RenderedAll(i.src);
      forall l: nat :: l < LANES && ExecAt(w, l) ==>
        SourceOrZero(1, src, i.control, w, l) % 32 + SourceOrZero(2, src, i.control, w, l) % 32 <= 32
  }

  /** The emitted code ends in lanes that represent a wave at all. */
  predicate Represented(i: Instruction, w: Wave)
    requires WellFormed(w)
  {
    FieldsFit(i, w) && (MaskOf(i).Some? ==> FlagsSpared(w.s, MaskOf(i).value))
  }

  /** SLshlNAddU32 computes its sum but leaves the condition bit alone. */
  lemma ShiftedAddRelates(n: nat, dst: nat, src: seq<Operand>, k: nat, m: Machine, w: Wave)
    requires Relates(m, w) && AsWritten(ScalarOp(SLshlAdd(n), dst, src))
    ensures Relates(Run(EmitScalar(SLshlAdd(n), dst, src, k), m),
                    ExecuteScalar(SLshlAdd(n), dst, src, w).(scc := w.scc))
  {
    hide Bit, EvalU, EvalI, EvalL, EvalB, Wrap32, StoreScalar, WriteScalar, Raw, Uniform, Step, StepLane, ScalarValue,
         ScalarExprOf;
    hide Operands, Shl;
    var op := SLshlAdd(n);
    var code := Operands(src, k) + [Let(k + 2, ScalarExprOf(op, T(k), T(k + 1)))];
    DirectPrepared(op, src, k, m, w);
    EmitDirect(op, dst, src, k);
    assert code + StoreScalar(dst, T(k + 2), k + 3) + [] == code + StoreScalar(dst, T(k + 2), k + 3);
    RunAppend(code, StoreScalar(dst, T(k + 2), k + 3), m);
    StoreScalarRelates(dst, T(k + 2), k + 3, Run(code, m), w,
                       ScalarValue(op, Uniform(0, src, w), Uniform(1, src, w), w.scc));
  }

  predicate IsScalar(i: Instruction) {
    i.ScalarOp? || i.ScalarUnary? || i.ScalarK? || i.ScalarCompare? || i.ScalarCompareK? || i.ScalarBitcmp?
      || i.Saveexec?
    || i.Scalar64? || i.Saveexec64?
  }

  lemma ScalarStep(i: Instruction, k: nat, m: Machine, w: Wave)
    requires Relates(m, w) && AsWritten(i) && IsScalar(i)
    ensures Relates(Run(Emit(i, k), m), CodeFinal(i, w))
  {
    hide Bit, EvalU, EvalI, EvalL, EvalB, Wrap32, Wrap64, Step, StepLane, Run;
    hide EmitScalar, EmitUnary, EmitK, EmitSaveexec, EmitSaveexec64, EmitScalar64;
    hide ScalarScc, ScalarValue, UnaryValue, Value64, CompareWords, EmittedUnaryScc, EmittedScc64, Spec64;
    hide ExecuteSaveexec, ExecuteSaveexec64, EmittedSaveexec, EmittedSaveexec64, EmittedScalar64, WriteScalar,
         WritePair,
         ReadScalar, Uniform,
         SignExtend16, LaneMatches, WellFormed;
    match i
    case ScalarOp(op, dst, src) =>
      if SccFaithful(op) { ScalarRelates(op, dst, src, k, m, w); } else { ShiftedAddRelates(op.n, dst, src, k, m, w); }
    case ScalarUnary(op, dst, src) => UnaryRelates(op, dst, src, k, m, w);
    case ScalarK(op, dst, simm) => KRelates(op, dst, simm, k, m, w);
    case ScalarCompare(rel, signed, src) => ScalarCompareRelates(rel, signed, src, k, m, w);
    case ScalarCompareK(rel, signed, dst, simm) => ScalarCompareKRelates(rel, signed, dst, simm, k, m, w);
    case ScalarBitcmp(set1, src) => BitcmpRelates(set1, src, k, m, w);
    case Saveexec(logic, dst, src) => SaveexecRelates(logic, dst, src, k, m, w);
    case Scalar64(op, dst, src) => Scalar64Relates(op, dst, src, k, m, w);
    case Saveexec64(logic, dst, src) => Saveexec64Relates(logic, dst, src, k, m, w);
  }

  lemma LaneStep(i: Instruction, k: nat, m: Machine, w: Wave)
    requires Relates(m, w) && AsWritten(i) && Represented(i, w) && !IsScalar(i)
    ensures Relates(Run(Emit(i, k), m), CodeFinal(i, w))
  {
    RenderedSame(i);
    hide Bit, EvalU, EvalI, EvalL, EvalB, Wrap32, Wrap64, Step, StepLane, Run, EmitCompare, EmitMadU64, EmittedMad,
         ExecuteWritelane;
    hide EmittedMask, CompareMask, ControlOk, FlagsSpared, EmittedCarry, WriteLanes, VectorLanes, WholeSelect,
         LaneMatches, SourceOrZero;
    match i
    case VectorOp(op, dst, src, control) => VectorRelates(op, dst, src, control, k, m, w);
    case CarryOp(op, dst, src, control) => CarryOpRelates(op, dst, src, control, k, m, w);
    case VMadU64(dst, src, control) => MadRelates(dst, src, control, k, m, w);
    case VCompare(rel, signed, toExec, src, control) => CompareRelates(rel, signed, toExec, src, control, k, m, w);
    case VCompareConst(value, toExec, control) => CompareConstRelates(value, toExec, control, k, m, w);
    case VCndmask(dst, src, control) => SelectRelates(dst, src, control, k, m, w);
    case VReadfirstlane(dst, src) => ReadfirstlaneRelates(dst, src, k, m, w);
    case VReadlane(dst, src) => ReadlaneRelates(dst, src, k, m, w);
    case VWritelane(dst, src) => WritelaneRelates(dst, src, k, m, w);
  }

  /** Operands that are read as they are written stay what they are. */
  lemma RenderedSame(i: Instruction)
    requires AsWritten(i)
    ensures RenderedIn(i) == i
  {
    if !(i.VCompareConst? || i.ScalarK? || i.ScalarCompareK?) {
      assert forall j :: 0 <= j < |i.src| ==> OperandOk(i.src[j]);
      assert RenderedAll(i.src) == i.src;
    }
  }

  lemma RenderedRepresented(i: Instruction, w: Wave)
    requires WellFormed(w) && Accepted(i) && Represented(i, w)
    ensures Represented(RenderedIn(i), w)
  {
    hide Accepted, SourceOrZero, FlagsSpared, Bit;
    RenderedAsWritten(i);
    RenderedSame(RenderedIn(i));
  }

  /** What running an instruction's code does, exactly. */
  lemma StepEmits(i: Instruction, k: nat, m: Machine, w: Wave)
    requires Relates(m, w) && Accepted(i) && Represented(i, w)
    ensures Relates(Run(Emit(i, k), m), EmittedFinal(i, w))
  {
    hide LaneMatches, Run, Emit, Represented, Accepted, AsWritten, CodeFinal, IsScalar, RenderedIn;
    EmitRendered(i, k);
    RenderedRepresented(i, w);
    var r := RenderedIn(i);
    if IsScalar(r) { ScalarStep(r, k, m, w); } else { LaneStep(r, k, m, w); }
  }

  lemma SoundRepresented(i: Instruction, w: Wave)
    requires WellFormed(w) && Accepted(i) && Sound(i, w) && FieldsFit(i, w)
    ensures Represented(i, w)
  {
    hide FieldsFit, Sound, Accepted, MaskOf;
    if MaskOf(i).Some? { SoundHighClear(i, w, MaskOf(i).value); }
  }

  lemma StepRelates(i: Instruction, k: nat, m: Machine, w: Wave)
    requires Relates(m, w) && Accepted(i) && Sound(i, w) && FieldsFit(i, w)
    ensures Relates(Run(Emit(i, k), m), Execute(i, w))
  {
    hide LaneMatches, Run, Emit, Execute, EmittedFinal, Sound, FieldsFit, Represented, Accepted;
    SoundRepresented(i, w);
    StepEmits(i, k, m, w);
    EmittedSoundIff(i, w);
  }

  // ---- programs ----

  /** Every instruction meets its condition at the wave the run reaches it with. */
  predicate SoundRun(program: seq<Instruction>, w: Wave)
    requires WellFormed(w)
    decreases |program|
  {
    program == [] ||
    (Accepted(program[0]) && Sound(program[0], w) && FieldsFit(program[0], w)
     && SoundRun(program[1..], Execute(program[0], w)))
  }

  lemma {:induction false} SoundRunAccepted(program: seq<Instruction>, w: Wave)
    requires WellFormed(w) && SoundRun(program, w)
    ensures forall i :: 0 <= i < |program| ==> Accepted(program[i])
    decreases |program|
  {
    hide Execute, Accepted, Sound, FieldsFit;
    if program != [] {
      SoundRunAccepted(program[1..], Execute(program[0], w));
      forall i | 0 <= i < |program| ensures Accepted(program[i]) {
        if i > 0 { assert program[i] == program[1..][i - 1]; }
      }
    }
  }

  /** Meaning is preserved along straight-line programs of any length. */
  lemma {:induction false} ProgramRelates(program: seq<Instruction>, k: nat, m: Machine, w: Wave)
    requires Relates(m, w) && SoundRun(program, w) && forall i :: 0 <= i < |program| ==> Accepted(program[i])
    ensures Relates(Run(EmitAll(program, k), m), ExecuteAll(program, w))
    decreases |program|
  {
    hide LaneMatches, Emit, Execute, Sound, FieldsFit, Accepted;
    if program == [] {
    } else {
      var code := Emit(program[0], k);
      var rest := EmitAll(program[1..], k + TempCount(code));
      StepRelates(program[0], k, m, w);
      RunAppend(code, rest, m);
      ProgramRelates(program[1..], k + TempCount(code), Run(code, m), Execute(program[0], w));
    }
  }

  // ---- entry ----

  /** The statements that establish the mask registers on entry. */
  function EntryCode(): seq<Stmt> {
    [SetS(VCC, Lit(0))] + [SetS(VCC + 1, Lit(0))] + [SetS(EXEC, Ballot(True))] + [SetS(EXEC + 1, Lit(0))]
  }

  function EntryLane(s: seq<U32>, v: seq<U32>): Lane {
    Lane(s, v, false, true, false, map[], map[], map[])
  }

  function EntryWave(s: seq<U32>, v: seq<seq<U32>>): Wave
    requires |s| == SCALARS
  {
    Wave(s[VCC := 0][VCC + 1 := 0][EXEC := 0xFFFF_FFFF][EXEC + 1 := 0], v, false)
  }

  lemma FullBallot(m: Machine, i: nat)
    requires |m.lanes| == LANES && i < LANES
    ensures EvalU(Ballot(True), m, i) == 0xFFFF_FFFF
  {
    hide Bit, EvalU, EvalI, EvalL, EvalB, Wrap32;
    forall j: nat ensures Bit(0xFFFF_FFFF, j) <==> j < LANES && EvalB(True, m, j) {
      Pow2Known();
      BitOfOnes(32, j);
      if j < LANES { EvB(m, j); }
    }
    BallotMeaning(True, m, i, 0xFFFF_FFFF);
  }

  lemma EntryStep(r: nat, e: UExpr, m: Machine, i: nat, s: seq<U32>, v: seq<U32>, x: U32)
    requires i < |m.lanes| && m.lanes[i] == EntryLane(s, v) && r < |s| && EvalU(e, m, i) == x
    ensures Step(SetS(r, e), m).lanes[i] == EntryLane(s[r := x], v)
  {
    hide EvalU;
    SetSStep(r, e, m, i, s);
  }

  /** After the entry code the register file and the cached flags agree, so every translated program
      starts from lanes that represent the entry wave. */
  lemma EntryRelates(s: seq<U32>, v: seq<seq<U32>>, m: Machine)
    requires |s| == SCALARS && |v| == LANES && |m.lanes| == LANES
    requires forall i :: 0 <= i < LANES ==> |v[i]| == VECTORS && m.lanes[i] == EntryLane(s, v[i])
    ensures Relates(Run(EntryCode(), m), EntryWave(s, v))
  {
    hide Bit, EvalU, EvalI, EvalL, EvalB, Wrap32;
    var c0, c1, c2, c3 := SetS(VCC, Lit(0)), SetS(VCC + 1, Lit(0)), SetS(EXEC, Ballot(True)), SetS(EXEC + 1, Lit(0));
    var m0 := Step(c0, m);
    var m1 := Step(c1, m0);
    var m2 := Step(c2, m1);
    var m3 := Step(c3, m2);
    RunAppend([c0] + [c1] + [c2], [c3], m);
    RunAppend([c0] + [c1], [c2], m);
    RunAppend([c0], [c1], m);
    RunOne(c0, m);
    RunOne(c1, m0);
    RunOne(c2, m1);
    RunOne(c3, m2);
    var w := EntryWave(s, v);
    forall i: nat | i < LANES ensures LaneMatches(m3.lanes[i], w, i) {
      var s0 := s[VCC := 0];
      var s1 := s0[VCC + 1 := 0];
      var s2 := s1[EXEC := 0xFFFF_FFFF];
      EvLit(0, m, i);
      EntryStep(VCC, Lit(0), m, i, s, v[i], 0);
      EvLit(0, m0, i);
      EntryStep(VCC + 1, Lit(0), m0, i, s0, v[i], 0);
      FullBallot(m1, i);
      EntryStep(EXEC, Ballot(True), m1, i, s1, v[i], 0xFFFF_FFFF);
      EvLit(0, m2, i);
      EntryStep(EXEC + 1, Lit(0), m2, i, s2, v[i], 0);
      BitOfZero(i);
      Pow2Known();
      BitOfOnes(32, i);
    }
  }

  /** The whole translated program, from entry, for every run that meets the conditions. */
  lemma TranslationPreservesMeaning(program: seq<Instruction>, s: seq<U32>, v: seq<seq<U32>>, m: Machine)
    requires |s| == SCALARS && |v| == LANES && |m.lanes| == LANES
    requires forall i :: 0 <= i < LANES ==> |v[i]| == VECTORS && m.lanes[i] == EntryLane(s, v[i])
    requires SoundRun(program, EntryWave(s, v)) && forall i :: 0 <= i < |program| ==> Accepted(program[i])
    ensures Relates(Run(EntryCode() + EmitAll(program, 0), m), ExecuteAll(program, EntryWave(s, v)))
  {
    hide LaneMatches, Emit, Execute, Sound, FieldsFit, Accepted, EntryCode;
    EntryRelates(s, v, m);
    RunAppend(EntryCode(), EmitAll(program, 0), m);
    ProgramRelates(program, 0, Run(EntryCode(), m), EntryWave(s, v));
  }
}
