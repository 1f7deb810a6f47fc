/** Exactly when a single instruction is translated right, an input for every way it is not, and a
    class of programs that needs no condition on the run. */
module MetalFlaws {
  import opened Bits
  import opened Gen5Isa
  import opened MetalEmission
  import opened MetalEmitted
  import opened MetalLaneSimulation
  import opened MetalMeaning
  import opened MetalReadings
  import opened MetalRelation
  import opened MetalScalarMeaning
  import opened MetalTarget
  import opened MetalTranslation
  import opened MetalVectorSimulation
  import opened Words

  // ---- the last store to a scalar register ----

  function LastStore(code: seq<Stmt>, q: nat): Option<UExpr> {
    if code == [] then None
    else
      var rest := LastStore(code[1..], q);
      if rest.Some? then rest else if code[0].SetS? && code[0].r == q then Some(code[0].e) else None
  }

  lemma {:induction false} LastStoreAppend(a: seq<Stmt>, b: seq<Stmt>, q: nat)
    ensures LastStore(a + b, q) == if LastStore(b, q).Some? then LastStore(b, q) else LastStore(a, q)
    decreases |a|
  {
    if a == [] {
      assert a + b == b;
    } else {
      assert (a + b)[1..] == a[1..] + b;
      LastStoreAppend(a[1..], b, q);
    }
  }

  /** A register whose last store is a literal holds it at the end. */
  lemma {:induction false} LastStoreHolds(code: seq<Stmt>, q: nat, n: U32, m: Machine, i: nat)
    requires i < |m.lanes| && q < |m.lanes[i].s|
      && (LastStore(code, q) == Some(Lit(n)) || (LastStore(code, q).None? && m.lanes[i].s[q] == n))
    ensures q < |Run(code, m).lanes[i].s| && Run(code, m).lanes[i].s[q] == n
    decreases |code|
  {
    hide EvalU, EvalI, EvalL, EvalB;
    if code != [] {
      var m1 := Step(code[0], m);
      EvLit(n, m, i);
      assert m1.lanes[i] == StepLane(code[0], m, i);
      LastStoreHolds(code[1..], q, n, m1, i);
    }
  }

  lemma ResultStoresNone(control: Control, dst: nat, k: nat, q: nat)
    ensures LastStore(StoreResult(control, dst, k), q).None?
  {
    hide FieldMask, UpperMask, SignMask, LowMask, Not32;
    forall code: seq<Stmt> | forall j :: 0 <= j < |code| ==> !code[j].SetS? ensures LastStore(code, q).None? {
      NoStore(code, q);
    }
  }

  lemma {:induction false} NoStore(code: seq<Stmt>, q: nat)
    requires forall j :: 0 <= j < |code| ==> !code[j].SetS?
    ensures LastStore(code, q).None?
    decreases |code|
  {
    if code != [] { NoStore(code[1..], q); }
  }

  lemma MaskClears(r: nat, k: nat)
    requires r + 1 == VCC || r + 1 == EXEC
    ensures LastStore(StoreMask(r, BT(k)), r + 1) == Some(Lit(0))
  {
    assert StoreMask(r, BT(k)) == [SetS(r, Ballot(BT(k)))] + [SetS(r + 1, Lit(0))];
    LastStoreAppend([SetS(r, Ballot(BT(k)))], [SetS(r + 1, Lit(0))], r + 1);
    assert LastStore([SetS(r + 1, Lit(0))], r + 1) == Some(Lit(0));
  }

  lemma TailClears(code: seq<Stmt>, st: Stmt, r: nat, k: nat, rest: seq<Stmt>)
    requires (r + 1 == VCC || r + 1 == EXEC) && LastStore(rest, r + 1).None?
    ensures LastStore(code + ([st] + StoreMask(r, BT(k))) + rest, r + 1) == Some(Lit(0))
  {
    hide StoreMask;
    MaskClears(r, k);
    LastStoreAppend([st], StoreMask(r, BT(k)), r + 1);
    LastStoreAppend(code, [st] + StoreMask(r, BT(k)), r + 1);
    LastStoreAppend(code + ([st] + StoreMask(r, BT(k))), rest, r + 1);
  }

  /** A carry stored between its preparation and the result clears the register above. */
  lemma CarryCodeClears(code: seq<Stmt>, control: Control, carry: BExpr, k: nat, l: seq<Stmt>, r: seq<Stmt>)
    requires MaskTarget(control) + 1 == VCC || MaskTarget(control) + 1 == EXEC
    requires LastStore(l, MaskTarget(control) + 1).None? && LastStore(r, MaskTarget(control) + 1).None?
    ensures LastStore(code + StoreCarryOut(control, carry, k) + l + r, MaskTarget(control) + 1) == Some(Lit(0))
  {
    hide StoreMask;
    var q := MaskTarget(control) + 1;
    var st := LetB(k, BAnd(Exec, carry));
    LastStoreAppend(l, r, q);
    TailClears(code, st, MaskTarget(control), k, l + r);
    assert code + StoreCarryOut(control, carry, k) + l + r
      == code + ([st] + StoreMask(MaskTarget(control), BT(k))) + (l + r);
  }

  lemma LetStoresNone(k: nat, e: UExpr, q: nat)
    ensures LastStore([Let(k, e)], q).None?
  {
  }

  lemma CarryClears(op: COp, dst: nat, src: seq<Operand>, control: Control, k: nat)
    requires |src| >= 2 && (MaskTarget(control) + 1 == VCC || MaskTarget(control) + 1 == EXEC)
    ensures LastStore(EmitCarry(op, dst, src, control, k), MaskTarget(control) + 1) == Some(Lit(0))
  {
    hide LastStore, StoreCarryOut, StoreResult, Raw, MaskBitExpr, FlagExpr;
    var q := MaskTarget(control) + 1;
    var reverse := op == VSubrevCo || op == VSubbrev;
    var lets := [Let(k, Raw(if reverse then 1 else 0, src, control)),
                 Let(k + 1, Raw(if reverse then 0 else 1, src, control))];
    match op
    case VAddCo =>
      LetStoresNone(k + 4, T(k + 2), q);
      ResultStoresNone(control, dst, k + 4, q);
      CarryCodeClears(lets + [Let(k + 2, Add(T(k), T(k + 1)))], control, Cmp(Lt, T(k + 2), T(k)), k + 3,
                      [Let(k + 4, T(k + 2))], StoreResult(control, dst, k + 4));
    case VSubCo | VSubrevCo =>
      LetStoresNone(k + 3, Sub(T(k), T(k + 1)), q);
      ResultStoresNone(control, dst, k + 3, q);
      CarryCodeClears(lets, control, Cmp(Lt, T(k), T(k + 1)), k + 2,
                      [Let(k + 3, Sub(T(k), T(k + 1)))], StoreResult(control, dst, k + 3));
    case VAddc =>
      LetStoresNone(k + 5, T(k + 3), q);
      ResultStoresNone(control, dst, k + 5, q);
      CarryCodeClears(lets + [Let(k + 2, Add(T(k), T(k + 1)))]
                      + [Let(k + 3, Add(T(k + 2), FlagExpr(MaskBitExpr(src))))],
                      control, BOr(Cmp(Lt, T(k + 2), T(k)), Cmp(Lt, T(k + 3), T(k + 2))), k + 4,
                      [Let(k + 5, T(k + 3))], StoreResult(control, dst, k + 5));
    case VSubb | VSubbrev =>
      LetStoresNone(k + 5, Sub(T(k + 3), T(k + 2)), q);
      ResultStoresNone(control, dst, k + 5, q);
      CarryCodeClears(lets + [Let(k + 2, FlagExpr(MaskBitExpr(src)))] + [Let(k + 3, Sub(T(k), T(k + 1)))],
                      control, BOr(Cmp(Lt, T(k), T(k + 1)), Cmp(Lt, T(k + 3), T(k + 2))), k + 4,
                      [Let(k + 5, Sub(T(k + 3), T(k + 2)))], StoreResult(control, dst, k + 5));
  }

  lemma MadClears(dst: nat, src: seq<Operand>, control: Control, k: nat)
    requires |src| >= 3 && (MaskTarget(control) + 1 == VCC || MaskTarget(control) + 1 == EXEC)
    ensures LastStore(EmitMadU64(dst, src, control, k), MaskTarget(control) + 1) == Some(Lit(0))
  {
    hide StoreCarryOut, StoreResult, Raw, Raw64, LMul, LAdd, LShiftR;
    var q := MaskTarget(control) + 1;
    var lets := [LetL(k, LMul(Wide(Raw(0, src, control)), Wide(Raw(1, src, control)))), LetL(k + 1, Raw64(src[2]))]
      + [LetL(k + 2, LAdd(LT(k), LT(k + 1)))];
    var carry := LCmp(Lt, LT(k + 2), LT(k + 1));
    var high := StoreVector(dst + 1, LowHalf(LShiftR(LT(k + 2), Wide(Lit(32)))), true);
    var low := [Let(k + 4, LowHalf(LT(k + 2)))];
    var result := StoreResult(control, dst, k + 4);
    NoStore(high + low, q);
    ResultStoresNone(control, dst, k + 4, q);
    CarryCodeClears(lets, control, carry, k + 3, high + low, result);
    assert EmitMadU64(dst, src, control, k) == lets + StoreCarryOut(control, carry, k + 3) + (high + low) + result;
  }

  lemma CompareClears(condition: BExpr, toExec: bool, control: Control, k: nat)
    requires var r := MaskDestination(toExec, control); r + 1 == VCC || r + 1 == EXEC
    ensures LastStore(EmitCompare(condition, toExec, control, k), MaskDestination(toExec, control) + 1) == Some(Lit(0))
  {
    hide StoreMask, LastStore, EmitCompare;
    var r, st := MaskDestination(toExec, control), LetB(k, BAnd(Exec, condition));
    EmitCompareIs(condition, toExec, control, k);
    NoStore([], r + 1);
    TailClears([], st, r, k, []);
    assert [] + ([st] + StoreMask(r, BT(k))) + [] == [st] + StoreMask(r, BT(k));
  }

  lemma CodeClears(i: Instruction, k: nat)
    requires Accepted(i) && MaskOf(i).Some? && (MaskOf(i).value + 1 == VCC || MaskOf(i).value + 1 == EXEC)
    ensures LastStore(Emit(i, k), MaskOf(i).value + 1) == Some(Lit(0))
  {
    hide LastStore, EmitCarry, EmitMadU64, EmitCompare;
    match i
    case CarryOp(op, dst, src, control) => CarryClears(op, dst, src, control, k);
    case VMadU64(dst, src, control) => MadClears(dst, src, control, k);
    case VCompare(rel, signed, toExec, src, control) =>
      CompareClears(CompareExpr(rel, signed, Raw(0, src, control), Raw(1, src, control)), toExec, control, k);
    case VCompareConst(value, toExec, control) => CompareClears(if value then True else False, toExec, control, k);
  }

  // ---- the translation of one instruction is right exactly when its condition holds ----

  lemma RelatesOne(m: Machine, w: Wave, w': Wave)
    requires Relates(m, w) && Relates(m, w')
    ensures w == w'
  {
    hide Bit;
    assert LaneMatches(m.lanes[0], w, 0) && LaneMatches(m.lanes[0], w', 0);
    forall i | 0 <= i < LANES ensures w.v[i] == w'.v[i] {
      assert LaneMatches(m.lanes[i], w, i) && LaneMatches(m.lanes[i], w', i);
    }
  }

  lemma UnsparedIsUnsound(i: Instruction, k: nat, m: Machine, w: Wave)
    requires Relates(m, w) && Accepted(i) && MaskOf(i).Some? && !FlagsSpared(w.s, MaskOf(i).value)
    ensures !Sound(i, w) && !Relates(Run(Emit(i, k), m), Execute(i, w))
  {
    hide Bit, Emit, Execute, Run, LastStore, Sound, MaskOf, Accepted;
    var r := MaskOf(i).value;
    if Sound(i, w) { SoundHighClear(i, w, r); }
    CodeClears(i, k);
    AboveKept(i, w, r);
    assert LaneMatches(m.lanes[0], w, 0);
    LastStoreHolds(Emit(i, k), r + 1, 0, m, 0);
    NotRelated(Run(Emit(i, k), m), Execute(i, w));
  }

  lemma NotRelated(m: Machine, w: Wave)
    requires |m.lanes| == LANES && m.lanes[0].s != w.s
    ensures !Relates(m, w)
  {
  }

  /** One instruction, from lanes that represent a wave: its emitted code reaches the wave the
      instruction reaches exactly when the condition on that wave holds. */
  lemma StepSoundIff(i: Instruction, k: nat, m: Machine, w: Wave)
    requires Relates(m, w) && Accepted(i) && FieldsFit(i, w)
    ensures Relates(Run(Emit(i, k), m), Execute(i, w)) <==> Sound(i, w)
  {
    hide LaneMatches, Run, Emit, Execute, EmittedFinal, Sound, FieldsFit, Accepted;
    if MaskOf(i).Some? && !FlagsSpared(w.s, MaskOf(i).value) {
      UnsparedIsUnsound(i, k, m, w);
    } else {
      StepEmits(i, k, m, w);
      EmittedSoundIff(i, w);
      if Relates(Run(Emit(i, k), m), Execute(i, w)) {
        RelatesOne(Run(Emit(i, k), m), Execute(i, w), EmittedFinal(i, w));
      }
    }
  }

  /** An extract yields its field whatever the undefined value is, exactly when the field fits. */
  lemma ExtractDefinedIff(x: U32, offset: U32, width: U32)
    requires offset < 32 && width < 32
    ensures (forall junk: U32 :: Extract32(x, offset, width, junk) == Field(x, offset, width)) <==> offset + width <= 32
  {
    hide Field, Lows, Shr;
    if offset + width <= 32 {
      FieldWord(x, offset, width);
    } else {
      var other: U32 := if Field(x, offset, width) == 0 then 1 else 0;
      assert Extract32(x, offset, width, other) != Field(x, offset, width);
    }
  }

  // ---- an input for every way to go wrong ----

  /** A wave with all lanes enabled whose other registers are zero, but for one scalar register. */
  function Idle(r: nat, x: U32, scc: bool): (w: Wave)
    requires r < SCALARS && r != EXEC
    ensures WellFormed(w) && w.s[EXEC] == 0xFFFF_FFFF && w.s[r] == x && w.scc == scc
    ensures forall q: nat :: q < SCALARS && q != r && q != EXEC ==> w.s[q] == 0
    ensures forall l: nat :: l < LANES ==> ExecAt(w, l)
    ensures forall l: nat, j: nat :: l < LANES && j < VECTORS ==> w.v[l][j] == 0
  {
    var zeros := seq(SCALARS, i requires 0 <= i < SCALARS => 0);
    Pow2Known();
    assert forall l: nat :: l < LANES ==> Bit(0xFFFF_FFFF, l) by {
      forall l: nat | l < LANES ensures Bit(0xFFFF_FFFF, l) {
        BitOfOnes(32, l);
      }
    }
    Wave(zeros[EXEC := 0xFFFF_FFFF][r := x],
         seq(LANES, i requires 0 <= i < LANES => seq(VECTORS, j requires 0 <= j < VECTORS => 0)), scc)
  }

  const BIT_REVERSE: Instruction := ScalarUnary(SBrev, 0, [Literal(1)])
  const FIND_FIRST: Instruction := ScalarUnary(SFf1, 0, [Literal(1)])
  const ADD_CONSTANT: Instruction := ScalarK(SAddk, 0, 0)
  const SHIFTED_ADD: Instruction := ScalarOp(SLshlAdd(1), 0, [Literal(0), Literal(0)])
  const FIELD_MASK: Instruction := Scalar64(SBfm64, 0, [Literal(0), Literal(0)])
  const COMPARE_CONSTANT: Instruction := ScalarCompareK(Eq, false, 0, 0x8000)

  // Each of six scalar opcodes leaves a wrong condition bit from the wave named for it.
  lemma UnaryConditionFails()
    ensures Accepted(BIT_REVERSE) && !Sound(BIT_REVERSE, Idle(0, 0, false))
    ensures Accepted(FIND_FIRST) && !Sound(FIND_FIRST, Idle(0, 0, true))
  {
    hide EmittedFinal, CodeFinal, Execute, Bit, Idle;
  }

  lemma AddConstantFails()
    ensures Accepted(ADD_CONSTANT) && !Sound(ADD_CONSTANT, Idle(0, 0, true))
  {
    hide EmittedFinal, CodeFinal, Execute, Bit, Idle, Lows;
    LowsOfSmall(0, 16);
    SmallWrap(0);
  }

  lemma ShiftedAddFails()
    ensures Accepted(SHIFTED_ADD) && !Sound(SHIFTED_ADD, Idle(0, 0, true))
  {
    hide EmittedFinal, CodeFinal, Execute, Bit, Idle, Shl;
    ShlIsProduct(0, 1);
  }

  lemma FieldMaskFails()
    ensures Accepted(FIELD_MASK) && !Sound(FIELD_MASK, Idle(0, 0, true))
  {
    hide EmittedFinal, CodeFinal, Execute, Bit, Idle;
  }

  lemma CompareConstantFails()
    ensures Accepted(COMPARE_CONSTANT) && !Sound(COMPARE_CONSTANT, Idle(0, 0x8000, false))
  {
    hide EmittedFinal, CodeFinal, Execute, Bit, Idle, Lows;
    OnesKnown();
    LowsOfSmall(0x8000, 16);
  }

  const CARRY_TO_PLAIN: Instruction := CarryOp(VAddCo, 0, [Literal(1), Literal(1)], Vop3(Some(2)))
  const CARRY_TO_NULL: Instruction := CarryOp(VAddCo, 0, [Literal(1), Literal(1)], Vop3(Some(125)))
  const CARRY_TO_105: Instruction := CarryOp(VAddCo, 0, [Literal(1), Literal(1)], Vop3(Some(105)))
  const CARRY_TO_EXEC: Instruction := CarryOp(VAddCo, 0, [Literal(1), Literal(1)], Vop3(Some(126)))
  const SAVE_EXEC: Instruction := Saveexec(AndL, 0, [Literal(0)])

  /** A carry into a register whose neighbour is live clears the neighbour: a plain register, VCC above
      register 105, and EXEC above the null register, in every wave with an enabled lane. Saving EXEC
      clears the register above it. */
  lemma MaskStoreFails()
    ensures Accepted(CARRY_TO_PLAIN) && !Sound(CARRY_TO_PLAIN, Idle(3, 7, false))
    ensures Accepted(CARRY_TO_105) && !Sound(CARRY_TO_105, Idle(106, 1, false))
    ensures Accepted(CARRY_TO_NULL) && forall w :: WellFormed(w) && w.s[EXEC] != 0 ==> !Sound(CARRY_TO_NULL, w)
    ensures Accepted(SAVE_EXEC) && !Sound(SAVE_EXEC, Idle(127, 1, false))
  {
    hide Bit, Idle, Sound, EmittedFinal, Execute;
    if Sound(CARRY_TO_PLAIN, Idle(3, 7, false)) { SoundHighClear(CARRY_TO_PLAIN, Idle(3, 7, false), 2); }
    if Sound(CARRY_TO_105, Idle(106, 1, false)) { SoundHighClear(CARRY_TO_105, Idle(106, 1, false), 105); }
    forall w | WellFormed(w) && w.s[EXEC] != 0 ensures !Sound(CARRY_TO_NULL, w) {
      if Sound(CARRY_TO_NULL, w) { SoundHighClear(CARRY_TO_NULL, w, NULL); }
    }
    SaveExecFails();
  }

  lemma SaveExecFails()
    ensures Accepted(SAVE_EXEC) && !Sound(SAVE_EXEC, Idle(127, 1, false))
  {
    hide Bit, Idle, EmittedFinal, CodeFinal, Execute;
  }

  /** A carry into EXEC keeps the sum from the lanes it disables. */
  lemma CarryToExecFails()
    ensures Accepted(CARRY_TO_EXEC) && !Sound(CARRY_TO_EXEC, Idle(0, 0, false))
  {
    hide EmittedFinal, CodeFinal, Execute, Bit, Idle, CarryResult, HighClear, RenderedAll, Sound;
    var w := Idle(0, 0, false);
    AlikeSoundIff(CARRY_TO_EXEC, w);
    var src := RenderedAll(CARRY_TO_EXEC.src);
    var mask := CarryMask(VAddCo, src, CARRY_TO_EXEC.control, w);
    OneAndOne(src, CARRY_TO_EXEC.control, w);
    assert ExecAt(w, 0) && !Bit(mask, 0);
    assert CarryLanes(VAddCo, 0, src, CARRY_TO_EXEC.control, w)(0) == 2 != w.v[0][0];
  }

  lemma OneAndOne(src: seq<Operand>, control: Control, w: Wave)
    requires WellFormed(w) && control.Vop3? && |src| == 2 && src[0] == src[1] == ZeroExtended(1)
    ensures CarryResult(VAddCo, src, control, w, 0) == (2, false)
  {
    hide Bit, MaskBit, Wrap32;
    SmallWrap(2);
  }

  const SELECT_BYTE: Instruction :=
    VCndmask(0, [Literal(0x1FF), Literal(0x1FF)],
             SdwaControl(Sdwa(0, 0, 6, 6, false, false, false, false, false, false, None)))

  /** A select into one byte stores the whole word: 0x1FF, where the byte is 0xFF. */
  lemma SelectByteFails()
    ensures Accepted(SELECT_BYTE) && !Sound(SELECT_BYTE, Idle(0, 0, false))
  {
    hide EmittedFinal, CodeFinal, Execute, Bit, Idle, MaskBit, RenderedAll, WholeSelect, Merge;
    var w := Idle(0, 0, false);
    var control := SELECT_BYTE.control;
    var f := WholeSelect(RenderedAll(SELECT_BYTE.src), control, w);
    SelectsWord(RenderedAll(SELECT_BYTE.src), control, w);
    ByteMerge(control, w.v[0][0]);
    assert ExecAt(w, 0) && !MergeIsWhole(control, 0, f, w);
  }

  lemma SelectsWord(src: seq<Operand>, control: Control, w: Wave)
    requires WellFormed(w) && |src| == 2 && src[0] == src[1] == ZeroExtended(0x1FF) && control == SELECT_BYTE.control
    ensures WholeSelect(src, control, w)(0) == 0x1FF
  {
    hide Bit, MaskBit;
    SmallWrap(0x1FF);
  }

  lemma ByteMerge(control: Control, previous: U32)
    requires control == SELECT_BYTE.control && previous == 0
    ensures Merge(control, 0x1FF, previous) != 0x1FF
  {
    hide Bit;
    var merged := Merge(control, 0x1FF, previous);
    assert merged == SdwaMerge(0, 0, 0x1FF, 0);
    assert !Bit(merged, 8);
    Bit8Of1FF();
  }

  lemma Bit8Of1FF()
    ensures Bit(0x1FF, 8)
  {
    assert Pow2(9) == 0x200;
    BitOfOnes(9, 8);
  }

  const MULTIPLY_24: Instruction := VectorOp(Arith(VMulU24), 0, [Literal(0x100_0000), Literal(1)], Plain)

  /** A 24-bit multiplication of 2^24 yields 2^24, not zero. */
  lemma Multiply24Fails()
    ensures Accepted(MULTIPLY_24) && !Sound(MULTIPLY_24, Idle(0, 0, false))
  {
    hide EmittedFinal, CodeFinal, Execute, Bit, Idle, Shr, Lows, Times;
    var w := Idle(0, 0, false);
    OnesKnown();
    LowsOfSmall(1, 24);
    ShrIsQuotient(0x100_0000, 24);
    TimesIsProduct(1, 1);
    TimesIsProduct(0, 0);
    assert ExecAt(w, 0);
    assert !HighBytesVanish(SourceOrZero(0, MULTIPLY_24.src, Plain, w, 0),
                            SourceOrZero(1, MULTIPLY_24.src, Plain, w, 0));
  }

  const VCC_ZERO: Instruction := ScalarUnary(SMov, 0, [Encoded(251)])
  const EXEC_ZERO: Instruction := ScalarUnary(SMov, 0, [Encoded(252)])

  /** The status bit of a mask whose upper half alone has a bit set is read as 0. */
  lemma StatusBitFails()
    ensures Accepted(VCC_ZERO) && !Sound(VCC_ZERO, Idle(107, 1, false))
    ensures var w := Idle(127, 1, false); var off := w.(s := w.s[EXEC := 0]);
      WellFormed(off) && Accepted(EXEC_ZERO) && !Sound(EXEC_ZERO, off)
  {
    hide Bit, Idle, Sound;
    var w := Idle(127, 1, false);
    var off := w.(s := w.s[EXEC := 0]);
    MoveMisread(251, Idle(107, 1, false));
    MoveMisread(252, off);
  }

  /** A move of a status bit is right exactly when the bit is read alike. */
  lemma MoveMisread(code: nat, w: Wave)
    requires WellFormed(w) && (code == 251 || code == 252)
    ensures var i := ScalarUnary(SMov, 0, [Encoded(code)]);
      Accepted(i) && (Sound(i, w) <==> WordAlike(Encoded(code), w))
  {
    hide Bit, Sound, RenderedAll, WordAlike;
    var i := ScalarUnary(SMov, 0, [Encoded(code)]);
    RenderedAsWritten(i);
    MisreadShows(i, w);
    assert ReadAlike(i, w) <==> WordAlike(i.src[0], w);
  }

  const INLINE_DOUBLE: Instruction := Scalar64(SMov64, 0, [Encoded(242)])
  const SIGNED_LITERAL: Instruction := Scalar64(SBfeI64, 0, [Literal(0x8000_0000), Literal(0x40_0000)])
  const PAIR_TO_NULL: Instruction := Scalar64(SMov64, NULL, [Literal(1)])

  /** In every wave a 64-bit move of 1.0 stores a single, and a signed extract of a whole negative literal
      sees zeros above it. */
  lemma WideOperandFails(w: Wave)
    requires WellFormed(w)
    ensures Accepted(INLINE_DOUBLE) && !Sound(INLINE_DOUBLE, w)
    ensures Accepted(SIGNED_LITERAL) && !Sound(SIGNED_LITERAL, w)
  {
    hide Bit, Sound, Conditions;
    MisreadShows(INLINE_DOUBLE, w);
    assert !WideAlike(Encoded(242), w);
    MisreadShows(SIGNED_LITERAL, w);
    WholeLiteral(w);
  }

  lemma WholeLiteral(w: Wave)
    requires WellFormed(w)
    ensures !FieldInLowHalf(Uniform(1, SIGNED_LITERAL.src, w))
  {
    hide Bit, Shr, Lows;
    assert Uniform(1, SIGNED_LITERAL.src, w) == 0x40_0000;
    Pow2Known();
    ShrIsQuotient(0x40_0000, 16);
    assert Pow2(7) == 0x80;
    LowsOfSmall(64, 7);
  }

  /** A pair stored at the null register clears EXEC, in every wave with an enabled lane. */
  lemma PairToNullFails(w: Wave)
    requires WellFormed(w) && w.s[EXEC] != 0
    ensures Accepted(PAIR_TO_NULL) && !Sound(PAIR_TO_NULL, w)
  {
    hide EmittedFinal, CodeFinal, Execute, Bit;
  }

  const EXTRACT: Instruction := VectorOp(Shift(VBfe), 0, [Literal(0), Literal(31), Literal(31)], Plain)

  /** An extract of 31 bits at offset 31 asks for bits the word does not have. */
  lemma ExtractOutside()
    ensures Accepted(EXTRACT) && !FieldsFit(EXTRACT, Idle(0, 0, false))
  {
    hide Bit, Idle;
    var w := Idle(0, 0, false);
    assert ExecAt(w, 0);
    assert SourceOrZero(1, EXTRACT.src, Plain, w, 0) == 31 && SourceOrZero(2, EXTRACT.src, Plain, w, 0) == 31;
  }

  // ---- programs that need no condition on the run ----

  /** An operand that reads the same whatever the state. */
  function Constant(o: Operand): Option<U32> {
    match o
    case Literal(n) => Some(n)
    case Encoded(code) => if code in {251, 252, 253} then None else InlineConstant(code)
    case _ => None
  }

  predicate FieldConstant(src: seq<Operand>, control: Control) {
    && !control.SdwaControl? && |src| >= 3 && Constant(src[1]).Some? && Constant(src[2]).Some?
    && Constant(src[1]).value % 32 + Constant(src[2]).value % 32 <= 32
  }

  predicate SparesHighs(r: nat) {
    r != VCC + 1 && r != EXEC + 1
  }

  predicate NoDouble(o: Operand) {
    !(o.Encoded? && InlineDouble(o.code).Some?)
  }

  /** No 64-bit operand is a floating-point constant, masks go to VCC or EXEC, nothing else writes the
      registers above those, and the opcodes with a flaw do not occur. */
  predicate Steady(i: Instruction) {
    Accepted(i) &&
    match i
    case VectorOp(op, _, src, control) => op != Arith(VMulU24) && (op == Shift(VBfe) ==> FieldConstant(src, control))
    case CarryOp(_, _, _, control) => MaskTarget(control) == VCC
    case VMadU64(_, src, control) => MaskTarget(control) == VCC && NoDouble(src[2])
    case VCompare(_, _, toExec, _, control) => toExec || CompareTarget(control) == VCC
    case VCompareConst(_, toExec, control) => toExec || CompareTarget(control) == VCC
    case VCndmask(_, _, control) => Whole(control)
    case VReadfirstlane(dst, _) => SparesHighs(dst)
    case VReadlane(dst, _) => SparesHighs(dst)
    case VWritelane(_, _) | ScalarCompare(_, _, _) | ScalarBitcmp(_, _) => true
    case ScalarOp(op, dst, _) => SparesHighs(dst) && SccFaithful(op)
    case ScalarUnary(op, dst, _) => SparesHighs(dst) && op != SBrev && op != SFf1
    case ScalarK(op, dst, _) => SparesHighs(dst) && op != SAddk
    case ScalarCompareK(_, signed, _, simm) => signed || Lows(simm, 16) < 0x8000
    case Saveexec(_, dst, _) => SparesHighs(dst)
    case Scalar64(op, dst, src) =>
      && SparesHighs(dst) && SparesHighs(dst + 1) && dst != NULL && op != SBfm64
      && NoDouble(src[0]) && (op.SLogic64? || op.SCselect64? ==> NoDouble(src[1]))
      && (op.SBfeI64? && src[0].Literal? ==> src[0].n < 0x8000_0000)
    case Saveexec64(_, _, _) => false
  }

  predicate HighsZero(w: Wave)
    requires |w.s| == SCALARS
  {
    w.s[VCC + 1] == 0 && w.s[EXEC + 1] == 0
  }

  lemma ConstantReads(o: Operand, w: Wave, i: nat)
    requires WellFormed(w) && i < LANES && Constant(o).Some?
    ensures ReadOperand(o, w, i) == Constant(o).value
  {
  }

  lemma SteadyFits(i: Instruction, w: Wave)
    requires WellFormed(w) && Steady(i)
    ensures FieldsFit(i, w)
  {
    hide Bit;
    if i.VectorOp? && i.op == Shift(VBfe) {
      forall l: nat | l < LANES && ExecAt(w, l)
        ensures SourceOrZero(1, i.src, i.control, w, l) % 32 + SourceOrZero(2, i.src, i.control, w, l) % 32 <= 32
      {
        ConstantReads(i.src[1], w, l);
        ConstantReads(i.src[2], w, l);
      }
    }
  }

  lemma WholeMerges(control: Control, dst: nat, f: nat -> U32, w: Wave)
    requires WellFormed(w) && dst < VECTORS && Whole(control)
    ensures MergeIsWhole(control, dst, f, w)
  {
    hide Bit;
  }

  lemma SteadySound(i: Instruction, w: Wave)
    requires WellFormed(w) && Steady(i) && HighsZero(w)
    ensures Sound(i, w)
  {
    hide Bit, CarryMask, CarryLanes, MadMask, MadLow, MadHigh, MergeIsWhole, HighBytesVanish, Lows, Shl, Whole;
    hide RenderedAll, ReadAlike, Sound, Settled;
    SteadyAlike(i, w);
    AlikeSoundIff(i, w);
    if i.VCndmask? {
      WholeMerges(i.control, i.dst, WholeSelect(RenderedAll(i.src), i.control, w), w);
    }
  }

  lemma SteadyAlike(i: Instruction, w: Wave)
    requires WellFormed(w) && Steady(i) && HighsZero(w)
    ensures ReadAlike(i, w)
  {
    hide Bit, Lows, FieldInLowHalf, FieldConstant, Whole, Uniform;
  }

  lemma SteadyKeeps(i: Instruction, w: Wave)
    requires WellFormed(w) && Steady(i) && HighsZero(w)
    ensures HighsZero(Execute(i, w))
  {
    hide Bit, Accepted, WriteLanes, CarryMask, CarryLanes, MadMask, MadLow, MadHigh, CompareMask, SelectLanes,
         VectorLanes;
    hide ScalarValue, ScalarScc, UnaryValue, UnaryScc, KValue, KScc, Value64, Scc64, Logic32, CompareWords,
         SourceOrZero, Whole, Lows;
    hide ReadScalar, Uniform64, FieldConstant, SignExtend16, CompareImmediate;
  }

  /** Programs of steady instructions meet every condition of their run. */
  lemma {:induction false} SteadyRun(program: seq<Instruction>, w: Wave)
    requires WellFormed(w) && HighsZero(w) && forall i :: 0 <= i < |program| ==> Steady(program[i])
    ensures SoundRun(program, w)
    decreases |program|
  {
    hide Steady, Execute, Sound, FieldsFit, Accepted;
    if program != [] {
      SteadyAccepted(program[0]);
      SteadyFits(program[0], w);
      SteadySound(program[0], w);
      SteadyKeeps(program[0], w);
      SteadyRun(program[1..], Execute(program[0], w));
    }
  }

  lemma SteadyAccepted(i: Instruction)
    requires Steady(i)
    ensures Accepted(i)
  {
  }

  /** Steady programs are translated right from entry, with nothing asked of the run. */
  lemma SteadyTranslation(program: seq<Instruction>, s: seq<U32>, v: seq<seq<U32>>, m: Machine)
    requires |s| == SCALARS && |v| == LANES && |m.lanes| == LANES
    requires forall i :: 0 <= i < LANES ==> |v[i]| == VECTORS && m.lanes[i] == EntryLane(s, v[i])
    requires forall i :: 0 <= i < |program| ==> Steady(program[i])
    requires forall i :: 0 <= i < |program| ==> Accepted(program[i])
    ensures Relates(Run(EntryCode() + EmitAll(program, 0), m), ExecuteAll(program, EntryWave(s, v)))
  {
    hide LaneMatches, Steady, Execute, Emit, Accepted, EntryCode;
    SteadyRun(program, EntryWave(s, v));
    TranslationPreservesMeaning(program, s, v, m);
  }
}
