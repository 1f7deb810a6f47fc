/** Running the statements emitted for a vector instruction does to the lanes what the instruction
    does to the wave. */
module MetalVectorSimulation {
  import opened Bits
  import opened Gen5Isa
  import opened MetalEmission
  import opened MetalMeaning
  import opened MetalRelation
  import opened MetalScalarMeaning
  import opened MetalTarget
  import opened Words

  // ---- SDWA destinations ----

  /** The low bits of a value moved to the field's place. */
  function Positioned(d: nat, x: U32): U32
    requires d < 6
  {
    Low32(Shl(BitAnd(x, LowMask(d)), FieldShift(d)))
  }

  lemma PositionedBits(d: nat, x: U32, j: nat)
    requires d < 6
    ensures Bit(Positioned(d, x), j) <==> FieldShift(d) <= j < FieldShift(d) + FieldBits(d) && Bit(x, j - FieldShift(d))
  {
    hide Low32, Shl, BitAnd, Pow2, Bit;
    OnesKnown();
    Pow2Known();
    ShlBits(BitAnd(x, LowMask(d)), FieldShift(d), j);
    if j >= FieldShift(d) {
      BitAndAt(x, LowMask(d), j - FieldShift(d));
      BitOfOnes(FieldBits(d), j - FieldShift(d));
    }
  }

  lemma RangeBits(from: nat, to: nat, j: nat)
    requires from <= to
    ensures Pow2(from) <= Pow2(to)
    ensures Bit(Pow2(to) - Pow2(from), j) <==> from <= j < to
  {
    hide Pow2, Bit;
    Pow2Monotone(from, to);
    Pow2Add(from, to - from);
    var n := Pow2(to - from) - 1;
    assert Pow2(to) - Pow2(from) == n * Pow2(from) + 0 by {
      assert Pow2(from) * Pow2(to - from) == (n + 1) * Pow2(from);
      assert (n + 1) * Pow2(from) == n * Pow2(from) + Pow2(from);
    }
    BitOfSum(n, 0, from, j);
    BitOfZero(j);
    if j >= from { BitOfOnes(to - from, j - from); }
  }

  lemma MaskBits(d: nat, j: nat)
    requires d < 6 && j < 32
    ensures Bit(FieldMask(d), j) <==> FieldShift(d) <= j < FieldShift(d) + FieldBits(d)
    ensures Bit(UpperMask(FieldShift(d) + FieldBits(d)), j) <==> j >= FieldShift(d) + FieldBits(d)
  {
    hide Pow2, Bit;
    Pow2Known();
    RangeBits(FieldShift(d), FieldShift(d) + FieldBits(d), j);
    RangeBits(FieldShift(d) + FieldBits(d), 32, j);
  }

  /** Masking a word with one power of two tests that bit. */
  lemma SingleBit(x: nat, k: nat)
    ensures BitAnd(x, Pow2(k)) != 0 <==> Bit(x, k)
  {
    hide Pow2, Bit, BitAnd;
    forall j: nat ensures Bit(BitAnd(x, Pow2(k)), j) <==> j == k && Bit(x, k) {
      BitAndAt(x, Pow2(k), j);
      PowerBit(k, j);
    }
    if Bit(x, k) {
      BitOfZero(k);
    } else {
      assert BitAnd(x, Pow2(k)) <= Pow2(k);
      Pow2Less(k);
      forall j | 0 <= j < k + 1 ensures Bit(BitAnd(x, Pow2(k)), j) <==> Bit(0, j) {
        BitOfZero(j);
      }
      BitsDetermine(BitAnd(x, Pow2(k)), 0, k + 1);
    }
  }

  lemma Pow2Less(k: nat)
    ensures Pow2(k) < Pow2(k + 1)
  {
  }

  lemma PowerBit(k: nat, j: nat)
    ensures Bit(Pow2(k), j) <==> j == k
  {
    hide Pow2, Bit;
    BitOfSum(1, 0, k, j);
    BitOfZero(j);
    if j >= k { BitOfLow(true, j - k); }
  }

  function MergedWord(d: nat, unused: nat, x: U32, previous: U32): U32
    requires d < 6
  {
    var p := Positioned(d, x);
    if unused == 0 then p
    else if unused == 1 then
      Or32(p, if BitAnd(p, SignMask(d)) != 0 then UpperMask(FieldShift(d) + FieldBits(d)) else 0)
    else Or32(BitAnd(previous, Not32(FieldMask(d))), p)
  }

  lemma MergedWordAt(d: nat, unused: nat, x: U32, previous: U32, j: nat)
    requires d < 6 && unused < 3 && j < 32
    ensures Bit(MergedWord(d, unused, x, previous), j) <==> Bit(SdwaMerge(d, unused, x, previous), j)
  {
    hide Bit, Positioned, Or32, BitAnd, Not32, FieldMask, UpperMask, Pow2;
    var p := Positioned(d, x);
    PositionedBits(d, x, j);
    MaskBits(d, j);
    if unused == 1 {
      SingleBit(p, FieldShift(d) + FieldBits(d) - 1);
      PositionedBits(d, x, FieldShift(d) + FieldBits(d) - 1);
      LogicBits(p, UpperMask(FieldShift(d) + FieldBits(d)), j);
      LogicBits(p, 0, j);
      BitOfZero(j);
    } else if unused == 2 {
      NotBit(FieldMask(d), j);
      LogicBits(previous, Not32(FieldMask(d)), j);
      LogicBits(BitAnd(previous, Not32(FieldMask(d))), p, j);
    }
  }

  lemma MergedWordRight(d: nat, unused: nat, x: U32, previous: U32)
    requires d < 6 && unused < 3
    ensures MergedWord(d, unused, x, previous) == SdwaMerge(d, unused, x, previous)
  {
    hide MergedWord, SdwaMerge, Bit;
    forall j: nat | j < 32
      ensures Bit(MergedWord(d, unused, x, previous), j) <==> Bit(SdwaMerge(d, unused, x, previous), j) {
      MergedWordAt(d, unused, x, previous, j);
    }
    SameBits(MergedWord(d, unused, x, previous), SdwaMerge(d, unused, x, previous));
  }

  lemma PositionedMeaning(d: nat, e: UExpr, m: Machine, i: nat)
    requires d < 6 && i < |m.lanes|
    ensures EvalU(ShiftL(And(e, Lit(LowMask(d))), Lit(FieldShift(d))), m, i) == Positioned(d, EvalU(e, m, i))
  {
    hide EvalU, EvalI, EvalL, EvalB, Wrap32, BitAnd, Shl, Shr, Low32, Lows, Or32, Xor32, Times, HighWord;
    EvU(m, i);
  }

  lemma ExtendedMeaning(d: nat, p: UExpr, m: Machine, i: nat)
    requires d < 6 && i < |m.lanes|
    ensures EvalU(Or(p,
        Cond(Cmp(Ne, And(p, Lit(SignMask(d))), Lit(0)), Lit(UpperMask(FieldShift(d) + FieldBits(d))), Lit(0))), m, i)
         == Or32(EvalU(p, m, i),
                 if BitAnd(EvalU(p, m, i), SignMask(d)) != 0 then UpperMask(FieldShift(d) + FieldBits(d)) else 0)
  {
    hide EvalU, EvalI, EvalL, EvalB, Wrap32, BitAnd, Shl, Shr, Low32, Lows, Or32, Xor32, Times, HighWord, SignMask,
         UpperMask;
    EvU(m, i);
    EvB(m, i);
  }

  lemma PreservedMeaning(d: nat, dst: nat, p: UExpr, m: Machine, i: nat)
    requires d < 6 && i < |m.lanes|
    ensures EvalU(Or(And(V(dst), Lit(Not32(FieldMask(d)))), p), m, i)
         == Or32(BitAnd(EvalU(V(dst), m, i), Not32(FieldMask(d))), EvalU(p, m, i))
  {
    hide EvalU, EvalI, EvalL, EvalB, Wrap32, BitAnd, Shl, Shr, Low32, Lows, Or32, Xor32, Times, HighWord, Not32,
         FieldMask;
    EvU(m, i);
  }

  lemma ReadsVector(dst: nat, m: Machine, w: Wave, i: nat)
    requires Relates(m, w) && i < LANES && dst < VECTORS
    ensures EvalU(V(dst), m, i) == w.v[i][dst]
  {
    hide Bit, Wrap32;
    assert LaneMatches(m.lanes[i], w, i);
  }

  predicate Whole(control: Control) {
    !control.SdwaControl? || control.sdwa.scalarDestination.Some? || control.sdwa.destination >= 6
  }

  /** The result in temporary k reaches the enabled lanes, merged as the destination asks. */
  lemma StoreResultRelates(control: Control, dst: nat, k: nat, m: Machine, w: Wave, f: nat -> U32, g: nat -> U32)
    requires Relates(m, w) && dst < VECTORS && ControlOk(control)
    requires forall i: nat :: i < LANES ==> EvalU(T(k), m, i) == f(i) && g(i) == Merge(control, f(i), w.v[i][dst])
    ensures Relates(Run(StoreResult(control, dst, k), m), WriteLanes(w, dst, g))
  {
    hide Bit, EvalU, EvalI, EvalL, EvalB, Wrap32;
    if Whole(control) {
      StoreVectorRelates(dst, T(k), m, w, g);
    } else {
      StoreFieldRelates(control.sdwa.destination, control.sdwa.unused, control, dst, k, m, w, f, g);
    }
  }

  lemma StoreFieldRelates(
      d: nat, unused: nat, control: Control, dst: nat, k: nat, m: Machine, w: Wave, f: nat -> U32, g: nat -> U32)
    requires Relates(m, w) && dst < VECTORS && ControlOk(control) && !Whole(control)
    requires d == control.sdwa.destination && unused == control.sdwa.unused
    requires forall i: nat :: i < LANES ==> EvalU(T(k), m, i) == f(i) && g(i) == SdwaMerge(d, unused, f(i), w.v[i][dst])
    ensures Relates(Run(StoreResult(control, dst, k), m), WriteLanes(w, dst, g))
  {
    hide Bit, EvalU, EvalI, EvalL, EvalB, Wrap32, SdwaMerge, Positioned, FieldMask, UpperMask, SignMask;
    var e1 := ShiftL(And(T(k), Lit(LowMask(d))), Lit(FieldShift(d)));
    var st1 := Let(k + 1, e1);
    var m1 := Step(st1, m);
    RunOne(st1, m);
    LetU(k + 1, e1, m, w);
    forall i: nat | i < LANES
      ensures EvalU(T(k + 1), m1, i) == Positioned(d, f(i)) && MergedWord(d, unused, f(i), w.v[i][dst]) == g(i)
    {
      PositionedMeaning(d, T(k), m, i);
      MergedWordRight(d, unused, f(i), w.v[i][dst]);
    }
    if unused == 0 {
      RunAppend([st1], StoreVector(dst, T(k + 1), true), m);
      StoreVectorRelates(dst, T(k + 1), m1, w, g);
    } else {
      var e2 := if unused == 1 then
        Or(T(k + 1),
           Cond(Cmp(Ne, And(T(k + 1), Lit(SignMask(d))), Lit(0)), Lit(UpperMask(FieldShift(d) + FieldBits(d))), Lit(0)))
      else Or(And(V(dst), Lit(Not32(FieldMask(d)))), T(k + 1));
      var st2 := Let(k + 2, e2);
      var m2 := Step(st2, m1);
      LetU(k + 2, e2, m1, w);
      forall i: nat | i < LANES ensures EvalU(T(k + 2), m2, i) == g(i) {
        ExtendedMeaning(d, T(k + 1), m1, i);
        PreservedMeaning(d, dst, T(k + 1), m1, i);
        ReadsVector(dst, m1, w, i);
      }
      RunAppend([st1] + [st2], StoreVector(dst, T(k + 2), true), m);
      RunAppend([st1], [st2], m);
      RunOne(st2, m1);
      StoreVectorRelates(dst, T(k + 2), m2, w, g);
    }
  }

  // ---- plain vector instructions ----

  /** Vector writes agree when the values of the enabled lanes do. */
  lemma WriteLanesAgree(w: Wave, dst: nat, f: nat -> U32, g: nat -> U32)
    requires WellFormed(w) && forall i: nat :: i < LANES && ExecAt(w, i) ==> f(i) == g(i)
    ensures WriteLanes(w, dst, f) == WriteLanes(w, dst, g)
  {
    hide Bit;
    var a, b := WriteLanes(w, dst, f), WriteLanes(w, dst, g);
    forall i | 0 <= i < LANES ensures a.v[i] == b.v[i] {
      assert a.v[i] == LaneAfter(w, dst, f, i) && b.v[i] == LaneAfter(w, dst, g, i);
    }
  }

  function MergeLanes(control: Control, f: nat -> U32, dst: nat, w: Wave): nat -> U32
    requires WellFormed(w) && dst < VECTORS
  {
    (l: nat) => if l < LANES then Merge(control, f(l), w.v[l][dst]) else 0
  }

  lemma VectorRelates(op: VOp, dst: nat, src: seq<Operand>, control: Control, k: nat, m: Machine, w: Wave)
    requires Relates(m, w) && AsWritten(VectorOp(op, dst, src, control))
    requires forall i: nat :: i < LANES && ExecAt(w, i) && op.Shift? ==>
      ShiftDefined(op.h, SourceOrZero(1, src, control, w, i), SourceOrZero(2, src, control, w, i))
    ensures Relates(Run(Emit(VectorOp(op, dst, src, control), k), m),
                    WriteLanes(w, dst, VectorLanes(EmittedOp(op), dst, src, control, w)))
  {
    hide Bit, EvalU, EvalI, EvalL, EvalB, Wrap32, VectorExpr, VectorValue, SourceOrZero, RawOrZero, Merge, StoreResult,
         ShiftDefined;
    hide WriteLanes;
    var a, b, c := RawOrZero(0, src, control), RawOrZero(1, src, control), RawOrZero(2, src, control);
    var e := VectorExpr(op, a, b, c);
    var m1 := Step(Let(k, e), m);
    LetU(k, e, m, w);
    var f := (l: nat) => if l < LANES then EvalU(T(k), m1, l) else 0;
    var g := MergeLanes(control, f, dst, w);
    RunCons(Let(k, e), StoreResult(control, dst, k), m);
    StoreResultRelates(control, dst, k, m1, w, f, g);
    forall i: nat | i < LANES && ExecAt(w, i) ensures g(i) == VectorLanes(EmittedOp(op), dst, src, control, w)(i) {
      RawOrZeroMeaning(0, src, control, m, w, i);
      RawOrZeroMeaning(1, src, control, m, w, i);
      RawOrZeroMeaning(2, src, control, m, w, i);
      VectorMeaning(op, a, b, c, m, i);
    }
    WriteLanesAgree(w, dst, g, VectorLanes(EmittedOp(op), dst, src, control, w));
  }

  /** The selected words, stored whole. */
  function WholeSelect(src: seq<Operand>, control: Control, w: Wave): nat -> U32
    requires WellFormed(w)
  {
    (l: nat) => if l < LANES then SelectValue(src, control, w, l) else 0
  }

  lemma SelectRelates(dst: nat, src: seq<Operand>, control: Control, k: nat, m: Machine, w: Wave)
    requires Relates(m, w) && AsWritten(VCndmask(dst, src, control))
    ensures Relates(Run(Emit(VCndmask(dst, src, control), k), m), WriteLanes(w, dst, WholeSelect(src, control, w)))
  {
    hide Bit, EvalU, EvalI, EvalL, EvalB, Wrap32, SourceOrZero, Raw, MaskBitExpr, MaskBit;
    var e := Cond(MaskBitExpr(src), Raw(1, src, control), Raw(0, src, control));
    forall i: nat | i < LANES ensures EvalU(e, m, i) == WholeSelect(src, control, w)(i) {
      EvU(m, i);
      MaskBitMeaning(src, m, w, i);
      RawMeaning(0, src, control, m, w, i);
      RawMeaning(1, src, control, m, w, i);
    }
    StoreVectorRelates(dst, e, m, w, WholeSelect(src, control, w));
  }

  // ---- carries ----

  lemma StoreCarryRelates(control: Control, carry: BExpr, k: nat, m: Machine, w: Wave, mask: U32)
    requires Relates(m, w) && FlagsSpared(w.s, MaskTarget(control))
    requires forall j: nat :: Bit(mask, j) <==> j < LANES && ExecAt(w, j) && EvalB(carry, m, j)
    ensures var m' := Run(StoreCarryOut(control, carry, k), m);
      Relates(m', w.(s := EmittedMask(w.s, MaskTarget(control), mask))) && TempsKept(m, m', k)
  {
    hide Bit, EvalU, EvalI, EvalL, EvalB, Wrap32, StoreMask;
    var st := LetB(k, BAnd(Exec, carry));
    var m1 := Step(st, m);
    LetBool(k, BAnd(Exec, carry), m, w);
    forall j: nat ensures Bit(mask, j) <==> j < LANES && EvalB(BT(k), m1, j) {
      if j < LANES { ActiveMeaning(carry, m, w, j); }
    }
    RunCons(st, StoreMask(MaskTarget(control), BT(k)), m);
    StoreMaskRelates(MaskTarget(control), k, m1, w, mask);
    var m2 := Run(StoreMask(MaskTarget(control), BT(k)), m1);
    SameTempsKept(m1, m2, k);
    KeptTwice(m, m1, m2, k, k);
  }

  lemma ActiveMeaning(c: BExpr, m: Machine, w: Wave, i: nat)
    requires Relates(m, w) && i < LANES
    ensures EvalB(BAnd(Exec, c), m, i) <==> ExecAt(w, i) && EvalB(c, m, i)
  {
    hide Bit, EvalU, EvalI, EvalL;
    assert LaneMatches(m.lanes[i], w, i);
  }

  /** The tail every carry instruction shares: the mask is stored, then the result. */
  lemma CarryTailRelates(
      control: Control, carry: BExpr, result: UExpr, dst: nat, k: nat, m: Machine, w: Wave, mask: U32, f: nat -> U32,
      g: nat -> U32)
    requires Relates(m, w) && FlagsSpared(w.s, MaskTarget(control)) && ControlOk(control) && dst < VECTORS
    requires forall j: nat :: Bit(mask, j) <==> j < LANES && ExecAt(w, j) && EvalB(carry, m, j)
    requires forall i: nat :: i < LANES ==> EvalU(result, m, i) == f(i) && Stable(result, k, m, i)
    requires forall i: nat :: i < LANES ==> g(i) == Merge(control, f(i), w.v[i][dst])
    ensures Relates(Run(StoreCarryOut(control, carry, k) + [Let(k + 1, result)] + StoreResult(control, dst, k + 1), m),
                    WriteLanes(w.(s := EmittedMask(w.s, MaskTarget(control), mask)), dst, g))
  {
    hide Bit, EvalU, EvalI, EvalL, EvalB, Wrap32, StoreCarryOut, StoreResult, Merge;
    var store := StoreCarryOut(control, carry, k);
    var m1 := Run(store, m);
    var w1 := w.(s := EmittedMask(w.s, MaskTarget(control), mask));
    StoreCarryRelates(control, carry, k, m, w, mask);
    var m2 := Step(Let(k + 1, result), m1);
    forall i: nat | i < LANES ensures EvalU(result, m1, i) == f(i) {
      assert Stable(result, k, m, i);
    }
    LetU(k + 1, result, m1, w1);
    RunAppend(store + [Let(k + 1, result)], StoreResult(control, dst, k + 1), m);
    RunAppend(store, [Let(k + 1, result)], m);
    RunOne(Let(k + 1, result), m1);
    StoreResultRelates(control, dst, k + 1, m2, w1, f, g);
  }

  /** Two operands read into consecutive temporaries. */
  lemma OperandTemps(j0: nat, j1: nat, src: seq<Operand>, control: Control, k: nat, m: Machine, w: Wave)
    requires Relates(m, w) && j0 < |src| && j1 < |src| && SourcesOk(src, 0) && ControlOk(control)
    ensures var m' := Run([Let(k, Raw(j0, src, control)), Let(k + 1, Raw(j1, src, control))], m);
      Relates(m', w) && forall i: nat :: i < LANES ==>
        EvalU(T(k), m', i) == SourceOrZero(j0, src, control, w, i)
          && EvalU(T(k + 1), m', i) == SourceOrZero(j1, src, control, w, i)
  {
    hide Bit, EvalU, EvalI, EvalL, EvalB, Wrap32, Raw, SourceOrZero;
    var m1 := Step(Let(k, Raw(j0, src, control)), m);
    var m2 := Step(Let(k + 1, Raw(j1, src, control)), m1);
    RunTwo(Let(k, Raw(j0, src, control)), Let(k + 1, Raw(j1, src, control)), m);
    LetU(k, Raw(j0, src, control), m, w);
    LetU(k + 1, Raw(j1, src, control), m1, w);
    forall i: nat | i < LANES
      ensures EvalU(T(k), m2, i) == SourceOrZero(j0, src, control, w, i)
      ensures EvalU(T(k + 1), m2, i) == SourceOrZero(j1, src, control, w, i)
    {
      assert TempKept(m1, m2, i, k);
      RawMeaning(j0, src, control, m, w, i);
      RawMeaning(j1, src, control, m1, w, i);
    }
  }

  /** One more temporary after others: it holds its expression, they still hold theirs. */
  lemma NextTemp(code: seq<Stmt>, k: nat, e: UExpr, m: Machine, w: Wave)
    requires Relates(Run(code, m), w)
    ensures var m1 := Run(code, m);
      var m2 := Run(code + [Let(k, e)], m);
      && Relates(m2, w) && TempsKept(m1, m2, k) && |m1.lanes| == LANES
      && forall i: nat :: i < LANES ==> EvalU(T(k), m2, i) == EvalU(e, m1, i)
  {
    RunAppend(code, [Let(k, e)], m);
    RunOne(Let(k, e), Run(code, m));
    LetU(k, e, Run(code, m), w);
  }

  lemma Regroup<X>(a: seq<X>, b: seq<X>, c: seq<X>, d: seq<X>)
    ensures a + b + c + d == a + (b + c + d)
  {
  }

  function CarryF(op: COp, src: seq<Operand>, control: Control, w: Wave): nat -> U32
    requires WellFormed(w)
  {
    (l: nat) => if l < LANES then CarryResult(op, src, control, w, l).0 else 0
  }

  /** What the emitted code does: the mask first, then the result in the lanes enabled by then. */
  function EmittedCarry(op: COp, dst: nat, src: seq<Operand>, control: Control, w: Wave): (w': Wave)
    requires WellFormed(w) && dst < VECTORS
    ensures WellFormed(w')
  {
    WriteLanes(w.(s := EmittedMask(w.s, MaskTarget(control), CarryMask(op, src, control, w))), dst,
               CarryLanes(op, dst, src, control, w))
  }

  /** A carry instruction, given that its preparation leaves the carry and the result ready. */
  lemma CarryRelates(
      op: COp, dst: nat, src: seq<Operand>, control: Control, code: seq<Stmt>, carry: BExpr, result: UExpr, k: nat,
      m: Machine, w: Wave)
    requires WellFormed(w) && Relates(Run(code, m), w) && FlagsSpared(w.s, MaskTarget(control)) && ControlOk(control)
      && dst < VECTORS
    requires forall i: nat :: i < LANES ==> CarryReady(op, src, control, carry, result, k, Run(code, m), w, i)
    ensures Relates(Run(code + StoreCarryOut(control, carry, k) + [Let(k + 1, result)]
                        + StoreResult(control, dst, k + 1), m),
                    EmittedCarry(op, dst, src, control, w))
  {
    hide Bit, EvalU, EvalI, EvalL, EvalB, Wrap32, StoreCarryOut, StoreResult, Merge, CarryResult, Stable;
    hide EmittedMask, WriteLanes, CarryMask, ControlOk, Step, StepLane;
    var m1 := Run(code, m);
    var tail := StoreCarryOut(control, carry, k) + [Let(k + 1, result)] + StoreResult(control, dst, k + 1);
    Regroup(code, StoreCarryOut(control, carry, k), [Let(k + 1, result)], StoreResult(control, dst, k + 1));
    RunAppend(code, tail, m);
    var mask := CarryMask(op, src, control, w);
    forall j: nat ensures Bit(mask, j) <==> j < LANES && ExecAt(w, j) && EvalB(carry, m1, j) {
      if j < LANES { assert CarryReady(op, src, control, carry, result, k, m1, w, j); }
    }
    var f, g := CarryF(op, src, control, w), CarryLanes(op, dst, src, control, w);
    forall i: nat | i < LANES ensures EvalU(result, m1, i) == f(i) && Stable(result, k, m1, i) {
      assert CarryReady(op, src, control, carry, result, k, m1, w, i);
    }
    CarryTailRelates(control, carry, result, dst, k, m1, w, mask, f, g);
  }

  ghost predicate CarryReady(
      op: COp, src: seq<Operand>, control: Control, carry: BExpr, result: UExpr, k: nat, m: Machine, w: Wave, i: nat)
    requires WellFormed(w) && i < LANES
  {
    && |m.lanes| == LANES
    && (EvalB(carry, m, i) <==> CarryResult(op, src, control, w, i).1)
    && EvalU(result, m, i) == CarryResult(op, src, control, w, i).0 && Stable(result, k, m, i)
  }

  /** An expression that only later temporaries could change. */
  ghost predicate Stable(e: UExpr, k: nat, m: Machine, i: nat)
    requires i < |m.lanes|
  {
    forall m': Machine {:trigger TempsKept(m, m', k)} :: TempsKept(m, m', k) ==> EvalU(e, m', i) == EvalU(e, m, i)
  }

  lemma StableTemp(j: nat, k: nat, m: Machine, i: nat)
    requires i < |m.lanes| && j < k
    ensures Stable(T(j), k, m, i)
  {
    hide EvalU, EvalL, EvalB;
    forall m': Machine {:trigger TempsKept(m, m', k)} | TempsKept(m, m', k)
      ensures EvalU(T(j), m', i) == EvalU(T(j), m, i) {
      KeptTemp(j, m, m', k, i);
    }
  }

  lemma StableDifference(j: nat, j': nat, k: nat, m: Machine, i: nat)
    requires i < |m.lanes| && j < k && j' < k
    ensures Stable(Sub(T(j), T(j')), k, m, i)
  {
    hide EvalU, EvalL, EvalB, BinaryU;
    forall m': Machine {:trigger TempsKept(m, m', k)} | TempsKept(m, m', k)
      ensures EvalU(Sub(T(j), T(j')), m', i) == EvalU(Sub(T(j), T(j')), m, i)
    {
      KeptTemp(j, m, m', k, i);
      KeptTemp(j', m, m', k, i);
      EvBin(SubOp, T(j), T(j'), m, i);
      EvBin(SubOp, T(j), T(j'), m', i);
    }
  }

  // ---- the three carry chains ----

  lemma AddCarryValue(a: U32, b: U32, c: U32)
    requires c <= 1
    ensures var p := Wrap32(a + b);
      var s := Wrap32(p + c);
      s == Wrap32(a + b + c) && (p < a || s < p <==> a + b + c >= TWO32)
  {
  }

  lemma SubBorrowValue(a: U32, b: U32, c: U32)
    requires c <= 1
    ensures var p := Wrap32(a - b);
      Wrap32(p - c) == Wrap32(a - b - c) && (a < b || p < c <==> a < b + c)
  {
  }

  lemma KeptTemp(j: nat, m: Machine, m': Machine, k: nat, i: nat)
    requires TempsKept(m, m', k) && j < k && i < |m.lanes|
    ensures EvalU(T(j), m', i) == EvalU(T(j), m, i)
  {
    hide EvalU, EvalL, EvalB;
    assert TempKept(m, m', i, j);
  }

  /** What the operands of a carry instruction evaluate to. */
  predicate Holds(k: nat, x: U32, m: Machine, i: nat)
    requires i < |m.lanes|
  {
    EvalU(T(k), m, i) == x
  }

  lemma AddCoReady(src: seq<Operand>, control: Control, k: nat, m1: Machine, m2: Machine, w: Wave, i: nat)
    requires WellFormed(w) && i < LANES && |m1.lanes| == LANES && TempsKept(m1, m2, k + 2)
    requires Holds(k, SourceOrZero(0, src, control, w, i), m1, i)
      && Holds(k + 1, SourceOrZero(1, src, control, w, i), m1, i)
    requires EvalU(T(k + 2), m2, i) == EvalU(Add(T(k), T(k + 1)), m1, i)
    ensures CarryReady(VAddCo, src, control, Cmp(Lt, T(k + 2), T(k)), T(k + 2), k + 3, m2, w, i)
  {
    hide Bit, EvalU, EvalI, EvalL, EvalB, Wrap32, SourceOrZero, Stable, TempKept, MaskBit;
    KeptTemp(k, m1, m2, k + 2, i);
    EvBin(AddOp, T(k), T(k + 1), m1, i);
    EvB(m2, i);
    WrapOfSum(SourceOrZero(0, src, control, w, i), SourceOrZero(1, src, control, w, i));
    StableTemp(k + 2, k + 3, m2, i);
  }

  lemma AddCoRelates(dst: nat, src: seq<Operand>, control: Control, k: nat, m: Machine, w: Wave)
    requires Relates(m, w) && dst < VECTORS && SourcesOk(src, 2) && ControlOk(control)
      && FlagsSpared(w.s, MaskTarget(control))
    ensures Relates(Run(EmitCarry(VAddCo, dst, src, control, k), m), EmittedCarry(VAddCo, dst, src, control, w))
  {
    hide Bit, EvalU, EvalI, EvalL, EvalB, Wrap32, StoreCarryOut, StoreResult, Raw, SourceOrZero, CarryReady,
         EmittedCarry;
    var lets := [Let(k, Raw(0, src, control)), Let(k + 1, Raw(1, src, control))];
    OperandTemps(0, 1, src, control, k, m, w);
    NextTemp(lets, k + 2, Add(T(k), T(k + 1)), m, w);
    var code, carry, result, k' := lets + [Let(k + 2, Add(T(k), T(k + 1)))], Cmp(Lt, T(k + 2), T(k)), T(k + 2), k + 3;
    var m1, m2 := Run(lets, m), Run(code, m);
    forall i: nat | i < LANES ensures CarryReady(VAddCo, src, control, carry, result, k', m2, w, i) {
      AddCoReady(src, control, k, m1, m2, w, i);
    }
    CarryRelates(VAddCo, dst, src, control, code, carry, result, k', m, w);
  }

  // ---- subtraction without borrow in ----

  predicate Reversed(op: COp) {
    op == VSubrevCo || op == VSubbrev
  }

  lemma SubCoReady(op: COp, src: seq<Operand>, control: Control, k: nat, m1: Machine, w: Wave, i: nat)
    requires WellFormed(w) && i < LANES && |m1.lanes| == LANES && (op == VSubCo || op == VSubrevCo)
    requires Holds(k, SourceOrZero(if Reversed(op) then 1 else 0, src, control, w, i), m1, i)
    requires Holds(k + 1, SourceOrZero(if Reversed(op) then 0 else 1, src, control, w, i), m1, i)
    ensures CarryReady(op, src, control, Cmp(Lt, T(k), T(k + 1)), Sub(T(k), T(k + 1)), k + 2, m1, w, i)
  {
    hide Bit, EvalU, EvalI, EvalL, EvalB, Wrap32, SourceOrZero, Stable, TempKept, MaskBit;
    EvBin(SubOp, T(k), T(k + 1), m1, i);
    EvB(m1, i);
    StableDifference(k, k + 1, k + 2, m1, i);
  }

  lemma SubCoRelates(op: COp, dst: nat, src: seq<Operand>, control: Control, k: nat, m: Machine, w: Wave)
    requires Relates(m, w) && dst < VECTORS && SourcesOk(src, 2) && ControlOk(control)
      && FlagsSpared(w.s, MaskTarget(control))
    requires op == VSubCo || op == VSubrevCo
    ensures Relates(Run(EmitCarry(op, dst, src, control, k), m), EmittedCarry(op, dst, src, control, w))
  {
    hide Bit, EvalU, EvalI, EvalL, EvalB, Wrap32, StoreCarryOut, StoreResult, Raw, SourceOrZero, CarryReady,
         EmittedCarry;
    var j0, j1 := if Reversed(op) then 1 else 0, if Reversed(op) then 0 else 1;
    OperandTemps(j0, j1, src, control, k, m, w);
    var code, carry, result, k' :=
      [Let(k, Raw(j0, src, control)), Let(k + 1, Raw(j1, src, control))], Cmp(Lt, T(k), T(k + 1)),
      Sub(T(k), T(k + 1)), k + 2;
    var m1 := Run(code, m);
    forall i: nat | i < LANES ensures CarryReady(op, src, control, carry, result, k', m1, w, i) {
      SubCoReady(op, src, control, k, m1, w, i);
    }
    CarryRelates(op, dst, src, control, code, carry, result, k', m, w);
  }

  // ---- with a carry in ----

  lemma AddcReady(src: seq<Operand>, control: Control, k: nat, m1: Machine, m2: Machine, m3: Machine, w: Wave, i: nat)
    requires WellFormed(w) && i < LANES && |m1.lanes| == LANES && TempsKept(m1, m2, k + 2) && TempsKept(m2, m3, k + 3)
    requires Holds(k, SourceOrZero(0, src, control, w, i), m1, i)
      && Holds(k + 1, SourceOrZero(1, src, control, w, i), m1, i)
    requires EvalU(T(k + 2), m2, i) == EvalU(Add(T(k), T(k + 1)), m1, i)
    requires EvalU(T(k + 3), m3, i) == EvalU(Add(T(k + 2), FlagExpr(MaskBitExpr(src))), m2, i)
    requires EvalB(MaskBitExpr(src), m2, i) <==> MaskBit(src, w, i)
    ensures CarryReady(VAddc, src, control, BOr(Cmp(Lt, T(k + 2), T(k)), Cmp(Lt, T(k + 3), T(k + 2))), T(k + 3), k + 4,
                       m3, w, i)
  {
    hide Bit, EvalU, EvalI, EvalL, EvalB, Wrap32, SourceOrZero, Stable, TempKept, MaskBit, MaskBitExpr, FlagExpr;
    KeptTemp(k, m1, m2, k + 2, i);
    KeptTemp(k, m2, m3, k + 3, i);
    KeptTemp(k + 2, m2, m3, k + 3, i);
    EvBin(AddOp, T(k), T(k + 1), m1, i);
    EvBin(AddOp, T(k + 2), FlagExpr(MaskBitExpr(src)), m2, i);
    FlagMeaning(MaskBitExpr(src), m2, i);
    EvB(m3, i);
    AddCarryValue(SourceOrZero(0, src, control, w, i), SourceOrZero(1, src, control, w, i), Flag(MaskBit(src, w, i)));
    StableTemp(k + 3, k + 4, m3, i);
  }

  lemma AddcRelates(dst: nat, src: seq<Operand>, control: Control, k: nat, m: Machine, w: Wave)
    requires Relates(m, w) && dst < VECTORS && SourcesOk(src, 2) && ControlOk(control)
      && FlagsSpared(w.s, MaskTarget(control)) && MaskSourceOk(src)
    ensures Relates(Run(EmitCarry(VAddc, dst, src, control, k), m), EmittedCarry(VAddc, dst, src, control, w))
  {
    hide Bit, EvalU, EvalI, EvalL, EvalB, Wrap32, StoreCarryOut, StoreResult, Raw, SourceOrZero, CarryReady,
         EmittedCarry;
    hide MaskBit, MaskBitExpr, FlagExpr, MaskSourceOk;
    var lets := [Let(k, Raw(0, src, control)), Let(k + 1, Raw(1, src, control))];
    var e2, e3 := Add(T(k), T(k + 1)), Add(T(k + 2), FlagExpr(MaskBitExpr(src)));
    var code2 := lets + [Let(k + 2, e2)];
    var code := code2 + [Let(k + 3, e3)];
    OperandTemps(0, 1, src, control, k, m, w);
    NextTemp(lets, k + 2, e2, m, w);
    NextTemp(code2, k + 3, e3, m, w);
    var m1, m2, m3 := Run(lets, m), Run(code2, m), Run(code, m);
    var carry, result, k' := BOr(Cmp(Lt, T(k + 2), T(k)), Cmp(Lt, T(k + 3), T(k + 2))), T(k + 3), k + 4;
    forall i: nat | i < LANES ensures CarryReady(VAddc, src, control, carry, result, k', m3, w, i) {
      MaskBitMeaning(src, m2, w, i);
      AddcReady(src, control, k, m1, m2, m3, w, i);
    }
    CarryRelates(VAddc, dst, src, control, code, carry, result, k', m, w);
  }

  lemma SubbReady(op: COp, src: seq<Operand>, control: Control, k: nat, m1: Machine, m2: Machine, m3: Machine, w: Wave,
      i: nat)
    requires WellFormed(w) && i < LANES && |m1.lanes| == LANES && TempsKept(m1, m2, k + 2) && TempsKept(m2, m3, k + 3)
    requires op == VSubb || op == VSubbrev
    requires Holds(k, SourceOrZero(if Reversed(op) then 1 else 0, src, control, w, i), m1, i)
    requires Holds(k + 1, SourceOrZero(if Reversed(op) then 0 else 1, src, control, w, i), m1, i)
    requires EvalU(T(k + 2), m2, i) == EvalU(FlagExpr(MaskBitExpr(src)), m1, i)
    requires EvalU(T(k + 3), m3, i) == EvalU(Sub(T(k), T(k + 1)), m2, i)
    requires EvalB(MaskBitExpr(src), m1, i) <==> MaskBit(src, w, i)
    ensures CarryReady(op, src, control, BOr(Cmp(Lt, T(k), T(k + 1)), Cmp(Lt, T(k + 3), T(k + 2))),
                       Sub(T(k + 3), T(k + 2)), k + 4, m3, w, i)
  {
    hide Bit, EvalU, EvalI, EvalL, EvalB, Wrap32, SourceOrZero, Stable, TempKept, MaskBit, MaskBitExpr, FlagExpr;
    KeptTemp(k, m1, m2, k + 2, i);
    KeptTemp(k + 1, m1, m2, k + 2, i);
    KeptTemp(k, m2, m3, k + 3, i);
    KeptTemp(k + 1, m2, m3, k + 3, i);
    KeptTemp(k + 2, m2, m3, k + 3, i);
    EvBin(SubOp, T(k), T(k + 1), m2, i);
    EvBin(SubOp, T(k + 3), T(k + 2), m3, i);
    FlagMeaning(MaskBitExpr(src), m1, i);
    EvB(m3, i);
    var x, y := SourceOrZero(0, src, control, w, i), SourceOrZero(1, src, control, w, i);
    SubBorrowValue(if Reversed(op) then y else x, if Reversed(op) then x else y, Flag(MaskBit(src, w, i)));
    StableDifference(k + 3, k + 2, k + 4, m3, i);
  }

  lemma SubbRelates(op: COp, dst: nat, src: seq<Operand>, control: Control, k: nat, m: Machine, w: Wave)
    requires Relates(m, w) && dst < VECTORS && SourcesOk(src, 2) && ControlOk(control)
      && FlagsSpared(w.s, MaskTarget(control)) && MaskSourceOk(src)
    requires op == VSubb || op == VSubbrev
    ensures Relates(Run(EmitCarry(op, dst, src, control, k), m), EmittedCarry(op, dst, src, control, w))
  {
    hide Bit, EvalU, EvalI, EvalL, EvalB, Wrap32, StoreCarryOut, StoreResult, Raw, SourceOrZero, CarryReady,
         EmittedCarry;
    hide MaskBit, MaskBitExpr, FlagExpr, MaskSourceOk;
    var j0, j1 := if Reversed(op) then 1 else 0, if Reversed(op) then 0 else 1;
    var lets := [Let(k, Raw(j0, src, control)), Let(k + 1, Raw(j1, src, control))];
    var e2, e3 := FlagExpr(MaskBitExpr(src)), Sub(T(k), T(k + 1));
    var code2 := lets + [Let(k + 2, e2)];
    var code := code2 + [Let(k + 3, e3)];
    OperandTemps(j0, j1, src, control, k, m, w);
    NextTemp(lets, k + 2, e2, m, w);
    NextTemp(code2, k + 3, e3, m, w);
    var m1, m2, m3 := Run(lets, m), Run(code2, m), Run(code, m);
    var carry, result, k' := BOr(Cmp(Lt, T(k), T(k + 1)), Cmp(Lt, T(k + 3), T(k + 2))), Sub(T(k + 3), T(k + 2)), k + 4;
    forall i: nat | i < LANES ensures CarryReady(op, src, control, carry, result, k', m3, w, i) {
      MaskBitMeaning(src, m1, w, i);
      SubbReady(op, src, control, k, m1, m2, m3, w, i);
    }
    CarryRelates(op, dst, src, control, code, carry, result, k', m, w);
  }

  lemma CarryOpRelates(op: COp, dst: nat, src: seq<Operand>, control: Control, k: nat, m: Machine, w: Wave)
    requires Relates(m, w) && AsWritten(CarryOp(op, dst, src, control)) && FlagsSpared(w.s, MaskTarget(control))
    ensures Relates(Run(Emit(CarryOp(op, dst, src, control), k), m), EmittedCarry(op, dst, src, control, w))
  {
    hide Bit, EvalU, EvalI, EvalL, EvalB, Wrap32, EmitCarry, EmittedCarry, Step, StepLane;
    match op
    case VAddCo => AddCoRelates(dst, src, control, k, m, w);
    case VSubCo | VSubrevCo => SubCoRelates(op, dst, src, control, k, m, w);
    case VAddc => AddcRelates(dst, src, control, k, m, w);
    case VSubb | VSubbrev => SubbRelates(op, dst, src, control, k, m, w);
  }
}
