/** Operands that the emitted text reads otherwise than the instruction set does, and the condition under
    which the code of any accepted instruction does what the instruction does. */
module MetalReadings {
  import opened Bits
  import opened Gen5Isa
  import opened Metal64Simulation
  import opened MetalEmission
  import opened MetalEmitted
  import opened MetalLaneSimulation
  import opened MetalMadSimulation
  import opened MetalMeaning
  import opened MetalMiscSimulation
  import opened MetalRelation
  import opened MetalTarget
  import opened MetalVectorSimulation
  import opened Words

  // ---- when an operand is read alike ----

  /** The status bits of a mask agree unless only its upper half has a bit set. */
  predicate WordAlike(o: Operand, w: Wave)
    requires WellFormed(w)
  {
    match o
    case Encoded(code) =>
      && (code == 251 ==> w.s[VCC] != 0 || w.s[VCC + 1] == 0)
      && (code == 252 ==> w.s[EXEC] != 0 || w.s[EXEC + 1] == 0)
    case _ => true
  }

  /** A 64-bit operand is read alike unless it is a floating-point constant. */
  predicate WideAlike(o: Operand, w: Wave)
    requires WellFormed(w)
  {
    WordAlike(o, w) && !(o.Encoded? && InlineDouble(o.code).Some?)
  }

  /** The field that a control word selects lies in the low half of its 64-bit operand. */
  predicate FieldInLowHalf(control: U32) {
    var offset := control % 64;
    var width := FieldWidth(control, offset, 64);
    width == 0 || offset + width <= 32
  }

  predicate ReadAlike(i: Instruction, w: Wave)
    requires WellFormed(w) && Accepted(i)
  {
    match i
    case VCompareConst(_, _, _) | ScalarK(_, _, _) | ScalarCompareK(_, _, _, _) => true
    case VMadU64(_, src, _) => WordsAlike(src, w) && WideAlike(src[2], w)
    case Saveexec64(_, _, src) => WideAlike(src[0], w)
    case Scalar64(op, _, src) =>
      && WordsAlike(src, w)
      && (op != SBfm64 ==> WideAlike(src[0], w))
      && (op.SLogic64? || op.SCselect64? ==> WideAlike(src[1], w))
      && (op.SBfeI64? && src[0].Literal? ==> src[0].n < 0x8000_0000 || FieldInLowHalf(Uniform(1, src, w)))
    case _ => WordsAlike(i.src, w)
  }

  predicate WordsAlike(src: seq<Operand>, w: Wave)
    requires WellFormed(w)
  {
    forall j :: 0 <= j < |src| ==> WordAlike(src[j], w)
  }

  lemma WordReads(o: Operand, w: Wave, l: nat)
    requires WellFormed(w) && l < LANES && OperandAccepted(o)
    ensures ReadOperand(Rendered(o), w, l) == ReadOperand(o, w, l) <==> WordAlike(o, w)
  {
  }

  lemma SourceReads(j: nat, src: seq<Operand>, control: Control, w: Wave, l: nat)
    requires WellFormed(w) && l < LANES && SourcesAccepted(src, 0) && WordsAlike(src, w)
    ensures SourceOrZero(j, RenderedAll(src), control, w, l) == SourceOrZero(j, src, control, w, l)
  {
    hide ReadOperand, SdwaValue, Rendered, WordAlike;
    if j < |src| {
      assert OperandAccepted(src[j]);
      WordReads(src[j], w, l);
    }
  }

  lemma WideReads(o: Operand, w: Wave, l: nat)
    requires WellFormed(w) && l < LANES && OperandAccepted(o) && WideAlike(o, w)
    ensures Source64(Rendered(o), w, l) == Source64(o, w, l)
  {
  }

  // ---- instructions read alike execute alike ----

  lemma UniformReads(j: nat, src: seq<Operand>, w: Wave)
    requires WellFormed(w) && SourcesAccepted(src, 0) && WordsAlike(src, w)
    ensures Uniform(j, RenderedAll(src), w) == Uniform(j, src, w)
  {
    SourceReads(j, src, Plain, w, 0);
  }

  lemma Uniform64Reads(j: nat, src: seq<Operand>, w: Wave)
    requires WellFormed(w) && SourcesAccepted(src, 0) && j < |src| && WideAlike(src[j], w)
    ensures Uniform64(j, RenderedAll(src), w) == Uniform64(j, src, w)
  {
    hide Rendered, WideAlike, Source64;
    WideReads(src[j], w, 0);
  }

  lemma MaskReads(src: seq<Operand>, w: Wave, l: nat)
    requires WellFormed(w)
    ensures MaskBit(RenderedAll(src), w, l) == MaskBit(src, w, l)
  {
    hide Bit;
  }

  lemma VectorReads(op: VOp, dst: nat, src: seq<Operand>, control: Control, w: Wave)
    requires WellFormed(w) && dst < VECTORS && SourcesAccepted(src, 0) && WordsAlike(src, w)
    ensures WriteLanes(w, dst, VectorLanes(op, dst, RenderedAll(src), control, w))
         == WriteLanes(w, dst, VectorLanes(op, dst, src, control, w))
  {
    hide Bit, SourceOrZero, RenderedAll, Merge, VectorValue, SourcesAccepted, WordsAlike;
    var f, g := VectorLanes(op, dst, RenderedAll(src), control, w), VectorLanes(op, dst, src, control, w);
    forall l: nat | l < LANES && ExecAt(w, l) ensures f(l) == g(l) {
      SourceReads(0, src, control, w, l);
      SourceReads(1, src, control, w, l);
      SourceReads(2, src, control, w, l);
    }
    WriteLanesAgree(w, dst, f, g);
  }

  lemma CarryReads(op: COp, dst: nat, src: seq<Operand>, control: Control, w: Wave)
    requires WellFormed(w) && dst < VECTORS && SourcesAccepted(src, 0) && WordsAlike(src, w)
    ensures ExecuteCarry(op, dst, RenderedAll(src), control, w) == ExecuteCarry(op, dst, src, control, w)
  {
    hide Bit, SourceOrZero, RenderedAll, Merge, CarryValue, SourcesAccepted, WordsAlike, MaskBit, WriteLanes;
    var r := RenderedAll(src);
    forall l: nat | l < LANES ensures CarryResult(op, r, control, w, l) == CarryResult(op, src, control, w, l) {
      SourceReads(0, src, control, w, l);
      SourceReads(1, src, control, w, l);
      MaskReads(src, w, l);
    }
    SameBits(CarryMask(op, r, control, w), CarryMask(op, src, control, w));
    WriteLanesAgree(w, dst, CarryLanes(op, dst, r, control, w), CarryLanes(op, dst, src, control, w));
  }

  lemma MadReads(dst: nat, src: seq<Operand>, control: Control, w: Wave)
    requires WellFormed(w) && |src| > 2 && SourcesAccepted(src, 0) && WordsAlike(src, w) && WideAlike(src[2], w)
    ensures ExecuteMad(dst, RenderedAll(src), control, w) == ExecuteMad(dst, src, control, w)
  {
    hide Bit, SourceOrZero, Rendered, Times, WordsAlike, WideAlike, Source64, WriteLanes, Wrap32, Wrap64;
    var r := RenderedAll(src);
    forall l: nat | l < LANES ensures MadWide(r, control, w, l) == MadWide(src, control, w, l) {
      SourceReads(0, src, control, w, l);
      SourceReads(1, src, control, w, l);
      WideReads(src[2], w, l);
    }
    SameBits(MadMask(r, control, w), MadMask(src, control, w));
    WriteLanesAgree(w, dst + 1, MadHigh(r, control, w), MadHigh(src, control, w));
    var high := WriteLanes(w, dst + 1, MadHigh(src, control, w));
    WriteLanesAgree(high, dst, MadLow(r, control, w), MadLow(src, control, w));
  }

  lemma CompareReads(rel: Rel, signed: bool, src: seq<Operand>, control: Control, w: Wave)
    requires WellFormed(w) && SourcesAccepted(src, 0) && WordsAlike(src, w)
    ensures CompareMask(rel, signed, RenderedAll(src), control, w) == CompareMask(rel, signed, src, control, w)
  {
    hide Bit, SourceOrZero, RenderedAll, CompareWords, SourcesAccepted, WordsAlike;
    var r := RenderedAll(src);
    forall l: nat | l < LANES ensures Passes(rel, signed, r, control, w, l) == Passes(rel, signed, src, control, w, l) {
      SourceReads(0, src, control, w, l);
      SourceReads(1, src, control, w, l);
    }
    SameBits(CompareMask(rel, signed, r, control, w), CompareMask(rel, signed, src, control, w));
  }

  lemma SelectReads(dst: nat, src: seq<Operand>, control: Control, w: Wave)
    requires WellFormed(w) && dst < VECTORS && SourcesAccepted(src, 0) && WordsAlike(src, w)
    ensures WriteLanes(w, dst, SelectLanes(dst, RenderedAll(src), control, w))
         == WriteLanes(w, dst, SelectLanes(dst, src, control, w))
  {
    hide Bit, SourceOrZero, RenderedAll, Merge, MaskBit, SourcesAccepted, WordsAlike;
    var f, g := SelectLanes(dst, RenderedAll(src), control, w), SelectLanes(dst, src, control, w);
    forall l: nat | l < LANES && ExecAt(w, l) ensures f(l) == g(l) {
      MaskReads(src, w, l);
      SourceReads(0, src, control, w, l);
      SourceReads(1, src, control, w, l);
    }
    WriteLanesAgree(w, dst, f, g);
  }

  /** The bits of a word below 32 do not depend on what is above it. */
  lemma LowBits(low: U32, high: U32, j: nat)
    ensures Bit(Pair(low, high), j) <==> if j < 32 then Bit(low, j) else Bit(high, j - 32)
  {
    hide Bit;
    Pow2Known();
    BitOfSum(high, low, 32, j);
  }

  /** Whether the upper half of a negative literal is ones or zeros shows exactly in fields that reach it. */
  lemma FieldReads(n: U32, offset: nat, width: nat)
    requires n >= 0x8000_0000 && offset + width <= 64
    ensures FieldSigned64(n, offset, width) == FieldSigned64(Pair(n, 0xFFFF_FFFF), offset, width)
       <==> width == 0 || offset + width <= 32
  {
    hide Bit, Pair, Pow2;
    if width == 0 || offset + width <= 32 { LowFieldAlike(n, offset, width); } else {
      HighFieldDiffers(n, offset, width);
    }
  }

  lemma LowFieldAlike(n: U32, offset: nat, width: nat)
    requires width == 0 || offset + width <= 32
    ensures FieldSigned64(n, offset, width) == FieldSigned64(Pair(n, 0xFFFF_FFFF), offset, width)
  {
    hide Bit, Pair, Pow2;
    var narrow, wide := FieldSigned64(n, offset, width), FieldSigned64(Pair(n, 0xFFFF_FFFF), offset, width);
    forall j: nat | j < 64 ensures Bit(narrow, j) <==> Bit(wide, j) {
      if width > 0 { LowBits(n, 0xFFFF_FFFF, Least(j, width - 1) + offset); }
    }
    SameBits64(narrow, wide);
  }

  lemma HighFieldDiffers(n: U32, offset: nat, width: nat)
    requires 0 < width && 32 < offset + width <= 64
    ensures FieldSigned64(n, offset, width) != FieldSigned64(Pair(n, 0xFFFF_FFFF), offset, width)
  {
    hide Bit, Pair, Pow2;
    var narrow, wide := FieldSigned64(n, offset, width), FieldSigned64(Pair(n, 0xFFFF_FFFF), offset, width);
    var top := width - 1 + offset;
    HighBits(n, top);
    assert Bit(wide, 63) <==> Bit(Pair(n, 0xFFFF_FFFF), top);
    assert Bit(narrow, 63) <==> Bit(n, top);
  }

  lemma HighBits(n: U32, j: nat)
    requires 32 <= j < 64
    ensures !Bit(n, j) && Bit(Pair(n, 0xFFFF_FFFF), j)
  {
    hide Bit;
    LowBits(n, 0xFFFF_FFFF, j);
    LowBits(n, 0, j);
    assert n == Pair(n, 0);
    BitOfZero(j - 32);
    Pow2Known();
    BitOfOnes(32, j - 32);
  }

  lemma FieldWidthAtMost(control: U32)
    ensures control % 64 + FieldWidth(control, control % 64, 64) <= 64
  {
    hide Lows, Shr;
  }

  lemma WideResultReads(op: LOp, src: seq<Operand>, w: Wave)
    requires WellFormed(w) && Accepted(Scalar64(op, 0, src)) && ReadAlike(Scalar64(op, 0, src), w)
    ensures Wide64(op, RenderedAll(src), w) == Wide64(op, src, w)
  {
    hide Bit, Uniform, Uniform64, Rendered, WordsAlike, WideAlike, FieldSigned64, Field64, FieldWidth;
    hide ShiftUp64, ShiftDown64, Ones64, Logic64, NotOf64, WholeQuads, Pair;
    UniformReads(0, src, w);
    UniformReads(1, src, w);
    NoLiteral(src[0]);
    if op != SBfm64 { Uniform64Reads(0, src, w); }
    if op.SLogic64? || op.SCselect64? { Uniform64Reads(1, src, w); }
    if op.SBfeI64? && src[0].Literal? && src[0].n >= 0x8000_0000 {
      var control := Uniform(1, src, w);
      FieldWidthAtMost(control);
      FieldReads(src[0].n, control % 64, FieldWidth(control, control % 64, 64));
      LiteralReads(src, w);
    }
  }

  lemma NoLiteral(o: Operand)
    ensures !Rendered(o).Literal?
  {
  }

  lemma LiteralReads(src: seq<Operand>, w: Wave)
    requires WellFormed(w) && |src| > 0 && src[0].Literal?
    ensures Uniform64(0, src, w) == src[0].n
  {
  }

  lemma VectorAlike(i: Instruction, w: Wave)
    requires WellFormed(w) && Accepted(i) && ReadAlike(i, w)
    requires i.VectorOp? || i.CarryOp? || i.VMadU64? || i.VCompare? || i.VCndmask?
    ensures Execute(RenderedIn(i), w) == Execute(i, w)
  {
    hide Bit, RenderedAll, WordAlike, WideAlike, WriteLanes, VectorLanes, SelectLanes, ExecuteCarry, ExecuteMad,
         CompareMask;
    match i
    case VectorOp(op, dst, src, control) => VectorReads(op, dst, src, control, w);
    case CarryOp(op, dst, src, control) => CarryReads(op, dst, src, control, w);
    case VMadU64(dst, src, control) => MadReads(dst, src, control, w);
    case VCompare(rel, signed, _, src, control) => CompareReads(rel, signed, src, control, w);
    case VCndmask(dst, src, control) => SelectReads(dst, src, control, w);
  }

  lemma ScalarAlike(i: Instruction, w: Wave)
    requires WellFormed(w) && Accepted(i) && ReadAlike(i, w)
    requires i.ScalarOp? || i.ScalarUnary? || i.ScalarCompare? || i.ScalarBitcmp? || i.Saveexec? || i.Saveexec64?
      || i.Scalar64?
    ensures Execute(RenderedIn(i), w) == Execute(i, w)
  {
    hide Bit, RenderedAll, WordAlike, WideAlike, Uniform, Uniform64, ScalarValue, ScalarScc, UnaryValue, UnaryScc,
         Wide64;
    hide Logic32, Logic64, CompareWords, WritePair, WriteScalar, Scc64, Pair;
    if i.Saveexec64? {
      Uniform64Reads(0, i.src, w);
    } else if i.Scalar64? {
      WideResultReads(i.lop, i.src, w);
    } else {
      UniformReads(0, i.src, w);
      UniformReads(1, i.src, w);
    }
  }

  lemma LaneAlike(i: Instruction, w: Wave)
    requires WellFormed(w) && Accepted(i) && ReadAlike(i, w) && (i.VReadfirstlane? || i.VReadlane? || i.VWritelane?)
    ensures Execute(RenderedIn(i), w) == Execute(i, w)
  {
    hide Bit, RenderedAll, WordAlike, SourceOrZero, WriteScalar, WriteVector, Ctz, Uniform;
    UniformReads(1, i.src, w);
    var lane := if i.VReadfirstlane? then FirstLane(w.s[EXEC]) % LANES else Uniform(1, i.src, w) % LANES;
    SourceReads(0, i.src, Plain, w, lane);
  }

  lemma AlikeExecutes(i: Instruction, w: Wave)
    requires WellFormed(w) && Accepted(i) && ReadAlike(i, w)
    ensures Execute(RenderedIn(i), w) == Execute(i, w)
  {
    hide Execute, Accepted, ReadAlike, RenderedAll;
    match i
    case VCompareConst(_, _, _) | ScalarK(_, _, _) | ScalarCompareK(_, _, _, _) =>
    case VectorOp(_, _, _, _) | CarryOp(_, _, _, _) | VMadU64(_, _, _) | VCompare(_, _, _, _, _) | VCndmask(_, _, _) =>
      VectorAlike(i, w);
    case VReadfirstlane(_, _) | VReadlane(_, _) | VWritelane(_, _) => LaneAlike(i, w);
    case _ => ScalarAlike(i, w);
  }

  // ---- what the emitted code does, and when that is right ----

  /** The wave the emitted code reaches, right or wrong. */
  function EmittedFinal(i: Instruction, w: Wave): (w': Wave)
    requires WellFormed(w) && Accepted(i)
    ensures WellFormed(w')
  {
    RenderedAsWritten(i);
    CodeFinal(RenderedIn(i), w)
  }

  /** The two readings of the operands agree through the instruction. */
  predicate SameMeaning(i: Instruction, w: Wave)
    requires WellFormed(w) && Accepted(i)
  {
    Execute(RenderedIn(i), w) == Execute(i, w)
  }

  /** The conditions of the opcode, for the operands as the text reads them. */
  predicate OpcodeSound(i: Instruction, w: Wave)
    requires WellFormed(w) && Accepted(i)
  {
    RenderedAsWritten(i);
    Conditions(RenderedIn(i), w)
  }

  /** A carry into EXEC: the mask comes out alike, and every enabled lane has its sum, whether the emitted code
      still writes it or not. */
  predicate CarryIntoExec(op: COp, dst: nat, src: seq<Operand>, control: Control, w: Wave)
    requires WellFormed(w) && dst < VECTORS
  {
    var r := RenderedAll(src);
    && w.s[EXEC + 1] == 0 && CarryMask(op, r, control, w) == CarryMask(op, src, control, w)
    && Settled(w, CarryMask(op, r, control, w), dst, CarryLanes(op, dst, r, control, w),
               CarryLanes(op, dst, src, control, w))
  }

  predicate MadIntoExec(dst: nat, src: seq<Operand>, control: Control, w: Wave)
    requires WellFormed(w) && |src| > 2
  {
    var r := RenderedAll(src);
    && w.s[EXEC + 1] == 0 && MadMask(r, control, w) == MadMask(src, control, w)
    && Settled(w, MadMask(r, control, w), dst, MadLow(r, control, w), MadLow(src, control, w))
    && Settled(w, MadMask(r, control, w), dst + 1, MadHigh(r, control, w), MadHigh(src, control, w))
  }

  /** A shifted addition: the sums agree, and the old condition bit is the carry. */
  predicate ShiftedSum(n: nat, dst: nat, src: seq<Operand>, w: Wave)
    requires WellFormed(w)
  {
    var x, y := Uniform(0, src, w), Uniform(1, src, w);
    var x', y' := Uniform(0, RenderedAll(src), w), Uniform(1, RenderedAll(src), w);
    && (Shl(x, n) + y >= TWO32) == w.scc
    && (dst < SCALARS ==> ScalarValue(SLshlAdd(n), x', y', w.scc) == ScalarValue(SLshlAdd(n), x, y, w.scc))
  }

  /** The emitted code does what the instruction does: the operands come to the same through the instruction,
      and the conditions of the opcode hold. A carry into EXEC and a shifted addition state both at once,
      because there a misread operand can make up for the flaw of the opcode. */
  predicate Sound(i: Instruction, w: Wave)
    requires WellFormed(w) && Accepted(i)
  {
    if i.CarryOp? && MaskTarget(i.control) == EXEC then CarryIntoExec(i.cop, i.dst, i.src, i.control, w)
    else if i.VMadU64? && MaskTarget(i.control) == EXEC then MadIntoExec(i.dst, i.src, i.control, w)
    else if i.ScalarOp? && i.sop.SLshlAdd? then ShiftedSum(i.sop.n, i.dst, i.src, w)
    else SameMeaning(i, w) && OpcodeSound(i, w)
  }

  /** The instructions with a mask destination write no register above it. */
  lemma AboveKept(i: Instruction, w: Wave, r: nat)
    requires WellFormed(w) && Accepted(i) && MaskOf(i) == Some(r) && r + 1 < SCALARS
    ensures Execute(i, w).s[r + 1] == w.s[r + 1]
  {
    hide Bit, WriteLanes, CarryMask, MadMask, CompareMask, CarryLanes, MadLow, MadHigh;
  }

  lemma MaskClears(i: Instruction, w: Wave, r: nat)
    requires WellFormed(w) && Accepted(i) && MaskOf(i) == Some(r) && r + 1 < SCALARS
    ensures EmittedFinal(i, w).s[r + 1] == 0
  {
    hide Bit, WriteLanes, CarryMask, MadMask, CompareMask, CarryLanes, MadLow, MadHigh, RenderedAll, Accepted;
  }

  /** Code that is right found the register above its mask destination zero. */
  lemma RightHighClear(i: Instruction, w: Wave, r: nat)
    requires WellFormed(w) && Accepted(i) && MaskOf(i) == Some(r) && EmittedFinal(i, w) == Execute(i, w)
    ensures HighClear(w.s, r)
  {
    hide EmittedFinal, Execute, Accepted, MaskOf;
    if r + 1 < SCALARS {
      AboveKept(i, w, r);
      MaskClears(i, w, r);
    }
  }

  // ---- elsewhere a misread operand never makes up for a flaw ----

  lemma MisreadWord(o: Operand, w: Wave, l: nat)
    requires WellFormed(w) && l < LANES && OperandAccepted(o) && !WordAlike(o, w)
    ensures ReadOperand(Rendered(o), w, l) == 0 && ReadOperand(o, w, l) == 1
  {
  }

  lemma Readings(j: nat, src: seq<Operand>, control: Control, w: Wave, l: nat)
    requires WellFormed(w) && l < LANES && SourcesAccepted(src, 0)
    ensures var x', x := SourceOrZero(j, RenderedAll(src), control, w, l), SourceOrZero(j, src, control, w, l);
      x' == x || (x' == 0 && Bit(x, 0))
  {
    hide SdwaValue, Rendered, WordAlike, ReadOperand, Bit;
    if j < |src| {
      assert OperandAccepted(src[j]);
      WordReads(src[j], w, l);
      BitOfOnes(1, 0);
      if !WordAlike(src[j], w) {
        MisreadWord(src[j], w, l);
        if control.SdwaControl? {
          var d := control.sdwa;
          SdwaOfFlag(d.select0, d.extend0, d.absolute0, d.negate0);
          SdwaOfFlag(d.select1, d.extend1, d.absolute1, d.negate1);
        }
      }
    }
  }

  /** A selected, extended or negated 0 is 0, and a 1 is 0 or odd. */
  lemma SdwaOfFlag(select: nat, extend: bool, absolute: bool, negate: bool)
    ensures SdwaValue(0, select, extend, absolute, negate) == 0
    ensures var x := SdwaValue(1, select, extend, absolute, negate); x == 0 || Bit(x, 0)
  {
  }

  lemma ProductNeverCancels(dst: nat, src: seq<Operand>, control: Control, w: Wave, l: nat)
    requires WellFormed(w) && dst < VECTORS && SourcesAccepted(src, 0) && Whole(control) && l < LANES
    requires VectorLanes(Arith(VMulLo), dst, RenderedAll(src), control, w)(l)
          == VectorLanes(Arith(VMulU24), dst, src, control, w)(l)
    ensures var r := RenderedAll(src);
      HighBytesVanish(SourceOrZero(0, r, control, w, l), SourceOrZero(1, r, control, w, l))
  {
    hide Bit, SourceOrZero, Rendered, HighBytesVanish, Wrap32, Times, Lows;
    var r := RenderedAll(src);
    var a, b := SourceOrZero(0, r, control, w, l), SourceOrZero(1, r, control, w, l);
    Readings(0, src, control, w, l);
    Readings(1, src, control, w, l);
    Mul24Iff(a, b);
    ZeroVanishes(a);
    ZeroVanishes(b);
  }

  lemma MultiplyNeverCancels(dst: nat, src: seq<Operand>, control: Control, w: Wave)
    requires var i := VectorOp(Arith(VMulU24), dst, src, control);
      WellFormed(w) && Accepted(i) && EmittedFinal(i, w) == Execute(i, w)
    ensures OpcodeSound(VectorOp(Arith(VMulU24), dst, src, control), w)
  {
    hide Bit, SourceOrZero, Rendered, HighBytesVanish, WriteLanes, VectorLanes, Whole, AsWritten;
    var r := RenderedAll(src);
    var f, g := VectorLanes(Arith(VMulLo), dst, r, control, w), VectorLanes(Arith(VMulU24), dst, src, control, w);
    WriteLanesIff(w, dst, f, g);
    if Whole(control) {
      forall l: nat | l < LANES && ExecAt(w, l)
        ensures HighBytesVanish(SourceOrZero(0, r, control, w, l), SourceOrZero(1, r, control, w, l))
      {
        assert f(l) == g(l);
        ProductNeverCancels(dst, src, control, w, l);
      }
    }
  }

  lemma ZeroVanishes(x: U32)
    ensures HighBytesVanish(0, x) && HighBytesVanish(x, 0)
  {
    hide Times, Shr, Lows;
    ShrIsQuotient(0, 24);
    LowsOfSmall(0, 24);
    TimesIsProduct(0, Lows(x, 24));
    TimesIsProduct(Shr(x, 24), 0);
  }

  lemma SelectNeverCancels(dst: nat, src: seq<Operand>, control: Control, w: Wave)
    requires var i := VCndmask(dst, src, control);
      WellFormed(w) && Accepted(i) && EmittedFinal(i, w) == Execute(i, w)
    ensures OpcodeSound(VCndmask(dst, src, control), w)
  {
    hide Bit, SourceOrZero, Rendered, WriteLanes, Merge, MaskBit;
    var f, g := WholeSelect(RenderedAll(src), control, w), SelectLanes(dst, src, control, w);
    WriteLanesIff(w, dst, f, g);
    forall l: nat | l < LANES && ExecAt(w, l) ensures Merge(control, f(l), w.v[l][dst]) == f(l) {
      assert f(l) == g(l);
      MaskReads(src, w, l);
      Readings(if MaskBit(src, w, l) then 1 else 0, src, control, w, l);
      var x := SelectValue(src, control, w, l);
      if f(l) != x { OddMerge(control, x, w.v[l][dst]); }
    }
  }

  /** A merged odd value is not zero. */
  lemma OddMerge(control: Control, x: U32, previous: U32)
    requires Bit(x, 0)
    ensures Merge(control, x, previous) != 0
  {
    hide Bit;
    BitOfZero(0);
    var r := Merge(control, x, previous);
    if control.SdwaControl? && control.sdwa.scalarDestination.None? && control.sdwa.destination < 6 {
      var d := control.sdwa.destination;
      var shift := if d <= 3 then 8 * d else if d == 4 then 0 else 16;
      assert Bit(r, shift);
      BitOfZero(shift);
    }
  }

  lemma ScalarNeverCancels(i: Instruction, w: Wave)
    requires WellFormed(w) && Accepted(i) && EmittedFinal(i, w) == Execute(i, w)
    requires SccOnly(i) && !(i.ScalarOp? && i.sop.SLshlAdd?)
    ensures OpcodeSound(i, w)
  {
    hide Bit, Uniform, RenderedAll, EmittedUnaryScc, ScalarValue, UnaryValue, WriteScalar, ReadScalar;
    hide KValue, KScc, CompareWords, Lows, AsSigned, SignExtend16, SameSide, SourceOrZero, WriteVector;
    RenderedAsWritten(i);
    var r := RenderedIn(i);
    SccSoundIff(r, w);
  }

  lemma PairNeverCancels(op: LOp, dst: nat, r: seq<Operand>, src: seq<Operand>, w: Wave)
    requires WellFormed(w) && AsWritten(Scalar64(op, dst, r))
    requires EmittedScalar64(op, dst, r, w) == Execute64(op, dst, src, w)
    ensures Conditions(Scalar64(op, dst, r), w)
  {
    hide Bit, Uniform, Uniform64, Spec64, Wide64, StorePair, WritePair, AsWritten;
    FieldMaskZero(r, w);
    NullPair(w.s, Spec64(op, r, w), Wide64(op, src, w));
  }

  lemma Scalar64NeverCancels(op: LOp, dst: nat, src: seq<Operand>, w: Wave)
    requires var i := Scalar64(op, dst, src);
      WellFormed(w) && Accepted(i) && EmittedFinal(i, w) == Execute(i, w)
    ensures OpcodeSound(Scalar64(op, dst, src), w)
  {
    hide Bit, RenderedAll, EmittedScalar64, Execute64, AsWritten, Accepted, Conditions;
    RenderedAsWritten(Scalar64(op, dst, src));
    PairNeverCancels(op, dst, RenderedAll(src), src, w);
  }

  /** Storing a pair at the null register keeps EXEC only when the upper half is EXEC. */
  lemma NullPair(s: seq<U32>, x: U64, y: U64)
    requires |s| == SCALARS
    ensures StorePair(s, NULL, x) == WritePair(s, NULL, y) ==> x / TWO32 == s[EXEC]
  {
    assert StorePair(s, NULL, x)[EXEC] == x / TWO32 && WritePair(s, NULL, y)[EXEC] == s[EXEC];
  }

  lemma SaveexecNeverCancels(logic: Logic, dst: nat, src: seq<Operand>, w: Wave)
    requires var i := Saveexec(logic, dst, src);
      WellFormed(w) && Accepted(i) && EmittedFinal(i, w) == Execute(i, w)
    ensures OpcodeSound(Saveexec(logic, dst, src), w)
  {
    hide Bit, Logic32, Uniform, Rendered;
    var i := Saveexec(logic, dst, src);
    assert EmittedFinal(i, w).s[EXEC + 1] == 0;
    assert Execute(i, w).s[EXEC + 1] == if dst == EXEC + 1 then w.s[EXEC] else w.s[EXEC + 1];
  }

  lemma NeverCancels(i: Instruction, w: Wave)
    requires WellFormed(w) && Accepted(i) && EmittedFinal(i, w) == Execute(i, w)
    requires (i.CarryOp? || i.VMadU64?) ==> MaskTarget(i.control) != EXEC
    requires !(i.ScalarOp? && i.sop.SLshlAdd?)
    ensures OpcodeSound(i, w)
  {
    hide EmittedFinal, Execute, Accepted, RenderedAll, CarryMask, CarryLanes, MadMask, MadLow, MadHigh;
    RenderedAsWritten(i);
    if MaskOf(i).Some? { RightHighClear(i, w, MaskOf(i).value); }
    match i
    case VectorOp(op, dst, src, control) => if op == Arith(VMulU24) { MultiplyNeverCancels(dst, src, control, w); }
    case VCndmask(dst, src, control) => SelectNeverCancels(dst, src, control, w);
    case Saveexec(logic, dst, src) => SaveexecNeverCancels(logic, dst, src, w);
    case Scalar64(op, dst, src) => Scalar64NeverCancels(op, dst, src, w);
    case CarryOp(_, _, _, _) | VMadU64(_, _, _) | VCompare(_, _, _, _, _) | VCompareConst(_, _, _)
       | Saveexec64(_, _, _) =>
    case _ => ScalarNeverCancels(i, w);
  }

  // ---- the condition is exact ----

  lemma CarryIntoExecIff(op: COp, dst: nat, src: seq<Operand>, control: Control, w: Wave)
    requires var i := CarryOp(op, dst, src, control); WellFormed(w) && Accepted(i) && MaskTarget(control) == EXEC
    ensures var i := CarryOp(op, dst, src, control);
      EmittedFinal(i, w) == Execute(i, w) <==> CarryIntoExec(op, dst, src, control, w)
  {
    hide Bit, RenderedAll, CarryResult, CarryLanes, CarryMask, WriteLanes, Settled;
    var r := RenderedAll(src);
    var f, g := CarryLanes(op, dst, r, control, w), CarryLanes(op, dst, src, control, w);
    var mask, mask' := CarryMask(op, src, control, w), CarryMask(op, r, control, w);
    var t := w.s[EXEC := mask];
    ExecStoreIff(w.s, mask', mask);
    if w.s[EXEC + 1] == 0 && mask' == mask {
      forall i: nat | i < LANES && Bit(t[EXEC], i) ensures ExecAt(w, i) {
        CarryMaskEnabled(op, src, control, w, i);
      }
      WriteAfterMaskIff(w, t, dst, f, g);
    }
  }

  lemma ExecStoreIff(s: seq<U32>, mask': U32, mask: U32)
    requires |s| == SCALARS
    ensures EmittedMask(s, EXEC, mask') == WriteScalar(s, EXEC, mask) <==> s[EXEC + 1] == 0 && mask' == mask
    ensures WriteScalar(s, EXEC, mask) == s[EXEC := mask]
  {
    assert EmittedMask(s, EXEC, mask')[EXEC] == mask' && EmittedMask(s, EXEC, mask')[EXEC + 1] == 0;
    if s[EXEC + 1] == 0 { assert s[EXEC := mask][EXEC + 1 := 0] == s[EXEC := mask]; }
  }

  lemma MadIntoExecIff(dst: nat, src: seq<Operand>, control: Control, w: Wave)
    requires var i := VMadU64(dst, src, control); WellFormed(w) && Accepted(i) && MaskTarget(control) == EXEC
    ensures var i := VMadU64(dst, src, control);
      EmittedFinal(i, w) == Execute(i, w) <==> MadIntoExec(dst, src, control, w)
  {
    hide Bit, RenderedAll, MadWide, MadLow, MadHigh, MadMask, WriteLanes, Settled;
    var r := RenderedAll(src);
    var mask, mask' := MadMask(src, control, w), MadMask(r, control, w);
    var t := w.s[EXEC := mask];
    ExecStoreIff(w.s, mask', mask);
    if w.s[EXEC + 1] == 0 && mask' == mask {
      MadMaskEnabled(src, control, w);
      WriteTwiceIff(w, t, dst, MadLow(r, control, w), MadHigh(r, control, w), MadLow(src, control, w),
                    MadHigh(src, control, w));
    }
  }

  lemma MadMaskEnabled(src: seq<Operand>, control: Control, w: Wave)
    requires WellFormed(w) && |src| > 2
    ensures forall i: nat :: i < LANES && Bit(MadMask(src, control, w), i) ==> ExecAt(w, i)
  {
    hide Bit, MadWide;
  }

  lemma ShiftedSumIff(n: nat, dst: nat, src: seq<Operand>, w: Wave)
    requires var i := ScalarOp(SLshlAdd(n), dst, src); WellFormed(w) && Accepted(i)
    ensures var i := ScalarOp(SLshlAdd(n), dst, src);
      EmittedFinal(i, w) == Execute(i, w) <==> ShiftedSum(n, dst, src, w)
  {
    hide Bit, RenderedAll, Uniform, Shl, Wrap32;
    var i := ScalarOp(SLshlAdd(n), dst, src);
    if dst < SCALARS {
      var v', v := EmittedFinal(i, w).s[dst], Execute(i, w).s[dst];
      assert v' == v ==> EmittedFinal(i, w).s == Execute(i, w).s;
    }
  }

  lemma EmittedSoundIff(i: Instruction, w: Wave)
    requires WellFormed(w) && Accepted(i)
    ensures EmittedFinal(i, w) == Execute(i, w) <==> Sound(i, w)
  {
    hide CodeFinal, Execute, Conditions, Accepted, WellFormed, RenderedAll, EmittedFinal, CarryIntoExec, MadIntoExec,
         ShiftedSum;
    RenderedAsWritten(i);
    if i.CarryOp? && MaskTarget(i.control) == EXEC {
      CarryIntoExecIff(i.cop, i.dst, i.src, i.control, w);
    } else if i.VMadU64? && MaskTarget(i.control) == EXEC {
      MadIntoExecIff(i.dst, i.src, i.control, w);
    } else if i.ScalarOp? && i.sop.SLshlAdd? {
      ShiftedSumIff(i.sop.n, i.dst, i.src, w);
    } else {
      if EmittedFinal(i, w) == Execute(i, w) { NeverCancels(i, w); }
      CodeConditionsIff(RenderedIn(i), w);
      EmittedIsCode(i, w);
    }
  }

  lemma EmittedIsCode(i: Instruction, w: Wave)
    requires WellFormed(w) && Accepted(i)
    ensures AsWritten(RenderedIn(i)) && EmittedFinal(i, w) == CodeFinal(RenderedIn(i), w)
  {
    hide CodeFinal;
    RenderedAsWritten(i);
  }

  /** Operands read alike leave the conditions of the opcode. */
  lemma AlikeSoundIff(i: Instruction, w: Wave)
    requires WellFormed(w) && Accepted(i) && ReadAlike(i, w)
    ensures Sound(i, w) <==> OpcodeSound(i, w)
  {
    hide CodeFinal, Execute, Conditions, Accepted, WellFormed, ReadAlike, RenderedAll, EmittedFinal, Sound;
    AlikeExecutes(i, w);
    EmittedIsCode(i, w);
    EmittedSoundIff(i, w);
    CodeConditionsIff(RenderedIn(i), w);
  }

  lemma SoundHighClear(i: Instruction, w: Wave, r: nat)
    requires WellFormed(w) && Accepted(i) && MaskOf(i) == Some(r) && Sound(i, w)
    ensures HighClear(w.s, r)
  {
    hide EmittedFinal, Execute, Accepted, Sound, MaskOf;
    EmittedSoundIff(i, w);
    RightHighClear(i, w, r);
  }

  // ---- a misread operand shows ----

  /** Instructions whose result has a different value for every value of a status bit or constant. */
  predicate Telling(i: Instruction, w: Wave)
    requires WellFormed(w) && Accepted(i)
  {
    match i
    case ScalarUnary(op, dst, _) => op != SBitset1 && dst < SCALARS && |i.src| == 1
    case ScalarOp(op, dst, src) =>
      && op in {SAdd, SSub} && dst < SCALARS && |src| == 2 && (WordAlike(src[0], w) || WordAlike(src[1], w))
    case VectorOp(op, _, src, control) =>
      op == Arith(VMov) && !control.SdwaControl? && |src| == 1 && exists l: nat :: l < LANES && ExecAt(w, l)
    case Scalar64(op, dst, src) =>
      dst + 1 < SCALARS && dst != NULL &&
      (((op == SMov64 || op == SNot64) && |src| == 1)
       || (op == SBfeI64 && |src| == 2 && src[0].Literal? && WordAlike(src[1], w)))
    case _ => false
  }

  lemma MisreadWide(o: Operand, w: Wave)
    requires WellFormed(w) && OperandAccepted(o) && !WideAlike(o, w)
    ensures Source64(Rendered(o), w, 0) != Source64(o, w, 0)
  {
  }

  lemma UnaryTells(op: UOp, previous: U32)
    requires op != SBitset1
    ensures UnaryValue(op, 0, previous) != UnaryValue(op, 1, previous)
  {
    hide Bit;
    Pow2Known();
    BitOfOnes(1, 0);
    BitOfOnes(1, 31);
    BitOfZero(0);
    BitOfZero(31);
    if op == SNot {
      assert Bit(UnaryValue(op, 0, previous), 0) && !Bit(UnaryValue(op, 1, previous), 0);
    } else if op == SBrev {
      assert !Bit(UnaryValue(op, 0, previous), 31) && Bit(UnaryValue(op, 1, previous), 31);
    } else {
      CountTells(op, previous);
    }
  }

  lemma CountTells(op: UOp, previous: U32)
    requires op == SMov || op == SBcnt1 || op == SFf1
    ensures UnaryValue(op, 0, previous) != UnaryValue(op, 1, previous)
  {
  }

  lemma UnaryShows(op: UOp, dst: nat, src: seq<Operand>, w: Wave)
    requires var i := ScalarUnary(op, dst, src); WellFormed(w) && Accepted(i) && Telling(i, w) && !ReadAlike(i, w)
    ensures EmittedFinal(ScalarUnary(op, dst, src), w) != Execute(ScalarUnary(op, dst, src), w)
  {
    hide UnaryValue, UnaryScc, EmittedUnaryScc, ReadOperand, WordAlike, Rendered;
    assert OperandAccepted(src[0]) && !WordAlike(src[0], w);
    MisreadWord(src[0], w, 0);
    UnaryTells(op, ReadScalar(w.s, dst));
    assert EmittedFinal(ScalarUnary(op, dst, src), w).s[dst] == UnaryValue(op, 0, w.s[dst]);
  }

  lemma WrapTells(x: U32, y: U32, z: U32)
    requires (x == 0 && y == 1) || (x == 1 && y == 0)
    ensures Wrap32(x + z) != Wrap32(y + z) && Wrap32(x - z) != Wrap32(y - z) && Wrap32(z - x) != Wrap32(z - y)
  {
  }

  lemma SumShows(op: SOp, dst: nat, src: seq<Operand>, w: Wave)
    requires var i := ScalarOp(op, dst, src); WellFormed(w) && Accepted(i) && Telling(i, w) && !ReadAlike(i, w)
    ensures EmittedFinal(ScalarOp(op, dst, src), w) != Execute(ScalarOp(op, dst, src), w)
  {
    hide ReadOperand, WordAlike, Rendered, Wrap32;
    var i := ScalarOp(op, dst, src);
    var x, y := Uniform(0, src, w), Uniform(1, src, w);
    assert OperandAccepted(src[0]) && OperandAccepted(src[1]);
    assert EmittedFinal(i, w).s[dst]
        == ScalarValue(op, ReadOperand(Rendered(src[0]), w, 0), ReadOperand(Rendered(src[1]), w, 0), w.scc);
    if WordAlike(src[0], w) {
      WordReads(src[0], w, 0);
      MisreadWord(src[1], w, 0);
      WrapTells(0, 1, x);
    } else {
      WordReads(src[1], w, 0);
      MisreadWord(src[0], w, 0);
      WrapTells(0, 1, y);
    }
  }

  lemma MoveShows(dst: nat, src: seq<Operand>, control: Control, w: Wave)
    requires var i := VectorOp(Arith(VMov), dst, src, control);
      WellFormed(w) && Accepted(i) && Telling(i, w) && !ReadAlike(i, w)
    ensures var i := VectorOp(Arith(VMov), dst, src, control); EmittedFinal(i, w) != Execute(i, w)
  {
    hide ReadOperand, WordAlike, Rendered, Bit, WriteLanes;
    var i := VectorOp(Arith(VMov), dst, src, control);
    var l: nat :| l < LANES && ExecAt(w, l);
    assert OperandAccepted(src[0]) && !WordAlike(src[0], w);
    MisreadWord(src[0], w, l);
    assert EmittedFinal(i, w).v[l] == WriteVector(w.v[l], dst, 0) && Execute(i, w).v[l] == WriteVector(w.v[l], dst, 1);
    assert EmittedFinal(i, w).v[l][dst] == 0;
  }

  lemma PairTells(s: seq<U32>, r: nat, x: U64, y: U64)
    requires |s| == SCALARS && r + 1 < SCALARS && r != NULL && x != y
    ensures StorePair(s, r, x) != WritePair(s, r, y)
  {
    assert StorePair(s, r, x)[r] == x % TWO32 && StorePair(s, r, x)[r + 1] == x / TWO32;
    assert WritePair(s, r, y)[r] == y % TWO32 && WritePair(s, r, y)[r + 1] == y / TWO32;
  }

  lemma ComplementTells(x: U64, y: U64)
    requires x != y
    ensures NotOf64(x) != NotOf64(y)
  {
    hide Bit;
    if NotOf64(x) == NotOf64(y) {
      forall j: nat | j < 64 ensures Bit(x, j) <==> Bit(y, j) {
        assert Bit(NotOf64(x), j) <==> Bit(NotOf64(y), j);
      }
      SameBits64(x, y);
    }
  }

  lemma ExtractTells(src: seq<Operand>, w: Wave)
    requires WellFormed(w) && SourcesAccepted(src, 2) && |src| == 2 && src[0].Literal? && WordAlike(src[1], w)
    requires src[0].n >= 0x8000_0000 && !FieldInLowHalf(Uniform(1, src, w))
    ensures Spec64(SBfeI64, RenderedAll(src), w) != Wide64(SBfeI64, src, w)
  {
    hide ReadOperand, WordAlike, Rendered, Source64, FieldSigned64, FieldWidth, Pair;
    assert OperandAccepted(src[1]);
    WordReads(src[1], w, 0);
    var control := Uniform(1, src, w);
    FieldWidthAtMost(control);
    FieldReads(src[0].n, control % 64, FieldWidth(control, control % 64, 64));
    RenderedLiteral(src[0], w);
  }

  lemma WideShows(op: LOp, dst: nat, src: seq<Operand>, w: Wave)
    requires var i := Scalar64(op, dst, src); WellFormed(w) && Accepted(i) && Telling(i, w) && !ReadAlike(i, w)
    ensures EmittedFinal(Scalar64(op, dst, src), w) != Execute(Scalar64(op, dst, src), w)
  {
    hide ReadOperand, WordAlike, Rendered, Source64, StorePair, WritePair, NotOf64, FieldSigned64, FieldWidth,
         EmittedScc64, Scc64;
    hide InlineDouble, Pair;
    assert OperandAccepted(src[0]);
    if src[0].Literal? { LiteralAlike(src[0], w); }
    var x, y := Spec64(op, RenderedAll(src), w), Wide64(op, src, w);
    if op == SBfeI64 {
      ExtractTells(src, w);
    } else {
      assert !WideAlike(src[0], w);
      MisreadWide(src[0], w);
      NoLiteral(src[0]);
      ComplementTells(Source64(Rendered(src[0]), w, 0), Source64(src[0], w, 0));
    }
    assert x != y;
    PairTells(w.s, dst, x, y);
  }

  lemma RenderedLiteral(o: Operand, w: Wave)
    requires WellFormed(w) && o.Literal?
    ensures Source64(Rendered(o), w, 0) == o.n
  {
  }

  lemma LiteralAlike(o: Operand, w: Wave)
    requires WellFormed(w) && o.Literal?
    ensures WordAlike(o, w) && WideAlike(o, w)
  {
  }

  /** For these the condition on the operands is exact: whenever one is misread the wave comes out wrong. */
  lemma MisreadShows(i: Instruction, w: Wave)
    requires WellFormed(w) && Accepted(i) && Telling(i, w)
    ensures Sound(i, w) <==> ReadAlike(i, w) && OpcodeSound(i, w)
  {
    hide EmittedFinal, Execute, Conditions, ReadAlike, Sound;
    RenderedAsWritten(i);
    EmittedSoundIff(i, w);
    if ReadAlike(i, w) { AlikeSoundIff(i, w); } else {
      match i
      case ScalarUnary(op, dst, src) => UnaryShows(op, dst, src, w);
      case ScalarOp(op, dst, src) => SumShows(op, dst, src, w);
      case VectorOp(op, dst, src, control) => MoveShows(dst, src, control, w);
      case Scalar64(op, dst, src) => WideShows(op, dst, src, w);
    }
  }
}
