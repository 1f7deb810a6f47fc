/** What the emitted code of each instruction does to the wave, and the condition on the operands and
    registers under which that is what the instruction does. */
module MetalEmitted {
  import opened Bits
  import opened Gen5Isa
  import opened Metal64Meaning
  import opened Metal64Simulation
  import opened MetalEmission
  import opened MetalLaneSimulation
  import opened MetalMadSimulation
  import opened MetalMeaning
  import opened MetalMiscSimulation
  import opened MetalRelation
  import opened MetalScalarMeaning
  import opened MetalTarget
  import opened MetalVectorSimulation
  import opened Words

  // ---- the condition bit ----

  /** The condition bit the emitted code leaves. */
  predicate EmittedScc(i: Instruction, w: Wave)
    requires WellFormed(w)
  {
    match i
    case ScalarOp(op, _, src) =>
      if SccFaithful(op) then ScalarScc(op, Uniform(0, src, w), Uniform(1, src, w), w.scc) else w.scc
    case ScalarUnary(op, dst, src) => EmittedUnaryScc(op, Uniform(0, src, w), ReadScalar(w.s, dst), w.scc)
    case ScalarK(_, _, _) => w.scc
    case ScalarCompareK(rel, signed, dst, simm) => CompareWords(rel, signed, ReadScalar(w.s, dst), SignExtend16(simm))
    case Scalar64(op, _, src) => EmittedScc64(op, Spec64(op, src, w), w.scc)
    case _ => Execute(i, w).scc
  }

  /** x relates to low and high alike. */
  predicate SameSide(rel: Rel, x: int, low: int, high: int) {
    match rel
    case Eq | Ne => x != low && x != high
    case Lt | Ge => !(low <= x < high)
    case Le | Gt => !(low < x <= high)
  }

  /** The condition bit comes out right, read off the operands and the old condition bit. */
  predicate SccSound(i: Instruction, w: Wave)
    requires WellFormed(w)
  {
    match i
    case ScalarOp(SLshlAdd(n), _, src) => (Shl(Uniform(0, src, w), n) + Uniform(1, src, w) >= TWO32) == w.scc
    case ScalarUnary(SBrev, _, src) => (Uniform(0, src, w) != 0) == w.scc
    case ScalarUnary(SFf1, _, src) => (Uniform(0, src, w) == 0 || Uniform(0, src, w) % 2 == 0) == w.scc
    case ScalarK(SAddk, dst, simm) =>
      !(-0x8000_0000 <= AsSigned(ReadScalar(w.s, dst)) + AsSigned(SignExtend16(simm)) < 0x8000_0000) == w.scc
    case ScalarCompareK(rel, false, dst, simm) =>
      Lows(simm, 16) < 0x8000 || SameSide(rel, ReadScalar(w.s, dst), Lows(simm, 16), Lows(simm, 16) + 0xFFFF_0000)
    case Scalar64(SBfm64, _, src) => (Uniform(0, src, w) % 64 != 0) == w.scc
    case _ => true
  }

  lemma SumInRange(x: U32, y: U32)
    ensures AsSigned(x) + AsSigned(y) != AsSigned(Wrap32(x + y))
       <==> !(-0x8000_0000 <= AsSigned(x) + AsSigned(y) < 0x8000_0000)
  {
    hide Wrap32;
    WrapOfSum(x, y);
  }

  lemma ReverseZero(x: U32, previous: U32)
    ensures UnaryValue(SBrev, x, previous) != 0 <==> x != 0
  {
    hide Bit;
    var r := UnaryValue(SBrev, x, previous);
    if r == 0 {
      forall j: nat | j < 32 ensures Bit(x, j) <==> Bit(0, j) {
        BitOfZero(j);
        BitOfZero(31 - j);
        assert Bit(r, 31 - j) == Bit(x, 31 - (31 - j));
      }
      SameBits(x, 0);
    } else if x == 0 {
      forall j: nat | j < 32 ensures Bit(r, j) <==> Bit(0, j) {
        BitOfZero(j);
        BitOfZero(31 - j);
      }
      SameBits(r, 0);
    }
  }

  lemma OnesZero(offset: nat, width: nat)
    requires offset < 64
    ensures Ones64(offset, width) != 0 <==> width != 0
  {
    hide Bit;
    BitOfZero(offset);
    assert Bit(Ones64(offset, width), offset) <==> width != 0;
    if width == 0 {
      forall j: nat | j < 64 ensures Bit(Ones64(offset, 0), j) <==> Bit(0, j) {
        BitOfZero(j);
      }
      SameBits64(Ones64(offset, 0), 0);
    }
  }

  lemma FieldMaskZero(src: seq<Operand>, w: Wave)
    requires WellFormed(w)
    ensures Spec64(SBfm64, src, w) != 0 <==> Uniform(0, src, w) % 64 != 0
  {
    hide Uniform, Uniform64, Ones64;
    OnesZero(Uniform(1, src, w) % 64, Uniform(0, src, w) % 64);
  }

  lemma ImmediateExtended(simm: nat)
    ensures SignExtend16(simm) == if Lows(simm, 16) < 0x8000 then Lows(simm, 16) else Lows(simm, 16) + 0xFFFF_0000
    ensures CompareImmediate(false, simm) == Lows(simm, 16) < 0x1_0000
  {
    hide Lows;
    OnesKnown();
    if Lows(simm, 16) < 0x8000 { SmallWrap(Lows(simm, 16)); } else { WrapBelowZero(Lows(simm, 16) - 0x1_0000); }
  }

  lemma WrapBelowZero(x: int)
    requires -0x1_0000 <= x < 0
    ensures Wrap32(x) == x + TWO32
  {
  }

  /** The emitted condition bit is the instruction's exactly when the operands say so. */
  lemma SccSoundIff(i: Instruction, w: Wave)
    requires WellFormed(w) && AsWritten(i)
    ensures EmittedScc(i, w) == Execute(i, w).scc <==> SccSound(i, w)
  {
    hide Bit, Wrap32, Lows, Ones64, Ctz, Shl, WriteLanes, WriteScalar, WritePair, Uniform, Uniform64, ReadScalar,
         ScalarValue;
    hide SignExtend16, AsSigned, EmittedUnaryScc, UnaryValue, KValue, CompareWords, Value64, SameSide;
    match i
    case ScalarUnary(op, dst, src) => UnarySccIff(op, Uniform(0, src, w), ReadScalar(w.s, dst), w.scc);
    case ScalarK(op, dst, simm) => SumInRange(ReadScalar(w.s, dst), SignExtend16(simm));
    case ScalarCompareK(rel, signed, dst, simm) => CompareKIff(rel, signed, ReadScalar(w.s, dst), simm);
    case Scalar64(op, dst, src) =>
      if op.SBfm64? { FieldMaskZero(src, w); }
    case _ =>
  }

  lemma UnarySccIff(op: UOp, x: U32, previous: U32, scc: bool)
    ensures op == SBrev ==> EmittedUnaryScc(op, x, previous, scc) == (x != 0)
    ensures op == SFf1 ==> EmittedUnaryScc(op, x, previous, scc) == (x == 0 || x % 2 == 0)
    ensures op != SBrev && op != SFf1 ==> EmittedUnaryScc(op, x, previous, scc) == UnaryScc(op, x, scc)
  {
    hide Bit;
    ReverseZero(x, previous);
  }

  lemma CompareKIff(rel: Rel, signed: bool, x: U32, simm: nat)
    ensures signed ==> SignExtend16(simm) == CompareImmediate(signed, simm)
    ensures !signed ==>
      (CompareWords(rel, false, x, SignExtend16(simm)) == CompareWords(rel, false, x, CompareImmediate(false, simm))
       <==> Lows(simm, 16) < 0x8000 || SameSide(rel, x, Lows(simm, 16), Lows(simm, 16) + 0xFFFF_0000))
  {
    hide Lows, SignExtend16;
    if !signed { ImmediateExtended(simm); }
  }

  // ---- the registers ----

  /** The register above a stored lane mask is zero already, or there is none. */
  predicate HighClear(s: seq<U32>, r: nat) {
    r + 1 < |s| ==> s[r + 1] == 0
  }

  lemma MaskStoreIff(s: seq<U32>, r: nat, mask: U32)
    ensures EmittedMask(s, r, mask) == WriteScalar(s, r, mask) <==> HighClear(s, r)
  {
    if r + 1 < |s| {
      assert EmittedMask(s, r, mask)[r + 1] == 0 && WriteScalar(s, r, mask)[r + 1] == s[r + 1];
      if s[r + 1] == 0 { assert s[r := mask][r + 1 := 0] == s[r := mask]; }
    }
  }

  /** The bytes a full multiplication takes from above the 24 that count contribute nothing. */
  predicate HighBytesVanish(a: U32, b: U32) {
    (Times(Shr(a, 24), Lows(b, 24)) + Times(Shr(b, 24), Lows(a, 24))) % 256 == 0
  }

  /** The enabled lanes end with the values of g: those the mask keeps get them from f, and those it disables
      have them already. */
  predicate Settled(w: Wave, mask: U32, r: nat, f: nat -> U32, g: nat -> U32)
    requires WellFormed(w)
  {
    forall i: nat :: i < LANES && ExecAt(w, i) && r < VECTORS ==> (if Bit(mask, i) then f(i) else w.v[i][r]) == g(i)
  }

  /** Storing a selected word whole is merging it. */
  predicate MergeIsWhole(control: Control, dst: nat, f: nat -> U32, w: Wave)
    requires WellFormed(w) && dst < VECTORS
  {
    forall i: nat :: i < LANES && ExecAt(w, i) ==> Merge(control, f(i), w.v[i][dst]) == f(i)
  }

  /** The emitted code does what the instruction does: a condition on registers and operands before it. */
  predicate Conditions(i: Instruction, w: Wave)
    requires WellFormed(w) && AsWritten(i)
  {
    match i
    case VectorOp(op, dst, src, control) =>
      op == Arith(VMulU24) && Whole(control) ==> forall l: nat :: l < LANES && ExecAt(w, l) ==>
        HighBytesVanish(SourceOrZero(0, src, control, w, l), SourceOrZero(1, src, control, w, l))
    case CarryOp(op, dst, src, control) =>
      && HighClear(w.s, MaskTarget(control))
      && (MaskTarget(control) == EXEC ==>
            var f := CarryLanes(op, dst, src, control, w); Settled(w, CarryMask(op, src, control, w), dst, f, f))
    case VMadU64(dst, src, control) =>
      && HighClear(w.s, MaskTarget(control))
      && (MaskTarget(control) == EXEC ==>
            var low, high := MadLow(src, control, w), MadHigh(src, control, w);
            && Settled(w, MadMask(src, control, w), dst, low, low)
            && Settled(w, MadMask(src, control, w), dst + 1, high, high))
    case VCompare(_, _, toExec, _, control) => HighClear(w.s, MaskDestination(toExec, control))
    case VCompareConst(_, toExec, control) => HighClear(w.s, MaskDestination(toExec, control))
    case VCndmask(dst, src, control) => MergeIsWhole(control, dst, WholeSelect(src, control, w), w)
    case Saveexec(_, dst, _) => if dst == EXEC + 1 then w.s[EXEC] == 0 else w.s[EXEC + 1] == 0
    case Scalar64(op, dst, src) => SccSound(i, w) && (dst == NULL ==> Spec64(op, src, w) / TWO32 == w.s[EXEC])
    case _ => SccSound(i, w)
  }

  // ---- what the emitted code does ----

  function CodeFinal(i: Instruction, w: Wave): (w': Wave)
    requires WellFormed(w) && AsWritten(i)
    ensures WellFormed(w')
  {
    match i
    case VectorOp(op, dst, src, control) => WriteLanes(w, dst, VectorLanes(EmittedOp(op), dst, src, control, w))
    case CarryOp(op, dst, src, control) => EmittedCarry(op, dst, src, control, w)
    case VMadU64(dst, src, control) => EmittedMad(dst, src, control, w)
    case VCompare(rel, signed, toExec, src, control) =>
      w.(s := EmittedMask(w.s, MaskDestination(toExec, control), CompareMask(rel, signed, src, control, w)))
    case VCompareConst(value, toExec, control) =>
      w.(s := EmittedMask(w.s, MaskDestination(toExec, control), if value then w.s[EXEC] else 0))
    case VCndmask(dst, src, control) => WriteLanes(w, dst, WholeSelect(src, control, w))
    case Saveexec(logic, dst, src) => EmittedSaveexec(logic, dst, src, w)
    case Scalar64(op, dst, src) => EmittedScalar64(op, dst, src, w)
    case Saveexec64(logic, dst, src) => EmittedSaveexec64(logic, dst, src, w)
    case _ => Execute(i, w).(scc := EmittedScc(i, w))
  }

  /** The instruction's mask destination, if it has one. */
  function MaskOf(i: Instruction): Option<nat> {
    match i
    case CarryOp(_, _, _, control) => Some(MaskTarget(control))
    case VMadU64(_, _, control) => Some(MaskTarget(control))
    case VCompare(_, _, toExec, _, control) => Some(MaskDestination(toExec, control))
    case VCompareConst(_, toExec, control) => Some(MaskDestination(toExec, control))
    case _ => None
  }

  // ---- vector writes under two EXEC masks ----

  /** Writing the scalar file before a vector write matters exactly for the lanes it disables. */
  lemma WriteAfterMaskIff(w: Wave, t: seq<U32>, dst: nat, f: nat -> U32, g: nat -> U32)
    requires WellFormed(w) && |t| == SCALARS && dst < VECTORS
    requires forall i: nat :: i < LANES && Bit(t[EXEC], i) ==> ExecAt(w, i)
    ensures WriteLanes(w.(s := t), dst, f) == WriteLanes(w, dst, g).(s := t) <==> Settled(w, t[EXEC], dst, f, g)
  {
    hide Bit;
    var a, b := WriteLanes(w.(s := t), dst, f), WriteLanes(w, dst, g).(s := t);
    forall i: nat | i < LANES
      ensures a.v[i] == b.v[i] <==> (ExecAt(w, i) ==> (if Bit(t[EXEC], i) then f(i) else w.v[i][dst]) == g(i))
    {
      assert a.v[i] == LaneAfter(w.(s := t), dst, f, i) && b.v[i] == LaneAfter(w, dst, g, i);
      if ExecAt(w, i) {
        assert a.v[i][dst] == (if Bit(t[EXEC], i) then f(i) else w.v[i][dst]) && b.v[i][dst] == g(i);
        assert !Bit(t[EXEC], i) && w.v[i][dst] == g(i) ==> w.v[i][dst := g(i)] == w.v[i];
      }
    }
  }

  /** Both halves of a pair, in the lanes the mask store leaves enabled. */
  lemma WriteTwiceIff(w: Wave, t: seq<U32>, dst: nat, low: nat -> U32, high: nat -> U32, low': nat -> U32,
      high': nat -> U32)
    requires WellFormed(w) && |t| == SCALARS && dst < VECTORS
    requires forall i: nat :: i < LANES && Bit(t[EXEC], i) ==> ExecAt(w, i)
    ensures WriteLanes(WriteLanes(w.(s := t), dst + 1, high), dst, low)
         == WriteLanes(WriteLanes(w, dst + 1, high'), dst, low').(s := t)
       <==> Settled(w, t[EXEC], dst, low, low') && Settled(w, t[EXEC], dst + 1, high, high')
  {
    hide Bit;
    var a1, b1 := WriteLanes(w.(s := t), dst + 1, high), WriteLanes(w, dst + 1, high');
    var a, b := WriteLanes(a1, dst, low), WriteLanes(b1, dst, low').(s := t);
    forall i: nat | i < LANES
      ensures a.v[i] == b.v[i] <==> (ExecAt(w, i) ==> PairSettled(w.v[i], Bit(t[EXEC], i), dst, low(i), high(i),
                                                                 low'(i), high'(i)))
    {
      assert a1.v[i] == LaneAfter(w.(s := t), dst + 1, high, i) && b1.v[i] == LaneAfter(w, dst + 1, high', i);
      assert a.v[i] == LaneAfter(a1, dst, low, i) && b.v[i] == LaneAfter(b1, dst, low', i);
      if ExecAt(w, i) { PairWriteIff(w.v[i], Bit(t[EXEC], i), dst, low(i), high(i), low'(i), high'(i)); }
    }
  }

  predicate PairSettled(v: seq<U32>, kept: bool, dst: nat, low: U32, high: U32, low': U32, high': U32)
    requires dst < |v|
  {
    (if kept then low else v[dst]) == low' && (dst + 1 < |v| ==> (if kept then high else v[dst + 1]) == high')
  }

  function WriteBoth(v: seq<U32>, dst: nat, low: U32, high: U32): seq<U32> {
    WriteVector(WriteVector(v, dst + 1, high), dst, low)
  }

  lemma PairWriteIff(v: seq<U32>, kept: bool, dst: nat, low: U32, high: U32, low': U32, high': U32)
    requires dst < |v| == VECTORS
    ensures (if kept then WriteBoth(v, dst, low, high) else v) == WriteBoth(v, dst, low', high')
      <==> PairSettled(v, kept, dst, low, high, low', high')
  {
    var a, b := if kept then WriteBoth(v, dst, low, high) else v, WriteBoth(v, dst, low', high');
    assert b[dst] == low' && (dst + 1 < |v| ==> b[dst + 1] == high');
    assert a[dst] == (if kept then low else v[dst]);
    assert dst + 1 < |v| ==> a[dst + 1] == if kept then high else v[dst + 1];
  }

  /** Two vector writes are the same exactly when the enabled lanes' values are. */
  lemma WriteLanesIff(w: Wave, dst: nat, f: nat -> U32, g: nat -> U32)
    requires WellFormed(w) && dst < VECTORS
    ensures WriteLanes(w, dst, f) == WriteLanes(w, dst, g)
      <==> forall i: nat :: i < LANES && ExecAt(w, i) ==> f(i) == g(i)
  {
    hide Bit;
    var a, b := WriteLanes(w, dst, f), WriteLanes(w, dst, g);
    forall i: nat | i < LANES ensures a.v[i] == b.v[i] <==> (ExecAt(w, i) ==> f(i) == g(i)) {
      assert a.v[i] == LaneAfter(w, dst, f, i) && b.v[i] == LaneAfter(w, dst, g, i);
      if ExecAt(w, i) { assert a.v[i][dst] == f(i) && b.v[i][dst] == g(i); }
    }
  }

  // ---- the 24-bit multiplication ----

  lemma ProductOfSplit(ha: nat, la: nat, hb: nat, lb: nat)
    ensures (ha * 0x100_0000 + la) * (hb * 0x100_0000 + lb)
         == la * lb + 0x100_0000 * (ha * lb + hb * la) + TWO32 * (0x1_0000 * (ha * hb))
  {
    var p := 0x100_0000;
    assert (ha * p + la) * (hb * p + lb) == (ha * p) * (hb * p) + (ha * p) * lb + la * (hb * p) + la * lb;
    assert (ha * p) * (hb * p) == (ha * hb) * (p * p);
    assert (ha * p) * lb == p * (ha * lb) && la * (hb * p) == p * (hb * la);
  }

  lemma SplitProduct(a: U32, b: U32)
    ensures var ha, la, hb, lb := Shr(a, 24), Lows(a, 24), Shr(b, 24), Lows(b, 24);
      Times(a, b) == Times(la, lb) + 0x100_0000 * (ha * lb + hb * la) + TWO32 * (0x1_0000 * (ha * hb))
  {
    hide Times, Shr, Lows, Pow2;
    OnesKnown();
    SplitAt(a, 24);
    SplitAt(b, 24);
    var ha, la, hb, lb := Shr(a, 24), Lows(a, 24), Shr(b, 24), Lows(b, 24);
    TimesIsProduct(a, b);
    TimesIsProduct(la, lb);
    ProductOfSplit(ha, la, hb, lb);
  }

  lemma WrapsEqual(x: nat, k: nat, q: nat)
    ensures Wrap32(x + 0x100_0000 * k + TWO32 * q) == Wrap32(x) <==> k % 256 == 0
  {
    var n, r := k / 256, k % 256;
    assert x + 0x100_0000 * k + TWO32 * q == (x + 0x100_0000 * r) + TWO32 * (n + q);
    WrapShift(x + 0x100_0000 * r, n + q);
    ShiftedByByte(x, r);
  }

  lemma ShiftedByByte(x: nat, r: nat)
    requires r < 256
    ensures Wrap32(x + 0x100_0000 * r) == Wrap32(x) <==> r == 0
  {
  }

  /** The full product is the 24-bit one exactly when the dropped high bytes contribute nothing. */
  lemma Mul24Iff(a: U32, b: U32)
    ensures Wrap32(Times(a, b)) == Wrap32(Times(Lows(a, 24), Lows(b, 24))) <==> HighBytesVanish(a, b)
  {
    hide Wrap32, Times, Shr, Lows, Pow2;
    SplitProduct(a, b);
    var ha, la, hb, lb := Shr(a, 24), Lows(a, 24), Shr(b, 24), Lows(b, 24);
    TimesIsProduct(ha, lb);
    TimesIsProduct(hb, la);
    WrapsEqual(Times(la, lb), ha * lb + hb * la, 0x1_0000 * (ha * hb));
  }

  lemma Mul24Lanes(dst: nat, src: seq<Operand>, control: Control, w: Wave)
    requires WellFormed(w) && dst < VECTORS && Whole(control)
    ensures var op := Arith(VMulU24);
      WriteLanes(w, dst, VectorLanes(EmittedOp(op), dst, src, control, w))
        == WriteLanes(w, dst, VectorLanes(op, dst, src, control, w))
      <==> forall l: nat :: l < LANES && ExecAt(w, l) ==>
             HighBytesVanish(SourceOrZero(0, src, control, w, l), SourceOrZero(1, src, control, w, l))
  {
    hide Bit, SourceOrZero, HighBytesVanish, Wrap32, Times, WriteLanes;
    var f, g := VectorLanes(Arith(VMulLo), dst, src, control, w), VectorLanes(Arith(VMulU24), dst, src, control, w);
    WriteLanesIff(w, dst, f, g);
    forall l: nat | l < LANES
      ensures f(l) == g(l)
        <==> HighBytesVanish(SourceOrZero(0, src, control, w, l), SourceOrZero(1, src, control, w, l))
    {
      Mul24Iff(SourceOrZero(0, src, control, w, l), SourceOrZero(1, src, control, w, l));
    }
  }

  lemma WrapSplit(high: nat, low: nat)
    requires low < 0x100_0000
    ensures Wrap32(high * 0x100_0000 + low) == (high % 256) * 0x100_0000 + low
  {
  }

  /** What is added at bit 24 and above does not reach the bits below. */
  lemma LowBitsKept(x: nat, k: nat, q: nat, j: nat)
    requires j < 24
    ensures Bit(Wrap32(x + 0x100_0000 * k + TWO32 * q), j) <==> Bit(Wrap32(x), j)
  {
    hide Bit, Wrap32;
    var high, low := x / 0x100_0000, x % 0x100_0000;
    assert Pow2(24) == 0x100_0000 by { Pow2Known(); }
    assert x + 0x100_0000 * k + TWO32 * q == (high + k + 256 * q) * 0x100_0000 + low;
    WrapSplit(high + k + 256 * q, low);
    WrapSplit(high, low);
    BitOfSum((high + k + 256 * q) % 256, low, 24, j);
    BitOfSum(high % 256, low, 24, j);
  }

  lemma ProductLowBits(a: U32, b: U32, j: nat)
    requires j < 24
    ensures Bit(Wrap32(Times(a, b)), j) <==> Bit(Wrap32(Times(Lows(a, 24), Lows(b, 24))), j)
  {
    hide Wrap32, Times, Shr, Lows, Pow2, Bit;
    SplitProduct(a, b);
    var ha, la, hb, lb := Shr(a, 24), Lows(a, 24), Shr(b, 24), Lows(b, 24);
    LowBitsKept(Times(la, lb), ha * lb + hb * la, 0x1_0000 * (ha * hb), j);
  }

  /** A merge into part of a register reads only the low half of the value. */
  lemma MergeReadsLow(control: Control, x: U32, y: U32, previous: U32)
    requires !Whole(control) && forall j: nat :: j < 16 ==> (Bit(x, j) <==> Bit(y, j))
    ensures Merge(control, x, previous) == Merge(control, y, previous)
  {
    hide Bit;
    var p, q := Merge(control, x, previous), Merge(control, y, previous);
    forall j: nat | j < 32 ensures Bit(p, j) <==> Bit(q, j) {
    }
    SameBits(p, q);
  }

  lemma Mul24Merged(dst: nat, src: seq<Operand>, control: Control, w: Wave)
    requires WellFormed(w) && dst < VECTORS && !Whole(control)
    ensures var op := Arith(VMulU24);
      WriteLanes(w, dst, VectorLanes(EmittedOp(op), dst, src, control, w))
        == WriteLanes(w, dst, VectorLanes(op, dst, src, control, w))
  {
    hide Bit, SourceOrZero, Wrap32, Times, WriteLanes, Merge, Whole, Lows;
    var f, g := VectorLanes(Arith(VMulLo), dst, src, control, w), VectorLanes(Arith(VMulU24), dst, src, control, w);
    forall l: nat | l < LANES && ExecAt(w, l) ensures f(l) == g(l) {
      var a, b := SourceOrZero(0, src, control, w, l), SourceOrZero(1, src, control, w, l);
      var x, y := Wrap32(Times(a, b)), Wrap32(Times(Lows(a, 24), Lows(b, 24)));
      forall j: nat | j < 16 ensures Bit(x, j) <==> Bit(y, j) {
        ProductLowBits(a, b, j);
      }
      MergeReadsLow(control, x, y, w.v[l][dst]);
      assert f(l) == Merge(control, x, w.v[l][dst]) && g(l) == Merge(control, y, w.v[l][dst]);
    }
    WriteLanesAgree(w, dst, f, g);
  }

  // ---- the condition is exact ----

  lemma CarryMaskEnabled(op: COp, src: seq<Operand>, control: Control, w: Wave, i: nat)
    requires WellFormed(w) && Bit(CarryMask(op, src, control, w), i)
    ensures i < LANES && ExecAt(w, i)
  {
    hide Bit;
  }

  lemma MaskedExec(s: seq<U32>, r: nat, mask: U32)
    requires |s| == SCALARS && HighClear(s, r)
    ensures EmittedMask(s, r, mask)[EXEC] == if r == EXEC then mask else s[EXEC]
  {
  }

  lemma CarrySoundIff(op: COp, dst: nat, src: seq<Operand>, control: Control, w: Wave)
    requires WellFormed(w) && dst < VECTORS
    ensures EmittedCarry(op, dst, src, control, w) == ExecuteCarry(op, dst, src, control, w)
       <==> HighClear(w.s, MaskTarget(control))
            && (MaskTarget(control) == EXEC ==>
                var f := CarryLanes(op, dst, src, control, w);
                Settled(w, CarryMask(op, src, control, w), dst, f, f))
  {
    hide Bit, CarryResult, CarryLanes, WriteLanes, EmittedMask, WriteScalar;
    var r, mask, g := MaskTarget(control), CarryMask(op, src, control, w), CarryLanes(op, dst, src, control, w);
    MaskStoreIff(w.s, r, mask);
    if HighClear(w.s, r) {
      var t := EmittedMask(w.s, r, mask);
      MaskedExec(w.s, r, mask);
      forall i: nat | i < LANES && Bit(t[EXEC], i) ensures ExecAt(w, i) {
        if r == EXEC { CarryMaskEnabled(op, src, control, w, i); }
      }
      WriteAfterMaskIff(w, t, dst, g, g);
    }
  }

  lemma MadSoundIff(dst: nat, src: seq<Operand>, control: Control, w: Wave)
    requires WellFormed(w) && dst < VECTORS && |src| > 2
    ensures EmittedMad(dst, src, control, w) == ExecuteMad(dst, src, control, w)
       <==> HighClear(w.s, MaskTarget(control))
            && (MaskTarget(control) == EXEC ==>
                  var low, high := MadLow(src, control, w), MadHigh(src, control, w);
                  && Settled(w, MadMask(src, control, w), dst, low, low)
                  && Settled(w, MadMask(src, control, w), dst + 1, high, high))
  {
    hide Bit, MadWide, MadLow, MadHigh, WriteLanes, EmittedMask, WriteScalar;
    var r, mask := MaskTarget(control), MadMask(src, control, w);
    MaskStoreIff(w.s, r, mask);
    if HighClear(w.s, r) {
      var t := EmittedMask(w.s, r, mask);
      MaskedExec(w.s, r, mask);
      assert forall i: nat :: i < LANES && Bit(mask, i) ==> ExecAt(w, i);
      var low, high := MadLow(src, control, w), MadHigh(src, control, w);
      WriteTwiceIff(w, t, dst, low, high, low, high);
    }
  }

  lemma SelectSoundIff(dst: nat, src: seq<Operand>, control: Control, w: Wave)
    requires WellFormed(w) && dst < VECTORS
    ensures WriteLanes(w, dst, WholeSelect(src, control, w)) == WriteLanes(w, dst, SelectLanes(dst, src, control, w))
       <==> MergeIsWhole(control, dst, WholeSelect(src, control, w), w)
  {
    hide Bit, SelectValue, Merge, WriteLanes;
    WriteLanesIff(w, dst, WholeSelect(src, control, w), SelectLanes(dst, src, control, w));
    assert forall l: nat :: l < LANES ==>
      SelectLanes(dst, src, control, w)(l) == Merge(control, WholeSelect(src, control, w)(l), w.v[l][dst]);
  }

  lemma SaveexecSoundIff(logic: Logic, dst: nat, src: seq<Operand>, w: Wave)
    requires WellFormed(w)
    ensures EmittedSaveexec(logic, dst, src, w) == ExecuteSaveexec(logic, dst, src, w)
       <==> if dst == EXEC + 1 then w.s[EXEC] == 0 else w.s[EXEC + 1] == 0
  {
    hide Logic32, Uniform, Bit;
    var after := ExecuteSaveexec(logic, dst, src, w);
    assert after.s[EXEC + 1] == if dst == EXEC + 1 then w.s[EXEC] else w.s[EXEC + 1];
    assert after.s[EXEC + 1 := 0][EXEC + 1] == 0;
    if after.s[EXEC + 1] == 0 { assert after.s[EXEC + 1 := 0] == after.s; }
  }

  /** The instructions whose only possible flaw is the condition bit. */
  predicate SccOnly(i: Instruction) {
    !(i.VectorOp? || i.CarryOp? || i.VMadU64? || i.VCompare? || i.VCompareConst? || i.VCndmask? || i.Saveexec?
      || i.Scalar64? || i.Saveexec64?)
  }

  lemma SccOnlySoundIff(i: Instruction, w: Wave)
    requires WellFormed(w) && AsWritten(i) && SccOnly(i)
    ensures CodeFinal(i, w) == Execute(i, w) <==> Conditions(i, w)
  {
    hide Execute, EmittedScc, SccSound, AsWritten;
    SccSoundIff(i, w);
  }

  lemma VectorSoundIff(op: VOp, dst: nat, src: seq<Operand>, control: Control, w: Wave)
    requires WellFormed(w) && AsWritten(VectorOp(op, dst, src, control))
    ensures CodeFinal(VectorOp(op, dst, src, control), w) == Execute(VectorOp(op, dst, src, control), w)
       <==> Conditions(VectorOp(op, dst, src, control), w)
  {
    hide Bit, WriteLanes, VectorLanes, HighBytesVanish, SourceOrZero, Whole;
    if op == Arith(VMulU24) {
      if Whole(control) { Mul24Lanes(dst, src, control, w); } else { Mul24Merged(dst, src, control, w); }
    }
  }

  lemma CarryCase(op: COp, dst: nat, src: seq<Operand>, control: Control, w: Wave)
    requires WellFormed(w) && AsWritten(CarryOp(op, dst, src, control))
    ensures CodeFinal(CarryOp(op, dst, src, control), w) == Execute(CarryOp(op, dst, src, control), w)
      <==> Conditions(CarryOp(op, dst, src, control), w)
  {
    hide Bit, EmittedCarry, ExecuteCarry, Settled, CarryMask, CarryLanes, HighClear;
    CarrySoundIff(op, dst, src, control, w);
  }

  lemma MadCase(dst: nat, src: seq<Operand>, control: Control, w: Wave)
    requires WellFormed(w) && AsWritten(VMadU64(dst, src, control))
    ensures CodeFinal(VMadU64(dst, src, control), w) == Execute(VMadU64(dst, src, control), w)
      <==> Conditions(VMadU64(dst, src, control), w)
  {
    hide Bit, EmittedMad, ExecuteMad, Settled, MadMask, MadLow, MadHigh, HighClear;
    MadSoundIff(dst, src, control, w);
  }

  lemma CompareCase(rel: Rel, signed: bool, toExec: bool, src: seq<Operand>, control: Control, w: Wave)
    requires WellFormed(w) && AsWritten(VCompare(rel, signed, toExec, src, control))
    ensures CodeFinal(VCompare(rel, signed, toExec, src, control), w)
        == Execute(VCompare(rel, signed, toExec, src, control), w)
      <==> Conditions(VCompare(rel, signed, toExec, src, control), w)
  {
    hide Bit, CompareMask, EmittedMask, WriteScalar, HighClear;
    MaskStoreIff(w.s, MaskDestination(toExec, control), CompareMask(rel, signed, src, control, w));
  }

  lemma CompareConstCase(value: bool, toExec: bool, control: Control, w: Wave)
    requires WellFormed(w) && AsWritten(VCompareConst(value, toExec, control))
    ensures CodeFinal(VCompareConst(value, toExec, control), w) == Execute(VCompareConst(value, toExec, control), w)
      <==> Conditions(VCompareConst(value, toExec, control), w)
  {
    hide Bit, EmittedMask, WriteScalar, HighClear;
    MaskStoreIff(w.s, MaskDestination(toExec, control), if value then w.s[EXEC] else 0);
  }

  lemma SelectCase(dst: nat, src: seq<Operand>, control: Control, w: Wave)
    requires WellFormed(w) && AsWritten(VCndmask(dst, src, control))
    ensures CodeFinal(VCndmask(dst, src, control), w) == Execute(VCndmask(dst, src, control), w)
      <==> Conditions(VCndmask(dst, src, control), w)
  {
    hide Bit, WriteLanes, WholeSelect, SelectLanes, MergeIsWhole;
    SelectSoundIff(dst, src, control, w);
  }

  lemma SaveexecCase(logic: Logic, dst: nat, src: seq<Operand>, w: Wave)
    requires WellFormed(w) && AsWritten(Saveexec(logic, dst, src))
    ensures CodeFinal(Saveexec(logic, dst, src), w) == Execute(Saveexec(logic, dst, src), w)
      <==> Conditions(Saveexec(logic, dst, src), w)
  {
    hide Bit, EmittedSaveexec, ExecuteSaveexec;
    SaveexecSoundIff(logic, dst, src, w);
  }

  /** A pair stored at the null register reaches EXEC. */
  lemma PairStoreIff(s: seq<U32>, r: nat, x: U64)
    requires |s| == SCALARS
    ensures StorePair(s, r, x) == WritePair(s, r, x) <==> (r == NULL ==> x / TWO32 == s[EXEC])
  {
    if r == NULL {
      var t := s[NULL := x % TWO32];
      assert StorePair(s, r, x) == t[EXEC := x / TWO32] && WritePair(s, r, x) == t && t[EXEC] == s[EXEC];
      if x / TWO32 == s[EXEC] { assert t[EXEC := x / TWO32] == t; }
    }
  }

  lemma Scalar64Case(op: LOp, dst: nat, src: seq<Operand>, w: Wave)
    requires WellFormed(w) && AsWritten(Scalar64(op, dst, src))
    ensures CodeFinal(Scalar64(op, dst, src), w) == Execute(Scalar64(op, dst, src), w)
      <==> Conditions(Scalar64(op, dst, src), w)
  {
    hide Bit, Value64, StorePair, WritePair, Uniform, Uniform64, SccSound, EmittedScc64, Scc64;
    var i := Scalar64(op, dst, src);
    assert Spec64(op, src, w) == Wide64(op, src, w);
    PairStoreIff(w.s, dst, Spec64(op, src, w));
    SccSoundIff(i, w);
  }

  lemma Saveexec64Case(logic: Logic, dst: nat, src: seq<Operand>, w: Wave)
    requires WellFormed(w) && AsWritten(Saveexec64(logic, dst, src))
    ensures CodeFinal(Saveexec64(logic, dst, src), w) == Execute(Saveexec64(logic, dst, src), w)
      <==> Conditions(Saveexec64(logic, dst, src), w)
  {
    hide Bit, Logic64, Uniform64, Pair;
    var saved := Pair(w.s[EXEC], w.s[EXEC + 1]);
    var mask := Logic64(logic, Uniform64(0, src, w), saved);
    var low, high := mask % TWO32, mask / TWO32;
    assert StorePair(w.s, dst, saved)[EXEC := low][EXEC + 1 := high]
      == WritePair(w.s, dst, saved)[EXEC := low][EXEC + 1 := high];
  }

  /** The condition on the wave before is exact, for every instruction whose operands are read as written. */
  lemma CodeConditionsIff(i: Instruction, w: Wave)
    requires WellFormed(w) && AsWritten(i)
    ensures CodeFinal(i, w) == Execute(i, w) <==> Conditions(i, w)
  {
    hide CodeFinal, Execute, Conditions, AsWritten, WellFormed;
    match i
    case VectorOp(op, dst, src, control) => VectorSoundIff(op, dst, src, control, w);
    case CarryOp(op, dst, src, control) => CarryCase(op, dst, src, control, w);
    case VMadU64(dst, src, control) => MadCase(dst, src, control, w);
    case VCompare(rel, signed, toExec, src, control) => CompareCase(rel, signed, toExec, src, control, w);
    case VCompareConst(value, toExec, control) => CompareConstCase(value, toExec, control, w);
    case VCndmask(dst, src, control) => SelectCase(dst, src, control, w);
    case Saveexec(logic, dst, src) => SaveexecCase(logic, dst, src, w);
    case Scalar64(op, dst, src) => Scalar64Case(op, dst, src, w);
    case Saveexec64(logic, dst, src) => Saveexec64Case(logic, dst, src, w);
    case _ => SccOnlySoundIff(i, w);
  }
}
