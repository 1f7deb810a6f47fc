/** What constants and mask destinations mean, in numbers and bits: the integers and powers of two of the inline
    constants, and the register whose bits a compare or a carry answers with. */
module MetalValues {
  import opened Bits
  import opened Gen5Isa
  import opened Metal64Simulation
  import opened MetalEmission
  import opened MetalEmitted
  import opened MetalReadings
  import opened MetalRelation
  import opened MetalTarget
  import opened MetalTranslation
  import opened Words

  // ---- integers ----

  /** The encoding of a small integer, as section 3.4 of the guide lists it. */
  function CodeOf(n: int): nat
    requires -16 <= n <= 64
  {
    if n >= 0 then 128 + n else 192 - n
  }

  /** x is n in a word of 32 bits. */
  predicate IsWord(x: U32, n: int) {
    (x as int - n) % 0x1_0000_0000 == 0
  }

  predicate IsWide(low: U32, high: U32, n: int) {
    (low as int + 0x1_0000_0000 * (high as int) - n) % 0x1_0000_0000_0000_0000 == 0
  }

  lemma MoveExecutes(n: int, r: nat, w: Wave)
    requires -16 <= n <= 64 && WellFormed(w) && r < SCALARS
    ensures var i := ScalarUnary(SMov, r, [Encoded(CodeOf(n))]);
      && Accepted(i) && ReadAlike(i, w) && OpcodeSound(i, w) && FieldsFit(i, w)
      && IsWord(Execute(i, w).s[r], n) && AsSigned(Execute(i, w).s[r]) == n
  {
    hide Bit;
    assert n < 0 ==> Wrap32(n) == n + TWO32;
  }

  /** A move of a small integer ends, in every lane, with that integer in the register. */
  lemma MoveOfInteger(n: int, r: nat, k: nat, m: Machine, w: Wave, l: nat)
    requires -16 <= n <= 64 && r < 128 && Relates(m, w) && l < LANES
    ensures var i := ScalarUnary(SMov, r, [Encoded(CodeOf(n))]);
      var m' := Run(Emit(i, k), m);
      Accepted(i) && |m'.lanes| == LANES && |m'.lanes[l].s| == 128 && IsWord(m'.lanes[l].s[r], n)
  {
    hide Run, Emit, Execute, Sound, FieldsFit, OpcodeSound, ReadAlike, Accepted;
    var i := ScalarUnary(SMov, r, [Encoded(CodeOf(n))]);
    MoveExecutes(n, r, w);
    AlikeSoundIff(i, w);
    StepRelates(i, k, m, w);
    assert LaneMatches(Run(Emit(i, k), m).lanes[l], Execute(i, w), l);
  }

  lemma WideMoveExecutes(n: int, r: nat, w: Wave)
    requires -16 <= n <= 64 && WellFormed(w) && r + 1 < SCALARS && r != NULL
    ensures var i := Scalar64(SMov64, r, [Encoded(CodeOf(n))]);
      && Accepted(i) && ReadAlike(i, w) && OpcodeSound(i, w) && FieldsFit(i, w)
      && IsWide(Execute(i, w).s[r], Execute(i, w).s[r + 1], n)
  {
    hide Bit;
    var i := Scalar64(SMov64, r, [Encoded(CodeOf(n))]);
    var x := Source64(i.src[0], w, 0);
    assert (x as int - n) % 0x1_0000_0000_0000_0000 == 0 by {
      if n < 0 { assert x == TWO64 + n; } else { assert x == n; }
    }
    assert Execute(i, w).s[r] == x % TWO32 && Execute(i, w).s[r + 1] == x / TWO32;
  }

  /** So does a 64-bit move, in the pair of registers. */
  lemma WideMoveOfInteger(n: int, r: nat, k: nat, m: Machine, w: Wave, l: nat)
    requires -16 <= n <= 64 && r + 1 < SCALARS && r != NULL && Relates(m, w) && l < LANES
    ensures var i := Scalar64(SMov64, r, [Encoded(CodeOf(n))]);
      var m' := Run(Emit(i, k), m);
      && Accepted(i) && |m'.lanes| == LANES && |m'.lanes[l].s| == 128
      && IsWide(m'.lanes[l].s[r], m'.lanes[l].s[r + 1], n)
  {
    hide Run, Emit, Execute, Sound, FieldsFit, OpcodeSound, ReadAlike, Accepted;
    var i := Scalar64(SMov64, r, [Encoded(CodeOf(n))]);
    WideMoveExecutes(n, r, w);
    AlikeSoundIff(i, w);
    StepRelates(i, k, m, w);
    assert LaneMatches(Run(Emit(i, k), m).lanes[l], Execute(i, w), l);
  }

  lemma SignExtends(n: int)
    requires -0x8000 <= n < 0x8000
    ensures IsWord(SignExtend16(n % 0x1_0000), n)
  {
    hide Pow2, Lows, Shr, Wrap32;
    var x := n % 0x1_0000;
    assert Lows(x, 16) == x by {
      Pow2Known();
      ShrIsQuotient(x, 16);
    }
    assert x == if n >= 0 then n else n + 0x1_0000;
    WrapIsWord(n);
  }

  lemma ConstantMoveExecutes(n: int, r: nat, w: Wave)
    requires -0x8000 <= n < 0x8000 && WellFormed(w) && r < SCALARS
    ensures var i := ScalarK(SMovk, r, n % 0x1_0000);
      && Accepted(i) && ReadAlike(i, w) && OpcodeSound(i, w) && FieldsFit(i, w)
      && IsWord(Execute(i, w).s[r], n)
  {
    hide Bit, SignExtend16, IsWord;
    SignExtends(n);
  }

  /** A move of a 16-bit constant ends with the number the constant means with a sign. */
  lemma MoveOfConstant(n: int, r: nat, k: nat, m: Machine, w: Wave, l: nat)
    requires -0x8000 <= n < 0x8000 && r < 128 && Relates(m, w) && l < LANES
    ensures var i := ScalarK(SMovk, r, n % 0x1_0000);
      var m' := Run(Emit(i, k), m);
      Accepted(i) && |m'.lanes| == LANES && |m'.lanes[l].s| == 128 && IsWord(m'.lanes[l].s[r], n)
  {
    hide Run, Emit, Execute, Sound, FieldsFit, OpcodeSound, ReadAlike, Accepted;
    var i := ScalarK(SMovk, r, n % 0x1_0000);
    ConstantMoveExecutes(n, r, w);
    AlikeSoundIff(i, w);
    StepRelates(i, k, m, w);
    assert LaneMatches(Run(Emit(i, k), m).lanes[l], Execute(i, w), l);
  }

  // ---- arithmetic and counts ----

  lemma SignedTimesIsProduct(x: int, y: int)
    ensures SignedTimes(x, y) == x * y
  {
    hide Times;
    TimesIsProduct(Abs(x), Abs(y));
    if x < 0 && y < 0 { assert (-x) * (-y) == x * y; }
    if x < 0 <= y { assert (-x) * y == -(x * y); }
    if y < 0 <= x { assert x * (-y) == -(x * y); }
  }

  /** The products of the vector multiplications, in numbers. */
  lemma MultiplicationsMean(a: U32, b: U32, c: U32)
    ensures ArithValue(VMulLo, a, b, c) == (a * b) % 0x1_0000_0000
    ensures ArithValue(VMulHiU, a, b, c) == (a * b) / 0x1_0000_0000
    ensures IsWord(ArithValue(VMulHiI, a, b, c), (Number(a, true) * Number(b, true)) / 0x1_0000_0000)
    ensures ArithValue(VMulU24, a, b, c) == ((a % 0x100_0000) * (b % 0x100_0000)) % 0x1_0000_0000
    ensures ArithValue(VMulHiU24, a, b, c) == ((a % 0x100_0000) * (b % 0x100_0000)) / 0x1_0000_0000
  {
    hide Times, Lows, SignedTimes;
    TimesIsProduct(a, b);
    SignedTimesIsProduct(AsSigned(a), AsSigned(b));
    Mod24(a);
    Mod24(b);
    TimesIsProduct(a % 0x100_0000, b % 0x100_0000);
    WrapIsWord((Number(a, true) * Number(b, true)) / 0x1_0000_0000);
  }

  lemma WrapIsWord(x: int)
    ensures IsWord(Wrap32(x), x)
  {
  }

  lemma Mod24(x: U32)
    ensures Lows(x, 24) == x % 0x100_0000
  {
    assert Pow2(24) == 0x100_0000 by { Pow2Known(); }
    ShrIsQuotient(x, 24);
  }

  lemma {:induction false} BitIsDigit(x: nat, i: nat)
    ensures Bit(x, i) <==> x / Pow2(i) % 2 == 1
  {
    if i > 0 {
      BitIsDigit(x / 2, i - 1);
      ShrIsQuotient(x, i);
      ShrIsQuotient(x / 2, i - 1);
    }
  }

  function OnesOf(x: U32, n: nat): set<nat> {
    set i: nat | i < n && Bit(x, i)
  }

  lemma {:induction false} CountIsSize(x: U32, n: nat)
    ensures CountBelow(x, n) == |OnesOf(x, n)|
  {
    hide Bit;
    if n == 0 {
      assert OnesOf(x, 0) == {};
    } else {
      CountIsSize(x, n - 1);
      var before := OnesOf(x, n - 1);
      assert OnesOf(x, n) == if Bit(x, n - 1) then before + {n - 1} else before;
    }
  }

  /** The bit counts count the ones of the word, and those below the lane. */
  lemma CountsMean(a: U32, b: U32, lane: nat)
    ensures IsWord(CountValue(VBcnt, a, b, lane), |OnesOf(a, 32)| + b)
    ensures lane < 32 ==> IsWord(CountValue(VMbcntLo, a, b, lane), |OnesOf(a, lane)| + b)
  {
    hide Bit;
    CountIsSize(a, 32);
    CountIsSize(a, lane);
  }

  // ---- floating-point constants ----

  function PowerOfTwo(e: int): real
    decreases if e < 0 then -e else e
  {
    if e == 0 then 1.0 else if e > 0 then 2.0 * PowerOfTwo(e - 1) else PowerOfTwo(e + 1) / 2.0
  }

  /** The number a word means in single precision, when its exponent field is neither all zeros nor all ones. */
  function SingleValue(x: U32): real {
    var magnitude := (1.0 + (x % 0x80_0000) as real / 8388608.0) * PowerOfTwo((x / 0x80_0000) % 0x100 - 127);
    if x >= 0x8000_0000 then -magnitude else magnitude
  }

  function DoubleValue(x: U64): real {
    var magnitude := (1.0 + (x % 0x10_0000_0000_0000) as real / 4503599627370496.0)
      * PowerOfTwo((x / 0x10_0000_0000_0000) % 0x800 - 1023);
    if x >= 0x8000_0000_0000_0000 then -magnitude else magnitude
  }

  /** The guide's values for the encodings 240 to 247. */
  const FLOATS: seq<real> := [0.5, -0.5, 1.0, -1.0, 2.0, -2.0, 4.0, -4.0]

  lemma SmallPowers()
    ensures PowerOfTwo(-1) == 0.5 && PowerOfTwo(0) == 1.0 && PowerOfTwo(1) == 2.0 && PowerOfTwo(2) == 4.0
    ensures PowerOfTwo(-3) == 0.125
  {
    assert PowerOfTwo(-2) == 0.25;
  }

  lemma PowerSingle(x: U32, e: int)
    requires x % 0x80_0000 == 0 && (x / 0x80_0000) % 0x100 == 127 + e
    ensures SingleValue(x) == if x >= 0x8000_0000 then -PowerOfTwo(e) else PowerOfTwo(e)
  {
    hide PowerOfTwo;
    assert (x % 0x80_0000) as real / 8388608.0 == 0.0;
  }

  lemma PowerDouble(x: U64, e: int)
    requires x % 0x10_0000_0000_0000 == 0 && (x / 0x10_0000_0000_0000) % 0x800 == 1023 + e
    ensures DoubleValue(x) == if x >= 0x8000_0000_0000_0000 then -PowerOfTwo(e) else PowerOfTwo(e)
  {
    hide PowerOfTwo;
    assert (x % 0x10_0000_0000_0000) as real / 4503599627370496.0 == 0.0;
  }

  /** Both precisions of a constant are the number the guide gives. */
  lemma FloatConstants(code: nat)
    requires 240 <= code <= 247
    ensures InlineConstant(code).Some? && SingleValue(InlineConstant(code).value) == FLOATS[code - 240]
    ensures InlineDouble(code).Some? && DoubleValue(InlineDouble(code).value) == FLOATS[code - 240]
  {
    hide PowerOfTwo, SingleValue, DoubleValue;
    SmallPowers();
    var e := (code - 240) / 2 - 1;
    PowerSingle(InlineConstant(code).value, e);
    PowerDouble(InlineDouble(code).value, e);
  }

  /** Code 248 is 1 / (2 pi), which lies in the given interval, rounded to single precision, and cut off to double
      precision: half a unit and one unit in the last place. */
  lemma InverseOfTwoPi(x: real)
    requires 0.15915494309189533576 < x < 0.15915494309189533577
    ensures InlineConstant(248).Some? && Near(SingleValue(InlineConstant(248).value), x, 1.0 / 134217728.0)
    ensures InlineDouble(248).Some? && Near(DoubleValue(InlineDouble(248).value), x, 1.0 / 36028797018963968.0)
  {
    hide PowerOfTwo;
    SmallPowers();
    assert SingleValue(0x3E22_F983) == (1.0 + 2292099.0 / 8388608.0) * 0.125;
    assert DoubleValue(0x3FC4_5F30_6DC9_C882) == (1.0 + 1230561511852162.0 / 4503599627370496.0) * 0.125;
  }

  predicate Near(y: real, x: real, distance: real) {
    -distance <= y - x <= distance
  }

  // ---- the register a compare or a carry answers in ----

  /** The relation between two numbers that a compare opcode is named for. */
  predicate Holds(rel: Rel, x: int, y: int) {
    match rel
    case Eq => x == y
    case Ne => !(x == y)
    case Lt => x < y
    case Le => x < y || x == y
    case Gt => y < x
    case Ge => y < x || x == y
  }

  /** x as a number, with or without a sign. */
  function Number(x: U32, signed: bool): int {
    if signed && x >= 0x8000_0000 then x as int - 0x1_0000_0000 else x
  }

  /** An SDWA compare with a scalar destination. */
  function SdwaTo(d: Sdwa, q: nat): Control {
    SdwaControl(d.(scalarDestination := Some(q)))
  }

  lemma CompareAnswers(rel: Rel, signed: bool, src: seq<Operand>, control: Control, q: nat, w: Wave, l: nat)
    requires WellFormed(w) && l < LANES && q < SCALARS
    requires (control == Plain && q == 106) || exists d: Sdwa :: control == SdwaTo(d, q)
    ensures var w' := Execute(VCompare(rel, signed, false, src, control), w);
      Bit(w'.s[q], l) <==>
        && Bit(w.s[126], l)
        && Holds(rel, Number(SourceOrZero(0, src, control, w, l), signed),
                 Number(SourceOrZero(1, src, control, w, l), signed))
  {
    hide Bit, SourceOrZero;
  }

  /** After the emitted code of a compare, bit l of the destination is the enabled lane's answer, in every lane's
      copy: of VCC without a control, of the scalar destination with one. */
  lemma CompareStores(rel: Rel, signed: bool, src: seq<Operand>, control: Control, q: nat, k: nat, m: Machine,
      w: Wave, j: nat, l: nat)
    requires q < SCALARS && j < LANES && l < LANES && Relates(m, w)
    requires (control == Plain && q == 106) || exists d: Sdwa :: control == SdwaTo(d, q)
    requires var i := VCompare(rel, signed, false, src, control); Accepted(i) && Sound(i, w)
    ensures var i := VCompare(rel, signed, false, src, control);
      var m' := Run(Emit(i, k), m);
      && |m'.lanes| == LANES && |m'.lanes[j].s| == 128
      && (Bit(m'.lanes[j].s[q], l) <==>
            && Bit(w.s[126], l)
            && Holds(rel, Number(SourceOrZero(0, src, control, w, l), signed),
                     Number(SourceOrZero(1, src, control, w, l), signed)))
  {
    hide Run, Emit, Execute, Sound, Accepted, Bit, SourceOrZero, SdwaTo;
    var i := VCompare(rel, signed, false, src, control);
    assert FieldsFit(i, w);
    StepRelates(i, k, m, w);
    CompareAnswers(rel, signed, src, control, q, w, l);
    assert LaneMatches(Run(Emit(i, k), m).lanes[j], Execute(i, w), j);
  }

  /** The enabled lane's carry or borrow; the carry in is the lane's bit of the mask operand, or of VCC. */
  predicate CarryAnswer(op: COp, src: seq<Operand>, control: Control, w: Wave, l: nat)
    requires WellFormed(w) && l < LANES
  {
    && Bit(w.s[126], l)
    && CarriesOut(op, SourceOrZero(0, src, control, w, l), SourceOrZero(1, src, control, w, l),
                  Bit(w.s[if |src| > 2 && src[2].Scalar? && src[2].r < SCALARS then src[2].r else 106], l))
  }

  /** A carry goes to the VOP3 scalar destination, and to VCC when there is none. */
  lemma CarryStores(op: COp, dst: nat, src: seq<Operand>, control: Control, q: nat, k: nat, m: Machine, w: Wave,
      j: nat, l: nat)
    requires q < SCALARS && j < LANES && l < LANES && Relates(m, w)
    requires control == Vop3(Some(q)) || (q == 106 && (control == Plain || control == Vop3(None)))
    requires Accepted(CarryOp(op, dst, src, control)) && Sound(CarryOp(op, dst, src, control), w)
    ensures var m' := Run(Emit(CarryOp(op, dst, src, control), k), m);
      && |m'.lanes| == LANES && |m'.lanes[j].s| == 128
      && (Bit(m'.lanes[j].s[q], l) <==> CarryAnswer(op, src, control, w, l))
  {
    hide Run, Emit, Sound, Bit, SourceOrZero, WriteLanes, CarryLanes;
    var i := CarryOp(op, dst, src, control);
    StepRelates(i, k, m, w);
    assert LaneMatches(Run(Emit(i, k), m).lanes[j], Execute(i, w), j);
  }

  /** The sum leaves the word, or the difference goes below zero. */
  predicate CarriesOut(op: COp, x: U32, y: U32, carry: bool) {
    var k := if carry then 1 else 0;
    match op
    case VAddCo => x as int + y >= 0x1_0000_0000
    case VAddc => x as int + y + k >= 0x1_0000_0000
    case VSubCo => x as int - y < 0
    case VSubb => x as int - y - k < 0
    case VSubrevCo => y as int - x < 0
    case VSubbrev => y as int - x - k < 0
  }

  // ---- what is covered ----

  /** There are 128 scalar registers, and 256 vector registers in each of 32 lanes. */
  lemma FileSizes(w: Wave)
    requires WellFormed(w)
    ensures |w.s| == 128 && |w.v| == 32 && forall l: nat :: l < 32 ==> |w.v[l]| == 256
  {
  }

  /** The encoded constants are null, the integers, the floating-point numbers and the status bits. */
  lemma ConstantsCovered(code: nat)
    ensures OperandAccepted(Encoded(code)) <==>
      code == 125 || 128 <= code <= 208 || 240 <= code <= 248 || 251 <= code <= 253
  {
  }

  predicate Registers(src: seq<Operand>, n: nat, vector: bool) {
    |src| == n && forall j :: 0 <= j < n ==> if vector then src[j].Vector? && src[j].r < 256 else src[j].Scalar?
  }

  /** Every vector opcode is covered, on registers and in every destination. */
  lemma VectorsCovered(op: VOp, cop: COp, dst: nat, src: seq<Operand>, r: nat, control: Control)
    requires dst < 256 && r < 128 && Registers(src, 3, true) && (control == Plain || control.Vop3?)
    ensures Accepted(VectorOp(op, dst, src, control)) && Accepted(VCndmask(dst, src[2 := Scalar(r)], control))
    ensures Accepted(CarryOp(cop, dst, src[2 := Scalar(r)], control)) && Accepted(CarryOp(VAddCo, dst, src, control))
    ensures src[2].r < 255 ==> Accepted(VMadU64(dst, src, control))
  {
  }

  lemma LanesCovered(rel: Rel, flags: (bool, bool), dst: nat, src: seq<Operand>, r: nat)
    requires dst < 256 && Registers(src, 2, true)
    ensures Accepted(VCompare(rel, flags.0, flags.1, src, Plain)) && Accepted(VCompareConst(flags.0, flags.1, Plain))
    ensures Accepted(VReadfirstlane(r, src)) && Accepted(VReadlane(r, src[1 := Scalar(r)]))
    ensures Accepted(VWritelane(dst, src[1 := Scalar(r)]))
  {
  }

  /** So is every scalar opcode; the 32-bit forms have no and-not or or-not of their first operand. */
  lemma ScalarsCovered(op: SOp, logic: Logic, dst: nat, src: seq<Operand>)
    requires Registers(src, 2, false)
    ensures (op.SLogic? ==> op.op !in {Andn1L, Orn1L}) && (op.SLshlAdd? ==> 1 <= op.n <= 4) ==>
      Accepted(ScalarOp(op, dst, src))
    ensures Accepted(Saveexec(logic, dst, src)) && Accepted(Saveexec64(logic, dst, src))
  {
  }

  lemma OtherScalarsCovered(op: UOp, kop: KOp, lop: LOp, rel: Rel, flag: bool, dst: nat, src: seq<Operand>, simm: nat)
    requires Registers(src, 2, false)
    ensures Accepted(ScalarUnary(op, dst, src)) && Accepted(ScalarK(kop, dst, simm))
    ensures Accepted(Scalar64(lop, dst, src)) && Accepted(ScalarCompare(rel, flag, src))
    ensures Accepted(ScalarCompareK(rel, flag, dst, simm)) && Accepted(ScalarBitcmp(flag, src))
  {
  }
}
