/** What the translator emits for each instruction, as statements over fresh temporaries. */
module MetalEmission {
  import opened Bits
  import opened Gen5Isa
  import opened MetalTarget
  import opened Words

  // ---- the translator's own tables ----

  /** The bits of a power of two as a single. */
  function PowerBits(negative: bool, exponent: int): U32
    requires -127 < exponent < 128
  {
    (if negative then 0x8000_0000 else 0) + 0x80_0000 * (exponent + 127)
  }

  /** The translator's decoder of inline constants, which agrees with the instruction set's table. */
  function TryDecode(code: nat): (value: Option<U32>)
    ensures value == InlineConstant(code)
  {
    if code == 125 then Some(0)
    else if 128 <= code <= 192 then Some(code - 128)
    else if 193 <= code <= 208 then Some(Wrap32(-(code - 192)))
    else if 240 <= code <= 247 then Some(PowerBits(code % 2 == 1, (code - 240) / 2 - 1))
    else if code == 248 then Some(0x3E22_F983)
    else None
  }

  /** Where the translator stores a carry: the VOP3 scalar destination, or VCC. */
  function CarryStore(control: Control): (r: nat)
    ensures r == MaskTarget(control)
  {
    if control.Vop3? && control.scalarDestination.Some? then control.scalarDestination.value else VCC
  }

  /** Where it stores a compare: the SDWA scalar destination, or VCC. */
  function CompareStore(control: Control): (r: nat)
    ensures r == CompareTarget(control)
  {
    if control.SdwaControl? && control.sdwa.scalarDestination.Some? then control.sdwa.scalarDestination.value else VCC
  }

  // ---- which instructions are accepted ----

  predicate OperandAccepted(o: Operand) {
    match o
    case Scalar(_) | Literal(_) | ZeroExtended(_) => true
    case Vector(r) => r < VECTORS
    case Encoded(code) => code in {251, 252, 253} || TryDecode(code).Some?
    case PairZero(r) => r + 1 < SCALARS
  }

  predicate SourcesAccepted(src: seq<Operand>, n: nat) {
    |src| >= n && forall i :: 0 <= i < |src| ==> OperandAccepted(src[i])
  }

  /** A scalar instruction reads no vector register: its operands are the same for every lane. */
  predicate ScalarSourcesAccepted(src: seq<Operand>, n: nat) {
    SourcesAccepted(src, n) && forall i :: 0 <= i < |src| ==> !src[i].Vector?
  }

  /** The reserved selectors are rejected. */
  predicate ControlOk(control: Control) {
    control.SdwaControl? ==>
      && control.sdwa.select0 < 7 && control.sdwa.select1 < 7
      && control.sdwa.destination < 7 && control.sdwa.unused < 3
  }

  predicate MaskSourceOk(src: seq<Operand>) {
    |src| > 2 ==> src[2].Scalar? && src[2].r < SCALARS
  }

  predicate PairOk(o: Operand) {
    o.Vector? ==> o.r + 1 < VECTORS
  }

  function Arity(op: VOp): nat {
    match op
    case Arith(VMov) | Bitwise(VNot) | Bitwise(VBfrev) | Counting(VFfbl) => 1
    case Arith(VMadU24) | Arith(VMadU16) | Arith(VAdd3) | Arith(VAddLshl) | Arith(VLshlAdd)
       | Order(VMin3U) | Order(VMax3U) | Order(VMin3I) | Order(VMax3I) | Order(VMed3U) | Order(VMed3I)
       | Bitwise(VAndOr) | Bitwise(VOr3) | Bitwise(VBfi) | Shift(VLshlOr) | Shift(VBfe) => 3
    case _ => 2
  }

  /** The scalar logic opcodes the 32-bit form has. */
  predicate Logic32Ok(op: Logic) {
    op != Andn1L && op != Orn1L
  }

  predicate Accepted(i: Instruction) {
    match i
    case VectorOp(op, dst, src, control) => dst < VECTORS && SourcesAccepted(src, Arity(op)) && ControlOk(control)
    case CarryOp(op, dst, src, control) =>
      && dst < VECTORS && SourcesAccepted(src, 2) && ControlOk(control)
      && (op in {VAddc, VSubb, VSubbrev} ==> MaskSourceOk(src))
    case VMadU64(dst, src, control) =>
      dst < VECTORS && SourcesAccepted(src, 3) && !control.SdwaControl? && PairOk(src[2])
    case VCompare(_, _, _, src, control) => SourcesAccepted(src, 2) && ControlOk(control) && !control.Vop3?
    case VCompareConst(_, _, control) => ControlOk(control) && !control.Vop3?
    case VCndmask(dst, src, control) =>
      dst < VECTORS && SourcesAccepted(src, 2) && MaskSourceOk(src) && ControlOk(control)
    case VReadfirstlane(_, src) => SourcesAccepted(src, 1)
    case VReadlane(_, src) => SourcesAccepted(src, 2) && !src[1].Vector?
    case VWritelane(dst, src) => dst < VECTORS && SourcesAccepted(src, 2) && !src[1].Vector?
    case ScalarOp(op, _, src) =>
      && ScalarSourcesAccepted(src, 2)
      && (op.SLogic? ==> Logic32Ok(op.op)) && (op.SLshlAdd? ==> 1 <= op.n <= 4)
    case ScalarUnary(_, _, src) => ScalarSourcesAccepted(src, 1)
    case ScalarK(_, _, _) | ScalarCompareK(_, _, _, _) => true
    case ScalarCompare(_, _, src) => ScalarSourcesAccepted(src, 2)
    case ScalarBitcmp(_, src) => ScalarSourcesAccepted(src, 2)
    case Saveexec(_, _, src) => ScalarSourcesAccepted(src, 1)
    case Saveexec64(_, _, src) => ScalarSourcesAccepted(src, 1)
    case Scalar64(op, _, src) => ScalarSourcesAccepted(src, if op in {SMov64, SNot64, SWqm64} then 1 else 2)
  }

  // ---- operands as the emitted text reads them ----

  /** What the emitted text reads for an operand: both halves of a mask for its status bit, a single for
      every floating-point constant, and a literal with zeros above it. */
  function Rendered(o: Operand): Operand {
    match o
    case Encoded(code) =>
      if code == 251 then PairZero(VCC)
      else if code == 252 then PairZero(EXEC)
      else if InlineDouble(code).Some? && TryDecode(code).Some? then ZeroExtended(TryDecode(code).value)
      else o
    case Literal(n) => ZeroExtended(n)
    case _ => o
  }

  function RenderedAll(src: seq<Operand>): (r: seq<Operand>)
    ensures |r| == |src| && forall j :: 0 <= j < |src| ==> r[j] == Rendered(src[j])
  {
    seq(|src|, j requires 0 <= j < |src| => Rendered(src[j]))
  }

  function RenderedIn(i: Instruction): Instruction {
    match i
    case VCompareConst(_, _, _) | ScalarK(_, _, _) | ScalarCompareK(_, _, _, _) => i
    case VectorOp(op, dst, src, control) => VectorOp(op, dst, RenderedAll(src), control)
    case CarryOp(op, dst, src, control) => CarryOp(op, dst, RenderedAll(src), control)
    case VMadU64(dst, src, control) => VMadU64(dst, RenderedAll(src), control)
    case VCompare(rel, signed, toExec, src, control) => VCompare(rel, signed, toExec, RenderedAll(src), control)
    case VCndmask(dst, src, control) => VCndmask(dst, RenderedAll(src), control)
    case VReadfirstlane(dst, src) => VReadfirstlane(dst, RenderedAll(src))
    case VReadlane(dst, src) => VReadlane(dst, RenderedAll(src))
    case VWritelane(dst, src) => VWritelane(dst, RenderedAll(src))
    case ScalarOp(op, dst, src) => ScalarOp(op, dst, RenderedAll(src))
    case ScalarUnary(op, dst, src) => ScalarUnary(op, dst, RenderedAll(src))
    case ScalarCompare(rel, signed, src) => ScalarCompare(rel, signed, RenderedAll(src))
    case ScalarBitcmp(set1, src) => ScalarBitcmp(set1, RenderedAll(src))
    case Saveexec(logic, dst, src) => Saveexec(logic, dst, RenderedAll(src))
    case Scalar64(op, dst, src) => Scalar64(op, dst, RenderedAll(src))
    case Saveexec64(logic, dst, src) => Saveexec64(logic, dst, RenderedAll(src))
  }

  predicate OperandOk(o: Operand) {
    OperandAccepted(o) && Rendered(o) == o
  }

  predicate SourcesOk(src: seq<Operand>, n: nat) {
    |src| >= n && forall i :: 0 <= i < |src| ==> OperandOk(src[i])
  }

  predicate ScalarSourcesOk(src: seq<Operand>, n: nat) {
    SourcesOk(src, n) && forall i :: 0 <= i < |src| ==> !src[i].Vector?
  }

  /** An accepted instruction whose operands the emitted text reads as they are. */
  predicate AsWritten(i: Instruction) {
    Accepted(i) && (i.VCompareConst? || i.ScalarK? || i.ScalarCompareK? || SourcesOk(i.src, 0))
  }

  lemma RenderedAsWritten(i: Instruction)
    requires Accepted(i)
    ensures AsWritten(RenderedIn(i))
  {
    if !(i.VCompareConst? || i.ScalarK? || i.ScalarCompareK?) {
      var r := RenderedAll(i.src);
      forall j | 0 <= j < |r|
        ensures OperandOk(r[j]) && (r[j].Vector? <==> i.src[j].Vector?) && (PairOk(i.src[j]) ==> PairOk(r[j])) {
        assert OperandAccepted(i.src[j]);
      }
    }
  }

  // ---- operands ----

  function ScalarExpr(r: nat): UExpr {
    if r < SCALARS then S(r) else Lit(0)
  }

  function FlagExpr(c: BExpr): UExpr {
    Cond(c, Lit(1), Lit(0))
  }

  function PairZeroExpr(r: nat): UExpr {
    FlagExpr(Cmp(Eq, Or(S(r), S(r + 1)), Lit(0)))
  }

  function SourceExpr(o: Operand): UExpr {
    match o
    case Scalar(r) => ScalarExpr(r)
    case Vector(r) => V(r)
    case Literal(n) => Lit(n)
    case Encoded(code) =>
      if code == 251 then PairZeroExpr(VCC)
      else if code == 252 then PairZeroExpr(EXEC)
      else if code == 253 then FlagExpr(Scc)
      else (match TryDecode(code) case Some(n) => Lit(n) case None => Lit(0))
    case PairZero(r) => PairZeroExpr(r)
    case ZeroExtended(n) => Lit(n)
  }

  function SelectExpr(x: UExpr, select: nat): UExpr {
    match select
    case 0 => And(x, Lit(0xFF))
    case 1 => And(ShiftR(x, Lit(8)), Lit(0xFF))
    case 2 => And(ShiftR(x, Lit(16)), Lit(0xFF))
    case 3 => And(ShiftR(x, Lit(24)), Lit(0xFF))
    case 4 => And(x, Lit(0xFFFF))
    case 5 => And(ShiftR(x, Lit(16)), Lit(0xFFFF))
    case _ => x
  }

  function ExtendExpr(x: UExpr, select: nat, extend: bool): UExpr {
    if extend && select != 6
    then FromInt(IExtractBits(AsInt(x), Lit(0), Lit(if select <= 3 then 8 else 16))) else x
  }

  function SdwaExpr(x: UExpr, select: nat, extend: bool, absolute: bool, negate: bool): UExpr {
    var field := ExtendExpr(SelectExpr(x, select), select, extend);
    var magnitude := if absolute then FromInt(IAbs(AsInt(field))) else field;
    if negate then Sub(Lit(0), magnitude) else magnitude
  }

  function Raw(i: nat, src: seq<Operand>, control: Control): UExpr
    requires i < |src|
  {
    var x := SourceExpr(src[i]);
    if control.SdwaControl? && i == 0 then
      SdwaExpr(x, control.sdwa.select0, control.sdwa.extend0, control.sdwa.absolute0, control.sdwa.negate0)
    else if control.SdwaControl? && i == 1 then
      SdwaExpr(x, control.sdwa.select1, control.sdwa.extend1, control.sdwa.absolute1, control.sdwa.negate1)
    else x
  }

  /** A source that the opcode may not have. */
  function RawOrZero(i: nat, src: seq<Operand>, control: Control): UExpr {
    if i < |src| then Raw(i, src, control) else Lit(0)
  }

  function PairExpr(low: UExpr, high: UExpr): LExpr {
    LOr(Wide(low), LShiftL(Wide(high), Wide(Lit(32))))
  }

  function Scalar64Expr(r: nat): LExpr {
    if r + 1 < SCALARS then PairExpr(S(r), S(r + 1)) else LLit(0)
  }

  function Raw64(o: Operand): LExpr {
    match o
    case Scalar(r) => Scalar64Expr(r)
    case Vector(r) => PairExpr(V(r), V(r + 1))
    case Encoded(code) => if 193 <= code <= 208 then LLit(TWO64 - (code - 192)) else Wide(SourceExpr(o))
    case Literal(_) | PairZero(_) | ZeroExtended(_) => Wide(SourceExpr(o))
  }

  function LaneBitExpr(x: UExpr): BExpr {
    Cmp(Ne, And(ShiftR(x, LaneId), Lit(1)), Lit(0))
  }

  function MaskBitExpr(src: seq<Operand>): BExpr {
    if |src| > 2 && src[2].Scalar? then
      if src[2].r == VCC then Vcc else if src[2].r == EXEC then Exec else LaneBitExpr(S(src[2].r))
    else Vcc
  }

  // ---- vector expressions ----

  function Five(x: UExpr): UExpr {
    And(x, Lit(31))
  }

  function Below(n: UExpr): UExpr {
    Sub(ShiftL(Lit(1), n), Lit(1))
  }

  function MbcntLoExpr(wave64: bool, a: UExpr, b: UExpr): UExpr {
    var partial := PopCount(And(a, Below(LaneId)));
    Add(if wave64 then Cond(Cmp(Ge, LaneId, Lit(32)), PopCount(a), partial) else partial, b)
  }

  function MbcntHiExpr(wave64: bool, a: UExpr, b: UExpr): UExpr {
    if wave64 then
      Add(Cond(Cmp(Ge, LaneId, Lit(32)), PopCount(And(a, Below(Sub(LaneId, Lit(32))))), Lit(0)), b)
    else b
  }

  function ArithExpr(op: ArithOp, a: UExpr, b: UExpr, c: UExpr): UExpr {
    match op
    case VMov => a
    case VAdd => Add(a, b)
    case VSub => Sub(a, b)
    case VSubrev => Sub(b, a)
    case VMulLo => Mul(a, b)
    case VMulHiU => MulHi(a, b)
    case VMulHiU24 => MulHi(And(a, Lit(0xFF_FFFF)), And(b, Lit(0xFF_FFFF)))
    case VMulHiI => FromInt(IMulHi(AsInt(a), AsInt(b)))
    case VMulU24 => Mul(a, b)
    case VMadU24 => Add(Mul(And(a, Lit(0xFF_FFFF)), And(b, Lit(0xFF_FFFF))), c)
    case VMadU16 => Add(Mul(And(a, Lit(0xFFFF)), And(b, Lit(0xFFFF))), c)
    case VAdd3 => Add(Add(a, b), c)
    case VAddLshl => ShiftL(Add(a, b), Five(c))
    case VLshlAdd => Add(ShiftL(a, Five(b)), c)
  }

  function OrderExpr(op: OrderOp, a: UExpr, b: UExpr, c: UExpr): UExpr {
    match op
    case VMinU => Min(a, b)
    case VMaxU => Max(a, b)
    case VMinI => FromInt(IMin(AsInt(a), AsInt(b)))
    case VMaxI => FromInt(IMax(AsInt(a), AsInt(b)))
    case VMin3U => Min(Min(a, b), c)
    case VMax3U => Max(Max(a, b), c)
    case VMin3I => FromInt(IMin(IMin(AsInt(a), AsInt(b)), AsInt(c)))
    case VMax3I => FromInt(IMax(IMax(AsInt(a), AsInt(b)), AsInt(c)))
    case VMed3U => Max(Min(a, b), Min(Max(a, b), c))
    case VMed3I => FromInt(IMax(IMin(AsInt(a), AsInt(b)), IMin(IMax(AsInt(a), AsInt(b)), AsInt(c))))
  }

  function BitExpr(op: BitOp, a: UExpr, b: UExpr, c: UExpr): UExpr {
    match op
    case VAnd => And(a, b)
    case VOr => Or(a, b)
    case VXor => Xor(a, b)
    case VXnor => Not(Xor(a, b))
    case VNot => Not(a)
    case VAndOr => Or(And(a, b), c)
    case VOr3 => Or(Or(a, b), c)
    case VBfi => Or(And(a, b), And(Not(a), c))
    case VBfrev => ReverseBits(a)
  }

  function ShiftExpr(op: ShiftOp, a: UExpr, b: UExpr, c: UExpr): UExpr {
    match op
    case VLshl => ShiftL(a, Five(b))
    case VLshlrev => ShiftL(b, Five(a))
    case VLshr => ShiftR(a, Five(b))
    case VLshrrev => ShiftR(b, Five(a))
    case VAshr => FromInt(IShiftR(AsInt(a), Five(b)))
    case VAshrrev => FromInt(IShiftR(AsInt(b), Five(a)))
    case VLshlOr => Or(ShiftL(a, Five(b)), c)
    case VBfe => ExtractBits(a, Five(b), Five(c))
    case VBfm => ShiftL(Below(Five(a)), Five(b))
  }

  function CountExpr(op: CountOp, a: UExpr, b: UExpr): UExpr {
    match op
    case VBcnt => Add(PopCount(a), b)
    case VFfbl => Cond(Cmp(Eq, a, Lit(0)), Lit(0xFFFF_FFFF), CtzOf(a))
    case VMbcntLo => MbcntLoExpr(false, a, b)
    case VMbcntHi => MbcntHiExpr(false, a, b)
  }

  function VectorExpr(op: VOp, a: UExpr, b: UExpr, c: UExpr): UExpr {
    match op
    case Arith(f) => ArithExpr(f, a, b, c)
    case Order(f) => OrderExpr(f, a, b, c)
    case Bitwise(f) => BitExpr(f, a, b, c)
    case Shift(f) => ShiftExpr(f, a, b, c)
    case Counting(f) => CountExpr(f, a, b)
  }

  // ---- stores ----

  function StoreScalar(r: nat, e: UExpr, k: nat): seq<Stmt> {
    if r == VCC then [Let(k, e), SetS(VCC, T(k)), SetVcc(LaneBitExpr(T(k)))]
    else if r == EXEC then [Let(k, e), SetS(EXEC, T(k)), SetExec(LaneBitExpr(T(k)))]
    else if r < SCALARS then [SetS(r, e)]
    else []
  }

  /** The mask registers are written through a temporary. */
  function StoreTemps(r: nat): nat {
    if r == VCC || r == EXEC then 1 else 0
  }

  function StoreScalar64(r: nat, w: LExpr, k: nat): seq<Stmt> {
    StoreScalar(r, LowHalf(w), k) + StoreScalar(r + 1, LowHalf(LShiftR(w, Wide(Lit(32)))), k + StoreTemps(r))
  }

  function StoreVector(r: nat, e: UExpr, guarded: bool): seq<Stmt> {
    if r >= VECTORS then [] else [SetV(r, e, guarded)]
  }

  function BallotStore(r: nat, c: BExpr): seq<Stmt> {
    [SetS(r, Ballot(c))] + if r + 1 < SCALARS then [SetS(r + 1, Lit(0))] else []
  }

  function StoreMask(r: nat, c: BExpr): seq<Stmt> {
    if r == VCC then [SetVcc(c)] + BallotStore(VCC, Vcc)
    else if r == EXEC then [SetExec(c)] + BallotStore(EXEC, Exec)
    else if r < SCALARS then BallotStore(r, c)
    else []
  }

  /** The carry of the enabled lanes, to the instruction's mask register. */
  function StoreCarryOut(control: Control, carry: BExpr, k: nat): seq<Stmt> {
    [LetB(k, BAnd(Exec, carry))] + StoreMask(CarryStore(control), BT(k))
  }

  function FieldShift(destination: nat): nat {
    if destination <= 3 then 8 * destination else if destination == 4 then 0 else 16
  }

  function FieldBits(destination: nat): nat {
    if destination <= 3 then 8 else 16
  }

  /** The bits at and above a position, as a word. */
  function UpperMask(from: nat): U32
    requires from <= 32
  {
    Pow2Known();
    Pow2Monotone(from, 32);
    TWO32 - Pow2(from)
  }

  function FieldMask(destination: nat): U32
    requires destination < 6
  {
    Pow2Known();
    Pow2Monotone(FieldShift(destination) + FieldBits(destination), 32);
    Pow2(FieldShift(destination) + FieldBits(destination)) - Pow2(FieldShift(destination))
  }

  function LowMask(destination: nat): U32 {
    if destination <= 3 then 0xFF else 0xFFFF
  }

  function SignMask(destination: nat): U32
    requires destination < 6
  {
    Pow2Known();
    Pow2Monotone(FieldShift(destination) + FieldBits(destination) - 1, 31);
    assert Pow2(32) == 2 * Pow2(31);
    Pow2(FieldShift(destination) + FieldBits(destination) - 1)
  }

  /** Stores the result held in temporary k, merged as the SDWA destination asks. */
  function StoreResult(control: Control, dst: nat, k: nat): seq<Stmt> {
    if !control.SdwaControl? || control.sdwa.scalarDestination.Some? || control.sdwa.destination >= 6 then
      StoreVector(dst, T(k), true)
    else
      var d := control.sdwa.destination;
      var positioned := [Let(k + 1, ShiftL(And(T(k), Lit(LowMask(d))), Lit(FieldShift(d))))];
      if control.sdwa.unused == 0 then positioned + StoreVector(dst, T(k + 1), true)
      else if control.sdwa.unused == 1 then
        positioned
        + [Let(k + 2, Or(T(k + 1), Cond(Cmp(Ne, And(T(k + 1), Lit(SignMask(d))), Lit(0)),
                                        Lit(UpperMask(FieldShift(d) + FieldBits(d))), Lit(0))))]
        + StoreVector(dst, T(k + 2), true)
      else
        positioned
        + [Let(k + 2, Or(And(V(dst), Lit(Not32(FieldMask(d)))), T(k + 1)))]
        + StoreVector(dst, T(k + 2), true)
  }

  // ---- vector instructions ----

  function EmitCarry(op: COp, dst: nat, src: seq<Operand>, control: Control, k: nat): seq<Stmt>
    requires |src| >= 2
  {
    var reverse := op == VSubrevCo || op == VSubbrev;
    var lets := [Let(k, Raw(if reverse then 1 else 0, src, control)),
                 Let(k + 1, Raw(if reverse then 0 else 1, src, control))];
    match op
    case VAddCo =>
      lets + [Let(k + 2, Add(T(k), T(k + 1)))]
      + StoreCarryOut(control, Cmp(Lt, T(k + 2), T(k)), k + 3)
      + [Let(k + 4, T(k + 2))] + StoreResult(control, dst, k + 4)
    case VSubCo | VSubrevCo =>
      lets + StoreCarryOut(control, Cmp(Lt, T(k), T(k + 1)), k + 2)
      + [Let(k + 3, Sub(T(k), T(k + 1)))] + StoreResult(control, dst, k + 3)
    case VAddc =>
      lets + [Let(k + 2, Add(T(k), T(k + 1)))]
      + [Let(k + 3, Add(T(k + 2), FlagExpr(MaskBitExpr(src))))]
      + StoreCarryOut(control, BOr(Cmp(Lt, T(k + 2), T(k)), Cmp(Lt, T(k + 3), T(k + 2))), k + 4)
      + [Let(k + 5, T(k + 3))] + StoreResult(control, dst, k + 5)
    case VSubb | VSubbrev =>
      lets + [Let(k + 2, FlagExpr(MaskBitExpr(src)))]
      + [Let(k + 3, Sub(T(k), T(k + 1)))]
      + StoreCarryOut(control, BOr(Cmp(Lt, T(k), T(k + 1)), Cmp(Lt, T(k + 3), T(k + 2))), k + 4)
      + [Let(k + 5, Sub(T(k + 3), T(k + 2)))] + StoreResult(control, dst, k + 5)
  }

  function EmitMadU64(dst: nat, src: seq<Operand>, control: Control, k: nat): seq<Stmt>
    requires |src| >= 3
  {
    [LetL(k, LMul(Wide(Raw(0, src, control)), Wide(Raw(1, src, control)))), LetL(k + 1, Raw64(src[2]))]
    + [LetL(k + 2, LAdd(LT(k), LT(k + 1)))]
    + StoreCarryOut(control, LCmp(Lt, LT(k + 2), LT(k + 1)), k + 3)
    + StoreVector(dst + 1, LowHalf(LShiftR(LT(k + 2), Wide(Lit(32)))), true)
    + [Let(k + 4, LowHalf(LT(k + 2)))] + StoreResult(control, dst, k + 4)
  }

  function CompareExpr(rel: Rel, signed: bool, x: UExpr, y: UExpr): BExpr {
    if signed then ICmp(rel, AsInt(x), AsInt(y)) else Cmp(rel, x, y)
  }

  function EmitCompare(condition: BExpr, toExec: bool, control: Control, k: nat): seq<Stmt> {
    [LetB(k, BAnd(Exec, condition))]
    + if toExec then [SetExec(BT(k))] + BallotStore(EXEC, Exec) else StoreMask(CompareStore(control), BT(k))
  }

  // ---- scalar instructions ----

  function LogicExpr(op: Logic, x: UExpr, y: UExpr): UExpr {
    match op
    case AndL => And(x, y)
    case OrL => Or(x, y)
    case XorL => Xor(x, y)
    case NandL => Not(And(x, y))
    case NorL => Not(Or(x, y))
    case XnorL => Not(Xor(x, y))
    case Andn1L => And(Not(x), y)
    case Andn2L => And(x, Not(y))
    case Orn1L => Or(Not(x), y)
    case Orn2L => Or(x, Not(y))
  }

  function Logic64Expr(op: Logic, x: LExpr, y: LExpr): LExpr {
    match op
    case AndL => LAnd(x, y)
    case OrL => LOr(x, y)
    case XorL => LXor(x, y)
    case NandL => LNot(LAnd(x, y))
    case NorL => LNot(LOr(x, y))
    case XnorL => LNot(LXor(x, y))
    case Andn1L => LAnd(LNot(x), y)
    case Andn2L => LAnd(x, LNot(y))
    case Orn1L => LOr(LNot(x), y)
    case Orn2L => LOr(x, LNot(y))
  }

  function NonZero(x: UExpr): BExpr {
    Cmp(Ne, x, Lit(0))
  }

  function SignSet(x: UExpr): BExpr {
    Cmp(Ne, ShiftR(x, Lit(31)), Lit(0))
  }

  /** The value of a two-operand scalar opcode that needs no further temporaries. */
  function ScalarExprOf(op: SOp, x: UExpr, y: UExpr): UExpr {
    match op
    case SAdd | SAddI => Add(x, y)
    case SSub | SSubI => Sub(x, y)
    case SMul => Mul(x, y)
    case SMulHi => MulHi(x, y)
    case SLogic(l) => LogicExpr(l, x, y)
    case SLshl => ShiftL(x, Five(y))
    case SLshr => ShiftR(x, Five(y))
    case SAshr => FromInt(IShiftR(AsInt(x), Five(y)))
    case SBfm => ShiftL(Below(Five(x)), Five(y))
    case SCselect => Cond(Scc, x, y)
    case SMinU => Min(x, y)
    case SMaxU => Max(x, y)
    case SMinI => FromInt(IMin(AsInt(x), AsInt(y)))
    case SMaxI => FromInt(IMax(AsInt(x), AsInt(y)))
    case SLshlAdd(n) => Add(ShiftL(x, Lit(n % 32)), y)
    case SPackLl => Or(And(x, Lit(0xFFFF)), ShiftL(y, Lit(16)))
    case SPackLh => Or(And(x, Lit(0xFFFF)), And(y, Lit(0xFFFF_0000)))
    case SPackHh => Or(ShiftR(x, Lit(16)), And(y, Lit(0xFFFF_0000)))
    case SAddc | SSubb | SBfeU | SBfeI => Lit(0)
  }

  /** The condition-bit update that follows the store, if the opcode has one. */
  function SccExprOf(op: SOp, x: UExpr, y: UExpr, result: UExpr): Option<BExpr> {
    match op
    case SAdd => Some(Cmp(Lt, result, x))
    case SSub => Some(Cmp(Gt, y, x))
    case SAddI => Some(SignSet(And(Not(Xor(x, y)), Xor(x, result))))
    case SSubI => Some(SignSet(And(Xor(x, y), Xor(x, result))))
    case SMinU => Some(Cmp(Lt, x, y))
    case SMaxU => Some(Cmp(Gt, x, y))
    case SMinI => Some(ICmp(Lt, AsInt(x), AsInt(y)))
    case SMaxI => Some(ICmp(Gt, AsInt(x), AsInt(y)))
    case SLogic(_) | SLshl | SLshr | SAshr => Some(NonZero(result))
    case _ => None
  }

  function SetSccIf(c: Option<BExpr>): seq<Stmt> {
    match c
    case Some(b) => [SetScc(b)]
    case None => []
  }

  function EmitScalar(op: SOp, dst: nat, src: seq<Operand>, k: nat): seq<Stmt>
    requires |src| >= 2
  {
    var x, y := T(k), T(k + 1);
    var lets := [Let(k, Raw(0, src, Plain)), Let(k + 1, Raw(1, src, Plain))];
    match op
    case SAddc =>
      lets + [Let(k + 2, Add(x, y))] + [Let(k + 3, Add(T(k + 2), FlagExpr(Scc)))]
      + [SetScc(BOr(Cmp(Lt, T(k + 2), x), Cmp(Lt, T(k + 3), T(k + 2))))] + StoreScalar(dst, T(k + 3), k + 4)
    case SSubb =>
      lets + [Let(k + 2, FlagExpr(Scc))] + [Let(k + 3, Sub(x, y))] + [Let(k + 4, Sub(T(k + 3), T(k + 2)))]
      + [SetScc(BOr(Cmp(Gt, y, x), BAnd(Cmp(Eq, T(k + 2), Lit(1)), Cmp(Eq, y, x))))] + StoreScalar(dst, T(k + 4), k + 5)
    case SBfeU =>
      lets + [Let(k + 2, Five(y))] + [Let(k + 3, Min(And(ShiftR(y, Lit(16)), Lit(0x7F)), Sub(Lit(32), T(k + 2))))]
      + [Let(k + 4, Cond(Cmp(Eq, T(k + 3), Lit(0)), Lit(0), ExtractBits(x, T(k + 2), T(k + 3))))]
      + StoreScalar(dst, T(k + 4), k + 5) + [SetScc(NonZero(T(k + 4)))]
    case SBfeI =>
      lets + [Let(k + 2, Five(y))] + [Let(k + 3, Min(And(ShiftR(y, Lit(16)), Lit(0x7F)), Sub(Lit(32), T(k + 2))))]
      + [Let(k + 4, Cond(Cmp(Eq, T(k + 3), Lit(0)), Lit(0), FromInt(IExtractBits(AsInt(x), T(k + 2), T(k + 3)))))]
      + StoreScalar(dst, T(k + 4), k + 5) + [SetScc(NonZero(T(k + 4)))]
    case _ =>
      lets + [Let(k + 2, ScalarExprOf(op, x, y))] + StoreScalar(dst, T(k + 2), k + 3)
      + SetSccIf(SccExprOf(op, x, y, T(k + 2)))
  }

  function UnaryExprOf(op: UOp, x: UExpr): UExpr {
    match op
    case SNot => Not(x)
    case SBrev => ReverseBits(x)
    case SBcnt1 => PopCount(x)
    case SFf1 => Cond(Cmp(Eq, x, Lit(0)), Lit(0xFFFF_FFFF), CtzOf(x))
    case SMov | SBitset1 => x
  }

  function EmitUnary(op: UOp, dst: nat, src: seq<Operand>, k: nat): seq<Stmt>
    requires |src| >= 1
  {
    var x := T(k);
    var first := [Let(k, Raw(0, src, Plain))];
    match op
    case SMov => first + StoreScalar(dst, x, k + 1)
    case SBitset1 => first + StoreScalar(dst, Or(ScalarExpr(dst), ShiftL(Lit(1), Five(x))), k + 1)
    case _ =>
      first + [Let(k + 1, UnaryExprOf(op, x))] + StoreScalar(dst, T(k + 1), k + 2) + [SetScc(NonZero(T(k + 1)))]
  }

  function EmitK(op: KOp, dst: nat, simm: nat, k: nat): seq<Stmt> {
    var immediate := Lit(SignExtend16(simm));
    var value :=
      match op
      case SMovk => immediate
      case SAddk => Add(ScalarExpr(dst), immediate)
      case SMulk => Mul(ScalarExpr(dst), immediate);
    [Let(k, value)] + StoreScalar(dst, T(k), k + 1)
  }

  function EmitSaveexec(logic: Logic, dst: nat, src: seq<Operand>, k: nat): seq<Stmt>
    requires |src| >= 1
  {
    [Let(k, Raw(0, src, Plain)), Let(k + 1, S(EXEC))]
    + [Let(k + 2, LogicExpr(logic, T(k), T(k + 1)))]
    + StoreScalar(dst, T(k + 1), k + 3)
    + [SetS(EXEC, T(k + 2)), SetS(EXEC + 1, Lit(0))]
    + [SetExec(LaneBitExpr(T(k + 2))), SetScc(NonZero(T(k + 2)))]
  }

  function EmitSaveexec64(logic: Logic, dst: nat, src: seq<Operand>, k: nat): seq<Stmt>
    requires |src| >= 1
  {
    [LetL(k, Raw64(src[0])), LetL(k + 1, Scalar64Expr(EXEC))]
    + [LetL(k + 2, Logic64Expr(logic, LT(k), LT(k + 1)))]
    + StoreScalar64(dst, LT(k + 1), k + 3)
    + [SetS(EXEC, LowHalf(LT(k + 2))), SetS(EXEC + 1, LowHalf(LShiftR(LT(k + 2), Wide(Lit(32)))))]
    + [SetExec(LaneBitExpr(LowHalf(LT(k + 2)))), SetScc(LCmp(Ne, LT(k + 2), LLit(0)))]
  }

  function BelowWide(n: LExpr): LExpr {
    LSub(LShiftL(LLit(1), n), LLit(1))
  }

  /** The statements that prepare a 64-bit value, the value, and how many temporaries they use. */
  function Prepare64(op: LOp, src: seq<Operand>, k: nat): (seq<Stmt>, LExpr, nat)
    requires |src| >= 2 || (|src| >= 1 && op in {SMov64, SNot64, SWqm64})
  {
    var x := LT(k);
    match op
    case SMov64 => ([], x, 0)
    case SNot64 => ([], LNot(x), 0)
    case SWqm64 =>
      ([LetL(k + 1, LAnd(LOr(LOr(LOr(x, LShiftR(x, Wide(Lit(1)))), LShiftR(x, Wide(Lit(2)))), LShiftR(x, Wide(Lit(3)))),
                         LLit(0x1111_1111_1111_1111)))],
       LMul(LT(k + 1), LLit(0xF)), 1)
    case SLshl64 => ([Let(k + 1, And(Raw(1, src, Plain), Lit(63)))], LShiftL(x, Wide(T(k + 1))), 1)
    case SLshr64 => ([Let(k + 1, And(Raw(1, src, Plain), Lit(63)))], LShiftR(x, Wide(T(k + 1))), 1)
    case SBfm64 =>
      ([LetL(k + 1, Wide(And(Raw(0, src, Plain), Lit(63)))), LetL(k + 2, Wide(And(Raw(1, src, Plain), Lit(63))))],
       LShiftL(BelowWide(LT(k + 1)), LT(k + 2)), 2)
    case SBfeU64 => (PrepareBfe64(src, k), LT(k + 5), 5)
    case SBfeI64 =>
      (PrepareBfe64(src, k)
       + [LetL(k + 6, LCond(Cmp(Eq, T(k + 3), Lit(0)), LLit(0), LShiftL(LLit(1), Wide(Sub(T(k + 3), Lit(1))))))]
       + [LetL(k + 7, LCond(Cmp(Eq, T(k + 3), Lit(0)), LLit(0), LSub(LXor(LT(k + 5), LT(k + 6)), LT(k + 6))))],
       LT(k + 7), 7)
    case SLogic64(l) => ([LetL(k + 1, Raw64(src[1]))], Logic64Expr(l, x, LT(k + 1)), 1)
    case SCselect64 => ([LetL(k + 1, Raw64(src[1]))], LCond(Scc, x, LT(k + 1)), 1)
  }

  function PrepareBfe64(src: seq<Operand>, k: nat): seq<Stmt>
    requires |src| >= 2
  {
    [Let(k + 1, Raw(1, src, Plain))]
    + [Let(k + 2, And(T(k + 1), Lit(63)))]
    + [Let(k + 3, Min(And(ShiftR(T(k + 1), Lit(16)), Lit(0x7F)), Sub(Lit(64), T(k + 2))))]
    + [LetL(k + 4, LCond(Cmp(Ge, T(k + 3), Lit(64)), LLit(0xFFFF_FFFF_FFFF_FFFF), BelowWide(Wide(T(k + 3)))))]
    + [LetL(k + 5, LAnd(LShiftR(LT(k), Wide(T(k + 2))), LT(k + 4)))]
  }

  predicate Sets64(op: LOp) {
    op != SMov64 && op != SCselect64
  }

  function EmitScalar64(op: LOp, dst: nat, src: seq<Operand>, k: nat): seq<Stmt>
    requires |src| >= 2 || (|src| >= 1 && op in {SMov64, SNot64, SWqm64})
  {
    var (prepare, value, used) := Prepare64(op, src, k);
    var stored := k + 1 + used;
    [LetL(k, Raw64(src[0]))] + prepare + [LetL(stored, value)] + StoreScalar64(dst, LT(stored), stored + 1)
    + if Sets64(op) then [SetScc(LCmp(Ne, LT(stored), LLit(0)))] else []
  }

  // ---- all instructions ----

  function Emit(i: Instruction, k: nat): seq<Stmt>
    requires Accepted(i)
  {
    match i
    case VectorOp(op, dst, src, control) =>
      [Let(k, VectorExpr(op, RawOrZero(0, src, control), RawOrZero(1, src, control), RawOrZero(2, src, control)))]
      + StoreResult(control, dst, k)
    case CarryOp(op, dst, src, control) => EmitCarry(op, dst, src, control, k)
    case VMadU64(dst, src, control) => EmitMadU64(dst, src, control, k)
    case VCompare(rel, signed, toExec, src, control) =>
      EmitCompare(CompareExpr(rel, signed, Raw(0, src, control), Raw(1, src, control)), toExec, control, k)
    case VCompareConst(value, toExec, control) => EmitCompare(if value then True else False, toExec, control, k)
    case VCndmask(dst, src, control) =>
      StoreVector(dst, Cond(MaskBitExpr(src), Raw(1, src, control), Raw(0, src, control)), true)
    case VReadfirstlane(dst, src) =>
      [Let(k, Ballot(Exec)), Let(k + 1, Cond(Cmp(Eq, T(k), Lit(0)), Lit(0), CtzOf(T(k))))]
      + [Let(k + 2, Shuffle(Raw(0, src, Plain), T(k + 1)))] + StoreScalar(dst, T(k + 2), k + 3)
    case VReadlane(dst, src) =>
      [Let(k, Five(Raw(1, src, Plain)))]
      + [Let(k + 1, Shuffle(Raw(0, src, Plain), T(k)))] + StoreScalar(dst, T(k + 1), k + 2)
    case VWritelane(dst, src) =>
      StoreVector(dst, Cond(Cmp(Eq, LaneId, Five(Raw(1, src, Plain))), Raw(0, src, Plain), V(dst)), false)
    case ScalarOp(op, dst, src) => EmitScalar(op, dst, src, k)
    case ScalarUnary(op, dst, src) => EmitUnary(op, dst, src, k)
    case ScalarK(op, dst, simm) => EmitK(op, dst, simm, k)
    case ScalarCompare(rel, signed, src) =>
      [Let(k, Raw(0, src, Plain)), Let(k + 1, Raw(1, src, Plain))] + [SetScc(CompareExpr(rel, signed, T(k), T(k + 1)))]
    case ScalarCompareK(rel, signed, dst, simm) =>
      [SetScc(CompareExpr(rel, signed, ScalarExpr(dst), Lit(SignExtend16(simm))))]
    case ScalarBitcmp(set1, src) =>
      var isSet := Cmp(Ne, And(ShiftR(T(k), Five(T(k + 1))), Lit(1)), Lit(0));
      [Let(k, Raw(0, src, Plain)), Let(k + 1, Raw(1, src, Plain))] + [SetScc(if set1 then isSet else BNot(isSet))]
    case Saveexec(logic, dst, src) => EmitSaveexec(logic, dst, src, k)
    case Scalar64(op, dst, src) => EmitScalar64(op, dst, src, k)
    case Saveexec64(logic, dst, src) => EmitSaveexec64(logic, dst, src, k)
  }

  lemma RawRendered(j: nat, src: seq<Operand>, control: Control)
    requires j < |src|
    ensures Raw(j, RenderedAll(src), control) == Raw(j, src, control)
    ensures Raw64(RenderedAll(src)[j]) == Raw64(src[j])
  {
    hide SdwaExpr;
  }

  lemma RawsRendered(src: seq<Operand>, control: Control)
    ensures forall j :: 0 <= j < |src| ==> Raw(j, RenderedAll(src), control) == Raw(j, src, control)
    ensures forall j: nat :: RawOrZero(j, RenderedAll(src), control) == RawOrZero(j, src, control)
    ensures forall j :: 0 <= j < |src| ==> Raw64(RenderedAll(src)[j]) == Raw64(src[j])
    ensures MaskBitExpr(RenderedAll(src)) == MaskBitExpr(src)
  {
    hide Raw, Raw64, LaneBitExpr;
    forall j | 0 <= j < |src|
      ensures Raw(j, RenderedAll(src), control) == Raw(j, src, control) && Raw64(RenderedAll(src)[j]) == Raw64(src[j])
    {
      RawRendered(j, src, control);
    }
  }

  lemma Prepare64Rendered(op: LOp, src: seq<Operand>, k: nat)
    requires |src| >= 2 || (|src| >= 1 && op in {SMov64, SNot64, SWqm64})
    ensures Prepare64(op, RenderedAll(src), k) == Prepare64(op, src, k)
  {
    hide Raw, Raw64, Rendered, RenderedAll, BelowWide, Logic64Expr;
    RawsRendered(src, Plain);
  }

  lemma EmitCarryRendered(op: COp, dst: nat, src: seq<Operand>, control: Control, k: nat)
    requires |src| >= 2
    ensures EmitCarry(op, dst, RenderedAll(src), control, k) == EmitCarry(op, dst, src, control, k)
  {
    hide Raw, Raw64, RawOrZero, MaskBitExpr, Rendered, StoreResult, StoreCarryOut, RenderedAll;
    RawsRendered(src, control);
  }

  lemma EmitScalarOpRendered(op: SOp, dst: nat, src: seq<Operand>, k: nat)
    requires |src| >= 2
    ensures EmitScalar(op, dst, RenderedAll(src), k) == EmitScalar(op, dst, src, k)
  {
    hide Raw, Raw64, RawOrZero, Rendered, StoreScalar, ScalarExprOf, SccExprOf, RenderedAll, Five;
    RawsRendered(src, Plain);
  }

  lemma EmitVectorRendered(i: Instruction, k: nat)
    requires Accepted(i) && Accepted(RenderedIn(i))
    requires i.VectorOp? || i.CarryOp? || i.VMadU64? || i.VCompare? || i.VCndmask? || i.VReadfirstlane? || i.VReadlane?
      || i.VWritelane?
    ensures Emit(RenderedIn(i), k) == Emit(i, k)
  {
    hide Raw, Raw64, RawOrZero, MaskBitExpr, Rendered, StoreScalar, StoreVector, StoreResult, StoreCarryOut, StoreMask;
    hide VectorExpr, CompareExpr, EmitCompare, RenderedAll, EmitCarry;
    match i
    case VectorOp(_, _, src, control) => RawsRendered(src, control);
    case CarryOp(op, dst, src, control) => EmitCarryRendered(op, dst, src, control, k);
    case VMadU64(_, src, control) => RawsRendered(src, control);
    case VCompare(_, _, _, src, control) => RawsRendered(src, control);
    case VCndmask(_, src, control) => RawsRendered(src, control);
    case VReadfirstlane(_, src) => RawsRendered(src, Plain);
    case VReadlane(_, src) => RawsRendered(src, Plain);
    case VWritelane(_, src) => RawsRendered(src, Plain);
  }

  lemma EmitScalarRendered(i: Instruction, k: nat)
    requires Accepted(i) && Accepted(RenderedIn(i))
    requires i.ScalarOp? || i.ScalarUnary? || i.ScalarCompare? || i.ScalarBitcmp? || i.Saveexec? || i.Scalar64?
      || i.Saveexec64?
    ensures Emit(RenderedIn(i), k) == Emit(i, k)
  {
    hide Raw, Raw64, Rendered, StoreScalar, StoreScalar64, Prepare64, ScalarExprOf, SccExprOf, UnaryExprOf, EmitScalar;
    hide LogicExpr, Logic64Expr, CompareExpr, LaneBitExpr, Five, RenderedAll;
    RawsRendered(i.src, Plain);
    match i
    case Scalar64(op, _, src) => Prepare64Rendered(op, src, k);
    case ScalarOp(op, dst, src) => EmitScalarOpRendered(op, dst, src, k);
    case _ =>
  }

  /** The emitted text is that of the instruction with its operands as they are read. */
  lemma EmitRendered(i: Instruction, k: nat)
    requires Accepted(i)
    ensures AsWritten(RenderedIn(i)) && Emit(RenderedIn(i), k) == Emit(i, k)
  {
    hide Emit, RenderedAll, Accepted, AsWritten;
    RenderedAsWritten(i);
    assert Accepted(RenderedIn(i)) by { WrittenAccepted(RenderedIn(i)); }
    match i
    case VCompareConst(_, _, _) | ScalarK(_, _, _) | ScalarCompareK(_, _, _, _) =>
    case ScalarOp(_, _, _) | ScalarUnary(_, _, _) | ScalarCompare(_, _, _) | ScalarBitcmp(_, _) | Saveexec(_, _, _)
       | Scalar64(_, _, _) | Saveexec64(_, _, _) => EmitScalarRendered(i, k);
    case _ => EmitVectorRendered(i, k);
  }

  lemma WrittenAccepted(i: Instruction)
    requires AsWritten(i)
    ensures Accepted(i)
  {
  }

  /** Temporaries are numbered through the whole program; no instruction needs more than ten. */
  function TempCount(code: seq<Stmt>): nat {
    if code == [] then 0
    else (if code[0].Let? || code[0].LetL? || code[0].LetB? then 1 else 0) + TempCount(code[1..])
  }

  function EmitAll(program: seq<Instruction>, k: nat): seq<Stmt>
    requires forall i :: 0 <= i < |program| ==> Accepted(program[i])
    decreases |program|
  {
    if program == [] then []
    else
      var code := Emit(program[0], k);
      code + EmitAll(program[1..], k + TempCount(code))
  }
}
