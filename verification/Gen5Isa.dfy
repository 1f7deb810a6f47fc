/** The integer, bit and mask subset of the instruction set, with its meaning on a 32-lane wave:
    one scalar file and condition bit shared by the lanes, a vector file per lane. VCC and EXEC are
    the scalar registers 106:107 and 126:127. Results are stated in unbounded arithmetic or bit by
    bit, independently of the expressions the translator emits. */
module Gen5Isa {
  import opened Bits
  import opened MetalTarget
  import opened Words

  const SCALARS: nat := 128
  const VECTORS: nat := 256
  const LANES: nat := 32
  const VCC: nat := 106
  const NULL: nat := 125
  const EXEC: nat := 126

  datatype Wave = Wave(s: seq<U32>, v: seq<seq<U32>>, scc: bool)

  ghost predicate WellFormed(w: Wave) {
    |w.s| == SCALARS && |w.v| == LANES && forall i :: 0 <= i < LANES ==> |w.v[i]| == VECTORS
  }

  // ---- instructions ----

  datatype Option<T> = None | Some(value: T)

  /** PairZero and ZeroExtended have no encoding: a flag that two registers are both zero, and a word that
      fills a wider operand with zeros. They say what a translator may read in place of another operand. */
  datatype Operand =
    Scalar(r: nat) | Vector(r: nat) | Literal(n: U32) | Encoded(code: nat) | PairZero(r: nat) | ZeroExtended(n: U32)

  datatype Sdwa = Sdwa(
    destination: nat, unused: nat, select0: nat, select1: nat, extend0: bool, extend1: bool,
    absolute0: bool, absolute1: bool, negate0: bool, negate1: bool, scalarDestination: Option<nat>)

  datatype Control = Plain | Vop3(scalarDestination: Option<nat>) | SdwaControl(sdwa: Sdwa)

  datatype Logic = AndL | OrL | XorL | NandL | NorL | XnorL | Andn1L | Andn2L | Orn1L | Orn2L

  datatype ArithOp =
    | VMov | VAdd | VSub | VSubrev | VMulLo | VMulHiU | VMulHiU24 | VMulHiI | VMulU24 | VMadU24 | VMadU16
    | VAdd3 | VAddLshl | VLshlAdd

  datatype OrderOp =
    | VMinU | VMaxU | VMinI | VMaxI | VMin3U | VMax3U | VMin3I | VMax3I | VMed3U | VMed3I

  datatype BitOp = VAnd | VOr | VXor | VXnor | VNot | VAndOr | VOr3 | VBfi | VBfrev

  datatype ShiftOp = VLshl | VLshlrev | VLshr | VLshrrev | VAshr | VAshrrev | VLshlOr | VBfe | VBfm

  datatype CountOp = VBcnt | VFfbl | VMbcntLo | VMbcntHi

  datatype VOp = Arith(a: ArithOp) | Order(o: OrderOp) | Bitwise(b: BitOp) | Shift(h: ShiftOp) | Counting(n: CountOp)

  datatype COp = VAddCo | VSubCo | VSubrevCo | VAddc | VSubb | VSubbrev

  datatype SOp =
    | SAdd | SSub | SAddI | SSubI | SAddc | SSubb | SMul | SMulHi | SLogic(op: Logic)
    | SLshl | SLshr | SAshr | SBfm | SBfeU | SBfeI | SCselect | SMinU | SMaxU | SMinI | SMaxI
    | SLshlAdd(n: nat) | SPackLl | SPackLh | SPackHh

  datatype UOp = SMov | SNot | SBrev | SBcnt1 | SFf1 | SBitset1

  datatype KOp = SMovk | SAddk | SMulk

  datatype LOp =
    | SMov64 | SNot64 | SWqm64 | SLshl64 | SLshr64 | SBfm64 | SBfeU64 | SBfeI64 | SLogic64(op: Logic) | SCselect64

  datatype Instruction =
    | VectorOp(op: VOp, dst: nat, src: seq<Operand>, control: Control)
    | CarryOp(cop: COp, dst: nat, src: seq<Operand>, control: Control)
    | VMadU64(dst: nat, src: seq<Operand>, control: Control)
    | VCompare(rel: Rel, signed: bool, toExec: bool, src: seq<Operand>, control: Control)
    | VCompareConst(value: bool, toExec: bool, control: Control)
    | VCndmask(dst: nat, src: seq<Operand>, control: Control)
    | VReadfirstlane(dst: nat, src: seq<Operand>)
    | VReadlane(dst: nat, src: seq<Operand>)
    | VWritelane(dst: nat, src: seq<Operand>)
    | ScalarOp(sop: SOp, dst: nat, src: seq<Operand>)
    | ScalarUnary(uop: UOp, dst: nat, src: seq<Operand>)
    | ScalarK(kop: KOp, dst: nat, simm: nat)
    | ScalarCompare(rel: Rel, signed: bool, src: seq<Operand>)
    | ScalarCompareK(rel: Rel, signed: bool, dst: nat, simm: nat)
    | ScalarBitcmp(set1: bool, src: seq<Operand>)
    | Saveexec(logic: Logic, dst: nat, src: seq<Operand>)
    | Scalar64(lop: LOp, dst: nat, src: seq<Operand>)
    | Saveexec64(logic: Logic, dst: nat, src: seq<Operand>)

  // ---- operands ----

  /** Inline constants by their encoding. */
  function InlineConstant(code: nat): Option<U32> {
    if code == 125 then Some(0)
    else if 128 <= code <= 192 then Some(code - 128)
    else if 193 <= code <= 208 then Some(Wrap32(-(code - 192)))
    else if code == 240 then Some(0x3F00_0000)
    else if code == 241 then Some(0xBF00_0000)
    else if code == 242 then Some(0x3F80_0000)
    else if code == 243 then Some(0xBF80_0000)
    else if code == 244 then Some(0x4000_0000)
    else if code == 245 then Some(0xC000_0000)
    else if code == 246 then Some(0x4080_0000)
    else if code == 247 then Some(0xC080_0000)
    else if code == 248 then Some(0x3E22_F983)
    else None
  }

  /** The floating-point inline constants as a 64-bit operand reads them: double precision. */
  function InlineDouble(code: nat): Option<U64> {
    if code == 240 then Some(0x3FE0_0000_0000_0000)
    else if code == 241 then Some(0xBFE0_0000_0000_0000)
    else if code == 242 then Some(0x3FF0_0000_0000_0000)
    else if code == 243 then Some(0xBFF0_0000_0000_0000)
    else if code == 244 then Some(0x4000_0000_0000_0000)
    else if code == 245 then Some(0xC000_0000_0000_0000)
    else if code == 246 then Some(0x4010_0000_0000_0000)
    else if code == 247 then Some(0xC010_0000_0000_0000)
    else if code == 248 then Some(0x3FC4_5F30_6DC9_C882)
    else None
  }

  function ReadScalar(s: seq<U32>, r: nat): U32
    requires |s| == SCALARS
  {
    if r < SCALARS then s[r] else 0
  }

  function Flag(b: bool): U32 {
    if b then 1 else 0
  }

  /** The status bits VCCZ and EXECZ look at the lanes the wave has, that is at the low word alone. */
  function ReadOperand(o: Operand, w: Wave, lane: nat): U32
    requires WellFormed(w) && lane < LANES
  {
    match o
    case Scalar(r) => ReadScalar(w.s, r)
    case Vector(r) => if r < VECTORS then w.v[lane][r] else 0
    case Literal(n) => n
    case Encoded(code) =>
      if code == 251 then Flag(w.s[VCC] == 0)
      else if code == 252 then Flag(w.s[EXEC] == 0)
      else if code == 253 then Flag(w.scc)
      else (match InlineConstant(code) case Some(n) => n case None => 0)
    case PairZero(r) => Flag(r + 1 < SCALARS && w.s[r] == 0 && w.s[r + 1] == 0)
    case ZeroExtended(n) => n
  }

  /** A byte, a halfword or the whole word, as an integer with the sign the modifiers ask for. */
  function SdwaValue(x: U32, select: nat, extend: bool, absolute: bool, negate: bool): U32 {
    var field: int :=
      if select == 6 then (if absolute then AsSigned(x) else x)
      else SdwaField(x, select, extend);
    var magnitude := if absolute then Abs(field) else field;
    Wrap32(if negate then -magnitude else magnitude)
  }

  function SdwaField(x: U32, select: nat, extend: bool): int {
    var width := if select <= 3 then 8 else 16;
    var offset := if select <= 3 then 8 * select else if select == 4 then 0 else 16;
    var field := Lows(Shr(x, offset), width);
    if extend then Signed(field, width) else field
  }

  function Source(i: nat, src: seq<Operand>, control: Control, w: Wave, lane: nat): U32
    requires WellFormed(w) && lane < LANES && i < |src|
  {
    var x := ReadOperand(src[i], w, lane);
    if control.SdwaControl? && i == 0 then
      SdwaValue(x, control.sdwa.select0, control.sdwa.extend0, control.sdwa.absolute0, control.sdwa.negate0)
    else if control.SdwaControl? && i == 1 then
      SdwaValue(x, control.sdwa.select1, control.sdwa.extend1, control.sdwa.absolute1, control.sdwa.negate1)
    else x
  }

  function SourceOrZero(i: nat, src: seq<Operand>, control: Control, w: Wave, lane: nat): U32
    requires WellFormed(w) && lane < LANES
  {
    if i < |src| then Source(i, src, control, w, lane) else 0
  }

  function Pair(low: U32, high: U32): U64 {
    low + TWO32 * high
  }

  /** A register pair, a sign-extended negative inline constant, an inline double, or a zero-extended word. */
  function Source64(o: Operand, w: Wave, lane: nat): U64
    requires WellFormed(w) && lane < LANES
  {
    match o
    case Scalar(r) => if r + 1 < SCALARS then Pair(w.s[r], w.s[r + 1]) else 0
    case Vector(r) => if r + 1 < VECTORS then Pair(w.v[lane][r], w.v[lane][r + 1]) else 0
    case Encoded(code) =>
      if 193 <= code <= 208 then TWO64 - (code - 192)
      else (match InlineDouble(code) case Some(n) => n case None => ReadOperand(o, w, lane))
    case Literal(n) => n
    case PairZero(_) | ZeroExtended(_) => ReadOperand(o, w, lane)
  }

  // ---- vector results ----

  function Word(f: nat -> bool): (r: U32)
    ensures forall i: nat :: Bit(r, i) <==> i < 32 && f(i)
  {
    BallotOf(f)
  }

  function Least(x: int, y: int): int {
    if y < x then y else x
  }

  function Most(x: int, y: int): int {
    if x < y then y else x
  }

  /** The middle of three values: all three less the extremes. */
  function Median(x: int, y: int, z: int): int {
    x + y + z - Least(Least(x, y), z) - Most(Most(x, y), z)
  }

  function Count(x: U32, n: nat): nat {
    CountBelow(x, n)
  }

  /** x moved up by k places, the bits that leave the word dropped. */
  function ShiftUp(x: U32, k: nat): U32 {
    Word((i: nat) => i >= k && Bit(x, i - k))
  }

  function ShiftDown(x: U32, k: nat): U32 {
    Word((i: nat) => Bit(x, i + k))
  }

  /** x moved down by k places, the sign bit filling in from above. */
  function ShiftDownSigned(x: U32, k: nat): U32 {
    Word((i: nat) => Bit(x, Least(i + k, 31)))
  }

  function OrOf(x: U32, y: U32): U32 {
    Word((i: nat) => Bit(x, i) || Bit(y, i))
  }

  /** The width bits of x from offset on. */
  function Field(x: U32, offset: nat, width: nat): U32 {
    Word((i: nat) => i < width && Bit(x, i + offset))
  }

  /** The same bits with the topmost one repeated upwards. */
  function FieldSigned(x: U32, offset: nat, width: nat): U32 {
    Word((i: nat) => width > 0 && Bit(x, Least(i, width - 1) + offset))
  }

  /** width ones from offset on. */
  function Ones(offset: nat, width: nat): U32 {
    Word((i: nat) => offset <= i < offset + width)
  }

  function ArithValue(op: ArithOp, a: U32, b: U32, c: U32): U32 {
    match op
    case VMov => a
    case VAdd => Wrap32(a + b)
    case VSub => Wrap32(a - b)
    case VSubrev => Wrap32(b - a)
    case VMulLo => Wrap32(Times(a, b))
    case VMulHiU => HighWord(a, b)
    case VMulHiU24 => HighWord(Lows(a, 24), Lows(b, 24))
    case VMulHiI => Wrap32(SignedTimes(AsSigned(a), AsSigned(b)) / TWO32)
    case VMulU24 => Wrap32(Times(Lows(a, 24), Lows(b, 24)))
    case VMadU24 => Wrap32(Times(Lows(a, 24), Lows(b, 24)) + c)
    case VMadU16 => Wrap32(Times(Lows(a, 16), Lows(b, 16)) + c)
    case VAdd3 => Wrap32(a + b + c)
    case VAddLshl => Low32(Shl(Wrap32(a + b), c % 32))
    case VLshlAdd => Wrap32(Shl(a, b % 32) + c)
  }

  function OrderValue(op: OrderOp, a: U32, b: U32, c: U32): U32 {
    match op
    case VMinU => Least(a, b)
    case VMaxU => Most(a, b)
    case VMinI => Wrap32(Least(AsSigned(a), AsSigned(b)))
    case VMaxI => Wrap32(Most(AsSigned(a), AsSigned(b)))
    case VMin3U => Least(Least(a, b), c)
    case VMax3U => Most(Most(a, b), c)
    case VMin3I => Wrap32(Least(Least(AsSigned(a), AsSigned(b)), AsSigned(c)))
    case VMax3I => Wrap32(Most(Most(AsSigned(a), AsSigned(b)), AsSigned(c)))
    case VMed3U => Median(a, b, c)
    case VMed3I => Wrap32(Median(AsSigned(a), AsSigned(b), AsSigned(c)))
  }

  function BitValue(op: BitOp, a: U32, b: U32, c: U32): U32 {
    match op
    case VAnd => Word((i: nat) => Bit(a, i) && Bit(b, i))
    case VOr => Word((i: nat) => Bit(a, i) || Bit(b, i))
    case VXor => Word((i: nat) => Bit(a, i) != Bit(b, i))
    case VXnor => Word((i: nat) => Bit(a, i) == Bit(b, i))
    case VNot => Word((i: nat) => !Bit(a, i))
    case VAndOr => Word((i: nat) => (Bit(a, i) && Bit(b, i)) || Bit(c, i))
    case VOr3 => Word((i: nat) => Bit(a, i) || Bit(b, i) || Bit(c, i))
    case VBfi => Word((i: nat) => if Bit(a, i) then Bit(b, i) else Bit(c, i))
    case VBfrev => Word((i: nat) => i < 32 && Bit(a, 31 - i))
  }

  function ShiftValue(op: ShiftOp, a: U32, b: U32, c: U32): U32 {
    match op
    case VLshl => ShiftUp(a, b % 32)
    case VLshlrev => ShiftUp(b, a % 32)
    case VLshr => ShiftDown(a, b % 32)
    case VLshrrev => ShiftDown(b, a % 32)
    case VAshr => ShiftDownSigned(a, b % 32)
    case VAshrrev => ShiftDownSigned(b, a % 32)
    case VLshlOr => OrOf(ShiftUp(a, b % 32), c)
    case VBfe => Field(a, b % 32, c % 32)
    case VBfm => Ones(b % 32, a % 32)
  }

  function CountValue(op: CountOp, a: U32, b: U32, lane: nat): U32 {
    match op
    case VBcnt => Wrap32(Count(a, 32) + b)
    case VFfbl => if a == 0 then 0xFFFF_FFFF else Ctz(a, 32)
    case VMbcntLo => Wrap32(Count(a, if lane < 32 then lane else 32) + b)
    case VMbcntHi => Wrap32((if lane < 32 then 0 else Count(a, lane - 32)) + b)
  }

  function VectorValue(op: VOp, a: U32, b: U32, c: U32, lane: nat): U32 {
    match op
    case Arith(f) => ArithValue(f, a, b, c)
    case Order(f) => OrderValue(f, a, b, c)
    case Bitwise(f) => BitValue(f, a, b, c)
    case Shift(f) => ShiftValue(f, a, b, c)
    case Counting(f) => CountValue(f, a, b, lane)
  }

  /** Sum or difference with its carry or borrow, in unbounded arithmetic. */
  function CarryValue(op: COp, a: U32, b: U32, carryIn: bool): (U32, bool) {
    var k := if carryIn then 1 else 0;
    match op
    case VAddCo => (Wrap32(a + b), a + b >= TWO32)
    case VSubCo => (Wrap32(a - b), a < b)
    case VSubrevCo => (Wrap32(b - a), b < a)
    case VAddc => (Wrap32(a + b + k), a + b + k >= TWO32)
    case VSubb => (Wrap32(a - b - k), a < b + k)
    case VSubbrev => (Wrap32(b - a - k), b < a + k)
  }

  /** Where an SDWA result goes, bit by bit. */
  function SdwaMerge(destination: nat, unused: nat, value: U32, previous: U32): U32 {
    if destination >= 6 then value
    else
      var width := if destination <= 3 then 8 else 16;
      var shift := if destination <= 3 then 8 * destination else if destination == 4 then 0 else 16;
      Word((i: nat) =>
        if i < shift then unused == 2 && Bit(previous, i)
        else if i < shift + width then Bit(value, i - shift)
        else if unused == 1 then Bit(value, width - 1)
        else unused == 2 && Bit(previous, i))
  }

  function Merge(control: Control, value: U32, previous: U32): U32 {
    if control.SdwaControl? && control.sdwa.scalarDestination.None? then
      SdwaMerge(control.sdwa.destination, control.sdwa.unused, value, previous)
    else value
  }

  // ---- scalar results: the value, and the condition bit when it is written ----

  predicate Truth(op: Logic, p: bool, q: bool) {
    match op
    case AndL => p && q
    case OrL => p || q
    case XorL => p != q
    case NandL => !(p && q)
    case NorL => !(p || q)
    case XnorL => p == q
    case Andn1L => !p && q
    case Andn2L => p && !q
    case Orn1L => !p || q
    case Orn2L => p || !q
  }

  function Logic32(op: Logic, x: U32, y: U32): U32 {
    Word((i: nat) => Truth(op, Bit(x, i), Bit(y, i)))
  }

  function Word64(f: nat -> bool): (r: U64)
    ensures forall i: nat :: Bit(r, i) <==> i < 64 && f(i)
  {
    Pow2Known();
    FromBitsBits(f, 64);
    FromBits(f, 64)
  }

  function Logic64(op: Logic, x: U64, y: U64): U64 {
    Word64((i: nat) => Truth(op, Bit(x, i), Bit(y, i)))
  }

  /** A field of at most the bits above its offset. */
  function FieldWidth(control: U32, offset: nat, bits: nat): nat
    requires offset < bits
  {
    Least(Lows(Shr(control, 16), 7), bits - offset)
  }

  function ScalarValue(op: SOp, x: U32, y: U32, scc: bool): U32 {
    match op
    case SAdd => Wrap32(x + y)
    case SSub => Wrap32(x - y)
    case SAddI => Wrap32(x + y)
    case SSubI => Wrap32(x - y)
    case SAddc => Wrap32(x + y + Flag(scc))
    case SSubb => Wrap32(x - y - Flag(scc))
    case SMul => Wrap32(Times(x, y))
    case SMulHi => HighWord(x, y)
    case SLogic(l) => Logic32(l, x, y)
    case SLshl => ShiftUp(x, y % 32)
    case SLshr => ShiftDown(x, y % 32)
    case SAshr => ShiftDownSigned(x, y % 32)
    case SBfm => Ones(y % 32, x % 32)
    case SBfeU => Field(x, y % 32, FieldWidth(y, y % 32, 32))
    case SBfeI => FieldSigned(x, y % 32, FieldWidth(y, y % 32, 32))
    case SCselect => if scc then x else y
    case SMinU => Least(x, y)
    case SMaxU => Most(x, y)
    case SMinI => Wrap32(Least(AsSigned(x), AsSigned(y)))
    case SMaxI => Wrap32(Most(AsSigned(x), AsSigned(y)))
    case SLshlAdd(n) => Wrap32(Shl(x, n) + y)
    case SPackLl => Word((i: nat) => if i < 16 then Bit(x, i) else Bit(y, i - 16))
    case SPackLh => Word((i: nat) => if i < 16 then Bit(x, i) else Bit(y, i))
    case SPackHh => Word((i: nat) => if i < 16 then Bit(x, i + 16) else Bit(y, i))
  }

  function ScalarScc(op: SOp, x: U32, y: U32, scc: bool): bool {
    match op
    case SAdd => x + y >= TWO32
    case SSub => x < y
    case SAddI => AsSigned(x) + AsSigned(y) != AsSigned(Wrap32(x + y))
    case SSubI => AsSigned(x) - AsSigned(y) != AsSigned(Wrap32(x - y))
    case SAddc => x + y + Flag(scc) >= TWO32
    case SSubb => x < y + Flag(scc)
    case SMinU => x < y
    case SMaxU => x > y
    case SMinI => AsSigned(x) < AsSigned(y)
    case SMaxI => AsSigned(x) > AsSigned(y)
    case SMul | SMulHi | SBfm | SCselect | SPackLl | SPackLh | SPackHh => scc
    case SLshlAdd(n) => Shl(x, n) + y >= TWO32
    case SLogic(_) | SLshl | SLshr | SAshr | SBfeU | SBfeI => ScalarValue(op, x, y, scc) != 0
  }

  function UnaryValue(op: UOp, x: U32, previous: U32): U32 {
    match op
    case SMov => x
    case SNot => Word((i: nat) => !Bit(x, i))
    case SBrev => Word((i: nat) => i < 32 && Bit(x, 31 - i))
    case SBcnt1 => PopcountWord(x)
    case SFf1 => if x == 0 then 0xFFFF_FFFF else Ctz(x, 32)
    case SBitset1 => Word((i: nat) => Bit(previous, i) || i == x % 32)
  }

  function UnaryScc(op: UOp, x: U32, scc: bool): bool {
    match op
    case SNot | SBcnt1 => UnaryValue(op, x, 0) != 0
    case SMov | SBrev | SFf1 | SBitset1 => scc
  }

  function SignExtend16(simm: nat): U32 {
    var low := Lows(simm, 16);
    Wrap32(if low < 0x8000 then low else low - 0x1_0000)
  }

  function KValue(op: KOp, previous: U32, immediate: U32): U32 {
    match op
    case SMovk => immediate
    case SAddk => Wrap32(previous + immediate)
    case SMulk => Wrap32(Times(previous, immediate))
  }

  function KScc(op: KOp, previous: U32, immediate: U32, scc: bool): bool {
    match op
    case SAddk => AsSigned(previous) + AsSigned(immediate) != AsSigned(Wrap32(previous + immediate))
    case SMovk | SMulk => scc
  }

  predicate CompareWords(rel: Rel, signed: bool, x: U32, y: U32) {
    if signed then Compare(rel, AsSigned(x), AsSigned(y)) else Compare(rel, x, y)
  }

  function NotOf64(x: U64): U64 {
    Word64((i: nat) => !Bit(x, i))
  }

  function ShiftUp64(x: U64, k: nat): U64 {
    Word64((i: nat) => i >= k && Bit(x, i - k))
  }

  function ShiftDown64(x: U64, k: nat): U64 {
    Word64((i: nat) => Bit(x, i + k))
  }

  function Field64(x: U64, offset: nat, width: nat): U64 {
    Word64((i: nat) => i < width && Bit(x, i + offset))
  }

  function FieldSigned64(x: U64, offset: nat, width: nat): U64 {
    Word64((i: nat) => width > 0 && Bit(x, Least(i, width - 1) + offset))
  }

  function Ones64(offset: nat, width: nat): U64 {
    Word64((i: nat) => offset <= i < offset + width)
  }

  /** Every group of four bits filled if any of its bits is set. */
  function WholeQuads(x: U64): U64 {
    Word64((i: nat) => QuadAny(x, i))
  }

  function Value64(op: LOp, x: U64, y: U64, x32: U32, y32: U32, scc: bool): U64 {
    match op
    case SMov64 => x
    case SNot64 => NotOf64(x)
    case SWqm64 => WholeQuads(x)
    case SLshl64 => ShiftUp64(x, y32 % 64)
    case SLshr64 => ShiftDown64(x, y32 % 64)
    case SBfm64 => Ones64(y32 % 64, x32 % 64)
    case SBfeU64 => Field64(x, y32 % 64, FieldWidth(y32, y32 % 64, 64))
    case SBfeI64 => FieldSigned64(x, y32 % 64, FieldWidth(y32, y32 % 64, 64))
    case SLogic64(l) => Logic64(l, x, y)
    case SCselect64 => if scc then x else y
  }

  /** Whether any of the four bits around position i is set. */
  predicate QuadAny(x: U64, i: nat) {
    var first := i / 4 * 4;
    Bit(x, first) || Bit(x, first + 1) || Bit(x, first + 2) || Bit(x, first + 3)
  }

  predicate Scc64(op: LOp, value: U64, scc: bool) {
    match op
    case SMov64 | SBfm64 | SCselect64 => scc
    case SNot64 | SWqm64 | SLshl64 | SLshr64 | SBfeU64 | SBfeI64 | SLogic64(_) => value != 0
  }

  // ---- writing results ----

  function WriteScalar(s: seq<U32>, r: nat, x: U32): (t: seq<U32>)
    ensures |t| == |s|
  {
    if r < |s| then s[r := x] else s
  }

  /** The null register takes a pair whole: what is written there never reaches the register above it. */
  function WritePair(s: seq<U32>, r: nat, x: U64): (t: seq<U32>)
    ensures |t| == |s|
  {
    if r == NULL then WriteScalar(s, r, x % TWO32)
    else WriteScalar(WriteScalar(s, r, x % TWO32), r + 1, x / TWO32)
  }

  predicate ExecAt(w: Wave, lane: nat)
    requires |w.s| == SCALARS
  {
    Bit(w.s[EXEC], lane)
  }

  function WriteVector(v: seq<U32>, r: nat, x: U32): (t: seq<U32>)
    ensures |t| == |v|
  {
    if r < |v| then v[r := x] else v
  }

  function LaneAfter(w: Wave, r: nat, f: nat -> U32, i: nat): (v: seq<U32>)
    requires WellFormed(w) && i < LANES
    ensures |v| == VECTORS
  {
    if ExecAt(w, i) then WriteVector(w.v[i], r, f(i)) else w.v[i]
  }

  /** Every enabled lane's register gets that lane's value. */
  function WriteLanes(w: Wave, r: nat, f: nat -> U32): (w': Wave)
    requires WellFormed(w)
    ensures WellFormed(w') && w'.s == w.s && w'.scc == w.scc
    ensures forall i :: 0 <= i < LANES ==> w'.v[i] == LaneAfter(w, r, f, i)
  {
    var v := seq(LANES, i requires 0 <= i < LANES => LaneAfter(w, r, f, i));
    assert forall i :: 0 <= i < LANES ==> v[i] == LaneAfter(w, r, f, i);
    w.(v := v)
  }

  function MaskTarget(control: Control): nat {
    match control
    case Vop3(Some(r)) => r
    case _ => VCC
  }

  function CompareTarget(control: Control): nat {
    match control
    case SdwaControl(sdwa) => (match sdwa.scalarDestination case Some(r) => r case None => VCC)
    case _ => VCC
  }

  // ---- instructions on the wave ----

  /** The lane bit a mask operand selects; VCC when none is given. */
  predicate MaskBit(src: seq<Operand>, w: Wave, lane: nat)
    requires WellFormed(w)
  {
    var r := if |src| > 2 && src[2].Scalar? then src[2].r else VCC;
    Bit(ReadScalar(w.s, r), lane)
  }

  /** The scalar value of an operand that is the same for every lane. */
  function Uniform(i: nat, src: seq<Operand>, w: Wave): U32
    requires WellFormed(w)
  {
    SourceOrZero(i, src, Plain, w, 0)
  }

  function Uniform64(i: nat, src: seq<Operand>, w: Wave): U64
    requires WellFormed(w)
  {
    if i < |src| then Source64(src[i], w, 0) else 0
  }

  /** The first operand of a 64-bit instruction; a literal is sign-extended for the signed one. */
  function FirstSource64(op: LOp, src: seq<Operand>, w: Wave): U64
    requires WellFormed(w)
  {
    if op.SBfeI64? && |src| > 0 && src[0].Literal? && src[0].n >= 0x8000_0000
    then Pair(src[0].n, 0xFFFF_FFFF)
    else Uniform64(0, src, w)
  }

  function VectorResult(op: VOp, dst: nat, src: seq<Operand>, control: Control, w: Wave, i: nat): U32
    requires WellFormed(w) && dst < VECTORS && i < LANES
  {
    Merge(control,
          VectorValue(op, SourceOrZero(0, src, control, w, i), SourceOrZero(1, src, control, w, i),
                      SourceOrZero(2, src, control, w, i), i),
          w.v[i][dst])
  }

  function CarryResult(op: COp, src: seq<Operand>, control: Control, w: Wave, i: nat): (U32, bool)
    requires WellFormed(w) && i < LANES
  {
    CarryValue(op, SourceOrZero(0, src, control, w, i), SourceOrZero(1, src, control, w, i), MaskBit(src, w, i))
  }

  /** src0 * src1 + src2 with 64-bit operands, unbounded. */
  function MadWide(src: seq<Operand>, control: Control, w: Wave, i: nat): nat
    requires WellFormed(w) && i < LANES && |src| > 2
  {
    Times(SourceOrZero(0, src, control, w, i), SourceOrZero(1, src, control, w, i)) + Source64(src[2], w, i)
  }

  predicate Passes(rel: Rel, signed: bool, src: seq<Operand>, control: Control, w: Wave, i: nat)
    requires WellFormed(w) && i < LANES
  {
    CompareWords(rel, signed, SourceOrZero(0, src, control, w, i), SourceOrZero(1, src, control, w, i))
  }

  function FirstLane(mask: U32): nat {
    if mask == 0 then 0 else Ctz(mask, 32)
  }

  /** An immediate compare extends its constant by the compare's own signedness. */
  function CompareImmediate(signed: bool, simm: nat): U32 {
    if signed then SignExtend16(simm) else
      Pow2Known();
      Pow2Monotone(16, 32);
      Lows(simm, 16)
  }

  function CarryMask(op: COp, src: seq<Operand>, control: Control, w: Wave): (mask: U32)
    requires WellFormed(w)
    ensures forall l: nat :: Bit(mask, l) <==> l < LANES && ExecAt(w, l) && CarryResult(op, src, control, w, l).1
  {
    BallotOf((l: nat) => l < LANES && ExecAt(w, l) && CarryResult(op, src, control, w, l).1)
  }

  function MadMask(src: seq<Operand>, control: Control, w: Wave): (mask: U32)
    requires WellFormed(w) && |src| > 2
    ensures forall l: nat :: Bit(mask, l) <==> l < LANES && ExecAt(w, l) && MadWide(src, control, w, l) >= TWO64
  {
    BallotOf((l: nat) => l < LANES && ExecAt(w, l) && MadWide(src, control, w, l) >= TWO64)
  }

  function CompareMask(rel: Rel, signed: bool, src: seq<Operand>, control: Control, w: Wave): (mask: U32)
    requires WellFormed(w)
    ensures forall l: nat :: Bit(mask, l) <==> l < LANES && ExecAt(w, l) && Passes(rel, signed, src, control, w, l)
  {
    BallotOf((l: nat) => l < LANES && ExecAt(w, l) && Passes(rel, signed, src, control, w, l))
  }

  // ---- each lane's result ----

  function VectorLanes(op: VOp, dst: nat, src: seq<Operand>, control: Control, w: Wave): nat -> U32
    requires WellFormed(w) && dst < VECTORS
  {
    (l: nat) => if l < LANES then VectorResult(op, dst, src, control, w, l) else 0
  }

  function CarryLanes(op: COp, dst: nat, src: seq<Operand>, control: Control, w: Wave): nat -> U32
    requires WellFormed(w) && dst < VECTORS
  {
    (l: nat) => if l < LANES then Merge(control, CarryResult(op, src, control, w, l).0, w.v[l][dst]) else 0
  }

  function MadLow(src: seq<Operand>, control: Control, w: Wave): nat -> U32
    requires WellFormed(w) && |src| > 2
  {
    (l: nat) => if l < LANES then Wrap32(MadWide(src, control, w, l)) else 0
  }

  function MadHigh(src: seq<Operand>, control: Control, w: Wave): nat -> U32
    requires WellFormed(w) && |src| > 2
  {
    (l: nat) => if l < LANES then Wrap64(MadWide(src, control, w, l)) / TWO32 else 0
  }

  function SelectValue(src: seq<Operand>, control: Control, w: Wave, l: nat): U32
    requires WellFormed(w) && l < LANES
  {
    SourceOrZero(if MaskBit(src, w, l) then 1 else 0, src, control, w, l)
  }

  function SelectLanes(dst: nat, src: seq<Operand>, control: Control, w: Wave): nat -> U32
    requires WellFormed(w) && dst < VECTORS
  {
    (l: nat) => if l < LANES then Merge(control, SelectValue(src, control, w, l), w.v[l][dst]) else 0
  }

  function ExecuteCarry(op: COp, dst: nat, src: seq<Operand>, control: Control, w: Wave): (w': Wave)
    requires WellFormed(w) && dst < VECTORS
    ensures WellFormed(w')
  {
    WriteLanes(w, dst, CarryLanes(op, dst, src, control, w))
      .(s := WriteScalar(w.s, MaskTarget(control), CarryMask(op, src, control, w)))
  }

  function ExecuteMad(dst: nat, src: seq<Operand>, control: Control, w: Wave): (w': Wave)
    requires WellFormed(w) && |src| > 2
    ensures WellFormed(w')
  {
    WriteLanes(WriteLanes(w, dst + 1, MadHigh(src, control, w)), dst, MadLow(src, control, w))
      .(s := WriteScalar(w.s, MaskTarget(control), MadMask(src, control, w)))
  }

  function ExecuteWritelane(dst: nat, src: seq<Operand>, w: Wave): (w': Wave)
    requires WellFormed(w)
    ensures WellFormed(w')
  {
    var lane := Uniform(1, src, w) % LANES;
    w.(v := w.v[lane := WriteVector(w.v[lane], dst, SourceOrZero(0, src, Plain, w, lane))])
  }

  function ExecuteSaveexec(logic: Logic, dst: nat, src: seq<Operand>, w: Wave): (w': Wave)
    requires WellFormed(w)
    ensures WellFormed(w')
  {
    var mask := Logic32(logic, Uniform(0, src, w), w.s[EXEC]);
    w.(s := WriteScalar(w.s, dst, w.s[EXEC])[EXEC := mask], scc := mask != 0)
  }

  function ExecuteSaveexec64(logic: Logic, dst: nat, src: seq<Operand>, w: Wave): (w': Wave)
    requires WellFormed(w)
    ensures WellFormed(w')
  {
    var saved := Pair(w.s[EXEC], w.s[EXEC + 1]);
    var mask := Logic64(logic, Uniform64(0, src, w), saved);
    w.(s := WritePair(w.s, dst, saved)[EXEC := mask % TWO32][EXEC + 1 := mask / TWO32], scc := mask != 0)
  }

  function ExecuteScalar(op: SOp, dst: nat, src: seq<Operand>, w: Wave): (w': Wave)
    requires WellFormed(w)
    ensures WellFormed(w')
  {
    var x, y := Uniform(0, src, w), Uniform(1, src, w);
    w.(s := WriteScalar(w.s, dst, ScalarValue(op, x, y, w.scc)), scc := ScalarScc(op, x, y, w.scc))
  }

  function ExecuteUnary(op: UOp, dst: nat, src: seq<Operand>, w: Wave): (w': Wave)
    requires WellFormed(w)
    ensures WellFormed(w')
  {
    var x := Uniform(0, src, w);
    w.(s := WriteScalar(w.s, dst, UnaryValue(op, x, ReadScalar(w.s, dst))), scc := UnaryScc(op, x, w.scc))
  }

  function ExecuteK(op: KOp, dst: nat, simm: nat, w: Wave): (w': Wave)
    requires WellFormed(w)
    ensures WellFormed(w')
  {
    var previous, immediate := ReadScalar(w.s, dst), SignExtend16(simm);
    w.(s := WriteScalar(w.s, dst, KValue(op, previous, immediate)), scc := KScc(op, previous, immediate, w.scc))
  }

  /** The result of a 64-bit instruction. */
  function Wide64(op: LOp, src: seq<Operand>, w: Wave): U64
    requires WellFormed(w)
  {
    Value64(op, FirstSource64(op, src, w), Uniform64(1, src, w), Uniform(0, src, w), Uniform(1, src, w), w.scc)
  }

  function Execute64(op: LOp, dst: nat, src: seq<Operand>, w: Wave): (w': Wave)
    requires WellFormed(w)
    ensures WellFormed(w')
  {
    var value := Wide64(op, src, w);
    w.(s := WritePair(w.s, dst, value), scc := Scc64(op, value, w.scc))
  }

  /** The meaning of one instruction; an instruction without its operands does nothing. */
  function Execute(i: Instruction, w: Wave): (w': Wave)
    requires WellFormed(w)
    ensures WellFormed(w')
  {
    match i
    case VectorOp(op, dst, src, control) =>
      if dst >= VECTORS then w
      else WriteLanes(w, dst, VectorLanes(op, dst, src, control, w))
    case CarryOp(op, dst, src, control) => if dst >= VECTORS then w else ExecuteCarry(op, dst, src, control, w)
    case VMadU64(dst, src, control) => if |src| < 3 then w else ExecuteMad(dst, src, control, w)
    case VCompare(rel, signed, toExec, src, control) =>
      w.(s := WriteScalar(w.s, if toExec then EXEC else CompareTarget(control),
                          CompareMask(rel, signed, src, control, w)))
    case VCompareConst(value, toExec, control) =>
      w.(s := WriteScalar(w.s, if toExec then EXEC else CompareTarget(control), if value then w.s[EXEC] else 0))
    case VCndmask(dst, src, control) =>
      if dst >= VECTORS then w else WriteLanes(w, dst, SelectLanes(dst, src, control, w))
    case VReadfirstlane(dst, src) =>
      w.(s := WriteScalar(w.s, dst, SourceOrZero(0, src, Plain, w, FirstLane(w.s[EXEC]) % LANES)))
    case VReadlane(dst, src) =>
      w.(s := WriteScalar(w.s, dst, SourceOrZero(0, src, Plain, w, Uniform(1, src, w) % LANES)))
    case VWritelane(dst, src) => ExecuteWritelane(dst, src, w)
    case ScalarOp(op, dst, src) => ExecuteScalar(op, dst, src, w)
    case ScalarUnary(op, dst, src) => ExecuteUnary(op, dst, src, w)
    case ScalarK(op, dst, simm) => ExecuteK(op, dst, simm, w)
    case ScalarCompare(rel, signed, src) => w.(scc := CompareWords(rel, signed, Uniform(0, src, w), Uniform(1, src, w)))
    case ScalarCompareK(rel, signed, dst, simm) =>
      w.(scc := CompareWords(rel, signed, ReadScalar(w.s, dst), CompareImmediate(signed, simm)))
    case ScalarBitcmp(set1, src) => w.(scc := Bit(Uniform(0, src, w), Uniform(1, src, w) % 32) == set1)
    case Saveexec(logic, dst, src) => ExecuteSaveexec(logic, dst, src, w)
    case Scalar64(op, dst, src) => Execute64(op, dst, src, w)
    case Saveexec64(logic, dst, src) => ExecuteSaveexec64(logic, dst, src, w)
  }

  function ExecuteAll(program: seq<Instruction>, w: Wave): (w': Wave)
    requires WellFormed(w)
    ensures WellFormed(w')
    decreases |program|
  {
    if program == [] then w else ExecuteAll(program[1..], Execute(program[0], w))
  }
}
