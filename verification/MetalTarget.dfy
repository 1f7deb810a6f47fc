/** The fragment of the Metal shading language the translator emits: typed expressions over the
    register file and the temporaries of one lane, statements, and their meaning on a wave of lanes
    that run in lockstep. A result the language leaves undefined is an arbitrary value. */
module MetalTarget {
  import opened Bits
  import opened Words

  datatype Rel = Eq | Ne | Lt | Le | Gt | Ge

  predicate Compare(r: Rel, a: int, b: int) {
    match r
    case Eq => a == b
    case Ne => a != b
    case Lt => a < b
    case Le => a <= b
    case Gt => a > b
    case Ge => a >= b
  }

  datatype BinOp = AddOp | SubOp | MulOp | MulHiOp | AndOp | OrOp | XorOp | ShiftLOp | ShiftROp | MinOp | MaxOp

  datatype UnOp = NotOp | PopCountOp | CtzOp | ReverseOp

  datatype UExpr =
    | Lit(n: U32) | S(r: nat) | V(r: nat) | T(k: nat) | LaneId
    | Un(uop: UnOp, x: UExpr) | Bin(op: BinOp, x: UExpr, y: UExpr)
    | Cond(c: BExpr, x: UExpr, y: UExpr) | ExtractBits(x: UExpr, off: UExpr, width: UExpr)
    | FromInt(i: IExpr) | LowHalf(w: LExpr)
    | Ballot(c: BExpr) | Shuffle(x: UExpr, lane: UExpr)

  datatype IBinOp = IMinOp | IMaxOp | IMulHiOp

  datatype IExpr =
    | AsInt(x: UExpr) | IBin(iop: IBinOp, a: IExpr, b: IExpr) | IShiftR(a: IExpr, y: UExpr)
    | IExtractBits(a: IExpr, off: UExpr, width: UExpr) | IAbs(a: IExpr)

  datatype LBinOp = LAddOp | LSubOp | LMulOp | LAndOp | LOrOp | LXorOp | LShiftLOp | LShiftROp

  datatype LExpr =
    | LLit(m: U64) | Wide(x: UExpr) | LT(k: nat) | LNot(p: LExpr) | LBin(lop: LBinOp, p: LExpr, q: LExpr)
    | LCond(c: BExpr, p: LExpr, q: LExpr)

  datatype BExpr =
    | True | False | Vcc | Exec | Scc | BT(k: nat)
    | Cmp(r: Rel, x: UExpr, y: UExpr) | ICmp(r: Rel, a: IExpr, b: IExpr) | LCmp(r: Rel, p: LExpr, q: LExpr)
    | BAnd(c: BExpr, d: BExpr) | BOr(c: BExpr, d: BExpr) | BNot(c: BExpr)

  datatype Stmt =
    | Let(k: nat, e: UExpr) | LetL(k: nat, w: LExpr) | LetB(k: nat, c: BExpr)
    | SetS(r: nat, e: UExpr) | SetV(r: nat, e: UExpr, guarded: bool)
    | SetVcc(c: BExpr) | SetExec(c: BExpr) | SetScc(c: BExpr)

  // ---- the operators by name ----

  function Add(x: UExpr, y: UExpr): UExpr { Bin(AddOp, x, y) }
  function Sub(x: UExpr, y: UExpr): UExpr { Bin(SubOp, x, y) }
  function Mul(x: UExpr, y: UExpr): UExpr { Bin(MulOp, x, y) }
  function MulHi(x: UExpr, y: UExpr): UExpr { Bin(MulHiOp, x, y) }
  function And(x: UExpr, y: UExpr): UExpr { Bin(AndOp, x, y) }
  function Or(x: UExpr, y: UExpr): UExpr { Bin(OrOp, x, y) }
  function Xor(x: UExpr, y: UExpr): UExpr { Bin(XorOp, x, y) }
  function ShiftL(x: UExpr, y: UExpr): UExpr { Bin(ShiftLOp, x, y) }
  function ShiftR(x: UExpr, y: UExpr): UExpr { Bin(ShiftROp, x, y) }
  function Min(x: UExpr, y: UExpr): UExpr { Bin(MinOp, x, y) }
  function Max(x: UExpr, y: UExpr): UExpr { Bin(MaxOp, x, y) }
  function Not(x: UExpr): UExpr { Un(NotOp, x) }
  function PopCount(x: UExpr): UExpr { Un(PopCountOp, x) }
  function CtzOf(x: UExpr): UExpr { Un(CtzOp, x) }
  function ReverseBits(x: UExpr): UExpr { Un(ReverseOp, x) }
  function IMin(x: IExpr, y: IExpr): IExpr { IBin(IMinOp, x, y) }
  function IMax(x: IExpr, y: IExpr): IExpr { IBin(IMaxOp, x, y) }
  function IMulHi(x: IExpr, y: IExpr): IExpr { IBin(IMulHiOp, x, y) }
  function LAdd(x: LExpr, y: LExpr): LExpr { LBin(LAddOp, x, y) }
  function LSub(x: LExpr, y: LExpr): LExpr { LBin(LSubOp, x, y) }
  function LMul(x: LExpr, y: LExpr): LExpr { LBin(LMulOp, x, y) }
  function LAnd(x: LExpr, y: LExpr): LExpr { LBin(LAndOp, x, y) }
  function LOr(x: LExpr, y: LExpr): LExpr { LBin(LOrOp, x, y) }
  function LXor(x: LExpr, y: LExpr): LExpr { LBin(LXorOp, x, y) }
  function LShiftL(x: LExpr, y: LExpr): LExpr { LBin(LShiftLOp, x, y) }
  function LShiftR(x: LExpr, y: LExpr): LExpr { LBin(LShiftROp, x, y) }

  /** One lane: its copy of the scalar file, its vector registers, the three flags and the temporaries. */
  datatype Lane = Lane(
    s: seq<U32>, v: seq<U32>, vcc: bool, exec: bool, scc: bool,
    u: map<nat, U32>, l: map<nat, U64>, b: map<nat, bool>)

  /** A wave, and the value any undefined operation yields. */
  datatype Machine = Machine(lanes: seq<Lane>, junk: U64)

  // ---- operations ----

  type I32 = x: int | -0x8000_0000 <= x < 0x8000_0000

  function Wrap32(x: int): U32 {
    x % TWO32
  }

  function AsSigned(x: U32): I32 {
    if x < 0x8000_0000 then x else x - TWO32
  }

  function Not32(x: U32): U32 {
    TWO32 - 1 - x
  }

  function Not64(x: U64): U64 {
    TWO64 - 1 - x
  }

  function Or32(x: U32, y: U32): U32 {
    Pow2Known();
    BitwiseBound(x, y, 32);
    BitOr(x, y)
  }

  function Xor32(x: U32, y: U32): U32 {
    Pow2Known();
    BitwiseBound(x, y, 32);
    BitXor(x, y)
  }

  function Or64(x: U64, y: U64): U64 {
    Pow2Known();
    BitwiseBound(x, y, 64);
    BitOr(x, y)
  }

  function Xor64(x: U64, y: U64): U64 {
    Pow2Known();
    BitwiseBound(x, y, 64);
    BitXor(x, y)
  }

  function Low32(x: nat): U32 {
    Pow2Known();
    Lows(x, 32)
  }

  function Low64(x: nat): U64 {
    Pow2Known();
    Lows(x, 64)
  }

  function Reverse32(x: U32): (r: U32)
    ensures forall i: nat :: Bit(r, i) <==> i < 32 && Bit(x, 31 - i)
  {
    BallotOf((i: nat) => i < 32 && Bit(x, 31 - i))
  }

  /** extract_bits; undefined when the field does not fit the word. */
  function Extract32(x: U32, off: U32, width: U32, junk: U32): U32 {
    if off + width > 32 then junk else Lows(Shr(x, off), width)
  }

  function SignedExtract(x: I32, off: U32, width: U32, junk: U32): I32 {
    if off + width > 32 then AsSigned(junk)
    else if width == 0 then 0
    else SignedField(Wrap32(x), off, width)
  }

  function SignedField(x: U32, off: nat, width: nat): I32
    requires 0 < width <= 32
  {
    Pow2Known();
    Pow2Monotone(width - 1, 31);
    assert Pow2(32) == 2 * Pow2(31);
    Signed(Lows(Shr(x, off), width), width)
  }

  /** Division by a power of two, rounding down: the arithmetic right shift. */
  function ShrSigned(x: int, k: nat): int
    decreases k
  {
    if k == 0 then x else ShrSigned(x / 2, k - 1)
  }

  lemma {:induction false} ShrSignedInRange(x: I32, k: nat)
    ensures -0x8000_0000 <= ShrSigned(x, k) < 0x8000_0000
    decreases k
  {
    if k > 0 { ShrSignedInRange(x / 2, k - 1); }
  }

  function Junk32(m: Machine): U32 {
    Wrap32(m.junk)
  }

  function UnaryU(op: UnOp, x: U32): U32 {
    match op
    case NotOp => Not32(x)
    case PopCountOp => PopcountWord(x)
    case CtzOp => Ctz(x, 32)
    case ReverseOp => Reverse32(x)
  }

  /** The 32-bit operators; a shift by the width or more is undefined. */
  function BinaryU(op: BinOp, x: U32, y: U32, junk: U32): U32 {
    match op
    case AddOp => Wrap32(x + y)
    case SubOp => Wrap32(x - y)
    case MulOp => Wrap32(Times(x, y))
    case MulHiOp => HighWord(x, y)
    case AndOp => BitAnd(x, y)
    case OrOp => Or32(x, y)
    case XorOp => Xor32(x, y)
    case ShiftLOp => if y < 32 then Low32(Shl(x, y)) else junk
    case ShiftROp => if y < 32 then Shr(x, y) else junk
    case MinOp => if y < x then y else x
    case MaxOp => if x < y then y else x
  }

  function BinaryI(op: IBinOp, x: I32, y: I32): I32 {
    match op
    case IMinOp => if y < x then y else x
    case IMaxOp => if x < y then y else x
    case IMulHiOp => SignedHighWord(x, y)
  }

  function BinaryL(op: LBinOp, x: U64, y: U64, junk: U64): U64 {
    match op
    case LAddOp => Wrap64(x + y)
    case LSubOp => Wrap64(x - y)
    case LMulOp => Wrap64(Times(x, y))
    case LAndOp => BitAnd(x, y)
    case LOrOp => Or64(x, y)
    case LXorOp => Xor64(x, y)
    case LShiftLOp => if y < 64 then Low64(Shl(x, y)) else junk
    case LShiftROp => if y < 64 then Shr(x, y) else junk
  }

  // ---- expressions ----

  function EvalU(e: UExpr, m: Machine, i: nat): U32
    requires i < |m.lanes|
    decreases e
  {
    match e
    case Lit(n) => n
    case S(r) => if r < |m.lanes[i].s| then m.lanes[i].s[r] else Junk32(m)
    case V(r) => if r < |m.lanes[i].v| then m.lanes[i].v[r] else Junk32(m)
    case T(k) => if k in m.lanes[i].u then m.lanes[i].u[k] else Junk32(m)
    case LaneId => Wrap32(i)
    case Un(op, x) => UnaryU(op, EvalU(x, m, i))
    case Bin(op, x, y) => BinaryU(op, EvalU(x, m, i), EvalU(y, m, i), Junk32(m))
    case Cond(c, x, y) => if EvalB(c, m, i) then EvalU(x, m, i) else EvalU(y, m, i)
    case ExtractBits(x, off, width) => Extract32(EvalU(x, m, i), EvalU(off, m, i), EvalU(width, m, i), Junk32(m))
    case FromInt(a) => Wrap32(EvalI(a, m, i))
    case LowHalf(w) => Low32(EvalL(w, m, i))
    case Ballot(c) => BallotOf((j: nat) => j < |m.lanes| && EvalB(c, m, j))
    case Shuffle(x, lane) => if EvalU(lane, m, i) < |m.lanes| then EvalU(x, m, EvalU(lane, m, i)) else Junk32(m)
  }

  function HighWord(x: U32, y: U32): U32 {
    ProductFits(x, y);
    Times(x, y) / TWO32
  }

  lemma MulMonotone(x: nat, y: nat, a: nat, b: nat)
    requires x <= a && y <= b
    ensures 0 <= x * y <= a * b
  {
    assert x * y <= a * y;
    assert a * y <= a * b;
  }

  lemma ProductFits(x: U32, y: U32)
    ensures Times(x, y) <= 0xFFFF_FFFE_0000_0001
  {
    TimesIsProduct(x, y);
    MulMonotone(x, y, 0xFFFF_FFFF, 0xFFFF_FFFF);
  }

  function PopcountWord(x: U32): U32 {
    Pow2Known();
    PopcountCounts(x, 32);
    CountBelowAtMost(x, 32);
    Popcount(x)
  }

  /** The word whose bit i is f(i). */
  function BallotOf(f: nat -> bool): (r: U32)
    ensures forall i: nat :: Bit(r, i) <==> i < 32 && f(i)
  {
    Pow2Known();
    FromBitsBits(f, 32);
    FromBits(f, 32)
  }

  function EvalI(e: IExpr, m: Machine, i: nat): I32
    requires i < |m.lanes|
    decreases e
  {
    match e
    case AsInt(x) => AsSigned(EvalU(x, m, i))
    case IBin(op, a, b) => BinaryI(op, EvalI(a, m, i), EvalI(b, m, i))
    case IShiftR(a, y) =>
      if EvalU(y, m, i) < 32 then
        ShrSignedInRange(EvalI(a, m, i), EvalU(y, m, i));
        ShrSigned(EvalI(a, m, i), EvalU(y, m, i))
      else AsSigned(Junk32(m))
    case IExtractBits(a, off, width) => SignedExtract(EvalI(a, m, i), EvalU(off, m, i), EvalU(width, m, i), Junk32(m))
    case IAbs(a) => AsSigned(Wrap32(Abs(EvalI(a, m, i))))
  }

  function SignedHighWord(x: I32, y: I32): I32 {
    SignedProductFits(x, y);
    SignedTimes(x, y) / TWO32
  }

  lemma SignedProductFits(x: I32, y: I32)
    ensures -0x4000_0000_0000_0000 <= SignedTimes(x, y) <= 0x4000_0000_0000_0000
  {
    TimesIsProduct(Abs(x), Abs(y));
    MulMonotone(Abs(x), Abs(y), 0x8000_0000, 0x8000_0000);
  }

  function Abs(x: int): nat {
    if x < 0 then -x else x
  }

  function SignedTimes(x: int, y: int): int {
    if (x < 0) == (y < 0) then Times(Abs(x), Abs(y)) else -(Times(Abs(x), Abs(y)) as int)
  }

  function EvalL(e: LExpr, m: Machine, i: nat): U64
    requires i < |m.lanes|
    decreases e
  {
    match e
    case LLit(n) => n
    case Wide(x) => EvalU(x, m, i)
    case LT(k) => if k in m.lanes[i].l then m.lanes[i].l[k] else m.junk
    case LNot(p) => Not64(EvalL(p, m, i))
    case LBin(op, p, q) => BinaryL(op, EvalL(p, m, i), EvalL(q, m, i), m.junk)
    case LCond(c, p, q) => if EvalB(c, m, i) then EvalL(p, m, i) else EvalL(q, m, i)
  }

  predicate EvalB(e: BExpr, m: Machine, i: nat)
    requires i < |m.lanes|
    decreases e
  {
    match e
    case True => true
    case False => false
    case Vcc => m.lanes[i].vcc
    case Exec => m.lanes[i].exec
    case Scc => m.lanes[i].scc
    case BT(k) => k in m.lanes[i].b && m.lanes[i].b[k]
    case Cmp(r, x, y) => Compare(r, EvalU(x, m, i), EvalU(y, m, i))
    case ICmp(r, a, b) => Compare(r, EvalI(a, m, i), EvalI(b, m, i))
    case LCmp(r, p, q) => Compare(r, EvalL(p, m, i), EvalL(q, m, i))
    case BAnd(c, d) => EvalB(c, m, i) && EvalB(d, m, i)
    case BOr(c, d) => EvalB(c, m, i) || EvalB(d, m, i)
    case BNot(c) => !EvalB(c, m, i)
  }

  // ---- the evaluator as rewriting rules ----

  /** The meaning of every kind of 32-bit expression in terms of its parts. */
  lemma EvU(m: Machine, i: nat)
    requires i < |m.lanes|
    ensures forall n: U32 {:trigger EvalU(Lit(n), m, i)} :: EvalU(Lit(n), m, i) == n
    ensures EvalU(LaneId, m, i) == Wrap32(i)
    ensures forall op, x {:trigger EvalU(Un(op, x), m, i)} :: EvalU(Un(op, x), m, i) == UnaryU(op, EvalU(x, m, i))
    ensures forall op, x, y {:trigger EvalU(Bin(op, x, y), m, i)} ::
      EvalU(Bin(op, x, y), m, i) == BinaryU(op, EvalU(x, m, i), EvalU(y, m, i), Junk32(m))
    ensures forall c, x, y {:trigger EvalU(Cond(c, x, y), m, i)} ::
      EvalU(Cond(c, x, y), m, i) == if EvalB(c, m, i) then EvalU(x, m, i) else EvalU(y, m, i)
    ensures forall x, off, width {:trigger EvalU(ExtractBits(x, off, width), m, i)} ::
      EvalU(ExtractBits(x, off, width), m, i)
                                 == Extract32(EvalU(x, m, i), EvalU(off, m, i), EvalU(width, m, i), Junk32(m))
    ensures forall a {:trigger EvalU(FromInt(a), m, i)} :: EvalU(FromInt(a), m, i) == Wrap32(EvalI(a, m, i))
    ensures forall w {:trigger EvalU(LowHalf(w), m, i)} :: EvalU(LowHalf(w), m, i) == Low32(EvalL(w, m, i))
  {
  }

  /** The meaning of every kind of signed expression in terms of its parts. */
  lemma EvI(m: Machine, i: nat)
    requires i < |m.lanes|
    ensures forall x {:trigger EvalI(AsInt(x), m, i)} :: EvalI(AsInt(x), m, i) == AsSigned(EvalU(x, m, i))
    ensures forall op, a, b {:trigger EvalI(IBin(op, a, b), m, i)} ::
      EvalI(IBin(op, a, b), m, i) == BinaryI(op, EvalI(a, m, i), EvalI(b, m, i))
    ensures forall a, y {:trigger EvalI(IShiftR(a, y), m, i)} ::
      EvalU(y, m, i) < 32 ==> EvalI(IShiftR(a, y), m, i) == ShrSigned(EvalI(a, m, i), EvalU(y, m, i))
    ensures forall a, off, width {:trigger EvalI(IExtractBits(a, off, width), m, i)} ::
      EvalI(IExtractBits(a, off, width), m, i)
                                 == SignedExtract(EvalI(a, m, i), EvalU(off, m, i), EvalU(width, m, i), Junk32(m))
    ensures forall a {:trigger EvalI(IAbs(a), m, i)} :: EvalI(IAbs(a), m, i) == AsSigned(Wrap32(Abs(EvalI(a, m, i))))
  {
  }

  /** The meaning of every kind of 64-bit expression in terms of its parts. */
  lemma EvL(m: Machine, i: nat)
    requires i < |m.lanes|
    ensures forall n: U64 {:trigger EvalL(LLit(n), m, i)} :: EvalL(LLit(n), m, i) == n
    ensures forall x {:trigger EvalL(Wide(x), m, i)} :: EvalL(Wide(x), m, i) == EvalU(x, m, i)
    ensures forall p {:trigger EvalL(LNot(p), m, i)} :: EvalL(LNot(p), m, i) == Not64(EvalL(p, m, i))
    ensures forall op, p, q {:trigger EvalL(LBin(op, p, q), m, i)} ::
      EvalL(LBin(op, p, q), m, i) == BinaryL(op, EvalL(p, m, i), EvalL(q, m, i), m.junk)
    ensures forall c, p, q {:trigger EvalL(LCond(c, p, q), m, i)} ::
      EvalL(LCond(c, p, q), m, i) == if EvalB(c, m, i) then EvalL(p, m, i) else EvalL(q, m, i)
  {
  }

  /** The meaning of every kind of condition in terms of its parts. */
  lemma EvB(m: Machine, i: nat)
    requires i < |m.lanes|
    ensures EvalB(True, m, i) && !EvalB(False, m, i)
    ensures forall r, x, y {:trigger EvalB(Cmp(r, x, y), m, i)} ::
      EvalB(Cmp(r, x, y), m, i) == Compare(r, EvalU(x, m, i), EvalU(y, m, i))
    ensures forall r, a, b {:trigger EvalB(ICmp(r, a, b), m, i)} ::
      EvalB(ICmp(r, a, b), m, i) == Compare(r, EvalI(a, m, i), EvalI(b, m, i))
    ensures forall r, p, q {:trigger EvalB(LCmp(r, p, q), m, i)} ::
      EvalB(LCmp(r, p, q), m, i) == Compare(r, EvalL(p, m, i), EvalL(q, m, i))
    ensures forall c, d {:trigger EvalB(BAnd(c, d), m, i)} ::
      EvalB(BAnd(c, d), m, i) == (EvalB(c, m, i) && EvalB(d, m, i))
    ensures forall c, d {:trigger EvalB(BOr(c, d), m, i)} ::
      EvalB(BOr(c, d), m, i) == (EvalB(c, m, i) || EvalB(d, m, i))
    ensures forall c {:trigger EvalB(BNot(c), m, i)} :: EvalB(BNot(c), m, i) == !EvalB(c, m, i)
  {
  }

  lemma EvTemps(k: nat, m: Machine, i: nat)
    requires i < |m.lanes|
    ensures EvalU(T(k), m, i) == if k in m.lanes[i].u then m.lanes[i].u[k] else Junk32(m)
    ensures EvalL(LT(k), m, i) == if k in m.lanes[i].l then m.lanes[i].l[k] else m.junk
    ensures EvalB(BT(k), m, i) == (k in m.lanes[i].b && m.lanes[i].b[k])
  {
  }

  lemma EvLit(n: U32, m: Machine, i: nat)
    requires i < |m.lanes|
    ensures EvalU(Lit(n), m, i) == n
  {
  }

  lemma EvBallot(c: BExpr, m: Machine, i: nat)
    requires i < |m.lanes|
    ensures forall j: nat :: Bit(EvalU(Ballot(c), m, i), j) <==> j < 32 && j < |m.lanes| && EvalB(c, m, j)
  {
    hide Bit;
  }

  // ---- statements ----

  function StepLane(st: Stmt, m: Machine, i: nat): Lane
    requires i < |m.lanes|
  {
    var lane := m.lanes[i];
    match st
    case Let(k, e) => lane.(u := lane.u[k := EvalU(e, m, i)])
    case LetL(k, w) => lane.(l := lane.l[k := EvalL(w, m, i)])
    case LetB(k, c) => lane.(b := lane.b[k := EvalB(c, m, i)])
    case SetS(r, e) => if r < |lane.s| then lane.(s := lane.s[r := EvalU(e, m, i)]) else lane
    case SetV(r, e, guarded) =>
      if r < |lane.v| && (guarded ==> lane.exec) then lane.(v := lane.v[r := EvalU(e, m, i)]) else lane
    case SetVcc(c) => lane.(vcc := EvalB(c, m, i))
    case SetExec(c) => lane.(exec := EvalB(c, m, i))
    case SetScc(c) => lane.(scc := EvalB(c, m, i))
  }

  /** All lanes take the statement together, so cross-lane reads see the state before it. */
  function Step(st: Stmt, m: Machine): (m': Machine)
    ensures |m'.lanes| == |m.lanes| && m'.junk == m.junk
    ensures forall i :: 0 <= i < |m.lanes| ==> m'.lanes[i] == StepLane(st, m, i)
  {
    Machine(seq(|m.lanes|, i requires 0 <= i < |m.lanes| => StepLane(st, m, i)), m.junk)
  }

  function Run(code: seq<Stmt>, m: Machine): (m': Machine)
    ensures |m'.lanes| == |m.lanes| && m'.junk == m.junk
    decreases |code|
  {
    if code == [] then m else Run(code[1..], Step(code[0], m))
  }

  lemma {:induction false} RunAppend(a: seq<Stmt>, b: seq<Stmt>, m: Machine)
    ensures Run(a + b, m) == Run(b, Run(a, m))
    decreases |a|
  {
    if a == [] {
      assert a + b == b;
    } else {
      assert (a + b)[0] == a[0] && (a + b)[1..] == a[1..] + b;
      RunAppend(a[1..], b, Step(a[0], m));
    }
  }

  lemma RunOne(st: Stmt, m: Machine)
    ensures Run([st], m) == Step(st, m)
  {
    assert Run([st][1..], Step(st, m)) == Step(st, m);
  }
}
