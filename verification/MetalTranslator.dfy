/** The translator as the source runs it: a body it appends lines to and a counter of temporaries. Each
    method is proved to append exactly what MetalEmission says for the instruction, with its temporaries
    numbered from the counter. */
module MetalTranslator {
  import opened Gen5Isa
  import opened MetalEmission
  import opened MetalLaneSimulation
  import opened MetalScalarMeaning
  import MetalScalarSimulation
  import opened MetalTarget
  import opened Words

  lemma {:induction false} TempCountAppend(a: seq<Stmt>, b: seq<Stmt>)
    ensures TempCount(a + b) == TempCount(a) + TempCount(b)
  {
    if a == [] {
      assert a + b == b;
    } else {
      TempCountAppend(a[1..], b);
      assert (a + b)[1..] == a[1..] + b;
    }
  }

  lemma TempCountOne(st: Stmt)
    ensures TempCount([st]) == if st.Let? || st.LetL? || st.LetB? then 1 else 0
  {
    assert [st][1..] == [];
  }

  /** The code that merges and stores temporary k. */
  function StoreMerged(sdwa: Sdwa, dst: nat, k: nat): seq<Stmt>
    requires sdwa.destination < 6
  {
    MetalEmission.StoreResult(SdwaControl(sdwa.(scalarDestination := None)), dst, k)
  }

  lemma ResultIs(control: Control, dst: nat, k: nat)
    ensures MetalEmission.StoreResult(control, dst, k) ==
      if control.SdwaControl? && control.sdwa.scalarDestination.None? && control.sdwa.destination < 6
      then StoreMerged(control.sdwa, dst, k) else MetalEmission.StoreVector(dst, T(k), true)
  {
    hide MetalEmission.StoreVector, FieldMask, UpperMask, SignMask, LowMask, Not32, FieldShift, FieldBits;
  }

  class Translator {
    var body: seq<Stmt>
    var nextTemp: nat
    /** The body and the counter when the current instruction began, and what it has appended since. */
    ghost var before: seq<Stmt>
    ghost var firstTemp: nat
    ghost var code: seq<Stmt>

    ghost predicate Valid()
      reads this
    {
      body == before + code && nextTemp == firstTemp + TempCount(code)
    }

    constructor ()
      ensures Valid() && body == [] && nextTemp == 0
    {
      body, nextTemp, before, firstTemp, code := [], 0, [], 0, [];
    }

    ghost method Begin()
      modifies `before, `firstTemp, `code
      ensures Valid() && before == body && firstTemp == nextTemp && code == []
    {
      before, firstTemp, code := body, nextTemp, [];
    }

    // ---- lines and temporaries ----

    method Line(st: Stmt)
      requires Valid() && !(st.Let? || st.LetL? || st.LetB?)
      modifies `body, `code
      ensures Valid() && code == old(code) + [st]
    {
      TempCountAppend(code, [st]);
      TempCountOne(st);
      body, code := body + [st], code + [st];
    }

    method Declare(st: Stmt)
      requires Valid() && (st.Let? || st.LetL? || st.LetB?)
      modifies `body, `code, `nextTemp
      ensures Valid() && code == old(code) + [st] && nextTemp == old(nextTemp) + 1
    {
      TempCountAppend(code, [st]);
      TempCountOne(st);
      body, code, nextTemp := body + [st], code + [st], nextTemp + 1;
    }

    method Temp(e: UExpr) returns (t: UExpr)
      requires Valid()
      modifies `body, `code, `nextTemp
      ensures Valid() && code == old(code) + [Let(old(nextTemp), e)] && nextTemp == old(nextTemp) + 1
        && t == T(old(nextTemp))
    {
      t := T(nextTemp);
      Declare(Let(nextTemp, e));
    }

    method TempWide(e: LExpr) returns (t: LExpr)
      requires Valid()
      modifies `body, `code, `nextTemp
      ensures Valid() && code == old(code) + [LetL(old(nextTemp), e)] && nextTemp == old(nextTemp) + 1
        && t == LT(old(nextTemp))
    {
      t := LT(nextTemp);
      Declare(LetL(nextTemp, e));
    }

    method TempBool(e: BExpr) returns (t: BExpr)
      requires Valid()
      modifies `body, `code, `nextTemp
      ensures Valid() && code == old(code) + [LetB(old(nextTemp), e)] && nextTemp == old(nextTemp) + 1
        && t == BT(old(nextTemp))
    {
      t := BT(nextTemp);
      Declare(LetB(nextTemp, e));
    }

    // ---- stores ----

    method StoreScalar(r: nat, e: UExpr)
      requires Valid()
      modifies `body, `code, `nextTemp
      ensures Valid() && code == old(code) + MetalEmission.StoreScalar(r, e, old(nextTemp))
      ensures nextTemp == old(nextTemp) + StoreTemps(r)
    {
      if r == VCC {
        var value := Temp(e);
        Line(SetS(VCC, value));
        Line(SetVcc(LaneBitExpr(value)));
      } else if r == EXEC {
        var value := Temp(e);
        Line(SetS(EXEC, value));
        Line(SetExec(LaneBitExpr(value)));
      } else if r < SCALARS {
        Line(SetS(r, e));
      }
    }

    method StoreScalar64(r: nat, w: LExpr)
      requires Valid()
      modifies `body, `code, `nextTemp
      ensures Valid() && code == old(code) + MetalEmission.StoreScalar64(r, w, old(nextTemp))
    {
      hide MetalEmission.StoreScalar;
      StoreScalar(r, LowHalf(w));
      StoreScalar(r + 1, LowHalf(LShiftR(w, Wide(Lit(32)))));
    }

    method StoreVector(r: nat, e: UExpr, guarded: bool)
      requires Valid()
      modifies `body, `code
      ensures Valid() && code == old(code) + MetalEmission.StoreVector(r, e, guarded)
    {
      if r < VECTORS { Line(SetV(r, e, guarded)); }
    }

    method EmitBallotStore(r: nat, c: BExpr)
      requires Valid()
      modifies `body, `code
      ensures Valid() && code == old(code) + BallotStore(r, c)
    {
      Line(SetS(r, Ballot(c)));
      if r + 1 < SCALARS { Line(SetS(r + 1, Lit(0))); }
    }

    method StoreMaskBit(r: nat, c: BExpr)
      requires Valid()
      modifies `body, `code
      ensures Valid() && code == old(code) + StoreMask(r, c)
    {
      if r == VCC {
        Line(SetVcc(c));
        EmitBallotStore(VCC, Vcc);
      } else if r == EXEC {
        Line(SetExec(c));
        EmitBallotStore(EXEC, Exec);
      } else if r < SCALARS {
        EmitBallotStore(r, c);
      }
    }

    method StoreCarryOut(control: Control, carry: BExpr)
      requires Valid()
      modifies `body, `code, `nextTemp
      ensures Valid() && code == old(code) + MetalEmission.StoreCarryOut(control, carry, old(nextTemp))
      ensures nextTemp == old(nextTemp) + 1
    {
      hide StoreMask;
      var active := TempBool(BAnd(Exec, carry));
      var target := match control case Vop3(Some(r)) => r case _ => VCC;
      StoreMaskBit(target, active);
    }

    /** The value moved into the destination's field, with the rest as the destination asks. */
    method ApplySdwaDestination(sdwa: Sdwa, dst: nat, value: UExpr, ghost k: nat) returns (merged: UExpr)
      requires Valid() && sdwa.destination < 6 && value == T(k) && nextTemp == k + 1
      modifies `body, `code, `nextTemp
      ensures Valid() && code + MetalEmission.StoreVector(dst, merged, true) == old(code) + StoreMerged(sdwa, dst, k)
    {
      hide MetalEmission.StoreVector, FieldMask, UpperMask, SignMask, LowMask, Not32;
      var d := sdwa.destination;
      var positioned := Temp(ShiftL(And(value, Lit(LowMask(d))), Lit(FieldShift(d))));
      if sdwa.unused == 0 {
        merged := positioned;
      } else if sdwa.unused == 1 {
        merged := Temp(Or(positioned, Cond(Cmp(Ne, And(positioned, Lit(SignMask(d))), Lit(0)),
                                           Lit(UpperMask(FieldShift(d) + FieldBits(d))), Lit(0))));
      } else {
        merged := Temp(Or(And(V(dst), Lit(Not32(FieldMask(d)))), positioned));
      }
    }

    /** The result in a temporary, merged as the SDWA destination asks, then stored in the enabled lanes. */
    method StoreResult(control: Control, dst: nat, expression: UExpr)
      requires Valid()
      modifies `body, `code, `nextTemp
      ensures Valid()
      ensures code
        == old(code) + [Let(old(nextTemp), expression)] + MetalEmission.StoreResult(control, dst, old(nextTemp))
    {
      hide MetalEmission.StoreVector, StoreMerged, MetalEmission.StoreResult;
      ghost var k := nextTemp;
      ResultIs(control, dst, k);
      var value := Temp(expression);
      if control.SdwaControl? && control.sdwa.scalarDestination.None? && control.sdwa.destination < 6 {
        value := ApplySdwaDestination(control.sdwa, dst, value, k);
      }
      StoreVector(dst, value, true);
    }

    // ---- vector instructions ----

    /** The two operands, in the order the opcode asks for. */
    method Pair(src: seq<Operand>, control: Control, reverse: bool) returns (left: UExpr, right: UExpr)
      requires Valid() && |src| >= 2 && code == []
      modifies `body, `code, `nextTemp
      ensures Valid() && left == T(old(nextTemp)) && right == T(old(nextTemp) + 1) && nextTemp == old(nextTemp) + 2
      ensures code == [Let(old(nextTemp), Raw(if reverse then 1 else 0, src, control)),
                       Let(old(nextTemp) + 1, Raw(if reverse then 0 else 1, src, control))]
    {
      hide Raw;
      left := Temp(Raw(if reverse then 1 else 0, src, control));
      right := Temp(Raw(if reverse then 0 else 1, src, control));
    }

    method AddCarryOut(op: COp, dst: nat, src: seq<Operand>, control: Control)
      requires Valid() && |src| >= 2 && code == [] && op == VAddCo
      modifies `body, `code, `nextTemp
      ensures Valid() && code == EmitCarry(op, dst, src, control, old(nextTemp))
    {
      hide MetalEmission.StoreCarryOut, MetalEmission.StoreResult, Raw, MaskBitExpr;
      var left, right := Pair(src, control, false);
      var sum := Temp(Add(left, right));
      StoreCarryOut(control, Cmp(Lt, sum, left));
      StoreResult(control, dst, sum);
    }

    method SubtractBorrowOut(op: COp, dst: nat, src: seq<Operand>, control: Control)
      requires Valid() && |src| >= 2 && code == [] && (op == VSubCo || op == VSubrevCo)
      modifies `body, `code, `nextTemp
      ensures Valid() && code == EmitCarry(op, dst, src, control, old(nextTemp))
    {
      hide MetalEmission.StoreCarryOut, MetalEmission.StoreResult, Raw, MaskBitExpr;
      var left, right := Pair(src, control, op == VSubrevCo);
      StoreCarryOut(control, Cmp(Lt, left, right));
      StoreResult(control, dst, Sub(left, right));
    }

    method AddCarryInOut(op: COp, dst: nat, src: seq<Operand>, control: Control)
      requires Valid() && |src| >= 2 && code == [] && op == VAddc
      modifies `body, `code, `nextTemp
      ensures Valid() && code == EmitCarry(op, dst, src, control, old(nextTemp))
    {
      hide MetalEmission.StoreCarryOut, MetalEmission.StoreResult, Raw, MaskBitExpr;
      var left, right := Pair(src, control, false);
      var partial := Temp(Add(left, right));
      var sum := Temp(Add(partial, FlagExpr(MaskBitExpr(src))));
      StoreCarryOut(control, BOr(Cmp(Lt, partial, left), Cmp(Lt, sum, partial)));
      StoreResult(control, dst, sum);
    }

    method SubtractBorrowInOut(op: COp, dst: nat, src: seq<Operand>, control: Control)
      requires Valid() && |src| >= 2 && code == [] && (op == VSubb || op == VSubbrev)
      modifies `body, `code, `nextTemp
      ensures Valid() && code == EmitCarry(op, dst, src, control, old(nextTemp))
    {
      hide MetalEmission.StoreCarryOut, MetalEmission.StoreResult, Raw, MaskBitExpr, FlagExpr;
      ghost var k := nextTemp;
      var reverse := op == VSubbrev;
      var left, right := Pair(src, control, reverse);
      var borrow := Temp(FlagExpr(MaskBitExpr(src)));
      var partial := Temp(Sub(left, right));
      StoreCarryOut(control, BOr(Cmp(Lt, left, right), Cmp(Lt, partial, borrow)));
      ghost var most := code;
      StoreResult(control, dst, Sub(partial, borrow));
      assert code == most + [Let(k + 5, Sub(partial, borrow))] + MetalEmission.StoreResult(control, dst, k + 5);
    }

    method Carry(op: COp, dst: nat, src: seq<Operand>, control: Control)
      requires Valid() && |src| >= 2 && code == []
      modifies `body, `code, `nextTemp
      ensures Valid() && code == EmitCarry(op, dst, src, control, old(nextTemp))
    {
      hide EmitCarry;
      match op
      case VAddCo => AddCarryOut(op, dst, src, control);
      case VSubCo | VSubrevCo => SubtractBorrowOut(op, dst, src, control);
      case VAddc => AddCarryInOut(op, dst, src, control);
      case VSubb | VSubbrev => SubtractBorrowInOut(op, dst, src, control);
    }

    method MadU64(dst: nat, src: seq<Operand>, control: Control)
      requires Valid() && |src| >= 3 && code == []
      modifies `body, `code, `nextTemp
      ensures Valid() && code == EmitMadU64(dst, src, control, old(nextTemp))
    {
      hide MetalEmission.StoreCarryOut, MetalEmission.StoreResult, MetalEmission.StoreVector, Raw, Raw64;
      var product := TempWide(LMul(Wide(Raw(0, src, control)), Wide(Raw(1, src, control))));
      var addend := TempWide(Raw64(src[2]));
      var wide := TempWide(LAdd(product, addend));
      StoreCarryOut(control, LCmp(Lt, wide, addend));
      StoreVector(dst + 1, LowHalf(LShiftR(wide, Wide(Lit(32)))), true);
      StoreResult(control, dst, LowHalf(wide));
    }

    method Comparison(condition: BExpr, toExec: bool, control: Control)
      requires Valid() && code == []
      modifies `body, `code, `nextTemp
      ensures Valid() && code == EmitCompare(condition, toExec, control, old(nextTemp))
    {
      hide StoreMask, BallotStore;
      var active := TempBool(BAnd(Exec, condition));
      if toExec {
        Line(SetExec(active));
        EmitBallotStore(EXEC, Exec);
      } else {
        var target := VCC;
        if control.SdwaControl? && control.sdwa.scalarDestination.Some? {
          target := control.sdwa.scalarDestination.value;
        }
        StoreMaskBit(target, active);
      }
    }

    // ---- scalar instructions ----

    method Sources(src: seq<Operand>) returns (x: UExpr, y: UExpr)
      requires Valid() && |src| >= 2 && code == []
      modifies `body, `code, `nextTemp
      ensures Valid() && x == T(old(nextTemp)) && y == T(old(nextTemp) + 1) && nextTemp == old(nextTemp) + 2
      ensures code == [Let(old(nextTemp), Raw(0, src, Plain)), Let(old(nextTemp) + 1, Raw(1, src, Plain))]
    {
      hide Raw;
      x := Temp(Raw(0, src, Plain));
      y := Temp(Raw(1, src, Plain));
    }

    method AddWithCarry(dst: nat, src: seq<Operand>)
      requires Valid() && |src| >= 2 && code == []
      modifies `body, `code, `nextTemp
      ensures Valid() && code == EmitScalar(SAddc, dst, src, old(nextTemp))
    {
      hide MetalEmission.StoreScalar, Raw;
      var x, y := Sources(src);
      var partial := Temp(Add(x, y));
      var sum := Temp(Add(partial, FlagExpr(Scc)));
      Line(SetScc(BOr(Cmp(Lt, partial, x), Cmp(Lt, sum, partial))));
      StoreScalar(dst, sum);
    }

    method SubtractWithBorrow(dst: nat, src: seq<Operand>)
      requires Valid() && |src| >= 2 && code == []
      modifies `body, `code, `nextTemp
      ensures Valid() && code == EmitScalar(SSubb, dst, src, old(nextTemp))
    {
      hide MetalEmission.StoreScalar, Raw;
      var x, y := Sources(src);
      var borrow := Temp(FlagExpr(Scc));
      var partial := Temp(Sub(x, y));
      var difference := Temp(Sub(partial, borrow));
      Line(SetScc(BOr(Cmp(Gt, y, x), BAnd(Cmp(Eq, borrow, Lit(1)), Cmp(Eq, y, x)))));
      StoreScalar(dst, difference);
    }

    method BitField(op: SOp, dst: nat, src: seq<Operand>)
      requires Valid() && |src| >= 2 && code == [] && (op == SBfeU || op == SBfeI)
      modifies `body, `code, `nextTemp
      ensures Valid() && code == EmitScalar(op, dst, src, old(nextTemp))
    {
      hide MetalEmission.StoreScalar, Raw, Five;
      var x, y := Sources(src);
      var offset := Temp(Five(y));
      var width := Temp(Min(And(ShiftR(y, Lit(16)), Lit(0x7F)), Sub(Lit(32), offset)));
      var field := if op == SBfeU then ExtractBits(x, offset, width)
                   else FromInt(IExtractBits(AsInt(x), offset, width));
      var result := Temp(Cond(Cmp(Eq, width, Lit(0)), Lit(0), field));
      StoreScalar(dst, result);
      Line(SetScc(NonZero(result)));
    }

    method Direct(op: SOp, dst: nat, src: seq<Operand>)
      requires Valid() && |src| >= 2 && code == [] && op !in {SAddc, SSubb, SBfeU, SBfeI}
      modifies `body, `code, `nextTemp
      ensures Valid() && code == EmitScalar(op, dst, src, old(nextTemp))
    {
      hide MetalEmission.StoreScalar, Raw, ScalarExprOf, SccExprOf;
      ghost var k := nextTemp;
      var x, y := Sources(src);
      var result := Temp(ScalarExprOf(op, x, y));
      StoreScalar(dst, result);
      var c := SccExprOf(op, x, y, result);
      if c.Some? { Line(SetScc(c.value)); }
      MetalScalarSimulation.EmitDirect(op, dst, src, k);
    }

    method Scalar(op: SOp, dst: nat, src: seq<Operand>)
      requires Valid() && |src| >= 2 && code == []
      modifies `body, `code, `nextTemp
      ensures Valid() && code == EmitScalar(op, dst, src, old(nextTemp))
    {
      hide EmitScalar;
      match op
      case SAddc => AddWithCarry(dst, src);
      case SSubb => SubtractWithBorrow(dst, src);
      case SBfeU => BitField(op, dst, src);
      case SBfeI => BitField(op, dst, src);
      case _ => Direct(op, dst, src);
    }

    method Unary(op: UOp, dst: nat, src: seq<Operand>)
      requires Valid() && |src| >= 1 && code == []
      modifies `body, `code, `nextTemp
      ensures Valid() && code == EmitUnary(op, dst, src, old(nextTemp))
    {
      hide MetalEmission.StoreScalar, Raw, UnaryExprOf, Five;
      var x := Temp(Raw(0, src, Plain));
      if op == SMov || op == SBitset1 {
        StoreScalar(dst, if op == SMov then x else Or(ScalarExpr(dst), ShiftL(Lit(1), Five(x))));
      } else {
        var result := Temp(UnaryExprOf(op, x));
        StoreScalar(dst, result);
        Line(SetScc(NonZero(result)));
      }
    }

    method Immediate(op: KOp, dst: nat, simm: nat)
      requires Valid() && code == []
      modifies `body, `code, `nextTemp
      ensures Valid() && code == EmitK(op, dst, simm, old(nextTemp))
    {
      hide MetalEmission.StoreScalar, SignExtend16;
      var immediate := Lit(SignExtend16(simm));
      var value :=
        match op
        case SMovk => immediate
        case SAddk => Add(ScalarExpr(dst), immediate)
        case SMulk => Mul(ScalarExpr(dst), immediate);
      var result := Temp(value);
      StoreScalar(dst, result);
    }

    method SaveExec(logic: Logic, dst: nat, src: seq<Operand>)
      requires Valid() && |src| >= 1 && code == []
      modifies `body, `code, `nextTemp
      ensures Valid() && code == EmitSaveexec(logic, dst, src, old(nextTemp))
    {
      hide MetalEmission.StoreScalar, Raw, LogicExpr;
      var source := Temp(Raw(0, src, Plain));
      var saved := Temp(S(EXEC));
      var mask := Temp(LogicExpr(logic, source, saved));
      StoreScalar(dst, saved);
      Line(SetS(EXEC, mask));
      Line(SetS(EXEC + 1, Lit(0)));
      Line(SetExec(LaneBitExpr(mask)));
      Line(SetScc(NonZero(mask)));
    }

    method SaveExec64(logic: Logic, dst: nat, src: seq<Operand>)
      requires Valid() && |src| >= 1 && code == []
      modifies `body, `code, `nextTemp
      ensures Valid() && code == EmitSaveexec64(logic, dst, src, old(nextTemp))
    {
      hide MetalEmission.StoreScalar64, Raw64, Logic64Expr;
      var source := TempWide(Raw64(src[0]));
      var saved := TempWide(Scalar64Expr(EXEC));
      var mask := TempWide(Logic64Expr(logic, source, saved));
      StoreScalar64(dst, saved);
      Line(SetS(EXEC, LowHalf(mask)));
      Line(SetS(EXEC + 1, LowHalf(LShiftR(mask, Wide(Lit(32))))));
      Line(SetExec(LaneBitExpr(LowHalf(mask))));
      Line(SetScc(LCmp(Ne, mask, LLit(0))));
    }

    /** The statements that prepare a 64-bit result from its first operand, and the result. */
    method Prepare(op: LOp, src: seq<Operand>, ghost k: nat) returns (value: LExpr)
      requires Valid() && nextTemp == k + 1 && (|src| >= 2 || (|src| >= 1 && op in {SMov64, SNot64, SWqm64}))
      modifies `body, `code, `nextTemp
      ensures Valid() && code == old(code) + Prepare64(op, src, k).0
      ensures value == Prepare64(op, src, k).1 && nextTemp == k + 1 + Prepare64(op, src, k).2
    {
      hide Raw, Raw64, Logic64Expr, BelowWide, PrepareBfe64;
      var x := LT(nextTemp - 1);
      match op
      case SMov64 => value := x;
      case SNot64 => value := LNot(x);
      case SWqm64 =>
        var any := LOr(LOr(LOr(x, LShiftR(x, Wide(Lit(1)))), LShiftR(x, Wide(Lit(2)))), LShiftR(x, Wide(Lit(3))));
        var quads := TempWide(LAnd(any, LLit(0x1111_1111_1111_1111)));
        value := LMul(quads, LLit(0xF));
      case SLshl64 =>
        var shift := Temp(And(Raw(1, src, Plain), Lit(63)));
        value := LShiftL(x, Wide(shift));
      case SLshr64 =>
        var shift := Temp(And(Raw(1, src, Plain), Lit(63)));
        value := LShiftR(x, Wide(shift));
      case SBfm64 =>
        var width := TempWide(Wide(And(Raw(0, src, Plain), Lit(63))));
        var offset := TempWide(Wide(And(Raw(1, src, Plain), Lit(63))));
        value := LShiftL(BelowWide(width), offset);
      case SBfeU64 => value := Extract(src, k);
      case SBfeI64 => value := ExtractSigned(src, k);
      case SLogic64(l) =>
        var y := TempWide(Raw64(src[1]));
        value := Logic64Expr(l, x, y);
      case SCselect64 =>
        var y := TempWide(Raw64(src[1]));
        value := LCond(Scc, x, y);
    }

    method Extract(src: seq<Operand>, ghost k: nat) returns (field: LExpr)
      requires Valid() && nextTemp == k + 1 && |src| >= 2
      modifies `body, `code, `nextTemp
      ensures Valid() && code == old(code) + PrepareBfe64(src, k) && field == LT(k + 5) && nextTemp == k + 6
    {
      hide Raw, BelowWide;
      var x := LT(nextTemp - 1);
      var control := Temp(Raw(1, src, Plain));
      var offset := Temp(And(control, Lit(63)));
      var width := Temp(Min(And(ShiftR(control, Lit(16)), Lit(0x7F)), Sub(Lit(64), offset)));
      var mask := TempWide(LCond(Cmp(Ge, width, Lit(64)), LLit(0xFFFF_FFFF_FFFF_FFFF), BelowWide(Wide(width))));
      field := TempWide(LAnd(LShiftR(x, Wide(offset)), mask));
    }

    method ExtractSigned(src: seq<Operand>, ghost k: nat) returns (value: LExpr)
      requires Valid() && nextTemp == k + 1 && |src| >= 2
      modifies `body, `code, `nextTemp
      ensures Valid() && code == old(code) + Prepare64(SBfeI64, src, k).0 && value == LT(k + 7) && nextTemp == k + 8
    {
      hide PrepareBfe64;
      var width := T(nextTemp + 2);
      var field := Extract(src, k);
      var sign := TempWide(LCond(Cmp(Eq, width, Lit(0)), LLit(0), LShiftL(LLit(1), Wide(Sub(width, Lit(1))))));
      value := TempWide(LCond(Cmp(Eq, width, Lit(0)), LLit(0), LSub(LXor(field, sign), sign)));
    }

    method Scalar64(op: LOp, dst: nat, src: seq<Operand>)
      requires Valid() && (|src| >= 2 || (|src| >= 1 && op in {SMov64, SNot64, SWqm64})) && code == []
      modifies `body, `code, `nextTemp
      ensures Valid() && code == EmitScalar64(op, dst, src, old(nextTemp))
    {
      hide Raw64, Prepare64, MetalEmission.StoreScalar64;
      ghost var k := nextTemp;
      var _ := TempWide(Raw64(src[0]));
      var value := Prepare(op, src, k);
      var result := TempWide(value);
      StoreScalar64(dst, result);
      if Sets64(op) { Line(SetScc(LCmp(Ne, result, LLit(0)))); }
    }

    // ---- every instruction ----

    method Lanes(i: Instruction)
      requires Valid() && code == [] && Accepted(i)
        && (i.VReadfirstlane? || i.VReadlane? || i.VWritelane? || i.VCndmask?)
      modifies `body, `code, `nextTemp
      ensures Valid() && code == Emit(i, old(nextTemp))
    {
      hide Raw, MetalEmission.StoreScalar, MetalEmission.StoreVector, MaskBitExpr, Five;
      match i
      case VCndmask(dst, src, control) =>
        StoreVector(dst, Cond(MaskBitExpr(src), Raw(1, src, control), Raw(0, src, control)), true);
      case VReadfirstlane(dst, src) =>
        var mask := Temp(Ballot(Exec));
        var first := Temp(Cond(Cmp(Eq, mask, Lit(0)), Lit(0), CtzOf(mask)));
        var value := Temp(Shuffle(Raw(0, src, Plain), first));
        StoreScalar(dst, value);
      case VReadlane(dst, src) =>
        var lane := Temp(Five(Raw(1, src, Plain)));
        var value := Temp(Shuffle(Raw(0, src, Plain), lane));
        StoreScalar(dst, value);
      case VWritelane(dst, src) =>
        StoreVector(dst, Cond(Cmp(Eq, LaneId, Five(Raw(1, src, Plain))), Raw(0, src, Plain), V(dst)), false);
    }

    method Conditions(i: Instruction)
      requires Valid() && code == [] && Accepted(i) && (i.ScalarCompare? || i.ScalarCompareK? || i.ScalarBitcmp?)
      modifies `body, `code, `nextTemp
      ensures Valid() && code == Emit(i, old(nextTemp))
    {
      hide Raw, CompareExpr, Five, SignExtend16;
      match i
      case ScalarCompare(rel, signed, src) =>
        var x, y := Sources(src);
        Line(SetScc(CompareExpr(rel, signed, x, y)));
      case ScalarCompareK(rel, signed, dst, simm) =>
        Line(SetScc(CompareExpr(rel, signed, ScalarExpr(dst), Lit(SignExtend16(simm)))));
      case ScalarBitcmp(set1, src) =>
        var x, y := Sources(src);
        var isSet := Cmp(Ne, And(ShiftR(x, Five(y)), Lit(1)), Lit(0));
        Line(SetScc(if set1 then isSet else BNot(isSet)));
    }

    method Vector(op: VOp, dst: nat, src: seq<Operand>, control: Control)
      requires Valid() && code == [] && Accepted(VectorOp(op, dst, src, control))
      modifies `body, `code, `nextTemp
      ensures Valid() && code == Emit(VectorOp(op, dst, src, control), old(nextTemp))
    {
      hide RawOrZero, VectorExpr, MetalEmission.StoreResult;
      StoreResult(control, dst,
                  VectorExpr(op, RawOrZero(0, src, control), RawOrZero(1, src, control), RawOrZero(2, src, control)));
    }

    method EmitInstruction(i: Instruction)
      requires Valid() && code == [] && Accepted(i)
      modifies `body, `code, `nextTemp
      ensures Valid() && code == Emit(i, old(nextTemp))
    {
      hide EmitCarry, EmitMadU64, EmitCompare, EmitScalar, EmitUnary, EmitK, EmitSaveexec, EmitSaveexec64, EmitScalar64;
      hide Raw, CompareExpr, MetalEmission.StoreResult;
      match i
      case VectorOp(op, dst, src, control) => Vector(op, dst, src, control);
      case CarryOp(op, dst, src, control) => Carry(op, dst, src, control);
      case VMadU64(dst, src, control) => MadU64(dst, src, control);
      case VCompare(rel, signed, toExec, src, control) =>
        Comparison(CompareExpr(rel, signed, Raw(0, src, control), Raw(1, src, control)), toExec, control);
      case VCompareConst(value, toExec, control) => Comparison(if value then True else False, toExec, control);
      case ScalarOp(op, dst, src) => Scalar(op, dst, src);
      case ScalarUnary(op, dst, src) => Unary(op, dst, src);
      case ScalarK(op, dst, simm) => Immediate(op, dst, simm);
      case Saveexec(logic, dst, src) => SaveExec(logic, dst, src);
      case Scalar64(op, dst, src) => Scalar64(op, dst, src);
      case Saveexec64(logic, dst, src) => SaveExec64(logic, dst, src);
      case ScalarCompare(_, _, _) => Conditions(i);
      case ScalarCompareK(_, _, _, _) => Conditions(i);
      case ScalarBitcmp(_, _) => Conditions(i);
      case VReadfirstlane(_, _) => Lanes(i);
      case VReadlane(_, _) => Lanes(i);
      case VWritelane(_, _) => Lanes(i);
      case VCndmask(_, _, _) => Lanes(i);
    }

    /** An accepted instruction appends its code, with temporaries numbered on; any other appends nothing. */
    method TryEmit(i: Instruction) returns (ok: bool)
      modifies this
      ensures ok == Accepted(i)
      ensures body == if ok then old(body) + Emit(i, old(nextTemp)) else old(body)
      ensures nextTemp == if ok then old(nextTemp) + TempCount(Emit(i, old(nextTemp))) else old(nextTemp)
    {
      hide Accepted, Emit;
      ok := Accepted(i);
      if ok {
        Begin();
        EmitInstruction(i);
      }
    }

    /** A straight-line program, up to the first instruction that is not accepted. */
    method TryEmitAll(program: seq<Instruction>) returns (ok: bool)
      modifies this
      ensures ok <==> forall k :: 0 <= k < |program| ==> Accepted(program[k])
      ensures ok ==> body == old(body) + EmitAll(program, old(nextTemp))
    {
      hide Accepted, Emit, TempCount;
      assert program[0..] == program;
      for k := 0 to |program|
        invariant forall j :: 0 <= j < k ==> Accepted(program[j])
        invariant AllAccepted(program, k) ==>
          AllAccepted(program, 0)
            && body + EmitAll(program[k..], nextTemp) == old(body) + EmitAll(program, old(nextTemp))
      {
        ghost var temp := nextTemp;
        var one := TryEmit(program[k]);
        if !one { return false; }
        if AllAccepted(program, k + 1) { EmitAllNext(program, k, temp); }
      }
      ok := true;
    }
  }

  predicate AllAccepted(program: seq<Instruction>, k: nat) {
    k <= |program| && forall j :: 0 <= j < |program[k..]| ==> Accepted(program[k..][j])
  }

  lemma EmitAllNext(program: seq<Instruction>, k: nat, temp: nat)
    requires k < |program| && Accepted(program[k]) && AllAccepted(program, k + 1)
    ensures AllAccepted(program, k)
    ensures var code := Emit(program[k], temp);
      EmitAll(program[k..], temp) == code + EmitAll(program[k + 1..], temp + TempCount(code))
  {
    hide Accepted, Emit, TempCount;
    assert program[k..][1..] == program[k + 1..];
    forall j | 0 <= j < |program[k..]| ensures Accepted(program[k..][j]) {
      if j > 0 { assert program[k..][j] == program[k + 1..][j - 1]; }
    }
  }
}
