/** How a wave of emitted lanes represents a reference wave, and what each kind of emitted statement
    does to that representation. */
module MetalRelation {
  import opened Bits
  import opened Gen5Isa
  import opened MetalEmission
  import opened MetalMeaning
  import opened MetalTarget
  import opened Words

  /** A lane holds the shared scalar file and condition bit, its own vectors, and in the cached
      flags its bits of VCC and EXEC. */
  ghost predicate LaneMatches(l: Lane, w: Wave, i: nat)
    requires WellFormed(w) && i < LANES
  {
    && l.s == w.s && l.v == w.v[i] && l.scc == w.scc
    && (l.vcc <==> Bit(w.s[VCC], i)) && (l.exec <==> ExecAt(w, i))
  }

  ghost predicate Relates(m: Machine, w: Wave) {
    && WellFormed(w) && |m.lanes| == LANES
    && forall i :: 0 <= i < LANES ==> LaneMatches(m.lanes[i], w, i)
  }

  /** Temporaries numbered below k read the same. */
  ghost predicate TempsKept(m: Machine, m': Machine, k: nat) {
    && |m'.lanes| == |m.lanes| && m'.junk == m.junk
    && forall i: nat, j: nat :: i < |m.lanes| && j < k ==> TempKept(m, m', i, j)
  }

  predicate TempKept(m: Machine, m': Machine, i: nat, j: nat)
    requires i < |m.lanes| && i < |m'.lanes|
  {
    && EvalU(T(j), m', i) == EvalU(T(j), m, i) && EvalL(LT(j), m', i) == EvalL(LT(j), m, i)
    && EvalB(BT(j), m', i) == EvalB(BT(j), m, i)
  }

  // ---- temporaries ----

  lemma LetU(k: nat, e: UExpr, m: Machine, w: Wave)
    requires Relates(m, w)
    ensures var m' := Step(Let(k, e), m);
      Relates(m', w) && TempsKept(m, m', k) && forall i: nat :: i < LANES ==> EvalU(T(k), m', i) == EvalU(e, m, i)
  {
    hide EvalU, EvalL, EvalB, EvalI, Bit, Wrap32;
    var m' := Step(Let(k, e), m);
    forall i: nat | i < LANES
      ensures LaneMatches(m'.lanes[i], w, i) && m'.lanes[i] == m.lanes[i].(u := m.lanes[i].u[k := EvalU(e, m, i)]) {
      assert LaneMatches(m.lanes[i], w, i);
    }
    forall i: nat, j: nat | i < LANES && j <= k ensures j < k ==> TempKept(m, m', i, j) {
      EvTemps(j, m, i);
      EvTemps(j, m', i);
    }
    forall i: nat | i < LANES ensures EvalU(T(k), m', i) == EvalU(e, m, i) {
      assert m'.lanes[i] == m.lanes[i].(u := m.lanes[i].u[k := EvalU(e, m, i)]);
      EvTemps(k, m', i);
    }
  }

  lemma LetWide(k: nat, e: LExpr, m: Machine, w: Wave)
    requires Relates(m, w)
    ensures var m' := Step(LetL(k, e), m);
      Relates(m', w) && TempsKept(m, m', k) && forall i: nat :: i < LANES ==> EvalL(LT(k), m', i) == EvalL(e, m, i)
  {
    hide EvalU, EvalL, EvalB, EvalI, Bit, Wrap32;
    var m' := Step(LetL(k, e), m);
    forall i: nat | i < LANES
      ensures LaneMatches(m'.lanes[i], w, i) && m'.lanes[i] == m.lanes[i].(l := m.lanes[i].l[k := EvalL(e, m, i)]) {
      assert LaneMatches(m.lanes[i], w, i);
    }
    forall i: nat, j: nat | i < LANES && j <= k ensures j < k ==> TempKept(m, m', i, j) {
      EvTemps(j, m, i);
      EvTemps(j, m', i);
    }
    forall i: nat | i < LANES ensures EvalL(LT(k), m', i) == EvalL(e, m, i) {
      assert m'.lanes[i] == m.lanes[i].(l := m.lanes[i].l[k := EvalL(e, m, i)]);
      EvTemps(k, m', i);
    }
  }

  lemma LetBool(k: nat, c: BExpr, m: Machine, w: Wave)
    requires Relates(m, w)
    ensures var m' := Step(LetB(k, c), m);
      Relates(m', w) && TempsKept(m, m', k) && forall i: nat :: i < LANES ==> (EvalB(BT(k), m', i) <==> EvalB(c, m, i))
  {
    hide EvalU, EvalL, EvalB, EvalI, Bit, Wrap32;
    var m' := Step(LetB(k, c), m);
    forall i: nat | i < LANES
      ensures LaneMatches(m'.lanes[i], w, i) && m'.lanes[i] == m.lanes[i].(b := m.lanes[i].b[k := EvalB(c, m, i)]) {
      assert LaneMatches(m.lanes[i], w, i);
    }
    forall i: nat, j: nat | i < LANES && j <= k ensures j < k ==> TempKept(m, m', i, j) {
      EvTemps(j, m, i);
      EvTemps(j, m', i);
    }
    forall i: nat | i < LANES ensures EvalB(BT(k), m', i) <==> EvalB(c, m, i) {
      assert m'.lanes[i] == m.lanes[i].(b := m.lanes[i].b[k := EvalB(c, m, i)]);
      EvTemps(k, m', i);
    }
  }

  lemma KeptTwice(m: Machine, m1: Machine, m2: Machine, k: nat, k': nat)
    requires TempsKept(m, m1, k) && TempsKept(m1, m2, k') && k <= k'
    ensures TempsKept(m, m2, k)
  {
    forall i: nat, j: nat | i < |m.lanes| && j < k ensures TempKept(m, m2, i, j) {
      assert TempKept(m, m1, i, j) && TempKept(m1, m2, i, j);
    }
  }

  // ---- running short sequences ----

  lemma RunCons(st: Stmt, rest: seq<Stmt>, m: Machine)
    ensures Run([st] + rest, m) == Run(rest, Step(st, m))
  {
    assert ([st] + rest)[1..] == rest;
  }

  lemma RunTwo(a: Stmt, b: Stmt, m: Machine)
    ensures Run([a, b], m) == Step(b, Step(a, m))
  {
    assert [a, b] == [a] + [b];
    RunAppend([a], [b], m);
    RunOne(a, m);
    RunOne(b, Step(a, m));
  }

  lemma RunThree(a: Stmt, b: Stmt, c: Stmt, m: Machine)
    ensures Run([a, b, c], m) == Step(c, Step(b, Step(a, m)))
  {
    assert [a, b, c] == [a, b] + [c];
    RunAppend([a, b], [c], m);
    RunTwo(a, b, m);
    RunOne(c, Step(b, Step(a, m)));
  }

  // ---- operands ----

  lemma LaneBitMeaning(e: UExpr, m: Machine, i: nat)
    requires i < |m.lanes| && i < 32
    ensures EvalB(LaneBitExpr(e), m, i) <==> Bit(EvalU(e, m, i), i)
  {
    hide EvalU, EvalI, EvalL, EvalB, Wrap32, BitAnd, Shr;
    var masked := And(ShiftR(e, LaneId), Lit(1));
    assert EvalB(LaneBitExpr(e), m, i) <==> EvalU(masked, m, i) != 0 by {
      hide And, ShiftR;
      NonZeroMeaning(masked, m, i);
    }
    LaneBitUnfolds(e, m, i);
    LowBit(Shr(EvalU(e, m, i), i));
    BitOfShr(EvalU(e, m, i), i, 0);
  }

  lemma NonZeroMeaning(r: UExpr, m: Machine, i: nat)
    requires i < |m.lanes|
    ensures EvalB(NonZero(r), m, i) <==> EvalU(r, m, i) != 0
  {
    hide EvalU, EvalI, EvalL, EvalB, Wrap32;
    EvB(m, i);
    EvU(m, i);
  }

  lemma LaneBitUnfolds(e: UExpr, m: Machine, i: nat)
    requires i < |m.lanes| && i < 32
    ensures EvalU(And(ShiftR(e, LaneId), Lit(1)), m, i) == BitAnd(Shr(EvalU(e, m, i), i), 1)
  {
    hide EvalU, EvalI, EvalL, EvalB, Wrap32, Low32, BitAnd, Shl, Shr, Or32, Xor32, Times, HighWord;
    LaneMeaning(m, i);
    EvU(m, i);
  }

  lemma LowBit(x: nat)
    ensures BitAnd(x, 1) == x % 2
  {
    assert Pow2(1) == 2;
    MaskIsRemainder(x, 1);
  }

  lemma FlagMeaning(c: BExpr, m: Machine, i: nat)
    requires i < |m.lanes|
    ensures EvalU(FlagExpr(c), m, i) == Flag(EvalB(c, m, i))
  {
    hide EvalU, EvalI, EvalL, EvalB, Wrap32;
    EvU(m, i);
  }

  lemma PairZeroMeaning(x: UExpr, y: UExpr, m: Machine, i: nat)
    requires i < |m.lanes|
    ensures EvalB(Cmp(Eq, Or(x, y), Lit(0)), m, i) <==> EvalU(x, m, i) == 0 && EvalU(y, m, i) == 0
  {
    hide EvalU, EvalI, EvalL, EvalB, Wrap32, Low32, Shl, Shr, Xor32, Times, HighWord;
    EvU(m, i);
    EvB(m, i);
  }

  lemma SourceMeaning(o: Operand, m: Machine, w: Wave, i: nat)
    requires Relates(m, w) && i < LANES && OperandOk(o)
    ensures EvalU(SourceExpr(o), m, i) == ReadOperand(o, w, i)
  {
    assert LaneMatches(m.lanes[i], w, i);
    if o.PairZero? {
      FlagMeaning(Cmp(Eq, Or(S(o.r), S(o.r + 1)), Lit(0)), m, i);
      PairZeroMeaning(S(o.r), S(o.r + 1), m, i);
    } else if o == Encoded(253) {
      FlagMeaning(Scc, m, i);
    }
  }

  lemma RawMeaning(j: nat, src: seq<Operand>, control: Control, m: Machine, w: Wave, i: nat)
    requires Relates(m, w) && i < LANES && j < |src| && OperandOk(src[j]) && ControlOk(control)
    ensures EvalU(Raw(j, src, control), m, i) == SourceOrZero(j, src, control, w, i)
  {
    hide EvalU, EvalI, EvalL, EvalB, Wrap32, SourceExpr, SdwaExpr, SdwaValue, ReadOperand;
    SourceMeaning(src[j], m, w, i);
    if control.SdwaControl? {
      var d, x := control.sdwa, SourceExpr(src[j]);
      SdwaMeaning(x, d.select0, d.extend0, d.absolute0, d.negate0, m, i);
      SdwaMeaning(x, d.select1, d.extend1, d.absolute1, d.negate1, m, i);
    }
  }

  lemma RawOrZeroMeaning(j: nat, src: seq<Operand>, control: Control, m: Machine, w: Wave, i: nat)
    requires Relates(m, w) && i < LANES && ControlOk(control) && SourcesOk(src, 0)
    ensures EvalU(RawOrZero(j, src, control), m, i) == SourceOrZero(j, src, control, w, i)
  {
    hide EvalI, EvalL, EvalB, Wrap32, Raw;
    if j < |src| { RawMeaning(j, src, control, m, w, i); }
  }

  /** An operand that is no vector register reads the same in every lane. */
  lemma UniformMeaning(j: nat, src: seq<Operand>, m: Machine, w: Wave, i: nat)
    requires Relates(m, w) && i < LANES && j < |src| && OperandOk(src[j]) && !src[j].Vector?
    ensures EvalU(Raw(j, src, Plain), m, i) == Uniform(j, src, w)
  {
    hide EvalU, EvalI, EvalL, EvalB, Wrap32, Raw;
    RawMeaning(j, src, Plain, m, w, i);
  }

  lemma MaskBitMeaning(src: seq<Operand>, m: Machine, w: Wave, i: nat)
    requires Relates(m, w) && i < LANES && MaskSourceOk(src)
    ensures EvalB(MaskBitExpr(src), m, i) <==> MaskBit(src, w, i)
  {
    hide LaneBitExpr, EvalI, EvalL;
    assert LaneMatches(m.lanes[i], w, i);
    if |src| > 2 && src[2].r != VCC && src[2].r != EXEC {
      LaneBitMeaning(S(src[2].r), m, i);
    }
  }

  // ---- stores ----

  lemma StoreVectorRelates(r: nat, e: UExpr, m: Machine, w: Wave, f: nat -> U32)
    requires Relates(m, w) && forall i: nat :: i < LANES ==> EvalU(e, m, i) == f(i)
    ensures var m' := Run(StoreVector(r, e, true), m);
      Relates(m', WriteLanes(w, r, f)) && forall k: nat {:trigger TempsKept(m, m', k)} :: TempsKept(m, m', k)
  {
    var w' := WriteLanes(w, r, f);
    if r < VECTORS {
      RunOne(SetV(r, e, true), m);
      var m' := Step(SetV(r, e, true), m);
      forall i: nat | i < LANES ensures LaneMatches(m'.lanes[i], w', i) {
        assert LaneMatches(m.lanes[i], w, i) && w'.v[i] == LaneAfter(w, r, f, i);
      }
    } else {
      forall i: nat | i < LANES ensures LaneMatches(m.lanes[i], w', i) {
        assert LaneMatches(m.lanes[i], w, i) && w'.v[i] == LaneAfter(w, r, f, i);
      }
    }
  }

  lemma SetSccRelates(c: BExpr, m: Machine, w: Wave, scc: bool)
    requires Relates(m, w) && forall i: nat :: i < LANES ==> (EvalB(c, m, i) <==> scc)
    ensures Relates(Run([SetScc(c)], m), w.(scc := scc))
  {
    RunOne(SetScc(c), m);
    var m' := Step(SetScc(c), m);
    forall i: nat | i < LANES ensures LaneMatches(m'.lanes[i], w.(scc := scc), i) {
      assert LaneMatches(m.lanes[i], w, i);
    }
  }

  /** The lane with one scalar register replaced. */
  lemma SetSStep(r: nat, e: UExpr, m: Machine, i: nat, s: seq<U32>)
    requires i < |m.lanes| && m.lanes[i].s == s && r < |s|
    ensures Step(SetS(r, e), m).lanes[i] == m.lanes[i].(s := s[r := EvalU(e, m, i)])
  {
  }

  /** A plain register, or a mask register together with its cached lane flags. */
  lemma StoreScalarRelates(r: nat, e: UExpr, k: nat, m: Machine, w: Wave, x: U32)
    requires Relates(m, w) && forall i: nat :: i < LANES ==> EvalU(e, m, i) == x
    ensures var m' := Run(StoreScalar(r, e, k), m);
      Relates(m', w.(s := WriteScalar(w.s, r, x))) && TempsKept(m, m', k)
  {
    hide Bit, EvalU, EvalI, EvalL, EvalB, Wrap32;
    if r == VCC || r == EXEC {
      StoreMaskRegister(r, e, k, m, w, x);
    } else if r < SCALARS {
      StorePlainRegister(r, e, m, w, x);
      SameTempsKept(m, Run(StoreScalar(r, e, k), m), k);
    }
  }

  lemma StorePlainRegister(r: nat, e: UExpr, m: Machine, w: Wave, x: U32)
    requires Relates(m, w) && r < SCALARS && r != VCC && r != EXEC
    requires forall i: nat :: i < LANES ==> EvalU(e, m, i) == x
    ensures var m' := Run([SetS(r, e)], m);
      Relates(m', w.(s := w.s[r := x])) && forall i: nat :: i < LANES ==> SameTemps(m.lanes[i], m'.lanes[i])
  {
    hide Bit, EvalU, EvalI, EvalL, EvalB, Wrap32;
    RunOne(SetS(r, e), m);
    var m' := Step(SetS(r, e), m);
    forall i: nat | i < LANES
      ensures LaneMatches(m'.lanes[i], w.(s := w.s[r := x]), i) && SameTemps(m.lanes[i], m'.lanes[i])
    {
      assert LaneMatches(m.lanes[i], w, i);
      SetSStep(r, e, m, i, w.s);
    }
  }

  lemma StoreMaskRegister(r: nat, e: UExpr, k: nat, m: Machine, w: Wave, x: U32)
    requires Relates(m, w) && (r == VCC || r == EXEC) && forall i: nat :: i < LANES ==> EvalU(e, m, i) == x
    ensures var m' := Run(StoreScalar(r, e, k), m);
      Relates(m', w.(s := w.s[r := x])) && TempsKept(m, m', k)
  {
    hide Bit, EvalU, EvalI, EvalL, EvalB, Wrap32, LaneBitExpr;
    var flag := if r == VCC then SetVcc(LaneBitExpr(T(k))) else SetExec(LaneBitExpr(T(k)));
    var m1 := Step(Let(k, e), m);
    var m2 := Step(SetS(r, T(k)), m1);
    var m3 := Step(flag, m2);
    RunThree(Let(k, e), SetS(r, T(k)), flag, m);
    LetU(k, e, m, w);
    var w' := w.(s := w.s[r := x]);
    forall i: nat | i < LANES ensures LaneMatches(m3.lanes[i], w', i) && SameTemps(m1.lanes[i], m3.lanes[i]) {
      assert LaneMatches(m1.lanes[i], w, i);
      SetSStep(r, T(k), m1, i, w.s);
      LaneBitMeaning(T(k), m2, i);
      EvTemps(k, m1, i);
      EvTemps(k, m2, i);
    }
    SameTempsKept(m1, m3, k);
    KeptTwice(m, m1, m3, k, k);
  }

  // ---- lane masks ----

  /** What the emitted store of a lane mask leaves: the mask, and zero in the register above. */
  function EmittedMask(s: seq<U32>, r: nat, mask: U32): (t: seq<U32>)
    ensures |t| == |s|
  {
    if r < |s| then WriteScalar(s[r := mask], r + 1, 0) else s
  }

  /** Zeroing the register above does not put a mask register out of step with its cached flags. */
  predicate FlagsSpared(s: seq<U32>, r: nat)
    requires |s| == SCALARS
  {
    r + 1 == VCC || r + 1 == EXEC ==> s[r + 1] == 0
  }

  lemma BallotMeaning(c: BExpr, m: Machine, i: nat, mask: U32)
    requires |m.lanes| == LANES && i < LANES && forall j: nat :: Bit(mask, j) <==> j < LANES && EvalB(c, m, j)
    ensures EvalU(Ballot(c), m, i) == mask
  {
    hide Bit, EvalU, EvalI, EvalL, EvalB, Wrap32;
    EvBallot(c, m, i);
    forall j: nat | j < 32 ensures Bit(EvalU(Ballot(c), m, i), j) <==> Bit(mask, j) {
    }
    SameBits(EvalU(Ballot(c), m, i), mask);
  }

  /** The flag the store of a mask register sets first; other registers set none. */
  lemma BallotStoreRelates(r: nat, c: BExpr, m: Machine, w: Wave, mask: U32)
    requires WellFormed(w) && |m.lanes| == LANES && r < SCALARS && FlagsSpared(w.s, r)
    requires forall j: nat :: Bit(mask, j) <==> j < LANES && EvalB(c, m, j)
    requires forall i: nat :: i < LANES ==> MaskReady(m.lanes[i], w, i, r, mask)
    ensures var m' := Run(BallotStore(r, c), m);
      && Relates(m', w.(s := EmittedMask(w.s, r, mask)))
      && forall i: nat :: i < LANES ==> SameTemps(m.lanes[i], m'.lanes[i])
  {
    hide Bit, EvalU, EvalI, EvalL, EvalB, Wrap32;
    var w' := w.(s := EmittedMask(w.s, r, mask));
    var m1 := Step(SetS(r, Ballot(c)), m);
    forall i: nat | i < LANES
      ensures m1.lanes[i] == m.lanes[i].(s := w.s[r := mask]) && MaskReady(m.lanes[i], w, i, r, mask)
    {
      BallotMeaning(c, m, i, mask);
      SetSStep(r, Ballot(c), m, i, w.s);
    }
    if r + 1 < SCALARS {
      RunTwo(SetS(r, Ballot(c)), SetS(r + 1, Lit(0)), m);
      assert BallotStore(r, c) == [SetS(r, Ballot(c)), SetS(r + 1, Lit(0))];
      var m2 := Step(SetS(r + 1, Lit(0)), m1);
      forall i: nat | i < LANES ensures LaneMatches(m2.lanes[i], w', i) && SameTemps(m.lanes[i], m2.lanes[i]) {
        SetSStep(r + 1, Lit(0), m1, i, w.s[r := mask]);
        EvLit(0, m1, i);
        assert MaskReady(m.lanes[i], w, i, r, mask);
      }
    } else {
      RunOne(SetS(r, Ballot(c)), m);
      assert BallotStore(r, c) == [SetS(r, Ballot(c))];
      forall i: nat | i < LANES ensures LaneMatches(m1.lanes[i], w', i) && SameTemps(m.lanes[i], m1.lanes[i]) {
        assert MaskReady(m.lanes[i], w, i, r, mask);
      }
    }
  }

  predicate SameTemps(a: Lane, b: Lane) {
    a.u == b.u && a.l == b.l && a.b == b.b
  }

  /** A lane that matches but for the flag of the mask register about to be written, already new. */
  ghost predicate MaskReady(l: Lane, w: Wave, i: nat, r: nat, mask: U32)
    requires WellFormed(w) && i < LANES
  {
    && l.s == w.s && l.v == w.v[i] && l.scc == w.scc
    && (l.vcc <==> if r == VCC then Bit(mask, i) else Bit(w.s[VCC], i))
    && (l.exec <==> if r == EXEC then Bit(mask, i) else ExecAt(w, i))
  }

  lemma SameTempsKept(m: Machine, m': Machine, k: nat)
    requires |m'.lanes| == |m.lanes| && m'.junk == m.junk
    requires forall i: nat :: i < |m.lanes| ==> SameTemps(m.lanes[i], m'.lanes[i])
    ensures TempsKept(m, m', k)
  {
    hide EvalU, EvalL, EvalB, EvalI, Wrap32;
    forall i: nat, j: nat | i < |m.lanes| && j < k ensures TempKept(m, m', i, j) {
      assert SameTemps(m.lanes[i], m'.lanes[i]);
      EvTemps(j, m, i);
      EvTemps(j, m', i);
    }
  }

  lemma StoreMaskRelates(r: nat, k: nat, m: Machine, w: Wave, mask: U32)
    requires Relates(m, w) && FlagsSpared(w.s, r)
    requires forall j: nat :: Bit(mask, j) <==> j < LANES && EvalB(BT(k), m, j)
    ensures var m' := Run(StoreMask(r, BT(k)), m);
      && Relates(m', w.(s := EmittedMask(w.s, r, mask)))
      && forall i: nat :: i < LANES ==> SameTemps(m.lanes[i], m'.lanes[i])
  {
    hide Bit;
    if r == VCC || r == EXEC {
      var flag := if r == VCC then SetVcc(BT(k)) else SetExec(BT(k));
      var cached := if r == VCC then Vcc else Exec;
      var m1 := Step(flag, m);
      forall i: nat | i < LANES
        ensures MaskReady(m1.lanes[i], w, i, r, mask) && SameTemps(m.lanes[i], m1.lanes[i])
        ensures EvalB(cached, m1, i) <==> EvalB(BT(k), m, i)
      {
        assert LaneMatches(m.lanes[i], w, i);
      }
      RunAppend([flag], BallotStore(r, cached), m);
      RunOne(flag, m);
      BallotStoreRelates(r, cached, m1, w, mask);
    } else if r < SCALARS {
      forall i: nat | i < LANES ensures MaskReady(m.lanes[i], w, i, r, mask) {
        assert LaneMatches(m.lanes[i], w, i);
      }
      BallotStoreRelates(r, BT(k), m, w, mask);
    }
  }
}
