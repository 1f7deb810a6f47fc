/** Results of several instructions together: additions and subtractions of many limbs carried from one
    instruction to the next, and the lane prefix count that takes two. */
module MetalChains {
  import opened Bits
  import opened Gen5Isa
  import opened MetalEmission
  import opened MetalEmitted
  import opened MetalFlaws
  import opened MetalMeaning
  import opened MetalReadings
  import opened MetalRelation
  import opened MetalScalarMeaning
  import opened MetalTarget
  import opened MetalTranslation
  import opened Words

  // ---- numbers of many limbs ----

  function Base(n: nat): (r: nat)
    ensures r > 0
  {
    if n == 0 then 1 else TWO32 * Base(n - 1)
  }

  predicate InFile(rs: seq<nat>, file: seq<U32>) {
    forall k :: 0 <= k < |rs| ==> rs[k] < |file|
  }

  /** The number registers hold, the lowest limb first. */
  function Limbs(rs: seq<nat>, file: seq<U32>): (r: nat)
    requires InFile(rs, file)
    ensures r < Base(|rs|)
  {
    if rs == [] then 0
    else
      assert forall k :: 0 <= k < |rs[1..]| ==> rs[1..][k] == rs[k + 1];
      file[rs[0]] + TWO32 * Limbs(rs[1..], file)
  }

  /** The number operands denote in a lane. */
  function Value(os: seq<Operand>, w: Wave, i: nat): nat
    requires WellFormed(w) && i < LANES
  {
    if os == [] then 0 else ReadOperand(os[0], w, i) + TWO32 * Value(os[1..], w, i)
  }

  lemma {:induction false} LimbsKept(rs: seq<nat>, file: seq<U32>, file': seq<U32>)
    requires InFile(rs, file) && InFile(rs, file') && forall k :: 0 <= k < |rs| ==> file[rs[k]] == file'[rs[k]]
    ensures Limbs(rs, file) == Limbs(rs, file')
  {
    if rs != [] {
      assert forall k :: 0 <= k < |rs[1..]| ==> rs[1..][k] == rs[k + 1];
      LimbsKept(rs[1..], file, file');
    }
  }

  lemma {:induction false} ValueKept(os: seq<Operand>, w: Wave, w': Wave, i: nat)
    requires WellFormed(w) && WellFormed(w') && i < LANES
    requires forall k :: 0 <= k < |os| ==> ReadOperand(os[k], w, i) == ReadOperand(os[k], w', i)
    ensures Value(os, w, i) == Value(os, w', i)
  {
    hide ReadOperand;
    if os != [] {
      assert forall k :: 0 <= k < |os[1..]| ==> os[1..][k] == os[k + 1];
      ValueKept(os[1..], w, w', i);
    }
  }

  datatype Chained = Sum | Difference | Reversed

  /** a + b + carryIn, a - b - carryIn or b - a - carryIn. */
  function Total(c: Chained, a: nat, b: nat, carryIn: bool): int {
    match c
    case Sum => a + b + Low(carryIn)
    case Difference => a - b - Low(carryIn)
    case Reversed => b - a - Low(carryIn)
  }

  /** What n limbs holding d say together with the carry or borrow that left them. */
  function Net(c: Chained, d: nat, n: nat, carryOut: bool): int {
    if !carryOut then d else if c.Sum? then d + Base(n) else d - Base(n)
  }

  /** One more limb below. */
  lemma TotalStep(c: Chained, x: U32, y: U32, a: nat, b: nat, c0: bool, r: U32, c1: bool, d: nat, n: nat, c2: bool,
                  a': nat, b': nat, d': nat, n': nat)
    requires Total(c, x, y, c0) == Net(c, r, 1, c1) && Total(c, a, b, c1) == Net(c, d, n, c2)
    requires a' == x + TWO32 * a && b' == y + TWO32 * b && d' == r + TWO32 * d && n' == n + 1
    ensures Total(c, a', b', c0) == Net(c, d', n', c2)
  {
    assert Base(1) == TWO32 && Base(n + 1) == TWO32 * Base(n);
  }

  // ---- vector chains ----

  function Opening(c: Chained): COp {
    match c case Sum => VAddCo case Difference => VSubCo case Reversed => VSubrevCo
  }

  function Linking(c: Chained): COp {
    match c case Sum => VAddc case Difference => VSubb case Reversed => VSubbrev
  }

  /** The carry goes through VCC, or through the scalar register a three-operand encoding names. */
  function Carried(op: COp, d: nat, x: Operand, y: Operand, through: Option<nat>): Instruction {
    match through
    case None => CarryOp(op, d, [x, y], Plain)
    case Some(q) => CarryOp(op, d, [x, y, Scalar(q)], Vop3(Some(q)))
  }

  function Through(through: Option<nat>): nat {
    match through case None => VCC case Some(q) => q
  }

  function Links(op: COp, dst: seq<nat>, left: seq<Operand>, right: seq<Operand>,
      through: Option<nat>): seq<Instruction>
    requires |dst| == |left| == |right|
  {
    if dst == [] then []
    else [Carried(op, dst[0], left[0], right[0], through)] + Links(op, dst[1..], left[1..], right[1..], through)
  }

  /** The lowest limb starts the carry; every other limb passes it on. */
  function Chain(c: Chained, dst: seq<nat>, left: seq<Operand>, right: seq<Operand>,
      through: Option<nat>): seq<Instruction>
    requires |dst| == |left| == |right| > 0
  {
    [Carried(Opening(c), dst[0], left[0], right[0], through)]
    + Links(Linking(c), dst[1..], left[1..], right[1..], through)
  }

  /** Writing vector register d and the carry register leaves the operand alone. */
  predicate Kept(o: Operand, d: nat, q: nat) {
    match o
    case Vector(r) => r != d
    case Scalar(r) => r != q
    case Literal(_) | ZeroExtended(_) => true
    case Encoded(code) => code != 251 && code != 252
    case PairZero(_) => false
  }

  /** No limb's result overwrites a later limb's operands or an earlier limb's result. */
  predicate Independent(dst: seq<nat>, left: seq<Operand>, right: seq<Operand>, q: nat)
    requires |dst| == |left| == |right|
    decreases |dst|
  {
    dst == [] ||
    (&& dst[0] < VECTORS && dst[0] !in dst[1..]
     && (forall k :: 1 <= k < |dst| ==> Kept(left[k], dst[0], q) && Kept(right[k], dst[0], q))
     && Independent(dst[1..], left[1..], right[1..], q))
  }

  lemma {:induction false} IndependentInFile(dst: seq<nat>, left: seq<Operand>, right: seq<Operand>, q: nat,
      file: seq<U32>)
    requires |dst| == |left| == |right| && Independent(dst, left, right, q) && |file| == VECTORS
    ensures InFile(dst, file)
    decreases |dst|
  {
    hide Kept;
    if dst != [] {
      IndependentInFile(dst[1..], left[1..], right[1..], q, file);
      forall k | 0 <= k < |dst| ensures dst[k] < |file| {
        if k > 0 { assert dst[k] == dst[1..][k - 1]; }
      }
    }
  }

  /** What one link changes, in a lane it is executed for. */
  predicate Linked(w: Wave, w': Wave, i: nat, d: nat, x: U32, q: nat, carry: bool)
    requires WellFormed(w) && WellFormed(w') && i < LANES && d < VECTORS && q < SCALARS
  {
    && w'.v[i] == w.v[i][d := x] && w'.s == w.s[q := w'.s[q]] && w'.scc == w.scc && (Bit(w'.s[q], i) <==> carry)
  }

  lemma LinkStep(op: COp, d: nat, x: Operand, y: Operand, through: Option<nat>, w: Wave, i: nat)
    requires WellFormed(w) && i < LANES && d < VECTORS && ExecAt(w, i) && Through(through) < SCALARS
    ensures var q := Through(through);
      var r := CarryValue(op, ReadOperand(x, w, i), ReadOperand(y, w, i), Bit(w.s[q], i));
      Linked(w, Execute(Carried(op, d, x, y, through), w), i, d, r.0, q, r.1)
  {
    hide Bit, CarryValue, ReadOperand, CarryMask;
    var step := Carried(op, d, x, y, through);
    var w1 := WriteLanes(w, d, CarryLanes(op, d, step.src, step.control, w));
    assert w1.v[i] == LaneAfter(w, d, CarryLanes(op, d, step.src, step.control, w), i);
  }

  lemma CarryTotals(c: Chained, x: U32, y: U32, carryIn: bool)
    ensures var r := CarryValue(Linking(c), x, y, carryIn); Total(c, x, y, carryIn) == Net(c, r.0, 1, r.1)
    ensures var r := CarryValue(Opening(c), x, y, carryIn); Total(c, x, y, false) == Net(c, r.0, 1, r.1)
  {
    hide Wrap32;
    assert Base(1) == TWO32;
    SumWraps(x + y);
    SumWraps(x + y + 1);
    DifferenceWraps(x - y);
    DifferenceWraps(y - x);
    DifferenceWraps(x - y - 1);
    DifferenceWraps(y - x - 1);
  }

  lemma SumWraps(x: nat)
    requires x < 2 * TWO32
    ensures Wrap32(x) == if x >= TWO32 then x - TWO32 else x
  {
  }

  lemma DifferenceWraps(x: int)
    requires -(TWO32 as int) <= x < TWO32
    ensures Wrap32(x) == if x < 0 then x + TWO32 else x
  {
  }

  lemma KeptReads(o: Operand, w: Wave, w': Wave, i: nat, d: nat, x: U32, q: nat, carry: bool)
    requires WellFormed(w) && WellFormed(w') && i < LANES && d < VECTORS && q < SCALARS
    requires Linked(w, w', i, d, x, q, carry) && Kept(o, d, q)
    ensures ReadOperand(o, w, i) == ReadOperand(o, w', i)
  {
    hide Bit;
  }

  /** After the run: the registers it does not write, and the lanes it is executed for, are the same. */
  predicate Framed(w: Wave, w': Wave, i: nat, dst: seq<nat>, q: nat)
    requires WellFormed(w) && WellFormed(w') && i < LANES
  {
    && (forall r :: 0 <= r < VECTORS && r !in dst ==> w'.v[i][r] == w.v[i][r])
    && (forall r :: 0 <= r < SCALARS && r != q ==> w'.s[r] == w.s[r])
    && w'.scc == w.scc
  }

  lemma FramedStep(w: Wave, w1: Wave, w2: Wave, i: nat, dst: seq<nat>, x: U32, q: nat, carry: bool)
    requires WellFormed(w) && WellFormed(w1) && WellFormed(w2) && i < LANES && q < SCALARS && dst != []
      && dst[0] < VECTORS
    requires Linked(w, w1, i, dst[0], x, q, carry) && Framed(w1, w2, i, dst[1..], q)
    ensures Framed(w, w2, i, dst, q)
  {
    hide Bit;
    assert dst == [dst[0]] + dst[1..];
  }

  lemma TailsKept(dst: seq<nat>, left: seq<Operand>, right: seq<Operand>, w: Wave, w1: Wave, i: nat, x: U32, q: nat,
      carry: bool)
    requires |dst| == |left| == |right| > 0 && Independent(dst, left, right, q)
    requires WellFormed(w) && WellFormed(w1) && i < LANES && q < SCALARS && Linked(w, w1, i, dst[0], x, q, carry)
    ensures Value(left[1..], w, i) == Value(left[1..], w1, i) && Value(right[1..], w, i) == Value(right[1..], w1, i)
  {
    hide Bit, ReadOperand, Linked, Value, Kept;
    forall k | 0 <= k < |left| - 1
      ensures ReadOperand(left[1..][k], w, i) == ReadOperand(left[1..][k], w1, i)
      ensures ReadOperand(right[1..][k], w, i) == ReadOperand(right[1..][k], w1, i)
    {
      var k1 := k + 1;
      assert Kept(left[k1], dst[0], q) && Kept(right[k1], dst[0], q);
      KeptReads(left[k1], w, w1, i, dst[0], x, q, carry);
      KeptReads(right[k1], w, w1, i, dst[0], x, q, carry);
    }
    ValueKept(left[1..], w, w1, i);
    ValueKept(right[1..], w, w1, i);
  }

  /** One step of the induction: a link that balances its limb, then limbs that balance theirs. */
  lemma ChainStep(c: Chained, dst: seq<nat>, left: seq<Operand>, right: seq<Operand>, q: nat, w: Wave, w1: Wave,
      w2: Wave, i: nat, carryIn: bool, x: U32, carry: bool)
    requires |dst| == |left| == |right| > 0 && Independent(dst, left, right, q) && q < SCALARS && i < LANES
    requires WellFormed(w) && WellFormed(w1) && WellFormed(w2) && Linked(w, w1, i, dst[0], x, q, carry)
    requires Total(c, ReadOperand(left[0], w, i), ReadOperand(right[0], w, i), carryIn) == Net(c, x, 1, carry)
    requires Framed(w1, w2, i, dst[1..], q) && InFile(dst[1..], w2.v[i])
    requires Total(c, Value(left[1..], w1, i), Value(right[1..], w1, i), carry)
      == Net(c, Limbs(dst[1..], w2.v[i]), |dst| - 1, Bit(w2.s[q], i))
    ensures Framed(w, w2, i, dst, q) && InFile(dst, w2.v[i])
    ensures Total(c, Value(left, w, i), Value(right, w, i), carryIn)
      == Net(c, Limbs(dst, w2.v[i]), |dst|, Bit(w2.s[q], i))
  {
    hide Bit, ReadOperand, Kept, Framed, Linked, Limbs, Value, Base, InFile, Total, Net;
    FramedStep(w, w1, w2, i, dst, x, q, carry);
    TailsKept(dst, left, right, w, w1, i, x, q, carry);
    IndependentInFile(dst, left, right, q, w2.v[i]);
    LinkedReads(w, w1, i, dst[0], x, q, carry);
    FramedReads(w1, w2, i, dst[1..], q, dst[0]);
    LimbsSplit(dst, w2.v[i]);
    ValueSplit(left, w, i);
    ValueSplit(right, w, i);
    TotalStep(c, ReadOperand(left[0], w, i), ReadOperand(right[0], w, i), Value(left[1..], w, i),
              Value(right[1..], w, i), carryIn, x,
              carry, Limbs(dst[1..], w2.v[i]), |dst| - 1, Bit(w2.s[q], i), Value(left, w, i), Value(right, w, i),
              Limbs(dst, w2.v[i]), |dst|);
  }

  lemma LinkedReads(w: Wave, w': Wave, i: nat, d: nat, x: U32, q: nat, carry: bool)
    requires WellFormed(w) && WellFormed(w') && i < LANES && d < VECTORS && q < SCALARS
      && Linked(w, w', i, d, x, q, carry)
    ensures w'.v[i][d] == x
  {
    hide Bit;
  }

  lemma LimbsSplit(rs: seq<nat>, file: seq<U32>)
    requires rs != [] && InFile(rs, file) && InFile(rs[1..], file)
    ensures Limbs(rs, file) == file[rs[0]] + TWO32 * Limbs(rs[1..], file)
  {
  }

  lemma ValueSplit(os: seq<Operand>, w: Wave, i: nat)
    requires os != [] && WellFormed(w) && i < LANES
    ensures Value(os, w, i) == ReadOperand(os[0], w, i) + TWO32 * Value(os[1..], w, i)
  {
  }

  lemma FramedReads(w: Wave, w': Wave, i: nat, dst: seq<nat>, q: nat, r: nat)
    requires WellFormed(w) && WellFormed(w') && i < LANES && r < VECTORS && r !in dst && Framed(w, w', i, dst, q)
    ensures w'.v[i][r] == w.v[i][r]
  {
  }

  lemma {:induction false} LinksTotal(c: Chained, dst: seq<nat>, left: seq<Operand>, right: seq<Operand>,
      through: Option<nat>, w: Wave, i: nat)
    requires |dst| == |left| == |right| && Independent(dst, left, right, Through(through))
    requires Through(through) < SCALARS && Through(through) != EXEC && WellFormed(w) && i < LANES && ExecAt(w, i)
    ensures var q, w' := Through(through), ExecuteAll(Links(Linking(c), dst, left, right, through), w);
      && Framed(w, w', i, dst, q) && InFile(dst, w'.v[i])
      && Total(c, Value(left, w, i), Value(right, w, i), Bit(w.s[q], i))
        == Net(c, Limbs(dst, w'.v[i]), |dst|, Bit(w'.s[q], i))
    decreases |dst|
  {
    hide Bit, ReadOperand, Execute, Carried, CarryValue, Kept;
    var q, links := Through(through), Links(Linking(c), dst, left, right, through);
    if dst == [] {
    } else {
      hide Total, Net, Framed, Value, Limbs;
      var w1 := Execute(links[0], w);
      var carryIn := Bit(w.s[q], i);
      var r := CarryValue(Linking(c), ReadOperand(left[0], w, i), ReadOperand(right[0], w, i), carryIn);
      LinkStep(Linking(c), dst[0], left[0], right[0], through, w, i);
      CarryTotals(c, ReadOperand(left[0], w, i), ReadOperand(right[0], w, i), carryIn);
      LinksTotal(c, dst[1..], left[1..], right[1..], through, w1, i);
      ChainStep(c, dst, left, right, q, w, w1, ExecuteAll(links[1..], w1), i, carryIn, r.0, r.1);
    }
  }

  lemma ChainTotal(c: Chained, dst: seq<nat>, left: seq<Operand>, right: seq<Operand>, through: Option<nat>, w: Wave,
      i: nat)
    requires |dst| == |left| == |right| > 0 && Independent(dst, left, right, Through(through))
    requires Through(through) < SCALARS && Through(through) != EXEC && WellFormed(w) && i < LANES && ExecAt(w, i)
    ensures var q, w' := Through(through), ExecuteAll(Chain(c, dst, left, right, through), w);
      && Framed(w, w', i, dst, q) && InFile(dst, w'.v[i])
      && Total(c, Value(left, w, i), Value(right, w, i), false) == Net(c, Limbs(dst, w'.v[i]), |dst|, Bit(w'.s[q], i))
  {
    hide Bit, ReadOperand, Execute, Carried, CarryValue, Total, Net, Framed, Value, Limbs, Links, Kept;
    var q, first := Through(through), Carried(Opening(c), dst[0], left[0], right[0], through);
    var rest := Links(Linking(c), dst[1..], left[1..], right[1..], through);
    assert Chain(c, dst, left, right, through)[1..] == rest;
    var w1 := Execute(first, w);
    var carryIn := Bit(w.s[q], i);
    var r := CarryValue(Opening(c), ReadOperand(left[0], w, i), ReadOperand(right[0], w, i), carryIn);
    LinkStep(Opening(c), dst[0], left[0], right[0], through, w, i);
    CarryTotals(c, ReadOperand(left[0], w, i), ReadOperand(right[0], w, i), carryIn);
    LinksTotal(c, dst[1..], left[1..], right[1..], through, w1, i);
    ChainStep(c, dst, left, right, q, w, w1, ExecuteAll(rest, w1), i, false, r.0, r.1);
  }

  /** The chain's registers and the carry out of it are c of the two numbers the operands held. */
  predicate ChainResult(c: Chained, a: nat, b: nat, d: nat, n: nat, carry: bool) {
    match c
    case Sum => (carry <==> a + b >= Base(n)) && d == (if carry then a + b - Base(n) else a + b)
    case Difference => (carry <==> a < b) && d == (if carry then a - b + Base(n) else a - b)
    case Reversed => (carry <==> b < a) && d == (if carry then b - a + Base(n) else b - a)
  }

  lemma TotalResult(c: Chained, a: nat, b: nat, d: nat, n: nat, carry: bool)
    requires Total(c, a, b, false) == Net(c, d, n, carry) && d < Base(n) && a < Base(n) && b < Base(n)
    ensures ChainResult(c, a, b, d, n, carry)
  {
    hide Base;
  }

  lemma {:induction false} ValueFits(os: seq<Operand>, w: Wave, i: nat)
    requires WellFormed(w) && i < LANES
    ensures Value(os, w, i) < Base(|os|)
  {
    hide ReadOperand;
    if os != [] {
      ValueFits(os[1..], w, i);
      assert Value(os[1..], w, i) + 1 <= Base(|os| - 1);
    }
  }

  /** In every enabled lane a chain of n limbs computes the n-limb sum or difference, and leaves its
      carry or borrow in the carry register. */
  lemma ChainComputes(c: Chained, dst: seq<nat>, left: seq<Operand>, right: seq<Operand>, through: Option<nat>,
      w: Wave, i: nat)
    requires |dst| == |left| == |right| > 0 && Independent(dst, left, right, Through(through))
    requires Through(through) < SCALARS && Through(through) != EXEC && WellFormed(w) && i < LANES && ExecAt(w, i)
    ensures var w' := ExecuteAll(Chain(c, dst, left, right, through), w);
      InFile(dst, w'.v[i]) &&
      ChainResult(c, Value(left, w, i), Value(right, w, i), Limbs(dst, w'.v[i]), |dst|, Bit(w'.s[Through(through)], i))
  {
    hide Bit, ReadOperand, Chain, Total, Net, Framed, Value, Limbs, Independent, Base, ExecuteAll;
    var w' := ExecuteAll(Chain(c, dst, left, right, through), w);
    ChainTotal(c, dst, left, right, through, w, i);
    ValueFits(left, w, i);
    ValueFits(right, w, i);
    TotalResult(c, Value(left, w, i), Value(right, w, i), Limbs(dst, w'.v[i]), |dst|, Bit(w'.s[Through(through)], i));
  }

  // ---- the emitted chain ----

  /** A limb is no status bit of a mask, which may be misread. */
  predicate LimbOk(o: Operand) {
    OperandAccepted(o) && o != Encoded(251) && o != Encoded(252)
  }

  predicate LinkAccepted(d: nat, x: Operand, y: Operand) {
    d < VECTORS && LimbOk(x) && LimbOk(y)
  }

  predicate LinksAccepted(dst: seq<nat>, left: seq<Operand>, right: seq<Operand>)
    requires |dst| == |left| == |right|
  {
    forall k :: 0 <= k < |dst| ==> LinkAccepted(dst[k], left[k], right[k])
  }

  /** A link is accepted, meets its condition, and keeps the condition of the next. */
  lemma LinkSound(op: COp, d: nat, x: Operand, y: Operand, through: Option<nat>, w: Wave)
    requires WellFormed(w) && LinkAccepted(d, x, y) && Through(through) < SCALARS && Through(through) != EXEC
    requires HighClear(w.s, Through(through))
    ensures var i := Carried(op, d, x, y, through);
      Accepted(i) && Sound(i, w) && FieldsFit(i, w) && HighClear(Execute(i, w).s, Through(through))
  {
    hide Bit, CarryMask, WriteLanes, CarryLanes, Sound;
    AlikeSoundIff(Carried(op, d, x, y, through), w);
  }

  lemma {:induction false} LinksSound(op: COp, dst: seq<nat>, left: seq<Operand>, right: seq<Operand>,
      through: Option<nat>, w: Wave)
    requires |dst| == |left| == |right| && LinksAccepted(dst, left, right) && WellFormed(w)
    requires Through(through) < SCALARS && Through(through) != EXEC && HighClear(w.s, Through(through))
    ensures SoundRun(Links(op, dst, left, right, through), w)
    decreases |dst|
  {
    hide Execute, Carried, Accepted, Sound, FieldsFit, HighClear, LinkAccepted;
    if dst != [] {
      assert LinkAccepted(dst[0], left[0], right[0]);
      LinkSound(op, dst[0], left[0], right[0], through, w);
      TailAccepted(dst, left, right);
      LinksSound(op, dst[1..], left[1..], right[1..], through,
                 Execute(Carried(op, dst[0], left[0], right[0], through), w));
    }
  }

  lemma TailAccepted(dst: seq<nat>, left: seq<Operand>, right: seq<Operand>)
    requires |dst| == |left| == |right| > 0 && LinksAccepted(dst, left, right)
    ensures LinksAccepted(dst[1..], left[1..], right[1..])
  {
    hide LinkAccepted;
    forall k | 0 <= k < |dst[1..]| ensures LinkAccepted(dst[1..][k], left[1..][k], right[1..][k]) {
      var k1 := k + 1;
      assert LinkAccepted(dst[k1], left[k1], right[k1]);
    }
  }

  lemma ChainSound(c: Chained, dst: seq<nat>, left: seq<Operand>, right: seq<Operand>, through: Option<nat>, w: Wave)
    requires |dst| == |left| == |right| > 0 && LinksAccepted(dst, left, right) && WellFormed(w)
    requires Through(through) < SCALARS && Through(through) != EXEC && HighClear(w.s, Through(through))
    ensures SoundRun(Chain(c, dst, left, right, through), w)
  {
    hide Execute, Carried, Accepted, Sound, FieldsFit, HighClear, LinkAccepted, Links;
    assert LinkAccepted(dst[0], left[0], right[0]);
    LinkSound(Opening(c), dst[0], left[0], right[0], through, w);
    TailAccepted(dst, left, right);
    LinksSound(Linking(c), dst[1..], left[1..], right[1..], through,
               Execute(Carried(Opening(c), dst[0], left[0], right[0], through), w));
  }

  lemma ChainAccepted(c: Chained, dst: seq<nat>, left: seq<Operand>, right: seq<Operand>, through: Option<nat>)
    requires |dst| == |left| == |right| > 0 && LinksAccepted(dst, left, right)
    requires Through(through) < SCALARS && Through(through) != EXEC
    ensures forall j :: 0 <= j < |Chain(c, dst, left, right, through)| ==>
      Accepted(Chain(c, dst, left, right, through)[j])
  {
    hide Chain, Accepted, LinksAccepted;
    var w := Idle(0, 0, false);
    var v := w.(s := seq(SCALARS, j requires 0 <= j < SCALARS => 0));
    ChainSound(c, dst, left, right, through, v);
    SoundRunAccepted(Chain(c, dst, left, right, through), v);
  }

  function EmitChain(c: Chained, dst: seq<nat>, left: seq<Operand>, right: seq<Operand>, through: Option<nat>,
      k: nat): seq<Stmt>
    requires |dst| == |left| == |right| > 0 && LinksAccepted(dst, left, right)
    requires Through(through) < SCALARS && Through(through) != EXEC
  {
    ChainAccepted(c, dst, left, right, through);
    EmitAll(Chain(c, dst, left, right, through), k)
  }

  /** So does its emitted code, on every lane that represents an enabled lane of the wave, provided the
      register above the carry register is zero. */
  lemma EmittedChainComputes(c: Chained, dst: seq<nat>, left: seq<Operand>, right: seq<Operand>, through: Option<nat>,
      k: nat, m: Machine, w: Wave, i: nat)
    requires |dst| == |left| == |right| > 0 && LinksAccepted(dst, left, right)
    requires Independent(dst, left, right, Through(through)) && Through(through) < SCALARS && Through(through) != EXEC
    requires Relates(m, w) && HighClear(w.s, Through(through)) && i < LANES && ExecAt(w, i)
    ensures var m' := Run(EmitChain(c, dst, left, right, through, k), m);
      && |m'.lanes| == LANES && |m'.lanes[i].s| == SCALARS && InFile(dst, m'.lanes[i].v)
      && ChainResult(c, Value(left, w, i), Value(right, w, i), Limbs(dst, m'.lanes[i].v), |dst|,
                     Bit(m'.lanes[i].s[Through(through)], i))
  {
    hide Bit, Chain, Value, Limbs, Independent, LinksAccepted, Accepted, ChainResult, ExecuteAll, EmitAll, Run,
         SoundRun;
    ChainSound(c, dst, left, right, through, w);
    ChainComputes(c, dst, left, right, through, w, i);
    ChainAccepted(c, dst, left, right, through);
    ProgramRelates(Chain(c, dst, left, right, through), k, m, w);
    assert LaneMatches(Run(EmitAll(Chain(c, dst, left, right, through), k), m).lanes[i],
                       ExecuteAll(Chain(c, dst, left, right, through), w), i);
  }

  // ---- scalar chains, through the condition bit ----

  function OpeningScalar(c: Chained): SOp
    requires !c.Reversed?
  {
    if c.Sum? then SAdd else SSub
  }

  function LinkingScalar(c: Chained): SOp
    requires !c.Reversed?
  {
    if c.Sum? then SAddc else SSubb
  }

  function ScalarLinks(op: SOp, dst: seq<nat>, left: seq<Operand>, right: seq<Operand>): seq<Instruction>
    requires |dst| == |left| == |right|
  {
    if dst == [] then []
    else [ScalarOp(op, dst[0], [left[0], right[0]])] + ScalarLinks(op, dst[1..], left[1..], right[1..])
  }

  function ScalarChain(c: Chained, dst: seq<nat>, left: seq<Operand>, right: seq<Operand>): seq<Instruction>
    requires |dst| == |left| == |right| > 0 && !c.Reversed?
  {
    [ScalarOp(OpeningScalar(c), dst[0], [left[0], right[0]])]
    + ScalarLinks(LinkingScalar(c), dst[1..], left[1..], right[1..])
  }

  /** Writing scalar register d and the condition bit leaves the operand alone. */
  predicate ScalarKept(o: Operand, d: nat) {
    match o
    case Vector(_) | Literal(_) | ZeroExtended(_) => true
    case Scalar(r) => r != d
    case Encoded(code) => code != 251 && code != 252 && code != 253
    case PairZero(_) => false
  }

  predicate ScalarIndependent(dst: seq<nat>, left: seq<Operand>, right: seq<Operand>)
    requires |dst| == |left| == |right|
    decreases |dst|
  {
    dst == [] ||
    (&& dst[0] < SCALARS && dst[0] !in dst[1..]
     && (forall k :: 1 <= k < |dst| ==> ScalarKept(left[k], dst[0]) && ScalarKept(right[k], dst[0]))
     && ScalarIndependent(dst[1..], left[1..], right[1..]))
  }

  lemma {:induction false} ScalarsInFile(dst: seq<nat>, left: seq<Operand>, right: seq<Operand>, file: seq<U32>)
    requires |dst| == |left| == |right| && ScalarIndependent(dst, left, right) && |file| == SCALARS
    ensures InFile(dst, file)
    decreases |dst|
  {
    hide ScalarKept;
    if dst != [] {
      ScalarsInFile(dst[1..], left[1..], right[1..], file);
      forall k | 0 <= k < |dst| ensures dst[k] < |file| {
        if k > 0 { assert dst[k] == dst[1..][k - 1]; }
      }
    }
  }

  lemma ScalarTotals(c: Chained, x: U32, y: U32, scc: bool)
    requires !c.Reversed?
    ensures var op := LinkingScalar(c);
      Total(c, x, y, scc) == Net(c, ScalarValue(op, x, y, scc), 1, ScalarScc(op, x, y, scc))
    ensures var op := OpeningScalar(c);
      Total(c, x, y, false) == Net(c, ScalarValue(op, x, y, scc), 1, ScalarScc(op, x, y, scc))
  {
    hide Wrap32;
    assert Base(1) == TWO32;
    SumWraps(x + y);
    SumWraps(x + y + Flag(scc));
    DifferenceWraps(x - y);
    DifferenceWraps(x - y - Flag(scc));
  }

  lemma ScalarTailsKept(dst: seq<nat>, left: seq<Operand>, right: seq<Operand>, w: Wave, x: U32, scc: bool)
    requires |dst| == |left| == |right| > 0 && ScalarIndependent(dst, left, right) && WellFormed(w)
    ensures var w1 := w.(s := w.s[dst[0] := x], scc := scc);
      Value(left[1..], w, 0) == Value(left[1..], w1, 0) && Value(right[1..], w, 0) == Value(right[1..], w1, 0)
  {
    hide Value, ReadOperand, ScalarKept;
    var w1 := w.(s := w.s[dst[0] := x], scc := scc);
    forall k | 0 <= k < |left| - 1
      ensures ReadOperand(left[1..][k], w, 0) == ReadOperand(left[1..][k], w1, 0)
      ensures ReadOperand(right[1..][k], w, 0) == ReadOperand(right[1..][k], w1, 0)
    {
      var k1 := k + 1;
      assert ScalarKept(left[k1], dst[0]) && ScalarKept(right[k1], dst[0]);
      ScalarKeptReads(left[k1], w, dst[0], x, scc);
      ScalarKeptReads(right[k1], w, dst[0], x, scc);
    }
    ValueKept(left[1..], w, w1, 0);
    ValueKept(right[1..], w, w1, 0);
  }

  lemma ScalarKeptReads(o: Operand, w: Wave, d: nat, x: U32, scc: bool)
    requires WellFormed(w) && d < SCALARS && ScalarKept(o, d)
    ensures ReadOperand(o, w, 0) == ReadOperand(o, w.(s := w.s[d := x], scc := scc), 0)
  {
  }

  /** The scalar run writes its destinations and the condition bit, nothing else. */
  predicate ScalarFramed(w: Wave, w': Wave, dst: seq<nat>)
    requires WellFormed(w) && WellFormed(w')
  {
    w'.v == w.v && forall r :: 0 <= r < SCALARS && r !in dst ==> w'.s[r] == w.s[r]
  }

  lemma ScalarStep(c: Chained, dst: seq<nat>, left: seq<Operand>, right: seq<Operand>, w: Wave, w2: Wave,
      carryIn: bool, x: U32, carry: bool)
    requires |dst| == |left| == |right| > 0 && ScalarIndependent(dst, left, right) && WellFormed(w) && WellFormed(w2)
    requires Total(c, ReadOperand(left[0], w, 0), ReadOperand(right[0], w, 0), carryIn) == Net(c, x, 1, carry)
    requires var w1 := w.(s := w.s[dst[0] := x], scc := carry);
      && ScalarFramed(w1, w2, dst[1..]) && InFile(dst[1..], w2.s)
      && Total(c, Value(left[1..], w1, 0), Value(right[1..], w1, 0), carry)
        == Net(c, Limbs(dst[1..], w2.s), |dst| - 1, w2.scc)
    ensures ScalarFramed(w, w2, dst) && InFile(dst, w2.s)
    ensures Total(c, Value(left, w, 0), Value(right, w, 0), carryIn) == Net(c, Limbs(dst, w2.s), |dst|, w2.scc)
  {
    hide ReadOperand, ScalarKept, Limbs, Value, Base, InFile, Total, Net;
    assert dst == [dst[0]] + dst[1..];
    ScalarTailsKept(dst, left, right, w, x, carry);
    ScalarsInFile(dst, left, right, w2.s);
    LimbsSplit(dst, w2.s);
    ValueSplit(left, w, 0);
    ValueSplit(right, w, 0);
    TotalStep(c, ReadOperand(left[0], w, 0), ReadOperand(right[0], w, 0), Value(left[1..], w, 0),
              Value(right[1..], w, 0), carryIn, x,
              carry, Limbs(dst[1..], w2.s), |dst| - 1, w2.scc, Value(left, w, 0), Value(right, w, 0), Limbs(dst, w2.s),
              |dst|);
  }

  lemma {:induction false} ScalarLinksTotal(c: Chained, dst: seq<nat>, left: seq<Operand>, right: seq<Operand>, w: Wave)
    requires |dst| == |left| == |right| && ScalarIndependent(dst, left, right) && !c.Reversed? && WellFormed(w)
    ensures var w' := ExecuteAll(ScalarLinks(LinkingScalar(c), dst, left, right), w);
      && ScalarFramed(w, w', dst) && InFile(dst, w'.s)
      && Total(c, Value(left, w, 0), Value(right, w, 0), w.scc) == Net(c, Limbs(dst, w'.s), |dst|, w'.scc)
    decreases |dst|
  {
    hide ReadOperand, ScalarValue, ScalarScc, ScalarKept;
    var op := LinkingScalar(c);
    if dst != [] {
      hide Total, Net, ScalarFramed, Value, Limbs, InFile;
      var x, y := ReadOperand(left[0], w, 0), ReadOperand(right[0], w, 0);
      var first := ScalarOp(op, dst[0], [left[0], right[0]]);
      ScalarTotals(c, x, y, w.scc);
      var w1 := w.(s := w.s[dst[0] := ScalarValue(op, x, y, w.scc)], scc := ScalarScc(op, x, y, w.scc));
      assert Execute(first, w) == w1;
      ScalarLinksTotal(c, dst[1..], left[1..], right[1..], w1);
      ScalarStep(c, dst, left, right, w, ExecuteAll(ScalarLinks(op, dst[1..], left[1..], right[1..]), w1), w.scc,
                 ScalarValue(op, x, y, w.scc), ScalarScc(op, x, y, w.scc));
    }
  }

  /** A scalar chain of n limbs computes the n-limb sum or difference and leaves its carry or borrow in
      the condition bit. */
  lemma ScalarChainComputes(c: Chained, dst: seq<nat>, left: seq<Operand>, right: seq<Operand>, w: Wave)
    requires |dst| == |left| == |right| > 0 && ScalarIndependent(dst, left, right) && !c.Reversed? && WellFormed(w)
    ensures var w' := ExecuteAll(ScalarChain(c, dst, left, right), w);
      InFile(dst, w'.s) && ChainResult(c, Value(left, w, 0), Value(right, w, 0), Limbs(dst, w'.s), |dst|, w'.scc)
  {
    hide ReadOperand, ScalarValue, ScalarScc, ScalarKept, Total, Net, ScalarFramed, Value, Limbs, InFile, ChainResult,
         ScalarLinks, Base;
    var op := OpeningScalar(c);
    var x, y := ReadOperand(left[0], w, 0), ReadOperand(right[0], w, 0);
    var rest := ScalarLinks(LinkingScalar(c), dst[1..], left[1..], right[1..]);
    ScalarTotals(c, x, y, w.scc);
    var w1 := w.(s := w.s[dst[0] := ScalarValue(op, x, y, w.scc)], scc := ScalarScc(op, x, y, w.scc));
    assert Execute(ScalarOp(op, dst[0], [left[0], right[0]]), w) == w1 && ScalarChain(c, dst, left, right)[1..] == rest;
    ScalarLinksTotal(c, dst[1..], left[1..], right[1..], w1);
    var w2 := ExecuteAll(rest, w1);
    ScalarStep(c, dst, left, right, w, w2, false, ScalarValue(op, x, y, w.scc), ScalarScc(op, x, y, w.scc));
    ValueFits(left, w, 0);
    ValueFits(right, w, 0);
    TotalResult(c, Value(left, w, 0), Value(right, w, 0), Limbs(dst, w2.s), |dst|, w2.scc);
  }

  predicate ScalarOperandOk(o: Operand) {
    LimbOk(o) && !o.Vector?
  }

  predicate ScalarsOk(left: seq<Operand>, right: seq<Operand>)
    requires |left| == |right|
  {
    forall k :: 0 <= k < |left| ==> ScalarOperandOk(left[k]) && ScalarOperandOk(right[k])
  }

  lemma {:induction false} ScalarLinksSound(op: SOp, dst: seq<nat>, left: seq<Operand>, right: seq<Operand>, w: Wave)
    requires |dst| == |left| == |right| && ScalarsOk(left, right) && WellFormed(w) && op in {SAdd, SSub, SAddc, SSubb}
    ensures SoundRun(ScalarLinks(op, dst, left, right), w)
    decreases |dst|
  {
    hide Execute, ScalarOperandOk, Accepted, Sound;
    if dst != [] {
      ScalarLinkSound(op, dst[0], left[0], right[0], w);
      ScalarsOkTail(left, right);
      ScalarLinksSound(op, dst[1..], left[1..], right[1..], Execute(ScalarOp(op, dst[0], [left[0], right[0]]), w));
    }
  }

  lemma ScalarsOkTail(left: seq<Operand>, right: seq<Operand>)
    requires |left| == |right| > 0 && ScalarsOk(left, right)
    ensures ScalarsOk(left[1..], right[1..])
  {
    hide ScalarOperandOk;
    forall k | 0 <= k < |left[1..]| ensures ScalarOperandOk(left[1..][k]) && ScalarOperandOk(right[1..][k]) {
      var k1 := k + 1;
      assert ScalarOperandOk(left[k1]) && ScalarOperandOk(right[k1]);
    }
  }

  lemma ScalarLinkSound(op: SOp, d: nat, x: Operand, y: Operand, w: Wave)
    requires WellFormed(w) && ScalarOperandOk(x) && ScalarOperandOk(y) && op in {SAdd, SSub, SAddc, SSubb}
    ensures var i := ScalarOp(op, d, [x, y]); Accepted(i) && Sound(i, w) && FieldsFit(i, w)
  {
    hide Bit, Sound, Uniform;
    AlikeSoundIff(ScalarOp(op, d, [x, y]), w);
  }

  lemma ScalarChainSound(c: Chained, dst: seq<nat>, left: seq<Operand>, right: seq<Operand>, w: Wave)
    requires |dst| == |left| == |right| > 0 && ScalarsOk(left, right) && !c.Reversed? && WellFormed(w)
    ensures SoundRun(ScalarChain(c, dst, left, right), w)
  {
    hide Execute, ScalarOperandOk, Accepted, Sound, ScalarLinks;
    ScalarLinkSound(OpeningScalar(c), dst[0], left[0], right[0], w);
    ScalarsOkTail(left, right);
    ScalarLinksSound(LinkingScalar(c), dst[1..], left[1..], right[1..],
                     Execute(ScalarOp(OpeningScalar(c), dst[0], [left[0], right[0]]), w));
  }

  function EmitScalarChain(c: Chained, dst: seq<nat>, left: seq<Operand>, right: seq<Operand>, k: nat): seq<Stmt>
    requires |dst| == |left| == |right| > 0 && ScalarsOk(left, right) && !c.Reversed?
  {
    var w := Idle(0, 0, false);
    ScalarChainSound(c, dst, left, right, w);
    SoundRunAccepted(ScalarChain(c, dst, left, right), w);
    EmitAll(ScalarChain(c, dst, left, right), k)
  }

  /** So does its emitted code, with no condition: the opcodes of a scalar chain have no flaw. */
  lemma EmittedScalarChainComputes(c: Chained, dst: seq<nat>, left: seq<Operand>, right: seq<Operand>, k: nat,
      m: Machine, w: Wave)
    requires |dst| == |left| == |right| > 0 && ScalarsOk(left, right) && ScalarIndependent(dst, left, right)
      && !c.Reversed?
    requires Relates(m, w)
    ensures var m' := Run(EmitScalarChain(c, dst, left, right, k), m);
      |m'.lanes| == LANES && forall i :: 0 <= i < LANES ==>
        InFile(dst, m'.lanes[i].s)
        && ChainResult(c, Value(left, w, 0), Value(right, w, 0), Limbs(dst, m'.lanes[i].s), |dst|, m'.lanes[i].scc)
  {
    hide Bit, ScalarChain, Value, Limbs, InFile, ScalarIndependent, ScalarsOk, Accepted, ChainResult, ExecuteAll,
         EmitAll, Run, SoundRun, Idle;
    ScalarChainSound(c, dst, left, right, w);
    ScalarChainComputes(c, dst, left, right, w);
    SoundRunAccepted(ScalarChain(c, dst, left, right), w);
    ProgramRelates(ScalarChain(c, dst, left, right), k, m, w);
    var m' := Run(EmitScalarChain(c, dst, left, right, k), m);
    forall i | 0 <= i < LANES
      ensures m'.lanes[i].s == ExecuteAll(ScalarChain(c, dst, left, right), w).s
      ensures m'.lanes[i].scc == ExecuteAll(ScalarChain(c, dst, left, right), w).scc
    {
      assert LaneMatches(m'.lanes[i], ExecuteAll(ScalarChain(c, dst, left, right), w), i);
    }
  }

  // ---- the lane prefix count ----

  /** The bits of a pair below position i are those of the low word, then of the high word. */
  lemma {:induction false} CountOfPair(lo: U32, hi: U32, i: nat)
    requires i <= 64
    ensures CountBelow(lo + TWO32 * hi, i) == if i <= 32 then CountBelow(lo, i)
                                              else CountBelow(lo, 32) + CountBelow(hi, i - 32)
  {
    hide Bit;
    if i > 0 {
      CountOfPair(lo, hi, i - 1);
      Pow2Known();
      BitOfSum(hi, lo, 32, i - 1);
      if i == 33 { assert CountBelow(hi, 0) == 0; }
    }
  }

  lemma WrapTwice(x: int, y: int)
    ensures Wrap32(x + Wrap32(y)) == Wrap32(x + y)
  {
  }

  /** The high form applied to the low form counts the bits of a 64-bit mask below the lane. */
  lemma MbcntCounts(lo: U32, hi: U32, addend: U32, i: nat)
    requires i < 64
    ensures CountValue(VMbcntHi, hi, CountValue(VMbcntLo, lo, addend, i), i)
      == Wrap32(CountBelow(lo + TWO32 * hi, i) + addend)
  {
    hide Wrap32;
    CountOfPair(lo, hi, i);
    var low, high := CountBelow(lo, if i < 32 then i else 32), if i < 32 then 0 else CountBelow(hi, i - 32);
    assert CountBelow(lo + TWO32 * hi, i) == high + low by {
      if i == 32 { assert CountBelow(hi, 0) == 0; }
    }
    WrapTwice(high, low + addend);
  }

  /** So do the emitted expressions, on either wave size. */
  lemma EmittedMbcntCounts(wave64: bool, lo: UExpr, hi: UExpr, addend: UExpr, m: Machine, i: nat)
    requires i < |m.lanes| && i < (if wave64 then 64 else 32)
    ensures EvalU(MbcntHiExpr(wave64, hi, MbcntLoExpr(wave64, lo, addend)), m, i)
         == Wrap32(CountBelow(EvalU(lo, m, i) + TWO32 * EvalU(hi, m, i), i) + EvalU(addend, m, i))
  {
    hide EvalU, MbcntHiExpr, MbcntLoExpr, CountBelow, Wrap32;
    MbcntLoMeaning(wave64, lo, addend, m, i);
    MbcntHiMeaning(wave64, hi, MbcntLoExpr(wave64, lo, addend), m, i);
    MbcntCounts(EvalU(lo, m, i), EvalU(hi, m, i), EvalU(addend, m, i), i);
  }
}
