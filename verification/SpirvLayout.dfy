/** The finished module as a reader of the SPIR-V Specification sees it: the header (section 2.3), the logical
    layout (section 2.4) and what each declaration says (section 3, by opcode). Neither the list of sections the
    builder writes nor its table of opcodes is used to say so. */
module SpirvLayout {
  import opened SpirvModel
  import opened SpirvProperties
  import opened SpirvWords
  import opened Words

  // ---- where the sections are ----

  /** The place of a section in the logical layout. */
  function Rank(s: Section): nat {
    match s
    case Capabilities => 0
    case Extensions => 1
    case Imports => 2
    case MemoryModel => 3
    case EntryPoints => 4
    case ExecutionModes => 5
    case Debug => 6
    case Annotations => 7
    case Types => 8
    case Functions => 9
  }

  predicate SliceAt(code: seq<Instruction>, at: nat, slice: seq<Instruction>) {
    at + |slice| <= |code| && code[at..at + |slice|] == slice
  }

  predicate Inside(b: State, start: Section -> nat, s: Section, k: nat) {
    start(s) <= k < start(s) + |Code(b, s)|
  }

  /** Every section is a slice of the code, the slices are in order of rank, and each instruction is in one. */
  ghost predicate LaidOut(b: State, code: seq<Instruction>, start: Section -> nat) {
    && (forall s :: SliceAt(code, start(s), Code(b, s)))
    && (forall s, t :: Rank(s) < Rank(t) ==> start(s) + |Code(b, s)| <= start(t))
    && (forall k: nat :: k < |code| ==> InSome(b, start, k))
  }

  ghost predicate InSome(b: State, start: Section -> nat, k: nat) {
    exists s :: Inside(b, start, s, k)
  }

  function Before(b: State, sections: seq<Section>, s: Section): nat {
    if sections == [] || sections[0] == s then 0 else |Code(b, sections[0])| + Before(b, sections[1..], s)
  }

  lemma SliceFirst(head: seq<Instruction>, tail: seq<Instruction>)
    ensures SliceAt(head + tail, 0, head)
  {
  }

  lemma SliceBehind(head: seq<Instruction>, tail: seq<Instruction>, at: nat, slice: seq<Instruction>)
    requires SliceAt(tail, at, slice)
    ensures SliceAt(head + tail, |head| + at, slice)
  {
    assert (head + tail)[|head| + at..|head| + at + |slice|] == tail[at..at + |slice|];
  }

  lemma {:induction false} SliceOf(b: State, sections: seq<Section>, s: Section)
    requires s in sections
    ensures SliceAt(SectionCode(b, sections), Before(b, sections, s), Code(b, s))
  {
    hide Code, SliceAt;
    var head, tail := Code(b, sections[0]), SectionCode(b, sections[1..]);
    if sections[0] == s {
      SliceFirst(head, tail);
    } else {
      SliceOf(b, sections[1..], s);
      SliceBehind(head, tail, Before(b, sections[1..], s), Code(b, s));
    }
  }

  lemma {:induction false} InSlice(b: State, sections: seq<Section>, k: nat)
    requires k < |SectionCode(b, sections)|
    requires forall i, j :: 0 <= i < j < |sections| ==> sections[i] != sections[j]
    ensures exists s :: HasPlace(b, sections, s, k)
  {
    hide Code;
    var first, rest := sections[0], sections[1..];
    if k < |Code(b, first)| {
      assert HasPlace(b, sections, first, k);
    } else {
      InSlice(b, rest, k - |Code(b, first)|);
      var s :| HasPlace(b, rest, s, k - |Code(b, first)|);
      assert s != first;
      assert HasPlace(b, sections, s, k);
    }
  }

  predicate HasPlace(b: State, sections: seq<Section>, s: Section, k: int) {
    s in sections && Before(b, sections, s) <= k < Before(b, sections, s) + |Code(b, s)|
  }

  lemma {:induction false} InOrder(b: State, sections: seq<Section>, i: nat, j: nat)
    requires i < j < |sections| && forall p, q :: 0 <= p < q < |sections| ==> sections[p] != sections[q]
    ensures Before(b, sections, sections[i]) + |Code(b, sections[i])| <= Before(b, sections, sections[j])
  {
    if i > 0 {
      InOrder(b, sections[1..], i - 1, j - 1);
      assert sections[i] != sections[0] && sections[j] != sections[0];
    } else {
      assert sections[j] != sections[0];
    }
  }

  lemma RankIsPlace(s: Section)
    ensures Rank(s) < |SECTIONS| && SECTIONS[Rank(s)] == s && |SECTIONS| == 10
  {
  }

  lemma PlacesDiffer()
    ensures forall i, j :: 0 <= i < j < |SECTIONS| ==> SECTIONS[i] != SECTIONS[j]
  {
  }

  lemma SectionsLaidOut(b: State)
    ensures LaidOut(b, SectionCode(b, SECTIONS), (s: Section) => Before(b, SECTIONS, s))
  {
    hide SectionCode, Before, Code, Rank;
    var code := SectionCode(b, SECTIONS);
    PlacesDiffer();
    forall s ensures SliceAt(code, Before(b, SECTIONS, s), Code(b, s)) {
      RankIsPlace(s);
      SliceOf(b, SECTIONS, s);
    }
    forall s, t | Rank(s) < Rank(t) ensures Before(b, SECTIONS, s) + |Code(b, s)| <= Before(b, SECTIONS, t) {
      RankIsPlace(s);
      RankIsPlace(t);
      InOrder(b, SECTIONS, Rank(s), Rank(t));
    }
    var start := (s: Section) => Before(b, SECTIONS, s);
    forall k: nat | k < |code| ensures InSome(b, start, k) {
      InSlice(b, SECTIONS, k);
      var s :| HasPlace(b, SECTIONS, s, k);
      assert Inside(b, start, s, k);
    }
    assert forall s :: start(s) == Before(b, SECTIONS, s);
  }

  ghost predicate AllFit(b: State) {
    forall s, k: nat :: k < |Code(b, s)| ==> Fits(Code(b, s)[k])
  }

  /** Reading the finished bytes gives the header's five words and then, when no instruction is too long, every
      section as one slice, in the order of the logical layout, with nothing between them. */
  lemma ModuleIsLaidOut(b: State)
    requires AllFit(b)
    ensures var words := ReadWords(Bytes(ModuleWords(b)));
      && |words| >= 5
      && words[0] == 0x0723_0203 && words[1] == 0x0001_0500 && words[2] == 0x5350_4500
      && words[3] == b.nextId && words[4] == 0
      && Walk(words[5..]).Some?
      && exists start: Section -> nat :: LaidOut(b, Walk(words[5..]).value, start)
  {
    hide Walk, Code, ModuleWords, SectionCode, LaidOut;
    ModuleReadsBackIff(b);
    var code := SectionCode(b, SECTIONS);
    SectionsLaidOut(b);
    forall k: nat | k < |code| ensures Fits(code[k]) {
      SlicesFit(b, code, (s: Section) => Before(b, SECTIONS, s), k);
    }
    assert Walk(ReadWords(Bytes(ModuleWords(b)))[5..]) == Some(code);
  }

  lemma SlicesFit(b: State, code: seq<Instruction>, start: Section -> nat, k: nat)
    requires LaidOut(b, code, start) && AllFit(b) && k < |code|
    ensures Fits(code[k])
  {
    assert InSome(b, start, k);
    var s :| Inside(b, start, s, k);
    assert SliceAt(code, start(s), Code(b, s));
    assert code[k] == code[start(s)..start(s) + |Code(b, s)|][k - start(s)] == Code(b, s)[k - start(s)];
  }

  // ---- nothing that was emitted is lost ----

  lemma DeclareAppends(b: State, r: Request, length: U32, s: Section)
    ensures Code(b, s) <= Code(Declare(b, r, length).1, s)
  {
    hide Content, KeyOf, Append;
    assert Code(Bump(b), s) == Code(b, s);
    var b' := Append(Bump(b), Types, Content(r, b.nextId, length));
    assert Code(Declare(b, r, length).1, s) == Code(b', s);
  }

  lemma InternAppends(b: State, r: Request, s: Section)
    ensures Code(b, s) <= Code(Intern(b, r).1, s)
  {
    hide Declare, Code, KeyOf;
    DeclareAppends(b, r, 0, s);
    DeclareAppends(b, Int(32, false), 0, s);
    if r.ArrayOf? {
      var (word, b1) := Simple(b, Int(32, false));
      var (length, b2) := Simple(b1, Constant32(word, r.count));
      DeclareAppends(b1, Constant32(word, r.count), 0, s);
      DeclareAppends(b2, r, length, s);
    }
  }

  lemma FreshAppends(b: State, t: Section, opcode: U16, before: seq<U32>, after: seq<U32>, s: Section)
    ensures Code(b, s) <= Code(Fresh(b, t, opcode, before, after).1, s)
  {
    hide Append;
    assert Code(Bump(b), s) == Code(b, s);
  }

  /** A call only appends: what a section held stays in front. */
  lemma ApplyAppends(b: State, call: Call, s: Section)
    ensures Code(b, s) <= Code(Apply(b, call).1, s)
  {
    hide Intern, Append, Fresh;
    match call
    case Request(r) => InternAppends(b, r, s);
    case Truth(v) =>
      InternAppends(b, Bool, s);
      InternAppends(Intern(b, Bool).1, ConstantBool(Intern(b, Bool).0, v), s);
    case Import(name, words) => FreshAppends(b, Imports, 11, [], words, s);
    case Struct(ms) => FreshAppends(b, Types, 30, [], ms, s);
    case Composite(t, cs) => FreshAppends(b, Types, 44, [t], cs, s);
    case Global(p, c, o) => FreshAppends(b, Types, 59, [p], [c] + Optional(o), s);
    case Labelled(None) => FreshAppends(b, Functions, 248, [], [], s);
    case Result(op, t, os) => FreshAppends(b, Functions, op, [t], os, s);
    case _ =>
  }

  lemma {:induction false} RunAppends(b: State, calls: seq<Call>, s: Section)
    ensures Code(b, s) <= Code(Run(b, calls), s)
    decreases |calls|
  {
    hide Apply, Code;
    if calls != [] {
      ApplyAppends(b, calls[0], s);
      RunAppends(Apply(b, calls[0]).1, calls[1..], s);
    }
  }

  lemma {:induction false} RunJoins(b: State, calls: seq<Call>, more: seq<Call>)
    ensures Run(b, calls + more) == Run(Run(b, calls), more)
    decreases |calls|
  {
    hide Apply;
    if calls == [] {
      assert calls + more == more;
    } else {
      assert (calls + more)[1..] == calls[1..] + more;
      RunJoins(Apply(b, calls[0]).1, calls[1..], more);
    }
  }

  /** Every instruction that a section held at any point of a run is read back from the finished bytes, in that
      section's slice. */
  lemma EmittedIsRead(calls: seq<Call>, more: seq<Call>, s: Section, k: nat)
    requires k < |Code(Run(INITIAL, calls), s)| && AllFit(Run(INITIAL, calls + more))
    ensures var b := Run(INITIAL, calls + more);
      var words := ReadWords(Bytes(ModuleWords(b)));
      && |words| >= 5 && Walk(words[5..]).Some?
      && exists start: Section -> nat ::
           && LaidOut(b, Walk(words[5..]).value, start)
           && start(s) + k < |Walk(words[5..]).value|
           && Walk(words[5..]).value[start(s) + k] == Code(Run(INITIAL, calls), s)[k]
  {
    hide Walk, Code, ModuleWords, LaidOut, Run, ReadWords, Bytes;
    var b := Run(INITIAL, calls + more);
    RunJoins(INITIAL, calls, more);
    RunAppends(Run(INITIAL, calls), more, s);
    ModuleIsLaidOut(b);
    var code := Walk(ReadWords(Bytes(ModuleWords(b)))[5..]).value;
    var start: Section -> nat :| LaidOut(b, code, start);
    SliceHolds(b, code, start, s, k);
  }

  lemma SliceHolds(b: State, code: seq<Instruction>, start: Section -> nat, s: Section, k: nat)
    requires LaidOut(b, code, start) && k < |Code(b, s)|
    ensures start(s) + k < |code| && code[start(s) + k] == Code(b, s)[k]
  {
    assert SliceAt(code, start(s), Code(b, s));
    assert code[start(s)..start(s) + |Code(b, s)|][k] == code[start(s) + k];
  }

  // ---- what a declaration says ----

  /** A declaration by its opcode; the count of an array is still the identifier of its length constant. */
  datatype Meaning =
    | Declares(id: U32, request: Request)
    | StructType(id: U32, members: seq<U32>)
    | CompositeOf(id: U32, type': U32, constituents: seq<U32>)
    | Variable(id: U32, pointer: U32, storage: U32, initializer: Option<U32>)
    | Unknown

  function ReadDeclaration(i: Instruction): Meaning {
    var o, n := i.operands, |i.operands|;
    if i.opcode == 19 && n == 1 then Declares(o[0], Void)
    else if i.opcode == 20 && n == 1 then Declares(o[0], Bool)
    else if i.opcode == 21 && n == 3 then Declares(o[0], Int(o[1], o[2] == 1))
    else if i.opcode == 22 && n == 2 then Declares(o[0], Float(o[1]))
    else if i.opcode == 23 && n == 3 then Declares(o[0], VectorOf(o[1], o[2]))
    else if i.opcode == 25 && n == 8 then
      Declares(o[0], Image(o[1], o[2], o[3] == 1, o[4] == 1, o[5] == 1, o[6], o[7]))
    else if i.opcode == 27 && n == 2 then Declares(o[0], SampledImage(o[1]))
    else if i.opcode == 28 && n == 3 then Declares(o[0], ArrayOf(o[1], o[2]))
    else if i.opcode == 29 && n == 2 then Declares(o[0], RuntimeArray(o[1]))
    else if i.opcode == 30 && n >= 1 then StructType(o[0], o[1..])
    else if i.opcode == 32 && n == 3 then Declares(o[0], Pointer(o[1], o[2]))
    else if i.opcode == 33 && n >= 2 then Declares(o[0], FunctionOf(o[1], o[2..]))
    else if i.opcode == 41 && n == 2 then Declares(o[1], ConstantBool(o[0], true))
    else if i.opcode == 42 && n == 2 then Declares(o[1], ConstantBool(o[0], false))
    else if i.opcode == 43 && n == 3 then Declares(o[1], Constant32(o[0], o[2]))
    else if i.opcode == 43 && n == 4 then
      Declares(o[1], Constant64(o[0], (o[2] as int) + 0x1_0000_0000 * (o[3] as int)))
    else if i.opcode == 44 && n >= 2 then CompositeOf(o[1], o[0], o[2..])
    else if i.opcode == 46 && n == 2 then Declares(o[1], Null(o[0]))
    else if i.opcode == 59 && n == 3 then Variable(o[1], o[0], o[2], None)
    else if i.opcode == 59 && n == 4 then Variable(o[1], o[0], o[2], Some(o[3]))
    else Unknown
  }

  /** What is emitted for a request declares that request under the identifier. */
  lemma ContentDeclares(r: Request, id: U32, length: U32)
    ensures ReadDeclaration(Content(r, id, length))
         == Declares(id, if r.ArrayOf? then ArrayOf(r.element, length) else r)
  {
    if r.FunctionOf? { assert ([id, r.result] + r.parameters)[2..] == r.parameters; }
  }

  /** A structure, a composite and a variable are declared with their parts under a new identifier. */
  lemma StructDeclares(b: State, members: seq<U32>)
    ensures var (id, b') := Apply(b, Struct(members));
      id == b.nextId && ReadDeclaration(Last(Code(b', Types))) == StructType(id, members)
  {
    hide Append;
    assert ([] + [b.nextId] + members)[1..] == members;
  }

  lemma CompositeDeclares(b: State, t: U32, parts: seq<U32>)
    ensures var (id, b') := Apply(b, Composite(t, parts));
      id == b.nextId && ReadDeclaration(Last(Code(b', Types))) == CompositeOf(id, t, parts)
  {
    hide Append;
    assert ([t] + [b.nextId] + parts)[2..] == parts;
  }

  lemma VariableDeclares(b: State, t: U32, storage: U32, o: Option<U32>)
    ensures var (id, b') := Apply(b, Global(t, storage, o));
      id == b.nextId && ReadDeclaration(Last(Code(b', Types))) == Variable(id, t, storage, o)
  {
    hide Append;
  }

  function Last(code: seq<Instruction>): Instruction {
    if code == [] then Instruction(0, []) else code[|code| - 1]
  }

  /** Some instruction of the types section reads as m. */
  ghost predicate Says(b: State, m: Meaning) {
    exists k: nat :: k < |Code(b, Types)| && ReadDeclaration(Code(b, Types)[k]) == m
  }

  /** The identifier is declared as what was asked for; an array by a length that is the 32-bit unsigned constant
      of its count. */
  ghost predicate DeclaredAs(b: State, r: Request, id: U32) {
    if r.ArrayOf? then exists word: U32, length: U32 :: DeclaredArray(b, r, id, word, length)
    else Says(b, Declares(id, r))
  }

  ghost predicate DeclaredArray(b: State, r: Request, id: U32, word: U32, length: U32)
    requires r.ArrayOf?
  {
    && Says(b, Declares(id, ArrayOf(r.element, length))) && Says(b, Declares(length, Constant32(word, r.count)))
    && Says(b, Declares(word, Int(32, false)))
  }

  lemma AnswerSays(b: State, r: Request, id: U32)
    requires Answers(b, r, id) && !r.ArrayOf?
    ensures Says(b, Declares(id, r))
  {
    hide Content, ReadDeclaration;
    var length: U32 :| Code(b, Types)[b.home[id].1] == Content(r, id, length);
    ContentDeclares(r, id, length);
  }

  lemma EntrySays(b: State, r: Request)
    requires Inv(b) && KeyOf(r) in b.interned && r.ArrayOf?
    ensures var e := b.interned[KeyOf(r)];
      && LengthOk(b, e) && e.origin == r && Says(b, Declares(e.id, ArrayOf(r.element, e.length)))
  {
    hide DefinedOnce, AllInterned, Content, ReadDeclaration, LengthOk;
    assert EntryOk(b, KeyOf(r));
    var e := b.interned[KeyOf(r)];
    ContentDeclares(e.origin, e.id, e.length);
  }

  lemma ArraySays(b: State, r: Request)
    requires Inv(b) && AllTyped(b) && KeyOf(r) in b.interned && r.ArrayOf? && b.nextId + 3 < TWO32
    ensures DeclaredAs(b, r, b.interned[KeyOf(r)].id)
  {
    hide Inv, AllTyped, Answers, Says, Content;
    EntrySays(b, r);
    var e, number := b.interned[KeyOf(r)], Int(32, false);
    var word := b.interned[KeyOf(number)].id;
    InternTyped(b, number);
    AnswerSays(b, number, word);
    var count := Constant32(word, r.count);
    assert Typed(b, count) by { assert IsNumber(number, false) && TypeIs(b, word, number); }
    InternTyped(b, count);
    AnswerSays(b, count, e.length);
    assert DeclaredArray(b, r, e.id, word, e.length);
  }

  /** In every good run any request is answered with an identifier that reads back as declared for it. */
  lemma GoodAnswerDeclares(calls: seq<Call>, r: Request)
    requires GoodRun(INITIAL, calls)
    ensures var b := Run(INITIAL, calls);
      Typed(b, r) && b.nextId + 6 < TWO32 ==> var (id, b') := Intern(b, r); DeclaredAs(b', r, id)
  {
    hide Inv, Ordered, AllTyped, GoodRun, Answers, Typed, Intern, Run, DeclaredAs;
    var b := Run(INITIAL, calls);
    InitialKept();
    InitialOrdered();
    RunGood(INITIAL, calls);
    if Typed(b, r) && b.nextId + 6 < TWO32 {
      var (id, b') := Intern(b, r);
      InternTyped(b, r);
      InternKeeps(b, r);
      if r.ArrayOf? { ArraySays(b', r); } else { NotArraySays(b', r, id); }
    }
  }

  lemma NotArraySays(b: State, r: Request, id: U32)
    requires Answers(b, r, id) && !r.ArrayOf?
    ensures DeclaredAs(b, r, id)
  {
    AnswerSays(b, r, id);
  }

  /** The identifiers a declaration refers to are those its request was made with, and an array's length. */
  lemma ContentUses(r: Request, id: U32, length: U32)
    ensures Uses(Content(r, id, length)) == Needs(r) + (if r.ArrayOf? then {length} else {})
  {
    var i := Content(r, id, length);
    if r.FunctionOf? {
      forall k: nat | k < |r.parameters| ensures r.parameters[k] in Uses(i) {
        assert i.operands[k + 2] == r.parameters[k];
      }
      assert i.operands[1] in Uses(i);
      forall k: nat | 1 <= k < |i.operands| ensures i.operands[k] in Needs(r) {
        if k > 1 { var j: nat := k - 2; assert i.operands[k] == r.parameters[j]; }
      }
    } else {
      ShortUses(r, id, length);
    }
  }

  lemma ShortUses(r: Request, id: U32, length: U32)
    requires !r.FunctionOf?
    ensures Uses(Content(r, id, length)) == Needs(r) + (if r.ArrayOf? then {length} else {})
  {
    var i := Content(r, id, length);
    assert |i.operands| <= 8;
    if |i.operands| > 0 { assert i.operands[0] in From(i, 0, 1); }
    if |i.operands| > 1 { assert i.operands[1] in From(i, 1, 2) && i.operands[1] in From(i, 1, 3); }
    if |i.operands| > 2 { assert i.operands[2] in From(i, 1, 3) && i.operands[2] in From(i, 2, 3); }
  }

  /** The identifiers a declaration refers to, an array's length among them. */
  function Refers(m: Meaning): set<U32> {
    match m
    case Declares(_, r) => if r.ArrayOf? then {r.element, r.count} else Needs(r)
    case StructType(_, ms) => Members(ms)
    case CompositeOf(_, t, cs) => {t} + Members(cs)
    case Variable(_, p, _, o) => {p} + Members(Optional(o))
    case Unknown => {}
  }

  lemma FromIsMembers(i: Instruction, lo: nat)
    requires lo <= |i.operands|
    ensures From(i, lo, |i.operands|) == Members(i.operands[lo..])
  {
    forall x ensures x in From(i, lo, |i.operands|) <==> x in Members(i.operands[lo..]) {
      if x in From(i, lo, |i.operands|) {
        var k: nat :| lo <= k < |i.operands| && i.operands[k] == x;
        var j: nat := k - lo;
        assert i.operands[lo..][j] == x;
      }
      if x in Members(i.operands[lo..]) {
        var j: nat :| j < |i.operands[lo..]| && i.operands[lo..][j] == x;
        assert i.operands[lo + j] == x;
      }
    }
  }

  /** Whatever reads as a structure, a composite or a variable refers to exactly the identifiers it names, and
      defines the one it is read under. */
  lemma AggregateUses(i: Instruction)
    requires var m := ReadDeclaration(i); m.StructType? || m.CompositeOf? || m.Variable?
    ensures Uses(i) == Refers(ReadDeclaration(i)) && Defines(Types, i) == Some(ReadDeclaration(i).id)
  {
    var m, n := ReadDeclaration(i), |i.operands|;
    if m.StructType? {
      FromIsMembers(i, 1);
    } else if m.CompositeOf? {
      FromIsMembers(i, 2);
      FirstOperand(i);
    } else {
      FromIsMembers(i, 3);
      FirstOperand(i);
      assert Members(i.operands[3..]) == Members(Optional(m.initializer)) by {
        assert i.operands[3..] == Optional(m.initializer);
      }
    }
  }

  lemma FirstOperand(i: Instruction)
    requires |i.operands| > 0
    ensures From(i, 0, 1) == {i.operands[0]}
  {
  }

  // ---- function bodies ----

  /** The instructions of a function body without a result, by name. */
  const WITHOUT_RESULT: seq<(string, U16)> := [
    ("OpNop", 0), ("OpFunctionEnd", 56), ("OpStore", 62), ("OpImageWrite", 99), ("OpControlBarrier", 224),
    ("OpMemoryBarrier", 225), ("OpLoopMerge", 246), ("OpSelectionMerge", 247), ("OpBranch", 249),
    ("OpBranchConditional", 250), ("OpSwitch", 251), ("OpKill", 252), ("OpReturn", 253), ("OpReturnValue", 254),
    ("OpUnreachable", 255)]

  lemma StatementsAre(opcode: U16)
    ensures IsStatement(opcode) <==> exists k: nat :: k < |WITHOUT_RESULT| && WITHOUT_RESULT[k].1 == opcode
  {
    var t := WITHOUT_RESULT;
    assert t[0].1 == 0 && t[1].1 == 56 && t[2].1 == 62 && t[3].1 == 99 && t[4].1 == 224 && t[5].1 == 225;
    assert t[6].1 == 246 && t[7].1 == 247 && t[8].1 == 249 && t[9].1 == 250 && t[10].1 == 251 && t[11].1 == 252;
    assert t[12].1 == 253 && t[13].1 == 254 && t[14].1 == 255;
  }

  /** In a function body a label defines its identifier, an instruction with a result defines the fresh one it is
      answered with, and a statement defines none. */
  lemma BodyDefines(b: State, call: Call)
    requires Allowed(b, call) && (call.Labelled? || call.Result? || call.Statement?)
    ensures var (id, b') := Apply(b, call);
      && Code(b', Functions) == Code(b, Functions) + [Last(Code(b', Functions))]
      && Defines(Functions, Last(Code(b', Functions))) == if call.Statement? then None else Some(id)
  {
    hide Append, IsStatement;
    StatementIsNoLabel();
  }

  lemma StatementIsNoLabel()
    ensures !IsStatement(248)
  {
  }

  // ---- good runs exist ----

  lemma GoodCons(b: State, call: Call, rest: seq<Call>)
    requires Allowed(b, call) && AllDeclared(b, Passed(call)) && TypedCall(b, call) && GoodRun(Apply(b, call).1, rest)
    ensures GoodRun(b, [call] + rest)
  {
    hide Apply, Allowed, AllDeclared, TypedCall;
    assert ([call] + rest)[1..] == rest;
  }

  /** The first 32-bit unsigned type of a module has identifier 1. */
  lemma FirstType()
    ensures var b := Apply(INITIAL, Request(Int(32, false))).1;
      && b.nextId == 2 && TypeIs(b, 1, Int(32, false)) && DeclaredBelow(b, 1, |Code(b, Types)|)
  {
  }

  /** An integer type, a constant of it, and a function body's label and return. */
  lemma GoodRunExample()
    ensures GoodRun(INITIAL, [Request(Int(32, false)), Request(Constant32(1, 7)), Labelled(None), Statement(253, [])])
  {
    hide Apply, GoodRun, DeclaredBelow, TypeIs, IsStatement;
    var number, seven := Request(Int(32, false)), Request(Constant32(1, 7));
    var b1 := Apply(INITIAL, number).1;
    var b2 := Apply(b1, seven).1;
    var b3 := Apply(b2, Labelled(None)).1;
    FirstType();
    assert IsNumber(Int(32, false), false) && TypeIs(b1, 1, Int(32, false));
    Advances(b1, seven);
    Advances(b2, Labelled(None));
    StatementIsKnown();
    EndOfRun(Apply(b3, Statement(253, [])).1);
    GoodCons(b3, Statement(253, []), []);
    var last, two := [Statement(253, [])], [Labelled(None), Statement(253, [])];
    assert [Statement(253, [])] + [] == last && [Labelled(None)] + last == two;
    GoodCons(b2, Labelled(None), last);
    var three := [seven, Labelled(None), Statement(253, [])];
    assert [seven] + two == three;
    GoodCons(b1, seven, two);
    assert [number] + three == [number, seven, Labelled(None), Statement(253, [])];
    GoodCons(INITIAL, number, three);
  }

  lemma Advances(b: State, call: Call)
    requires b.nextId + 3 < TWO32 && (call == Request(Constant32(1, 7)) || call == Labelled(None))
    ensures Apply(b, call).1.nextId <= b.nextId + 1
  {
    hide Content, Defines;
  }

  lemma StatementIsKnown()
    ensures IsStatement(253)
  {
  }

  lemma EndOfRun(b: State)
    ensures GoodRun(b, [])
  {
  }
}
