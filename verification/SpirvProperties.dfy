/** What the invariant of the builder means: no type or constant is declared twice, a request is answered
    by the instruction that declares it, types are declared before they are used, and the finished module
    reads back as the emitted instructions. */
module SpirvProperties {
  import opened LittleEndian
  import opened SpirvModel
  import opened SpirvWords
  import opened Words

  // ---- nothing is declared twice ----

  /** The operands of an instruction of the types section other than the identifier it defines. */
  function Rest(i: Instruction): seq<U32> {
    if 19 <= i.opcode <= 33 then (if |i.operands| > 0 then i.operands[1..] else [])
    else if |i.operands| > 1 then [i.operands[0]] + i.operands[2..] else []
  }

  predicate SameShape(i: Instruction, i': Instruction) {
    i.opcode == i'.opcode && Rest(i) == Rest(i')
  }

  /** What a declaration says besides its identifier. */
  function Says(r: Request, length: U32): seq<U32> {
    match r
    case Void | Bool => []
    case Int(w, s) => [w, Flag(s)]
    case Float(w) => [w]
    case VectorOf(c, n) => [c, n]
    case Image(t, d, depth, arrayed, multisampled, s, f) => [t, d, Flag(depth), Flag(arrayed), Flag(multisampled), s, f]
    case SampledImage(t) => [t]
    case ArrayOf(e, _) => [e, length]
    case RuntimeArray(e) => [e]
    case Pointer(s, t) => [s, t]
    case FunctionOf(t, ps) => [t] + ps
    case ConstantBool(t, b) => [t]
    case Constant32(t, n) => [t, n]
    case Constant64(t, n) => [t, n % TWO32, n / TWO32]
    case Null(t) => [t]
  }

  lemma RestSays(r: Request, id: U32, length: U32)
    ensures Rest(Content(r, id, length)) == Says(r, length)
  {
  }

  /** The shape of a declaration tells the request, but for the count of an array. */
  lemma ShapeTells(r: Request, id: U32, l: U32, r': Request, id': U32, l': U32)
    requires SameShape(Content(r, id, l), Content(r', id', l'))
    ensures r == r' || (r.ArrayOf? && r'.ArrayOf? && r.element == r'.element && l == l')
  {
    hide Rest;
    RestSays(r, id, l);
    RestSays(r', id', l');
    var s, s' := Says(r, l), Says(r', l');
    assert |s| == |s'| && forall k :: 0 <= k < |s| ==> s[k] == s'[k];
    if r.FunctionOf? { assert s[1..] == r.parameters && s'[1..] == r'.parameters; }
  }

  lemma ConstantKeysDiffer(b: State, key: Key, key': Key)
    requires Inv(b) && key in b.interned && key' in b.interned && b.interned[key].id == b.interned[key'].id
    requires key.ConstantKey?
    ensures key == key'
  {
    hide DefinedOnce, AllInterned, Content, Rest;
    assert EntryOk(b, key) && EntryOk(b, key');
    var e, e' := b.interned[key], b.interned[key'];
    ShapeTells(e.origin, e.id, e.length, e'.origin, e'.id, e'.length);
  }

  /** Two dictionary keys never answer with the same identifier. */
  lemma KeysDiffer(b: State, key: Key, key': Key)
    requires Inv(b) && key in b.interned && key' in b.interned && b.interned[key].id == b.interned[key'].id
    ensures key == key'
  {
    hide DefinedOnce, AllInterned, Content, Rest, LengthOk;
    assert EntryOk(b, key) && EntryOk(b, key');
    var e, e' := b.interned[key], b.interned[key'];
    ShapeTells(e.origin, e.id, e.length, e'.origin, e'.id, e'.length);
    if e.origin != e'.origin { SameCount(b, e, e'); }
  }

  lemma SameCount(b: State, e: Interned, e': Interned)
    requires Inv(b) && e.origin.ArrayOf? && e'.origin.ArrayOf? && LengthOk(b, e) && LengthOk(b, e')
      && e.length == e'.length
    ensures e.origin.count == e'.origin.count
  {
    hide Inv;
    var word := b.interned[TypeKey(Int(32, false))].id;
    ConstantKeysDiffer(b, ConstantKey(word, e.origin.count), ConstantKey(word, e'.origin.count));
  }

  predicate IsAggregate(i: Instruction) {
    i.opcode in {30, 44, 59}
  }

  /** The dictionary entry an instruction of the types section comes from. */
  lemma EntryOf(b: State, k: nat) returns (key: Key)
    requires Inv(b) && k < |Code(b, Types)| && !IsAggregate(Code(b, Types)[k])
    ensures key in b.interned && EntryOk(b, key) && b.home[b.interned[key].id] == (Types, k)
    ensures Code(b, Types)[k] == Content(b.interned[key].origin, b.interned[key].id, b.interned[key].length)
  {
    hide Content, Defines;
    assert FromEntry(b, k) && AtHome(b, Types, k);
    key :| key in b.interned && Defines(Types, Code(b, Types)[k]) == Some(b.interned[key].id);
    assert EntryOk(b, key);
  }

  /** No type or constant is declared twice: declarations with the same content are one declaration. The
      aggregates, which may be repeated, are structures, composite constants and variables. */
  lemma DeclaredOnce(b: State, j: nat, k: nat)
    requires Inv(b) && j < |Code(b, Types)| && k < |Code(b, Types)| && !IsAggregate(Code(b, Types)[j])
    requires SameShape(Code(b, Types)[j], Code(b, Types)[k])
    ensures j == k
  {
    hide Inv, Content, Rest, LengthOk;
    var key := EntryOf(b, j);
    var key' := EntryOf(b, k);
    var e, e' := b.interned[key], b.interned[key'];
    ShapeTells(e.origin, e.id, e.length, e'.origin, e'.id, e'.length);
    if e.origin != e'.origin { SameCount(b, e, e'); }
  }

  // ---- a request is answered by its own declaration ----

  /** The identifier a request is answered with is declared by that request's instruction. */
  ghost predicate Answers(b: State, r: Request, id: U32) {
    && id in b.home && b.home[id].0 == Types && b.home[id].1 < |Code(b, Types)|
    && exists length: U32 :: Code(b, Types)[b.home[id].1] == Content(r, id, length)
  }

  lemma EntryAnswers(b: State, key: Key, r: Request)
    requires Inv(b) && key in b.interned && KeyOf(r) == key
    ensures Answers(b, r, b.interned[key].id) <==> b.interned[key].origin == r
  {
    hide DefinedOnce, AllInterned, Content, Rest, LengthOk;
    assert EntryOk(b, key);
    var e := b.interned[key];
    if Answers(b, r, e.id) {
      var length: U32 :| Code(b, Types)[b.home[e.id].1] == Content(r, e.id, length);
      ShapeTells(e.origin, e.id, e.length, r, e.id, length);
    }
  }

  /** A request is answered by its own declaration exactly when its dictionary key was free, or was taken by
      the same request. */
  lemma AnsweredIff(b: State, r: Request)
    requires Inv(b) && b.nextId + 1 < TWO32 && !r.ArrayOf?
    ensures var (id, b') := Simple(b, r);
      Answers(b', r, id) <==> KeyOf(r) !in b.interned || b.interned[KeyOf(r)].origin == r
  {
    hide Inv, Answers, KeyOf;
    SimpleKeeps(b, r);
    if KeyOf(r) !in b.interned { DeclareKeeps(b, r, 0); }
    EntryAnswers(Simple(b, r).1, KeyOf(r), r);
  }

  /** Only constants of one type share a key, and only these: a truth value with a number of the same value,
      a 32-bit with a 64-bit constant of the same value, and the null constant with 2^64 - 1. */
  predicate Clash(r: Request, r': Request) {
    match (r, r')
    case (ConstantBool(t, v), Constant32(t', n)) => t == t' && n == Flag(v)
    case (ConstantBool(t, v), Constant64(t', n)) => t == t' && n == Flag(v)
    case (Constant32(t, n), Constant64(t', n')) => t == t' && n == n'
    case (Constant64(t, n), Null(t')) => t == t' && n == TWO64 - 1
    case _ => false
  }

  lemma KeysClashIff(r: Request, r': Request)
    ensures KeyOf(r) == KeyOf(r') <==> r == r' || Clash(r, r') || Clash(r', r)
  {
    if KeyOf(r).ConstantKey? && KeyOf(r').ConstantKey? {
      ConstantsClashIff(r, r');
    }
  }

  lemma ConstantsClashIff(r: Request, r': Request)
    requires KeyOf(r).ConstantKey? && KeyOf(r').ConstantKey?
    ensures KeyOf(r) == KeyOf(r') <==> r == r' || Clash(r, r') || Clash(r', r)
  {
    match r
    case ConstantBool(_, _) =>
    case Constant32(_, _) =>
    case Constant64(_, _) =>
    case Null(_) =>
  }

  /** The null constant of a 64-bit type, asked for after its greatest constant, is answered by that one. */
  lemma NullSharesItsKey()
    ensures var calls := [Call.Request(Int(64, false)), Call.Request(Constant64(1, TWO64 - 1))];
      var b := Run(INITIAL, calls);
      AllowedRun(INITIAL, calls) && Intern(b, Null(1)).0 == 2 && !Answers(b, Null(1), 2)
      && Code(b, Types) == [Instruction(21, [1, 64, 0]), Instruction(43, [1, 2, 0xFFFF_FFFF, 0xFFFF_FFFF])]
  {
    var first, second := Call.Request(Int(64, false)), Call.Request(Constant64(1, TWO64 - 1));
    var b1 := Apply(INITIAL, first).1;
    assert b1.nextId == 2 && Code(b1, Types) == [Instruction(21, [1, 64, 0])]
      && b1.interned.Keys == {TypeKey(Int(64, false))};
    NullAfterGreatest(b1);
    var b2 := Apply(b1, second).1;
    assert [first, second][1..] == [second];
    assert Run(b1, [second]) == Run(b2, [second][1..]) == b2;
    assert AllowedRun(b1, [second]);
  }

  lemma NullAfterGreatest(b: State)
    requires b.nextId == 2 && Code(b, Types) == [Instruction(21, [1, 64, 0])]
      && b.interned.Keys == {TypeKey(Int(64, false))}
    ensures var b' := Apply(b, Call.Request(Constant64(1, TWO64 - 1))).1;
      && Intern(b', Null(1)).0 == 2 && !Answers(b', Null(1), 2)
      && Code(b', Types) == [Instruction(21, [1, 64, 0]), Instruction(43, [1, 2, 0xFFFF_FFFF, 0xFFFF_FFFF])]
  {
    var b' := Apply(b, Call.Request(Constant64(1, TWO64 - 1))).1;
    assert b' == Declare(b, Constant64(1, TWO64 - 1), 0).1;
    assert Code(b', Types)[1].opcode == 43;
  }

  // ---- constants requested with the width of their type ----

  predicate TypeIs(b: State, t: U32, o: Request) {
    TypeKey(o) in b.interned && b.interned[TypeKey(o)].id == t
  }

  predicate IsNumber(o: Request, wide: bool) {
    (o.Int? || o.Float?) && (o.width > 32) == wide
  }

  /** A truth value has the type of truth values, a constant has a number type of its own width, and the
      value that shares its key with the null constant is not asked for. */
  ghost predicate Typed(b: State, r: Request) {
    match r
    case ConstantBool(t, _) => TypeIs(b, t, Bool)
    case Constant32(t, _) => exists o :: IsNumber(o, false) && TypeIs(b, t, o)
    case Constant64(t, n) => n != TWO64 - 1 && exists o :: IsNumber(o, true) && TypeIs(b, t, o)
    case _ => true
  }

  ghost predicate AllTyped(b: State) {
    forall key :: key in b.interned ==> Typed(b, b.interned[key].origin)
  }

  lemma TypedStays(b: State, b': State, r: Request)
    requires Typed(b, r) && Extends(b, b')
    ensures Typed(b', r)
  {
    match r
    case Constant32(t, _) =>
      var o :| IsNumber(o, false) && TypeIs(b, t, o);
      assert TypeIs(b', t, o);
    case Constant64(t, _) =>
      var o :| IsNumber(o, true) && TypeIs(b, t, o);
      assert TypeIs(b', t, o);
    case _ =>
  }

  /** A type identifier names one type. */
  lemma OneType(b: State, t: U32, o: Request, o': Request)
    requires Inv(b) && TypeIs(b, t, o) && TypeIs(b, t, o')
    ensures o == o'
  {
    hide Inv;
    KeysDiffer(b, TypeKey(o), TypeKey(o'));
  }

  lemma TypedDoNotClash(b: State, r: Request, r': Request)
    requires Inv(b) && Typed(b, r) && Typed(b, r')
    ensures !Clash(r, r')
  {
    hide Inv;
    if Clash(r, r') {
      var t := r.type';
      if r.ConstantBool? {
        var wide := r'.Constant64?;
        var o: Request :| IsNumber(o, wide) && TypeIs(b, t, o);
        OneType(b, t, Bool, o);
      } else if r.Constant32? {
        var o :| IsNumber(o, false) && TypeIs(b, t, o);
        var o' :| IsNumber(o', true) && TypeIs(b, t, o');
        OneType(b, t, o, o');
      }
    }
  }

  /** A typed request, in a state made by typed requests, is answered by its own declaration. */
  lemma SimpleTyped(b: State, r: Request)
    requires Inv(b) && AllTyped(b) && Typed(b, r) && !r.ArrayOf? && b.nextId + 1 < TWO32
    ensures var (id, b') := Simple(b, r); AllTyped(b') && Answers(b', r, id)
  {
    hide Inv, Typed, Answers, KeyOf, Clash;
    var (id, b') := Simple(b, r);
    SimpleKeeps(b, r);
    AnsweredIff(b, r);
    if KeyOf(r) in b.interned {
      var o := b.interned[KeyOf(r)].origin;
      assert KeyOf(o) == KeyOf(r) by { EntryKey(b, KeyOf(r)); }
      KeysClashIff(o, r);
      TypedDoNotClash(b, o, r);
      TypedDoNotClash(b, r, o);
    } else {
      DeclareKeeps(b, r, 0);
      forall key | key in b'.interned ensures Typed(b', b'.interned[key].origin) {
        if key in b.interned { TypedStays(b, b', b.interned[key].origin); } else { TypedStays(b, b', r); }
      }
    }
  }

  lemma EntryKey(b: State, key: Key)
    requires Inv(b) && key in b.interned
    ensures KeyOf(b.interned[key].origin) == key
  {
    assert EntryOk(b, key);
  }

  lemma InternTyped(b: State, r: Request)
    requires Inv(b) && AllTyped(b) && Typed(b, r) && b.nextId + 3 < TWO32
    ensures var (id, b') := Intern(b, r); AllTyped(b') && Answers(b', r, id)
  {
    hide Inv, Typed, Answers, AllTyped, Simple, Declare;
    if r.ArrayOf? && KeyOf(r) !in b.interned {
      var (word, b1) := Simple(b, Int(32, false));
      var (length, b2) := Simple(b1, Constant32(word, r.count));
      SimpleKeeps(b, Int(32, false));
      TypeTyped(b, Int(32, false));
      SimpleTyped(b, Int(32, false));
      WordTyped(b1, word, r.count);
      SimpleKeeps(b1, Constant32(word, r.count));
      SimpleTyped(b1, Constant32(word, r.count));
      ArrayTyped(b2, r, length, word);
    } else if r.ArrayOf? {
      EntryKey(b, KeyOf(r));
      KeysClashIff(b.interned[KeyOf(r)].origin, r);
      EntryAnswers(b, KeyOf(r), r);
    } else {
      InternIsSimple(b, r);
      SimpleTyped(b, r);
    }
  }

  lemma InternIsSimple(b: State, r: Request)
    requires !r.ArrayOf?
    ensures Intern(b, r) == Simple(b, r)
  {
  }

  lemma TypeTyped(b: State, r: Request)
    requires KeyOf(r).TypeKey?
    ensures Typed(b, r)
  {
  }

  lemma WordTyped(b: State, word: U32, n: U32)
    requires TypeIs(b, word, Int(32, false))
    ensures Typed(b, Constant32(word, n))
  {
    assert IsNumber(Int(32, false), false);
  }

  lemma ArrayTyped(b: State, r: Request, length: U32, word: U32)
    requires Inv(b) && AllTyped(b) && r.ArrayOf? && KeyOf(r) !in b.interned && b.nextId + 1 < TWO32
    requires TypeIs(b, word, Int(32, false))
    requires var c := ConstantKey(word, r.count); c in b.interned && b.interned[c].id == length
    ensures var (id, b') := Declare(b, r, length); AllTyped(b') && Answers(b', r, id)
  {
    hide Inv, Typed, Answers;
    var b' := Declare(b, r, length).1;
    assert LengthOk(b, Interned(b.nextId, r, length));
    DeclareKeeps(b, r, length);
    EntryAnswers(b', KeyOf(r), r);
    forall key | key in b'.interned ensures Typed(b', b'.interned[key].origin) {
      if key in b.interned { TypedStays(b, b', b.interned[key].origin); } else { TypeTyped(b', r); }
    }
  }

  // ---- types are declared before they are used ----

  predicate DeclaredBelow(b: State, u: U32, k: nat) {
    u in b.home && b.home[u].0 == Types && b.home[u].1 < k
  }

  predicate UsesBelow(b: State, i: Instruction, k: nat) {
    forall u :: u in Uses(i) ==> DeclaredBelow(b, u, k)
  }

  /** Every identifier an instruction of the types section refers to is defined by an earlier one. */
  ghost predicate Ordered(b: State) {
    forall k :: 0 <= k < |Code(b, Types)| ==> UsesBelow(b, Code(b, Types)[k], k)
  }

  /** Appending to the types section keeps the order exactly when the new instruction refers to declared
      identifiers only. */
  lemma AppendOrderedIff(b: State, i: Instruction)
    requires DefinedOnce(b) && (Defines(Types, i).Some? ==> Defines(Types, i).value !in b.home)
    ensures Ordered(Append(b, Types, i)) <==> Ordered(b) && UsesBelow(b, i, |Code(b, Types)|)
  {
    hide Defines, Uses;
    var b', n := Append(b, Types, i), |Code(b, Types)|;
    forall u, k: nat | k <= n ensures DeclaredBelow(b', u, k) <==> DeclaredBelow(b, u, k) { }
    forall k | 0 <= k < n ensures Code(b', Types)[k] == Code(b, Types)[k] { }
    assert Code(b', Types)[n] == i;
    if Ordered(b') {
      assert UsesBelow(b', Code(b', Types)[n], n);
      forall k | 0 <= k < n ensures UsesBelow(b, Code(b, Types)[k], k) {
        assert UsesBelow(b', Code(b', Types)[k], k);
      }
    }
  }

  lemma OtherOrdered(b: State, s: Section, i: Instruction)
    requires Ordered(b) && s != Types && (Defines(s, i).Some? ==> Defines(s, i).value !in b.home)
    ensures Ordered(Append(b, s, i))
  {
    hide Defines, Uses;
    var b' := Append(b, s, i);
    forall k | 0 <= k < |Code(b', Types)| ensures UsesBelow(b', Code(b', Types)[k], k) {
      assert UsesBelow(b, Code(b, Types)[k], k);
    }
  }

  lemma BumpOrdered(b: State)
    requires Ordered(b)
    ensures Ordered(Bump(b))
  {
    hide Uses;
    forall k | 0 <= k < |Code(Bump(b), Types)| ensures UsesBelow(Bump(b), Code(Bump(b), Types)[k], k) {
      assert UsesBelow(b, Code(b, Types)[k], k);
    }
  }

  /** The identifiers a request passes in. */
  function Needs(r: Request): set<U32> {
    match r
    case VectorOf(c, _) => {c}
    case Image(t, _, _, _, _, _, _) => {t}
    case SampledImage(t) => {t}
    case ArrayOf(e, _) => {e}
    case RuntimeArray(e) => {e}
    case Pointer(_, t) => {t}
    case FunctionOf(t, ps) => {t} + Members(ps)
    case ConstantBool(t, _) => {t}
    case Constant32(t, _) => {t}
    case Constant64(t, _) => {t}
    case Null(t) => {t}
    case _ => {}
  }

  function Members(s: seq<U32>): set<U32> {
    set k: nat | k < |s| :: s[k]
  }

  lemma UsesOfContent(r: Request, id: U32, length: U32)
    ensures forall u :: u in Uses(Content(r, id, length)) ==> u in Needs(r) || (r.ArrayOf? && u == length)
  {
    hide Flag;
    if r.FunctionOf? {
      var i := Content(r, id, length);
      forall k: nat | 1 <= k < |i.operands| ensures i.operands[k] in Needs(r) {
        if k > 1 {
          var k2: nat := k - 2;
          assert i.operands[k] == r.parameters[k2];
        }
      }
    }
  }

  predicate AllDeclared(b: State, ids: set<U32>) {
    forall u :: u in ids ==> DeclaredBelow(b, u, |Code(b, Types)|)
  }

  lemma DeclareOrdered(b: State, r: Request, length: U32)
    requires Inv(b) && Ordered(b) && AllDeclared(b, Needs(r)) && KeyOf(r) !in b.interned && b.nextId + 1 < TWO32
    requires r.ArrayOf? ==> DeclaredBelow(b, length, |Code(b, Types)|)
    ensures Ordered(Declare(b, r, length).1)
  {
    hide Inv, Content, Uses, Needs, Defines, KeyOf;
    var i, b1 := Content(r, b.nextId, length), Bump(b);
    BumpKeeps(b);
    BumpOrdered(b);
    ContentDefines(r, b.nextId, length);
    UsesOfContent(r, b.nextId, length);
    assert UsesBelow(b1, i, |Code(b1, Types)|);
    InvDefined(b1);
    AppendOrderedIff(b1, i);
    SameOrder(Append(b1, Types, i), Declare(b, r, length).1);
  }

  lemma InvDefined(b: State)
    requires Inv(b)
    ensures DefinedOnce(b)
  {
  }

  lemma SameOrder(b: State, b': State)
    requires Ordered(b) && b'.code == b.code && b'.home == b.home
    ensures Ordered(b')
  {
    hide Uses;
    forall k | 0 <= k < |Code(b', Types)| ensures UsesBelow(b', Code(b', Types)[k], k) {
      assert UsesBelow(b, Code(b, Types)[k], k);
    }
  }

  /** What a dictionary answers with is declared. */
  lemma InternedDeclared(b: State, key: Key)
    requires Inv(b) && key in b.interned
    ensures DeclaredBelow(b, b.interned[key].id, |Code(b, Types)|)
  {
    assert EntryOk(b, key);
  }

  lemma SimpleOrdered(b: State, r: Request)
    requires Inv(b) && Ordered(b) && AllDeclared(b, Needs(r)) && !r.ArrayOf? && b.nextId + 1 < TWO32
    ensures var (id, b') := Simple(b, r);
      Ordered(b') && DeclaredBelow(b', id, |Code(b', Types)|) && AllDeclaredStay(b, b')
  {
    hide Inv, Ordered, Needs, KeyOf, DeclaredBelow, Content, Defines;
    SimpleKeeps(b, r);
    InternedDeclared(Simple(b, r).1, KeyOf(r));
    if KeyOf(r) !in b.interned {
      DeclareOrdered(b, r, 0);
      BumpKeeps(b);
      ContentDefines(r, b.nextId, 0);
      DeclaredStay(b, r, 0);
    }
  }

  ghost predicate AllDeclaredStay(b: State, b': State) {
    forall u :: DeclaredBelow(b, u, |Code(b, Types)|) ==> DeclaredBelow(b', u, |Code(b', Types)|)
  }

  lemma DeclaredStay(b: State, r: Request, length: U32)
    requires b.nextId !in b.home && Defines(Types, Content(r, b.nextId, length)) == Some(b.nextId)
    ensures AllDeclaredStay(b, Declare(b, r, length).1)
  {
    hide Content, Defines;
  }

  lemma InternOrdered(b: State, r: Request)
    requires Inv(b) && Ordered(b) && AllDeclared(b, Needs(r)) && b.nextId + 3 < TWO32
    ensures Ordered(Intern(b, r).1)
  {
    hide Inv, Ordered, KeyOf, DeclaredBelow, Declare, Simple;
    if KeyOf(r) !in b.interned {
      if r.ArrayOf? {
        var (word, b1) := Simple(b, Int(32, false));
        var (length, b2) := Simple(b1, Constant32(word, r.count));
        ArrayNotSimple(r);
        SimpleKeeps(b, Int(32, false));
        SimpleOrdered(b, Int(32, false));
        SimpleKeeps(b1, Constant32(word, r.count));
        SimpleOrdered(b1, Constant32(word, r.count));
        DeclareOrdered(b2, r, length);
      } else {
        DeclareOrdered(b, r, 0);
      }
    }
  }

  lemma ArrayNotSimple(r: Request)
    requires r.ArrayOf?
    ensures KeyOf(r) != KeyOf(Int(32, false)) && forall t, n :: KeyOf(r) != KeyOf(Constant32(t, n))
  {
  }

  lemma FreshOrdered(b: State, opcode: U16, before: seq<U32>, after: seq<U32>, ids: set<U32>)
    requires Inv(b) && Ordered(b) && AllDeclared(b, ids) && b.nextId + 1 < TWO32
    requires var i := Instruction(opcode, before + [b.nextId] + after);
      Uses(i) <= ids && Defines(Types, i) == Some(b.nextId)
    ensures Ordered(Fresh(b, Types, opcode, before, after).1)
  {
    hide Inv, Uses, Defines;
    BumpKeeps(b);
    BumpOrdered(b);
    InvDefined(Bump(b));
    AppendOrderedIff(Bump(b), Instruction(opcode, before + [b.nextId] + after));
  }

  lemma FreshOther(b: State, s: Section, opcode: U16, before: seq<U32>, after: seq<U32>)
    requires Inv(b) && Ordered(b) && b.nextId + 1 < TWO32 && s != Types
    requires var i := Instruction(opcode, before + [b.nextId] + after);
      Defines(s, i) == None || Defines(s, i) == Some(b.nextId)
    ensures Ordered(Fresh(b, s, opcode, before, after).1)
  {
    hide Inv, Uses, Defines;
    BumpKeeps(b);
    BumpOrdered(b);
    OtherOrdered(Bump(b), s, Instruction(opcode, before + [b.nextId] + after));
  }

  /** The identifiers a call passes to the types section. */
  function Passed(call: Call): set<U32> {
    match call
    case Request(r) => Needs(r)
    case Struct(ms) => Members(ms)
    case Composite(t, cs) => {t} + Members(cs)
    case Global(p, _, o) => {p} + Members(Optional(o))
    case _ => {}
  }

  lemma StructUses(id: U32, ms: seq<U32>)
    ensures Uses(Instruction(30, [] + [id] + ms)) <= Members(ms)
  {
    var i := Instruction(30, [] + [id] + ms);
    forall k: nat | 1 <= k < |i.operands| ensures i.operands[k] in Members(ms) {
      var k1: nat := k - 1;
      assert i.operands[k] == ms[k1];
    }
  }

  lemma CompositeUses(t: U32, id: U32, cs: seq<U32>)
    ensures Uses(Instruction(44, [t] + [id] + cs)) <= {t} + Members(cs)
  {
    var i := Instruction(44, [t] + [id] + cs);
    forall k: nat | 2 <= k < |i.operands| ensures i.operands[k] in Members(cs) {
      var k2: nat := k - 2;
      assert i.operands[k] == cs[k2];
    }
  }

  lemma GlobalUses(p: U32, id: U32, s: U32, o: Option<U32>)
    ensures Uses(Instruction(59, [p] + [id] + ([s] + Optional(o)))) <= {p} + Members(Optional(o))
  {
    var i := Instruction(59, [p] + [id] + ([s] + Optional(o)));
    forall k: nat | 3 <= k < |i.operands| ensures i.operands[k] in Members(Optional(o)) {
      var k3: nat := k - 3;
      assert i.operands[k] == Optional(o)[k3];
    }
  }

  lemma ApplyOrdered(b: State, call: Call)
    requires Inv(b) && Ordered(b) && Allowed(b, call) && AllDeclared(b, Passed(call))
    ensures Ordered(Apply(b, call).1)
  {
    hide Inv, Ordered, Intern, Append, Bump, Uses, Members, Needs, DeclaredBelow, Fresh, AllDeclared;
    match call
    case AllocateId => BumpOrdered(b);
    case Capability(c) =>
      var b1 := b.(capabilities := b.capabilities + {c});
      SameOrder(b, b1);
      OtherOrdered(b1, Capabilities, Instruction(17, [c]));
    case Import(name, words) =>
      if name !in b.imports {
        FreshOther(b, Imports, 11, [], words);
        var (id, b') := Fresh(b, Imports, 11, [], words);
        SameOrder(b', b'.(imports := b.imports[name := id]));
      }
    case Note(s, i) => OtherOrdered(b, s, i);
    case Request(r) => InternOrdered(b, r);
    case Truth(v) => TruthOrdered(b, v);
    case Struct(ms) => StructUses(b.nextId, ms); FreshOrdered(b, 30, [], ms, Members(ms));
    case Composite(t, cs) => CompositeUses(t, b.nextId, cs); FreshOrdered(b, 44, [t], cs, {t} + Members(cs));
    case Global(p, s, o) =>
      GlobalUses(p, b.nextId, s, o);
      FreshOrdered(b, 59, [p], [s] + Optional(o), {p} + Members(Optional(o)));
    case Labelled(None) => FreshOther(b, Functions, 248, [], []);
    case Labelled(Some(id)) => OtherOrdered(b, Functions, Instruction(248, [id]));
    case Result(op, t, os) => FreshOther(b, Functions, op, [t], os);
    case Statement(op, os) => OtherOrdered(b, Functions, Instruction(op, os));
  }

  lemma TruthOrdered(b: State, v: bool)
    requires Inv(b) && Ordered(b) && b.nextId + 3 < TWO32
    ensures Ordered(Apply(b, Truth(v)).1)
  {
    hide Inv, Ordered, DeclaredBelow, KeyOf, Declare;
    var (t, b1) := Simple(b, Bool);
    SimpleKeeps(b, Bool);
    SimpleOrdered(b, Bool);
    SimpleOrdered(b1, ConstantBool(t, v));
  }

  // ---- every run ----

  ghost predicate TypedCall(b: State, call: Call) {
    call.Request? ==> Typed(b, call.r)
  }

  /** Callers pass identifiers of declared types, use opcodes where they belong, and ask for constants with
      the width of their type. */
  ghost predicate GoodRun(b: State, calls: seq<Call>)
    decreases |calls|
  {
    calls == [] ||
    (&& Allowed(b, calls[0]) && AllDeclared(b, Passed(calls[0])) && TypedCall(b, calls[0])
     && GoodRun(Apply(b, calls[0]).1, calls[1..]))
  }

  lemma ExtendsTyped(b: State, b': State)
    requires AllTyped(b) && b'.interned == b.interned
    ensures AllTyped(b')
  {
    hide Typed;
    forall key | key in b'.interned ensures Typed(b', b'.interned[key].origin) {
      TypedStays(b, b', b.interned[key].origin);
    }
  }

  lemma ApplyTyped(b: State, call: Call)
    requires Inv(b) && AllTyped(b) && Allowed(b, call) && TypedCall(b, call)
    ensures AllTyped(Apply(b, call).1)
  {
    hide Inv, AllTyped, Intern, Typed, Defines;
    match call
    case Request(r) => InternTyped(b, r);
    case Truth(v) => TruthTyped(b, v);
    case _ => ExtendsTyped(b, Apply(b, call).1);
  }

  lemma TruthTyped(b: State, v: bool)
    requires Inv(b) && AllTyped(b) && b.nextId + 3 < TWO32
    ensures AllTyped(Apply(b, Truth(v)).1)
  {
    hide Inv, AllTyped, Declare, Answers;
    var (t, b1) := Simple(b, Bool);
    SimpleKeeps(b, Bool);
    SimpleTyped(b, Bool);
    SimpleTyped(b1, ConstantBool(t, v));
  }

  lemma {:induction false} RunGood(b: State, calls: seq<Call>)
    requires Inv(b) && Ordered(b) && AllTyped(b) && GoodRun(b, calls)
    ensures Inv(Run(b, calls)) && Ordered(Run(b, calls)) && AllTyped(Run(b, calls))
    decreases |calls|
  {
    hide Inv, Ordered, AllTyped, Apply, Allowed, AllDeclared, TypedCall;
    if calls != [] {
      ApplyKeeps(b, calls[0]);
      ApplyOrdered(b, calls[0]);
      ApplyTyped(b, calls[0]);
      RunGood(Apply(b, calls[0]).1, calls[1..]);
    }
  }

  /** Two declarations in the types section that say the same. */
  predicate Twins(b: State, j: int, k: int) {
    && 0 <= j < |Code(b, Types)| && 0 <= k < |Code(b, Types)|
    && !IsAggregate(Code(b, Types)[j]) && SameShape(Code(b, Types)[j], Code(b, Types)[k])
  }

  /** In every good run from an empty builder: each identifier has one definition, below the header's bound;
      every type operand is declared earlier; no type or constant is declared twice; and asking for anything
      is answered by its own declaration. */
  lemma EveryGoodRun(calls: seq<Call>, r: Request)
    requires GoodRun(INITIAL, calls)
    ensures var b := Run(INITIAL, calls);
      && DefinedOnce(b) && Ordered(b)
      && (forall j, k :: Twins(b, j, k) ==> j == k)
      && (Typed(b, r) && b.nextId + 3 < TWO32 ==> var (id, b') := Intern(b, r); Answers(b', r, id))
  {
    hide Inv, Ordered, AllTyped, GoodRun, Answers, Typed, SameShape, IsAggregate, Intern, Run;
    var b := Run(INITIAL, calls);
    InitialKept();
    InitialOrdered();
    RunGood(INITIAL, calls);
    InvDefined(b);
    forall j, k | Twins(b, j, k) ensures j == k {
      DeclaredOnce(b, j, k);
    }
    if Typed(b, r) && b.nextId + 3 < TWO32 { InternTyped(b, r); }
  }

  lemma InitialOrdered()
    ensures Ordered(INITIAL) && AllTyped(INITIAL)
  {
  }

  // ---- the finished module ----

  const MAGIC: U32 := 0x0723_0203
  const VERSION: U32 := 0x0001_0500
  const GENERATOR: U32 := 0x5350_4500

  function SectionCode(b: State, sections: seq<Section>): seq<Instruction> {
    if sections == [] then [] else Code(b, sections[0]) + SectionCode(b, sections[1..])
  }

  function SectionWords(b: State, sections: seq<Section>): seq<U32> {
    if sections == [] then [] else FrameAll(Code(b, sections[0])) + SectionWords(b, sections[1..])
  }

  lemma {:induction false} SectionsFramed(b: State, sections: seq<Section>)
    ensures SectionWords(b, sections) == FrameAll(SectionCode(b, sections))
  {
    if sections != [] {
      SectionsFramed(b, sections[1..]);
      FrameAllAppend(Code(b, sections[0]), SectionCode(b, sections[1..]));
    }
  }

  /** The finished module's words: the header with the identifier bound, then the sections in order. */
  function ModuleWords(b: State): seq<U32> {
    [MAGIC, VERSION, GENERATOR, b.nextId, 0] + SectionWords(b, SECTIONS)
  }

  /** Reading the finished module's bytes gives the header and, walking the rest, the emitted instructions in
      section order, exactly when each of them has fewer than 65536 words. */
  lemma ModuleReadsBackIff(b: State)
    ensures var words := ReadWords(Bytes(ModuleWords(b)));
      && |words| >= 5 && words[..5] == [MAGIC, VERSION, GENERATOR, b.nextId, 0]
      && (Walk(words[5..]) == Some(SectionCode(b, SECTIONS)) <==>
          forall k :: 0 <= k < |SectionCode(b, SECTIONS)| ==> Fits(SectionCode(b, SECTIONS)[k]))
  {
    hide Walk, FrameAll;
    BytesRoundTrip(ModuleWords(b));
    SectionsFramed(b, SECTIONS);
    assert ModuleWords(b)[5..] == SectionWords(b, SECTIONS);
    WalkRecoversIff(SectionCode(b, SECTIONS));
  }

  /** A module with one such instruction, a name of 65534 words, does not read back. */
  lemma LongModule()
    ensures var i := Instruction(5, seq(0xFFFF, k => 0));
      var b := Run(INITIAL, [Note(Debug, i)]);
      var words := ReadWords(Bytes(ModuleWords(b)));
      && AllowedRun(INITIAL, [Note(Debug, i)])
      && |words| >= 5 && Walk(words[5..]) != Some(SectionCode(b, SECTIONS))
  {
    var i := Instruction(5, seq(0xFFFF, k => 0));
    var b := Apply(INITIAL, Note(Debug, i)).1;
    assert [Note(Debug, i)][1..] == [];
    assert Run(INITIAL, [Note(Debug, i)]) == Run(b, []) == b;
    LongInstruction(5);
    ModuleReadsBackIff(b);
    assert i in SectionCode(b, SECTIONS) by { InSections(b, i, SECTIONS); }
    var k :| 0 <= k < |SectionCode(b, SECTIONS)| && SectionCode(b, SECTIONS)[k] == i;
    assert !Fits(SectionCode(b, SECTIONS)[k]);
  }

  lemma {:induction false} InSections(b: State, i: Instruction, sections: seq<Section>)
    requires Debug in sections && i in Code(b, Debug)
    ensures i in SectionCode(b, sections)
    decreases |sections|
  {
    if sections[0] != Debug { InSections(b, i, sections[1..]); }
  }
}
