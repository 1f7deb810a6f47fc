/** The builder's calls as steps on the instructions of each section, the identifiers handed out and the
    types and constants already declared; and what every run of calls keeps (sections 2.4 and 2.8 of the
    SPIR-V Specification: section order, one definition per identifier, no type declared twice). */
module SpirvModel {
  import opened LittleEndian
  import opened SpirvWords
  import opened Words

  datatype Section =
    | Capabilities | Extensions | Imports | MemoryModel | EntryPoints | ExecutionModes | Debug | Annotations
    | Types | Functions

  const SECTIONS: seq<Section> :=
    [Capabilities, Extensions, Imports, MemoryModel, EntryPoints, ExecutionModes, Debug, Annotations, Types, Functions]

  // ---- interned requests ----

  datatype Request =
    | Void
    | Bool
    | Int(width: U32, signed: bool)
    | Float(width: U32)
    | VectorOf(component: U32, count: U32)
    | Image(sampledType: U32, dimension: U32, depth: bool, arrayed: bool, multisampled: bool, sampled: U32, format: U32)
    | SampledImage(image: U32)
    | ArrayOf(element: U32, count: U32)
    | RuntimeArray(element: U32)
    | Pointer(storage: U32, pointee: U32)
    | FunctionOf(result: U32, parameters: seq<U32>)
    | ConstantBool(type': U32, truth: bool)
    | Constant32(type': U32, value32: U32)
    | Constant64(type': U32, value64: U64)
    | Null(type': U32)

  /** The dictionary key of a request. Constants share one dictionary, keyed by type and value alone. */
  datatype Key = TypeKey(request: Request) | ConstantKey(type': U32, value: U64)

  function KeyOf(r: Request): Key {
    match r
    case ConstantBool(t, b) => ConstantKey(t, if b then 1 else 0)
    case Constant32(t, n) => ConstantKey(t, n)
    case Constant64(t, n) => ConstantKey(t, n)
    case Null(t) => ConstantKey(t, TWO64 - 1)
    case _ => TypeKey(r)
  }

  function Flag(b: bool): U32 {
    if b then 1 else 0
  }

  /** The instruction that declares a request under an identifier; an array names its length constant. */
  function Content(r: Request, id: U32, length: U32): Instruction {
    match r
    case Void => Instruction(19, [id])
    case Bool => Instruction(20, [id])
    case Int(w, s) => Instruction(21, [id, w, Flag(s)])
    case Float(w) => Instruction(22, [id, w])
    case VectorOf(c, n) => Instruction(23, [id, c, n])
    case Image(t, d, depth, arrayed, multisampled, s, f) =>
      Instruction(25, [id, t, d, Flag(depth), Flag(arrayed), Flag(multisampled), s, f])
    case SampledImage(t) => Instruction(27, [id, t])
    case ArrayOf(e, _) => Instruction(28, [id, e, length])
    case RuntimeArray(e) => Instruction(29, [id, e])
    case Pointer(s, t) => Instruction(32, [id, s, t])
    case FunctionOf(t, ps) => Instruction(33, [id, t] + ps)
    case ConstantBool(t, b) => Instruction(if b then 41 else 42, [t, id])
    case Constant32(t, n) => Instruction(43, [t, id, n])
    case Constant64(t, n) => Instruction(43, [t, id, n % TWO32, n / TWO32])
    case Null(t) => Instruction(46, [t, id])
  }

  // ---- the grammar: what an instruction defines and uses ----

  /** The opcodes of a function body that define no identifier. */
  predicate IsStatement(opcode: U16) {
    opcode in {0, 56, 62, 99, 224, 225, 246, 247} || 249 <= opcode <= 255
  }

  function Defines(section: Section, i: Instruction): Option<U32> {
    match section
    case Imports => At(i, 0)
    case Types => if 19 <= i.opcode <= 33 then At(i, 0) else At(i, 1)
    case Functions => if IsStatement(i.opcode) then None else if i.opcode == 248 then At(i, 0) else At(i, 1)
    case _ => None
  }

  function At(i: Instruction, k: nat): Option<U32> {
    if k < |i.operands| then Some(i.operands[k]) else None
  }

  /** The identifiers an instruction of the types section refers to. */
  function Uses(i: Instruction): set<U32> {
    if i.opcode in {23, 25, 27, 29} then From(i, 1, 2)
    else if i.opcode == 28 then From(i, 1, 3)
    else if i.opcode == 32 then From(i, 2, 3)
    else if i.opcode in {30, 33} then From(i, 1, |i.operands|)
    else if i.opcode in {41, 42, 43, 46} then From(i, 0, 1)
    else if i.opcode == 44 then From(i, 0, 1) + From(i, 2, |i.operands|)
    else if i.opcode == 59 then From(i, 0, 1) + From(i, 3, |i.operands|)
    else {}
  }

  function From(i: Instruction, lo: nat, hi: nat): set<U32> {
    set k: nat | lo <= k < hi && k < |i.operands| :: i.operands[k]
  }

  // ---- the state ----

  datatype Interned = Interned(id: U32, origin: Request, length: U32)

  /** `home` says where each identifier is defined. */
  datatype State = State(
    code: map<Section, seq<Instruction>>, nextId: U32, interned: map<Key, Interned>, imports: map<seq<U8>, U32>,
    capabilities: set<U32>, home: map<U32, (Section, nat)>)

  const INITIAL: State := State(map[], 1, map[], map[], {}, map[])

  function Code(b: State, s: Section): seq<Instruction> {
    if s in b.code then b.code[s] else []
  }

  function Append(b: State, s: Section, i: Instruction): (b': State)
    ensures b'.nextId == b.nextId && b'.interned == b.interned && b'.imports == b.imports
      && b'.capabilities == b.capabilities
    ensures forall t :: Code(b', t) == if t == s then Code(b, t) + [i] else Code(b, t)
  {
    var at := |Code(b, s)|;
    var home := match Defines(s, i) case Some(id) => b.home[id := (s, at)] case None => b.home;
    b.(code := b.code[s := Code(b, s) + [i]], home := home)
  }

  /** The counter of identifiers wraps round in 32 bits. */
  function Bump(b: State): State {
    b.(nextId := (b.nextId + 1) % TWO32)
  }

  function Declare(b: State, r: Request, length: U32): (U32, State) {
    var id := b.nextId;
    var b' := Append(Bump(b), Types, Content(r, id, length));
    (id, b'.(interned := b.interned[KeyOf(r) := Interned(id, r, length)]))
  }

  function Simple(b: State, r: Request): (U32, State) {
    if KeyOf(r) in b.interned then (b.interned[KeyOf(r)].id, b) else Declare(b, r, 0)
  }

  /** An array first asks for the constant that holds its length. */
  function Intern(b: State, r: Request): (U32, State) {
    if KeyOf(r) in b.interned then (b.interned[KeyOf(r)].id, b)
    else if r.ArrayOf? then
      var (word, b1) := Simple(b, Int(32, false));
      var (length, b2) := Simple(b1, Constant32(word, r.count));
      Declare(b2, r, length)
    else Declare(b, r, 0)
  }

  datatype Call =
    | AllocateId
    | Capability(c: U32)
    | Import(name: seq<U8>, words: seq<U32>)
    | Note(section: Section, note: Instruction)
    | Request(r: Request)
    | Truth(truth: bool)
    | Struct(members: seq<U32>)
    | Composite(type': U32, constituents: seq<U32>)
    | Global(pointer: U32, storage: U32, initializer: Option<U32>)
    | Labelled(id: Option<U32>)
    | Result(opcode: U16, type': U32, operands: seq<U32>)
    | Statement(opcode: U16, operands: seq<U32>)

  function Optional(o: Option<U32>): seq<U32> {
    match o case None => [] case Some(x) => [x]
  }

  /** An instruction with a fresh identifier after some operands and before others. */
  function Fresh(b: State, s: Section, opcode: U16, before: seq<U32>, after: seq<U32>): (U32, State) {
    (b.nextId, Append(Bump(b), s, Instruction(opcode, before + [b.nextId] + after)))
  }

  function Apply(b: State, call: Call): (U32, State) {
    match call
    case AllocateId => (b.nextId, Bump(b))
    case Capability(c) =>
      (0, if c in b.capabilities then b
          else Append(b.(capabilities := b.capabilities + {c}), Capabilities, Instruction(17, [c])))
    case Import(name, words) =>
      if name in b.imports then (b.imports[name], b)
      else var (id, b') := Fresh(b, Imports, 11, [], words); (id, b'.(imports := b.imports[name := id]))
    case Note(s, i) => (0, Append(b, s, i))
    case Request(r) => Intern(b, r)
    case Truth(v) => var (t, b') := Intern(b, Bool); Intern(b', ConstantBool(t, v))
    case Struct(ms) => Fresh(b, Types, 30, [], ms)
    case Composite(t, cs) => Fresh(b, Types, 44, [t], cs)
    case Global(p, s, o) => Fresh(b, Types, 59, [p], [s] + Optional(o))
    case Labelled(None) => Fresh(b, Functions, 248, [], [])
    case Labelled(Some(id)) => (id, Append(b, Functions, Instruction(248, [id])))
    case Result(op, t, os) => Fresh(b, Functions, op, [t], os)
    case Statement(op, os) => (0, Append(b, Functions, Instruction(op, os)))
  }

  function Run(b: State, calls: seq<Call>): State
    decreases |calls|
  {
    if calls == [] then b else Run(Apply(b, calls[0]).1, calls[1..])
  }

  // ---- what every run keeps ----

  /** Every defined identifier is below the bound and defined at exactly one place. */
  ghost predicate DefinedOnce(b: State) {
    && 0 < b.nextId
    && (forall id :: id in b.home ==> 0 < id < b.nextId)
    && (forall s, k :: 0 <= k < |Code(b, s)| ==> AtHome(b, s, k))
    && (forall id :: id in b.home ==> HomeDefines(b, id))
  }

  predicate AtHome(b: State, s: Section, k: nat)
    requires k < |Code(b, s)|
  {
    var d := Defines(s, Code(b, s)[k]);
    d.Some? ==> d.value in b.home && b.home[d.value] == (s, k)
  }

  predicate HomeDefines(b: State, id: U32)
    requires id in b.home
  {
    var (s, k) := b.home[id];
    k < |Code(b, s)| && Defines(s, Code(b, s)[k]) == Some(id)
  }

  /** Each dictionary entry is the instruction that declares the request it was made for. */
  ghost predicate Interns(b: State) {
    forall key :: key in b.interned ==> EntryOk(b, key)
  }

  ghost predicate EntryOk(b: State, key: Key)
    requires key in b.interned
  {
    var e := b.interned[key];
    && KeyOf(e.origin) == key
    && e.id in b.home && b.home[e.id].0 == Types && b.home[e.id].1 < |Code(b, Types)|
    && Code(b, Types)[b.home[e.id].1] == Content(e.origin, e.id, e.length)
    && (e.origin.ArrayOf? ==> LengthOk(b, e))
  }

  /** An array's length is the constant its count asks for. */
  ghost predicate LengthOk(b: State, e: Interned)
    requires e.origin.ArrayOf?
  {
    var word := TypeKey(Int(32, false));
    && word in b.interned
    && var c := ConstantKey(b.interned[word].id, e.origin.count);
    c in b.interned && b.interned[c].id == e.length
  }

  /** Every type and constant but the aggregates comes from a dictionary entry. */
  ghost predicate AllInterned(b: State) {
    forall k :: 0 <= k < |Code(b, Types)| ==> FromEntry(b, k)
  }

  ghost predicate FromEntry(b: State, k: nat)
    requires k < |Code(b, Types)|
  {
    var i := Code(b, Types)[k];
    i.opcode in {30, 44, 59} || exists key :: key in b.interned && Defines(Types, i) == Some(b.interned[key].id)
  }

  ghost predicate Inv(b: State) {
    DefinedOnce(b) && Interns(b) && AllInterned(b)
  }

  /** A call the source's callers may make: opcodes are used where they belong, a label's identifier was
      handed out and not defined before, and identifiers are left. */
  predicate Allowed(b: State, call: Call) {
    && b.nextId + 3 < TWO32
    && match call
       case Note(s, _) => s !in {Imports, Types, Functions}
       case Labelled(Some(id)) => 0 < id < b.nextId && id !in b.home
       case Result(op, _, _) => !IsStatement(op) && op != 248
       case Statement(op, _) => IsStatement(op)
       case _ => true
  }

  ghost predicate AllowedRun(b: State, calls: seq<Call>)
    decreases |calls|
  {
    calls == [] || (Allowed(b, calls[0]) && AllowedRun(Apply(b, calls[0]).1, calls[1..]))
  }

  // ---- one instruction appended ----

  /** Appending an instruction keeps one definition per identifier when what it defines is new. */
  lemma AppendDefinedOnce(b: State, s: Section, i: Instruction)
    requires DefinedOnce(b)
    requires Defines(s, i).Some? ==> 0 < Defines(s, i).value < b.nextId && Defines(s, i).value !in b.home
    ensures DefinedOnce(Append(b, s, i))
  {
    hide Defines;
    var b' := Append(b, s, i);
    forall t, k | 0 <= k < |Code(b', t)| ensures AtHome(b', t, k) {
      if t != s || k < |Code(b, s)| {
        assert AtHome(b, t, k);
        assert Code(b', t)[k] == Code(b, t)[k];
      }
    }
    forall id | id in b'.home ensures HomeDefines(b', id) {
      if id in b.home {
        assert HomeDefines(b, id);
        assert Code(b', b.home[id].0)[b.home[id].1] == Code(b, b.home[id].0)[b.home[id].1];
      }
    }
  }

  /** It keeps the dictionaries' entries. */
  lemma AppendInterns(b: State, s: Section, i: Instruction)
    requires Interns(b) && (Defines(s, i).Some? ==> Defines(s, i).value !in b.home)
    ensures Interns(Append(b, s, i))
  {
    hide Defines, Content;
    var b' := Append(b, s, i);
    forall key | key in b'.interned ensures EntryOk(b', key) {
      assert EntryOk(b, key);
      assert Code(b', Types)[b.home[b.interned[key].id].1] == Code(b, Types)[b.home[b.interned[key].id].1];
    }
  }

  lemma AppendAllInterned(b: State, s: Section, i: Instruction)
    requires AllInterned(b) && (s == Types ==> i.opcode in {30, 44, 59})
    ensures AllInterned(Append(b, s, i))
  {
    hide Defines;
    var b' := Append(b, s, i);
    forall k | 0 <= k < |Code(b', Types)| ensures FromEntry(b', k) {
      if k < |Code(b, Types)| {
        assert FromEntry(b, k) && Code(b', Types)[k] == Code(b, Types)[k];
      }
    }
  }

  lemma AppendKeeps(b: State, s: Section, i: Instruction)
    requires Inv(b) && (s == Types ==> i.opcode in {30, 44, 59})
    requires Defines(s, i).Some? ==> 0 < Defines(s, i).value < b.nextId && Defines(s, i).value !in b.home
    ensures Inv(Append(b, s, i))
  {
    hide DefinedOnce, Interns, AllInterned, Defines;
    AppendDefinedOnce(b, s, i);
    AppendInterns(b, s, i);
    AppendAllInterned(b, s, i);
  }

  lemma BumpKeeps(b: State)
    requires Inv(b) && b.nextId + 1 < TWO32
    ensures Inv(Bump(b)) && Bump(b).nextId == b.nextId + 1 && 0 < b.nextId && b.nextId !in b.home
  {
    hide Defines, Content;
    var b' := Bump(b);
    forall s, k | 0 <= k < |Code(b', s)| ensures AtHome(b', s, k) { assert AtHome(b, s, k); }
    forall id | id in b'.home ensures HomeDefines(b', id) { assert HomeDefines(b, id); }
    forall key | key in b'.interned ensures EntryOk(b', key) { assert EntryOk(b, key); }
    forall k | 0 <= k < |Code(b', Types)| ensures FromEntry(b', k) { assert FromEntry(b, k); }
  }

  lemma ContentDefines(r: Request, id: U32, length: U32)
    ensures Defines(Types, Content(r, id, length)) == Some(id)
  {
  }

  lemma DeclareKeeps(b: State, r: Request, length: U32)
    requires Inv(b) && KeyOf(r) !in b.interned && b.nextId + 1 < TWO32
    requires r.ArrayOf? ==> LengthOk(b, Interned(b.nextId, r, length))
    ensures var (id, b') := Declare(b, r, length);
      && Inv(b') && id == b.nextId && b'.nextId == b.nextId + 1
      && b'.interned == b.interned[KeyOf(r) := Interned(id, r, length)]
  {
    hide Defines, Content, KeyOf, DefinedOnce;
    var i := Content(r, b.nextId, length);
    var b1 := Append(Bump(b), Types, i);
    var b2 := Declare(b, r, length).1;
    BumpKeeps(b);
    ContentDefines(r, b.nextId, length);
    AppendDefinedOnce(Bump(b), Types, i);
    AppendInterns(Bump(b), Types, i);
    SameCode(b1, b2);
    forall key | key in b2.interned ensures EntryOk(b2, key) {
      if key != KeyOf(r) { assert EntryOk(b1, key); }
    }
    forall k | 0 <= k < |Code(b2, Types)| ensures FromEntry(b2, k) {
      if k < |Code(b, Types)| {
        DeclaredStays(b, b2, r, length, k);
      } else {
        assert b2.interned[KeyOf(r)].id == b.nextId;
      }
    }
  }

  lemma DeclaredStays(b: State, b2: State, r: Request, length: U32, k: nat)
    requires AllInterned(b) && k < |Code(b, Types)| < |Code(b2, Types)| && Code(b2, Types)[k] == Code(b, Types)[k]
    requires KeyOf(r) !in b.interned && b2.interned == b.interned[KeyOf(r) := Interned(b.nextId, r, length)]
    ensures FromEntry(b2, k)
  {
    hide Defines, KeyOf;
    assert FromEntry(b, k);
    var i := Code(b, Types)[k];
    if i.opcode !in {30, 44, 59} {
      var key :| key in b.interned && Defines(Types, i) == Some(b.interned[key].id);
      assert key in b2.interned && b2.interned[key] == b.interned[key];
    }
  }

  lemma SameCode(b1: State, b2: State)
    requires DefinedOnce(b1) && b2.code == b1.code && b2.home == b1.home && b2.nextId == b1.nextId
    ensures DefinedOnce(b2)
  {
    hide Defines;
    forall s, k | 0 <= k < |Code(b2, s)| ensures AtHome(b2, s, k) { assert AtHome(b1, s, k); }
    forall id | id in b2.home ensures HomeDefines(b2, id) { assert HomeDefines(b1, id); }
  }

  /** Asking for something that is no array keeps the invariant; the answer is the entry it leaves. */
  lemma SimpleKeeps(b: State, r: Request)
    requires Inv(b) && !r.ArrayOf? && b.nextId + 1 < TWO32
    ensures var (id, b') := Simple(b, r);
      && Inv(b') && b.nextId <= b'.nextId <= b.nextId + 1 && Extends(b, b')
      && KeyOf(r) in b'.interned && b'.interned[KeyOf(r)].id == id
      && (forall key :: key in b'.interned ==> key in b.interned || key == KeyOf(r))
  {
    hide Inv, KeyOf, Declare;
    if KeyOf(r) !in b.interned { DeclareKeeps(b, r, 0); }
  }

  /** Entries, once made, stay. */
  predicate Extends(b: State, b': State) {
    forall key :: key in b.interned ==> key in b'.interned && b'.interned[key] == b.interned[key]
  }

  lemma InternKeeps(b: State, r: Request)
    requires Inv(b) && b.nextId + 3 < TWO32
    ensures var (id, b') := Intern(b, r);
      && Inv(b') && b.nextId <= b'.nextId <= b.nextId + 3 && Extends(b, b')
      && KeyOf(r) in b'.interned && b'.interned[KeyOf(r)].id == id
  {
    hide Inv, Declare, Simple;
    if KeyOf(r) !in b.interned {
      if r.ArrayOf? {
        var (word, b1) := Simple(b, Int(32, false));
        var (length, b2) := Simple(b1, Constant32(word, r.count));
        SimpleKeeps(b, Int(32, false));
        SimpleKeeps(b1, Constant32(word, r.count));
        assert KeyOf(r) !in b2.interned;
        assert LengthOk(b2, Interned(b2.nextId, r, length));
        DeclareKeeps(b2, r, length);
      } else {
        DeclareKeeps(b, r, 0);
      }
    }
  }

  lemma FreshKeeps(b: State, s: Section, opcode: U16, before: seq<U32>, after: seq<U32>)
    requires Inv(b) && b.nextId + 1 < TWO32 && (s == Types ==> opcode in {30, 44, 59})
    requires var i := Instruction(opcode, before + [b.nextId] + after);
      Defines(s, i) == None || Defines(s, i) == Some(b.nextId)
    ensures Inv(Fresh(b, s, opcode, before, after).1) && Fresh(b, s, opcode, before, after).1.nextId == b.nextId + 1
  {
    hide Inv, Defines;
    BumpKeeps(b);
    AppendKeeps(Bump(b), s, Instruction(opcode, before + [b.nextId] + after));
  }

  lemma FieldsKeep(b: State, b': State)
    requires Inv(b) && b' == b.(imports := b'.imports, capabilities := b'.capabilities)
    ensures Inv(b')
  {
    hide Defines, Content, KeyOf;
    SameCode(b, b');
    forall key | key in b'.interned ensures EntryOk(b', key) { assert EntryOk(b, key); }
    forall k | 0 <= k < |Code(b', Types)| ensures FromEntry(b', k) { assert FromEntry(b, k); }
  }

  lemma ApplyKeeps(b: State, call: Call)
    requires Inv(b) && Allowed(b, call)
    ensures Inv(Apply(b, call).1)
  {
    hide Inv, Intern, Append, Bump;
    match call
    case AllocateId => BumpKeeps(b);
    case Capability(c) =>
      FieldsKeep(b, b.(capabilities := b.capabilities + {c}));
      AppendKeeps(b.(capabilities := b.capabilities + {c}), Capabilities, Instruction(17, [c]));
    case Import(name, words) =>
      if name !in b.imports {
        FreshKeeps(b, Imports, 11, [], words);
        var (id, b') := Fresh(b, Imports, 11, [], words);
        FieldsKeep(b', b'.(imports := b.imports[name := id]));
      }
    case Note(s, i) => AppendKeeps(b, s, i);
    case Request(r) => InternKeeps(b, r);
    case Truth(v) => TruthKeeps(b, v);
    case Struct(ms) => FreshKeeps(b, Types, 30, [], ms);
    case Composite(t, cs) => FreshKeeps(b, Types, 44, [t], cs);
    case Global(p, s, o) => FreshKeeps(b, Types, 59, [p], [s] + Optional(o));
    case Labelled(None) => FreshKeeps(b, Functions, 248, [], []);
    case Labelled(Some(id)) => AppendKeeps(b, Functions, Instruction(248, [id]));
    case Result(op, t, os) => FreshKeeps(b, Functions, op, [t], os);
    case Statement(op, os) => AppendKeeps(b, Functions, Instruction(op, os));
  }

  lemma TruthKeeps(b: State, v: bool)
    requires Inv(b) && b.nextId + 3 < TWO32
    ensures Inv(Apply(b, Truth(v)).1)
  {
    hide Inv, Declare;
    SimpleKeeps(b, Bool);
    SimpleKeeps(Simple(b, Bool).1, ConstantBool(Simple(b, Bool).0, v));
  }

  /** In every run of allowed calls each identifier is defined once, below the header's bound, and the
      dictionaries match the declared instructions. */
  lemma {:induction false} RunKeeps(b: State, calls: seq<Call>)
    requires Inv(b) && AllowedRun(b, calls)
    ensures Inv(Run(b, calls))
    decreases |calls|
  {
    hide Inv, Apply, Allowed;
    if calls != [] {
      ApplyKeeps(b, calls[0]);
      RunKeeps(Apply(b, calls[0]).1, calls[1..]);
    }
  }

  lemma InitialKept()
    ensures Inv(INITIAL)
  {
  }

  /** Two definitions of the same identifier are the same instruction. */
  lemma OneDefinition(b: State, s: Section, k: nat, t: Section, j: nat)
    requires DefinedOnce(b) && k < |Code(b, s)| && j < |Code(b, t)|
    requires Defines(s, Code(b, s)[k]).Some? && Defines(s, Code(b, s)[k]) == Defines(t, Code(b, t)[j])
    ensures s == t && k == j && 0 < Defines(s, Code(b, s)[k]).value < b.nextId
  {
    hide Defines;
    assert AtHome(b, s, k) && AtHome(b, t, j);
  }
}
