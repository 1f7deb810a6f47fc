/** The builder as the source keeps it: a word list per section, a dictionary per kind of type and one for
    all constants. Each method is proved against the call of the same meaning in SpirvModel. */
module SpirvModuleBuilder {
  import opened LittleEndian
  import opened SpirvModel
  import opened SpirvProperties
  import opened SpirvWords
  import opened Words

  // ---- the text key of a function type ----

  function Digit(n: nat): char
    requires n < 10
  {
    '0' + n as char
  }

  predicate IsDigit(c: char) {
    '0' <= c <= '9'
  }

  function Decimal(n: nat): (r: string)
    ensures r != "" && forall k :: 0 <= k < |r| ==> IsDigit(r[k])
  {
    if n < 10 then [Digit(n)] else Decimal(n / 10) + [Digit(n % 10)]
  }

  lemma {:induction false} DecimalDiffers(n: nat, m: nat)
    requires Decimal(n) == Decimal(m)
    ensures n == m
    decreases n
  {
    var s, t := Decimal(n), Decimal(m);
    assert s[|s| - 1] == Digit(n % 10) && t[|t| - 1] == Digit(m % 10);
    if n >= 10 {
      assert s[..|s| - 1] == Decimal(n / 10);
      assert m >= 10 && t[..|t| - 1] == Decimal(m / 10);
      DecimalDiffers(n / 10, m / 10);
    }
  }

  function Join(ps: seq<U32>): string {
    if ps == [] then "" else if |ps| == 1 then Decimal(ps[0]) else Decimal(ps[0]) + "," + Join(ps[1..])
  }

  function FunctionKey(result: U32, parameters: seq<U32>): string {
    Decimal(result) + ":" + Join(parameters)
  }

  /** Texts of digits before a separator are told apart by the separator. */
  lemma {:induction false} SplitOnce(a: string, x: string, b: string, y: string, c: char)
    requires a + [c] + x == b + [c] + y && !IsDigit(c)
    requires (forall k :: 0 <= k < |a| ==> IsDigit(a[k])) && (forall k :: 0 <= k < |b| ==> IsDigit(b[k]))
    ensures a == b && x == y
  {
    var s := a + [c] + x;
    assert s[|a|] == c && s[|b|] == c;
    assert forall k :: 0 <= k < |a| ==> s[k] == a[k];
    assert forall k :: 0 <= k < |b| ==> s[k] == b[k];
    assert |a| == |b|;
    assert a == s[..|a|] == b && x == s[|a| + 1..] == y;
  }

  lemma {:induction false} JoinDiffers(ps: seq<U32>, qs: seq<U32>)
    requires Join(ps) == Join(qs)
    ensures ps == qs
    decreases |ps|
  {
    assert |ps| > 1 ==> Join(ps)[|Decimal(ps[0])|] == ',';
    assert |qs| > 1 ==> Join(qs)[|Decimal(qs[0])|] == ',';
    if |ps| > 1 && |qs| > 1 {
      SplitOnce(Decimal(ps[0]), Join(ps[1..]), Decimal(qs[0]), Join(qs[1..]), ',');
      DecimalDiffers(ps[0], qs[0]);
      JoinDiffers(ps[1..], qs[1..]);
      assert ps == [ps[0]] + ps[1..] && qs == [qs[0]] + qs[1..];
    } else if |ps| == 1 && |qs| == 1 {
      DecimalDiffers(ps[0], qs[0]);
    }
  }

  /** The text key tells the function type. */
  lemma FunctionKeysDiffer(t: U32, ps: seq<U32>, t': U32, ps': seq<U32>)
    requires FunctionKey(t, ps) == FunctionKey(t', ps')
    ensures t == t' && ps == ps'
  {
    SplitOnce(Decimal(t), Join(ps), Decimal(t'), Join(ps'), ':');
    DecimalDiffers(t, t');
    JoinDiffers(ps, ps');
  }

  // ---- operands with a string among them ----

  method CopyTo(source: seq<U32>, target: array<U32>, at: nat)
    requires at + |source| <= target.Length
    modifies target
    ensures target[..] == old(target[..at]) + source + old(target[at + |source|..])
  {
    ghost var was := target[..];
    for index := 0 to |source|
      invariant target[..] == was[..at] + source[..index] + was[at + index..]
    {
      target[at + index] := source[index];
    }
  }

  /** The words before the string, the string, and the rest; a negative count puts the string last. */
  method StringOperands(prefix: seq<U32>, value: seq<U8>, stringBeforeTailCount: int) returns (operands: seq<U32>)
    requires stringBeforeTailCount <= |prefix|
    ensures var n := if stringBeforeTailCount < 0 then |prefix| else stringBeforeTailCount;
      operands == prefix[..n] + EncodeString(value) + prefix[n..]
  {
    hide EncodeString;
    var encoded := EncodeString(value);
    var n := if stringBeforeTailCount < 0 then |prefix| else stringBeforeTailCount;
    var result := new U32[|prefix| + |encoded|];
    CopyTo(prefix[..n], result, 0);
    CopyTo(encoded, result, n);
    CopyTo(prefix[n..], result, n + |encoded|);
    operands := result[..];
  }

  // ---- the builder ----

  /** An entry of the model's dictionary and of one of the builder's agree. */
  predicate Agree<K(==)>(dictionary: map<K, U32>, k: K, interned: map<Key, Interned>, key: Key) {
    if key in interned then k in dictionary && dictionary[k] == interned[key].id else k !in dictionary
  }

  class Builder {
    var sections: map<Section, seq<U32>>
    var nextId: U32
    var voidType: Option<U32>
    var boolType: Option<U32>
    var integerTypes: map<(U32, bool), U32>
    var floatTypes: map<U32, U32>
    var vectorTypes: map<(U32, U32), U32>
    var imageTypes: map<(U32, U32, bool, bool, bool, U32, U32), U32>
    var sampledImageTypes: map<U32, U32>
    var pointerTypes: map<(U32, U32), U32>
    var arrayTypes: map<(U32, U32), U32>
    var runtimeArrayTypes: map<U32, U32>
    var functionTypes: map<string, U32>
    var constants: map<(U32, U64), U32>
    var declaredCapabilities: set<U32>
    var extInstImports: map<seq<U8>, U32>
    ghost var state: State

    function Words(s: Section): seq<U32>
      reads this`sections
    {
      if s in sections then sections[s] else []
    }

    ghost predicate Framed()
      reads this`sections, this`state
    {
      forall s: Section :: Words(s) == FrameAll(Code(state, s))
    }

    // ---- each dictionary holds what the model's holds ----

    ghost predicate Singles(interned: map<Key, Interned>)
      reads `voidType, `boolType
    {
      && voidType == (if TypeKey(Void) in interned then Some(interned[TypeKey(Void)].id) else None)
      && boolType == (if TypeKey(Bool) in interned then Some(interned[TypeKey(Bool)].id) else None)
    }

    ghost predicate Integers(interned: map<Key, Interned>)
      reads `integerTypes
    {
      forall w, s :: Agree(integerTypes, (w, s), interned, TypeKey(Int(w, s)))
    }

    ghost predicate Floats(interned: map<Key, Interned>)
      reads `floatTypes
    {
      forall w :: Agree(floatTypes, w, interned, TypeKey(Float(w)))
    }

    ghost predicate Vectors(interned: map<Key, Interned>)
      reads `vectorTypes
    {
      forall c, n :: Agree(vectorTypes, (c, n), interned, TypeKey(VectorOf(c, n)))
    }

    ghost predicate Images(interned: map<Key, Interned>)
      reads `imageTypes
    {
      forall t, d, depth, a, m, s, f ::
        Agree(imageTypes, (t, d, depth, a, m, s, f), interned, TypeKey(Image(t, d, depth, a, m, s, f)))
    }

    ghost predicate SampledImages(interned: map<Key, Interned>)
      reads `sampledImageTypes
    {
      forall t :: Agree(sampledImageTypes, t, interned, TypeKey(SampledImage(t)))
    }

    ghost predicate Pointers(interned: map<Key, Interned>)
      reads `pointerTypes
    {
      forall s, t :: Agree(pointerTypes, (s, t), interned, TypeKey(Pointer(s, t)))
    }

    ghost predicate Arrays(interned: map<Key, Interned>)
      reads `arrayTypes
    {
      forall e, n :: Agree(arrayTypes, (e, n), interned, TypeKey(ArrayOf(e, n)))
    }

    ghost predicate RuntimeArrays(interned: map<Key, Interned>)
      reads `runtimeArrayTypes
    {
      forall e :: Agree(runtimeArrayTypes, e, interned, TypeKey(RuntimeArray(e)))
    }

    ghost predicate Signatures(interned: map<Key, Interned>)
      reads `functionTypes
    {
      forall t, ps :: Agree(functionTypes, FunctionKey(t, ps), interned, TypeKey(FunctionOf(t, ps)))
    }

    ghost predicate Constants(interned: map<Key, Interned>)
      reads `constants
    {
      forall t, n :: Agree(constants, (t, n), interned, ConstantKey(t, n))
    }

    ghost predicate Dictionaries(interned: map<Key, Interned>)
      reads `voidType, `boolType, `integerTypes, `floatTypes, `vectorTypes, `imageTypes, `sampledImageTypes,
      `pointerTypes
      reads `arrayTypes, `runtimeArrayTypes, `functionTypes, `constants
    {
      && Singles(interned) && Integers(interned) && Floats(interned) && Vectors(interned) && Images(interned)
      && SampledImages(interned) && Pointers(interned) && Arrays(interned) && RuntimeArrays(interned)
        && Signatures(interned)
      && Constants(interned)
    }

    /** A new entry of one kind leaves the dictionaries of the other kinds alone. */
    lemma OthersAgree(interned: map<Key, Interned>, r: Request, e: Interned)
      ensures var after := interned[KeyOf(r) := e];
        && (Singles(interned) && !r.Void? && !r.Bool? ==> Singles(after))
        && (Integers(interned) && !r.Int? ==> Integers(after))
        && (Floats(interned) && !r.Float? ==> Floats(after))
        && (Vectors(interned) && !r.VectorOf? ==> Vectors(after))
        && (Images(interned) && !r.Image? ==> Images(after))
        && (SampledImages(interned) && !r.SampledImage? ==> SampledImages(after))
        && (Pointers(interned) && !r.Pointer? ==> Pointers(after))
        && (Arrays(interned) && !r.ArrayOf? ==> Arrays(after))
        && (RuntimeArrays(interned) && !r.RuntimeArray? ==> RuntimeArrays(after))
        && (Signatures(interned) && !r.FunctionOf? ==> Signatures(after))
        && (Constants(interned) && KeyOf(r).TypeKey? ==> Constants(after))
    {
      hide FunctionKey;
    }

    /** The words, the counter and the two plain dictionaries are the model's. */
    ghost predicate Core()
      reads `sections, `state, `nextId, `declaredCapabilities, `extInstImports
    {
      && Framed() && nextId == state.nextId && declaredCapabilities == state.capabilities
        && extInstImports == state.imports
    }

    ghost predicate Valid()
      reads this
    {
      Core() && Dictionaries(state.interned)
    }

    constructor ()
      ensures Valid() && state == INITIAL
    {
      sections, nextId, voidType, boolType := map[], 1, None, None;
      integerTypes, floatTypes, vectorTypes, imageTypes, sampledImageTypes := map[], map[], map[], map[], map[];
      pointerTypes, arrayTypes, runtimeArrayTypes, functionTypes, constants := map[], map[], map[], map[], map[];
      declaredCapabilities, extInstImports, state := {}, map[], INITIAL;
    }

    method AllocateId() returns (id: U32)
      requires Core()
      modifies this`nextId, this`state
      ensures Core() && id == old(state).nextId && state == Bump(old(state))
    {
      id, nextId, state := nextId, (nextId + 1) % TWO32, Bump(state);
    }

    method Emit(s: Section, i: Instruction)
      requires Core()
      modifies this`sections, this`state
      ensures Core() && state == Append(old(state), s, i)
    {
      hide FrameAll, Frame, Append;
      assert Words(s) + Frame(i) == FrameAll(Code(state, s) + [i]) by {
        FrameAllAppend(Code(state, s), [i]);
        FrameOne(i);
      }
      sections := sections[s := Words(s) + Frame(i)];
      state := Append(state, s, i);
    }

    /** Takes a fresh identifier and emits an instruction with it between two lists of operands. */
    method EmitFresh(s: Section, opcode: U16, before: seq<U32>, after: seq<U32>) returns (id: U32)
      requires Core()
      modifies this`sections, this`nextId, this`state
      ensures Core() && (id, state) == Fresh(old(state), s, opcode, before, after)
      ensures state.interned == old(state).interned
    {
      hide FrameAll, Append;
      id := AllocateId();
      Emit(s, Instruction(opcode, before + [id] + after));
    }

    /** The same in the types section, for a request; the model's dictionary follows. */
    method Declare(opcode: U16, before: seq<U32>, after: seq<U32>, ghost r: Request, ghost length: U32)
      returns (id: U32)
      requires Core() && Instruction(opcode, before + [nextId] + after) == Content(r, nextId, length)
      modifies this`sections, this`nextId, this`state
      ensures Core() && (id, state) == SpirvModel.Declare(old(state), r, length) && id == old(nextId)
      ensures state.interned == old(state).interned[KeyOf(r) := Interned(id, r, length)]
    {
      hide Content, KeyOf, FrameAll, Append;
      id := EmitFresh(Types, opcode, before, after);
      state := state.(interned := state.interned[KeyOf(r) := Interned(id, r, length)]);
    }

    // ---- types ----

    method TypeVoid() returns (id: U32)
      requires Valid()
      modifies this
      ensures Valid() && (id, state) == Intern(old(state), Void)
    {
      hide Append, Bump, SpirvModel.Declare, FrameAll, FunctionKey, Core, Integers, Floats, Vectors, Images;
      hide SampledImages, Pointers, Arrays, RuntimeArrays, Signatures, Constants;
      if voidType.Some? { return voidType.value; }
      OthersAgree(state.interned, Void, Interned(nextId, Void, 0));
      assert [] + [nextId] + [] == [nextId];
      id := Declare(19, [], [], Void, 0);
      voidType := Some(id);
    }

    method TypeBool() returns (id: U32)
      requires Valid()
      modifies this
      ensures Valid() && (id, state) == Intern(old(state), Bool)
    {
      hide Append, Bump, SpirvModel.Declare, FrameAll, FunctionKey, Core, Integers, Floats, Vectors, Images;
      hide SampledImages, Pointers, Arrays, RuntimeArrays, Signatures, Constants;
      if boolType.Some? { return boolType.value; }
      OthersAgree(state.interned, Bool, Interned(nextId, Bool, 0));
      assert [] + [nextId] + [] == [nextId];
      id := Declare(20, [], [], Bool, 0);
      boolType := Some(id);
    }

    method TypeInt(width: U32, signed: bool) returns (id: U32)
      requires Valid()
      modifies this
      ensures Valid() && (id, state) == Intern(old(state), Int(width, signed))
    {
      hide Append, Bump, SpirvModel.Declare, FrameAll, FunctionKey, Core, Singles, Floats, Vectors, Images;
      hide SampledImages, Pointers, Arrays, RuntimeArrays, Signatures, Constants;
      if (width, signed) in integerTypes { return integerTypes[(width, signed)]; }
      OthersAgree(state.interned, Int(width, signed), Interned(nextId, Int(width, signed), 0));
      assert [] + [nextId] + [width, Flag(signed)] == [nextId, width, Flag(signed)];
      id := Declare(21, [], [width, Flag(signed)], Int(width, signed), 0);
      integerTypes := integerTypes[(width, signed) := id];
    }

    method TypeFloat(width: U32) returns (id: U32)
      requires Valid()
      modifies this
      ensures Valid() && (id, state) == Intern(old(state), Float(width))
    {
      hide Append, Bump, SpirvModel.Declare, FrameAll, FunctionKey, Core, Singles, Integers, Vectors, Images;
      hide SampledImages, Pointers, Arrays, RuntimeArrays, Signatures, Constants;
      if width in floatTypes { return floatTypes[width]; }
      OthersAgree(state.interned, Float(width), Interned(nextId, Float(width), 0));
      assert [] + [nextId] + [width] == [nextId, width];
      id := Declare(22, [], [width], Float(width), 0);
      floatTypes := floatTypes[width := id];
    }

    method TypeVector(component: U32, count: U32) returns (id: U32)
      requires Valid()
      modifies this
      ensures Valid() && (id, state) == Intern(old(state), VectorOf(component, count))
    {
      hide Append, Bump, SpirvModel.Declare, FrameAll, FunctionKey, Core, Singles, Integers, Floats, Images;
      hide SampledImages, Pointers, Arrays, RuntimeArrays, Signatures, Constants;
      if (component, count) in vectorTypes { return vectorTypes[(component, count)]; }
      OthersAgree(state.interned, VectorOf(component, count), Interned(nextId, VectorOf(component, count), 0));
      assert [] + [nextId] + [component, count] == [nextId, component, count];
      id := Declare(23, [], [component, count], VectorOf(component, count), 0);
      vectorTypes := vectorTypes[(component, count) := id];
    }

    method TypeImage(t: U32, dimension: U32, depth: bool, arrayed: bool, multisampled: bool, sampled: U32, format: U32)
      returns (id: U32)
      requires Valid()
      modifies this
      ensures Valid()
        && (id, state) == Intern(old(state), Image(t, dimension, depth, arrayed, multisampled, sampled, format))
    {
      hide Append, Bump, SpirvModel.Declare, FrameAll, FunctionKey, Core, Singles, Integers, Floats, Vectors;
      hide SampledImages, Pointers, Arrays, RuntimeArrays, Signatures, Constants;
      var key := (t, dimension, depth, arrayed, multisampled, sampled, format);
      ghost var r := Image(t, dimension, depth, arrayed, multisampled, sampled, format);
      if key in imageTypes { return imageTypes[key]; }
      OthersAgree(state.interned, r, Interned(nextId, r, 0));
      var operands := [t, dimension, Flag(depth), Flag(arrayed), Flag(multisampled), sampled, format];
      assert [] + [nextId] + operands
          == [nextId, t, dimension, Flag(depth), Flag(arrayed), Flag(multisampled), sampled, format];
      id := Declare(25, [], operands, r, 0);
      imageTypes := imageTypes[key := id];
    }

    method TypeSampledImage(imageType: U32) returns (id: U32)
      requires Valid()
      modifies this
      ensures Valid() && (id, state) == Intern(old(state), SampledImage(imageType))
    {
      hide Append, Bump, SpirvModel.Declare, FrameAll, FunctionKey, Core, Singles, Integers, Floats, Vectors, Images;
      hide Pointers, Arrays, RuntimeArrays, Signatures, Constants;
      if imageType in sampledImageTypes { return sampledImageTypes[imageType]; }
      OthersAgree(state.interned, SampledImage(imageType), Interned(nextId, SampledImage(imageType), 0));
      assert [] + [nextId] + [imageType] == [nextId, imageType];
      id := Declare(27, [], [imageType], SampledImage(imageType), 0);
      sampledImageTypes := sampledImageTypes[imageType := id];
    }

    method LengthConstant(count: U32) returns (length: U32)
      requires Valid()
      modifies this
      ensures Valid()
      ensures var (word, b) := Simple(old(state), Int(32, false)); (length, state) == Simple(b, Constant32(word, count))
      ensures forall key :: key !in old(state).interned && key.TypeKey? && key.request.ArrayOf? ==>
        key !in state.interned
    {
      hide Append, FrameAll, FunctionKey, Core, Dictionaries;
      InternIsSimple(state, Int(32, false));
      var word := TypeInt(32, false);
      InternIsSimple(state, Constant32(word, count));
      length := Constant(word, count);
    }

    /** Asks for the constant that holds the length first. */
    method TypeArray(element: U32, count: U32) returns (id: U32)
      requires Valid()
      modifies this
      ensures Valid() && (id, state) == Intern(old(state), ArrayOf(element, count))
    {
      hide Append, Bump, SpirvModel.Declare, Simple, FrameAll, FunctionKey, Core, Singles, Integers, Floats, Vectors;
      hide Images, SampledImages, Pointers, RuntimeArrays, Signatures, Constants;
      if (element, count) in arrayTypes { return arrayTypes[(element, count)]; }
      var length := LengthConstant(count);
      ghost var r := ArrayOf(element, count);
      OthersAgree(state.interned, r, Interned(nextId, r, length));
      assert [] + [nextId] + [element, length] == [nextId, element, length];
      id := Declare(28, [], [element, length], r, length);
      arrayTypes := arrayTypes[(element, count) := id];
    }

    method TypeRuntimeArray(element: U32) returns (id: U32)
      requires Valid()
      modifies this
      ensures Valid() && (id, state) == Intern(old(state), RuntimeArray(element))
    {
      hide Append, Bump, SpirvModel.Declare, FrameAll, FunctionKey, Core, Singles, Integers, Floats, Vectors, Images;
      hide SampledImages, Pointers, Arrays, Signatures, Constants;
      if element in runtimeArrayTypes { return runtimeArrayTypes[element]; }
      OthersAgree(state.interned, RuntimeArray(element), Interned(nextId, RuntimeArray(element), 0));
      assert [] + [nextId] + [element] == [nextId, element];
      id := Declare(29, [], [element], RuntimeArray(element), 0);
      runtimeArrayTypes := runtimeArrayTypes[element := id];
    }

    method TypePointer(storage: U32, pointee: U32) returns (id: U32)
      requires Valid()
      modifies this
      ensures Valid() && (id, state) == Intern(old(state), Pointer(storage, pointee))
    {
      hide Append, Bump, SpirvModel.Declare, FrameAll, FunctionKey, Core, Singles, Integers, Floats, Vectors, Images;
      hide SampledImages, Arrays, RuntimeArrays, Signatures, Constants;
      if (storage, pointee) in pointerTypes { return pointerTypes[(storage, pointee)]; }
      OthersAgree(state.interned, Pointer(storage, pointee), Interned(nextId, Pointer(storage, pointee), 0));
      assert [] + [nextId] + [storage, pointee] == [nextId, storage, pointee];
      id := Declare(32, [], [storage, pointee], Pointer(storage, pointee), 0);
      pointerTypes := pointerTypes[(storage, pointee) := id];
    }

    /** The dictionary's key is a text that tells the function type. */
    method TypeFunction(result: U32, parameters: seq<U32>) returns (id: U32)
      requires Valid()
      modifies this
      ensures Valid() && (id, state) == Intern(old(state), FunctionOf(result, parameters))
    {
      hide Append, Bump, SpirvModel.Declare, FrameAll, FunctionKey, Core, Singles, Integers, Floats, Vectors, Images;
      hide SampledImages, Pointers, Arrays, RuntimeArrays, Constants;
      var key := FunctionKey(result, parameters);
      ghost var r := FunctionOf(result, parameters);
      if key in functionTypes {
        assert Agree(functionTypes, key, state.interned, TypeKey(r));
        return functionTypes[key];
      }
      assert Agree(functionTypes, key, state.interned, TypeKey(r));
      OthersAgree(state.interned, r, Interned(nextId, r, 0));
      assert [] + [nextId] + ([result] + parameters) == [nextId, result] + parameters;
      id := Declare(33, [], [result] + parameters, r, 0);
      AllKeysDiffer(result, parameters);
      functionTypes := functionTypes[key := id];
    }

    // ---- constants ----

    method ConstantBool(value: bool) returns (id: U32)
      requires Valid()
      modifies this
      ensures Valid() && (id, state) == Apply(old(state), Truth(value))
    {
      hide Append, Bump, SpirvModel.Declare, FrameAll, FunctionKey, Core, Singles, Integers, Floats, Vectors, Images;
      hide SampledImages, Pointers, Arrays, RuntimeArrays, Signatures;
      var type' := TypeBool();
      var key: (U32, U64) := (type', if value then 1 else 0);
      ghost var r := Request.ConstantBool(type', value);
      assert Agree(constants, key, state.interned, KeyOf(r));
      if key in constants { return constants[key]; }
      OthersAgree(state.interned, r, Interned(nextId, r, 0));
      assert [type'] + [nextId] + [] == [type', nextId];
      id := Declare(if value then 41 else 42, [type'], [], r, 0);
      constants := constants[key := id];
    }

    method Constant(type': U32, value: U32) returns (id: U32)
      requires Valid()
      modifies this
      ensures Valid() && (id, state) == Intern(old(state), Constant32(type', value))
    {
      hide Append, Bump, SpirvModel.Declare, FrameAll, FunctionKey, Core, Singles, Integers, Floats, Vectors, Images;
      hide SampledImages, Pointers, Arrays, RuntimeArrays, Signatures;
      ghost var r := Constant32(type', value);
      var key: (U32, U64) := (type', value);
      assert Agree(constants, key, state.interned, KeyOf(r));
      if key in constants { return constants[key]; }
      OthersAgree(state.interned, r, Interned(nextId, r, 0));
      assert [type'] + [nextId] + [value] == [type', nextId, value];
      id := Declare(43, [type'], [value], r, 0);
      constants := constants[key := id];
    }

    method Constant64(type': U32, value: U64) returns (id: U32)
      requires Valid()
      modifies this
      ensures Valid() && (id, state) == Intern(old(state), Request.Constant64(type', value))
    {
      hide Append, Bump, SpirvModel.Declare, FrameAll, FunctionKey, Core, Singles, Integers, Floats, Vectors, Images;
      hide SampledImages, Pointers, Arrays, RuntimeArrays, Signatures;
      ghost var r := Request.Constant64(type', value);
      var key := (type', value);
      assert Agree(constants, key, state.interned, KeyOf(r));
      if key in constants { return constants[key]; }
      OthersAgree(state.interned, r, Interned(nextId, r, 0));
      var low: U32, high: U32 := value % TWO32, value / TWO32;
      assert [type'] + [nextId] + [low, high] == [type', nextId, low, high];
      id := Declare(43, [type'], [low, high], r, 0);
      constants := constants[key := id];
    }

    method ConstantNull(type': U32) returns (id: U32)
      requires Valid()
      modifies this
      ensures Valid() && (id, state) == Intern(old(state), Null(type'))
    {
      hide Append, Bump, SpirvModel.Declare, FrameAll, FunctionKey, Core, Singles, Integers, Floats, Vectors, Images;
      hide SampledImages, Pointers, Arrays, RuntimeArrays, Signatures;
      ghost var r := Null(type');
      var key: (U32, U64) := (type', TWO64 - 1);
      assert Agree(constants, key, state.interned, KeyOf(r));
      if key in constants { return constants[key]; }
      OthersAgree(state.interned, r, Interned(nextId, r, 0));
      assert [type'] + [nextId] + [] == [type', nextId];
      id := Declare(46, [type'], [], r, 0);
      constants := constants[key := id];
    }

    // ---- everything else ----

    method AddCapability(capability: U32)
      requires Valid()
      modifies this
      ensures Valid() && state == Apply(old(state), Call.Capability(capability)).1
    {
      hide Append, Bump, FrameAll, Singles, Integers, Floats, Vectors, Images, SampledImages;
      hide Pointers, Arrays, RuntimeArrays, Signatures, Constants;
      if capability !in declaredCapabilities {
        declaredCapabilities, state :=
          declaredCapabilities + {capability}, state.(capabilities := state.capabilities + {capability});
        Emit(Capabilities, Instruction(17, [capability]));
      }
    }

    method AddExtension(extension: seq<U8>)
      requires Valid()
      modifies this
      ensures Valid() && state == Apply(old(state), Note(Extensions, Instruction(10, EncodeString(extension)))).1
    {
      hide Append, Bump, FrameAll, Singles, Integers, Floats, Vectors, Images, SampledImages;
      hide Pointers, Arrays, RuntimeArrays, Signatures, Constants;
      var operands := StringOperands([], extension, -1);
      assert operands == EncodeString(extension);
      Emit(Extensions, Instruction(10, operands));
    }

    method ImportExtInst(name: seq<U8>) returns (id: U32)
      requires Valid()
      modifies this
      ensures Valid() && (id, state) == Apply(old(state), Import(name, EncodeString(name)))
    {
      hide Append, Bump, FrameAll, Singles, Integers, Floats, Vectors, Images, SampledImages;
      hide Pointers, Arrays, RuntimeArrays, Signatures, Constants;
      if name in extInstImports { return extInstImports[name]; }
      id := EmitFresh(Imports, 11, [], EncodeString(name));
      extInstImports, state := extInstImports[name := id], state.(imports := state.imports[name := id]);
    }

    method SetLogicalGlsl450MemoryModel()
      requires Valid()
      modifies this
      ensures Valid() && state == Apply(old(state), Note(MemoryModel, Instruction(14, [0, 1]))).1
    {
      hide Append, Bump, FrameAll, Singles, Integers, Floats, Vectors, Images, SampledImages;
      hide Pointers, Arrays, RuntimeArrays, Signatures, Constants;
      Emit(MemoryModel, Instruction(14, [0, 1]));
    }

    /** The name goes between the first two operands and the interface list. */
    method AddEntryPoint(e: EntryPoint)
      requires Valid()
      modifies this
      ensures Valid() && state == Apply(old(state), Note(EntryPoints, Instruction(15, EntryOperands(e)))).1
    {
      hide Append, Bump, FrameAll, Singles, Integers, Floats, Vectors, Images, SampledImages;
      hide Pointers, Arrays, RuntimeArrays, Signatures, Constants;
      var prefix := new U32[2 + |e.interfaces|];
      prefix[0], prefix[1] := e.model, e.function';
      for index := 0 to |e.interfaces|
        invariant Valid() && state == old(state)
        invariant prefix[..index + 2] == [e.model, e.function'] + e.interfaces[..index]
      {
        prefix[index + 2] := e.interfaces[index];
      }
      assert prefix[..] == [e.model, e.function'] + e.interfaces;
      var operands := StringOperands(prefix[..], e.name, 2);
      assert operands == EntryOperands(e);
      Emit(EntryPoints, Instruction(15, operands));
    }

    method AddExecutionMode(function': U32, mode: U32, operands: seq<U32>)
      requires Valid()
      modifies this
      ensures Valid()
        && state == Apply(old(state), Note(ExecutionModes, Instruction(16, [function', mode] + operands))).1
    {
      hide Append, Bump, FrameAll, Singles, Integers, Floats, Vectors, Images, SampledImages;
      hide Pointers, Arrays, RuntimeArrays, Signatures, Constants;
      Emit(ExecutionModes, Instruction(16, [function', mode] + operands));
    }

    method AddName(target: U32, name: seq<U8>)
      requires Valid()
      modifies this
      ensures Valid() && state == Apply(old(state), Note(Debug, Instruction(5, [target] + EncodeString(name)))).1
    {
      hide Append, Bump, FrameAll, Singles, Integers, Floats, Vectors, Images, SampledImages;
      hide Pointers, Arrays, RuntimeArrays, Signatures, Constants;
      var operands := StringOperands([target], name, -1);
      assert operands == [target] + EncodeString(name);
      Emit(Debug, Instruction(5, operands));
    }

    method AddDecoration(target: U32, decoration: U32, operands: seq<U32>)
      requires Valid()
      modifies this
      ensures Valid()
        && state == Apply(old(state), Note(Annotations, Instruction(71, [target, decoration] + operands))).1
    {
      hide Append, Bump, FrameAll, Singles, Integers, Floats, Vectors, Images, SampledImages;
      hide Pointers, Arrays, RuntimeArrays, Signatures, Constants;
      Emit(Annotations, Instruction(71, [target, decoration] + operands));
    }

    method AddMemberDecoration(target: U32, member: U32, decoration: U32, operands: seq<U32>)
      requires Valid()
      modifies this
      ensures Valid()
        && state == Apply(old(state), Note(Annotations, Instruction(72, [target, member, decoration] + operands))).1
    {
      hide Append, Bump, FrameAll, Singles, Integers, Floats, Vectors, Images, SampledImages;
      hide Pointers, Arrays, RuntimeArrays, Signatures, Constants;
      Emit(Annotations, Instruction(72, [target, member, decoration] + operands));
    }

    method TypeStruct(members: seq<U32>) returns (id: U32)
      requires Valid()
      modifies this
      ensures Valid() && (id, state) == Apply(old(state), Struct(members))
    {
      hide Append, Bump, FrameAll, Singles, Integers, Floats, Vectors, Images, SampledImages;
      hide Pointers, Arrays, RuntimeArrays, Signatures, Constants;
      id := EmitFresh(Types, 30, [], members);
    }

    method ConstantComposite(type': U32, constituents: seq<U32>) returns (id: U32)
      requires Valid()
      modifies this
      ensures Valid() && (id, state) == Apply(old(state), Composite(type', constituents))
    {
      hide Append, Bump, FrameAll, Singles, Integers, Floats, Vectors, Images, SampledImages;
      hide Pointers, Arrays, RuntimeArrays, Signatures, Constants;
      id := EmitFresh(Types, 44, [type'], constituents);
    }

    method AddGlobalVariable(pointer: U32, storage: U32, initializer: Option<U32>) returns (id: U32)
      requires Valid()
      modifies this
      ensures Valid() && (id, state) == Apply(old(state), Global(pointer, storage, initializer))
    {
      hide Append, Bump, FrameAll, Singles, Integers, Floats, Vectors, Images, SampledImages;
      hide Pointers, Arrays, RuntimeArrays, Signatures, Constants;
      id := EmitFresh(Types, 59, [pointer], [storage] + Optional(initializer));
    }

    method BeginFunction(result: U32, functionType: U32) returns (id: U32)
      requires Valid()
      modifies this
      ensures Valid() && (id, state) == Apply(old(state), Result(54, result, [0, functionType]))
    {
      hide Append, Bump, FrameAll, Singles, Integers, Floats, Vectors, Images, SampledImages;
      hide Pointers, Arrays, RuntimeArrays, Signatures, Constants;
      id := EmitFresh(Functions, 54, [result], [0, functionType]);
    }

    method AddFunctionParameter(type': U32) returns (id: U32)
      requires Valid()
      modifies this
      ensures Valid() && (id, state) == Apply(old(state), Result(55, type', []))
    {
      hide Append, Bump, FrameAll, Singles, Integers, Floats, Vectors, Images, SampledImages;
      hide Pointers, Arrays, RuntimeArrays, Signatures, Constants;
      id := EmitFresh(Functions, 55, [type'], []);
    }

    method AddLabel(label': Option<U32>) returns (id: U32)
      requires Valid()
      modifies this
      ensures Valid() && (id, state) == Apply(old(state), Labelled(label'))
    {
      hide Append, Bump, FrameAll, Singles, Integers, Floats, Vectors, Images, SampledImages;
      hide Pointers, Arrays, RuntimeArrays, Signatures, Constants;
      match label'
      case None => id := EmitFresh(Functions, 248, [], []);
      case Some(l) => id := l; Emit(Functions, Instruction(248, [l]));
    }

    /** Storage class 7 is the function's own. */
    method AddFunctionVariable(pointer: U32, initializer: Option<U32>) returns (id: U32)
      requires Valid()
      modifies this
      ensures Valid() && (id, state) == Apply(old(state), Result(59, pointer, [7] + Optional(initializer)))
    {
      hide Append, Bump, FrameAll, Singles, Integers, Floats, Vectors, Images, SampledImages;
      hide Pointers, Arrays, RuntimeArrays, Signatures, Constants;
      id := EmitFresh(Functions, 59, [pointer], [7] + Optional(initializer));
    }

    method AddInstruction(opcode: U16, resultType: U32, operands: seq<U32>) returns (id: U32)
      requires Valid()
      modifies this
      ensures Valid() && (id, state) == Apply(old(state), Result(opcode, resultType, operands))
    {
      hide Append, Bump, FrameAll, Singles, Integers, Floats, Vectors, Images, SampledImages;
      hide Pointers, Arrays, RuntimeArrays, Signatures, Constants;
      id := EmitFresh(Functions, opcode, [resultType], operands);
    }

    method AddStatement(opcode: U16, operands: seq<U32>)
      requires Valid()
      modifies this
      ensures Valid() && state == Apply(old(state), Statement(opcode, operands)).1
    {
      hide Append, Bump, FrameAll, Singles, Integers, Floats, Vectors, Images, SampledImages;
      hide Pointers, Arrays, RuntimeArrays, Signatures, Constants;
      Emit(Functions, Instruction(opcode, operands));
    }

    method EndFunction()
      requires Valid()
      modifies this
      ensures Valid() && state == Apply(old(state), Statement(56, [])).1
    {
      hide Append, Bump, FrameAll, Singles, Integers, Floats, Vectors, Images, SampledImages;
      hide Pointers, Arrays, RuntimeArrays, Signatures, Constants;
      Emit(Functions, Instruction(56, []));
    }

    method AllWords() returns (words: seq<U32>)
      requires Core()
      ensures words == ModuleWords(state)
    {
      hide FrameAll, SectionWords;
      words := [MAGIC, VERSION, GENERATOR, nextId, 0];
      var order := SECTIONS;
      SectionWordsNone(state, order);
      for index := 0 to |order|
        invariant words == [MAGIC, VERSION, GENERATOR, nextId, 0] + SectionWords(state, order[..index])
      {
        SectionWordsNext(state, order, index);
        words := words + Words(order[index]);
      }
      assert order[..|order|] == order;
    }

    /** The header, then every section in order; a memory model is added when there is none. */
    method Build() returns (bytes: seq<U8>)
      requires Valid()
      modifies this
      ensures Valid() && bytes == Bytes(ModuleWords(state))
      ensures state
        == if Code(old(state), MemoryModel) == [] then Append(old(state), MemoryModel, Instruction(14, [0, 1]))
                       else old(state)
    {
      hide ModuleWords, Append, Bump, FrameAll, Singles, Integers, Floats, Vectors, Images, SampledImages;
      hide Pointers, Arrays, RuntimeArrays, Signatures, Constants;
      FrameEmptyIff(Code(state, MemoryModel));
      if |Words(MemoryModel)| == 0 { SetLogicalGlsl450MemoryModel(); }
      var words := AllWords();
      bytes := Bytes(words);
    }
  }

  lemma AllKeysDiffer(t: U32, ps: seq<U32>)
    ensures forall t', ps' :: FunctionKey(t', ps') == FunctionKey(t, ps) ==> t' == t && ps' == ps
  {
    forall t', ps' | FunctionKey(t', ps') == FunctionKey(t, ps) ensures t' == t && ps' == ps {
      FunctionKeysDiffer(t', ps', t, ps);
    }
  }

  lemma FrameEmptyIff(code: seq<Instruction>)
    ensures FrameAll(code) == [] <==> code == []
  {
  }

  lemma SectionWordsNone(b: State, sections: seq<Section>)
    ensures SectionWords(b, sections[..0]) == []
  {
  }

  lemma {:induction false} SectionWordsNext(b: State, sections: seq<Section>, k: nat)
    requires k < |sections|
    ensures SectionWords(b, sections[..k + 1]) == SectionWords(b, sections[..k]) + FrameAll(Code(b, sections[k]))
    decreases k
  {
    hide FrameAll;
    var longer := sections[..k + 1];
    if k == 0 {
      assert longer[1..] == [];
    } else {
      var rest := sections[1..];
      SectionWordsNext(b, rest, k - 1);
      assert longer[1..] == rest[..k] && sections[..k][1..] == rest[..k - 1];
    }
  }

  lemma FrameOne(i: Instruction)
    ensures FrameAll([i]) == Frame(i)
  {
    assert [i][1..] == [];
  }
}
