/** Instruction words and string literals of a SPIR-V module (sections 2.2.1 and 2.3 of the SPIR-V
    Specification): how they are written, and a reader that walks them by their length fields. */
module SpirvWords {
  import opened LittleEndian
  import opened Words

  type U16 = x: int | 0 <= x < 0x1_0000

  datatype Option<T> = None | Some(value: T)

  datatype Instruction = Instruction(opcode: U16, operands: seq<U32>)

  // ---- instructions ----

  /** One word with the word count above the opcode, then the operands. The shift drops every bit of the
      word count that does not fit in sixteen. */
  function Frame(i: Instruction): (words: seq<U32>)
    ensures |words| == |i.operands| + 1
  {
    [((|i.operands| + 1) * 0x1_0000) % TWO32 + i.opcode] + i.operands
  }

  function FrameAll(code: seq<Instruction>): seq<U32> {
    if code == [] then [] else Frame(code[0]) + FrameAll(code[1..])
  }

  /** A reader that takes the word count of each instruction from its first word. */
  function Walk(words: seq<U32>): Option<seq<Instruction>>
    decreases |words|
  {
    if words == [] then Some([])
    else
      var n := words[0] / 0x1_0000;
      if n == 0 || n > |words| then None
      else
        match Walk(words[n..])
        case None => None
        case Some(rest) => Some([Instruction(words[0] % 0x1_0000, words[1..n])] + rest)
  }

  predicate Fits(i: Instruction) {
    |i.operands| + 1 < 0x1_0000
  }

  lemma FrameHead(n: nat, opcode: U16)
    ensures var w := ((n + 1) * 0x1_0000) % TWO32 + opcode;
      w < TWO32 && w / 0x1_0000 == (n + 1) % 0x1_0000 && w % 0x1_0000 == opcode
  {
  }

  function Prepend(i: Instruction, o: Option<seq<Instruction>>): Option<seq<Instruction>> {
    match o case None => None case Some(rest) => Some([i] + rest)
  }

  lemma WalkFits(i: Instruction, rest: seq<U32>)
    requires Fits(i)
    ensures Walk(Frame(i) + rest) == Prepend(i, Walk(rest))
  {
    var words := Frame(i) + rest;
    FrameHead(|i.operands|, i.opcode);
    var n := words[0] / 0x1_0000;
    assert words[n..] == rest && words[1..n] == i.operands;
  }

  lemma WalkDoesNotFit(i: Instruction, rest: seq<U32>, tail: seq<Instruction>)
    requires !Fits(i)
    ensures Walk(Frame(i) + rest) != Some([i] + tail)
  {
    var words := Frame(i) + rest;
    FrameHead(|i.operands|, i.opcode);
    var n := words[0] / 0x1_0000;
    if 0 < n <= |words| && Walk(words[n..]).Some? {
      var read := Walk(words).value;
      assert read[0] == Instruction(words[0] % 0x1_0000, words[1..n]);
      assert |words[1..n]| < |i.operands|;
      assert ([i] + tail)[0] == i;
    }
  }

  /** An instruction with 65535 operands has more words than its length field can say. */
  lemma LongInstruction(opcode: U16)
    ensures var i := Instruction(opcode, seq(0xFFFF, k => 0)); !Fits(i) && Walk(FrameAll([i])) != Some([i])
  {
    hide Walk, FrameAll;
    var i := Instruction(opcode, seq(0xFFFF, k => 0));
    assert [i][0] == i;
    WalkRecoversIff([i]);
  }

  /** Walking the words recovers the instructions exactly when each has fewer than 65536 words. */
  lemma {:induction false} WalkRecoversIff(code: seq<Instruction>)
    ensures Walk(FrameAll(code)) == Some(code) <==> forall k :: 0 <= k < |code| ==> Fits(code[k])
  {
    if code != [] {
      hide Walk, Frame, Fits;
      var i, rest := code[0], code[1..];
      assert code == [i] + rest;
      WalkRecoversIff(rest);
      if Fits(i) {
        WalkFits(i, FrameAll(rest));
        assert forall k :: 1 <= k < |code| ==> code[k] == rest[k - 1];
        if Walk(FrameAll(code)) == Some(code) {
          var read := Walk(FrameAll(rest)).value;
          assert ([i] + read)[1..] == read && code[1..] == rest;
        }
      } else {
        WalkDoesNotFit(i, FrameAll(rest), rest);
      }
    }
  }

  lemma {:induction false} FrameAllAppend(a: seq<Instruction>, b: seq<Instruction>)
    ensures FrameAll(a + b) == FrameAll(a) + FrameAll(b)
  {
    if a == [] {
      assert a + b == b;
    } else {
      FrameAllAppend(a[1..], b);
      assert (a + b)[1..] == a[1..] + b;
    }
  }

  // ---- strings ----

  function Zeros(n: nat): (r: seq<U8>)
    ensures |r| == n
  {
    seq(n, i => 0)
  }

  /** The bytes four to a word, lowest first, with at least one zero byte after them. */
  function EncodeString(bytes: seq<U8>): (words: seq<U32>)
    ensures |words| == (|bytes| + 1 + 3) / 4
  {
    if |bytes| < 4 then [WordOf(bytes + Zeros(4 - |bytes|))] else [WordOf(bytes[..4])] + EncodeString(bytes[4..])
  }

  function WordOf(bytes: seq<U8>): U32
    requires |bytes| == 4
  {
    Pow2Known();
    Decode(bytes)
  }

  function BeforeZero(bytes: seq<U8>): (r: seq<U8>)
    ensures r <= bytes && 0 !in r
    ensures 0 in bytes ==> |r| < |bytes| && bytes[|r|] == 0
  {
    if bytes == [] || bytes[0] == 0 then [] else [bytes[0]] + BeforeZero(bytes[1..])
  }

  /** A reader that stops at the first zero byte: the string, and the words after the one it ends in. */
  function DecodeString(words: seq<U32>): Option<(seq<U8>, seq<U32>)> {
    if words == [] then None
    else
      var bytes := Encode(words[0], 4);
      if 0 in bytes then Some((BeforeZero(bytes), words[1..]))
      else match DecodeString(words[1..]) case None => None case Some(r) => Some((bytes + r.0, r.1))
  }

  lemma {:induction false} BeforeZeroOf(bytes: seq<U8>, n: nat)
    requires n > 0
    ensures BeforeZero(bytes + Zeros(n)) == bytes <==> 0 !in bytes
  {
    var all := bytes + Zeros(n);
    assert all[|bytes|] == 0;
    if bytes != [] && bytes[0] != 0 {
      assert all[1..] == bytes[1..] + Zeros(n) && bytes == [bytes[0]] + bytes[1..];
      BeforeZeroOf(bytes[1..], n);
    }
  }

  lemma LastWord(bytes: seq<U8>, tail: seq<U32>)
    requires |bytes| < 4
    ensures DecodeString(EncodeString(bytes) + tail) == Some((bytes, tail)) <==> 0 !in bytes
  {
    hide Encode, Decode, BeforeZero;
    var words := EncodeString(bytes) + tail;
    EncodeDecode(bytes + Zeros(4 - |bytes|));
    BeforeZeroOf(bytes, 4 - |bytes|);
    assert (bytes + Zeros(4 - |bytes|))[|bytes|] == 0;
    assert words[1..] == tail;
  }

  lemma FirstWord(bytes: seq<U8>, tail: seq<U32>)
    requires |bytes| >= 4
    ensures EncodeString(bytes) + tail == [WordOf(bytes[..4])] + (EncodeString(bytes[4..]) + tail)
  {
    hide Encode, Decode, WordOf;
  }

  lemma WordIs(bytes: seq<U8>)
    requires |bytes| == 4
    ensures WordOf(bytes) == Decode(bytes) && Encode(WordOf(bytes), 4) == bytes
  {
    hide Encode, Decode;
    EncodeDecode(bytes);
  }

  /** The literal of a text with a zero in it reads back as the part before the zero, or not at all. */
  lemma ZeroInString()
    ensures DecodeString(EncodeString([65, 0, 66]) + []) != Some(([65, 0, 66], []))
  {
    hide DecodeString, EncodeString;
    var text: seq<U8> := [65, 0, 66];
    assert text[1] == 0;
    StringRoundTripIff(text, []);
  }

  /** A string literal, with any words after it, reads back exactly when it has no zero byte. */
  lemma {:induction false} StringRoundTripIff(bytes: seq<U8>, tail: seq<U32>)
    ensures DecodeString(EncodeString(bytes) + tail) == Some((bytes, tail)) <==> 0 !in bytes
  {
    hide Encode, Decode, BeforeZero, EncodeString, WordOf;
    if |bytes| < 4 {
      LastWord(bytes, tail);
    } else {
      FirstWord(bytes, tail);
      WordIs(bytes[..4]);
      assert (EncodeString(bytes) + tail)[1..] == EncodeString(bytes[4..]) + tail;
      StringRoundTripIff(bytes[4..], tail);
      assert bytes == bytes[..4] + bytes[4..];
    }
  }

  // ---- entry points ----

  datatype EntryPoint = EntryPoint(model: U32, function': U32, name: seq<U8>, interfaces: seq<U32>)

  function EntryOperands(e: EntryPoint): seq<U32> {
    [e.model, e.function'] + EncodeString(e.name) + e.interfaces
  }

  function DecodeEntryPoint(operands: seq<U32>): Option<EntryPoint> {
    if |operands| < 2 then None
    else
      match DecodeString(operands[2..])
      case None => None
      case Some(r) => Some(EntryPoint(operands[0], operands[1], r.0, r.1))
  }

  /** An entry point decodes to its model, function, name and interface list exactly when its name has no
      zero byte. */
  lemma EntryPointRoundTripIff(e: EntryPoint)
    ensures DecodeEntryPoint(EntryOperands(e)) == Some(e) <==> 0 !in e.name
  {
    StringRoundTripIff(e.name, e.interfaces);
    assert EntryOperands(e)[2..] == EncodeString(e.name) + e.interfaces;
  }

  // ---- bytes ----

  /** Words as bytes, lowest first. */
  function Bytes(words: seq<U32>): (r: seq<U8>)
    ensures |r| == 4 * |words|
  {
    if words == [] then [] else Encode(words[0], 4) + Bytes(words[1..])
  }

  function ReadWords(bytes: seq<U8>): seq<U32>
    requires |bytes| % 4 == 0
  {
    if bytes == [] then [] else [WordOf(bytes[..4])] + ReadWords(bytes[4..])
  }

  lemma {:induction false} BytesRoundTrip(words: seq<U32>)
    ensures ReadWords(Bytes(words)) == words
  {
    if words != [] {
      Pow2Known();
      DecodeEncode(words[0], 4);
      BytesRoundTrip(words[1..]);
      assert Bytes(words)[..4] == Encode(words[0], 4) && Bytes(words)[4..] == Bytes(words[1..]);
    }
  }
}
