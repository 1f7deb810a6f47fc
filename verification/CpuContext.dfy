/** Reading a zero-terminated string from guest memory in chunks, with a byte at a time where a chunk cannot
    be read; it answers what a plain byte loop answers. */
module CpuContext {
  import opened LittleEndian
  import opened Words

  datatype Option<T> = None | Some(value: T)

  /** What reading n bytes at an address yields, if it succeeds. */
  type Memory = (U64, nat) -> Option<seq<U8>>

  function ByteAt(memory: Memory, address: U64, i: nat): Option<seq<U8>> {
    memory(Wrap64(address + i), 1)
  }

  predicate ByteIs(memory: Memory, address: U64, i: nat, b: U8) {
    ByteAt(memory, address, i) == Some([b])
  }

  /** A read yields as many bytes as it was asked for, and each of them can be read alone with that value. */
  ghost predicate Coherent(memory: Memory) {
    forall a: U64, n: nat :: memory(a, n).Some? ==>
      |memory(a, n).value| == n && forall i: nat :: i < n ==> ByteIs(memory, a, i, memory(a, n).value[i])
  }

  // ---- the byte loop ----

  /** The bytes from position i on: up to the first zero, or as many as the capacity leaves, unless a byte on
      the way cannot be read. */
  function ByteLoop(memory: Memory, address: U64, capacity: nat, i: nat): Option<seq<U8>>
    requires i <= capacity
    decreases capacity - i
  {
    if i == capacity then Some([])
    else
      match ByteAt(memory, address, i)
      case None => None
      case Some(one) =>
        if |one| != 1 then None
        else if one[0] == 0 then Some([])
        else
          match ByteLoop(memory, address, capacity, i + 1)
          case None => None
          case Some(rest) => Some(one + rest)
  }

  function ReadString(memory: Memory, address: U64, capacity: int): Option<seq<U8>> {
    if address == 0 || capacity <= 0 then None else ByteLoop(memory, address, capacity, 0)
  }

  function Answer(ok: bool, value: seq<U8>): Option<seq<U8>> {
    if ok then Some(value) else None
  }

  /** Bytes already read and found nonzero go in front of what the loop yields from there. */
  function After(read: seq<U8>, rest: Option<seq<U8>>): Option<seq<U8>> {
    match rest case None => None case Some(r) => Some(read + r)
  }

  /** The bytes can be read one by one from position i on. */
  ghost predicate RunIs(memory: Memory, address: U64, i: nat, bytes: seq<U8>) {
    forall k: nat :: k < |bytes| ==> ByteIs(memory, address, i + k, bytes[k])
  }

  /** The string is read exactly when its bytes are nonzero, can be read one after the other from the address on,
      and end before a zero byte or fill the capacity. */
  lemma ReadStringIff(memory: Memory, address: U64, capacity: int, s: seq<U8>)
    ensures ReadString(memory, address, capacity) == Some(s) <==>
      && address != 0 && |s| <= capacity && capacity > 0 && 0 !in s && RunIs(memory, address, 0, s)
      && (|s| == capacity || ByteIs(memory, address, |s|, 0))
  {
    if address != 0 && capacity > 0 { ByteLoopIff(memory, address, capacity, 0, s); }
  }

  lemma {:induction false} ByteLoopIff(memory: Memory, address: U64, capacity: nat, i: nat, s: seq<U8>)
    requires i <= capacity
    ensures ByteLoop(memory, address, capacity, i) == Some(s) <==>
      && i + |s| <= capacity && 0 !in s && RunIs(memory, address, i, s)
      && (i + |s| == capacity || ByteIs(memory, address, i + |s|, 0))
    decreases capacity - i
  {
    hide RunIs;
    var one := ByteAt(memory, address, i);
    if s == [] {
      assert RunIs(memory, address, i, s) by { NothingRuns(memory, address, i); }
      if i < capacity && one.Some? && |one.value| == 1 {
        assert one.value == [one.value[0]];
        var rest := ByteLoop(memory, address, capacity, i + 1);
        assert rest.Some? ==> |one.value + rest.value| > 0;
      }
    } else if i < capacity {
      var first, rest := s[0], s[1..];
      assert s == [first] + rest;
      ByteLoopIff(memory, address, capacity, i + 1, rest);
      RunFirst(memory, address, i, first, rest);
      if one.Some? && |one.value| == 1 && ByteLoop(memory, address, capacity, i + 1).Some? {
        var loop := ByteLoop(memory, address, capacity, i + 1).value;
        assert (one.value + loop)[0] == one.value[0] && (one.value + loop)[1..] == loop;
        assert one.value == [one.value[0]];
      }
    }
  }

  lemma NothingRuns(memory: Memory, address: U64, i: nat)
    ensures RunIs(memory, address, i, [])
  {
  }

  lemma RunFirst(memory: Memory, address: U64, i: nat, first: U8, rest: seq<U8>)
    ensures RunIs(memory, address, i, [first] + rest)
       <==> ByteIs(memory, address, i, first) && RunIs(memory, address, i + 1, rest)
  {
    hide ByteIs;
    var s := [first] + rest;
    if RunIs(memory, address, i, s) {
      assert s[0] == first && ByteIs(memory, address, i + 0, s[0]);
      forall k: nat | k < |rest| ensures ByteIs(memory, address, i + 1 + k, rest[k]) {
        var k1: nat := k + 1;
        assert ByteIs(memory, address, i + k1, s[k1]);
      }
    }
    if ByteIs(memory, address, i, first) && RunIs(memory, address, i + 1, rest) {
      forall k: nat | k < |s| ensures ByteIs(memory, address, i + k, s[k]) {
        if k > 0 {
          var k0: nat := k - 1;
          assert ByteIs(memory, address, i + 1 + k0, rest[k0]);
        }
      }
    }
  }

  lemma RunExtends(memory: Memory, address: U64, i: nat, bytes: seq<U8>, b: U8)
    requires RunIs(memory, address, i, bytes) && ByteIs(memory, address, i + |bytes|, b)
    ensures RunIs(memory, address, i, bytes + [b])
  {
    hide ByteIs;
  }

  lemma {:induction false} NonzeroRun(memory: Memory, address: U64, capacity: nat, i: nat, bytes: seq<U8>)
    requires i + |bytes| <= capacity && 0 !in bytes && RunIs(memory, address, i, bytes)
    ensures ByteLoop(memory, address, capacity, i) == After(bytes, ByteLoop(memory, address, capacity, i + |bytes|))
    decreases |bytes|
  {
    if bytes == [] {
      var rest := ByteLoop(memory, address, capacity, i);
      assert rest.Some? ==> [] + rest.value == rest.value;
    } else {
      assert ByteIs(memory, address, i + 0, bytes[0]);
      var tail := bytes[1..];
      forall k: nat | k < |tail| ensures ByteIs(memory, address, i + 1 + k, tail[k]) {
        var k1 := k + 1;
        assert ByteIs(memory, address, i + k1, bytes[k1]);
      }
      NonzeroRun(memory, address, capacity, i + 1, tail);
      var rest := ByteLoop(memory, address, capacity, i + |bytes|);
      assert rest.Some? ==> [bytes[0]] + (tail + rest.value) == bytes + rest.value;
    }
  }

  // ---- the chunked reader ----

  const STACK_BUFFER_LENGTH: nat := 512
  const READ_CHUNK_LENGTH: nat := 128

  /** A failed read may leave anything in the part of the buffer it was given. */
  method TryRead(memory: Memory, address: U64, buffer: array<U8>, offset: nat, count: nat) returns (ok: bool)
    requires offset + count <= buffer.Length && Coherent(memory)
    modifies buffer
    ensures ok == memory(address, count).Some?
    ensures buffer[..offset] == old(buffer[..offset])
    ensures ok ==> buffer[offset..offset + count] == memory(address, count).value
  {
    var bytes := memory(address, count);
    ok := bytes.Some?;
    for i := 0 to count
      invariant buffer[..offset] == old(buffer[..offset])
      invariant ok ==> buffer[offset..offset + i] == bytes.value[..i]
    {
      if ok { buffer[offset + i] := bytes.value[i]; } else { buffer[offset + i] := *; }
    }
  }

  /** The position of the first zero. */
  method IndexOfZero(buffer: array<U8>, offset: nat, count: nat) returns (index: int)
    requires offset + count <= buffer.Length
    ensures -1 <= index < count && 0 !in buffer[offset..offset + (if index < 0 then count else index)]
    ensures index >= 0 ==> buffer[offset + index] == 0
  {
    for i := 0 to count
      invariant 0 !in buffer[offset..offset + i]
    {
      if buffer[offset + i] == 0 { return i; }
    }
    index := -1;
  }

  lemma WrapAgain(x: int, y: int)
    ensures Wrap64(Wrap64(x) + y) == Wrap64(x + y)
  {
  }

  /** A zero that can be read ends the string. */
  lemma EndsAtZero(memory: Memory, address: U64, capacity: nat, i: nat)
    requires i < capacity && ByteIs(memory, address, i, 0)
    ensures ByteLoop(memory, address, capacity, i) == Some([])
  {
  }

  /** What a chunk read whole says of each of its bytes. */
  lemma ChunkBytes(memory: Memory, address: U64, length: nat, chunk: nat)
    requires Coherent(memory) && memory(Wrap64(address + length), chunk).Some?
    ensures var bytes := memory(Wrap64(address + length), chunk).value;
      |bytes| == chunk && RunIs(memory, address, length, bytes)
  {
    var a := Wrap64(address + length);
    var bytes := memory(a, chunk).value;
    forall k: nat | k < chunk ensures ByteIs(memory, address, length + k, bytes[k]) {
      assert ByteIs(memory, a, k, bytes[k]);
      WrapAgain(address + length, k);
    }
  }

  /** Bytes read up to a zero, behind those read before. */
  lemma FoundZero(memory: Memory, address: U64, capacity: nat, length: nat, before: seq<U8>, run: seq<U8>)
    requires length + |run| < capacity && 0 !in run && ByteIs(memory, address, length + |run|, 0)
    requires RunIs(memory, address, length, run)
    ensures Some(before + run) == After(before, ByteLoop(memory, address, capacity, length))
  {
    NonzeroRun(memory, address, capacity, length, run);
    EndsAtZero(memory, address, capacity, length + |run|);
    assert run + [] == run;
  }

  lemma PrefixIs(memory: Memory, address: U64, i: nat, bytes: seq<U8>, n: nat)
    requires RunIs(memory, address, i, bytes) && n < |bytes|
    ensures RunIs(memory, address, i, bytes[..n]) && ByteIs(memory, address, i + n, bytes[n])
  {
    hide ByteIs;
  }

  /** One chunk: whole if it can be read, else byte by byte. It either settles the answer or leaves the
      bytes in the buffer, none of them zero. */
  method ReadChunk(memory: Memory, address: U64, capacity: nat, buffer: array<U8>, length: nat, chunk: nat)
    returns (done: bool, ok: bool, value: seq<U8>)
    requires Coherent(memory) && length + chunk <= capacity <= buffer.Length
    modifies buffer
    ensures buffer[..length] == old(buffer[..length])
    ensures var rest := ByteLoop(memory, address, capacity, length);
      if done then Answer(ok, value) == After(old(buffer[..length]), rest) && (!ok ==> value == [])
      else rest == After(buffer[length..length + chunk], ByteLoop(memory, address, capacity, length + chunk))
  {
    hide ByteLoop, ByteIs, RunIs, Wrap64;
    ghost var before := buffer[..length];
    var whole := TryRead(memory, Wrap64(address + length), buffer, length, chunk);
    if whole {
      ChunkBytes(memory, address, length, chunk);
      ghost var bytes := memory(Wrap64(address + length), chunk).value;
      var terminator := IndexOfZero(buffer, length, chunk);
      if terminator >= 0 {
        PrefixIs(memory, address, length, bytes, terminator);
        FoundZero(memory, address, capacity, length, before, bytes[..terminator]);
        assert buffer[..length + terminator] == before + bytes[..terminator];
        return true, true, buffer[..length + terminator];
      }
      NonzeroRun(memory, address, capacity, length, bytes);
      return false, false, [];
    }
    done, ok, value := ReadBytes(memory, address, capacity, buffer, length, chunk);
  }

  method ReadBytes(memory: Memory, address: U64, capacity: nat, buffer: array<U8>, length: nat, chunk: nat)
    returns (done: bool, ok: bool, value: seq<U8>)
    requires Coherent(memory) && length + chunk <= capacity <= buffer.Length
    modifies buffer
    ensures buffer[..length] == old(buffer[..length])
    ensures var rest := ByteLoop(memory, address, capacity, length);
      if done then Answer(ok, value) == After(old(buffer[..length]), rest) && (!ok ==> value == [])
      else rest == After(buffer[length..length + chunk], ByteLoop(memory, address, capacity, length + chunk))
  {
    hide ByteLoop, ByteIs, RunIs, Wrap64, Coherent;
    ghost var before := buffer[..length];
    NoBytes(memory, address, length, buffer[length..length]);
    for i := 0 to chunk
      invariant buffer[..length] == before && 0 !in buffer[length..length + i]
      invariant RunIs(memory, address, length, buffer[length..length + i])
    {
      ghost var run := buffer[length..length + i];
      ghost var was := buffer[..length + i];
      var one := TryRead(memory, Wrap64(address + (length + i)), buffer, length + i, 1);
      assert was == before + run && buffer[..length + i] == was;
      assert buffer[length..length + i] == run;
      NonzeroRun(memory, address, capacity, length, run);
      if !one {
        CannotRead(memory, address, capacity, length + i);
        return true, false, [];
      }
      ByteRead(memory, address, length + i, buffer[length + i]);
      if buffer[length + i] == 0 {
        FoundZero(memory, address, capacity, length, before, run);
        assert buffer[..length + i] == before + run;
        return true, true, buffer[..length + i];
      }
      RunExtends(memory, address, length, run, buffer[length + i]);
      assert buffer[length..length + i + 1] == run + [buffer[length + i]];
    }
    NonzeroRun(memory, address, capacity, length, buffer[length..length + chunk]);
    done, ok, value := false, false, [];
  }

  lemma NoBytes(memory: Memory, address: U64, i: nat, bytes: seq<U8>)
    requires bytes == []
    ensures RunIs(memory, address, i, bytes)
  {
  }

  lemma CannotRead(memory: Memory, address: U64, capacity: nat, i: nat)
    requires i < capacity && memory(Wrap64(address + i), 1).None?
    ensures ByteLoop(memory, address, capacity, i) == None
  {
  }

  lemma ByteRead(memory: Memory, address: U64, i: nat, b: U8)
    requires memory(Wrap64(address + i), 1) == Some([b])
    ensures ByteIs(memory, address, i, b)
  {
  }

  lemma AfterTwice(a: seq<U8>, b: seq<U8>, rest: Option<seq<U8>>)
    ensures After(a, After(b, rest)) == After(a + b, rest)
  {
    if rest.Some? { assert a + (b + rest.value) == (a + b) + rest.value; }
  }

  lemma AtCapacity(memory: Memory, address: U64, capacity: nat, read: seq<U8>)
    ensures After(read, ByteLoop(memory, address, capacity, capacity)) == Some(read)
  {
    assert read + [] == read;
  }

  lemma AfterNothing(rest: Option<seq<U8>>)
    ensures After([], rest) == rest
  {
    if rest.Some? { assert [] + rest.value == rest.value; }
  }

  /** The chunked read answers what the byte loop answers, for every address and capacity. */
  method TryReadNullTerminatedUtf8(memory: Memory, address: U64, capacity: int) returns (ok: bool, value: seq<U8>)
    requires Coherent(memory)
    ensures Answer(ok, value) == ReadString(memory, address, capacity)
    ensures !ok ==> value == []
  {
    hide Coherent, ByteLoop, After;
    value := [];
    if address == 0 || capacity <= 0 { return false, value; }
    var bytes := new U8[if capacity > STACK_BUFFER_LENGTH then capacity else STACK_BUFFER_LENGTH];
    var length := 0;
    AfterNothing(ByteLoop(memory, address, capacity, 0));
    while length < capacity
      invariant 0 <= length <= capacity
      invariant After(bytes[..length], ByteLoop(memory, address, capacity, length))
        == ByteLoop(memory, address, capacity, 0)
    {
      var chunk := if READ_CHUNK_LENGTH < capacity - length then READ_CHUNK_LENGTH else capacity - length;
      ghost var before := bytes[..length];
      var done, found, text := ReadChunk(memory, address, capacity, bytes, length, chunk);
      if done { return found, text; }
      AfterTwice(before, bytes[length..length + chunk], ByteLoop(memory, address, capacity, length + chunk));
      assert bytes[..length + chunk] == before + bytes[length..length + chunk];
      length := length + chunk;
    }
    AtCapacity(memory, address, capacity, bytes[..capacity]);
    value := bytes[..capacity];
    ok := true;
  }
}
