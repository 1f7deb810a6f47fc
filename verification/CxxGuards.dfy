/** The exported guard functions over the dictionary of guards in progress and the guest's memory: one pass
    of an acquire, a release, an abort. Each is proved against the step of the model on its own guard, and
    leaves every other guard alone. */
module CxxGuards {
  import opened GuardModel
  import opened Words

  const STATE_MASK: nat := 0xFFFF

  datatype Entry = Entry(ownerThreadId: int, recursionDepth: nat)

  /** A null guard pointer is rejected before anything else. */
  datatype Reply = InvalidArgument | Replied(answer: Answer)

  lemma MaskedWrite(word: U64, value: nat)
    requires value < LOW_HALF
    ensures STATE_MASK < Pow2(64)
    ensures BitOr(BitAnd(word, BitNot(STATE_MASK, 64)), BitAnd(value, STATE_MASK)) == SetLow(word, value)
  {
    hide BitAnd, BitOr, BitNot, Pow2, SetLow;
    Pow2Known();
    ClearLowBits(word, 16, 64);
    MaskIsRemainder(value, 16);
    var high := word / LOW_HALF;
    assert word - word % LOW_HALF == high * LOW_HALF;
    OrDisjointIsSum(high, value, 16);
    SetLowIs(word, value);
  }

  lemma SetLowIs(word: U64, value: nat)
    requires value < LOW_HALF
    ensures SetLow(word, value) == word / LOW_HALF * LOW_HALF + value
  {
  }

  lemma CompleteBit(word: U64)
    ensures BitAnd(word, COMPLETE) != 0 <==> Initialized(word)
  {
    MaskIsRemainder(word, 1);
    assert Pow2(1) == 2;
  }

  class Guards {
    var inProgress: map<U64, Entry>
    var memory: map<U64, U64>

    /** No entry is ever entered twice by its owner. */
    ghost predicate Valid()
      reads this
    {
      forall p :: p in inProgress ==> inProgress[p].recursionDepth == 1
    }

    function Word(p: U64): U64
      reads `memory
    {
      if p in memory then memory[p] else 0
    }

    ghost function View(p: U64): Guard
      reads this
    {
      Guard(Word(p), if p in inProgress then Some(inProgress[p].ownerThreadId) else None)
    }


    constructor (memory: map<U64, U64>)
      ensures Valid() && inProgress == map[] && this.memory == memory
    {
      inProgress, this.memory := map[], memory;
    }

    method TryReadGuardState(p: U64, io: Io) returns (ok: bool, initialized: bool)
      ensures ok == io.readable && (ok ==> initialized == Initialized(Word(p)))
    {
      if !io.readable { return false, false; }
      CompleteBit(Word(p));
      return true, BitAnd(Word(p), COMPLETE) != 0;
    }

    method TryWriteGuardState(p: U64, stateValue: nat, io: Io) returns (ok: bool)
      requires stateValue < LOW_HALF
      modifies `memory
      ensures ok == CanWrite(io)
      ensures memory == if ok then old(memory)[p := SetLow(old(Word(p)), stateValue)] else old(memory)
    {
      if !io.readable { return false; }
      MaskedWrite(Word(p), stateValue);
      var newWord := BitOr(BitAnd(Word(p), BitNot(STATE_MASK, 64)), BitAnd(stateValue, STATE_MASK));
      if io.writable { memory := memory[p := newWord]; }
      ok := io.writable;
    }

    /** One pass of the acquiring loop; it goes round again while another thread owns the guard. */
    method AcquirePass(p: U64, currentThreadId: int, io: Io) returns (r: Reply)
      requires Valid()
      modifies this
      ensures Valid() && (p == 0 ==> r == InvalidArgument && inProgress == old(inProgress) && memory == old(memory))
      ensures p != 0 ==> r.Replied? && (r.answer, View(p)) == Apply(old(View(p)), Step(currentThreadId, Acquire, io))
      ensures forall q: U64 :: q != p ==> View(q) == old(View(q))
    {
      hide SetLow, Initialized;
      if p == 0 { return InvalidArgument; }
      var ok, initialized := TryReadGuardState(p, io);
      if !ok { return Replied(MemoryFault); }
      if initialized { return Replied(Zero); }
      if p !in inProgress {
        inProgress := inProgress[p := Entry(currentThreadId, 1)];
        var written := TryWriteGuardState(p, PENDING, io);
        if !written {
          inProgress := inProgress - {p};
          return Replied(MemoryFault);
        }
        return Replied(One);
      }
      if inProgress[p].ownerThreadId == currentThreadId { return Replied(Zero); }
      r := Replied(Again);
    }

    method Release(p: U64, currentThreadId: int, io: Io) returns (r: Reply)
      requires Valid()
      modifies this
      ensures Valid() && (p == 0 ==> r == InvalidArgument && inProgress == old(inProgress) && memory == old(memory))
      ensures p != 0 ==>
        r.Replied? && (r.answer, View(p)) == Apply(old(View(p)), Step(currentThreadId, GuardModel.Release, io))
      ensures forall q: U64 :: q != p ==> View(q) == old(View(q))
    {
      hide SetLow, Initialized;
      if p == 0 { return InvalidArgument; }
      if p in inProgress && inProgress[p].ownerThreadId != currentThreadId { return Replied(NotOwner); }
      if p in inProgress && inProgress[p].recursionDepth > 1 {
        assert false; // nothing ever raises the depth
      }
      var written := TryWriteGuardState(p, COMPLETE, io);
      if !written { return Replied(MemoryFault); }
      inProgress := inProgress - {p};
      r := Replied(Zero);
    }

    method Abort(p: U64, currentThreadId: int, io: Io) returns (r: Reply)
      requires Valid()
      modifies this
      ensures Valid() && (p == 0 ==> r == InvalidArgument && inProgress == old(inProgress) && memory == old(memory))
      ensures p != 0 ==>
        r.Replied? && (r.answer, View(p)) == Apply(old(View(p)), Step(currentThreadId, GuardModel.Abort, io))
      ensures forall q: U64 :: q != p ==> View(q) == old(View(q))
    {
      hide SetLow, Initialized;
      if p == 0 { return InvalidArgument; }
      if p in inProgress && inProgress[p].ownerThreadId != currentThreadId { return Replied(NotOwner); }
      var _ := TryWriteGuardState(p, 0, io);
      inProgress := inProgress - {p};
      r := Replied(Zero);
    }
  }
}
