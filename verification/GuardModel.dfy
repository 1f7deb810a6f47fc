/** The one-time initialisation guards of the Itanium C++ ABI (section 3.3.2): one guard word, the entry that
    names the thread initialising it, and any number of threads. First with each pass, release and abort as
    one step, then with every access to the shared word and dictionary as a step of its own. */
module GuardModel {
  import opened Words

  const COMPLETE: nat := 0x0001
  const PENDING: nat := 0x0100
  const LOW_HALF: nat := 0x1_0000

  datatype Option<T> = None | Some(value: T)

  datatype Guard = Guard(word: U64, owner: Option<int>)

  function LowHalf(word: U64): nat {
    word % LOW_HALF
  }

  predicate Initialized(word: U64) {
    word % 2 == 1
  }

  /** The upper 48 bits stay. */
  function SetLow(word: U64, value: nat): (w: U64)
    requires value < LOW_HALF
    ensures w / LOW_HALF == word / LOW_HALF && LowHalf(w) == value
  {
    word / LOW_HALF * LOW_HALF + value
  }

  /** What the guest's memory answers. */
  datatype Io = Io(readable: bool, writable: bool)

  predicate CanWrite(io: Io) {
    io.readable && io.writable
  }

  datatype Answer = One | Zero | MemoryFault | NotOwner | Again

  datatype Op = Acquire | Release | Abort

  datatype Step = Step(thread: int, op: Op, io: Io)

  // ---- whole passes as steps ----

  function Pass(g: Guard, t: int, io: Io): (Answer, Guard) {
    if !io.readable then (MemoryFault, g)
    else if Initialized(g.word) then (Zero, g)
    else
      match g.owner
      case None => if CanWrite(io) then (One, Guard(SetLow(g.word, PENDING), Some(t))) else (MemoryFault, g)
      case Some(o) => (if o == t then Zero else Again, g)
  }

  function Finish(g: Guard, t: int, io: Io): (Answer, Guard) {
    if g.owner.Some? && g.owner.value != t then (NotOwner, g)
    else if !CanWrite(io) then (MemoryFault, g)
    else (Zero, Guard(SetLow(g.word, COMPLETE), None))
  }

  /** An abort ignores a refused write: the entry goes, the mark stays. */
  function GiveUp(g: Guard, t: int, io: Io): (Answer, Guard) {
    if g.owner.Some? && g.owner.value != t then (NotOwner, g)
    else (Zero, Guard(if CanWrite(io) then SetLow(g.word, 0) else g.word, None))
  }

  function Apply(g: Guard, s: Step): (Answer, Guard) {
    match s.op
    case Acquire => Pass(g, s.thread, s.io)
    case Release => Finish(g, s.thread, s.io)
    case Abort => GiveUp(g, s.thread, s.io)
  }

  /** With the threads whose last acquire returned 1 and which have not finished, and whether any finished. */
  datatype History = History(guard: Guard, initialising: set<int>, completed: bool)

  function Track(h: History, s: Step): History {
    var (answer, g) := Apply(h.guard, s);
    var done := s.op != Acquire && answer == Zero;
    History(g,
            if answer == One then h.initialising + {s.thread}
            else if done then h.initialising - {s.thread}
            else h.initialising,
            h.completed || (done && s.op == Release))
  }

  /** Release and abort are called only by a thread whose acquire returned 1. */
  predicate Legal(h: History, s: Step) {
    s.op != Acquire ==> s.thread in h.initialising
  }

  predicate LegalRun(h: History, steps: seq<Step>)
    decreases |steps|
  {
    steps == [] || (Legal(h, steps[0]) && LegalRun(Track(h, steps[0]), steps[1..]))
  }

  function Run(h: History, steps: seq<Step>): History
    decreases |steps|
  {
    if steps == [] then h else Run(Track(h, steps[0]), steps[1..])
  }

  /** The threads initialising are exactly the entry's owner, so there is at most one; the guard is complete
      exactly once some thread has finished, and then has no owner; the upper bits are the first ones. */
  predicate Inv(h: History, upper: nat) {
    && h.initialising == (match h.guard.owner case None => {} case Some(t) => {t})
    && (Initialized(h.guard.word) <==> h.completed) && (h.completed ==> h.guard.owner.None?)
    && (h.guard.owner.Some? ==> LowHalf(h.guard.word) == PENDING)
    && h.guard.word / LOW_HALF == upper
  }

  lemma LowDecides(word: U64)
    ensures Initialized(word) <==> LowHalf(word) % 2 == 1
  {
  }

  lemma TrackKeeps(h: History, s: Step, upper: nat)
    requires Inv(h, upper) && Legal(h, s)
    ensures Inv(Track(h, s), upper)
    ensures h.completed ==> Apply(h.guard, s).0 != One
  {
    hide SetLow, LowHalf, Initialized;
    LowDecides(h.guard.word);
    LowDecides(SetLow(h.guard.word, PENDING));
    LowDecides(SetLow(h.guard.word, COMPLETE));
    LowDecides(SetLow(h.guard.word, 0));
  }

  /** In every run at most one thread is initialising, the upper 48 bits never change, and the guard is
      complete exactly when a release has succeeded. */
  lemma {:induction false} RunKeeps(h: History, steps: seq<Step>, upper: nat)
    requires Inv(h, upper) && LegalRun(h, steps)
    ensures Inv(Run(h, steps), upper)
    decreases |steps|
  {
    hide Inv, Track, Legal;
    if steps != [] {
      TrackKeeps(h, steps[0], upper);
      RunKeeps(Track(h, steps[0]), steps[1..], upper);
    }
  }

  /** From any guard word nobody is initialising: in every legal run at most one thread is initialising at a time,
      the upper 48 bits stay, and the lowest bit is set exactly when some thread has finished. */
  lemma EveryRun(word: U64, steps: seq<Step>, t: int, u: int)
    requires LegalRun(History(Guard(word, None), {}, word % 2 == 1), steps)
    ensures var h := Run(History(Guard(word, None), {}, word % 2 == 1), steps);
      && (t in h.initialising && u in h.initialising ==> t == u)
      && h.guard.word / 0x1_0000 == word / 0x1_0000
      && (h.guard.word % 2 == 1 <==> h.completed)
  {
    hide Run, LegalRun;
    var start := History(Guard(word, None), {}, word % 2 == 1);
    assert Inv(start, word / LOW_HALF);
    RunKeeps(start, steps, word / LOW_HALF);
  }

  /** After the first release no acquire returns 1 again. */
  lemma {:induction false} NeverAgain(h: History, steps: seq<Step>, upper: nat, k: nat)
    requires Inv(h, upper) && LegalRun(h, steps) && h.completed && k < |steps|
    ensures Apply(Run(h, steps[..k]).guard, steps[k]).0 != One
    decreases |steps|
  {
    hide Inv, Legal, Apply;
    TrackKeeps(h, steps[0], upper);
    if k > 0 {
      NeverAgain(Track(h, steps[0]), steps[1..], upper, k - 1);
      assert steps[..k][1..] == steps[1..][..k - 1];
    }
  }

  /** The pending mark is there exactly while the guard has an owner. */
  predicate Marked(g: Guard) {
    LowHalf(g.word) == PENDING <==> g.owner.Some?
  }

  /** A step keeps that exactly when it is not an abort whose write is refused. */
  lemma MarkedKeptIff(h: History, s: Step, upper: nat)
    requires Inv(h, upper) && Legal(h, s) && Marked(h.guard)
    ensures Marked(Track(h, s).guard) <==> s.op != Abort || CanWrite(s.io)
  {
    hide SetLow;
  }

  /** A thread acquires the guard and aborts while the word cannot be written: nobody owns the guard, and the
      word still says that somebody does. */
  lemma AbortLeavesMark()
    ensures var start := History(Guard(0, None), {}, false);
      var steps := [Step(1, Acquire, Io(true, true)), Step(1, Abort, Io(true, false))];
      LegalRun(start, steps) && !Marked(Run(start, steps).guard)
  {
    var start := History(Guard(0, None), {}, false);
    var first, second := Step(1, Acquire, Io(true, true)), Step(1, Abort, Io(true, false));
    var h1 := Track(start, first);
    var h2 := Track(h1, second);
    assert [first, second][1..] == [second];
    assert Run(h1, [second]) == Run(h2, [second][1..]) == h2;
    assert LegalRun(h1, [second]);
  }

  predicate AbortsWritten(steps: seq<Step>) {
    forall k :: 0 <= k < |steps| && steps[k].op == Abort ==> CanWrite(steps[k].io)
  }

  lemma {:induction false} RunMarked(h: History, steps: seq<Step>, upper: nat)
    requires Inv(h, upper) && LegalRun(h, steps) && Marked(h.guard) && AbortsWritten(steps)
    ensures Marked(Run(h, steps).guard)
    decreases |steps|
  {
    hide Inv, Track, Legal, Marked;
    if steps != [] {
      TrackKeeps(h, steps[0], upper);
      MarkedKeptIff(h, steps[0], upper);
      assert forall k :: 0 <= k < |steps[1..]| ==> steps[1..][k] == steps[k + 1];
      RunMarked(Track(h, steps[0]), steps[1..], upper);
    }
  }

  // ---- each access a step of its own ----

  /** Where a thread stands: outside; after reading an incomplete word; after adding its entry; after acquire
      returned 1; the same with a further acquire of its own under way; after writing the final mark. */
  datatype Place = Outside | Poised | Added | Initialising | Reentrant | Leaving

  datatype Split = Split(word: U64, owner: Option<int>, places: map<int, Place>)

  datatype Access =
    | ReadWord(ok: bool)
    | TryAdd
    | WriteMark(ok: bool)
    | WriteComplete(ok: bool)
    | WriteZero(ok: bool)
    | RemoveEntry

  function PlaceOf(s: Split, t: int): Place {
    if t in s.places then s.places[t] else Outside
  }

  function Move(s: Split, t: int, p: Place): Split {
    s.(places := s.places[t := p])
  }

  /** An access a thread is not up to changes nothing. */
  function Perform(s: Split, t: int, a: Access): Split {
    match (PlaceOf(s, t), a)
    case (Outside, ReadWord(ok)) => if ok && !Initialized(s.word) then Move(s, t, Poised) else s
    case (Initialising, ReadWord(ok)) => if ok && !Initialized(s.word) then Move(s, t, Reentrant) else s
    case (Poised, TryAdd) => if s.owner.None? then Move(s.(owner := Some(t)), t, Added) else Move(s, t, Outside)
    case (Reentrant, TryAdd) => Move(s, t, Initialising)
    case (Added, WriteMark(ok)) =>
      if ok then Move(s.(word := SetLow(s.word, PENDING)), t, Initialising) else Move(s.(owner := None), t, Outside)
    case (Initialising, WriteComplete(ok)) => if ok then Move(s.(word := SetLow(s.word, COMPLETE)), t, Leaving) else s
    case (Initialising, WriteZero(ok)) => Move(if ok then s.(word := SetLow(s.word, 0)) else s, t, Leaving)
    case (Leaving, RemoveEntry) => Move(s.(owner := None), t, Outside)
    case _ => s
  }

  datatype Turn = Turn(thread: int, access: Access)

  function Interleave(s: Split, turns: seq<Turn>): Split
    decreases |turns|
  {
    if turns == [] then s else Interleave(Perform(s, turns[0].thread, turns[0].access), turns[1..])
  }

  predicate Holds(p: Place) {
    p.Added? || p.Initialising? || p.Reentrant? || p.Leaving?
  }

  /** A thread is between adding and removing the entry exactly when the entry names it. */
  ghost predicate Exclusive(s: Split) {
    forall t :: Holds(PlaceOf(s, t)) <==> s.owner == Some(t)
  }

  lemma PerformExclusive(s: Split, t: int, a: Access)
    requires Exclusive(s)
    ensures Exclusive(Perform(s, t, a)) && Perform(s, t, a).word / LOW_HALF == s.word / LOW_HALF
  {
    hide SetLow, Initialized;
    var s' := Perform(s, t, a);
    forall u ensures Holds(PlaceOf(s', u)) <==> s'.owner == Some(u) {
      assert Holds(PlaceOf(s, u)) <==> s.owner == Some(u);
      assert Holds(PlaceOf(s, t)) <==> s.owner == Some(t);
    }
  }

  /** In every interleaving of any threads' accesses at most one thread is initialising, and the upper bits of
      the word never change. */
  lemma {:induction false} MutualExclusion(s: Split, turns: seq<Turn>, t: int, u: int)
    requires Exclusive(s)
    ensures var s' := Interleave(s, turns);
      && (PlaceOf(s', t).Initialising? && PlaceOf(s', u).Initialising? ==> t == u)
        && s'.word / LOW_HALF == s.word / LOW_HALF
    decreases |turns|
  {
    hide Perform;
    if turns == [] {
      assert Holds(PlaceOf(s, t)) <==> s.owner == Some(t);
      assert Holds(PlaceOf(s, u)) <==> s.owner == Some(u);
    } else {
      PerformExclusive(s, turns[0].thread, turns[0].access);
      MutualExclusion(Perform(s, turns[0].thread, turns[0].access), turns[1..], t, u);
    }
  }

  /** The guard is complete and no thread is inside. */
  predicate Done(s: Split) {
    Initialized(s.word) && s.owner.None?
  }

  ghost predicate NobodyPoised(s: Split) {
    forall t :: !PlaceOf(s, t).Poised?
  }

  lemma {:induction false} DoneStays(s: Split, turns: seq<Turn>)
    requires Exclusive(s) && Done(s) && NobodyPoised(s)
    ensures var s' := Interleave(s, turns); Exclusive(s') && Done(s') && NobodyPoised(s')
    decreases |turns|
  {
    hide SetLow, Initialized;
    if turns != [] {
      var t := turns[0].thread;
      assert Holds(PlaceOf(s, t)) <==> s.owner == Some(t);
      assert Perform(s, t, turns[0].access) == s;
      DoneStays(s, turns[1..]);
    }
  }

  ghost predicate CanInitialiseAgain(s: Split) {
    exists turns, t :: PlaceOf(Interleave(s, turns), t).Initialising?
  }

  /** Once a guard is complete and nobody is inside, some acquire can still return 1 exactly when a thread had
      read the word before it was complete and has not tried to add its entry yet. */
  lemma InitialisedAgainIff(s: Split)
    requires Exclusive(s) && Done(s)
    ensures CanInitialiseAgain(s) <==> !NobodyPoised(s)
  {
    if NobodyPoised(s) {
      forall turns, t ensures !PlaceOf(Interleave(s, turns), t).Initialising? {
        DoneStays(s, turns);
        assert Holds(PlaceOf(Interleave(s, turns), t)) <==> Interleave(s, turns).owner == Some(t);
      }
    } else {
      var t :| PlaceOf(s, t).Poised?;
      AddsAgain(s, t);
    }
  }

  lemma AddsAgain(s: Split, t: int)
    requires PlaceOf(s, t).Poised? && s.owner.None?
    ensures PlaceOf(Interleave(s, [Turn(t, TryAdd), Turn(t, WriteMark(true))]), t).Initialising?
    ensures !Initialized(Interleave(s, [Turn(t, TryAdd), Turn(t, WriteMark(true))]).word)
  {
    var first, second := Turn(t, TryAdd), Turn(t, WriteMark(true));
    var s1 := Perform(s, t, TryAdd);
    var s2 := Perform(s1, t, WriteMark(true));
    LowDecides(s2.word);
    assert [first, second][1..] == [second];
    assert Interleave(s1, [second]) == Interleave(s2, [second][1..]) == s2;
  }

  /** Two threads initialise the same guard, one after the other, and its complete mark is lost. */
  lemma InitialisedTwice()
    ensures var start := Split(0, None, map[]);
      var once := [Turn(1, ReadWord(true)), Turn(2, ReadWord(true)), Turn(2, TryAdd), Turn(2, WriteMark(true)),
                   Turn(2, WriteComplete(true)), Turn(2, RemoveEntry)];
      var after := Interleave(start, once);
      && Done(after) && PlaceOf(after, 1).Poised?
      && PlaceOf(Interleave(after, [Turn(1, TryAdd), Turn(1, WriteMark(true))]), 1).Initialising?
      && !Initialized(Interleave(after, [Turn(1, TryAdd), Turn(1, WriteMark(true))]).word)
  {
    var s0 := Split(0, None, map[]);
    var s1 := Perform(s0, 1, ReadWord(true));
    var s2 := Perform(s1, 2, ReadWord(true));
    var s3 := Perform(s2, 2, TryAdd);
    var s4 := Perform(s3, 2, WriteMark(true));
    var s5 := Perform(s4, 2, WriteComplete(true));
    var s6 := Perform(s5, 2, RemoveEntry);
    SixTurns(s0, [Turn(1, ReadWord(true)), Turn(2, ReadWord(true)), Turn(2, TryAdd), Turn(2, WriteMark(true)),
                  Turn(2, WriteComplete(true)), Turn(2, RemoveEntry)]);
    LowDecides(s5.word);
    AddsAgain(s6, 1);
  }

  lemma SixTurns(s: Split, turns: seq<Turn>)
    requires |turns| == 6
    ensures var s1 := Perform(s, turns[0].thread, turns[0].access);
      var s2 := Perform(s1, turns[1].thread, turns[1].access);
      var s3 := Perform(s2, turns[2].thread, turns[2].access);
      var s4 := Perform(s3, turns[3].thread, turns[3].access);
      var s5 := Perform(s4, turns[4].thread, turns[4].access);
      Interleave(s, turns) == Perform(s5, turns[5].thread, turns[5].access)
  {
    hide Perform;
    assert turns[1..][1..] == turns[2..] && turns[2..][1..] == turns[3..] && turns[3..][1..] == turns[4..];
    assert turns[4..][1..] == turns[5..] && turns[5..][1..] == [];
    var s1 := Perform(s, turns[0].thread, turns[0].access);
    var s2 := Perform(s1, turns[1].thread, turns[1].access);
    var s3 := Perform(s2, turns[2].thread, turns[2].access);
    var s4 := Perform(s3, turns[3].thread, turns[3].access);
    var s5 := Perform(s4, turns[4].thread, turns[4].access);
    assert Interleave(s5, turns[5..]) == Perform(s5, turns[5].thread, turns[5].access);
    assert Interleave(s4, turns[4..]) == Interleave(s5, turns[5..]);
    assert Interleave(s3, turns[3..]) == Interleave(s4, turns[4..]);
    assert Interleave(s2, turns[2..]) == Interleave(s3, turns[3..]);
    assert Interleave(s1, turns[1..]) == Interleave(s2, turns[2..]);
  }

  // ---- what the answers say, and the steps as accesses ----

  ghost predicate AnotherIsInitialising(h: History, t: int) {
    exists u :: u in h.initialising && u != t
  }

  /** An acquire answers 1 exactly when nobody has initialised or is initialising and the mark can be written; 0
      when somebody has, or the caller itself is; and it waits for another thread alone. */
  lemma AcquireAnswers(h: History, t: int, io: Io, upper: nat)
    requires Inv(h, upper)
    ensures var answer := Apply(h.guard, Step(t, Acquire, io)).0;
      && (answer == One <==> io.readable && io.writable && !h.completed && h.initialising == {})
      && (answer == Zero <==> io.readable && (h.completed || t in h.initialising))
      && (answer == Again <==> io.readable && !h.completed && AnotherIsInitialising(h, t))
      && answer != NotOwner
  {
    hide SetLow, Initialized;
  }

  /** A release or an abort is refused exactly while another thread is initialising, without effect. A release
      that is not refused completes the guard exactly when the word can be written; an abort always gives it up,
      and clears the mark when the word can be written. */
  lemma FinishAnswers(h: History, t: int, io: Io, upper: nat)
    requires Inv(h, upper)
    ensures var (answer, g) := Apply(h.guard, Step(t, Release, io));
      && (answer == NotOwner <==> AnotherIsInitialising(h, t))
      && (answer == Zero <==> !AnotherIsInitialising(h, t) && io.readable && io.writable)
      && (answer == Zero ==> g.word % 0x1_0000 == 1 && g.owner == None)
      && (answer != Zero ==> g == h.guard)
    ensures var (answer, g) := Apply(h.guard, Step(t, Abort, io));
      && (answer == NotOwner <==> AnotherIsInitialising(h, t))
      && (answer != NotOwner ==> answer == Zero && g.owner == None)
      && (answer != NotOwner && io.readable && io.writable ==> g.word % 0x1_0000 == 0)
      && (answer == NotOwner ==> g == h.guard)
  {
    hide Initialized;
  }

  /** A thread's accesses from a state, one after the other. */
  function PerformAll(s: Split, t: int, accesses: seq<Access>): Split
    decreases |accesses|
  {
    if accesses == [] then s else PerformAll(Perform(s, t, accesses[0]), t, accesses[1..])
  }

  lemma TwoAccesses(s: Split, t: int, a: Access, b: Access)
    ensures PerformAll(s, t, [a, b]) == Perform(Perform(s, t, a), t, b)
  {
    hide Perform;
    assert [a, b][1..] == [b] && [b][1..] == [];
    assert PerformAll(Perform(s, t, a), t, [b]) == Perform(Perform(s, t, a), t, b);
  }

  lemma ThreeAccesses(s: Split, t: int, a: Access, b: Access, c: Access)
    ensures PerformAll(s, t, [a, b, c]) == Perform(Perform(Perform(s, t, a), t, b), t, c)
  {
    hide Perform;
    assert [a, b, c][1..] == [b, c];
    TwoAccesses(Perform(s, t, a), t, b, c);
  }

  /** A pass whose accesses nobody interrupts is the acquire step: the same word, the same entry, and the thread
      is initialising exactly when the answer is 1. */
  lemma PassIsItsAccesses(s: Split, t: int, io: Io)
    requires PlaceOf(s, t) == Outside && s.owner != Some(t)
    ensures var (answer, g) := Pass(Guard(s.word, s.owner), t, io);
      var s' := PerformAll(s, t, [ReadWord(io.readable), TryAdd, WriteMark(io.writable)]);
      && g == Guard(s'.word, s'.owner)
      && (answer == One <==> PlaceOf(s', t) == Initialising) && (answer != One <==> PlaceOf(s', t) == Outside)
  {
    hide SetLow, Initialized;
    ThreeAccesses(s, t, ReadWord(io.readable), TryAdd, WriteMark(io.writable));
  }

  /** A nested acquire by the thread that is initialising changes nothing in the end; in between, the thread is
      inside it exactly when it could read the word and found it incomplete. */
  lemma NestedPassIsItsAccesses(s: Split, t: int, ok: bool)
    requires PlaceOf(s, t) == Initialising && s.owner == Some(t)
    ensures PlaceOf(Perform(s, t, ReadWord(ok)), t) == if ok && s.word % 2 == 0 then Reentrant else Initialising
    ensures var s' := PerformAll(s, t, [ReadWord(ok), TryAdd]);
      s'.word == s.word && s'.owner == s.owner && PlaceOf(s', t) == Initialising
  {
    TwoAccesses(s, t, ReadWord(ok), TryAdd);
  }

  /** A release that can write, and any abort, are their two accesses likewise. */
  lemma FinishIsItsAccesses(s: Split, t: int, io: Io)
    requires PlaceOf(s, t) == Initialising && s.owner == Some(t) && io.readable
    ensures io.writable ==>
      var g := Finish(Guard(s.word, s.owner), t, io).1;
      var s' := PerformAll(s, t, [WriteComplete(true), RemoveEntry]);
      g == Guard(s'.word, s'.owner) && PlaceOf(s', t) == Outside
    ensures
      var g := GiveUp(Guard(s.word, s.owner), t, io).1;
      var s' := PerformAll(s, t, [WriteZero(io.writable), RemoveEntry]);
      g == Guard(s'.word, s'.owner) && PlaceOf(s', t) == Outside
  {
    hide SetLow, Initialized;
    TwoAccesses(s, t, WriteComplete(true), RemoveEntry);
    TwoAccesses(s, t, WriteZero(io.writable), RemoveEntry);
  }
}
