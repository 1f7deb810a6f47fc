/** The lock-free hand-off of shutdown reasons: one thread installs the handler while any number of threads
    ask for shutdown, each access to the shared fields a step of its own, in any order the threads take
    turns. A request that finds no handler leaves its reason behind for the installer to pick up. */
module HostSession {

  datatype Option<T> = None | Some(value: T)

  type Reason = int

  datatype Installer = Installing | WillTake | WillInvoke(taken: Reason) | Installed

  /** Where a request stands; the reason it will invoke the handler with need not be its own. */
  datatype Place = Announcing | Reading | Leaving | Checking | Taking | Invoking(reason: Reason) | Finished

  datatype State = State(
    handler: bool, pending: Option<Reason>, requested: bool, delivered: seq<Reason>, installer: Installer,
    requests: map<Reason, Place>)

  /** Requests are named by their distinct reasons. */
  function Start(reasons: set<Reason>): State {
    State(false, None, false, [], Installing, map r | r in reasons :: Announcing)
  }

  datatype Turn = Install | Request(r: Reason)

  function Put(s: State, r: Reason, p: Place): State {
    s.(requests := s.requests[r := p])
  }

  function Take(s: State, turn: Turn): State {
    match turn
    case Install =>
      (match s.installer
       case Installing => s.(handler := true, installer := WillTake)
       case WillTake =>
         s.(pending := None, installer := match s.pending case None => Installed case Some(r) => WillInvoke(r))
       case WillInvoke(r) => s.(delivered := s.delivered + [r], installer := Installed)
       case Installed => s)
    case Request(r) =>
      if r !in s.requests then s
      else
        match s.requests[r]
        case Announcing => Put(s.(requested := true), r, Reading)
        case Reading => Put(s, r, if s.handler then Invoking(r) else Leaving)
        case Leaving => Put(s.(pending := Some(r)), r, Checking)
        case Checking => Put(s, r, if s.handler then Taking else Finished)
        case Taking => Put(s.(pending := None), r, match s.pending case None => Finished case Some(q) => Invoking(q))
        case Invoking(q) => Put(s.(delivered := s.delivered + [q]), r, Finished)
        case Finished => s
  }

  function Run(s: State, turns: seq<Turn>): State
    decreases |turns|
  {
    if turns == [] then s else Run(Take(s, turns[0]), turns[1..])
  }

  predicate AllFinished(s: State) {
    s.installer == Installed && forall r :: r in s.requests ==> s.requests[r] == Finished
  }

  // ---- where each reason is ----

  /** The request has not parted with its reason yet. */
  predicate Kept(s: State, r: Reason) {
    r in s.requests && s.requests[r] in {Announcing, Reading, Leaving}
  }

  predicate HeldBy(s: State, q: Reason, r: Reason) {
    q in s.requests && s.requests[q] == Invoking(r)
  }

  predicate HeldByInstaller(s: State, r: Reason) {
    s.installer == WillInvoke(r)
  }

  predicate Delivered(s: State, r: Reason) {
    r in s.delivered
  }

  ghost predicate PendingAlone(s: State) {
    forall r :: s.pending == Some(r) ==> r in s.requests && !Kept(s, r) && !HeldByInstaller(s, r) && !Delivered(s, r)
  }

  ghost predicate HeldAlone(s: State) {
    forall q, r :: HeldBy(s, q, r) ==>
      r in s.requests && !Kept(s, r) && s.pending != Some(r) && !HeldByInstaller(s, r) && !Delivered(s, r)
  }

  ghost predicate OneHolder(s: State) {
    forall q, q', r :: HeldBy(s, q, r) && HeldBy(s, q', r) ==> q == q'
  }

  ghost predicate OthersAlone(s: State) {
    && (forall r :: HeldByInstaller(s, r) ==> r in s.requests && !Kept(s, r) && !Delivered(s, r))
    && (forall r :: Delivered(s, r) ==> r in s.requests && !Kept(s, r))
  }

  ghost predicate NoRepeat(s: State) {
    forall i, j :: 0 <= i < j < |s.delivered| ==> s.delivered[i] != s.delivered[j]
  }

  /** No reason is in two places: with its request, left behind, about to be delivered by one thread, or
      delivered. */
  ghost predicate OnePlace(s: State) {
    PendingAlone(s) && HeldAlone(s) && OneHolder(s) && OthersAlone(s) && NoRepeat(s)
  }

  /** A reason left behind has someone coming for it: its own request, or the installer. */
  predicate SomeoneComes(s: State) {
    && (s.installer == Installing <==> !s.handler)
    && (s.pending.Some? ==>
          && s.pending.value in s.requests
          && (s.requests[s.pending.value] in {Checking, Taking} || s.installer in {Installing, WillTake}))
  }

  /** Some reason is on its way or has arrived. */
  ghost predicate SomeAlive(s: State) {
    || s.delivered != [] || s.pending.Some? || s.installer.WillInvoke?
    || exists r :: r in s.requests && (Kept(s, r) || s.requests[r].Invoking?)
  }

  lemma InstallOnePlace(s: State)
    requires OnePlace(s)
    ensures OnePlace(Take(s, Install))
  {
    var s' := Take(s, Install);
    assert forall q, r :: HeldBy(s', q, r) <==> HeldBy(s, q, r);
    assert forall r :: Kept(s', r) <==> Kept(s, r);
    assert forall r :: Delivered(s', r) ==> Delivered(s, r) || HeldByInstaller(s, r);
    assert forall r :: HeldByInstaller(s', r) ==> s.pending == Some(r);
    DeliveredOnce(s, s', if s.installer.WillInvoke? then s.installer.taken else 0);
  }

  lemma DeliveredOnce(s: State, s': State, r: Reason)
    requires OnePlace(s) && (s'.delivered == s.delivered || (s'.delivered == s.delivered + [r] && !Delivered(s, r)))
    ensures forall i, j :: 0 <= i < j < |s'.delivered| ==> s'.delivered[i] != s'.delivered[j]
  {
    forall i, j | 0 <= i < j < |s'.delivered| ensures s'.delivered[i] != s'.delivered[j] {
      if s'.delivered != s.delivered && j == |s.delivered| { assert Delivered(s, s'.delivered[i]); }
    }
  }

  /** What a request's turn does to where reasons are. */
  lemma RequestMoves(s: State, t: Reason)
    requires t in s.requests
    ensures var s', place := Take(s, Request(t)), s.requests[t];
      && s'.installer == s.installer && s'.requests.Keys == s.requests.Keys
      && (forall q, r :: HeldBy(s', q, r) <==> if q == t then s'.requests[t] == Invoking(r) else HeldBy(s, q, r))
      && (forall r :: Kept(s', r) <==> if r == t then s'.requests[t] in {Announcing, Reading, Leaving} else Kept(s, r))
      && (forall r :: Delivered(s', r) <==> Delivered(s, r) || place == Invoking(r))
      && (place.Invoking? ==> HeldBy(s, t, place.reason)) && (place in {Announcing, Reading, Leaving} ==> Kept(s, t))
  {
  }

  lemma RequestPending(s: State, t: Reason)
    requires OnePlace(s) && t in s.requests
    ensures PendingAlone(Take(s, Request(t)))
  {
    hide Kept, HeldBy, Delivered, NoRepeat;
    RequestMoves(s, t);
  }

  lemma RequestHeld(s: State, t: Reason)
    requires OnePlace(s) && t in s.requests
    ensures HeldAlone(Take(s, Request(t)))
  {
    hide Kept, HeldBy, Delivered, NoRepeat;
    RequestMoves(s, t);
  }

  lemma RequestHolder(s: State, t: Reason)
    requires OnePlace(s) && t in s.requests
    ensures OneHolder(Take(s, Request(t)))
  {
    hide Kept, HeldBy, Delivered, NoRepeat, OthersAlone;
    RequestMoves(s, t);
  }

  lemma RequestOthers(s: State, t: Reason)
    requires OnePlace(s) && t in s.requests
    ensures OthersAlone(Take(s, Request(t)))
  {
    hide Kept, HeldBy, Delivered, NoRepeat, PendingAlone;
    RequestMoves(s, t);
  }

  lemma RequestOnePlace(s: State, t: Reason)
    requires OnePlace(s) && t in s.requests
    ensures OnePlace(Take(s, Request(t)))
  {
    RequestPending(s, t);
    RequestHeld(s, t);
    RequestHolder(s, t);
    RequestOthers(s, t);
    hide PendingAlone, OneHolder, OthersAlone;
    var place := s.requests[t];
    assert place.Invoking? ==> HeldBy(s, t, place.reason);
    DeliveredOnce(s, Take(s, Request(t)), if place.Invoking? then place.reason else 0);
  }

  lemma TakeOnePlace(s: State, turn: Turn)
    requires OnePlace(s)
    ensures OnePlace(Take(s, turn))
  {
    hide OnePlace;
    match turn
    case Install => InstallOnePlace(s);
    case Request(r) => if r in s.requests { RequestOnePlace(s, r); }
  }

  lemma TakeSomeoneComes(s: State, turn: Turn)
    requires SomeoneComes(s)
    ensures SomeoneComes(Take(s, turn))
  {
  }

  lemma TakeSomeAlive(s: State, turn: Turn)
    requires SomeAlive(s)
    ensures SomeAlive(Take(s, turn))
  {
    var s' := Take(s, turn);
    if turn.Request? && turn.r in s.requests { assert turn.r in s'.requests; }
    if r :| r in s.requests && (Kept(s, r) || s.requests[r].Invoking?) {
      assert r in s'.requests;
    }
  }

  lemma {:induction false} RunKeeps(s: State, turns: seq<Turn>)
    requires OnePlace(s) && SomeoneComes(s) && SomeAlive(s)
    ensures var s' := Run(s, turns);
      OnePlace(s') && SomeoneComes(s') && SomeAlive(s') && s'.requests.Keys == s.requests.Keys
    decreases |turns|
  {
    hide OnePlace, SomeoneComes, SomeAlive;
    if turns != [] {
      TakeOnePlace(s, turns[0]);
      TakeSomeoneComes(s, turns[0]);
      TakeSomeAlive(s, turns[0]);
      RunKeeps(Take(s, turns[0]), turns[1..]);
    }
  }

  lemma StartKept(reasons: set<Reason>, first: Reason)
    requires first in reasons
    ensures var s := Start(reasons); OnePlace(s) && SomeoneComes(s) && SomeAlive(s)
  {
    assert Kept(Start(reasons), first);
  }

  /** In every interleaving of the installation with one or more requests, once all have finished at least
      one reason was delivered, none twice, only requested ones, and none is left behind. */
  lemma HandOff(reasons: set<Reason>, first: Reason, turns: seq<Turn>)
    requires first in reasons && AllFinished(Run(Start(reasons), turns))
    ensures var s := Run(Start(reasons), turns);
      && s.delivered != [] && s.pending == None
      && (forall i, j :: 0 <= i < j < |s.delivered| ==> s.delivered[i] != s.delivered[j])
      && (forall i :: 0 <= i < |s.delivered| ==> s.delivered[i] in reasons)
  {
    hide Run, Take;
    var s := Run(Start(reasons), turns);
    StartKept(reasons, first);
    RunKeeps(Start(reasons), turns);
    assert forall r :: r in s.requests ==> s.requests[r] == Finished;
    forall i | 0 <= i < |s.delivered| ensures s.delivered[i] in reasons {
      assert Delivered(s, s.delivered[i]);
    }
  }

  lemma TwoDiffer(d: seq<Reason>)
    requires |d| > 1 && forall i, j :: 0 <= i < j < |d| ==> d[i] != d[j]
    ensures d[0] != d[1]
  {
  }

  /** A single request is delivered exactly once. */
  lemma SingleRequest(r: Reason, turns: seq<Turn>)
    requires AllFinished(Run(Start({r}), turns))
    ensures Run(Start({r}), turns).delivered == [r]
  {
    hide Run, Take, AllFinished;
    HandOff({r}, r, turns);
    var d := Run(Start({r}), turns).delivered;
    assert d[0] == r;
    if |d| > 1 { TwoDiffer(d); }
  }

  /** With two requests before the installation the earlier reason is overwritten and never delivered. */
  lemma OneIsLost()
    ensures var turns :=
      [Request(1), Request(1), Request(1), Request(1), Request(2), Request(2), Request(2), Request(2),
       Install, Install, Install];
      var s := Run(Start({1, 2}), turns);
      AllFinished(s) && s.delivered == [2]
  {
    hide Run, Take;
    var s0 := Start({1, 2});
    var s1 := Alone(s0, 1);
    var s2 := Alone(s1, 2);
    assert [Request(1), Request(1), Request(1), Request(1), Request(2), Request(2), Request(2), Request(2), Install,
            Install, Install]
        == [Request(1), Request(1), Request(1), Request(1)]
         + [Request(2), Request(2), Request(2), Request(2), Install, Install, Install];
    assert [Request(2), Request(2), Request(2), Request(2), Install, Install, Install]
        == [Request(2), Request(2), Request(2), Request(2)] + [Install, Install, Install];
    FourTurns(s0, 1, [Request(2), Request(2), Request(2), Request(2), Install, Install, Install]);
    FourTurns(s1, 2, [Install, Install, Install]);
    assert s2.pending == Some(2) && !s2.handler && s2.installer == Installing && s2.delivered == [];
    InstallTurns(s2);
  }

  /** A request that runs undisturbed while there is no handler. */
  function Alone(s: State, r: Reason): State {
    s.(requested := true, pending := Some(r), requests := s.requests[r := Finished])
  }

  lemma FourTurns(s: State, r: Reason, rest: seq<Turn>)
    requires r in s.requests && s.requests[r] == Announcing && !s.handler
    ensures Run(s, [Request(r), Request(r), Request(r), Request(r)] + rest) == Run(Alone(s, r), rest)
  {
    var t := Request(r);
    var s1 := Take(s, t);
    var s2 := Take(s1, t);
    var s3 := Take(s2, t);
    var s4 := Take(s3, t);
    assert s4 == Alone(s, r) by { assert s4.requests == s.requests[r := Finished]; }
    assert ([t, t, t, t] + rest)[1..] == [t, t, t] + rest && ([t, t, t] + rest)[1..] == [t, t] + rest;
    assert ([t, t] + rest)[1..] == [t] + rest && ([t] + rest)[1..] == rest;
    assert Run(s3, [t] + rest) == Run(s4, rest) && Run(s2, [t, t] + rest) == Run(s3, [t] + rest);
    assert Run(s1, [t, t, t] + rest) == Run(s2, [t, t] + rest);
  }

  lemma InstallTurns(s: State)
    requires s.pending == Some(2) && s.installer == Installing && s.delivered == []
    ensures var s' := Run(s, [Install, Install, Install]);
      s'.installer == Installed && s'.delivered == [2] && s'.requests == s.requests
  {
    var s1 := Take(s, Install);
    var s2 := Take(s1, Install);
    var s3 := Take(s2, Install);
    assert [Install, Install, Install][1..] == [Install, Install] && [Install, Install][1..] == [Install]
      && [Install][1..] == [];
    assert Run(s2, [Install]) == s3 && Run(s1, [Install, Install]) == Run(s2, [Install]);
  }

  // ---- which reasons are lost ----

  /** The reason is somewhere: with its request, left behind, about to be delivered, or delivered. */
  ghost predicate Present(s: State, r: Reason) {
    Kept(s, r) || s.pending == Some(r) || HeldByInstaller(s, r) || Delivered(s, r) || exists q :: HeldBy(s, q, r)
  }

  /** A request leaves its reason behind where another one waits. */
  predicate Overwrites(s: State, turn: Turn) {
    turn.Request? && turn.r in s.requests && s.requests[turn.r] == Leaving && s.pending.Some?
  }

  predicate NeverOverwrites(s: State, turns: seq<Turn>)
    decreases |turns|
  {
    turns == [] || (!Overwrites(s, turns[0]) && NeverOverwrites(Take(s, turns[0]), turns[1..]))
  }

  lemma InstallPresent(s: State, r: Reason)
    ensures Present(Take(s, Install), r) <==> Present(s, r)
  {
    var s' := Take(s, Install);
    assert forall q :: HeldBy(s', q, r) <==> HeldBy(s, q, r);
  }

  lemma RequestPresent(s: State, t: Reason, r: Reason)
    requires t in s.requests
    ensures Present(s, r) && !(Overwrites(s, Request(t)) && s.pending == Some(r)) ==> Present(Take(s, Request(t)), r)
    ensures Present(Take(s, Request(t)), r) ==> Present(s, r)
  {
    hide Kept, HeldBy, Delivered;
    RequestMoves(s, t);
    RequestPlaces(s, t, r);
  }

  /** Where the moved reason goes. */
  lemma RequestPlaces(s: State, t: Reason, r: Reason)
    requires t in s.requests
    ensures var s', place := Take(s, Request(t)), s.requests[t];
      && (Kept(s, t) ==> Kept(s', t) || s'.pending == Some(t) || HeldBy(s', t, t))
      && (place == Leaving ==> Kept(s, t))
      && (place != Leaving && s.pending == Some(r) ==> s'.pending == Some(r) || HeldBy(s', t, r))
      && (HeldBy(s, t, r) ==> Delivered(s', r))
      && (s'.pending == Some(r) ==> s.pending == Some(r) || (r == t && Kept(s, t)))
      && (HeldBy(s', t, r) ==> s.pending == Some(r) || (r == t && Kept(s, t)))
  {
  }

  lemma TakePresent(s: State, turn: Turn, r: Reason)
    requires OnePlace(s)
    ensures Present(Take(s, turn), r) <==> Present(s, r) && !(Overwrites(s, turn) && s.pending == Some(r))
  {
    hide Present;
    if turn.Install? {
      InstallPresent(s, r);
    } else if turn.r in s.requests {
      RequestPresent(s, turn.r, r);
      if Overwrites(s, turn) && s.pending == Some(r) { OverwrittenIsGone(s, turn.r, r); }
    }
  }

  lemma OverwrittenIsGone(s: State, t: Reason, r: Reason)
    requires OnePlace(s) && Overwrites(s, Request(t)) && s.pending == Some(r)
    ensures !Present(Take(s, Request(t)), r)
  {
    hide OneHolder, OthersAlone, NoRepeat;
    assert Kept(s, t) && !Kept(s, r);
    RequestMoves(s, t);
    assert forall q :: !HeldBy(s, q, r);
  }

  ghost predicate AllPresent(s: State) {
    forall r :: r in s.requests ==> Present(s, r)
  }

  lemma {:induction false} AbsentStays(s: State, turns: seq<Turn>, r: Reason)
    requires OnePlace(s) && !Present(s, r)
    ensures !Present(Run(s, turns), r)
    decreases |turns|
  {
    hide OnePlace, Present, Take;
    if turns != [] {
      TakeOnePlace(s, turns[0]);
      TakePresent(s, turns[0], r);
      AbsentStays(Take(s, turns[0]), turns[1..], r);
    }
  }

  lemma TakeKeys(s: State, turn: Turn)
    ensures Take(s, turn).requests.Keys == s.requests.Keys
  {
  }

  lemma {:induction false} RunPresentIff(s: State, turns: seq<Turn>)
    requires OnePlace(s) && AllPresent(s)
    ensures AllPresent(Run(s, turns)) <==> NeverOverwrites(s, turns)
    ensures Run(s, turns).requests.Keys == s.requests.Keys && OnePlace(Run(s, turns))
    decreases |turns|
  {
    hide OnePlace, Present, Take, Overwrites;
    if turns != [] {
      var turn := turns[0];
      TakeOnePlace(s, turn);
      TakeKeys(s, turn);
      RunOnePlace(Take(s, turn), turns[1..]);
      if Overwrites(s, turn) {
        OverwritesPending(s, turn);
        var r := s.pending.value;
        TakePresent(s, turn, r);
        PendingRequested(s, r);
        AbsentStays(Take(s, turn), turns[1..], r);
      } else {
        forall r | r in s.requests ensures Present(Take(s, turn), r) {
          TakePresent(s, turn, r);
        }
        RunPresentIff(Take(s, turn), turns[1..]);
      }
    }
  }

  lemma OverwritesPending(s: State, turn: Turn)
    requires Overwrites(s, turn)
    ensures s.pending.Some?
  {
  }

  lemma PendingRequested(s: State, r: Reason)
    requires OnePlace(s) && s.pending == Some(r)
    ensures r in s.requests
  {
  }

  lemma {:induction false} RunOnePlace(s: State, turns: seq<Turn>)
    requires OnePlace(s)
    ensures OnePlace(Run(s, turns)) && Run(s, turns).requests.Keys == s.requests.Keys
    decreases |turns|
  {
    hide OnePlace, Take;
    if turns != [] {
      TakeOnePlace(s, turns[0]);
      TakeKeys(s, turns[0]);
      RunOnePlace(Take(s, turns[0]), turns[1..]);
    }
  }

  lemma {:induction false} RunSomeoneComes(s: State, turns: seq<Turn>)
    requires SomeoneComes(s)
    ensures SomeoneComes(Run(s, turns))
    decreases |turns|
  {
    hide SomeoneComes, Take;
    if turns != [] {
      TakeSomeoneComes(s, turns[0]);
      RunSomeoneComes(Take(s, turns[0]), turns[1..]);
    }
  }

  /** In every interleaving, once all have finished, every reason was delivered exactly when no request left
      its reason behind while another one was waiting there. */
  lemma AllDeliveredIff(reasons: set<Reason>, turns: seq<Turn>)
    requires AllFinished(Run(Start(reasons), turns))
    ensures (forall r :: r in reasons ==> r in Run(Start(reasons), turns).delivered)
       <==> NeverOverwrites(Start(reasons), turns)
  {
    hide Run, Take, OnePlace, NeverOverwrites;
    var s0, s := Start(reasons), Run(Start(reasons), turns);
    assert OnePlace(s0) by { StartOnePlace(reasons); }
    assert AllPresent(s0) by { assert forall r :: r in reasons ==> Kept(s0, r); }
    RunPresentIff(s0, turns);
    RunSomeoneComes(s0, turns);
    forall r ensures Present(s, r) <==> r in s.delivered {
      assert forall q :: !HeldBy(s, q, r);
    }
  }

  lemma StartOnePlace(reasons: set<Reason>)
    ensures OnePlace(Start(reasons))
  {
  }

  // ---- the calls themselves ----

  /** Turns of the other threads. */
  predicate OfOthers(turns: seq<Turn>, own: Turn) {
    own !in turns
  }

  lemma {:induction false} OthersKeepPlace(s: State, turns: seq<Turn>, r: Reason)
    requires OfOthers(turns, Request(r)) && r in s.requests
    ensures var s' := Run(s, turns); r in s'.requests && s'.requests[r] == s.requests[r]
    decreases |turns|
  {
    if turns != [] { OthersKeepPlace(Take(s, turns[0]), turns[1..], r); }
  }

  lemma {:induction false} OthersKeepInstaller(s: State, turns: seq<Turn>)
    requires OfOthers(turns, Install)
    ensures Run(s, turns).installer == s.installer
    decreases |turns|
  {
    if turns != [] { OthersKeepInstaller(Take(s, turns[0]), turns[1..]); }
  }

  lemma {:induction false} RunThen(s: State, turns: seq<Turn>, more: seq<Turn>)
    ensures Run(s, turns + more) == Run(Run(s, turns), more)
    decreases |turns|
  {
    if turns == [] {
      assert turns + more == more;
    } else {
      assert (turns + more)[1..] == turns[1..] + more;
      RunThen(Take(s, turns[0]), turns[1..], more);
    }
  }

  lemma RunNone(s: State)
    ensures Run(s, []) == s
  {
  }

  /** The session's static fields; `delivered` records what the handler was invoked with, and `state` where
      every thread stands. */
  class Session {
    var handler: bool
    var pending: Option<Reason>
    var requested: bool
    var delivered: seq<Reason>
    var state: State

    /** The fields are those of the model's state. */
    predicate Coherent()
      reads this
    {
      && handler == state.handler && pending == state.pending && requested == state.requested
      && delivered == state.delivered
    }

    constructor (reasons: set<Reason>)
      ensures Coherent() && state == Start(reasons) && !handler && pending == None && !requested && delivered == []
    {
      handler, pending, requested, delivered := false, None, false, [];
      state := Start(reasons);
    }

    method ExchangePending() returns (was: Option<Reason>)
      modifies `pending
      ensures pending == None && was == old(pending)
    {
      was, pending := pending, None;
    }

    method Invoke(reason: Reason)
      modifies `delivered
      ensures delivered == old(delivered) + [reason]
    {
      delivered := delivered + [reason];
    }

    /** The other threads take any turns of theirs. */
    method Others(turns: seq<Turn>)
      requires Coherent()
      modifies this
      ensures Coherent() && state == Run(old(state), turns)
    {
      var i := 0;
      while i < |turns|
        invariant 0 <= i <= |turns| && Run(state, turns[i..]) == Run(old(state), turns)
      {
        assert turns[i..][1..] == turns[i + 1..];
        state := Take(state, turns[i]);
        i := i + 1;
      }
      handler, pending, requested, delivered := state.handler, state.pending, state.requested, state.delivered;
    }

    /** The other threads' turns between two accesses. */
    method Interleave(o: seq<Turn>, ghost start: State, ghost before: seq<Turn>) returns (ghost turns: seq<Turn>)
      requires Coherent() && state == Run(start, before)
      modifies this
      ensures Coherent() && state == Run(old(state), o) && turns == before + o && state == Run(start, turns)
    {
      Others(o);
      turns := before + o;
      RunThen(start, before, o);
    }

    /** The place of a thread after its own access. */
    method Advance(turn: Turn, ghost start: State, ghost before: seq<Turn>) returns (ghost turns: seq<Turn>)
      requires state == Run(start, before)
      modifies `state
      ensures state == Take(old(state), turn) && turns == before + [turn] && state == Run(start, turns)
    {
      state := Take(state, turn);
      turns := before + [turn];
      RunThen(start, before, [turn]);
    }

    /** Installing is a run of the model in which the installer finishes, whatever the others do between its
        accesses; clearing the handler drops what was left behind. */
    method SetShutdownHandler(install: bool, others: seq<seq<Turn>>) returns (ghost turns: seq<Turn>)
      requires Coherent() && |others| == 2 && forall k :: 0 <= k < 2 ==> OfOthers(others[k], Install)
      requires install ==> state.installer == Installing
      modifies this
      ensures Coherent()
      ensures install ==> state == Run(old(state), turns) && state.installer == Installed
      ensures !install ==> !handler && pending == None && requested == old(requested) && delivered == old(delivered)
    {
      hide Run, OfOthers;
      ghost var start := state;
      turns := [];
      assert state == Run(start, turns) by { RunNone(start); }
      handler := install;
      if !install {
        var _ := ExchangePending();
        state := state.(handler := false, pending := None);
        return;
      }
      turns := Advance(Install, start, turns);
      turns := Interleave(others[0], start, turns);
      OthersKeepInstaller(Take(start, Install), others[0]);
      var pendingReason := ExchangePending();
      turns := Advance(Install, start, turns);
      if pendingReason.Some? {
        ghost var taken := state;
        turns := Interleave(others[1], start, turns);
        OthersKeepInstaller(taken, others[1]);
        Invoke(pendingReason.value);
        turns := Advance(Install, start, turns);
      }
    }

    /** The other threads' turns while a request stands where it is. */
    method Pause(reason: Reason, o: seq<Turn>, ghost start: State, ghost before: seq<Turn>)
      returns (ghost turns: seq<Turn>)
      requires Coherent() && state == Run(start, before) && OfOthers(o, Request(reason)) && reason in state.requests
      modifies this
      ensures Coherent() && state == Run(start, turns)
      ensures reason in state.requests && state.requests[reason] == old(state).requests[reason]
    {
      hide Run, OfOthers;
      OthersKeepPlace(state, o, reason);
      turns := Interleave(o, start, before);
    }

    /** A request is a run of the model in which that request finishes, whatever the others do between its
        accesses: it finds the handler at its first read or its second, or leaves its reason behind. */
    method RequestShutdown(reason: Reason, others: seq<seq<Turn>>) returns (ghost turns: seq<Turn>)
      requires Coherent() && |others| == 5 && forall k :: 0 <= k < 5 ==> OfOthers(others[k], Request(reason))
      requires reason in state.requests && state.requests[reason] == Announcing
      modifies this
      ensures Coherent() && state == Run(old(state), turns)
      ensures reason in state.requests && state.requests[reason] == Finished
    {
      hide Run, OfOthers;
      ghost var start := state;
      turns := [];
      assert state == Run(start, turns) by { RunNone(start); }
      requested := true;
      turns := Advance(Request(reason), start, turns);
      turns := Pause(reason, others[0], start, turns);
      var found := handler;
      turns := Advance(Request(reason), start, turns);
      turns := Pause(reason, others[1], start, turns);
      if found {
        Invoke(reason);
        turns := Advance(Request(reason), start, turns);
        return;
      }
      pending := Some(reason);
      turns := Advance(Request(reason), start, turns);
      turns := Recheck(reason, others, start, turns);
    }

    /** Once the reason is left behind: whoever finds the handler now takes whatever waits there. */
    method Recheck(reason: Reason, others: seq<seq<Turn>>, ghost start: State, ghost before: seq<Turn>)
      returns (ghost turns: seq<Turn>)
      requires Coherent() && |others| == 5 && forall k :: 0 <= k < 5 ==> OfOthers(others[k], Request(reason))
      requires reason in state.requests && state.requests[reason] == Checking && state == Run(start, before)
      modifies this
      ensures Coherent() && state == Run(start, turns)
      ensures reason in state.requests && state.requests[reason] == Finished
    {
      hide Run, OfOthers;
      turns := Pause(reason, others[2], start, before);
      var found := handler;
      turns := Advance(Request(reason), start, turns);
      if found {
        turns := Pause(reason, others[3], start, turns);
        var pendingReason := ExchangePending();
        turns := Advance(Request(reason), start, turns);
        if pendingReason.Some? {
          turns := Pause(reason, others[4], start, turns);
          Invoke(pendingReason.value);
          turns := Advance(Request(reason), start, turns);
        }
      }
    }

    method ResetShutdownRequest()
      requires Coherent()
      modifies this
      ensures Coherent() && pending == None && !requested && handler == old(handler) && delivered == old(delivered)
    {
      var _ := ExchangePending();
      requested := false;
      state := state.(pending := None, requested := false);
    }
  }
}
