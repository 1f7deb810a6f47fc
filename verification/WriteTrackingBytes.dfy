/** The tracker's operations in terms of the bytes a caller names: which pages tracking protects, what becomes
    of a store to any of those bytes, and what the dirty mark tells. */
module WriteTrackingBytes {
  import opened Words
  import opened WriteTrackingGenerations
  import opened WriteTrackingModel
  import opened WriteTrackingSafety

  /** Page p holds a byte of [a, a + n). */
  predicate HoldsByte(a: nat, n: nat, p: nat) {
    exists x: nat :: a <= x < a + n && x / PAGE == p
  }

  /** The bytes and the page above them fit below 2^64. */
  predicate Fits(a: U64, n: U64) {
    a + n + PAGE <= TWO64
  }

  /** The kernel grants write protection of exactly the pages that hold the bytes. */
  predicate Protects(kernel: Kernel, a: U64, n: U64)
    requires n > 0 && Fits(a, n)
  {
    var first, last := a / PAGE, (a + n - 1) / PAGE;
    kernel(first * PAGE, (last - first + 1) * PAGE, false)
  }

  lemma HoldsByteIff(a: nat, n: nat, p: nat)
    requires n > 0
    ensures HoldsByte(a, n, p) <==> a / PAGE <= p <= (a + n - 1) / PAGE
  {
    if a / PAGE <= p <= (a + n - 1) / PAGE {
      var x := if p * PAGE < a then a else p * PAGE;
      assert a <= x < a + n && x / PAGE == p;
    }
  }

  /** The interval of a range that does not wrap: from the first byte's page through the last byte's. */
  lemma RangeOfBytes(a: U64, r: Range)
    requires WellFormedRange(a, r) && Fits(a, r.byteCount)
    ensures r.start == a / PAGE * PAGE && r.end == ((a + r.byteCount - 1) / PAGE + 1) * PAGE
  {
    var x := a + r.byteCount + (PAGE - 1);
    assert Wrap64(x) == x;
  }

  lemma RangePagesHoldBytes(a: U64, r: Range)
    requires WellFormedRange(a, r) && Fits(a, r.byteCount)
    ensures forall p: nat :: p in RangePages(r) <==> HoldsByte(a, r.byteCount, p)
  {
    hide HoldsByte, RangeEnd, PageDown;
    RangeOfBytes(a, r);
    forall p: nat ensures p in RangePages(r) <==> HoldsByte(a, r.byteCount, p) {
      HoldsByteIff(a, r.byteCount, p);
    }
  }

  lemma GrantIsProtects(a: U64, r: Range, kernel: Kernel)
    requires WellFormedRange(a, r) && Fits(a, r.byteCount)
    ensures GrantsProtect(r, kernel) <==> Protects(kernel, a, r.byteCount)
  {
    hide RangeEnd, PageDown, Pages;
    RangeOfBytes(a, r);
    var first, last := a / PAGE, (a + r.byteCount - 1) / PAGE;
    assert r.end - r.start == (last - first + 1) * PAGE;
  }

  /** A range covers every byte that was asked for exactly when the bytes and the page above them fit below
      2^64; then each of its bytes shares a page with one that was asked for. */
  lemma RangeCoversIff(a: U64, r: Range)
    requires WellFormedRange(a, r)
    ensures (forall x: nat :: a <= x < a + r.byteCount ==> Contains(r, x)) <==> Fits(a, r.byteCount)
    ensures Fits(a, r.byteCount) ==> forall y: nat :: Contains(r, y) ==> HoldsByte(a, r.byteCount, y / PAGE)
  {
    hide HoldsByte;
    if Fits(a, r.byteCount) {
      RangeOfBytes(a, r);
      forall y: nat | Contains(r, y) ensures HoldsByte(a, r.byteCount, y / PAGE) {
        HoldsByteIff(a, r.byteCount, y / PAGE);
      }
    } else {
      var x := a + r.byteCount - 1;
      assert r.end <= x by { WrappedEnd(a, r.byteCount); }
      assert !Contains(r, x);
    }
  }

  lemma WrappedEnd(a: U64, n: U64)
    requires n > 0 && !Fits(a, n)
    ensures RangeEnd(a, n) <= a + n - 1
  {
    var x := a + n + (PAGE - 1);
    assert x >= TWO64;
    assert Wrap64(x) <= x - TWO64;
  }

  // ---- what tracking does ----

  ghost predicate OthersKept(st: State, st': State, a: U64) {
    forall b: U64 :: b != a ==>
      (b in st'.ranges <==> b in st.ranges) && (b in st.ranges && b in st'.ranges ==> st'.ranges[b] == st.ranges[b])
  }

  predicate TrackedAs(st: State, a: U64, n: U64) {
    a in st.ranges && st.ranges[a].byteCount == n
  }

  predicate ArmedAs(st: State, a: U64, n: U64) {
    TrackedAs(st, a, n) && st.ranges[a].armed
  }

  /** The range holds the bytes asked for and whole pages of them, keeps its mark when its size is unchanged
      and its generation always, and is armed exactly when it was or the kernel protects those pages. */
  lemma TrackEffect(st: State, a: U64, n: U64, kernel: Kernel)
    requires WellFormed(st) && a != 0 && n != 0 && Fits(a, n)
    ensures var st' := WriteTrackingModel.Track(st, a, n, kernel);
      && OthersKept(st, st', a) && TrackedAs(st', a, n)
      && var r := st'.ranges[a];
        && r.address == a
        && (forall x: nat :: a <= x < a + n ==> Contains(r, x))
        && (forall y: nat :: Contains(r, y) ==> HoldsByte(a, n, y / PAGE))
        && (r.armed <==> ArmedAs(st, a, n) || Protects(kernel, a, n))
        && r.dirty == (TrackedAs(st, a, n) && st.ranges[a].dirty)
        && r.generation == if a in st.ranges then st.ranges[a].generation else 0
  {
    hide PageDown, RangeEnd, HoldsByte, Mprotect, Fits, Protects;
    var mid, st' := Prepare(st, a, n, kernel), WriteTrackingModel.Track(st, a, n, kernel);
    PrepareWellFormed(st, a, n, kernel);
    assert WellFormedRange(a, mid.ranges[a]) && WellFormedRange(a, st'.ranges[a]) by {
      ArmWellFormed(mid, a, kernel);
    }
    RangeCoversIff(a, st'.ranges[a]);
    GrantIsProtects(a, mid.ranges[a], kernel);
    Requests(mid.readOnly, mid.ranges[a], false, kernel);
  }

  /** The resize gives the pages of the old range back. */
  predicate GivesBack(st: State, a: U64, n: U64, kernel: Kernel, p: nat) {
    && a in st.ranges && st.ranges[a].byteCount != n && st.ranges[a].armed
    && GrantsUnprotect(st.ranges[a], kernel) && p in RangePages(st.ranges[a])
  }

  /** Exactly the pages that hold a byte asked for become read-only, when the range is armed anew. */
  lemma TrackPages(st: State, a: U64, n: U64, kernel: Kernel)
    requires WellFormed(st) && a != 0 && n != 0 && Fits(a, n)
    ensures var st' := WriteTrackingModel.Track(st, a, n, kernel);
      forall p: nat :: p in st'.readOnly <==>
        || (HoldsByte(a, n, p) && !ArmedAs(st, a, n) && Protects(kernel, a, n))
        || (p in st.readOnly && !GivesBack(st, a, n, kernel, p))
  {
    hide PageDown, RangeEnd, HoldsByte, Mprotect, Fits, Protects, GrantsUnprotect, Pages;
    var mid, st' := Prepare(st, a, n, kernel), WriteTrackingModel.Track(st, a, n, kernel);
    PrepareWellFormed(st, a, n, kernel);
    assert WellFormedRange(a, mid.ranges[a]);
    RangePagesHoldBytes(a, mid.ranges[a]);
    GrantIsProtects(a, mid.ranges[a], kernel);
    Requests(mid.readOnly, mid.ranges[a], false, kernel);
    if a in st.ranges { Requests(st.readOnly, st.ranges[a], true, kernel); }
    assert forall p: nat :: p in mid.readOnly <==> p in st.readOnly && !GivesBack(st, a, n, kernel, p);
  }

  /** After a granted request every byte asked for lies in an armed range and on a read-only page. */
  lemma TrackedBytesAreProtected(st: State, a: U64, n: U64, kernel: Kernel, x: nat)
    requires WellFormed(st) && Protected(st) && a != 0 && n != 0 && Fits(a, n) && Protects(kernel, a, n)
    requires a <= x < a + n
    ensures var st' := WriteTrackingModel.Track(st, a, n, kernel);
      ArmedAs(st', a, n) && Contains(st'.ranges[a], x) && x / PAGE in st'.readOnly
  {
    hide PageDown, RangeEnd, HoldsByte, Mprotect, Fits, Protects, WriteTrackingModel.Track, GrantsUnprotect;
    TrackEffect(st, a, n, kernel);
    TrackPages(st, a, n, kernel);
    assert HoldsByte(a, n, x / PAGE) by { HoldsByteIff(a, n, x / PAGE); }
    if ArmedAs(st, a, n) {
      assert WellFormedRange(a, st.ranges[a]);
      RangePagesHoldBytes(a, st.ranges[a]);
      assert OwnedBy(st, x / PAGE, a);
    }
  }

  /** Rearming arms exactly when the kernel protects the pages of the bytes, and changes nothing else. */
  lemma RearmEffect(st: State, a: U64, kernel: Kernel)
    requires WellFormed(st) && (a in st.ranges ==> Fits(a, st.ranges[a].byteCount))
    ensures var st' := WriteTrackingModel.Rearm(st, a, kernel);
      if a !in st.ranges then st' == st
      else
        var r, n := st.ranges[a], st.ranges[a].byteCount;
        && st'.ranges == st.ranges[a := r.(armed := r.armed || Protects(kernel, a, n))]
        && forall p: nat :: p in st'.readOnly <==>
             p in st.readOnly || (HoldsByte(a, n, p) && !r.armed && Protects(kernel, a, n))
  {
    hide PageDown, RangeEnd, HoldsByte, Mprotect, Fits, Protects, Pages;
    if a in st.ranges {
      var r := st.ranges[a];
      assert WellFormedRange(a, r);
      assert st.ranges[a := r] == st.ranges;
      RangePagesHoldBytes(a, r);
      GrantIsProtects(a, r, kernel);
      Requests(st.readOnly, r, false, kernel);
    }
  }

  /** Untracking forgets the range and gives exactly its pages back, when it was armed and the kernel agrees. */
  lemma UntrackEffect(st: State, a: U64, kernel: Kernel)
    ensures var st' := WriteTrackingModel.Untrack(st, a, kernel);
      && a !in st'.ranges && OthersKept(st, st', a)
      && forall p: nat :: p in st'.readOnly <==>
           && p in st.readOnly
           && !(a in st.ranges && st.ranges[a].armed && GrantsUnprotect(st.ranges[a], kernel)
                && p in RangePages(st.ranges[a]))
  {
    hide Pages, Mprotect;
    if a in st.ranges { Requests(st.readOnly, st.ranges[a], true, kernel); }
  }

  // ---- what the mark tells ----

  /** The answer is the mark, which is cleared; nothing else changes, and the next call answers no. */
  lemma ConsumeEffect(st: State, a: U64)
    ensures var (answer, st') := WriteTrackingModel.ConsumeDirty(st, a);
      && (answer <==> a in st.ranges && st.ranges[a].dirty)
      && OthersKept(st, st', a) && st'.readOnly == st.readOnly
      && (a in st'.ranges <==> a in st.ranges)
      && (a in st.ranges ==> st'.ranges[a].(dirty := true) == st.ranges[a].(dirty := true))
      && WriteTrackingModel.ConsumeDirty(st', a) == (false, st')
  {
    if a in st.ranges {
      var st' := WriteTrackingModel.ConsumeDirty(st, a).1;
      assert st'.ranges[a := st'.ranges[a]] == st'.ranges;
    }
  }

  /** Nothing in the script reads the mark, forgets the range or gives it another size. */
  ghost predicate Unread(st: State, script: seq<Stimulus>, a: U64)
    decreases |script|
  {
    a in st.ranges && (script != [] ==>
      && !(script[0].event == ConsumeDirty(a))
      && !(script[0].event.Track? && script[0].event.a == a && script[0].event.n != 0
           && script[0].event.n != st.ranges[a].byteCount)
      && Unread(Apply(st, script[0]), script[1..], a))
  }

  ghost predicate NoWrites(script: seq<Stimulus>) {
    forall i :: 0 <= i < |script| ==> !IsWrite(script[i].event)
  }

  lemma MarkStep(st: State, s: Stimulus, a: U64)
    requires WellFormed(st) && Unread(st, [s], a)
    ensures a in Apply(st, s).ranges
    ensures st.ranges[a].dirty ==> Apply(st, s).ranges[a].dirty
    ensures !IsWrite(s.event) ==> Apply(st, s).ranges[a].dirty == st.ranges[a].dirty
    ensures Apply(st, s).ranges[a].byteCount == st.ranges[a].byteCount
  {
    hide PageDown, RangeEnd, Mprotect, Wrap64;
    assert [s][1..] == [];
    assert Unread(Apply(st, s), [], a);
    match s.event
    case NotifyManagedWrite(x, n) =>
      if x != 0 && n != 0 {
        VisitHitsOnce(st, x, WriteEnd(x, n), s.kernel, a);
        VisitSizes(st, x, WriteEnd(x, n), s.kernel, a);
      }
    case Track(b, n) => if b == a { assert WellFormedRange(a, st.ranges[a]); }
    case _ =>
  }

  lemma {:induction false} VisitSizes(st: State, x: U64, end: U64, kernel: Kernel, a: U64)
    requires a in st.ranges
    ensures var st' := Visit(st, x, end, kernel);
      a in st'.ranges && st'.ranges[a].byteCount == st.ranges[a].byteCount
    decreases TWO64 - x
  {
    if x < end {
      var next := Wrap64(PageDown(x) + PAGE);
      if next > x { VisitSizes(WriteTrackingModel.Fault(st, x, kernel).1, next, end, kernel, a); }
    }
  }

  /** A mark stays until it is read, whatever happens; and it is not set without a write. */
  lemma {:induction false} MarkUntilRead(st: State, script: seq<Stimulus>, a: U64)
    requires WellFormed(st) && Unread(st, script, a)
    ensures a in Run(st, script).ranges
    ensures st.ranges[a].dirty ==> WriteTrackingModel.ConsumeDirty(Run(st, script), a).0
    ensures NoWrites(script) ==> WriteTrackingModel.ConsumeDirty(Run(st, script), a).0 == st.ranges[a].dirty
    decreases |script|
  {
    hide WellFormed, Apply;
    if script != [] {
      ApplyWellFormed(st, script[0]);
      MarkStep(st, script[0], a);
      MarkUntilRead(Apply(st, script[0]), script[1..], a);
      assert forall i :: 0 <= i < |script[1..]| ==> script[1..][i] == script[i + 1];
    }
  }

  // ---- a store to any byte asked for ----

  /** A store lands exactly when its page is writable in the end; where it was writable all along it changes
      nothing. */
  lemma StoreLandsIff(st: State, x: U64, kernel: Kernel)
    ensures var (landed, st') := WriteTrackingModel.Store(st, x, kernel);
      && (landed <==> x / PAGE !in st'.readOnly)
      && (x / PAGE !in st.readOnly ==> landed && st' == st)
  {
    hide Component, Hull;
  }

  /** In a run from the start that keeps every neighbour's pages, a store to a byte of an armed range lands only
      with the range disarmed, marked and one generation on; unread, the mark is what the next call answers. */
  lemma TrackedStoreIsSeen(script: seq<Stimulus>, a: U64, n: U64, x: U64, kernel: Kernel, more: seq<Stimulus>)
    requires AlwaysKeepsNeighbours(INITIAL, script) && n > 0 && Fits(a, n) && a <= x < a + n
    requires ArmedAs(Run(INITIAL, script), a, n)
    ensures var st := Run(INITIAL, script);
      var (landed, st') := WriteTrackingModel.Store(st, x, kernel);
      && (NeverRefusesUnprotect(kernel) ==> landed)
      && (!landed ==> st' == st)
      && (landed ==>
            && TrackedAs(st', a, n) && !st'.ranges[a].armed && st'.ranges[a].dirty
            && st'.ranges[a].generation == st.ranges[a].generation + 1
            && (Unread(st', more, a) ==> WriteTrackingModel.ConsumeDirty(Run(st', more), a).0))
  {
    hide WellFormed, Protected, Apply, WriteTrackingModel.Store, AlwaysKeepsNeighbours, Unread;
    var st := Run(INITIAL, script);
    InitialKept();
    RunKeepsProtection(INITIAL, script);
    assert WellFormedRange(a, st.ranges[a]) by { assert WellFormed(st); InRange(st, a); }
    RangeCoversIff(a, st.ranges[a]);
    StoreIsSeen(st, x, a, kernel);
    var (landed, st') := WriteTrackingModel.Store(st, x, kernel);
    if landed && Unread(st', more, a) {
      StoreWellFormed(st, x, kernel);
      MarkUntilRead(st', more, a);
    }
  }

  lemma InitialKept()
    ensures WellFormed(INITIAL) && Protected(INITIAL)
  {
  }

  lemma InRange(st: State, a: U64)
    requires WellFormed(st) && a in st.ranges
    ensures WellFormedRange(a, st.ranges[a])
  {
  }

  lemma StoreWellFormed(st: State, x: U64, kernel: Kernel)
    requires WellFormed(st)
    ensures WellFormed(WriteTrackingModel.Store(st, x, kernel).1)
  {
    FaultWellFormed(st, x, kernel);
  }

  lemma {:induction false} RunKeepsProtection(st: State, script: seq<Stimulus>)
    requires WellFormed(st) && Protected(st) && AlwaysKeepsNeighbours(st, script)
    ensures WellFormed(Run(st, script)) && Protected(Run(st, script))
    decreases |script|
  {
    hide WellFormed, Protected, Apply, KeepsNeighbours;
    if script != [] {
      ApplyWellFormed(st, script[0]);
      ApplyProtectedIff(st, script[0]);
      RunKeepsProtection(Apply(st, script[0]), script[1..]);
    }
  }

  // ---- which faults are handled ----

  /** A fault is handled exactly when it is not at address 0, some range holds it, and the kernel gives write
      access back to the hull of the ranges it reaches, if one of those it dirties is armed. */
  lemma FaultHandledIff(st: State, x: U64, kernel: Kernel)
    requires WellFormed(st)
    ensures WriteTrackingModel.Fault(st, x, kernel).0 <==>
      && x != 0 && (exists a :: a in st.ranges && Contains(st.ranges[a], x))
      && (DirtiesArmed(st, x) && Component(st.ranges, x) != {} ==>
            var (lo, hi) := Hull(st.ranges, x); kernel(lo, hi - lo, true))
  {
    hide Component, Hull, Reachable, Pages, PageDown, RangeEnd;
    if x != 0 {
      if a :| a in st.ranges && Contains(st.ranges[a], x) { FaultReachesHolder(st.ranges, x, a); }
      if Component(st.ranges, x) != {} {
        ReachableHasHolder(st.ranges, x);
        HullShape(st, x);
        var (lo, hi) := Hull(st.ranges, x);
        AnyArmedIs(st, x);
        assert Wrap64(hi - lo) == hi - lo;
      }
    }
  }

  lemma AnyArmedIs(st: State, x: U64)
    requires Component(st.ranges, x) != {}
    ensures AnyArmed(st.ranges, Hull(st.ranges, x).0, Hull(st.ranges, x).1) <==> DirtiesArmed(st, x)
  {
    hide Component, Hull, Reachable;
    var (lo, hi) := Hull(st.ranges, x);
    forall a | a in st.ranges ensures Meets(st.ranges[a], lo, hi) <==> Dirtied(st, x, a) {
      if st.ranges[a].start < st.ranges[a].end {
        MeetsHullIffReachable(st.ranges, x, a);
      } else {
        HollowMeetsHullIff(st.ranges, x, a);
      }
    }
  }

  // ---- which ranges a managed write marks ----

  ghost predicate SamePlaces(st: State, st': State) {
    && (forall a :: a in st.ranges <==> a in st'.ranges)
    && forall a :: a in st.ranges && a in st'.ranges ==>
         st'.ranges[a].start == st.ranges[a].start && st'.ranges[a].end == st.ranges[a].end
  }

  lemma SameChains(st: State, st': State, y: int, a: U64)
    requires SamePlaces(st, st') && Reachable(st.ranges, y, a)
    ensures Reachable(st'.ranges, y, a)
  {
    var path :| Chain(st.ranges, y, path, a);
    assert Chain(st'.ranges, y, path, a);
  }

  lemma SameReach(st: State, st': State, y: int, a: U64)
    requires SamePlaces(st, st') && a in st.ranges
    ensures Dirtied(st, y, a) <==> Dirtied(st', y, a)
  {
    hide Reachable;
    assert SamePlaces(st', st);
    forall b: U64 ensures Reachable(st.ranges, y, b) <==> Reachable(st'.ranges, y, b) {
      if Reachable(st.ranges, y, b) { SameChains(st, st', y, b); }
      if Reachable(st'.ranges, y, b) { SameChains(st', st, y, b); }
    }
  }

  lemma FaultTouches(st: State, x: U64, kernel: Kernel, a: U64)
    requires WellFormed(st) && a in st.ranges
    ensures var st' := WriteTrackingModel.Fault(st, x, kernel).1;
      SamePlaces(st, st') && (st'.ranges[a] != st.ranges[a] ==> Dirtied(st, x, a))
  {
    hide Reachable, WriteTrackingModel.Fault, Dirtied;
    if WriteTrackingModel.Fault(st, x, kernel).0 {
      HandledFaultEffect(st, x, kernel);
    } else {
      UnhandledChangesNothing(st, x, kernel);
    }
  }

  lemma UnhandledChangesNothing(st: State, x: U64, kernel: Kernel)
    ensures var (handled, st') := WriteTrackingModel.Fault(st, x, kernel); !handled ==> st' == st
  {
    hide Component, Hull, Mprotect, AnyArmed;
  }

  /** The write starts at y, or y is the start of a page that holds a byte of it. */
  predicate Visited(x: nat, end: nat, y: nat) {
    y < end && (y == x || (x < y && y % PAGE == 0))
  }

  lemma {:induction false} VisitTouches(st: State, x: U64, end: U64, kernel: Kernel, a: U64)
    requires WellFormed(st) && a in st.ranges
    ensures var st' := Visit(st, x, end, kernel);
      && SamePlaces(st, st')
      && (st'.ranges[a] != st.ranges[a] ==> exists y: nat :: Visited(x, end, y) && Dirtied(st, y, a))
    decreases TWO64 - x
  {
    hide WellFormed, SamePlaces, Dirtied, WriteTrackingModel.Fault;
    if x < end {
      var st1 := WriteTrackingModel.Fault(st, x, kernel).1;
      FaultTouches(st, x, kernel, a);
      FaultWellFormed(st, x, kernel);
      assert Visited(x, end, x);
      var next := Wrap64(PageDown(x) + PAGE);
      if next > x {
        VisitTouches(st1, next, end, kernel, a);
        var st' := Visit(st1, next, end, kernel);
        PlacesTwice(st, st1, st');
        if st'.ranges[a] != st1.ranges[a] {
          var y: nat :| Visited(next, end, y) && Dirtied(st1, y, a);
          SameReach(st, st1, y, a);
          NextPage(x);
          assert Visited(x, end, y);
        }
      }
    } else {
      PlacesStay(st);
    }
  }

  lemma PlacesStay(st: State)
    ensures SamePlaces(st, st)
  {
  }

  lemma PlacesTwice(st: State, st1: State, st2: State)
    requires SamePlaces(st, st1) && SamePlaces(st1, st2)
    ensures SamePlaces(st, st2)
  {
  }

  /** The pre-visit of a write changes a range only if a fault would reach it at the start of the write or at the
      start of a page that holds one of its bytes. */
  lemma ManagedWriteTouches(st: State, x: U64, n: U64, kernel: Kernel, a: U64)
    requires WellFormed(st) && a in st.ranges
    ensures var st' := WriteTrackingModel.NotifyManagedWrite(st, x, n, kernel);
      && a in st'.ranges
      && (st'.ranges[a] != st.ranges[a] ==> exists y: nat :: Visited(x, x + n, y) && Dirtied(st, y, a))
  {
    hide WellFormed, SamePlaces, Dirtied, Visit;
    if x != 0 && n != 0 {
      var end := WriteEnd(x, n);
      VisitTouches(st, x, end, kernel, a);
      var st' := Visit(st, x, end, kernel);
      PlacesKeep(st, st', a);
      if st'.ranges[a] != st.ranges[a] {
        var y: nat :| Visited(x, end, y) && Dirtied(st, y, a);
        assert Visited(x, x + n, y);
      }
    }
  }

  lemma PlacesKeep(st: State, st': State, a: U64)
    requires SamePlaces(st, st') && a in st.ranges
    ensures a in st'.ranges
  {
  }
}
