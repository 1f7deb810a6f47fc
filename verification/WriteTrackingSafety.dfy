/** What every run of the write tracker keeps: write-protected pages always have an armed owner,
    armed ranges are write-protected unless a neighbour was retired, and write generations count
    the arm periods that a write ended. */
module WriteTrackingSafety {
  import opened Words
  import opened WriteTrackingModel

  datatype Event =
    | Track(a: U64, n: U64)
    | Untrack(a: U64)
    | ConsumeDirty(a: U64)
    | Rearm(a: U64)
    | NotifyManagedWrite(x: U64, n: U64)
    | Store(x: U64)
    | Fault(x: U64)

  /** One event, with the kernel's answers to the requests it makes. */
  datatype Stimulus = Stimulus(event: Event, kernel: Kernel)

  ghost function Apply(st: State, s: Stimulus): State {
    match s.event
    case Track(a, n) => WriteTrackingModel.Track(st, a, n, s.kernel)
    case Untrack(a) => WriteTrackingModel.Untrack(st, a, s.kernel)
    case ConsumeDirty(a) => WriteTrackingModel.ConsumeDirty(st, a).1
    case Rearm(a) => WriteTrackingModel.Rearm(st, a, s.kernel)
    case NotifyManagedWrite(x, n) => WriteTrackingModel.NotifyManagedWrite(st, x, n, s.kernel)
    case Store(x) => WriteTrackingModel.Store(st, x, s.kernel).1
    case Fault(x) => WriteTrackingModel.Fault(st, x, s.kernel).1
  }

  ghost function Run(st: State, script: seq<Stimulus>): State
    decreases |script|
  {
    if script == [] then st else Run(Apply(st, script[0]), script[1..])
  }

  // ---- layout ----

  ghost predicate WellFormed(st: State) {
    forall a :: a in st.ranges ==> WellFormedRange(a, st.ranges[a])
  }

  predicate WellFormedRange(a: U64, r: Range) {
    && a != 0 && r.address == a && r.byteCount > 0
    && r.start == PageDown(a) && r.end == RangeEnd(a, r.byteCount)
    && r.start % PAGE == 0 && r.end % PAGE == 0
    && (r.armed ==> r.start <= r.end)
  }

  /** A request over a range whose end wrapped round is refused; any other covers its pages. */
  lemma MprotectOfRange(ro: set<nat>, start: U64, end: U64, writable: bool, kernel: Kernel)
    ensures var (ok, ro') := Mprotect(ro, start, Wrap64(end - start), writable, kernel);
      && (start > end ==> !ok)
      && (ok ==> ro' == if writable then ro - Pages(start, end) else ro + Pages(start, end))
      && (start <= end && kernel(start, end - start, writable) ==> ok)
  {
    if start > end {
      assert Wrap64(end - start) == end - start + TWO64;
    }
  }

  lemma ArmWellFormed(st: State, a: U64, kernel: Kernel)
    requires WellFormed(st) && a in st.ranges
    ensures WellFormed(Arm(st, a, kernel))
  {
    var r := st.ranges[a];
    MprotectOfRange(st.readOnly, r.start, r.end, false, kernel);
  }

  lemma FaultWellFormed(st: State, x: U64, kernel: Kernel)
    requires WellFormed(st)
    ensures var st' := WriteTrackingModel.Fault(st, x, kernel).1;
      WellFormed(st') && st'.ranges.Keys == st.ranges.Keys
  {
  }

  lemma {:induction false} VisitWellFormed(st: State, x: U64, end: U64, kernel: Kernel)
    requires WellFormed(st)
    ensures var st' := Visit(st, x, end, kernel); WellFormed(st') && st'.ranges.Keys == st.ranges.Keys
    decreases TWO64 - x
  {
    if x < end {
      FaultWellFormed(st, x, kernel);
      var next := Wrap64(PageDown(x) + PAGE);
      if next > x {
        VisitWellFormed(WriteTrackingModel.Fault(st, x, kernel).1, next, end, kernel);
      }
    }
  }

  lemma NewRangeWellFormed(a: U64, n: U64, generation: nat)
    requires a != 0 && n != 0
    ensures WellFormedRange(a, NewRange(a, n, generation))
  {
  }

  lemma PrepareWellFormed(st: State, a: U64, n: U64, kernel: Kernel)
    requires WellFormed(st) && a != 0 && n != 0
    ensures WellFormed(Prepare(st, a, n, kernel))
  {
    hide Mprotect, PageDown, RangeEnd, NewRange;
    NewRangeWellFormed(a, n, 0);
    if a in st.ranges { NewRangeWellFormed(a, n, st.ranges[a].generation); }
  }

  lemma ApplyWellFormed(st: State, s: Stimulus)
    requires WellFormed(st)
    ensures WellFormed(Apply(st, s))
  {
    hide PageDown, RangeEnd, Mprotect, Prepare, Arm, Visit, WriteTrackingModel.Fault;
    match s.event
    case Track(a, n) =>
      if a != 0 && n != 0 {
        PrepareWellFormed(st, a, n, s.kernel);
        ArmWellFormed(Prepare(st, a, n, s.kernel), a, s.kernel);
      }
    case Untrack(a) =>
    case ConsumeDirty(a) =>
    case Rearm(a) => if a in st.ranges { ArmWellFormed(st, a, s.kernel); }
    case NotifyManagedWrite(x, n) =>
      if x != 0 && n != 0 { VisitWellFormed(st, x, WriteEnd(x, n), s.kernel); }
    case Store(x) => FaultWellFormed(st, x, s.kernel);
    case Fault(x) => FaultWellFormed(st, x, s.kernel);
  }

  // ---- every read-only page has an armed owner ----

  predicate OwnedBy(st: State, p: nat, a: U64) {
    a in st.ranges && st.ranges[a].armed && p in RangePages(st.ranges[a])
  }

  ghost predicate Owned(st: State) {
    forall p :: p in st.readOnly ==> exists a :: OwnedBy(st, p, a)
  }

  ghost predicate NeverRefusesUnprotect(kernel: Kernel) {
    forall start, length :: kernel(start, length, true)
  }

  lemma ArmOwned(st: State, a: U64, kernel: Kernel)
    requires Owned(st) && a in st.ranges
    ensures Owned(Arm(st, a, kernel))
  {
    var r := st.ranges[a];
    var st' := Arm(st, a, kernel);
    MprotectOfRange(st.readOnly, r.start, r.end, false, kernel);
    forall p | p in st'.readOnly ensures exists b :: OwnedBy(st', p, b) {
      if p in st.readOnly {
        var b :| OwnedBy(st, p, b);
        assert OwnedBy(st', p, b);
      } else {
        assert OwnedBy(st', p, a);
      }
    }
  }

  predicate GrantsUnprotect(r: Range, kernel: Kernel) {
    Mprotect({}, r.start, Wrap64(r.end - r.start), true, kernel).0
  }

  predicate GrantsProtect(r: Range, kernel: Kernel) {
    Mprotect({}, r.start, Wrap64(r.end - r.start), false, kernel).0
  }

  ghost predicate HeldByAnother(st: State, a: U64, p: nat) {
    exists b :: b != a && OwnedBy(st, p, b)
  }

  /** Retiring a range leaves every protected page owned exactly when the range was not armed, or
      the kernel granted the unprotect, or another armed range holds each of its protected pages.
      The handler ignores a refused unprotect, so the remaining case orphans a page. */
  lemma RetireKeepsOwnersIff(st: State, a: U64, kernel: Kernel)
    requires WellFormed(st) && Owned(st) && a in st.ranges
    ensures var r := st.ranges[a];
      Owned(Drop(Disarm(st, a, kernel), a)) <==>
      || !r.armed || GrantsUnprotect(r, kernel)
      || (forall p :: p in st.readOnly && p in RangePages(r) ==> HeldByAnother(st, a, p))
  {
    hide PageDown, RangeEnd, Pages;
    var r := st.ranges[a];
    var st' := Drop(Disarm(st, a, kernel), a);
    MprotectOfRange(st.readOnly, r.start, r.end, true, kernel);
    assert forall p, b :: OwnedBy(st', p, b) <==> b != a && OwnedBy(st, p, b);
    if Owned(st') && r.armed && !GrantsUnprotect(r, kernel) {
      forall p | p in st.readOnly && p in RangePages(r) ensures HeldByAnother(st, a, p) {
        var b :| OwnedBy(st', p, b);
        assert OwnedBy(st, p, b);
      }
    } else {
      forall p | p in st'.readOnly && !(r.armed && p in RangePages(r)) ensures exists b :: OwnedBy(st', p, b) {
        var b :| OwnedBy(st, p, b);
        assert OwnedBy(st', p, b);
      }
    }
  }

  /** Resizing leaves every protected page owned exactly when retiring would, or the new range is
      armed over each page that no other range holds. */
  lemma ResizeKeepsOwnersIff(st: State, a: U64, n: U64, kernel: Kernel)
    requires WellFormed(st) && Owned(st) && a in st.ranges && n != 0 && st.ranges[a].byteCount != n
    ensures var r, q := st.ranges[a], NewRange(a, n, 0);
      Owned(WriteTrackingModel.Track(st, a, n, kernel)) <==>
      || !r.armed || GrantsUnprotect(r, kernel)
      || (forall p :: p in st.readOnly && p in RangePages(r) ==>
            HeldByAnother(st, a, p) || (GrantsProtect(q, kernel) && p in RangePages(q)))
  {
    hide PageDown, RangeEnd, Pages, Mprotect;
    var r := st.ranges[a];
    var base := Disarm(st, a, kernel);
    var q := NewRange(a, n, r.generation);
    var mid := base.(ranges := base.ranges[a := q]);
    var st' := WriteTrackingModel.Track(st, a, n, kernel);
    Requests(st.readOnly, r, true, kernel);
    Requests(mid.readOnly, q, false, kernel);
    assert st' == Arm(mid, a, kernel);
    assert forall p, b :: b != a ==> (OwnedBy(st', p, b) <==> OwnedBy(st, p, b));
    assert forall p :: OwnedBy(st', p, a) <==> GrantsProtect(q, kernel) && p in RangePages(q);
    if Owned(st') && r.armed && !GrantsUnprotect(r, kernel) {
      forall p | p in st.readOnly && p in RangePages(r)
        ensures HeldByAnother(st, a, p) || (GrantsProtect(q, kernel) && p in RangePages(q))
      {
        var b :| OwnedBy(st', p, b);
        if b != a { assert OwnedBy(st, p, b); }
      }
    }
    if || !r.armed || GrantsUnprotect(r, kernel)
       || forall p :: p in st.readOnly && p in RangePages(r) ==>
            HeldByAnother(st, a, p) || (GrantsProtect(q, kernel) && p in RangePages(q))
    {
      forall p | p in st'.readOnly ensures exists b :: OwnedBy(st', p, b) {
        ResizedOwner(st, st', a, p, q, kernel);
      }
    }
  }

  /** What a request over a range's pages does, in terms of whether it is granted. */
  lemma Requests(ro: set<nat>, r: Range, writable: bool, kernel: Kernel)
    ensures var (ok, ro') := Mprotect(ro, r.start, Wrap64(r.end - r.start), writable, kernel);
      && ok == (if writable then GrantsUnprotect(r, kernel) else GrantsProtect(r, kernel))
      && ro' == (if !ok then ro else if writable then ro - RangePages(r) else ro + RangePages(r))
  {
    hide Pages;
    MprotectOfRange(ro, r.start, r.end, writable, kernel);
  }

  lemma ResizedOwner(st: State, st': State, a: U64, p: nat, q: Range, kernel: Kernel)
    requires Owned(st) && a in st.ranges && p in st'.readOnly
    requires forall p, b :: b != a ==> (OwnedBy(st', p, b) <==> OwnedBy(st, p, b))
    requires forall p :: OwnedBy(st', p, a) <==> GrantsProtect(q, kernel) && p in RangePages(q)
    requires var r := st.ranges[a];
      var kept := if r.armed && GrantsUnprotect(r, kernel) then st.readOnly - RangePages(r) else st.readOnly;
      p in kept || (GrantsProtect(q, kernel) && p in RangePages(q))
    requires var r := st.ranges[a];
      || !r.armed || GrantsUnprotect(r, kernel)
      || (p in st.readOnly && p in RangePages(r) ==>
          HeldByAnother(st, a, p) || (GrantsProtect(q, kernel) && p in RangePages(q)))
    ensures exists b :: OwnedBy(st', p, b)
  {
    hide GrantsProtect, GrantsUnprotect, RangePages;
    if OwnedBy(st', p, a) {
    } else {
      var b :| OwnedBy(st, p, b);
      if b != a {
        assert OwnedBy(st', p, b);
      } else {
        var c :| c != a && OwnedBy(st, p, c);
        assert OwnedBy(st', p, c);
      }
    }
  }

  /** Track one page, then untrack it while the kernel refuses to restore write access: the page
      stays read-only, nothing is tracked, and no later fault on it is resolved. */
  lemma RefusedUnprotectOrphansPage()
    ensures var yes := (s: U64, l: U64, w: bool) => true;
      var no := (s: U64, l: U64, w: bool) => false;
      var st := Run(INITIAL, [Stimulus(Track(0x1000, 0x10), yes), Stimulus(Untrack(0x1000), no)]);
      && 1 in st.readOnly && !Owned(st)
      && forall kernel :: !WriteTrackingModel.Fault(st, 0x1234, kernel).0
  {
    var yes := (s: U64, l: U64, w: bool) => true;
    var no := (s: U64, l: U64, w: bool) => false;
    var first := Stimulus(Track(0x1000, 0x10), yes);
    var second := Stimulus(Untrack(0x1000), no);
    var st1 := Apply(INITIAL, first);
    assert RangeEnd(0x1000, 0x10) == 0x2000;
    assert 1 in Pages(0x1000, 0x2000);
    assert 1 in st1.readOnly && st1.ranges[0x1000].armed;
    var st2 := Apply(st1, second);
    assert st2.ranges == map[] && 1 in st2.readOnly;
    assert [first, second][1..] == [second];
    assert Run(st1, [second]) == Run(st2, [second][1..]) == st2;
    assert !exists b :: OwnedBy(st2, 1, b);
    assert forall b :: b !in Component(st2.ranges, 0x1234);
  }

  /** The fault reaches a range that holds the page. */
  ghost predicate PageReached(st: State, x: int, p: nat) {
    exists a :: Reachable(st.ranges, x, a) && a in st.ranges && p in RangePages(st.ranges[a])
  }

  lemma HullPages(st: State, x: U64, p: nat)
    requires WellFormed(st) && Component(st.ranges, x) != {}
    ensures p in Pages(Hull(st.ranges, x).0, Hull(st.ranges, x).1) <==> PageReached(st, x, p)
  {
    hide PageDown, RangeEnd, Reachable, Hull, Component;
    var (lo, hi) := Hull(st.ranges, x);
    HullShape(st, x);
    HullIsUnion(st.ranges, x, p * PAGE);
    if p in Pages(lo, hi) {
      AlignedHolds(lo, hi, p * PAGE);
      var a :| Reachable(st.ranges, x, a) && a in st.ranges && Contains(st.ranges[a], p * PAGE);
      PageIndex(st.ranges[a].start, p * PAGE, st.ranges[a].end);
      assert p in RangePages(st.ranges[a]);
    }
    if PageReached(st, x, p) {
      var a :| Reachable(st.ranges, x, a) && a in st.ranges && p in RangePages(st.ranges[a]);
      AlignedHolds(st.ranges[a].start, st.ranges[a].end, p * PAGE);
      assert Contains(st.ranges[a], p * PAGE);
      PageIndex(lo, p * PAGE, hi);
    }
  }

  /** The exact effect of a handled fault: when some range it dirties is armed, exactly the pages of the
      ranges it reaches get write access back, and otherwise no page changes; exactly the ranges it
      reaches, and the hollow ranges they surround, are dirtied, disarmed and, when armed, counted. */
  lemma HandledFaultEffect(st: State, x: U64, kernel: Kernel)
    requires WellFormed(st) && WriteTrackingModel.Fault(st, x, kernel).0
    ensures var (_, st') := WriteTrackingModel.Fault(st, x, kernel);
      && (forall p :: p in st'.readOnly <==> p in st.readOnly && !(DirtiesArmed(st, x) && PageReached(st, x, p)))
      && st'.ranges.Keys == st.ranges.Keys
      && (forall a :: a in st.ranges ==>
            var r := st.ranges[a];
            st'.ranges[a] ==
              if Dirtied(st, x, a)
              then Range(r.address, r.byteCount, r.start, r.end, true, false, r.generation + if r.armed then 1 else 0)
              else r)
  {
    hide PageDown, RangeEnd, Reachable, Hull, Component, Mprotect, Pages;
    var st' := WriteTrackingModel.Fault(st, x, kernel).1;
    var (lo, hi) := Hull(st.ranges, x);
    HullShape(st, x);
    MprotectOfRange(st.readOnly, lo, hi, true, kernel);
    forall p ensures p in Pages(lo, hi) <==> PageReached(st, x, p) {
      HullPages(st, x, p);
    }
    forall a | a in st.ranges ensures Meets(st.ranges[a], lo, hi) <==> Dirtied(st, x, a) {
      if st.ranges[a].start < st.ranges[a].end {
        MeetsHullIffReachable(st.ranges, x, a);
      } else {
        HollowMeetsHullIff(st.ranges, x, a);
      }
    }
  }

  ghost predicate DirtiesArmed(st: State, x: int) {
    exists a :: a in st.ranges && Dirtied(st, x, a) && st.ranges[a].armed
  }

  ghost predicate Dirtied(st: State, x: int, a: U64)
    requires a in st.ranges
  {
    var r := st.ranges[a];
    if r.start < r.end then Reachable(st.ranges, x, a)
    else Covered(st.ranges, x, r.start) && Covered(st.ranges, x, r.end - 1)
  }

  /** A byte count just below 2^64 makes an armed range without pages; a store to the range around it
      dirties it, although no byte of it exists. */
  lemma HollowRangeIsDirtied()
    ensures var yes := (s: U64, l: U64, w: bool) => true;
      var st := Run(INITIAL, [Stimulus(Track(0x4000, 0x2000), yes), Stimulus(Track(0x5800, TWO64 - 0x1000), yes)]);
      var st' := WriteTrackingModel.Fault(st, 0x4000, yes).1;
      && 0x5800 in st.ranges && st.ranges[0x5800].start == st.ranges[0x5800].end && st.ranges[0x5800].armed
      && !Reachable(st.ranges, 0x4000, 0x5800)
      && 0x5800 in st'.ranges && st'.ranges[0x5800].dirty && !st'.ranges[0x5800].armed
  {
    var yes := (s: U64, l: U64, w: bool) => true;
    var first, second := Stimulus(Track(0x4000, 0x2000), yes), Stimulus(Track(0x5800, TWO64 - 0x1000), yes);
    var st1 := Apply(INITIAL, first);
    TrackFresh(INITIAL, 0x4000, 0x2000, yes);
    var st := Apply(st1, second);
    TrackFresh(st1, 0x5800, TWO64 - 0x1000, yes);
    assert RangeEnd(0x4000, 0x2000) == 0x6000 && PageDown(0x4000) == 0x4000;
    assert RangeEnd(0x5800, TWO64 - 0x1000) == 0x5000 && PageDown(0x5800) == 0x5000;
    hide WriteTrackingModel.Track;
    assert [first, second][1..] == [second];
    assert Run(st1, [second]) == Run(st, [second][1..]) == st;
    HollowFault(st, yes);
  }

  lemma TrackFresh(st: State, a: U64, n: U64, kernel: Kernel)
    requires a != 0 && n != 0 && a !in st.ranges && PageDown(a) <= RangeEnd(a, n)
    requires forall start, length :: kernel(start, length, false)
    ensures WriteTrackingModel.Track(st, a, n, kernel).ranges == st.ranges[a := NewRange(a, n, 0).(armed := true)]
  {
    hide PageDown, RangeEnd, Pages;
    MprotectOfRange(st.readOnly, PageDown(a), RangeEnd(a, n), false, kernel);
  }

  lemma HollowFault(st: State, kernel: Kernel)
    requires 0x4000 in st.ranges && st.ranges[0x4000].start == 0x4000 && st.ranges[0x4000].end == 0x6000
    requires 0x5800 in st.ranges && st.ranges[0x5800].start == 0x5000 == st.ranges[0x5800].end
    requires NeverRefusesUnprotect(kernel) && st.ranges.Keys == {0x4000, 0x5800}
    ensures var st' := WriteTrackingModel.Fault(st, 0x4000, kernel).1;
      && !Reachable(st.ranges, 0x4000, 0x5800)
      && 0x5800 in st'.ranges && st'.ranges[0x5800].dirty && !st'.ranges[0x5800].armed
  {
    hide Hull, Pages;
    FaultReachesHolder(st.ranges, 0x4000, 0x4000);
    HollowMeetsHullIff(st.ranges, 0x4000, 0x5800);
    assert Contains(st.ranges[0x4000], 0x5000) && Contains(st.ranges[0x4000], 0x4FFF);
    var (lo, hi) := Hull(st.ranges, 0x4000);
    assert lo == 0x4000 && hi == 0x6000 by {
      assert 0x4000 in Component(st.ranges, 0x4000) && 0x5800 !in Component(st.ranges, 0x4000);
      assert Component(st.ranges, 0x4000) <= st.ranges.Keys;
    }
  }

  lemma FaultOwned(st: State, x: U64, kernel: Kernel)
    requires WellFormed(st) && Owned(st)
    ensures Owned(WriteTrackingModel.Fault(st, x, kernel).1)
  {
    hide PageDown, RangeEnd, Hull, Component, Reachable, Mprotect;
    var (handled, st') := WriteTrackingModel.Fault(st, x, kernel);
    if handled {
      var (lo, hi) := Hull(st.ranges, x);
      HullShape(st, x);
      MprotectOfRange(st.readOnly, lo, hi, true, kernel);
      forall p | p in st'.readOnly ensures exists b :: OwnedBy(st', p, b) {
        var b :| OwnedBy(st, p, b);
        var r := st.ranges[b];
        if Meets(r, lo, hi) {
          MeetsHullIffReachable(st.ranges, x, b);
          PageMonotone(lo, r.start, r.end, hi);
          assert false;
        }
        assert OwnedBy(st', p, b);
      }
    }
  }

  lemma HullShape(st: State, x: U64)
    requires WellFormed(st) && Component(st.ranges, x) != {}
    ensures var (lo, hi) := Hull(st.ranges, x);
      lo <= x < hi && lo % PAGE == 0 && hi % PAGE == 0 && x / PAGE in Pages(lo, hi)
  {
    var (lo, hi) := Hull(st.ranges, x);
    ReachableHasHolder(st.ranges, x);
    var a :| a in st.ranges && Contains(st.ranges[a], x);
    FaultReachesHolder(st.ranges, x, a);
    HullIsUnion(st.ranges, x, x);
    PageIndex(lo, x, hi);
  }

  lemma PageMonotone(lo: U64, start: U64, end: U64, hi: U64)
    requires lo <= start && end <= hi
    ensures Pages(start, end) <= Pages(lo, hi)
  {
  }

  lemma AlignedHolds(start: int, end: int, x: int)
    requires start % PAGE == 0 && end % PAGE == 0 && start / PAGE <= x / PAGE < end / PAGE
    ensures start <= x < end
  {
  }

  lemma PageIndex(lo: int, x: int, hi: int)
    requires 0 <= lo <= x < hi && lo % PAGE == 0 && hi % PAGE == 0
    ensures lo / PAGE <= x / PAGE < hi / PAGE
  {
  }

  lemma {:induction false} VisitOwned(st: State, x: U64, end: U64, kernel: Kernel)
    requires WellFormed(st) && Owned(st)
    ensures Owned(Visit(st, x, end, kernel))
    decreases TWO64 - x
  {
    if x < end {
      FaultWellFormed(st, x, kernel);
      FaultOwned(st, x, kernel);
      var next := Wrap64(PageDown(x) + PAGE);
      if next > x {
        VisitOwned(WriteTrackingModel.Fault(st, x, kernel).1, next, end, kernel);
      }
    }
  }

  /** The event does not retire a range whose protected pages would be left without an owner. */
  ghost predicate RetiresSafely(st: State, s: Stimulus) {
    match s.event
    case Untrack(a) =>
      a in st.ranges && st.ranges[a].armed && !GrantsUnprotect(st.ranges[a], s.kernel) ==>
        forall p :: p in st.readOnly && p in RangePages(st.ranges[a]) ==> HeldByAnother(st, a, p)
    case Track(a, n) =>
      a in st.ranges && n != 0 && st.ranges[a].byteCount != n
        && st.ranges[a].armed && !GrantsUnprotect(st.ranges[a], s.kernel) ==>
        forall p :: p in st.readOnly && p in RangePages(st.ranges[a]) ==>
          HeldByAnother(st, a, p) || (GrantsProtect(NewRange(a, n, 0), s.kernel) && p in RangePages(NewRange(a, n, 0)))
    case _ => true
  }

  lemma TrackOwnedIff(st: State, a: U64, n: U64, kernel: Kernel)
    requires WellFormed(st) && Owned(st)
    ensures Owned(WriteTrackingModel.Track(st, a, n, kernel)) <==> RetiresSafely(st, Stimulus(Track(a, n), kernel))
  {
    hide GrantsUnprotect, GrantsProtect, RangePages, Mprotect, NewRange;
    if a != 0 && n != 0 {
      if a !in st.ranges {
        var mid := st.(ranges := st.ranges[a := NewRange(a, n, 0)]);
        forall p | p in mid.readOnly ensures exists b :: OwnedBy(mid, p, b) {
          var b :| OwnedBy(st, p, b);
          assert OwnedBy(mid, p, b);
        }
        ArmOwned(mid, a, kernel);
      } else if st.ranges[a].byteCount == n {
        ArmOwned(st, a, kernel);
      } else {
        ResizeKeepsOwnersIff(st, a, n, kernel);
      }
    } else {
      assert a == 0 ==> a !in st.ranges;
    }
  }

  lemma ConsumeOwned(st: State, a: U64)
    requires Owned(st)
    ensures Owned(WriteTrackingModel.ConsumeDirty(st, a).1)
  {
    var st' := WriteTrackingModel.ConsumeDirty(st, a).1;
    forall p | p in st'.readOnly ensures exists b :: OwnedBy(st', p, b) {
      var b :| OwnedBy(st, p, b);
      assert OwnedBy(st', p, b);
    }
  }

  /** An event leaves every write-protected page with an armed owner exactly when it retires safely. */
  lemma ApplyOwnedIff(st: State, s: Stimulus)
    requires WellFormed(st) && Owned(st)
    ensures Owned(Apply(st, s)) <==> RetiresSafely(st, s)
  {
    hide Owned, WellFormed, GrantsUnprotect, GrantsProtect, RangePages, NewRange, HeldByAnother;
    match s.event
    case Track(a, n) => TrackOwnedIff(st, a, n, s.kernel);
    case Untrack(a) => if a in st.ranges { RetireKeepsOwnersIff(st, a, s.kernel); }
    case ConsumeDirty(a) => ConsumeOwned(st, a);
    case Rearm(a) => if a in st.ranges { ArmOwned(st, a, s.kernel); }
    case NotifyManagedWrite(x, n) => if x != 0 && n != 0 { VisitOwned(st, x, WriteEnd(x, n), s.kernel); }
    case Store(x) => FaultOwned(st, x, s.kernel);
    case Fault(x) => FaultOwned(st, x, s.kernel);
  }

  ghost predicate AlwaysRetiresSafely(st: State, script: seq<Stimulus>)
    decreases |script|
  {
    script == [] || (RetiresSafely(st, script[0]) && AlwaysRetiresSafely(Apply(st, script[0]), script[1..]))
  }

  ghost predicate OwnedThroughout(st: State, script: seq<Stimulus>)
    decreases |script|
  {
    Owned(st) && (script == [] || OwnedThroughout(Apply(st, script[0]), script[1..]))
  }

  /** In every run, each write-protected page lies in an armed tracked range after every step exactly
      when every retired range was granted its unprotect or its protected pages had another owner. */
  lemma {:induction false} RunOwnedIff(st: State, script: seq<Stimulus>)
    requires WellFormed(st) && Owned(st)
    ensures WellFormed(Run(st, script))
    ensures OwnedThroughout(st, script) <==> AlwaysRetiresSafely(st, script)
    decreases |script|
  {
    hide WellFormed, Owned, Apply, RetiresSafely;
    if script != [] {
      ApplyWellFormed(st, script[0]);
      ApplyOwnedIff(st, script[0]);
      if Owned(Apply(st, script[0])) {
        RunOwnedIff(Apply(st, script[0]), script[1..]);
      } else {
        RunWellFormed(Apply(st, script[0]), script[1..]);
        OwnedAtStart(Apply(st, script[0]), script[1..]);
      }
    }
  }

  lemma OwnedAtStart(st: State, script: seq<Stimulus>)
    requires !Owned(st)
    ensures !OwnedThroughout(st, script)
  {
    hide Owned;
  }

  lemma {:induction false} RunWellFormed(st: State, script: seq<Stimulus>)
    requires WellFormed(st)
    ensures WellFormed(Run(st, script))
    decreases |script|
  {
    hide WellFormed, Apply;
    if script != [] {
      ApplyWellFormed(st, script[0]);
      RunWellFormed(Apply(st, script[0]), script[1..]);
    }
  }

  /** The requests of retiring ranges are the only ones that matter: over a kernel that never refuses
      an unprotect every run keeps its owners. */
  lemma {:induction false} RunOwned(st: State, script: seq<Stimulus>)
    requires WellFormed(st) && Owned(st)
    requires forall i :: 0 <= i < |script| ==> NeverRefusesUnprotect(script[i].kernel)
    ensures WellFormed(Run(st, script)) && Owned(Run(st, script))
    decreases |script|
  {
    hide WellFormed, Owned, Apply;
    if script != [] {
      ApplyWellFormed(st, script[0]);
      GrantedIsSafe(st, script[0]);
      ApplyOwnedIff(st, script[0]);
      RunOwned(Apply(st, script[0]), script[1..]);
    }
  }

  lemma GrantedIsSafe(st: State, s: Stimulus)
    requires WellFormed(st) && NeverRefusesUnprotect(s.kernel)
    ensures RetiresSafely(st, s)
  {
    hide PageDown, RangeEnd, Pages;
    match s.event
    case Untrack(a) => if a in st.ranges { MprotectOfRange({}, st.ranges[a].start, st.ranges[a].end, true, s.kernel); }
    case Track(a, n) => if a in st.ranges { MprotectOfRange({}, st.ranges[a].start, st.ranges[a].end, true, s.kernel); }
    case _ =>
  }

  // ---- protected writes are always resolved ----

  /** A write fault on a write-protected page is resolved by one handler call, except at address 0. */
  lemma ProtectedFaultResolved(st: State, x: U64, kernel: Kernel)
    requires WellFormed(st) && Owned(st) && NeverRefusesUnprotect(kernel)
    requires x / PAGE in st.readOnly
    ensures var (handled, st') := WriteTrackingModel.Fault(st, x, kernel);
      && (handled <==> x != 0)
      && (handled <==> x / PAGE !in st'.readOnly)
      && st'.readOnly <= st.readOnly
  {
    hide PageDown, RangeEnd, Hull, Component, Reachable, Mprotect;
    var a :| OwnedBy(st, x / PAGE, a);
    var r := st.ranges[a];
    HolderOfPage(st, x, a);
    FaultReachesHolder(st.ranges, x, a);
    HullShape(st, x);
    var (lo, hi) := Hull(st.ranges, x);
    MeetsHullIffReachable(st.ranges, x, a);
    MprotectOfRange(st.readOnly, lo, hi, true, kernel);
  }

  lemma HolderOfPage(st: State, x: U64, a: U64)
    requires WellFormed(st) && a in st.ranges && x / PAGE in RangePages(st.ranges[a])
    ensures Contains(st.ranges[a], x)
  {
    AlignedHolds(st.ranges[a].start, st.ranges[a].end, x);
  }

  lemma FaultUnprotects(st: State, x: U64, kernel: Kernel)
    requires WellFormed(st) && Owned(st) && NeverRefusesUnprotect(kernel) && x != 0
    ensures var st' := WriteTrackingModel.Fault(st, x, kernel).1;
      x / PAGE !in st'.readOnly && st'.readOnly <= st.readOnly
  {
    if x / PAGE in st.readOnly {
      ProtectedFaultResolved(st, x, kernel);
    } else if Component(st.ranges, x) != {} {
      var (lo, hi) := Hull(st.ranges, x);
      HullShape(st, x);
      MprotectOfRange(st.readOnly, lo, hi, true, kernel);
    }
  }

  /** Read-only pages never include the last page of the address space: no range that ends there can be armed. */
  lemma LastPageNeverOwned(st: State)
    requires WellFormed(st) && Owned(st)
    ensures forall p :: p in st.readOnly ==> p < TWO64 / PAGE - 1
  {
    forall p | p in st.readOnly ensures p < TWO64 / PAGE - 1 {
      var a :| OwnedBy(st, p, a);
      AlignedBelowTop(st.ranges[a].end);
    }
  }

  lemma AlignedBelowTop(end: U64)
    requires end % PAGE == 0
    ensures end / PAGE <= TWO64 / PAGE - 1
  {
    assert end == PAGE * (end / PAGE);
  }

  lemma {:induction false} VisitUnprotects(st: State, x: U64, end: U64, kernel: Kernel)
    requires WellFormed(st) && Owned(st) && NeverRefusesUnprotect(kernel) && x != 0
    ensures var st' := Visit(st, x, end, kernel);
      && st'.readOnly <= st.readOnly
      && (forall p :: p in st'.readOnly && x / PAGE <= p ==> x >= end || p * PAGE >= end)
    decreases TWO64 - x
  {
    hide PageDown, WriteTrackingModel.Fault, WellFormed, Owned, Wrap64;
    if x < end {
      FaultWellFormed(st, x, kernel);
      FaultOwned(st, x, kernel);
      FaultUnprotects(st, x, kernel);
      LastPageNeverOwned(st);
      NextPage(x);
      var st1 := WriteTrackingModel.Fault(st, x, kernel).1;
      var next := Wrap64(PageDown(x) + PAGE);
      if next > x {
        VisitUnprotects(st1, next, end, kernel);
      }
    }
  }

  lemma NextPage(x: U64)
    ensures var next := Wrap64(PageDown(x) + PAGE);
      if next > x then next == (x / PAGE + 1) * PAGE else x / PAGE == TWO64 / PAGE - 1
  {
  }

  /** After the pre-visit of a managed write no page of the written span is read-only; a span that
      starts at address 0 is not visited, so it stays as protected as it was. */
  lemma ManagedWriteIsPrepared(st: State, x: U64, n: U64, kernel: Kernel)
    requires WellFormed(st) && Owned(st) && NeverRefusesUnprotect(kernel) && n > 0
    ensures var st' := WriteTrackingModel.NotifyManagedWrite(st, x, n, kernel);
      (forall p :: p in st'.readOnly && x / PAGE <= p ==> p * PAGE >= x + n) <==>
      x != 0 || (forall p :: p in st.readOnly ==> p * PAGE >= n)
  {
    if x != 0 {
      var st' := WriteTrackingModel.NotifyManagedWrite(st, x, n, kernel);
      VisitUnprotects(st, x, WriteEnd(x, n), kernel);
      LastPageNeverOwned(st);
      forall p | p in st'.readOnly && x / PAGE <= p ensures p * PAGE >= x + n {
        assert p < TWO64 / PAGE - 1;
      }
    }
  }

  /** Track the first page: it becomes read-only, and neither a fault at address 0 nor the pre-visit of a
      write that starts there gives it back. */
  lemma AddressZeroIsNotHandled()
    ensures var yes := (s: U64, l: U64, w: bool) => true;
      var st := Run(INITIAL, [Stimulus(Track(0x10, 0x10), yes)]);
      && 0 in st.readOnly && !WriteTrackingModel.Fault(st, 0, yes).0
      && 0 in WriteTrackingModel.NotifyManagedWrite(st, 0, 0x10, yes).readOnly
  {
    var yes := (s: U64, l: U64, w: bool) => true;
    var first := Stimulus(Track(0x10, 0x10), yes);
    var st := Apply(INITIAL, first);
    assert RangeEnd(0x10, 0x10) == 0x1000 && PageDown(0x10) == 0;
    assert 0 in Pages(0, 0x1000);
    assert [first][1..] == [];
    assert Run(INITIAL, [first]) == Run(st, []) == st;
  }
}
