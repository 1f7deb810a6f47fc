/** Armed ranges stay write-protected exactly in the runs that keep their neighbours' pages, and the write
    generation of an address counts the arm periods that a guest write ended. */
module WriteTrackingGenerations {
  import opened Words
  import opened WriteTrackingModel
  import opened WriteTrackingSafety

  ghost predicate Protected(st: State) {
    forall a, p :: OwnedBy(st, p, a) ==> p in st.readOnly
  }

  /** Page p of range a also lies in another armed range. */
  ghost predicate SharedPage(st: State, a: U64, p: nat) {
    a in st.ranges && p in RangePages(st.ranges[a]) && exists b :: b != a && OwnedBy(st, p, b)
  }

  ghost predicate SharesPage(st: State, a: U64) {
    exists p :: SharedPage(st, a, p)
  }

  lemma ArmProtected(st: State, a: U64, kernel: Kernel)
    requires WellFormed(st) && Protected(st) && a in st.ranges
    ensures Protected(Arm(st, a, kernel))
  {
    var r := st.ranges[a];
    var st' := Arm(st, a, kernel);
    MprotectOfRange(st.readOnly, r.start, r.end, false, kernel);
    forall b, p | OwnedBy(st', p, b) ensures p in st'.readOnly {
      if b != a { assert OwnedBy(st, p, b); }
      if b == a && r.armed { assert OwnedBy(st, p, b); }
    }
  }

  /** Retiring a range leaves the other armed ranges protected exactly when it was not armed, the
      kernel refused to unprotect it, or it shares no page with another armed range. */
  lemma RetireKeepsProtectionIff(st: State, a: U64, kernel: Kernel)
    requires WellFormed(st) && Protected(st) && a in st.ranges
    ensures var r := st.ranges[a];
      Protected(Drop(Disarm(st, a, kernel), a)) <==>
      || !r.armed
      || !GrantsUnprotect(r, kernel)
      || !SharesPage(st, a)
  {
    var r := st.ranges[a];
    var st' := Drop(Disarm(st, a, kernel), a);
    MprotectOfRange(st.readOnly, r.start, r.end, true, kernel);
    assert forall p, b :: OwnedBy(st', p, b) <==> b != a && OwnedBy(st, p, b);
    if r.armed && GrantsUnprotect(r, kernel) {
      assert st'.readOnly == st.readOnly - RangePages(r);
      if SharesPage(st, a) {
        var p :| SharedPage(st, a, p);
        var b :| b != a && OwnedBy(st, p, b);
        assert OwnedBy(st', p, b) && p !in st'.readOnly;
      } else {
        forall b, p | OwnedBy(st', p, b) ensures p in st'.readOnly {
          assert OwnedBy(st, p, b);
          if p in RangePages(r) { assert SharedPage(st, a, p); }
        }
      }
    }
  }

  /** Resizing keeps every armed range protected exactly when retiring would, or the new range is
      armed over all the pages the old one shared. */
  lemma ResizeKeepsProtectionIff(st: State, a: U64, n: U64, kernel: Kernel)
    requires WellFormed(st) && Protected(st) && a in st.ranges && n != 0 && st.ranges[a].byteCount != n
    ensures var r := st.ranges[a];
      var q := NewRange(a, n, 0);
      Protected(WriteTrackingModel.Track(st, a, n, kernel)) <==>
      || !r.armed || !GrantsUnprotect(r, kernel)
      || (forall p :: SharedPage(st, a, p) ==> GrantsProtect(q, kernel) && p in RangePages(q))
  {
    hide PageDown, RangeEnd, Pages, Mprotect;
    var r := st.ranges[a];
    var base := Disarm(st, a, kernel);
    var q := NewRange(a, n, r.generation);
    var mid := base.(ranges := base.ranges[a := q]);
    var st' := WriteTrackingModel.Track(st, a, n, kernel);
    Requests(st.readOnly, r, true, kernel);
    Requests(mid.readOnly, q, false, kernel);
    assert a != 0 by { assert WellFormedRange(a, r); }
    assert st' == Arm(mid, a, kernel);
    assert forall p, b :: b != a ==> (OwnedBy(st', p, b) <==> OwnedBy(st, p, b));
    assert forall p :: OwnedBy(st', p, a) <==> GrantsProtect(q, kernel) && p in RangePages(q);
    if r.armed && GrantsUnprotect(r, kernel) {
      if Protected(st') {
        forall p | SharedPage(st, a, p) ensures GrantsProtect(q, kernel) && p in RangePages(q) {
          var b :| b != a && OwnedBy(st, p, b);
          assert OwnedBy(st', p, b);
          assert p in st'.readOnly && p !in base.readOnly;
        }
      } else {
        var b, p :| OwnedBy(st', p, b) && p !in st'.readOnly;
        assert SharedPage(st, a, p);
      }
    }
  }

  lemma FaultProtected(st: State, x: U64, kernel: Kernel)
    requires WellFormed(st) && Protected(st)
    ensures Protected(WriteTrackingModel.Fault(st, x, kernel).1)
  {
    hide PageDown, RangeEnd, Hull, Component, Mprotect, Pages;
    var (handled, st') := WriteTrackingModel.Fault(st, x, kernel);
    if handled {
      var (lo, hi) := Hull(st.ranges, x);
      HullShape(st, x);
      MprotectOfRange(st.readOnly, lo, hi, true, kernel);
      forall b, p | OwnedBy(st', p, b) ensures p in st'.readOnly {
        var r := st.ranges[b];
        assert OwnedBy(st, p, b);
        if p in Pages(lo, hi) {
          PagesMeet(r, lo, hi, p);
          assert false;
        }
      }
    }
  }

  lemma PagesMeet(r: Range, lo: U64, hi: U64, p: nat)
    requires p in RangePages(r) && p in Pages(lo, hi)
    requires r.start % PAGE == 0 && r.end % PAGE == 0 && lo % PAGE == 0 && hi % PAGE == 0
    ensures Meets(r, lo, hi)
  {
    AlignedHolds(r.start, r.end, p * PAGE);
    AlignedHolds(lo, hi, p * PAGE);
  }

  lemma {:induction false} VisitProtected(st: State, x: U64, end: U64, kernel: Kernel)
    requires WellFormed(st) && Protected(st)
    ensures Protected(Visit(st, x, end, kernel))
    decreases TWO64 - x
  {
    if x < end {
      FaultWellFormed(st, x, kernel);
      FaultProtected(st, x, kernel);
      var next := Wrap64(PageDown(x) + PAGE);
      if next > x {
        VisitProtected(WriteTrackingModel.Fault(st, x, kernel).1, next, end, kernel);
      }
    }
  }

  /** The event unprotects no page that another armed range shares, unless a resized range takes it over. */
  ghost predicate KeepsNeighbours(st: State, s: Stimulus) {
    match s.event
    case Untrack(a) =>
      a in st.ranges ==>
        !st.ranges[a].armed || !GrantsUnprotect(st.ranges[a], s.kernel) || !SharesPage(st, a)
    case Track(a, n) =>
      a in st.ranges && n != 0 && st.ranges[a].byteCount != n ==>
        || !st.ranges[a].armed || !GrantsUnprotect(st.ranges[a], s.kernel)
        || (forall p :: SharedPage(st, a, p) ==>
              GrantsProtect(NewRange(a, n, 0), s.kernel) && p in RangePages(NewRange(a, n, 0)))
    case _ => true
  }

  lemma TrackProtectedIff(st: State, a: U64, n: U64, kernel: Kernel)
    requires WellFormed(st) && Protected(st)
    ensures Protected(WriteTrackingModel.Track(st, a, n, kernel))
       <==> KeepsNeighbours(st, Stimulus(Track(a, n), kernel))
  {
    hide GrantsUnprotect, GrantsProtect, RangePages, Mprotect, NewRange, SharedPage;
    if a != 0 && n != 0 {
      if a !in st.ranges {
        var mid := st.(ranges := st.ranges[a := NewRange(a, n, 0)]);
        UnarmedOwnsNothing(st, a, n);
        PrepareWellFormed(st, a, n, kernel);
        ArmProtected(mid, a, kernel);
      } else if st.ranges[a].byteCount == n {
        ArmProtected(st, a, kernel);
      } else {
        ResizeKeepsProtectionIff(st, a, n, kernel);
      }
    } else {
      assert a == 0 ==> a !in st.ranges;
    }
  }

  lemma UnarmedOwnsNothing(st: State, a: U64, n: U64)
    requires a !in st.ranges
    ensures var mid := st.(ranges := st.ranges[a := NewRange(a, n, 0)]);
      forall p, b :: OwnedBy(mid, p, b) <==> OwnedBy(st, p, b)
  {
    hide RangePages;
  }

  lemma ConsumeProtected(st: State, a: U64)
    requires Protected(st)
    ensures Protected(WriteTrackingModel.ConsumeDirty(st, a).1)
  {
    hide Pages;
    var st' := WriteTrackingModel.ConsumeDirty(st, a).1;
    assert forall p, b :: OwnedBy(st', p, b) <==> OwnedBy(st, p, b);
  }

  /** An event leaves every armed range write-protected exactly when it keeps the neighbours' pages. */
  lemma ApplyProtectedIff(st: State, s: Stimulus)
    requires WellFormed(st) && Protected(st)
    ensures Protected(Apply(st, s)) <==> KeepsNeighbours(st, s)
  {
    hide Protected, WellFormed, SharesPage, SharedPage, WriteTrackingModel.Track, Visit, WriteTrackingModel.Fault, Arm;
    hide Disarm, GrantsUnprotect, GrantsProtect, RangePages, NewRange;
    match s.event
    case Track(a, n) => TrackProtectedIff(st, a, n, s.kernel);
    case Untrack(a) => if a in st.ranges { RetireKeepsProtectionIff(st, a, s.kernel); }
    case ConsumeDirty(a) => ConsumeProtected(st, a);
    case Rearm(a) => if a in st.ranges { ArmProtected(st, a, s.kernel); }
    case NotifyManagedWrite(x, n) => if x != 0 && n != 0 { VisitProtected(st, x, WriteEnd(x, n), s.kernel); }
    case Store(x) => FaultProtected(st, x, s.kernel);
    case Fault(x) => FaultProtected(st, x, s.kernel);
  }

  ghost predicate AlwaysKeepsNeighbours(st: State, script: seq<Stimulus>)
    decreases |script|
  {
    script == [] || (KeepsNeighbours(st, script[0]) && AlwaysKeepsNeighbours(Apply(st, script[0]), script[1..]))
  }

  ghost predicate ProtectedThroughout(st: State, script: seq<Stimulus>)
    decreases |script|
  {
    Protected(st) && (script == [] || ProtectedThroughout(Apply(st, script[0]), script[1..]))
  }

  /** In every run, whatever the kernel refuses, an armed range has all its pages read-only after every step
      exactly when no step unprotects a page that another armed range shares. */
  lemma {:induction false} RunProtectedIff(st: State, script: seq<Stimulus>)
    requires WellFormed(st) && Protected(st)
    ensures ProtectedThroughout(st, script) <==> AlwaysKeepsNeighbours(st, script)
    decreases |script|
  {
    hide WellFormed, Protected, Apply, KeepsNeighbours;
    if script != [] {
      ApplyWellFormed(st, script[0]);
      ApplyProtectedIff(st, script[0]);
      if Protected(Apply(st, script[0])) {
        RunProtectedIff(Apply(st, script[0]), script[1..]);
      } else {
        ProtectedAtStart(Apply(st, script[0]), script[1..]);
      }
    }
  }

  lemma ProtectedAtStart(st: State, script: seq<Stimulus>)
    requires !Protected(st)
    ensures !ProtectedThroughout(st, script)
  {
    hide Protected;
  }

  /** No store into an armed range lands before the range is dirty: when it lands the range has been
      disarmed, dirtied and advanced by one generation; when it does not, nothing has changed. */
  lemma StoreIsSeen(st: State, x: U64, a: U64, kernel: Kernel)
    requires WellFormed(st) && Protected(st)
    requires a in st.ranges && st.ranges[a].armed && Contains(st.ranges[a], x)
    ensures var (landed, st') := WriteTrackingModel.Store(st, x, kernel);
      && (landed ==> a in st'.ranges && st'.ranges[a] == Hit(st.ranges[a]))
      && (!landed ==> st' == st)
      && (NeverRefusesUnprotect(kernel) ==> (landed <==> x != 0))
  {
    hide PageDown, RangeEnd, Hull, Component, Reachable, Mprotect;
    var r := st.ranges[a];
    PageIndex(r.start, x, r.end);
    assert OwnedBy(st, x / PAGE, a);
    FaultReachesHolder(st.ranges, x, a);
    var (lo, hi) := Hull(st.ranges, x);
    HullShape(st, x);
    MeetsHullIffReachable(st.ranges, x, a);
    MprotectOfRange(st.readOnly, lo, hi, true, kernel);
  }

  // ---- generations ----

  predicate Armed(st: State, a: U64) {
    a in st.ranges && st.ranges[a].armed
  }

  predicate IsWrite(e: Event) {
    e.NotifyManagedWrite? || e.Store? || e.Fault?
  }

  /** The step is a write that ends an arm period of `a`. */
  ghost predicate WriteEnds(st: State, s: Stimulus, a: U64) {
    IsWrite(s.event) && Armed(st, a) && !Armed(Apply(st, s), a)
  }

  ghost predicate HitOrKept(st: State, st': State, a: U64) {
    && a in st'.ranges && a in st.ranges
    && (st'.ranges[a].armed ==> st.ranges[a].armed)
    && st'.ranges[a].generation == st.ranges[a].generation + Low(st.ranges[a].armed && !st'.ranges[a].armed)
    && (st.ranges[a].armed && !st'.ranges[a].armed ==> st'.ranges[a].dirty)
    && (st.ranges[a].dirty ==> st'.ranges[a].dirty)
  }

  lemma {:induction false} VisitHitsOnce(st: State, x: U64, end: U64, kernel: Kernel, a: U64)
    requires a in st.ranges
    ensures HitOrKept(st, Visit(st, x, end, kernel), a)
    decreases TWO64 - x
  {
    if x < end {
      var st1 := WriteTrackingModel.Fault(st, x, kernel).1;
      assert HitOrKept(st, st1, a);
      var next := Wrap64(PageDown(x) + PAGE);
      if next > x {
        VisitHitsOnce(st1, next, end, kernel, a);
      }
    }
  }

  /** While an address stays tracked, across resizes too, a step raises its generation by one when
      it is a write that ends an arm period, leaving the range dirty, and otherwise not at all. */
  lemma GenerationStep(st: State, s: Stimulus, a: U64)
    requires WellFormed(st) && a in st.ranges && a in Apply(st, s).ranges
    ensures Apply(st, s).ranges[a].generation == st.ranges[a].generation + Low(WriteEnds(st, s, a))
    ensures WriteEnds(st, s, a) ==> Apply(st, s).ranges[a].dirty
  {
    hide PageDown, RangeEnd, Mprotect, Wrap64;
    match s.event
    case NotifyManagedWrite(x, n) =>
      if x != 0 && n != 0 { VisitHitsOnce(st, x, WriteEnd(x, n), s.kernel, a); }
    case _ =>
  }

  ghost predicate StaysTracked(st: State, script: seq<Stimulus>, a: U64)
    decreases |script|
  {
    a in st.ranges && (script != [] ==> StaysTracked(Apply(st, script[0]), script[1..], a))
  }

  /** How many arm periods of `a` the script ends by a write. */
  ghost function WritesSeen(st: State, script: seq<Stimulus>, a: U64): nat
    decreases |script|
  {
    if script == [] then 0
    else Low(WriteEnds(st, script[0], a)) + WritesSeen(Apply(st, script[0]), script[1..], a)
  }

  /** How many arm periods of `a` the script starts. */
  ghost function Armings(st: State, script: seq<Stimulus>, a: U64): nat
    decreases |script|
  {
    if script == [] then 0
    else Low(!Armed(st, a) && Armed(Apply(st, script[0]), a)) + Armings(Apply(st, script[0]), script[1..], a)
  }

  /** How many arm periods of `a` the script ends otherwise: a resize whose new range the kernel refuses to protect. */
  ghost function Refusals(st: State, script: seq<Stimulus>, a: U64): nat
    decreases |script|
  {
    if script == [] then 0
    else
      Low(Armed(st, a) && !Armed(Apply(st, script[0]), a) && !IsWrite(script[0].event)) +
      Refusals(Apply(st, script[0]), script[1..], a)
  }

  /** Over a run the generation advances by exactly the number of arm periods that ended in a
      write, so it never falls; and every arm period is ended by a write, refused by the kernel
      at a resize, or still open. */
  lemma {:induction false} GenerationCountsWrites(st: State, script: seq<Stimulus>, a: U64)
    requires WellFormed(st) && StaysTracked(st, script, a)
    ensures var st' := Run(st, script);
      && a in st'.ranges
      && st'.ranges[a].generation == st.ranges[a].generation + WritesSeen(st, script, a)
      && Low(Armed(st, a)) + Armings(st, script, a) ==
         WritesSeen(st, script, a) + Refusals(st, script, a) + Low(Armed(st', a))
    decreases |script|
  {
    if script != [] {
      ApplyWellFormed(st, script[0]);
      GenerationStep(st, script[0], a);
      GenerationCountsWrites(Apply(st, script[0]), script[1..], a);
    }
  }

  /** Two ranges share a page; when one is untracked the other stays armed and its page is writable. */
  lemma NeighbourIsUnprotected()
    ensures var yes := (s: U64, l: U64, w: bool) => true;
      var st := Run(INITIAL, [Stimulus(Event.Track(0x1000, 0x10), yes), Stimulus(Event.Track(0x1800, 0x10), yes),
                              Stimulus(Event.Untrack(0x1000), yes)]);
      && 0x1800 in st.ranges && st.ranges[0x1800].armed && Contains(st.ranges[0x1800], 0x1800)
      && 1 !in st.readOnly && !Protected(st)
  {
    hide Protected, WriteTrackingModel.Track, Disarm;
    var yes := (s: U64, l: U64, w: bool) => true;
    var first, second := Stimulus(Event.Track(0x1000, 0x10), yes), Stimulus(Event.Track(0x1800, 0x10), yes);
    var third := Stimulus(Event.Untrack(0x1000), yes);
    var st1 := Apply(INITIAL, first);
    var st2 := Apply(st1, second);
    var st3 := Apply(st2, third);
    assert RangeEnd(0x1000, 0x10) == 0x2000 == RangeEnd(0x1800, 0x10) && PageDown(0x1800) == 0x1000;
    TrackFresh(INITIAL, 0x1000, 0x10, yes);
    TrackFresh(st1, 0x1800, 0x10, yes);
    UntrackedBySecond(st2, yes);
    assert [first, second, third][1..] == [second, third] && [second, third][1..] == [third];
    assert Run(st2, [third]) == Run(st3, [third][1..]) == st3;
    assert Run(st1, [second, third]) == Run(st2, [third]);
  }

  lemma UntrackedBySecond(st: State, kernel: Kernel)
    requires 0x1000 in st.ranges && st.ranges[0x1000].armed && NeverRefusesUnprotect(kernel)
    requires st.ranges[0x1000].start == 0x1000 && st.ranges[0x1000].end == 0x2000
    requires 0x1800 in st.ranges && st.ranges[0x1800].armed
    requires st.ranges[0x1800].start == 0x1000 && st.ranges[0x1800].end == 0x2000
    ensures var st' := Apply(st, Stimulus(Event.Untrack(0x1000), kernel));
      && 0x1800 in st'.ranges && st'.ranges[0x1800] == st.ranges[0x1800] && 1 !in st'.readOnly && !Protected(st')
  {
    var st' := Apply(st, Stimulus(Event.Untrack(0x1000), kernel));
    assert 1 in RangePages(st'.ranges[0x1800]);
    assert OwnedBy(st', 1, 0x1800);
  }
}
