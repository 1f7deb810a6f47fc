/** The write tracker's gate-protected operations as steps of a state machine: which ranges are
    tracked, and which host pages are write-protected. A fault closes over every range reachable
    by a chain of overlaps; reachability is the reference against which the hull loop of the
    signal handler is proved. */
module WriteTrackingModel {
  import opened Words

  datatype Range = Range(
    address: U64, byteCount: U64, start: U64, end: U64,
    dirty: bool, armed: bool, generation: nat)

  /** `readOnly` holds the indices of the pages that have lost write access. */
  datatype State = State(ranges: map<U64, Range>, readOnly: set<nat>)

  const INITIAL: State := State(map[], {})

  /** Whether the kernel grants an mprotect request: start, length, and whether it asks for write access. */
  type Kernel = (U64, U64, bool) -> bool

  predicate PageWithin(p: nat, start: U64, end: U64) {
    start / PAGE <= p < end / PAGE
  }

  function Pages(start: U64, end: U64): set<nat> {
    set p: nat | p < TWO64 / PAGE && PageWithin(p, start, end)
  }

  function RangePages(r: Range): set<nat> {
    Pages(r.start, r.end)
  }

  predicate Contains(r: Range, x: int) {
    r.start <= x < r.end
  }

  /** An empty request succeeds, one that would leave the address space fails, and the kernel
      decides the rest; a request either changes exactly its pages or nothing. */
  function Mprotect(readOnly: set<nat>, start: U64, length: U64, writable: bool, kernel: Kernel): (r: (bool, set<nat>))
    ensures !r.0 ==> r.1 == readOnly
  {
    if length == 0 then (true, readOnly)
    else if start + length >= TWO64 || !kernel(start, length, writable) then (false, readOnly)
    else (true, if writable then readOnly - Pages(start, start + length) else readOnly + Pages(start, start + length))
  }

  // ---- arming and disarming ----

  function RangeEnd(address: U64, byteCount: U64): U64 {
    PageDown(Wrap64(address + byteCount + (PAGE - 1)))
  }

  function Arm(st: State, a: U64, kernel: Kernel): State
    requires a in st.ranges
  {
    var r := st.ranges[a];
    if r.armed then st
    else
      var (ok, ro) := Mprotect(st.readOnly, r.start, Wrap64(r.end - r.start), false, kernel);
      State(st.ranges[a := r.(armed := ok)], ro)
  }

  function Disarm(st: State, a: U64, kernel: Kernel): State
    requires a in st.ranges
  {
    var r := st.ranges[a];
    if !r.armed then st
    else
      var (_, ro) := Mprotect(st.readOnly, r.start, Wrap64(r.end - r.start), true, kernel);
      State(st.ranges[a := r.(armed := false)], ro)
  }

  function Drop(st: State, a: U64): State {
    st.(ranges := st.ranges - {a})
  }

  function NewRange(address: U64, byteCount: U64, generation: nat): Range {
    Range(address, byteCount, PageDown(address), RangeEnd(address, byteCount), false, false, generation)
  }

  /** The range to arm: kept when its size is unchanged, otherwise a fresh one that inherits the generation. */
  function Prepare(st: State, address: U64, byteCount: U64, kernel: Kernel): (st': State)
    ensures address in st'.ranges
  {
    if address !in st.ranges then st.(ranges := st.ranges[address := NewRange(address, byteCount, 0)])
    else if st.ranges[address].byteCount == byteCount then st
    else
      var retired := Disarm(st, address, kernel);
      retired.(ranges := retired.ranges[address := NewRange(address, byteCount, st.ranges[address].generation)])
  }

  function Track(st: State, address: U64, byteCount: U64, kernel: Kernel): State {
    if address == 0 || byteCount == 0 then st else Arm(Prepare(st, address, byteCount, kernel), address, kernel)
  }

  function Untrack(st: State, a: U64, kernel: Kernel): State {
    if a in st.ranges then Drop(Disarm(st, a, kernel), a) else st
  }

  function ConsumeDirty(st: State, a: U64): (bool, State) {
    if a in st.ranges then (st.ranges[a].dirty, st.(ranges := st.ranges[a := st.ranges[a].(dirty := false)]))
    else (false, st)
  }

  function Rearm(st: State, a: U64, kernel: Kernel): State {
    if a in st.ranges then Arm(st, a, kernel) else st
  }

  // ---- faults ----

  predicate Overlap(r: Range, q: Range) {
    r.start < q.end && q.start < r.end
  }

  /** A chain of overlapping ranges from one that holds the fault to `a`. */
  predicate Chain(ranges: map<U64, Range>, fault: int, path: seq<U64>, a: U64) {
    && |path| > 0 && path[|path| - 1] == a
    && (forall i :: 0 <= i < |path| ==> path[i] in ranges && ranges[path[i]].start < ranges[path[i]].end)
    && Contains(ranges[path[0]], fault)
    && (forall i :: 0 < i < |path| ==> Overlap(ranges[path[i - 1]], ranges[path[i]]))
  }

  ghost predicate Reachable(ranges: map<U64, Range>, fault: int, a: U64) {
    exists path :: Chain(ranges, fault, path, a)
  }

  ghost function Component(ranges: map<U64, Range>, fault: int): (c: set<U64>)
    ensures forall a :: a in c <==> Reachable(ranges, fault, a)
  {
    assert forall a | Reachable(ranges, fault, a) :: a in ranges;
    set a | a in ranges && Reachable(ranges, fault, a)
  }

  ghost predicate IsLeastStart(ranges: map<U64, Range>, c: set<U64>, x: U64) {
    && (exists a :: a in c && a in ranges && ranges[a].start == x)
    && (forall a :: a in c && a in ranges ==> x <= ranges[a].start)
  }

  ghost predicate IsGreatestEnd(ranges: map<U64, Range>, c: set<U64>, x: U64) {
    && (exists a :: a in c && a in ranges && ranges[a].end == x)
    && (forall a :: a in c && a in ranges ==> ranges[a].end <= x)
  }

  lemma {:induction false} ExtremesExist(ranges: map<U64, Range>, c: set<U64>)
    requires c != {} && c <= ranges.Keys
    ensures exists x: U64 :: IsLeastStart(ranges, c, x)
    ensures exists x: U64 :: IsGreatestEnd(ranges, c, x)
    decreases c
  {
    var a :| a in c;
    var rest := c - {a};
    assert c == rest + {a};
    if rest == {} {
      assert IsLeastStart(ranges, c, ranges[a].start);
      assert IsGreatestEnd(ranges, c, ranges[a].end);
    } else {
      ExtremesExist(ranges, rest);
      var x: U64 :| IsLeastStart(ranges, rest, x);
      var y: U64 :| IsGreatestEnd(ranges, rest, y);
      assert IsLeastStart(ranges, c, if ranges[a].start < x then ranges[a].start else x);
      assert IsGreatestEnd(ranges, c, if ranges[a].end > y then ranges[a].end else y);
    }
  }

  /** The hull of the ranges the fault reaches. */
  ghost function Hull(ranges: map<U64, Range>, fault: int): (h: (U64, U64))
    requires Component(ranges, fault) != {}
    ensures IsLeastStart(ranges, Component(ranges, fault), h.0)
    ensures IsGreatestEnd(ranges, Component(ranges, fault), h.1)
  {
    ExtremesExist(ranges, Component(ranges, fault));
    var x: U64 :| IsLeastStart(ranges, Component(ranges, fault), x);
    var y: U64 :| IsGreatestEnd(ranges, Component(ranges, fault), y);
    (x, y)
  }

  /** The handler's test for a range that meets the hull. */
  predicate Meets(r: Range, lo: int, hi: int) {
    r.start < hi && r.end > lo
  }

  function Hit(r: Range): Range {
    r.(dirty := true, armed := false, generation := r.generation + Low(r.armed))
  }

  function HitAll(ranges: map<U64, Range>, lo: int, hi: int): map<U64, Range> {
    map a | a in ranges :: if Meets(ranges[a], lo, hi) then Hit(ranges[a]) else ranges[a]
  }

  predicate AnyArmed(ranges: map<U64, Range>, lo: U64, hi: U64) {
    exists a :: a in ranges && Meets(ranges[a], lo, hi) && ranges[a].armed
  }

  /** Unprotects the hull if an armed range meets it, then dirties and disarms every range that does. */
  ghost function ReleaseHull(st: State, lo: U64, hi: U64, kernel: Kernel): (bool, State) {
    var (ok, ro) :=
      if AnyArmed(st.ranges, lo, hi)
      then Mprotect(st.readOnly, lo, Wrap64(hi - lo), true, kernel) else (true, st.readOnly);
    if ok then (true, State(HitAll(st.ranges, lo, hi), ro)) else (false, st)
  }

  ghost function Fault(st: State, fault: U64, kernel: Kernel): (bool, State) {
    if fault == 0 || Component(st.ranges, fault) == {} then (false, st)
    else ReleaseHull(st, Hull(st.ranges, fault).0, Hull(st.ranges, fault).1, kernel)
  }

  /** One handler call on each page from `candidate` up, stopping where the next page would wrap. */
  ghost function Visit(st: State, candidate: U64, end: U64, kernel: Kernel): State
    decreases TWO64 - candidate
  {
    if candidate >= end then st
    else
      var st' := Fault(st, candidate, kernel).1;
      var next := Wrap64(PageDown(candidate) + PAGE);
      if next <= candidate then st' else Visit(st', next, end, kernel)
  }

  function WriteEnd(address: U64, byteCount: U64): U64 {
    if address > TWO64 - 1 - byteCount then TWO64 - 1 else address + byteCount
  }

  ghost function NotifyManagedWrite(st: State, address: U64, byteCount: U64, kernel: Kernel): State {
    if address == 0 || byteCount == 0 then st else Visit(st, address, WriteEnd(address, byteCount), kernel)
  }

  /** A guest store faults on a write-protected page; it lands when the page is writable afterwards. */
  ghost function Store(st: State, x: U64, kernel: Kernel): (bool, State) {
    if x / PAGE in st.readOnly then
      var st' := Fault(st, x, kernel).1;
      (x / PAGE !in st'.readOnly, st')
    else (true, st)
  }

  // ---- what one fault does ----

  lemma {:induction false} ChainCovers(ranges: map<U64, Range>, fault: int, path: seq<U64>, a: U64, x: int, y: int)
    requires Chain(ranges, fault, path, a) && Contains(ranges[a], y)
    requires fault <= x <= y || y <= x <= fault
    ensures exists b :: Reachable(ranges, fault, b) && b in ranges && Contains(ranges[b], x)
    decreases |path|
  {
    var r := ranges[a];
    assert Reachable(ranges, fault, a);
    if Contains(r, x) || |path| == 1 {
      assert Contains(r, x);
    } else {
      var shorter := path[..|path| - 1];
      var b := path[|path| - 2];
      var q := ranges[b];
      assert Chain(ranges, fault, shorter, b);
      var z := if r.start > q.start then r.start else q.start;
      assert Contains(q, z) && Contains(r, z);
      ChainCovers(ranges, fault, shorter, b, x, z);
    }
  }

  /** The hull has no gaps: it is the union of the ranges the fault reaches. */
  lemma HullIsUnion(ranges: map<U64, Range>, fault: int, x: int)
    requires Component(ranges, fault) != {}
    ensures var (lo, hi) := Hull(ranges, fault);
      lo <= x < hi <==> exists b :: Reachable(ranges, fault, b) && b in ranges && Contains(ranges[b], x)
  {
    var (lo, hi) := Hull(ranges, fault);
    var c := Component(ranges, fault);
    if lo <= x < hi {
      var a :| a in c && a in ranges && ranges[a].start == lo;
      var b :| b in c && b in ranges && ranges[b].end == hi;
      var p :| Chain(ranges, fault, p, a);
      var q :| Chain(ranges, fault, q, b);
      if x <= fault {
        ChainCovers(ranges, fault, p, a, x, lo);
      } else {
        ChainCovers(ranges, fault, q, b, x, hi - 1);
      }
    }
  }

  lemma ReachByOverlap(ranges: map<U64, Range>, fault: int, b: U64, a: U64)
    requires Reachable(ranges, fault, b) && a in ranges && b in ranges
    requires ranges[a].start < ranges[a].end && Overlap(ranges[b], ranges[a])
    ensures Reachable(ranges, fault, a)
  {
    var p :| Chain(ranges, fault, p, b);
    assert Chain(ranges, fault, p + [a], a);
  }

  /** A range that can hold a byte is dirtied exactly when the fault reaches it. */
  lemma MeetsHullIffReachable(ranges: map<U64, Range>, fault: int, a: U64)
    requires Component(ranges, fault) != {}
    requires a in ranges && ranges[a].start < ranges[a].end
    ensures var (lo, hi) := Hull(ranges, fault); Meets(ranges[a], lo, hi) <==> Reachable(ranges, fault, a)
  {
    var (lo, hi) := Hull(ranges, fault);
    var r := ranges[a];
    if Meets(r, lo, hi) {
      var z := if r.start > lo then r.start else lo;
      HullIsUnion(ranges, fault, z);
      var b :| Reachable(ranges, fault, b) && b in ranges && Contains(ranges[b], z);
      ReachByOverlap(ranges, fault, b, a);
    }
  }

  /** A range that cannot hold a byte, because its end wrapped, is dirtied exactly when reached ranges
      hold its start and the byte below its end, though no chain of overlaps leads to it. */
  lemma HollowMeetsHullIff(ranges: map<U64, Range>, fault: int, a: U64)
    requires Component(ranges, fault) != {}
    requires a in ranges && ranges[a].start >= ranges[a].end
    ensures var (lo, hi) := Hull(ranges, fault);
      Meets(ranges[a], lo, hi) <==> Covered(ranges, fault, ranges[a].start) && Covered(ranges, fault, ranges[a].end - 1)
    ensures !Reachable(ranges, fault, a)
  {
    HullIsUnion(ranges, fault, ranges[a].start);
    HullIsUnion(ranges, fault, ranges[a].end - 1);
  }

  lemma FaultReachesHolder(ranges: map<U64, Range>, fault: int, a: U64)
    requires a in ranges && Contains(ranges[a], fault)
    ensures Reachable(ranges, fault, a) && Component(ranges, fault) != {}
  {
    assert Chain(ranges, fault, [a], a);
  }

  lemma ReachableHasHolder(ranges: map<U64, Range>, fault: int)
    requires Component(ranges, fault) != {}
    ensures exists a :: a in ranges && Contains(ranges[a], fault)
  {
    var a :| a in Component(ranges, fault);
    var p :| Chain(ranges, fault, p, a);
    assert Contains(ranges[p[0]], fault);
  }

  lemma NoHolderNoComponent(ranges: map<U64, Range>, fault: int)
    requires forall a :: a in ranges ==> !Contains(ranges[a], fault)
    ensures Component(ranges, fault) == {}
  {
    if Component(ranges, fault) != {} {
      ReachableHasHolder(ranges, fault);
    }
  }

  // ---- growing a hull range by range ----

  ghost predicate StartsReached(ranges: map<U64, Range>, fault: int, x: int) {
    exists a :: Reachable(ranges, fault, a) && a in ranges && ranges[a].start == x
  }

  ghost predicate EndsReached(ranges: map<U64, Range>, fault: int, x: int) {
    exists a :: Reachable(ranges, fault, a) && a in ranges && ranges[a].end == x
  }

  ghost predicate Covered(ranges: map<U64, Range>, fault: int, x: int) {
    exists a :: Reachable(ranges, fault, a) && a in ranges && Contains(ranges[a], x)
  }

  /** [lo, hi) holds the fault, both ends come from ranges the fault reaches, and it has no gaps. */
  ghost predicate Grown(ranges: map<U64, Range>, fault: int, lo: U64, hi: U64) {
    && lo <= fault < hi
    && StartsReached(ranges, fault, lo) && EndsReached(ranges, fault, hi)
    && (forall x: int :: lo <= x < hi ==> Covered(ranges, fault, x))
  }

  function Min(x: U64, y: U64): U64 { if x < y then x else y }

  function Max(x: U64, y: U64): U64 { if x > y then x else y }

  lemma GrowFromHolder(ranges: map<U64, Range>, fault: int, a: U64)
    requires a in ranges && Contains(ranges[a], fault)
    ensures Grown(ranges, fault, ranges[a].start, ranges[a].end)
  {
    FaultReachesHolder(ranges, fault, a);
    forall x: int | ranges[a].start <= x < ranges[a].end ensures Covered(ranges, fault, x) {
      assert Contains(ranges[a], x);
    }
  }

  /** Merging any range that meets a grown interval grows it; an empty or inverted range changes nothing. */
  lemma GrowByMeeting(ranges: map<U64, Range>, fault: int, lo: U64, hi: U64, a: U64)
    requires Grown(ranges, fault, lo, hi) && a in ranges && Meets(ranges[a], lo, hi)
    ensures Grown(ranges, fault, Min(lo, ranges[a].start), Max(hi, ranges[a].end))
  {
    var r := ranges[a];
    if r.start < r.end {
      var z: int := Max(lo, r.start);
      assert Covered(ranges, fault, z);
      var b :| Reachable(ranges, fault, b) && b in ranges && Contains(ranges[b], z);
      ReachByOverlap(ranges, fault, b, a);
      var lo', hi' := Min(lo, r.start), Max(hi, r.end);
      forall x: int | lo' <= x < hi' ensures Covered(ranges, fault, x) {
        if !(lo <= x < hi) { assert Contains(r, x); }
      }
    }
  }

  lemma {:induction false} ChainStaysInside(
      ranges: map<U64, Range>, fault: int, lo: U64, hi: U64, path: seq<U64>, a: U64)
    requires lo <= fault < hi && Chain(ranges, fault, path, a)
    requires forall b :: b in ranges && Meets(ranges[b], lo, hi) ==> lo <= ranges[b].start && ranges[b].end <= hi
    ensures lo <= ranges[a].start && ranges[a].end <= hi
    decreases |path|
  {
    if |path| > 1 {
      var b := path[|path| - 2];
      assert Chain(ranges, fault, path[..|path| - 1], b);
      ChainStaysInside(ranges, fault, lo, hi, path[..|path| - 1], b);
      assert Overlap(ranges[b], ranges[a]);
    }
    assert Meets(ranges[a], lo, hi);
  }

  /** A grown interval that encloses every range it meets is the hull. */
  lemma ClosedIsHull(ranges: map<U64, Range>, fault: int, lo: U64, hi: U64)
    requires Grown(ranges, fault, lo, hi)
    requires forall b :: b in ranges && Meets(ranges[b], lo, hi) ==> lo <= ranges[b].start && ranges[b].end <= hi
    ensures Component(ranges, fault) != {} && (lo, hi) == Hull(ranges, fault)
  {
    var c := Component(ranges, fault);
    forall a | a in c ensures lo <= ranges[a].start && ranges[a].end <= hi {
      var p :| Chain(ranges, fault, p, a);
      ChainStaysInside(ranges, fault, lo, hi, p, a);
    }
    var a :| Reachable(ranges, fault, a) && a in ranges && ranges[a].start == lo;
    assert a in c;
  }
}
