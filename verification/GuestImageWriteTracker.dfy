/** The tracker as the source keeps it: a dictionary of mutable range objects, and a published
    snapshot of them with its bounds, which the fault handler reads without the gate. Every method
    is proved against the step of the same name in WriteTrackingModel. */
module GuestImageWriteTracker {
  import opened Words
  import opened WriteTrackingModel
  import opened WriteTrackingSafety

  class TrackedRange {
    const address: U64
    const byteCount: U64
    const start: U64
    const end: U64
    var dirty: bool
    var armed: bool
    var writeGeneration: nat

    constructor (address: U64, byteCount: U64, start: U64, end: U64, writeGeneration: nat)
      ensures View() == Range(address, byteCount, start, end, false, false, writeGeneration)
    {
      this.address, this.byteCount, this.start, this.end := address, byteCount, start, end;
      this.dirty, this.armed, this.writeGeneration := false, false, writeGeneration;
    }

    function View(): Range
      reads this
    {
      Range(address, byteCount, start, end, dirty, armed, writeGeneration)
    }

    /** The bounds are the pages of the requested span, with the end wrapped to 64 bits. */
    predicate Aligned() {
      start == PageDown(address) && end == RangeEnd(address, byteCount)
    }
  }

  /** Immutable once published; the bounds enclose every range. */
  datatype RangeSnapshot = RangeSnapshot(ranges: seq<TrackedRange>, start: U64, end: U64)

  method PageAlign(address: U64, byteCount: U64) returns (start: U64, length: U64)
    ensures start == PageDown(address)
    ensures Wrap64(start + length) == RangeEnd(address, byteCount)
  {
    hide BitAnd, BitNot, PageDown, Wrap64, Pow2;
    PageDownIsMask(address);
    PageDownIsMask(Wrap64(address + byteCount + (PAGE - 1)));
    var mask := BitNot(PAGE - 1, 64);
    start := BitAnd(address, mask);
    var end := BitAnd(Wrap64(address + byteCount + (PAGE - 1)), mask);
    length := Wrap64(end - start);
    DistanceReaches(start, end);
  }

  lemma DistanceReaches(start: U64, end: U64)
    ensures Wrap64(start + Wrap64(end - start)) == end
  {
  }

  lemma PageBelowTop(x: U64)
    ensures PageDown(x) < TWO64 - 1
  {
  }

  lemma UpdatedValues<T>(m: map<U64, T>, a: U64, x: T)
    ensures m[a := x].Values <= m.Values + {x}
  {
  }

  method BuildSnapshot(ranges: seq<TrackedRange>) returns (s: RangeSnapshot)
    ensures s.ranges == ranges
    ensures forall r :: r in ranges ==> s.start <= r.start && r.end <= s.end
    ensures ranges != [] ==>
      (exists r :: r in ranges && r.start == s.start) && (exists r :: r in ranges && r.end == s.end)
  {
    var start: U64, end: U64 := TWO64 - 1, 0;
    for i := 0 to |ranges|
      invariant forall j :: 0 <= j < i ==> start <= ranges[j].start && ranges[j].end <= end
      invariant if i == 0 then start == TWO64 - 1 && end == 0
                else (exists j :: 0 <= j < i && ranges[j].start == start) &&
                     (exists j :: 0 <= j < i && ranges[j].end == end)
    {
      start := if ranges[i].start < start then ranges[i].start else start;
      end := if ranges[i].end > end then ranges[i].end else end;
    }
    s := RangeSnapshot(ranges, start, end);
  }

  predicate Inside(r: TrackedRange, lo: U64, hi: U64) {
    lo <= r.start && r.end <= hi
  }

  /** The interval encloses every range it meets. */
  predicate Closed(ranges: seq<TrackedRange>, lo: U64, hi: U64) {
    forall r :: r in ranges && r.start < hi && r.end > lo ==> Inside(r, lo, hi)
  }

  /** The ranges that stick out of an interval: every growing round leaves fewer of them. */
  ghost function Outside(ranges: seq<TrackedRange>, lo: U64, hi: U64): set<TrackedRange> {
    set r | r in ranges && !Inside(r, lo, hi)
  }

  lemma OutsideShrinks(ranges: seq<TrackedRange>, lo: U64, hi: U64, r: TrackedRange)
    requires r in ranges && !Inside(r, lo, hi)
    ensures Outside(ranges, Min(lo, r.start), Max(hi, r.end)) < Outside(ranges, lo, hi)
  {
    assert r in Outside(ranges, lo, hi);
    assert r !in Outside(ranges, Min(lo, r.start), Max(hi, r.end));
  }

  /** One pass over the ranges, merging each one that meets the interval grown so far. */
  function Sweep(ranges: seq<TrackedRange>, lo: U64, hi: U64): (U64, U64) {
    if ranges == [] then (lo, hi)
    else
      var (l, h) := Sweep(ranges[..|ranges| - 1], lo, hi);
      var r := ranges[|ranges| - 1];
      if r.start >= h || r.end <= l then (l, h) else (Min(l, r.start), Max(h, r.end))
  }

  /** A pass either leaves fewer ranges sticking out, or shows that none that is met does. */
  lemma {:induction false} SweepSettles(ranges: seq<TrackedRange>, lo: U64, hi: U64)
    ensures var (l, h) := Sweep(ranges, lo, hi);
      && l <= lo && hi <= h
      && ((l, h) == (lo, hi) ==> Closed(ranges, lo, hi))
      && ((l, h) != (lo, hi) ==> Outside(ranges, l, h) < Outside(ranges, lo, hi))
    decreases |ranges|
  {
    if ranges != [] {
      var rest, r := ranges[..|ranges| - 1], ranges[|ranges| - 1];
      SweepSettles(rest, lo, hi);
      var (l0, h0) := Sweep(rest, lo, hi);
      var (l, h) := Sweep(ranges, lo, hi);
      assert ranges == rest + [r];
      assert Outside(ranges, l, h) <= Outside(ranges, lo, hi);
      if (l, h) != (lo, hi) {
        if (l0, h0) == (lo, hi) {
          OutsideShrinks(ranges, lo, hi, r);
        } else {
          var q :| q in Outside(rest, lo, hi) && q !in Outside(rest, l0, h0);
          assert q in Outside(ranges, lo, hi) && q !in Outside(ranges, l, h);
        }
      }
    }
  }

  /** One round of the handler's growing loop, which also reports whether anything was merged. */
  method ExpandOnce(ranges: seq<TrackedRange>, lo0: U64, hi0: U64) returns (lo: U64, hi: U64, expanded: bool)
    ensures (lo, hi) == Sweep(ranges, lo0, hi0)
    ensures expanded <==> (lo, hi) != (lo0, hi0)
  {
    lo, hi, expanded := lo0, hi0, false;
    for i := 0 to |ranges|
      invariant (lo, hi) == Sweep(ranges[..i], lo0, hi0)
      invariant lo <= lo0 && hi0 <= hi && (expanded <==> lo != lo0 || hi != hi0)
    {
      var range := ranges[i];
      assert ranges[..i + 1][..i] == ranges[..i];
      if range.start >= hi || range.end <= lo { continue; }
      var start := Min(lo, range.start);
      var end := Max(hi, range.end);
      if start != lo || end != hi {
        lo, hi, expanded := start, end, true;
      }
    }
    assert ranges[..|ranges|] == ranges;
  }

  /** Passes repeated until one merges nothing. */
  ghost function Settle(ranges: seq<TrackedRange>, lo: U64, hi: U64): (U64, U64)
    decreases Outside(ranges, lo, hi)
  {
    SweepSettles(ranges, lo, hi);
    var (l, h) := Sweep(ranges, lo, hi);
    if (l, h) == (lo, hi) then (lo, hi) else Settle(ranges, l, h)
  }

  lemma {:induction false} SettleCloses(ranges: seq<TrackedRange>, lo: U64, hi: U64)
    ensures Closed(ranges, Settle(ranges, lo, hi).0, Settle(ranges, lo, hi).1)
    decreases Outside(ranges, lo, hi)
  {
    SweepSettles(ranges, lo, hi);
    var (l, h) := Sweep(ranges, lo, hi);
    if (l, h) != (lo, hi) {
      SettleCloses(ranges, l, h);
    }
  }

  /** The growing loop: every round but the last leaves fewer ranges sticking out, so it ends. */
  method Expand(ranges: seq<TrackedRange>, lo0: U64, hi0: U64) returns (lo: U64, hi: U64)
    ensures (lo, hi) == Settle(ranges, lo0, hi0)
    ensures Closed(ranges, lo, hi)
  {
    SettleCloses(ranges, lo0, hi0);
    lo, hi := lo0, hi0;
    var expanded := true;
    while expanded
      invariant Settle(ranges, lo, hi) == Settle(ranges, lo0, hi0)
      invariant !expanded ==> Settle(ranges, lo, hi) == (lo, hi)
      decreases Outside(ranges, lo, hi), expanded
    {
      SweepSettles(ranges, lo, hi);
      lo, hi, expanded := ExpandOnce(ranges, lo, hi);
    }
  }

  class Tracker {
    var rangesByAddress: map<U64, TrackedRange>
    var snapshot: RangeSnapshot
    var readOnly: set<nat>

    ghost predicate KeyedByAddress()
      reads this`rangesByAddress
    {
      forall a :: a in rangesByAddress ==> rangesByAddress[a].address == a && rangesByAddress[a].start < TWO64 - 1
    }

    ghost predicate Aligned()
      reads this`rangesByAddress
    {
      forall a :: a in rangesByAddress ==> rangesByAddress[a].Aligned()
    }

    ghost predicate Valid()
      reads this`rangesByAddress, this`snapshot
    {
      && KeyedByAddress()
      && (forall r :: r in snapshot.ranges ==> r in rangesByAddress.Values)
      && (forall a :: a in rangesByAddress ==> rangesByAddress[a] in snapshot.ranges)
      && (forall i, j :: 0 <= i < j < |snapshot.ranges| ==> snapshot.ranges[i] != snapshot.ranges[j])
      && (forall r :: r in snapshot.ranges ==> snapshot.start <= r.start && r.end <= snapshot.end)
    }

    ghost function Ranges(): map<U64, Range>
      reads this`rangesByAddress, rangesByAddress.Values
    {
      map a | a in rangesByAddress :: rangesByAddress[a].View()
    }

    ghost function Abstract(): State
      reads this`rangesByAddress, this`readOnly, rangesByAddress.Values
    {
      State(Ranges(), readOnly)
    }

    constructor ()
      ensures Valid() && Aligned() && Abstract() == INITIAL && fresh(rangesByAddress.Values)
    {
      rangesByAddress := map[];
      snapshot := RangeSnapshot([], TWO64 - 1, 0);
      readOnly := {};
    }

    method Mprotect(start: U64, length: U64, writable: bool, kernel: Kernel) returns (ok: bool)
      modifies this`readOnly
      ensures (ok, readOnly) == WriteTrackingModel.Mprotect(old(readOnly), start, length, writable, kernel)
    {
      var (granted, pages) := WriteTrackingModel.Mprotect(readOnly, start, length, writable, kernel);
      ok, readOnly := granted, pages;
    }

    // ---- gate-protected operations ----

    method ArmLocked(range: TrackedRange, kernel: Kernel)
      requires Valid() && range in rangesByAddress.Values
      modifies this`readOnly, range`armed
      ensures Valid() && Abstract() == Arm(old(Abstract()), range.address, kernel)
    {
      hide WriteTrackingModel.Mprotect, Wrap64;
      Known(range);
      if range.armed { return; }
      range.armed := true;
      var ok := Mprotect(range.start, Wrap64(range.end - range.start), false, kernel);
      if !ok {
        range.armed := false;
      }
      OneChanged(old(Ranges()), range);
    }

    /** The view after one range alone has changed. */
    lemma OneChanged(was: map<U64, Range>, range: TrackedRange)
      requires Valid() && range in rangesByAddress.Values && was.Keys == rangesByAddress.Keys
      requires forall r :: r in rangesByAddress.Values && r != range ==> was[r.address] == r.View()
      ensures Ranges() == was[range.address := range.View()]
    {
      Known(range);
    }

    method DisarmLocked(range: TrackedRange, kernel: Kernel)
      requires Valid() && range in rangesByAddress.Values
      modifies this`readOnly, range`armed
      ensures Valid() && Abstract() == Disarm(old(Abstract()), range.address, kernel)
    {
      hide WriteTrackingModel.Mprotect, Wrap64;
      Known(range);
      var wasArmed := range.armed;
      range.armed := false;
      if wasArmed {
        var _ := Mprotect(range.start, Wrap64(range.end - range.start), true, kernel);
      }
      assert Ranges() == old(Ranges())[range.address := range.View()];
    }

    /** The dictionary's values in some order, each once. */
    method RebuildSnapshotLocked()
      requires KeyedByAddress()
      modifies this`snapshot
      ensures Valid()
    {
      var remaining := rangesByAddress.Keys;
      var ranges: seq<TrackedRange> := [];
      while remaining != {}
        invariant remaining <= rangesByAddress.Keys
        invariant forall r :: r in ranges ==> r in rangesByAddress.Values && r.address !in remaining
        invariant forall a :: a in rangesByAddress && a !in remaining ==> rangesByAddress[a] in ranges
        invariant forall i, j :: 0 <= i < j < |ranges| ==> ranges[i] != ranges[j]
        decreases remaining
      {
        var a :| a in remaining;
        remaining := remaining - {a};
        ranges := ranges + [rangesByAddress[a]];
      }
      snapshot := BuildSnapshot(ranges);
    }

    method Track(address: U64, byteCount: U64, kernel: Kernel)
      requires Valid() && Aligned()
      modifies this, rangesByAddress.Values
      ensures Valid() && Aligned()
        && Abstract() == WriteTrackingModel.Track(old(Abstract()), address, byteCount, kernel)
      ensures fresh(rangesByAddress.Values - old(rangesByAddress.Values))
    {
      if address == 0 || byteCount == 0 { return; }
      var range := Prepare(address, byteCount, kernel);
      ArmLocked(range, kernel);
    }

    method Prepare(address: U64, byteCount: U64, kernel: Kernel) returns (range: TrackedRange)
      requires Valid() && Aligned()
      modifies this, rangesByAddress.Values`armed
      ensures Valid() && Aligned()
      ensures Abstract() == WriteTrackingModel.Prepare(old(Abstract()), address, byteCount, kernel)
      ensures address in rangesByAddress && rangesByAddress[address] == range
      ensures fresh(rangesByAddress.Values - old(rangesByAddress.Values))
    {
      hide PageDown, RangeEnd, Disarm, Wrap64;
      PageBelowTop(address);
      var start, length := PageAlign(address, byteCount);
      var end := Wrap64(start as int + length);
      if address in rangesByAddress {
        range := rangesByAddress[address];
        assert range.Aligned();
        if range.start != start || range.end != end || range.byteCount != byteCount {
          range := Resize(range, byteCount, start, end, kernel);
        }
      } else {
        range := Publish(address, byteCount, start, end, 0);
      }
      UpdatedValues(old(rangesByAddress), address, range);
    }

    /** Never resizes the object the snapshot still holds: retires it and publishes a fresh one. */
    method Resize(old': TrackedRange, byteCount: U64, start: U64, end: U64, kernel: Kernel)
      returns (range: TrackedRange)
      requires Valid() && old' in rangesByAddress.Values && start < TWO64 - 1
      modifies this, old'`armed
      ensures Valid() && fresh(range)
      ensures range.address == old'.address && range.byteCount == byteCount && range.start == start && range.end == end
      ensures var address := old'.address;
        var retired := Disarm(old(Abstract()), address, kernel);
        && rangesByAddress == old(rangesByAddress)[address := range]
        && Abstract() == retired.(ranges := retired.ranges[address :=
             Range(address, byteCount, start, end, false, false, old(old'.writeGeneration))])
    {
      var writeGeneration := old'.writeGeneration;
      DisarmLocked(old', kernel);
      range := Publish(old'.address, byteCount, start, end, writeGeneration);
    }

    /** Replaces whatever the dictionary holds for the address by a fresh range and rebuilds the snapshot. */
    method Publish(address: U64, byteCount: U64, start: U64, end: U64, writeGeneration: nat)
      returns (range: TrackedRange)
      requires Valid() && start < TWO64 - 1
      modifies this`rangesByAddress, this`snapshot
      ensures Valid() && fresh(range)
      ensures range.address == address && range.byteCount == byteCount && range.start == start && range.end == end
      ensures rangesByAddress == old(rangesByAddress)[address := range]
      ensures Ranges() == old(Ranges())[address := Range(address, byteCount, start, end, false, false, writeGeneration)]
    {
      hide PageDown, RangeEnd, Wrap64;
      range := new TrackedRange(address, byteCount, start, end, writeGeneration);
      rangesByAddress := rangesByAddress[address := range];
      RebuildSnapshotLocked();
      assert Ranges() == old(Ranges())[address := range.View()];
    }

    method Untrack(address: U64, kernel: Kernel)
      requires Valid()
      modifies this, rangesByAddress.Values`armed
      ensures Valid() && Abstract() == WriteTrackingModel.Untrack(old(Abstract()), address, kernel)
      ensures rangesByAddress == old(rangesByAddress) - {address}
    {
      hide WriteTrackingModel.Mprotect, Disarm;
      if address in rangesByAddress {
        DisarmLocked(rangesByAddress[address], kernel);
        Forget(address);
      }
    }

    method Forget(address: U64)
      requires Valid()
      modifies this`rangesByAddress, this`snapshot
      ensures Valid() && rangesByAddress == old(rangesByAddress) - {address} && Ranges() == old(Ranges()) - {address}
    {
      rangesByAddress := rangesByAddress - {address};
      RebuildSnapshotLocked();
      assert Ranges() == old(Ranges()) - {address};
    }

    method ConsumeDirty(address: U64) returns (wasDirty: bool)
      requires Valid()
      modifies rangesByAddress.Values`dirty
      ensures Valid() && (wasDirty, Abstract()) == WriteTrackingModel.ConsumeDirty(old(Abstract()), address)
    {
      if address !in rangesByAddress { return false; }
      var range := rangesByAddress[address];
      wasDirty := range.dirty;
      range.dirty := false;
      assert Ranges() == old(Ranges())[address := range.View()];
    }

    method Rearm(address: U64, kernel: Kernel)
      requires Valid()
      modifies this`readOnly, rangesByAddress.Values`armed
      ensures Valid() && Abstract() == WriteTrackingModel.Rearm(old(Abstract()), address, kernel)
    {
      if address in rangesByAddress {
        ArmLocked(rangesByAddress[address], kernel);
      }
    }

    lemma Known(r: TrackedRange)
      requires Valid() && r in rangesByAddress.Values
      ensures r.address in Ranges() && rangesByAddress[r.address] == r && Ranges()[r.address] == r.View()
        && r.start < TWO64 - 1
    {
      var a :| a in rangesByAddress && rangesByAddress[a] == r;
    }

    // ---- the fault handler ----

    /** The least interval that spans every range holding the fault; `lo` stays at the top when none does. */
    method HoldersOf(fault: U64) returns (lo: U64, hi: U64)
      requires Valid()
      ensures lo == TWO64 - 1 ==> forall a :: a in Ranges() ==> !Contains(Ranges()[a], fault)
      ensures lo != TWO64 - 1 ==> Grown(Ranges(), fault, lo, hi)
    {
      hide Grown;
      ghost var view := Ranges();
      var ranges := snapshot.ranges;
      lo, hi := TWO64 - 1, 0;
      for i := 0 to |ranges|
        invariant lo == TWO64 - 1 ==> hi == 0 && forall j :: 0 <= j < i ==> !(ranges[j].start <= fault < ranges[j].end)
        invariant lo == TWO64 - 1 || (lo <= fault < hi && Grown(view, fault, lo, hi))
      {
        var range := ranges[i];
        if fault < range.start || fault >= range.end { continue; }
        Known(range);
        if lo == TWO64 - 1 {
          GrowFromHolder(view, fault, range.address);
        } else {
          GrowByMeeting(view, fault, lo, hi, range.address);
        }
        lo := Min(lo, range.start);
        hi := Max(hi, range.end);
      }
      forall a | a in view ensures lo != TWO64 - 1 || !Contains(view[a], fault) {
        assert rangesByAddress[a] in ranges;
      }
    }

    lemma {:induction false} SweepGrows(ranges: seq<TrackedRange>, fault: U64, lo: U64, hi: U64)
      requires Valid() && (forall r :: r in ranges ==> r in snapshot.ranges) && Grown(Ranges(), fault, lo, hi)
      ensures Grown(Ranges(), fault, Sweep(ranges, lo, hi).0, Sweep(ranges, lo, hi).1)
      decreases |ranges|
    {
      if ranges != [] {
        var rest, r := ranges[..|ranges| - 1], ranges[|ranges| - 1];
        SweepGrows(rest, fault, lo, hi);
        Known(r);
        var (l, h) := Sweep(rest, lo, hi);
        if r.start < h && r.end > l {
          GrowByMeeting(Ranges(), fault, l, h, r.address);
        }
      }
    }

    lemma {:induction false} SettleGrows(fault: U64, lo: U64, hi: U64)
      requires Valid() && Grown(Ranges(), fault, lo, hi)
      ensures Grown(Ranges(), fault, Settle(snapshot.ranges, lo, hi).0, Settle(snapshot.ranges, lo, hi).1)
      decreases Outside(snapshot.ranges, lo, hi)
    {
      var (l, h) := Sweep(snapshot.ranges, lo, hi);
      if (l, h) != (lo, hi) {
        SweepSettles(snapshot.ranges, lo, hi);
        SweepGrows(snapshot.ranges, fault, lo, hi);
        SettleGrows(fault, l, h);
      }
    }

    /** The hull loops of the handler compute the hull of the ranges the fault reaches. */
    method FaultHull(fault: U64) returns (found: bool, lo: U64, hi: U64)
      requires Valid()
      ensures found <==> Component(Ranges(), fault) != {}
      ensures found ==> (lo, hi) == Hull(Ranges(), fault)
    {
      hide Sweep, Settle, Grown, Hull, Component, Outside;
      lo, hi := HoldersOf(fault);
      if lo == TWO64 - 1 {
        NoHolderNoComponent(Ranges(), fault);
        return false, lo, hi;
      }
      SettleGrows(fault, lo, hi);
      SettleCloses(snapshot.ranges, lo, hi);
      lo, hi := Expand(snapshot.ranges, lo, hi);
      forall b | b in Ranges() && Meets(Ranges()[b], lo, hi) ensures lo <= Ranges()[b].start && Ranges()[b].end <= hi {
        assert rangesByAddress[b] in snapshot.ranges;
      }
      ClosedIsHull(Ranges(), fault, lo, hi);
      found := true;
    }

    method TryHandleWriteFault(fault: U64, kernel: Kernel) returns (handled: bool)
      requires Valid()
      modifies this`readOnly, rangesByAddress.Values
      ensures Valid() && (handled, Abstract()) == WriteTrackingModel.Fault(old(Abstract()), fault, kernel)
    {
      if fault == 0 { return false; }
      var found, lo, hi := FaultHull(fault);
      if !found { return false; }
      handled := ReleaseHull(lo, hi, kernel);
    }

    method ReleaseHull(lo: U64, hi: U64, kernel: Kernel) returns (handled: bool)
      requires Valid()
      modifies this`readOnly, rangesByAddress.Values
      ensures Valid() && (handled, Abstract()) == WriteTrackingModel.ReleaseHull(old(Abstract()), lo, hi, kernel)
    {
      ghost var was := Ranges();
      var needsUnprotect := AnyArmed(lo, hi);
      if needsUnprotect {
        var ok := Mprotect(lo, Wrap64(hi as int - lo), true, kernel);
        assert Ranges() == was;
        if !ok { return false; }
      }
      assert Ranges() == was;
      HitRanges(lo, hi);
      handled := true;
    }

    method AnyArmed(lo: U64, hi: U64) returns (any: bool)
      requires Valid()
      ensures any <==> WriteTrackingModel.AnyArmed(Ranges(), lo, hi)
    {
      ghost var view := Ranges();
      var ranges := snapshot.ranges;
      for i := 0 to |ranges|
        invariant forall j :: 0 <= j < i ==> !(ranges[j].start < hi && ranges[j].end > lo && ranges[j].armed)
      {
        if ranges[i].start < hi && ranges[i].end > lo && ranges[i].armed {
          Known(ranges[i]);
          assert Meets(view[ranges[i].address], lo, hi);
          return true;
        }
      }
      forall a | a in view ensures !(Meets(view[a], lo, hi) && view[a].armed) {
        assert rangesByAddress[a] in ranges;
      }
      any := false;
    }

    method HitRanges(lo: U64, hi: U64)
      requires Valid()
      modifies rangesByAddress.Values
      ensures Valid() && Ranges() == HitAll(old(Ranges()), lo, hi)
    {
      var ranges := snapshot.ranges;
      for i := 0 to |ranges|
        invariant forall j :: 0 <= j < i ==>
            ranges[j].View() == if Meets(old(ranges[j].View()), lo, hi) then Hit(old(ranges[j].View()))
                                else old(ranges[j].View())
        invariant forall j :: i <= j < |ranges| ==> ranges[j].View() == old(ranges[j].View())
      {
        var range := ranges[i];
        if range.start >= hi || range.end <= lo { continue; }
        var wasArmed := range.armed;
        range.armed := false;
        if wasArmed {
          range.writeGeneration := range.writeGeneration + 1;
        }
        range.dirty := true;
      }
      forall a | a in rangesByAddress
        ensures Ranges()[a] == HitAll(old(Ranges()), lo, hi)[a]
      {
        assert rangesByAddress[a] in ranges;
      }
    }

    /** Equal to visiting every page of the span: rejecting a span outside the snapshot's bounds,
        and stopping where the next page would wrap, lose nothing. */
    method NotifyManagedWrite(address: U64, byteCount: U64, kernel: Kernel)
      requires Valid()
      modifies this`readOnly, rangesByAddress.Values
      ensures Valid()
        && Abstract() == WriteTrackingModel.NotifyManagedWrite(old(Abstract()), address, byteCount, kernel)
    {
      if address == 0 || byteCount == 0 { return; }
      var end: U64 := if address > TWO64 - 1 - byteCount then TWO64 - 1 else address + byteCount;
      if snapshot.ranges == [] || end <= snapshot.start || address >= snapshot.end {
        VisitOutsideBounds(address, end, kernel);
        return;
      }
      var candidate: U64 := address;
      while candidate < end
        invariant Valid() && rangesByAddress == old(rangesByAddress)
        invariant Visit(Abstract(), candidate, end, kernel) == Visit(old(Abstract()), address, end, kernel)
        decreases end - candidate
      {
        var _ := TryHandleWriteFault(candidate, kernel);
        var nextPage := Wrap64(PageDown(candidate) + PAGE);
        if nextPage <= candidate { break; }
        candidate := nextPage;
      }
    }

    lemma {:induction false} VisitOutsideBounds(candidate: U64, end: U64, kernel: Kernel)
      requires Valid()
      requires snapshot.ranges == [] || end <= snapshot.start || candidate >= snapshot.end
      ensures Visit(Abstract(), candidate, end, kernel) == Abstract()
      decreases TWO64 - candidate
    {
      if candidate < end {
        forall a | a in Ranges() ensures !Contains(Ranges()[a], candidate) {
          assert rangesByAddress[a] in snapshot.ranges;
        }
        NoHolderNoComponent(Ranges(), candidate);
        var next := Wrap64(PageDown(candidate) + PAGE);
        if next > candidate {
          VisitOutsideBounds(next, end, kernel);
        }
      }
    }
  }
}
