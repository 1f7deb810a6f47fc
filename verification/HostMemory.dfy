/** The POSIX region table: a list of region objects sorted by base, each with a default protection
    and a sparse dictionary of overrides. Addresses that are page-aligned in the source are kept as
    page numbers. Every operation is proved against the plain page map of HostMemoryModel. */
module HostMemory {
  import opened Words
  import opened HostMemoryModel

  const MEM_FREE_STATE: nat := 0x10000
  const MEM_PRIVATE: nat := 0x20000
  const PAGE_NOACCESS: nat := 0x01

  class Region {
    const base: nat
    const count: nat
    var defaultProtect: U32
    var pageProtects: map<nat, U32>

    constructor (base: nat, count: nat, protect: U32)
      ensures View() == RegionView(base, count, protect, map[])
    {
      this.base, this.count := base, count;
      this.defaultProtect, this.pageProtects := protect, map[];
    }

    function View(): RegionView
      reads this
    {
      RegionView(base, count, defaultProtect, pageProtects)
    }

    method SetProtectRange(start: nat, size: nat, protect: U32)
      modifies this
      ensures View() == SetRange(old(View()), start, start + size, protect)
    {
      if start == base && size >= count {
        defaultProtect := protect;
        pageProtects := map[];
        return;
      }
      ghost var before := pageProtects;
      for page := start to start + size
        invariant pageProtects == Override(before, start, page, protect, defaultProtect)
        invariant defaultProtect == old(defaultProtect)
      {
        if protect == defaultProtect {
          pageProtects := pageProtects - {page};
        } else {
          pageProtects := pageProtects[page := protect];
        }
      }
    }
  }

  /** Pages are given by number; regionSize counts pages. */
  datatype BasicInfo = BasicInfo(
    baseAddress: nat, allocationBase: nat, allocationProtect: U32, regionSize: nat, state: U32, protect: U32, kind: U32)

  ghost function ViewsOf(regions: seq<Region>): (views: seq<RegionView>)
    reads regions
    ensures |views| == |regions| && forall i :: 0 <= i < |regions| ==> views[i] == regions[i].View()
  {
    seq(|regions|, i requires 0 <= i < |regions| reads regions => regions[i].View())
  }

  lemma ViewsWithout(regions: seq<Region>, i: nat)
    requires i < |regions|
    ensures ViewsOf(regions[..i] + regions[i + 1..]) == ViewsOf(regions)[..i] + ViewsOf(regions)[i + 1..]
  {
  }

  lemma ViewsWith(regions: seq<Region>, i: nat, region: Region)
    requires i <= |regions|
    ensures ViewsOf(regions[..i] + [region] + regions[i..])
      == ViewsOf(regions)[..i] + [region.View()] + ViewsOf(regions)[i..]
  {
  }

  class Posix {
    var regions: seq<Region>

    ghost function Views(): seq<RegionView>
      reads this, regions
    {
      ViewsOf(regions)
    }

    ghost predicate Valid()
      reads this, regions
    {
      ValidTable(Views())
    }

    ghost function PageMap(): Plain
      reads this, regions
    {
      Table(Views())
    }

    constructor ()
      ensures Valid() && PageMap() == imap[]
    {
      regions := [];
      new;
      assert Views() == [];
    }

    /** The last region whose base is at most the page, when the page lies below its end. */
    method TryFindRegion(page: nat) returns (found: bool, index: nat)
      requires Valid()
      ensures found <==> page in PageMap()
      ensures found ==> RegionAt(index, page)
    {
      ghost var views := Views();
      var low, high := 0, |regions| - 1;
      var candidate := -1;
      while low <= high
        invariant 0 <= low <= high + 1 <= |regions| && candidate == low - 1
        invariant forall i :: 0 <= i < low ==> views[i].base <= page
        invariant forall i :: high < i < |regions| ==> page < views[i].base
        decreases high - low + 1
      {
        var middle := low + (high - low) / 2;
        assert regions[middle].base == views[middle].base;
        if regions[middle].base <= page {
          candidate, low := middle, middle + 1;
        } else {
          high := middle - 1;
        }
      }
      if candidate < 0 || page >= regions[candidate].base + regions[candidate].count {
        assert candidate >= 0 ==> views[candidate] == regions[candidate].View();
        assert forall i :: 0 <= i < |views| ==> !Holds(views[i], page);
        return false, 0;
      }
      assert Holds(views[candidate], page);
      HolderIsUnique(views, candidate, page);
      return true, candidate;
    }

    method SetProtectRange(index: nat, start: nat, end: nat, protect: U32)
      requires Valid() && index < |regions| && start <= end
      modifies regions
      ensures Views() == old(Views())[index := SetRange(old(Views())[index], start, end, protect)]
    {
      ghost var views := Views();
      assert views[index] == regions[index].View();
      Distinct();
      regions[index].SetProtectRange(start, end - start, protect);
    }

    lemma Distinct()
      requires Valid()
      ensures forall i, j :: 0 <= i < j < |regions| ==> regions[i] != regions[j]
    {
      forall i, j | 0 <= i < j < |regions| ensures regions[i] != regions[j] {
        assert Views()[i].base != Views()[j].base;
      }
    }

    /** Compares byte addresses; the end of the span wraps in 64 bits. */
    method OverlapsTrackedRegion(start: U64, size: nat) returns (overlaps: bool)
      requires Valid()
      ensures overlaps <==> Overlaps(PageMap(), start, size)
    {
      ghost var views := Views();
      var end := Wrap64(start as int + size);
      for i := 0 to |regions|
        invariant forall j :: 0 <= j < i ==> !SpanMeets(views[j], start, end)
      {
        assert views[i] == regions[i].View();
        if regions[i].base * PAGE < end && start < (regions[i].base + regions[i].count) * PAGE {
          var first, last := regions[i].base, regions[i].base + regions[i].count - 1;
          HolderIsUnique(views, i, first);
          HolderIsUnique(views, i, last);
          assert SameAllocation(Table(views), first, last);
          return true;
        }
      }
      forall p: nat, q: nat | SameAllocation(PageMap(), p, q) ensures !(p * PAGE < end && start < q * PAGE + PAGE) {
        var i := Holder(views, p);
        if Holder(views, q) != i { BasesDiffer(views, i, Holder(views, q)); }
        assert !SpanMeets(views[i], start, end);
      }
      return false;
    }

    method Alloc(address: U64, size: U64, kind: U32, protect: U32, host: Host) returns (r: Outcome<int>)
      requires Valid() && HostContract(PageMap(), size, host)
      modifies this, regions
      ensures Valid() && (r, PageMap()) == HostMemoryModel.Alloc(old(PageMap()), address, size, kind, protect, host)
      ensures kind != MEM_COMMIT || address / PAGE !in old(PageMap()) ==>
        forall p: nat :: p in PageMap() ==>
          AllocationProtect(p) == if p in old(PageMap()) then old(AllocationProtect(p)) else protect
    {
      hide Table, Tracked, ValidTable, Overlaps, AddPages, SetPages, HostMemoryModel.Reserve, HostMemoryModel.Commit,
           BitAnd, RegionAt;
      if size == 0 { return Returned(0); }
      var aligned := AlignUp(size);
      if aligned.Overflow? { return Overflow; }
      if kind == MEM_COMMIT && address != 0 {
        var found, index := TryFindRegion(address / PAGE);
        if found {
          r := Commit(index, address, aligned.value * PAGE, protect, host);
          return;
        }
      }
      if BitAnd(kind, MEM_RESERVE) == 0 { return Returned(0); }
      r := Reserve(address, aligned.value, protect, host);
    }

    ghost predicate CanPlace(base: nat, count: nat)
      reads this, regions
    {
      base + count < PAGES && FreeOf(PageMap(), base, base + count)
    }

    method Reserve(address: U64, count: nat, protect: U32, host: Host) returns (r: Outcome<int>)
      requires Valid() && count > 0 && (host.mapped.Some? ==> CanPlace(host.mapped.value, count))
      modifies this
      ensures Valid() && (r, PageMap()) == HostMemoryModel.Reserve(old(PageMap()), address, count, protect, host)
      ensures forall p: nat :: p in PageMap() ==>
        AllocationProtect(p) == if p in old(PageMap()) then old(AllocationProtect(p)) else protect
    {
      hide Table, Tracked, ValidTable, Overlaps, Holder;
      if address != 0 {
        var overlaps := OverlapsTrackedRegion(address, count * PAGE);
        if overlaps { return Returned(0); }
      }
      if host.mapped.None? || (address != 0 && host.mapped.value * PAGE != address) { return Returned(0); }
      Insert(host.mapped.value, count, protect);
      r := Returned(host.mapped.value * PAGE);
    }

    method Commit(index: nat, address: U64, length: nat, protect: U32, host: Host) returns (r: Outcome<int>)
      requires Valid() && index < |regions| && address / PAGE in PageMap()
      requires RegionAt(index, address / PAGE)
      modifies regions
      ensures Valid() && (r, PageMap()) == HostMemoryModel.Commit(old(PageMap()), address, length, protect, host)
    {
      var aligned := AlignUp(Wrap64(address as int + length));
      if aligned.Overflow? { return Overflow; }
      var regionEnd := regions[index].base + regions[index].count;
      var end := if aligned.value < regionEnd then aligned.value else regionEnd;
      if end <= address / PAGE { return Returned(0); }
      if !host.granted { return Returned(0); }
      CommitSpan(index, address / PAGE, aligned.value, end, protect);
      r := Returned(address);
    }

    /** The region at the index holds the page. */
    ghost predicate RegionAt(index: nat, page: nat)
      reads this, regions
    {
      && index < |regions| && page in PageMap() && Holds(regions[index].View(), page)
      && PageMap()[page] == RegionCell(regions[index].View(), page)
    }

    method CommitSpan(index: nat, start: nat, wanted: nat, end: nat, protect: U32)
      requires Valid() && RegionAt(index, start) && start < end
      requires var regionEnd := regions[index].base + regions[index].count;
               end == if wanted < regionEnd then wanted else regionEnd
      modifies regions
      ensures Valid() && PageMap() == SetPages(old(PageMap()), old(PageMap())[start].base, start, wanted, protect)
    {
      ghost var views := Views();
      assert views[index] == regions[index].View();
      HolderIsUnique(views, index, start);
      ClipRefines(views, index, start, wanted, end, protect);
      SetProtectRange(index, start, end, protect);
    }

    /** Places a fresh region where the sorted list keeps its order. */
    method Insert(base: nat, count: nat, protect: U32)
      requires Valid() && count > 0 && CanPlace(base, count)
      modifies this
      ensures Valid() && PageMap() == AddPages(old(PageMap()), base, base + count, protect)
      ensures forall p: nat :: p in PageMap() ==>
        AllocationProtect(p) == if base <= p < base + count then protect else old(AllocationProtect(p))
    {
      hide Table, Tracked, Holder, ValidTable;
      var i := Slot(base, count, protect);
      ghost var views := Views();
      InsertAt(i, base, count, protect);
      forall p: nat | p in PageMap()
        ensures AllocationProtect(p) == if base <= p < base + count then protect else old(AllocationProtect(p))
      {
        InsertedDefault(views, i, RegionView(base, count, protect, map[]), p);
      }
    }

    method Slot(base: nat, count: nat, protect: U32) returns (i: nat)
      requires Valid() && count > 0 && CanPlace(base, count)
      ensures i <= |regions|
      ensures var vs' := Views()[..i] + [RegionView(base, count, protect, map[])] + Views()[i..];
        ValidTable(vs') && Table(vs') == AddPages(PageMap(), base, base + count, protect)
    {
      hide Table, AddPages, Tracked;
      ghost var views := Views();
      i := 0;
      while i < |regions| && regions[i].base < base
        invariant 0 <= i <= |regions|
        invariant forall j :: 0 <= j < i ==> views[j].base < base
      {
        assert views[i] == regions[i].View();
        i := i + 1;
      }
      assert i < |regions| ==> views[i] == regions[i].View();
      FreeSpanFits(views, i, RegionView(base, count, protect, map[]));
      InsertRefines(views, i, RegionView(base, count, protect, map[]));
    }

    method InsertAt(i: nat, base: nat, count: nat, protect: U32)
      requires i <= |regions|
      modifies this
      ensures Views() == old(Views())[..i] + [RegionView(base, count, protect, map[])] + old(Views())[i..]
    {
      var region := new Region(base, count, protect);
      ViewsWith(regions, i, region);
      regions := regions[..i] + [region] + regions[i..];
    }

    /** The region leaves the table before munmap answers, so a refused unmap still forgets it. */
    method Free(address: U64, host: Host) returns (ok: bool)
      requires Valid()
      modifies this
      ensures Valid() && (ok, PageMap()) == HostMemoryModel.Free(old(PageMap()), address, host)
    {
      if address % PAGE != 0 { return false; } // every key is a page address
      var found, i := IndexOfBase(address / PAGE);
      if !found { return false; }
      RemoveAt(i);
      ok := host.granted;
    }

    method IndexOfBase(base: nat) returns (found: bool, i: nat)
      requires Valid()
      ensures found ==> i < |regions| && regions[i].base == base
      ensures found <==> base in PageMap() && PageMap()[base].base == base
    {
      ghost var views := Views();
      i := 0;
      while i < |regions|
        invariant 0 <= i <= |regions|
        invariant forall j :: 0 <= j < i ==> views[j].base != base
      {
        assert views[i] == regions[i].View();
        if regions[i].base == base {
          HolderIsUnique(views, i, base);
          return true, i;
        }
        i := i + 1;
      }
      NoRegionAt(views, base);
      found := false;
    }

    method RemoveAt(i: nat)
      requires Valid() && i < |regions|
      modifies this
      ensures Valid() && PageMap() == RemovePages(old(PageMap()), old(regions[i].base))
    {
      ghost var views := Views();
      assert views[i] == regions[i].View();
      RemoveRefines(views, i);
      ViewsWithout(regions, i);
      regions := regions[..i] + regions[i + 1..];
    }

    method Protect(address: U64, size: U64, newProtect: U32, host: Host) returns (r: Outcome<bool>, oldProtect: U32)
      requires Valid()
      modifies regions
      ensures Valid() && (r, PageMap()) == HostMemoryModel.Protect(old(PageMap()), address, size, newProtect, host)
      ensures r == Returned(true) ==>
        address / PAGE in old(PageMap()) && oldProtect == old(PageMap())[address / PAGE].protect
    {
      oldProtect := PAGE_NOACCESS;
      if size == 0 { return Returned(false), oldProtect; }
      var aligned := AlignUp(Wrap64(address as int + size));
      if aligned.Overflow? { return Overflow, oldProtect; }
      var found, index := TryFindRegion(address / PAGE);
      if !found { return Returned(false), oldProtect; }
      var ok;
      ok, oldProtect := ProtectSpan(index, address / PAGE, aligned.value, newProtect, host);
      r := Returned(ok);
    }

    method ProtectSpan(index: nat, start: nat, end: nat, newProtect: U32, host: Host)
      returns (ok: bool, oldProtect: U32)
      requires Valid() && RegionAt(index, start)
      modifies regions
      ensures Valid() && (ok, PageMap()) == HostMemoryModel.ProtectSpan(old(PageMap()), start, end, newProtect, host)
      ensures ok ==> oldProtect == old(PageMap())[start].protect
    {
      ghost var views := Views();
      assert views[index] == regions[index].View();
      OneAllocationIff(views, index, start, end);
      if end > regions[index].base + regions[index].count { return false, PAGE_NOACCESS; }
      oldProtect := ProtectAt(regions[index].View(), start);
      if end < start || (start != end && !host.granted) { return false, oldProtect; }
      SetRangeRefines(views, index, start, end, newProtect);
      EmptyRange(Table(views), views[index].base, start, newProtect);
      SetProtectRange(index, start, end, newProtect);
      ok := true;
    }

    method Query(address: U64) returns (info: BasicInfo)
      requires Valid()
      ensures var page, m := address / PAGE, PageMap();
        && info.baseAddress == page && info.regionSize == QueryEnd(m, page) - page
        && (if page in m then
              && info.state == 0x1000 && info.kind == 0x20000
              && info.allocationBase == m[page].base && info.protect == m[page].protect
              && info.allocationProtect == AllocationProtect(page)
              && IsMaximalRun(m, page, page + info.regionSize)
            else
              && info.state == 0x10000 && info.kind == 0
              && info.allocationBase == 0 && info.protect == 1 == info.allocationProtect)
    {
      hide Table, Tracked, Holder, ValidTable, NextTracked, RunEnd, IsMaximalRun;
      var page := address / PAGE;
      var found, index := TryFindRegion(page);
      if found {
        var region := regions[index];
        var protect, runEnd := RunOf(index, page);
        DefaultAt(index, page);
        info := BasicInfo(page, region.base, region.defaultProtect, runEnd - page, MEM_COMMIT, protect, MEM_PRIVATE);
      } else {
        var end := FreeBlockEnd(page);
        info := BasicInfo(page, 0, PAGE_NOACCESS, end - page, MEM_FREE_STATE, PAGE_NOACCESS, 0);
      }
    }

    /** The default protection of the region that holds a page. */
    ghost function AllocationProtect(page: nat): U32
      requires page in PageMap()
      reads this, regions
    {
      Views()[Holder(Views(), page)].defaultProtect
    }

    lemma DefaultAt(index: nat, page: nat)
      requires Valid() && RegionAt(index, page)
      ensures AllocationProtect(page) == regions[index].defaultProtect
    {
      assert Views()[index] == regions[index].View();
      HolderIsUnique(Views(), index, page);
    }

    method RunOf(index: nat, page: nat) returns (protect: U32, runEnd: nat)
      requires Valid() && RegionAt(index, page)
      ensures runEnd == QueryEnd(PageMap(), page) && protect == PageMap()[page].protect
      ensures IsMaximalRun(PageMap(), page, runEnd)
    {
      hide Table, Tracked, Holder, RunEnd, IsMaximalRun, IsRun;
      ghost var views := Views();
      assert views[index] == regions[index].View();
      protect, runEnd := QueryRun(regions[index], page);
      RunEndIs(views, index, page, runEnd);
      TableWellFormed(views);
      RunEndIsMaximal(Table(views), page);
    }

    /** Untracked memory is a free block that reaches to the next region, or one page when there is none. */
    method FreeBlockEnd(page: nat) returns (end: nat)
      requires Valid() && page !in PageMap()
      ensures end == QueryEnd(PageMap(), page)
    {
      ghost var views := Views();
      for i := 0 to |regions|
        invariant forall j :: 0 <= j < i ==> views[j].base <= page
      {
        assert views[i] == regions[i].View();
        if regions[i].base > page {
          NextTrackedIs(views, i, page);
          return regions[i].base;
        }
      }
      NoneTrackedAbove(views, page);
      end := page + 1;
    }
  }

  /** The run that starts at a page, found from the overrides alone. */
  lemma DefaultOf(vs: seq<RegionView>, j: nat, p: nat)
    requires ValidTable(vs) && j < |vs| && Holds(vs[j], p)
    ensures Tracked(vs, p) && vs[Holder(vs, p)].defaultProtect == vs[j].defaultProtect
  {
    HolderIsUnique(vs, j, p);
  }

  /** The protection an allocation reports: the new region's for its pages, and for the others what it was. */
  lemma InsertedDefault(vs: seq<RegionView>, i: nat, v: RegionView, p: nat)
    requires i <= |vs| && ValidTable(vs) && ValidTable(vs[..i] + [v] + vs[i..])
    requires p in Table(vs[..i] + [v] + vs[i..])
    ensures var vs' := vs[..i] + [v] + vs[i..];
      vs'[Holder(vs', p)].defaultProtect ==
        if Holds(v, p) then v.defaultProtect
        else assert p in Table(vs) by { HeldBefore(vs, i, v, p); } vs[Holder(vs, p)].defaultProtect
  {
    hide ValidTable, Holder;
    var vs' := vs[..i] + [v] + vs[i..];
    if Holds(v, p) {
      assert vs'[i] == v;
      DefaultOf(vs', i, p);
    } else {
      HeldBefore(vs, i, v, p);
      var k := Holder(vs, p);
      var j := if k < i then k else k + 1;
      assert vs'[j] == vs[k];
      DefaultOf(vs', j, p);
    }
  }

  lemma HeldBefore(vs: seq<RegionView>, i: nat, v: RegionView, p: nat)
    requires i <= |vs| && p in Table(vs[..i] + [v] + vs[i..]) && !Holds(v, p)
    ensures p in Table(vs)
  {
    var j := Holder(vs[..i] + [v] + vs[i..], p);
    assert Holds(vs[if j < i then j else j - 1], p);
  }

  method QueryRun(region: Region, page: nat) returns (protect: U32, runEnd: nat)
    requires ValidRegion(region.View()) && Holds(region.View(), page)
    ensures protect == ProtectAt(region.View(), page)
    ensures IsRun(region.View(), page, runEnd)
  {
    var overrides := region.pageProtects;
    var end := region.base + region.count;
    if overrides == map[] {
      return region.defaultProtect, end;
    }
    if page in overrides {
      protect, runEnd := overrides[page], page + 1;
      while runEnd < end && runEnd in overrides && overrides[runEnd] == protect
        invariant page < runEnd <= end
        invariant forall p :: page <= p < runEnd ==> p in overrides && overrides[p] == protect
      {
        runEnd := runEnd + 1;
      }
    } else {
      protect, runEnd := region.defaultProtect, end;
      var keys := overrides.Keys;
      while keys != {}
        invariant keys <= overrides.Keys && page < runEnd <= end
        invariant runEnd == end || runEnd in overrides
        invariant forall k :: k in overrides && k !in keys && k > page ==> runEnd <= k
        decreases keys
      {
        var k :| k in keys;
        keys := keys - {k};
        if k > page && k < runEnd {
          runEnd := k;
        }
      }
    }
  }

  /** [page, end) is the maximal stretch of one protection inside the region. */
  ghost predicate IsRun(v: RegionView, page: nat, end: nat) {
    && page < end <= v.base + v.count
    && (forall p :: page <= p < end ==> ProtectAt(v, p) == ProtectAt(v, page))
    && (end < v.base + v.count ==> ProtectAt(v, end) != ProtectAt(v, page))
  }

  lemma RunEndIs(vs: seq<RegionView>, i: nat, page: nat, end: nat)
    requires ValidTable(vs) && i < |vs| && Holds(vs[i], page) && IsRun(vs[i], page, end)
    ensures RunEnd(Table(vs), page) == end
  {
    forall p | page <= p < end ensures p in Table(vs) && Table(vs)[p] == Table(vs)[page] {
      HolderIsUnique(vs, i, p);
      HolderIsUnique(vs, i, page);
    }
    RunStops(vs, i, page, end);
    MaximalRunIsRunEnd(Table(vs), page, end);
  }

  lemma RunStops(vs: seq<RegionView>, i: nat, page: nat, end: nat)
    requires ValidTable(vs) && i < |vs| && Holds(vs[i], page) && IsRun(vs[i], page, end)
    ensures page in Table(vs) && !(end in Table(vs) && Table(vs)[end] == Table(vs)[page])
  {
    HolderIsUnique(vs, i, page);
    if end in Table(vs) {
      var j := Holder(vs, end);
      if j == i {
        HolderIsUnique(vs, i, end);
      } else {
        BasesDiffer(vs, i, j);
      }
    }
  }

  lemma NoRegionAt(vs: seq<RegionView>, p: nat)
    requires ValidTable(vs) && forall j :: 0 <= j < |vs| ==> vs[j].base != p
    ensures !(p in Table(vs) && Table(vs)[p].base == p)
  {
  }

  predicate SpanMeets(v: RegionView, start: int, end: int) {
    v.base * PAGE < end && start < (v.base + v.count) * PAGE
  }

  lemma ClipRefines(vs: seq<RegionView>, i: nat, start: nat, wanted: nat, end: nat, protect: U32)
    requires ValidTable(vs) && i < |vs| && Holds(vs[i], start) && start < end
    requires end == if wanted < vs[i].base + vs[i].count then wanted else vs[i].base + vs[i].count
    ensures var vs' := vs[i := SetRange(vs[i], start, end, protect)];
      ValidTable(vs') && Table(vs') == SetPages(Table(vs), vs[i].base, start, wanted, protect)
  {
    SetRangeRefines(vs, i, start, end, protect);
    forall p | p in Table(vs) ensures Table(vs)[p].base == vs[i].base ==> p < vs[i].base + vs[i].count {
      PageBelowEnd(vs, i, p);
    }
    SamePages(Table(vs), vs[i].base, start, wanted, end, protect);
  }

  lemma PageBelowEnd(vs: seq<RegionView>, i: nat, p: nat)
    requires ValidTable(vs) && i < |vs| && p in Table(vs)
    ensures Table(vs)[p].base == vs[i].base ==> p < vs[i].base + vs[i].count
  {
    if Holder(vs, p) != i { BasesDiffer(vs, i, Holder(vs, p)); }
  }

  lemma SamePages(m: Plain, base: nat, start: nat, wanted: nat, end: nat, protect: U32)
    requires end <= wanted
    requires forall p :: p in m && m[p].base == base && p < wanted ==> p < end
    ensures SetPages(m, base, start, end, protect) == SetPages(m, base, start, wanted, protect)
  {
  }

  lemma EmptyRange(m: Plain, base: nat, start: nat, protect: U32)
    ensures SetPages(m, base, start, start, protect) == m
  {
  }

  lemma OneAllocationIff(vs: seq<RegionView>, i: nat, start: nat, end: nat)
    requires ValidTable(vs) && i < |vs| && Holds(vs[i], start)
    ensures start < end ==> (OneAllocation(Table(vs), vs[i].base, start, end) <==> end <= vs[i].base + vs[i].count)
  {
    if start < end {
      if end <= vs[i].base + vs[i].count {
        forall p | start <= p < end ensures p in Table(vs) && Table(vs)[p].base == vs[i].base {
          HolderIsUnique(vs, i, p);
        }
      } else if OneAllocation(Table(vs), vs[i].base, start, end) {
        var p := vs[i].base + vs[i].count;
        assert p in Table(vs);
        BasesDiffer(vs, i, Holder(vs, p));
      }
    }
  }

  lemma FreeSpanFits(vs: seq<RegionView>, i: nat, v: RegionView)
    requires ValidTable(vs) && ValidRegion(v) && v.overrides == map[] && i <= |vs|
    requires FreeOf(Table(vs), v.base, v.base + v.count)
    requires forall j :: 0 <= j < i ==> vs[j].base < v.base
    requires i < |vs| ==> v.base <= vs[i].base
    ensures FitsAt(vs, i, v)
  {
    forall j | 0 <= j < i ensures vs[j].base + vs[j].count <= v.base {
      if vs[j].base + vs[j].count > v.base { HolderIsUnique(vs, j, v.base); }
    }
    if i < |vs| && vs[i].base < v.base + v.count { HolderIsUnique(vs, i, vs[i].base); }
  }

  lemma NextTrackedIs(vs: seq<RegionView>, i: nat, page: nat)
    requires ValidTable(vs) && i < |vs| && page !in Table(vs) && page < vs[i].base
    requires forall j :: 0 <= j < i ==> vs[j].base <= page
    ensures NextTracked(Table(vs), page) == vs[i].base
  {
    HolderIsUnique(vs, i, vs[i].base);
    forall p: nat | page < p < vs[i].base ensures p !in Table(vs) { }
  }

  lemma NoneTrackedAbove(vs: seq<RegionView>, page: nat)
    requires ValidTable(vs) && page !in Table(vs)
    requires forall j :: 0 <= j < |vs| ==> vs[j].base <= page
    ensures NextTracked(Table(vs), page) == PAGES
  {
    forall p: nat | page < p ensures p !in Table(vs) { }
  }
}
