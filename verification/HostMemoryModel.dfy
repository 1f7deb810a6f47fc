/** The plain table that the sparse region list stands for: a map from page number to the page
    number of its allocation and its protection, with each host-memory operation a step on it. */
module HostMemoryModel {
  import opened Words

  const MEM_COMMIT: nat := 0x1000
  const MEM_RESERVE: nat := 0x2000
  const PAGES: nat := TWO64 / PAGE

  datatype Option<T> = None | Some(value: T)

  /** A call either returns or overflows in checked arithmetic. */
  datatype Outcome<T> = Returned(value: T) | Overflow

  datatype Cell = Cell(base: nat, protect: U32)

  type Plain = imap<nat, Cell>

  /** Allocations are contiguous from their base and end below the last page. */
  ghost predicate WellFormed(m: Plain) {
    forall p :: p in m ==>
      && m[p].base <= p && p + 1 < PAGES
      && (forall q :: m[p].base <= q <= p ==> q in m && m[q].base == m[p].base)
  }

  /** The number of pages that cover the first x bytes. */
  function Ceil(x: nat): nat {
    (x + PAGE - 1) / PAGE
  }

  /** Checked rounding up of an address, as a page number; it overflows when the address plus one
      page does, even where the rounded result would fit. */
  function AlignUp(x: U64): Outcome<nat> {
    if x + PAGE >= TWO64 then Overflow else Returned(Ceil(x))
  }

  // ---- updates of the plain map ----

  ghost function SetPages(m: Plain, base: nat, start: nat, end: nat, protect: U32): Plain {
    imap p | p in m :: if start <= p < end && m[p].base == base then Cell(base, protect) else m[p]
  }

  ghost function AddPages(m: Plain, base: nat, end: nat, protect: U32): Plain {
    imap p | p in m || base <= p < end :: if base <= p < end then Cell(base, protect) else m[p]
  }

  ghost function RemovePages(m: Plain, base: nat): Plain {
    imap p | p in m && m[p].base != base :: m[p]
  }

  /** All pages of [start, end) belong to one allocation. */
  ghost predicate OneAllocation(m: Plain, base: nat, start: nat, end: nat) {
    forall p :: start <= p < end ==> p in m && m[p].base == base
  }

  ghost predicate FreeOf(m: Plain, start: nat, end: nat) {
    forall p :: start <= p < end ==> p !in m
  }

  /** What the host answers: the page where mmap placed a mapping, and whether it grants a change. */
  datatype Host = Host(mapped: Option<nat>, granted: bool)

  /** mmap hands out whole pages that no tracked region overlaps, below the top of the address space. */
  ghost predicate HostContract(m: Plain, size: U64, host: Host) {
    host.mapped.Some? && AlignUp(size).Returned? ==>
      var base, end := host.mapped.value, host.mapped.value + AlignUp(size).value;
      end < PAGES && FreeOf(m, base, end)
  }

  // ---- the operations ----

  ghost function Alloc(m: Plain, address: U64, size: U64, kind: U32, protect: U32, host: Host): (Outcome<int>, Plain) {
    if size == 0 then (Returned(0), m)
    else if AlignUp(size).Overflow? then (Overflow, m)
    else
      var count := AlignUp(size).value;
      if kind == MEM_COMMIT && address != 0 && address / PAGE in m then Commit(m, address, count * PAGE, protect, host)
      else if BitAnd(kind, MEM_RESERVE) == 0 then (Returned(0), m)
      else Reserve(m, address, count, protect, host)
  }

  /** A mapping at a requested address must land there; one that landed elsewhere is given back. */
  ghost function Reserve(m: Plain, address: U64, count: nat, protect: U32, host: Host): (Outcome<int>, Plain) {
    if address != 0 && Overlaps(m, address, count * PAGE) then (Returned(0), m)
    else if host.mapped.None? || (address != 0 && host.mapped.value * PAGE != address) then (Returned(0), m)
    else (Returned(host.mapped.value * PAGE), AddPages(m, host.mapped.value, host.mapped.value + count, protect))
  }

  /** Some allocation starts below the span's end, computed in 64 bits, and ends above its start. */
  ghost predicate Overlaps(m: Plain, address: U64, length: nat) {
    exists p: nat, q: nat :: SameAllocation(m, p, q) && p * PAGE < Wrap64(address + length) && address < q * PAGE + PAGE
  }

  ghost predicate SameAllocation(m: Plain, p: nat, q: nat) {
    p in m && q in m && m[p].base == m[q].base
  }

  /** Pages up to the rounded end of the rounded request, as far as the allocation goes. */
  ghost function Commit(m: Plain, address: U64, length: nat, protect: U32, host: Host): (Outcome<int>, Plain)
    requires address / PAGE in m
  {
    var start := address / PAGE;
    match AlignUp(Wrap64(address + length))
    case Overflow => (Overflow, m)
    case Returned(end) =>
      if end <= start || !host.granted then (Returned(0), m)
      else (Returned(address), SetPages(m, m[start].base, start, end, protect))
  }

  ghost function Free(m: Plain, address: U64, host: Host): (bool, Plain) {
    var p := address / PAGE;
    if address % PAGE == 0 && p in m && m[p].base == p then (host.granted, RemovePages(m, p)) else (false, m)
  }

  ghost function Protect(m: Plain, address: U64, size: U64, protect: U32, host: Host): (Outcome<bool>, Plain) {
    if size == 0 then (Returned(false), m)
    else
      var start := address / PAGE;
      match AlignUp(Wrap64(address + size))
      case Overflow => (Overflow, m)
      case Returned(end) =>
        if start !in m then (Returned(false), m)
        else var (ok, m') := ProtectSpan(m, start, end, protect, host); (Returned(ok), m')
  }

  /** An empty request succeeds; one whose length wrapped leaves the address space and fails. */
  ghost function ProtectSpan(m: Plain, start: nat, end: nat, protect: U32, host: Host): (bool, Plain)
    requires start in m
  {
    if start == end then (true, m)
    else if end < start || !OneAllocation(m, m[start].base, start, end) || !host.granted then (false, m)
    else (true, SetPages(m, m[start].base, start, end, protect))
  }

  /** The page-by-page walk to the end of the run that shares allocation and protection. */
  ghost function RunEnd(m: Plain, page: nat): (end: nat)
    ensures end > page
    decreases PAGES - page
  {
    if page + 1 < PAGES && page in m && page + 1 in m && m[page + 1] == m[page] then RunEnd(m, page + 1) else page + 1
  }

  // ---- what the steps mean ----

  /** Every page of [page, end) is in the allocation and has the protection of the first, and the page
      at the end does not. */
  ghost predicate IsMaximalRun(m: Plain, page: nat, end: nat)
    requires page in m
  {
    && page < end
    && (forall p :: page <= p < end ==> p in m && m[p] == m[page])
    && !(end in m && m[end] == m[page])
  }

  lemma {:induction false} RunEndIsMaximal(m: Plain, page: nat)
    requires WellFormed(m) && page in m
    ensures IsMaximalRun(m, page, RunEnd(m, page))
    decreases PAGES - page
  {
    if page + 1 in m && m[page + 1] == m[page] {
      RunEndIsMaximal(m, page + 1);
    }
  }

  /** The maximal run is unique: any stretch of equal pages that stops where they differ is the walk's. */
  lemma {:induction false} MaximalRunIsRunEnd(m: Plain, page: nat, end: nat)
    requires page in m && IsMaximalRun(m, page, end) && end < PAGES
    ensures RunEnd(m, page) == end
    decreases end - page
  {
    if page + 1 < end {
      MaximalRunIsRunEnd(m, page + 1, end);
    }
  }

  /** Page p holds a byte of [address, address + size). */
  predicate Requested(address: nat, size: nat, p: nat) {
    address / PAGE <= p && p * PAGE < address + size
  }

  lemma CeilCovers(x: nat, p: nat)
    ensures p < Ceil(x) <==> p * PAGE < x
  {
  }

  /** A successful Protect whose span does not wrap round the address space changes exactly the
      requested pages; one that wraps succeeds only when its end comes back into its own first page,
      and then changes at most that page. */
  lemma ProtectIsExact(m: Plain, address: U64, size: U64, protect: U32, host: Host)
    requires Protect(m, address, size, protect, host).0 == Returned(true)
    ensures var m' := Protect(m, address, size, protect, host).1;
      && m'.Keys == m.Keys
      && forall p :: p in m ==>
           var changed := if address + size < TWO64 then Requested(address, size, p)
                          else p == address / PAGE && p * PAGE < address + size - TWO64;
           m'[p] == if changed then Cell(m[p].base, protect) else m[p]
  {
    var start := address / PAGE;
    var sum := Wrap64(address + size);
    assert sum == if address + size < TWO64 then address + size else address + size - TWO64;
    CeilCovers(sum, start);
    CeilCovers(sum, start + 1);
    forall p: nat ensures p < Ceil(sum) <==> p * PAGE < sum { CeilCovers(sum, p); }
  }

  /** The checked rounding throws, and changes nothing, exactly when the end of the span, which wraps round
      the address space, lies in the last page. */
  lemma ProtectOverflowsIff(m: Plain, address: U64, size: U64, protect: U32, host: Host)
    ensures Protect(m, address, size, protect, host).0 == Overflow
       <==> size > 0 && Wrap64(address + size) / PAGE == PAGES - 1
    ensures Protect(m, address, size, protect, host).0 == Overflow ==> Protect(m, address, size, protect, host).1 == m
  {
    LastPage(Wrap64(address + size));
  }

  lemma LastPage(x: U64)
    ensures AlignUp(x) == Overflow <==> x / PAGE == PAGES - 1
  {
  }

  /** An allocation throws exactly when its size reaches into the last page, or when it commits tracked
      memory and the end of the rounded request does. */
  lemma AllocOverflowsIff(m: Plain, address: U64, size: U64, kind: U32, protect: U32, host: Host)
    ensures Alloc(m, address, size, kind, protect, host).0 == Overflow
       <==> size / PAGE == PAGES - 1
            || (size > 0 && kind == MEM_COMMIT && address != 0 && address / PAGE in m
                && Wrap64(address + Ceil(size) * PAGE) / PAGE == PAGES - 1)
    ensures Alloc(m, address, size, kind, protect, host).0 == Overflow ==>
              Alloc(m, address, size, kind, protect, host).1 == m
  {
    hide Reserve, BitAnd;
    LastPage(size);
    LastPage(Wrap64(address + Ceil(size) * PAGE));
    CommitOverflows(m, address, size, protect, host);
    ReserveReturns(m, address, Ceil(size), protect, host);
  }

  lemma CommitOverflows(m: Plain, address: U64, size: U64, protect: U32, host: Host)
    ensures address / PAGE in m ==>
      (Commit(m, address, Ceil(size) * PAGE, protect, host).0 == Overflow
       <==> AlignUp(Wrap64(address + Ceil(size) * PAGE)) == Overflow)
    ensures address / PAGE in m && Commit(m, address, Ceil(size) * PAGE, protect, host).0 == Overflow ==>
      Commit(m, address, Ceil(size) * PAGE, protect, host).1 == m
  {
    hide AlignUp;
  }

  lemma ReserveReturns(m: Plain, address: U64, count: nat, protect: U32, host: Host)
    ensures Reserve(m, address, count, protect, host).0.Returned?
  {
  }

  /** A release that answers false leaves the map as it was exactly when the address is no region's base or
      the host unmapped the region. */
  lemma RefusedFreeKeepsIff(m: Plain, address: U64, host: Host)
    ensures var p := address / PAGE;
      var (r, m') := Free(m, address, host);
      (!r ==> m' == m) <==> !(address % PAGE == 0 && p in m && m[p].base == p) || host.granted
  {
    var p := address / PAGE;
    if address % PAGE == 0 && p in m && m[p].base == p {
      assert p in m && p !in RemovePages(m, p);
    }
  }

  /** A region whose unmap is refused is forgotten all the same. */
  lemma RefusedFreeForgets()
    ensures var m: Plain := imap[0x10 := Cell(0x10, 1)];
      var (r, m') := Free(m, 0x10000, Host(None, false));
      !r && 0x10 !in m'
  {
  }

  /** A one-page request for the highest page a region can end in is rejected by the checked rounding. */
  lemma ProtectRejectsTopPage(m: Plain, protect: U32, host: Host)
    ensures Protect(m, TWO64 - 2 * PAGE, PAGE, protect, host).0 == Overflow
  {
  }

  /** A successful commit changes exactly the requested pages of the allocation precisely when the
      address is page-aligned, or the rounded size needs no further page than the request does, or
      that further page lies outside the allocation or had the new protection already. */
  lemma CommitIsExactIff(m: Plain, address: U64, size: U64, protect: U32, host: Host)
    requires size > 0 && address != 0 && address / PAGE in m && AlignUp(size).Returned?
    requires Alloc(m, address, size, MEM_COMMIT, protect, host).0 == Returned(address)
    ensures var m' := Alloc(m, address, size, MEM_COMMIT, protect, host).1;
      var base := m[address / PAGE].base;
      var extra := (address + size - 1) / PAGE + 1;
      && m'.Keys == m.Keys
      && ((forall p :: p in m ==>
            m'[p] == if Requested(address, size, p) && m[p].base == base then Cell(base, protect) else m[p])
          <==>
          || address % PAGE == 0
          || address % PAGE + (size - 1) % PAGE >= PAGE
          || extra !in m || m[extra].base != base || m[extra].protect == protect)
  {
    var end := CommitResult(m, address, size, protect, host);
    CommitPages(m, m[address / PAGE].base, address, size, end, protect);
  }

  /** Committing the upper half of the first page of a two-page region changes the second page too. */
  lemma CommitChangesFurtherPage()
    ensures var m: Plain := imap[0x10 := Cell(0x10, 1), 0x11 := Cell(0x10, 1)];
      var (r, m') := Alloc(m, 0x10800, 0x800, MEM_COMMIT, 4, Host(None, true));
      && r == Returned(0x10800) && !Requested(0x10800, 0x800, 0x11)
      && 0x11 in m' && m'[0x11] == Cell(0x10, 4)
  {
    assert AlignUp(0x800) == Returned(1) && AlignUp(0x11800) == Returned(0x12);
  }

  lemma CommitResult(m: Plain, address: U64, size: U64, protect: U32, host: Host) returns (end: nat)
    requires size > 0 && address != 0 && address / PAGE in m && AlignUp(size).Returned?
    requires Alloc(m, address, size, MEM_COMMIT, protect, host).0 == Returned(address)
    ensures Alloc(m, address, size, MEM_COMMIT, protect, host).1 ==
            SetPages(m, m[address / PAGE].base, address / PAGE, end, protect)
    ensures var extra := (address + size - 1) / PAGE + 1;
      end == if address % PAGE == 0 || address % PAGE + (size - 1) % PAGE >= PAGE then extra else extra + 1
  {
    var length := AlignUp(size).value * PAGE;
    if address + length >= TWO64 {
      SameOffsetBelow(address + length - TWO64, address, AlignUp(size).value);
    }
    end := Ceil(address + length);
    CommitEnd(address, size);
  }

  lemma CommitPages(m: Plain, base: nat, address: nat, size: nat, end: nat, protect: U32)
    requires size > 0 && address / PAGE in m && m[address / PAGE].base == base
    requires var extra := (address + size - 1) / PAGE + 1; extra <= end <= extra + 1
    ensures var m' := SetPages(m, base, address / PAGE, end, protect);
      var extra := (address + size - 1) / PAGE + 1;
      (forall p :: p in m ==>
        m'[p] == if Requested(address, size, p) && m[p].base == base then Cell(base, protect) else m[p])
      <==> end == extra || extra !in m || m[extra].base != base || m[extra].protect == protect
  {
    var m' := SetPages(m, base, address / PAGE, end, protect);
    var extra := (address + size - 1) / PAGE + 1;
    CommitEnd(address, size);
    forall p: nat ensures p < extra <==> p * PAGE < address + size { CeilCovers(address + size, p); }
    if end == extra + 1 && extra in m && m[extra].base == base {
      assert m'[extra] == Cell(base, protect) && !Requested(address, size, extra);
    }
  }

  /** Rounding the size before adding it reaches one page further exactly for an unaligned address
      whose request ends before the rounded offset does. */
  lemma CommitEnd(address: nat, size: nat)
    requires 0 < size
    ensures var needed := (address + size - 1) / PAGE + 1;
      && needed == Ceil(address + size)
      && Ceil(address + Ceil(size) * PAGE) ==
         if address % PAGE == 0 || address % PAGE + (size - 1) % PAGE >= PAGE then needed else needed + 1
  {
  }

  lemma SameOffsetBelow(sum: nat, address: nat, count: nat)
    requires sum == address + count * PAGE - TWO64 && count * PAGE < TWO64
    ensures Ceil(sum) <= address / PAGE
  {
  }

  // ---- queries and scans ----

  /** The least tracked page above `page`, or PAGES when there is none. */
  ghost function NextTracked(m: Plain, page: nat): (next: nat)
    ensures next == PAGES || (page < next < PAGES && next in m)
    ensures forall p :: page < p < next && p < PAGES ==> p !in m
    decreases PAGES - page
  {
    if page + 1 >= PAGES then PAGES else if page + 1 in m then page + 1 else NextTracked(m, page + 1)
  }

  /** Where the block that a query of `page` reports ends. */
  ghost function QueryEnd(m: Plain, page: nat): (end: nat)
    ensures end > page
  {
    if page in m then RunEnd(m, page)
    else if NextTracked(m, page) == PAGES then page + 1 else NextTracked(m, page)
  }

  /** The page a scan by reported region size stands at after n queries. */
  ghost function Scan(m: Plain, page: nat, n: nat): nat
    decreases n
  {
    if n == 0 then page else Scan(m, QueryEnd(m, page), n - 1)
  }

  /** Following the queries of a region table, a scan visits the base of every region above it. */
  lemma TableScanVisits(vs: seq<RegionView>, page: nat, i: nat)
    requires ValidTable(vs) && i < |vs| && page <= vs[i].base
    ensures exists n: nat :: Scan(Table(vs), page, n) == vs[i].base
  {
    TableWellFormed(vs);
    HolderIsUnique(vs, i, vs[i].base);
    ScanVisitsEveryRegion(Table(vs), page, vs[i].base);
  }

  /** A scan from any page at or below a region stops at the region's base: no region is skipped. */
  lemma {:induction false} ScanVisitsEveryRegion(m: Plain, page: nat, base: nat)
    requires WellFormed(m) && base in m && m[base].base == base && page <= base
    ensures exists n: nat :: Scan(m, page, n) == base
    decreases base - page
  {
    if page == base {
      assert Scan(m, page, 0) == base;
    } else {
      var end := QueryEnd(m, page);
      assert end <= base by {
        if page in m {
          RunEndIsMaximal(m, page);
        }
      }
      ScanVisitsEveryRegion(m, end, base);
      var n: nat :| Scan(m, end, n) == base;
      assert Scan(m, page, n + 1) == base;
    }
  }

  // ---- the sparse form: regions with a default protection and overrides ----

  datatype RegionView = RegionView(base: nat, count: nat, defaultProtect: U32, overrides: map<nat, U32>)

  predicate Holds(v: RegionView, p: nat) {
    v.base <= p < v.base + v.count
  }

  function ProtectAt(v: RegionView, p: nat): U32 {
    if p in v.overrides then v.overrides[p] else v.defaultProtect
  }

  /** Overrides lie inside the region and differ from its default. */
  predicate ValidRegion(v: RegionView) {
    && v.count > 0 && v.base + v.count < PAGES
    && forall p :: p in v.overrides ==> Holds(v, p) && v.overrides[p] != v.defaultProtect
  }

  predicate ValidTable(vs: seq<RegionView>) {
    && (forall i :: 0 <= i < |vs| ==> ValidRegion(vs[i]))
    && (forall i, j :: 0 <= i < j < |vs| ==> vs[i].base + vs[i].count <= vs[j].base)
  }

  ghost predicate Tracked(vs: seq<RegionView>, p: nat) {
    exists i :: 0 <= i < |vs| && Holds(vs[i], p)
  }

  ghost function Holder(vs: seq<RegionView>, p: nat): (i: nat)
    requires Tracked(vs, p)
    ensures i < |vs| && Holds(vs[i], p)
  {
    var i :| 0 <= i < |vs| && Holds(vs[i], p);
    i
  }

  /** The plain map a region table stands for. */
  ghost function Table(vs: seq<RegionView>): Plain {
    imap p: nat | Tracked(vs, p) :: Cell(vs[Holder(vs, p)].base, ProtectAt(vs[Holder(vs, p)], p))
  }

  lemma HolderIsUnique(vs: seq<RegionView>, i: nat, p: nat)
    requires ValidTable(vs) && i < |vs| && Holds(vs[i], p)
    ensures p in Table(vs) && Holder(vs, p) == i && Table(vs)[p] == Cell(vs[i].base, ProtectAt(vs[i], p))
  {
  }

  lemma TableWellFormed(vs: seq<RegionView>)
    requires ValidTable(vs)
    ensures WellFormed(Table(vs))
  {
    var m := Table(vs);
    forall p, q | p in m && m[p].base <= q <= p ensures q in m && m[q].base == m[p].base {
      HolderIsUnique(vs, Holder(vs, p), q);
    }
  }

  /** Pages [start, p) overridden one by one: an override equal to the default is removed. */
  function Override(overrides: map<nat, U32>, start: nat, end: nat, protect: U32,
      defaultProtect: U32): (r: map<nat, U32>)
    requires start <= end
    ensures forall p :: p in r <==> if start <= p < end then protect != defaultProtect else p in overrides
    ensures forall p :: p in r ==> r[p] == if start <= p < end then protect else overrides[p]
    decreases end - start
  {
    if start == end then overrides
    else
      var o := Override(overrides, start, end - 1, protect, defaultProtect);
      if protect == defaultProtect then o - {end - 1} else o[end - 1 := protect]
  }

  function SetRange(v: RegionView, start: nat, end: nat, protect: U32): RegionView
    requires start <= end
  {
    if start == v.base && end - start >= v.count then v.(defaultProtect := protect, overrides := map[])
    else v.(overrides := Override(v.overrides, start, end, protect, v.defaultProtect))
  }

  /** The protection reported for the allocation stays what it was exactly when the change does not
      cover the whole region or sets that protection. */
  lemma AllocationProtectKeptIff(v: RegionView, start: nat, end: nat, protect: U32)
    requires ValidRegion(v) && v.base <= start <= end <= v.base + v.count
    ensures SetRange(v, start, end, protect).defaultProtect == v.defaultProtect
       <==> (forall p: nat :: Holds(v, p) ==> start <= p < end) ==> protect == v.defaultProtect
  {
    if start == v.base && end - start >= v.count {
    } else {
      assert Holds(v, v.base) && Holds(v, v.base + v.count - 1);
    }
  }

  /** Protecting a one-page region anew changes the protection reported for its allocation. */
  lemma AllocationProtectChanges()
    ensures var v := RegionView(0x10, 1, 1, map[]);
      ValidRegion(v) && SetRange(v, 0x10, 0x11, 4).defaultProtect == 4
  {
  }

  function RegionCell(v: RegionView, p: nat): Cell {
    Cell(v.base, ProtectAt(v, p))
  }

  ghost predicate AgreesAt(vs: seq<RegionView>, m: Plain, j: nat, p: nat)
    requires j < |vs|
  {
    Holds(vs[j], p) ==> p in m && m[p] == RegionCell(vs[j], p)
  }

  /** A plain map that agrees with every region and tracks nothing else is the table's. */
  lemma TableIs(vs: seq<RegionView>, m: Plain)
    requires forall p :: p in m ==> Tracked(vs, p)
    requires forall j, p: nat :: 0 <= j < |vs| ==> AgreesAt(vs, m, j, p)
    ensures Table(vs) == m
  {
    forall p: nat ensures p in Table(vs) <==> p in m {
      if Tracked(vs, p) { assert AgreesAt(vs, m, Holder(vs, p), p); }
    }
    forall p | p in m ensures Table(vs)[p] == m[p] {
      assert AgreesAt(vs, m, Holder(vs, p), p);
    }
  }

  lemma SetRangeCells(v: RegionView, start: nat, end: nat, protect: U32)
    requires ValidRegion(v) && v.base <= start <= end <= v.base + v.count
    ensures var v' := SetRange(v, start, end, protect);
      && ValidRegion(v') && v'.base == v.base && v'.count == v.count
      && forall p: nat :: Holds(v, p) ==>
           RegionCell(v', p) == if start <= p < end then Cell(v.base, protect) else RegionCell(v, p)
  {
  }

  lemma BasesDiffer(vs: seq<RegionView>, i: nat, j: nat)
    requires ValidTable(vs) && i < |vs| && j < |vs| && i != j
    ensures vs[i].base != vs[j].base
  {
  }

  /** Changing a range of one region changes exactly those pages of the plain map, and keeps the
      overrides sparse. */
  lemma SetRangeRefines(vs: seq<RegionView>, i: nat, start: nat, end: nat, protect: U32)
    requires ValidTable(vs) && i < |vs| && vs[i].base <= start <= end <= vs[i].base + vs[i].count
    ensures var vs' := vs[i := SetRange(vs[i], start, end, protect)];
      ValidTable(vs') && Table(vs') == SetPages(Table(vs), vs[i].base, start, end, protect)
  {
    var vs' := vs[i := SetRange(vs[i], start, end, protect)];
    SetRangeCells(vs[i], start, end, protect);
    forall p | Tracked(vs, p) ensures Tracked(vs', p) {
      assert Holds(vs'[Holder(vs, p)], p);
    }
    var m' := SetPages(Table(vs), vs[i].base, start, end, protect);
    forall j, p: nat | 0 <= j < |vs'| ensures AgreesAt(vs', m', j, p) {
      if Holds(vs'[j], p) { SetRangeCell(vs, i, start, end, protect, j, p); }
    }
    TableIs(vs', m');
  }

  lemma SetRangeCell(vs: seq<RegionView>, i: nat, start: nat, end: nat, protect: U32, j: nat, p: nat)
    requires ValidTable(vs) && i < |vs| && j < |vs| && vs[i].base <= start <= end <= vs[i].base + vs[i].count
    requires Holds(vs[i := SetRange(vs[i], start, end, protect)][j], p)
    ensures p in Table(vs)
    ensures SetPages(Table(vs), vs[i].base, start, end, protect)[p] ==
            RegionCell(vs[i := SetRange(vs[i], start, end, protect)][j], p)
  {
    SetRangeCells(vs[i], start, end, protect);
    HolderIsUnique(vs, j, p);
    if j != i { BasesDiffer(vs, i, j); }
  }

  ghost predicate FitsAt(vs: seq<RegionView>, i: nat, v: RegionView) {
    && i <= |vs| && ValidRegion(v) && v.overrides == map[]
    && (forall j :: 0 <= j < i ==> vs[j].base + vs[j].count <= v.base)
    && (forall j :: i <= j < |vs| ==> v.base + v.count <= vs[j].base)
  }

  lemma InsertValid(vs: seq<RegionView>, i: nat, v: RegionView)
    requires ValidTable(vs) && FitsAt(vs, i, v)
    ensures ValidTable(vs[..i] + [v] + vs[i..])
  {
  }

  lemma InsertTracks(vs: seq<RegionView>, i: nat, v: RegionView, p: nat)
    requires i <= |vs| && (Tracked(vs, p) || Holds(v, p))
    ensures Tracked(vs[..i] + [v] + vs[i..], p)
  {
    var vs' := vs[..i] + [v] + vs[i..];
    if Holds(v, p) {
      assert Holds(vs'[i], p);
    } else {
      var k := Holder(vs, p);
      assert Holds(vs'[if k < i then k else k + 1], p);
    }
  }

  lemma InsertedCell(vs: seq<RegionView>, i: nat, v: RegionView, j: nat, p: nat)
    requires ValidTable(vs) && FitsAt(vs, i, v) && j <= |vs| && Holds((vs[..i] + [v] + vs[i..])[j], p)
    ensures var m' := AddPages(Table(vs), v.base, v.base + v.count, v.defaultProtect);
      p in m' && m'[p] == RegionCell((vs[..i] + [v] + vs[i..])[j], p)
  {
    if j != i {
      var k := if j < i then j else j - 1;
      assert (vs[..i] + [v] + vs[i..])[j] == vs[k];
      HolderIsUnique(vs, k, p);
    }
  }

  lemma InsertRefines(vs: seq<RegionView>, i: nat, v: RegionView)
    requires ValidTable(vs) && FitsAt(vs, i, v)
    ensures var vs' := vs[..i] + [v] + vs[i..];
      ValidTable(vs') && Table(vs') == AddPages(Table(vs), v.base, v.base + v.count, v.defaultProtect)
  {
    var vs' := vs[..i] + [v] + vs[i..];
    var m' := AddPages(Table(vs), v.base, v.base + v.count, v.defaultProtect);
    InsertValid(vs, i, v);
    forall p | p in m' ensures Tracked(vs', p) {
      InsertTracks(vs, i, v, p);
    }
    forall j, p: nat | 0 <= j < |vs'| ensures AgreesAt(vs', m', j, p) {
      if Holds(vs'[j], p) { InsertedCell(vs, i, v, j, p); }
    }
    TableIs(vs', m');
  }

  lemma RemoveValid(vs: seq<RegionView>, i: nat)
    requires ValidTable(vs) && i < |vs|
    ensures ValidTable(vs[..i] + vs[i + 1..])
  {
  }

  lemma RemoveTracks(vs: seq<RegionView>, i: nat, p: nat)
    requires i < |vs| && Tracked(vs, p) && Table(vs)[p].base != vs[i].base
    ensures Tracked(vs[..i] + vs[i + 1..], p)
  {
    var k := Holder(vs, p);
    assert Holds((vs[..i] + vs[i + 1..])[if k < i then k else k - 1], p);
  }

  lemma RemainingCell(vs: seq<RegionView>, i: nat, j: nat, p: nat)
    requires ValidTable(vs) && i < |vs| && j < |vs| - 1 && Holds((vs[..i] + vs[i + 1..])[j], p)
    ensures var m' := RemovePages(Table(vs), vs[i].base);
      p in m' && m'[p] == RegionCell((vs[..i] + vs[i + 1..])[j], p)
  {
    var k := if j < i then j else j + 1;
    assert (vs[..i] + vs[i + 1..])[j] == vs[k];
    HolderIsUnique(vs, k, p);
    BasesDiffer(vs, i, k);
  }

  lemma RemoveRefines(vs: seq<RegionView>, i: nat)
    requires ValidTable(vs) && i < |vs|
    ensures var vs' := vs[..i] + vs[i + 1..];
      ValidTable(vs') && Table(vs') == RemovePages(Table(vs), vs[i].base)
  {
    var vs' := vs[..i] + vs[i + 1..];
    var m' := RemovePages(Table(vs), vs[i].base);
    RemoveValid(vs, i);
    forall p | p in m' ensures Tracked(vs', p) {
      RemoveTracks(vs, i, p);
    }
    forall j, p: nat | 0 <= j < |vs'| ensures AgreesAt(vs', m', j, p) {
      if Holds(vs'[j], p) { RemainingCell(vs, i, j, p); }
    }
    TableIs(vs', m');
  }
}
