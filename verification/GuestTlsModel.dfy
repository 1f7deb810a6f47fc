/** Per-thread dynamic thread vectors over the registered templates: seeding a thread's static
    blocks, resolving addresses with lazily created blocks, and the host allocations behind both.
    The host heap and guest memory are disjoint; thread vectors are records replaced in their map. */
module GuestTlsModel {
  import opened Words
  import opened GuestTlsLayout
  import opened LittleEndian

  // ---- bytes ----

  type Bytes = map<nat, U8>

  function Read(m: Bytes, a: nat, n: nat): (r: seq<U8>)
    ensures |r| == n
  {
    seq(n, i requires 0 <= i < n => if a + i in m then m[a + i] else 0)
  }

  predicate Within(x: nat, a: nat, n: nat) {
    a <= x < a + n
  }

  function Write(m: Bytes, a: nat, bytes: seq<U8>): Bytes {
    m + map x: nat | x < a + |bytes| && Within(x, a, |bytes|) :: bytes[x - a]
  }

  function Zeros(n: nat): (r: seq<U8>)
    ensures |r| == n && forall i :: 0 <= i < n ==> r[i] == 0
  {
    seq(n, i => 0)
  }

  /** A template's block: its initial image followed by zeros. */
  function Image(m: Module): (r: seq<U8>)
    requires |m.image| <= m.memorySize
    ensures |r| == m.memorySize
  {
    m.image + Zeros(m.memorySize - |m.image|)
  }

  lemma ZeroThenImage(memory: Bytes, a: nat, m: Module)
    requires |m.image| <= m.memorySize
    ensures Read(Write(Write(memory, a, Zeros(m.memorySize)), a, m.image), a, m.memorySize) == Image(m)
  {
    var after := Write(Write(memory, a, Zeros(m.memorySize)), a, m.image);
    forall i | 0 <= i < m.memorySize ensures Read(after, a, m.memorySize)[i] == Image(m)[i] {
      assert a + i in after;
    }
  }

  // ---- the host heap ----

  /** How the host answers requests for memory: in any way, or with one address above the other. */
  datatype Supply = Any | Rising(next: nat)

  /** Template blocks are kept as bytes, guest-visible tables as 64-bit words at their addresses. */
  datatype Heap = Heap(bytes: Bytes, words: map<nat, U64>, live: map<nat, nat>, supply: Supply)

  function WordAt(words: map<nat, U64>, a: nat): U64 {
    if a in words then words[a] else 0
  }

  /** Live blocks are disjoint, and none starts at null. */
  ghost predicate WellHeap(h: Heap) {
    && (forall b :: b in h.live ==> 0 < b && b + h.live[b] < TWO64)
    && (forall b, c :: b in h.live && c in h.live && b != c ==> b + h.live[b] <= c || c + h.live[c] <= b)
  }

  ghost predicate Unused(h: Heap, base: nat, size: nat) {
    && 0 < base && base + size < TWO64 && base !in h.live
    && forall b :: b in h.live ==> b + h.live[b] <= base || base + size <= b
  }

  /** All live blocks lie below the next address the host will answer with. */
  ghost predicate Rises(h: Heap) {
    h.supply.Rising? && 0 < h.supply.next &&
    forall b :: b in h.live ==> b < h.supply.next && b + h.live[b] <= h.supply.next
  }

  /** A host that answers with rising addresses has gone up by at most n. */
  ghost predicate Spent(h: Heap, h': Heap, n: nat) {
    Rises(h) ==> Rises(h') && h'.supply.next <= h.supply.next + n
  }

  /** Requests for n bytes in all cannot be refused. */
  ghost predicate Ample(h: Heap, n: nat) {
    Rises(h) && n <= INT_MAX && h.supply.next + n < TWO64
  }

  lemma SpentTwice(h: Heap, h1: Heap, h2: Heap, n: nat, k: nat)
    requires Spent(h, h1, n) && Spent(h1, h2, k)
    ensures Spent(h, h2, n + k) && (Ample(h, n + k) ==> Ample(h, n) && Ample(h1, k))
  {
  }

  lemma FreeingSpendsNothing(h: Heap, blocks: set<nat>)
    ensures Spent(h, h.(live := h.live - blocks), 0)
  {
  }

  /** Whether a block can be placed at an address. */
  method Fits(h: Heap, base: nat, size: nat) returns (fits: bool)
    ensures fits <==> Unused(h, base, size)
  {
    fits := 0 < base && base + size < TWO64 && base !in h.live;
    var remaining := h.live.Keys;
    while remaining != {} && fits
      invariant remaining <= h.live.Keys
      invariant fits ==> 0 < base && base + size < TWO64 && base !in h.live
      invariant fits ==> forall b :: b in h.live && b !in remaining ==> b + h.live[b] <= base || base + size <= b
      invariant !fits ==> !Unused(h, base, size)
      decreases remaining
    {
      var b: nat :| b in remaining;
      remaining := remaining - {b};
      fits := b + h.live[b] <= base || base + size <= b;
    }
  }

  /** Any unused block, or failure. */
  method AllocHGlobal(h: Heap, size: nat) returns (ok: bool, h': Heap, base: nat)
    requires WellHeap(h) && size > 0
    ensures WellHeap(h')
    ensures !ok ==> h' == h
    ensures ok ==> Unused(h, base, size) && h' == h.(live := h.live[base := size], supply := h'.supply)
    ensures Spent(h, h', size) && (Ample(h, size) ==> ok)
  {
    if h.supply.Rising? { base := h.supply.next; } else { base := *; }
    ok := Fits(h, base, size);
    var supply := if h.supply.Rising? then Rising(base + size) else Any;
    h' := if ok then h.(live := h.live[base := size], supply := supply) else h;
  }

  // ---- thread vectors ----

  datatype DtvEntry = DtvEntry(address: U64, allocationBase: nat)

  datatype ThreadDtv = ThreadDtv(generation: nat, entries: map<U64, DtvEntry>, tableBase: nat)

  datatype DtvError = TooLarge | OutOfMemory | InstallFailed

  /** A template whose block size cannot be computed in 64 bits. */
  predicate TooWide(m: Module) {
    (if m.memorySize > 1 then m.memorySize else 1) + m.alignment >= TWO64
  }

  predicate BlockRefused(m: Module, error: DtvError) {
    error == OutOfMemory || (error == TooLarge && TooWide(m))
  }

  predicate TableRefused(maximum: nat, error: DtvError) {
    error == OutOfMemory || (error == TooLarge && 16 + 8 * maximum >= TWO64)
  }

  datatype Answer<T> = Done(value: T) | Failed(error: DtvError)

  /** Which thread-vector slot a live host block belongs to. */
  datatype Owner = EntryOf(tp: U64, id: U64) | TableOf(tp: U64)

  /** What a thread's guest-visible table was built from. */
  datatype Table = Table(maximum: nat, installed: set<U64>)

  function MaximumId(modules: map<U64, Module>): (r: nat)
    ensures forall id :: id in modules ==> id <= r
    ensures r < TWO64 && (r == 0 || r in modules)
  {
    LeastBound(modules.Keys, TWO64 - 1)
  }

  /** The greatest id, searched downwards from a bound; 0 when there is none. */
  function LeastBound(ids: set<U64>, bound: nat): (r: nat)
    requires bound < TWO64 && forall id :: id in ids ==> id <= bound
    ensures r <= bound && (r == 0 || r in ids)
    ensures forall id :: id in ids ==> id <= r
  {
    if bound == 0 || bound in ids then bound else LeastBound(ids, bound - 1)
  }

  function Slot(id: nat): nat
    requires id > 0
  {
    16 + 8 * (id - 1)
  }

  // ---- invariants ----

  /** Every live host block is held by exactly one slot of one thread vector. */
  ghost predicate Accounted(dtvs: map<U64, ThreadDtv>, h: Heap, owner: map<nat, Owner>) {
    && owner.Keys == h.live.Keys
    && (forall b :: b in owner ==> HeldBy(dtvs, b, owner[b]))
    && (forall tp, id :: HasBlock(dtvs, tp, id) ==> Owns(owner, dtvs[tp].entries[id].allocationBase, EntryOf(tp, id)))
    && (forall tp :: HasTable(dtvs, tp) ==> Owns(owner, dtvs[tp].tableBase, TableOf(tp)))
  }

  predicate HasBlock(dtvs: map<U64, ThreadDtv>, tp: U64, id: U64) {
    tp in dtvs && id in dtvs[tp].entries && dtvs[tp].entries[id].allocationBase != 0
  }

  predicate HasTable(dtvs: map<U64, ThreadDtv>, tp: U64) {
    tp in dtvs && dtvs[tp].tableBase != 0
  }

  predicate Owns(owner: map<nat, Owner>, b: nat, o: Owner) {
    b in owner && owner[b] == o
  }

  predicate HeldBy(dtvs: map<U64, ThreadDtv>, b: nat, o: Owner) {
    b != 0 && o.tp in dtvs &&
    match o
    case EntryOf(tp, id) => id in dtvs[tp].entries && dtvs[tp].entries[id].allocationBase == b
    case TableOf(tp) => dtvs[tp].tableBase == b
  }

  predicate HasEntry(dtvs: map<U64, ThreadDtv>, tp: U64, id: U64) {
    tp in dtvs && id in dtvs[tp].entries
  }

  predicate EntryKnown(modules: map<U64, Module>, id: U64, e: DtvEntry) {
    && id in modules && e.address + modules[id].memorySize < TWO64
    && (e.allocationBase != 0 ==> e.address > 0)
  }

  ghost predicate EntriesKnown(modules: map<U64, Module>, dtvs: map<U64, ThreadDtv>) {
    forall tp, id :: HasEntry(dtvs, tp, id) ==> EntryKnown(modules, id, dtvs[tp].entries[id])
  }

  /** A table's words: generation, slot count, and a slot per id that is zero unless installed. */
  ghost predicate TableHolds(h: Heap, dtv: ThreadDtv, t: Table) {
    && dtv.tableBase in h.live && h.live[dtv.tableBase] >= 16 + 8 * t.maximum && t.maximum < TWO64
    && WordAt(h.words, dtv.tableBase) == Wrap64(dtv.generation)
    && WordAt(h.words, dtv.tableBase + 8) == t.maximum
    && (forall id :: id in t.installed ==> 0 < id <= t.maximum && id in dtv.entries)
    && (forall id: U64 :: 0 < id <= t.maximum ==> SlotIs(h.words, dtv.tableBase, dtv.entries, t.installed, id))
  }

  predicate SlotIs(words: map<nat, U64>, base: nat, entries: map<U64, DtvEntry>, installed: set<U64>, id: U64)
    requires id > 0
  {
    WordAt(words, base + Slot(id)) == if id in installed && id in entries then entries[id].address else 0
  }

  /** A thread's table is the one last built for it; entries it lacks were created lazily. */
  ghost predicate TableCurrent(r: Registry, dtv: ThreadDtv, h: Heap, t: Table) {
    && TableHolds(h, dtv, t) && dtv.generation <= r.generation
    && (dtv.generation == r.generation ==> t.maximum == MaximumId(r.modules))
    && (forall id :: id in dtv.entries && id !in t.installed ==> dtv.entries[id].allocationBase != 0)
  }

  ghost predicate TablesHold(r: Registry, dtvs: map<U64, ThreadDtv>, h: Heap, tables: map<U64, Table>) {
    forall tp :: tp in dtvs ==> TableOk(r, dtvs[tp], h, tables, tp)
  }

  ghost predicate TableOk(r: Registry, dtv: ThreadDtv, h: Heap, tables: map<U64, Table>, tp: U64) {
    if dtv.tableBase == 0 then dtv.generation == 0 else tp in tables && TableCurrent(r, dtv, h, tables[tp])
  }

  ghost predicate ModulesSized(modules: map<U64, Module>) {
    forall id :: id in modules ==> id != 0 && |modules[id].image| <= modules[id].memorySize <= INT_MAX
  }

  ghost predicate Inv(r: Registry, dtvs: map<U64, ThreadDtv>, h: Heap, owner: map<nat, Owner>,
      tables: map<U64, Table>) {
    && ModulesSized(r.modules) && (r.modules != map[] ==> r.generation > 0) && WellHeap(h)
    && Accounted(dtvs, h, owner) && EntriesKnown(r.modules, dtvs) && TablesHold(r, dtvs, h, tables)
  }

  // ---- frames ----

  /** The bytes of every block other than [a, a + n) are the same. */
  ghost predicate SameOutside(m: Bytes, m': Bytes, a: nat, n: nat) {
    forall x: nat :: !Within(x, a, n) ==> (x in m <==> x in m') && (x in m ==> m'[x] == m[x])
  }

  lemma ReadOutside(m: Bytes, m': Bytes, a: nat, n: nat, b: nat, k: nat)
    requires SameOutside(m, m', a, n) && (b + k <= a || a + n <= b)
    ensures Read(m', b, k) == Read(m, b, k)
  {
    forall i | 0 <= i < k ensures Read(m', b, k)[i] == Read(m, b, k)[i] {
      assert !Within(b + i, a, n);
    }
  }

  /** The words of every block other than [a, a + n) are the same. */
  ghost predicate SameWordsOutside(w: map<nat, U64>, w': map<nat, U64>, a: nat, n: nat) {
    forall x: nat :: !Within(x, a, n) ==> WordAt(w', x) == WordAt(w, x)
  }

  /** Tables survive any change of the heap that keeps their blocks and words. */
  lemma TableSurvives(h: Heap, h': Heap, a: nat, n: nat, dtv: ThreadDtv, t: Table)
    requires TableHolds(h, dtv, t) && SameWordsOutside(h.words, h'.words, a, n)
    requires dtv.tableBase in h'.live && h'.live[dtv.tableBase] == h.live[dtv.tableBase]
    requires dtv.tableBase + h.live[dtv.tableBase] <= a || a + n <= dtv.tableBase
    ensures TableHolds(h', dtv, t)
  {
    assert !Within(dtv.tableBase, a, n) && !Within(dtv.tableBase + 8, a, n);
    forall id: U64 | 0 < id <= t.maximum ensures SlotIs(h'.words, dtv.tableBase, dtv.entries, t.installed, id) {
      assert SlotIs(h.words, dtv.tableBase, dtv.entries, t.installed, id);
      assert !Within(dtv.tableBase + Slot(id), a, n);
    }
  }

  /** The entry's block is a new live block that holds the template's image. */
  ghost predicate DynamicBlock(h: Heap, h': Heap, m: Module, e: DtvEntry)
    requires |m.image| <= m.memorySize
  {
    && e.allocationBase in h'.live && NewBlock(h, h', e.allocationBase, h'.live[e.allocationBase])
    && HoldsImage(h', m, e)
  }

  /** The entry's host block is live and reads as the template's image. */
  ghost predicate HoldsImage(h: Heap, m: Module, e: DtvEntry)
    requires |m.image| <= m.memorySize
  {
    && e.allocationBase in h.live && 0 < e.allocationBase <= e.address
    && e.address + m.memorySize <= e.allocationBase + h.live[e.allocationBase]
    && Read(h.bytes, e.address, m.memorySize) == Image(m)
  }

  /** h' has one more live block, and no byte outside it has changed. */
  ghost predicate NewBlock(h: Heap, h': Heap, base: nat, n: nat) {
    && Unused(h, base, n) && h'.live == h.live[base := n]
    && SameOutside(h.bytes, h'.bytes, base, n) && SameWordsOutside(h.words, h'.words, base, n)
  }

  // ---- operations on the heap ----

  /** A fresh block large enough to hold size bytes from its first aligned address on. */
  method AllocAligned(h: Heap, size: nat, alignment: nat) returns (ok: bool, h': Heap, base: nat, aligned: U64)
    requires WellHeap(h) && IsPow2(alignment) && size > 0
    ensures WellHeap(h')
    ensures !ok ==> h' == h
    ensures ok ==> Unused(h, base, size + alignment - 1)
    ensures ok ==> h' == h.(live := h.live[base := size + alignment - 1], supply := h'.supply)
    ensures Spent(h, h', size + alignment - 1) && (Ample(h, size + alignment - 1) ==> ok)
    ensures ok ==> base <= aligned && aligned + size < base + size + alignment && aligned % alignment == 0
  {
    hide Unused, BitAnd, BitNot, Spent, Ample, WellHeap;
    ok, h', base := AllocHGlobal(h, size + alignment - 1);
    if !ok { return false, h', base, 0; }
    AlignUpBounds(base, alignment);
    AlignUpIsMask(base, alignment);
    aligned := BitAnd(base + alignment - 1, BitNot(alignment - 1, 64));
  }

  /** What a module's host block takes. */
  function BlockSize(m: Module): nat {
    (if m.memorySize > 1 then m.memorySize else 1) + m.alignment
  }

  function TableSize(maximum: nat): nat {
    16 + 8 * maximum
  }

  /** A zeroed, aligned block in fresh host memory, with the template's image in front. */
  method CreateDynamicBlock(h: Heap, m: Module) returns (r: Answer<DtvEntry>, h': Heap)
    requires WellHeap(h) && IsPow2(m.alignment) && |m.image| <= m.memorySize <= INT_MAX
    ensures WellHeap(h')
    ensures r.Failed? ==> h' == h && BlockRefused(m, r.error)
    ensures r.Done? ==> r.value.address % m.alignment == 0 && DynamicBlock(h, h', m, r.value)
    ensures Spent(h, h', BlockSize(m)) && (r == Failed(OutOfMemory) ==> !Ample(h, BlockSize(m)))
  {
    var size: nat := if m.memorySize > 1 then m.memorySize else 1;
    if size + m.alignment >= TWO64 { return Failed(TooLarge), h; }
    var allocationSize: nat := size + m.alignment - 1;
    if allocationSize > INT_MAX { return Failed(OutOfMemory), h; }
    var ok, h1, base, aligned := AllocAligned(h, size, m.alignment);
    if !ok { return Failed(OutOfMemory), h; }
    FillBlock(h.bytes, aligned, size, m);
    var bytes := Write(Write(h.bytes, aligned, Zeros(size)), aligned, m.image);
    SameOutsideWider(h.bytes, bytes, aligned, size, base, allocationSize);
    h' := Heap(bytes, h.words, h1.live, h1.supply);
    r := Done(DtvEntry(aligned, base));
  }

  lemma FillBlock(memory: Bytes, a: nat, size: nat, m: Module)
    requires |m.image| <= m.memorySize <= size && (m.memorySize > 0 ==> size == m.memorySize)
    ensures var after := Write(Write(memory, a, Zeros(size)), a, m.image);
      SameOutside(memory, after, a, size) && Read(after, a, m.memorySize) == Image(m)
  {
    if m.memorySize > 0 {
      ZeroThenImage(memory, a, m);
    }
  }

  lemma SameOutsideWider(m: Bytes, m': Bytes, a: nat, n: nat, b: nat, k: nat)
    requires SameOutside(m, m', a, n) && b <= a && a + n <= b + k
    ensures SameOutside(m, m', b, k)
  {
    forall x: nat | !Within(x, b, k) ensures (x in m <==> x in m') && (x in m ==> m'[x] == m[x]) {
      assert !Within(x, a, n);
    }
  }

  /** Rounding up with a mask, for a power of two, is cutting the remainder off. */
  lemma AlignUpIsMask(value: nat, a: nat)
    requires IsPow2(a) && value + a - 1 < TWO64
    ensures a - 1 < Pow2(64) && BitAnd(value + a - 1, BitNot(a - 1, 64)) == value + a - 1 - (value + a - 1) % a
  {
    hide BitAnd, BitNot;
    assert value + a - 1 < Pow2(64) by { Pow2Known(); }
    ClearLowBits(value + a - 1, Log2(a), 64);
  }

  lemma AlignUpBounds(base: nat, a: nat)
    requires a > 0
    ensures var x := base + a - 1; base <= x - x % a < base + a && (x - x % a) % a == 0
  {
    CutRemainder(base + a - 1, a);
  }

  /** A fresh zeroed table with the generation, the slot count, and a slot per entry. */
  method BuildTable(h: Heap, entries: map<U64, DtvEntry>, generation: nat, maximum: nat)
    returns (r: Answer<nat>, h': Heap)
    requires WellHeap(h) && maximum < TWO64 && forall id :: id in entries ==> 0 < id <= maximum
    ensures WellHeap(h')
    ensures r.Failed? ==> h' == h && TableRefused(maximum, r.error)
    ensures r.Done? ==> NewBlock(h, h', r.value, 16 + 8 * maximum) && h'.bytes == h.bytes
    ensures r.Done? ==> TableHolds(h', ThreadDtv(generation, entries, r.value), Table(maximum, entries.Keys))
    ensures Spent(h, h', TableSize(maximum)) && (r == Failed(OutOfMemory) ==> !Ample(h, TableSize(maximum)))
  {
    var byteSize := 16 + 8 * maximum;
    if byteSize >= TWO64 { return Failed(TooLarge), h; }
    if byteSize > INT_MAX { return Failed(OutOfMemory), h; }
    var ok, h1, base := AllocHGlobal(h, byteSize);
    if !ok { return Failed(OutOfMemory), h; }
    var words := FillTable(h.words, base, entries, generation, maximum);
    h' := Heap(h.bytes, words, h1.live, h1.supply);
    r := Done(base);
  }

  /** Clears the block's words, then writes the two header words and one slot per entry. */
  method FillTable(before: map<nat, U64>, base: nat, entries: map<U64, DtvEntry>, generation: nat, maximum: nat)
    returns (words: map<nat, U64>)
    requires maximum < TWO64 && forall id :: id in entries ==> 0 < id <= maximum
    ensures SameWordsOutside(before, words, base, 16 + 8 * maximum)
    ensures WordAt(words, base) == Wrap64(generation) && WordAt(words, base + 8) == maximum
    ensures forall id: U64 :: 0 < id <= maximum ==> SlotIs(words, base, entries, entries.Keys, id)
  {
    var size := 16 + 8 * maximum;
    words := (map x | x in before
              && !Within(x, base, size) :: before[x])[base := Wrap64(generation)][base + 8 := maximum];
    var remaining := entries.Keys;
    ghost var done: set<U64> := {};
    while remaining != {}
      invariant remaining + done == entries.Keys
      invariant SameWordsOutside(before, words, base, size)
      invariant WordAt(words, base) == Wrap64(generation) && WordAt(words, base + 8) == maximum
      invariant forall id: U64 :: 0 < id <= maximum ==> SlotIs(words, base, entries, done, id)
      decreases remaining
    {
      var id :| id in remaining;
      ghost var words0, done0 := words, done;
      words := words[base + Slot(id) := entries[id].address];
      remaining, done := remaining - {id}, done + {id};
      forall j: U64 | 0 < j <= maximum ensures SlotIs(words, base, entries, done, j) {
        assert SlotIs(words0, base, entries, done0, j);
      }
    }
    assert done == entries.Keys;
  }

  // ---- steps that keep the invariants ----

  lemma AddThreadKeeps(r: Registry, dtvs: map<U64, ThreadDtv>, h: Heap, owner: map<nat, Owner>,
      tables: map<U64, Table>, tp: U64)
    requires Inv(r, dtvs, h, owner, tables) && tp !in dtvs
    ensures Inv(r, dtvs[tp := ThreadDtv(0, map[], 0)], h, owner, tables)
  {
    var dtvs' := dtvs[tp := ThreadDtv(0, map[], 0)];
    assert forall q, j :: HasEntry(dtvs', q, j) ==> HasEntry(dtvs, q, j);
    AddThreadAccounted(dtvs, h, owner, tp);
  }

  lemma AddThreadAccounted(dtvs: map<U64, ThreadDtv>, h: Heap, owner: map<nat, Owner>, tp: U64)
    requires Accounted(dtvs, h, owner) && tp !in dtvs
    ensures Accounted(dtvs[tp := ThreadDtv(0, map[], 0)], h, owner)
  {
    var dtvs' := dtvs[tp := ThreadDtv(0, map[], 0)];
    forall b | b in owner ensures HeldBy(dtvs', b, owner[b]) {
      assert HeldBy(dtvs, b, owner[b]);
    }
    assert forall q, id :: HasBlock(dtvs', q, id) ==> HasBlock(dtvs, q, id);
    assert forall q :: HasTable(dtvs', q) ==> HasTable(dtvs, q);
  }

  /** A static entry, or a dynamic one whose block was just allocated, for a module without an entry. */
  lemma AddEntryKeeps(
      r: Registry, dtvs: map<U64, ThreadDtv>, h: Heap, h': Heap, owner: map<nat, Owner>, tables: map<U64, Table>,
      tp: U64, id: U64, e: DtvEntry)
    requires Inv(r, dtvs, h, owner, tables) && tp in dtvs && id !in dtvs[tp].entries && id in r.modules
    requires e.address + r.modules[id].memorySize < TWO64
    requires if e.allocationBase == 0 then h' == h && dtvs[tp].tableBase == 0
             else DynamicBlock(h, h', r.modules[id], e) && WellHeap(h')
    ensures var dtv' := dtvs[tp].(entries := dtvs[tp].entries[id := e]);
      var owner' := if e.allocationBase == 0 then owner else owner[e.allocationBase := EntryOf(tp, id)];
      Inv(r, dtvs[tp := dtv'], h', owner', tables)
  {
    AddEntryKnown(r.modules, dtvs, tp, id, e);
    AddEntryTables(r, dtvs, h, h', owner, tables, tp, id, e);
    AddEntryAccounted(dtvs, h, h', owner, tp, id, e);
  }

  lemma AddEntryKnown(modules: map<U64, Module>, dtvs: map<U64, ThreadDtv>, tp: U64, id: U64, e: DtvEntry)
    requires EntriesKnown(modules, dtvs) && tp in dtvs && EntryKnown(modules, id, e)
    ensures EntriesKnown(modules, dtvs[tp := dtvs[tp].(entries := dtvs[tp].entries[id := e])])
  {
    var dtvs' := dtvs[tp := dtvs[tp].(entries := dtvs[tp].entries[id := e])];
    forall q: U64, j: U64 | HasEntry(dtvs', q, j) ensures EntryKnown(modules, j, dtvs'[q].entries[j]) {
      assert HasEntry(dtvs, q, j) || (q == tp && j == id);
    }
  }

  lemma AddEntryAccounted(
      dtvs: map<U64, ThreadDtv>, h: Heap, h': Heap, owner: map<nat, Owner>, tp: U64, id: U64, e: DtvEntry)
    requires Accounted(dtvs, h, owner) && tp in dtvs && id !in dtvs[tp].entries
    requires if e.allocationBase == 0 then h' == h
             else e.allocationBase !in h.live && h'.live.Keys == h.live.Keys + {e.allocationBase}
    ensures var owner' := if e.allocationBase == 0 then owner else owner[e.allocationBase := EntryOf(tp, id)];
      Accounted(dtvs[tp := dtvs[tp].(entries := dtvs[tp].entries[id := e])], h', owner')
  {
    var dtvs' := dtvs[tp := dtvs[tp].(entries := dtvs[tp].entries[id := e])];
    var owner' := if e.allocationBase == 0 then owner else owner[e.allocationBase := EntryOf(tp, id)];
    forall b | b in owner' ensures HeldBy(dtvs', b, owner'[b]) {
      if b in owner { assert HeldBy(dtvs, b, owner[b]); }
    }
    forall q, j | HasBlock(dtvs', q, j) ensures Owns(owner', dtvs'[q].entries[j].allocationBase, EntryOf(q, j)) {
      if (q, j) != (tp, id) { assert HasBlock(dtvs, q, j); }
    }
    forall q | HasTable(dtvs', q) ensures Owns(owner', dtvs'[q].tableBase, TableOf(q)) {
      assert HasTable(dtvs, q);
    }
  }

  lemma AddEntryTables(
      r: Registry, dtvs: map<U64, ThreadDtv>, h: Heap, h': Heap, owner: map<nat, Owner>, tables: map<U64, Table>,
      tp: U64, id: U64, e: DtvEntry)
    requires TablesHold(r, dtvs, h, tables) && tp in dtvs && id !in dtvs[tp].entries
    requires if e.allocationBase == 0 then h' == h && dtvs[tp].tableBase == 0
             else e.allocationBase in h'.live && NewBlock(h, h', e.allocationBase, h'.live[e.allocationBase])
    ensures TablesHold(r, dtvs[tp := dtvs[tp].(entries := dtvs[tp].entries[id := e])], h', tables)
  {
    var dtvs' := dtvs[tp := dtvs[tp].(entries := dtvs[tp].entries[id := e])];
    forall q | q in dtvs' && dtvs'[q].tableBase != 0 ensures TableCurrent(r, dtvs'[q], h', tables[q]) {
      if e.allocationBase != 0 {
        TableSurvives(h, h', e.allocationBase, h'.live[e.allocationBase], dtvs[q], tables[q]);
      }
      if q == tp { TableIgnoresNewEntry(h', dtvs[q], tables[q], id, e); }
    }
  }

  lemma TableIgnoresNewEntry(h: Heap, dtv: ThreadDtv, t: Table, id: U64, e: DtvEntry)
    requires TableHolds(h, dtv, t) && id !in dtv.entries
    ensures TableHolds(h, dtv.(entries := dtv.entries[id := e]), t)
  {
    var dtv' := dtv.(entries := dtv.entries[id := e]);
    forall j: U64 | 0 < j <= t.maximum ensures SlotIs(h.words, dtv'.tableBase, dtv'.entries, t.installed, j) {
      assert SlotIs(h.words, dtv.tableBase, dtv.entries, t.installed, j);
    }
  }

  /** Replaces a thread's table by one built from its entries, freeing the table it replaces. */
  lemma InstallKeeps(
      r: Registry, dtvs: map<U64, ThreadDtv>, h: Heap, h1: Heap, h': Heap, owner: map<nat, Owner>,
      tables: map<U64, Table>, tp: U64, base: nat)
    requires Inv(r, dtvs, h, owner, tables) && tp in dtvs && base in h1.live && WellHeap(h1)
    requires NewBlock(h, h1, base, h1.live[base])
    requires TableHolds(h1, ThreadDtv(r.generation, dtvs[tp].entries, base),
                        Table(MaximumId(r.modules), dtvs[tp].entries.Keys))
    requires h' == h1.(live := h1.live - {dtvs[tp].tableBase}) && dtvs[tp].tableBase != base
    ensures var dtv' := ThreadDtv(r.generation, dtvs[tp].entries, base);
      var owner' := (owner - {dtvs[tp].tableBase})[base := TableOf(tp)];
      Inv(r, dtvs[tp := dtv'], h', owner', tables[tp := Table(MaximumId(r.modules), dtvs[tp].entries.Keys)])
  {
    hide Accounted, TablesHold, TableHolds, ModulesSized, MaximumId, Wrap64, WordAt;
    var dtvs' := dtvs[tp := ThreadDtv(r.generation, dtvs[tp].entries, base)];
    assert forall q, j :: HasEntry(dtvs', q, j) ==> HasEntry(dtvs, q, j);
    InstallAccounted(dtvs, h, h', owner, tp, base, r.generation);
    InstallTables(r, dtvs, h, h1, h', owner, tables, tp, base);
  }

  lemma InstallTables(
      r: Registry, dtvs: map<U64, ThreadDtv>, h: Heap, h1: Heap, h': Heap, owner: map<nat, Owner>,
      tables: map<U64, Table>, tp: U64, base: nat)
    requires TablesHold(r, dtvs, h, tables) && Accounted(dtvs, h, owner) && tp in dtvs && base in h1.live
    requires NewBlock(h, h1, base, h1.live[base]) && h'.words == h1.words
    requires TableHolds(h1, ThreadDtv(r.generation, dtvs[tp].entries, base),
                        Table(MaximumId(r.modules), dtvs[tp].entries.Keys))
    requires h'.live == h1.live - {dtvs[tp].tableBase} && dtvs[tp].tableBase != base
    ensures TablesHold(r, dtvs[tp := ThreadDtv(r.generation, dtvs[tp].entries, base)], h',
                       tables[tp := Table(MaximumId(r.modules), dtvs[tp].entries.Keys)])
  {
    var dtv', t := ThreadDtv(r.generation, dtvs[tp].entries, base), Table(MaximumId(r.modules), dtvs[tp].entries.Keys);
    TableSurvives(h1, h', 0, 0, dtv', t);
    forall q | q in dtvs && q != tp ensures TableOk(r, dtvs[q], h', tables, q) {
      if dtvs[q].tableBase != 0 {
        TablesDiffer(dtvs, h, owner, q, tp);
        TableSurvives(h, h', base, h1.live[base], dtvs[q], tables[q]);
      }
    }
    var dtvs', tables' := dtvs[tp := dtv'], tables[tp := t];
    forall q | q in dtvs' ensures TableOk(r, dtvs'[q], h', tables', q) {
      if q != tp { assert TableOk(r, dtvs[q], h', tables, q); }
    }
  }

  lemma TablesDiffer(dtvs: map<U64, ThreadDtv>, h: Heap, owner: map<nat, Owner>, q: U64, tp: U64)
    requires Accounted(dtvs, h, owner) && q != tp && HasTable(dtvs, q) && tp in dtvs
    ensures dtvs[q].tableBase != dtvs[tp].tableBase
  {
    if HasTable(dtvs, tp) {
      assert Owns(owner, dtvs[q].tableBase, TableOf(q)) && Owns(owner, dtvs[tp].tableBase, TableOf(tp));
    }
  }

  lemma InstallAccounted(
      dtvs: map<U64, ThreadDtv>, h: Heap, h': Heap, owner: map<nat, Owner>, tp: U64, base: nat, generation: nat)
    requires Accounted(dtvs, h, owner) && tp in dtvs && base > 0 && base !in h.live
    requires h'.live.Keys == h.live.Keys + {base} - {dtvs[tp].tableBase}
    ensures var dtv' := ThreadDtv(generation, dtvs[tp].entries, base);
      Accounted(dtvs[tp := dtv'], h', (owner - {dtvs[tp].tableBase})[base := TableOf(tp)])
  {
    var dtvs' := dtvs[tp := ThreadDtv(generation, dtvs[tp].entries, base)];
    var gone := dtvs[tp].tableBase;
    var owner' := (owner - {gone})[base := TableOf(tp)];
    assert gone != 0 ==> HasTable(dtvs, tp);
    assert gone != base by { if gone != 0 { assert Owns(owner, gone, TableOf(tp)); } }
    forall b | b in owner' ensures HeldBy(dtvs', b, owner'[b]) {
      if b != base { assert HeldBy(dtvs, b, owner[b]); }
    }
    forall q, j | HasBlock(dtvs', q, j) ensures Owns(owner', dtvs'[q].entries[j].allocationBase, EntryOf(q, j)) {
      assert HasBlock(dtvs, q, j);
    }
    forall q | HasTable(dtvs', q) ensures Owns(owner', dtvs'[q].tableBase, TableOf(q)) {
      if q != tp { assert HasTable(dtvs, q); }
    }
  }

  /** The blocks that stay when a thread's vector is dropped. */
  ghost function Without(owner: map<nat, Owner>, tp: U64): map<nat, Owner> {
    map b | b in owner && owner[b].tp != tp :: owner[b]
  }

  lemma DropThreadKeeps(
      r: Registry, dtvs: map<U64, ThreadDtv>, h: Heap, h': Heap, owner: map<nat, Owner>, tables: map<U64, Table>,
      tp: U64)
    requires Inv(r, dtvs, h, owner, tables) && tp in dtvs
    requires h'.bytes == h.bytes && h'.words == h.words
    requires h'.live == map b | b in h.live && b in Without(owner, tp) :: h.live[b]
    ensures Inv(r, dtvs - {tp}, h', Without(owner, tp), tables)
  {
    hide WellHeap, TablesHold, EntriesKnown, ModulesSized;
    DropHeap(h, h');
    DropKnown(r.modules, dtvs, tp);
    DropAccounted(dtvs, h, h', owner, tp);
    DropTables(r, dtvs, h, h', owner, tables, tp);
  }

  lemma DropHeap(h: Heap, h': Heap)
    requires WellHeap(h) && forall b :: b in h'.live ==> b in h.live && h'.live[b] == h.live[b]
    ensures WellHeap(h')
  {
  }

  lemma DropKnown(modules: map<U64, Module>, dtvs: map<U64, ThreadDtv>, tp: U64)
    requires EntriesKnown(modules, dtvs)
    ensures EntriesKnown(modules, dtvs - {tp})
  {
    forall q: U64, j: U64 | HasEntry(dtvs - {tp}, q, j) ensures EntryKnown(modules, j, (dtvs - {tp})[q].entries[j]) {
      assert HasEntry(dtvs, q, j);
    }
  }

  lemma DropTables(
      r: Registry, dtvs: map<U64, ThreadDtv>, h: Heap, h': Heap, owner: map<nat, Owner>, tables: map<U64, Table>,
      tp: U64)
    requires TablesHold(r, dtvs, h, tables) && Accounted(dtvs, h, owner) && tp in dtvs
    requires h'.words == h.words && h'.live == map b | b in h.live && b in Without(owner, tp) :: h.live[b]
    ensures TablesHold(r, dtvs - {tp}, h', tables)
  {
    var dtvs' := dtvs - {tp};
    forall q | q in dtvs' ensures TableOk(r, dtvs'[q], h', tables, q) {
      if dtvs[q].tableBase != 0 { DropTable(r, dtvs, h, h', owner, tables, tp, q); }
    }
  }

  lemma DropTable(
      r: Registry, dtvs: map<U64, ThreadDtv>, h: Heap, h': Heap, owner: map<nat, Owner>, tables: map<U64, Table>,
      tp: U64, q: U64)
    requires TablesHold(r, dtvs, h, tables) && Accounted(dtvs, h, owner) && HasTable(dtvs, q) && q != tp
    requires h'.words == h.words && h'.live == map b | b in h.live && b in Without(owner, tp) :: h.live[b]
    ensures q in tables && TableCurrent(r, dtvs[q], h', tables[q])
  {
    assert Owns(owner, dtvs[q].tableBase, TableOf(q));
    TableSurvives(h, h', 0, 0, dtvs[q], tables[q]);
  }

  lemma DropAccounted(dtvs: map<U64, ThreadDtv>, h: Heap, h': Heap, owner: map<nat, Owner>, tp: U64)
    requires Accounted(dtvs, h, owner) && h'.live.Keys == Without(owner, tp).Keys
    ensures Accounted(dtvs - {tp}, h', Without(owner, tp))
  {
    var dtvs', owner' := dtvs - {tp}, Without(owner, tp);
    forall b | b in owner' ensures HeldBy(dtvs', b, owner'[b]) {
      assert HeldBy(dtvs, b, owner[b]);
    }
    forall q, j | HasBlock(dtvs', q, j) ensures Owns(owner', dtvs'[q].entries[j].allocationBase, EntryOf(q, j)) {
      assert HasBlock(dtvs, q, j);
    }
    forall q | HasTable(dtvs', q) ensures Owns(owner', dtvs'[q].tableBase, TableOf(q)) {
      assert HasTable(dtvs, q);
    }
  }

  lemma RegisterKeeps(
      r: Registry, r': Registry, dtvs: map<U64, ThreadDtv>, h: Heap, owner: map<nat, Owner>, tables: map<U64, Table>)
    requires Inv(r, dtvs, h, owner, tables) && ModulesSized(r'.modules) && r'.generation == r.generation + 1
    requires r.modules.Keys <= r'.modules.Keys && forall id :: id in r.modules ==> r'.modules[id] == r.modules[id]
    ensures Inv(r', dtvs, h, owner, tables)
  {
  }

  /** A table that was built but could not be installed is freed again; only dead words changed. */
  lemma AbandonKeeps(
      r: Registry, dtvs: map<U64, ThreadDtv>, h: Heap, h1: Heap, h': Heap, owner: map<nat, Owner>,
      tables: map<U64, Table>, base: nat)
    requires Inv(r, dtvs, h, owner, tables) && base in h1.live && NewBlock(h, h1, base, h1.live[base])
    requires h'.live == h.live && h'.words == h1.words
    ensures Inv(r, dtvs, h', owner, tables)
  {
    forall q | q in dtvs ensures TableOk(r, dtvs[q], h', tables, q) {
      if dtvs[q].tableBase != 0 { TableSurvives(h, h', base, h1.live[base], dtvs[q], tables[q]); }
    }
  }

  // ---- releasing a thread's blocks ----

  /** The host blocks a thread's vector points to. */
  function Blocks(dtv: ThreadDtv): set<nat> {
    EntryBlocks(dtv.entries, dtv.entries.Keys) + if dtv.tableBase != 0 then {dtv.tableBase} else {}
  }

  function EntryBlocks(entries: map<U64, DtvEntry>, ids: set<U64>): set<nat> {
    set id | id in ids && id in entries && entries[id].allocationBase != 0 :: entries[id].allocationBase
  }

  /** No two of a thread's slots share a block, and all of them are live. */
  ghost predicate Separate(h: Heap, dtv: ThreadDtv) {
    && Blocks(dtv) <= h.live.Keys
    && (forall i, j :: i in dtv.entries && j in dtv.entries && i != j && dtv.entries[i].allocationBase != 0 ==>
          dtv.entries[i].allocationBase != dtv.entries[j].allocationBase)
    && (forall i :: i in dtv.entries && dtv.tableBase != 0 ==> dtv.entries[i].allocationBase != dtv.tableBase)
  }

  method FreeHGlobal(h: Heap, base: nat) returns (h': Heap)
    requires base in h.live
    ensures h' == h.(live := h.live - {base})
  {
    h' := h.(live := h.live - {base});
  }

  /** Every block is live when it is freed, so none is freed twice. */
  method FreeDynamicEntries(h: Heap, dtv: ThreadDtv) returns (h': Heap)
    requires Separate(h, dtv)
    ensures h' == h.(live := h.live - Blocks(dtv))
  {
    h' := h;
    var remaining := dtv.entries.Keys;
    while remaining != {}
      invariant remaining <= dtv.entries.Keys
      invariant h' == h.(live := h.live - EntryBlocks(dtv.entries, dtv.entries.Keys - remaining))
      decreases remaining
    {
      var id :| id in remaining;
      var done := dtv.entries.Keys - remaining;
      ghost var freed := EntryBlocks(dtv.entries, done);
      remaining := remaining - {id};
      assert dtv.entries.Keys - remaining == done + {id};
      var base := dtv.entries[id].allocationBase;
      if base != 0 {
        assert base in Blocks(dtv);
        assert EntryBlocks(dtv.entries, done + {id}) == freed + {base};
        h' := FreeHGlobal(h', base);
        assert h.live - freed - {base} == h.live - (freed + {base});
      } else {
        assert EntryBlocks(dtv.entries, done + {id}) == freed;
      }
    }
    assert dtv.entries.Keys - remaining == dtv.entries.Keys;
    ghost var freed := EntryBlocks(dtv.entries, dtv.entries.Keys);
    if dtv.tableBase != 0 {
      assert dtv.tableBase in Blocks(dtv);
      h' := FreeHGlobal(h', dtv.tableBase);
      assert h.live - freed - {dtv.tableBase} == h.live - (freed + {dtv.tableBase});
    } else {
      assert Blocks(dtv) == freed;
    }
  }

  /** The accounting separates a thread's blocks and says which blocks stay when they go. */
  lemma AccountedSeparate(dtvs: map<U64, ThreadDtv>, h: Heap, owner: map<nat, Owner>, tp: U64)
    requires Accounted(dtvs, h, owner) && tp in dtvs
    ensures Separate(h, dtvs[tp])
  {
    var dtv := dtvs[tp];
    forall id | id in dtv.entries && dtv.entries[id].allocationBase != 0
      ensures Owns(owner, dtv.entries[id].allocationBase, EntryOf(tp, id))
    {
      assert HasBlock(dtvs, tp, id);
    }
    assert dtv.tableBase != 0 ==> HasTable(dtvs, tp);
  }

  lemma AccountedBlocks(dtvs: map<U64, ThreadDtv>, h: Heap, owner: map<nat, Owner>, tp: U64)
    requires Accounted(dtvs, h, owner) && tp in dtvs
    ensures h.live - Blocks(dtvs[tp]) == map b | b in h.live && b in Without(owner, tp) :: h.live[b]
  {
    forall b | b in h.live ensures b in Blocks(dtvs[tp]) <==> owner[b].tp == tp {
      BlockOwner(dtvs, h, owner, tp, b);
    }
  }

  lemma BlockOwner(dtvs: map<U64, ThreadDtv>, h: Heap, owner: map<nat, Owner>, tp: U64, b: nat)
    requires Accounted(dtvs, h, owner) && tp in dtvs && b in h.live
    ensures b in Blocks(dtvs[tp]) <==> owner[b].tp == tp
  {
    assert HeldBy(dtvs, b, owner[b]);
    var dtv := dtvs[tp];
    if b in EntryBlocks(dtv.entries, dtv.entries.Keys) {
      var id :| id in dtv.entries && dtv.entries[id].allocationBase == b;
      assert HasBlock(dtvs, tp, id);
    } else if dtv.tableBase == b {
      assert HasTable(dtvs, tp);
    }
  }
}
