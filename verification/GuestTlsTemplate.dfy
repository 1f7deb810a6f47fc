/** The process-wide TLS state: the registry, one thread vector per thread pointer, the host heap
    behind them and the guest memory they live in. Every method runs under the gate. */
module GuestTlsTemplate {
  import opened GuestTlsLayout
  import opened GuestTlsModel
  import opened LittleEndian
  import opened Words

  /** Whether the guest range [a, a + n) can be written. */
  type Writable = (nat, nat) -> bool

  /** A thread's copy of a template: in place below the thread pointer, or in a host block. */
  ghost predicate Seeded(guest: Bytes, h: Heap, tp: U64, m: Module, e: DtvEntry)
    requires |m.image| <= m.memorySize
  {
    if e.allocationBase == 0 then
      tp >= m.staticOffset && e.address == tp - m.staticOffset && Read(guest, e.address, m.memorySize) == Image(m)
    else
      HoldsImage(h, m, e)
  }

  ghost predicate AllSeeded(guest: Bytes, h: Heap, tp: U64, modules: map<U64, Module>, entries: map<U64, DtvEntry>)
    requires ModulesSized(modules)
  {
    forall id :: id in entries ==> id in modules && Seeded(guest, h, tp, modules[id], entries[id])
  }

  /** Where the thread control block keeps its table pointer: eight bytes on, modulo 2^64. */
  function Pointer(tp: U64): U64 {
    if tp + 8 < TWO64 then tp + 8 else tp + 8 - TWO64
  }

  lemma PointerApart(tp: U64, m: Module, r: Registry)
    requires LaidModule(r, m) && r.staticSize <= RESERVATION && tp >= m.staticOffset && Pointer(tp) + 8 <= TWO64
    ensures Pointer(tp) + 8 <= tp - m.staticOffset || tp - m.staticOffset + m.memorySize <= Pointer(tp)
  {
  }

  /** Writing one module's static block leaves every other module's block alone. */
  lemma SeededSurvivesStatic(
      guest: Bytes, guest': Bytes, h: Heap, tp: U64, r: Registry, id: U64, entries: map<U64, DtvEntry>)
    requires LaidOut(r) && ModulesSized(r.modules) && id in r.modules && id !in entries
    requires AllSeeded(guest, h, tp, r.modules, entries)
    requires if tp >= r.modules[id].staticOffset
             then SameOutside(guest, guest', tp - r.modules[id].staticOffset, r.modules[id].memorySize)
             else guest' == guest
    ensures AllSeeded(guest', h, tp, r.modules, entries)
  {
    var m := r.modules[id];
    forall j | j in entries ensures Seeded(guest', h, tp, r.modules[j], entries[j]) {
      var n := r.modules[j];
      if entries[j].allocationBase == 0 && tp >= m.staticOffset {
        assert Apart(m, n);
        ReadOutside(guest, guest', tp - m.staticOffset, m.memorySize, tp - n.staticOffset, n.memorySize);
      }
    }
  }

  /** Filling a new host block leaves every other host block alone. */
  lemma SeededSurvivesNewBlock(
      guest: Bytes, h: Heap, h': Heap, tp: U64, modules: map<U64, Module>, entries: map<U64, DtvEntry>, base: nat,
      n: nat)
    requires ModulesSized(modules) && AllSeeded(guest, h, tp, modules, entries) && NewBlock(h, h', base, n)
    ensures AllSeeded(guest, h', tp, modules, entries)
  {
    forall j | j in entries ensures Seeded(guest, h', tp, modules[j], entries[j]) {
      if entries[j].allocationBase != 0 {
        ReadOutside(h.bytes, h'.bytes, base, n, entries[j].address, modules[j].memorySize);
      }
    }
  }

  /** Writing the table pointer into the thread control block leaves the static blocks alone. */
  lemma SeededSurvivesPointer(guest: Bytes, guest': Bytes, h: Heap, tp: U64, r: Registry, entries: map<U64, DtvEntry>)
    requires LaidOut(r) && ModulesSized(r.modules) && AllSeeded(guest, h, tp, r.modules, entries)
    requires Pointer(tp) + 8 <= TWO64 && SameOutside(guest, guest', Pointer(tp), 8)
    ensures AllSeeded(guest', h, tp, r.modules, entries)
  {
    forall j | j in entries ensures Seeded(guest', h, tp, r.modules[j], entries[j]) {
      if entries[j].allocationBase == 0 {
        PointerApart(tp, r.modules[j], r);
        ReadOutside(guest, guest', Pointer(tp), 8, entries[j].address, r.modules[j].memorySize);
      }
    }
  }

  /** The smallest of a set of ids. */
  function Least(ids: set<U64>, from: nat): (id: U64)
    requires ids != {} && from < TWO64 && forall i :: i in ids ==> from <= i
    ensures id in ids && forall i :: i in ids ==> id <= i
    decreases TWO64 - from
  {
    if from in ids then from
    else
      var i :| i in ids;
      Least(ids, from + 1)
  }

  /** A slot that answers lookups but is missing from the guest-visible table, with no rebuild due:
      its entry was created at the current generation and the rebuild that followed failed. */
  predicate Stuck(dtvs: map<U64, ThreadDtv>, generation: nat, tables: map<U64, Table>, tp: U64, id: U64) {
    && HasEntry(dtvs, tp, id) && dtvs[tp].tableBase != 0 && dtvs[tp].generation == generation
    && tp in tables && id !in tables[tp].installed
  }

  predicate SlotHolds(dtvs: map<U64, ThreadDtv>, h: Heap, tp: U64, id: U64) {
    HasEntry(dtvs, tp, id) && id > 0 && WordAt(h.words, dtvs[tp].tableBase + Slot(id)) == dtvs[tp].entries[id].address
  }

  predicate OthersSame(before: map<U64, ThreadDtv>, after: map<U64, ThreadDtv>, tp: U64) {
    before - {tp} == after - {tp}
  }

  /** A table that is current holds exactly the entries it was built with. */
  lemma SlotHoldsIff(
      r: Registry, dtvs: map<U64, ThreadDtv>, h: Heap, owner: map<nat, Owner>, tables: map<U64, Table>, tp: U64,
      id: U64)
    requires Inv(r, dtvs, h, owner, tables) && HasEntry(dtvs, tp, id)
    requires dtvs[tp].tableBase != 0 && dtvs[tp].generation == r.generation
    ensures SlotHolds(dtvs, h, tp, id) <==> !Stuck(dtvs, r.generation, tables, tp, id)
  {
    hide WellHeap, Accounted;
    var dtv, t := dtvs[tp], tables[tp];
    assert TableOk(r, dtv, h, tables, tp) && EntryKnown(r.modules, id, dtv.entries[id]);
    assert SlotIs(h.words, dtv.tableBase, dtv.entries, t.installed, id);
  }

  /** Whether the table pointer in the thread control block can be written. */
  predicate CanInstall(tp: U64, writable: Writable) {
    Pointer(tp) + 8 <= TWO64 && writable(Pointer(tp), 8)
  }

  /** What an error says: the host refused memory, a size does not fit in 64 bits, or the thread control
      block cannot be written. */
  ghost predicate Explained(r: Registry, tp: U64, writable: Writable, error: DtvError) {
    match error
    case OutOfMemory => true
    case TooLarge => 16 + 8 * MaximumId(r.modules) >= TWO64 || exists id :: id in r.modules && TooWide(r.modules[id])
    case InstallFailed => !CanInstall(tp, writable)
  }

  lemma BlockExplained(r: Registry, tp: U64, writable: Writable, id: U64, error: DtvError)
    requires id in r.modules && BlockRefused(r.modules[id], error)
    ensures Explained(r, tp, writable, error)
  {
    hide MaximumId;
  }

  /** What a lookup takes at most: a host block and a table. */
  function LookupSize(r: Registry, id: U64): nat
    requires id in r.modules
  {
    BlockSize(r.modules[id]) + TableSize(MaximumId(r.modules))
  }

  lemma SpentNothing(h: Heap, n: nat)
    ensures Spent(h, h, n)
  {
  }

  class Template {
    var registry: Registry
    var dtvs: map<U64, ThreadDtv>
    var host: Heap
    var guest: Bytes
    ghost var owner: map<nat, Owner>
    ghost var tables: map<U64, Table>

    ghost predicate Valid()
      reads this
    {
      LaidOut(registry) && Inv(registry, dtvs, host, owner, tables)
    }

    constructor (memory: Bytes, supply: Supply)
      ensures Valid() && registry == EMPTY && dtvs == map[] && guest == memory
      ensures host.live == map[] && host.supply == supply
    {
      registry, dtvs, host, guest := EMPTY, map[], Heap(map[], map[], map[], supply), memory;
      owner, tables := map[], map[];
    }

    method RegisterModule(id: U64, image: seq<U8>, memorySize: U64, alignment: U64, bias: U64)
      returns (answer: Result<nat>)
      requires Valid()
      modifies `registry
      ensures Valid()
      ensures (answer, registry) == Register(old(registry), id, image, memorySize, alignment, bias)
    {
      RegisterKeepsLayout(registry, id, image, memorySize, alignment, bias);
      var before := registry;
      var after := Register(registry, id, image, memorySize, alignment, bias);
      answer, registry := after.0, after.1;
      if registry != before { RegisterKeeps(before, registry, dtvs, host, owner, tables); }
    }

    /** The module's block in place below the thread pointer when it can be written there, else a host block. */
    method CreateStaticOrDynamicEntry(tp: U64, m: Module, writable: Writable) returns (r: Answer<DtvEntry>)
      requires WellHeap(host) && LaidModule(registry, m)
      modifies `guest, `host
      ensures if tp >= m.staticOffset then SameOutside(old(guest), guest, tp - m.staticOffset, m.memorySize)
              else guest == old(guest)
      ensures WellHeap(host)
      ensures r.Failed? ==> host == old(host) && BlockRefused(m, r.error)
      ensures r.Done? ==> if r.value.allocationBase == 0
        then host == old(host) && Seeded(guest, host, tp, m, r.value)
        else DynamicBlock(old(host), host, m, r.value) && r.value.address % m.alignment == 0
    {
      hide Spent, Ample, WellHeap, Image;
      if tp >= m.staticOffset {
        var address := tp - m.staticOffset;
        if m.memorySize == 0 || writable(address, m.memorySize) {
          FillBlock(guest, address, m.memorySize, m);
          guest := Write(guest, address, Zeros(m.memorySize));
          if m.image == [] || writable(address, |m.image|) {
            guest := Write(guest, address, m.image);
            return Done(DtvEntry(address, 0));
          }
        }
      }
      r, host := CreateDynamicBlock(host, m);
    }

    method AddSeededEntry(tp: U64, id: U64, e: DtvEntry, ghost host0: Heap)
      requires LaidOut(registry) && Inv(registry, dtvs, host0, owner, tables) && WellHeap(host)
      requires tp in dtvs && dtvs[tp].tableBase == 0 && id in registry.modules && id !in dtvs[tp].entries
      requires AllSeeded(guest, host0, tp, registry.modules, dtvs[tp].entries)
      requires if e.allocationBase == 0 then host == host0 && Seeded(guest, host, tp, registry.modules[id], e)
               else DynamicBlock(host0, host, registry.modules[id], e)
      modifies `dtvs, `owner
      ensures Valid() && dtvs == old(dtvs)[tp := old(dtvs[tp]).(entries := old(dtvs[tp]).entries[id := e])]
      ensures AllSeeded(guest, host, tp, registry.modules, dtvs[tp].entries)
    {
      AddEntryKeeps(registry, dtvs, host0, host, owner, tables, tp, id, e);
      if e.allocationBase != 0 {
        SeededSurvivesNewBlock(guest, host0, host, tp, registry.modules, dtvs[tp].entries, e.allocationBase,
                               host.live[e.allocationBase]);
        owner := owner[e.allocationBase := EntryOf(tp, id)];
      }
      dtvs := dtvs[tp := dtvs[tp].(entries := dtvs[tp].entries[id := e])];
    }

    /** Creates and records one module's entry. */
    method SeedEntry(tp: U64, id: U64, writable: Writable) returns (r: Answer<DtvEntry>)
      requires Valid() && tp in dtvs && dtvs[tp].tableBase == 0 && id in registry.modules && id !in dtvs[tp].entries
      requires AllSeeded(guest, host, tp, registry.modules, dtvs[tp].entries)
      modifies `dtvs, `host, `guest, `owner
      ensures Valid() && tp in dtvs && AllSeeded(guest, host, tp, registry.modules, dtvs[tp].entries)
      ensures OthersSame(old(dtvs), dtvs, tp) && dtvs[tp].tableBase == 0
      ensures dtvs[tp].entries == if r.Failed? then old(dtvs[tp].entries) else old(dtvs[tp].entries)[id := r.value]
      ensures r.Failed? ==> BlockRefused(registry.modules[id], r.error)
    {
      r := CreateStaticOrDynamicEntry(tp, registry.modules[id], writable);
      SeededSurvivesStatic(old(guest), guest, old(host), tp, registry, id, dtvs[tp].entries);
      if r.Done? { AddSeededEntry(tp, id, r.value, old(host)); }
    }

    /** An entry for every registered module, in ascending order of module id. */
    method SeedEntries(tp: U64, writable: Writable) returns (r: Answer<bool>)
      requires Valid() && tp in dtvs && dtvs[tp] == ThreadDtv(0, map[], 0)
      modifies `dtvs, `host, `guest, `owner
      ensures Valid() && OthersSame(old(dtvs), dtvs, tp)
      ensures tp in dtvs && dtvs[tp].tableBase == 0 && AllSeeded(guest, host, tp, registry.modules, dtvs[tp].entries)
      ensures r.Done? ==> dtvs[tp].entries.Keys == registry.modules.Keys
      ensures r.Failed? ==> r.error != InstallFailed && Explained(registry, tp, writable, r.error)
      ensures registry.modules == map[] ==> r.Done? && host == old(host)
    {
      var remaining := registry.modules.Keys;
      while remaining != {}
        invariant remaining <= registry.modules.Keys
        invariant Valid() && OthersSame(old(dtvs), dtvs, tp)
        invariant tp in dtvs && dtvs[tp].tableBase == 0
        invariant dtvs[tp].entries.Keys == registry.modules.Keys - remaining
        invariant AllSeeded(guest, host, tp, registry.modules, dtvs[tp].entries)
        invariant registry.modules == map[] ==> host == old(host)
        decreases remaining
      {
        var id := Least(remaining, 0);
        remaining := remaining - {id};
        var entry := SeedEntry(tp, id, writable);
        if entry.Failed? { return Failed(entry.error); }
      }
      r := Done(true);
    }

    /** Builds a new table, points the thread control block at it and frees the table it replaces. */
    method RebuildGuestDtv(tp: U64, writable: Writable) returns (r: Answer<bool>)
      requires Valid() && tp in dtvs
      modifies `dtvs, `host, `guest, `owner, `tables
      ensures Valid() && OthersSame(old(dtvs), dtvs, tp) && tp in dtvs && dtvs[tp].entries == old(dtvs[tp].entries)
      ensures r.Failed? ==> dtvs == old(dtvs) && tables == old(tables) && guest == old(guest)
      ensures r.Done? ==> r.value && Installed(registry, dtvs, host, tables, tp)
      ensures r.Done? ==> Pointer(tp) + 8 <= TWO64 && SameOutside(old(guest), guest, Pointer(tp), 8)
      ensures r.Done? ==> Decode(Read(guest, (tp + 8) % 0x1_0000_0000_0000_0000, 8)) == dtvs[tp].tableBase
      ensures r.Done? ==> ImagesKept(old(host), host, old(dtvs[tp].tableBase))
      ensures r.Failed? ==> host.live == old(host).live && host.bytes == old(host).bytes
      ensures if r.Done? then CanInstall(tp, writable) else Explained(registry, tp, writable, r.error)
      ensures Spent(old(host), host, TableSize(MaximumId(registry.modules)))
      ensures r == Failed(OutOfMemory) ==> !Ample(old(host), TableSize(MaximumId(registry.modules)))
    {
      hide LaidOut, WellHeap, ModulesSized, Accounted, EntriesKnown, TablesHold, Installed, ImagesKept, NewTable, Read,
           Encode, SameOutside, Spent, Ample;
      var built, host1 := BuildInstallable(tp, writable);
      if built.Failed? { return Failed(built.error); }
      WritePointer(tp, built.value);
      ReplaceTable(tp, built.value, host1);
      SpentTwice(old(host), host1, host, TableSize(MaximumId(registry.modules)), 0);
      r := Done(true);
    }

    method WritePointer(tp: U64, base: nat)
      requires base < TWO64
      modifies `guest
      ensures SameOutside(old(guest), guest, Pointer(tp), 8) && Decode(Read(guest, Pointer(tp), 8)) == base
    {
      Pow2Known();
      DecodeEncode(base, 8);
      WriteKeepsOthers(guest, Pointer(tp), Encode(base, 8));
      guest := Write(guest, Pointer(tp), Encode(base, 8));
    }

    /** A new table whose address can be written to the thread control block; otherwise it is freed again. */
    method BuildInstallable(tp: U64, writable: Writable) returns (r: Answer<nat>, host1: Heap)
      requires Valid() && tp in dtvs
      modifies `host
      ensures Valid() && host.live == old(host).live && host.bytes == old(host).bytes
      ensures if r.Done? then CanInstall(tp, writable) && r.value < TWO64
              else Explained(registry, tp, writable, r.error)
      ensures r.Done? ==> host == old(host) && WellHeap(host1) && NewTable(registry, dtvs[tp], host, host1, r.value)
      ensures Spent(old(host), if r.Done? then host1 else host, TableSize(MaximumId(registry.modules)))
      ensures r == Failed(OutOfMemory) ==> !Ample(old(host), TableSize(MaximumId(registry.modules)))
    {
      EntriesBelow(registry.modules, dtvs, tp);
      r, host1 := BuildTable(host, dtvs[tp].entries, registry.generation, MaximumId(registry.modules));
      if r.Done? && !CanInstall(tp, writable) {
        AbandonKeeps(registry, dtvs, host, host1, host1.(live := host.live), owner, tables, r.value);
        BlockFreed(host, host1, r.value);
        host := FreeHGlobal(host1, r.value);
        r := Failed(InstallFailed);
      }
    }

    /** Frees the old table, if there is one, and records the new one as current. */
    method ReplaceTable(tp: U64, base: nat, host1: Heap)
      requires Valid() && tp in dtvs && WellHeap(host1) && NewTable(registry, dtvs[tp], host, host1, base)
      modifies `dtvs, `host, `owner, `tables
      ensures Valid() && OthersSame(old(dtvs), dtvs, tp) && tp in dtvs
      ensures dtvs[tp] == ThreadDtv(registry.generation, old(dtvs[tp]).entries, base)
      ensures Installed(registry, dtvs, host, tables, tp) && ImagesKept(old(host), host, old(dtvs[tp].tableBase))
      ensures Spent(host1, host, 0)
    {
      ReplaceKeeps(registry, dtvs, host, host1, owner, tables, tp, base);
      var dtv := dtvs[tp];
      host := FreeTable(host1, dtv.tableBase);
      FreeingSpendsNothing(host1, {dtv.tableBase});
      dtvs := dtvs[tp := ThreadDtv(registry.generation, dtv.entries, base)];
      owner := (owner - {dtv.tableBase})[base := TableOf(tp)];
      tables := tables[tp := Table(MaximumId(registry.modules), dtv.entries.Keys)];
    }

    /** Removes the thread's vector and frees its blocks, each exactly once. */
    method DropThread(tp: U64)
      requires Valid() && tp in dtvs
      modifies `dtvs, `host, `owner
      ensures Valid() && dtvs == old(dtvs) - {tp}
      ensures host == old(host).(live := old(host).live - Blocks(old(dtvs)[tp]))
    {
      AccountedSeparate(dtvs, host, owner, tp);
      AccountedBlocks(dtvs, host, owner, tp);
      ghost var before := host;
      host := FreeDynamicEntries(host, dtvs[tp]);
      DropThreadKeeps(registry, dtvs, before, host, owner, tables, tp);
      dtvs, owner := dtvs - {tp}, Without(owner, tp);
    }

    /** Every module's block reads as its template, and the guest-visible table lists all of them. */
    method SeedThreadBlock(tp: U64, writable: Writable) returns (r: Answer<bool>)
      requires Valid()
      modifies this
      ensures Valid() && registry == old(registry) && OthersSame(old(dtvs), dtvs, tp)
      ensures tp == 0 ==> dtvs == old(dtvs) && host == old(host) && guest == old(guest)
      ensures r.Done? && tp != 0 ==> Installed(registry, dtvs, host, tables, tp)
      ensures r.Done? && tp != 0 ==> dtvs[tp].entries.Keys == registry.modules.Keys
      ensures r.Done? && tp != 0 ==> AllSeeded(guest, host, tp, registry.modules, dtvs[tp].entries)
      ensures if r.Done? then tp != 0 ==> CanInstall(tp, writable) else Explained(registry, tp, writable, r.error)
      ensures registry.modules == map[] && tp !in old(dtvs) && tp != 0 ==> Spent(old(host), host, TableSize(0))
      ensures registry.modules == map[] && tp !in old(dtvs) && r == Failed(OutOfMemory) ==>
        !Ample(old(host), TableSize(0))
    {
      if tp == 0 { return Done(true); }
      if tp in dtvs { DropThread(tp); }
      r := SeedNewThread(tp, writable);
    }

    method SeedNewThread(tp: U64, writable: Writable) returns (r: Answer<bool>)
      requires Valid() && tp !in dtvs
      modifies `dtvs, `host, `guest, `owner, `tables
      ensures Valid() && OthersSame(old(dtvs), dtvs, tp) && tp in dtvs
      ensures r.Done? ==> Installed(registry, dtvs, host, tables, tp)
      ensures r.Done? ==> dtvs[tp].entries.Keys == registry.modules.Keys
      ensures r.Done? ==> AllSeeded(guest, host, tp, registry.modules, dtvs[tp].entries)
      ensures r.Failed? ==> dtvs[tp].tableBase == 0
      ensures if r.Done? then CanInstall(tp, writable) else Explained(registry, tp, writable, r.error)
      ensures registry.modules == map[] ==> Spent(old(host), host, TableSize(0))
      ensures registry.modules == map[] && r == Failed(OutOfMemory) ==> !Ample(old(host), TableSize(0))
    {
      AddThreadKeeps(registry, dtvs, host, owner, tables, tp);
      UpdateSame(dtvs, tp, ThreadDtv(0, map[], 0));
      dtvs := dtvs[tp := ThreadDtv(0, map[], 0)];
      r := SeedEntries(tp, writable);
      if r.Done? {
        ghost var guest0, host0, entries := guest, host, dtvs[tp].entries;
        r := RebuildGuestDtv(tp, writable);
        if r.Done? { SeededSurvivesInstall(guest0, guest, host0, host, tp, registry, entries); }
      }
    }

    /** A lookup that finds its entry in a vector of the current generation rebuilds nothing. */
    predicate UpToDate(tp: U64, id: U64)
      reads `dtvs, `registry
    {
      HasEntry(dtvs, tp, id) && dtvs[tp].generation == registry.generation
    }

    predicate Accepted(tp: U64, id: U64, offset: U64)
      reads `registry
    {
      tp != 0 && id != 0 && id in registry.modules && offset < registry.modules[id].memorySize
    }

    /** A host block for a module that appeared after the thread was seeded. */
    method AddDynamicEntry(tp: U64, id: U64) returns (r: Answer<DtvEntry>)
      requires Valid() && tp in dtvs && id in registry.modules && id !in dtvs[tp].entries
      modifies `dtvs, `host, `owner
      ensures Valid() && OthersSame(old(dtvs), dtvs, tp) && tp in dtvs
      ensures dtvs[tp] == if r.Failed? then old(dtvs[tp])
                          else old(dtvs[tp]).(entries := old(dtvs[tp]).entries[id := r.value])
      ensures r.Done? ==> HoldsImage(host, registry.modules[id], r.value)
      ensures r.Done? ==> r.value.allocationBase != dtvs[tp].tableBase
      ensures r.Failed? ==> BlockRefused(registry.modules[id], r.error)
      ensures Spent(old(host), host, BlockSize(registry.modules[id]))
      ensures r == Failed(OutOfMemory) ==> !Ample(old(host), BlockSize(registry.modules[id]))
    {
      hide Spent, Ample;
      ghost var before := host;
      r, host := CreateDynamicBlock(host, registry.modules[id]);
      if r.Done? {
        AddDynamicKeeps(registry, dtvs, before, host, owner, tables, tp, id, r.value);
        dtvs := dtvs[tp := dtvs[tp].(entries := dtvs[tp].entries[id := r.value])];
        owner := owner[r.value.allocationBase := EntryOf(tp, id)];
      }
    }

    /** Rebuilds the guest-visible table when an entry was added or modules were registered since. */
    method Refresh(tp: U64, entryAdded: bool, writable: Writable) returns (r: Answer<bool>)
      requires Valid() && tp in dtvs
      modifies `dtvs, `host, `guest, `owner, `tables
      ensures Valid() && OthersSame(old(dtvs), dtvs, tp) && tp in dtvs && dtvs[tp].entries == old(dtvs[tp]).entries
      ensures r.Failed? ==> dtvs == old(dtvs) && tables == old(tables)
      ensures r.Done? ==> dtvs[tp].generation == registry.generation
      ensures r.Done? ==> r.value == (entryAdded || old(dtvs[tp].generation) != registry.generation)
      ensures if r.Done? then r.value ==> CanInstall(tp, writable) else Explained(registry, tp, writable, r.error)
      ensures !entryAdded && old(dtvs[tp].generation) == registry.generation ==> r.Done?
      ensures r.Done? && r.value ==> Installed(registry, dtvs, host, tables, tp)
      ensures r.Done? && r.value ==> ImagesKept(old(host), host, old(dtvs[tp].tableBase))
      ensures r.Done? && !r.value ==>
        dtvs == old(dtvs) && tables == old(tables) && host == old(host) && guest == old(guest)
      ensures Spent(old(host), host, TableSize(MaximumId(registry.modules)))
      ensures r == Failed(OutOfMemory) ==> !Ample(old(host), TableSize(MaximumId(registry.modules)))
    {
      hide LaidOut, WellHeap, ModulesSized, Accounted, EntriesKnown, TablesHold, HoldsImage, ImagesKept, MaximumId,
           Explained, CanInstall, SlotHolds, WordAt, Ample, Rises;
      if entryAdded || dtvs[tp].generation != registry.generation {
        r := RebuildGuestDtv(tp, writable);
      } else {
        r := Done(false);
      }
    }

    /** Brings a thread's vector up to date for one module. */
    method EnsureEntry(tp: U64, id: U64, writable: Writable) returns (r: Answer<bool>)
      requires Valid() && tp in dtvs && id in registry.modules
      modifies `dtvs, `host, `guest, `owner, `tables
      ensures Valid() && OthersSame(old(dtvs), dtvs, tp) && tp in dtvs
      ensures Extends(old(dtvs[tp]).entries, dtvs[tp].entries, id)
      ensures r.Done? ==> id in dtvs[tp].entries && dtvs[tp].generation == registry.generation
      ensures r.Done? && old(UpToDate(tp, id)) ==>
        dtvs == old(dtvs) && tables == old(tables) && host == old(host) && guest == old(guest)
      ensures r.Done? && !old(UpToDate(tp, id)) ==> Installed(registry, dtvs, host, tables, tp)
      ensures r.Done? && id !in old(dtvs[tp]).entries ==> HoldsImage(host, registry.modules[id], dtvs[tp].entries[id])
      ensures r.Failed? ==> tables == old(tables) && dtvs[tp] == old(dtvs[tp]).(entries := dtvs[tp].entries)
      ensures old(UpToDate(tp, id)) ==> r.Done?
      ensures r.Done? && !old(UpToDate(tp, id)) ==> CanInstall(tp, writable)
      ensures r.Failed? ==> Explained(registry, tp, writable, r.error)
      ensures r == Failed(InstallFailed) ==> id in dtvs[tp].entries
      ensures Spent(old(host), host, LookupSize(registry, id))
      ensures r == Failed(OutOfMemory) ==> !Ample(old(host), LookupSize(registry, id))
    {
      hide LaidOut, WellHeap, Accounted, EntriesKnown, TablesHold, Read, Image, MaximumId, Explained, SlotHolds, WordAt,
           Ample, Spent, BlockSize, TableSize;
      SpentNothing(host, BlockSize(registry.modules[id]));
      ghost var block, table := BlockSize(registry.modules[id]), TableSize(MaximumId(registry.modules));
      var entryAdded := id !in dtvs[tp].entries;
      if entryAdded {
        var entry := AddDynamicEntry(tp, id);
        if entry.Failed? {
          BlockExplained(registry, tp, writable, id, entry.error);
          SpentTwice(old(host), host, host, block, table) by { SpentNothing(host, table); }
          return Failed(entry.error);
        }
      }
      ghost var added := host;
      r := Refresh(tp, entryAdded, writable);
      SpentTwice(old(host), added, host, block, table);
    }

    /** The lookup for a thread that has a vector: what stays stuck, and what becomes stuck. */
    method ResolveKnown(tp: U64, id: U64, offset: U64, writable: Writable) returns (r: Answer<U64>)
      requires Valid() && tp in dtvs && Accepted(tp, id, offset)
      modifies `dtvs, `host, `guest, `owner, `tables
      ensures Valid() && OthersSame(old(dtvs), dtvs, tp) && tp in dtvs
      ensures Extends(old(dtvs[tp]).entries, dtvs[tp].entries, id)
      ensures r.Done? ==> id in dtvs[tp].entries && r.value == dtvs[tp].entries[id].address + offset
      ensures r.Done? ==> dtvs[tp].generation == registry.generation && dtvs[tp].tableBase != 0
      ensures r.Done? ==>
        NowStuck(old(dtvs), dtvs, registry.generation, old(tables), tables, tp, old(UpToDate(tp, id)), false, id)
      ensures r.Failed? ==>
        NowStuck(old(dtvs), dtvs, registry.generation, old(tables), tables, tp, true, old(Spoilable(tp, id)), id)
      ensures r.Done? && id !in old(dtvs[tp]).entries ==> HoldsImage(host, registry.modules[id], dtvs[tp].entries[id])
      ensures r.Done? && old(UpToDate(tp, id)) ==> dtvs == old(dtvs) && host == old(host) && guest == old(guest)
      ensures old(UpToDate(tp, id)) ==> r.Done?
      ensures r.Done? && !old(UpToDate(tp, id)) ==> CanInstall(tp, writable)
      ensures r.Failed? ==> Explained(registry, tp, writable, r.error)
      ensures r == Failed(InstallFailed) ==> id in dtvs[tp].entries
      ensures Spent(old(host), host, LookupSize(registry, id))
      ensures r == Failed(OutOfMemory) ==> !Ample(old(host), LookupSize(registry, id))
    {
      hide LaidOut, WellHeap, ModulesSized, Accounted, EntriesKnown, TablesHold, Installed, HoldsImage, MaximumId,
           Explained, CanInstall, Spent, Ample, LookupSize;
      var ensured := EnsureEntry(tp, id, writable);
      if ensured.Failed? {
        StuckAfterFailure(registry, old(dtvs), dtvs, old(host), old(owner), tables, tp, id);
        return Failed(ensured.error);
      }
      if old(UpToDate(tp, id)) {
        StuckAsBefore(dtvs, registry.generation, tables, tp, id);
      } else {
        StuckAfterInstall(registry, old(dtvs), dtvs, host, old(tables), tables, tp, id);
      }
      var address := CheckedAddress(tp, id, offset);
      r := Done(address);
    }

    /** The checked sum never overflows: entries lie below 2^64 with their whole block. */
    method CheckedAddress(tp: U64, id: U64, offset: U64) returns (address: U64)
      requires Valid() && HasEntry(dtvs, tp, id) && Accepted(tp, id, offset)
      ensures address == dtvs[tp].entries[id].address + offset
      ensures dtvs[tp].generation == registry.generation ==> dtvs[tp].tableBase != 0
    {
      KnownEntry(registry, dtvs, host, owner, tables, tp, id);
      address := dtvs[tp].entries[id].address + offset;
    }

    /** The address of a module's variable for a thread, or 0 when the request names no such variable.
        After a successful lookup every slot of the guest-visible table holds its entry's address,
        except the slots that were stuck before a lookup that had nothing to rebuild. */
    method ResolveAddress(tp: U64, id: U64, offset: U64, writable: Writable) returns (r: Answer<U64>)
      requires Valid()
      modifies this
      ensures Valid() && registry == old(registry) && OthersSame(old(dtvs), dtvs, tp)
      ensures !(tp != 0 && id != 0 && id in registry.modules && offset < registry.modules[id].memorySize) ==>
        r == Done(0) && dtvs == old(dtvs) && host == old(host) && guest == old(guest)
      ensures tp in old(dtvs) ==> tp in dtvs && Extends(old(dtvs[tp]).entries, dtvs[tp].entries, id)
      ensures tp != 0 && id != 0 && id in registry.modules && offset < registry.modules[id].memorySize && r.Done? ==>
        HasEntry(dtvs, tp, id) && r.value == dtvs[tp].entries[id].address + offset
      ensures Accepted(tp, id, offset) && r.Done? ==>
        dtvs[tp].generation == registry.generation && dtvs[tp].tableBase != 0
      ensures Accepted(tp, id, offset) && r.Done? ==>
                forall j :: HasEntry(dtvs, tp, j) ==>
                  (SlotHolds(dtvs, host, tp, j) <==>
                   !(old(UpToDate(tp, id)) && Stuck(old(dtvs), registry.generation, old(tables), tp, j)))
      ensures Accepted(tp, id, offset) && r.Failed? ==>
                forall j :: Stuck(dtvs, registry.generation, tables, tp, j) <==>
                  || Stuck(old(dtvs), registry.generation, old(tables), tp, j)
                  || (j == id && HasEntry(dtvs, tp, j) && old(Spoilable(tp, id)))
      ensures Accepted(tp, id, offset) && r.Done? && old(tp in dtvs && id !in dtvs[tp].entries) ==>
                HoldsImage(host, registry.modules[id], dtvs[tp].entries[id])
      ensures Accepted(tp, id, offset) && r.Done? && tp !in old(dtvs) ==>
                AllSeeded(guest, host, tp, registry.modules, dtvs[tp].entries)
      ensures old(UpToDate(tp, id)) ==> r.Done?
      ensures Accepted(tp, id, offset) && !old(UpToDate(tp, id)) && r.Done? ==> CanInstall(tp, writable)
      ensures r.Failed? ==> Explained(registry, tp, writable, r.error)
      ensures r == Failed(InstallFailed) && tp in old(dtvs) ==> HasEntry(dtvs, tp, id)
      ensures Accepted(tp, id, offset) && tp in old(dtvs) ==> Spent(old(host), host, LookupSize(registry, id))
      ensures Accepted(tp, id, offset) && tp in old(dtvs) && r == Failed(OutOfMemory) ==>
                !Ample(old(host), LookupSize(registry, id))
    {
      hide LaidOut, WellHeap, ModulesSized, Accounted, EntriesKnown, TablesHold, HoldsImage, AllSeeded, MaximumId,
           Explained, SlotHolds, WordAt, Spent, Ample, LookupSize;
      if !Accepted(tp, id, offset) { return Done(0); }
      if tp in dtvs {
        r := ResolveKnown(tp, id, offset, writable);
      } else {
        var seeded := SeedNewThread(tp, writable);
        if seeded.Failed? { return Failed(seeded.error); }
        r := ResolveKnown(tp, id, offset, writable);
      }
      if r.Done? { SlotsHeld(registry, dtvs, host, owner, tables, tp); }
    }

    /** A module without an entry, for a thread whose table is current: the case in which a failed
        rebuild leaves the slot stuck. */
    predicate Spoilable(tp: U64, id: U64)
      reads `dtvs, `registry
    {
      tp in dtvs && id !in dtvs[tp].entries && dtvs[tp].tableBase != 0 && dtvs[tp].generation == registry.generation
    }

    /** Frees every live host block and forgets all modules and threads. */
    method Reset()
      requires Valid()
      modifies this
      ensures Valid() && registry == EMPTY.(generation := old(registry).generation + 1)
      ensures dtvs == map[] && host.live == map[] && guest == old(guest)
    {
      while dtvs != map[]
        invariant Valid() && registry == old(registry) && guest == old(guest)
        decreases |dtvs|
      {
        var tp :| tp in dtvs;
        assert |dtvs - {tp}| < |dtvs|;
        DropThread(tp);
      }
      ResetKeeps(registry, host, owner, tables);
      registry := EMPTY.(generation := registry.generation + 1);
    }
  }

  lemma ReplaceKeeps(
      r: Registry, dtvs: map<U64, ThreadDtv>, h: Heap, h1: Heap, owner: map<nat, Owner>,
      tables: map<U64, Table>, tp: U64, base: nat)
    requires Inv(r, dtvs, h, owner, tables) && tp in dtvs && WellHeap(h1) && NewTable(r, dtvs[tp], h, h1, base)
    ensures dtvs[tp].tableBase != 0 ==> dtvs[tp].tableBase in h1.live
    ensures var gone := dtvs[tp].tableBase;
      var dtvs' := dtvs[tp := ThreadDtv(r.generation, dtvs[tp].entries, base)];
      var h' := h1.(live := h1.live - {gone});
      var tables' := tables[tp := Table(MaximumId(r.modules), dtvs[tp].entries.Keys)];
      && Inv(r, dtvs', h', (owner - {gone})[base := TableOf(tp)], tables')
      && Installed(r, dtvs', h', tables', tp) && ImagesKept(h, h', gone) && OthersSame(dtvs, dtvs', tp)
  {
    hide WellHeap, Accounted, TablesHold, EntriesKnown, ModulesSized, TableHolds, Installed, ImagesKept;
    var gone := dtvs[tp].tableBase;
    var dtvs' := dtvs[tp := ThreadDtv(r.generation, dtvs[tp].entries, base)];
    var h' := h1.(live := h1.live - {gone});
    var tables' := tables[tp := Table(MaximumId(r.modules), dtvs[tp].entries.Keys)];
    FreshBase(dtvs, h, owner, tp, base);
    InstallKeeps(r, dtvs, h, h1, h', owner, tables, tp, base);
    KeepImages(h, h1, h', base, gone);
    InstalledNow(r, dtvs', h', (owner - {gone})[base := TableOf(tp)], tables', tp);
    UpdateSame(dtvs, tp, ThreadDtv(r.generation, dtvs[tp].entries, base));
  }

  /** The thread's vector is current and its guest-visible table lists exactly its entries. */
  ghost predicate Installed(r: Registry, dtvs: map<U64, ThreadDtv>, h: Heap, tables: map<U64, Table>, tp: U64) {
    && tp in dtvs && dtvs[tp].tableBase != 0 && dtvs[tp].generation == r.generation
    && WordAt(h.words, dtvs[tp].tableBase) == Wrap64(r.generation)
    && WordAt(h.words, dtvs[tp].tableBase + 8) == MaximumId(r.modules)
    && tp in tables && tables[tp].installed == dtvs[tp].entries.Keys
    && forall id :: id in dtvs[tp].entries ==> SlotHolds(dtvs, h, tp, id)
  }

  lemma InstalledNow(
      r: Registry, dtvs: map<U64, ThreadDtv>, h: Heap, owner: map<nat, Owner>, tables: map<U64, Table>, tp: U64)
    requires Inv(r, dtvs, h, owner, tables) && tp in dtvs && dtvs[tp].tableBase != 0
      && dtvs[tp].generation == r.generation
    requires tp in tables && tables[tp].installed == dtvs[tp].entries.Keys
    ensures Installed(r, dtvs, h, tables, tp)
  {
    assert TableOk(r, dtvs[tp], h, tables, tp);
    forall id | id in dtvs[tp].entries ensures SlotHolds(dtvs, h, tp, id) {
      SlotHoldsIff(r, dtvs, h, owner, tables, tp, id);
    }
  }

  lemma BlockFreed(h: Heap, h1: Heap, base: nat)
    requires base in h1.live && NewBlock(h, h1, base, h1.live[base])
    ensures h1.live - {base} == h.live
  {
  }

  lemma UpdateSame(dtvs: map<U64, ThreadDtv>, tp: U64, dtv: ThreadDtv)
    ensures OthersSame(dtvs, dtvs[tp := dtv], tp)
  {
  }

  method FreeTable(h: Heap, base: nat) returns (h': Heap)
    requires WellHeap(h) && (base != 0 ==> base in h.live)
    ensures h' == h.(live := h.live - {base})
  {
    if base != 0 {
      h' := FreeHGlobal(h, base);
    } else {
      h' := h;
      assert h.live - {base} == h.live;
    }
  }

  lemma EntriesBelow(modules: map<U64, Module>, dtvs: map<U64, ThreadDtv>, tp: U64)
    requires ModulesSized(modules) && EntriesKnown(modules, dtvs) && tp in dtvs
    ensures forall id :: id in dtvs[tp].entries ==> 0 < id <= MaximumId(modules)
  {
    assert forall id :: id in dtvs[tp].entries ==> HasEntry(dtvs, tp, id);
  }

  /** Host blocks that hold a template's image still do, except the one at gone. */
  ghost predicate ImagesKept(h: Heap, h': Heap, gone: nat) {
    forall m: Module, e: DtvEntry ::
      |m.image| <= m.memorySize && e.allocationBase != gone && HoldsImage(h, m, e) ==> HoldsImage(h', m, e)
  }

  lemma KeepImages(h: Heap, h1: Heap, h': Heap, base: nat, gone: nat)
    requires base in h1.live && NewBlock(h, h1, base, h1.live[base]) && h1.bytes == h.bytes
    requires h' == h1.(live := h1.live - {gone})
    ensures ImagesKept(h, h', gone)
  {
  }

  /** base is a new block that holds the table for a thread's entries. */
  ghost predicate NewTable(r: Registry, dtv: ThreadDtv, h: Heap, h1: Heap, base: nat) {
    var maximum := MaximumId(r.modules);
    && base in h1.live && NewBlock(h, h1, base, h1.live[base]) && h1.bytes == h.bytes
    && TableHolds(h1, ThreadDtv(r.generation, dtv.entries, base), Table(maximum, dtv.entries.Keys))
  }

  lemma FreshBase(dtvs: map<U64, ThreadDtv>, h: Heap, owner: map<nat, Owner>, tp: U64, base: nat)
    requires Accounted(dtvs, h, owner) && tp in dtvs && base > 0 && base !in h.live
    ensures dtvs[tp].tableBase != base && (dtvs[tp].tableBase != 0 ==> dtvs[tp].tableBase in h.live)
  {
    if dtvs[tp].tableBase != 0 { assert HasTable(dtvs, tp); }
  }

  lemma WriteKeepsOthers(m: Bytes, a: nat, bytes: seq<U8>)
    ensures SameOutside(m, Write(m, a, bytes), a, |bytes|) && Read(Write(m, a, bytes), a, |bytes|) == bytes
  {
    forall i | 0 <= i < |bytes| ensures Read(Write(m, a, bytes), a, |bytes|)[i] == bytes[i] {
      assert Within(a + i, a, |bytes|) && a + i in Write(m, a, bytes);
    }
  }

  lemma SeededSurvivesInstall(
      guest: Bytes, guest': Bytes, h: Heap, h': Heap, tp: U64, r: Registry, entries: map<U64, DtvEntry>)
    requires LaidOut(r) && ModulesSized(r.modules) && AllSeeded(guest, h, tp, r.modules, entries)
    requires Pointer(tp) + 8 <= TWO64 && SameOutside(guest, guest', Pointer(tp), 8) && ImagesKept(h, h', 0)
    ensures AllSeeded(guest', h', tp, r.modules, entries)
  {
    SeededSurvivesPointer(guest, guest', h, tp, r, entries);
  }

  /** The old entries stay as they were; at most the one for id is new. */
  predicate Extends(before: map<U64, DtvEntry>, after: map<U64, DtvEntry>, id: U64) {
    after == before || (id !in before && id in after && after == before[id := after[id]])
  }

  lemma KnownEntry(
      r: Registry, dtvs: map<U64, ThreadDtv>, h: Heap, owner: map<nat, Owner>, tables: map<U64, Table>, tp: U64,
      id: U64)
    requires Inv(r, dtvs, h, owner, tables) && HasEntry(dtvs, tp, id)
    ensures id in r.modules && dtvs[tp].entries[id].address + r.modules[id].memorySize < TWO64
    ensures dtvs[tp].generation == r.generation ==> dtvs[tp].tableBase != 0
  {
    assert EntryKnown(r.modules, id, dtvs[tp].entries[id]) && TableOk(r, dtvs[tp], h, tables, tp);
  }

  lemma AddDynamicKeeps(
      r: Registry, dtvs: map<U64, ThreadDtv>, h: Heap, h': Heap, owner: map<nat, Owner>, tables: map<U64, Table>,
      tp: U64, id: U64, e: DtvEntry)
    requires Inv(r, dtvs, h, owner, tables) && tp in dtvs && id !in dtvs[tp].entries && id in r.modules
    requires DynamicBlock(h, h', r.modules[id], e) && WellHeap(h')
    ensures var dtvs' := dtvs[tp := dtvs[tp].(entries := dtvs[tp].entries[id := e])];
      && Inv(r, dtvs', h', owner[e.allocationBase := EntryOf(tp, id)], tables)
      && OthersSame(dtvs, dtvs', tp) && e.allocationBase != dtvs[tp].tableBase
  {
    FreshBase(dtvs, h, owner, tp, e.allocationBase);
    AddEntryKeeps(r, dtvs, h, h', owner, tables, tp, id, e);
    UpdateSame(dtvs, tp, dtvs[tp].(entries := dtvs[tp].entries[id := e]));
  }

  lemma ResetKeeps(r: Registry, h: Heap, owner: map<nat, Owner>, tables: map<U64, Table>)
    requires Inv(r, map[], h, owner, tables)
    ensures h.live == map[] && Inv(EMPTY.(generation := r.generation + 1), map[], h, owner, tables)
  {
    assert forall b :: b in owner ==> HeldBy(map[], b, owner[b]);
    assert owner.Keys == {};
  }

  /** The slots stuck after a lookup: those that stay from before, and possibly the one looked up. */
  ghost predicate NowStuck(
      before: map<U64, ThreadDtv>, after: map<U64, ThreadDtv>, generation: nat, old': map<U64, Table>,
      new': map<U64, Table>, tp: U64, stay: bool, spoiled: bool, id: U64)
  {
    forall j :: Stuck(after, generation, new', tp, j) <==>
      || (stay && Stuck(before, generation, old', tp, j))
      || (spoiled && j == id && HasEntry(after, tp, j))
  }

  lemma StuckAsBefore(dtvs: map<U64, ThreadDtv>, generation: nat, tables: map<U64, Table>, tp: U64, id: U64)
    ensures NowStuck(dtvs, dtvs, generation, tables, tables, tp, true, false, id)
  {
  }

  lemma StuckAfterInstall(
      r: Registry, before: map<U64, ThreadDtv>, after: map<U64, ThreadDtv>, h: Heap, old': map<U64, Table>,
      new': map<U64, Table>, tp: U64, id: U64)
    requires Installed(r, after, h, new', tp)
    ensures NowStuck(before, after, r.generation, old', new', tp, false, false, id)
  {
  }

  lemma StuckAfterFailure(
      r: Registry, before: map<U64, ThreadDtv>, after: map<U64, ThreadDtv>, h: Heap, owner: map<nat, Owner>,
      tables: map<U64, Table>, tp: U64, id: U64)
    requires Inv(r, before, h, owner, tables) && tp in before && tp in after
    requires after[tp] == before[tp].(entries := after[tp].entries)
      && Extends(before[tp].entries, after[tp].entries, id)
    ensures var dtv := before[tp];
      var spoilable := id !in dtv.entries && dtv.tableBase != 0 && dtv.generation == r.generation;
      NowStuck(before, after, r.generation, tables, tables, tp, true, spoilable, id)
  {
    assert TableOk(r, before[tp], h, tables, tp);
  }

  lemma SlotsHeld(
      r: Registry, dtvs: map<U64, ThreadDtv>, h: Heap, owner: map<nat, Owner>, tables: map<U64, Table>, tp: U64)
    requires Inv(r, dtvs, h, owner, tables) && tp in dtvs
    requires dtvs[tp].tableBase != 0 && dtvs[tp].generation == r.generation
    ensures forall j :: HasEntry(dtvs, tp, j) ==>
      (SlotHolds(dtvs, h, tp, j) <==> !Stuck(dtvs, r.generation, tables, tp, j))
  {
    forall j | HasEntry(dtvs, tp, j) ensures SlotHolds(dtvs, h, tp, j) <==> !Stuck(dtvs, r.generation, tables, tp, j) {
      SlotHoldsIff(r, dtvs, h, owner, tables, tp, j);
    }
  }

  lemma NothingTooLarge(r: Registry, tp: U64, writable: Writable)
    requires forall id :: id in r.modules ==> id < 0x1000 && !TooWide(r.modules[id])
    ensures forall e :: Explained(r, tp, writable, e) ==>
      e == OutOfMemory || (e == InstallFailed && !CanInstall(tp, writable))
  {
    assert MaximumId(r.modules) < 0x1000;
  }

  const SMALL: Module := Module([], 8, 8, 0, 8)

  lemma TwoModules()
    ensures var r1 := Registry(map[1 := SMALL], 8, 8, 1);
      && Register(EMPTY, 1, [], 8, 8, 0) == (Ok(8), r1)
      && Register(r1, 2, [], 8, 8, 0) == (Ok(16), Registry(map[1 := SMALL, 2 := SMALL.(staticOffset := 16)], 16, 8, 2))
  {
    MaskIsRemainder(15, 3);
    MaskIsRemainder(23, 3);
    MaskIsRemainder(8, 3);
    assert Pow2(3) == 8;
    assert BitAnd(8, 7) == 0;
  }

  /** Byte a of a thread's block, in guest memory or, for a block of its own, in the host's. */
  function BlockByte(guest: Bytes, h: Heap, e: DtvEntry, k: nat): U8 {
    var memory := if e.allocationBase == 0 then guest else h.bytes;
    if e.address + k in memory then memory[e.address + k] else 0
  }

  /** A seeded block holds the image byte by byte and zeros behind it. */
  lemma SeededBytes(guest: Bytes, h: Heap, tp: U64, m: Module, e: DtvEntry, k: nat)
    requires |m.image| <= m.memorySize && Seeded(guest, h, tp, m, e) && k < m.memorySize
    ensures BlockByte(guest, h, e, k) == if k < |m.image| then m.image[k] else 0
  {
    var memory := if e.allocationBase == 0 then guest else h.bytes;
    assert Read(memory, e.address, m.memorySize)[k] == Image(m)[k];
  }

  /** The guest finds the generation in the first word of an installed table, the greatest module id in the
      second, and the block of module id in the word after id others. */
  lemma InstalledWords(r: Registry, dtvs: map<U64, ThreadDtv>, h: Heap, tables: map<U64, Table>, tp: U64, id: U64)
    requires Installed(r, dtvs, h, tables, tp) && id in dtvs[tp].entries
    ensures var base := dtvs[tp].tableBase;
      && WordAt(h.words, base) == r.generation % 0x1_0000_0000_0000_0000
      && (forall j :: j in r.modules ==> j <= WordAt(h.words, base + 8))
      && (r.modules != map[] ==> WordAt(h.words, base + 8) in r.modules)
      && id > 0 && WordAt(h.words, base + 8 * (id + 1)) == dtvs[tp].entries[id].address
  {
    assert SlotHolds(dtvs, h, tp, id);
    if r.modules != map[] {
      var j :| j in r.modules;
      assert j <= MaximumId(r.modules);
    }
  }

  /** After a registration and a successful seeding the module's block holds the image that was registered. */
  method RegisterThenSeed(t: Template, q: Request, tp: U64, writable: Writable)
    returns (answer: Result<nat>, seeded: Answer<bool>)
    requires t.Valid()
    modifies t
    ensures t.Valid()
    ensures answer.Ok? && seeded.Done? && tp != 0 ==>
      && HasEntry(t.dtvs, tp, q.id)
      && forall k: nat :: k < q.memorySize ==>
           BlockByte(t.guest, t.host, t.dtvs[tp].entries[q.id], k) == if k < |q.image| then q.image[k] else 0
  {
    hide LaidOut, Inv, Register, Seeded, Installed;
    ghost var before := t.registry;
    answer := t.RegisterModule(q.id, q.image, q.memorySize, q.alignment, q.bias);
    seeded := t.SeedThreadBlock(tp, writable);
    if answer.Ok? && seeded.Done? && tp != 0 {
      RegisterStores(before, q);
      var m, e := t.registry.modules[q.id], t.dtvs[tp].entries[q.id];
      ModuleSized(t.registry, q.id);
      assert Seeded(t.guest, t.host, tp, m, e);
      forall k: nat | k < q.memorySize
        ensures BlockByte(t.guest, t.host, e, k) == if k < |q.image| then q.image[k] else 0
      {
        SeededBytes(t.guest, t.host, tp, m, e, k);
      }
    }
  }

  lemma ModuleSized(r: Registry, id: U64)
    requires LaidOut(r) && id in r.modules
    ensures |r.modules[id].image| <= r.modules[id].memorySize && ModulesSized(r.modules)
  {
  }

  /** A run that ends in a stuck slot: a thread is seeded, two modules are registered, the first is looked
      up, the second is looked up while the thread control block cannot be written, and then again when
      it can. The last lookup answers, and the slot of the guest-visible table that it answers for is wrong. */
  method StuckRun(memory: Bytes, tp: U64) returns (t: Template, answers: seq<Answer<U64>>)
    requires tp != 0 && Pointer(tp) + 8 <= TWO64
    ensures fresh(t) && t.Valid()
    ensures |answers| == 3 && answers[0].Done? && answers[1] == Failed(InstallFailed) && answers[2].Done?
    ensures HasEntry(t.dtvs, tp, 2) && answers[2].value == t.dtvs[tp].entries[2].address
    ensures !SlotHolds(t.dtvs, t.host, tp, 2)
  {
    hide LaidOut, Inv, Installed, AllSeeded, HoldsImage, SlotHolds, Register, Rises;
    var yes: Writable := (a, n) => true;
    var no: Writable := (a, n) => false;
    t := new Template(memory, Rising(1));
    assert Rises(t.host) by { NothingLive(t.host); }
    NothingTooLarge(EMPTY, tp, yes);
    var seeded := t.SeedThreadBlock(tp, yes);
    assert seeded.Done?;
    TwoModules();
    var one := t.RegisterModule(1, [], 8, 8, 0);
    var two := t.RegisterModule(2, [], 8, 8, 0);
    TwoSizes(t.registry);
    NothingTooLarge(t.registry, tp, yes);
    NothingTooLarge(t.registry, tp, no);
    var first := t.ResolveAddress(tp, 1, 0, yes);
    assert first.Done?;
    var second := t.ResolveAddress(tp, 2, 0, no);
    assert second == Failed(InstallFailed);
    var third := t.ResolveAddress(tp, 2, 0, yes);
    answers := [first, second, third];
  }

  lemma NothingLive(h: Heap)
    requires h.live == map[] && h.supply == Rising(1)
    ensures Rises(h)
  {
  }

  lemma TwoSizes(r: Registry)
    requires r == Registry(map[1 := SMALL, 2 := SMALL.(staticOffset := 16)], 16, 8, 2)
    ensures LookupSize(r, 1) == LookupSize(r, 2) == 48
  {
    assert MaximumId(r.modules) == 2;
  }
}
