/** What a caller of the region table gets, in bytes and pages: when a request succeeds, which pages it adds,
    changes or removes, and that every other page stays as it was. */
module HostMemoryRequests {
  import opened HostMemoryModel
  import opened Words

  /** The span of whole pages from the address meets a tracked region; one that wraps does when a single region
      holds its start and begins below its end. */
  ghost predicate Crosses(m: Plain, address: U64, length: nat) {
    if address + length < TWO64 then exists p: nat :: p in m && p * PAGE < address + length && address < (p + 1) * PAGE
    else address / PAGE in m && m[address / PAGE].base * PAGE < address + length - TWO64
  }

  /** An allocation that reaches from p to q holds every page between them. */
  lemma PagesBetween(m: Plain, p: nat, q: nat, t: nat)
    requires WellFormed(m) && SameAllocation(m, p, q) && p <= t <= q
    ensures t in m && m[t].base == m[q].base <= p
  {
  }

  lemma OverlapCrosses(m: Plain, address: U64, length: nat, p: nat, q: nat)
    requires WellFormed(m) && 0 < length <= TWO64 && SameAllocation(m, p, q)
    requires p * PAGE < Wrap64(address + length) && address < q * PAGE + PAGE
    ensures Crosses(m, address, length)
  {
    var t := address / PAGE;
    if address + length < TWO64 && address < (p + 1) * PAGE {
      assert p * PAGE < address + length;
    } else {
      assert p <= t <= q;
      PagesBetween(m, p, q, t);
      assert t * PAGE <= address < (t + 1) * PAGE;
    }
  }

  lemma CrossesOverlap(m: Plain, address: U64, length: nat)
    requires WellFormed(m) && 0 < length <= TWO64 && Crosses(m, address, length)
    ensures Overlaps(m, address, length)
  {
    if address + length < TWO64 {
      var p: nat :| p in m && p * PAGE < address + length && address < (p + 1) * PAGE;
      assert SameAllocation(m, p, p);
    } else {
      assert SameAllocation(m, m[address / PAGE].base, address / PAGE);
    }
  }

  lemma OverlapsIff(m: Plain, address: U64, length: nat)
    requires WellFormed(m) && 0 < length <= TWO64
    ensures Overlaps(m, address, length) <==> Crosses(m, address, length)
  {
    hide Crosses, WellFormed;
    if Overlaps(m, address, length) {
      var p: nat, q: nat :|
        SameAllocation(m, p, q) && p * PAGE < Wrap64(address + length) && address < q * PAGE + PAGE;
      OverlapCrosses(m, address, length, p, q);
    }
    if Crosses(m, address, length) { CrossesOverlap(m, address, length); }
  }

  /** The request asks for a reservation of something, the place asked for is free, and the host maps that place or any
      place when none is asked for. */
  ghost predicate Placed(m: Plain, address: U64, size: U64, kind: U32, host: Host) {
    && size > 0 && (kind / 0x2000) % 2 == 1 && host.mapped.Some?
    && (address != 0 ==>
          host.mapped.value * PAGE == address && !Crosses(m, address, (size + PAGE - 1) / PAGE * PAGE))
  }

  lemma ReserveBit(kind: U32)
    ensures BitAnd(kind, MEM_RESERVE) != 0 <==> (kind / 0x2000) % 2 == 1
  {
    BitAndIsBit(kind, 13);
    assert Pow2(13) == 0x2000 by {
      Pow2Known();
    }
  }

  lemma AndDouble(x: nat, d: nat)
    ensures BitAnd(x, 2 * d) == 2 * BitAnd(x / 2, d)
  {
  }

  lemma AndOne(x: nat)
    ensures BitAnd(x, 1) == x % 2
  {
    assert BitAnd(x / 2, 0) == 0;
  }

  lemma {:induction false} BitAndIsBit(x: nat, k: nat)
    ensures BitAnd(x, Pow2(k)) != 0 <==> (x / Pow2(k)) % 2 == 1
  {
    hide BitAnd;
    if k == 0 {
      AndOne(x);
    } else {
      var d := Pow2(k - 1);
      assert Pow2(k) == 2 * d;
      BitAndIsBit(x / 2, k - 1);
      AndDouble(x, d);
      HalfQuotient(x, d);
    }
  }

  lemma HalfQuotient(x: nat, d: nat)
    requires d > 0
    ensures x / (2 * d) == x / 2 / d
  {
    var q, r := x / 2 / d, (x / 2) % d;
    assert x == 2 * (q * d + r) + x % 2;
    assert 2 * (q * d) == q * (2 * d);
    DivModUnique(x, 2 * d, q, 2 * r + x % 2);
  }

  /** A reserving request returns the place exactly when it is placed, and otherwise 0 with nothing changed. */
  lemma ReserveReturns(m: Plain, address: U64, size: U64, kind: U32, protect: U32, host: Host)
    requires WellFormed(m) && size / PAGE < PAGES - 1
    requires !(kind == 0x1000 && address != 0 && address / PAGE in m)
    ensures var (r, m') := Alloc(m, address, size, kind, protect, host);
      if Placed(m, address, size, kind, host)
      then r == Returned(host.mapped.value * PAGE) && (address != 0 ==> r == Returned(address))
      else r == Returned(0) && m' == m
  {
    hide Overlaps, Crosses, BitAnd, AddPages;
    ReserveBit(kind);
    if size > 0 { OverlapsIff(m, address, Ceil(size) * PAGE); }
  }

  /** Exactly the pages that hold a byte of the place are new, as one allocation with the protection asked for;
      every other page is as it was. */
  lemma ReserveEffect(m: Plain, address: U64, size: U64, kind: U32, protect: U32, host: Host)
    requires WellFormed(m) && HostContract(m, size, host) && 0 < size && size / PAGE < PAGES - 1
    requires !(kind == 0x1000 && address != 0 && address / PAGE in m)
    requires Placed(m, address, size, kind, host)
    ensures var (r, m') := Alloc(m, address, size, kind, protect, host);
      && r.Returned? && r.value >= 0 && r.value % PAGE == 0
      && (forall p: nat :: p in m' <==> p in m || Requested(r.value, size, p))
      && (forall p: nat :: Requested(r.value, size, p) ==> p !in m && m'[p] == Cell(r.value / PAGE, protect))
      && (forall p: nat :: p in m ==> m'[p] == m[p])
  {
    hide Overlaps, Crosses, BitAnd;
    ReserveBit(kind);
    OverlapsIff(m, address, Ceil(size) * PAGE);
    var base := host.mapped.value;
    forall p: nat ensures Requested(base * PAGE, size, p) <==> base <= p < base + Ceil(size) {
      if p >= base { CeilCovers(size, p - base); }
    }
  }

  /** A commit of tracked memory that does not throw returns the address exactly when the host grants it and the
      rounded request does not wrap, and otherwise 0 with nothing changed. */
  lemma CommitReturns(m: Plain, address: U64, size: U64, protect: U32, host: Host)
    requires 0 < size && address != 0 && address / PAGE in m
    requires Alloc(m, address, size, 0x1000, protect, host).0.Returned?
    ensures var (r, m') := Alloc(m, address, size, 0x1000, protect, host);
      if host.granted && address + (size + PAGE - 1) / PAGE * PAGE < TWO64 then r == Returned(address)
      else r == Returned(0) && m' == m
  {
    hide SetPages;
    var end := address + Ceil(size) * PAGE;
    if end >= TWO64 { SameOffsetBelow(end - TWO64, address, Ceil(size)); }
  }

  /** A release of a region's base answers what the host does and removes exactly that allocation's pages; any
      other release answers no and changes nothing. */
  lemma FreeEffect(m: Plain, address: U64, host: Host)
    ensures var p := address / PAGE;
      var (r, m') := Free(m, address, host);
      if address % PAGE == 0 && p in m && m[p].base == p then
        && r == host.granted
        && (forall q: nat :: q in m' <==> q in m && m[q].base != p)
        && (forall q: nat :: q in m' ==> m'[q] == m[q])
      else !r && m' == m
  {
  }

  /** A protect that does not throw succeeds exactly when all the pages asked for belong to one allocation and
      the host grants it; one that wraps, when its end comes back into or just before its first page, which
      must be tracked, and into it only if the host grants it. Otherwise nothing changes. */
  lemma ProtectReturns(m: Plain, address: U64, size: U64, protect: U32, host: Host)
    requires Protect(m, address, size, protect, host).0.Returned?
    ensures var (r, m') := Protect(m, address, size, protect, host);
      var start := address / PAGE;
      && (r.value <==>
            if size == 0 then false
            else if address + size < TWO64 then
              && host.granted && start in m
              && forall p: nat :: Requested(address, size, p) ==> p in m && m[p].base == m[start].base
            else
              var back := address + size - TWO64;
              start in m && (start - 1) * PAGE < back && (start * PAGE < back ==> host.granted))
      && (!r.value ==> m' == m)
  {
    hide SetPages;
    var sum := Wrap64(address + size);
    assert sum == if address + size < TWO64 then address + size else address + size - TWO64;
    forall p: nat ensures p < Ceil(sum) <==> p * PAGE < sum { CeilCovers(sum, p); }
    CeilCovers(sum, address / PAGE);
    CeilCovers(sum, address / PAGE + 1);
  }

  /** An untracked page is reported as a free block that ends at the next tracked page, or after the page itself
      when there is none. */
  lemma FreeBlockIs(m: Plain, page: nat)
    requires WellFormed(m) && page !in m
    ensures var end := QueryEnd(m, page);
      if exists p: nat :: p > page && p in m then end > page && end in m && forall p: nat :: page < p < end ==> p !in m
      else end == page + 1
  {
    hide RunEnd;
    if p: nat :| p > page && p in m { assert p + 1 < PAGES; }
  }
}
