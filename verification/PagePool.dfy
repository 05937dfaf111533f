/** The pool of free physical pages: a stack in preallocated space, filled once at boot. */
module PagePool {
  import opened Arithmetic
  import opened Common

  const PAGE: nat := 4096

  class PageStack {
    const memory: array<nat>
    var currentTop: int

    ghost predicate Valid()
      reads this
    {
      -1 <= currentTop < memory.Length
    }

    ghost function Contents(): (s: seq<nat>)
      requires Valid()
      reads this, memory
      ensures |s| == currentTop + 1
    {
      memory[..currentTop + 1]
    }

    constructor (capacity: nat)
      ensures Valid() && Contents() == [] && memory.Length == capacity && fresh(memory)
    {
      memory := new nat[capacity](_ => 0);
      currentTop := -1;
    }

    method IsEmpty() returns (empty: bool)
      requires Valid()
      ensures empty <==> Contents() == []
    {
      empty := currentTop == -1;
    }

    /** The caller must not push more pages than there is room for. */
    method Push(page: nat)
      requires Valid() && |Contents()| < memory.Length
      modifies this`currentTop, memory
      ensures Valid() && Contents() == old(Contents()) + [page]
    {
      currentTop := currentTop + 1;
      memory[currentTop] := page;
    }

    method Pop() returns (page: nat)
      requires Valid() && Contents() != []
      modifies this`currentTop
      ensures Valid() && old(Contents()) == Contents() + [page]
    {
      page := memory[currentTop];
      currentTop := currentTop - 1;
    }

    /** `mm::allocate_page` once the pool exists: null when it is empty. */
    method AllocatePage() returns (page: nat)
      requires Valid()
      modifies this`currentTop
      ensures Valid()
      ensures page == TopOrNull(old(Contents())) && Contents() == Rest(old(Contents()))
    {
      var empty := IsEmpty();
      if empty {
        return 0;
      }
      page := Pop();
    }
  }

  ghost function TopOrNull(free: seq<nat>): nat {
    if free == [] then 0 else free[|free| - 1]
  }

  ghost function Rest(free: seq<nat>): seq<nat> {
    if free == [] then [] else free[..|free| - 1]
  }

  /** Pages of the pool are aligned and none is null. */
  ghost predicate RealPages(pages: seq<nat>) {
    forall p :: p in pages ==> p != 0 && p % PAGE == 0
  }

  // ----- boot

  ghost function PagesFrom(start: nat, n: nat): seq<nat> {
    seq(n, i => start + i * PAGE)
  }

  /** The pages from an aligned, non-null address on are real and all different. */
  lemma PagesFromAreReal(start: nat, n: nat)
    requires start > 0 && start % PAGE == 0
    ensures RealPages(PagesFrom(start, n)) && NoRepeats(PagesFrom(start, n))
  {
  }

  /** With just as many pages as it takes to reach `end`, these are all that start in front of it. */
  lemma PagesUpTo(start: nat, n: nat, end: nat)
    requires start + n * 4096 >= end && (n > 0 ==> start + (n - 1) * 4096 < end)
    ensures forall p :: p in PagesFrom(start, n) <==> start <= p < end && (p - start) % 4096 == 0
  {
    forall p | start <= p < end && (p - start) % 4096 == 0
      ensures p in PagesFrom(start, n)
    {
      assert PagesFrom(start, n)[(p - start) / 4096] == p;
    }
  }

  /** Number of pages the boot code reserves room for. */
  function PoolCapacity(ramStart: nat, ramSize: nat, dataspaceEnd: nat): int {
    ramSize / PAGE - (dataspaceEnd - ramStart) / PAGE
  }

  /** Filling the pool at boot pushes every page of free RAM, and exactly as many as the
      capacity computed beforehand: the pool starts out full and never overflowed. */
  method FillPool(ramStart: nat, ramSize: nat, dataspaceEnd: nat) returns (pool: PageStack)
    requires ramSize % PAGE == 0 && ramStart <= dataspaceEnd <= ramStart + ramSize <= U32 - PAGE
    ensures fresh(pool) && fresh(pool.memory) && pool.Valid()
    ensures pool.Contents() == PagesFrom(dataspaceEnd, pool.memory.Length)
    ensures pool.memory.Length == PoolCapacity(ramStart, ramSize, dataspaceEnd)
    ensures forall p :: p in pool.Contents() <==>
      dataspaceEnd <= p < ramStart + ramSize && (p - dataspaceEnd) % 4096 == 0
    ensures dataspaceEnd > 0 && dataspaceEnd % PAGE == 0 ==> RealPages(pool.Contents()) && NoRepeats(pool.Contents())
  {
    var capacity := PoolCapacity(ramStart, ramSize, dataspaceEnd);
    pool := new PageStack(capacity);
    var address := dataspaceEnd;
    ghost var n := 0;
    while address < ramStart + ramSize
      invariant fresh(pool) && fresh(pool.memory) && pool.memory.Length == capacity
      invariant pool.Valid() && pool.Contents() == PagesFrom(dataspaceEnd, n)
      invariant address == dataspaceEnd + n * PAGE && address < U32
      invariant n <= capacity && (n > 0 ==> dataspaceEnd + (n - 1) * PAGE < ramStart + ramSize)
      decreases ramStart + ramSize - address
    {
      pool.Push(address);
      address := Wrap(address + PAGE);
      n := n + 1;
    }
    assert n == capacity;
    PagesUpTo(dataspaceEnd, n, ramStart + ramSize);
    if dataspaceEnd > 0 && dataspaceEnd % PAGE == 0 {
      PagesFromAreReal(dataspaceEnd, capacity);
    }
  }
}
