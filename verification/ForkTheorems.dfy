/** What forking an address space guarantees when no page allocation fails. */
module ForkTheorems {
  import opened Common
  import opened PagePool
  import opened PageTables
  import opened Mmu
  import opened AddressSpace
  import opened Process

  // ----- copying

  /** Virtual pages [v, v+n) of `to` have their own physical pages, none of them used by `from`. */
  ghost predicate Apart(from: map<nat, nat>, to: map<nat, nat>, n: AddressSpace.Layout) {
    && (forall u, w :: InRegion(n, u) && InRegion(n, w) && u != w ==> PageAt(to, u) != PageAt(to, w))
    && (forall u, w :: InRegion(n, u) && InRegion(n, w) ==> PageAt(to, u) != PageAt(from, w))
  }

  /** `r` holds at `to` what `pages` holds at `from`, for one virtual page. */
  ghost predicate SameBytes(pages: map<nat, Bytes>, r: map<nat, Bytes>, from: map<nat, nat>, to: map<nat, nat>,
      u: nat)
  {
    && PageAt(from, u) in pages && PageAt(to, u) in r
    && r[PageAt(to, u)] == pages[PageAt(from, u)]
  }

  ghost predicate Spared(to: map<nat, nat>, v: nat, k: nat, page: nat) {
    forall u :: v <= u < v + k ==> PageAt(to, u) != page
  }

  lemma {:induction false} CopyRangeCopies(pages: map<nat, Bytes>, from: map<nat, nat>, to: map<nat, nat>,
      n: AddressSpace.Layout, v: nat, k: nat)
    requires Backed(pages, from, v, k) && Backed(pages, to, v, k) && Apart(from, to, n)
    requires forall u :: v <= u < v + k ==> InRegion(n, u)
    ensures var r := CopyRange(pages, from, to, v, k);
      && (forall u :: v <= u < v + k ==> SameBytes(pages, r, from, to, u))
      && (forall q :: q in pages && Spared(to, v, k, q) ==> r[q] == pages[q])
  {
    hide PageAt, InRegion, SameBytes, Spared, Apart;
    if k > 0 {
      CopyRangeCopies(pages, from, to, n, v, k - 1);
      assert InRegion(n, v + k - 1) && PageAt(from, v + k - 1) in pages;
      CopyStep(pages, CopyRange(pages, from, to, v, k - 1), from, to, n, v, k);
    }
  }

  lemma CopyStep(pages: map<nat, Bytes>, r1: map<nat, Bytes>, from: map<nat, nat>, to: map<nat, nat>,
      n: AddressSpace.Layout, v: nat, k: nat)
    requires k > 0 && Apart(from, to, n) && r1.Keys == pages.Keys && PageAt(from, v + k - 1) in pages
    requires forall u :: v <= u < v + k ==> InRegion(n, u)
    requires forall u :: v <= u < v + k - 1 ==> SameBytes(pages, r1, from, to, u)
    requires forall q :: q in pages && Spared(to, v, k - 1, q) ==> r1[q] == pages[q]
    ensures var r := CopyOne(r1, from, to, v + k - 1);
      && (forall u :: v <= u < v + k ==> SameBytes(pages, r, from, to, u))
      && (forall q :: q in pages && Spared(to, v, k, q) ==> r[q] == pages[q])
  {
    hide PageAt, InRegion;
    var last, r := v + k - 1, CopyOne(r1, from, to, v + k - 1);
    assert Spared(to, v, k - 1, PageAt(from, last));
    forall u | v <= u < last
      ensures SameBytes(pages, r, from, to, u)
    {
      assert InRegion(n, u) && SameBytes(pages, r1, from, to, u);
    }
    forall q | q in pages && Spared(to, v, k, q)
      ensures r[q] == pages[q]
    {
      assert Spared(to, v, k - 1, q) && PageAt(to, last) != q;
    }
  }

  /** Every page of the child is a byte-for-byte copy, and every page that is not the child's is
      left alone. */
  ghost predicate Copied(pages: map<nat, Bytes>, r: map<nat, Bytes>, from: map<nat, nat>, to: map<nat, nat>,
      n: AddressSpace.Layout)
  {
    && r.Keys == pages.Keys
    && (forall u :: InRegion(n, u) ==> SameBytes(pages, r, from, to, u))
    && (forall q :: q in pages && (forall u :: InRegion(n, u) ==> PageAt(to, u) != q) ==> r[q] == pages[q])
  }

  lemma CopySpaceCopies(pages: map<nat, Bytes>, from: map<nat, nat>, to: map<nat, nat>, n: AddressSpace.Layout)
    requires Fits(n) && Apart(from, to, n) && BackedSpace(pages, from, n) && BackedSpace(pages, to, n)
    ensures Copied(pages, CopySpace(pages, from, to, n), from, to, n)
  {
    hide PageAt, CopyRange;
    var low, high := n.code + n.data, STACK_END - n.stack;
    var r1 := CopyRange(pages, from, to, FIRST_PAGE, low);
    CopyRangeCopies(pages, from, to, n, FIRST_PAGE, low);
    CopyRangeCopies(r1, from, to, n, high, n.stack);
    var r := CopySpace(pages, from, to, n);
    forall u: nat | InRegion(n, u)
      ensures SameBytes(pages, r, from, to, u)
    {
      if u < FIRST_PAGE + low {
        assert SameBytes(pages, r1, from, to, u);
        assert Spared(to, high, n.stack, PageAt(to, u));
      } else {
        assert SameBytes(r1, r, from, to, u);
        assert Spared(to, FIRST_PAGE, low, PageAt(from, u));
      }
    }
    forall q | q in pages && (forall u :: InRegion(n, u) ==> PageAt(to, u) != q)
      ensures r[q] == pages[q]
    {
      assert Spared(to, FIRST_PAGE, low, q) && Spared(to, high, n.stack, q);
    }
  }

  /** Forking with enough free pages: the child's view of memory equals the parent's, the parent's
      pages are untouched, and no physical page is shared. */
  lemma ForkIsIsolated(pages: map<nat, Bytes>, parent: map<nat, nat>, free: seq<nat>, n: AddressSpace.Layout)
    requires Fits(n) && RealPages(free) && NoRepeats(free) && n.code + n.data + n.stack <= |free|
    requires Owned(pages, parent, free, n) && forall p :: p in free ==> p in pages
    ensures var child := Setup(free, n).view;
      && BackedSpace(pages, parent, n) && BackedSpace(pages, child, n)
      && Copied(pages, CopySpace(pages, parent, child, n), parent, child, n)
      && (forall u :: InRegion(n, u) ==> SameBytes(pages, CopySpace(pages, parent, child, n), parent, parent, u))
      && Apart(parent, child, n)
  {
    hide PageAt, Setup, CopySpace, SameBytes;
    var child := Setup(free, n).view;
    ChildApart(parent, free, n);
    assert forall u :: FIRST_PAGE <= u < FIRST_PAGE + n.code + n.data ==> InRegion(n, u);
    assert forall u :: STACK_END - n.stack <= u < STACK_END ==> InRegion(n, u);
    CopySpaceCopies(pages, parent, child, n);
    ParentUntouched(pages, CopySpace(pages, parent, child, n), parent, child, n);
  }

  /** Forking a process whose pages are all its own, with enough pages free: the child's memory is
      a copy of the parent's, both mappings are apart, and the parent is untouched. */
  method Fork(parent: Process, pool: PageStack, memory: Memory) returns (child: Process)
    requires parent.Ready(pool) && memory.Valid() && Fits(parent.Counts())
    requires NoRepeats(pool.Contents()) && forall p :: p in pool.Contents() ==> p in memory.pages
    requires Total(parent.Counts()) <= |pool.Contents()|
    requires Owned(memory.pages, parent.table.Mapping(), pool.Contents(), parent.Counts())
    modifies pool`currentTop, memory
    ensures fresh(child) && fresh(child.table.Repr()) && child.Ready(pool) && parent.Ready(pool) && memory.Valid()
    ensures child.Counts() == old(parent.Counts()) && child.registers == old(parent.registers)
    ensures parent.Counts() == old(parent.Counts()) && parent.table.Mapping() == old(parent.table.Mapping())
    ensures child.State(pool) == Setup(old(pool.Contents()), child.Counts())
    ensures Apart(parent.table.Mapping(), child.table.Mapping(), child.Counts())
    ensures Copied(old(memory.pages), memory.pages, parent.table.Mapping(), child.table.Mapping(), child.Counts())
  {
    hide TranslationTable.Valid, TranslationTable.Mapping, TranslationTable.Repr, PageAt, RealPages, Setup, CopySpace,
         BackedSpace, NoRepeats, Apart, Copied;
    ghost var n, free, from, pages := parent.Counts(), pool.Contents(), parent.table.Mapping(), memory.pages;
    ForkIsIsolated(pages, from, free, n);
    Translating(parent.table);
    Process.Known(parent.table);
    ghost var parents := parent.table.Repr();
    assert allocated(parents);
    var table := new TranslationTable(2048, parent.table.directory.variant, parent.table.virtualToPhysical);
    assert parent.table.Repr() == parents && parents !! table.Repr() && {pool, pool.memory} !! table.Repr();
    Process.Known(table);
    ghost var mine := table.Repr();
    assert allocated(mine);
    child := new Process.Forked(parent, table);
    assert table.Valid() && table.Repr() == mine && child !in mine;
    label Filling:
    child.ForkFrom(parent, pool, memory, from, pages, Setup(free, n));
    assert forall o :: o in table.Repr() && o !in mine ==> fresh@Filling(o);
    assert forall o :: o in table.Repr() && o !in mine ==> fresh(o);
  }

  lemma Translating(t: TranslationTable)
    requires t.Valid()
    ensures TableLayout.Translates(t.virtualToPhysical)
  {
  }

  ghost function Total(n: AddressSpace.Layout): nat {
    n.code + n.data + n.stack
  }

  /** Every page of the regions is backed by memory and is not free. */
  ghost predicate Owned(pages: map<nat, Bytes>, m: map<nat, nat>, free: seq<nat>, n: AddressSpace.Layout) {
    forall u :: InRegion(n, u) ==> PageAt(m, u) in pages && PageAt(m, u) !in free
  }

  lemma ParentUntouched(pages: map<nat, Bytes>, r: map<nat, Bytes>, from: map<nat, nat>, to: map<nat, nat>,
      n: AddressSpace.Layout)
    requires Copied(pages, r, from, to, n) && Apart(from, to, n)
    ensures forall u :: InRegion(n, u) ==> SameBytes(pages, r, from, from, u)
  {
    hide PageAt, InRegion;
    forall u: nat | InRegion(n, u)
      ensures SameBytes(pages, r, from, from, u)
    {
      assert SameBytes(pages, r, from, to, u);
      assert forall w :: InRegion(n, w) ==> PageAt(to, w) != PageAt(from, u);
    }
  }

  // ----- forking in a running system

  lemma {:induction false} CountsDistinct(s: seq<nat>)
    requires forall p :: multiset(s)[p] <= 1
    ensures NoRepeats(s)
  {
    if s != [] {
      var n := |s| - 1;
      assert s == s[..n] + [s[n]];
      forall p
        ensures multiset(s[..n])[p] <= 1 && (p == s[n] ==> p !in s[..n])
      {
        assert multiset(s)[p] == multiset(s[..n])[p] + multiset([s[n]])[p];
      }
      CountsDistinct(s[..n]);
      assert forall i :: 0 <= i < n ==> s[i] in s[..n];
    }
  }

  /** In every run from a pool of distinct pages, any live process owns its pages: none is free. */
  lemma ProcessesOwnPages(states: seq<System>, events: seq<Event>, pool: seq<nat>, k: nat, i: nat,
      pages: map<nat, Bytes>)
    requires IsRun(states, events, pool) && RealPages(pool) && NoRepeats(pool) && k <= |events| && i < |states[k].procs|
    requires 0 in pages && forall p :: p in pool ==> p in pages
    ensures RealPages(states[k].free) && NoRepeats(states[k].free) && Fits(states[k].procs[i].n)
    ensures forall p :: p in states[k].free ==> p in pages
    ensures Owned(pages, states[k].procs[i].view, states[k].free, states[k].procs[i].n)
  {
    hide InUse, RealPages, NoRepeats, PageAt, Mapped;
    var s := states[k];
    var view := s.procs[i].view;
    EveryRunConserves(states, events, pool, k);
    PagesStayDisjoint(states, events, pool, k);
    CountsDistinct(s.free);
    MappedAt(s.procs, i);
    assert forall p :: p in multiset(pool) <==> p in pool;
    assert ProcOk(s.procs[i]);
    NullIsNotFree(s.free);
    forall u | InRegion(s.procs[i].n, u)
      ensures PageAt(view, u) in pages && PageAt(view, u) !in s.free
    {
      if PageAt(view, u) != 0 {
        PageInUse(view, u);
        assert PageAt(view, u) in Known(s);
      }
    }
    forall p | p in s.free
      ensures p in pages
    {
      assert p in Known(s);
    }
  }

  lemma NullIsNotFree(free: seq<nat>)
    requires RealPages(free)
    ensures 0 !in free
  {
  }

  /** So in every run, forking any live process with enough pages free gives an isolated copy. */
  lemma ForkInEveryRun(states: seq<System>, events: seq<Event>, pool: seq<nat>, k: nat, i: nat, pages: map<nat, Bytes>)
    requires IsRun(states, events, pool) && RealPages(pool) && NoRepeats(pool) && k <= |events| && i < |states[k].procs|
    requires 0 in pages && forall p :: p in pool ==> p in pages
    requires Total(states[k].procs[i].n) <= |states[k].free|
    ensures var n, parent := states[k].procs[i].n, states[k].procs[i].view;
      && Fits(n)
      && var child := Setup(states[k].free, n).view;
      && BackedSpace(pages, parent, n) && BackedSpace(pages, child, n) && Apart(parent, child, n)
      && Copied(pages, CopySpace(pages, parent, child, n), parent, child, n)
  {
    hide RealPages, NoRepeats, Setup, CopySpace, BackedSpace, Apart, Copied, Owned;
    ProcessesOwnPages(states, events, pool, k, i, pages);
    ForkIsIsolated(pages, states[k].procs[i].view, states[k].free, states[k].procs[i].n);
  }

  // ----- later writes

  /** A write by the parent or the child to its own virtual page `u`. */
  datatype Store = Store(byParent: bool, u: nat, offset: nat, value: bv8)

  function Stored(pages: map<nat, Bytes>, page: nat, offset: nat, value: bv8): map<nat, Bytes> {
    if page in pages && offset < |pages[page]| then pages[page := pages[page][offset := value]] else pages
  }

  /** Memory after the stores, each through its own process's mapping. */
  ghost function AfterStores(pages: map<nat, Bytes>, parent: map<nat, nat>, child: map<nat, nat>, stores: seq<Store>)
    : map<nat, Bytes>
  {
    if stores == [] then pages
    else
      var s := stores[|stores| - 1];
      Stored(AfterStores(pages, parent, child, stores[..|stores| - 1]),
             PageAt(if s.byParent then parent else child, s.u), s.offset, s.value)
  }

  /** The stores of one of the two, in order. */
  function OnlyBy(byParent: bool, stores: seq<Store>): seq<Store> {
    if stores == [] then []
    else
      OnlyBy(byParent, stores[..|stores| - 1])
      + if stores[|stores| - 1].byParent == byParent then [stores[|stores| - 1]] else []
  }

  ghost predicate InRegions(stores: seq<Store>, n: AddressSpace.Layout) {
    forall i :: 0 <= i < |stores| ==> InRegion(n, stores[i].u)
  }

  ghost function View(pages: map<nat, Bytes>, m: map<nat, nat>, u: nat): Bytes {
    Content(pages, PageAt(m, u))
  }

  function Content(pages: map<nat, Bytes>, page: nat): Bytes {
    if page in pages then pages[page] else []
  }

  lemma SameStore(a: map<nat, Bytes>, b: map<nat, Bytes>, page: nat, offset: nat, value: bv8, q: nat)
    requires Content(a, q) == Content(b, q)
    ensures Content(Stored(a, page, offset, value), q) == Content(Stored(b, page, offset, value), q)
  {
  }

  lemma StoreElsewhere(a: map<nat, Bytes>, page: nat, offset: nat, value: bv8, q: nat)
    requires q != page
    ensures Content(Stored(a, page, offset, value), q) == Content(a, q)
  {
  }

  /** Whatever the two write, in any order: each sees the memory it would see if the other had
      written nothing. */
  lemma {:induction false} LaterWritesInvisible(pages: map<nat, Bytes>, parent: map<nat, nat>, child: map<nat, nat>,
      n: AddressSpace.Layout, stores: seq<Store>, byParent: bool, u: nat)
    requires Apart(parent, child, n) && InRegions(stores, n) && InRegion(n, u)
    ensures var mine := if byParent then parent else child;
      View(AfterStores(pages, parent, child, stores), mine, u)
      == View(AfterStores(pages, parent, child, OnlyBy(byParent, stores)), mine, u)
  {
    hide PageAt, InRegion, Stored, Content;
    if stores != [] {
      var mine := if byParent then parent else child;
      var before, s := stores[..|stores| - 1], stores[|stores| - 1];
      assert InRegion(n, s.u);
      LaterWritesInvisible(pages, parent, child, n, before, byParent, u);
      var own := OnlyBy(byParent, before);
      var a, b := AfterStores(pages, parent, child, before), AfterStores(pages, parent, child, own);
      if s.byParent == byParent {
        assert (own + [s])[..|own|] == own;
        SameStore(a, b, PageAt(mine, s.u), s.offset, s.value, PageAt(mine, u));
      } else {
        assert OnlyBy(byParent, stores) == own;
        StoreElsewhere(a, PageAt(if s.byParent then parent else child, s.u), s.offset, s.value, PageAt(mine, u));
      }
    }
  }

  lemma ChildApart(parent: map<nat, nat>, free: seq<nat>, n: AddressSpace.Layout)
    requires Fits(n) && RealPages(free) && NoRepeats(free) && n.code + n.data + n.stack <= |free|
    requires forall u :: InRegion(n, u) ==> PageAt(parent, u) !in free
    ensures Apart(parent, Setup(free, n).view, n)
    ensures forall u :: InRegion(n, u) ==> PageAt(Setup(free, n).view, u) in free
  {
    hide Setup, PageAt, RealPages;
    var child := Setup(free, n).view;
    forall u: nat | InRegion(n, u)
      ensures PageAt(child, u) in free && 0 <= AllocationIndex(n, u) < |free|
        && PageAt(child, u) == Taken(free, AllocationIndex(n, u))
    {
      SetupPages(free, n, u);
    }
    forall u, w | InRegion(n, u) && InRegion(n, w) && u != w
      ensures PageAt(child, u) != PageAt(child, w)
    {
      assert AllocationIndex(n, u) != AllocationIndex(n, w);
    }
  }
}
