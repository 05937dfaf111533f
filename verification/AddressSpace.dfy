/** Building and destroying process address spaces over the page pool: where every page goes. */
module AddressSpace {
  import opened Common
  import opened PagePool
  import opened PageTables
  import opened Mmu

  /** Virtual page numbers: code starts at 0x1000, the stack ends at 0x80000000. */
  const FIRST_PAGE: nat := 1
  const STACK_END: nat := 0x8_0000
  /** Pages of DEFAULT_STACK_SIZE. */
  const STACK_PAGES: nat := 4

  /** A mapping under construction together with the page pool it draws on. */
  datatype Space = Space(view: map<nat, nat>, free: seq<nat>)

  /** Page counts of a process. */
  datatype Layout = Layout(code: nat, data: nat, stack: nat)

  /** Code and data end below the stack and below the region the destructor takes for the stack. */
  predicate Fits(n: Layout) {
    FIRST_PAGE + n.code + n.data + STACK_PAGES <= STACK_END && FIRST_PAGE + n.code + n.data + n.stack <= STACK_END
  }

  // ----- set-up and tear-down

  ghost function MapNew(s: Space, v: nat, p: Permissions, t: IntervalType): Space {
    Space(s.view[v := Descriptor(TopOrNull(s.free), p, t, false)], Rest(s.free))
  }

  ghost function MapUp(s: Space, v: nat, n: nat, p: Permissions, t: IntervalType): Space {
    if n == 0 then s else MapNew(MapUp(s, v, n - 1, p, t), v + n - 1, p, t)
  }

  ghost function MapDown(s: Space, v: nat, n: nat, p: Permissions, t: IntervalType): Space
    requires n <= v
  {
    if n == 0 then s else MapNew(MapDown(s, v, n - 1, p, t), v - n, p, t)
  }

  ghost function Setup(free: seq<nat>, n: Layout): Space
    requires Fits(n)
  {
    var s1 := MapUp(Space(map[], free), FIRST_PAGE, n.code, RW_RO, CODE);
    var s2 := MapUp(s1, FIRST_PAGE + n.code, n.data, RW_RW, DATA);
    MapDown(s2, STACK_END, n.stack, RW_RW, STACK)
  }

  ghost function Unmapped(s: Space, v: nat, n: nat): Space {
    Space(WithoutRange(s.view, v, n), s.free + FreedRange(s.view, v, n))
  }

  /** What the process destructor unmaps: code and data only if there are code pages. */
  ghost function Teardown(s: Space, n: Layout): Space {
    var s1 := if n.code > 0 then Unmapped(s, FIRST_PAGE, n.code + n.data) else s;
    if n.stack > 0 then Unmapped(s1, STACK_END - STACK_PAGES, STACK_PAGES) else s1
  }

  // ----- pages in use

  /** The physical pages mapped at virtual pages [0, STACK_END), with multiplicity. */
  ghost function InUse(view: map<nat, nat>): multiset<nat> {
    multiset(FreedRange(view, 0, STACK_END))
  }

  ghost function Bag(s: Space): multiset<nat> {
    InUse(s.view) + multiset(s.free)
  }

  lemma {:induction false} FreedRangeSame(m: map<nat, nat>, m': map<nat, nat>, v: nat, n: nat)
    requires forall u :: v <= u < v + n ==> Freed(m, u) == Freed(m', u)
    ensures FreedRange(m, v, n) == FreedRange(m', v, n)
  {
    if n > 0 {
      FreedRangeSame(m, m', v, n - 1);
    }
  }

  lemma {:induction false} FreedRangeSplit(m: map<nat, nat>, v: nat, k: nat, n: nat)
    requires k <= n
    ensures FreedRange(m, v, n) == FreedRange(m, v, k) + FreedRange(m, v + k, n - k)
  {
    if k < n {
      FreedRangeSplit(m, v, k, n - 1);
    }
  }

  lemma {:induction false} FreedNothing(m: map<nat, nat>, v: nat, n: nat)
    requires forall u :: v <= u < v + n ==> Freed(m, u) == []
    ensures FreedRange(m, v, n) == []
  {
    if n > 0 {
      FreedNothing(m, v, n - 1);
    }
  }

  /** One virtual page's share of the pages in use. */
  lemma InUseAround(m: map<nat, nat>, v: nat)
    requires v < STACK_END
    ensures InUse(m) == multiset(FreedRange(m, 0, v)) + multiset(Freed(m, v))
                        + multiset(FreedRange(m, v + 1, STACK_END - v - 1))
  {
    hide FreedRange, Freed;
    FreedRangeSplit(m, 0, v, STACK_END);
    FreedRangeSplit(m, v, 1, STACK_END - v);
    FreedOne(m, v);
  }

  lemma FreedOne(m: map<nat, nat>, v: nat)
    ensures FreedRange(m, v, 1) == Freed(m, v)
  {
    assert FreedRange(m, v, 1) == FreedRange(m, v, 0) + Freed(m, v);
  }

  lemma InUseExtended(m: map<nat, nat>, v: nat, d: nat)
    requires v < STACK_END && v !in m
    ensures InUse(m[v := d]) == InUse(m) + multiset(NonNull(PageOf(d)))
  {
    hide PageOf, InUse, FreedRange, NonNull;
    var m' := m[v := d];
    InUseAround(m, v);
    InUseAround(m', v);
    FreedRangeSame(m, m', 0, v);
    FreedRangeSame(m, m', v + 1, STACK_END - v - 1);
    assert Freed(m, v) == [] && Freed(m', v) == NonNull(PageOf(d));
  }

  lemma TakeTop(free: seq<nat>)
    requires RealPages(free)
    ensures TopOrNull(free) % PAGE == 0 && RealPages(Rest(free))
    ensures multiset(free) == multiset(Rest(free)) + multiset(NonNull(TopOrNull(free)))
  {
    if free != [] {
      assert free[|free| - 1] in free;
      assert free == Rest(free) + [TopOrNull(free)];
      assert forall p :: p in Rest(free) ==> p in free;
      assert multiset(NonNull(TopOrNull(free))) == multiset{TopOrNull(free)};
    }
  }

  /** Mapping a fresh page at an unused address moves it from the pool to the mapping. */
  lemma MapNewConserves(s: Space, v: nat, p: Permissions, t: IntervalType)
    requires RealPages(s.free) && v < STACK_END && v !in s.view
    ensures Bag(MapNew(s, v, p, t)) == Bag(s)
    ensures RealPages(MapNew(s, v, p, t).free)
  {
    hide Descriptor, PageOf, InUse, NonNull, TopOrNull, Rest, RealPages;
    var page := TopOrNull(s.free);
    TakeTop(s.free);
    DescriptorPage(page, p, t, false);
    InUseExtended(s.view, v, Descriptor(page, p, t, false));
  }

  ghost function Range(v: nat, n: nat): (r: set<nat>)
    ensures forall u :: u in r <==> v <= u < v + n
  {
    if n == 0 then {} else Range(v, n - 1) + {v + n - 1}
  }

  lemma RangeGrows(v: nat, n: nat)
    ensures Range(v, n + 1) == Range(v, n) + {v + n}
    ensures v > 0 ==> Range(v - 1, n + 1) == Range(v, n) + {v - 1}
  {
  }

  lemma {:induction false} MapUpConserves(s: Space, v: nat, n: nat, p: Permissions, t: IntervalType)
    requires RealPages(s.free) && v + n <= STACK_END && s.view.Keys !! Range(v, n)
    ensures var s' := MapUp(s, v, n, p, t);
      Bag(s') == Bag(s) && RealPages(s'.free) && s'.view.Keys == s.view.Keys + Range(v, n)
  {
    hide Bag, RealPages, Descriptor, Range, TopOrNull, Rest;
    if n > 0 {
      RangeGrows(v, n - 1);
      MapUpConserves(s, v, n - 1, p, t);
      MapNewConserves(MapUp(s, v, n - 1, p, t), v + n - 1, p, t);
    }
  }

  lemma {:induction false} MapDownConserves(s: Space, v: nat, n: nat, p: Permissions, t: IntervalType)
    requires RealPages(s.free) && n <= v <= STACK_END && s.view.Keys !! Range(v - n, n)
    ensures var s' := MapDown(s, v, n, p, t);
      Bag(s') == Bag(s) && RealPages(s'.free) && s'.view.Keys == s.view.Keys + Range(v - n, n)
  {
    hide Bag, RealPages, Descriptor, Range, TopOrNull, Rest;
    if n > 0 {
      RangeGrows(v - n + 1, n - 1);
      MapDownConserves(s, v, n - 1, p, t);
      MapNewConserves(MapDown(s, v, n - 1, p, t), v - n, p, t);
    }
  }

  ghost predicate InRegion(n: Layout, u: nat) {
    FIRST_PAGE <= u < FIRST_PAGE + n.code + n.data || STACK_END - n.stack <= u < STACK_END
  }

  /** Exactly the pages of the three regions are mapped. */
  ghost predicate Covers(view: map<nat, nat>, n: Layout) {
    forall u :: u in view <==> InRegion(n, u)
  }

  /** Building an address space only moves pages from the pool into the mapping, even when the
      pool runs out half-way. */
  lemma SetupConserves(free: seq<nat>, n: Layout)
    requires RealPages(free) && Fits(n)
    ensures var s := Setup(free, n);
      && Bag(s) == multiset(free) && RealPages(s.free) && Covers(s.view, n)
  {
    hide Bag, RealPages, MapUp, MapDown;
    var s0 := Space(map[], free);
    EmptyBag(free);
    var s1 := MapUp(s0, FIRST_PAGE, n.code, RW_RO, CODE);
    var s2 := MapUp(s1, FIRST_PAGE + n.code, n.data, RW_RW, DATA);
    MapUpConserves(s0, FIRST_PAGE, n.code, RW_RO, CODE);
    MapUpConserves(s1, FIRST_PAGE + n.code, n.data, RW_RW, DATA);
    MapDownConserves(s2, STACK_END, n.stack, RW_RW, STACK);
  }

  lemma EmptyBag(free: seq<nat>)
    ensures Bag(Space(map[], free)) == multiset(free)
  {
    FreedNothing(map[], 0, STACK_END);
  }

  lemma InUseWithout(m: map<nat, nat>, v: nat, n: nat)
    requires v + n <= STACK_END
    ensures InUse(m) == InUse(WithoutRange(m, v, n)) + multiset(FreedRange(m, v, n))
  {
    hide InUse, FreedRange, PageOf;
    var m' := WithoutRange(m, v, n);
    RangeAround(m, v, n);
    RangeAround(m', v, n);
    FreedRangeSame(m, m', 0, v);
    FreedRangeSame(m, m', v + n, STACK_END - v - n);
    FreedNothing(m', v, n);
  }

  /** Unmapping a range moves its pages back. */
  lemma UnmappedConserves(s: Space, v: nat, n: nat)
    requires v + n <= STACK_END
    ensures Bag(Unmapped(s, v, n)) == Bag(s)
  {
    hide InUse, FreedRange, WithoutRange;
    InUseWithout(s.view, v, n);
  }

  lemma RangeAround(m: map<nat, nat>, v: nat, n: nat)
    requires v + n <= STACK_END
    ensures InUse(m) == multiset(FreedRange(m, 0, v)) + multiset(FreedRange(m, v, n))
                        + multiset(FreedRange(m, v + n, STACK_END - v - n))
  {
    hide FreedRange;
    FreedRangeSplit(m, 0, v, STACK_END);
    FreedRangeSplit(m, v, n, STACK_END - v);
  }

  lemma TeardownConserves(s: Space, n: Layout)
    requires Fits(n)
    ensures Bag(Teardown(s, n)) == Bag(s)
  {
    hide Bag, Unmapped;
    var s1 := if n.code > 0 then Unmapped(s, FIRST_PAGE, n.code + n.data) else s;
    if n.code > 0 {
      UnmappedConserves(s, FIRST_PAGE, n.code + n.data);
    }
    if n.stack > 0 {
      UnmappedConserves(s1, STACK_END - STACK_PAGES, STACK_PAGES);
    }
  }

  /** Virtual pages still mapped after the destructor has run: the data pages of a process without
      code, and the stack pages below the region of default size. */
  predicate Remains(n: Layout, u: nat) {
    (n.code == 0 && FIRST_PAGE <= u < FIRST_PAGE + n.data) || STACK_END - n.stack <= u < STACK_END - STACK_PAGES
  }

  lemma TeardownLeaves(s: Space, n: Layout)
    requires Fits(n) && Covers(s.view, n)
    ensures Teardown(s, n).view == map u | u in s.view && Remains(n, u) :: s.view[u]
    ensures forall u: nat :: Remains(n, u) ==> u in s.view
  {
  }

  /** A clean process gives its pages back in ascending order of their virtual
      addresses. */
  lemma TeardownInOrder(s: Space, n: Layout)
    requires Fits(n) && Covers(s.view, n) && Clean(n)
    ensures Teardown(s, n).free == s.free + FreedRange(s.view, 0, STACK_END)
  {
    hide FreedRange, InUse;
    var low, base := FIRST_PAGE + n.code + n.data, STACK_END - STACK_PAGES;
    FreedRangeSplit(s.view, 0, FIRST_PAGE, STACK_END);
    FreedRangeSplit(s.view, FIRST_PAGE, n.code + n.data, STACK_END - FIRST_PAGE);
    FreedRangeSplit(s.view, low, base - low, STACK_END - low);
    FreedNothing(s.view, 0, FIRST_PAGE);
    FreedNothing(s.view, low, base - low);
    if n.code == 0 {
      FreedNothing(s.view, FIRST_PAGE, 0);
    }
    if n.stack == 0 {
      FreedNothing(s.view, base, STACK_PAGES);
    }
    FreedRangeSame(WithoutRange(s.view, FIRST_PAGE, n.code + n.data), s.view, base, STACK_PAGES);
  }

  // ----- which pages a new address space gets

  /** The physical page behind virtual page `v`. */
  ghost function PageAt(m: map<nat, nat>, v: nat): nat {
    PageOf(EntryOf(m, v))
  }

  /** Page number `k` taken from the pool, null once it is empty. */
  ghost function Taken(free: seq<nat>, k: nat): nat {
    if k < |free| then free[|free| - 1 - k] else 0
  }

  /** The pool after `k` pages have been taken. */
  ghost function Left(free: seq<nat>, k: nat): seq<nat> {
    if k <= |free| then free[..|free| - k] else []
  }

  lemma TakeNext(free: seq<nat>, k: nat)
    requires RealPages(free)
    ensures TopOrNull(Left(free, k)) == Taken(free, k) && Rest(Left(free, k)) == Left(free, k + 1)
    ensures RealPages(Left(free, k)) && Taken(free, k) % PAGE == 0
    ensures Taken(free, k) != 0 <==> k < |free|
  {
    assert forall p :: p in Left(free, k) ==> p in free;
    if k < |free| {
      assert free[|free| - 1 - k] in free;
    }
  }

  lemma TakenAfter(free: seq<nat>, j: nat, k: nat)
    ensures Taken(Left(free, j), k) == Taken(free, j + k) && Left(Left(free, j), k) == Left(free, j + k)
  {
  }

  lemma MapNewPage(s: Space, v: nat, p: Permissions, t: IntervalType)
    requires TopOrNull(s.free) % PAGE == 0
    ensures var s' := MapNew(s, v, p, t);
      v in s'.view && PageAt(s'.view, v) == TopOrNull(s.free) && s'.free == Rest(s.free)
  {
    hide Descriptor, PageOf;
    DescriptorPage(TopOrNull(s.free), p, t, false);
  }

  lemma {:induction false} MapUpPages(s: Space, v: nat, n: nat, p: Permissions, t: IntervalType)
    requires RealPages(s.free)
    ensures var s' := MapUp(s, v, n, p, t);
      && s'.free == Left(s.free, n)
      && (forall u :: v <= u < v + n ==> u in s'.view && PageAt(s'.view, u) == Taken(s.free, u - v))
      && (forall u :: u < v && u in s.view ==> u in s'.view && s'.view[u] == s.view[u])
  {
    hide PageOf, Descriptor, RealPages;
    if n > 0 {
      MapUpPages(s, v, n - 1, p, t);
      TakeNext(s.free, n - 1);
      MapNewPage(MapUp(s, v, n - 1, p, t), v + n - 1, p, t);
    }
  }

  lemma {:induction false} MapDownPages(s: Space, v: nat, n: nat, p: Permissions, t: IntervalType)
    requires RealPages(s.free) && n <= v
    ensures var s' := MapDown(s, v, n, p, t);
      && s'.free == Left(s.free, n)
      && (forall u :: v - n <= u < v ==> u in s'.view && PageAt(s'.view, u) == Taken(s.free, v - 1 - u))
      && (forall u :: u < v - n && u in s.view ==> u in s'.view && s'.view[u] == s.view[u])
  {
    hide PageOf, Descriptor, RealPages;
    if n > 0 {
      MapDownPages(s, v, n - 1, p, t);
      TakeNext(s.free, n - 1);
      MapNewPage(MapDown(s, v, n - 1, p, t), v - n, p, t);
    }
  }

  /** Order in which the pages of the regions are allocated. */
  ghost function AllocationIndex(n: Layout, u: nat): int {
    if u < FIRST_PAGE + n.code + n.data then u - FIRST_PAGE else n.code + n.data + STACK_END - 1 - u
  }

  /** Every virtual page of the regions gets its own page of the pool, or a null page once all are
      taken. */
  lemma SetupPages(free: seq<nat>, n: Layout, u: nat)
    requires RealPages(free) && Fits(n) && InRegion(n, u)
    ensures 0 <= AllocationIndex(n, u) < n.code + n.data + n.stack
    ensures PageAt(Setup(free, n).view, u) == Taken(free, AllocationIndex(n, u))
  {
    hide MapUp, MapDown, PageAt, RealPages, Taken, Left;
    var s0 := Space(map[], free);
    var s1 := MapUp(s0, FIRST_PAGE, n.code, RW_RO, CODE);
    var s2 := MapUp(s1, FIRST_PAGE + n.code, n.data, RW_RW, DATA);
    var s3 := MapDown(s2, STACK_END, n.stack, RW_RW, STACK);
    assert Setup(free, n) == s3;
    MapUpPages(s0, FIRST_PAGE, n.code, RW_RO, CODE);
    TakeNext(free, n.code);
    MapUpPages(s1, FIRST_PAGE + n.code, n.data, RW_RW, DATA);
    TakenAfter(free, n.code, n.data);
    TakeNext(free, n.code + n.data);
    MapDownPages(s2, STACK_END, n.stack, RW_RW, STACK);
    if u < FIRST_PAGE + n.code {
      SameEntry(s1.view, s2.view, u);
      SameEntry(s2.view, s3.view, u);
    } else if u < FIRST_PAGE + n.code + n.data {
      TakenAfter(free, n.code, u - FIRST_PAGE - n.code);
      SameEntry(s2.view, s3.view, u);
    } else {
      TakenAfter(free, n.code + n.data, STACK_END - 1 - u);
    }
  }

  lemma SameEntry(m: map<nat, nat>, m': map<nat, nat>, u: nat)
    requires u in m && u in m' && m'[u] == m[u]
    ensures PageAt(m', u) == PageAt(m, u)
  {
  }

  // ----- what destruction loses

  lemma PageInUse(m: map<nat, nat>, u: nat)
    requires u < STACK_END && PageAt(m, u) != 0
    ensures PageAt(m, u) in InUse(m)
  {
    hide FreedRange, InUse;
    InUseAround(m, u);
    assert PageAt(m, u) in Freed(m, u);
  }

  /** Whether a process that got `pages` pages from the pool, if it wanted as many, gives them all back. */
  predicate GivesBack(n: Layout, pages: nat) {
    && (n.code > 0 || n.data == 0 || pages == 0)
    && (n.stack <= STACK_PAGES || pages <= n.code + n.data + STACK_PAGES)
  }

  /** Building an address space and destroying it returns the pool to the same bag of pages exactly
      when no page of the pool went to a data page of a process without code, nor to a stack page
      below the region of default size. */
  lemma SetupTeardownExactly(free: seq<nat>, n: Layout)
    requires RealPages(free) && Fits(n)
    ensures multiset(Teardown(Setup(free, n), n).free) == multiset(free) <==> GivesBack(n, |free|)
  {
    hide Setup, Teardown, InUse, RealPages, PageAt, Covers, Taken;
    var s := Setup(free, n);
    var e := Teardown(s, n);
    SetupConserves(free, n);
    TeardownConserves(s, n);
    TeardownLeaves(s, n);
    if GivesBack(n, |free|) {
      forall u | u in e.view
        ensures PageAt(e.view, u) == 0
      {
        RemainingPage(free, n, u);
      }
      OnlyNull(e.view);
    } else {
      var u := if n.code == 0 && n.data > 0 && free != [] then FIRST_PAGE else STACK_END - STACK_PAGES - 1;
      RemainingPage(free, n, u);
      PageInUse(e.view, u);
      assert |Bag(e)| == |InUse(e.view)| + |multiset(e.free)|;
    }
  }

  lemma RemainingPage(free: seq<nat>, n: Layout, u: nat)
    requires RealPages(free) && Fits(n) && Remains(n, u)
    ensures var e := Teardown(Setup(free, n), n);
      && u in e.view && u < STACK_END && InRegion(n, u)
      && (PageAt(e.view, u) != 0 <==> AllocationIndex(n, u) < |free|)
  {
    hide Setup, Teardown, Bag, RealPages, PageAt, Taken, Covers;
    var s := Setup(free, n);
    SetupConserves(free, n);
    TeardownLeaves(s, n);
    SetupPages(free, n, u);
    SameEntry(s.view, Teardown(s, n).view, u);
    TakeNext(free, AllocationIndex(n, u));
  }

  lemma OnlyNull(m: map<nat, nat>)
    requires forall u :: u in m ==> PageAt(m, u) == 0
    ensures InUse(m) == multiset{}
  {
    FreedNothing(m, 0, STACK_END);
  }

  /** A process with one data page and no code takes the only page there is to the grave; so does
      one that has a fifth stack page. */
  lemma LostPageWitness()
    ensures Teardown(Setup([PAGE], Layout(0, 1, 0)), Layout(0, 1, 0)).free == []
    ensures |Teardown(Setup(PagesFrom(PAGE, 5), Layout(0, 0, 5)), Layout(0, 0, 5)).free| == 4
  {
    hide Setup, Teardown, Bag, InUse, PageAt, Taken;
    LostOne([PAGE], Layout(0, 1, 0), FIRST_PAGE);
    PagesFromAreReal(PAGE, 5);
    LostOne(PagesFrom(PAGE, 5), Layout(0, 0, 5), STACK_END - STACK_PAGES - 1);
  }

  /** If the process that takes all pages leaves just one mapped, just one is lost. */
  lemma LostOne(free: seq<nat>, n: Layout, u: nat)
    requires RealPages(free) && Fits(n) && |free| == n.code + n.data + n.stack
    requires forall w: nat :: Remains(n, w) <==> w == u
    ensures |Teardown(Setup(free, n), n).free| == |free| - 1
  {
    hide Setup, Teardown, InUse, RealPages, PageOf, Taken, Covers, Remains, FreedRange;
    var s := Setup(free, n);
    var e := Teardown(s, n);
    SetupConserves(free, n);
    TeardownConserves(s, n);
    TeardownLeaves(s, n);
    RemainingPage(free, n, u);
    SetupPages(free, n, u);
    InUseAround(e.view, u);
    assert |Freed(e.view, u)| == 1;
    FreedNothing(e.view, 0, u);
    FreedNothing(e.view, u + 1, STACK_END - u - 1);
    assert |Bag(e)| == |InUse(e.view)| + |multiset(e.free)|;
  }

  // ----- all processes together

  datatype Proc = Proc(n: Layout, view: map<nat, nat>)

  datatype System = System(free: seq<nat>, procs: seq<Proc>)

  /** Creating a process (by loading or by forking one with the same page counts), or destroying one. */
  datatype Event = Create(n: Layout) | Destroy(i: nat)

  predicate Enabled(s: System, e: Event) {
    match e
    case Create(n) => Fits(n)
    case Destroy(i) => i < |s.procs| && Fits(s.procs[i].n)
  }

  ghost function Next(s: System, e: Event): System
    requires Enabled(s, e)
  {
    match e
    case Create(n) =>
      var t := Setup(s.free, n);
      System(t.free, s.procs + [Proc(n, t.view)])
    case Destroy(i) =>
      System(Teardown(Space(s.procs[i].view, s.free), s.procs[i].n).free, s.procs[..i] + s.procs[i + 1..])
  }

  ghost predicate IsRun(states: seq<System>, events: seq<Event>, pool: seq<nat>) {
    && |states| == |events| + 1 && states[0] == System(pool, [])
    && forall k :: 0 <= k < |events| ==> IsStep(states[k], events[k], states[k + 1])
  }

  ghost predicate IsStep(s: System, e: Event, s': System) {
    Enabled(s, e) && s' == Next(s, e)
  }

  ghost function Mapped(procs: seq<Proc>): multiset<nat> {
    if procs == [] then multiset{} else InUse(procs[0].view) + Mapped(procs[1..])
  }

  /** Every page the system still knows of: free or mapped somewhere. */
  ghost function Known(s: System): multiset<nat> {
    multiset(s.free) + Mapped(s.procs)
  }

  ghost predicate ProcOk(p: Proc) {
    Fits(p.n) && Covers(p.view, p.n)
  }

  ghost predicate SystemOk(s: System) {
    RealPages(s.free) && forall i :: 0 <= i < |s.procs| ==> ProcOk(s.procs[i])
  }

  lemma {:induction false} MappedConcat(a: seq<Proc>, b: seq<Proc>)
    ensures Mapped(a + b) == Mapped(a) + Mapped(b)
  {
    if a == [] {
      assert a + b == b;
    } else {
      assert (a + b)[1..] == a[1..] + b;
      MappedConcat(a[1..], b);
    }
  }

  lemma MappedAt(procs: seq<Proc>, i: nat)
    requires i < |procs|
    ensures Mapped(procs) == Mapped(procs[..i] + procs[i + 1..]) + InUse(procs[i].view)
  {
    hide InUse;
    assert procs == procs[..i] + ([procs[i]] + procs[i + 1..]);
    MappedConcat(procs[..i], [procs[i]] + procs[i + 1..]);
    MappedConcat([procs[i]], procs[i + 1..]);
    MappedConcat(procs[..i], procs[i + 1..]);
    MappedOne(procs[i]);
  }

  lemma MappedOne(p: Proc)
    ensures Mapped([p]) == InUse(p.view)
  {
    hide InUse;
    assert [p][1..] == [];
  }

  /** A process whose destructor returns everything. */
  predicate Clean(n: Layout) {
    (n.code > 0 || n.data == 0) && n.stack <= STACK_PAGES
  }

  predicate CleanEvent(s: System, e: Event) {
    e.Destroy? ==> e.i < |s.procs| && Clean(s.procs[e.i].n)
  }

  lemma CreateStep(s: System, n: Layout)
    requires SystemOk(s) && Fits(n)
    ensures var s' := Next(s, Create(n)); SystemOk(s') && Known(s') == Known(s)
  {
    hide InUse, Setup, RealPages, Covers;
    var t := Setup(s.free, n);
    SetupConserves(s.free, n);
    MappedConcat(s.procs, [Proc(n, t.view)]);
    MappedOne(Proc(n, t.view));
  }

  lemma DestroyStep(s: System, i: nat)
    requires SystemOk(s) && i < |s.procs|
    ensures var s' := Next(s, Destroy(i));
      SystemOk(s') && Known(s') <= Known(s) && (Clean(s.procs[i].n) ==> Known(s') == Known(s))
  {
    hide InUse, Teardown, Covers, FreedRange, Bag, Mapped, RealPages;
    var p := s.procs[i];
    assert ProcOk(p);
    TeardownAccounts(Space(p.view, s.free), p.n);
    TeardownRealPages(Space(p.view, s.free), p.n);
    MappedAt(s.procs, i);
  }

  lemma TeardownAccounts(s: Space, n: Layout)
    requires Fits(n) && Covers(s.view, n)
    ensures multiset(Teardown(s, n).free) <= InUse(s.view) + multiset(s.free)
    ensures Clean(n) ==> multiset(Teardown(s, n).free) == InUse(s.view) + multiset(s.free)
  {
    hide InUse, Teardown, Covers;
    var e := Teardown(s, n);
    TeardownConserves(s, n);
    TeardownLeaves(s, n);
    if Clean(n) {
      assert e.view == map[];
      EmptyBag(e.free);
      assert e == Space(map[], e.free);
    }
  }

  lemma TeardownRealPages(s: Space, n: Layout)
    requires RealPages(s.free)
    ensures RealPages(Teardown(s, n).free)
  {
    if n.code > 0 {
      UnmappedRealPages(s, FIRST_PAGE, n.code + n.data);
    }
    var s1 := if n.code > 0 then Unmapped(s, FIRST_PAGE, n.code + n.data) else s;
    if n.stack > 0 {
      UnmappedRealPages(s1, STACK_END - STACK_PAGES, STACK_PAGES);
    }
  }

  lemma UnmappedRealPages(s: Space, v: nat, n: nat)
    requires RealPages(s.free)
    ensures RealPages(Unmapped(s, v, n).free)
  {
    FreedRealPages(s.view, v, n);
  }

  lemma {:induction false} FreedRealPages(m: map<nat, nat>, v: nat, n: nat)
    ensures RealPages(FreedRange(m, v, n))
  {
    if n > 0 {
      FreedRealPages(m, v, n - 1);
    }
  }

  /** In every run no page is ever made up or duplicated, and while every destroyed process is
      clean none is lost. */
  lemma {:induction false} EveryRunConserves(states: seq<System>, events: seq<Event>, pool: seq<nat>, k: nat)
    requires IsRun(states, events, pool) && RealPages(pool) && k <= |events|
    ensures SystemOk(states[k]) && Known(states[k]) <= multiset(pool)
    ensures (forall j :: 0 <= j < k ==> CleanEvent(states[j], events[j])) ==> Known(states[k]) == multiset(pool)
  {
    if k == 0 {
      assert Mapped([]) == multiset{};
    } else {
      EveryRunConserves(states, events, pool, k - 1);
      hide Known, SystemOk, Clean, RealPages;
      assert IsStep(states[k - 1], events[k - 1], states[k]);
      match events[k - 1]
      case Create(n) => CreateStep(states[k - 1], n);
      case Destroy(i) => DestroyStep(states[k - 1], i);
    }
  }

  /** Consequently, when the pool was filled with distinct pages: no free page is mapped, no page
      is mapped by two processes or twice by one, and the pool never holds more pages than the
      capacity it was given. */
  lemma PagesStayDisjoint(states: seq<System>, events: seq<Event>, pool: seq<nat>, k: nat)
    requires IsRun(states, events, pool) && RealPages(pool) && NoRepeats(pool) && k <= |events|
    ensures |states[k].free| <= |pool|
    ensures forall p :: multiset(states[k].free)[p] <= 1 && Mapped(states[k].procs)[p] <= 1
    ensures forall i, p :: 0 <= i < |states[k].procs| && p in InUse(states[k].procs[i].view) ==> p !in states[k].free
    ensures forall i, j, p :: 0 <= i < j < |states[k].procs| && p in InUse(states[k].procs[i].view)
              ==> p !in InUse(states[k].procs[j].view)
  {
    hide InUse, Known, SystemOk, RealPages, Mapped;
    var s := states[k];
    EveryRunConserves(states, events, pool, k);
    DistinctCounts(pool);
    KnownParts(s, pool);
    forall i, p | 0 <= i < |s.procs| && p in InUse(s.procs[i].view)
      ensures p !in s.free
    {
      MappedAt(s.procs, i);
      assert p in Mapped(s.procs);
    }
    forall i, j, p | 0 <= i < j < |s.procs| && p in InUse(s.procs[i].view)
      ensures p !in InUse(s.procs[j].view)
    {
      MappedTwice(s.procs, i, j, p);
    }
  }

  /** From the pool boot fills, in particular: it never holds more than the capacity computed at
      boot, only pages of the RAM behind the kernel, and none that a process has mapped. */
  lemma BootedPoolHolds(states: seq<System>, events: seq<Event>, ramStart: nat, ramSize: nat, dataspaceEnd: nat, k: nat)
    requires ramSize % PAGE == 0 && ramStart <= dataspaceEnd <= ramStart + ramSize
    requires dataspaceEnd > 0 && dataspaceEnd % PAGE == 0
    requires var n := PoolCapacity(ramStart, ramSize, dataspaceEnd);
      n >= 0 && IsRun(states, events, PagesFrom(dataspaceEnd, n)) && k <= |events|
    ensures |states[k].free| <= PoolCapacity(ramStart, ramSize, dataspaceEnd)
    ensures forall p :: p in states[k].free ==> dataspaceEnd <= p && p % PAGE == 0
    ensures forall i, p :: 0 <= i < |states[k].procs| && p in InUse(states[k].procs[i].view)
              ==> dataspaceEnd <= p && p !in states[k].free
  {
    hide InUse, Mapped, Known, SystemOk;
    var pool := PagesFrom(dataspaceEnd, PoolCapacity(ramStart, ramSize, dataspaceEnd));
    PagesFromAreReal(dataspaceEnd, |pool|);
    PagesStayDisjoint(states, events, pool, k);
    EveryRunConserves(states, events, pool, k);
    forall p | p in Known(states[k])
      ensures dataspaceEnd <= p && p % PAGE == 0
    {
      assert p in multiset(pool);
    }
    FreeIsKnown(states[k]);
    forall i, p | 0 <= i < |states[k].procs| && p in InUse(states[k].procs[i].view)
      ensures dataspaceEnd <= p
    {
      MappedIsKnown(states[k], i, p);
    }
  }

  lemma FreeIsKnown(s: System)
    ensures forall p :: p in s.free ==> p in Known(s)
  {
    hide InUse, Mapped;
    assert forall p :: p in s.free ==> p in multiset(s.free);
  }

  lemma MappedIsKnown(s: System, i: nat, p: nat)
    requires i < |s.procs| && p in InUse(s.procs[i].view)
    ensures p in Known(s)
  {
    hide InUse, Mapped;
    MappedAt(s.procs, i);
  }

  lemma KnownParts(s: System, pool: seq<nat>)
    requires Known(s) <= multiset(pool) && forall p :: multiset(pool)[p] <= 1
    ensures |s.free| <= |pool|
    ensures forall p :: p in Mapped(s.procs) ==> p !in s.free
    ensures forall p :: Mapped(s.procs)[p] <= 1
    ensures forall p :: multiset(s.free)[p] <= 1
  {
    hide Mapped;
    var a, m := multiset(s.free), Mapped(s.procs);
    assert multiset(pool) == a + m + (multiset(pool) - a - m);
    assert |multiset(pool)| == |a| + |m| + |multiset(pool) - a - m|;
    forall p
      ensures a[p] + m[p] <= 1
    {
      assert (a + m)[p] <= multiset(pool)[p];
    }
    assert forall p :: p in s.free ==> a[p] > 0;
  }

  lemma MappedTwice(procs: seq<Proc>, i: nat, j: nat, p: nat)
    requires i < j < |procs| && (forall q :: Mapped(procs)[q] <= 1) && p in InUse(procs[i].view)
    ensures p !in InUse(procs[j].view)
  {
    hide InUse, Mapped;
    var rest := procs[..i] + procs[i + 1..];
    MappedAt(procs, i);
    MappedAt(rest, j - 1);
    assert rest[j - 1] == procs[j];
    assert Mapped(procs)[p] == Mapped(rest)[p] + InUse(procs[i].view)[p];
  }

  lemma {:induction false} DistinctCounts(s: seq<nat>)
    requires NoRepeats(s)
    ensures forall p :: multiset(s)[p] <= 1
  {
    if s != [] {
      var n := |s| - 1;
      DistinctCounts(s[..n]);
      assert s == s[..n] + [s[n]];
      assert s[n] !in s[..n];
      assert multiset(s[..n])[s[n]] == 0;
    }
  }
}
