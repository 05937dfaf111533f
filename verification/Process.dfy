/** Process address spaces: set-up, destruction, and the copying constructor behind fork. */
module Process {
  import opened PagePool
  import opened PageTables
  import opened Mmu
  import opened AddressSpace
  import RbTree
  import opened TableLayout

  /** Virtual addresses where the code starts and the stack ends. */
  const CODE_BASE: nat := 0x1000
  const STACK_BASE: nat := 0x8000_0000
  const STACK_BYTES: nat := 0x4000

  class Process {
    const table: TranslationTable
    var codePages: nat
    var dataPages: nat
    var stackPages: nat
    var programBreak: nat
    var registers: seq<nat>

    constructor (table: TranslationTable, codePages: nat, dataPages: nat, stackPages: nat)
      ensures this.table == table && Counts() == AddressSpace.Layout(codePages, dataPages, stackPages)
    {
      this.table := table;
      this.codePages, this.dataPages, this.stackPages := codePages, dataPages, stackPages;
      programBreak, registers := 0, [];
    }

    /** The forking constructor, first part: page counts and registers are the parent's. */
    constructor Forked(parent: Process, table: TranslationTable)
      ensures this.table == table && Counts() == parent.Counts() && registers == parent.registers
    {
      this.table := table;
      codePages, dataPages, stackPages := parent.codePages, parent.dataPages, parent.stackPages;
      programBreak, registers := 0, parent.registers;
    }

    /** The forking constructor, second part: the new, empty address space is filled with copies of
        the parent's pages. `to` is what the mapping and the pool become; its pages, null ones
        included, must be backed by memory. */
    method ForkFrom(parent: Process, pool: PageStack, memory: Memory,
        ghost from: map<nat, nat>, ghost pages: map<nat, Bytes>, ghost to: Space)
      requires Ready(pool) && parent.Ready(pool) && parent.table.Repr() !! table.Repr() && parent != this
      requires table.Mapping() == map[] && Fits(Counts()) && Counts() == parent.Counts() && memory.Valid()
      requires parent.table.Mapping() == from && memory.pages == pages && to == Setup(pool.Contents(), Counts())
      requires BackedSpace(pages, from, Counts()) && BackedSpace(pages, to.view, Counts())
      modifies table.Repr(), pool`currentTop, this`programBreak, memory
      ensures Ready(pool) && fresh(table.Repr() - old(table.Repr()))
      ensures parent.Ready(pool) && parent.table.Mapping() == from && memory.Valid()
      ensures Counts() == old(Counts()) && State(pool) == to
      ensures programBreak == CODE_BASE + (codePages + dataPages) * PAGE
      ensures memory.pages == CopySpace(pages, from, to.view, old(Counts()))
    {
      hide TranslationTable.Valid, TranslationTable.Mapping, TranslationTable.Repr, PageAt, RealPages, Setup, CopySpace,
           BackedSpace;
      ghost var n := Counts();
      NotInTable(table, parent, memory);
      SetupBeside(parent, pool, from);
      CopyAddressSpace(parent, memory, from, to.view, n);
    }

    static lemma NotInTable(t: TranslationTable, p: Process, memory: Memory)
      ensures memory !in t.Repr() && p !in t.Repr()
    {
    }

    /** Setting up an address space leaves the parent's alone. */
    method SetupBeside(parent: Process, pool: PageStack, ghost from: map<nat, nat>)
      requires Ready(pool) && parent.Ready(pool) && parent.table.Repr() !! table.Repr() && parent != this
      requires table.Mapping() == map[] && Fits(Counts()) && parent.table.Mapping() == from
      modifies table.Repr(), pool`currentTop, this`programBreak
      ensures Ready(pool) && fresh(table.Repr() - old(table.Repr()))
      ensures parent.Ready(pool) && parent.table.Mapping() == from
      ensures State(pool) == Setup(old(pool.Contents()), Counts()) && Counts() == old(Counts())
      ensures programBreak == CODE_BASE + (codePages + dataPages) * PAGE
    {
      hide TranslationTable.Valid, TranslationTable.Mapping, RealPages, Setup;
      Known(table);
      Known(parent.table);
      SetupAddrspace(pool);
      assert parent.table.Valid() && parent.table.Mapping() == from;
    }

    ghost function Counts(): AddressSpace.Layout
      reads this
    {
      AddressSpace.Layout(codePages, dataPages, stackPages)
    }

    /** The mapping together with the pool, as the specification sees them. */
    ghost function State(pool: PageStack): Space
      requires pool.Valid()
      reads table, pool, pool.memory
    {
      Space(table.Mapping(), pool.Contents())
    }

    ghost predicate Ready(pool: PageStack)
      reads table, table.table, table.Storage(), table.directory, RbTree.Refs(table.directory.tree), pool, pool.memory
    {
      && table.Valid() && table.entries == 2048
      && pool.Valid() && {this, pool, pool.memory} !! table.Repr()
      && RealPages(pool.Contents())
    }

    /** Allocates a page, possibly none, and maps it at `virt`. */
    method MapFresh(virt: nat, p: Permissions, t: IntervalType, pool: PageStack)
      requires Ready(pool) && virt < STACK_BASE
      modifies table.Repr(), pool`currentTop
      ensures Ready(pool) && fresh(table.Repr() - old(table.Repr()))
      ensures State(pool) == MapNew(old(State(pool)), virt / PAGE, p, t)
    {
      hide RealPages, View, Descriptor, TopOrNull, Rest, TranslationTable.Valid, StorageOf, RbTree.Refs,
           TranslationTable.Repr;
      TakeTop(pool.Contents());
      assert allocated(table.Repr()) && allocated(table.Storage()) && allocated(RbTree.Refs(table.directory.tree));
      ghost var before := table.Repr();
      var page := pool.AllocatePage();
      FreshAddressExists(table.pageTables.Keys);
      var at :| at !in table.pageTables && at % 1024 == 0;
      assert table.Repr() == before;
      label Mapping:
      table.MapPage(page, virt, p, t, false, at);
      assert forall o :: o in table.Repr() && o !in before ==> fresh@Mapping(o);
      assert forall o :: o in table.Repr() && o !in before ==> fresh(o);
    }

    /** One of the loops that fill a region upwards, a page at a time. */
    method MapRegion(address: nat, pages: nat, p: Permissions, t: IntervalType, pool: PageStack) returns (end: nat)
      requires Ready(pool) && address + pages * PAGE <= STACK_BASE
      modifies table.Repr(), pool`currentTop
      ensures Ready(pool) && fresh(table.Repr() - old(table.Repr()))
      ensures State(pool) == MapUp(old(State(pool)), address / PAGE, pages, p, t)
      ensures end == address + pages * PAGE
    {
      hide MapNew, RealPages, TranslationTable.Valid, TranslationTable.Repr, TranslationTable.Mapping;
      var current := address;
      for i := 0 to pages
        invariant Ready(pool) && current == address + i * PAGE
        invariant forall o :: o in table.Repr() && o !in old(table.Repr()) ==> fresh(o)
        invariant State(pool) == MapUp(old(State(pool)), address / PAGE, i, p, t)
      {
        ghost var before := table.Repr();
        assert forall o :: o in before && o !in old(table.Repr()) ==> fresh(o);
        MapNextPage(address, i);
        label Turn:
        MapFresh(current, p, t, pool);
        assert forall o :: o in table.Repr() && o !in before ==> fresh@Turn(o);
        assert forall o :: o in table.Repr() && o !in before ==> fresh(o);
        current := current + PAGE;
      }
      end := current;
    }

    /** The stack is filled downwards from its end. */
    method MapStack(pages: nat, pool: PageStack)
      requires Ready(pool) && pages <= STACK_END
      modifies table.Repr(), pool`currentTop
      ensures Ready(pool) && fresh(table.Repr() - old(table.Repr()))
      ensures State(pool) == MapDown(old(State(pool)), STACK_END, pages, RW_RW, STACK)
    {
      hide MapNew, RealPages, TranslationTable.Valid, TranslationTable.Repr, TranslationTable.Mapping;
      var current := STACK_BASE - PAGE;
      for i := 0 to pages
        invariant Ready(pool) && current == STACK_BASE - PAGE - i * PAGE
        invariant forall o :: o in table.Repr() && o !in old(table.Repr()) ==> fresh(o)
        invariant State(pool) == MapDown(old(State(pool)), STACK_END, i, RW_RW, STACK)
      {
        ghost var before := table.Repr();
        assert forall o :: o in before && o !in old(table.Repr()) ==> fresh(o);
        assert current / PAGE == STACK_END - (i + 1);
        label Turn:
        MapFresh(current, RW_RW, STACK, pool);
        assert forall o :: o in table.Repr() && o !in before ==> fresh@Turn(o);
        assert forall o :: o in table.Repr() && o !in before ==> fresh(o);
        current := current - PAGE;
      }
    }

    /** Maps code, data and stack onto pages of the pool, or onto null pages once it is empty. */
    method SetupAddrspace(pool: PageStack)
      requires Ready(pool) && table.Mapping() == map[] && Fits(Counts())
      modifies table.Repr(), pool`currentTop, this`programBreak
      ensures Ready(pool) && fresh(table.Repr() - old(table.Repr()))
      ensures State(pool) == Setup(old(pool.Contents()), Counts()) && Counts() == old(Counts())
      ensures programBreak == CODE_BASE + (codePages + dataPages) * PAGE
    {
      hide MapUp, MapDown, RealPages, TranslationTable.Valid, TranslationTable.Repr, TranslationTable.Mapping;
      ghost var r0 := table.Repr();
      MapNextPage(CODE_BASE, codePages);
      var current := MapRegion(CODE_BASE, codePages, RW_RO, CODE, pool);
      ghost var r1 := table.Repr();
      assert forall o :: o in r1 && o !in r0 ==> fresh(o);
      label Data:
      current := MapRegion(current, dataPages, RW_RW, DATA, pool);
      ghost var r2 := table.Repr();
      assert forall o :: o in r2 && o !in r1 ==> fresh@Data(o);
      assert forall o :: o in r2 && o !in r0 ==> fresh(o);
      label Stack:
      MapStack(stackPages, pool);
      assert forall o :: o in table.Repr() && o !in r2 ==> fresh@Stack(o);
      assert forall o :: o in table.Repr() && o !in r0 ==> fresh(o);
      assert forall o: object :: o in RbTree.Refs(table.directory.tree) ==> o != this;
      assert forall o: object :: o in table.Storage() ==> o != this;
      programBreak := CODE_BASE + codePages * PAGE + dataPages * PAGE;
    }

    /** The unmapping part of the destructor. The pool needs room for what comes back. */
    method Destroy(pool: PageStack)
      requires Ready(pool) && Fits(Counts())
      requires programBreak == CODE_BASE + (codePages + dataPages) * PAGE
      requires |Teardown(State(pool), Counts()).free| <= pool.memory.Length
      modifies table.Repr(), pool, pool.memory
      ensures table.Valid() && pool.Valid()
      ensures State(pool) == Teardown(old(State(pool)), old(Counts()))
    {
      hide RealPages, TranslationTable.Valid, TranslationTable.Repr, TranslationTable.Mapping, FreedRange, WithoutRange;
      if codePages > 0 {
        assert PagesIn(CODE_BASE, programBreak) == codePages + dataPages;
        table.UnmapInterval(CODE_BASE, programBreak, pool);
      }
      if stackPages > 0 {
        table.UnmapInterval(STACK_BASE - STACK_BYTES, STACK_BASE, pool);
      }
    }

    /** Copies one page of the parent's address space to the same address in this one, byte by
        byte through a buffer, each side through its own translation. */
    method CopyPage(parent: Process, virt: nat, memory: Memory)
      requires parent.table.Valid() && table.Valid() && parent.table.entries == table.entries == 2048
      requires virt % PAGE == 0 && virt < STACK_BASE
      requires memory.Valid()
      requires PageAt(parent.table.Mapping(), virt / PAGE) in memory.pages
      requires PageAt(table.Mapping(), virt / PAGE) in memory.pages
      modifies memory
      ensures memory.Valid() && parent.table.Valid() && table.Valid()
      ensures memory.pages == CopyOne(old(memory.pages), parent.table.Mapping(), table.Mapping(), virt / PAGE)
      ensures parent.table.Mapping() == old(parent.table.Mapping()) && table.Mapping() == old(table.Mapping())
    {
      hide TranslationTable.Valid, TranslationTable.Mapping, PageOf;
      Known(table);
      Known(parent.table);
      var buffer := new bv8[PAGE];
      parent.ReadPage(virt, memory, buffer);
      WritePage(virt, memory, buffer);
      assert buffer[..] == old(memory.pages)[PageAt(parent.table.Mapping(), virt / PAGE)];
    }

    /** Reads the page at `virt` into the buffer. */
    method ReadPage(virt: nat, memory: Memory, buffer: array<bv8>)
      requires table.Valid() && table.entries == 2048 && virt % PAGE == 0 && virt < STACK_BASE
      requires memory.Valid() && PageAt(table.Mapping(), virt / PAGE) in memory.pages
      requires buffer.Length == PAGE && buffer !in table.Repr()
      modifies buffer
      ensures buffer[..] == memory.pages[PageAt(table.Mapping(), virt / PAGE)]
    {
      hide TranslationTable.Valid, TranslationTable.Mapping, PageOf;
      Known(table);
      ghost var page := PageAt(table.Mapping(), virt / PAGE);
      for i := 0 to PAGE
        invariant table.Valid() && PageAt(table.Mapping(), virt / PAGE) == page && buffer !in table.Repr()
        invariant buffer[..i] == memory.pages[page][..i]
      {
        InPage(virt, i);
        var entry := table.Walk(virt + i);
        buffer[i] := memory.Read(PageOf(entry), i);
      }
      assert buffer[..] == buffer[..PAGE];
    }

    /** Writes the buffer to the page at `virt`. */
    method WritePage(virt: nat, memory: Memory, buffer: array<bv8>)
      requires table.Valid() && table.entries == 2048 && virt % PAGE == 0 && virt < STACK_BASE
      requires memory.Valid() && PageAt(table.Mapping(), virt / PAGE) in memory.pages && buffer.Length == PAGE
      modifies memory
      ensures memory.Valid()
      ensures memory.pages == old(memory.pages)[PageAt(table.Mapping(), virt / PAGE) := buffer[..]]
    {
      hide TranslationTable.Valid, TranslationTable.Mapping, PageOf;
      Known(table);
      ghost var page := PageAt(table.Mapping(), virt / PAGE);
      ghost var was := memory.pages[page];
      assert buffer[..0] + was[0..] == was;
      for i := 0 to PAGE
        invariant table.Valid() && PageAt(table.Mapping(), virt / PAGE) == page
        invariant memory.Valid()
        invariant memory.pages == old(memory.pages)[page := buffer[..i] + was[i..]]
      {
        assert (buffer[..i] + was[i..])[i := buffer[i]] == buffer[..i + 1] + was[i + 1..];
        InPage(virt, i);
        var entry := table.Walk(virt + i);
        memory.Write(PageOf(entry), i, buffer[i]);
      }
      assert buffer[..PAGE] + was[PAGE..] == buffer[..];
    }

    /** The copy loops of the forking constructor over one region. */
    method CopyRegion(parent: Process, virt: nat, pages: nat, memory: Memory)
      requires parent.table.Valid() && table.Valid() && parent.table.entries == table.entries == 2048
      requires virt % PAGE == 0 && virt + pages * PAGE <= STACK_BASE
      requires memory.Valid()
      requires Backed(memory.pages, parent.table.Mapping(), virt / PAGE, pages)
      requires Backed(memory.pages, table.Mapping(), virt / PAGE, pages)
      modifies memory
      ensures memory.Valid() && parent.table.Valid() && table.Valid()
      ensures memory.pages
           == CopyRange(old(memory.pages), parent.table.Mapping(), table.Mapping(), virt / PAGE, pages)
      ensures parent.table.Mapping() == old(parent.table.Mapping()) && table.Mapping() == old(table.Mapping())
    {
      hide TranslationTable.Valid, TranslationTable.Mapping, TranslationTable.Repr, PageAt, CopyOne;
      Known(table);
      Known(parent.table);
      ghost var from, to := parent.table.Mapping(), table.Mapping();
      var current := virt;
      for i := 0 to pages
        invariant parent.table.Valid() && table.Valid() && memory.Valid()
        invariant parent.table.Mapping() == from && table.Mapping() == to
        invariant current == virt + i * PAGE
        invariant memory.pages == CopyRange(old(memory.pages), from, to, virt / PAGE, i)
      {
        MapNextPage(virt, i);
        CopyPage(parent, current, memory);
        current := current + PAGE;
      }
    }

    /** Copies code, data and stack of the parent, whose mapping is `from`, to the mapping `to`. */
    method CopyAddressSpace(parent: Process, memory: Memory,
        ghost from: map<nat, nat>, ghost to: map<nat, nat>, ghost n: AddressSpace.Layout)
      requires parent.table.Valid() && table.Valid() && parent.table.entries == table.entries == 2048
      requires parent.table.Mapping() == from && table.Mapping() == to && Counts() == n
      requires memory.Valid() && Fits(n) && BackedSpace(memory.pages, from, n) && BackedSpace(memory.pages, to, n)
      modifies memory
      ensures memory.Valid() && parent.table.Valid() && table.Valid()
      ensures parent.table.Mapping() == from && table.Mapping() == to
      ensures memory.pages == CopySpace(old(memory.pages), from, to, n)
    {
      hide TranslationTable.Valid, TranslationTable.Mapping, PageAt, CopyRange;
      CopyRegion(parent, CODE_BASE, codePages + dataPages, memory);
      CopyRegion(parent, STACK_BASE - stackPages * PAGE, stackPages, memory);
    }

    /** The objects of a table exist and are neither this buffer-sized array nor memory. */
    static lemma Known(t: TranslationTable)
      ensures allocated(t.Storage()) && allocated(RbTree.Refs(t.directory.tree)) && allocated(t.Repr())
    {
    }
  }

  /** Every page of a range is backed by physical memory. */
  ghost predicate Backed(pages: map<nat, Bytes>, m: map<nat, nat>, v: nat, n: nat) {
    forall u :: v <= u < v + n ==> PageAt(m, u) in pages
  }

  /** Every page of the regions of an address space is backed by physical memory. */
  ghost predicate BackedSpace(pages: map<nat, Bytes>, m: map<nat, nat>, n: AddressSpace.Layout)
    requires Fits(n)
  {
    && Backed(pages, m, FIRST_PAGE, n.code + n.data) && Backed(pages, m, STACK_END - n.stack, n.stack)
  }

  ghost function CopyRange(pages: map<nat, Bytes>, from: map<nat, nat>, to: map<nat, nat>, v: nat, n: nat)
    : (r: map<nat, Bytes>)
    requires Backed(pages, from, v, n) && Backed(pages, to, v, n)
    ensures r.Keys == pages.Keys
  {
    if n == 0 then pages
    else
      assert PageAt(from, v + n - 1) in pages && PageAt(to, v + n - 1) in pages;
      CopyOne(CopyRange(pages, from, to, v, n - 1), from, to, v + n - 1)
  }

  ghost function CopySpace(pages: map<nat, Bytes>, from: map<nat, nat>, to: map<nat, nat>, n: AddressSpace.Layout)
    : map<nat, Bytes>
    requires Fits(n) && BackedSpace(pages, from, n) && BackedSpace(pages, to, n)
  {
    CopyRange(CopyRange(pages, from, to, FIRST_PAGE, n.code + n.data), from, to, STACK_END - n.stack, n.stack)
  }

  ghost function CopyOne(pages: map<nat, Bytes>, from: map<nat, nat>, to: map<nat, nat>, v: nat): map<nat, Bytes>
    requires PageAt(from, v) in pages
  {
    pages[PageAt(to, v) := pages[PageAt(from, v)]]
  }

  lemma InPage(virt: nat, i: nat)
    requires virt % PAGE == 0 && i < PAGE
    ensures (virt + i) / PAGE == virt / PAGE
  {
  }

  // ----- physical memory

  type Bytes = seq<bv8>

  class Memory {
    var pages: map<nat, Bytes>

    ghost predicate Valid()
      reads this
    {
      forall p :: p in pages ==> |pages[p]| == PAGE
    }

    constructor (pages: map<nat, Bytes>)
      requires forall p :: p in pages ==> |pages[p]| == PAGE
      ensures Valid() && this.pages == pages
    {
      this.pages := pages;
    }

    method Read(page: nat, offset: nat) returns (b: bv8)
      requires Valid() && page in pages && offset < PAGE
      ensures b == pages[page][offset]
    {
      b := pages[page][offset];
    }

    method Write(page: nat, offset: nat, b: bv8)
      requires Valid() && page in pages && offset < PAGE
      modifies this
      ensures Valid() && pages == old(pages)[page := old(pages)[page][offset := b]]
    {
      pages := pages[page := pages[page][offset := b]];
    }
  }

  lemma MapNextPage(address: nat, i: nat)
    ensures (address + i * PAGE) / PAGE == address / PAGE + i
  {
  }
}
