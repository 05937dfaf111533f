/** Translation tables in memory: map and unmap operations on a first-level array, page table
    objects on the kernel heap, and the directory that finds them. */
module Mmu {
  import opened RbShape
  import opened Arithmetic
  import opened PagePool
  import opened PageTables
  import opened TableLayout
  import RbTree
  import opened RbBalance

  /** The page table address in a first-level entry: `entry & 0xfffffc00`. */
  function TableBase(entry: nat): nat {
    entry - entry % 1024
  }

  // ----- the never-pruned directory

  /** Every pair ever inserted relates an address to its own physical image. */
  ghost predicate DirectoryOk(pairs: seq<(int, nat)>, v2p: nat -> nat) {
    forall k :: 0 <= k < |pairs| ==> pairs[k].0 == v2p(pairs[k].1)
  }

  /** Every page table in use has a key. */
  ghost predicate AllKnown(pairs: seq<(int, nat)>, slot: map<nat, nat>, v2p: nat -> nat) {
    forall i :: i in slot ==> HasKey(pairs, v2p(slot[i]))
  }

  lemma DirectoryGrows(pairs: seq<(int, nat)>, pairs': seq<(int, nat)>, slot: map<nat, nat>,
      v2p: nat -> nat, i: nat, a: nat)
    requires multiset(pairs') == multiset(pairs) + multiset{(v2p(a), a)}
    requires DirectoryOk(pairs, v2p) && AllKnown(pairs, slot, v2p)
    ensures DirectoryOk(pairs', v2p)
    ensures AllKnown(pairs', slot[i := a], v2p)
  {
    forall k | 0 <= k < |pairs'|
      ensures pairs'[k].0 == v2p(pairs'[k].1)
    {
      assert pairs'[k] in multiset(pairs');
      assert pairs'[k] in pairs || pairs'[k] == (v2p(a), a);
    }
    forall x | x in pairs || x == (v2p(a), a)
      ensures x in pairs' && HasKey(pairs', x.0)
    {
      assert x in multiset(pairs');
    }
    var slot' := slot[i := a];
    forall j | j in slot'
      ensures HasKey(pairs', v2p(slot'[j]))
    {
      if j != i {
        var k :| 0 <= k < |pairs| && pairs[k].0 == v2p(slot[j]);
        assert pairs[k] in pairs;
      } else {
        assert (v2p(a), a) in pairs';
      }
    }
  }

  /** Stale and repeated keys do no harm: any pair under a live table's physical address
      names that very table. */
  lemma DirectoryResolves(pairs: seq<(int, nat)>, v2p: nat -> nat, a: nat, b: nat)
    requires Translates(v2p) && DirectoryOk(pairs, v2p) && (v2p(a), b) in pairs
    ensures b == a
  {
    var k :| 0 <= k < |pairs| && pairs[k] == (v2p(a), b);
  }

  /** What a first-level word says: its low bit whether there is a page table, its upper bits where. */
  lemma EntryWord(l: Layout, v2p: nat -> nat, i: nat)
    requires Translates(v2p) && Consistent(l, v2p) && i < |l.level1|
    ensures l.level1[i] % 2 == TYPE_PAGE_TABLE <==> i in l.slot
    ensures l.level1[i] % 4 == if i in l.slot then 1 else 0
    ensures i in l.slot ==> TableBase(l.level1[i]) == v2p(l.slot[i]) && l.slot[i] in l.level2
  {
    assert EntryOk(l, v2p, i);
    if i in l.slot {
      TaggedBase(v2p(l.slot[i]));
    }
  }

  lemma TaggedBase(p: nat)
    requires p % 1024 == 0
    ensures TableBase(p + TYPE_PAGE_TABLE) == p && (p + TYPE_PAGE_TABLE) % 2 == TYPE_PAGE_TABLE
    ensures (p + TYPE_PAGE_TABLE) % 4 == 1
  {
    DivModUnique(p + 1, 1024, p / 1024, 1);
    DivModUnique(p + 1, 2, 512 * (p / 1024), 1);
    DivModUnique(p + 1, 4, 256 * (p / 1024), 1);
  }

  lemma PageNumber(virt: nat)
    ensures virt / PAGE == virt / SECTION * SLOTS + virt % SECTION / PAGE
    ensures virt % SECTION / PAGE < SLOTS
  {
  }

  // ----- unmapping on the layout

  lemma UnmapPresent(l: Layout, v2p: nat -> nat, i: nat, j: nat)
    requires Consistent(l, v2p) && i in l.slot && j < SLOTS && i < |l.level1|
    ensures l.slot[i] in l.level2 && |l.level2[l.slot[i]]| == SLOTS
    ensures Consistent(Cleared(l, i, j), v2p)
    ensures View(Cleared(l, i, j)) == View(l) - {i * SLOTS + j}
    ensures Freed(View(l), i * SLOTS + j) == NonNull(PageOf(l.level2[l.slot[i]][j]))
    ensures SubMap(Cleared(l, i, j).slot, l.slot)
  {
    hide Consistent, View, PageOf;
    UnmapInTable(l, v2p, i, j);
    FreedIs(l, i, j);
  }

  lemma FreedIs(l: Layout, i: nat, j: nat)
    requires i in l.slot && i < |l.level1| && l.slot[i] in l.level2 && |l.level2[l.slot[i]]| == SLOTS && j < SLOTS
    ensures Freed(View(l), i * SLOTS + j) == NonNull(PageOf(l.level2[l.slot[i]][j]))
  {
    assert Lookup(l, i * SLOTS + j) == l.level2[l.slot[i]][j];
  }

  lemma UnmapAbsent(l: Layout, v2p: nat -> nat, i: nat, j: nat)
    requires Consistent(l, v2p) && i !in l.slot && j < SLOTS
    ensures View(l) == View(l) - {i * SLOTS + j} && Freed(View(l), i * SLOTS + j) == []
  {
    NothingMapped(l, v2p, i, i * SLOTS + j);
  }

  /** The descriptor a mapping has for virtual page `v`, 0 for none. */
  ghost function EntryOf(m: map<nat, nat>, v: nat): nat {
    if v in m then m[v] else 0
  }

  lemma WalkFinds(l: Layout, v2p: nat -> nat, i: nat, j: nat)
    requires Consistent(l, v2p) && i < |l.level1| && j < SLOTS
    ensures i !in l.slot ==> EntryOf(View(l), i * SLOTS + j) == 0
    ensures i in l.slot ==> l.slot[i] in l.level2 && |l.level2[l.slot[i]]| == SLOTS
    ensures i in l.slot ==> EntryOf(View(l), i * SLOTS + j) == l.level2[l.slot[i]][j]
  {
    assert EntryOk(l, v2p, i);
    if i in l.slot {
      assert Lookup(l, i * SLOTS + j) == l.level2[l.slot[i]][j];
    } else {
      NothingMapped(l, v2p, i, i * SLOTS + j);
    }
  }

  lemma EmptyLayout(entries: nat, v2p: nat -> nat)
    ensures var l := Layout(seq(entries, _ => 0), map[], map[]);
      Consistent(l, v2p) && View(l) == map[]
  {
    var l := Layout(seq(entries, _ => 0), map[], map[]);
    forall i | 0 <= i < entries
      ensures EntryOk(l, v2p, i)
    {
    }
  }

  // ----- the objects of a table

  ghost function StorageOf(tables: map<nat, PageTable>): set<array<nat>> {
    set a | a in tables :: tables[a].table
  }

  ghost predicate Separate(tables: map<nat, PageTable>) {
    forall a, b :: a in tables && b in tables && a != b ==> tables[a].table != tables[b].table
  }

  lemma StorageGrows(tables: map<nat, PageTable>, at: nat, pt: PageTable)
    requires at !in tables
    ensures StorageOf(tables[at := pt]) == StorageOf(tables) + {pt.table}
    ensures Separate(tables) && pt.table !in StorageOf(tables) ==> Separate(tables[at := pt])
  {
    var tables' := tables[at := pt];
    assert tables'[at] == pt;
    forall x | x in StorageOf(tables)
      ensures x in StorageOf(tables')
    {
      var a :| a in tables && tables[a].table == x;
      assert a in tables' && tables'[a].table == x;
    }
  }

  class TranslationTable {
    const entries: nat
    const table: array<nat>
    const directory: RbTree.Directory<nat>
    /** The page tables on the kernel heap, by kernel virtual address. */
    var pageTables: map<nat, PageTable>
    /** Address translation for the kernel heap, as the MMU does it. */
    const virtualToPhysical: nat -> nat
    ghost var layout: Layout

    ghost function Storage(): set<array<nat>>
      reads this`pageTables
    {
      StorageOf(pageTables)
    }

    ghost function Repr(): set<object>
      reads this, directory
    {
      {this, table, directory} + RbTree.Refs(directory.tree) + Storage()
    }

    /** Page table `a` has its own storage, holding the words the layout says. */
    ghost predicate Holds(a: nat)
      requires a in pageTables && a in layout.level2
      reads this, Storage()
    {
      && pageTables[a].Valid() && pageTables[a].table != table
      && pageTables[a].table[..] == layout.level2[a]
    }

    ghost predicate Stored()
      reads this, table, Storage()
    {
      && table[..] == layout.level1 && table.Length == entries
      && pageTables.Keys == layout.level2.Keys
      && (forall a :: a in pageTables ==> Holds(a))
      && Separate(pageTables)
    }

    ghost predicate Valid()
      reads this, table, Storage(), directory, RbTree.Refs(directory.tree)
    {
      && Stored()
      && Translates(virtualToPhysical) && Consistent(layout, virtualToPhysical)
      && directory.Valid() && Directory(layout.slot)
    }

    /** The directory relates addresses to their images and knows every table in `slot`. */
    ghost predicate Directory(slot: map<nat, nat>)
      reads directory
    {
      && DirectoryOk(InOrder(directory.tree), virtualToPhysical)
      && AllKnown(InOrder(directory.tree), slot, virtualToPhysical)
    }

    /** The mapping in force: virtual page to descriptor. */
    ghost function Mapping(): map<nat, nat>
      reads this
    {
      View(layout)
    }

    constructor (entries: nat, variant: Variant, v2p: nat -> nat)
      requires Translates(v2p)
      ensures Valid() && Mapping() == map[] && this.entries == entries && virtualToPhysical == v2p
      ensures fresh(Repr())
    {
      hide Consistent, View;
      EmptyLayout(entries, v2p);
      this.entries := entries;
      table := new nat[entries](_ => 0);
      directory := new RbTree.Directory(variant);
      pageTables := map[];
      virtualToPhysical := v2p;
      layout := Layout(seq(entries, _ => 0), map[], map[]);
      new;
      assert table[..] == layout.level1;
    }

    /** Finds the page table behind a first-level entry: by the directory, or at its physical
        address if the directory does not know it. */
    method Resolve(index: nat) returns (address: nat)
      requires Valid() && index in layout.slot && index < entries
      ensures address == layout.slot[index] && address in pageTables
    {
      EntryWord(layout, virtualToPhysical, index);
      assert table[index] == table[..][index];
      hide Translates, Consistent, View, TableBase;
      var physical := TableBase(table[index]);
      var found, value := directory.GetValue(physical);
      if !found {
        address := physical;
      } else {
        address := value.value;
        DirectoryResolves(InOrder(directory.tree), virtualToPhysical, layout.slot[index], address);
      }
    }

    /** Writes one second-level entry of the table at `address`. */
    method WriteEntry(address: nat, offset: nat, page: nat, p: Permissions, t: IntervalType, notGlobal: bool,
        ghost index: nat)
      requires Stored() && address in pageTables && offset < SLOTS && page % PAGE == 0
      requires index in layout.slot && layout.slot[index] == address
      modifies this`layout, Storage()
      ensures Stored()
      ensures |old(layout).level2[address]| == SLOTS
      ensures layout == WithEntry(old(layout), index, offset, Descriptor(page, p, t, notGlobal))
    {
      assert Holds(address);
      pageTables[address].AddEntry(offset, page, p, t, notGlobal);
      layout := WithEntry(layout, index, offset, Descriptor(page, p, t, notGlobal));
    }

    /** Enters the new page table at heap address `at` in the directory. */
    method Record(index: nat, at: nat)
      requires directory.Valid() && Directory(layout.slot)
      modifies directory, RbTree.Refs(directory.tree)
      ensures directory.Valid() && Directory(layout.slot[index := at])
      ensures fresh(RbTree.Refs(directory.tree) - old(RbTree.Refs(directory.tree)))
    {
      ghost var pairs := InOrder(directory.tree);
      hide InOrder, RbTree.Refs, RbTree.Mirrors, Sorted, IsRedBlack, DirectoryOk, AllKnown;
      directory.Insert(virtualToPhysical(at), at);
      DirectoryGrows(pairs, InOrder(directory.tree), layout.slot, virtualToPhysical, index, at);
    }

    /** Points first-level entry `index` at the empty page table `pt` at heap address `at`. */
    method Attach(index: nat, at: nat, pt: PageTable)
      requires Stored() && index < entries && at !in pageTables
      requires pt.Valid() && pt.table[..] == Zeros() && pt.table !in Storage() && pt.table != table
      modifies this`pageTables, this`layout, table
      ensures Stored()
      ensures layout == WithTable(old(layout), virtualToPhysical, index, at)
      ensures Storage() == old(Storage()) + {pt.table} && at in pageTables
    {
      table[index] := virtualToPhysical(at) + TYPE_PAGE_TABLE;
      StorageGrows(pageTables, at, pt);
      pageTables := pageTables[at := pt];
      layout := WithTable(layout, virtualToPhysical, index, at);
    }

    /** Makes a new page table at heap address `at` for first-level entry `index`. */
    method NewTable(index: nat, at: nat)
      requires Stored() && directory.Valid() && Directory(layout.slot)
      requires index < entries && at !in pageTables
      modifies this`pageTables, this`layout, table, directory, RbTree.Refs(directory.tree)
      ensures Stored() && directory.Valid() && Directory(layout.slot)
      ensures fresh(Repr() - old(Repr()))
      ensures layout == WithTable(old(layout), virtualToPhysical, index, at) && at in pageTables
    {
      hide Stored, StorageOf, Separate, RbTree.Refs, RbTree.Mirrors, Sorted, InOrder, DirectoryOk, AllKnown, Zeros;
      TableApart();
      assert allocated(RbTree.Refs(directory.tree)) && allocated(Storage());
      var pt := new PageTable();
      ZeroWords(pt);
      Record(index, at);
      assert allocated(RbTree.Refs(directory.tree));
      Attach(index, at, pt);
    }

    lemma TableApart()
      requires Stored()
      ensures table !in Storage()
    {
    }

    lemma ZeroWords(pt: PageTable)
      requires pt.Valid() && forall i :: 0 <= i < SLOTS ==> pt.table[i] == 0
      ensures pt.table[..] == Zeros()
    {
    }

    /** The page table for first-level entry `index`, made at heap address `at` if there is none. */
    method EnsureTable(index: nat, at: nat) returns (address: nat)
      requires Valid() && index < entries && at !in pageTables
      modifies this`pageTables, this`layout, table, directory, RbTree.Refs(directory.tree)
      ensures Stored() && directory.Valid() && Directory(layout.slot) && fresh(Repr() - old(Repr()))
      ensures layout == if index in old(layout).slot then old(layout)
                        else WithTable(old(layout), virtualToPhysical, index, at)
      ensures index in layout.slot && layout.slot[index] == address && address in pageTables
    {
      EntryWord(layout, virtualToPhysical, index);
      assert table[index] == table[..][index];
      assert allocated(RbTree.Refs(directory.tree)) && allocated(Storage());
      hide Translates, Consistent, DirectoryOk, AllKnown, InOrder, StorageOf, Separate,
           RbTree.Refs, RbTree.Mirrors, Sorted, Directory;
      if table[index] % 2 == TYPE_PAGE_TABLE {
        address := Resolve(index);
      } else {
        NewTable(index, at);
        address := at;
      }
    }

    /** Maps the physical page `page` at virtual address `virt`. A new page table, if one is
        needed, gets the heap address `at`. */
    method MapPage(page: nat, virt: nat, p: Permissions, t: IntervalType, notGlobal: bool, at: nat)
      requires Valid() && page % PAGE == 0 && virt < entries * SECTION
      requires at !in pageTables && at % 1024 == 0
      modifies Repr()
      ensures Valid() && fresh(Repr() - old(Repr()))
      ensures Mapping() == old(Mapping())[virt / PAGE := Descriptor(page, p, t, notGlobal)]
    {
      PageNumber(virt);
      DescriptorIsSet(page, p, t, notGlobal);
      hide Descriptor, Mapping, StorageOf, RbTree.Refs, Valid;
      MapSlot(page, virt / SECTION, virt % SECTION / PAGE, p, t, notGlobal, at);
    }

    /** Maps `page` at second-level entry `offset` below first-level entry `index`. */
    method MapSlot(page: nat, index: nat, offset: nat, p: Permissions, t: IntervalType, notGlobal: bool, at: nat)
      requires Valid() && index < entries && offset < SLOTS
      requires page % PAGE == 0 && Descriptor(page, p, t, notGlobal) != 0
      requires at !in pageTables && at % 1024 == 0
      modifies Repr()
      ensures Valid() && fresh(Repr() - old(Repr()))
      ensures Mapping() == old(Mapping())[index * SLOTS + offset := Descriptor(page, p, t, notGlobal)]
    {
      hide Translates, Consistent, View, Descriptor, DirectoryOk, AllKnown, InOrder, StorageOf, Separate,
           RbTree.Refs, RbTree.Mirrors, Sorted, WithEntry, WithTable, Directory, Stored;
      MapEither(index, offset, Descriptor(page, p, t, notGlobal), at);
      var address := EnsureTable(index, at);
      assert allocated(RbTree.Refs(directory.tree));
      ghost var slots := layout.slot;
      assert directory.Valid() && Directory(slots);
      WriteEntry(address, offset, page, p, t, notGlobal, index);
      assert layout.slot == slots && Directory(slots);
    }

    lemma MapEither(index: nat, offset: nat, d: nat, at: nat)
      requires Stored() && Consistent(layout, virtualToPhysical)
      requires index < entries && offset < SLOTS && d != 0 && at !in pageTables && at % 1024 == 0
      ensures var l := if index in layout.slot then layout else WithTable(layout, virtualToPhysical, index, at);
        && l.slot[index] in l.level2 && |l.level2[l.slot[index]]| == SLOTS
        && Consistent(WithEntry(l, index, offset, d), virtualToPhysical)
        && View(WithEntry(l, index, offset, d)) == View(layout)[index * SLOTS + offset := d]
    {
      if index in layout.slot {
        MapInTable(layout, virtualToPhysical, index, offset, d);
      } else {
        MapInNewTable(layout, virtualToPhysical, index, offset, d, at);
      }
    }

    /** Clears one second-level entry of the table at `address`, returning the page it held. */
    method ClearEntry(address: nat, offset: nat, ghost index: nat) returns (page: nat)
      requires Stored() && address in pageTables && offset < SLOTS
      requires index in layout.slot && layout.slot[index] == address
      modifies this`layout, Storage()
      ensures Stored()
      ensures |old(layout).level2[address]| == SLOTS
      ensures layout == WithEntry(old(layout), index, offset, 0)
      ensures page == PageOf(old(layout).level2[address][offset])
    {
      assert Holds(address);
      assert pageTables[address].table[offset] == pageTables[address].table[..][offset];
      page := pageTables[address].RemoveEntry(offset);
      layout := WithEntry(layout, index, offset, 0);
    }

    /** Deletes the page table at `address` if it has become empty. */
    method DropIfEmpty(address: nat, index: nat)
      requires Stored() && address in pageTables && index < entries
      requires index in layout.slot && layout.slot[index] == address
      modifies this`layout, this`pageTables, table
      ensures Stored() && Storage() <= old(Storage())
      ensures layout == if Empty(old(layout).level2[address]) then WithoutTable(old(layout), index) else old(layout)
    {
      assert Holds(address);
      var pt := pageTables[address];
      assert forall j :: 0 <= j < SLOTS ==> pt.table[j] == pt.table[..][j];
      var empty := pt.IsEmpty();
      if empty {
        table[index] := 0;
        pageTables := pageTables - {address};
        layout := WithoutTable(layout, index);
      }
    }

    /** Unmaps virtual address `virt`, returning the page mapped there, if any, to the pool. */
    method UnmapPage(virt: nat, pool: PageStack)
      requires Valid() && virt < entries * SECTION
      requires pool.Valid() && {pool, pool.memory} !! Repr()
      requires |pool.Contents()| + |Freed(Mapping(), virt / PAGE)| <= pool.memory.Length
      modifies Repr(), pool, pool.memory
      ensures Valid() && Repr() <= old(Repr())
      ensures Mapping() == old(Mapping()) - {virt / PAGE}
      ensures pool.Valid() && pool.Contents() == old(pool.Contents()) + Freed(old(Mapping()), virt / PAGE)
    {
      hide Mapping, StorageOf, RbTree.Refs, Freed;
      PageNumber(virt);
      UnmapSlot(virt / SECTION, virt % SECTION / PAGE, pool);
    }

    method UnmapSlot(index: nat, offset: nat, pool: PageStack)
      requires Valid() && index < entries && offset < SLOTS
      requires pool.Valid() && {pool, pool.memory} !! Repr()
      requires |pool.Contents()| + |Freed(Mapping(), index * SLOTS + offset)| <= pool.memory.Length
      modifies Repr(), pool, pool.memory
      ensures Valid() && Repr() <= old(Repr())
      ensures Mapping() == old(Mapping()) - {index * SLOTS + offset}
      ensures pool.Valid()
      ensures pool.Contents() == old(pool.Contents()) + Freed(old(Mapping()), index * SLOTS + offset)
    {
      hide Translates, Consistent, View, DirectoryOk, AllKnown, InOrder, StorageOf, Separate, Freed,
           RbTree.Refs, RbTree.Mirrors, Sorted, WithEntry, WithoutTable, Directory, Cleared, Empty, PageOf;
      UnmapEither(index, offset);
      assert table[index] == table[..][index];
      if table[index] % 2 != TYPE_PAGE_TABLE {
        return;
      }
      assert allocated(RbTree.Refs(directory.tree)) && allocated(Storage());
      var address := Resolve(index);
      RemoveSlot(address, index, offset, pool);
      StillKnown(old(layout).slot);
    }

    /** Clears the entry, frees its page and drops the page table if nothing is left in it. */
    method RemoveSlot(address: nat, index: nat, offset: nat, pool: PageStack)
      requires Stored() && address in pageTables && index < entries && offset < SLOTS
      requires index in layout.slot && layout.slot[index] == address && |layout.level2[address]| == SLOTS
      requires pool.Valid() && pool.memory != table && pool.memory !in Storage()
      requires |pool.Contents()| + |NonNull(PageOf(layout.level2[address][offset]))| <= pool.memory.Length
      modifies this`layout, this`pageTables, table, Storage(), pool, pool.memory
      ensures Stored() && Storage() <= old(Storage())
      ensures layout == Cleared(old(layout), index, offset)
      ensures pool.Valid()
      ensures pool.Contents() == old(pool.Contents()) + NonNull(PageOf(old(layout).level2[address][offset]))
    {
      hide StorageOf, Separate, Empty, PageOf, WithoutTable, Holds;
      assert allocated(Storage());
      var page := ClearEntry(address, offset, index);
      if page != 0 {
        pool.Push(page);
      }
      assert Stored();
      DropIfEmpty(address, index);
    }

    lemma StillKnown(slot: map<nat, nat>)
      requires Directory(slot) && SubMap(layout.slot, slot)
      ensures Directory(layout.slot)
    {
    }

    lemma UnmapEither(index: nat, offset: nat)
      requires Translates(virtualToPhysical) && Consistent(layout, virtualToPhysical)
      requires index < |layout.level1| && offset < SLOTS
      ensures layout.level1[index] % 2 == TYPE_PAGE_TABLE <==> index in layout.slot
      ensures index !in layout.slot ==>
        View(layout) == View(layout) - {index * SLOTS + offset} && Freed(View(layout), index * SLOTS + offset) == []
      ensures index in layout.slot ==>
        var a := layout.slot[index];
        && a in layout.level2 && |layout.level2[a]| == SLOTS
        && Consistent(Cleared(layout, index, offset), virtualToPhysical)
        && View(Cleared(layout, index, offset)) == View(layout) - {index * SLOTS + offset}
        && Freed(View(layout), index * SLOTS + offset) == NonNull(PageOf(layout.level2[a][offset]))
        && SubMap(Cleared(layout, index, offset).slot, layout.slot)
    {
      hide *;
      EntryWord(layout, virtualToPhysical, index);
      if index in layout.slot {
        UnmapPresent(layout, virtualToPhysical, index, offset);
      } else {
        UnmapAbsent(layout, virtualToPhysical, index, offset);
      }
    }

    /** The descriptor the MMU finds for `virt`, 0 if there is none. */
    method Walk(virt: nat) returns (entry: nat)
      requires Valid() && virt < entries * SECTION
      ensures entry == EntryOf(Mapping(), virt / PAGE)
    {
      hide Mapping, EntryOf, Valid;
      PageNumber(virt);
      entry := WalkSlot(virt / SECTION, virt % SECTION / PAGE);
    }

    method WalkSlot(index: nat, offset: nat) returns (entry: nat)
      requires Valid() && index < entries && offset < SLOTS
      ensures entry == EntryOf(Mapping(), index * SLOTS + offset)
    {
      hide Translates, Consistent, View, EntryOf, DirectoryOk, AllKnown, Separate, StorageOf;
      EntryWord(layout, virtualToPhysical, index);
      assert table[index] == table[..][index];
      WalkFinds(layout, virtualToPhysical, index, offset);
      if table[index] % 2 != TYPE_PAGE_TABLE {
        return 0;
      }
      var address := Resolve(index);
      assert Holds(address);
      entry := pageTables[address].table[offset];
      assert entry == pageTables[address].table[..][offset];
    }

    /** Maps the physical pages from `start` up to `end` at consecutive virtual pages from `virt` on. */
    method MapInterval(start: nat, end: nat, virt: nat, p: Permissions, t: IntervalType, notGlobal: bool)
      requires Valid() && start % PAGE == 0 && end <= U32 - PAGE
      requires virt + PagesIn(start, end) * PAGE <= entries * SECTION <= U32
      modifies Repr()
      ensures Valid() && fresh(Repr() - old(Repr()))
      ensures Mapping() == WithPages(old(Mapping()), start, virt / PAGE, PagesIn(start, end), p, t, notGlobal)
    {
      hide Mapping, Repr, Descriptor, Valid, WithPages;
      WithNone(Mapping(), start, virt / PAGE, p, t, notGlobal);
      var currentAddress, currentVirtual := start, virt;
      ghost var n := 0;
      while currentAddress < end
        invariant Valid()
        invariant forall o :: o in Repr() && o !in old(Repr()) ==> fresh(o)
        invariant n <= PagesIn(start, end)
        invariant currentAddress == start + n * PAGE && currentVirtual == virt + n * PAGE
        invariant Mapping() == WithPages(old(Mapping()), start, virt / PAGE, n, p, t, notGlobal)
        decreases end - currentAddress
      {
        // What `new (1024) page_table` would return: an aligned address without a live page table.
        FreshAddressExists(pageTables.Keys);
        var at :| at !in pageTables && at % 1024 == 0;
        ghost var before := Repr();
        label Turn:
        assert forall o :: o in before && o !in old(Repr()) ==> fresh(o);
        assert currentVirtual / PAGE == virt / PAGE + n;
        MapPage(currentAddress, currentVirtual, p, t, notGlobal, at);
        assert forall o :: o in Repr() && o !in before ==> fresh@Turn(o);
        assert forall o :: o in Repr() && o !in before ==> fresh(o);
        assert forall o :: o in before && o !in old(Repr()) ==> fresh(o);
        WithOneMore(old(Mapping()), start, virt / PAGE, n, p, t, notGlobal);
        currentAddress := currentAddress + PAGE;
        currentVirtual := currentVirtual + PAGE;
        n := n + 1;
      }
    }

    /** Unmaps the virtual pages from `start` up to `end`, returning their pages to the pool in order. */
    method UnmapInterval(start: nat, end: nat, pool: PageStack)
      requires Valid() && start + PagesIn(start, end) * PAGE <= entries * SECTION <= U32
      requires pool.Valid() && {pool, pool.memory} !! Repr()
      requires |pool.Contents()| + |FreedRange(Mapping(), start / PAGE, PagesIn(start, end))| <= pool.memory.Length
      modifies Repr(), pool, pool.memory
      ensures Valid() && Repr() <= old(Repr())
      ensures Mapping() == WithoutRange(old(Mapping()), start / PAGE, PagesIn(start, end))
      ensures pool.Valid()
      ensures pool.Contents()
           == old(pool.Contents()) + FreedRange(old(Mapping()), start / PAGE, PagesIn(start, end))
    {
      hide Mapping, Repr, Freed, Valid, FreedRange, WithoutRange;
      EmptyRange(Mapping(), start / PAGE);
      var currentAddress := start;
      ghost var n, m, free := 0, Mapping(), pool.Contents();
      while currentAddress < end
        invariant Valid() && Repr() <= old(Repr())
        invariant n <= PagesIn(start, end)
        invariant currentAddress == start + n * PAGE
        invariant Mapping() == WithoutRange(m, start / PAGE, n)
        invariant pool.Valid() && pool.Contents() == free + FreedRange(m, start / PAGE, n)
        decreases end - currentAddress
      {
        FreedOneMore(m, start / PAGE, n, PagesIn(start, end));
        UnmapPage(currentAddress, pool);
        currentAddress := currentAddress + PAGE;
        n := n + 1;
      }
    }
  }

  // ----- intervals on the mapping

  /** The loop variable of the interval loops after `n` turns. */
  function LoopAddress(start: nat, n: nat): nat {
    Wrap(start + n * PAGE)
  }

  /** The interval loops end if and only if the interval ends at least a page below 2^32: behind
      that the address wraps around before it reaches the end. */
  lemma IntervalEndsExactly(start: Word, end: Word)
    requires start % PAGE == 0
    ensures (exists n: nat :: LoopAddress(start, n) >= end) <==> end <= U32 - PAGE
  {
    if end <= U32 - PAGE {
      var n := (U32 - PAGE - start) / PAGE;
      WrapOnce(start + n * PAGE);
      assert LoopAddress(start, n) >= end;
    } else {
      forall n: nat
        ensures LoopAddress(start, n) < end
      {
        WrapKeepsPages(start + n * PAGE);
      }
    }
  }

  lemma WrapKeepsPages(x: nat)
    requires x % PAGE == 0
    ensures Wrap(x) <= U32 - PAGE
  {
    var pages := 0x10_0000;
    DivModUnique(x, U32, x / PAGE / pages, PAGE * (x / PAGE % pages));
  }

  /** Turns of an interval loop that steps a page at a time from `start` below `end`. */
  function PagesIn(start: nat, end: nat): nat {
    if start < end then (end - start + PAGE - 1) / PAGE else 0
  }

  /** The descriptor of virtual page `u` in an interval that maps `page` at `v`. */
  ghost function IntervalEntry(page: nat, v: nat, u: nat, p: Permissions, t: IntervalType, notGlobal: bool): nat
    requires v <= u
  {
    Descriptor(page + (u - v) * PAGE, p, t, notGlobal)
  }

  ghost function WithPages(m: map<nat, nat>, page: nat, v: nat, n: nat,
      p: Permissions, t: IntervalType, notGlobal: bool): map<nat, nat>
  {
    m + map u: nat | v <= u < v + n :: IntervalEntry(page, v, u, p, t, notGlobal)
  }

  /** The physical address that a mapping translates a virtual address to. */
  ghost function Physical(m: map<nat, nat>, address: nat): nat {
    PageOf(EntryOf(m, address / 4096)) + address % 4096
  }

  /** A mapped interval translates every one of its addresses by the same distance, with the
      permissions and attributes asked for, and leaves every other page alone. */
  lemma IntervalTranslates(m: map<nat, nat>, start: nat, end: nat, virt: nat,
      p: Permissions, t: IntervalType, notGlobal: bool, x: nat)
    requires start % 4096 == 0 && virt % 4096 == 0 && start <= x < end
    ensures var m', va := WithPages(m, start, virt / 4096, PagesIn(start, end), p, t, notGlobal), virt + (x - start);
      && Physical(m', va) == x
      && ReadAccess(EntryOf(m', va / 4096)) == p && ReadAttributes(EntryOf(m', va / 4096)) == Intended(t)
      && (EntryOf(m', va / 4096) / 0x800 % 2 == 1 <==> notGlobal)
  {
    hide Descriptor, PageOf, ReadAccess, ReadAttributes, Intended;
    var m' := WithPages(m, start, virt / 4096, PagesIn(start, end), p, t, notGlobal);
    var k := (x - start) / 4096;
    PageInInterval(start, end, virt, x);
    assert EntryOf(m', virt / 4096 + k) == Descriptor(start + k * PAGE, p, t, notGlobal);
    DescriptorReadsBack(start + k * PAGE, p, t, notGlobal);
  }

  lemma PageInInterval(start: nat, end: nat, virt: nat, x: nat)
    requires start % 4096 == 0 && virt % 4096 == 0 && start <= x < end
    ensures var k := (x - start) / 4096;
      && k < PagesIn(start, end) && (start + k * 4096) % 4096 == 0
      && (virt + (x - start)) / 4096 == virt / 4096 + k
      && start + k * 4096 + (virt + (x - start)) % 4096 == x
  {
    DivModUnique(virt + (x - start), 4096, virt / 4096 + (x - start) / 4096, (x - start) % 4096);
  }

  lemma OutsideInterval(m: map<nat, nat>, start: nat, end: nat, virt: nat,
      p: Permissions, t: IntervalType, notGlobal: bool, u: nat)
    requires start % 4096 == 0 && virt % 4096 == 0
    requires u < virt / 4096 || (u - virt / 4096) * 4096 + start >= end
    ensures EntryOf(WithPages(m, start, virt / 4096, PagesIn(start, end), p, t, notGlobal), u) == EntryOf(m, u)
  {
  }

  ghost function WithoutRange(m: map<nat, nat>, v: nat, n: nat): map<nat, nat> {
    map u | u in m && !(v <= u < v + n) :: m[u]
  }

  /** The pages given back when `n` virtual pages from `v` on are unmapped in order. */
  ghost function FreedRange(m: map<nat, nat>, v: nat, n: nat): seq<nat> {
    if n == 0 then [] else FreedRange(m, v, n - 1) + Freed(m, v + n - 1)
  }

  lemma WithOneMore(m: map<nat, nat>, page: nat, v: nat, n: nat, p: Permissions, t: IntervalType, notGlobal: bool)
    ensures WithPages(m, page, v, n + 1, p, t, notGlobal)
         == WithPages(m, page, v, n, p, t, notGlobal)[v + n := Descriptor(page + n * PAGE, p, t, notGlobal)]
  {
  }

  lemma WithNone(m: map<nat, nat>, page: nat, v: nat, p: Permissions, t: IntervalType, notGlobal: bool)
    ensures WithPages(m, page, v, 0, p, t, notGlobal) == m
  {
  }

  lemma EmptyRange(m: map<nat, nat>, v: nat)
    ensures WithoutRange(m, v, 0) == m && FreedRange(m, v, 0) == []
  {
  }

  lemma FreedOneMore(m: map<nat, nat>, v: nat, n: nat, total: nat)
    requires n < total
    ensures Freed(WithoutRange(m, v, n), v + n) == Freed(m, v + n)
    ensures WithoutRange(m, v, n + 1) == WithoutRange(m, v, n) - {v + n}
    ensures FreedRange(m, v, n + 1) == FreedRange(m, v, n) + Freed(m, v + n)
    ensures |FreedRange(m, v, n + 1)| <= |FreedRange(m, v, total)|
  {
    FreedGrows(m, v, n + 1, total);
  }

  /** The pages come back in ascending order of their virtual addresses, null ones left out. */
  lemma {:induction false} FreedInOrder(m: map<nat, nat>, v: nat, n: nat)
    ensures FreedRange(m, v, n) == if n == 0 then [] else Freed(m, v) + FreedRange(m, v + 1, n - 1)
  {
    if n > 1 {
      FreedInOrder(m, v, n - 1);
      assert FreedRange(m, v + 1, n - 1) == FreedRange(m, v + 1, n - 2) + Freed(m, v + n - 1);
    } else if n == 1 {
      assert FreedRange(m, v, 0) == [] && FreedRange(m, v + 1, 0) == [];
    }
  }

  lemma {:induction false} FreedGrows(m: map<nat, nat>, v: nat, n: nat, total: nat)
    requires n <= total
    ensures |FreedRange(m, v, n)| <= |FreedRange(m, v, total)|
  {
    if n < total {
      FreedGrows(m, v, n, total - 1);
    }
  }

  lemma FreshAddressExists(used: set<nat>)
    ensures exists at: nat :: at !in used && at % 1024 == 0
  {
    var top := UpperBound(used);
    assert 1024 * (top + 1) !in used;
    assert (1024 * (top + 1)) % 1024 == 0;
  }

  lemma UpperBound(s: set<nat>) returns (top: nat)
    ensures forall x :: x in s ==> x <= top
  {
    if s == {} {
      top := 0;
    } else {
      var y :| y in s;
      var t := UpperBound(s - {y});
      top := if t > y then t else y;
      assert forall x :: x in s ==> x == y || x in s - {y};
    }
  }

  ghost predicate SubMap(m: map<nat, nat>, m': map<nat, nat>) {
    forall i :: i in m ==> i in m' && m[i] == m'[i]
  }

  function NonNull(page: nat): seq<nat> {
    if page == 0 then [] else [page]
  }

  /** The page a mapping gives back when virtual page `v` is unmapped. */
  ghost function Freed(m: map<nat, nat>, v: nat): seq<nat> {
    if v in m then NonNull(PageOf(m[v])) else []
  }
}
