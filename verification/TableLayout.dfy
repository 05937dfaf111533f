/** Two-level translation tables: first-level entries point at page tables on the kernel heap,
    which a never-pruned directory finds again from their physical addresses. */
module TableLayout {

  const TYPE_PAGE_TABLE: nat := 1
  /** Second-level entries per page table, and bytes mapped by one first-level entry. */
  const SLOTS: nat := 256
  const SECTION: nat := 0x10_0000

  /** The words of both levels: `level2` holds the page tables by kernel address, and `slot`
      says which one serves each first-level entry. */
  datatype Layout = Layout(level1: seq<nat>, level2: map<nat, seq<nat>>, slot: map<nat, nat>)

  /** Address translation for the kernel heap keeps offsets within a page and is one-to-one. */
  ghost predicate Translates(v2p: nat -> nat) {
    && (forall a: nat, b: nat :: v2p(a) == v2p(b) ==> a == b)
    && (forall a: nat :: v2p(a) % 1024 == a % 1024)
  }

  ghost predicate Empty(words: seq<nat>) {
    forall j :: 0 <= j < |words| ==> words[j] == 0
  }

  /** A first-level entry is non-zero exactly when a page table serves it; it then holds that
      table's physical address, and the table is not empty. */
  ghost predicate EntryOk(l: Layout, v2p: nat -> nat, i: nat)
    requires i < |l.level1|
  {
    && (l.level1[i] != 0 <==> i in l.slot)
    && (i in l.slot ==>
          var a := l.slot[i];
          && a in l.level2 && a % 1024 == 0
          && l.level1[i] == v2p(a) + TYPE_PAGE_TABLE
          && !Empty(l.level2[a]))
  }

  ghost predicate Consistent(l: Layout, v2p: nat -> nat) {
    && (forall i :: 0 <= i < |l.level1| ==> EntryOk(l, v2p, i))
    && SlotsOk(l)
  }

  /** Every page table serves exactly one first-level entry. */
  ghost predicate SlotsOk(l: Layout) {
    && (forall i :: i in l.slot ==> i < |l.level1|)
    && (forall a :: a in l.level2 ==> |l.level2[a]| == SLOTS)
    && (forall a :: a in l.level2 ==> a in l.slot.Values)
    && (forall i, j :: i in l.slot && j in l.slot && l.slot[i] == l.slot[j] ==> i == j)
  }

  /** The descriptor for virtual page `v`, 0 if unmapped. */
  ghost function Lookup(l: Layout, v: nat): nat {
    var i := v / SLOTS;
    if i in l.slot && l.slot[i] in l.level2 && |l.level2[l.slot[i]]| == SLOTS
    then l.level2[l.slot[i]][v % SLOTS] else 0
  }

  /** The finite map from virtual page to descriptor that the two levels amount to. */
  ghost function View(l: Layout): map<nat, nat> {
    map v | 0 <= v < |l.level1| * SLOTS && Lookup(l, v) != 0 :: Lookup(l, v)
  }

  function Zeros(): seq<nat> {
    seq(SLOTS, _ => 0)
  }

  // ----- updates

  ghost function WithEntry(l: Layout, i: nat, j: nat, d: nat): (r: Layout)
    requires i in l.slot && l.slot[i] in l.level2 && j < |l.level2[l.slot[i]]|
    ensures r.slot == l.slot && r.level1 == l.level1
  {
    var words: seq<nat> := l.level2[l.slot[i]][j := d];
    l.(level2 := l.level2[l.slot[i] := words])
  }

  ghost function WithTable(l: Layout, v2p: nat -> nat, i: nat, a: nat): (r: Layout)
    requires i < |l.level1|
    ensures r.slot == l.slot[i := a] && |r.level1| == |l.level1|
  {
    Layout(l.level1[i := v2p(a) + TYPE_PAGE_TABLE], l.level2[a := Zeros()], l.slot[i := a])
  }

  ghost function WithoutTable(l: Layout, i: nat): Layout
    requires i in l.slot && i < |l.level1|
  {
    Layout(l.level1[i := 0], l.level2 - {l.slot[i]}, l.slot - {i})
  }

  lemma ViewFromLookup(l: Layout, l': Layout, v: nat, d: nat)
    requires |l'.level1| == |l.level1| && v < |l.level1| * SLOTS
    requires forall u :: 0 <= u < |l.level1| * SLOTS ==> Lookup(l', u) == if u == v then d else Lookup(l, u)
    ensures View(l') == if d == 0 then View(l) - {v} else View(l)[v := d]
  {
  }

  lemma SetLookup(l: Layout, i: nat, j: nat, d: nat, u: nat)
    requires i in l.slot && l.slot[i] in l.level2 && |l.level2[l.slot[i]]| == SLOTS && j < SLOTS
    requires forall x, y :: x in l.slot && y in l.slot && l.slot[x] == l.slot[y] ==> x == y
    ensures Lookup(WithEntry(l, i, j, d), u) == if u == i * SLOTS + j then d else Lookup(l, u)
  {
  }

  lemma MapInTable(l: Layout, v2p: nat -> nat, i: nat, j: nat, d: nat)
    requires Consistent(l, v2p) && i in l.slot && j < SLOTS && d != 0
    ensures EntryOk(l, v2p, i) && l.slot[i] in l.level2 && |l.level2[l.slot[i]]| == SLOTS
    ensures Consistent(WithEntry(l, i, j, d), v2p)
    ensures View(WithEntry(l, i, j, d)) == View(l)[i * SLOTS + j := d]
  {
    assert EntryOk(l, v2p, i);
    var l' := WithEntry(l, i, j, d);
    var a := l.slot[i];
    assert l'.level2[a][j] == d;
    forall k | 0 <= k < |l.level1|
      ensures EntryOk(l', v2p, k)
    {
      assert EntryOk(l, v2p, k);
    }
    forall u | 0 <= u < |l.level1| * SLOTS
      ensures Lookup(l', u) == if u == i * SLOTS + j then d else Lookup(l, u)
    {
      SetLookup(l, i, j, d, u);
    }
    ViewFromLookup(l, l', i * SLOTS + j, d);
  }

  lemma MapInNewTable(l: Layout, v2p: nat -> nat, i: nat, j: nat, d: nat, a: nat)
    requires Consistent(l, v2p) && i < |l.level1| && i !in l.slot && j < SLOTS && d != 0
    requires a !in l.level2 && a % 1024 == 0
    ensures var l1 := WithTable(l, v2p, i, a);
      && Consistent(WithEntry(l1, i, j, d), v2p)
      && View(WithEntry(l1, i, j, d)) == View(l)[i * SLOTS + j := d]
  {
    NewTableEntries(l, v2p, i, j, d, a);
    NewTableView(l, v2p, i, j, d, a);
    NewTableSlots(l, v2p, i, j, d, a);
    hide EntryOk, View, Lookup;
  }

  lemma NewTableSlots(l: Layout, v2p: nat -> nat, i: nat, j: nat, d: nat, a: nat)
    requires Consistent(l, v2p) && i < |l.level1| && i !in l.slot && j < SLOTS
    requires a !in l.level2
    ensures SlotsOk(WithEntry(WithTable(l, v2p, i, a), i, j, d))
  {
    var l' := WithEntry(WithTable(l, v2p, i, a), i, j, d);
    SlotFresh(l, v2p, a);
    hide EntryOk;
    forall b | b in l'.level2
      ensures b in l'.slot.Values
    {
      if b == a {
        assert l'.slot[i] == a;
      } else {
        var k :| k in l.slot && l.slot[k] == b;
        assert l'.slot[k] == b;
      }
    }
  }

  lemma NewTableEntries(l: Layout, v2p: nat -> nat, i: nat, j: nat, d: nat, a: nat)
    requires Consistent(l, v2p) && i < |l.level1| && i !in l.slot && j < SLOTS && d != 0
    requires a !in l.level2 && a % 1024 == 0
    ensures var l' := WithEntry(WithTable(l, v2p, i, a), i, j, d);
      forall k :: 0 <= k < |l.level1| ==> EntryOk(l', v2p, k)
  {
    var l' := WithEntry(WithTable(l, v2p, i, a), i, j, d);
    assert l'.level2[a][j] == d;
    SlotFresh(l, v2p, a);
    forall k | 0 <= k < |l.level1|
      ensures EntryOk(l', v2p, k)
    {
      assert EntryOk(l, v2p, k);
    }
  }

  lemma NewTableView(l: Layout, v2p: nat -> nat, i: nat, j: nat, d: nat, a: nat)
    requires Consistent(l, v2p) && i < |l.level1| && i !in l.slot && j < SLOTS && d != 0
    requires a !in l.level2
    ensures View(WithEntry(WithTable(l, v2p, i, a), i, j, d)) == View(l)[i * SLOTS + j := d]
  {
    hide Lookup, EntryOk, View;
    var l1 := WithTable(l, v2p, i, a);
    SlotFresh(l, v2p, a);
    forall u | 0 <= u < |l.level1| * SLOTS
      ensures Lookup(WithEntry(l1, i, j, d), u) == if u == i * SLOTS + j then d else Lookup(l, u)
    {
      SetLookup(l1, i, j, d, u);
      NewTableLookup(l, v2p, i, a, u);
    }
    ViewFromLookup(l, WithEntry(l1, i, j, d), i * SLOTS + j, d);
  }

  lemma NewTableLookup(l: Layout, v2p: nat -> nat, i: nat, a: nat, u: nat)
    requires i < |l.level1| && i !in l.slot
    requires forall k :: k in l.slot ==> l.slot[k] != a
    ensures Lookup(WithTable(l, v2p, i, a), u) == Lookup(l, u)
  {
    if u / SLOTS == i {
      assert Zeros()[u % SLOTS] == 0;
    }
  }

  lemma SlotFresh(l: Layout, v2p: nat -> nat, a: nat)
    requires Consistent(l, v2p) && a !in l.level2
    ensures forall k :: k in l.slot ==> l.slot[k] != a
  {
    forall k | k in l.slot
      ensures l.slot[k] != a
    {
      assert EntryOk(l, v2p, k);
    }
  }

  /** Clearing an entry, and dropping the page table when it was the last one. */
  ghost function Cleared(l: Layout, i: nat, j: nat): Layout
    requires i in l.slot && i < |l.level1| && l.slot[i] in l.level2 && j < |l.level2[l.slot[i]]|
  {
    var l' := WithEntry(l, i, j, 0);
    if Empty(l'.level2[l.slot[i]]) then WithoutTable(l', i) else l'
  }

  lemma UnmapInTable(l: Layout, v2p: nat -> nat, i: nat, j: nat)
    requires Consistent(l, v2p) && i in l.slot && j < SLOTS
    ensures EntryOk(l, v2p, i) && l.slot[i] in l.level2 && |l.level2[l.slot[i]]| == SLOTS
    ensures Consistent(Cleared(l, i, j), v2p)
    ensures View(Cleared(l, i, j)) == View(l) - {i * SLOTS + j}
  {
    assert EntryOk(l, v2p, i);
    UnmapEntries(l, v2p, i, j);
    UnmapSlots(l, v2p, i, j);
    UnmapView(l, v2p, i, j);
    hide EntryOk, View, Lookup;
  }

  lemma UnmapEntries(l: Layout, v2p: nat -> nat, i: nat, j: nat)
    requires Consistent(l, v2p) && i in l.slot && j < SLOTS && l.slot[i] in l.level2
    ensures forall k :: 0 <= k < |l.level1| ==> EntryOk(Cleared(l, i, j), v2p, k)
  {
    forall k | 0 <= k < |l.level1|
      ensures EntryOk(Cleared(l, i, j), v2p, k)
    {
      assert EntryOk(l, v2p, k);
      if k in l.slot && k != i {
        assert l.slot[k] != l.slot[i];
      }
    }
  }

  lemma UnmapSlots(l: Layout, v2p: nat -> nat, i: nat, j: nat)
    requires Consistent(l, v2p) && i in l.slot && j < SLOTS && l.slot[i] in l.level2
    ensures SlotsOk(Cleared(l, i, j))
  {
    var l' := Cleared(l, i, j);
    hide EntryOk, Empty;
    forall b | b in l'.level2
      ensures b in l'.slot.Values
    {
      var k :| k in l.slot && l.slot[k] == b;
      assert k in l'.slot && l'.slot[k] == b;
    }
  }

  lemma UnmapView(l: Layout, v2p: nat -> nat, i: nat, j: nat)
    requires Consistent(l, v2p) && i in l.slot && j < SLOTS && l.slot[i] in l.level2
    ensures View(Cleared(l, i, j)) == View(l) - {i * SLOTS + j}
  {
    var l1, l' := WithEntry(l, i, j, 0), Cleared(l, i, j);
    forall u | 0 <= u < |l.level1| * SLOTS
      ensures Lookup(l', u) == if u == i * SLOTS + j then 0 else Lookup(l, u)
    {
      SetLookup(l, i, j, 0, u);
      if Empty(l1.level2[l.slot[i]]) && u / SLOTS == i {
        assert Lookup(l1, u) == 0;
      }
    }
    hide Lookup, Consistent;
    ViewFromLookup(l, l', i * SLOTS + j, 0);
  }

  /** Outside any page table nothing is mapped. */
  lemma NothingMapped(l: Layout, v2p: nat -> nat, i: nat, v: nat)
    requires Consistent(l, v2p) && i !in l.slot && v / SLOTS == i
    ensures v !in View(l)
  {
  }
}
