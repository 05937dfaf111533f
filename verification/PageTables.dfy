/** Second-level page tables in the short-descriptor format (section B3.5 of ARM DDI 0406C). */
module PageTables {
  import opened Arithmetic
  import opened PagePool

  datatype Permissions = RW_RW | RW_RO | RW_NA | RO_RO | RO_NA | NA_NA

  datatype IntervalType = CODE | DATA | RODATA | STACK | DEVICE

  // Small-page descriptor bits. They are pairwise distinct and below the page address, so
  // or-ing them into a page-aligned address is addition.
  const SMALL_PAGE: nat := 0x002
  const NG: nat := 0x800
  const S: nat := 0x400
  const AP2: nat := 0x200
  const TEX2: nat := 0x100
  const TEX1: nat := 0x080
  const TEX0: nat := 0x040
  const AP1: nat := 0x020
  const AP0: nat := 0x010
  const C: nat := 0x008
  const B: nat := 0x004
  const XN: nat := 0x001

  function TypeBits(t: IntervalType): nat {
    match t
    case CODE => TEX2 + TEX1 + C + S
    case DATA => XN + TEX2 + TEX0 + B + S
    case RODATA => XN + TEX2 + TEX1 + TEX0 + C + B + S
    case STACK => XN + TEX2 + TEX0 + B + S
    case DEVICE => XN + B + S
  }

  function PermissionBits(p: Permissions): nat {
    match p
    case RW_RW => AP1 + AP0
    case RW_RO => AP1
    case RW_NA => AP0
    case RO_RO => AP2 + AP1 + AP0
    case RO_NA => AP2 + AP0
    case NA_NA => 0
  }

  function Descriptor(page: nat, p: Permissions, t: IntervalType, notGlobal: bool): nat {
    page + SMALL_PAGE + (if notGlobal then NG else 0) + TypeBits(t) + PermissionBits(p)
  }

  /** The physical page a descriptor points to: `entry & 0xfffff000`. */
  function PageOf(entry: nat): nat {
    entry - entry % PAGE
  }

  /** Access permissions as the hardware reads them from AP[2:0]. */
  function AccessBits(entry: nat): (nat, nat) {
    (entry / 0x200 % 2, entry / 0x10 % 4)
  }

  function ReadAccess(entry: nat): Permissions {
    match AccessBits(entry)
    case (0, 3) => RW_RW
    case (0, 2) => RW_RO
    case (0, 1) => RW_NA
    case (1, 3) => RO_RO
    case (1, _) => RO_NA
    case _ => NA_NA
  }

  /** Memory attributes: TEX[2:0], C, B and the shareable bit. */
  datatype Attributes = Attributes(tex: nat, c: nat, b: nat, s: nat)

  function ReadAttributes(entry: nat): Attributes {
    Attributes(entry / 0x40 % 8, entry / 8 % 2, entry / 4 % 2, entry / 0x400 % 2)
  }

  /** Cacheable memory for code (write-through), data and stack (write-back, allocating on writes) and
      constants (write-back); shareable device memory for devices. */
  function Intended(t: IntervalType): Attributes {
    match t
    case CODE => Attributes(6, 1, 0, 1)
    case DATA => Attributes(5, 0, 1, 1)
    case RODATA => Attributes(7, 1, 1, 1)
    case STACK => Attributes(5, 0, 1, 1)
    case DEVICE => Attributes(0, 0, 1, 1)
  }

  /** A descriptor is a non-zero small-page entry from which page, permissions, memory attributes,
      execute-never and not-global all read back. */
  lemma DescriptorReadsBack(page: nat, p: Permissions, t: IntervalType, notGlobal: bool)
    requires page % PAGE == 0
    ensures var d := Descriptor(page, p, t, notGlobal);
      && d != 0 && d / 2 % 2 == 1
      && PageOf(d) == page
      && ReadAccess(d) == p && ReadAttributes(d) == Intended(t)
      && (d % 2 == 0 <==> t == CODE)
      && (d / 0x800 % 2 == 1 <==> notGlobal)
  {
    hide TypeBits, PermissionBits, Descriptor;
    var flags, k := Descriptor(0, p, t, notGlobal), page / PAGE;
    FlagBits(p, t, notGlobal);
    DescriptorSplits(page, p, t, notGlobal);
    DivModUnique(k * PAGE + flags, PAGE, k, flags);
    FieldAbove(k, flags, 1, PAGE, 2);
    FieldAbove(k, flags, 2, 2048, 2);
    FieldAbove(k, flags, 0x10, 256, 4);
    FieldAbove(k, flags, 0x200, 8, 2);
    FieldAbove(k, flags, 0x800, 2, 2);
    AttributesAbove(k, flags);
  }

  lemma AttributesAbove(k: nat, flags: nat)
    ensures ReadAttributes(k * PAGE + flags) == ReadAttributes(flags)
  {
    FieldAbove(k, flags, 0x40, 64, 8);
    FieldAbove(k, flags, 8, 512, 2);
    FieldAbove(k, flags, 4, 1024, 2);
    FieldAbove(k, flags, 0x400, 4, 2);
  }

  lemma DescriptorSplits(page: nat, p: Permissions, t: IntervalType, notGlobal: bool)
    ensures Descriptor(page, p, t, notGlobal) == page + Descriptor(0, p, t, notGlobal)
  {
  }

  lemma DescriptorIsSet(page: nat, p: Permissions, t: IntervalType, notGlobal: bool)
    ensures Descriptor(page, p, t, notGlobal) > 0
  {
  }

  lemma DescriptorPage(page: nat, p: Permissions, t: IntervalType, notGlobal: bool)
    requires page % PAGE == 0
    ensures PageOf(Descriptor(page, p, t, notGlobal)) == page
  {
    DescriptorReadsBack(page, p, t, notGlobal);
  }

  lemma FlagBits(p: Permissions, t: IntervalType, notGlobal: bool)
    ensures var f := Descriptor(0, p, t, notGlobal);
      && 0 < f < PAGE && f / 2 % 2 == 1
      && ReadAccess(f) == p && ReadAttributes(f) == Intended(t)
      && (f % 2 == 0 <==> t == CODE)
      && (f / 0x800 % 2 == 1 <==> notGlobal)
  {
    hide TypeBits, PermissionBits, ReadAccess, ReadAttributes, Intended;
    TypeAttributes(t);
    FlagAccess(TypeBits(t), p, notGlobal);
  }

  lemma TypeAttributes(t: IntervalType)
    ensures TypeBits(t) in {0x588, 0x545, 0x5CD, 0x405}
    ensures ReadAttributes(TypeBits(t)) == Intended(t) && (TypeBits(t) % 2 == 0 <==> t == CODE)
  {
  }

  lemma FlagAccess(bits: nat, p: Permissions, notGlobal: bool)
    requires bits in {0x588, 0x545, 0x5CD, 0x405}
    ensures var f := SMALL_PAGE + (if notGlobal then NG else 0) + bits + PermissionBits(p);
      && 0 < f < PAGE && f / 2 % 2 == 1
      && ReadAccess(f) == p && ReadAttributes(f) == ReadAttributes(bits) && f % 2 == bits % 2
      && (f / 0x800 % 2 == 1 <==> notGlobal)
  {
    var low: nat := SMALL_PAGE + bits + PermissionBits(p);
    if notGlobal {
      LowFlags(bits, p);
      HighBit(low);
    } else {
      LowFlags(bits, p);
    }
  }

  lemma LowFlags(bits: nat, p: Permissions)
    requires bits in {0x588, 0x545, 0x5CD, 0x405}
    ensures var f := SMALL_PAGE + bits + PermissionBits(p);
      && 0 < f < 0x800 && f / 2 % 2 == 1 && f % 2 == bits % 2
      && ReadAccess(f) == p && ReadAttributes(f) == ReadAttributes(bits)
  {
    hide PermissionBits;
    LowAccess(bits, p);
    LowAttributes(bits, p);
  }

  lemma LowAccess(bits: nat, p: Permissions)
    requires bits in {0x588, 0x545, 0x5CD, 0x405}
    ensures var f := SMALL_PAGE + bits + PermissionBits(p);
      0 < f < 0x800 && f / 2 % 2 == 1 && f % 2 == bits % 2 && ReadAccess(f) == p
  {
    match p
    case RW_RW =>
    case RW_RO =>
    case RW_NA =>
    case RO_RO =>
    case RO_NA =>
    case NA_NA =>
  }

  /** The attributes lie clear of the type and permission bits. */
  lemma LowAttributes(bits: nat, p: Permissions)
    requires bits in {0x588, 0x545, 0x5CD, 0x405}
    ensures ReadAttributes(SMALL_PAGE + bits + PermissionBits(p)) == ReadAttributes(bits)
  {
    hide PermissionBits;
    HighFields(bits, p);
    MiddleFields(bits, p);
  }

  lemma HighFields(bits: nat, p: Permissions)
    requires bits in {0x588, 0x545, 0x5CD, 0x405}
    ensures var f := SMALL_PAGE + bits + PermissionBits(p);
      f / 0x40 % 8 == bits / 0x40 % 8 && f / 0x400 % 2 == bits / 0x400 % 2
  {
    match p
    case RW_RW =>
    case RW_RO =>
    case RW_NA =>
    case RO_RO =>
    case RO_NA =>
    case NA_NA =>
  }

  lemma MiddleFields(bits: nat, p: Permissions)
    requires bits in {0x588, 0x545, 0x5CD, 0x405}
    ensures var f := SMALL_PAGE + bits + PermissionBits(p); f / 8 % 2 == bits / 8 % 2 && f / 4 % 2 == bits / 4 % 2
  {
    match p
    case RW_RW =>
    case RW_RO =>
    case RW_NA =>
    case RO_RO =>
    case RO_NA =>
    case NA_NA =>
  }

  /** The not-global bit is above all others. */
  lemma HighBit(f: nat)
    requires f < 0x800
    ensures var g := 0x800 + f;
      && g < PAGE && g / 0x800 == 1 && g / 2 % 2 == f / 2 % 2 && g % 2 == f % 2
      && ReadAccess(g) == ReadAccess(f) && ReadAttributes(g) == ReadAttributes(f)
  {
    FieldUnder(f, 1, 0x800, 2);
    FieldUnder(f, 2, 1024, 2);
    FieldUnder(f, 0x10, 128, 4);
    FieldUnder(f, 0x200, 4, 2);
    FieldUnder(f, 0x40, 32, 8);
    FieldUnder(f, 8, 256, 2);
    FieldUnder(f, 4, 512, 2);
    FieldUnder(f, 0x400, 2, 2);
    DivModUnique(0x800 + f, 0x800, 1, f);
  }

  lemma FieldUnder(f: nat, d: nat, m: nat, w: nat)
    requires 0 < d && 0 < w && 0x800 == d * m && m % w == 0
    ensures (0x800 + f) / d % w == f / d % w
  {
    assert 0x800 == m * d;
    DivModUnique(0x800 + f, d, m + f / d, f % d);
    assert m == (m / w) * w;
    ModShift(f / d, w, m / w);
  }

  /** A bit field below the page address does not depend on the page address. */
  lemma FieldAbove(k: nat, flags: nat, d: nat, m: nat, w: nat)
    requires 0 < d && 0 < w && PAGE == d * m && m % w == 0
    ensures (k * PAGE + flags) / d % w == flags / d % w
  {
    assert k * PAGE == (k * m) * d;
    DivModUnique(k * PAGE + flags, d, k * m + flags / d, flags % d);
    assert k * m == (k * (m / w)) * w;
    ModShift(flags / d, w, k * (m / w));
  }

  class PageTable {
    const table: array<nat>

    ghost predicate Valid()
    {
      table.Length == 256
    }

    constructor ()
      ensures Valid() && fresh(table)
      ensures forall i :: 0 <= i < 256 ==> table[i] == 0
    {
      table := new nat[256];
      new;
      for i := 0 to 256
        invariant forall j :: 0 <= j < i ==> table[j] == 0
      {
        table[i] := 0;
      }
    }

    method AddEntry(offset: nat, physical: nat, p: Permissions, t: IntervalType, notGlobal: bool)
      requires Valid() && offset < 256 && physical % PAGE == 0
      modifies table
      ensures table[..] == old(table[..])[offset := Descriptor(physical, p, t, notGlobal)]
    {
      var entry := physical + SMALL_PAGE;
      if notGlobal {
        entry := entry + NG;
      }
      entry := entry + TypeBits(t);
      entry := entry + PermissionBits(p);
      table[offset] := entry;
    }

    /** Clears an entry and returns the page it pointed to, 0 for none. */
    method RemoveEntry(offset: nat) returns (page: nat)
      requires Valid() && offset < 256
      modifies table
      ensures table[..] == old(table[..])[offset := 0]
      ensures page == PageOf(old(table[offset]))
    {
      page := PageOf(table[offset]);
      table[offset] := 0;
    }

    method IsEmpty() returns (empty: bool)
      requires Valid()
      ensures empty <==> forall i :: 0 <= i < 256 ==> table[i] == 0
    {
      for i := 0 to 256
        invariant forall j :: 0 <= j < i ==> table[j] == 0
      {
        if table[i] != 0 {
          return false;
        }
      }
      return true;
    }
  }
}
