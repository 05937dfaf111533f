/** The size of the read buffer: the driver shifts where it should multiply. When reads are right
    all the same, and when the walk along a chain ends. */
module ClusterSize {
  import opened Arithmetic
  import opened ChainBytes
  import opened FatChain

  /** The size as meant, and as the driver computes it in an `unsigned int`. */
  datatype Sizing = AsMeant | AsWritten

  function BufferSize(z: Sizing, sectors: Byte): nat
    requires sectors > 0
  {
    match z
    case AsMeant => SECTOR * sectors
    case AsWritten => Wrap(SECTOR * Pow2(sectors - 1))
  }

  // ----- the shift

  lemma Pow2Step(n: nat)
    ensures Pow2(0) == 1 && Pow2(n + 1) == 2 * Pow2(n)
  {
  }

  lemma DoubleRight(x: nat, y: nat)
    ensures x * (2 * y) == 2 * (x * y)
  {
  }

  lemma {:induction false} Pow2Sum(a: nat, b: nat)
    ensures Pow2(a + b) == Pow2(a) * Pow2(b)
  {
    hide Pow2;
    Pow2Step(0);
    if b > 0 {
      Pow2Sum(a, b - 1);
      Pow2Step(a + b - 1);
      Pow2Step(b - 1);
      DoubleRight(Pow2(a), Pow2(b - 1));
    }
  }

  lemma Pow2Of23()
    ensures Pow2(4) == 16 && Pow2(8) == 0x100 && Pow2(16) == 0x1_0000 && Pow2(22) == 0x40_0000 && Pow2(23) == 0x80_0000
  {
    assert Pow2(4) == 16;
    Pow2Sum(4, 4);
    Pow2Sum(8, 8);
    Pow2Sum(16, 4);
    assert Pow2(22) == 2 * Pow2(21) == 4 * Pow2(20);
  }

  /** The shift computes the size of a cluster for one or two sectors, more than that up to 23,
      and nothing at all from 24 sectors on. */
  lemma ShiftExactly(sectors: Byte)
    requires sectors > 0
    ensures BufferSize(AsWritten, sectors) == SECTOR * sectors <==> sectors <= 2
    ensures BufferSize(AsWritten, sectors) > SECTOR * sectors <==> 2 < sectors < 24
    ensures BufferSize(AsWritten, sectors) == 0 <==> sectors >= 24
    ensures BufferSize(AsWritten, sectors) % SECTOR == 0
  {
    hide Pow2, Wrap;
    Pow2Of23();
    if sectors >= 24 {
      Pow2Sum(23, sectors - 24);
      WholeWraps(Pow2(sectors - 24));
    } else {
      ShiftFits(sectors);
      WrapOnce(SECTOR * Pow2(sectors - 1));
      Pow2Step(0);
      Pow2Step(1);
      if sectors > 2 {
        Pow2Step(sectors - 2);
        Pow2Grows(sectors - 2);
      }
    }
  }

  /** Each further sector doubles the size, from one sector up to 23. */
  lemma ShiftDoubles(sectors: Byte)
    requires 0 < sectors < 23
    ensures BufferSize(AsWritten, 1) == 512 && BufferSize(AsWritten, sectors + 1) == 2 * BufferSize(AsWritten, sectors)
  {
    hide Pow2, Wrap;
    ShiftFits(1);
    ShiftFits(sectors);
    ShiftFits(sectors + 1);
    Pow2Step(sectors - 1);
    WrapOnce(SECTOR * Pow2(0));
    WrapOnce(SECTOR * Pow2(sectors - 1));
    WrapOnce(SECTOR * Pow2(sectors));
  }

  lemma WholeWraps(k: nat)
    ensures Wrap(SECTOR * (0x80_0000 * k)) == 0
  {
    ModShift(0, U32, k);
  }

  lemma ShiftFits(sectors: Byte)
    requires 0 < sectors < 24
    ensures 0 < SECTOR * Pow2(sectors - 1) < U32
  {
    hide Pow2;
    Pow2Of23();
    Pow2Grows(sectors - 1);
    Pow2Grows(23 - sectors);
    Pow2Sum(sectors - 1, 23 - sectors);
    var p, q := Pow2(sectors - 1), Pow2(23 - sectors);
    ScaleAtLeast(q, p);
    assert q * p == p * q;
  }

  lemma Pow2Grows(n: nat)
    ensures Pow2(n) >= n + 1
  {
  }

  // ----- which reads are right

  function Meant(f: Chain): Chain {
    f.(tail := [])
  }

  /** `f` is read through a buffer of the size the driver computes. */
  predicate Padded(f: Chain) {
    0 < f.volume.sectorsPerCluster < 24 && Size(f) == BufferSize(AsWritten, f.volume.sectorsPerCluster)
  }

  /** What a caller can check: the size is right, or the read stays in the first cluster, or it
      reads nothing and the clusters it skips are as many as they should be. */
  predicate ReadsRight(sectors: Byte, offset: nat, size: nat)
    requires 0 < sectors < 24
  {
    ShiftExactly(sectors);
    || sectors <= 2
    || offset + size <= SECTOR * sectors
    || (size == 0 && (offset - 1) / BufferSize(AsWritten, sectors) == (offset - 1) / (SECTOR * sectors))
  }

  lemma FirstBlock(f: Chain, k: nat)
    requires f.volume.sectorsPerCluster > 0 && k < SECTOR * f.volume.sectorsPerCluster
    ensures Covers(f, k + 1) && forall b :: IsByte(f, k, b) <==> IsByte(Meant(f), k, b)
  {
    DivModUnique(k, Size(f), 0, k);
    DivModUnique(k, Size(Meant(f)), 0, k);
  }

  lemma CoversStart(f: Chain)
    requires Size(f) > 0
    ensures Covers(f, 0)
  {
  }

  lemma WrittenReadIsRight(f: Chain, offset: nat, size: nat, ok: bool, bytes: seq<Byte>)
    requires Padded(f) && ReadsRight(f.volume.sectorsPerCluster, offset, size)
    requires Outcome(f, offset, size, ok, bytes)
    ensures Outcome(Meant(f), offset, size, ok, bytes)
  {
    var sectors := f.volume.sectorsPerCluster;
    ShiftExactly(sectors);
    if sectors <= 2 {
      assert f.tail == [];
    } else if offset + size <= SECTOR * sectors {
      FirstClusterRead(f, offset, size, ok, bytes);
    }
  }

  lemma FirstClusterRead(f: Chain, offset: nat, size: nat, ok: bool, bytes: seq<Byte>)
    requires f.volume.sectorsPerCluster > 0 && offset + size <= SECTOR * f.volume.sectorsPerCluster
    requires Outcome(f, offset, size, ok, bytes)
    ensures Outcome(Meant(f), offset, size, ok, bytes)
  {
    hide Covers, IsByte;
    forall m | 0 <= m <= offset + size
      ensures Covers(f, m) && Covers(Meant(f), m)
    {
      if m == 0 {
        CoversStart(f);
        CoversStart(Meant(f));
      } else {
        FirstBlock(f, m - 1);
        FirstBlock(Meant(f), m - 1);
      }
    }
    forall i | 0 <= i < |bytes|
      ensures IsByte(Meant(f), offset + i, bytes[i])
    {
      FirstBlock(f, offset + i);
    }
  }

  // ----- a volume on which every other read goes wrong

  function Marked(b: Byte): Sector {
    seq(SECTOR, i => b)
  }

  /** A table that links clusters 2, 3, ... up to `m` + 1. */
  function Ascending(m: nat): seq<Word>
    requires m < 0x100_0000
  {
    seq(m + 2, i requires 0 <= i < m + 2 => if i == m + 1 then 0x0fff_ffff else i + 1)
  }

  function TableBlocks(m: nat): nat {
    (m + 1) / 128 + 1
  }

  function MarkedSector(m: nat, target: nat, a: nat): Sector
    requires m < 0x100_0000
  {
    if a < TableBlocks(m) then EncodeEntries(Ascending(m), 128 * a, 128)
    else Marked(if a == TableBlocks(m) + target then 1 else 0)
  }

  /** The volume with that table whose data is zero but for sector `target`, which holds ones. */
  function MarkedVolume(sectors: Byte, m: nat, target: nat): (v: Volume)
    requires m < 0x100_0000
    ensures v.sectorsPerCluster == sectors
  {
    Volume((a: nat) => MarkedSector(m, target, a), a => true, 0, 0, TableBlocks(m), sectors)
  }

  lemma MarkedChain(sectors: Byte, m: nat, target: nat, n: nat)
    requires 0 < m < 0x100_0000
    ensures ClusterAt(MarkedVolume(sectors, m, target), 2, n) == if n < m then Cluster(n + 2) else End
  {
    var v := MarkedVolume(sectors, m, target);
    hide MarkedSector, LinksInOrder, EncodeEntries;
    MarkedStores(sectors, m, target);
    MarkedLinks(v, m);
    StoredChainIsFollowed(v, Ascending(m), v.firstData, seq(m, i => i + 2), n);
  }

  lemma MarkedStores(sectors: Byte, m: nat, target: nat)
    requires 0 < m < 0x100_0000
    ensures Stores(MarkedVolume(sectors, m, target), Ascending(m), TableBlocks(m))
  {
    hide EncodeEntries, Ascending;
  }

  lemma MarkedLinks(v: Volume, m: nat)
    requires 0 < m < 0x100_0000 && forall a :: v.readable(a)
    ensures LinksInOrder(v, Ascending(m), seq(m, i => i + 2))
  {
  }

  /** Byte `j` of a run of sectors. */
  lemma {:induction false} SectorsAt(v: Volume, address: nat, n: nat, j: nat)
    requires j < SECTOR * n
    ensures Sectors(v, address, n)[j] == v.sector(address + j / SECTOR)[j % SECTOR]
  {
    if j < SECTOR * (n - 1) {
      SectorsAt(v, address, n - 1, j);
    }
  }

  lemma MarkedData(sectors: Byte, m: nat, target: nat, n: nat, j: nat)
    requires 0 < sectors && n < m < 0x100_0000 && j < SECTOR * sectors
    ensures ClusterData(MarkedVolume(sectors, m, target), n + 2)[j]
         == if n * sectors + j / SECTOR == target then 1 else 0
  {
    var v := MarkedVolume(sectors, m, target);
    NoWrap(n, sectors);
    SectorsAt(v, ClusterAddress(v, n + 2), sectors, j);
  }

  lemma NoWrap(n: nat, sectors: Byte)
    requires n < 0x100_0000
    ensures Wrap(Wrap(n + 2 - 2) * sectors) == n * sectors
  {
    ScaleAtLeast(0x100_0000 - n, sectors);
    assert (0x100_0000 - n) * sectors >= 0;
    assert n * sectors <= 0x100_0000 * sectors;
    assert n * sectors >= 0;
    WrapOnce(n);
    WrapOnce(n * sectors);
  }

  /** The chain over the marked volume as the driver reads it, the rest of its buffer zero. */
  function MarkedFile(sectors: Byte, m: nat, target: nat): (f: Chain)
    requires 0 < sectors < 24 && m < 0x100_0000
    ensures Padded(f)
  {
    ShiftExactly(sectors);
    Chain(MarkedVolume(sectors, m, target), 2, seq(BufferSize(AsWritten, sectors) - SECTOR * sectors, i => 0))
  }

  lemma SectorNumber(n: nat, e: nat, j: nat)
    ensures (n * (SECTOR * e) + j) / SECTOR == n * e + j / SECTOR
  {
    var x := n * e;
    assert n * (SECTOR * e) == SECTOR * x;
    DivModUnique(SECTOR * x + j, SECTOR, x + j / SECTOR, j % SECTOR);
  }

  /** What a chain has at byte `j` of its `n`-th block. */
  lemma ByteInBlock(f: Chain, n: nat, j: nat, b: Byte)
    requires Size(f) > 0 && j < Size(f) && Has(f, n)
    ensures IsByte(f, n * Size(f) + j, b) <==> Block(f, n)[j] == b
  {
    DivModUnique(n * Size(f) + j, Size(f), n, j);
  }

  /** As meant, position `k` of the file lies in data sector k / SECTOR. */
  lemma MeantByte(sectors: Byte, m: nat, target: nat, n: nat, j: nat, b: Byte)
    requires 0 < sectors < 24 && n < m < 0x100_0000 && j < SECTOR * sectors
    ensures var k := n * (SECTOR * sectors) + j;
      IsByte(Meant(MarkedFile(sectors, m, target)), k, b) <==> b == if k / SECTOR == target then 1 else 0
  {
    hide Sectors, ClusterAddress, ClusterAt, MarkedVolume, BufferSize, IsByte;
    var f := Meant(MarkedFile(sectors, m, target));
    MarkedChain(sectors, m, target, n);
    MarkedData(sectors, m, target, n, j);
    ByteInBlock(f, n, j, b);
    SectorNumber(n, sectors, j);
  }

  /** As the driver reads it, no position behind the first cluster's data lies in its sector. */
  lemma WrittenByte(sectors: Byte, m: nat, n: nat, j: nat, b: Byte)
    requires 2 < sectors < 24 && n < m < 0x100_0000 && j < BufferSize(AsWritten, sectors)
    requires n * BufferSize(AsWritten, sectors) + j >= SECTOR * sectors
    ensures var k := n * BufferSize(AsWritten, sectors) + j;
      IsByte(MarkedFile(sectors, m, k / SECTOR), k, b) <==> b == 0
  {
    hide Sectors, ClusterAddress, ClusterAt, MarkedVolume, BufferSize, IsByte;
    ShiftExactly(sectors);
    var w := BufferSize(AsWritten, sectors);
    var target := (n * w + j) / SECTOR;
    var f := MarkedFile(sectors, m, target);
    MarkedChain(sectors, m, target, n);
    ByteInBlock(f, n, j, b);
    if j < SECTOR * sectors {
      MarkedData(sectors, m, target, n, j);
      SectorNumber(n, w / SECTOR, j);
      ScaleAtLeast(n, w / SECTOR - sectors);
      assert n * (w / SECTOR) == n * sectors + n * (w / SECTOR - sectors);
    }
  }

  /** Every other read goes wrong on some volume: the marked one, with just enough clusters. */
  lemma WrittenReadIsWrong(sectors: Byte, offset: Word, size: Word) returns (f: Chain, ok: bool, bytes: seq<Byte>)
    requires 0 < sectors < 24 && !ReadsRight(sectors, offset, size)
    ensures Padded(f) && f.volume.sectorsPerCluster == sectors
    ensures Outcome(f, offset, size, ok, bytes) && !Outcome(Meant(f), offset, size, ok, bytes)
  {
    ShiftExactly(sectors);
    if size == 0 {
      f := SkipsTooFew(sectors, offset);
      ok, bytes := true, [];
    } else {
      f, bytes := WrongLastByte(sectors, offset, size);
      ok := true;
    }
  }

  /** A walk that needs fewer of the driver's clusters than of the file's. */
  lemma SkipsTooFew(sectors: Byte, offset: Word) returns (f: Chain)
    requires 2 < sectors < 24 && offset > 0 && BufferSize(AsWritten, sectors) > 0
    requires (offset - 1) / BufferSize(AsWritten, sectors) != (offset - 1) / (SECTOR * sectors)
    ensures Padded(f) && f.volume.sectorsPerCluster == sectors
    ensures Covers(f, offset) && !Covers(Meant(f), offset)
  {
    hide BufferSize, MarkedVolume, ClusterAt, Padded;
    ShiftExactly(sectors);
    var n := (offset - 1) / BufferSize(AsWritten, sectors);
    SmallQuotient(offset - 1, BufferSize(AsWritten, sectors), SECTOR * sectors);
    f := MarkedFile(sectors, n + 1, 0);
    MarkedChain(sectors, n + 1, 0, n);
    MarkedChain(sectors, n + 1, 0, (offset - 1) / (SECTOR * sectors));
  }

  lemma SmallQuotient(x: nat, w: nat, s: nat)
    requires 0 < s <= w && 1024 <= s && x < 0x2_0000_0000
    ensures x / w <= x / s && x / s < 0x100_0000 - 1
  {
    QuotientBounds(x, s, x / w);
    ScaleAtLeast(w - s, x / w);
    QuotientBounds(x, s, 0xff_ffff);
    assert x == (x / w) * w + x % w;
    assert (x / w) * w == (x / w) * s + (x / w) * (w - s);
  }

  /** A read that goes behind the first cluster's data finds another byte at its end. */
  lemma WrongLastByte(sectors: Byte, offset: Word, size: Word) returns (f: Chain, bytes: seq<Byte>)
    requires 2 < sectors < 24 && size > 0 && offset + size > SECTOR * sectors
    ensures Padded(f) && f.volume.sectorsPerCluster == sectors
    ensures Outcome(f, offset, size, true, bytes) && !Outcome(Meant(f), offset, size, true, bytes)
  {
    hide Covers, IsByte, Concat, Has, BufferSize, MarkedVolume, ClusterAt, ReadResult, Padded;
    ShiftExactly(sectors);
    var s: nat, w: nat, k: nat := SECTOR * sectors, BufferSize(AsWritten, sectors), offset + size - 1;
    SmallQuotient(k, w, s);
    var m := k / s + 1;
    f := MarkedFile(sectors, m, k / SECTOR);
    LastCluster(sectors, m, k / SECTOR);
    EnoughBytes(k, s, w);
    bytes := Concat(f, m)[offset..offset + size];
    CoversExactly(f, m, offset);
    ReadIsSlice(f, m, offset, size, bytes);
    LastByte(f, offset, size, bytes);
    LastByteDiffers(sectors, s, w, k, m, bytes[size - 1]);
    if ReadResult(Meant(f), offset, size, bytes) {
      LastByte(Meant(f), offset, size, bytes);
    }
  }

  lemma LastByte(f: Chain, offset: nat, size: nat, bytes: seq<Byte>)
    requires Size(f) > 0 && ReadResult(f, offset, size, bytes) && |bytes| == size > 0
    ensures IsByte(f, offset + size - 1, bytes[size - 1])
  {
    assert IsByte(f, offset + (size - 1), bytes[size - 1]);
  }

  lemma LastByteDiffers(sectors: Byte, s: nat, w: nat, k: nat, m: nat, b: Byte)
    requires 2 < sectors < 24 && s == SECTOR * sectors <= k && w == BufferSize(AsWritten, sectors) > 0
    requires k / s < m < 0x100_0000 && k / w < m
    ensures var f := MarkedFile(sectors, m, k / SECTOR); IsByte(f, k, b) ==> !IsByte(Meant(f), k, b)
  {
    hide IsByte, BufferSize, MarkedVolume, MarkedFile;
    WrittenAt(sectors, m, w, k, k / w, k % w, b);
    MeantAt(sectors, m, s, k, k / s, k % s, b);
  }

  lemma WrittenAt(sectors: Byte, m: nat, w: nat, k: nat, n: nat, j: nat, b: Byte)
    requires 2 < sectors < 24 && w == BufferSize(AsWritten, sectors) > 0 && SECTOR * sectors <= k
    requires n == k / w && j == k % w && n < m < 0x100_0000
    ensures IsByte(MarkedFile(sectors, m, k / SECTOR), k, b) <==> b == 0
  {
    hide IsByte, BufferSize, MarkedVolume, MarkedFile;
    assert k == n * w + j;
    WrittenByte(sectors, m, n, j, b);
  }

  lemma MeantAt(sectors: Byte, m: nat, s: nat, k: nat, n: nat, j: nat, b: Byte)
    requires 2 < sectors < 24 && s == SECTOR * sectors && n == k / s && j == k % s && n < m < 0x100_0000
    ensures IsByte(Meant(MarkedFile(sectors, m, k / SECTOR)), k, b) <==> b == 1
  {
    hide IsByte, BufferSize, MarkedVolume, MarkedFile;
    assert k == n * s + j;
    MeantByte(sectors, m, k / SECTOR, n, j, b);
  }

  lemma LastCluster(sectors: Byte, m: nat, target: nat)
    requires 0 < sectors < 24 && 0 < m < 0x100_0000
    ensures var f := MarkedFile(sectors, m, target); Has(f, m - 1) && !Has(f, m)
  {
    MarkedChain(sectors, m, target, m - 1);
    MarkedChain(sectors, m, target, m);
  }

  lemma EnoughBytes(k: nat, s: nat, w: nat)
    requires 0 < s <= w
    ensures k < (k / s + 1) * w && k == (k / w) * w + k % w && k == (k / s) * s + k % s
  {
    var n := k / s;
    ScaleAtLeast(w - s, n + 1);
    assert (n + 1) * w == (n + 1) * s + (n + 1) * (w - s);
    assert (n + 1) * s == n * s + s;
  }

  /** The read of every padded chain has the outcome it should have. */
  ghost predicate AlwaysRight(sectors: Byte, offset: Word, size: Word) {
    forall f: Chain, ok, bytes |
      Padded(f) && f.volume.sectorsPerCluster == sectors && Outcome(f, offset, size, ok, bytes) ::
      Outcome(Meant(f), offset, size, ok, bytes)
  }

  /** A read as written is right on every volume, for every file and whatever the buffer held, if
      and only if there are one or two sectors per cluster, or it stays in the first cluster, or
      it reads nothing and skips as many of the driver's clusters as of the file's. */
  lemma WrittenReadsExactly(sectors: Byte, offset: Word, size: Word)
    requires 0 < sectors < 24
    ensures AlwaysRight(sectors, offset, size) <==> ReadsRight(sectors, offset, size)
  {
    hide Outcome, Padded, ReadsRight;
    if ReadsRight(sectors, offset, size) {
      forall f: Chain, ok, bytes | Padded(f) && f.volume.sectorsPerCluster == sectors
          && Outcome(f, offset, size, ok, bytes)
        ensures Outcome(Meant(f), offset, size, ok, bytes)
      {
        WrittenReadIsRight(f, offset, size, ok, bytes);
      }
    } else {
      var f, ok, bytes := WrittenReadIsWrong(sectors, offset, size);
    }
  }

  /** Four sectors per cluster: reading a page of a file of one cluster gives a whole page, of which
      the second half is what the buffer held before. */
  lemma StaleHalfPage(f: Chain, ok: bool, bytes: seq<Byte>)
    requires Padded(f) && f.volume.sectorsPerCluster == 4 && !Has(f, 1)
    requires Outcome(f, 0, 4096, ok, bytes)
    ensures |bytes| == 4096 == 2 * |FileBytes(f.volume, f.start, 1)|
    ensures forall i :: 0 <= i < 2048 ==> bytes[2048 + i] == f.tail[i]
  {
    assert Pow2(3) == 8;
    WrapOnce(SECTOR * 8);
    CoversExactly(f, 1, |bytes|);
    CoversExactly(f, 1, |bytes| + 1);
    forall i | 0 <= i < 2048
      ensures bytes[2048 + i] == f.tail[i]
    {
      assert IsByte(f, 0 + (2048 + i), bytes[2048 + i]);
    }
  }
}
