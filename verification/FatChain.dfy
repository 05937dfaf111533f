/** FAT32 volumes as values: cluster addresses, FAT entries, and the chain of a file. The entry
    format is that of the Microsoft FAT32 File System Specification 1.03, "FAT Data Structure". */
module FatChain {
  import opened Arithmetic

  const SECTOR: nat := 512

  type Byte = x: nat | x < 256
  type Sector = s: seq<Byte> | |s| == SECTOR witness seq(SECTOR, i => 0)

  /** A partition with a FAT32 file system: what every block holds, and which blocks the device
      fails to read when the FAT is looked up. */
  datatype Volume = Volume(
    sector: nat -> Sector, readable: nat -> bool,
    start: nat, reserved: nat, firstData: nat, sectorsPerCluster: Byte)

  // ----- clusters

  function ClusterAddress(v: Volume, cluster: nat): nat {
    Wrap(Wrap(cluster - 2) * v.sectorsPerCluster) + v.firstData
  }

  function Sectors(v: Volume, address: nat, n: nat): (r: seq<Byte>)
    ensures |r| == SECTOR * n
  {
    if n == 0 then [] else Sectors(v, address, n - 1) + v.sector(address + n - 1)
  }

  function ClusterData(v: Volume, cluster: nat): (r: seq<Byte>)
    ensures |r| == SECTOR * v.sectorsPerCluster
  {
    Sectors(v, ClusterAddress(v, cluster), v.sectorsPerCluster)
  }

  /** Data clusters do not overlap as long as the address arithmetic stays within 32 bits. */
  lemma ClustersDisjoint(v: Volume, c: nat, d: nat)
    requires 2 <= c < d < U32 && (d - 2) * v.sectorsPerCluster < U32
    ensures ClusterAddress(v, c) == v.firstData + (c - 2) * v.sectorsPerCluster
    ensures ClusterAddress(v, c) + v.sectorsPerCluster <= ClusterAddress(v, d)
  {
    var s := v.sectorsPerCluster;
    assert (d - 2) * s == (c - 2) * s + (d - c) * s;
    ScaleAtLeast(d - c, s);
    assert (c - 2) * s >= 0;
    WrapOnce(c - 2);
    WrapOnce(d - 2);
    WrapOnce((c - 2) * s);
    WrapOnce((d - 2) * s);
  }

  // ----- FAT entries

  function Word32(b: seq<Byte>): (r: nat)
    requires |b| == 4
    ensures r < U32
  {
    var b0: nat, b1: nat, b2: nat, b3: nat := b[0], b[1], b[2], b[3];
    b0 + 0x100 * b1 + 0x1_0000 * b2 + 0x100_0000 * b3
  }

  /** The meaning of an entry: the upper four bits are reserved; 0 is "no next cluster". */
  function Follow(entry: nat): (r: nat)
    ensures r < 0x0fff_fff8
  {
    var n := entry % 0x1000_0000;
    if n >= 0x0fff_fff8 then 0 else n
  }

  function FatBlock(v: Volume, cluster: nat): nat {
    v.start + v.reserved + EntryBytes(cluster) / SECTOR
  }

  /** Where the entry starts in the table, in bytes. */
  function EntryBytes(cluster: nat): nat {
    Wrap(4 * cluster)
  }

  /** The entry's place in its block; entries never cross a block boundary. */
  function FatOffset(cluster: nat): (o: nat)
    ensures o + 4 <= SECTOR && o % 4 == 0
  {
    EntryAligned(cluster);
    WordInSector(EntryBytes(cluster));
    EntryBytes(cluster) % SECTOR
  }

  lemma EntryAligned(cluster: nat)
    ensures EntryBytes(cluster) % 4 == 0
  {
    var words := 0x4000_0000;
    DivModUnique(4 * cluster, U32, cluster / words, 4 * (cluster % words));
  }

  lemma WordInSector(bytes: nat)
    requires bytes % 4 == 0
    ensures bytes % SECTOR + 4 <= SECTOR && bytes % SECTOR % 4 == 0
  {
  }

  /** The next cluster, 0 at the end of the chain, or 1 if the FAT could not be read. */
  function NextCluster(v: Volume, cluster: nat): nat {
    if !v.readable(FatBlock(v, cluster)) then 1
    else Follow(Word32(v.sector(FatBlock(v, cluster))[FatOffset(cluster)..FatOffset(cluster) + 4]))
  }

  function LowByte(n: nat): (b: Byte)
    ensures n == 0x100 * (n / 0x100) + b
  {
    n % 0x100
  }

  function Split32(n: nat): (b: seq<Byte>)
    requires n < U32
    ensures |b| == 4
    ensures Word32(b) == n
  {
    var n1 := n / 0x100;
    var n2 := n1 / 0x100;
    [LowByte(n), LowByte(n1), LowByte(n2), LowByte(n2 / 0x100)]
  }

  /** Entries are stored with their lowest byte first. */
  lemma LowestByteFirst(n: nat)
    requires n < U32
    ensures var b := Split32(n);
      && b[0] == n % 256 && b[1] == n / 0x100 % 256 && b[2] == n / 0x1_0000 % 256 && b[3] == n / 0x100_0000
  {
  }

  function EntryOr0(entries: seq<Word>, i: nat): Word {
    if i < |entries| then entries[i] else 0
  }

  /** The FAT block with number `k` of a table of entries. */
  function EncodeEntries(entries: seq<Word>, first: nat, n: nat): (b: seq<Byte>)
    ensures |b| == 4 * n
  {
    if n == 0 then [] else EncodeEntries(entries, first, n - 1) + Split32(EntryOr0(entries, first + n - 1))
  }

  lemma {:induction false} EncodedAt(entries: seq<Word>, first: nat, n: nat, i: nat)
    requires i < n
    ensures EncodeEntries(entries, first, n)[4 * i..4 * i + 4] == Split32(EntryOr0(entries, first + i))
  {
    if i < n - 1 {
      EncodedAt(entries, first, n - 1, i);
      assert EncodeEntries(entries, first, n)[4 * i..4 * i + 4]
          == EncodeEntries(entries, first, n - 1)[4 * i..4 * i + 4];
    }
  }

  /** `v` stores the table `entries` from its first reserved sector on. */
  predicate Stores(v: Volume, entries: seq<Word>, blocks: nat) {
    forall k :: 0 <= k < blocks ==> v.sector(v.start + v.reserved + k) == EncodeEntries(entries, 128 * k, 128)
  }

  /** The device reads the block of the table that has the cluster's entry. */
  predicate EntryReadable(v: Volume, cluster: nat) {
    v.readable(v.start + v.reserved + cluster / 128)
  }

  lemma EntryPlace(v: Volume, cluster: nat)
    requires cluster < 0x1000_0000
    ensures FatBlock(v, cluster) == v.start + v.reserved + cluster / 128 && FatOffset(cluster) == 4 * (cluster % 128)
  {
    var k, i := cluster / 128, cluster % 128;
    assert 4 * cluster < U32;
    WrapOnce(4 * cluster);
    assert 4 * cluster == 512 * k + 4 * i;
  }

  /** Without the entry's block, the lookup answers 1. */
  lemma UnreadableIsOne(v: Volume, cluster: nat)
    requires cluster < 0x1000_0000 && !EntryReadable(v, cluster)
    ensures NextCluster(v, cluster) == 1
  {
    EntryPlace(v, cluster);
  }

  /** Reading back a stored table: the next cluster is what the lower 28 bits of the cluster's own
      entry say, 0 for an end mark, or 1 if the entry's block cannot be read. */
  lemma StoredTableIsFollowed(v: Volume, entries: seq<Word>, blocks: nat, cluster: nat)
    requires Stores(v, entries, blocks) && |entries| <= 128 * blocks
    requires cluster < |entries| && cluster < 0x1000_0000
    ensures var n := entries[cluster] % 0x1000_0000;
      NextCluster(v, cluster) == if !EntryReadable(v, cluster) then 1 else if n >= 0x0fff_fff8 then 0 else n
  {
    EntryPlace(v, cluster);
    var k, i := cluster / 128, cluster % 128;
    EncodedAt(entries, 128 * k, 128, i);
  }

  // ----- chains

  datatype Link = End | Cluster(number: nat)

  /** The `n`-th cluster of the chain that starts at `start`. */
  function ClusterAt(v: Volume, start: nat, n: nat): Link {
    if n == 0 then Cluster(start)
    else
      match ClusterAt(v, start, n - 1)
      case End => End
      case Cluster(c) =>
        var next := NextCluster(v, c);
        if next == 0 || next == 1 then End else Cluster(next)
  }

  predicate HasCluster(v: Volume, start: nat, n: nat) {
    ClusterAt(v, start, n).Cluster?
  }

  lemma {:induction false} ChainIsPrefix(v: Volume, start: nat, m: nat, n: nat)
    requires m <= n && HasCluster(v, start, n)
    ensures HasCluster(v, start, m)
  {
    if m < n {
      ChainIsPrefix(v, start, m, n - 1);
    }
  }

  /** The chain does not go on behind this cluster: its entry cannot be read, or is an end mark, or
      names no data cluster. */
  predicate StopsAt(v: Volume, entries: seq<Word>, cluster: nat)
    requires cluster < |entries|
  {
    var n := entries[cluster] % 0x1000_0000;
    !EntryReadable(v, cluster) || n >= 0x0fff_fff8 || n < 2
  }

  predicate Linked(v: Volume, entries: seq<Word>, cluster: nat, next: nat)
    requires cluster < |entries|
  {
    !StopsAt(v, entries, cluster) && entries[cluster] % 0x1000_0000 == next
  }

  /** The table links `clusters` in this order as far as it can be read; the reserved upper bits of
      its entries may hold anything. */
  predicate LinksInOrder(v: Volume, entries: seq<Word>, clusters: seq<nat>) {
    && clusters != []
    && (forall i :: 0 <= i < |clusters| ==> clusters[i] < |entries| && clusters[i] < 0x1000_0000)
    && (forall i :: 0 <= i < |clusters| - 1 ==> Linked(v, entries, clusters[i], clusters[i + 1]))
    && StopsAt(v, entries, clusters[|clusters| - 1])
  }

  /** Following the FAT from the first cluster visits exactly the stored chain, as far as the table
      can be read, and then ends. */
  lemma {:induction false} StoredChainIsFollowed(v: Volume, entries: seq<Word>, blocks: nat, clusters: seq<nat>, n: nat)
    requires Stores(v, entries, blocks) && |entries| <= 128 * blocks && LinksInOrder(v, entries, clusters)
    ensures ClusterAt(v, clusters[0], n) == if n < |clusters| then Cluster(clusters[n]) else End
  {
    hide Stores, NextCluster, EntryReadable;
    if n > 0 {
      StoredChainIsFollowed(v, entries, blocks, clusters, n - 1);
      if n <= |clusters| {
        StoredTableIsFollowed(v, entries, blocks, clusters[n - 1]);
      }
    }
  }
}
