/** Reading a FAT32 file: cluster lookups and the copy loops of the driver. */
module FatFile {
  import opened Arithmetic
  import opened FatChain
  import opened ChainBytes
  import opened ChainWalk
  import opened ClusterSize

  /** Part of the file system driver: looks up one FAT entry on the device. */
  method GetNextCluster(v: Volume, cluster: nat) returns (r: nat)
    requires cluster < U32
    ensures r == NextCluster(v, cluster)
  {
    var address := v.start + v.reserved;
    var offset := EntryBytes(cluster);
    address := address + offset / SECTOR;
    offset := offset % SECTOR;
    EntryAligned(cluster);
    WordInSector(offset);
    var buffer := new Byte[SECTOR];
    var ok := ReadBlock(v, buffer, address);
    if !ok {
      return 1;
    }
    assert buffer[..] == v.sector(address);
    r := Word32(buffer[offset..offset + 4]);
    r := r % 0x1000_0000;
    if r >= 0x0fff_fff8 {
      return 0;
    }
  }

  method ReadBlock(v: Volume, buffer: array<Byte>, address: nat) returns (ok: bool)
    requires buffer.Length == SECTOR
    modifies buffer
    ensures ok == v.readable(address)
    ensures buffer[..] == if ok then v.sector(address) else old(buffer[..])
  {
    if !v.readable(address) {
      return false;
    }
    var i := 0;
    while i < SECTOR
      invariant 0 <= i <= SECTOR
      invariant buffer[..i] == v.sector(address)[..i]
    {
      buffer[i] := v.sector(address)[i];
      i := i + 1;
    }
    return true;
  }

  /** Reads `n` blocks to the front of the buffer and leaves the rest of it alone. */
  method ReadBlocks(v: Volume, buffer: array<Byte>, address: nat, n: nat)
    requires SECTOR * n <= buffer.Length
    modifies buffer
    ensures buffer[..] == Sectors(v, address, n) + old(buffer[SECTOR * n..])
  {
    var i := 0;
    while i < n
      invariant 0 <= i <= n
      invariant buffer[..SECTOR * i] == Sectors(v, address, i)
      invariant buffer[SECTOR * i..] == old(buffer[SECTOR * i..])
    {
      var data := v.sector(address + i);
      forall j | 0 <= j < SECTOR {
        buffer[SECTOR * i + j] := data[j];
      }
      i := i + 1;
    }
    assert buffer[..] == buffer[..SECTOR * n] + buffer[SECTOR * n..];
  }

  /** What the driver learns about the chain at a cluster: its data and whether it goes on. */
  lemma AtCluster(f: Chain, q: nat, c: nat)
    requires ClusterAt(f.volume, f.start, q) == Cluster(c)
    ensures Has(f, q)
    ensures Block(f, q) == Sectors(f.volume, ClusterAddress(f.volume, c), f.volume.sectorsPerCluster) + f.tail
    ensures var next := NextCluster(f.volume, c);
      && next < U32 && (Has(f, q + 1) <==> next != 0 && next != 1)
      && (Has(f, q + 1) ==> ClusterAt(f.volume, f.start, q + 1) == Cluster(next))
  {
  }

  lemma AtStart(v: Volume, start: nat)
    ensures ClusterAt(v, start, 0) == Cluster(start)
  {
  }

  class File {
    const sizing: Sizing
    const volume: Volume
    const startCluster: nat
    const bytesPerCluster: nat

    ghost predicate Valid()
    {
      && volume.sectorsPerCluster > 0 && startCluster < U32
      && bytesPerCluster == BufferSize(sizing, volume.sectorsPerCluster)
    }

    constructor (sizing: Sizing, volume: Volume, startCluster: nat)
      requires volume.sectorsPerCluster > 0 && startCluster < U32
      ensures Valid() && this.sizing == sizing && this.volume == volume && this.startCluster == startCluster
    {
      this.sizing, this.volume, this.startCluster := sizing, volume, startCluster;
      if sizing == AsMeant {
        bytesPerCluster := SECTOR * volume.sectorsPerCluster;
      } else {
        bytesPerCluster := Wrap(SECTOR * Pow2(volume.sectorsPerCluster - 1));
      }
    }

    /** The chain as read through a buffer whose unfilled tail is `tail`. */
    function Chain(tail: seq<Byte>): ChainBytes.Chain {
      ChainBytes.Chain(volume, startCluster, tail)
    }

    ghost predicate TailFits(tail: seq<Byte>) {
      Size(Chain(tail)) == bytesPerCluster > 0
    }

    /** A buffer that has a size holds a cluster. */
    lemma Roomy()
      requires Valid() && bytesPerCluster > 0
      ensures bytesPerCluster >= SECTOR * volume.sectorsPerCluster
      ensures sizing.AsMeant? ==> bytesPerCluster == SECTOR * volume.sectorsPerCluster
    {
      ShiftExactly(volume.sectorsPerCluster);
    }

    /** The read ends and stays within its buffers: a buffer without a size can skip nothing
        unless the chain ends, and cannot take in a single block. */
    ghost predicate Readable(size: nat, offset: nat) {
      bytesPerCluster > 0 || if offset == 0 then size == 0 else Finite(volume, startCluster)
    }

    /** Copies up to `size` bytes from position `offset` on; `n` says how many. `tail` is what the
        unfilled part of the new buffer held: nothing if the buffer size is as meant. */
    method Read(buffer: array<Byte>, size: nat, offset: nat) returns (ok: bool, ghost n: nat, ghost tail: seq<Byte>)
      requires Valid() && Readable(size, offset) && size <= buffer.Length
      modifies buffer
      ensures n <= size && buffer[n..] == old(buffer[n..])
      ensures bytesPerCluster > 0 ==> TailFits(tail) && Outcome(Chain(tail), offset, size, ok, buffer[..n])
      ensures sizing.AsMeant? ==> tail == []
      ensures bytesPerCluster == 0 ==> n == 0 && ok == (offset == 0)
    {
      hide IsByte, HasCluster, ClusterAt, After, BufferSize, Pow2;
      n := 0;
      var found, cluster, rest, q := Seek(offset);
      OnChain(q, cluster);
      tail := NoTail();
      if !found {
        FailedBehind(offset, q, tail);
        return false, 0, tail;
      }
      var temp := new Byte[bytesPerCluster];
      if size == 0 {  // the copying loop is not entered
        ArrivedInside(offset, rest, q, tail);
        return true, 0, tail;
      }
      Roomy();
      tail := temp[SECTOR * volume.sectorsPerCluster..];
      ArrivedInside(offset, rest, q, tail);
      n := CopyOut(buffer, size, temp, cluster, rest, q, offset, tail);
      return true, n, tail;
    }

    lemma OnChain(q: nat, cluster: nat)
      ensures ClusterAt(volume, startCluster, q) == Cluster(cluster) ==> HasCluster(volume, startCluster, q)
    {
    }

    /** A tail that fits when no buffer has been filled. */
    ghost function NoTail(): (tail: seq<Byte>)
      requires Valid()
      ensures bytesPerCluster > 0 ==> TailFits(tail)
      ensures sizing.AsMeant? ==> tail == []
    {
      ShiftExactly(volume.sectorsPerCluster);
      if bytesPerCluster > 0 then seq(bytesPerCluster - SECTOR * volume.sectorsPerCluster, i => 0) else []
    }

    lemma FailedBehind(offset: nat, q: nat, tail: seq<Byte>)
      requires !HasCluster(volume, startCluster, q + 1) && offset > (q + 1) * bytesPerCluster
      ensures TailFits(tail) ==> !Covers(Chain(tail), offset)
    {
      if TailFits(tail) {
        NotCoveredBeyond(Chain(tail), q + 1, offset);
      }
    }

    lemma ArrivedInside(offset: nat, rest: nat, q: nat, tail: seq<Byte>)
      requires HasCluster(volume, startCluster, q) && offset == q * bytesPerCluster + rest && rest <= bytesPerCluster
      ensures TailFits(tail) ==> Covers(Chain(tail), offset)
    {
      if TailFits(tail) {
        CoveredInside(Chain(tail), q, rest);
      }
    }

    /** Walks the chain while the offset exceeds a buffer. It takes the turns of the walk. */
    method Seek(offset: nat) returns (found: bool, cluster: nat, rest: nat, ghost q: nat)
      requires Valid() && Walkable(volume, startCluster, bytesPerCluster, offset)
      ensures After(volume, startCluster, bytesPerCluster, offset, q + 1)
           == if found then Arrived(cluster, rest) else Failed
      ensures cluster < U32
      ensures found ==> ClusterAt(volume, startCluster, q) == Cluster(cluster)
      ensures found ==> offset == q * bytesPerCluster + rest && rest <= bytesPerCluster
      ensures !found ==> !HasCluster(volume, startCluster, q + 1) && offset > (q + 1) * bytesPerCluster
    {
      hide HasCluster, ClusterAt, NextCluster;
      ghost var end: nat := 0;
      if bytesPerCluster == 0 && offset > 0 {
        end :| !HasCluster(volume, startCluster, end);
      }
      AtStart(volume, startCluster);
      cluster, rest, q := startCluster, offset, 0;
      while rest > bytesPerCluster
        invariant cluster < U32 && ClusterAt(volume, startCluster, q) == Cluster(cluster)
        invariant After(volume, startCluster, bytesPerCluster, offset, q) == Going(cluster, rest)
        invariant offset == q * bytesPerCluster + rest
        decreases if bytesPerCluster > 0 then rest else end - q
      {
        AtCluster(Chain([]), q, cluster);
        if bytesPerCluster == 0 && end <= q {
          ChainIsPrefix(volume, startCluster, end, q);
        }
        cluster := GetNextCluster(volume, cluster);
        assert (q + 1) * bytesPerCluster == q * bytesPerCluster + bytesPerCluster;
        if cluster == 0 || cluster == 1 {
          return false, cluster, rest, q;
        }
        rest, q := rest - bytesPerCluster, q + 1;
      }
      return true, cluster, rest, q;
    }

    /** Copies cluster after cluster until `size` bytes are read or the chain ends. */
    method CopyOut(buffer: array<Byte>, size: nat, temp: array<Byte>, first: nat, rest: nat,
        ghost q0: nat, ghost position: nat, ghost tail: seq<Byte>) returns (bytesRead: nat)
      requires Valid() && TailFits(tail) && size <= buffer.Length && buffer != temp
      requires temp.Length == bytesPerCluster && temp[SECTOR * volume.sectorsPerCluster..] == tail
      requires first < U32 && ClusterAt(volume, startCluster, q0) == Cluster(first)
      requires position == q0 * bytesPerCluster + rest && rest <= bytesPerCluster
      modifies buffer, temp
      ensures bytesRead <= size && Covers(Chain(tail), position + bytesRead)
      ensures bytesRead < size ==> !Covers(Chain(tail), position + bytesRead + 1)
      ensures forall i :: 0 <= i < bytesRead ==> IsByte(Chain(tail), position + i, buffer[i])
      ensures buffer[bytesRead..] == old(buffer[bytesRead..])
    {
      hide Covers, IsByte, Block, Has, ClusterAt, ClusterAddress, NextCluster, Sectors, BufferSize;
      var cluster: nat, offset: nat := first, rest;
      ghost var q: nat := q0;
      bytesRead := 0;
      AtCluster(Chain(tail), q0, first);
      CoveredInside(Chain(tail), q0, rest);
      while bytesRead < size
        invariant bytesRead <= size && offset <= bytesPerCluster
        invariant temp[SECTOR * volume.sectorsPerCluster..] == tail
        invariant bytesRead < size ==> cluster < U32 && ClusterAt(volume, startCluster, q) == Cluster(cluster)
        invariant bytesRead < size ==> position + bytesRead == q * bytesPerCluster + offset
        invariant Covers(Chain(tail), position + bytesRead)
        invariant forall i :: 0 <= i < bytesRead ==> IsByte(Chain(tail), position + i, buffer[i])
        invariant buffer[bytesRead..] == old(buffer[bytesRead..])
        decreases size - bytesRead, offset
      {
        AtCluster(Chain(tail), q, cluster);
        ReadBlocks(volume, temp, ClusterAddress(volume, cluster), volume.sectorsPerCluster);
        assert temp[..] == Block(Chain(tail), q);
        ghost var before: nat := bytesRead;
        bytesRead := CopyCluster(buffer, size, temp, offset, bytesRead, q, position, tail);
        CoveredInside(Chain(tail), q, offset + (bytesRead - before));
        offset := 0;
        cluster := GetNextCluster(volume, cluster);
        q := q + 1;
        if (cluster == 0 || cluster == 1) && bytesRead < size {
          NotCoveredBeyond(Chain(tail), q, position + bytesRead + 1);
          break;
        }
      }
    }

    /** The inner loop: copies from `offset` to the end of the cluster, or until `size`. */
    method CopyCluster(buffer: array<Byte>, size: nat, temp: array<Byte>, offset: nat, start: nat,
        ghost q: nat, ghost position: nat, ghost tail: seq<Byte>) returns (bytesRead: nat)
      requires TailFits(tail) && start <= size <= buffer.Length && buffer != temp
      requires temp.Length == bytesPerCluster && offset <= bytesPerCluster
      requires Has(Chain(tail), q) && temp[..] == Block(Chain(tail), q)
      requires position + start == q * bytesPerCluster + offset
      requires forall i :: 0 <= i < start ==> IsByte(Chain(tail), position + i, buffer[i])
      modifies buffer
      ensures bytesRead == if size - start <= bytesPerCluster - offset then size else start + bytesPerCluster - offset
      ensures forall i :: 0 <= i < bytesRead ==> IsByte(Chain(tail), position + i, buffer[i])
      ensures buffer[bytesRead..] == old(buffer[bytesRead..])
    {
      bytesRead := start;
      var j := offset;
      while j < bytesPerCluster && bytesRead < size
        invariant offset <= j <= bytesPerCluster && start <= bytesRead <= size
        invariant bytesRead - start == j - offset
        invariant forall i :: 0 <= i < bytesRead ==> IsByte(Chain(tail), position + i, buffer[i])
        invariant buffer[bytesRead..] == old(buffer[bytesRead..])
      {
        Locate(Chain(tail), q, j);
        buffer[bytesRead] := temp[j];
        j, bytesRead := j + 1, bytesRead + 1;
      }
    }
  }

  /** The driver's walks end on every table if and only if a cluster has fewer than 24 sectors. */
  lemma WalksEndExactly(sectors: Byte)
    requires sectors > 0
    ensures (forall v: Volume, start: nat, offset: nat :: Ends(v, start, BufferSize(AsWritten, sectors), offset))
      <==> sectors < 24
  {
    ShiftExactly(sectors);
    EveryWalkEndsExactly(BufferSize(AsWritten, sectors));
  }
}
