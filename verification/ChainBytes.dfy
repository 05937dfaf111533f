/** The bytes of a file as its cluster chain gives them, addressed by position in the file. The
    chain may be endless. */
module ChainBytes {
  import opened Arithmetic
  import opened FatChain

  /** A chain read through a buffer of one cluster and a tail that block reads never fill. */
  datatype Chain = Chain(volume: Volume, start: nat, tail: seq<Byte>)

  function Size(f: Chain): nat {
    SECTOR * f.volume.sectorsPerCluster + |f.tail|
  }

  function Has(f: Chain, n: nat): bool {
    HasCluster(f.volume, f.start, n)
  }

  /** The buffer after reading the `n`-th cluster. */
  function Block(f: Chain, n: nat): (b: seq<Byte>)
    requires Has(f, n)
    ensures |b| == Size(f)
  {
    ClusterData(f.volume, ClusterAt(f.volume, f.start, n).number) + f.tail
  }

  /** The chain has at least `m` bytes. */
  ghost predicate Covers(f: Chain, m: nat)
    requires Size(f) > 0
  {
    m == 0 || Has(f, (m - 1) / Size(f))
  }

  /** The chain's byte at position `k` is `b`. */
  ghost predicate IsByte(f: Chain, k: nat, b: Byte)
    requires Size(f) > 0
  {
    Has(f, k / Size(f)) && Block(f, k / Size(f))[k % Size(f)] == b
  }

  lemma QuotientBounds(x: nat, d: nat, n: nat)
    requires d > 0
    ensures x >= n * d <==> x / d >= n
  {
    var q := x / d;
    ScaleAtLeast(n - q, d);
    ScaleAtLeast(q - n + 1, d);
    assert (n - q) * d == n * d - q * d;
    assert (q - n + 1) * d == q * d - n * d + d;
  }

  lemma Locate(f: Chain, n: nat, j: nat)
    requires Size(f) > 0 && j < Size(f) && Has(f, n)
    ensures IsByte(f, n * Size(f) + j, Block(f, n)[j])
  {
    DivModUnique(n * Size(f) + j, Size(f), n, j);
  }

  /** A position inside, or right behind, an existing cluster is covered. */
  lemma CoveredInside(f: Chain, n: nat, j: nat)
    requires Size(f) > 0 && j <= Size(f) && Has(f, n)
    ensures Covers(f, n * Size(f) + j)
  {
    var m := n * Size(f) + j;
    if j > 0 {
      DivModUnique(m - 1, Size(f), n, j - 1);
    } else if n > 0 {
      assert m == (n - 1) * Size(f) + Size(f);
      DivModUnique(m - 1, Size(f), n - 1, Size(f) - 1);
      ChainIsPrefix(f.volume, f.start, n - 1, n);
    }
  }

  /** A position behind a missing cluster's first is not covered. */
  lemma NotCoveredBeyond(f: Chain, n: nat, m: nat)
    requires Size(f) > 0 && !Has(f, n) && m > n * Size(f)
    ensures !Covers(f, m)
  {
    QuotientBounds(m - 1, Size(f), n);
    var q := (m - 1) / Size(f);
    if Has(f, q) {
      ChainIsPrefix(f.volume, f.start, n, q);
    }
  }

  // ----- chains that end

  /** The first `n` clusters of the chain in one piece. */
  function Concat(f: Chain, n: nat): (r: seq<Byte>)
    requires n > 0 ==> Has(f, n - 1)
    ensures |r| == n * Size(f)
  {
    if n == 0 then []
    else if n == 1 then Block(f, 0)
    else
      ChainIsPrefix(f.volume, f.start, n - 2, n - 1);
      Concat(f, n - 1) + Block(f, n - 1)
  }

  /** A chain of exactly `n` clusters covers exactly the length of its concatenation. */
  lemma CoversExactly(f: Chain, n: nat, m: nat)
    requires Size(f) > 0 && n > 0 && Has(f, n - 1) && !Has(f, n)
    ensures Covers(f, m) <==> m <= |Concat(f, n)|
  {
    hide Has, Size, Block;
    if m > n * Size(f) {
      NotCoveredBeyond(f, n, m);
    } else if m > 0 {
      CoveredUpTo(f, n, m);
    }
  }

  lemma CoveredUpTo(f: Chain, n: nat, m: nat)
    requires Size(f) > 0 && n > 0 && Has(f, n - 1) && 0 < m <= n * Size(f)
    ensures Covers(f, m)
  {
    QuotientBounds(m - 1, Size(f), n);
    hide Size;
    ChainIsPrefix(f.volume, f.start, (m - 1) / Size(f), n - 1);
  }

  lemma {:induction false} ConcatAt(f: Chain, n: nat, k: nat, b: Byte)
    requires Size(f) > 0 && n > 0 && Has(f, n - 1) && k < n * Size(f)
    ensures k < |Concat(f, n)| && (IsByte(f, k, b) <==> Concat(f, n)[k] == b)
  {
    if k >= (n - 1) * Size(f) {
      var j := k - (n - 1) * Size(f);
      assert n * Size(f) == (n - 1) * Size(f) + Size(f);
      DivModUnique(k, Size(f), n - 1, j);
    } else {
      assert n > 1;
      ChainIsPrefix(f.volume, f.start, n - 2, n - 1);
      ConcatAt(f, n - 1, k, b);
    }
  }

  // ----- reads

  /** The bytes a read of at most `size` bytes at `offset` must find: as many as the chain has. */
  ghost predicate ReadResult(f: Chain, offset: nat, size: nat, bytes: seq<Byte>)
    requires Size(f) > 0
  {
    && |bytes| <= size && Covers(f, offset + |bytes|)
    && (|bytes| < size ==> !Covers(f, offset + |bytes| + 1))
    && forall i :: 0 <= i < |bytes| ==> IsByte(f, offset + i, bytes[i])
  }

  /** The outcome of a read: it succeeds if `offset` is not behind the end of the chain. */
  ghost predicate Outcome(f: Chain, offset: nat, size: nat, ok: bool, bytes: seq<Byte>)
    requires Size(f) > 0
  {
    && ok == Covers(f, offset)
    && if ok then ReadResult(f, offset, size, bytes) else bytes == []
  }

  /** On a chain of `n` blocks that is the slice [offset, min(offset + size, length)) of their
      concatenation, and nothing else. */
  lemma ReadIsSlice(f: Chain, n: nat, offset: nat, size: nat, bytes: seq<Byte>)
    requires Size(f) > 0 && n > 0 && Has(f, n - 1) && !Has(f, n)
    ensures var all := Concat(f, n);
      offset <= |all| ==>
        (ReadResult(f, offset, size, bytes)
         <==> bytes == all[offset..if offset + size <= |all| then offset + size else |all|])
  {
    hide Covers, IsByte, Concat, Has;
    var all := Concat(f, n);
    CoversExactly(f, n, offset + |bytes|);
    CoversExactly(f, n, offset + |bytes| + 1);
    if offset + |bytes| <= |all| {
      forall i | 0 <= i < |bytes|
        ensures IsByte(f, offset + i, bytes[i]) <==> all[offset + i] == bytes[i]
      {
        ConcatAt(f, n, offset + i, bytes[i]);
      }
    }
  }

  /** The file itself: the data of the first `n` clusters, one cluster after the other. */
  function FileBytes(v: Volume, start: nat, n: nat): (r: seq<Byte>)
    requires n > 0 ==> HasCluster(v, start, n - 1)
  {
    if n == 0 then []
    else if n == 1 then ClusterData(v, ClusterAt(v, start, 0).number)
    else
      ChainIsPrefix(v, start, n - 2, n - 1);
      FileBytes(v, start, n - 1) + ClusterData(v, ClusterAt(v, start, n - 1).number)
  }

  /** Read through a buffer of exactly one cluster, the chain is the file. */
  lemma {:induction false} ConcatIsFile(v: Volume, start: nat, n: nat)
    requires n > 0 ==> HasCluster(v, start, n - 1)
    ensures Concat(Chain(v, start, []), n) == FileBytes(v, start, n)
  {
    if n > 1 {
      ChainIsPrefix(v, start, n - 2, n - 1);
      ConcatIsFile(v, start, n - 1);
    }
  }

  /** With a buffer of one cluster, whatever the number of sectors per cluster, a read succeeds
      exactly up to the end of the file and yields exactly its slice. */
  lemma OutcomeIsSlice(v: Volume, start: nat, n: nat, offset: nat, size: nat, ok: bool, bytes: seq<Byte>)
    requires v.sectorsPerCluster > 0 && n > 0 && HasCluster(v, start, n - 1) && !HasCluster(v, start, n)
    ensures var all := FileBytes(v, start, n);
      Outcome(Chain(v, start, []), offset, size, ok, bytes) <==>
        && ok == (offset <= |all|)
        && bytes == (if !ok then [] else all[offset..if offset + size <= |all| then offset + size else |all|])
  {
    hide Covers, IsByte, Concat, ReadResult, HasCluster, ClusterAt;
    var f := Chain(v, start, []);
    ConcatIsFile(v, start, n);
    CoversExactly(f, n, offset);
    ReadIsSlice(f, n, offset, size, bytes);
  }

  /** A file whose first table lookup fails is cut to its first cluster. */
  lemma UnreadableCutsFile(v: Volume, start: nat, offset: nat, size: nat, ok: bool, bytes: seq<Byte>)
    requires v.sectorsPerCluster > 0 && start < 0x1000_0000 && !EntryReadable(v, start)
    ensures ClusterAt(v, start, 1) == End
    ensures var data := ClusterData(v, start);
      Outcome(Chain(v, start, []), offset, size, ok, bytes) <==>
        && ok == (offset <= |data|)
        && bytes == (if !ok then [] else data[offset..if offset + size <= |data| then offset + size else |data|])
  {
    hide NextCluster, Outcome;
    UnreadableIsOne(v, start);
    assert ClusterAt(v, start, 0) == Cluster(start);
    OutcomeIsSlice(v, start, 1, offset, size, ok, bytes);
  }
}
