/** The kernel heap allocator on memory: block headers at addresses, linked in place. */
module Heap {
  import opened Arithmetic
  import opened BlockList
  import opened HeapTheorems
  import opened HeapPlacement

  /** A block header; `prev` and `next` are header addresses, 0 for none. */
  datatype Header = Header(prev: nat, next: nat, size: nat, used: bool)

  ghost function HeaderOf(bs: seq<Block>, i: nat): Header
    requires i < |bs|
  {
    Header(if i == 0 then 0 else bs[i - 1].addr,
           if i + 1 == |bs| then 0 else bs[i + 1].addr,
           bs[i].size, bs[i].used)
  }

  /** Memory holds exactly the doubly linked list `bs`: prev and next are mutual inverses. */
  ghost predicate Linked(headers: map<nat, Header>, bs: seq<Block>) {
    forall i :: 0 <= i < |bs| ==> LinkedAt(headers, bs, i)
  }

  ghost predicate LinkedAt(headers: map<nat, Header>, bs: seq<Block>, i: nat)
    requires i < |bs|
  {
    bs[i].addr in headers && headers[bs[i].addr] == HeaderOf(bs, i)
  }

  lemma Links(headers: map<nat, Header>, bs: seq<Block>, i: nat)
    requires Linked(headers, bs) && i < |bs|
    ensures LinkedAt(headers, bs, i) && bs[i].addr in headers
    ensures headers[bs[i].addr].size == bs[i].size
    ensures headers[bs[i].addr].next == if i + 1 == |bs| then 0 else bs[i + 1].addr
  {
  }

  ghost predicate Ascending(bs: seq<Block>) {
    forall i, j :: 0 <= i < j < |bs| ==> bs[i].End() <= bs[j].addr
  }

  lemma TilesAscending(bs: seq<Block>, lo: nat, hi: nat)
    requires Tiles(bs, lo, hi)
    ensures Ascending(bs)
    ensures forall i :: 0 <= i < |bs| ==> lo <= bs[i].addr && bs[i].End() <= hi
  {
    forall i, j | 0 <= i < j < |bs|
      ensures bs[i].End() <= bs[j].addr
    {
      BlocksDisjoint(bs, lo, hi, i, j);
    }
    forall i | 0 <= i < |bs|
      ensures lo <= bs[i].addr && bs[i].End() <= hi
    {
      TilesAt(bs, lo, hi, i);
    }
  }

  lemma FirstAtLo(bs: seq<Block>, lo: nat, hi: nat)
    requires bs != [] && Tiles(bs, lo, hi)
    ensures bs[0].addr == lo
  {
  }

  ghost function SplitAt(bs: seq<Block>, i: nat, offset: nat): seq<Block>
    requires i < |bs| && offset <= bs[i].size
  {
    if bs[i].size - offset <= HEADER then bs
    else bs[..i]
         + [bs[i].(size := offset), Block(bs[i].Memory() + offset, bs[i].size - offset - HEADER, false)]
         + bs[i + 1..]
  }

  lemma SplitKeeps(bs: seq<Block>, i: nat, offset: nat)
    requires i < |bs| && offset <= bs[i].size
    ensures SplitAt(bs, i, offset) != []
    ensures bs[i].size - offset <= HEADER ==> SplitAt(bs, i, offset) == bs
  {
  }

  ghost function MergeAt(bs: seq<Block>, i: nat): seq<Block>
    requires i + 1 < |bs|
  {
    bs[..i] + [Merged(bs[i], bs[i + 1])] + bs[i + 2..]
  }

  lemma SplitTiles(bs: seq<Block>, lo: nat, hi: nat, i: nat, offset: nat)
    requires Tiles(bs, lo, hi) && i < |bs| && offset <= bs[i].size
    ensures Tiles(SplitAt(bs, i, offset), lo, hi)
  {
    if bs[i].size - offset > HEADER {
      var a, b := bs[i].(size := offset), Block(bs[i].Memory() + offset, bs[i].size - offset - HEADER, false);
      TilesAt(bs, lo, hi, i);
      TilesPair(a, b);
      assert bs == bs[..i] + [bs[i]] + bs[i + 1..];
      TilesReplace(bs[..i], [bs[i]], [a, b], bs[i + 1..], lo, hi);
    }
  }

  lemma MergeTiles(bs: seq<Block>, lo: nat, hi: nat, i: nat)
    requires Tiles(bs, lo, hi) && i + 1 < |bs|
    ensures Tiles(MergeAt(bs, i), lo, hi)
  {
    var a, b := bs[i], bs[i + 1];
    TilesAt(bs, lo, hi, i);
    TilesAt(bs[i + 1..], a.End(), hi, 0);
    TilesPair(a, b);
    assert Tiles([Merged(a, b)], a.addr, b.End()) by { assert [Merged(a, b)][1..] == []; }
    assert bs == bs[..i] + [a, b] + bs[i + 2..];
    TilesReplace(bs[..i], [a, b], [Merged(a, b)], bs[i + 2..], lo, hi);
  }

  lemma TilesPair(a: Block, b: Block)
    ensures Span([a, b]) == 2 * HEADER + a.size + b.size
    ensures b.addr == a.End() ==> Tiles([a, b], a.addr, b.End())
  {
    assert [a, b][1..] == [b];
    assert Span([b]) == HEADER + b.size + Span([]);
    assert Tiles([b], b.addr, b.End()) by { assert [b][1..] == []; }
  }

  // ----- the link fields after each in-place update

  /** `h'` differs from `h` at most at the addresses `a`, `b` and `c`. */
  ghost predicate AgreeExcept(h: map<nat, Header>, h': map<nat, Header>, a: nat, b: nat, c: nat) {
    forall x :: x in h && x != a && x != b && x != c ==> x in h' && h'[x] == h[x]
  }

  lemma SplitLinks(h: map<nat, Header>, bs: seq<Block>, i: nat, offset: nat, h': map<nat, Header>)
    requires Linked(h, bs) && Ascending(bs) && i < |bs| && bs[i].size > offset + HEADER && LinkedAt(h, bs, i)
    requires forall j :: 0 <= j < |bs| ==> bs[j].addr > 0
    requires var b, n, after := bs[i].addr, bs[i].Memory() + offset, h[bs[i].addr].next;
      && AgreeExcept(h, h', b, n, after)
      && b in h' && h'[b] == h[b].(next := n, size := offset)
      && n in h' && h'[n] == Header(b, after, bs[i].size - offset - HEADER, false)
      && (after != 0 ==> after in h && after in h' && h'[after] == h[after].(prev := n))
    ensures Linked(h', SplitAt(bs, i, offset))
  {
    var bs' := SplitAt(bs, i, offset);
    assert LinkedAt(h, bs, i);
    forall j | 0 <= j < |bs'|
      ensures LinkedAt(h', bs', j)
    {
      if j < i {
        assert LinkedAt(h, bs, j) && bs[j].End() <= bs[i].addr;
      } else if j > i + 1 {
        assert LinkedAt(h, bs, j - 1) && bs[i].End() <= bs[j - 1].addr;
        assert j > i + 2 ==> bs[i + 1].End() <= bs[j - 1].addr;
      }
    }
  }

  lemma NeighbourLinks(h: map<nat, Header>, bs: seq<Block>, i: nat, j: nat)
    requires Ascending(bs) && i < |bs| && j < |bs| && LinkedAt(h, bs, i) && LinkedAt(h, bs, j)
    requires forall k :: 0 <= k < |bs| ==> bs[k].addr > 0
    ensures h[bs[i].addr].next == bs[j].addr && h[bs[j].addr].prev == bs[i].addr <==> j == i + 1
  {
  }

  lemma MergeLinks(h: map<nat, Header>, bs: seq<Block>, i: nat, h': map<nat, Header>)
    requires Linked(h, bs) && Ascending(bs) && i + 1 < |bs| && LinkedAt(h, bs, i) && LinkedAt(h, bs, i + 1)
    requires forall j :: 0 <= j < |bs| ==> bs[j].addr > 0
    requires var a, after := bs[i].addr, h[bs[i + 1].addr].next;
      && AgreeExcept(h, h', a, a, after)
      && a in h' && h'[a] == h[a].(next := after, size := bs[i].size + HEADER + bs[i + 1].size)
      && (after != 0 ==> after in h && after in h' && h'[after] == h[after].(prev := a))
    ensures Linked(h', MergeAt(bs, i))
  {
    var bs' := MergeAt(bs, i);
    assert LinkedAt(h, bs, i) && LinkedAt(h, bs, i + 1);
    forall j | 0 <= j < |bs'|
      ensures LinkedAt(h', bs', j)
    {
      if j < i {
        assert LinkedAt(h, bs, j) && bs[j].End() <= bs[i].addr;
      } else if j > i {
        assert LinkedAt(h, bs, j + 1) && bs[i].End() <= bs[j + 1].addr;
        assert j > i + 1 ==> bs[i + 2].End() <= bs[j + 1].addr;
      }
    }
  }

  lemma MarkLinks(h: map<nat, Header>, bs: seq<Block>, i: nat, used: bool)
    requires Linked(h, bs) && Ascending(bs) && i < |bs| && LinkedAt(h, bs, i)
    ensures Linked(h[bs[i].addr := h[bs[i].addr].(used := used)], bs[i := bs[i].(used := used)])
  {
    var bs' := bs[i := bs[i].(used := used)];
    var h' := h[bs[i].addr := h[bs[i].addr].(used := used)];
    forall j | 0 <= j < |bs'|
      ensures LinkedAt(h', bs', j)
    {
      assert LinkedAt(h, bs, j);
    }
  }

  class Mm {
    var headers: map<nat, Header>
    var firstBlock: nat
    ghost var blocks: seq<Block>
    ghost const lo: nat
    ghost const hi: nat

    /** The list is well formed; free neighbours may still await merging. */
    ghost predicate Consistent()
      reads this
    {
      && blocks != [] && 0 < lo && firstBlock == lo && hi < U32
      && Tiles(blocks, lo, hi) && Linked(headers, blocks)
    }

    ghost predicate Valid()
      reads this
    {
      Consistent() && HeapInv(blocks, lo, hi)
    }

    /** The heap set up at boot: one free block over the mapped heap. */
    constructor (dataEnd: nat, dataspaceEnd: nat)
      requires 0 < dataEnd && dataEnd % 4 == 0 && dataspaceEnd % 4 == 0
      requires dataEnd + HEADER <= dataspaceEnd < U32
      ensures Valid() && blocks == InitialHeap(dataEnd, dataspaceEnd) && lo == dataEnd && hi == dataspaceEnd
    {
      firstBlock := dataEnd;
      headers := map[dataEnd := Header(0, 0, dataspaceEnd - dataEnd - HEADER, false)];
      blocks := InitialHeap(dataEnd, dataspaceEnd);
      lo, hi := dataEnd, dataspaceEnd;
      new;
      assert Tiles(blocks[1..], blocks[0].End(), hi);
    }

    /** Splits block `b` at `offset` bytes into its memory unless the part split off would
        have no room. Returns the new block, or 0. */
    method Split(b: nat, offset: nat, ghost i: nat) returns (newBlock: nat)
      requires Consistent() && i < |blocks| && blocks[i].addr == b && offset <= blocks[i].size
      modifies this`headers, this`blocks
      ensures Consistent()
      ensures blocks == SplitAt(old(blocks), i, offset)
      ensures newBlock == if old(blocks)[i].size - offset <= HEADER then 0 else b + HEADER + offset
    {
      hide Linked, LinkedAt, HeaderOf, Ascending, Tiles, SplitAt;
      TilesAscending(blocks, lo, hi);
      SplitKeeps(blocks, i, offset);
      Links(headers, blocks, i);
      if i + 1 < |blocks| {
        Links(headers, blocks, i + 1);
      }
      if headers[b].size - offset <= HEADER {
        return 0;
      }
      ghost var h := headers;
      newBlock := b + HEADER + offset;
      headers := headers[newBlock := Header(b, headers[b].next, headers[b].size - (offset + HEADER), false)];
      headers := headers[b := headers[b].(next := newBlock)];
      var after := headers[newBlock].next;
      if after != 0 {
        headers := headers[after := headers[after].(prev := newBlock)];
      }
      headers := headers[b := headers[b].(size := headers[b].size - (headers[newBlock].size + HEADER))];
      SplitLinks(h, blocks, i, offset, headers);
      SplitTiles(blocks, lo, hi, i, offset);
      blocks := SplitAt(blocks, i, offset);
    }

    /** Merges block `b` into block `a` if they are neighbours, `a` first. Returns the
        resulting block, or 0. */
    method Merge(a: nat, b: nat, ghost i: nat, ghost j: nat) returns (r: nat)
      requires Consistent() && i < |blocks| && j < |blocks| && blocks[i].addr == a && blocks[j].addr == b
      modifies this`headers, this`blocks
      ensures Consistent()
      ensures j == i + 1 ==> r == a && blocks == MergeAt(old(blocks), i)
      ensures j != i + 1 ==> r == 0 && blocks == old(blocks)
    {
      hide Ascending, Tiles, Linked, LinkedAt, HeaderOf, MergeAt;
      TilesAscending(blocks, lo, hi);
      Links(headers, blocks, i);
      Links(headers, blocks, j);
      if j + 1 < |blocks| {
        Links(headers, blocks, j + 1);
      }
      NeighbourLinks(headers, blocks, i, j);
      if !(headers[a].next == b && headers[b].prev == a) {
        return 0;
      }
      ghost var h := headers;
      headers := headers[a := headers[a].(size := headers[a].size + headers[b].size + HEADER)];
      headers := headers[a := headers[a].(next := headers[b].next)];
      var after := headers[b].next;
      if after != 0 {
        headers := headers[after := headers[after].(prev := a)];
      }
      MergeLinks(h, blocks, i, headers);
      MergeTiles(blocks, lo, hi, i);
      blocks := MergeAt(blocks, i);
      return a;
    }

    method SetUsed(b: nat, used: bool, ghost i: nat)
      requires Consistent() && i < |blocks| && blocks[i].addr == b
      modifies this`headers, this`blocks
      ensures Consistent()
      ensures blocks == old(blocks)[i := old(blocks)[i].(used := used)]
    {
      TilesAscending(blocks, lo, hi);
      assert LinkedAt(headers, blocks, i);
      MarkLinks(headers, blocks, i, used);
      headers := headers[b := headers[b].(used := used)];
      TilesMarked(blocks, lo, hi, i, used);
      blocks := blocks[i := blocks[i].(used := used)];
    }

    /** First-fit allocation. The result is what the block-list specification says: see
        AllocationIsSound, NullExactlyWhenFull and FailureReturnsNullExactlyWhen. */
    method Allocate(request: nat, alignment: nat) returns (ptr: nat)
      requires Valid() && request < U32 && SafeAlignment(RoundSize(request), alignment)
      modifies this`headers, this`blocks
      ensures Valid()
      ensures AllPlaceable(old(blocks))
      ensures Outcome(blocks, ptr) == BlockList.Allocate(old(blocks), request, alignment)
    {
      hide BlockList.Allocate, HeapInv, Ascending, Tiles, Accepts, Candidate, AllPlaceable, Place, Linked;
      InvPlaceable(blocks, lo, hi);
      AllocateKeepsInv(blocks, lo, hi, request, alignment);
      if request == 0 {
        NothingRequested(blocks, alignment);
      }
      FirstAtLo(blocks, lo, hi);
      TilesAscending(blocks, lo, hi);
      ptr := 0;
      if request == 0 {
        return;
      }
      var size := RoundSize(request);
      var current := firstBlock;
      ghost var i := 0;
      ghost var bs := blocks;
      while current != 0
        invariant Consistent() && blocks == bs && i <= |bs|
        invariant current == if i == |bs| then 0 else bs[i].addr
        invariant forall j :: 0 <= j < i ==> !Accepts(bs[j], size, alignment)
        invariant ptr == LastCandidate(bs[..i], size)
        decreases |bs| - i
      {
        var taken;
        LastCandidateStep(bs, size, i);
        taken, ptr := TryBlock(current, size, alignment, ptr, i);
        if taken {
          FirstFitIs(bs, request, alignment, i);
          return;
        }
        Links(headers, bs, i);
        current := headers[current].next;
        i := i + 1;
      }
      assert bs[..i] == bs;
      NoFitIs(bs, request, alignment);
    }

    /** One turn of the search: takes block `b` if it accepts the request. The address of a
        candidate is returned even when its alignment makes it unusable. */
    method TryBlock(b: nat, size: nat, alignment: nat, last: nat, ghost i: nat) returns (taken: bool, ptr: nat)
      requires Consistent() && AllPlaceable(blocks) && i < |blocks| && blocks[i].addr == b
      requires size % 4 == 0 && SafeAlignment(size, alignment)
      modifies this`headers, this`blocks
      ensures Consistent()
      ensures taken == Accepts(old(blocks)[i], size, alignment)
      ensures !taken ==> blocks == old(blocks) && headers == old(headers)
      ensures !taken ==> ptr == if Candidate(blocks[i], size) then blocks[i].Memory() else last
      ensures taken ==> var o := AlignOffset(old(blocks)[i].Memory(), alignment);
        && Holds(old(blocks)[i], size, alignment)
        && ptr == old(blocks)[i].Memory() + o
        && blocks == old(blocks)[..i] + Place(old(blocks)[i], size, o) + old(blocks)[i + 1..]
    {
      taken, ptr := false, last;
      ghost var block := blocks[i];
      assert LinkedAt(headers, blocks, i);
      assert Placeable(block);
      if headers[b].size >= size && !headers[b].used {
        ptr := b + HEADER;
        var offset := AlignOffset(ptr, alignment);
        if offset == 0 {
          taken := true;
          ptr := TakeWhole(b, size, i);
        } else if offset > HEADER && Wrap(headers[b].size - offset) >= size {
          taken := true;
          AcceptedFits(block, size, alignment);
          ptr := TakeAligned(b, size, offset, i);
        }
      }
    }

    /** The branch without an offset: split off the rest if possible and mark the block used. */
    method TakeWhole(b: nat, size: nat, ghost i: nat) returns (ptr: nat)
      requires Consistent() && i < |blocks| && blocks[i].addr == b
      requires size <= blocks[i].size && !blocks[i].used
      modifies this`headers, this`blocks
      ensures Consistent()
      ensures ptr == b + HEADER
      ensures blocks == old(blocks)[..i] + Carve(old(blocks)[i], size) + old(blocks)[i + 1..]
    {
      assert LinkedAt(headers, blocks, i);
      if headers[b].size > size {
        var rest := Split(b, size, i);
      }
      SetUsed(b, true, i);
      ptr := b + HEADER;
    }

    /** The branch with an offset: split off the skipped part first. */
    method TakeAligned(b: nat, size: nat, offset: nat, ghost i: nat) returns (ptr: nat)
      requires Consistent() && i < |blocks| && blocks[i].addr == b && !blocks[i].used
      requires HEADER < offset < blocks[i].size && offset + size <= blocks[i].size
      modifies this`headers, this`blocks
      ensures Consistent()
      ensures ptr == b + HEADER + offset
      ensures blocks == old(blocks)[..i] + Place(old(blocks)[i], size, offset) + old(blocks)[i + 1..]
    {
      ghost var bs := blocks;
      var splitBlock := Split(b, offset - HEADER, i);
      assert blocks[i + 1] == Block(b + offset, bs[i].size - offset, false);
      assert blocks[i + 2..] == bs[i + 1..];
      ptr := TakeWhole(splitBlock, size, i + 1);
      assert blocks == bs[..i] + Place(bs[i], size, offset) + bs[i + 1..];
    }

    /** Frees a live allocation; freeing null does nothing. */
    method Free(ptr: nat)
      requires Valid() && (ptr == 0 || IsLive(blocks, ptr))
      modifies this`headers, this`blocks
      ensures Valid()
      ensures blocks == if ptr == 0 then old(blocks) else Release(old(blocks), IndexOf(old(blocks), ptr))
    {
      if ptr == 0 {
        return;
      }
      ghost var bs := blocks;
      ghost var i := IndexOf(blocks, ptr);
      ReleaseKeepsInv(blocks, lo, hi, i);
      var current := ptr - HEADER;
      SetUsed(current, false, i);
      ghost var pre, b, post := bs[..i], bs[i].(used := false), bs[i + 1..];
      assert blocks == pre + [b] + post;
      hide HeapInv, AbsorbLeft, AbsorbRight, Merged;
      current := MergeLeft(current, pre, b, post);
      ghost var (p, c) := AbsorbLeft(pre, b);
      current := MergeRight(current, p, c, post);
      assert blocks == Release(bs, IndexOf(bs, ptr));
    }

    /** Merges block `current` into a free left neighbour. */
    method MergeLeft(current: nat, ghost pre: seq<Block>, ghost b: Block, ghost post: seq<Block>) returns (r: nat)
      requires Consistent() && blocks == pre + [b] + post && b.addr == current
      modifies this`headers, this`blocks
      ensures Consistent()
      ensures var (p, c) := AbsorbLeft(pre, b); blocks == p + [c] + post && r == c.addr
    {
      ghost var i := |pre|;
      assert blocks[i] == b;
      TilesAscending(blocks, lo, hi);
      assert LinkedAt(headers, blocks, i);
      assert i > 0 ==> LinkedAt(headers, blocks, i - 1) && blocks[i - 1] == pre[i - 1];
      var before := headers[current].prev;
      r := current;
      if before != 0 && !headers[before].used {
        r := Merge(before, current, i - 1, i);
        assert blocks == pre[..i - 1] + [Merged(pre[i - 1], b)] + post;
      }
    }

    /** Merges a free right neighbour into block `current`. */
    method MergeRight(current: nat, ghost pre: seq<Block>, ghost b: Block, ghost post: seq<Block>) returns (r: nat)
      requires Consistent() && blocks == pre + [b] + post && b.addr == current
      modifies this`headers, this`blocks
      ensures Consistent()
      ensures var (c, q) := AbsorbRight(b, post); blocks == pre + [c] + q && r == c.addr
    {
      ghost var i := |pre|;
      assert blocks[i] == b;
      TilesAscending(blocks, lo, hi);
      assert LinkedAt(headers, blocks, i);
      assert i + 1 < |blocks| ==> LinkedAt(headers, blocks, i + 1) && blocks[i + 1] == post[0];
      var after := headers[current].next;
      r := current;
      if after != 0 && !headers[after].used {
        r := Merge(current, after, i, i + 1);
        assert blocks == pre + [Merged(b, post[0])] + post[1..];
      }
    }
  }

  /** Finding the first accepting block determines the whole outcome. */
  lemma FirstFitIs(bs: seq<Block>, request: nat, alignment: nat, i: nat)
    requires SafeAlignment(RoundSize(request), alignment) && AllPlaceable(bs) && request != 0
    requires i < |bs| && Accepts(bs[i], RoundSize(request), alignment)
    requires forall j :: 0 <= j < i ==> !Accepts(bs[j], RoundSize(request), alignment)
    ensures var r, o := RoundSize(request), AlignOffset(bs[i].Memory(), alignment);
      && (if o == 0 then r <= bs[i].size else HEADER < o < bs[i].size && o + r <= bs[i].size)
      && BlockList.Allocate(bs, request, alignment)
         == Outcome(bs[..i] + Place(bs[i], r, o) + bs[i + 1..], bs[i].Memory() + o)
  {
    assert Placeable(bs[i]);
    AcceptedFits(bs[i], RoundSize(request), alignment);
  }

  lemma NoFitIs(bs: seq<Block>, request: nat, alignment: nat)
    requires SafeAlignment(RoundSize(request), alignment) && AllPlaceable(bs) && request != 0
    requires forall j :: 0 <= j < |bs| ==> !Accepts(bs[j], RoundSize(request), alignment)
    ensures BlockList.Allocate(bs, request, alignment) == Outcome(bs, LastCandidate(bs, RoundSize(request)))
  {
  }

  lemma LastCandidateStep(bs: seq<Block>, r: nat, i: nat)
    requires i < |bs|
    ensures LastCandidate(bs[..i + 1], r)
         == if Candidate(bs[i], r) then bs[i].Memory() else LastCandidate(bs[..i], r)
  {
    assert bs[..i + 1][..i] == bs[..i];
  }

  lemma TilesMarked(bs: seq<Block>, lo: nat, hi: nat, i: nat, used: bool)
    requires Tiles(bs, lo, hi) && i < |bs|
    ensures Tiles(bs[i := bs[i].(used := used)], lo, hi)
  {
    var m := [bs[i].(used := used)];
    TilesAt(bs, lo, hi, i);
    assert m[1..] == [];
    assert bs == bs[..i] + [bs[i]] + bs[i + 1..];
    TilesReplace(bs[..i], [bs[i]], m, bs[i + 1..], lo, hi);
    assert bs[i := m[0]] == bs[..i] + m + bs[i + 1..];
  }
}
