/** What the kernel heap promises over every run of allocations and releases. */
module HeapTheorems {
  import opened Arithmetic
  import opened BlockList

  // ----- tilings

  lemma {:induction false} TilesConcat(a: seq<Block>, b: seq<Block>, lo: nat, hi: nat)
    ensures Tiles(a + b, lo, hi) <==> Tiles(a, lo, lo + Span(a)) && Tiles(b, lo + Span(a), hi)
  {
    if a == [] {
      assert a + b == b;
    } else {
      assert (a + b)[1..] == a[1..] + b;
      TilesConcat(a[1..], b, a[0].End(), hi);
      if Tiles(a + b, lo, hi) || a[0].addr == lo {
        assert lo + Span(a) == a[0].End() + Span(a[1..]);
      }
    }
  }

  /** Any stretch of the list may be replaced by blocks tiling the same addresses. */
  lemma TilesReplace(pre: seq<Block>, mid: seq<Block>, mid': seq<Block>, post: seq<Block>, lo: nat, hi: nat)
    requires Tiles(pre + mid + post, lo, hi)
    requires var at := lo + Span(pre); Tiles(mid', at, at + Span(mid))
    requires Span(mid') == Span(mid)
    ensures Tiles(pre + mid' + post, lo, hi)
  {
    assert pre + mid + post == pre + (mid + post);
    assert pre + mid' + post == pre + (mid' + post);
    TilesConcat(pre, mid + post, lo, hi);
    TilesConcat(mid, post, lo + Span(pre), hi);
    TilesConcat(mid', post, lo + Span(pre), hi);
    TilesConcat(pre, mid' + post, lo, hi);
  }

  lemma TilesAt(bs: seq<Block>, lo: nat, hi: nat, i: nat)
    requires Tiles(bs, lo, hi) && i < |bs|
    ensures Tiles(bs[..i], lo, bs[i].addr) && Tiles([bs[i]], bs[i].addr, bs[i].End())
    ensures Tiles(bs[i + 1..], bs[i].End(), hi)
    ensures bs[i].addr == lo + Span(bs[..i])
    ensures lo <= bs[i].addr && bs[i].End() <= hi
  {
    assert bs == bs[..i] + ([bs[i]] + bs[i + 1..]);
    TilesConcat(bs[..i], [bs[i]] + bs[i + 1..], lo, hi);
    TilesConcat([bs[i]], bs[i + 1..], bs[i].addr, hi);
    TilesUpward(bs[i + 1..], bs[i].End(), hi);
  }

  lemma {:induction false} TilesUpward(bs: seq<Block>, lo: nat, hi: nat)
    requires Tiles(bs, lo, hi)
    ensures lo <= hi
  {
    if bs != [] {
      TilesUpward(bs[1..], bs[0].End(), hi);
    }
  }

  /** Distinct blocks occupy disjoint address ranges, in list order. */
  lemma BlocksDisjoint(bs: seq<Block>, lo: nat, hi: nat, i: nat, j: nat)
    requires Tiles(bs, lo, hi) && i < j < |bs|
    ensures bs[i].End() <= bs[j].addr
  {
    TilesAt(bs, lo, hi, i);
    TilesAt(bs[i + 1..], bs[i].End(), hi, j - i - 1);
  }

  lemma InvPlaceable(bs: seq<Block>, lo: nat, hi: nat)
    requires HeapInv(bs, lo, hi)
    ensures AllPlaceable(bs)
  {
    forall b | b in bs
      ensures Placeable(b)
    {
      var i :| 0 <= i < |bs| && bs[i] == b;
      TilesAt(bs, lo, hi, i);
    }
  }

  // ----- every operation keeps the invariant

  lemma PlaceTiles(b: Block, r: nat, o: nat)
    requires if o == 0 then r <= b.size else HEADER < o && o + r <= b.size
    ensures Tiles(Place(b, r, o), b.addr, b.End()) && Span(Place(b, r, o)) == HEADER + b.size
  {
    var p := Place(b, r, o);
    var c := if o == 0 then b else Block(b.addr + o, b.size - o, false);
    CarveTiles(c, r);
    if o != 0 {
      assert p[1..] == Carve(c, r);
    }
  }

  lemma CarveTiles(b: Block, r: nat)
    requires r <= b.size
    ensures Tiles(Carve(b, r), b.addr, b.End()) && Span(Carve(b, r)) == HEADER + b.size
  {
    var c := Carve(b, r);
    if |c| == 2 {
      assert c[1..] == [c[1]];
      assert Span([c[1]]) == HEADER + c[1].size + Span([]);
      assert Tiles([c[1]], c[1].addr, c[1].End()) by { assert [c[1]][1..] == []; }
    } else {
      assert c[1..] == [];
    }
  }

  lemma AllocateKeepsInv(bs: seq<Block>, lo: nat, hi: nat, size: nat, alignment: nat)
    requires HeapInv(bs, lo, hi) && SafeAlignment(RoundSize(size), alignment)
    requires AllPlaceable(bs)
    ensures HeapInv(Allocate(bs, size, alignment).blocks, lo, hi)
  {
    hide AlignOffset, Wrap, Place, Coalesced;
    var r := RoundSize(size);
    var k := FirstFit(bs, r, alignment);
    if size != 0 && k < |bs| {
      var o := AlignOffset(bs[k].Memory(), alignment);
      AcceptedFits(bs[k], r, alignment);
      TilesAt(bs, lo, hi, k);
      PlaceTiles(bs[k], r, o);
      assert bs == bs[..k] + [bs[k]] + bs[k + 1..];
      TilesReplace(bs[..k], [bs[k]], Place(bs[k], r, o), bs[k + 1..], lo, hi);
      PlaceKeepsShape(bs, k, r, o);
    }
  }

  lemma {:induction false} ShapeConcat(a: seq<Block>, b: seq<Block>)
    ensures WordSized(a + b) <==> WordSized(a) && WordSized(b)
    ensures Coalesced(a + b) <==> Coalesced(a) && Coalesced(b) && Seam(a, b)
  {
    assert forall x :: x in a + b <==> x in a || x in b;
    CoalescedConcat(a, b);
  }

  lemma {:induction false} CoalescedConcat(a: seq<Block>, b: seq<Block>)
    ensures Coalesced(a + b) <==> Coalesced(a) && Coalesced(b) && Seam(a, b)
  {
    if a == [] {
      assert a + b == b;
    } else {
      assert (a + b)[1..] == a[1..] + b;
      CoalescedConcat(a[1..], b);
    }
  }

  predicate Seam(a: seq<Block>, b: seq<Block>) {
    a == [] || b == [] || a[|a| - 1].used || b[0].used
  }

  lemma PlaceKeepsShape(bs: seq<Block>, k: nat, r: nat, o: nat)
    requires k < |bs| && !bs[k].used && WordSized(bs) && Coalesced(bs) && r % 4 == 0 && o % 4 == 0
    requires if o == 0 then r <= bs[k].size else HEADER < o && o + r <= bs[k].size
    ensures WordSized(bs[..k] + Place(bs[k], r, o) + bs[k + 1..])
    ensures Coalesced(bs[..k] + Place(bs[k], r, o) + bs[k + 1..])
  {
    hide Coalesced, Place;
    var pre, b, post := bs[..k], bs[k], bs[k + 1..];
    var p := Place(b, r, o);
    assert bs == pre + [b] + post;
    ShapeConcat(pre + [b], post);
    ShapeConcat(pre, [b]);
    assert b in [b];
    PlaceShape(b, r, o);
    ShapeConcat(pre, p);
    ShapeConcat(pre + p, post);
  }

  lemma PlaceShape(b: Block, r: nat, o: nat)
    requires WordBlock(b) && r % 4 == 0 && o % 4 == 0
    requires if o == 0 then r <= b.size else HEADER < o && o + r <= b.size
    ensures WordSized(Place(b, r, o)) && Coalesced(Place(b, r, o)) && Place(b, r, o) != []
  {
    var c := if o == 0 then b else Block(b.addr + o, b.size - o, false);
    CarveShape(c, r);
    if o != 0 {
      ShapeConcat([Block(b.addr, o - HEADER, false)], Carve(c, r));
    }
  }

  lemma CarveShape(b: Block, r: nat)
    requires WordBlock(b) && r % 4 == 0 && r <= b.size
    ensures WordSized(Carve(b, r)) && Coalesced(Carve(b, r)) && Carve(b, r) != [] && Carve(b, r)[0].used
  {
  }

  lemma ReleaseKeepsInv(bs: seq<Block>, lo: nat, hi: nat, i: nat)
    requires HeapInv(bs, lo, hi) && i < |bs|
    ensures HeapInv(Release(bs, i), lo, hi)
  {
    ReleaseTiles(bs, lo, hi, i);
    ReleaseKeepsShape(bs, i);
  }

  lemma ReleaseTiles(bs: seq<Block>, lo: nat, hi: nat, i: nat)
    requires Tiles(bs, lo, hi) && i < |bs|
    ensures Tiles(Release(bs, i), lo, hi)
  {
    TilesAt(bs, lo, hi, i);
    ReleaseBetweenTiles(bs[..i], bs[i].(used := false), bs[i + 1..], lo, hi);
  }

  lemma ReleaseBetweenTiles(pre: seq<Block>, b: Block, post: seq<Block>, lo: nat, hi: nat)
    requires Tiles(pre, lo, b.addr) && Tiles(post, b.End(), hi)
    ensures Tiles(ReleaseBetween(pre, b, post), lo, hi)
  {
    var (p, c) := AbsorbLeft(pre, b);
    var (d, q) := AbsorbRight(c, post);
    AbsorbLeftTiles(pre, b, lo);
    AbsorbRightTiles(c, post, hi);
    assert p + [d] + q == p + ([d] + q);
    TilesConcat(p, [d] + q, lo, hi);
  }

  lemma AbsorbLeftTiles(pre: seq<Block>, b: Block, lo: nat)
    requires Tiles(pre, lo, b.addr)
    ensures var (p, c) := AbsorbLeft(pre, b);
      && Tiles(p, lo, c.addr) && c.addr == lo + Span(p) && c.End() == b.End()
  {
    TilesSpan(pre, lo, b.addr);
    if pre != [] {
      TilesAt(pre, lo, b.addr, |pre| - 1);
      TilesSpan(pre[..|pre| - 1], lo, pre[|pre| - 1].addr);
    }
  }

  lemma AbsorbRightTiles(b: Block, post: seq<Block>, hi: nat)
    requires Tiles(post, b.End(), hi)
    ensures var (c, q) := AbsorbRight(b, post);
      && c.addr == b.addr && Tiles([c] + q, b.addr, hi)
  {
    var (c, q) := AbsorbRight(b, post);
    assert ([c] + q)[1..] == q;
  }

  lemma {:induction false} TilesSpan(bs: seq<Block>, lo: nat, hi: nat)
    requires Tiles(bs, lo, hi)
    ensures hi == lo + Span(bs)
  {
    if bs != [] {
      TilesSpan(bs[1..], bs[0].End(), hi);
    }
  }

  lemma CoalescedAround(bs: seq<Block>, i: nat)
    requires i < |bs| && Coalesced(bs)
    ensures Coalesced(bs[..i]) && Coalesced(bs[i + 1..])
    ensures !bs[i].used ==> (i > 0 ==> bs[i - 1].used) && (i + 1 < |bs| ==> bs[i + 1].used)
  {
    assert bs == bs[..i] + bs[i..];
    CoalescedConcat(bs[..i], bs[i..]);
    assert bs[i..] == [bs[i]] + bs[i + 1..];
    CoalescedConcat([bs[i]], bs[i + 1..]);
  }

  lemma ReleaseKeepsShape(bs: seq<Block>, i: nat)
    requires i < |bs| && WordSized(bs) && Coalesced(bs)
    ensures WordSized(Release(bs, i)) && Coalesced(Release(bs, i))
  {
    CoalescedAround(bs, i);
    assert bs[i] in bs;
    ReleaseBetweenShape(bs[..i], bs[i].(used := false), bs[i + 1..]);
  }

  lemma ReleaseBetweenShape(pre: seq<Block>, b: Block, post: seq<Block>)
    requires WordSized(pre) && WordSized(post) && WordBlock(b)
    requires Coalesced(pre) && Coalesced(post)
    ensures WordSized(ReleaseBetween(pre, b, post)) && Coalesced(ReleaseBetween(pre, b, post))
  {
    var (p, c) := AbsorbLeft(pre, b);
    var (d, q) := AbsorbRight(c, post);
    AbsorbLeftShape(pre, b);
    AbsorbRightShape(c, post);
    ShapeConcat(p, [d]);
    ShapeConcat(p + [d], q);
  }

  lemma AbsorbLeftShape(pre: seq<Block>, b: Block)
    requires WordSized(pre) && Coalesced(pre) && WordBlock(b)
    ensures var (p, c) := AbsorbLeft(pre, b);
      WordSized(p) && Coalesced(p) && (p == [] || p[|p| - 1].used) && WordBlock(c)
  {
    if pre != [] {
      CoalescedAround(pre, |pre| - 1);
      assert pre[|pre| - 1] in pre;
    }
  }

  lemma AbsorbRightShape(b: Block, post: seq<Block>)
    requires WordSized(post) && Coalesced(post) && WordBlock(b)
    ensures var (c, q) := AbsorbRight(b, post);
      WordSized(q) && Coalesced(q) && (q == [] || q[0].used) && WordBlock(c)
  {
    if post != [] {
      assert post[0] in post;
      assert forall x :: x in post[1..] ==> x in post;
    }
  }

  // ----- what a successful allocation gives the caller

  /** The blocks handed out and not yet freed, in address order. */
  function Live(bs: seq<Block>): seq<Block> {
    if bs == [] then []
    else if bs[0].used then [bs[0]] + Live(bs[1..])
    else Live(bs[1..])
  }

  lemma {:induction false} LiveConcat(a: seq<Block>, b: seq<Block>)
    ensures Live(a + b) == Live(a) + Live(b)
  {
    if a == [] {
      assert a + b == b;
    } else {
      assert (a + b)[1..] == a[1..] + b;
      LiveConcat(a[1..], b);
    }
  }

  lemma {:induction false} LiveMembers(bs: seq<Block>, b: Block)
    ensures b in Live(bs) <==> b in bs && b.used
  {
    if bs != [] {
      LiveMembers(bs[1..], b);
      assert bs == [bs[0]] + bs[1..];
    }
  }

  lemma LiveAround(bs: seq<Block>, mid: seq<Block>, i: nat)
    requires i < |bs|
    ensures Live(bs[..i] + mid + bs[i + 1..]) == Live(bs[..i]) + Live(mid) + Live(bs[i + 1..])
  {
    LiveConcat(bs[..i] + mid, bs[i + 1..]);
    LiveConcat(bs[..i], mid);
  }

  predicate Succeeds(bs: seq<Block>, size: nat, alignment: nat)
    requires alignment > 0
  {
    size > 0 && FirstFit(bs, RoundSize(size), alignment) < |bs|
  }

  /** `n` is cut from the end of `b` or from its middle: it has `r` bytes, unless what is left behind
      them is too little for a free block and stays with it. */
  predicate CutFrom(n: Block, b: Block, r: nat) {
    && r <= n.size <= r + 16
    && (n.End() == b.End() || (n.size == r && n.End() + 16 < b.End()))
  }

  lemma PlaceLive(b: Block, r: nat, o: nat)
    requires !b.used && if o == 0 then r <= b.size else HEADER < o && o + r <= b.size
    ensures |Live(Place(b, r, o))| == 1
    ensures var n := Live(Place(b, r, o))[0];
      && n.used && n.Memory() == b.Memory() + o && CutFrom(n, b, r)
  {
    var p := Place(b, r, o);
    var c := if o == 0 then b else Block(b.addr + o, b.size - o, false);
    if o != 0 {
      assert p[1..] == Carve(c, r);
    }
    CarveLive(c, r);
  }

  lemma CarveLive(b: Block, r: nat)
    requires r <= b.size
    ensures |Live(Carve(b, r))| == 1
    ensures var n := Live(Carve(b, r))[0]; n.used && n.addr == b.addr && CutFrom(n, b, r)
  {
    var c := Carve(b, r);
    assert |c| == 1 ==> c[1..] == [];
    if |c| == 2 {
      assert c[1..] == [c[1]];
      assert Live([c[1]]) == Live([]);
    }
  }

  /** A successful allocation adds exactly one live block and leaves the others alone. The
      new memory is inside the heap, disjoint from every other live block, and holds
      the request unless rounding the request wrapped around 2^32. It is no larger than the
      rounded request where the rest of the block can stand as a free block. */
  lemma AllocationIsSound(bs: seq<Block>, lo: nat, hi: nat, size: nat, alignment: nat)
    returns (pre: seq<Block>, n: Block, post: seq<Block>)
    requires Tiles(bs, lo, hi) && SafeAlignment(RoundSize(size), alignment)
    requires AllPlaceable(bs)
    requires Succeeds(bs, size, alignment)
    ensures Live(bs) == pre + post
    ensures Live(Allocate(bs, size, alignment).blocks) == pre + [n] + post
    ensures var ptr := Allocate(bs, size, alignment).ptr;
      && ptr == n.Memory() && ptr % 4 == 0
      && lo < ptr && ptr + RoundSize(size) <= n.End() <= hi
    ensures (forall b :: b in pre ==> b.End() <= n.addr) && (forall b :: b in post ==> n.End() <= b.addr)
    ensures size <= n.size <==> size <= 0xffff_fffc
    ensures CutFrom(n, bs[FirstFit(bs, RoundSize(size), alignment)], RoundSize(size))
  {
    hide AlignOffset, Wrap, Live, Place, Allocate, Coalesced;
    EndsBelow(bs, lo, hi);
    var r := RoundSize(size);
    var k := FirstFit(bs, r, alignment);
    var o := SuccessOutcome(bs, size, alignment, k, r);
    pre, n, post := PlacedLive(bs, lo, hi, k, r, o);
    WordSum(bs[k], o);
  }

  lemma EndsBelow(bs: seq<Block>, lo: nat, hi: nat)
    requires bs != [] && Tiles(bs, lo, hi) && AllPlaceable(bs)
    ensures hi < U32
  {
    var last := bs[|bs| - 1];
    TilesAt(bs, lo, hi, |bs| - 1);
    assert last in bs && Placeable(last);
  }

  lemma WordSum(b: Block, o: nat)
    requires WordBlock(b) && o % 4 == 0
    ensures (b.Memory() + o) % 4 == 0
  {
  }

  lemma SuccessOutcome(bs: seq<Block>, size: nat, alignment: nat, k: nat, r: nat) returns (o: nat)
    requires SafeAlignment(r, alignment) && r == RoundSize(size)
    requires AllPlaceable(bs)
    requires Succeeds(bs, size, alignment) && k == FirstFit(bs, r, alignment)
    ensures !bs[k].used && WordBlock(bs[k]) && o % 4 == 0
    ensures if o == 0 then r <= bs[k].size else HEADER < o && o + r <= bs[k].size
    ensures Allocate(bs, size, alignment)
         == Outcome(bs[..k] + Place(bs[k], r, o) + bs[k + 1..], bs[k].Memory() + o)
  {
    o := AlignOffset(bs[k].Memory(), alignment);
    assert Placeable(bs[k]);
    AcceptedFits(bs[k], r, alignment);
  }

  lemma AllocationIsAligned(bs: seq<Block>, size: nat, alignment: nat)
    requires SafeAlignment(RoundSize(size), alignment)
    requires AllPlaceable(bs)
    requires Succeeds(bs, size, alignment)
    ensures Allocate(bs, size, alignment).ptr % alignment == 0
  {
    var b := bs[FirstFit(bs, RoundSize(size), alignment)];
    assert Placeable(b);
    AlignOffsetAligns(b.Memory(), alignment);
  }

  lemma PlacedLive(bs: seq<Block>, lo: nat, hi: nat, k: nat, r: nat, o: nat)
    returns (pre: seq<Block>, n: Block, post: seq<Block>)
    requires Tiles(bs, lo, hi) && k < |bs| && !bs[k].used
    requires if o == 0 then r <= bs[k].size else HEADER < o && o + r <= bs[k].size
    ensures Live(bs) == pre + post
    ensures Live(bs[..k] + Place(bs[k], r, o) + bs[k + 1..]) == pre + [n] + post
    ensures n.Memory() == bs[k].Memory() + o && lo <= n.addr && n.End() <= hi && CutFrom(n, bs[k], r)
    ensures forall b :: b in pre ==> b.End() <= n.addr
    ensures forall b :: b in post ==> n.End() <= b.addr
  {
    PlaceLive(bs[k], r, o);
    LiveOfOne(bs[k]);
    TilesAt(bs, lo, hi, k);
    hide Place, Live, Tiles;
    pre, n, post := Live(bs[..k]), Live(Place(bs[k], r, o))[0], Live(bs[k + 1..]);
    LiveAround(bs, Place(bs[k], r, o), k);
    assert Live(bs) == pre + post by {
      LiveAround(bs, [bs[k]], k);
      assert bs == bs[..k] + [bs[k]] + bs[k + 1..];
    }
    LiveBounded(bs[..k], lo, bs[k].addr);
    LiveBounded(bs[k + 1..], bs[k].End(), hi);
  }

  lemma LiveBounded(bs: seq<Block>, lo: nat, hi: nat)
    requires Tiles(bs, lo, hi)
    ensures forall b :: b in Live(bs) ==> lo <= b.addr && b.End() <= hi
  {
    forall b | b in Live(bs)
      ensures lo <= b.addr && b.End() <= hi
    {
      LiveMembers(bs, b);
      var i :| 0 <= i < |bs| && bs[i] == b;
      TilesAt(bs, lo, hi, i);
    }
  }

  /** A request of 2^32 - 3 bytes or more wraps to zero and may be "served" by a block smaller than it. */
  lemma HugeRequestWraps()
    ensures RoundSize(0xffff_fffd) == 0
    ensures var bs := InitialHeap(4096, 8192);
      && HeapInv(bs, 4096, 8192)
      && AllPlaceable(bs)
      && SafeAlignment(RoundSize(0xffff_fffd), 4)
      && Succeeds(bs, 0xffff_fffd, 4)
      && Allocate(bs, 0xffff_fffd, 4).ptr != 0
  {
    var b := Block(4096, 4080, false);
    assert IsPowerOfTwo(4) && IsPowerOfTwo(2);
    assert Tiles([b][1..], b.End(), 8192);
    AlignOffsetInWords(b.Memory(), 4);
    assert Accepts(b, 0, 4);
  }

  // ----- failure

  /** With word alignment or less, every big enough free block is accepted, so a null result
      means exactly that no free block holds the rounded request. */
  lemma NullExactlyWhenFull(bs: seq<Block>, lo: nat, hi: nat, size: nat, alignment: nat)
    requires HeapInv(bs, lo, hi) && SafeAlignment(RoundSize(size), alignment) && alignment <= 4
    requires AllPlaceable(bs)
    requires size != 0
    ensures Allocate(bs, size, alignment).ptr == 0 <==> (forall b :: b in bs ==> b.used || b.size < RoundSize(size))
    ensures Succeeds(bs, size, alignment) <==> Allocate(bs, size, alignment).ptr != 0
  {
    var r := RoundSize(size);
    forall b | b in bs
      ensures Accepts(b, r, alignment) <==> Candidate(b, r)
    {
      AlignOffsetInWords(b.Memory(), alignment);
    }
    LastCandidateIsNull(bs, r);
  }

  lemma {:induction false} LastCandidateIsNull(bs: seq<Block>, r: nat)
    ensures LastCandidate(bs, r) == 0 <==> (forall b :: b in bs ==> !Candidate(b, r))
    ensures LastCandidate(bs, r) != 0 ==> exists i: nat :: LastAt(bs, r, i) && LastCandidate(bs, r) == bs[i].Memory()
  {
    if bs != [] {
      var n := |bs| - 1;
      assert bs == bs[..n] + [bs[n]];
      LastCandidateIsNull(bs[..n], r);
      if Candidate(bs[n], r) {
        assert LastAt(bs, r, n);
      } else if LastCandidate(bs, r) != 0 {
        var i: nat :| LastAt(bs[..n], r, i) && LastCandidate(bs[..n], r) == bs[..n][i].Memory();
        assert LastAt(bs, r, i);
      }
    }
  }

  /** Block `i` is free and big enough, and no later one is. */
  predicate LastAt(bs: seq<Block>, r: nat, i: nat) {
    && i < |bs| && !bs[i].used && bs[i].size >= r
    && forall j :: i < j < |bs| ==> bs[j].used || bs[j].size < r
  }

  /** For a larger alignment the promised null comes back exactly when, besides no block
      accepting, no free block is big enough; otherwise the address of the last one that is, which
      was never allocated, escapes. */
  lemma FailureReturnsNullExactlyWhen(bs: seq<Block>, size: nat, alignment: nat)
    requires AllPlaceable(bs)
    requires SafeAlignment(RoundSize(size), alignment)
    requires size != 0 && !Succeeds(bs, size, alignment)
    ensures Allocate(bs, size, alignment).blocks == bs
    ensures Allocate(bs, size, alignment).ptr == 0 <==> (forall b :: b in bs ==> b.used || b.size < RoundSize(size))
    ensures Allocate(bs, size, alignment).ptr != 0 ==>
      exists i: nat :: LastAt(bs, RoundSize(size), i) && Allocate(bs, size, alignment).ptr == bs[i].Memory()
  {
    hide FirstFit, SafeAlignment, RoundSize, LastCandidate, LastAt, AllPlaceable;
    LastCandidateIsNull(bs, RoundSize(size));
  }

  /** A failed request that returns an address: the one block, at address 4, is big enough but
      can hold neither the request at its start nor a header in front of it. */
  lemma FailureEscapes()
    ensures var bs := InitialHeap(4, 8192);
      && HeapInv(bs, 4, 8192) && AllPlaceable(bs) && SafeAlignment(RoundSize(4), 16)
      && !Succeeds(bs, 4, 16) && Allocate(bs, 4, 16) == Outcome(bs, 20)
  {
    var bs := InitialHeap(4, 8192);
    assert RoundSize(4) == 4;
    assert IsPowerOfTwo(16);
    assert Tiles(bs[1..], 8192, 8192);
    assert MaskDown(35, 16) == 16 + MaskDown(19, 16);
    assert AlignOffset(20, 16) == 12;
    assert !Accepts(bs[0], 4, 16);
    assert FirstFit(bs, 4, 16) == 1;
    assert LastCandidate(bs, 4) == 20;
  }

  // ----- allocate, then free

  function IndexOf(bs: seq<Block>, ptr: nat): (i: nat)
    ensures i <= |bs|
    ensures i < |bs| ==> bs[i].used && bs[i].Memory() == ptr
    ensures i == |bs| ==> forall b :: b in bs ==> !(b.used && b.Memory() == ptr)
  {
    if bs == [] || (bs[0].used && bs[0].Memory() == ptr) then 0 else 1 + IndexOf(bs[1..], ptr)
  }

  predicate IsLive(bs: seq<Block>, ptr: nat) {
    IndexOf(bs, ptr) < |bs|
  }

  lemma IndexOfUnique(bs: seq<Block>, lo: nat, hi: nat, i: nat)
    requires Tiles(bs, lo, hi) && i < |bs| && bs[i].used
    ensures IndexOf(bs, bs[i].Memory()) == i
  {
    var j := IndexOf(bs, bs[i].Memory());
    assert bs[i] in bs;
    if i < j {
      BlocksDisjoint(bs, lo, hi, i, j);
    } else if j < i {
      BlocksDisjoint(bs, lo, hi, j, i);
    }
  }

  /** Freeing what a successful allocation returned restores the list exactly, however the
      block was split. */
  lemma AllocateFreeRoundTrip(bs: seq<Block>, lo: nat, hi: nat, size: nat, alignment: nat)
    requires HeapInv(bs, lo, hi) && SafeAlignment(RoundSize(size), alignment)
    requires AllPlaceable(bs)
    requires Succeeds(bs, size, alignment)
    ensures var out := Allocate(bs, size, alignment);
      && IsLive(out.blocks, out.ptr)
      && Release(out.blocks, IndexOf(out.blocks, out.ptr)) == bs
  {
    var r := RoundSize(size);
    var k := FirstFit(bs, r, alignment);
    var o := AlignOffset(bs[k].Memory(), alignment);
    var out := Allocate(bs, size, alignment);
    AcceptedFits(bs[k], r, alignment);
    AllocateKeepsInv(bs, lo, hi, size, alignment);
    var i := if o == 0 then k else k + 1;
    assert out.blocks[i].used && out.blocks[i].Memory() == out.ptr;
    IndexOfUnique(out.blocks, lo, hi, i);
    ReleasePlaced(bs, k, r, o);
  }

  lemma ReleasePlaced(bs: seq<Block>, k: nat, r: nat, o: nat)
    requires k < |bs| && !bs[k].used && Coalesced(bs)
    requires if o == 0 then r <= bs[k].size else HEADER < o && o + r <= bs[k].size
    ensures var p := bs[..k] + Place(bs[k], r, o) + bs[k + 1..];
      Release(p, if o == 0 then k else k + 1) == bs
  {
    hide Place, Release, Coalesced;
    CoalescedAround(bs, k);
    assert bs == bs[..k] + [bs[k]] + bs[k + 1..];
    ReleasePlacedBetween(bs[..k], bs[k], bs[k + 1..], r, o);
  }

  lemma ReleasePlacedBetween(pre: seq<Block>, b: Block, post: seq<Block>, r: nat, o: nat)
    requires !b.used && (pre == [] || pre[|pre| - 1].used) && (post == [] || post[0].used)
    requires if o == 0 then r <= b.size else HEADER < o && o + r <= b.size
    ensures Release(pre + Place(b, r, o) + post, if o == 0 then |pre| else |pre| + 1) == pre + [b] + post
  {
    if o == 0 {
      SliceMiddle(pre, Carve(b, r), post);
      ReleaseCarved(pre, b, r, post);
    } else {
      var gap := Block(b.addr, o - HEADER, false);
      var c := Block(b.addr + o, b.size - o, false);
      var before := pre + [gap];
      assert pre + Place(b, r, o) + post == before + Carve(c, r) + post;
      SliceMiddle(before, Carve(c, r), post);
      ReleaseCarved(before, c, r, post);
      assert before[..|pre|] == pre && Merged(gap, c) == b;
    }
  }

  lemma SliceMiddle(a: seq<Block>, v: seq<Block>, z: seq<Block>)
    requires v != []
    ensures var s := a + v + z;
      s[..|a|] == a && s[|a|] == v[0] && s[|a| + 1..] == v[1..] + z
  {
  }

  lemma ReleaseCarved(before: seq<Block>, c: Block, r: nat, post: seq<Block>)
    requires r <= c.size && !c.used && (post == [] || post[0].used)
    ensures ReleaseBetween(before, Carve(c, r)[0].(used := false), Carve(c, r)[1..] + post)
         == AbsorbLeft(before, c).0 + [AbsorbLeft(before, c).1] + post
  {
    var v := Carve(c, r);
    var d := AbsorbLeft(before, v[0].(used := false)).1;
    if |v| == 2 {
      assert v[1..] == [v[1]];
      assert ([v[1]] + post)[1..] == post;
    } else {
      assert v[1..] + post == post;
    }
  }

  // ----- everything freed

  /** With no live block left the heap is one free block of its original size again. */
  lemma AllFreedIsInitial(bs: seq<Block>, lo: nat, hi: nat)
    requires HeapInv(bs, lo, hi) && Live(bs) == []
    ensures lo + HEADER <= hi && bs == InitialHeap(lo, hi)
  {
    forall b | b in bs
      ensures !b.used
    {
      LiveMembers(bs, b);
    }
    assert bs[0] in bs;
    assert bs[1..] == [];
    assert Tiles(bs[1..], bs[0].End(), hi);
  }

  // ----- runs

  datatype Request = Alloc(size: nat, alignment: nat) | Free(ptr: nat)

  /** What the callers owe: safe alignments, and only null or live pointers are freed. */
  predicate Allowed(bs: seq<Block>, q: Request) {
    match q
    case Alloc(size, alignment) => size < U32 && SafeAlignment(RoundSize(size), alignment)
    case Free(ptr) => ptr == 0 || IsLive(bs, ptr)
  }

  function Serve(bs: seq<Block>, q: Request): seq<Block>
    requires Allowed(bs, q) && AllPlaceable(bs)
  {
    match q
    case Alloc(size, alignment) => Allocate(bs, size, alignment).blocks
    case Free(ptr) => if ptr == 0 then bs else Release(bs, IndexOf(bs, ptr))
  }

  /** `states` is a run from the initial heap serving `qs`. */
  predicate IsRun(states: seq<seq<Block>>, qs: seq<Request>, lo: nat, hi: nat) {
    && |states| == |qs| + 1
    && 0 < lo && lo % 4 == 0 && hi % 4 == 0 && lo + HEADER <= hi < U32
    && states[0] == InitialHeap(lo, hi)
    && forall i :: 0 <= i < |qs| ==> IsStep(states[i], qs[i], states[i + 1])
  }

  predicate IsStep(bs: seq<Block>, q: Request, bs': seq<Block>) {
    AllPlaceable(bs) && Allowed(bs, q) && bs' == Serve(bs, q)
  }

  /** The invariant holds in every state of every run; whenever nothing is live, the heap is
      back in its initial state. */
  lemma {:induction false} EveryRunKeepsInv(states: seq<seq<Block>>, qs: seq<Request>, lo: nat, hi: nat, n: nat)
    requires IsRun(states, qs, lo, hi) && n <= |qs|
    ensures HeapInv(states[n], lo, hi)
    ensures Live(states[n]) == [] ==> states[n] == InitialHeap(lo, hi)
  {
    if n == 0 {
      var bs := InitialHeap(lo, hi);
      assert Tiles(bs[1..], bs[0].End(), hi);
    } else {
      EveryRunKeepsInv(states, qs, lo, hi, n - 1);
      assert IsStep(states[n - 1], qs[n - 1], states[n]);
      match qs[n - 1]
      case Alloc(size, alignment) => AllocateKeepsInv(states[n - 1], lo, hi, size, alignment);
      case Free(ptr) =>
        if ptr != 0 {
          ReleaseKeepsInv(states[n - 1], lo, hi, IndexOf(states[n - 1], ptr));
        }
    }
    if Live(states[n]) == [] {
      AllFreedIsInitial(states[n], lo, hi);
    }
  }

  /** A run never gets stuck: any request its callers may make can be served next. */
  lemma RunExtends(states: seq<seq<Block>>, qs: seq<Request>, lo: nat, hi: nat, q: Request)
    requires IsRun(states, qs, lo, hi) && Allowed(states[|qs|], q)
    ensures AllPlaceable(states[|qs|])
    ensures IsRun(states + [Serve(states[|qs|], q)], qs + [q], lo, hi)
  {
    EveryRunKeepsInv(states, qs, lo, hi, |qs|);
    InvPlaceable(states[|qs|], lo, hi);
    var states', qs' := states + [Serve(states[|qs|], q)], qs + [q];
    forall i | 0 <= i < |qs'|
      ensures IsStep(states'[i], qs'[i], states'[i + 1])
    {
      if i < |qs| {
        assert IsStep(states[i], qs[i], states[i + 1]);
      }
    }
  }

  /** Releasing removes exactly the freed block from the live ones. */
  lemma ReleaseRemovesOneLive(bs: seq<Block>, i: nat)
    requires i < |bs| && bs[i].used
    ensures Live(bs) == Live(bs[..i]) + [bs[i]] + Live(bs[i + 1..])
    ensures Live(Release(bs, i)) == Live(bs[..i]) + Live(bs[i + 1..])
  {
    hide Live, ReleaseBetween;
    assert Live(bs) == Live(bs[..i]) + [bs[i]] + Live(bs[i + 1..]) by {
      assert bs == bs[..i] + [bs[i]] + bs[i + 1..];
      LiveAround(bs, [bs[i]], i);
      LiveOfOne(bs[i]);
    }
    ReleaseBetweenLive(bs[..i], bs[i].(used := false), bs[i + 1..]);
  }

  lemma ReleaseBetweenLive(pre: seq<Block>, b: Block, post: seq<Block>)
    requires !b.used
    ensures Live(ReleaseBetween(pre, b, post)) == Live(pre) + Live(post)
  {
    var (p, c) := AbsorbLeft(pre, b);
    var (d, q) := AbsorbRight(c, post);
    LiveConcat(p + [d], q);
    LiveConcat(p, [d]);
    LiveOfOne(d);
    AbsorbLeftLive(pre, b);
    assert Live(q) == Live(post);
  }

  lemma LiveOfOne(b: Block)
    ensures Live([b]) == if b.used then [b] else []
  {
    assert [b][1..] == [];
  }

  lemma AbsorbLeftLive(pre: seq<Block>, b: Block)
    ensures Live(AbsorbLeft(pre, b).0) == Live(pre)
  {
    if pre != [] && !pre[|pre| - 1].used {
      var n := |pre| - 1;
      assert pre == pre[..n] + [pre[n]];
      LiveConcat(pre[..n], [pre[n]]);
      LiveOfOne(pre[n]);
    }
  }
}
