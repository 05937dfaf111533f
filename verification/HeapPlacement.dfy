/** Where allocations go, and that the whole heap follows from what is live. */
module HeapPlacement {
  import opened Arithmetic
  import opened BlockList
  import opened HeapTheorems

  // ----- the heap follows from its live blocks

  /** Two heaps over the same addresses with the same live blocks are the same: what is not live is
      free, and in as few blocks as possible. */
  lemma {:induction false} LiveDeterminesHeap(a: seq<Block>, b: seq<Block>, lo: nat, hi: nat)
    requires Tiles(a, lo, hi) && Coalesced(a) && Tiles(b, lo, hi) && Coalesced(b)
    requires Live(a) == Live(b)
    ensures a == b
  {
    if a == [] || b == [] {
      BothEmpty(a, b, lo, hi);
    } else if a[0].used || b[0].used {
      UsedFirst(a, b, lo, hi);
      LiveDeterminesHeap(a[1..], b[1..], a[0].End(), hi);
    } else {
      FreeFirst(a, lo, hi);
      FreeFirst(b, lo, hi);
      LiveDeterminesHeap(a[1..], b[1..], a[0].End(), hi);
    }
  }

  lemma BothEmpty(a: seq<Block>, b: seq<Block>, lo: nat, hi: nat)
    requires Tiles(a, lo, hi) && Tiles(b, lo, hi) && (a == [] || b == [])
    ensures a == b
  {
    if a != [] {
      TilesUpward(a[1..], a[0].End(), hi);
    }
    if b != [] {
      TilesUpward(b[1..], b[0].End(), hi);
    }
  }

  lemma UsedFirst(a: seq<Block>, b: seq<Block>, lo: nat, hi: nat)
    requires Tiles(a, lo, hi) && Tiles(b, lo, hi) && a != [] && b != [] && (a[0].used || b[0].used)
    requires Live(a) == Live(b)
    ensures a[0] == b[0] && Live(a[1..]) == Live(b[1..])
  {
    LiveBounded(a[1..], a[0].End(), hi);
    LiveBounded(b[1..], b[0].End(), hi);
    assert a[0].used ==> a[0] in Live(a);
    assert b[0].used ==> b[0] in Live(b);
  }

  /** A free block at the front reaches to the first live one, or to the end. */
  lemma FreeFirst(a: seq<Block>, lo: nat, hi: nat)
    requires Tiles(a, lo, hi) && Coalesced(a) && a != [] && !a[0].used
    ensures Live(a) == Live(a[1..])
    ensures a[0].addr == lo && a[0].End() == if Live(a) == [] then hi else Live(a)[0].addr
  {
    if |a| > 1 {
      assert a[1..][0] == a[1] && a[1].used;
    }
  }

  // ----- first fit

  /** `p` is the first aligned address in the memory of free block `b`. There are `r` bytes behind
      it, and in front of it nothing or more than a header. */
  ghost predicate Fits(b: Block, r: nat, alignment: nat, p: nat)
    requires alignment > 0
  {
    && !b.used && p % alignment == 0 && b.addr + 16 <= p < b.addr + 16 + alignment
    && p + r <= b.End() && (p == b.addr + 16 || p > b.addr + 32)
  }

  lemma AlignedIsUnique(x: nat, y: nat, lo: nat, d: nat)
    requires d > 0 && x % d == 0 && y % d == 0 && lo <= x < lo + d && lo <= y < lo + d
    ensures x == y
  {
    assert x == (x / d) * d && y == (y / d) * d;
    assert (x / d - y / d) * d == x - y;
    ScaleAtLeast(x / d - y / d, d);
    ScaleAtLeast(y / d - x / d, d);
    assert (y / d - x / d) * d == y - x;
  }

  lemma Positive(r: nat, alignment: nat)
    requires SafeAlignment(r, alignment)
    ensures 0 < alignment < U32
  {
  }

  /** The two tests of the search accept exactly the blocks in which the request fits. */
  lemma AcceptsExactly(b: Block, r: nat, alignment: nat)
    requires Placeable(b) && r % 4 == 0 && SafeAlignment(r, alignment)
    ensures Accepts(b, r, alignment) <==> exists p :: Fits(b, r, alignment, p)
    ensures forall p :: Fits(b, r, alignment, p) ==> p == b.Memory() + AlignOffset(b.Memory(), alignment)
  {
    hide AlignOffset, IsPowerOfTwo, Wrap;
    Positive(r, alignment);
    var o := AlignOffset(b.Memory(), alignment);
    AlignOffsetIsExact(b.Memory(), alignment);
    AlignOffsetAligns(b.Memory(), alignment);
    if Accepts(b, r, alignment) {
      AcceptedFits(b, r, alignment);
      assert Fits(b, r, alignment, b.Memory() + o);
    }
    forall p | Fits(b, r, alignment, p)
      ensures p == b.Memory() + o && Accepts(b, r, alignment)
    {
      AlignedIsUnique(p, b.Memory() + o, b.Memory(), alignment);
      WrapOnce(b.size - o);
    }
  }

  /** An allocation succeeds exactly if the request fits somewhere, and then it goes to the first
      block where it does. */
  lemma AllocationIsFirstFit(bs: seq<Block>, size: nat, alignment: nat)
    requires AllPlaceable(bs) && SafeAlignment(RoundSize(size), alignment) && size > 0
    ensures Succeeds(bs, size, alignment) <==> exists b, p :: b in bs && Fits(b, RoundSize(size), alignment, p)
    ensures Succeeds(bs, size, alignment) ==>
      var k, p := FirstFit(bs, RoundSize(size), alignment), Allocate(bs, size, alignment).ptr;
      && Fits(bs[k], RoundSize(size), alignment, p)
      && forall j, q :: 0 <= j < k ==> !Fits(bs[j], RoundSize(size), alignment, q)
  {
    hide Accepts, Fits, AlignOffset, Wrap, IsPowerOfTwo;
    Positive(RoundSize(size), alignment);
    var r := RoundSize(size);
    forall b | b in bs
      ensures Accepts(b, r, alignment) <==> exists p :: Fits(b, r, alignment, p)
      ensures forall p :: Fits(b, r, alignment, p) ==> p == b.Memory() + AlignOffset(b.Memory(), alignment)
    {
      AcceptsExactly(b, r, alignment);
    }
  }

  lemma NothingRequested(bs: seq<Block>, alignment: nat)
    requires AllPlaceable(bs) && SafeAlignment(0, alignment)
    ensures RoundSize(0) == 0 && Allocate(bs, 0, alignment) == Outcome(bs, 0)
  {
  }

  // ----- small requests leave the rest free

  /** Bytes of memory handed out. */
  function LiveBytes(live: seq<Block>): nat {
    if live == [] then 0 else live[0].size + LiveBytes(live[1..])
  }

  lemma {:induction false} LiveBytesConcat(a: seq<Block>, b: seq<Block>)
    ensures LiveBytes(a + b) == LiveBytes(a) + LiveBytes(b)
  {
    if a == [] {
      assert a + b == b;
    } else {
      assert (a + b)[1..] == a[1..] + b;
      LiveBytesConcat(a[1..], b);
    }
  }

  /** What the requests of a run ask for, each rounded to words, with a header's worth of slack. */
  function Asked(qs: seq<Request>, n: nat): nat
    requires n <= |qs|
  {
    if n == 0 then 0
    else Asked(qs, n - 1) + match qs[n - 1] case Alloc(size, _) => RoundSize(size) + 16 case Free(_) => 0
  }

  /** In every run the memory handed out is at most what was asked for. */
  lemma {:induction false} NeverMoreThanAsked(states: seq<seq<Block>>, qs: seq<Request>, lo: nat, hi: nat, n: nat)
    requires IsRun(states, qs, lo, hi) && n <= |qs|
    ensures LiveBytes(Live(states[n])) <= Asked(qs, n)
  {
    hide Serve, Allowed, HeapInv, AllPlaceable, Live, LiveBytes;
    if n == 0 {
      NothingLive(lo, hi);
    } else {
      NeverMoreThanAsked(states, qs, lo, hi, n - 1);
      EveryRunKeepsInv(states, qs, lo, hi, n - 1);
      assert IsStep(states[n - 1], qs[n - 1], states[n]);
      StepAdds(states[n - 1], qs[n - 1], lo, hi);
    }
  }

  lemma NothingLive(lo: nat, hi: nat)
    requires lo + HEADER <= hi
    ensures LiveBytes(Live(InitialHeap(lo, hi))) == 0
  {
    assert Live(InitialHeap(lo, hi)[1..]) == [];
  }

  lemma StepAdds(bs: seq<Block>, q: Request, lo: nat, hi: nat)
    requires HeapInv(bs, lo, hi) && AllPlaceable(bs) && Allowed(bs, q)
    ensures LiveBytes(Live(Serve(bs, q)))
         <= LiveBytes(Live(bs)) + match q case Alloc(size, _) => RoundSize(size) + 16 case Free(_) => 0
  {
    hide Live, Release, HeapInv, FirstFit, SafeAlignment;
    match q
    case Alloc(size, alignment) =>
      Positive(RoundSize(size), alignment);
      if Succeeds(bs, size, alignment) {
        AllocatedBytes(bs, lo, hi, size, alignment);
      }
    case Free(ptr) =>
      if ptr != 0 {
        ReleasedBytes(bs, IndexOf(bs, ptr));
      }
  }

  lemma AllocatedBytes(bs: seq<Block>, lo: nat, hi: nat, size: nat, alignment: nat)
    requires HeapInv(bs, lo, hi) && AllPlaceable(bs) && SafeAlignment(RoundSize(size), alignment)
    requires Succeeds(bs, size, alignment)
    ensures LiveBytes(Live(Allocate(bs, size, alignment).blocks)) <= LiveBytes(Live(bs)) + RoundSize(size) + 16
  {
    hide Live, Allocate, FirstFit, SafeAlignment, Tiles;
    var pre, m, post := AllocationIsSound(bs, lo, hi, size, alignment);
    LiveBytesConcat(pre, post);
    LiveBytesConcat(pre + [m], post);
    LiveBytesConcat(pre, [m]);
    assert LiveBytes([m]) == m.size + LiveBytes([m][1..]);
  }

  lemma ReleasedBytes(bs: seq<Block>, i: nat)
    requires i < |bs| && bs[i].used
    ensures LiveBytes(Live(Release(bs, i))) <= LiveBytes(Live(bs))
  {
    hide Live, Release;
    ReleaseRemovesOneLive(bs, i);
    var pre, post := Live(bs[..i]), Live(bs[i + 1..]);
    LiveBytesConcat(pre, post);
    LiveBytesConcat(pre + [bs[i]], post);
    LiveBytesConcat(pre, [bs[i]]);
  }
}
