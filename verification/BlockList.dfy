/** The kernel heap as the address-ordered list of its blocks: what first-fit allocation and
    coalescing release do to that list, and what every run of them keeps. */
module BlockList {
  import opened Arithmetic

  /** Bytes of header in front of every block's memory. */
  const HEADER: nat := 16

  /** A block whose header is at `addr` and whose memory is the `size` bytes after it. */
  datatype Block = Block(addr: nat, size: nat, used: bool) {
    function Memory(): nat { addr + HEADER }
    function End(): nat { addr + HEADER + size }
  }

  // ----- the heap invariant

  /** The blocks cover [lo, hi) exactly, in address order, without gap or overlap. */
  predicate Tiles(bs: seq<Block>, lo: nat, hi: nat) {
    if bs == [] then lo == hi
    else bs[0].addr == lo && Tiles(bs[1..], bs[0].End(), hi)
  }

  predicate WordBlock(b: Block) {
    b.addr % 4 == 0 && b.size % 4 == 0
  }

  predicate WordSized(bs: seq<Block>) {
    forall b :: b in bs ==> WordBlock(b)
  }

  /** No two neighbouring blocks are both free. */
  predicate Coalesced(bs: seq<Block>) {
    |bs| <= 1 || ((bs[0].used || bs[1].used) && Coalesced(bs[1..]))
  }

  predicate HeapInv(bs: seq<Block>, lo: nat, hi: nat) {
    && bs != []
    && 0 < lo && hi < U32
    && Tiles(bs, lo, hi)
    && WordSized(bs)
    && Coalesced(bs)
  }

  function Span(bs: seq<Block>): nat {
    if bs == [] then 0 else HEADER + bs[0].size + Span(bs[1..])
  }

  function InitialHeap(lo: nat, hi: nat): seq<Block>
    requires lo + HEADER <= hi
  {
    [Block(lo, hi - lo - HEADER, false)]
  }

  // ----- allocation

  predicate Candidate(b: Block, r: nat) {
    b.size >= r && !b.used
  }

  /** The two placement branches: no offset needed, or an offset that leaves room for the
      header of the skipped part. The subtraction is the unsigned one of the source. */
  predicate Accepts(b: Block, r: nat, alignment: nat)
    requires alignment > 0
  {
    var o := AlignOffset(b.Memory(), alignment);
    Candidate(b, r) && (o == 0 || (o > HEADER && Wrap(b.size - o) >= r))
  }

  /** Index of the first block that accepts the request, or |bs|. */
  function FirstFit(bs: seq<Block>, r: nat, alignment: nat): (k: nat)
    requires alignment > 0
    ensures k <= |bs|
    ensures k < |bs| ==> Accepts(bs[k], r, alignment)
    ensures forall j :: 0 <= j < k ==> !Accepts(bs[j], r, alignment)
  {
    if bs == [] || Accepts(bs[0], r, alignment) then 0
    else 1 + FirstFit(bs[1..], r, alignment)
  }

  /** Memory address of the last free block that is big enough, ignoring alignment, or 0. */
  function LastCandidate(bs: seq<Block>, r: nat): nat {
    if bs == [] then 0
    else if Candidate(bs[|bs| - 1], r) then bs[|bs| - 1].Memory()
    else LastCandidate(bs[..|bs| - 1], r)
  }

  /** A used block of `r` bytes cut from the front of `b`, with the rest as a free block
      when the rest has room for a header and more. */
  function Carve(b: Block, r: nat): seq<Block>
    requires r <= b.size
  {
    if b.size - r > HEADER then
      [Block(b.addr, r, true), Block(b.addr + HEADER + r, b.size - r - HEADER, false)]
    else
      [b.(used := true)]
  }

  /** What replaces the accepted block `b` when its memory is advanced by `o` bytes. */
  function Place(b: Block, r: nat, o: nat): seq<Block>
    requires if o == 0 then r <= b.size else HEADER < o && o + r <= b.size
  {
    if o == 0 then Carve(b, r)
    else [Block(b.addr, o - HEADER, false)] + Carve(Block(b.addr + o, b.size - o, false), r)
  }

  /** The caller-side condition under which the unsigned guard on the aligned branch is
      sound for every block (see GuardSoundExactly). */
  predicate SafeAlignment(r: nat, alignment: nat) {
    alignment < U32 && IsPowerOfTwo(alignment) && (alignment <= 16 || alignment <= r + 4)
  }

  predicate Placeable(b: Block) {
    WordBlock(b) && b.End() < U32
  }

  predicate AllPlaceable(bs: seq<Block>) {
    forall b :: b in bs ==> Placeable(b)
  }

  /** The block really has room for the request at its aligned address. */
  predicate Holds(b: Block, r: nat, alignment: nat)
    requires alignment > 0
  {
    var o := AlignOffset(b.Memory(), alignment);
    if o == 0 then r <= b.size else HEADER < o && o < b.size && o + r <= b.size
  }

  function PlaceAligned(b: Block, r: nat, alignment: nat): seq<Block>
    requires alignment > 0 && Holds(b, r, alignment)
  {
    Place(b, r, AlignOffset(b.Memory(), alignment))
  }

  datatype Outcome = Outcome(blocks: seq<Block>, ptr: nat)

  function Allocate(bs: seq<Block>, size: nat, alignment: nat): Outcome
    requires AllPlaceable(bs)
    requires SafeAlignment(RoundSize(size), alignment)
  {
    var r := RoundSize(size);
    var k := FirstFit(bs, r, alignment);
    if size == 0 then Outcome(bs, 0)
    else if k == |bs| then Outcome(bs, LastCandidate(bs, r))
    else
      AcceptedFits(bs[k], r, alignment);
      Outcome(bs[..k] + PlaceAligned(bs[k], r, alignment) + bs[k + 1..],
              bs[k].Memory() + AlignOffset(bs[k].Memory(), alignment))
  }

  // ----- release

  function Merged(a: Block, b: Block): Block {
    a.(size := a.size + HEADER + b.size)
  }

  function AbsorbLeft(pre: seq<Block>, b: Block): (seq<Block>, Block) {
    if pre != [] && !pre[|pre| - 1].used then (pre[..|pre| - 1], Merged(pre[|pre| - 1], b))
    else (pre, b)
  }

  function AbsorbRight(b: Block, post: seq<Block>): (Block, seq<Block>) {
    if post != [] && !post[0].used then (Merged(b, post[0]), post[1..])
    else (b, post)
  }

  /** Frees block `i`, merging it with its left and then its right neighbour if free. */
  function Release(bs: seq<Block>, i: nat): seq<Block>
    requires i < |bs|
  {
    ReleaseBetween(bs[..i], bs[i].(used := false), bs[i + 1..])
  }

  function ReleaseBetween(pre: seq<Block>, b: Block, post: seq<Block>): seq<Block> {
    var (p, c) := AbsorbLeft(pre, b);
    var (d, q) := AbsorbRight(c, post);
    p + [d] + q
  }

  // ----- the unsigned guard

  lemma AcceptedFits(b: Block, r: nat, alignment: nat)
    requires Placeable(b)
    requires r % 4 == 0 && SafeAlignment(r, alignment) && Accepts(b, r, alignment)
    ensures AlignOffset(b.Memory(), alignment) % 4 == 0
    ensures Holds(b, r, alignment)
  {
    hide AlignOffset, IsPowerOfTwo, Wrap;
    AlignOffsetIsExact(b.Memory(), alignment);
    AlignOffsetInWords(b.Memory(), alignment);
    if AlignOffset(b.Memory(), alignment) != 0 {
      UnsignedGuard(b.size, AlignOffset(b.Memory(), alignment), r, alignment);
    }
  }

  lemma UnsignedGuard(size: nat, o: nat, r: nat, alignment: nat)
    requires size % 4 == 0 && o % 4 == 0 && r % 4 == 0 && r <= size < U32 && o < alignment
    requires alignment <= 16 || alignment <= r + 4
    requires HEADER < o && Wrap(size - o) >= r
    ensures o < size && o + r <= size
  {
    assert o <= r;
    WrapOnce(size - o);
  }

  /** The guard on the aligned branch subtracts unsigned. Over all word-sized blocks it lets
      through only blocks that really hold the request exactly when the alignment is at most
      16 or at most four bytes more than the rounded request. */
  lemma GuardSoundExactly(r: nat, alignment: nat)
    requires r % 4 == 0 && alignment < U32 && IsPowerOfTwo(alignment)
    ensures (forall b: Block | Placeable(b) && Accepts(b, r, alignment) :: Holds(b, r, alignment))
            <==> SafeAlignment(r, alignment)
  {
    if SafeAlignment(r, alignment) {
      forall b: Block | Placeable(b) && Accepts(b, r, alignment)
        ensures Holds(b, r, alignment)
      {
        AcceptedFits(b, r, alignment);
      }
    } else {
      var b := GuardWitness(r, alignment);
    }
  }

  /** A block the guard accepts although its memory ends before the aligned address does. */
  lemma GuardWitness(r: nat, alignment: nat) returns (b: Block)
    requires r % 4 == 0 && alignment < U32 && IsPowerOfTwo(alignment)
    requires !SafeAlignment(r, alignment)
    ensures Placeable(b) && Accepts(b, r, alignment) && !Holds(b, r, alignment)
    ensures b.size < AlignOffset(b.Memory(), alignment)
  {
    assert IsPowerOfTwo(16);
    PowerDivides(16, alignment);
    AtMostHalfOfU32(alignment);
    b := Block(alignment + 4 - HEADER, r, false);
    AlignOffsetIsExact(alignment + 4, alignment);
    assert MaskDown(alignment + 3, alignment) == alignment + MaskDown(3, alignment);
    assert AlignOffset(b.Memory(), alignment) == alignment - 4;
  }
}
