// The allocator state as one value -- memory, bitmaps, list heads and the ghost
// block map -- and its invariant.  One lemma per operation.
module TlsfHeap {
  import opened Bits
  import opened TlsfMapping
  import opened TlsfBlocks
  import opened TlsfLists
  import opened TlsfSteps
  import opened TlsfMemory
  import opened TlsfBitmaps

  datatype Heap = Heap(mem: Mem, fl: nat, sl: seq<nat>, heads: Heads, bs: Blks, pools: Pools, nul: nat)

  // Memory, lists and bitmaps describe the same blocks.
  ghost predicate Coherent(h: Heap) {
    match h
    case Heap(mem, fl, sl, heads, bs, pools, nul) =>
      && PoolsOk(pools, nul)
      && Geo(bs, pools)
      && Enc(mem, bs)
      && Lists(bs, heads, nul)
      && Filed(bs)
      && BitmapsOk(fl, sl, heads, nul)
  }

  // The state inside an operation that is handling block x.
  ghost predicate Handling(h: Heap, x: nat) {
    Coherent(h) && Shape(h.bs, x) && Armed(h.bs, x)
  }

  // The state between operations.
  ghost predicate Valid(h: Heap) {
    Coherent(h) && Shape(h.bs, NO_BLOCK)
  }

  // The client's words are as before and the set of pools has not changed.
  ghost predicate Preserves(h: Heap, h': Heap, live: map<nat, nat>) {
    && h'.pools == h.pools && h'.nul == h.nul
    && Frame(h.mem, h'.mem, live, h.pools, h.nul)
  }

  lemma PreservesCompose(h0: Heap, h1: Heap, h2: Heap, live: map<nat, nat>)
    requires Preserves(h0, h1, live) && Preserves(h1, h2, live)
    ensures Preserves(h0, h2, live)
  {
    FrameCompose(h0.mem, h1.mem, h2.mem, live, h0.pools, h0.nul);
  }

  // ------------------------------------------------------------ free-list steps

  ghost function RemoveStep(h: Heap, b: nat): Heap
    requires b in h.bs && h.bs[b].node.In? && InRange(h.bs[b].node.idx) && HeadsOk(h.heads)
    requires |h.sl| == FL_INDEX_COUNT && h.fl < U32_MOD && h.sl[h.bs[b].node.idx.fl] < U32_MOD
  {
    var i, next := h.bs[b].node.idx, h.bs[b].node.next;
    var empties := h.heads[i] == b && next == h.nul;
    h.(mem := Detach(h.mem, b), bs := Unlink(h.bs, h.nul, b), heads := UnlinkHeads(h.bs, h.heads, h.nul, b),
       sl := if empties then ClearedSl(h.sl, i) else h.sl,
       fl := if empties then ClearedFl(h.fl, h.sl, i) else h.fl)
  }

  lemma ListedFacts(h: Heap, b: nat)
    requires Coherent(h) && b in h.bs && h.bs[b].node.In?
    ensures InRange(h.bs[b].node.idx) && h.sl[h.bs[b].node.idx.fl] < U32_MOD
    ensures h.bs[b].free && h.bs[b].size > 0 && h.bs[b].node.idx == MappingInsert(h.bs[b].size)
    ensures Load(h.mem, b + 16) == h.bs[b].node.next && Load(h.mem, b + 24) == h.bs[b].node.prev
    ensures b != h.nul
  {
    assert ListAt(h.bs, h.heads, h.nul, b) && FiledAt(h.bs[b]) && EncAt(h.mem, b, h.bs[b]);
    EmptyLists(h.fl, h.sl, h.heads, h.nul, h.bs[b].node.idx);
  }

  lemma RemoveBitmaps(h: Heap, b: nat)
    requires Coherent(h) && b in h.bs && h.bs[b].node.In?
    requires InRange(h.bs[b].node.idx) && h.sl[h.bs[b].node.idx.fl] < U32_MOD
    ensures var h' := RemoveStep(h, b); BitmapsOk(h'.fl, h'.sl, h'.heads, h.nul)
  {
    var i, next := h.bs[b].node.idx, h.bs[b].node.next;
    ListedFacts(h, b);
    if h.heads[i] == b {
      if next == h.nul {
        ClearBits(h.fl, h.sl, h.heads, h.nul, i);
      } else {
        SameBits(h.fl, h.sl, h.heads, h.nul, i, next);
      }
    }
  }

  lemma RemoveKeeps(h: Heap, b: nat)
    requires Coherent(h) && b in h.bs && h.bs[b].node.In?
    requires InRange(h.bs[b].node.idx) && h.sl[h.bs[b].node.idx.fl] < U32_MOD
    ensures Coherent(RemoveStep(h, b)) && Delisted(h.bs, RemoveStep(h, b).bs, b)
    ensures Live(RemoveStep(h, b).bs) == Live(h.bs)
  {
    UnlinkDelists(h.bs, h.nul, b);
    PhysicalGeometry(h.bs, Unlink(h.bs, h.nul, b), h.pools);
    UnlinkKeepsLists(h.bs, h.heads, h.nul, b);
    DetachEnc(h.mem, h.bs, h.heads, h.pools, h.nul, b);
    DelistedFiled(h.bs, Unlink(h.bs, h.nul, b), b);
    RemoveBitmaps(h, b);
  }

  lemma RemovePreserves(h: Heap, b: nat)
    requires Coherent(h) && b in h.bs && h.bs[b].node.In?
    requires InRange(h.bs[b].node.idx) && h.sl[h.bs[b].node.idx.fl] < U32_MOD
    ensures Preserves(h, RemoveStep(h, b), Live(h.bs))
  {
    LiveFacts(h.bs);
    DetachFrame(h.mem, h.bs, h.heads, h.pools, h.nul, Live(h.bs), b);
  }

  ghost function InsertStep(h: Heap, b: nat, i: ListIndex): Heap
    requires b in h.bs && InRange(i) && HeadsOk(h.heads)
    requires |h.sl| == FL_INDEX_COUNT && h.fl < U32_MOD && h.sl[i.fl] < U32_MOD
  {
    h.(mem := Attach(h.mem, h.nul, b, h.heads[i]), bs := Link(h.bs, h.heads, h.nul, b, i), heads := h.heads[i := b],
       sl := h.sl[i.fl := SetBit(h.sl[i.fl], i.sl)], fl := SetBit(h.fl, i.fl))
  }

  lemma UnlistedFacts(h: Heap, b: nat)
    requires Coherent(h) && b in h.bs
    ensures h.bs[b].size < BLOCK_SIZE_MAX && b != h.nul
    ensures InRange(MappingInsert(h.bs[b].size)) && h.sl[MappingInsert(h.bs[b].size).fl] < U32_MOD
  {
    var i := MappingInsert(h.bs[b].size);
    assert BlkAt(h.bs, h.pools, b) && PoolAt(h.pools, h.nul, h.bs[b].pool);
    MappingInRange(h.bs[b].size);
    EmptyLists(h.fl, h.sl, h.heads, h.nul, i);
  }

  lemma InsertKeeps(h: Heap, b: nat, i: ListIndex)
    requires Coherent(h) && b in h.bs && h.bs[b].node.Out? && h.bs[b].free && h.bs[b].size > 0
    requires i == MappingInsert(h.bs[b].size) && InRange(i) && h.sl[i.fl] < U32_MOD
    ensures Coherent(InsertStep(h, b, i)) && Enlisted(h.bs, InsertStep(h, b, i).bs, b, i)
    ensures Live(InsertStep(h, b, i).bs) == Live(h.bs)
  {
    LinkEnlists(h.bs, h.heads, h.nul, b, i);
    PhysicalGeometry(h.bs, Link(h.bs, h.heads, h.nul, b, i), h.pools);
    LinkKeepsLists(h.bs, h.heads, h.nul, b, i);
    AttachEnc(h.mem, h.bs, h.heads, h.pools, h.nul, b, i);
    EnlistedFiled(h.bs, Link(h.bs, h.heads, h.nul, b, i), b, i);
    SetBits(h.fl, h.sl, h.heads, h.nul, i, b);
  }

  lemma InsertPreserves(h: Heap, b: nat, i: ListIndex)
    requires Coherent(h) && b in h.bs && h.bs[b].free && h.bs[b].size > 0
    requires InRange(i) && h.sl[i.fl] < U32_MOD
    ensures Preserves(h, InsertStep(h, b, i), Live(h.bs))
  {
    LiveFacts(h.bs);
    AttachFrame(h.mem, h.bs, h.heads, h.pools, h.nul, Live(h.bs), b, i);
  }

  // ------------------------------------------------------------- header steps

  ghost function MarkFreeStep(h: Heap, b: nat): Heap
    requires b in h.bs && Next(h.bs, b) in h.bs && h.bs[b].size > 0
  {
    h.(mem := MarkAsFree(h.mem, b), bs := MarkFree(h.bs, b))
  }

  lemma MarkFreeStepKeeps(h: Heap, b: nat)
    requires Valid(h) && b in Live(h.bs)
    ensures Next(h.bs, b) in h.bs && Handling(MarkFreeStep(h, b), b) && MarkFreeStep(h, b).bs[b].free
    ensures Live(MarkFreeStep(h, b).bs) == Without(Live(h.bs), b)
    ensures Preserves(h, MarkFreeStep(h, b), Without(Live(h.bs), b))
  {
    NeighbourFacts(h.bs, h.pools, b);
    MarkFreeKeeps(h.bs, h.pools, b);
    MarkFreeLive(h.bs, h.pools, b);
    MarkFreeEnc(h.mem, h.bs, h.pools, h.nul, b);
    LiveFacts(h.bs);
    ListsCarried(h.bs, MarkFree(h.bs, b), h.heads, h.pools, h.nul);
    MarkFreeFrame(h.mem, h.bs, h.pools, h.nul, Without(Live(h.bs), b), b);
  }

  ghost function MarkUsedStep(h: Heap, b: nat): Heap
    requires b in h.bs && Next(h.bs, b) in h.bs && h.bs[b].size > 0
  {
    h.(mem := MarkAsUsed(h.mem, b), bs := MarkUsed(h.bs, b))
  }

  lemma MarkUsedStepKeeps(h: Heap, b: nat)
    requires Handling(h, b)
    ensures Next(h.bs, b) in h.bs && Valid(MarkUsedStep(h, b))
    ensures Live(MarkUsedStep(h, b).bs) == Live(h.bs)[b := h.bs[b].size]
    ensures Preserves(h, MarkUsedStep(h, b), Live(h.bs))
  {
    NeighbourFacts(h.bs, h.pools, b);
    assert ShapeAt(h.bs, b, b);
    MarkUsedKeeps(h.bs, h.pools, b);
    MarkUsedLive(h.bs, h.pools, b);
    MarkUsedEnc(h.mem, h.bs, h.pools, h.nul, b);
    LiveFacts(h.bs);
    ListsCarried(h.bs, MarkUsed(h.bs, b), h.heads, h.pools, h.nul);
    MarkUsedFrame(h.mem, h.bs, h.pools, h.nul, Live(h.bs), b);
  }

  ghost predicate CanSplit(h: Heap, b: nat, size: nat) {
    && Coherent(h) && b in h.bs && h.bs[b].node.Out? && h.bs[b].size >= size + SIZEOF_BLOCK_HEADER
    && size % 8 == 0 && size >= BLOCK_SIZE_MIN && Next(h.bs, b) in h.bs
  }

  // block_split; the new header's prev_free flag is stale.
  ghost function SplitStep(h: Heap, b: nat, size: nat): Heap
    requires CanSplit(h, b, size)
  {
    h.(mem := SplitMem(h.mem, b, size), bs := Split(h.bs, b, size, StaleFlag(h.mem, b + 8 + size), false))
  }

  ghost function LiveAfterSplit(h: Heap, b: nat, size: nat): map<nat, nat>
    requires b in h.bs
  {
    if h.bs[b].free then Live(h.bs) else Live(h.bs)[b := size]
  }

  lemma SplitStepKeeps(h: Heap, b: nat, size: nat)
    requires CanSplit(h, b, size)
    ensures Coherent(SplitStep(h, b, size))
    ensures Live(SplitStep(h, b, size).bs) == LiveAfterSplit(h, b, size)
  {
    hide SplitMem, StaleFlag, Fits, Outside;
    var pf := StaleFlag(h.mem, b + 8 + size);
    SplitPointIsNew(h.bs, h.pools, b, size);
    SplitGeometry(h.bs, h.pools, b, size, pf, false);
    SplitLive(h.bs, h.pools, b, size, pf, false);
    SplitEnc(h.mem, h.bs, h.pools, h.nul, b, size);
    ListsCarried(h.bs, Split(h.bs, b, size, pf, false), h.heads, h.pools, h.nul);
  }

  lemma SplitStepPreserves(h: Heap, b: nat, size: nat)
    requires CanSplit(h, b, size)
    ensures Preserves(h, SplitStep(h, b, size), LiveAfterSplit(h, b, size))
  {
    LiveFacts(h.bs);
    SplitFrame(h.mem, h.bs, h.pools, h.nul, LiveAfterSplit(h, b, size), b, size);
  }

  // Setting the flags of a new header, and linking it to its predecessor.
  ghost function FlagStep(h: Heap, x: nat, prevFree: bool): Heap
    requires x in h.bs
  {
    var r := h.bs[x].(prevFree := prevFree);
    h.(mem := h.mem[x + 8 := SizeWord(r)], bs := h.bs[x := r])
  }

  lemma FlagStepKeeps(h: Heap, x: nat, prevFree: bool)
    requires Coherent(h) && x in h.bs
    ensures Coherent(FlagStep(h, x, prevFree)) && Live(FlagStep(h, x, prevFree).bs) == Live(h.bs)
  {
    var r := h.bs[x].(prevFree := prevFree);
    assert EncAt(h.mem, x, h.bs[x]);
    SizeFieldEnc(h.mem, h.bs, h.pools, h.nul, x, r);
    GeometryKept(h.bs, h.bs[x := r], h.pools);
    ListsCarried(h.bs, h.bs[x := r], h.heads, h.pools, h.nul);
  }

  lemma FlagStepPreserves(h: Heap, x: nat, prevFree: bool)
    requires Coherent(h) && x in h.bs
    ensures Preserves(h, FlagStep(h, x, prevFree), Live(h.bs))
    ensures FlagStep(h, x, prevFree).mem == if prevFree then SetPrevFree(h.mem, x) else SetPrevUsed(h.mem, x)
  {
    assert EncAt(h.mem, x, h.bs[x]) && AlignedAt(h.bs, x);
    HeaderWrites(h.mem, x, h.bs[x]);
    LiveFacts(h.bs);
    OneStoreFrame(h.mem, h.bs, h.pools, h.nul, Live(h.bs), x, x + 8, SizeWord(h.bs[x].(prevFree := prevFree)));
  }

  ghost function LinkStep(h: Heap, x: nat): Heap
    requires x in h.bs && h.bs[x].prev >= 0
  {
    h.(mem := h.mem[x := h.bs[x].prev], bs := h.bs[x := h.bs[x].(linked := true)])
  }

  lemma LinkStepKeeps(h: Heap, b: nat)
    requires Coherent(h) && b in h.bs && h.bs[b].free && h.bs[b].size > 0 && Next(h.bs, b) in h.bs
    ensures h.bs[Next(h.bs, b)].prev == b
    ensures Coherent(LinkStep(h, Next(h.bs, b))) && Live(LinkStep(h, Next(h.bs, b)).bs) == Live(h.bs)
    ensures Preserves(h, LinkStep(h, Next(h.bs, b)), Live(h.bs))
    ensures LinkStep(h, Next(h.bs, b)).mem == LinkNext(h.mem, b)
  {
    var x := Next(h.bs, b);
    NeighbourFacts(h.bs, h.pools, b);
    assert EncAt(h.mem, b, h.bs[b]) && AlignedAt(h.bs, b);
    HeaderReads(h.mem, h.bs, b);
    LinkFieldEnc(h.mem, h.bs, h.pools, h.nul, x);
    GeometryKept(h.bs, LinkStep(h, x).bs, h.pools);
    ListsCarried(h.bs, LinkStep(h, x).bs, h.heads, h.pools, h.nul);
    LiveFacts(h.bs);
    OneStoreFrame(h.mem, h.bs, h.pools, h.nul, Live(h.bs), b, x, b);
  }

  ghost function AbsorbStep(h: Heap, p: nat, b: nat): Heap
    requires Adjacent(h.bs, p, b)
  {
    h.(mem := AbsorbMem(h.mem, p, b), bs := Absorb(h.bs, p, b))
  }

  lemma AbsorbStepKeeps(h: Heap, p: nat, b: nat)
    requires Coherent(h) && Adjacent(h.bs, p, b) && h.bs[b].free && h.bs[p].node.Out? && h.bs[b].node.Out?
    ensures Coherent(AbsorbStep(h, p, b))
    ensures Live(AbsorbStep(h, p, b).bs) ==
            if h.bs[p].free then Live(h.bs) else Live(h.bs)[p := h.bs[p].size + 8 + h.bs[b].size]
  {
    AdjacentFacts(h.bs, h.pools, p, b);
    AbsorbGeometry(h.bs, h.pools, p, b);
    AbsorbEnc(h.mem, h.bs, h.pools, h.nul, p, b);
    AbsorbLive(h.bs, h.pools, p, b);
    ListsCarried(h.bs, Absorb(h.bs, p, b), h.heads, h.pools, h.nul);
  }

  lemma AbsorbStepPreserves(h: Heap, p: nat, b: nat)
    requires Coherent(h) && Adjacent(h.bs, p, b) && h.bs[b].free
    ensures Preserves(h, AbsorbStep(h, p, b), Live(h.bs))
  {
    LiveFacts(h.bs);
    AbsorbFrame(h.mem, h.bs, h.pools, h.nul, Live(h.bs), p, b);
  }

  // ------------------------------------------------------------ coalescing

  // What the header of the handled block tells about its predecessor.
  lemma PrevFreeFacts(h: Heap, b: nat)
    requires Coherent(h) && Shape(h.bs, b) && b in h.bs && h.bs[b].size > 0
    ensures IsPrevFree(h.mem, b) <==> h.bs[b].prevFree
    ensures h.bs[b].prevFree ==>
              var p := Load(h.mem, b);
              p in h.bs && Adjacent(h.bs, p, b) && h.bs[p].free && h.bs[p].node.In?
  {
    assert EncAt(h.mem, b, h.bs[b]) && AlignedAt(h.bs, b) && BlkAt(h.bs, h.pools, b) && ShapeAt(h.bs, b, b);
    HeaderReads(h.mem, h.bs, b);
    if h.bs[b].prevFree {
      assert ShapeAt(h.bs, b, h.bs[b].prev);
    }
  }

  lemma NextFreeFacts(h: Heap, b: nat)
    requires Coherent(h) && Shape(h.bs, b) && b in h.bs && h.bs[b].size > 0
    ensures var n := Next(h.bs, b);
            && n in h.bs && n != b && BlockNext(h.mem, b) == n
            && (IsFree(h.mem, n) <==> h.bs[n].free)
            && (h.bs[n].free ==> Adjacent(h.bs, b, n) && h.bs[n].node.In?)
  {
    var n := Next(h.bs, b);
    NeighbourFacts(h.bs, h.pools, b);
    assert EncAt(h.mem, b, h.bs[b]) && AlignedAt(h.bs, b) && EncAt(h.mem, n, h.bs[n]) && AlignedAt(h.bs, n);
    HeaderReads(h.mem, h.bs, b);
    HeaderReads(h.mem, h.bs, n);
    assert BlkAt(h.bs, h.pools, n) && ShapeAt(h.bs, b, n);
  }

  // h1 is h with block n out of its list.
  ghost predicate Removed(h: Heap, h1: Heap, n: nat) {
    && Coherent(h1) && Delisted(h.bs, h1.bs, n) && Live(h1.bs) == Live(h.bs) && Preserves(h, h1, Live(h.bs))
  }

  // block_merge_prev, when the predecessor p is free.
  lemma MergePrevResult(h: Heap, h1: Heap, p: nat, b: nat)
    requires Handling(h, b) && h.bs[b].free && Adjacent(h.bs, p, b) && h.bs[p].free && Removed(h, h1, p)
    ensures Adjacent(h1.bs, p, b)
    ensures var h2 := AbsorbStep(h1, p, b);
            && Handling(h2, p) && h2.bs[p].free && !h2.bs[p].prevFree
            && Live(h2.bs) == Live(h.bs) && Preserves(h, h2, Live(h.bs))
  {
    assert ShapeAt(h.bs, b, b);
    MergePrevShape(h.bs, h.pools, b, p, h1.bs);
    AbsorbStepKeeps(h1, p, b);
    AbsorbStepPreserves(h1, p, b);
    PreservesCompose(h, h1, AbsorbStep(h1, p, b), Live(h.bs));
  }

  // block_merge_next, when the successor n is free.
  lemma MergeNextResult(h: Heap, h1: Heap, b: nat, n: nat)
    requires Coherent(h) && Shape(h.bs, b) && Adjacent(h.bs, b, n) && h.bs[n].free && Removed(h, h1, n)
    ensures Adjacent(h1.bs, b, n)
    ensures var h2 := AbsorbStep(h1, b, n);
            && Handling(h2, b) && !h2.bs[Next(h2.bs, b)].free
            && h2.bs[b] == h.bs[b].(size := h.bs[b].size + 8 + h.bs[n].size)
            && Live(h2.bs) == (if h.bs[b].free then Live(h.bs) else Live(h.bs)[b := h2.bs[b].size])
            && Preserves(h, h2, Live(h.bs))
  {
    assert ShapeAt(h.bs, b, b);
    MergeNextShape(h.bs, h.pools, b, n, h1.bs);
    AbsorbStepKeeps(h1, b, n);
    AbsorbStepPreserves(h1, b, n);
    PreservesCompose(h, h1, AbsorbStep(h1, b, n), Live(h.bs));
  }

  // ------------------------------------------------------------------ trimming

  // The two parts of a split block.
  ghost predicate SplitOff(bs: Blks, b: nat, size: nat) {
    var r := b + 8 + size;
    b in bs && bs[b].size == size && r in bs && bs[r].prev == b
  }

  // What the header of a block says.
  lemma HandledFacts(h: Heap, b: nat)
    requires Coherent(h) && Shape(h.bs, b) && b in h.bs && h.bs[b].size > 0
    ensures BlockSize(h.mem, b) == h.bs[b].size && h.bs[b].node.Out?
    ensures forall size :: size % 8 == 0 && BLOCK_SIZE_MIN <= size && size + SIZEOF_BLOCK_HEADER <= h.bs[b].size
              ==> CanSplit(h, b, size)
  {
    NeighbourFacts(h.bs, h.pools, b);
    assert EncAt(h.mem, b, h.bs[b]) && AlignedAt(h.bs, b) && ShapeAt(h.bs, b, b);
    HeaderReads(h.mem, h.bs, b);
  }

  // The same for a live block between operations.
  lemma UsedFacts(h: Heap, b: nat)
    requires Valid(h) && b in Live(h.bs)
    ensures Shape(h.bs, b)
    ensures BlockSize(h.mem, b) == h.bs[b].size && h.bs[b].node.Out?
    ensures forall size :: size % 8 == 0 && BLOCK_SIZE_MIN <= size && size + SIZEOF_BLOCK_HEADER <= h.bs[b].size
              ==> CanSplit(h, b, size)
  {
    forall a | a in h.bs
      ensures ShapeAt(h.bs, b, a)
    {
      assert ShapeAt(h.bs, NO_BLOCK, a);
    }
    HandledFacts(h, b);
    assert ShapeAt(h.bs, b, b);
  }

  // Completing the header of the remainder after block_split.
  lemma SplitCompleted(bs: Blks, b: nat, size: nat, stale: bool)
    requires b in bs && Next(bs, b) in bs && bs[b].size >= size + SIZEOF_BLOCK_HEADER
    ensures var bs1, r := Split(bs, b, size, stale, false), b + 8 + size;
            && r in bs1 && bs1[r].prev == b && b in bs1 && Next(bs1, b) == r
            && bs1[b].free == bs[b].free && bs1[b].size == size
            && bs1[r := bs1[r].(linked := true, prevFree := true)] == Split(bs, b, size, true, true)
            && bs1[r := bs1[r].(prevFree := false)] == Split(bs, b, size, false, false)
  {
  }

  // Writing link and flag of the header of x, in either order.
  ghost function HeaderStep(h: Heap, x: nat): Heap
    requires x in h.bs && h.bs[x].prev >= 0
  {
    FlagStep(LinkStep(h, x), x, true)
  }

  lemma HeaderStepRecord(h: Heap, x: nat)
    requires x in h.bs && h.bs[x].prev >= 0
    ensures HeaderStep(h, x).bs == h.bs[x := h.bs[x].(linked := true, prevFree := true)]
  {
  }

  // The two writes go to different words, so their order does not matter.
  lemma HeaderStepOrder(h: Heap, x: nat)
    requires x in h.bs && h.bs[x].prev >= 0
    ensures LinkStep(FlagStep(h, x, true), x) == HeaderStep(h, x)
  {
    var r, p := h.bs[x].(prevFree := true), h.bs[x].prev;
    assert h.mem[x + 8 := SizeWord(r)][x := p] == h.mem[x := p][x + 8 := SizeWord(r)];
    assert h.bs[x := r][x := r.(linked := true)] == HeaderStep(h, x).bs;
  }

  lemma HeaderStepKeeps(h: Heap, b: nat)
    requires Coherent(h) && b in h.bs && h.bs[b].free && h.bs[b].size > 0 && Next(h.bs, b) in h.bs
    ensures h.bs[Next(h.bs, b)].prev == b
    ensures var h' := HeaderStep(h, Next(h.bs, b));
            Coherent(h') && Live(h'.bs) == Live(h.bs) && Preserves(h, h', Live(h.bs))
  {
    var x := Next(h.bs, b);
    LinkStepKeeps(h, b);
    FlagStepKeeps(LinkStep(h, x), x, true);
    FlagStepPreserves(LinkStep(h, x), x, true);
    PreservesCompose(h, LinkStep(h, x), HeaderStep(h, x), Live(h.bs));
  }

  // A free block split in two, with the header of the remainder complete.
  ghost function TrimmedStep(h: Heap, b: nat, size: nat): Heap
    requires CanSplit(h, b, size)
  {
    SplitCompleted(h.bs, b, size, StaleFlag(h.mem, b + 8 + size));
    HeaderStep(SplitStep(h, b, size), b + 8 + size)
  }

  lemma TrimmedStepRecord(h: Heap, b: nat, size: nat)
    requires CanSplit(h, b, size)
    ensures TrimmedStep(h, b, size).bs == Split(h.bs, b, size, true, true)
  {
    SplitCompleted(h.bs, b, size, StaleFlag(h.mem, b + 8 + size));
    HeaderStepRecord(SplitStep(h, b, size), b + 8 + size);
  }

  lemma TrimmedStepLive(h: Heap, b: nat, size: nat)
    requires CanSplit(h, b, size) && h.bs[b].free
    ensures Live(TrimmedStep(h, b, size).bs) == Live(h.bs)
  {
    TrimmedStepRecord(h, b, size);
    SplitLive(h.bs, h.pools, b, size, true, true);
  }

  // Both parts are free and in no list.
  lemma TrimmedParts(h: Heap, b: nat, size: nat)
    requires CanSplit(h, b, size) && h.bs[b].free
    ensures var bs', r := TrimmedStep(h, b, size).bs, b + 8 + size;
            && b in bs' && bs'[b] == h.bs[b].(size := size) && bs'[b].node.Out?
            && r in bs' && bs'[r].free && bs'[r].node.Out? && bs'[r].size == h.bs[b].size - size - 8
  {
    TrimmedStepRecord(h, b, size);
    SplitPointIsNew(h.bs, h.pools, b, size);
  }

  lemma TrimmedStepPreserves(h: Heap, b: nat, size: nat)
    requires CanSplit(h, b, size) && h.bs[b].free
    ensures Preserves(h, TrimmedStep(h, b, size), Live(h.bs))
  {
    var h1 := SplitStep(h, b, size);
    SplitCompleted(h.bs, b, size, StaleFlag(h.mem, b + 8 + size));
    SplitStepKeeps(h, b, size);
    SplitStepPreserves(h, b, size);
    HeaderStepKeeps(h1, b);
    PreservesCompose(h, h1, TrimmedStep(h, b, size), Live(h.bs));
  }

  // The tail of a used block, split off and flagged (block_trim_used).
  ghost function CutStep(h: Heap, b: nat, size: nat): Heap
    requires CanSplit(h, b, size)
  {
    SplitCompleted(h.bs, b, size, StaleFlag(h.mem, b + 8 + size));
    FlagStep(SplitStep(h, b, size), b + 8 + size, false)
  }

  lemma CutStepKeeps(h: Heap, b: nat, size: nat)
    requires CanSplit(h, b, size) && !h.bs[b].free
    ensures var h' := CutStep(h, b, size);
            && Coherent(h') && h'.bs == Split(h.bs, b, size, false, false)
            && Live(h'.bs) == Live(h.bs)[b := size] && Preserves(h, h', Live(h.bs)[b := size])
  {
    var h1, r := SplitStep(h, b, size), b + 8 + size;
    SplitCompleted(h.bs, b, size, StaleFlag(h.mem, r));
    SplitStepKeeps(h, b, size);
    SplitStepPreserves(h, b, size);
    FlagStepKeeps(h1, r, false);
    FlagStepPreserves(h1, r, false);
    PreservesCompose(h, h1, CutStep(h, b, size), Live(h.bs)[b := size]);
  }

  // h1 is h with block b put into list i.
  ghost predicate Filed1(h: Heap, h1: Heap, b: nat, i: ListIndex) {
    && Coherent(h1) && Enlisted(h.bs, h1.bs, b, i) && Live(h1.bs) == Live(h.bs) && Preserves(h, h1, Live(h.bs))
  }

  // block_trim_free, once the remainder is filed.
  lemma TrimFreeResult(h: Heap, h2: Heap, b: nat, size: nat, i: ListIndex)
    requires Handling(h, b) && h.bs[b].free && !h.bs[Next(h.bs, b)].free && CanSplit(h, b, size)
    requires Filed1(TrimmedStep(h, b, size), h2, b + 8 + size, i)
    ensures Handling(h2, b) && h2.bs[b] == h.bs[b].(size := size)
  {
    TrimmedStepRecord(h, b, size);
    TrimFreeShape(h.bs, h.pools, b, size, h2.bs, i);
  }

  // block_trim_free_leading, once the leading part is filed.
  lemma TrimLeadingResult(h: Heap, h2: Heap, b: nat, size: nat, i: ListIndex, r: nat, rest: nat)
    requires Handling(h, b) && h.bs[b].free && !h.bs[b].prevFree && !h.bs[Next(h.bs, b)].free && CanSplit(h, b, size)
    requires r == b + 8 + size && h.bs[b].size - size - 8 == rest
    requires Filed1(TrimmedStep(h, b, size), h2, b, i)
    ensures Handling(h2, r) && HandledBlock(h2.bs, r, rest)
  {
    TrimmedStepRecord(h, b, size);
    TrimLeadingShape(h.bs, h.pools, b, size, h2.bs, i, r, rest);
  }

  // Filing a part of a trimmed block touches no allocation.
  lemma TrimmedFiled(h: Heap, h2: Heap, b: nat, size: nat, x: nat, i: ListIndex)
    requires CanSplit(h, b, size) && h.bs[b].free && Filed1(TrimmedStep(h, b, size), h2, x, i)
    ensures Live(h2.bs) == Live(h.bs) && Preserves(h, h2, Live(h.bs))
  {
    TrimmedStepLive(h, b, size);
    TrimmedStepPreserves(h, b, size);
    PreservesCompose(h, TrimmedStep(h, b, size), h2, Live(h.bs));
  }

  // The handled block is filed and the operation is complete.
  lemma FiledResult(h: Heap, h1: Heap, b: nat, i: ListIndex)
    requires Handling(h, b) && h.bs[b].free && !h.bs[b].prevFree && !h.bs[Next(h.bs, b)].free
    requires Filed1(h, h1, b, i)
    ensures Valid(h1)
  {
    InsertShape(h.bs, h.pools, b, h1.bs, i);
  }

  // block_trim_used, after the tail has been cut off.
  lemma CutStepHandles(h: Heap, b: nat, size: nat)
    requires Valid(h) && CanSplit(h, b, size) && !h.bs[b].free
    ensures var h', r := CutStep(h, b, size), b + 8 + size;
            Handling(h', r) && h'.bs[r].free && !h'.bs[r].prevFree
  {
    CutStepKeeps(h, b, size);
    TrimUsedShape(h.bs, h.pools, b, size);
  }

  // b is free and handled, and its predecessor is in use.
  ghost predicate HandlingTail(h: Heap, b: nat) {
    Handling(h, b) && h.bs[b].free && !h.bs[b].prevFree
  }

  // ------------------------------------------------------------------- search

  // The head of a list is a free block of that list.
  lemma HeadFacts(h: Heap, i: ListIndex)
    requires Coherent(h) && InRange(i) && h.heads[i] != h.nul
    ensures var b := h.heads[i];
            b in h.bs && h.bs[b].node.In? && h.bs[b].node.idx == i && h.bs[b].free && h.bs[b].size > 0 && b != 0
            && i == MappingInsert(h.bs[b].size)
  {
    var b := h.heads[i];
    assert HeadAt(h.bs, h.heads, h.nul, i) && FiledAt(h.bs[b]);
    assert BlkAt(h.bs, h.pools, b) && PoolAt(h.pools, h.nul, h.bs[b].pool);
  }

  // A free block stands in a non-empty list, the one of its size.
  lemma FreeBlockListed(h: Heap, b: nat)
    requires Valid(h) && b in h.bs && h.bs[b].free
    ensures InRange(MappingInsert(h.bs[b].size)) && h.heads[MappingInsert(h.bs[b].size)] != h.nul
  {
    var i := MappingInsert(h.bs[b].size);
    UnlistedFacts(h, b);
    assert ShapeAt(h.bs, NO_BLOCK, b);
    assert FiledAt(h.bs[b]);
    FreeListMembers(h.bs, h.heads, h.nul, i, b);
  }

  // No free block reaches the rounded-up request.
  ghost predicate Exhausted(h: Heap, size: nat) {
    forall b :: b in h.bs && h.bs[b].free ==> h.bs[b].size < RoundUpForSearch(size)
  }

  // The payload that a live block could have where it is: its own, and its free
  // successor with the header between.
  ghost function RoomInPlace(h: Heap, b: nat): nat
    requires b in h.bs
  {
    var next := Next(h.bs, b);
    if next in h.bs && h.bs[next].free then h.bs[b].size + 8 + h.bs[next].size else h.bs[b].size
  }

  // If every list from the searched one on is empty, no block was large enough.
  lemma EmptyMeansExhausted(h: Heap, size: nat)
    requires Valid(h) && (size % 8 == 0 || size >= SMALL_BLOCK_SIZE)
    requires forall k :: InRange(k) && AtOrAfter(k, MappingSearch(size)) ==> h.heads[k] == h.nul
    ensures Exhausted(h, size)
  {
    forall b | b in h.bs && h.bs[b].free
      ensures h.bs[b].size < RoundUpForSearch(size)
    {
      FreeBlockListed(h, b);
      GoodFit(size, h.bs[b].size);
    }
  }

  // The block taken from its list becomes the handled block.
  lemma LocatedResult(h: Heap, h1: Heap, b: nat)
    requires Valid(h) && b in h.bs && h.bs[b].free && Removed(h, h1, b)
    ensures HandlingTail(h1, b) && HandledBlock(h1.bs, b, h.bs[b].size)
  {
    LocateShape(h.bs, h.pools, b, h1.bs);
  }

  // Blocks are 8-aligned and end below 2^64.
  lemma BlockRange(h: Heap, b: nat)
    requires Coherent(h) && b in h.bs && h.bs[b].size > 0
    ensures b % 8 == 0 && h.bs[b].size % 8 == 0 && b + 24 + h.bs[b].size <= U64_MOD
  {
    assert BlkAt(h.bs, h.pools, b) && AlignedAt(h.bs, b) && PoolAt(h.pools, h.nul, h.bs[b].pool);
  }

  lemma HeaderSize(h: Heap, b: nat)
    requires Coherent(h) && b in h.bs
    ensures BlockSize(h.mem, b) == h.bs[b].size
  {
    assert EncAt(h.mem, b, h.bs[b]) && AlignedAt(h.bs, b);
    HeaderReads(h.mem, h.bs, b);
  }
}
