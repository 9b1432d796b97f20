// How the allocator's physical operations change the block map, and that each
// keeps the heap geometry, the flags and the set of live allocations in order.
module TlsfSteps {
  import opened Bits
  import opened TlsfMapping
  import opened TlsfBlocks
  import opened TlsfLists

  // The allocations the client holds: address of the block, size of payload.
  ghost function Live(bs: Blks): map<nat, nat> {
    map a | a in bs && !bs[a].free && bs[a].size > 0 :: bs[a].size
  }

  ghost function Without(live: map<nat, nat>, a: nat): map<nat, nat> {
    live - {a}
  }

  ghost predicate SameGeometry(bs: Blks, bs': Blks) {
    && bs'.Keys == bs.Keys
    && forall a :: a in bs ==> bs'[a].size == bs[a].size && bs'[a].prev == bs[a].prev && bs'[a].pool == bs[a].pool
  }

  lemma GeometryKept(bs: Blks, bs': Blks, pools: Pools)
    requires Geo(bs, pools) && SameGeometry(bs, bs')
    ensures Geo(bs', pools)
  {
    forall a | a in bs'
      ensures BlkAt(bs', pools, a)
    {
      assert BlkAt(bs, pools, a);
    }
    forall a | a in bs'
      ensures AlignedAt(bs', a)
    {
      assert AlignedAt(bs, a);
    }
    forall a, b
      ensures Before(bs', a, b)
    {
      assert Before(bs, a, b);
    }
    forall p | p in pools
      ensures FirstAt(bs', p)
    {
      assert FirstAt(bs, p);
    }
  }

  lemma NeighbourFacts(bs: Blks, pools: Pools, b: nat)
    requires Geo(bs, pools) && b in bs && bs[b].size > 0
    ensures Next(bs, b) in bs && Next(bs, b) != b && bs[Next(bs, b)].prev == b
  {
    assert BlkAt(bs, pools, b);
  }

  // -------------------------------------------------------------- mark steps

  ghost function MarkFree(bs: Blks, b: nat): Blks
    requires b in bs && Next(bs, b) in bs && bs[b].size > 0
  {
    var n := Next(bs, b);
    bs[n := bs[n].(prevFree := true, linked := true)][b := bs[b].(free := true)]
  }

  ghost function MarkUsed(bs: Blks, b: nat): Blks
    requires b in bs && Next(bs, b) in bs && bs[b].size > 0
  {
    var n := Next(bs, b);
    bs[n := bs[n].(prevFree := false, linked := false)][b := bs[b].(free := false)]
  }

  lemma MarkFreeKeeps(bs: Blks, pools: Pools, b: nat)
    requires Geo(bs, pools) && Shape(bs, NO_BLOCK) && b in Live(bs)
    ensures Next(bs, b) in bs
    ensures Geo(MarkFree(bs, b), pools) && Shape(MarkFree(bs, b), b) && Armed(MarkFree(bs, b), b)
  {
    NeighbourFacts(bs, pools, b);
    GeometryKept(bs, MarkFree(bs, b), pools);
    forall a | a in bs
      ensures ShapeAt(MarkFree(bs, b), b, a)
    {
      assert ShapeAt(bs, NO_BLOCK, a) && BlkAt(bs, pools, a);
    }
    assert ShapeAt(bs, NO_BLOCK, b);
  }

  lemma MarkFreeLive(bs: Blks, pools: Pools, b: nat)
    requires Geo(bs, pools) && b in Live(bs)
    ensures Next(bs, b) in bs && Live(MarkFree(bs, b)) == Without(Live(bs), b)
  {
    NeighbourFacts(bs, pools, b);
  }

  lemma MarkUsedKeeps(bs: Blks, pools: Pools, b: nat)
    requires Geo(bs, pools) && Shape(bs, b) && Armed(bs, b)
    ensures Geo(MarkUsed(bs, b), pools) && Shape(MarkUsed(bs, b), NO_BLOCK)
  {
    NeighbourFacts(bs, pools, b);
    GeometryKept(bs, MarkUsed(bs, b), pools);
    forall a | a in bs
      ensures ShapeAt(MarkUsed(bs, b), NO_BLOCK, a)
    {
      assert ShapeAt(bs, b, a) && BlkAt(bs, pools, a);
    }
  }

  lemma MarkUsedLive(bs: Blks, pools: Pools, b: nat)
    requires Geo(bs, pools) && Armed(bs, b)
    ensures Live(MarkUsed(bs, b)) == Live(bs)[b := bs[b].size]
  {
    NeighbourFacts(bs, pools, b);
  }

  // ------------------------------------------------------------ split, absorb

  // b keeps size bytes; the rest becomes a free block with the given flags.
  ghost function Split(bs: Blks, b: nat, size: nat, prevFree: bool, linked: bool): Blks
    requires b in bs && Next(bs, b) in bs && bs[b].size >= size + SIZEOF_BLOCK_HEADER
  {
    var n, r := Next(bs, b), b + 8 + size;
    bs[n := bs[n].(prev := r, prevFree := true, linked := true)]
      [b := bs[b].(size := size)]
      [r := Blk(bs[b].size - size - 8, true, prevFree, b, linked, Out, bs[b].pool)]
  }

  lemma SplitPointIsNew(bs: Blks, pools: Pools, b: nat, size: nat)
    requires Geo(bs, pools) && b in bs && bs[b].size >= size + SIZEOF_BLOCK_HEADER
    ensures b + 8 + size !in bs && Next(bs, b) in bs && b < b + 8 + size < Next(bs, b)
  {
    assert BlkAt(bs, pools, b);
    assert Before(bs, b, b + 8 + size);
  }

  lemma SplitBlkAt(bs: Blks, pools: Pools, b: nat, size: nat, pf: bool, lk: bool, a: nat)
    requires Geo(bs, pools) && b in bs && bs[b].size >= size + SIZEOF_BLOCK_HEADER
    requires size >= BLOCK_SIZE_MIN && Next(bs, b) in bs
    requires a in Split(bs, b, size, pf, lk)
    ensures BlkAt(Split(bs, b, size, pf, lk), pools, a)
  {
    var n, r := Next(bs, b), b + 8 + size;
    SplitPointIsNew(bs, pools, b, size);
    assert BlkAt(bs, pools, b);
    if a == r {
    } else if a == b {
      assert bs[b].prev != n by { if bs[b].prev >= 0 { assert Before(bs, b, bs[b].prev); } }
    } else {
      assert BlkAt(bs, pools, a);
      if a == n {
      } else {
        assert bs[a].size > 0 ==> a + 8 + bs[a].size != n;
        assert bs[a].prev != b;
      }
    }
  }

  lemma SplitAlignedAt(bs: Blks, pools: Pools, b: nat, size: nat, pf: bool, lk: bool, a: nat)
    requires Geo(bs, pools) && b in bs && bs[b].size >= size + SIZEOF_BLOCK_HEADER
    requires size % 8 == 0 && Next(bs, b) in bs && a in Split(bs, b, size, pf, lk)
    ensures AlignedAt(Split(bs, b, size, pf, lk), a)
  {
    assert AlignedAt(bs, b);
    if a in bs { assert AlignedAt(bs, a); }
  }

  lemma SplitBefore(bs: Blks, pools: Pools, b: nat, size: nat, pf: bool, lk: bool, x: nat, y: nat)
    requires Geo(bs, pools) && b in bs && bs[b].size >= size + SIZEOF_BLOCK_HEADER && Next(bs, b) in bs
    ensures Before(Split(bs, b, size, pf, lk), x, y)
  {
    SplitPointIsNew(bs, pools, b, size);
    assert Before(bs, x, y) && Before(bs, b, y) && Before(bs, x, b) && Before(bs, b, x);
  }

  lemma SplitGeometry(bs: Blks, pools: Pools, b: nat, size: nat, pf: bool, lk: bool)
    requires Geo(bs, pools) && b in bs && bs[b].size >= size + SIZEOF_BLOCK_HEADER
    requires size % 8 == 0 && size >= BLOCK_SIZE_MIN && Next(bs, b) in bs
    ensures Geo(Split(bs, b, size, pf, lk), pools)
  {
    hide FlipBit5, InRange, MappingInsert;
    var bs' := Split(bs, b, size, pf, lk);
    forall a | a in bs'
      ensures BlkAt(bs', pools, a)
    {
      SplitBlkAt(bs, pools, b, size, pf, lk, a);
    }
    forall a | a in bs'
      ensures AlignedAt(bs', a)
    {
      SplitAlignedAt(bs, pools, b, size, pf, lk, a);
    }
    forall x, y
      ensures Before(bs', x, y)
    {
      SplitBefore(bs, pools, b, size, pf, lk, x, y);
    }
    forall p | p in pools
      ensures FirstAt(bs', p)
    {
      SplitPointIsNew(bs, pools, b, size);
      assert FirstAt(bs, p);
    }
  }

  // A free block of the given size whose successor is in use.
  ghost predicate HandledBlock(bs: Blks, b: nat, size: nat) {
    b in bs && bs[b].free && bs[b].size == size && Next(bs, b) in bs && !bs[Next(bs, b)].free
  }

  // block_trim_free: the tail of the free block x = b goes into a list.
  lemma TrimFreeShape(bs: Blks, pools: Pools, b: nat, size: nat, bs': Blks, i: ListIndex)
    requires Geo(bs, pools) && Shape(bs, b) && Armed(bs, b) && bs[b].free && !bs[Next(bs, b)].free
    requires bs[b].size >= size + SIZEOF_BLOCK_HEADER
    requires size % 8 == 0 && size >= BLOCK_SIZE_MIN
    requires Enlisted(Split(bs, b, size, true, true), bs', b + 8 + size, i)
    ensures Shape(bs', b) && Armed(bs', b)
  {
    SplitPointIsNew(bs, pools, b, size);
    assert BlkAt(bs, pools, b);
    forall a | a in bs'
      ensures ShapeAt(bs', b, a)
    {
      if a in bs { assert ShapeAt(bs, b, a) && BlkAt(bs, pools, a); }
    }
  }

  // block_trim_free_leading: the head of x = b goes into a list, the tail is
  // the block to hand out.
  lemma TrimLeadingShape(bs: Blks, pools: Pools, b: nat, size: nat, bs': Blks, i: ListIndex, r: nat, rest: nat)
    requires Geo(bs, pools) && Shape(bs, b) && Armed(bs, b)
    requires bs[b].free && !bs[Next(bs, b)].free && !bs[b].prevFree
    requires bs[b].size >= size + SIZEOF_BLOCK_HEADER
    requires size % 8 == 0 && size >= BLOCK_SIZE_MIN
    requires r == b + 8 + size && rest == bs[b].size - size - 8
    requires Enlisted(Split(bs, b, size, true, true), bs', b, i)
    ensures Shape(bs', r) && Armed(bs', r) && HandledBlock(bs', r, rest)
  {
    SplitPointIsNew(bs, pools, b, size);
    assert BlkAt(bs, pools, b);
    forall a | a in bs'
      ensures ShapeAt(bs', r, a)
    {
      if a in bs { assert ShapeAt(bs, b, a) && BlkAt(bs, pools, a); }
    }
  }

  // block_trim_used: the tail of the used block b is cut off and handled next.
  lemma TrimUsedShape(bs: Blks, pools: Pools, b: nat, size: nat)
    requires Geo(bs, pools) && Shape(bs, NO_BLOCK) && b in bs && !bs[b].free
    requires bs[b].size >= size + SIZEOF_BLOCK_HEADER
    requires size % 8 == 0 && size >= BLOCK_SIZE_MIN && Next(bs, b) in bs
    ensures var bs', r := Split(bs, b, size, false, false), b + 8 + size;
            Shape(bs', r) && Armed(bs', r) && bs'[r].free && !bs'[r].prevFree
  {
    var bs', r := Split(bs, b, size, false, false), b + 8 + size;
    SplitPointIsNew(bs, pools, b, size);
    assert BlkAt(bs, pools, b);
    forall a | a in bs'
      ensures ShapeAt(bs', r, a)
    {
      if a in bs { assert ShapeAt(bs, NO_BLOCK, a) && BlkAt(bs, pools, a); }
    }
  }

  // block_absorb: p takes over the storage of its successor b.
  ghost function Absorb(bs: Blks, p: nat, b: nat): Blks
    requires p in bs && b in bs && Next(bs, b) in bs
  {
    var n := Next(bs, b);
    (bs - {b})[n := bs[n].(prev := p, linked := true)][p := bs[p].(size := bs[p].size + 8 + bs[b].size)]
  }

  ghost predicate Adjacent(bs: Blks, p: nat, b: nat) {
    p in bs && b in bs && bs[p].size > 0 && bs[b].size > 0 && Next(bs, p) == b && Next(bs, b) in bs
  }

  lemma AdjacentFacts(bs: Blks, pools: Pools, p: nat, b: nat)
    requires Geo(bs, pools) && p in bs && bs[p].size > 0 && b == Next(bs, p) && b in bs && bs[b].size > 0
    ensures Adjacent(bs, p, b) && p < b < Next(bs, b)
    ensures bs[b].prev == p && bs[Next(bs, b)].prev == b
    ensures bs[p].size + 8 + bs[b].size < BLOCK_SIZE_MAX || bs[p].pool !in pools || pools[bs[p].pool] >= BLOCK_SIZE_MAX
  {
    assert BlkAt(bs, pools, p) && BlkAt(bs, pools, b);
  }

  lemma AbsorbBlkAt(bs: Blks, pools: Pools, p: nat, b: nat, a: nat)
    requires Geo(bs, pools) && Adjacent(bs, p, b) && a in Absorb(bs, p, b)
    ensures BlkAt(Absorb(bs, p, b), pools, a)
  {
    var n := Next(bs, b);
    AdjacentFacts(bs, pools, p, b);
    assert BlkAt(bs, pools, a) && BlkAt(bs, pools, p) && BlkAt(bs, pools, b);
    if a == n {
      assert BlkAt(bs, pools, n);
    } else if a == p {
      assert bs[p].prev != b && bs[p].prev != n;
    } else {
      assert bs[a].prev != b && bs[a].prev != p;
      assert bs[a].size > 0 ==> Next(bs, a) != b && Next(bs, a) != n;
    }
  }

  lemma AbsorbBefore(bs: Blks, pools: Pools, p: nat, b: nat, x: nat, y: nat)
    requires Geo(bs, pools) && Adjacent(bs, p, b)
    ensures Before(Absorb(bs, p, b), x, y)
  {
    AdjacentFacts(bs, pools, p, b);
    assert Before(bs, x, y) && Before(bs, b, y) && Before(bs, y, b);
  }

  lemma AbsorbAlignedAt(bs: Blks, pools: Pools, p: nat, b: nat, a: nat)
    requires Geo(bs, pools) && Adjacent(bs, p, b) && a in Absorb(bs, p, b)
    ensures AlignedAt(Absorb(bs, p, b), a)
  {
    assert AlignedAt(bs, p) && AlignedAt(bs, b) && AlignedAt(bs, Next(bs, b));
    if a in bs { assert AlignedAt(bs, a); }
  }

  lemma AbsorbFirstAt(bs: Blks, pools: Pools, p: nat, b: nat, q: nat)
    requires Geo(bs, pools) && Adjacent(bs, p, b) && q in pools
    ensures FirstAt(Absorb(bs, p, b), q)
  {
    AdjacentFacts(bs, pools, p, b);
    assert FirstAt(bs, q) && BlkAt(bs, pools, b);
  }

  lemma AbsorbGeometry(bs: Blks, pools: Pools, p: nat, b: nat)
    requires Geo(bs, pools) && Adjacent(bs, p, b)
    ensures Geo(Absorb(bs, p, b), pools)
  {
    var bs' := Absorb(bs, p, b);
    forall a | a in bs'
      ensures BlkAt(bs', pools, a)
    {
      AbsorbBlkAt(bs, pools, p, b, a);
    }
    forall a | a in bs'
      ensures AlignedAt(bs', a)
    {
      AbsorbAlignedAt(bs, pools, p, b, a);
    }
    forall x, y
      ensures Before(bs', x, y)
    {
      AbsorbBefore(bs, pools, p, b, x, y);
    }
    forall q | q in pools
      ensures FirstAt(bs', q)
    {
      AbsorbFirstAt(bs, pools, p, b, q);
    }
  }

  // block_merge_prev: the free predecessor leaves its list and absorbs x = b.
  lemma MergePrevShape(bs: Blks, pools: Pools, b: nat, p: nat, bs1: Blks)
    requires Geo(bs, pools) && Shape(bs, b) && Armed(bs, b) && bs[b].free
    requires p in bs && bs[p].free && Adjacent(bs, p, b) && Delisted(bs, bs1, p)
    ensures Adjacent(bs1, p, b)
    ensures var bs' := Absorb(bs1, p, b);
            Shape(bs', p) && Armed(bs', p) && bs'[p].free && !bs'[p].prevFree
  {
    var bs', n := Absorb(bs1, p, b), Next(bs, b);
    AdjacentFacts(bs, pools, p, b);
    assert ShapeAt(bs, b, p);
    if bs[p].prev >= 0 { assert BlkAt(bs, pools, p) && ShapeAt(bs, b, bs[p].prev); } else { assert BlkAt(bs, pools, p); }
    forall a | a in bs'
      ensures ShapeAt(bs', p, a)
    {
      assert ShapeAt(bs, b, a) && BlkAt(bs, pools, a) && BlkAt(bs, pools, b);
    }
  }

  // block_merge_next: x = b absorbs its free successor n.
  lemma MergeNextShape(bs: Blks, pools: Pools, b: nat, n: nat, bs1: Blks)
    requires Geo(bs, pools) && Shape(bs, b)
    requires n in bs && bs[n].free && Adjacent(bs, b, n) && Delisted(bs, bs1, n)
    ensures Adjacent(bs1, b, n)
    ensures var bs' := Absorb(bs1, b, n);
            Shape(bs', b) && Armed(bs', b) && !bs'[Next(bs', b)].free
  {
    var bs' := Absorb(bs1, b, n);
    AdjacentFacts(bs, pools, b, n);
    assert ShapeAt(bs, b, n) && ShapeAt(bs, b, b);
    forall a | a in bs'
      ensures ShapeAt(bs', b, a)
    {
      assert ShapeAt(bs, b, a) && BlkAt(bs, pools, a) && BlkAt(bs, pools, n);
    }
  }

  // ----------------------------------------------------------- list and shape

  // Filing the handled block, whose neighbours are in use, completes the heap.
  lemma InsertShape(bs: Blks, pools: Pools, b: nat, bs': Blks, i: ListIndex)
    requires Geo(bs, pools) && Shape(bs, b) && Armed(bs, b)
    requires bs[b].free && !bs[b].prevFree && !bs[Next(bs, b)].free
    requires Enlisted(bs, bs', b, i)
    ensures Shape(bs', NO_BLOCK)
  {
    forall a | a in bs'
      ensures ShapeAt(bs', NO_BLOCK, a)
    {
      assert ShapeAt(bs, b, a) && BlkAt(bs, pools, a);
    }
  }

  // Taking a free block out of its list makes it the handled block.
  lemma LocateShape(bs: Blks, pools: Pools, b: nat, bs': Blks)
    requires Geo(bs, pools) && Shape(bs, NO_BLOCK) && b in bs && bs[b].free
    requires Delisted(bs, bs', b)
    ensures Shape(bs', b) && Armed(bs', b) && bs'[b].free && !bs'[b].prevFree && !bs'[Next(bs', b)].free
  {
    assert ShapeAt(bs, NO_BLOCK, b) && BlkAt(bs, pools, b);
    if bs[b].prev >= 0 { assert ShapeAt(bs, NO_BLOCK, bs[b].prev); }
    forall a | a in bs'
      ensures ShapeAt(bs', b, a)
    {
      assert ShapeAt(bs, NO_BLOCK, a);
    }
  }

  lemma PhysicalGeometry(bs: Blks, bs': Blks, pools: Pools)
    requires Geo(bs, pools) && SamePhysical(bs, bs')
    ensures Geo(bs', pools) && Live(bs') == Live(bs)
  {
    GeometryKept(bs, bs', pools);
  }

  // ------------------------------------------------- lists under other steps

  // Listed blocks are untouched from bs to bs'.
  ghost predicate SameListing(bs: Blks, bs': Blks) {
    && (forall a {:trigger bs'[a]} :: a in bs' && bs'[a].node.In? ==>
          a in bs && bs[a].node == bs'[a].node && bs[a].size == bs'[a].size && bs[a].free == bs'[a].free)
    && (forall a {:trigger bs[a]} :: a in bs && bs[a].node.In? ==> a in bs' && bs'[a].node.In?)
  }

  lemma ListsCarried(bs: Blks, bs': Blks, heads: Heads, pools: Pools, nul: nat)
    requires Lists(bs, heads, nul) && Filed(bs) && SameListing(bs, bs')
    requires Geo(bs', pools) && PoolsOk(pools, nul)
    ensures Lists(bs', heads, nul) && Filed(bs')
  {
    if nul in bs' { HeaderInPool(bs', pools, nul, nul); }
    forall a | a in bs'
      ensures ListAt(bs', heads, nul, a) && FiledAt(bs'[a])
    {
      if bs'[a].node.In? { assert ListAt(bs, heads, nul, a) && FiledAt(bs[a]); }
    }
    forall i | InRange(i)
      ensures HeadAt(bs', heads, nul, i)
    {
      assert HeadAt(bs, heads, nul, i);
    }
  }

  lemma DelistedFiled(bs: Blks, bs': Blks, b: nat)
    requires Filed(bs) && Delisted(bs, bs', b)
    ensures Filed(bs')
  {
    forall a | a in bs'
      ensures FiledAt(bs'[a])
    {
      assert FiledAt(bs[a]);
    }
  }

  lemma EnlistedFiled(bs: Blks, bs': Blks, b: nat, i: ListIndex)
    requires Filed(bs) && Enlisted(bs, bs', b, i) && b in bs && bs[b].free && bs[b].size > 0 && i == MappingInsert(bs[b].size)
    ensures Filed(bs')
  {
    forall a | a in bs'
      ensures FiledAt(bs'[a])
    {
      assert FiledAt(bs[a]);
    }
  }

  // Live allocations are never listed, and occupy their blocks.
  lemma LiveFacts(bs: Blks)
    requires Filed(bs)
    ensures forall a {:trigger a in Live(bs)} :: a in Live(bs) ==> a in bs && bs[a].node.Out? && bs[a].size == Live(bs)[a]
  {
    forall a | a in Live(bs)
      ensures bs[a].node.Out?
    {
      assert FiledAt(bs[a]);
    }
  }

  lemma SplitLive(bs: Blks, pools: Pools, b: nat, size: nat, pf: bool, lk: bool)
    requires Geo(bs, pools) && b in bs && bs[b].size >= size + SIZEOF_BLOCK_HEADER && Next(bs, b) in bs && size > 0
    ensures Live(Split(bs, b, size, pf, lk)) == if bs[b].free then Live(bs) else Live(bs)[b := size]
  {
    SplitPointIsNew(bs, pools, b, size);
  }

  lemma AbsorbLive(bs: Blks, pools: Pools, p: nat, b: nat)
    requires Geo(bs, pools) && Adjacent(bs, p, b) && bs[b].free
    ensures Live(Absorb(bs, p, b)) == if bs[p].free then Live(bs) else Live(bs)[p := bs[p].size + 8 + bs[b].size]
  {
    AdjacentFacts(bs, pools, p, b);
  }
}
