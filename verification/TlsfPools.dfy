// Adding a pool to the heap, and walking one.
module TlsfPools {
  import opened Bits
  import opened TlsfMapping
  import opened TlsfBlocks
  import opened TlsfLists
  import opened TlsfSteps
  import opened TlsfMemory
  import opened TlsfBitmaps
  import opened TlsfHeap

  // The region of a pool whose first block is at p may join the heap.
  predicate RegionFree(pools: Pools, nul: nat, p: nat, total: nat) {
    && p > 0 && p + total + 24 <= U64_MOD
    && (p + total + 24 <= nul || nul + CONTROL_SIZE <= p + 8)
    && forall q {:trigger q in pools} :: q in pools ==> PoolEnd(pools, q) + 16 <= p + 8 || p + total + 24 <= q + 8
  }

  ghost predicate NewPool(h: Heap, p: nat, total: nat) {
    && Valid(h) && RegionFree(h.pools, h.nul, p, total)
    && p % 8 == 0 && total % 8 == 0 && BLOCK_SIZE_MIN <= total < BLOCK_SIZE_MAX
  }

  ghost function PoolBlks(bs: Blks, p: nat, total: nat): Blks {
    bs[p := Blk(total, true, false, NO_BLOCK, false, Out, p)]
      [p + 8 + total := Blk(0, false, true, p, true, Out, p)]
  }

  // The three words tlsf_add_pool writes for the block and its sentinel.
  function PoolMem(m: Mem, p: nat, total: nat): Mem {
    m[p + 8 := total + 1][p + 8 + total := p][p + 16 + total := 2]
  }

  ghost function PoolStep(h: Heap, p: nat, total: nat): Heap {
    h.(mem := PoolMem(h.mem, p, total), bs := PoolBlks(h.bs, p, total), pools := h.pools[p := total])
  }

  // Each word ends up the same whatever flags the memory held before.
  lemma FreshHeaders(m: Mem, b: nat, size: nat)
    requires size % 8 == 0
    ensures SetPrevUsed(SetFree(SetSize(m, b, size), b), b) == Store(m, b + 8, size + 1)
    ensures SetPrevFree(SetUsed(SetSize(m, b, 0), b), b) == Store(m, b + 8, 2)
  {
    var w := Load(m, b + 8) % 4;
    FlagsOf(Load(m, b + 8));
    FreshWords(size, w);
  }

  lemma FreshWords(size: nat, w: nat)
    requires size % 8 == 0 && w < 4
    ensures var f := if (size + w) % 2 == 1 then size + w else size + w + 1;
            (if f / 2 % 2 == 1 then f - 2 else f) == size + 1
    ensures var u := if w % 2 == 1 then w - 1 else w;
            (if u / 2 % 2 == 1 then u else u + 2) == 2
  {
  }

  // The stores of insert_free_block and those for the sentinel go to different
  // words, so writing the sentinel first gives the same memory.
  lemma SentinelOrder(m: Mem, nul: nat, p: nat, total: nat, current: nat)
    requires total >= BLOCK_SIZE_MIN
    requires current + 24 != p + 8 + total && current + 24 != p + 16 + total
    ensures Attach(m, nul, p, current)[p + 8 + total := p][p + 16 + total := 2] ==
            Attach(m[p + 8 + total := p][p + 16 + total := 2], nul, p, current)
  {
  }

  lemma OldBlockOutside(h: Heap, p: nat, total: nat, a: nat)
    requires NewPool(h, p, total) && a in h.bs
    ensures a + 16 <= p + 8 || p + total + 24 <= a + 8
    ensures h.bs[a].prev >= 0 ==> a + 8 <= p + 8 || p + total + 24 <= a
    ensures a + 8 + h.bs[a].size <= p || p + total + 16 <= a
    ensures h.bs[a].size > 0 ==> a + 32 <= p + 8 || p + total + 24 <= a + 8
    ensures h.bs[a].pool != p
  {
    assert BlkAt(h.bs, h.pools, a);
    assert h.bs[a].pool in h.pools;
    if h.bs[a].prev >= 0 { assert BlkAt(h.bs, h.pools, h.bs[a].prev); }
  }

  lemma PoolGeometry(h: Heap, p: nat, total: nat)
    requires NewPool(h, p, total)
    ensures Geo(PoolBlks(h.bs, p, total), h.pools[p := total])
  {
    var bs', pools' := PoolBlks(h.bs, p, total), h.pools[p := total];
    forall a | a in bs'
      ensures BlkAt(bs', pools', a) && AlignedAt(bs', a)
    {
      PoolBlkAt(h, p, total, a);
    }
    forall x, y
      ensures Before(bs', x, y)
    {
      assert Before(h.bs, x, y);
      if x in h.bs { OldBlockOutside(h, p, total, x); }
      if y in h.bs { OldBlockOutside(h, p, total, y); }
    }
    forall q | q in pools'
      ensures FirstAt(bs', q)
    {
      if q in h.pools {
        assert FirstAt(h.bs, q);
        OldBlockOutside(h, p, total, q);
      }
    }
  }

  lemma PoolBlkAt(h: Heap, p: nat, total: nat, a: nat)
    requires NewPool(h, p, total) && a in PoolBlks(h.bs, p, total)
    ensures BlkAt(PoolBlks(h.bs, p, total), h.pools[p := total], a) && AlignedAt(PoolBlks(h.bs, p, total), a)
  {
    var e := p + 8 + total;
    if a in h.bs && a != p && a != e {
      assert BlkAt(h.bs, h.pools, a) && AlignedAt(h.bs, a);
      OldBlockOutside(h, p, total, a);
      if h.bs[a].size > 0 { OldBlockOutside(h, p, total, Next(h.bs, a)); }
      if h.bs[a].prev >= 0 { OldBlockOutside(h, p, total, h.bs[a].prev); }
    }
  }

  lemma PoolsExtend(h: Heap, p: nat, total: nat)
    requires NewPool(h, p, total)
    ensures PoolsOk(h.pools[p := total], h.nul) && p !in h.bs && p + 8 + total !in h.bs && p !in h.pools
  {
    var pools' := h.pools[p := total];
    if p in h.bs { OldBlockOutside(h, p, total, p); }
    if p + 8 + total in h.bs { OldBlockOutside(h, p, total, p + 8 + total); }
    forall q | q in pools'
      ensures PoolAt(pools', h.nul, q)
    {
      if q != p { assert PoolAt(h.pools, h.nul, q); }
    }
  }

  lemma PoolEnc(h: Heap, p: nat, total: nat)
    requires NewPool(h, p, total)
    ensures Enc(PoolMem(h.mem, p, total), PoolBlks(h.bs, p, total))
  {
    PoolsExtend(h, p, total);
    forall a | a in PoolBlks(h.bs, p, total)
      ensures EncAt(PoolMem(h.mem, p, total), a, PoolBlks(h.bs, p, total)[a])
    {
      if a in h.bs {
        assert EncAt(h.mem, a, h.bs[a]);
        OldBlockOutside(h, p, total, a);
      }
    }
  }

  lemma PoolShape(h: Heap, p: nat, total: nat)
    requires NewPool(h, p, total)
    ensures Shape(PoolBlks(h.bs, p, total), p) && Armed(PoolBlks(h.bs, p, total), p)
  {
    PoolsExtend(h, p, total);
    forall a | a in PoolBlks(h.bs, p, total)
      ensures ShapeAt(PoolBlks(h.bs, p, total), p, a)
    {
      if a in h.bs {
        assert ShapeAt(h.bs, NO_BLOCK, a) && BlkAt(h.bs, h.pools, a);
      }
    }
  }

  // The new pool is one free block, handled next by block_insert.
  lemma PoolStepKeeps(h: Heap, p: nat, total: nat)
    requires NewPool(h, p, total)
    ensures HandlingTail(PoolStep(h, p, total), p) && HandledBlock(PoolStep(h, p, total).bs, p, total)
    ensures Live(PoolStep(h, p, total).bs) == Live(h.bs)
  {
    PoolsExtend(h, p, total);
    PoolGeometry(h, p, total);
    PoolEnc(h, p, total);
    PoolShape(h, p, total);
    ListsCarried(h.bs, PoolBlks(h.bs, p, total), h.heads, h.pools[p := total], h.nul);
  }

  // No word outside the new region changes.
  lemma PoolFrame(h: Heap, p: nat, total: nat)
    requires NewPool(h, p, total)
    ensures Frame(h.mem, PoolMem(h.mem, p, total), Live(h.bs), h.pools[p := total], h.nul)
  {
    forall w: nat | Protected(Live(h.bs), h.pools[p := total], h.nul, w)
      ensures Load(PoolMem(h.mem, p, total), w) == Load(h.mem, w)
    {
      if !Outside(h.pools[p := total], h.nul, w) {
        var a :| a in Live(h.bs) && a + 16 <= w < a + 16 + Live(h.bs)[a];
        OldBlockOutside(h, p, total, a);
        assert BlkAt(h.bs, h.pools, a);
        assert h.bs[a].pool in h.pools;
      } else {
        assert p in h.pools[p := total];
      }
    }
  }

  // Filing the new pool's block in list i.
  lemma FiledPool(h: Heap, p: nat, total: nat, i: ListIndex)
    requires NewPool(h, p, total) && i == MappingInsert(total)
    ensures InRange(i) && i in h.heads && |h.sl| == FL_INDEX_COUNT && h.fl < U32_MOD && h.sl[i.fl] < U32_MOD
    ensures var h1 := PoolStep(h, p, total);
            && p in h1.bs && HeadsOk(h1.heads) && |h1.sl| == FL_INDEX_COUNT
            && Valid(InsertStep(h1, p, i)) && Live(InsertStep(h1, p, i).bs) == Live(h.bs)
            && Frame(h.mem, InsertStep(h1, p, i).mem, Live(h.bs), h1.pools, h.nul)
            && p in InsertStep(h1, p, i).bs && InsertStep(h1, p, i).bs[p].free && InsertStep(h1, p, i).bs[p].size == total
  {
    var h1 := PoolStep(h, p, total);
    PoolStepKeeps(h, p, total);
    PoolFrame(h, p, total);
    UnlistedFacts(h1, p);
    MappingInRange(total);
    InsertKeeps(h1, p, i);
    InsertPreserves(h1, p, i);
    FiledResult(h1, InsertStep(h1, p, i), p, i);
    FrameCompose(h.mem, h1.mem, InsertStep(h1, p, i).mem, Live(h.bs), h1.pools, h.nul);
  }

  // The fields of the state with the filed pool.
  lemma FiledPoolState(h: Heap, p: nat, total: nat, i: ListIndex)
    requires NewPool(h, p, total) && i == MappingInsert(total) && InRange(i) && i in h.heads
    requires i.fl < |h.sl| == FL_INDEX_COUNT && h.fl < U32_MOD && h.sl[i.fl] < U32_MOD
    ensures var h1 := PoolStep(h, p, total);
            && p in h1.bs && HeadsOk(h1.heads)
            && InsertStep(h1, p, i) == Heap(
              Attach(PoolMem(h.mem, p, total), h.nul, p, h.heads[i]), SetBit(h.fl, i.fl),
              h.sl[i.fl := SetBit(h.sl[i.fl], i.sl)], h.heads[i := p], InsertStep(h1, p, i).bs, h.pools[p := total], h.nul)
  {
  }

  // The memory that tlsf_add_pool leaves, in the order of its stores.
  lemma PoolStores(h: Heap, p: nat, total: nat, i: ListIndex)
    requires NewPool(h, p, total) && i == MappingInsert(total) && InRange(i) && i in h.heads
    ensures var filed := Attach(Store(h.mem, p + 8, total + 1), h.nul, p, h.heads[i]);
            && Load(filed, p + 8) == total + 1
            && filed[p + 8 + total := p][p + 16 + total := 2] == Attach(PoolMem(h.mem, p, total), h.nul, p, h.heads[i])
  {
    var current := h.heads[i];
    assert HeadAt(h.bs, h.heads, h.nul, i);
    if current != h.nul {
      assert FiledAt(h.bs[current]);
      OldBlockOutside(h, p, total, current);
    }
    SentinelOrder(Store(h.mem, p + 8, total + 1), h.nul, p, total, current);
  }

  // ------------------------------------------------------------------- tiling

  ghost function Ahead(bs: Blks, pools: Pools, a: nat): int {
    if a in bs && bs[a].pool in pools then PoolEnd(pools, bs[a].pool) + 1 - a else 0
  }

  // The blocks met by walking from a to the sentinel of its pool.
  ghost function Walk(bs: Blks, pools: Pools, a: nat): seq<nat>
    requires Geo(bs, pools) && a in bs
    decreases Ahead(bs, pools, a)
  {
    assert BlkAt(bs, pools, a);
    if bs[a].size == 0 then [a] else [a] + Walk(bs, pools, Next(bs, a))
  }

  // Payload bytes and size fields met on the way.
  ghost function Extent(bs: Blks, walk: seq<nat>): nat
    requires forall k :: 0 <= k < |walk| ==> walk[k] in bs
  {
    if walk == [] then 0 else 8 + bs[walk[0]].size + Extent(bs, walk[1..])
  }

  // A walk stays in its pool, goes from each block to the address where it
  // ends, and stops at the sentinel.
  lemma {:induction false} WalkShape(bs: Blks, pools: Pools, a: nat)
    requires Geo(bs, pools) && a in bs
    ensures var w := Walk(bs, pools, a);
            && bs[a].pool in pools && |w| > 0 && w[0] == a && w[|w| - 1] == PoolEnd(pools, bs[a].pool)
            && (forall k :: 0 <= k < |w| ==> w[k] in bs && bs[w[k]].pool == bs[a].pool)
            && (forall k {:trigger w[k]} :: 0 <= k < |w| - 1 ==> bs[w[k]].size > 0 && w[k + 1] == Next(bs, w[k]))
    decreases Ahead(bs, pools, a)
  {
    assert BlkAt(bs, pools, a);
    if bs[a].size > 0 {
      WalkShape(bs, pools, Next(bs, a));
      var w, w' := Walk(bs, pools, a), Walk(bs, pools, Next(bs, a));
      forall k | 0 <= k < |w| - 1
        ensures bs[w[k]].size > 0 && w[k + 1] == Next(bs, w[k])
      {
        if k > 0 { assert w[k] == w'[k - 1] && w[k + 1] == w'[k]; }
      }
    }
  }

  // Sizes and headers add up to the distance to the end of the pool.
  lemma {:induction false} WalkExtent(bs: Blks, pools: Pools, a: nat)
    requires Geo(bs, pools) && a in bs && bs[a].pool in pools
    requires forall k :: 0 <= k < |Walk(bs, pools, a)| ==> Walk(bs, pools, a)[k] in bs
    ensures a + Extent(bs, Walk(bs, pools, a)) == PoolEnd(pools, bs[a].pool) + 8
    decreases Ahead(bs, pools, a)
  {
    assert BlkAt(bs, pools, a);
    if bs[a].size > 0 {
      var w, w' := Walk(bs, pools, a), Walk(bs, pools, Next(bs, a));
      assert w == [a] + w' && w[1..] == w';
      forall k | 0 <= k < |w'|
        ensures w'[k] in bs
      {
        assert w'[k] == w[k + 1];
      }
      WalkExtent(bs, pools, Next(bs, a));
    } else {
      assert Walk(bs, pools, a)[1..] == [];
    }
  }

  lemma StepsOn(w: seq<nat>, k: nat, q: nat, rest: seq<nat>)
    requires k <= |w| && w[k..] == [q] + rest
    ensures k + 1 <= |w| && w[k + 1..] == rest
  {
    assert |w[k..]| == |w| - k;
    assert w[k + 1..] == w[k..][1..];
  }

  // Following predecessors from a reaches the first block of the pool, so the
  // walk from there meets a.
  lemma {:induction false} WalkReaches(bs: Blks, pools: Pools, a: nat)
    requires Geo(bs, pools) && a in bs
    ensures bs[a].pool in pools && bs[a].pool in bs
    ensures exists k: nat :: k <= |Walk(bs, pools, bs[a].pool)| && Walk(bs, pools, bs[a].pool)[k..] == Walk(bs, pools, a)
    decreases a
  {
    var p := bs[a].pool;
    assert BlkAt(bs, pools, a) && FirstAt(bs, p);
    var w := Walk(bs, pools, p);
    if a == p {
      assert w[0..] == w;
    } else {
      var q := bs[a].prev;
      assert BlkAt(bs, pools, q);
      WalkReaches(bs, pools, q);
      var k: nat :| k <= |w| && w[k..] == Walk(bs, pools, q);
      StepsOn(w, k, q, Walk(bs, pools, a));
    }
  }

  // The blocks of a pool tile it exactly: the walk from its start meets every
  // block of the pool and no other, each block begins where the one before it
  // ends, the last is the zero-size sentinel, and headers and payloads add up
  // to the pool with its two size fields.
  lemma BlocksTilePool(bs: Blks, pools: Pools, p: nat)
    requires Geo(bs, pools) && p in pools
    ensures p in bs
    ensures var w := Walk(bs, pools, p);
            && (forall a :: a in w <==> a in bs && bs[a].pool == p)
            && |w| > 0 && w[0] == p && w[|w| - 1] == PoolEnd(pools, p) && bs[w[|w| - 1]].size == 0
            && (forall k {:trigger w[k]} :: 0 <= k < |w| - 1 ==> bs[w[k]].size > 0 && w[k + 1] == w[k] + 8 + bs[w[k]].size)
            && Extent(bs, w) == pools[p] + 16
  {
    assert FirstAt(bs, p);
    WalkShape(bs, pools, p);
    WalkExtent(bs, pools, p);
    var w := Walk(bs, pools, p);
    forall a | a in bs && bs[a].pool == p
      ensures a in w
    {
      WalkReaches(bs, pools, a);
      var k: nat :| k <= |w| && w[k..] == Walk(bs, pools, a);
      WalkShape(bs, pools, a);
      assert w[k..][0] == a;
    }
    assert BlkAt(bs, pools, w[|w| - 1]);
  }

  // ------------------------------------------------------- integrity checkers

  // What integrity_walker and tlsf_check read of a block and its successor.
  lemma BlockReads(h: Heap, b: nat)
    requires Valid(h) && b in h.bs
    ensures BlockSize(h.mem, b) == h.bs[b].size
    ensures IsFree(h.mem, b) <==> h.bs[b].free
    ensures IsPrevFree(h.mem, b) <==> h.bs[b].prevFree
    ensures h.bs[b].size > 0 ==>
              && BlockNext(h.mem, b) == Next(h.bs, b) && Next(h.bs, b) in h.bs
              && h.bs[Next(h.bs, b)].prevFree == h.bs[b].free
              && h.bs[Next(h.bs, b)].pool == h.bs[b].pool
              && (h.bs[b].free ==> !h.bs[Next(h.bs, b)].free && !h.bs[b].prevFree && h.bs[b].size >= BLOCK_SIZE_MIN)
  {
    assert EncAt(h.mem, b, h.bs[b]) && AlignedAt(h.bs, b) && BlkAt(h.bs, h.pools, b) && ShapeAt(h.bs, NO_BLOCK, b);
    HeaderReads(h.mem, h.bs, b);
    if h.bs[b].prev >= 0 { assert ShapeAt(h.bs, NO_BLOCK, h.bs[b].prev); }
  }

  lemma PoolFirst(h: Heap, p: nat)
    requires Valid(h) && p in h.pools
    ensures p in h.bs && h.bs[p].pool == p && h.bs[p].prev == NO_BLOCK && !h.bs[p].prevFree
  {
    assert FirstAt(h.bs, p);
    assert BlkAt(h.bs, h.pools, p) && ShapeAt(h.bs, NO_BLOCK, p);
  }

  lemma WithinPool(h: Heap, b: nat)
    requires Valid(h) && b in h.bs
    ensures h.bs[b].pool in h.pools && b <= PoolEnd(h.pools, h.bs[b].pool)
  {
    assert BlkAt(h.bs, h.pools, b);
  }

  // What tlsf_check finds in list i at a listed block.
  lemma ListReads(h: Heap, b: nat)
    requires Valid(h) && b in h.bs && h.bs[b].node.In?
    ensures h.bs[b].free && h.bs[b].size > 0 && MappingInsert(h.bs[b].size) == h.bs[b].node.idx
    ensures Load(h.mem, b + 16) == h.bs[b].node.next
    ensures h.bs[b].node.next != h.nul ==>
              var n := h.bs[b].node.next;
              n in h.bs && h.bs[n].node.In? && h.bs[n].node.idx == h.bs[b].node.idx
              && h.bs[n].node.stamp < h.bs[b].node.stamp
  {
    assert ListAt(h.bs, h.heads, h.nul, b) && FiledAt(h.bs[b]) && EncAt(h.mem, b, h.bs[b]);
  }
}
