// The TLSF heap as a value.  Memory is a map from 8-aligned addresses to 64-bit
// words.  A ghost map gives, for the address of every block header, what the
// block is; the invariants below say when such a map describes a heap, and the
// step functions say how each operation of the allocator changes it.
module TlsfBlocks {
  import opened Bits
  import opened TlsfMapping

  type Mem = map<nat, nat>

  function Load(m: Mem, a: nat): nat {
    if a in m then m[a] else 0
  }

  function Store(m: Mem, a: nat, v: nat): Mem {
    m[a := v]
  }

  // Offsets of the fields of block_header_t.
  const SIZE_FIELD: nat := 8
  const NEXT_FREE_FIELD: nat := 16
  const PREV_FREE_FIELD: nat := 24
  const CONTROL_SIZE: nat := 6536

  // A block's place in the free list idx: its neighbours there, and a stamp
  // that falls along the list and so rules out cycles.
  datatype Node = Out | In(next: nat, prev: nat, stamp: nat, idx: ListIndex)

  // prev is the physical predecessor, NO_BLOCK for the first block of a pool;
  // linked says that the prev_phys_block word is known to hold prev.
  datatype Blk = Blk(size: nat, free: bool, prevFree: bool, prev: int, linked: bool, node: Node, pool: nat)

  type Blks = map<nat, Blk>
  type Pools = map<nat, nat>
  type Heads = map<ListIndex, nat>

  const NO_BLOCK: int := -1

  ghost function Next(bs: Blks, a: nat): nat
    requires a in bs
  {
    a + 8 + bs[a].size
  }

  function SizeWord(r: Blk): nat {
    r.size + (if r.free then 1 else 0) + (if r.prevFree then 2 else 0)
  }

  // ---------------------------------------------------------------- geometry

  // The pool starting with the block at p covers p + 8 up to PoolEnd + 16; its
  // sentinel block is at PoolEnd.
  function PoolEnd(pools: Pools, p: nat): nat
    requires p in pools
  {
    p + 8 + pools[p]
  }

  ghost predicate PoolsOk(pools: Pools, nul: nat) {
    && nul > 0
    && (forall p {:trigger PoolAt(pools, nul, p)} :: p in pools ==> PoolAt(pools, nul, p))
    && (forall p, q :: p in pools && q in pools && p < q ==> PoolEnd(pools, p) + 8 <= q)
  }

  ghost predicate PoolAt(pools: Pools, nul: nat, p: nat)
    requires p in pools
  {
    && p > 0 && p % 8 == 0 && pools[p] % 8 == 0
    && BLOCK_SIZE_MIN <= pools[p] < BLOCK_SIZE_MAX
    && PoolEnd(pools, p) + 16 <= U64_MOD
    && (PoolEnd(pools, p) + 16 <= nul || nul + CONTROL_SIZE <= p + 8)
  }

  ghost predicate BlkAt(bs: Blks, pools: Pools, a: nat)
    requires a in bs
  {
    var r := bs[a];
    && r.pool in pools && r.pool <= a <= PoolEnd(pools, r.pool)
    && (r.size == 0 <==> a == PoolEnd(pools, r.pool))
    && (r.size > 0 ==>
          && BLOCK_SIZE_MIN <= r.size
          && a + 8 + r.size <= PoolEnd(pools, r.pool)
          && a + 8 + r.size in bs
          && bs[a + 8 + r.size].prev == a
          && bs[a + 8 + r.size].pool == r.pool)
    && (r.prev == NO_BLOCK <==> a == r.pool)
    && (r.prev != NO_BLOCK ==>
          && r.prev >= 0 && r.prev in bs
          && bs[r.prev].size > 0
          && r.prev + 8 + bs[r.prev].size == a
          && bs[r.prev].pool == r.pool)
  }

  ghost predicate AlignedAt(bs: Blks, a: nat)
    requires a in bs
  {
    a % 8 == 0 && bs[a].size % 8 == 0
  }

  ghost predicate Before(bs: Blks, a: nat, b: nat) {
    a in bs && b in bs && a < b ==> a + 8 + bs[a].size <= b
  }

  ghost predicate FirstAt(bs: Blks, p: nat) {
    p in bs && bs[p].pool == p
  }

  // Blocks of a pool are linked both ways, and no two blocks overlap.
  ghost predicate Geo(bs: Blks, pools: Pools) {
    && (forall a {:trigger BlkAt(bs, pools, a)} :: a in bs ==> BlkAt(bs, pools, a))
    && (forall a {:trigger AlignedAt(bs, a)} :: a in bs ==> AlignedAt(bs, a))
    && (forall a, b {:trigger Before(bs, a, b)} :: Before(bs, a, b))
    && (forall p {:trigger FirstAt(bs, p)} :: p in pools ==> FirstAt(bs, p))
  }

  // ---------------------------------------------------------------- encoding

  ghost predicate EncAt(m: Mem, a: nat, r: Blk) {
    && Load(m, a + SIZE_FIELD) == SizeWord(r)
    && (r.linked ==> r.prev >= 0 && Load(m, a) == r.prev)
    && (r.node.In? ==> r.size > 0 && Load(m, a + NEXT_FREE_FIELD) == r.node.next && Load(m, a + PREV_FREE_FIELD) == r.node.prev)
  }

  // The words of memory that describe the blocks.
  ghost predicate Enc(m: Mem, bs: Blks) {
    forall a {:trigger EncAt(m, a, bs[a])} :: a in bs ==> EncAt(m, a, bs[a])
  }

  // ------------------------------------------------------------------- shape

  // Flags agree with the physical neighbours, and free blocks are coalesced
  // and listed -- everywhere but at block x, which an operation is handling.
  ghost predicate ShapeAt(bs: Blks, x: int, a: nat)
    requires a in bs
  {
    var r := bs[a];
    && (r.size == 0 ==> !r.free)
    && (r.prev == NO_BLOCK ==> !r.prevFree)
    && (r.node.In? ==> r.free)
    && (a == x ==> r.node.Out?)
    && (a != x && r.free ==> r.node.In?)
    && (r.size > 0 ==>
          && Next(bs, a) in bs
          && (a != x ==> bs[Next(bs, a)].prevFree == r.free)
          && (a != x ==> bs[Next(bs, a)].linked == r.free)
          && (a != x && Next(bs, a) != x && r.free ==> !bs[Next(bs, a)].free))
  }

  ghost predicate Shape(bs: Blks, x: int) {
    forall a {:trigger ShapeAt(bs, x, a)} :: a in bs ==> ShapeAt(bs, x, a)
  }

  // Listed blocks are free and in the list their size names.
  ghost predicate FiledAt(r: Blk) {
    r.node.In? ==> r.free && r.size > 0 && r.node.idx == MappingInsert(r.size)
  }

  ghost predicate Filed(bs: Blks) {
    forall a {:trigger FiledAt(bs[a])} :: a in bs ==> FiledAt(bs[a])
  }

  // The handled block announces itself to its successor as a free block.
  ghost predicate Armed(bs: Blks, x: nat) {
    x in bs && bs[x].size > 0 && Next(bs, x) in bs && bs[Next(bs, x)].prevFree && bs[Next(bs, x)].linked
  }

  // ------------------------------------------------------------------- lists

  ghost predicate HeadsOk(heads: Heads) {
    forall i :: InRange(i) ==> i in heads
  }

  ghost predicate ListAt(bs: Blks, heads: Heads, nul: nat, a: nat)
    requires a in bs && HeadsOk(heads)
  {
    var r := bs[a];
    r.node.In? ==>
      && InRange(r.node.idx)
      && (r.node.next == nul
          || (&& r.node.next in bs
              && bs[r.node.next].node.In?
              && bs[r.node.next].node.idx == r.node.idx
              && bs[r.node.next].node.prev == a
              && bs[r.node.next].node.stamp < r.node.stamp))
      && (r.node.prev == nul ==> heads[r.node.idx] == a)
      && (r.node.prev != nul ==>
            && r.node.prev in bs
            && bs[r.node.prev].node.In?
            && bs[r.node.prev].node.idx == r.node.idx
            && bs[r.node.prev].node.next == a
            && bs[r.node.prev].node.stamp > r.node.stamp)
  }

  ghost predicate HeadAt(bs: Blks, heads: Heads, nul: nat, i: ListIndex)
    requires HeadsOk(heads) && InRange(i)
  {
    var h := heads[i];
    h == nul || (h in bs && bs[h].node.In? && bs[h].node.idx == i && bs[h].node.prev == nul)
  }

  ghost predicate Lists(bs: Blks, heads: Heads, nul: nat) {
    && HeadsOk(heads)
    && nul !in bs
    && (forall a {:trigger ListAt(bs, heads, nul, a)} :: a in bs ==> ListAt(bs, heads, nul, a))
    && (forall i {:trigger HeadAt(bs, heads, nul, i)} :: InRange(i) ==> HeadAt(bs, heads, nul, i))
  }

  // ------------------------------------------------------------------ bitmaps

  ghost predicate BitmapsOk(fl: nat, sl: seq<nat>, heads: Heads, nul: nat) {
    && HeadsOk(heads) && |sl| == FL_INDEX_COUNT
    && fl < U32_MOD
    && (forall f: nat :: Bit(fl, f) ==> f < FL_INDEX_COUNT)
    && (forall f: nat :: f < FL_INDEX_COUNT ==> SlOk(fl, sl, heads, nul, f))
  }

  ghost predicate SlOk(fl: nat, sl: seq<nat>, heads: Heads, nul: nat, f: nat)
    requires f < FL_INDEX_COUNT == |sl| && HeadsOk(heads)
  {
    && sl[f] < U32_MOD
    && (Bit(fl, f) <==> sl[f] != 0)
    && (forall s: nat :: s < SL_INDEX_COUNT ==> (Bit(sl[f], s) <==> heads[ListIndex(f, s)] != nul))
  }

  // ------------------------------------------------------- header words apart

  // Header words of different blocks never coincide, although the first word
  // of a header lies inside the preceding block.
  ghost predicate Apart(bs: Blks, a: nat, b: nat) {
    a in bs && b in bs && a < b ==>
      && b >= a + 8
      && (bs[a].size > 0 ==> b >= a + 32)
      && (bs[b].prev >= 0 ==> b >= a + 16)
  }

  lemma BlocksApart(bs: Blks, pools: Pools, a: nat, b: nat)
    requires Geo(bs, pools)
    ensures Apart(bs, a, b) && Apart(bs, b, a)
  {
    if a in bs && b in bs && a < b {
      OrderedApart(bs, pools, a, b);
    } else if a in bs && b in bs && b < a {
      OrderedApart(bs, pools, b, a);
    }
  }

  lemma OrderedApart(bs: Blks, pools: Pools, a: nat, b: nat)
    requires Geo(bs, pools) && a in bs && b in bs && a < b
    ensures Apart(bs, a, b)
  {
    assert BlkAt(bs, pools, a) && BlkAt(bs, pools, b);
    assert Before(bs, a, b);
    if bs[b].prev >= 0 {
      var p := bs[b].prev;
      assert Before(bs, a, p) && Before(bs, p, a);
    }
  }

  // All words of block headers lie inside pools, away from the control block.
  lemma HeaderInPool(bs: Blks, pools: Pools, nul: nat, a: nat)
    requires Geo(bs, pools) && PoolsOk(pools, nul) && a in bs
    ensures var p := bs[a].pool;
            p in pools && p + 8 <= a + 8 <= PoolEnd(pools, p) + 8
            && (bs[a].prev >= 0 ==> p + 32 <= a)
            && (bs[a].size > 0 ==> a + 32 <= PoolEnd(pools, p))
            && (PoolEnd(pools, p) + 16 <= nul || nul + CONTROL_SIZE <= p + 8)
  {
    assert BlkAt(bs, pools, a);
    assert PoolAt(pools, nul, bs[a].pool);
    if bs[a].prev >= 0 {
      assert BlkAt(bs, pools, bs[a].prev);
    }
  }
}
