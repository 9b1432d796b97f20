// The stores each operation performs.  Every lemma here says that a group of
// stores carries an encoded block map to the encoding of its successor and
// leaves the payloads of live allocations alone.
module TlsfMemory {
  import opened Bits
  import opened TlsfMapping
  import opened TlsfBlocks
  import opened TlsfLists
  import opened TlsfSteps

  // ------------------------------------------------- block_header_t accessors

  // size & ~(free_bit | prev_free_bit)
  function BlockSize(m: Mem, b: nat): nat {
    Load(m, b + SIZE_FIELD) - Load(m, b + SIZE_FIELD) % 4
  }

  predicate IsFree(m: Mem, b: nat) {
    Load(m, b + SIZE_FIELD) % 2 == 1
  }

  predicate IsPrevFree(m: Mem, b: nat) {
    Load(m, b + SIZE_FIELD) / 2 % 2 == 1
  }

  function SetSize(m: Mem, b: nat, size: nat): Mem {
    Store(m, b + SIZE_FIELD, size + Load(m, b + SIZE_FIELD) % 4)
  }

  function SetFree(m: Mem, b: nat): Mem {
    var w := Load(m, b + SIZE_FIELD);
    Store(m, b + SIZE_FIELD, if w % 2 == 1 then w else w + 1)
  }

  function SetUsed(m: Mem, b: nat): Mem {
    var w := Load(m, b + SIZE_FIELD);
    Store(m, b + SIZE_FIELD, if w % 2 == 1 then w - 1 else w)
  }

  function SetPrevFree(m: Mem, b: nat): Mem {
    var w := Load(m, b + SIZE_FIELD);
    Store(m, b + SIZE_FIELD, if w / 2 % 2 == 1 then w else w + 2)
  }

  function SetPrevUsed(m: Mem, b: nat): Mem {
    var w := Load(m, b + SIZE_FIELD);
    Store(m, b + SIZE_FIELD, if w / 2 % 2 == 1 then w - 2 else w)
  }

  function BlockNext(m: Mem, b: nat): nat {
    b + 8 + BlockSize(m, b)
  }

  function LinkNext(m: Mem, b: nat): Mem {
    Store(m, BlockNext(m, b), b)
  }

  function MarkAsFree(m: Mem, b: nat): Mem {
    var next := BlockNext(m, b);
    SetFree(SetPrevFree(LinkNext(m, b), next), b)
  }

  function MarkAsUsed(m: Mem, b: nat): Mem {
    SetUsed(SetPrevUsed(m, BlockNext(m, b)), b)
  }

  // The arithmetic above is the masking the C code does.
  lemma HeaderBits(w: size_t)
    ensures Pow2(64) == U64_MOD && And(w, Not(64, 3)) == w - w % 4
    ensures And(w, 1) == w % 2 && And(w, 2) == 2 * (w / 2 % 2)
    ensures Or(w, 1) == if w % 2 == 1 then w else w + 1
    ensures Or(w, 2) == if w / 2 % 2 == 1 then w else w + 2
    ensures And(w, Not(64, 1)) == if w % 2 == 1 then w - 1 else w
  {
    Pow2Values();
    assert Pow2(1) == 2 && Pow2(2) == 4;
    ClearLowBits(64, w, 2);
    ClearLowBits(64, w, 1);
    LowBits(w, 1);
    HeaderBit2(w);
  }

  lemma HeaderBit2(w: nat)
    ensures And(w, 2) == 2 * (w / 2 % 2)
    ensures Or(w, 1) == if w % 2 == 1 then w else w + 1
    ensures Or(w, 2) == if w / 2 % 2 == 1 then w else w + 2
  {
    var h := w / 2;
    if w > 0 {
      assert And(w, 2) == 2 * And(h, 1);
      assert Pow2(1) == 2;
      LowBits(h, 1);
      assert Or(w, 1) == 2 * Or(h, 0) + 1;
      assert Or(w, 2) == 2 * Or(h, 1) + w % 2;
      if h > 0 {
        assert Or(h, 1) == 2 * Or(h / 2, 0) + 1;
      }
    }
  }

  // ------------------------------------------------------------------ frames

  ghost predicate Outside(pools: Pools, nul: nat, w: nat) {
    && w != nul + NEXT_FREE_FIELD && w != nul + PREV_FREE_FIELD
    && forall p {:trigger p in pools} :: p in pools ==> w < p + 8 || PoolEnd(pools, p) + 16 <= w
  }

  // w is a word the client may rely on: inside a live payload, or outside all
  // memory that was given to the allocator.
  ghost predicate Protected(live: map<nat, nat>, pools: Pools, nul: nat, w: nat) {
    Outside(pools, nul, w) || exists a {:trigger a in live} :: a in live && a + 16 <= w < a + 16 + live[a]
  }

  ghost predicate Frame(m: Mem, m': Mem, live: map<nat, nat>, pools: Pools, nul: nat) {
    forall w: nat {:trigger Load(m', w)} :: Protected(live, pools, nul, w) ==> Load(m', w) == Load(m, w)
  }

  // Blocks that a set of allocations may occupy in bs.
  ghost predicate Fits(live: map<nat, nat>, bs: Blks) {
    forall a {:trigger a in live} :: a in live ==> a in bs && live[a] <= bs[a].size
  }

  // A word of block x that is not payload: its size field, or anything up to
  // the first word of the next header when x is not live.
  ghost predicate OwnWord(bs: Blks, live: map<nat, nat>, x: nat, w: nat) {
    x in bs && (w == x + 8 || (x !in live && bs[x].size > 0 && x + 8 <= w < x + 16 + bs[x].size))
  }

  lemma OwnWordUnprotected(bs: Blks, pools: Pools, nul: nat, live: map<nat, nat>, x: nat, w: nat)
    requires Geo(bs, pools) && PoolsOk(pools, nul) && Fits(live, bs) && OwnWord(bs, live, x, w)
    ensures !Protected(live, pools, nul, w)
  {
    assert BlkAt(bs, pools, x);
    assert bs[x].pool in pools;
    forall a | a in live
      ensures !(a + 16 <= w < a + 16 + live[a])
    {
      assert Before(bs, a, x) && Before(bs, x, a);
    }
  }

  lemma FrameCompose(m0: Mem, m1: Mem, m2: Mem, live: map<nat, nat>, pools: Pools, nul: nat)
    requires Frame(m0, m1, live, pools, nul) && Frame(m1, m2, live, pools, nul)
    ensures Frame(m0, m2, live, pools, nul)
  {
    forall w: nat | Protected(live, pools, nul, w)
      ensures Load(m2, w) == Load(m0, w)
    {
      assert Load(m1, w) == Load(m0, w);
    }
  }

  // -------------------------------------------------------- flags and sizes

  lemma SizeWordReads(size: nat, free: bool, prevFree: bool)
    requires size % 8 == 0
    ensures var w := size + (if free then 1 else 0) + (if prevFree then 2 else 0);
            w - w % 4 == size && (w % 2 == 1 <==> free) && (w / 2 % 2 == 1 <==> prevFree)
  {
  }

  // Reading the header of b gives what the block map says.
  lemma HeaderReads(m: Mem, bs: Blks, b: nat)
    requires b in bs && bs[b].size % 8 == 0 && EncAt(m, b, bs[b])
    ensures BlockSize(m, b) == bs[b].size && (IsFree(m, b) <==> bs[b].free) && (IsPrevFree(m, b) <==> bs[b].prevFree)
    ensures BlockNext(m, b) == b + 8 + bs[b].size
  {
    SizeWordReads(bs[b].size, bs[b].free, bs[b].prevFree);
  }

  lemma NextReads(m: Mem, b: nat, r: Blk)
    requires r.size % 8 == 0 && Load(m, b + 8) == SizeWord(r)
    ensures BlockSize(m, b) == r.size && BlockNext(m, b) == b + 8 + r.size
  {
    SizeWordReads(r.size, r.free, r.prevFree);
  }

  // Each header update stores the encoding of the changed record.
  lemma HeaderWrites(m: Mem, b: nat, r: Blk)
    requires r.size % 8 == 0 && Load(m, b + 8) == SizeWord(r)
    ensures SetFree(m, b) == Store(m, b + 8, SizeWord(r.(free := true)))
    ensures SetUsed(m, b) == Store(m, b + 8, SizeWord(r.(free := false)))
    ensures SetPrevFree(m, b) == Store(m, b + 8, SizeWord(r.(prevFree := true)))
    ensures SetPrevUsed(m, b) == Store(m, b + 8, SizeWord(r.(prevFree := false)))
    ensures forall size: nat :: SetSize(m, b, size) == Store(m, b + 8, SizeWord(r.(size := size)))
  {
    SizeWordReads(r.size, r.free, r.prevFree);
  }

  lemma MarkFreeStores(m: Mem, bs: Blks, pools: Pools, b: nat)
    requires Geo(bs, pools) && Enc(m, bs) && b in bs && bs[b].size > 0 && Next(bs, b) in bs
    ensures var n := Next(bs, b);
            MarkAsFree(m, b) ==
            m[n := b][n + 8 := SizeWord(bs[n].(prevFree := true))][b + 8 := SizeWord(bs[b].(free := true))]
  {
    var n := Next(bs, b);
    assert AlignedAt(bs, b) && EncAt(m, b, bs[b]) && AlignedAt(bs, n) && EncAt(m, n, bs[n]);
    HeaderReads(m, bs, b);
    HeaderWrites(m[n := b], n, bs[n]);
    HeaderWrites(m[n := b][n + 8 := SizeWord(bs[n].(prevFree := true))], b, bs[b]);
  }

  lemma MarkUsedStores(m: Mem, bs: Blks, pools: Pools, b: nat)
    requires Geo(bs, pools) && Enc(m, bs) && b in bs && bs[b].size > 0 && Next(bs, b) in bs
    ensures var n := Next(bs, b);
            MarkAsUsed(m, b) ==
            m[n + 8 := SizeWord(bs[n].(prevFree := false))][b + 8 := SizeWord(bs[b].(free := false))]
  {
    var n := Next(bs, b);
    assert AlignedAt(bs, b) && EncAt(m, b, bs[b]) && AlignedAt(bs, n) && EncAt(m, n, bs[n]);
    HeaderReads(m, bs, b);
    HeaderWrites(m, n, bs[n]);
    HeaderWrites(m[n + 8 := SizeWord(bs[n].(prevFree := false))], b, bs[b]);
  }

  // A word of the header of block x.
  ghost predicate HeaderWord(bs: Blks, x: nat, w: nat) {
    x in bs && (w == x + 8 || (w == x && bs[x].prev >= 0) || (bs[x].size > 0 && (w == x + 16 || w == x + 24)))
  }

  lemma HeaderWordsApart(bs: Blks, pools: Pools, a: nat, x: nat, w: nat)
    requires Geo(bs, pools) && a != x && HeaderWord(bs, a, w)
    ensures !HeaderWord(bs, x, w)
  {
    BlocksApart(bs, pools, a, x);
  }

  // m' differs from m only in header words of x and y and in the null block.
  ghost predicate Touches(m: Mem, m': Mem, bs: Blks, nul: nat, x: nat, y: nat) {
    forall w: nat {:trigger Load(m', w)} ::
      !HeaderWord(bs, x, w) && !HeaderWord(bs, y, w) && w != nul + 16 && w != nul + 24 ==> Load(m', w) == Load(m, w)
  }

  lemma HeaderWordKept(m: Mem, m': Mem, bs: Blks, pools: Pools, nul: nat, x: nat, y: nat, a: nat, w: nat)
    requires Geo(bs, pools) && PoolsOk(pools, nul) && Touches(m, m', bs, nul, x, y)
    requires a != x && a != y && HeaderWord(bs, a, w)
    ensures Load(m', w) == Load(m, w)
  {
    HeaderWordsApart(bs, pools, a, x, w);
    HeaderWordsApart(bs, pools, a, y, w);
    HeaderInPool(bs, pools, nul, a);
  }

  lemma EncKept(m: Mem, m': Mem, bs: Blks, pools: Pools, nul: nat, x: nat, y: nat, a: nat)
    requires Geo(bs, pools) && PoolsOk(pools, nul) && Touches(m, m', bs, nul, x, y)
    requires a in bs && EncAt(m, a, bs[a]) && a != x && a != y
    ensures EncAt(m', a, bs[a])
  {
    HeaderWordKept(m, m', bs, pools, nul, x, y, a, a + 8);
    if bs[a].linked {
      HeaderWordKept(m, m', bs, pools, nul, x, y, a, a);
    }
    if bs[a].node.In? {
      HeaderWordKept(m, m', bs, pools, nul, x, y, a, a + 16);
      HeaderWordKept(m, m', bs, pools, nul, x, y, a, a + 24);
    }
  }

  lemma MarkFreeTouches(m: Mem, bs: Blks, pools: Pools, nul: nat, b: nat)
    requires Geo(bs, pools) && Enc(m, bs)
    requires b in bs && bs[b].size > 0 && Next(bs, b) in bs && bs[Next(bs, b)].prev == b
    ensures Touches(m, MarkAsFree(m, b), bs, nul, b, Next(bs, b))
    ensures EncAt(MarkAsFree(m, b), b, MarkFree(bs, b)[b])
    ensures EncAt(MarkAsFree(m, b), Next(bs, b), MarkFree(bs, b)[Next(bs, b)])
  {
    var n := Next(bs, b);
    MarkFreeStores(m, bs, pools, b);
    BlocksApart(bs, pools, b, n);
    assert EncAt(m, b, bs[b]) && EncAt(m, n, bs[n]);
  }

  lemma MarkFreeEnc(m: Mem, bs: Blks, pools: Pools, nul: nat, b: nat)
    requires Geo(bs, pools) && PoolsOk(pools, nul) && Enc(m, bs)
    requires b in bs && bs[b].size > 0 && Next(bs, b) in bs && bs[Next(bs, b)].prev == b
    ensures Enc(MarkAsFree(m, b), MarkFree(bs, b))
  {
    MarkFreeTouches(m, bs, pools, nul, b);
    forall a | a in bs
      ensures EncAt(MarkAsFree(m, b), a, MarkFree(bs, b)[a])
    {
      assert EncAt(m, a, bs[a]);
      if a != b && a != Next(bs, b) { EncKept(m, MarkAsFree(m, b), bs, pools, nul, b, Next(bs, b), a); }
    }
  }

  lemma MarkUsedTouches(m: Mem, bs: Blks, pools: Pools, nul: nat, b: nat)
    requires Geo(bs, pools) && Enc(m, bs) && b in bs && bs[b].size > 0 && Next(bs, b) in bs
    ensures Touches(m, MarkAsUsed(m, b), bs, nul, b, Next(bs, b))
    ensures EncAt(MarkAsUsed(m, b), b, MarkUsed(bs, b)[b])
    ensures EncAt(MarkAsUsed(m, b), Next(bs, b), MarkUsed(bs, b)[Next(bs, b)])
  {
    var n := Next(bs, b);
    MarkUsedStores(m, bs, pools, b);
    BlocksApart(bs, pools, b, n);
    assert EncAt(m, b, bs[b]) && EncAt(m, n, bs[n]);
  }

  lemma MarkUsedEnc(m: Mem, bs: Blks, pools: Pools, nul: nat, b: nat)
    requires Geo(bs, pools) && PoolsOk(pools, nul) && Enc(m, bs)
    requires b in bs && bs[b].size > 0 && Next(bs, b) in bs
    ensures Enc(MarkAsUsed(m, b), MarkUsed(bs, b))
  {
    MarkUsedTouches(m, bs, pools, nul, b);
    forall a | a in bs
      ensures EncAt(MarkAsUsed(m, b), a, MarkUsed(bs, b)[a])
    {
      assert EncAt(m, a, bs[a]);
      if a != b && a != Next(bs, b) { EncKept(m, MarkAsUsed(m, b), bs, pools, nul, b, Next(bs, b), a); }
    }
  }

  // Stores to three unprotected words are within the frame.
  lemma StoresFrame(m: Mem, m': Mem, live: map<nat, nat>, pools: Pools, nul: nat, u: nat, v: nat, w: nat)
    requires forall x: nat {:trigger Load(m', x)} :: x != u && x != v && x != w ==> Load(m', x) == Load(m, x)
    requires !Protected(live, pools, nul, u) && !Protected(live, pools, nul, v) && !Protected(live, pools, nul, w)
    ensures Frame(m, m', live, pools, nul)
  {
  }

  lemma MarkFreeFrame(m: Mem, bs: Blks, pools: Pools, nul: nat, live: map<nat, nat>, b: nat)
    requires Geo(bs, pools) && PoolsOk(pools, nul) && Enc(m, bs) && b in bs && bs[b].size > 0 && Next(bs, b) in bs
    requires Fits(live, bs) && b !in live
    ensures Frame(m, MarkAsFree(m, b), live, pools, nul)
  {
    var n := Next(bs, b);
    MarkFreeStores(m, bs, pools, b);
    OwnWordUnprotected(bs, pools, nul, live, b, n);
    OwnWordUnprotected(bs, pools, nul, live, b, b + 8);
    OwnWordUnprotected(bs, pools, nul, live, n, n + 8);
    StoresFrame(m, MarkAsFree(m, b), live, pools, nul, n, n + 8, b + 8);
  }

  lemma MarkUsedFrame(m: Mem, bs: Blks, pools: Pools, nul: nat, live: map<nat, nat>, b: nat)
    requires Geo(bs, pools) && PoolsOk(pools, nul) && Enc(m, bs) && b in bs && bs[b].size > 0 && Next(bs, b) in bs
    requires Fits(live, bs)
    ensures Frame(m, MarkAsUsed(m, b), live, pools, nul)
  {
    var n := Next(bs, b);
    MarkUsedStores(m, bs, pools, b);
    OwnWordUnprotected(bs, pools, nul, live, b, b + 8);
    OwnWordUnprotected(bs, pools, nul, live, n, n + 8);
    StoresFrame(m, MarkAsUsed(m, b), live, pools, nul, n + 8, n + 8, b + 8);
  }

  // -------------------------------------------------------------- list stores

  // remove_free_block and insert_free_block, memory part.
  function Detach(m: Mem, b: nat): Mem {
    var prev, next := Load(m, b + PREV_FREE_FIELD), Load(m, b + NEXT_FREE_FIELD);
    Store(Store(m, next + PREV_FREE_FIELD, prev), prev + NEXT_FREE_FIELD, next)
  }

  function Attach(m: Mem, nul: nat, b: nat, current: nat): Mem {
    Store(Store(Store(m, b + NEXT_FREE_FIELD, current), b + PREV_FREE_FIELD, nul), current + PREV_FREE_FIELD, b)
  }

  lemma DetachTouches(m: Mem, bs: Blks, heads: Heads, pools: Pools, nul: nat, b: nat)
    requires Geo(bs, pools) && PoolsOk(pools, nul) && Enc(m, bs) && Lists(bs, heads, nul)
    requires b in bs && bs[b].node.In?
    ensures Touches(m, Detach(m, b), bs, nul, bs[b].node.next, bs[b].node.prev)
  {
    var n, p := bs[b].node.next, bs[b].node.prev;
    assert EncAt(m, b, bs[b]) && ListAt(bs, heads, nul, b);
    if n != nul { assert EncAt(m, n, bs[n]); }
    if p != nul { assert EncAt(m, p, bs[p]); }
  }

  // The list neighbours x of b after it has left; y is the neighbour on the
  // other side, if any.
  lemma DetachedWords(m: Mem, bs: Blks, pools: Pools, nul: nat, x: nat, y: nat, fx: nat, fy: nat, v: nat, u: nat)
    requires Geo(bs, pools) && PoolsOk(pools, nul) && x in bs && bs[x].node.In? && EncAt(m, x, bs[x])
    requires y == nul || (y in bs && y != x && bs[y].size > 0)
    requires (fx == 16 && fy == 24) || (fx == 24 && fy == 16)
    requires nul !in bs
    ensures var m' := m[y + fy := u][x + fx := v];
            EncAt(m', x, bs[x].(node := if fx == 16 then bs[x].node.(next := v) else bs[x].node.(prev := v)))
    ensures m[y + fy := u][x + fx := v] == m[x + fx := v][y + fy := u]
  {
    HeaderInPool(bs, pools, nul, x);
    BlocksApart(bs, pools, x, y);
  }

  lemma DetachNext(m: Mem, bs: Blks, heads: Heads, pools: Pools, nul: nat, b: nat)
    requires Geo(bs, pools) && PoolsOk(pools, nul) && Enc(m, bs) && Lists(bs, heads, nul)
    requires b in bs && bs[b].node.In? && bs[b].node.next != nul
    ensures bs[b].node.next in bs
    ensures EncAt(Detach(m, b), bs[b].node.next, Unlink(bs, nul, b)[bs[b].node.next])
  {
    var n, p := bs[b].node.next, bs[b].node.prev;
    assert EncAt(m, b, bs[b]) && ListAt(bs, heads, nul, b);
    assert EncAt(m, n, bs[n]);
    if p != nul { assert EncAt(m, p, bs[p]); }
    DetachedWords(m, bs, pools, nul, n, p, 24, 16, p, n);
  }

  lemma DetachPrev(m: Mem, bs: Blks, heads: Heads, pools: Pools, nul: nat, b: nat)
    requires Geo(bs, pools) && PoolsOk(pools, nul) && Enc(m, bs) && Lists(bs, heads, nul)
    requires b in bs && bs[b].node.In? && bs[b].node.prev != nul
    ensures bs[b].node.prev in bs
    ensures EncAt(Detach(m, b), bs[b].node.prev, Unlink(bs, nul, b)[bs[b].node.prev])
  {
    var n, p := bs[b].node.next, bs[b].node.prev;
    assert EncAt(m, b, bs[b]) && ListAt(bs, heads, nul, b);
    assert EncAt(m, p, bs[p]);
    if n != nul { assert EncAt(m, n, bs[n]); }
    DetachedWords(m, bs, pools, nul, p, n, 16, 24, n, p);
  }

  lemma DetachEnc(m: Mem, bs: Blks, heads: Heads, pools: Pools, nul: nat, b: nat)
    requires Geo(bs, pools) && PoolsOk(pools, nul) && Enc(m, bs) && Lists(bs, heads, nul)
    requires b in bs && bs[b].node.In?
    ensures Enc(Detach(m, b), Unlink(bs, nul, b))
  {
    DetachTouches(m, bs, heads, pools, nul, b);
    forall a | a in bs
      ensures EncAt(Detach(m, b), a, Unlink(bs, nul, b)[a])
    {
      if a == bs[b].node.next {
        DetachNext(m, bs, heads, pools, nul, b);
      } else if a == bs[b].node.prev {
        DetachPrev(m, bs, heads, pools, nul, b);
      } else {
        assert EncAt(m, a, bs[a]);
        EncKept(m, Detach(m, b), bs, pools, nul, bs[b].node.next, bs[b].node.prev, a);
      }
    }
  }

  lemma AttachTouches(m: Mem, bs: Blks, heads: Heads, pools: Pools, nul: nat, b: nat, i: ListIndex)
    requires Geo(bs, pools) && PoolsOk(pools, nul) && Enc(m, bs) && Lists(bs, heads, nul) && InRange(i)
    requires b in bs && bs[b].node.Out? && bs[b].size > 0
    ensures Touches(m, Attach(m, nul, b, heads[i]), bs, nul, b, heads[i])
  {
    assert HeadAt(bs, heads, nul, i);
    if heads[i] != nul { assert EncAt(m, heads[i], bs[heads[i]]); }
  }

  lemma AttachNeighbours(m: Mem, bs: Blks, heads: Heads, pools: Pools, nul: nat, b: nat, i: ListIndex, a: nat)
    requires Geo(bs, pools) && PoolsOk(pools, nul) && Enc(m, bs) && Lists(bs, heads, nul) && InRange(i)
    requires b in bs && bs[b].node.Out? && bs[b].size > 0 && a in bs && (a == b || a == heads[i])
    ensures EncAt(Attach(m, nul, b, heads[i]), a, Link(bs, heads, nul, b, i)[a])
  {
    assert HeadAt(bs, heads, nul, i) && EncAt(m, a, bs[a]);
    HeaderInPool(bs, pools, nul, a);
    BlocksApart(bs, pools, b, heads[i]);
    if heads[i] != nul { assert EncAt(m, heads[i], bs[heads[i]]); }
  }

  lemma AttachEnc(m: Mem, bs: Blks, heads: Heads, pools: Pools, nul: nat, b: nat, i: ListIndex)
    requires Geo(bs, pools) && PoolsOk(pools, nul) && Enc(m, bs) && Lists(bs, heads, nul) && InRange(i)
    requires b in bs && bs[b].node.Out? && bs[b].size > 0
    ensures Enc(Attach(m, nul, b, heads[i]), Link(bs, heads, nul, b, i))
  {
    AttachTouches(m, bs, heads, pools, nul, b, i);
    forall a | a in bs
      ensures EncAt(Attach(m, nul, b, heads[i]), a, Link(bs, heads, nul, b, i)[a])
    {
      if a == b || a == heads[i] {
        AttachNeighbours(m, bs, heads, pools, nul, b, i, a);
      } else {
        assert EncAt(m, a, bs[a]);
        EncKept(m, Attach(m, nul, b, heads[i]), bs, pools, nul, b, heads[i], a);
      }
    }
  }

  lemma DetachFrame(m: Mem, bs: Blks, heads: Heads, pools: Pools, nul: nat, live: map<nat, nat>, b: nat)
    requires Geo(bs, pools) && PoolsOk(pools, nul) && Enc(m, bs) && Lists(bs, heads, nul)
    requires b in bs && bs[b].node.In? && Fits(live, bs)
    requires forall a :: a in live ==> bs[a].node.Out?
    ensures Frame(m, Detach(m, b), live, pools, nul)
  {
    var n, p := bs[b].node.next, bs[b].node.prev;
    assert EncAt(m, b, bs[b]) && ListAt(bs, heads, nul, b);
    if n != nul { assert EncAt(m, n, bs[n]); }
    if p != nul { assert EncAt(m, p, bs[p]); }
    FreeWordUnprotected(bs, pools, nul, live, n, n + 24);
    FreeWordUnprotected(bs, pools, nul, live, p, p + 16);
    StoresFrame(m, Detach(m, b), live, pools, nul, n + 24, p + 16, p + 16);
  }

  lemma AttachFrame(m: Mem, bs: Blks, heads: Heads, pools: Pools, nul: nat, live: map<nat, nat>, b: nat, i: ListIndex)
    requires Geo(bs, pools) && PoolsOk(pools, nul) && Enc(m, bs) && Lists(bs, heads, nul) && InRange(i)
    requires b in bs && bs[b].size > 0 && Fits(live, bs) && b !in live
    requires forall a :: a in live ==> bs[a].node.Out?
    ensures Frame(m, Attach(m, nul, b, heads[i]), live, pools, nul)
  {
    var h := heads[i];
    assert HeadAt(bs, heads, nul, i);
    if h != nul { assert EncAt(m, h, bs[h]); }
    assert BlkAt(bs, pools, b);
    OwnWordUnprotected(bs, pools, nul, live, b, b + 16);
    OwnWordUnprotected(bs, pools, nul, live, b, b + 24);
    FreeWordUnprotected(bs, pools, nul, live, h, h + 24);
    StoresFrame(m, Attach(m, nul, b, h), live, pools, nul, b + 16, b + 24, h + 24);
  }

  // The list fields of a free block, or of the null block.
  lemma FreeWordUnprotected(bs: Blks, pools: Pools, nul: nat, live: map<nat, nat>, x: nat, w: nat)
    requires Geo(bs, pools) && PoolsOk(pools, nul) && Fits(live, bs)
    requires x == nul || (x in bs && bs[x].size > 0 && x !in live)
    requires w == x + 16 || w == x + 24
    requires nul !in live
    ensures !Protected(live, pools, nul, w)
  {
    if x == nul {
      forall a | a in live
        ensures !(a + 16 <= w < a + 16 + live[a])
      {
        HeaderInPool(bs, pools, nul, a);
        assert BlkAt(bs, pools, a);
      }
    } else {
      assert BlkAt(bs, pools, x);
      OwnWordUnprotected(bs, pools, nul, live, x, w);
    }
  }

  // ------------------------------------------------------ single-word updates

  // Rewriting the size field of x.
  lemma SizeFieldEnc(m: Mem, bs: Blks, pools: Pools, nul: nat, x: nat, r: Blk)
    requires Geo(bs, pools) && PoolsOk(pools, nul) && Enc(m, bs) && x in bs
    requires r == bs[x].(size := r.size, free := r.free, prevFree := r.prevFree)
    requires r.node.In? ==> r.size > 0
    ensures Enc(m[x + 8 := SizeWord(r)], bs[x := r])
  {
    assert Touches(m, m[x + 8 := SizeWord(r)], bs, nul, x, x);
    assert EncAt(m, x, bs[x]);
    forall a | a in bs
      ensures EncAt(m[x + 8 := SizeWord(r)], a, bs[x := r][a])
    {
      assert EncAt(m, a, bs[a]);
      if a != x { EncKept(m, m[x + 8 := SizeWord(r)], bs, pools, nul, x, x, a); }
    }
  }

  // Writing the prev_phys_block word of x.
  lemma LinkFieldEnc(m: Mem, bs: Blks, pools: Pools, nul: nat, x: nat)
    requires Geo(bs, pools) && PoolsOk(pools, nul) && Enc(m, bs) && x in bs && bs[x].prev >= 0
    ensures Enc(m[x := bs[x].prev], bs[x := bs[x].(linked := true)])
  {
    var m' := m[x := bs[x].prev];
    assert Touches(m, m', bs, nul, x, x);
    assert EncAt(m, x, bs[x]);
    forall a | a in bs
      ensures EncAt(m', a, bs[x := bs[x].(linked := true)][a])
    {
      assert EncAt(m, a, bs[a]);
      if a != x { EncKept(m, m', bs, pools, nul, x, x, a); }
    }
  }

  lemma OneStoreFrame(m: Mem, bs: Blks, pools: Pools, nul: nat, live: map<nat, nat>, x: nat, w: nat, v: nat)
    requires Geo(bs, pools) && PoolsOk(pools, nul) && Fits(live, bs) && OwnWord(bs, live, x, w)
    ensures Frame(m, m[w := v], live, pools, nul)
  {
    OwnWordUnprotected(bs, pools, nul, live, x, w);
    StoresFrame(m, m[w := v], live, pools, nul, w, w, w);
  }

  // --------------------------------------------------------------------- split

  // block_split.
  function SplitMem(m: Mem, b: nat, size: nat): Mem {
    var remaining := b + 8 + size;
    var remainSize := BlockSize(m, b) - (size + BLOCK_HEADER_OVERHEAD);
    MarkAsFree(SetSize(SetSize(m, remaining, if remainSize < 0 then 0 else remainSize), b, size), remaining)
  }

  // The flags that block_split leaves in the new header come from whatever the
  // payload held there.
  function StaleFlag(m: Mem, r: nat): bool {
    Load(m, r + 8) / 2 % 2 == 1
  }

  // After both sizes are written, before the remainder is marked free.
  ghost function SplitSized(m: Mem, bs: Blks, b: nat, size: nat): Blks
    requires b in bs && Next(bs, b) in bs && bs[b].size >= size + SIZEOF_BLOCK_HEADER
  {
    var n, r := Next(bs, b), b + 8 + size;
    bs[n := bs[n].(prev := r, linked := false)]
      [b := bs[b].(size := size)]
      [r := Blk(bs[b].size - size - 8, Load(m, r + 8) % 2 == 1, StaleFlag(m, r), b, false, Out, bs[b].pool)]
  }

  lemma SplitSizedGeometry(m: Mem, bs: Blks, pools: Pools, b: nat, size: nat)
    requires Geo(bs, pools) && b in bs && bs[b].size >= size + SIZEOF_BLOCK_HEADER
    requires size % 8 == 0 && size >= BLOCK_SIZE_MIN && Next(bs, b) in bs
    ensures Geo(SplitSized(m, bs, b, size), pools)
    ensures var bs1, r := SplitSized(m, bs, b, size), b + 8 + size;
            r in bs1 && bs1[r].size > 0 && Next(bs1, r) == Next(bs, b) && Next(bs1, r) in bs1 && bs1[Next(bs1, r)].prev == r
            && MarkFree(bs1, r) == Split(bs, b, size, StaleFlag(m, r), false)
  {
    var r := b + 8 + size;
    SplitPointIsNew(bs, pools, b, size);
    SplitGeometry(bs, pools, b, size, StaleFlag(m, r), false);
    GeometryKept(Split(bs, b, size, StaleFlag(m, r), false), SplitSized(m, bs, b, size), pools);
  }

  lemma FlagsOf(w: nat)
    ensures w % 4 == (if w % 2 == 1 then 1 else 0) + (if w / 2 % 2 == 1 then 2 else 0)
  {
  }

  lemma SplitSizedStores(m: Mem, bs: Blks, pools: Pools, b: nat, size: nat)
    requires Geo(bs, pools) && Enc(m, bs) && b in bs && bs[b].size >= size + SIZEOF_BLOCK_HEADER
    requires size % 8 == 0 && size >= BLOCK_SIZE_MIN && Next(bs, b) in bs
    ensures var bs1, r := SplitSized(m, bs, b, size), b + 8 + size;
            SplitMem(m, b, size) == MarkAsFree(m[r + 8 := SizeWord(bs1[r])][b + 8 := SizeWord(bs1[b])], r)
  {
    SplitPointIsNew(bs, pools, b, size);
    assert AlignedAt(bs, b) && EncAt(m, b, bs[b]);
    SplitWords(m, b, size, bs[b], SplitSized(m, bs, b, size)[b + 8 + size]);
  }

  lemma SplitWords(m: Mem, b: nat, size: nat, rb: Blk, rr: Blk)
    requires rb.size % 8 == 0 && Load(m, b + 8) == SizeWord(rb) && rb.size >= size + SIZEOF_BLOCK_HEADER
    requires rr.size == rb.size - size - 8
    requires rr.free == (Load(m, b + 16 + size) % 2 == 1) && rr.prevFree == StaleFlag(m, b + 8 + size)
    ensures SplitMem(m, b, size) ==
            MarkAsFree(m[b + 16 + size := SizeWord(rr)][b + 8 := SizeWord(rb.(size := size))], b + 8 + size)
  {
    NextReads(m, b, rb);
    FlagsOf(Load(m, b + 16 + size));
    HeaderWrites(m[b + 16 + size := SizeWord(rr)], b, rb);
  }

  lemma SplitSizedOwn(m: Mem, bs: Blks, pools: Pools, nul: nat, b: nat, size: nat)
    requires Geo(bs, pools) && Enc(m, bs) && b in bs && bs[b].size >= size + SIZEOF_BLOCK_HEADER
    requires size >= BLOCK_SIZE_MIN && Next(bs, b) in bs && bs[b].node.Out?
    ensures var bs1, r := SplitSized(m, bs, b, size), b + 8 + size;
            var m1 := m[r + 8 := SizeWord(bs1[r])][b + 8 := SizeWord(bs1[b])];
            Touches(m, m1, bs1, nul, b, r) && EncAt(m1, r, bs1[r]) && EncAt(m1, b, bs1[b])
  {
    var r := b + 8 + size;
    SplitPointIsNew(bs, pools, b, size);
    assert EncAt(m, b, bs[b]);
  }

  lemma SplitSizedEnc(m: Mem, bs: Blks, pools: Pools, nul: nat, b: nat, size: nat)
    requires Geo(bs, pools) && PoolsOk(pools, nul) && Enc(m, bs) && b in bs && bs[b].size >= size + SIZEOF_BLOCK_HEADER
    requires size % 8 == 0 && size >= BLOCK_SIZE_MIN && Next(bs, b) in bs && bs[b].node.Out?
    ensures var bs1, r := SplitSized(m, bs, b, size), b + 8 + size;
            Enc(m[r + 8 := SizeWord(bs1[r])][b + 8 := SizeWord(bs1[b])], bs1)
  {
    var bs1, r := SplitSized(m, bs, b, size), b + 8 + size;
    var m1 := m[r + 8 := SizeWord(bs1[r])][b + 8 := SizeWord(bs1[b])];
    SplitPointIsNew(bs, pools, b, size);
    SplitSizedGeometry(m, bs, pools, b, size);
    SplitSizedOwn(m, bs, pools, nul, b, size);
    forall a | a in bs1
      ensures EncAt(m1, a, bs1[a])
    {
      if a != b && a != r {
        SplitSizedOther(m, bs, b, size, a);
        EncKept(m, m1, bs1, pools, nul, b, r, a);
      }
    }
  }

  lemma SplitSizedOther(m: Mem, bs: Blks, b: nat, size: nat, a: nat)
    requires Enc(m, bs) && b in bs && Next(bs, b) in bs && bs[b].size >= size + SIZEOF_BLOCK_HEADER
    requires a in SplitSized(m, bs, b, size) && a != b && a != b + 8 + size
    ensures EncAt(m, a, SplitSized(m, bs, b, size)[a])
  {
    assert EncAt(m, a, bs[a]);
  }

  lemma SplitEnc(m: Mem, bs: Blks, pools: Pools, nul: nat, b: nat, size: nat)
    requires Geo(bs, pools) && PoolsOk(pools, nul) && Enc(m, bs) && b in bs && bs[b].size >= size + SIZEOF_BLOCK_HEADER
    requires size % 8 == 0 && size >= BLOCK_SIZE_MIN && Next(bs, b) in bs && bs[b].node.Out?
    ensures Enc(SplitMem(m, b, size), Split(bs, b, size, StaleFlag(m, b + 8 + size), false))
  {
    var bs1, r := SplitSized(m, bs, b, size), b + 8 + size;
    SplitSizedGeometry(m, bs, pools, b, size);
    SplitSizedStores(m, bs, pools, b, size);
    SplitSizedEnc(m, bs, pools, nul, b, size);
    MarkFreeEnc(m[r + 8 := SizeWord(bs1[r])][b + 8 := SizeWord(bs1[b])], bs1, pools, nul, r);
  }

  lemma SplitFrame(m: Mem, bs: Blks, pools: Pools, nul: nat, live: map<nat, nat>, b: nat, size: nat)
    requires Geo(bs, pools) && PoolsOk(pools, nul) && Enc(m, bs) && b in bs && bs[b].size >= size + SIZEOF_BLOCK_HEADER
    requires size % 8 == 0 && size >= BLOCK_SIZE_MIN && Next(bs, b) in bs && bs[b].node.Out?
    requires Fits(live, bs) && (b in live ==> live[b] <= size)
    ensures Frame(m, SplitMem(m, b, size), live, pools, nul)
  {
    var bs1, r := SplitSized(m, bs, b, size), b + 8 + size;
    var m1 := m[r + 8 := SizeWord(bs1[r])];
    var m2 := m1[b + 8 := SizeWord(bs1[b])];
    SplitPointIsNew(bs, pools, b, size);
    SplitSizedGeometry(m, bs, pools, b, size);
    SplitSizedStores(m, bs, pools, b, size);
    SplitSizedEnc(m, bs, pools, nul, b, size);
    assert Fits(live, bs1) && r !in live;
    OneStoreFrame(m, bs1, pools, nul, live, r, r + 8, SizeWord(bs1[r]));
    OneStoreFrame(m1, bs1, pools, nul, live, b, b + 8, SizeWord(bs1[b]));
    FrameCompose(m, m1, m2, live, pools, nul);
    MarkFreeFrame(m2, bs1, pools, nul, live, r);
    FrameCompose(m, m2, MarkAsFree(m2, r), live, pools, nul);
  }

  // -------------------------------------------------------------------- absorb

  // block_absorb.
  function AbsorbMem(m: Mem, p: nat, b: nat): Mem {
    LinkNext(Store(m, p + SIZE_FIELD, Load(m, p + SIZE_FIELD) + BlockSize(m, b) + BLOCK_HEADER_OVERHEAD), p)
  }

  lemma AbsorbStores(m: Mem, bs: Blks, pools: Pools, p: nat, b: nat)
    requires Geo(bs, pools) && Enc(m, bs) && Adjacent(bs, p, b)
    ensures AbsorbMem(m, p, b) == m[p + 8 := SizeWord(Absorb(bs, p, b)[p])][Next(bs, b) := p]
  {
    AdjacentFacts(bs, pools, p, b);
    assert AlignedAt(bs, b) && EncAt(m, b, bs[b]) && AlignedAt(bs, p) && EncAt(m, p, bs[p]);
    AbsorbWords(m, p, b, bs[p], bs[b]);
  }

  lemma AbsorbWords(m: Mem, p: nat, b: nat, rp: Blk, rb: Blk)
    requires rp.size % 8 == 0 && rb.size % 8 == 0 && b == p + 8 + rp.size
    requires Load(m, p + 8) == SizeWord(rp) && Load(m, b + 8) == SizeWord(rb)
    ensures var r := rp.(size := rp.size + 8 + rb.size);
            AbsorbMem(m, p, b) == m[p + 8 := SizeWord(r)][b + 8 + rb.size := p]
  {
    var r := rp.(size := rp.size + 8 + rb.size);
    NextReads(m, b, rb);
    SumOfMultiples(rp.size, rb.size);
    NextReads(m[p + 8 := SizeWord(r)], p, r);
  }

  lemma SumOfMultiples(x: nat, y: nat)
    requires x % 8 == 0 && y % 8 == 0
    ensures (x + 8 + y) % 8 == 0
  {
  }

  lemma AbsorbEnc(m: Mem, bs: Blks, pools: Pools, nul: nat, p: nat, b: nat)
    requires Geo(bs, pools) && PoolsOk(pools, nul) && Enc(m, bs) && Adjacent(bs, p, b)
    ensures Enc(AbsorbMem(m, p, b), Absorb(bs, p, b))
  {
    var n, m', bs' := Next(bs, b), AbsorbMem(m, p, b), Absorb(bs, p, b);
    AdjacentFacts(bs, pools, p, b);
    AbsorbStores(m, bs, pools, p, b);
    BlocksApart(bs, pools, p, n);
    assert EncAt(m, p, bs[p]) && EncAt(m, n, bs[n]);
    assert Touches(m, m', bs, nul, p, n);
    forall a | a in bs'
      ensures EncAt(m', a, bs'[a])
    {
      if a != p && a != n {
        assert EncAt(m, a, bs[a]);
        EncKept(m, m', bs, pools, nul, p, n, a);
      }
    }
  }

  lemma AbsorbFrame(m: Mem, bs: Blks, pools: Pools, nul: nat, live: map<nat, nat>, p: nat, b: nat)
    requires Geo(bs, pools) && PoolsOk(pools, nul) && Enc(m, bs) && Adjacent(bs, p, b)
    requires Fits(live, bs) && b !in live
    ensures Frame(m, AbsorbMem(m, p, b), live, pools, nul)
  {
    var n, m1 := Next(bs, b), m[p + 8 := SizeWord(Absorb(bs, p, b)[p])];
    AbsorbStores(m, bs, pools, p, b);
    OneStoreFrame(m, bs, pools, nul, live, p, p + 8, SizeWord(Absorb(bs, p, b)[p]));
    OneStoreFrame(m1, bs, pools, nul, live, b, n, p);
    FrameCompose(m, m1, AbsorbMem(m, p, b), live, pools, nul);
  }
}
