// A used block that is trimmed to nothing: what tlsf_realloc does with a
// request whose adjusted size is 0.
module TlsfUnfit {
  import opened Bits
  import opened TlsfMapping
  import opened TlsfBlocks
  import opened TlsfLists
  import opened TlsfSteps
  import opened TlsfMemory
  import opened TlsfBitmaps
  import opened TlsfHeap

  // Block b now reads as a block of size 0; the headers before it are as they were.
  ghost predicate CutShort(m: Mem, m': Mem, bs: Blks, b: nat) {
    && Load(m', b + 8) < 4
    && forall a {:trigger a in bs} :: a in bs && a < b ==> Load(m', a + 8) == Load(m, a + 8)
  }

  // A word that is no size field of b or of a block before it.
  ghost predicate Harmless(bs: Blks, b: nat, w: nat) {
    forall a {:trigger a in bs} :: a in bs && a <= b ==> w != a + 8
  }

  lemma StoreKeepsCut(m: Mem, m': Mem, bs: Blks, b: nat, w: nat, v: nat)
    requires CutShort(m, m', bs, b) && b in bs && Harmless(bs, b, w)
    ensures CutShort(m, Store(m', w, v), bs, b)
  {
  }

  // Stores behind b, to the links of a listed block or to the null block.
  lemma IsHarmless(h: Heap, b: nat, x: nat, w: nat)
    requires Valid(h) && b in h.bs
    requires w > b + 8 || ((x == h.nul || (x in h.bs && h.bs[x].size > 0)) && (w == x + 16 || w == x + 24))
    ensures Harmless(h.bs, b, w)
  {
    if w <= b + 8 {
      forall a | a in h.bs && a <= b ensures w != a + 8 {
        HeaderInPool(h.bs, h.pools, h.nul, a);
        if x in h.bs && a != x { HeaderWordsApart(h.bs, h.pools, a, x, a + 8); }
      }
    }
  }

  // ------------------------------------------------------------------ the split

  // block_split(block, 0) and block_set_prev_used of the new header.
  function CutMem(m: Mem, b: nat): Mem {
    SetPrevUsed(SplitMem(m, b, 0), b + 8)
  }

  // Which words it writes, and what the new header says.
  lemma CutWords(m: Mem, b: nat, size: nat, n: nat, wn: nat)
    requires size % 8 == 0 && size >= SIZEOF_BLOCK_HEADER && size <= Load(m, b + 8) < size + 4
    requires n == b + 8 + size && wn == Load(m, n + 8)
    ensures var c := CutMem(m, b);
            && Load(c, b + 8) < 4 && Load(c, b + 16) == size - 8 + 1
            && Load(c, n + 8) == (if wn / 2 % 2 == 1 then wn else wn + 2)
            && forall w: nat {:trigger Load(c, w)} :: w != b + 8 && w != b + 16 && w != n && w != n + 8 ==> Load(c, w) == Load(m, w)
  {
    var rest := b + 8;
    WordParts(Load(m, b + 8), size);
    var stale := Load(m, b + 16) % 4;
    var m1 := SetSize(m, rest, size - 8);
    var m2 := SetSize(m1, b, 0);
    assert Load(m2, b + 16) == size - 8 + stale;
    WordParts(size - 8 + stale, size - 8);
    assert BlockNext(m2, rest) == n;
    FlagsOfStale(size - 8, stale);
  }

  lemma WordParts(w: nat, size: nat)
    requires size % 8 == 0 && size <= w < size + 4
    ensures w - w % 4 == size && w % 4 == w - size
  {
  }

  lemma FlagsOfStale(size: nat, stale: nat)
    requires size % 8 == 0 && stale < 4
    ensures var w := size + stale;
            var f := if w % 2 == 1 then w else w + 1;
            (if f / 2 % 2 == 1 then f - 2 else f) == size + 1
  {
    var k, p := size / 8, stale / 2;
    HalfOf(4 * k + p, stale % 2);
    HalfOf(4 * k + p, 1);
    HalfOf(2 * k, p);
  }

  lemma HalfOf(h: nat, r: nat)
    requires r < 2
    ensures (2 * h + r) / 2 == h && (2 * h + r) % 2 == r
  {
  }

  lemma HeaderWord3(m: Mem, b: nat, r: Blk)
    requires r.size % 8 == 0 && Load(m, b + 8) == SizeWord(r)
    ensures r.size <= Load(m, b + 8) < r.size + 4
  {
  }

  // The state between the split and the coalescing.
  lemma CutState(h: Heap, b: nat)
    requires Valid(h) && b in Live(h.bs) && h.bs[b].size >= SIZEOF_BLOCK_HEADER
    ensures var c, n := CutMem(h.mem, b), Next(h.bs, b);
            && CutShort(h.mem, c, h.bs, b)
            && n in h.bs && n > b + 32 && h.bs[b].size % 8 == 0 && h.bs[n].size % 8 == 0
            && Load(c, b + 16) == h.bs[b].size - 8 + 1 && BlockSize(c, b + 8) == h.bs[b].size - 8 && BlockNext(c, b + 8) == n
            && (IsFree(c, n) <==> h.bs[n].free) && BlockSize(c, n) == h.bs[n].size
            && (h.bs[n].free ==> h.bs[n].node.In? && Load(c, n + 16) == h.bs[n].node.next && Load(c, n + 24) == h.bs[n].node.prev)
  {
    hide CutMem;
    var n := Next(h.bs, b);
    UsedFacts(h, b);
    NextFreeFacts(h, b);
    assert EncAt(h.mem, b, h.bs[b]) && AlignedAt(h.bs, b) && EncAt(h.mem, n, h.bs[n]) && AlignedAt(h.bs, n);
    HeaderWord3(h.mem, b, h.bs[b]);
    CutWords(h.mem, b, h.bs[b].size, n, SizeWord(h.bs[n]));
    var c := CutMem(h.mem, b);
    HeaderWord3(h.mem, n, h.bs[n]);
    NextHeader(h.bs[n]);
    WordParts(h.bs[b].size - 8 + 1, h.bs[b].size - 8);
    forall a | a in h.bs && a < b ensures Load(c, a + 8) == Load(h.mem, a + 8) {
    }
  }

  lemma NextHeader(r: Blk)
    requires r.size % 8 == 0
    ensures var w := SizeWord(r);
            var v := if w / 2 % 2 == 1 then w else w + 2;
            v - v % 4 == r.size && (v % 2 == 1 <==> r.free)
  {
    SizeWordReads(r.size, r.free, r.prevFree);
    SizeWordReads(r.size, r.free, true);
  }

  // ----------------------------------------------------- no heap fits the result

  // Up to b, every block map that describes the result has the old blocks.
  lemma {:induction false} BlocksAgree(h: Heap, h': Heap, b: nat, a: nat)
    requires Valid(h) && Valid(h') && h'.pools == h.pools && b in h.bs && CutShort(h.mem, h'.mem, h.bs, b)
    requires a in h.bs && a <= b
    ensures a in h'.bs
    decreases a
  {
    assert BlkAt(h.bs, h.pools, a);
    if a == h.bs[a].pool {
      assert FirstAt(h'.bs, a);
    } else {
      var q := h.bs[a].prev;
      assert BlkAt(h.bs, h.pools, q);
      BlocksAgree(h, h', b, q);
      assert EncAt(h.mem, q, h.bs[q]) && EncAt(h'.mem, q, h'.bs[q]) && AlignedAt(h.bs, q) && AlignedAt(h'.bs, q);
      HeaderReads(h.mem, h.bs, q);
      HeaderReads(h'.mem, h'.bs, q);
      assert BlkAt(h'.bs, h'.pools, q);
    }
  }

  // In a valid heap a block whose header reads size 0 is a sentinel.
  lemma ZeroBlockIsSentinel(h: Heap, b: nat)
    requires Valid(h) && b in h.bs && BlockSize(h.mem, b) == 0
    ensures exists q {:trigger q in h.pools} :: q in h.pools && b == PoolEnd(h.pools, q) && q <= b
  {
    assert EncAt(h.mem, b, h.bs[b]) && AlignedAt(h.bs, b) && BlkAt(h.bs, h.pools, b);
    HeaderReads(h.mem, h.bs, b);
    assert h.bs[b].pool in h.pools;
  }

  lemma LiveIsNoSentinel(h: Heap, b: nat, q: nat)
    requires Valid(h) && b in Live(h.bs) && q in h.pools && q <= b
    ensures b != PoolEnd(h.pools, q)
  {
    assert BlkAt(h.bs, h.pools, b);
  }

  // A memory in which a live block was cut short is no heap over the same
  // pools any more, whatever the lists, the bitmaps and the block map.
  lemma CutIsNoHeap(h: Heap, b: nat, h': Heap)
    requires Valid(h) && b in Live(h.bs) && CutShort(h.mem, h'.mem, h.bs, b) && h'.pools == h.pools
    ensures !Valid(h')
  {
    if Valid(h') {
      BlocksAgree(h, h', b, b);
      SmallWord(h'.mem, b);
      ZeroBlockIsSentinel(h', b);
      forall q | q in h.pools && q <= b ensures b != PoolEnd(h.pools, q) {
        LiveIsNoSentinel(h, b, q);
      }
    }
  }

  lemma SmallWord(m: Mem, b: nat)
    requires Load(m, b + 8) < 4
    ensures BlockSize(m, b) == 0
  {
  }

  // ------------------------------------------------------------ the list stores

  // Every list head is the null block or a block of h, and the bitmaps are words.
  ghost predicate HeadNear(h: Heap, heads: Heads, i: ListIndex) {
    i in heads && (heads[i] == h.nul || (heads[i] in h.bs && h.bs[heads[i]].size > 0))
  }

  ghost predicate ListsNear(h: Heap, heads: Heads, sl: seq<nat>, fl: nat) {
    && |sl| == FL_INDEX_COUNT && fl < U32_MOD
    && (forall f {:trigger sl[f]} :: 0 <= f < FL_INDEX_COUNT ==> sl[f] < U32_MOD)
    && (forall i {:trigger HeadNear(h, heads, i)} :: InRange(i) ==> HeadNear(h, heads, i))
  }

  lemma ValidListsNear(h: Heap)
    requires Valid(h)
    ensures ListsNear(h, h.heads, h.sl, h.fl)
  {
    forall i | InRange(i) ensures HeadNear(h, h.heads, i) {
      assert HeadAt(h.bs, h.heads, h.nul, i);
      if h.heads[i] != h.nul { assert FiledAt(h.bs[h.heads[i]]); }
    }
    forall f | 0 <= f < FL_INDEX_COUNT ensures h.sl[f] < U32_MOD {
      assert SlOk(h.fl, h.sl, h.heads, h.nul, f);
    }
  }

  lemma ListNeighbours(h: Heap, x: nat)
    requires Valid(h) && x in h.bs && h.bs[x].node.In?
    ensures InRange(h.bs[x].node.idx) && h.bs[x].node.idx == MappingInsert(h.bs[x].size)
    ensures var r := h.bs[x].node; (r.next == h.nul || (r.next in h.bs && h.bs[r.next].size > 0))
    ensures var r := h.bs[x].node; (r.prev == h.nul || (r.prev in h.bs && h.bs[r.prev].size > 0))
  {
    var r := h.bs[x].node;
    ListedFacts(h, x);
    assert ListAt(h.bs, h.heads, h.nul, x);
    if r.next != h.nul { assert FiledAt(h.bs[r.next]); }
    if r.prev != h.nul { assert FiledAt(h.bs[r.prev]); }
  }

  // The links of other blocks are not the new header, which is inside block b.
  lemma MissesRest(h: Heap, b: nat, x: nat, w: nat)
    requires Valid(h) && b in h.bs && h.bs[b].size >= SIZEOF_BLOCK_HEADER
    requires x == h.nul || (x in h.bs && x != b && h.bs[x].size > 0)
    requires w == x + 16 || w == x + 24
    ensures w != b + 16
  {
    HeaderInPool(h.bs, h.pools, h.nul, b);
    if x in h.bs { HeaderWordsApart(h.bs, h.pools, x, b, w); }
  }

  // The merged remainder has a list.
  lemma RestInRange(h: Heap, b: nat, merged: bool)
    requires Valid(h) && b in Live(h.bs) && h.bs[b].size >= SIZEOF_BLOCK_HEADER
    ensures var n := Next(h.bs, b);
            && n in h.bs
            && InRange(MappingInsert(h.bs[b].size - 8 + if merged then h.bs[n].size + 8 else 0))
  {
    hide MappingInsert;
    var n := Next(h.bs, b);
    assert BlkAt(h.bs, h.pools, b) && PoolAt(h.pools, h.nul, h.bs[b].pool);
    assert BlkAt(h.bs, h.pools, n);
    MappingInRange(h.bs[b].size - 8 + if merged then h.bs[n].size + 8 else 0);
  }

  // The neighbours in a list are free, so none of them is the used block b.
  lemma ListNotLive(h: Heap, b: nat, x: nat)
    requires Valid(h) && b in Live(h.bs) && x in h.bs && h.bs[x].node.In?
    ensures h.bs[x].node.next != b && h.bs[x].node.prev != b && h.bs[b].node.Out?
  {
    assert ListAt(h.bs, h.heads, h.nul, x) && ListAt(h.bs, h.heads, h.nul, b);
    UsedFacts(h, b);
  }

  function AbsorbedMem(m: Mem, b: nat, nextSize: nat): Mem {
    LinkNext(Store(m, b + 16, Load(m, b + 16) + nextSize + 8), b + 8)
  }

  // The stores of block_absorb into the remainder.
  lemma AbsorbKeepsCut(h: Heap, m: Mem, b: nat, nextSize: nat)
    requires Valid(h) && b in h.bs && CutShort(h.mem, m, h.bs, b)
    ensures CutShort(h.mem, AbsorbedMem(m, b, nextSize), h.bs, b)
  {
    var v := Load(m, b + 16) + nextSize + 8;
    var m1 := Store(m, b + 16, v);
    IsHarmless(h, b, h.nul, b + 16);
    StoreKeepsCut(h.mem, m, h.bs, b, b + 16, v);
    IsHarmless(h, b, h.nul, BlockNext(m1, b + 8));
    StoreKeepsCut(h.mem, m1, h.bs, b, BlockNext(m1, b + 8), b + 8);
  }

  lemma AbsorbedSize(m: Mem, b: nat, size: nat, nextSize: nat)
    requires Load(m, b + 16) == size + 1 && size % 8 == 0 && nextSize % 8 == 0
    ensures BlockSize(AbsorbedMem(m, b, nextSize), b + 8) == size + (nextSize + 8)
  {
    WordParts(size + nextSize + 8 + 1, size + nextSize + 8);
  }

  lemma HeadIsNear(h: Heap, heads: Heads, sl: seq<nat>, fl: nat, i: ListIndex)
    requires ListsNear(h, heads, sl, fl) && InRange(i)
    ensures i in heads && |sl| == FL_INDEX_COUNT && fl < U32_MOD && sl[i.fl] < U32_MOD
    ensures heads[i] == h.nul || (heads[i] in h.bs && h.bs[heads[i]].size > 0)
  {
    assert HeadNear(h, heads, i);
  }

  // A list that lost its head, or nothing.
  lemma UnlistedNear(h: Heap, heads: Heads, sl: seq<nat>, fl: nat, heads': Heads, sl': seq<nat>, fl': nat, i: ListIndex)
    requires ListsNear(h, heads, sl, fl) && InRange(i)
    requires heads' == heads || (i in heads' && heads' == heads[i := heads'[i]] && HeadNear(h, heads', i))
    requires sl' == sl || sl' == ClearedSl(sl, i)
    requires fl' == fl || fl' == ClearedFl(fl, sl, i)
    ensures ListsNear(h, heads', sl', fl')
  {
    hide ClearBit;
    forall k | InRange(k) ensures HeadNear(h, heads', k) {
      assert HeadNear(h, heads, k);
    }
  }

  lemma DetachKeepsCut(h: Heap, m: Mem, b: nat, x: nat)
    requires Valid(h) && b in h.bs && CutShort(h.mem, m, h.bs, b) && h.bs[b].size >= SIZEOF_BLOCK_HEADER
    requires x in h.bs && h.bs[x].node.In? && h.bs[x].node.next != b && h.bs[x].node.prev != b
    requires Load(m, x + 16) == h.bs[x].node.next && Load(m, x + 24) == h.bs[x].node.prev
    ensures CutShort(h.mem, Detach(m, x), h.bs, b) && Load(Detach(m, x), b + 16) == Load(m, b + 16)
  {
    ListNeighbours(h, x);
    hide Valid, CutShort;
    var next, prev := h.bs[x].node.next, h.bs[x].node.prev;
    IsHarmless(h, b, next, next + 24);
    IsHarmless(h, b, prev, prev + 16);
    MissesRest(h, b, next, next + 24);
    MissesRest(h, b, prev, prev + 16);
    StoreKeepsCut(h.mem, m, h.bs, b, next + 24, prev);
    StoreKeepsCut(h.mem, Store(m, next + 24, prev), h.bs, b, prev + 16, next);
  }

  lemma AttachKeepsCut(h: Heap, m: Mem, b: nat, current: nat)
    requires Valid(h) && b in h.bs && CutShort(h.mem, m, h.bs, b)
    requires current == h.nul || (current in h.bs && h.bs[current].size > 0)
    ensures CutShort(h.mem, Attach(m, h.nul, b + 8, current), h.bs, b)
  {
    hide Valid, CutShort;
    var m1 := Store(m, b + 24, current);
    var m2 := Store(m1, b + 32, h.nul);
    IsHarmless(h, b, h.nul, b + 24);
    IsHarmless(h, b, h.nul, b + 32);
    IsHarmless(h, b, current, current + 24);
    StoreKeepsCut(h.mem, m, h.bs, b, b + 24, current);
    StoreKeepsCut(h.mem, m1, h.bs, b, b + 32, h.nul);
    StoreKeepsCut(h.mem, m2, h.bs, b, current + 24, b + 8);
  }
}
