// Bytes of the word memory, and client writes to live payloads.
module TlsfBytes {
  import opened Bits
  import opened TlsfMapping
  import opened TlsfBlocks
  import opened TlsfLists
  import opened TlsfSteps
  import opened TlsfMemory
  import opened TlsfHeap

  type byte = x: nat | x < 256

  // Byte k of a little-endian word.
  function Digit(w: nat, k: nat): byte {
    if k == 0 then w % 256 else Digit(w / 256, k - 1)
  }

  function WithDigit(w: nat, k: nat, v: byte): nat {
    if k == 0 then w - w % 256 + v else 256 * WithDigit(w / 256, k - 1, v) + w % 256
  }

  lemma {:induction false} WithDigitReads(w: nat, k: nat, v: byte, j: nat)
    ensures Digit(WithDigit(w, k, v), j) == if j == k then v else Digit(w, j)
    decreases k
  {
    if k > 0 && j > 0 {
      WithDigitReads(w / 256, k - 1, v, j - 1);
    } else if k == 0 && j > 0 {
      assert (w - w % 256 + v) / 256 == w / 256;
    }
  }

  function WordOf(a: nat): nat {
    a - a % 8
  }

  function LoadByte(m: Mem, a: nat): byte {
    Digit(Load(m, WordOf(a)), a % 8)
  }

  function StoreByte(m: Mem, a: nat, v: byte): Mem {
    Store(m, WordOf(a), WithDigit(Load(m, WordOf(a)), a % 8, v))
  }

  lemma StoreByteReads(m: Mem, a: nat, v: byte, a': nat)
    ensures LoadByte(StoreByte(m, a, v), a') == if a' == a then v else LoadByte(m, a')
  {
    WithDigitReads(Load(m, WordOf(a)), a % 8, v, a' % 8);
    assert WordOf(a) == WordOf(a') && a % 8 == a' % 8 ==> a == a';
  }

  ghost predicate SameByte(m: Mem, a: nat, m': Mem, a': nat, k: nat) {
    LoadByte(m, a + k) == LoadByte(m', a' + k)
  }

  // The n bytes at a in m are the n bytes at a' in m'.
  ghost predicate SameBytes(m: Mem, a: nat, m': Mem, a': nat, n: nat) {
    forall k: nat {:trigger SameByte(m, a, m', a', k)} :: k < n ==> SameByte(m, a, m', a', k)
  }

  // Copying one more byte.
  lemma CopyByte(m0: Mem, m: Mem, dst: nat, src: nat, i: nat)
    requires SameBytes(m, dst, m0, src, i) && LoadByte(m, src + i) == LoadByte(m0, src + i)
    ensures SameBytes(StoreByte(m, dst + i, LoadByte(m, src + i)), dst, m0, src, i + 1)
  {
    var m' := StoreByte(m, dst + i, LoadByte(m, src + i));
    forall k: nat | k < i + 1
      ensures SameByte(m', dst, m0, src, k)
    {
      assert k < i ==> SameByte(m, dst, m0, src, k);
      StoreByteReads(m, dst + i, LoadByte(m, src + i), dst + k);
    }
  }

  ghost predicate UnchangedOutside(m: Mem, m': Mem, lo: nat, hi: nat) {
    forall w: nat {:trigger Load(m', w)} :: !(lo <= w < hi) ==> Load(m', w) == Load(m, w)
  }

  lemma OneMoreStore(m: Mem, m': Mem, lo: nat, hi: nat, x: nat, v: nat)
    requires UnchangedOutside(m, m', lo, hi) && lo <= x < hi
    ensures UnchangedOutside(m, Store(m', x, v), lo, hi)
  {
    forall w: nat | !(lo <= w < hi)
      ensures Load(Store(m', x, v), w) == Load(m, w)
    {
      assert Load(m', w) == Load(m, w);
    }
  }

  // ------------------------------------------------------------ client writes

  // w is a word of the payload of allocation b.
  ghost predicate PayloadWord(live: map<nat, nat>, b: nat, w: nat) {
    b in live && w % 8 == 0 && b + 16 <= w < b + 16 + live[b]
  }

  lemma PayloadNotHeader(bs: Blks, pools: Pools, b: nat, w: nat, a: nat)
    requires Geo(bs, pools) && PayloadWord(Live(bs), b, w) && a in bs
    requires w == a ==> !bs[a].linked
    requires bs[a].node.In? ==> a != b && bs[a].size > 0
    ensures w != a + 8 && (bs[a].linked ==> w != a) && (bs[a].node.In? ==> w != a + 16 && w != a + 24)
  {
    assert Before(bs, a, b) && Before(bs, b, a);
    assert BlkAt(bs, pools, a) && BlkAt(bs, pools, b) && AlignedAt(bs, a) && AlignedAt(bs, b);
  }

  // A client write to its own payload disturbs neither the heap nor any word
  // but the one written.
  lemma ClientWriteKeeps(h: Heap, b: nat, w: nat, v: nat)
    requires Valid(h) && PayloadWord(Live(h.bs), b, w)
    ensures Valid(h.(mem := Store(h.mem, w, v)))
  {
    var m' := Store(h.mem, w, v);
    forall a | a in h.bs
      ensures EncAt(m', a, h.bs[a])
    {
      assert EncAt(h.mem, a, h.bs[a]) && FiledAt(h.bs[a]) && ShapeAt(h.bs, NO_BLOCK, b) && ShapeAt(h.bs, NO_BLOCK, a);
      OverlappedHeader(h.bs, h.pools, b, w, a);
      PayloadNotHeader(h.bs, h.pools, b, w, a);
    }
  }

  // If the written word is the first word of header a, then a follows b and
  // does not rely on that word.
  lemma OverlappedHeader(bs: Blks, pools: Pools, b: nat, w: nat, a: nat)
    requires Geo(bs, pools) && Shape(bs, NO_BLOCK) && PayloadWord(Live(bs), b, w) && a in bs
    ensures w == a ==> !bs[a].linked
  {
    assert Before(bs, b, a) && BlkAt(bs, pools, b) && ShapeAt(bs, NO_BLOCK, b);
    assert AlignedAt(bs, a) && AlignedAt(bs, b);
  }

  // ------------------------------------------------------------- the payloads

  // Live payloads are 8-aligned, lie inside their pools, and are disjoint.
  lemma PayloadsDisjoint(h: Heap, a: nat, b: nat)
    requires Valid(h) && a in Live(h.bs) && b in Live(h.bs) && a != b
    ensures a + 16 + Live(h.bs)[a] <= b + 16 || b + 16 + Live(h.bs)[b] <= a + 16
  {
    assert Before(h.bs, a, b) && Before(h.bs, b, a);
  }

  lemma PayloadInPool(h: Heap, a: nat)
    requires Valid(h) && a in Live(h.bs)
    ensures (a + 16) % 8 == 0 && Live(h.bs)[a] % 8 == 0 && Live(h.bs)[a] >= BLOCK_SIZE_MIN
    ensures exists p {:trigger p in h.pools} :: p in h.pools && p + 16 <= a + 16 && a + 16 + Live(h.bs)[a] <= PoolEnd(h.pools, p) + 8
  {
    assert BlkAt(h.bs, h.pools, a) && AlignedAt(h.bs, a);
    assert h.bs[a].pool in h.pools;
  }

  // A byte of a payload lies in a word of that payload.
  lemma PayloadByteWord(h: Heap, b: nat, x: nat)
    requires Valid(h) && b in Live(h.bs) && b + 16 <= x < b + 16 + Live(h.bs)[b]
    ensures PayloadWord(Live(h.bs), b, WordOf(x))
  {
    assert AlignedAt(h.bs, b);
  }

  lemma PayloadWordElsewhere(h: Heap, a: nat, b: nat, w: nat)
    requires Valid(h) && PayloadWord(Live(h.bs), a, w) && b in Live(h.bs) && a != b
    ensures !(b + 16 <= w < b + 16 + Live(h.bs)[b])
  {
    PayloadsDisjoint(h, a, b);
  }

  // Stores inside one payload respect the frame of all the others.
  lemma PayloadStoresFrame(h: Heap, b: nat, m': Mem)
    requires Valid(h) && b in Live(h.bs)
    requires UnchangedOutside(h.mem, m', b + 16, b + 16 + Live(h.bs)[b])
    ensures Frame(h.mem, m', Without(Live(h.bs), b), h.pools, h.nul)
  {
    forall w: nat | Protected(Without(Live(h.bs), b), h.pools, h.nul, w)
      ensures Load(m', w) == Load(h.mem, w)
    {
      if b + 16 <= w < b + 16 + Live(h.bs)[b] {
        NotElsewhere(h, b, w);
      }
    }
  }

  lemma NotElsewhere(h: Heap, b: nat, w: nat)
    requires Valid(h) && b in Live(h.bs) && b + 16 <= w < b + 16 + Live(h.bs)[b]
    ensures !Protected(Without(Live(h.bs), b), h.pools, h.nul, w)
  {
    assert BlkAt(h.bs, h.pools, b);
    forall a | a in Without(Live(h.bs), b)
      ensures !(a + 16 <= w < a + 16 + Live(h.bs)[a])
    {
      PayloadsDisjoint(h, a, b);
    }
    HeaderInPool(h.bs, h.pools, h.nul, b);
  }

  // ------------------------------------------------------------------ realloc

  function Min(x: nat, y: nat): nat {
    if x <= y then x else y
  }

  // What is kept for larger allocations is kept for smaller ones.
  lemma FrameShrinks(m: Mem, m': Mem, live: map<nat, nat>, live': map<nat, nat>, pools: Pools, nul: nat)
    requires Frame(m, m', live, pools, nul)
    requires forall a {:trigger a in live'} :: a in live' ==> a in live && live'[a] <= live[a]
    ensures Frame(m, m', live', pools, nul)
  {
    forall w: nat | Protected(live', pools, nul, w)
      ensures Load(m', w) == Load(m, w)
    {
      assert Protected(live, pools, nul, w) by {
        if !Outside(pools, nul, w) {
          var a :| a in live' && a + 16 <= w < a + 16 + live'[a];
          assert a in live;
        }
      }
    }
  }

  // A frame keeps the bytes of the payloads it covers.
  lemma FrameKeepsBytes(m: Mem, m': Mem, live: map<nat, nat>, pools: Pools, nul: nat, b: nat, n: nat)
    requires Frame(m, m', live, pools, nul) && b in live && n <= live[b] && b % 8 == 0
    ensures SameBytes(m', b + 16, m, b + 16, n)
  {
    var a := b + 16;
    forall k: nat | k < n
      ensures SameByte(m', a, m, a, k)
    {
      var w := WordOf(a + k);
      assert a <= w < a + live[b];
      assert Protected(live, pools, nul, w);
    }
  }

  lemma SameBytesCompose(m0: Mem, a0: nat, m1: Mem, a1: nat, m2: Mem, a2: nat, n: nat)
    requires SameBytes(m1, a1, m0, a0, n) && SameBytes(m2, a2, m1, a1, n)
    ensures SameBytes(m2, a2, m0, a0, n)
  {
    forall k: nat | k < n
      ensures SameByte(m2, a2, m0, a0, k)
    {
      assert SameByte(m1, a1, m0, a0, k) && SameByte(m2, a2, m1, a1, k);
    }
  }

  // The client gains one allocation of at least size bytes at pointer p.
  ghost predicate NewAllocation(live: map<nat, nat>, live': map<nat, nat>, p: nat, size: nat) {
    && p >= 16 && p - 16 !in live && p - 16 in live'
    && size <= live'[p - 16] < size + SIZEOF_BLOCK_HEADER
    && live' == live[p - 16 := live'[p - 16]]
  }

  // p is new, in a block of so much room, which it gets whole if that is not enough.
  ghost predicate NewWithin(live: map<nat, nat>, live': map<nat, nat>, p: nat, size: nat, room: nat) {
    && p >= 16 && p - 16 !in live && p - 16 in live'
    && live' == live[p - 16 := live'[p - 16]]
    && if size <= room then size <= live'[p - 16] < size + SIZEOF_BLOCK_HEADER else live'[p - 16] == room
  }

  // The allocation at ptr has become one at p, with the first bytes kept.
  ghost predicate Resized(h: Heap, h': Heap, ptr: nat, p: nat, size: size_t)
    requires LivePointer(Live(h.bs), ptr)
  {
    var live, live' := Live(h.bs), Live(h'.bs);
    && LivePointer(live', p)
    && (p != ptr ==> p - 16 !in live)
    && live' == Without(live, ptr - 16)[p - 16 := live'[p - 16]]
    && AdjustRequestSize(size, 8) <= live'[p - 16] < AdjustRequestSize(size, 8) + SIZEOF_BLOCK_HEADER
    && SameBytes(h'.mem, p, h.mem, ptr, Min(live[ptr - 16], Min(live'[p - 16], size)))
  }

  // ptr is what the allocator returned for a live allocation.
  ghost predicate LivePointer(live: map<nat, nat>, ptr: nat) {
    ptr >= 16 && ptr - 16 in live
  }

  // A request larger than a live block is not one of the sizes that wrap.
  lemma RequestCovered(size: size_t, cursize: nat)
    requires cursize >= BLOCK_SIZE_MIN
    ensures AdjustRequestSize(size, 8) > cursize ==> size <= AdjustRequestSize(size, 8)
    ensures AdjustRequestSize(size, 8) != 0 ==>
              AdjustRequestSize(size, 8) % 8 == 0 && AdjustRequestSize(size, 8) >= BLOCK_SIZE_MIN
  {
    AdjustedRequest(size);
  }

  // h1 is h after malloc, h2 after the copy, h3 after free.
  ghost predicate MoveSteps(h: Heap, h1: Heap, h2: Heap, h3: Heap, ptr: nat, p: nat, n: nat, size: nat) {
    && LivePointer(Live(h.bs), ptr) && (ptr - 16) % 8 == 0 && (p - 16) % 8 == 0
    && NewAllocation(Live(h.bs), Live(h1.bs), p, size)
    && Preserves(h, h1, Live(h.bs))
    && Live(h2.bs) == Live(h1.bs) && Preserves(h1, h2, Without(Live(h1.bs), p - 16))
    && SameBytes(h2.mem, p, h1.mem, ptr, n)
    && Live(h3.bs) == Without(Live(h2.bs), ptr - 16) && Preserves(h2, h3, Live(h3.bs))
    && n <= Live(h.bs)[ptr - 16] && n <= Live(h1.bs)[p - 16]
  }

  lemma MovedFrame(h: Heap, h1: Heap, h2: Heap, h3: Heap, ptr: nat, p: nat, size: size_t)
    requires LivePointer(Live(h.bs), ptr) && MoveSteps(h, h1, h2, h3, ptr, p, Min(Live(h.bs)[ptr - 16], size), AdjustRequestSize(size, 8))
    ensures Preserves(h, h3, Without(Live(h.bs), ptr - 16))
  {
    var rest := Without(Live(h.bs), ptr - 16);
    FrameShrinks(h.mem, h1.mem, Live(h.bs), rest, h.pools, h.nul);
    FrameShrinks(h1.mem, h2.mem, Without(Live(h1.bs), p - 16), rest, h.pools, h.nul);
    FrameShrinks(h2.mem, h3.mem, Live(h3.bs), rest, h.pools, h.nul);
    FrameCompose(h.mem, h1.mem, h2.mem, rest, h.pools, h.nul);
    FrameCompose(h.mem, h2.mem, h3.mem, rest, h.pools, h.nul);
  }

  lemma MovedBytes(h: Heap, h1: Heap, h2: Heap, h3: Heap, ptr: nat, p: nat, n: nat, size: nat)
    requires MoveSteps(h, h1, h2, h3, ptr, p, n, size)
    ensures SameBytes(h3.mem, p, h.mem, ptr, n)
  {
    FrameKeepsBytes(h.mem, h1.mem, Live(h.bs), h.pools, h.nul, ptr - 16, n);
    SameBytesCompose(h.mem, ptr, h1.mem, ptr, h2.mem, p, n);
    FrameKeepsBytes(h2.mem, h3.mem, Live(h3.bs), h.pools, h.nul, p - 16, n);
    SameBytesCompose(h.mem, ptr, h2.mem, p, h3.mem, p, n);
  }

  lemma MovedLive(live: map<nat, nat>, live1: map<nat, nat>, a: nat, b: nat)
    requires a in live && b !in live && b in live1 && live1 == live[b := live1[b]]
    ensures Without(live1, a) == Without(live, a)[b := live1[b]]
  {
  }

  lemma MovedContents(h: Heap, h1: Heap, h2: Heap, h3: Heap, ptr: nat, p: nat, size: size_t)
    requires LivePointer(Live(h.bs), ptr) && MoveSteps(h, h1, h2, h3, ptr, p, Min(Live(h.bs)[ptr - 16], size), AdjustRequestSize(size, 8))
    requires AdjustRequestSize(size, 8) >= size
    ensures Resized(h, h3, ptr, p, size) && Preserves(h, h3, Without(Live(h.bs), ptr - 16))
  {
    hide Pow2, And, Or, Not, Live, SameBytes;
    var n := Min(Live(h.bs)[ptr - 16], size);
    MovedFrame(h, h1, h2, h3, ptr, p, size);
    MovedBytes(h, h1, h2, h3, ptr, p, n, AdjustRequestSize(size, 8));
    MovedLive(Live(h.bs), Live(h1.bs), ptr - 16, p - 16);
  }

  // h1 is h after growing, h2 after trimming.
  ghost predicate InPlaceSteps(h: Heap, h1: Heap, h2: Heap, ptr: nat) {
    && LivePointer(Live(h.bs), ptr) && (ptr - 16) % 8 == 0
    && ptr - 16 in Live(h1.bs) && Live(h1.bs) == Live(h.bs)[ptr - 16 := Live(h1.bs)[ptr - 16]]
    && Preserves(h, h1, Live(h.bs))
    && ptr - 16 in Live(h2.bs) && Live(h2.bs) == Live(h1.bs)[ptr - 16 := Live(h2.bs)[ptr - 16]]
    && Preserves(h1, h2, Live(h2.bs))
  }

  lemma InPlaceContents(h: Heap, h1: Heap, h2: Heap, ptr: nat, n: nat)
    requires InPlaceSteps(h, h1, h2, ptr) && n <= Live(h.bs)[ptr - 16] && n <= Live(h2.bs)[ptr - 16]
    ensures SameBytes(h2.mem, ptr, h.mem, ptr, n)
  {
    var b := ptr - 16;
    FrameKeepsBytes(h.mem, h1.mem, Live(h.bs), h.pools, h.nul, b, n);
    FrameKeepsBytes(h1.mem, h2.mem, Live(h2.bs), h.pools, h.nul, b, n);
    SameBytesCompose(h.mem, ptr, h1.mem, ptr, h2.mem, ptr, n);
  }

  lemma InPlaceFrame(h: Heap, h1: Heap, h2: Heap, ptr: nat)
    requires InPlaceSteps(h, h1, h2, ptr)
    ensures Preserves(h, h2, Without(Live(h.bs), ptr - 16))
  {
    var rest := Without(Live(h.bs), ptr - 16);
    FrameShrinks(h.mem, h1.mem, Live(h.bs), rest, h.pools, h.nul);
    FrameShrinks(h1.mem, h2.mem, Live(h2.bs), rest, h.pools, h.nul);
    FrameCompose(h.mem, h1.mem, h2.mem, rest, h.pools, h.nul);
  }

  lemma ResizedInPlace(h: Heap, h1: Heap, h2: Heap, ptr: nat, size: size_t)
    requires InPlaceSteps(h, h1, h2, ptr)
    requires AdjustRequestSize(size, 8) <= Live(h2.bs)[ptr - 16] < AdjustRequestSize(size, 8) + SIZEOF_BLOCK_HEADER
    ensures Resized(h, h2, ptr, ptr, size) && Preserves(h, h2, Without(Live(h.bs), ptr - 16))
  {
    InPlaceContents(h, h1, h2, ptr, Min(Live(h.bs)[ptr - 16], Min(Live(h2.bs)[ptr - 16], size)));
    InPlaceFrame(h, h1, h2, ptr);
  }

  lemma LiveSize(h: Heap, b: nat)
    requires Valid(h) && b in Live(h.bs)
    ensures Live(h.bs)[b] >= BLOCK_SIZE_MIN && b % 8 == 0
  {
    assert BlkAt(h.bs, h.pools, b) && AlignedAt(h.bs, b);
  }
}
