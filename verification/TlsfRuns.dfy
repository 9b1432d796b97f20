// Whole runs of the allocator, and the requests on which the C code does not
// keep its promises.
module TlsfRuns {
  import opened Bits
  import opened TlsfMapping
  import opened TlsfBlocks
  import opened TlsfSteps
  import opened TlsfMemory
  import opened TlsfHeap
  import opened TlsfPools
  import opened TlsfBytes
  import opened TlsfAlign
  import opened TlsfChecks
  import opened TlsfNotes
  import opened Tlsf

  datatype Request =
    | DoAddPool(address: nat, bytes: size_t)
    | DoMalloc(size: size_t)
    | DoMemalign(k: nat, size: size_t)
    | DoRealloc(ptr: nat, newSize: size_t)
    | DoFree(ptr: nat)
    | DoWrite(ptr: nat, word: nat, v: nat)

  // The allocation whose bytes a request may change.
  function Subject(r: Request): nat {
    match r
    case DoRealloc(ptr, _) => ptr
    case DoFree(ptr) => ptr
    case DoWrite(ptr, _, _) => ptr
    case _ => NULL
  }

  // None of the requests names the pointer.
  ghost predicate LeftAlone(requests: seq<Request>, ptr: nat) {
    forall i {:trigger requests[i]} :: 0 <= i < |requests| ==> Subject(requests[i]) != ptr
  }

  // The notes of allocations that no request names are as they were.
  ghost predicate StillNoted(record: Record, record': Record, requests: seq<Request>) {
    forall x {:trigger record(x)} :: record(x).Wrote? && LeftAlone(requests, record(x).ptr) ==> record'(x) == record(x)
  }

  // A client that keeps the pointers it was given, the pools it donated and notes of
  // the bytes it wrote, and issues each request only if it is entitled to.
  class Client {
    const c: Control
    var ptrs: set<nat>
    var regions: Pools
    ghost var record: Record

    // The client's books agree with the heap, and memory reads as noted.
    ghost predicate Consistent()
      reads this, c
    {
      && c.Valid() && regions == c.pools
      && (forall p :: p in ptrs <==> LivePointer(c.Allocations(), p))
      && ReadsBack(record, c.mem, c.Allocations())
    }

    constructor (control: Control)
      requires control.Valid() && control.Allocations() == map[] && control.pools == map[]
      ensures c == control && Consistent()
    {
      c := control;
      ptrs := {};
      regions := map[];
      record := Nothing();
    }

    method ServeAddPool(address: nat, bytes: size_t)
      requires Consistent()
      modifies this, c
      ensures Consistent() && record == old(record)
    {
      ghost var h := c.View();
      AlignDownIsFloor(Difference(bytes, 16));
      if address >= 16 && bytes >= 16 && RegionFree(regions, c.nul, address - 8, bytes - 16)
         && AlignDown(Difference(bytes, 16), 8) != BLOCK_SIZE_MAX {
        var p := c.AddPool(address, bytes);
        if p != NULL {
          regions := regions[address - 8 := (bytes - 16) - bytes % 8];
        }
        NotesOutliveMalloc(record, h, c.mem, c.Allocations(), c.pools);
      }
    }

    method ServeMalloc(size: size_t)
      requires Consistent()
      modifies this, c
      ensures Consistent() && record == old(record)
    {
      hide Live, ReadsBack, AdjustRequestSize;
      ghost var h := c.View();
      var p := c.Malloc(size);
      if p != NULL { ptrs := ptrs + {p}; }
      NotesOutliveMalloc(record, h, c.mem, c.Allocations(), c.pools);
    }

    method ServeMemalign(k: nat, size: size_t)
      requires Consistent() && k < 64
      modifies this, c
      ensures Consistent() && record == old(record)
    {
      hide Live, ReadsBack, TlsfHeap.Valid, Frame, LivePointer, NewAllocation, AdjustRequestSize, SearchSize, Exhausted;
      ghost var h := c.View();
      PowerInRange(k);
      var p := c.Memalign(Pow2(k), size);
      if p != NULL {
        PointersGrow(Live(h.bs), c.Allocations(), p, ptrs);
        ptrs := ptrs + {p};
      }
      NotesOutliveMalloc(record, h, c.mem, c.Allocations(), c.pools);
    }

    method ServeFree(ptr: nat)
      requires Consistent() && ptr in ptrs
      modifies this, c
      ensures Consistent() && record == Dropped(old(record), ptr)
      ensures OthersNoted(old(record), record, ptr)
    {
      hide Live, ReadsBack, TlsfHeap.Valid, Frame, OthersNoted, Dropped, Without;
      ghost var h := c.View();
      c.Free(ptr);
      PointersGone(Live(h.bs), ptr, ptrs);
      ptrs := ptrs - {ptr};
      NotesOutliveFree(record, h, c.View(), ptr);
      record := Dropped(record, ptr);
    }

    // Bytes that stay are found where realloc moved them.
    method ServeResize(ptr: nat, newSize: size_t) returns (p: nat)
      requires Consistent() && ptr in ptrs && newSize != 0 && AdjustRequestSize(newSize, 8) != 0
      modifies this, c
      ensures Consistent()
      ensures p == NULL ==> record == old(record)
      ensures p != NULL ==>
                p in ptrs && record == Moved(old(record), ptr, p, Min(c.Allocations()[p - 16], newSize))
      ensures OthersNoted(old(record), record, ptr)
    {
      hide Live, AlignUp, AdjustRequestSize, ReadsBack, OthersNoted, TlsfHeap.Valid, Frame, Moved, Resized;
      ghost var h := c.View();
      p := c.Realloc(ptr, newSize);
      if p != NULL {
        PointersFollow(h, c.View(), ptr, p, newSize, ptrs);
        ptrs := ptrs - {ptr} + {p};
        NotesFollowRealloc(record, h, c.View(), ptr, p, newSize);
        record := Moved(record, ptr, p, Min(c.Allocations()[p - 16], newSize));
      } else {
        NothingChanged(record, ptr);
      }
    }

    // realloc as malloc.
    method ServeReallocNull(newSize: size_t)
      requires Consistent()
      modifies this, c
      ensures Consistent() && record == old(record)
    {
      hide Live, ReadsBack, AdjustRequestSize, Resized;
      ghost var h := c.View();
      var p := c.Realloc(NULL, newSize);
      if p != NULL { ptrs := ptrs + {p}; }
      NotesOutliveMalloc(record, h, c.mem, c.Allocations(), c.pools);
    }

    // realloc as free.
    method ServeReallocZero(ptr: nat)
      requires Consistent() && ptr in ptrs
      modifies this, c
      ensures Consistent() && record == Dropped(old(record), ptr)
      ensures OthersNoted(old(record), record, ptr)
    {
      hide Live, ReadsBack, AdjustRequestSize, Resized, TlsfHeap.Valid, Frame, OthersNoted, Dropped, Without;
      ghost var h := c.View();
      var p := c.Realloc(ptr, 0);
      PointersGone(Live(h.bs), ptr, ptrs);
      ptrs := ptrs - {ptr};
      NotesOutliveFree(record, h, c.View(), ptr);
      record := Dropped(record, ptr);
    }

    // realloc of a small block to a size that wraps: nothing changes.
    method ServeReallocEdge(ptr: nat, newSize: size_t)
      requires Consistent() && ptr in ptrs && newSize != 0
      requires AdjustRequestSize(newSize, 8) == 0 && c.Allocations()[ptr - 16] < SIZEOF_BLOCK_HEADER
      modifies this, c
      ensures Consistent() && record == old(record)
    {
      hide AdjustRequestSize, Live, Resized, ReadsBack;
      var p := c.Realloc(ptr, newSize);
    }

    // Every resize but those that cut a block short; p is where a block was resized to.
    method ServeRealloc(ptr: nat, newSize: size_t) returns (p: nat)
      requires Consistent() && (ptr == NULL || ptr in ptrs)
      modifies this, c
      ensures Consistent() && OthersNoted(old(record), record, ptr)
      ensures p != NULL ==> p in ptrs && record == Moved(old(record), ptr, p, Min(c.Allocations()[p - 16], newSize))
    {
      hide AdjustRequestSize, ReadsBack, Live;
      p := NULL;
      var n := c.BlockSizeOf(ptr);
      if ptr == NULL {
        ServeReallocNull(newSize);
      } else if newSize == 0 {
        ServeReallocZero(ptr);
      } else if AdjustRequestSize(newSize, 8) != 0 {
        p := ServeResize(ptr, newSize);
      } else if n < SIZEOF_BLOCK_HEADER {
        ServeReallocEdge(ptr, newSize);
      }
    }

    method ServeWrite(ptr: nat, word: nat, v: nat)
      requires Consistent() && ptr in ptrs && word % 8 == 0 && ptr <= word
      modifies this, c
      ensures Consistent() && c.Allocations() == old(c.Allocations())
      ensures record == if word < ptr + c.Allocations()[ptr - 16] then Written(old(record), ptr, word, v) else old(record)
      ensures OthersNoted(old(record), record, ptr)
    {
      hide Live, ReadsBack, Written, OthersNoted;
      ghost var h := c.View();
      var n := c.BlockSizeOf(ptr);
      if word < ptr + n {
        NotesAfterWrite(record, h, ptr, word, v);
        c.WritePayload(ptr, word, v);
        record := Written(record, ptr, word, v);
      } else {
        NothingChanged(record, ptr);
      }
    }

    // A granted write is noted, and bytes that realloc kept are noted where it put them.
    method Serve(r: Request) returns (moved: nat)
      requires Consistent()
      modifies this, c
      ensures Consistent() && OthersNoted(old(record), record, Subject(r))
      ensures r.DoWrite? && r.ptr in old(ptrs) && r.word % 8 == 0
              && r.ptr <= r.word < r.ptr + old(c.Allocations())[r.ptr - 16] ==>
                record == Written(old(record), r.ptr, r.word, r.v)
      ensures moved != NULL ==>
                && r.DoRealloc? && moved in ptrs
                && record == Moved(old(record), r.ptr, moved, Min(c.Allocations()[moved - 16], r.newSize))
    {
      hide ReadsBack, Live, OthersNoted;
      NothingChanged(record, Subject(r));
      moved := NULL;
      match r
      case DoAddPool(address, bytes) => ServeAddPool(address, bytes);
      case DoMalloc(size) => ServeMalloc(size);
      case DoMemalign(k, size) => if k < 64 { ServeMemalign(k, size); }
      case DoRealloc(ptr, newSize) => if ptr == NULL || ptr in ptrs { moved := ServeRealloc(ptr, newSize); }
      case DoFree(ptr) => if ptr in ptrs { ServeFree(ptr); }
      case DoWrite(ptr, word, v) =>
        if ptr in ptrs && word % 8 == 0 && ptr <= word { ServeWrite(ptr, word, v); }
    }

    // A noted byte is read as noted.
    method Read(x: nat) returns (v: byte)
      requires Consistent()
      ensures record(x).Wrote? ==> record(x).ptr in ptrs && v == record(x).v
    {
      hide Live, LoadByte;
      assert Holds(record(x), x, c.mem, c.Allocations());
      v := LoadByte(c.mem, x);
    }

    // After any run a byte reads as it was written if no request named its pointer,
    // tlsf_check reports no violation, and nor does tlsf_check_pool for any pool that
    // was donated.
    method Run(requests: seq<Request>, pool: nat) returns (status: int, poolStatus: int)
      requires Consistent()
      modifies this, c
      ensures Consistent() && status == 0 && poolStatus == 0
      ensures StillNoted(old(record), record, requests)
      ensures forall x: nat {:trigger old(record)(x)} :: old(record)(x).Wrote? && LeftAlone(requests, old(record)(x).ptr) ==>
                old(record)(x).ptr in ptrs && LoadByte(c.mem, x) == old(record)(x).v
    {
      hide Live, LoadByte, LeftAlone, OthersNoted, TlsfHeap.Valid, CellSound, Ends, FlagsSound, PoolEnds;
      for i := 0 to |requests|
        invariant Consistent()
        invariant StillNoted(old(record), record, requests[..i])
      {
        ghost var before := record;
        var moved := Serve(requests[i]);
        OneMoreRequest(old(record), before, record, requests, i);
      }
      assert requests[..|requests|] == requests;
      ghost var h := c.View();
      ValidListsSound(h);
      status := c.Check(ListBounds(h));
      poolStatus := 0;
      if pool >= 8 && pool - 8 in regions {
        ValidPoolPasses(h, pool - 8);
        poolStatus := c.CheckPool(pool, PoolEnd(h.pools, pool - 8));
      }
      assert forall x: nat {:trigger record(x)} :: Holds(record(x), x, c.mem, c.Allocations());
    }
  }

  lemma PointersFollow(h: Heap, h': Heap, ptr: nat, p: nat, size: size_t, ptrs: set<nat>)
    requires LivePointer(Live(h.bs), ptr) && Resized(h, h', ptr, p, size)
    requires forall q :: q in ptrs <==> LivePointer(Live(h.bs), q)
    ensures forall q :: q in ptrs - {ptr} + {p} <==> LivePointer(Live(h'.bs), q)
  {
    hide Live, SameBytes, AdjustRequestSize;
  }

  lemma PointersGone(live: map<nat, nat>, ptr: nat, ptrs: set<nat>)
    requires LivePointer(live, ptr) && forall q :: q in ptrs <==> LivePointer(live, q)
    ensures forall q :: q in ptrs - {ptr} <==> LivePointer(Without(live, ptr - 16), q)
  {
  }

  lemma PointersGrow(live: map<nat, nat>, live': map<nat, nat>, p: nat, ptrs: set<nat>)
    requires p >= 16 && p - 16 in live' && live' == live[p - 16 := live'[p - 16]]
    requires forall q :: q in ptrs <==> LivePointer(live, q)
    ensures forall q :: q in ptrs + {p} <==> LivePointer(live', q)
  {
  }

  lemma NothingChanged(record: Record, ptr: nat)
    ensures OthersNoted(record, record, ptr)
  {
  }

  lemma OneMoreRequest(r0: Record, r1: Record, r2: Record, requests: seq<Request>, i: nat)
    requires i < |requests| && StillNoted(r0, r1, requests[..i]) && OthersNoted(r1, r2, Subject(requests[i]))
    ensures StillNoted(r0, r2, requests[..i + 1])
  {
    var shorter, longer := requests[..i], requests[..i + 1];
    forall x: nat | r0(x).Wrote? && LeftAlone(longer, r0(x).ptr)
      ensures r2(x) == r0(x)
    {
      assert longer[i] == requests[i];
      assert forall j {:trigger shorter[j]} :: 0 <= j < i ==> shorter[j] == longer[j];
      assert LeftAlone(shorter, r0(x).ptr);
      assert r1(x) == r0(x);
    }
  }

  lemma PowerInRange(k: nat)
    requires k < 64
    ensures IsPow2(Pow2(k)) && 0 < Pow2(k) <= HALF
  {
    Pow2Values();
    assert Pow2(64) == 2 * Pow2(63);
    Pow2Monotone(k, 63);
  }

  // ------------------------------------------------------------------ limits

  // malloc serves every request it accepts with enough room, except the seven
  // sizes above 2^64 - 8, which wrap and get the minimum block.
  lemma MallocCovers(size: size_t)
    requires AdjustRequestSize(size, 8) != 0
    ensures AdjustRequestSize(size, 8) >= size <==> size <= U64_MOD - 8
  {
    AdjustedRequest(size);
  }

  // memalign asks for enough room to skip to an aligned address unless align is
  // 2^63: then rounding wraps and it asks for 24 bytes.
  lemma MemalignCovers(align: size_t, size: size_t)
    requires IsPow2(align) && 8 < align <= HALF && AdjustRequestSize(size, 8) != 0
    ensures (SearchSize(align, size) == 0
             || SkippableBlock(SearchSize(align, size), align, AdjustRequestSize(size, 8))) <==> align < HALF
    ensures align == HALF ==> SearchSize(align, size) == BLOCK_SIZE_MIN
  {
    SearchSizeFacts(align, size);
    if align == HALF {
      AdjustedRequest(size);
      AlignUpWraps(AdjustRequestSize(size, 8) + align + SIZEOF_BLOCK_HEADER, align);
    }
  }

  // A request is served by an aligned pointer with the room asked for.
  predicate Served(out: (nat, nat), align: nat, adjust: nat)
    requires align > 0
  {
    out.0 % align == 0 && out.1 >= adjust
  }

  // memalign(2^63, size) is given any block of at least 24 bytes, and is served exactly
  // by one that starts at the one aligned address or has room to split in front of it,
  // and holds what was asked for behind it.
  lemma HalfAlignment(ptr: size_t, blockSize: nat, align: size_t, adjust: nat)
    requires ptr > 0 && ptr % 8 == 0 && ptr + blockSize <= U64_MOD && align == HALF && adjust >= BLOCK_SIZE_MIN
    ensures Served(HandedOut(ptr, blockSize, align), align, adjust)
      <==> (ptr == HALF || (ptr + SIZEOF_BLOCK_HEADER <= HALF && HALF + SIZEOF_BLOCK_HEADER <= ptr + blockSize))
           && HALF + adjust <= ptr + blockSize
  {
    hide AlignedGap, AlignUp;
    GapAtHalf(ptr, align);
    HalfPlace(ptr);
    HalfPlace(HALF);
  }
}
