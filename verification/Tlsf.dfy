// The TLSF allocator.  Every method is the C function of the same name; ghost
// code records what happens to the block map, and the contracts speak of the
// heap value View().
module Tlsf {
  import opened Bits
  import opened TlsfMapping
  import opened TlsfBlocks
  import opened TlsfLists
  import opened TlsfSteps
  import opened TlsfMemory
  import opened TlsfBitmaps
  import opened TlsfHeap
  import opened TlsfBytes
  import opened TlsfPools
  import opened TlsfAlign
  import opened TlsfChecks
  import opened TlsfUnfit

  const NULL: nat := 0

  // A resize to a size that wraps to 0, of a block with room for a header.
  ghost predicate CutsShort(live: map<nat, nat>, ptr: nat, size: size_t)
    requires ptr == NULL || LivePointer(live, ptr)
  {
    ptr != NULL && size != 0 && AdjustRequestSize(size, 8) == 0 && live[ptr - 16] >= SIZEOF_BLOCK_HEADER
  }

  // control_t.  mem is all of memory; block_null lives at address nul.
  class Control {
    const nul: nat
    var mem: Mem
    var flBitmap: nat
    var slBitmap: seq<nat>
    var heads: Heads
    ghost var bs: Blks
    ghost var pools: Pools

    ghost function View(): Heap
      reads this
    {
      Heap(mem, flBitmap, slBitmap, heads, bs, pools, nul)
    }

    ghost predicate Valid()
      reads this
    {
      TlsfHeap.Valid(View())
    }

    // The allocations the client holds: payload size of each block.
    ghost function Allocations(): map<nat, nat>
      reads this
    {
      Live(bs)
    }

    // -------------------------------------------------------------- free lists

    // The statements of remove_free_block.
    method RemoveStores(block: nat, i: ListIndex)
      requires i in heads && InRange(i) && |slBitmap| == FL_INDEX_COUNT
      requires flBitmap < U32_MOD && slBitmap[i.fl] < U32_MOD
      modifies this`mem, this`heads, this`slBitmap, this`flBitmap
      ensures mem == Detach(old(mem), block)
      ensures var next, was := Load(old(mem), block + NEXT_FREE_FIELD), old(heads[i]);
              && heads == (if was == block then old(heads)[i := next] else old(heads))
              && slBitmap == (if was == block && next == nul then ClearedSl(old(slBitmap), i) else old(slBitmap))
              && flBitmap == (if was == block && next == nul then ClearedFl(old(flBitmap), old(slBitmap), i) else old(flBitmap))
    {
      hide ClearBit;
      var prev := Load(mem, block + PREV_FREE_FIELD);
      var next := Load(mem, block + NEXT_FREE_FIELD);
      mem := Store(mem, next + PREV_FREE_FIELD, prev);
      mem := Store(mem, prev + NEXT_FREE_FIELD, next);
      if heads[i] == block {
        heads := heads[i := next];
        if next == nul {
          slBitmap := slBitmap[i.fl := ClearBit(slBitmap[i.fl], i.sl)];
          if slBitmap[i.fl] == 0 {
            flBitmap := ClearBit(flBitmap, i.fl);
          }
        }
      }
    }

    // The statements of insert_free_block.
    method InsertStores(block: nat, i: ListIndex)
      requires i in heads && InRange(i) && |slBitmap| == FL_INDEX_COUNT
      requires flBitmap < U32_MOD && slBitmap[i.fl] < U32_MOD
      modifies this`mem, this`heads, this`slBitmap, this`flBitmap
      ensures mem == Attach(old(mem), nul, block, old(heads[i])) && heads == old(heads)[i := block]
      ensures slBitmap == old(slBitmap)[i.fl := SetBit(old(slBitmap[i.fl]), i.sl)] && flBitmap == SetBit(old(flBitmap), i.fl)
    {
      hide SetBit;
      var current := heads[i];
      mem := Store(mem, block + NEXT_FREE_FIELD, current);
      mem := Store(mem, block + PREV_FREE_FIELD, nul);
      mem := Store(mem, current + PREV_FREE_FIELD, block);
      heads := heads[i := block];
      flBitmap := SetBit(flBitmap, i.fl);
      slBitmap := slBitmap[i.fl := SetBit(slBitmap[i.fl], i.sl)];
    }

    method RemoveFreeBlock(block: nat, i: ListIndex)
      requires Coherent(View()) && block in bs && bs[block].node.In? && bs[block].node.idx == i
      modifies this
      ensures Coherent(View()) && Delisted(old(bs), bs, block)
      ensures Allocations() == old(Allocations()) && Preserves(old(View()), View(), old(Allocations()))
    {
      ghost var h := View();
      ListedFacts(h, block);
      RemoveKeeps(h, block);
      RemovePreserves(h, block);
      RemoveStores(block, i);
      bs := Unlink(bs, nul, block);
      assert View() == RemoveStep(h, block);
    }

    method InsertFreeBlock(block: nat, i: ListIndex)
      requires Coherent(View()) && block in bs && bs[block].node.Out? && bs[block].free && bs[block].size > 0
      requires i == MappingInsert(bs[block].size)
      modifies this
      ensures Coherent(View()) && Enlisted(old(bs), bs, block, i)
      ensures Allocations() == old(Allocations()) && Preserves(old(View()), View(), old(Allocations()))
    {
      ghost var h := View();
      UnlistedFacts(h, block);
      InsertKeeps(h, block, i);
      InsertPreserves(h, block, i);
      InsertStores(block, i);
      bs := Link(bs, h.heads, nul, block, i);
      assert View() == InsertStep(h, block, i);
    }

    method BlockRemove(block: nat)
      requires Coherent(View()) && block in bs && bs[block].node.In?
      modifies this
      ensures Coherent(View()) && Delisted(old(bs), bs, block)
      ensures Allocations() == old(Allocations()) && Preserves(old(View()), View(), old(Allocations()))
    {
      ListedFacts(View(), block);
      assert EncAt(mem, block, bs[block]) && AlignedAt(bs, block);
      HeaderReads(mem, bs, block);
      RemoveFreeBlock(block, MappingInsert(BlockSize(mem, block)));
    }

    method BlockInsert(block: nat)
      requires Coherent(View()) && block in bs && bs[block].node.Out? && bs[block].free && bs[block].size > 0
      modifies this
      ensures Coherent(View()) && Enlisted(old(bs), bs, block, MappingInsert(old(bs)[block].size))
      ensures Allocations() == old(Allocations()) && Preserves(old(View()), View(), old(Allocations()))
    {
      assert EncAt(mem, block, bs[block]) && AlignedAt(bs, block);
      HeaderReads(mem, bs, block);
      InsertFreeBlock(block, MappingInsert(BlockSize(mem, block)));
    }

    // The first non-empty list at or after i, found through the bitmaps.
    method SearchSuitableBlock(i: ListIndex) returns (block: nat, j: ListIndex)
      requires Coherent(View()) && InRange(i)
      ensures block == NULL ==> forall k :: InRange(k) && AtOrAfter(k, i) ==> heads[k] == nul
      ensures block != NULL ==> InRange(j) && AtOrAfter(j, i) && block == heads[j] != nul
      ensures block != NULL ==> forall k :: InRange(k) && AtOrAfter(k, i) && !AtOrAfter(k, j) ==> heads[k] == nul
    {
      EmptyLists(flBitmap, slBitmap, heads, nul, i);
      var fl, sl := i.fl, i.sl;
      var slMap := And(slBitmap[fl], OnesFrom(sl));
      forall k | InRange(k) && k.fl == fl && k.sl >= sl
        ensures Bit(slMap, k.sl) <==> heads[k] != nul
      {
        BitAboveMask(slBitmap[fl], sl, k.sl);
        EmptyLists(flBitmap, slBitmap, heads, nul, k);
      }
      if slMap == 0 {
        forall k | InRange(k) && k.fl == fl && k.sl >= sl
          ensures heads[k] == nul
        {
          ZeroHasNoBit(k.sl);
        }
        var flMap := And(flBitmap, OnesFrom(fl + 1));
        forall k | InRange(k) && k.fl > fl
          ensures heads[k] != nul ==> Bit(flMap, k.fl)
        {
          BitAboveMask(flBitmap, fl + 1, k.fl);
          EmptyLists(flBitmap, slBitmap, heads, nul, k);
        }
        if flMap == 0 {
          forall k | InRange(k) && k.fl > fl
            ensures heads[k] == nul
          {
            ZeroHasNoBit(k.fl);
          }
          return NULL, i;
        }
        fl := Ffs(flMap);
        BitAboveMask(flBitmap, i.fl + 1, fl);
        EmptyLists(flBitmap, slBitmap, heads, nul, ListIndex(fl, 0));
        slMap := slBitmap[fl];
      } else {
        BitAboveMask(slBitmap[fl], sl, Ffs(slMap));
      }
      sl := Ffs(slMap);
      BitInWord(slBitmap[fl], sl);
      j := ListIndex(fl, sl);
      EmptyLists(flBitmap, slBitmap, heads, nul, j);
      forall k | InRange(k) && k.fl == fl && AtOrAfter(k, i) && k.sl < sl
        ensures heads[k] == nul
      {
        EmptyLists(flBitmap, slBitmap, heads, nul, k);
      }
      block := heads[j];
      assert HeadAt(bs, heads, nul, j);
      HeaderInPool(bs, pools, nul, block);
      assert BlkAt(bs, pools, block) && PoolAt(pools, nul, bs[block].pool);
    }

    // ------------------------------------------------------- split and coalesce

    method BlockSplit(block: nat, size: nat) returns (remaining: nat)
      requires CanSplit(View(), block, size)
      modifies this
      ensures View() == SplitStep(old(View()), block, size) && remaining == block + 8 + size
      ensures Coherent(View()) && SplitOff(bs, block, size)
    {
      hide Live, Split;
      ghost var h := View();
      SplitStepKeeps(h, block, size);
      SplitCompleted(bs, block, size, StaleFlag(mem, block + 8 + size));
      assert EncAt(mem, block, bs[block]) && AlignedAt(bs, block);
      HeaderReads(mem, bs, block);
      remaining := block + 16 + (size - BLOCK_HEADER_OVERHEAD);
      var remainSize := BlockSize(mem, block) - (size + BLOCK_HEADER_OVERHEAD);
      mem := SetSize(mem, remaining, remainSize);
      mem := SetSize(mem, block, size);
      mem := MarkAsFree(mem, remaining);
      bs := SplitStep(h, block, size).bs;
    }

    method BlockLinkNext(block: nat) returns (next: nat)
      requires Coherent(View()) && block in bs && bs[block].free && bs[block].size > 0 && Next(bs, block) in bs
      modifies this
      ensures next == old(Next(bs, block)) && old(bs[next].prev) == block
      ensures View() == LinkStep(old(View()), next) && Coherent(View())
    {
      LinkStepKeeps(View(), block);
      assert EncAt(mem, block, bs[block]) && AlignedAt(bs, block);
      HeaderReads(mem, bs, block);
      next := BlockNext(mem, block);
      mem := Store(mem, next, block);
      bs := bs[next := bs[next].(linked := true)];
    }

    method BlockSetPrevFree(block: nat)
      requires Coherent(View()) && block in bs
      modifies this
      ensures View() == FlagStep(old(View()), block, true) && Coherent(View())
    {
      FlagStepKeeps(View(), block, true);
      FlagStepPreserves(View(), block, true);
      mem := SetPrevFree(mem, block);
      bs := bs[block := bs[block].(prevFree := true)];
    }

    method BlockSetPrevUsed(block: nat)
      requires Coherent(View()) && block in bs
      modifies this
      ensures View() == FlagStep(old(View()), block, false) && Coherent(View())
    {
      FlagStepKeeps(View(), block, false);
      FlagStepPreserves(View(), block, false);
      mem := SetPrevUsed(mem, block);
      bs := bs[block := bs[block].(prevFree := false)];
    }

    method BlockAbsorb(prev: nat, block: nat) returns (r: nat)
      requires Adjacent(bs, prev, block)
      modifies this
      ensures View() == AbsorbStep(old(View()), prev, block) && r == prev
    {
      mem := Store(mem, prev + SIZE_FIELD, Load(mem, prev + SIZE_FIELD) + BlockSize(mem, block) + BLOCK_HEADER_OVERHEAD);
      mem := LinkNext(mem, prev);
      bs := Absorb(bs, prev, block);
      r := prev;
    }

    method BlockMergePrev(block: nat) returns (r: nat)
      requires Handling(View(), block) && bs[block].free
      modifies this
      ensures Handling(View(), r) && bs[r].free && !bs[r].prevFree
      ensures Allocations() == old(Allocations()) && Preserves(old(View()), View(), old(Allocations()))
    {
      ghost var h := View();
      PrevFreeFacts(h, block);
      r := block;
      if IsPrevFree(mem, block) {
        var prev := Load(mem, block);
        BlockRemove(prev);
        MergePrevResult(h, View(), prev, block);
        r := BlockAbsorb(prev, block);
      }
    }

    method BlockMergeNext(block: nat) returns (r: nat)
      requires Coherent(View()) && Shape(bs, block) && block in bs && bs[block].size > 0
      requires bs[block].free ==> Armed(bs, block)
      modifies this
      ensures r == block && old(Next(bs, block) in bs)
      ensures old(bs[Next(bs, block)].free) ==>
                && Handling(View(), block) && !bs[Next(bs, block)].free
                && bs[block] == old(bs[block].(size := bs[block].size + 8 + bs[Next(bs, block)].size))
                && Allocations() == (if bs[block].free then old(Allocations()) else old(Allocations())[block := bs[block].size])
      ensures old(!bs[Next(bs, block)].free) ==> View() == old(View())
      ensures Preserves(old(View()), View(), old(Allocations()))
    {
      ghost var h := View();
      NextFreeFacts(h, block);
      var next := BlockNext(mem, block);
      r := block;
      if IsFree(mem, next) {
        BlockRemove(next);
        MergeNextResult(h, View(), block, next);
        r := BlockAbsorb(block, next);
      }
    }

    // ---------------------------------------------------------------- trimming

    // block_split of a free block, with the new header linked and flagged.
    method SplitFree(block: nat, size: nat, linkFirst: bool) returns (remaining: nat)
      requires CanSplit(View(), block, size) && bs[block].free
      modifies this
      ensures remaining == block + 8 + size
      ensures View() == TrimmedStep(old(View()), block, size) && Coherent(View())
    {
      ghost var h := View();
      remaining := BlockSplit(block, size);
      if linkFirst {
        var r := BlockLinkNext(block);
        BlockSetPrevFree(remaining);
      } else {
        HeaderStepOrder(View(), remaining);
        BlockSetPrevFree(remaining);
        var r := BlockLinkNext(block);
      }
    }

    method BlockTrimFree(block: nat, size: nat)
      requires Handling(View(), block) && bs[block].free && !bs[Next(bs, block)].free
      requires size % 8 == 0 && BLOCK_SIZE_MIN <= size
      modifies this
      ensures Handling(View(), block) && bs[block].free
      ensures if size <= old(bs[block].size) then size <= bs[block].size < size + SIZEOF_BLOCK_HEADER
              else bs[block].size == old(bs[block].size)
      ensures Allocations() == old(Allocations()) && Preserves(old(View()), View(), old(Allocations()))
    {
      ghost var h := View();
      HandledFacts(h, block);
      if BlockSize(mem, block) >= SIZEOF_BLOCK_HEADER + size {
        TrimmedParts(h, block, size);
        var remaining := SplitFree(block, size, true);
        ghost var i := MappingInsert(bs[remaining].size);
        BlockInsert(remaining);
        TrimFreeResult(h, View(), block, size, i);
        TrimmedFiled(h, View(), block, size, remaining, i);
      }
    }

    // block_split of a used block, with the new header flagged.
    method SplitUsed(block: nat, size: nat) returns (remaining: nat)
      requires Valid() && CanSplit(View(), block, size) && !bs[block].free
      modifies this
      ensures HandlingTail(View(), remaining)
      ensures Allocations() == old(Allocations())[block := size] && Preserves(old(View()), View(), Allocations())
    {
      ghost var h := View();
      CutStepKeeps(h, block, size);
      CutStepHandles(h, block, size);
      remaining := BlockSplit(block, size);
      BlockSetPrevUsed(remaining);
    }

    // Coalesce the handled free block with its successor and file it.
    method MergeNextAndInsert(block: nat)
      requires HandlingTail(View(), block)
      modifies this
      ensures Valid() && Allocations() == old(Allocations())
      ensures Preserves(old(View()), View(), old(Allocations()))
    {
      ghost var h := View();
      var b := BlockMergeNext(block);
      ghost var h1 := View();
      assert ShapeAt(bs, b, b);
      BlockInsert(b);
      FiledResult(h1, View(), b, MappingInsert(h1.bs[b].size));
      PreservesCompose(h, h1, View(), Live(h.bs));
    }

    method BlockTrimUsed(block: nat, size: nat)
      requires Valid() && block in Allocations()
      requires size % 8 == 0 && BLOCK_SIZE_MIN <= size <= bs[block].size
      modifies this
      ensures Valid() && block in bs && size <= bs[block].size < size + SIZEOF_BLOCK_HEADER
      ensures bs[block].size <= old(bs[block].size)
      ensures Allocations() == old(Allocations())[block := bs[block].size]
      ensures Preserves(old(View()), View(), Allocations())
    {
      ghost var h := View();
      assert ShapeAt(bs, NO_BLOCK, block);
      UsedFacts(h, block);
      if BlockSize(mem, block) >= SIZEOF_BLOCK_HEADER + size {
        var remaining := SplitUsed(block, size);
        ghost var h1 := View();
        MergeNextAndInsert(remaining);
        PreservesCompose(h, h1, View(), Live(h1.bs));
        assert block in Live(bs);
      }
    }

    // remove_free_block while the block map no longer describes memory; h is
    // the heap before b was cut short.
    method RemoveUnmapped(block: nat, ghost h: Heap, ghost b: nat)
      requires TlsfHeap.Valid(h) && b in h.bs && CutShort(h.mem, mem, h.bs, b) && h.bs[b].size >= SIZEOF_BLOCK_HEADER
      requires h.nul == nul && ListsNear(h, heads, slBitmap, flBitmap) && h.bs[b].node.Out?
      requires block in h.bs && h.bs[block].node.In? && BlockSize(mem, block) == h.bs[block].size
      requires Load(mem, block + 16) == h.bs[block].node.next && Load(mem, block + 24) == h.bs[block].node.prev
      requires h.bs[block].node.next != b && h.bs[block].node.prev != b
      modifies this`mem, this`heads, this`slBitmap, this`flBitmap
      ensures CutShort(h.mem, mem, h.bs, b) && Load(mem, b + 16) == Load(old(mem), b + 16)
      ensures ListsNear(h, heads, slBitmap, flBitmap)
    {
      hide TlsfHeap.Valid, CutShort, ListsNear, MappingInsert;
      ListNeighbours(h, block);
      var i := MappingInsert(BlockSize(mem, block));
      DetachKeepsCut(h, mem, b, block);
      HeadIsNear(h, heads, slBitmap, flBitmap, i);
      ghost var was, sl, fl := heads, slBitmap, flBitmap;
      RemoveStores(block, i);
      UnlistedNear(h, was, sl, fl, heads, slBitmap, flBitmap, i);
    }

    // insert_free_block of the remainder at b + 8 in that situation.
    method InsertUnmapped(ghost h: Heap, b: nat)
      requires TlsfHeap.Valid(h) && b in h.bs && CutShort(h.mem, mem, h.bs, b)
      requires h.nul == nul && ListsNear(h, heads, slBitmap, flBitmap) && InRange(MappingInsert(BlockSize(mem, b + 8)))
      modifies this`mem, this`heads, this`slBitmap, this`flBitmap
      ensures CutShort(h.mem, mem, h.bs, b)
    {
      var i := MappingInsert(BlockSize(mem, b + 8));
      HeadIsNear(h, heads, slBitmap, flBitmap, i);
      AttachKeepsCut(h, mem, b, heads[i]);
      InsertStores(b + 8, i);
    }

    // block_split(block, 0) with block_set_prev_used of the new header.
    method CutBlock(block: nat) returns (remaining: nat)
      requires BlockSize(mem, block) >= SIZEOF_BLOCK_HEADER
      modifies this`mem
      ensures mem == CutMem(old(mem), block) && remaining == block + 8
    {
      remaining := block + 16 - BLOCK_HEADER_OVERHEAD;
      var remainSize := BlockSize(mem, block) - BLOCK_HEADER_OVERHEAD;
      mem := SetSize(mem, remaining, remainSize);
      mem := SetSize(mem, block, 0);
      mem := MarkAsFree(mem, remaining);
      mem := SetPrevUsed(mem, remaining);
    }

    // block_merge_next of the remainder.
    method MergeUnmapped(remaining: nat, ghost h: Heap)
      requires TlsfHeap.Valid(h) && remaining >= 8 && remaining - 8 in Live(h.bs)
      requires h.bs[remaining - 8].size >= SIZEOF_BLOCK_HEADER
      requires mem == CutMem(h.mem, remaining - 8)
      requires nul == h.nul && heads == h.heads && slBitmap == h.sl && flBitmap == h.fl
      modifies this`mem, this`heads, this`slBitmap, this`flBitmap
      ensures CutShort(h.mem, mem, h.bs, remaining - 8) && ListsNear(h, heads, slBitmap, flBitmap)
      ensures InRange(MappingInsert(BlockSize(mem, remaining)))
    {
      hide TlsfHeap.Valid, CutMem, CutShort, ListsNear, MappingInsert, InRange, BlockSize, IsFree, BlockNext, AbsorbedMem;
      ghost var b := remaining - 8;
      CutState(h, b);
      ValidListsNear(h);
      var next := BlockNext(mem, remaining);
      RestInRange(h, b, IsFree(mem, next));
      if IsFree(mem, next) {
        ListNotLive(h, b, next);
        var nextSize := BlockSize(mem, next);
        ghost var size := BlockSize(mem, remaining);
        RemoveUnmapped(next, h, b);
        AbsorbKeepsCut(h, mem, b, nextSize);
        AbsorbedSize(mem, b, size, nextSize);
        AbsorbUnmapped(remaining, nextSize);
      }
    }

    method AbsorbUnmapped(remaining: nat, nextSize: nat)
      requires remaining >= 8
      modifies this`mem
      ensures mem == AbsorbedMem(old(mem), remaining - 8, nextSize)
    {
      mem := Store(mem, remaining + SIZE_FIELD, Load(mem, remaining + SIZE_FIELD) + nextSize + BLOCK_HEADER_OVERHEAD);
      mem := LinkNext(mem, remaining);
    }

    // block_trim_used with size 0, of a block that has room for a header.
    method TrimToNothing(block: nat)
      requires Valid() && block in Allocations() && bs[block].size >= SIZEOF_BLOCK_HEADER
      modifies this`mem, this`heads, this`slBitmap, this`flBitmap
      ensures CutShort(old(mem), mem, bs, block)
    {
      ghost var h := View();
      UsedFacts(h, block);
      assert block in h.bs;
      hide TlsfHeap.Valid, CutMem, CutShort, ListsNear, MappingInsert, InRange, Live;
      var remaining := CutBlock(block);
      MergeUnmapped(remaining, h);
      InsertUnmapped(h, block);
    }

    // Give the first size bytes of the handled free block, less one header,
    // back as a free block, if there is room.
    method BlockTrimFreeLeading(block: nat, size: nat) returns (remaining: nat)
      requires HandlingTail(View(), block) && !bs[Next(bs, block)].free
      requires size % 8 == 0 && size >= SIZEOF_BLOCK_HEADER
      modifies this
      ensures old(bs[block].size) >= size + SIZEOF_BLOCK_HEADER ==>
                remaining == block + size && HandledBlock(bs, remaining, old(bs[block].size) - size)
      ensures old(bs[block].size) < size + SIZEOF_BLOCK_HEADER ==> remaining == block && bs == old(bs)
      ensures Handling(View(), remaining)
      ensures Allocations() == old(Allocations()) && Preserves(old(View()), View(), old(Allocations()))
    {
      hide Enlisted, SamePhysical, TrimmedStep, Coherent;
      ghost var h := View();
      HandledFacts(h, block);
      remaining := block;
      if BlockSize(mem, block) >= SIZEOF_BLOCK_HEADER + size {
        TrimmedParts(h, block, size - 8);
        remaining := SplitFree(block, size - BLOCK_HEADER_OVERHEAD, false);
        ghost var i := MappingInsert(bs[block].size);
        BlockInsert(block);
        TrimLeadingResult(h, View(), block, size - 8, i, remaining, h.bs[block].size - size);
        TrimmedFiled(h, View(), block, size - 8, block, i);
      }
    }

    method BlockLocateFree(size: nat) returns (block: nat)
      requires Valid() && (size == 0 || (size % 8 == 0 && BLOCK_SIZE_MIN <= size < BLOCK_SIZE_MAX))
      modifies this
      ensures block == NULL ==> View() == old(View()) && (size == 0 || Exhausted(View(), size))
      ensures block != NULL ==> HandlingTail(View(), block) && HandledBlock(bs, block, bs[block].size)
                                && bs[block].size >= size > 0
      ensures block != NULL ==> block in old(bs) && old(bs)[block].free && bs[block].size == old(bs)[block].size
      ensures Allocations() == old(Allocations()) && Preserves(old(View()), View(), old(Allocations()))
    {
      ghost var h := View();
      block := NULL;
      if size != 0 {
        var i := MappingSearch(size);
        MappingInRange(RoundUpForSearch(size));
        if i.fl < FL_INDEX_COUNT {
          var j;
          block, j := SearchSuitableBlock(i);
          if block != NULL {
            HeadFacts(h, j);
            GoodFit(size, bs[block].size);
            RemoveFreeBlock(block, j);
            LocatedResult(h, View(), block);
          }
        }
        if block == NULL {
          EmptyMeansExhausted(h, size);
        }
      }
    }

    method BlockPrepareUsed(block: nat, size: nat) returns (p: nat)
      requires block != NULL ==> Handling(View(), block) && HandledBlock(bs, block, bs[block].size)
                                 && size % 8 == 0 && BLOCK_SIZE_MIN <= size
      modifies this
      ensures block == NULL ==> p == NULL && View() == old(View())
      ensures block != NULL ==>
                && p == block + 16 && Valid() && block in Allocations()
                && Allocations() == old(Allocations())[block := Allocations()[block]]
                && (if size <= old(bs[block].size) then size <= Allocations()[block] < size + SIZEOF_BLOCK_HEADER
                    else Allocations()[block] == old(bs[block].size))
      ensures Preserves(old(View()), View(), old(Allocations()))
    {
      p := NULL;
      if block != NULL {
        ghost var h := View();
        BlockTrimFree(block, size);
        ghost var h1 := View();
        MarkUsedStepKeeps(h1, block);
        HandledFacts(h1, block);
        mem := MarkAsUsed(mem, block);
        bs := MarkUsed(bs, block);
        assert View() == MarkUsedStep(h1, block);
        PreservesCompose(h, h1, View(), Live(h.bs));
        p := block + 16;
      }
    }

    // --------------------------------------------------------- main interface

    // tlsf_block_size.
    method BlockSizeOf(ptr: nat) returns (size: nat)
      requires Valid() && (ptr == NULL || LivePointer(Allocations(), ptr))
      ensures size == if ptr == NULL then 0 else Allocations()[ptr - 16]
    {
      size := 0;
      if ptr != NULL {
        UsedFacts(View(), ptr - 16);
        size := BlockSize(mem, ptr - 16);
      }
    }

    method Malloc(size: size_t) returns (p: nat)
      requires Valid()
      modifies this
      ensures Valid()
      ensures p == NULL ==>
                && View() == old(View())
                && (AdjustRequestSize(size, 8) == 0 || Exhausted(View(), AdjustRequestSize(size, 8)))
      ensures p != NULL ==> NewAllocation(old(Allocations()), Allocations(), p, AdjustRequestSize(size, 8))
      ensures Preserves(old(View()), View(), old(Allocations()))
    {
      ghost var h := View();
      AdjustedRequest(size);
      var adjust := AdjustRequestSize(size, ALIGN_SIZE);
      var block := BlockLocateFree(adjust);
      ghost var h1 := View();
      p := BlockPrepareUsed(block, adjust);
      PreservesCompose(h, h1, View(), Live(h.bs));
    }

    method Free(ptr: nat)
      requires Valid() && (ptr == NULL || LivePointer(Allocations(), ptr))
      modifies this
      ensures Valid()
      ensures ptr == NULL ==> View() == old(View())
      ensures ptr != NULL ==> Allocations() == Without(old(Allocations()), ptr - 16)
      ensures Preserves(old(View()), View(), Allocations())
    {
      if ptr != NULL {
        ghost var h := View();
        var block := ptr - 16;
        UsedFacts(h, block);
        MarkFreeStepKeeps(h, block);
        mem := MarkAsFree(mem, block);
        bs := MarkFree(bs, block);
        assert View() == MarkFreeStep(h, block);
        block := BlockMergePrev(block);
        PreservesCompose(h, MarkFreeStep(h, ptr - 16), View(), Live(bs));
        ghost var h1 := View();
        MergeNextAndInsert(block);
        PreservesCompose(h, h1, View(), Live(bs));
      }
    }

    // A client store to a word of its own payload.
    method WritePayload(ptr: nat, w: nat, v: nat)
      requires Valid() && ptr >= 16 && PayloadWord(Allocations(), ptr - 16, w)
      modifies this`mem
      ensures Valid() && Allocations() == old(Allocations()) && mem == Store(old(mem), w, v)
      ensures Preserves(old(View()), View(), Without(Allocations(), ptr - 16))
    {
      ClientWriteKeeps(View(), ptr - 16, w, v);
      PayloadStoresFrame(View(), ptr - 16, Store(mem, w, v));
      mem := Store(mem, w, v);
    }

    method Memcpy(dst: nat, src: nat, n: nat)
      requires Valid() && LivePointer(Allocations(), dst) && LivePointer(Allocations(), src) && src != dst
      requires n <= Allocations()[dst - 16] && n <= Allocations()[src - 16]
      modifies this`mem
      ensures Valid() && Allocations() == old(Allocations())
      ensures Preserves(old(View()), View(), Without(Allocations(), dst - 16))
      ensures SameBytes(mem, dst, old(mem), src, n)
    {
      ghost var h, d := View(), dst - 16;
      var i := 0;
      while i < n
        invariant 0 <= i <= n && Valid()
        invariant UnchangedOutside(h.mem, mem, dst, dst + Allocations()[d])
        invariant SameBytes(mem, dst, h.mem, src, i)
      {
        PayloadByteWord(View(), d, dst + i);
        PayloadByteWord(View(), src - 16, src + i);
        PayloadWordElsewhere(View(), src - 16, d, WordOf(src + i));
        CopyByte(h.mem, mem, dst, src, i);
        ClientWriteKeeps(View(), d, WordOf(dst + i), WithDigit(Load(mem, WordOf(dst + i)), (dst + i) % 8, LoadByte(mem, src + i)));
        OneMoreStore(h.mem, mem, dst, dst + Allocations()[d], WordOf(dst + i),
                     WithDigit(Load(mem, WordOf(dst + i)), (dst + i) % 8, LoadByte(mem, src + i)));
        mem := StoreByte(mem, dst + i, LoadByte(mem, src + i));
        i := i + 1;
      }
      PayloadStoresFrame(h, d, mem);
    }

    // The gap to skip so that the payload at ptr becomes aligned.
    static method GapToAligned(ptr: size_t, align: size_t) returns (gap: nat)
      requires align > 0
      ensures gap == AlignedGap(ptr, align)
    {
      hide Pow2, And, Not, AlignUp;
      var aligned := AlignUp(ptr, align);
      gap := Difference(aligned, ptr);
      if gap != 0 && gap < SIZEOF_BLOCK_HEADER {
        var gapRemain := SIZEOF_BLOCK_HEADER - gap;
        var offset := if gapRemain > align then gapRemain else align;
        aligned := AlignUp(Wrap64(aligned + offset), align);
        gap := Difference(aligned, ptr);
      }
    }

    // Skip to the aligned address inside the handled free block.
    method SkipToAligned(block: nat, align: size_t, ghost adjust: nat) returns (r: nat)
      requires 0 < align <= HALF && IsPow2(align) && HandlingTail(View(), block) && HandledBlock(bs, block, bs[block].size)
      requires adjust >= BLOCK_SIZE_MIN && (align < HALF ==> SkippableBlock(bs[block].size, align, adjust)) && block != NULL
      requires bs[block].size >= BLOCK_SIZE_MIN && block + 16 < U64_MOD
      modifies this
      ensures r != NULL && Handling(View(), r) && HandledBlock(bs, r, bs[r].size)
      ensures (r + 16, bs[r].size) == HandedOut(block + 16, old(bs[block].size), align)
      ensures align < HALF ==> (r + 16) % align == 0 && adjust <= bs[r].size
      ensures Allocations() == old(Allocations()) && Preserves(old(View()), View(), old(Allocations()))
    {
      hide AlignedGap, AlignUp, FlipBit5, InRange, IsPow2, MappingInsert;
      BlockRange(View(), block);
      var gap := GapToAligned(block + 16, align);
      GapOrNone(block + 16, bs[block].size, align, adjust);
      r := block;
      if gap != 0 {
        r := BlockTrimFreeLeading(block, gap);
      }
    }

    // The block found for a request, and what is handed out of it.
    ghost predicate HandedFrom(from: Blks, least: nat, align: size_t, size: nat, live: map<nat, nat>, p: nat)
      requires align > 0
      reads this
    {
      exists b: nat {:trigger b in from} ::
        b in from && from[b].free && from[b].size >= least && b + 16 < U64_MOD
        && p == HandedOut(b + 16, from[b].size, align).0
        && NewWithin(live, Allocations(), p, size, HandedOut(b + 16, from[b].size, align).1)
    }

    // tlsf_memalign.  The pointer is aligned and has the room asked for, for every
    // alignment below 2^63; for that one it is what the block found happens to give.
    method Memalign(align: size_t, size: size_t) returns (p: nat)
      requires Valid() && 0 < align <= HALF && IsPow2(align)
      modifies this
      ensures Valid()
      ensures p == NULL ==>
                && View() == old(View())
                && (SearchSize(align, size) == 0 || Exhausted(View(), SearchSize(align, size)))
      ensures p != NULL ==>
                HandedFrom(old(bs), SearchSize(align, size), align, AdjustRequestSize(size, 8), old(Allocations()), p)
      ensures p != NULL ==>
                p >= 16 && p - 16 !in old(Allocations()) && p - 16 in Allocations()
                && Allocations() == old(Allocations())[p - 16 := Allocations()[p - 16]]
      ensures p != NULL && align < HALF ==>
                && NewAllocation(old(Allocations()), Allocations(), p, AdjustRequestSize(size, 8))
                && p % align == 0
      ensures Preserves(old(View()), View(), old(Allocations()))
    {
      hide AdjustRequestSize, AlignUp, FlipBit5, InRange, IsPow2, MappingInsert, RoundUpForSearch, HandedOut;
      ghost var h := View();
      AdjustedRequest(size);
      SearchSizeFacts(align, size);
      var adjust := AdjustRequestSize(size, ALIGN_SIZE);
      ghost var least := SearchSize(align, size);
      var block := BlockLocateFree(SearchSize(align, size));
      ghost var found := block;
      ghost var h1 := View();
      if block != NULL {
        BlockRange(View(), block);
        block := SkipToAligned(block, align, adjust);
        PreservesCompose(h, h1, View(), Live(h.bs));
      }
      ghost var h2 := View();
      p := BlockPrepareUsed(block, adjust);
      PreservesCompose(h, h2, View(), Live(h.bs));
      if p != NULL {
        assert found in h.bs && h.bs[found].free && h.bs[found].size >= least;
      }
    }

    // Grow a live block into its free successor.
    method GrowInPlace(block: nat)
      requires Valid() && block in Allocations() && Next(bs, block) in bs && bs[Next(bs, block)].free
      modifies this
      ensures Valid()
      ensures Allocations() == old(Allocations()[block := bs[block].size + 8 + bs[Next(bs, block)].size])
      ensures Preserves(old(View()), View(), old(Allocations()))
    {
      hide Coherent, BlockSize;
      ghost var h := View();
      UsedFacts(h, block);
      var b := BlockMergeNext(block);
      ghost var h1 := View();
      MarkUsedStepKeeps(h1, block);
      HandledFacts(h1, block);
      mem := MarkAsUsed(mem, block);
      bs := MarkUsed(bs, block);
      assert View() == MarkUsedStep(h1, block);
      FrameShrinks(h1.mem, mem, Live(h1.bs), Live(h.bs), pools, nul);
      PreservesCompose(h, h1, View(), Live(h.bs));
    }

    // malloc, copy, free.
    method ReallocMove(ptr: nat, size: size_t) returns (p: nat)
      requires Valid() && LivePointer(Allocations(), ptr)
      requires AdjustRequestSize(size, 8) > Allocations()[ptr - 16]
      modifies this
      ensures Valid()
      ensures p == NULL ==> View() == old(View()) && Exhausted(View(), AdjustRequestSize(size, 8))
      ensures p != NULL ==> p != ptr && Resized(old(View()), View(), ptr, p, size)
      ensures Preserves(old(View()), View(), Without(old(Allocations()), ptr - 16))
    {
      hide EncAt, AdjustRequestSize, AlignUp;
      ghost var h := View();
      UsedFacts(h, ptr - 16);
      LiveSize(h, ptr - 16);
      RequestCovered(size, Allocations()[ptr - 16]);
      var cursize := BlockSize(mem, ptr - 16);
      p := Malloc(size);
      if p != NULL {
        ghost var h1 := View();
        LiveSize(h1, p - 16);
        ghost var h2 := CopyAndFree(p, ptr, Min(cursize, size));
        MovedContents(h, h1, h2, View(), ptr, p, size);
      }
    }

    method CopyAndFree(p: nat, ptr: nat, n: nat) returns (ghost h2: Heap)
      requires Valid() && LivePointer(Allocations(), p) && LivePointer(Allocations(), ptr) && p != ptr
      requires n <= Allocations()[p - 16] && n <= Allocations()[ptr - 16]
      modifies this
      ensures Valid()
      ensures Live(h2.bs) == old(Allocations()) && Preserves(old(View()), h2, Without(old(Allocations()), p - 16))
      ensures SameBytes(h2.mem, p, old(mem), ptr, n)
      ensures Allocations() == Without(old(Allocations()), ptr - 16) && Preserves(h2, View(), Allocations())
    {
      Memcpy(p, ptr, n);
      h2 := View();
      Free(ptr);
    }

    // The block stays where it is exactly if it can have the room there.  Null says
    // that no free block reaches the rounded request, or that there was none.
    // A request whose adjusted size is 0 resizes nothing: it returns ptr, and
    // cuts the block short exactly when the block has room for a header.  Then
    // memory is no heap any more, whatever blocks and lists one takes it for.
    method Realloc(ptr: nat, size: size_t) returns (p: nat)
      requires Valid() && (ptr == NULL || LivePointer(Allocations(), ptr))
      modifies this
      ensures Valid() <==> !CutsShort(old(Allocations()), ptr, size)
      ensures ptr == NULL && p != NULL ==>
                NewAllocation(old(Allocations()), Allocations(), p, AdjustRequestSize(size, 8))
      ensures ptr != NULL && size == 0 ==> p == NULL && Allocations() == Without(old(Allocations()), ptr - 16)
      ensures p == NULL && (ptr == NULL || size != 0) ==> View() == old(View())
      ensures ptr == NULL && p == NULL ==>
                AdjustRequestSize(size, 8) == 0 || Exhausted(old(View()), AdjustRequestSize(size, 8))
      ensures ptr != NULL && size != 0 && AdjustRequestSize(size, 8) <= RoomInPlace(old(View()), ptr - 16) ==> p == ptr
      ensures ptr != NULL && size != 0 && AdjustRequestSize(size, 8) > RoomInPlace(old(View()), ptr - 16) ==>
                p != ptr && (p == NULL ==> Exhausted(old(View()), AdjustRequestSize(size, 8)))
      ensures ptr != NULL && p != NULL && AdjustRequestSize(size, 8) != 0 ==> Resized(old(View()), View(), ptr, p, size)
      ensures ptr != NULL && size != 0 && AdjustRequestSize(size, 8) == 0 ==>
                && p == ptr
                && (!CutsShort(old(Allocations()), ptr, size) ==> View() == old(View()))
                && (CutsShort(old(Allocations()), ptr, size) ==>
                      forall h: Heap {:trigger TlsfHeap.Valid(h)} :: h.mem == mem && h.pools == old(pools) ==> !TlsfHeap.Valid(h))
      ensures !CutsShort(old(Allocations()), ptr, size) ==>
                Preserves(old(View()), View(),
                          if ptr == NULL then old(Allocations()) else Without(old(Allocations()), ptr - 16))
    {
      hide AdjustRequestSize, AlignUp, FlipBit5, InRange, MappingInsert, RoundUpForSearch;
      p := NULL;
      if ptr != NULL && size == 0 {
        Free(ptr);
      } else if ptr == NULL {
        p := Malloc(size);
      } else {
        ghost var h := View();
        UsedFacts(h, ptr - 16);
        NextFreeFacts(h, ptr - 16);
        LiveSize(h, ptr - 16);
        RequestCovered(size, Allocations()[ptr - 16]);
        var block := ptr - 16;
        var next := BlockNext(mem, block);
        HeaderSize(h, next);
        var cursize := BlockSize(mem, block);
        var combined := cursize + BlockSize(mem, next) + BLOCK_HEADER_OVERHEAD;
        var adjust := AdjustRequestSize(size, ALIGN_SIZE);
        if adjust > cursize && (!IsFree(mem, next) || adjust > combined) {
          p := ReallocMove(ptr, size);
        } else {
          if adjust > cursize {
            GrowInPlace(block);
          }
          p := ptr;
          if adjust == 0 {
            // block_trim_used as below, without a block map for its result.
            if cursize >= SIZEOF_BLOCK_HEADER + adjust {
              TrimToNothing(block);
              forall h': Heap {:trigger TlsfHeap.Valid(h')} | h'.mem == mem && h'.pools == h.pools
                ensures !TlsfHeap.Valid(h')
              {
                CutIsNoHeap(h, block, h');
              }
              assert View().mem == mem && View().pools == h.pools;
            }
          } else {
            ghost var h1 := View();
            BlockTrimUsed(block, adjust);
            ResizedInPlace(h, h1, View(), ptr, size);
          }
        }
      }
    }

    // ------------------------------------------------------------------ pools

    // control_construct: block_null links to itself and every list is empty.
    constructor (address: nat, memory: Mem)
      requires address > 0
      ensures Valid() && Allocations() == map[] && pools == map[] && nul == address
      ensures Frame(memory, mem, map[], map[], address)
    {
      nul := address;
      mem := Store(Store(memory, address + NEXT_FREE_FIELD, address), address + PREV_FREE_FIELD, address);
      flBitmap := 0;
      slBitmap := [];
      heads := map[];
      bs := map[];
      pools := map[];
      new;
      EmptyLists0();
      EmptyHeap();
    }

    method EmptyLists0()
      modifies this`slBitmap, this`heads
      ensures |slBitmap| == FL_INDEX_COUNT && forall f :: 0 <= f < FL_INDEX_COUNT ==> slBitmap[f] == 0
      ensures forall f: nat, s: nat :: f < FL_INDEX_COUNT && s < SL_INDEX_COUNT ==>
                ListIndex(f, s) in heads && heads[ListIndex(f, s)] == nul
    {
      slBitmap := [];
      var i := 0;
      while i < FL_INDEX_COUNT
        invariant 0 <= i <= FL_INDEX_COUNT && |slBitmap| == i
        invariant forall f :: 0 <= f < i ==> slBitmap[f] == 0
        invariant forall f: nat, s: nat :: f < i && s < SL_INDEX_COUNT ==>
                    ListIndex(f, s) in heads && heads[ListIndex(f, s)] == nul
      {
        slBitmap := slBitmap + [0];
        var j := 0;
        while j < SL_INDEX_COUNT
          modifies this`heads
          invariant 0 <= j <= SL_INDEX_COUNT
          invariant forall f: nat, s: nat :: (f < i && s < SL_INDEX_COUNT) || (f == i && s < j) ==>
                      ListIndex(f, s) in heads && heads[ListIndex(f, s)] == nul
        {
          heads := heads[ListIndex(i, j) := nul];
          j := j + 1;
        }
        i := i + 1;
      }
    }

    lemma EmptyHeap()
      requires nul > 0 && bs == map[] && pools == map[] && flBitmap == 0 && |slBitmap| == FL_INDEX_COUNT
      requires forall f :: 0 <= f < FL_INDEX_COUNT ==> slBitmap[f] == 0
      requires forall f: nat, s: nat :: f < FL_INDEX_COUNT && s < SL_INDEX_COUNT ==>
                 ListIndex(f, s) in heads && heads[ListIndex(f, s)] == nul
      ensures Valid()
    {
      forall i | InRange(i)
        ensures i in heads && heads[i] == nul
      {
        assert i == ListIndex(i.fl, i.sl);
      }
      forall f: nat
        ensures !Bit(0, f)
      {
        ZeroHasNoBit(f);
      }
    }

    // Give the allocator the bytes at address.  pool_bytes == 2^32 passes the
    // size test of the C code but has no list, and is excluded here.
    method AddPool(address: nat, bytes: size_t) returns (r: nat)
      requires Valid()
      requires AlignDown(Difference(bytes, 2 * BLOCK_HEADER_OVERHEAD), ALIGN_SIZE) != BLOCK_SIZE_MAX
      requires bytes >= 16 ==> address >= 16 && RegionFree(pools, nul, address - 8, bytes - 16)
      modifies this
      ensures Valid() && Allocations() == old(Allocations())
      ensures r == NULL || r == address
      ensures r != NULL <==>
                address % 8 == 0 && BLOCK_SIZE_MIN + 16 <= bytes < BLOCK_SIZE_MAX + 24
      ensures r == NULL ==> View() == old(View())
      ensures r != NULL ==>
                && pools == old(pools)[address - 8 := (bytes - 16) - bytes % 8]
                && address - 8 in bs && bs[address - 8].free && bs[address - 8].size == (bytes - 16) - bytes % 8
      ensures Frame(old(mem), mem, Allocations(), pools, nul)
    {
      hide And, Lists, BitmapsOk, Coherent, Geo;
      r := NULL;
      var poolBytes := AlignDown(Difference(bytes, 2 * BLOCK_HEADER_OVERHEAD), ALIGN_SIZE);
      AlignDownIsFloor(Difference(bytes, 2 * BLOCK_HEADER_OVERHEAD));
      if address % ALIGN_SIZE != 0 {
        return;
      }
      if poolBytes < BLOCK_SIZE_MIN || poolBytes > BLOCK_SIZE_MAX {
        return;
      }
      InstallPool(address - 8, poolBytes);
      r := address;
    }

    // The body of tlsf_add_pool; the block is filed before its sentinel is
    // written, which SentinelOrder shows to be the same memory.
    method InstallPool(block: nat, poolBytes: nat)
      requires NewPool(View(), block, poolBytes)
      modifies this
      ensures Valid() && Allocations() == old(Allocations()) && pools == old(pools)[block := poolBytes]
      ensures block in bs && bs[block].free && bs[block].size == poolBytes
      ensures Frame(old(mem), mem, Allocations(), pools, nul)
    {
      ghost var h, i := View(), MappingInsert(poolBytes);
      FiledPool(h, block, poolBytes, i);
      WriteBlockHeader(block, poolBytes);
      assert BlockSize(mem, block) == poolBytes by { SizeWordReads(poolBytes, true, false); }
      PoolStores(h, block, poolBytes, i);
      hide PoolStep, InsertStep, Attach, PoolMem;
      InsertStores(block, MappingInsert(BlockSize(mem, block)));
      WriteSentinel(block, poolBytes);
      FiledPoolState(h, block, poolBytes, i);
      bs := InsertStep(PoolStep(h, block, poolBytes), block, i).bs;
      pools := pools[block := poolBytes];
      assert View() == InsertStep(PoolStep(h, block, poolBytes), block, i);
    }

    method WriteBlockHeader(block: nat, poolBytes: nat)
      requires poolBytes % 8 == 0
      modifies this`mem
      ensures mem == Store(old(mem), block + 8, poolBytes + 1)
    {
      FreshHeaders(mem, block, poolBytes);
      mem := SetSize(mem, block, poolBytes);
      mem := SetFree(mem, block);
      mem := SetPrevUsed(mem, block);
    }

    // block_link_next and the sentinel's header.
    method WriteSentinel(block: nat, poolBytes: nat)
      requires poolBytes % 8 == 0 && Load(mem, block + 8) == poolBytes + 1
      modifies this`mem
      ensures mem == old(mem)[block + 8 + poolBytes := block][block + 16 + poolBytes := 2]
    {
      SizeWordReads(poolBytes, true, false);
      var next := BlockNext(mem, block);
      mem := LinkNext(mem, block);
      FreshHeaders(mem, next, 0);
      mem := SetSize(mem, next, 0);
      mem := SetUsed(mem, next);
      mem := SetPrevFree(mem, next);
    }

    // ---------------------------------------------------------------- checkers

    // tlsf_check: the number of violated conditions, negated.  It is 0 exactly if every
    // list passes; len bounds the lists, which the original takes to end.
    method Check(ghost len: ListIndex -> nat) returns (status: int)
      requires HeadsOk(heads) && |slBitmap| == FL_INDEX_COUNT
      requires forall i {:trigger len(i)} :: InRange(i) ==> Ends(mem, nul, heads[i], len(i))
      ensures status <= 0
      ensures status == 0 <==>
        forall i {:trigger len(i)} :: InRange(i) ==> CellSound(flBitmap, slBitmap, mem, nul, heads[i], i, len(i))
    {
      hide CellSound, Ends;
      status := 0;
      var i := 0;
      while i < FL_INDEX_COUNT
        invariant 0 <= i <= FL_INDEX_COUNT && status <= 0
        invariant status == 0 <==> forall c: ListIndex {:trigger len(c)} :: InRange(c) && c.fl < i ==>
          CellSound(flBitmap, slBitmap, mem, nul, heads[c], c, len(c))
      {
        var j := 0;
        while j < SL_INDEX_COUNT
          invariant 0 <= j <= SL_INDEX_COUNT && status <= 0
          invariant status == 0 <==> forall c: ListIndex {:trigger len(c)} :: InRange(c) && (c.fl < i || (c.fl == i && c.sl < j)) ==>
            CellSound(flBitmap, slBitmap, mem, nul, heads[c], c, len(c))
        {
          ghost var n := len(ListIndex(i, j));
          status := CheckList(ListIndex(i, j), status, n);
          j := j + 1;
        }
        i := i + 1;
      }
    }

    static function Insist(status: int, condition: bool): int {
      if condition then status else status - 1
    }

    // The body of the loops of tlsf_check.
    method CheckList(i: ListIndex, status0: int, ghost n: nat) returns (status: int)
      requires InRange(i) && i in heads && |slBitmap| == FL_INDEX_COUNT && Ends(mem, nul, heads[i], n)
      ensures status <= status0
      ensures status == status0 <==> CellSound(flBitmap, slBitmap, mem, nul, heads[i], i, n)
    {
      status := status0;
      var flMap := Bit(flBitmap, i.fl);
      var slList := slBitmap[i.fl];
      var slMap := Bit(slList, i.sl);
      var block: nat := heads[i];
      if !flMap {
        status := Insist(status, !slMap);
      }
      if !slMap {
        status := Insist(status, block == nul);
      } else {
        ZeroHasNoBit(i.sl);
        status := Insist(status, slList != 0);
        status := Insist(status, block != nul);
        ghost var left := n;
        ghost var before := status;
        while block != nul
          invariant Ends(mem, nul, block, left) && status <= before
          invariant status == before && ListSound(mem, nul, block, i, left) <==> ListSound(mem, nul, heads[i], i, n)
          decreases left
        {
          status := CheckBlock(block, i, status);
          block := Load(mem, block + NEXT_FREE_FIELD);
          left := left - 1;
        }
      }
    }

    // The conditions on one listed block.
    method CheckBlock(block: nat, i: ListIndex, status0: int) returns (status: int)
      ensures status <= status0 && (status == status0 <==> BlockSound(mem, block, i))
    {
      hide MappingInsert;
      status := Insist(status0, IsFree(mem, block));
      status := Insist(status, !IsPrevFree(mem, block));
      status := Insist(status, !IsFree(mem, BlockNext(mem, block)));
      status := Insist(status, IsPrevFree(mem, BlockNext(mem, block)));
      status := Insist(status, BlockSize(mem, block) >= BLOCK_SIZE_MIN);
      status := Insist(status, MappingInsert(BlockSize(mem, block)) == i);
    }

    // tlsf_check_pool: walk the pool, comparing each block's prev_free flag
    // with the status of the block before; n bounds the walk.
    method CheckPool(pool: nat, ghost n: nat) returns (status: int)
      requires pool >= 8 && PoolEnds(mem, pool - 8, n)
      ensures status <= 0 && (status == 0 <==> FlagsSound(mem, pool - 8, false, n))
    {
      status := 0;
      var prevFree := false;
      var block: nat := pool - 8;
      ghost var left := n;
      while BlockSize(mem, block) != 0
        invariant status <= 0 && PoolEnds(mem, block, left)
        invariant status == 0 && FlagsSound(mem, block, prevFree, left) <==> FlagsSound(mem, pool - 8, false, n)
        decreases left
      {
        status := Insist(status, prevFree == IsPrevFree(mem, block));
        prevFree := IsFree(mem, block);
        block := BlockNext(mem, block);
        left := left - 1;
      }
    }
  }
}
