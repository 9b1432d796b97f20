// What tlsf_check and tlsf_check_pool look for, in any state whose lists and pools end.
module TlsfChecks {
  import opened Bits
  import opened TlsfMapping
  import opened TlsfBlocks
  import opened TlsfMemory
  import opened TlsfBitmaps
  import opened TlsfHeap
  import opened TlsfPools

  // ------------------------------------------------------------------- the lists

  // The list from b on ends within n blocks.
  predicate Ends(m: Mem, nul: nat, b: nat, n: nat)
    decreases n
  {
    b == nul || (n > 0 && Ends(m, nul, Load(m, b + NEXT_FREE_FIELD), n - 1))
  }

  // A block that may stand in list i: free, of a size that belongs there, and with
  // neighbours that are used and know that it is free.
  predicate BlockSound(m: Mem, b: nat, i: ListIndex) {
    && IsFree(m, b) && !IsPrevFree(m, b)
    && !IsFree(m, BlockNext(m, b)) && IsPrevFree(m, BlockNext(m, b))
    && BlockSize(m, b) >= BLOCK_SIZE_MIN && MappingInsert(BlockSize(m, b)) == i
  }

  predicate ListSound(m: Mem, nul: nat, b: nat, i: ListIndex, n: nat)
    requires Ends(m, nul, b, n)
    decreases n
  {
    b == nul || (BlockSound(m, b, i) && ListSound(m, nul, Load(m, b + NEXT_FREE_FIELD), i, n - 1))
  }

  // List i agrees with both levels of the bitmaps, and holds sound blocks only.
  predicate CellSound(fl: nat, sl: seq<nat>, m: Mem, nul: nat, head: nat, i: ListIndex, n: nat)
    requires InRange(i) && |sl| == FL_INDEX_COUNT && Ends(m, nul, head, n)
  {
    && (Bit(sl[i.fl], i.sl) ==> Bit(fl, i.fl))
    && (Bit(sl[i.fl], i.sl) <==> head != nul)
    && ListSound(m, nul, head, i, n)
  }

  // How far the lists of a valid heap go.
  ghost function ListBound(h: Heap, i: ListIndex): nat
    requires HeadsOk(h.heads) && InRange(i)
  {
    if h.heads[i] in h.bs && h.bs[h.heads[i]].node.In? then h.bs[h.heads[i]].node.stamp + 1 else 0
  }

  lemma {:induction false} ValidListSound(h: Heap, b: nat, i: ListIndex, n: nat)
    requires Valid(h) && InRange(i)
    requires b != h.nul ==> b in h.bs && h.bs[b].node.In? && h.bs[b].node.idx == i && h.bs[b].node.stamp < n
    ensures Ends(h.mem, h.nul, b, n) && ListSound(h.mem, h.nul, b, i, n)
    decreases n
  {
    hide Valid, Load;
    if b != h.nul {
      ListReads(h, b);
      BlockReads(h, b);
      BlockReads(h, Next(h.bs, b));
      ValidListSound(h, h.bs[b].node.next, i, n - 1);
    }
  }

  // In a valid heap every list passes.
  lemma ValidCellSound(h: Heap, i: ListIndex)
    requires Valid(h) && InRange(i)
    ensures HeadsOk(h.heads) && |h.sl| == FL_INDEX_COUNT && Ends(h.mem, h.nul, h.heads[i], ListBound(h, i))
    ensures CellSound(h.fl, h.sl, h.mem, h.nul, h.heads[i], i, ListBound(h, i))
  {
    EmptyLists(h.fl, h.sl, h.heads, h.nul, i);
    if h.heads[i] != h.nul {
      HeadFacts(h, i);
    }
    ValidListSound(h, h.heads[i], i, ListBound(h, i));
  }

  ghost function ListBounds(h: Heap): ListIndex -> nat
    requires HeadsOk(h.heads)
  {
    (i: ListIndex) => if InRange(i) then ListBound(h, i) else 0
  }

  lemma ValidListsSound(h: Heap)
    requires Valid(h)
    ensures HeadsOk(h.heads) && |h.sl| == FL_INDEX_COUNT
    ensures forall i {:trigger ListBounds(h)(i)} :: InRange(i) ==>
      Ends(h.mem, h.nul, h.heads[i], ListBounds(h)(i))
      && CellSound(h.fl, h.sl, h.mem, h.nul, h.heads[i], i, ListBounds(h)(i))
  {
    ValidCellSound(h, ListIndex(0, 0));
    hide Valid;
    forall i {:trigger ListBounds(h)(i)} | InRange(i)
      ensures Ends(h.mem, h.nul, h.heads[i], ListBounds(h)(i))
      ensures CellSound(h.fl, h.sl, h.mem, h.nul, h.heads[i], i, ListBounds(h)(i))
    {
      ValidCellSound(h, i);
    }
  }

  // -------------------------------------------------------------------- the pools

  // The blocks from b on end within n.
  predicate PoolEnds(m: Mem, b: nat, n: nat)
    decreases n
  {
    BlockSize(m, b) == 0 || (n > 0 && PoolEnds(m, BlockNext(m, b), n - 1))
  }

  // Every block but the last says of the one before whether it is free.
  predicate FlagsSound(m: Mem, b: nat, prevFree: bool, n: nat)
    requires PoolEnds(m, b, n)
    decreases n
  {
    BlockSize(m, b) == 0
    || (IsPrevFree(m, b) == prevFree && FlagsSound(m, BlockNext(m, b), IsFree(m, b), n - 1))
  }

  lemma {:induction false} ValidPoolSound(h: Heap, b: nat, n: nat)
    requires Valid(h) && b in h.bs && h.bs[b].pool in h.pools && PoolEnd(h.pools, h.bs[b].pool) <= b + n
    ensures PoolEnds(h.mem, b, n) && FlagsSound(h.mem, b, h.bs[b].prevFree, n)
    decreases n
  {
    hide Valid, Load, PoolEnd;
    WithinPool(h, b);
    BlockReads(h, b);
    if h.bs[b].size > 0 {
      WithinPool(h, Next(h.bs, b));
      ValidPoolSound(h, Next(h.bs, b), n - 1);
    }
  }

  // In a valid heap every pool passes.
  lemma ValidPoolPasses(h: Heap, p: nat)
    requires Valid(h) && p in h.pools
    ensures PoolEnds(h.mem, p, PoolEnd(h.pools, p)) && FlagsSound(h.mem, p, false, PoolEnd(h.pools, p))
  {
    hide Valid;
    PoolFirst(h, p);
    ValidPoolSound(h, p, PoolEnd(h.pools, p));
  }
}
