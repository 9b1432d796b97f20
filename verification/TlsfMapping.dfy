// Size arithmetic of the TLSF allocator: request adjustment and the mapping
// from block sizes to first- and second-level list indices.
module TlsfMapping {
  import opened Bits

  const ALIGN_SIZE: nat := 8
  const SL_INDEX_COUNT_LOG2: nat := 5
  const SL_INDEX_COUNT: nat := 32
  const FL_INDEX_SHIFT: nat := 8
  const FL_INDEX_COUNT: nat := 25
  const SMALL_BLOCK_SIZE: nat := 256
  const BLOCK_HEADER_OVERHEAD: nat := 8
  const BLOCK_SIZE_MIN: nat := 24
  const BLOCK_SIZE_MAX: nat := 0x1_0000_0000
  const SIZEOF_BLOCK_HEADER: nat := 32

  type size_t = x: nat | x < U64_MOD

  ghost predicate IsPow2(align: nat) {
    exists k: nat :: align == Pow2(k)
  }

  // (x + (align - 1)) & ~(align - 1) in 64-bit unsigned arithmetic.
  function AlignUp(x: size_t, align: size_t): size_t
    requires align > 0
  {
    Pow2Values();
    And(Wrap64(x + (align - 1)), Not(64, align - 1))
  }

  // x - (x & (align - 1))
  function AlignDown(x: size_t, align: size_t): size_t
    requires align > 0
  {
    x - And(x, align - 1)
  }

  function AdjustRequestSize(size: size_t, align: size_t): size_t
    requires align > 0
  {
    if size == 0 then 0
    else
      var aligned := AlignUp(size, align);
      if aligned < BLOCK_SIZE_MAX then (if aligned < BLOCK_SIZE_MIN then BLOCK_SIZE_MIN else aligned) else 0
  }

  // y & ~(align - 1) rounds down to a multiple of the power of two align.
  lemma ClearBelow(y: size_t, align: size_t)
    requires align > 0 && IsPow2(align)
    ensures Pow2(64) == U64_MOD
    ensures And(y, Not(64, align - 1)) == y - y % align
  {
    Pow2Values();
    var k: nat :| align == Pow2(k);
    if k > 64 { Pow2Monotone(65, k); }
    ClearLowBits(64, y, k);
  }

  // Without wrap-around AlignUp is the least multiple of align at or above x.
  lemma AlignUpIsCeiling(x: size_t, align: size_t)
    requires align > 0 && IsPow2(align) && x + (align - 1) < U64_MOD
    ensures AlignUp(x, align) % align == 0
    ensures x <= AlignUp(x, align) < x + align
  {
    hide Pow2;
    var y := x + (align - 1);
    assert Wrap64(y) == y;
    ClearBelow(y, align);
    ModOfMultiple(y, align);
    RemainderBelow(y, align);
  }

  // With wrap-around it is zero.
  lemma AlignUpWraps(x: size_t, align: size_t)
    requires align > 0 && IsPow2(align) && x + (align - 1) >= U64_MOD
    ensures AlignUp(x, align) == 0
  {
    var y := x + (align - 1) - U64_MOD;
    ClearBelow(y, align);
    assert Wrap64(x + (align - 1)) == y;
    DivModUnique(y, align, 0, y);
  }

  lemma RemainderBelow(y: nat, d: nat)
    requires d > 0
    ensures y % d < d
  {
  }

  lemma ModOfMultiple(y: nat, d: nat)
    requires d > 0
    ensures (y - y % d) % d == 0
  {
    DivModUnique(y - y % d, d, y / d, 0);
  }

  lemma AlignDownIsFloor(x: size_t)
    ensures AlignDown(x, 8) == x - x % 8
  {
    Pow2Values();
    LowBits(x, 3);
  }

  lemma {:induction false} LowBits(y: nat, k: nat)
    ensures And(y, Pow2(k) - 1) == y % Pow2(k)
    decreases k
  {
    if k > 0 {
      LowBits(y / 2, k - 1);
      ModHalf(k, y);
      assert (Pow2(k) - 1) / 2 == Pow2(k - 1) - 1;
    }
  }

  // An adjusted request is 0, or an 8-aligned size in the allocatable range
  // that covers the request -- except for the last seven sizes, which wrap.
  lemma AdjustedRequest(size: size_t)
    ensures var a := AdjustRequestSize(size, 8);
            a == 0 || (a % 8 == 0 && BLOCK_SIZE_MIN <= a < BLOCK_SIZE_MAX)
    ensures AdjustRequestSize(size, 8) == 0 <==> size == 0 || BLOCK_SIZE_MAX - 8 < size <= U64_MOD - 8
    ensures AdjustRequestSize(size, 8) >= size <==> size <= BLOCK_SIZE_MAX - 8
    ensures U64_MOD - 8 < size ==> AdjustRequestSize(size, 8) == BLOCK_SIZE_MIN
    ensures AdjustRequestSize(size, 8) > BLOCK_SIZE_MIN ==> AdjustRequestSize(size, 8) < size + 8
  {
    Pow2Values();
    if size + 7 < U64_MOD {
      AlignUpIsCeiling(size, 8);
    } else {
      AlignUpWraps(size, 8);
    }
  }

  datatype ListIndex = ListIndex(fl: nat, sl: nat)

  predicate InRange(i: ListIndex) {
    i.fl < FL_INDEX_COUNT && i.sl < SL_INDEX_COUNT
  }

  // List i holds sizes of list j or larger ones.
  predicate AtOrAfter(i: ListIndex, j: ListIndex) {
    i.fl > j.fl || (i.fl == j.fl && i.sl >= j.sl)
  }

  // (1 << SL_INDEX_COUNT_LOG2) ^ x
  function FlipBit5(x: nat): nat {
    if x / 32 % 2 == 1 then x - 32 else x + 32
  }

  function MappingInsert(size: nat): (r: ListIndex) {
    if size < SMALL_BLOCK_SIZE then
      ListIndex(0, size / 8)
    else
      var fl := Fls(size);
      FlsAtLeast8(size);
      ListIndex(fl - (FL_INDEX_SHIFT - 1), FlipBit5(Shr(size, fl - SL_INDEX_COUNT_LOG2)))
  }

  // (1 << (fls(size) - SL_INDEX_COUNT_LOG2)) - 1 is added before the lookup.
  function RoundUpForSearch(size: nat): nat {
    if size >= SMALL_BLOCK_SIZE then
      FlsAtLeast8(size);
      size + (Shl(1, Fls(size) - SL_INDEX_COUNT_LOG2) - 1)
    else size
  }

  function MappingSearch(size: nat): ListIndex {
    MappingInsert(RoundUpForSearch(size))
  }

  lemma FlsAtLeast8(size: nat)
    requires size >= SMALL_BLOCK_SIZE
    ensures Fls(size) >= 8
  {
    Pow2Values();
    if Fls(size) < 8 { Pow2Monotone(Fls(size) + 1, 8); }
  }

  // The smallest size that MappingInsert sends to list i.
  function LowerBound(i: ListIndex): nat {
    if i.fl == 0 then 8 * i.sl else Shl(32 + i.sl, i.fl + 2)
  }

  lemma SixBits(q: nat)
    requires q > 0 && Fls(q) == 5
    ensures 32 <= q < 64 && FlipBit5(q) == q - 32
  {
    Pow2Values();
    assert Pow2(6) == 64;
  }

  // A large size falls in slice sl of the 32 equal slices of [2^fl, 2^(fl+1)).
  lemma LargeSlice(size: nat)
    requires size >= SMALL_BLOCK_SIZE
    ensures MappingInsert(size).fl == Fls(size) - 7 >= 1
    ensures MappingInsert(size).sl < 32
    ensures 32 + MappingInsert(size).sl == Shr(size, MappingInsert(size).fl + 2)
  {
    hide Fls, Shr, Pow2, And;
    FlsAtLeast8(size);
    var k := Fls(size) - 5;
    ShrOfFls(size, k);
    SixBits(Shr(size, k));
  }

  // Larger sizes go to later lists.
  lemma MappingMonotone(x: nat, y: nat)
    requires x <= y
    ensures AtOrAfter(MappingInsert(y), MappingInsert(x))
  {
    hide FlipBit5, Pow2, Fls;
    if y >= SMALL_BLOCK_SIZE {
      LargeSlice(y);
      if x >= SMALL_BLOCK_SIZE {
        LargeSlice(x);
        FlsMonotone(x, y);
        ShrMonotone(x, y, MappingInsert(x).fl + 2);
      }
    }
  }

  lemma FlsAgainst(size: nat, k: nat)
    requires size > 0
    ensures Fls(size) >= k <==> size >= Pow2(k)
  {
    if Fls(size) >= k {
      Pow2Monotone(k, Fls(size));
    } else {
      Pow2Monotone(Fls(size) + 1, k);
    }
  }

  // Exactly the sizes below 2^32 have a list; 2^32 itself indexes past the end.
  lemma MappingInRange(size: nat)
    ensures InRange(MappingInsert(size)) <==> size < BLOCK_SIZE_MAX
    ensures MappingInsert(size).sl < SL_INDEX_COUNT
    ensures size == BLOCK_SIZE_MAX ==> MappingInsert(size).fl == FL_INDEX_COUNT
  {
    if size >= SMALL_BLOCK_SIZE {
      LargeSlice(size);
      Pow2Values();
      FlsAgainst(size, 32);
      FlsAgainst(size, 33);
      assert Pow2(33) == 2 * Pow2(32);
    }
  }

  // The lists are ordered by their lower bounds: a size is mapped to list i or
  // a later one exactly when it reaches the lower bound of i.
  lemma MappingThreshold(size: nat, i: ListIndex)
    requires i.sl < SL_INDEX_COUNT
    ensures AtOrAfter(MappingInsert(size), i) <==> size >= LowerBound(i)
  {
    hide Pow2, Fls;
    var m := MappingInsert(size);
    if i.fl > 0 {
      ShlOfSum(32, i.sl, i.fl + 2);
      ShlAdds(1, 5, i.fl + 2);
      ShlOne(i.fl + 7);
      assert Shl(1, 5) == 32;
      assert Shl(32, i.fl + 2) == Pow2(i.fl + 7);
      Pow2Monotone(8, i.fl + 7);
      Pow2Values();
    }
    if size >= SMALL_BLOCK_SIZE {
      LargeSlice(size);
      if i.fl > 0 { LargeThreshold(size, i); }
    }
  }

  lemma QuotientAtLeast64(size: nat, k: nat)
    requires size > 0 && Fls(size) >= k + 6
    ensures Shr(size, k) >= 64
  {
    ShrOfFls(size, k);
    FlsIsLarge(Shr(size, k), 6);
    assert Pow2(6) == 64;
  }

  // Shr(size, fl + 2) against 32 and 64 tells how fl compares with the list.
  lemma QuotientOrder(size: nat, fl: nat)
    requires size >= SMALL_BLOCK_SIZE
    ensures Fls(size) - 7 > fl ==> Shr(size, fl + 2) >= 64
    ensures Fls(size) - 7 < fl ==> Shr(size, fl + 2) < 32
  {
    if Fls(size) - 7 > fl {
      QuotientAtLeast64(size, fl + 2);
    } else if Shr(size, fl + 2) >= 32 {
      QuotientIsLarge(size, fl + 2);
    }
  }

  lemma LargeThreshold(size: nat, i: ListIndex)
    requires size >= SMALL_BLOCK_SIZE && i.fl > 0 && i.sl < SL_INDEX_COUNT
    ensures AtOrAfter(MappingInsert(size), i) <==> size >= Shl(32 + i.sl, i.fl + 2)
  {
    LargeSlice(size);
    ShrAtLeast(size, 32 + i.sl, i.fl + 2);
    QuotientOrder(size, i.fl);
  }

  lemma QuotientIsLarge(x: nat, k: nat)
    requires Shr(x, k) >= 32
    ensures x > 0 && Fls(x) >= k + 5
  {
    ShrBelow(x, k);
    ShrOfFls(x, k);
    FlsOf32(Shr(x, k));
  }

  lemma FlsOf32(q: nat)
    requires q >= 32
    ensures Fls(q) >= 5
  {
    Pow2Values();
    if Fls(q) < 5 { Pow2Monotone(Fls(q) + 1, 5); }
  }

  lemma FlsIsLarge(q: nat, k: nat)
    requires q > 0 && Fls(q) >= k
    ensures q >= Pow2(k)
  {
    Pow2Monotone(k, Fls(q));
  }

  lemma {:induction false} ShrBelow(x: nat, k: nat)
    requires Shr(x, k) > 0
    ensures x > 0 && k <= Fls(x)
    decreases k
  {
    if k > 0 {
      ShrBelow(x / 2, k - 1);
      if x == 0 { assert false; }
    }
  }

  lemma ShlOf32(k: nat)
    ensures Shl(32, k) == Pow2(k + 5)
  {
    ShlAdds(1, 5, k);
    ShlOne(k + 5);
    assert Shl(1, 5) == 32;
  }

  lemma Pow2Plus5(k: nat)
    ensures Pow2(k + 5) == 32 * Pow2(k)
  {
    assert Pow2(k + 5) == 2 * Pow2(k + 4) && Pow2(k + 4) == 2 * Pow2(k + 3);
    assert Pow2(k + 3) == 2 * Pow2(k + 2) && Pow2(k + 2) == 2 * Pow2(k + 1);
  }

  lemma RoundingCost(size: nat)
    ensures RoundUpForSearch(size) == size || 32 * (RoundUpForSearch(size) - size) < size
    ensures size >= SMALL_BLOCK_SIZE ==> Fls(size) >= 8 && RoundUpForSearch(size) == size + Pow2(Fls(size) - 5) - 1
  {
    hide Fls, Shl, Pow2;
    if size >= SMALL_BLOCK_SIZE {
      FlsAtLeast8(size);
      ShlOne(Fls(size) - 5);
      Pow2Plus5(Fls(size) - 5);
    }
  }

  // A number between its quotient by 2^k and the next one.
  lemma QuotientWidth(r: nat, q: nat, k: nat)
    requires q >= 32 && q == Shr(r, k)
    ensures Pow2(k + 5) <= Shl(q, k) && r < Shl(q, k) + Pow2(k)
  {
    ShrAtLeast(r, q + 1, k);
    ShlOfSum(q, 1, k);
    ShlOne(k);
    ShlOfSum(32, q - 32, k);
    ShlOf32(k);
  }

  lemma SliceOf(r: nat, m: ListIndex, f: nat)
    requires m.fl >= 1 && f == m.fl + 7 && 32 + m.sl == Shr(r, m.fl + 2)
    ensures r < LowerBound(m) + Pow2(f - 5) && LowerBound(m) >= Pow2(f)
  {
    QuotientWidth(r, 32 + m.sl, m.fl + 2);
  }

  // A list's lower bound is within one slice of every size mapped to it.
  lemma SliceWidth(r: nat)
    requires r >= SMALL_BLOCK_SIZE
    ensures Fls(r) >= 8
    ensures r < LowerBound(MappingInsert(r)) + Pow2(Fls(r) - 5)
    ensures LowerBound(MappingInsert(r)) >= Pow2(Fls(r))
  {
    hide *;
    LargeSlice(r);
    SliceOf(r, MappingInsert(r), Fls(r));
  }

  // Rounding up before the lookup makes the list's lower bound reach size.
  lemma SearchListIsLargeEnough(size: nat)
    requires size % 8 == 0 || size >= SMALL_BLOCK_SIZE
    ensures LowerBound(MappingSearch(size)) >= size
  {
    if size >= SMALL_BLOCK_SIZE {
      RoundedListIsLargeEnough(size, RoundUpForSearch(size));
    }
  }

  lemma RoundedListIsLargeEnough(size: nat, r: nat)
    requires size >= SMALL_BLOCK_SIZE && r == RoundUpForSearch(size)
    ensures LowerBound(MappingInsert(r)) >= size
  {
    hide Pow2, Fls, RoundUpForSearch;
    RoundingCost(size);
    SliceWidth(r);
    FlsMonotone(size, r);
    assert r >= size;
    BoundReachesSize(size, r, LowerBound(MappingInsert(r)));
  }

  lemma BoundReachesSize(size: nat, r: nat, low: nat)
    requires 0 < size <= r && 5 <= Fls(size) <= Fls(r)
    requires r == size + Pow2(Fls(size) - 5) - 1 && Pow2(Fls(r)) <= low && r < low + Pow2(Fls(r) - 5)
    ensures low >= size
  {
    if Fls(r) > Fls(size) {
      Pow2Monotone(Fls(size) + 1, Fls(r));
    }
  }

  // Good fit: every block in the list searched first, or in a later one, is
  // large enough, every block as large as the rounded-up request is in one of
  // those lists, and rounding costs less than a 32nd of the request.
  lemma GoodFit(size: nat, block: nat)
    requires size % 8 == 0 || size >= SMALL_BLOCK_SIZE
    ensures AtOrAfter(MappingInsert(block), MappingSearch(size)) ==> block >= size
    ensures block >= RoundUpForSearch(size) ==> AtOrAfter(MappingInsert(block), MappingSearch(size))
    ensures RoundUpForSearch(size) == size || 32 * (RoundUpForSearch(size) - size) < size
  {
    MappingInRange(RoundUpForSearch(size));
    MappingThreshold(block, MappingSearch(size));
    SearchListIsLargeEnough(size);
    RoundingCost(size);
    if block >= RoundUpForSearch(size) {
      MappingMonotone(RoundUpForSearch(size), block);
    }
  }
}
