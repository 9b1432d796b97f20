// The alignment arithmetic of tlsf_memalign.
module TlsfAlign {
  import opened Bits
  import opened TlsfMapping

  const HALF: nat := 0x8000_0000_0000_0000

  // The size memalign searches for.
  function SearchSize(align: size_t, size: size_t): nat
    requires 0 < align <= HALF && IsPow2(align)
  {
    AdjustedRequest(size);
    var adjust := AdjustRequestSize(size, ALIGN_SIZE);
    var sizeWithGap := AdjustRequestSize(adjust + align + SIZEOF_BLOCK_HEADER, align);
    if adjust != 0 && align > ALIGN_SIZE then sizeWithGap else adjust
  }

  // Distance from ptr to the aligned address that memalign settles on.
  function AlignedGap(ptr: size_t, align: size_t): nat
    requires align > 0
  {
    var aligned := AlignUp(ptr, align);
    var gap := Difference(aligned, ptr);
    if gap != 0 && gap < SIZEOF_BLOCK_HEADER then
      var gapRemain := SIZEOF_BLOCK_HEADER - gap;
      var offset := if gapRemain > align then gapRemain else align;
      Difference(AlignUp(Wrap64(aligned + offset), align), ptr)
    else gap
  }

  // x - y in 64-bit unsigned arithmetic.
  function Difference(x: size_t, y: size_t): size_t {
    if x >= y then x - y else x + U64_MOD - y
  }

  lemma PowerIsLarge(align: nat)
    requires IsPow2(align) && align > 8
    ensures align >= 16 && align % 8 == 0 && (align > 16 ==> align >= 32)
  {
    var k: nat :| align == Pow2(k);
    Pow2Values();
    assert Pow2(4) == 16;
    if k < 4 { Pow2Monotone(k, 3); }
    if k > 4 { Pow2Monotone(5, k); }
    EighthOf(k);
  }

  lemma EighthOf(k: nat)
    requires k >= 4
    ensures Pow2(k) % 8 == 0
  {
    assert Pow2(k) == 2 * Pow2(k - 1) && Pow2(k - 1) == 2 * Pow2(k - 2) && Pow2(k - 2) == 2 * Pow2(k - 3);
  }

  lemma PowerIsSmall(align: nat)
    requires IsPow2(align) && align <= 8
    ensures align == 1 || align == 2 || align == 4 || align == 8
  {
    var k: nat :| align == Pow2(k);
    assert Pow2(0) == 1 && Pow2(1) == 2 && Pow2(2) == 4 && Pow2(3) == 8 && Pow2(4) == 16;
    if k >= 4 { Pow2Monotone(4, k); }
  }

  lemma MultipleOfMultiple(a: nat, align: nat, d: nat)
    requires align > 0 && d > 0 && a % align == 0 && align % d == 0
    ensures a % d == 0
  {
    var q, k := a / align, align / d;
    assert a == q * align && align == k * d;
    assert a == (q * k) * d;
    DivModUnique(a, d, q * k, 0);
  }

  // A multiple of align is its own ceiling, and never wraps.
  lemma AlignedIsFixed(x: size_t, align: size_t)
    requires align > 0 && IsPow2(align) && x % align == 0
    ensures AlignUp(x, align) == x && x + align <= U64_MOD
  {
    hide Pow2, And, Not;
    PowerDividesRange(align);
    var q := U64_MOD / align;
    var p := x / align;
    assert p * align == x && q * align == U64_MOD;
    MultipleIsFar(q - p, align);
    assert (q - p) * align == U64_MOD - x;
    MultipleIsFar(p - q, align);
    assert (p - q) * align == x - U64_MOD;
    var y := x + (align - 1);
    ClearBelow(y, align);
    DivModUnique(y, align, p, align - 1);
  }

  lemma PowerDividesRange(align: size_t)
    requires align > 0 && IsPow2(align)
    ensures U64_MOD % align == 0
  {
    var k: nat :| align == Pow2(k);
    Pow2Values();
    if k > 64 { Pow2Monotone(65, k); }
    SmallerPowerDivides(k, 64);
  }

  lemma {:induction false} SmallerPowerDivides(k: nat, n: nat)
    requires k <= n
    ensures Pow2(n) % Pow2(k) == 0
    decreases n
  {
    if k == n {
      DivModUnique(Pow2(n), Pow2(k), 1, 0);
    } else {
      SmallerPowerDivides(k, n - 1);
      var q := Pow2(n - 1) / Pow2(k);
      assert Pow2(n - 1) == q * Pow2(k);
      assert Pow2(n) == (2 * q) * Pow2(k);
      DivModUnique(Pow2(n), Pow2(k), 2 * q, 0);
    }
  }

  lemma SumOfMultiplesOf(a: nat, b: nat, d: nat)
    requires d > 0 && a % d == 0 && b % d == 0
    ensures (a + b) % d == 0
  {
    assert a == (a / d) * d && b == (b / d) * d;
    assert a + b == (a / d + b / d) * d;
    DivModUnique(a + b, d, a / d + b / d, 0);
  }

  lemma CeilingBounds(x: size_t, align: size_t)
    requires align > 0 && IsPow2(align) && x + (align - 1) < U64_MOD
    ensures x <= AlignUp(x, align) < x + align
  {
    AlignUpIsCeiling(x, align);
  }

  lemma CeilingIsEightfold(x: size_t, align: size_t)
    requires align > 8 && IsPow2(align) && x + (align - 1) < U64_MOD
    ensures AlignUp(x, align) % 8 == 0
  {
    AlignUpIsCeiling(x, align);
    PowerIsLarge(align);
    MultipleOfMultiple(AlignUp(x, align), align, 8);
  }

  // An 8-aligned pointer meets every alignment up to 8.
  lemma SmallCeiling(ptr: size_t, align: size_t)
    requires 0 < align <= 8 && IsPow2(align) && ptr % 8 == 0
    ensures AlignUp(ptr, align) == ptr
  {
    PowerIsSmall(align);
    MultipleOfMultiple(ptr, 8, align);
    AlignedIsFixed(ptr, align);
  }

  lemma NextMultiple(a: size_t, align: size_t)
    requires IsPow2(align) && align > 0 && a % align == 0 && a + align < U64_MOD
    ensures AlignUp(a + align, align) == a + align
  {
    DivModUnique(align, align, 1, 0);
    SumOfMultiplesOf(a, align, align);
    AlignedIsFixed(a + align, align);
  }

  lemma NextMultipleOf16(a: size_t)
    requires IsPow2(16) && a % 16 == 0 && a + 40 < U64_MOD
    ensures AlignUp(a + 24, 16) == a + 32
  {
    hide *;
    AlignUpIsCeiling(a + 24, 16);
  }

  // The first aligned address leaves no gap, or room for a header.
  lemma WideGap(ptr: size_t, align: size_t)
    requires IsPow2(align) && align > 0 && ptr + align <= U64_MOD
    requires AlignUp(ptr, align) == ptr || AlignUp(ptr, align) >= ptr + SIZEOF_BLOCK_HEADER
    ensures ptr + AlignedGap(ptr, align) == AlignUp(ptr, align)
  {
  }

  // Otherwise the next one is taken.
  lemma NarrowGap(ptr: size_t, align: size_t)
    requires IsPow2(align) && align > 8 && ptr % 8 == 0 && ptr + align + 56 <= U64_MOD
    requires ptr < AlignUp(ptr, align) < ptr + SIZEOF_BLOCK_HEADER
    ensures ptr + AlignedGap(ptr, align) == AlignUp(ptr, align) + (if align == 16 then 32 else align)
  {
    hide Not, AlignUp;
    var a := AlignUp(ptr, align);
    CeilingIsEightfold(ptr, align);
    CeilingBounds(ptr, align);
    PowerIsLarge(align);
    assert a % align == 0 by { AlignUpIsCeiling(ptr, align); }
    if align == 16 {
      assert a == ptr + 8;
      NextMultipleOf16(a);
    } else {
      NextMultiple(a, align);
    }
  }

  lemma GapNumbers(ptr: nat, a: nat, gap: nat, align: nat)
    requires ptr % 8 == 0 && a % 8 == 0 && align % 8 == 0 && 16 <= align && ptr <= a < ptr + align
    requires ptr + gap == if ptr < a < ptr + 32 then (if align == 16 then a + 32 else a + align) else a
    requires align > 16 ==> align >= 32
    ensures gap == 0 || 32 <= gap <= align + 24
    ensures gap % 8 == 0
  {
  }

  // For a block of at least align + 56 bytes the gap is zero or holds a whole
  // header, and ends at an aligned address.
  lemma GapFacts(ptr: size_t, align: size_t)
    requires IsPow2(align) && align > 0 && ptr % 8 == 0 && ptr + align + 56 <= U64_MOD
    ensures AlignedGap(ptr, align) == 0 || SIZEOF_BLOCK_HEADER <= AlignedGap(ptr, align) <= align + 24
    ensures AlignedGap(ptr, align) % 8 == 0
  {
    CeilingBounds(ptr, align);
    if align <= 8 {
      SmallCeiling(ptr, align);
      WideGap(ptr, align);
    } else {
      LargeGapFacts(ptr, align);
    }
  }

  lemma LargeGapFacts(ptr: size_t, align: size_t)
    requires IsPow2(align) && align > 8 && ptr % 8 == 0 && ptr + align + 56 <= U64_MOD
    ensures AlignedGap(ptr, align) == 0 || SIZEOF_BLOCK_HEADER <= AlignedGap(ptr, align) <= align + 24
    ensures AlignedGap(ptr, align) % 8 == 0
  {
    var a := AlignUp(ptr, align);
    CeilingBounds(ptr, align);
    PowerIsLarge(align);
    CeilingIsEightfold(ptr, align);
    if ptr < a < ptr + 32 {
      NarrowGap(ptr, align);
    } else {
      WideGap(ptr, align);
    }
    GapNumbers(ptr, a, AlignedGap(ptr, align), align);
  }

  lemma GapIsAligned(ptr: size_t, align: size_t)
    requires IsPow2(align) && align > 0 && ptr % 8 == 0 && ptr + align + 56 <= U64_MOD
    ensures (ptr + AlignedGap(ptr, align)) % align == 0
  {
    hide AlignUp, Pow2, Not;
    var a := AlignUp(ptr, align);
    assert a % align == 0 by { AlignUpIsCeiling(ptr, align); }
    CeilingBounds(ptr, align);
    if align <= 8 { SmallCeiling(ptr, align); } else { PowerIsLarge(align); }
    if ptr < a < ptr + 32 {
      NarrowGap(ptr, align);
      if align == 16 {
        DivModUnique(32, 16, 2, 0);
        SumOfMultiplesOf(a, 32, align);
      } else {
        DivModUnique(align, align, 1, 0);
        SumOfMultiplesOf(a, align, align);
      }
    } else {
      WideGap(ptr, align);
    }
  }

  // Of the gaps that end at an aligned address and are empty or hold a header it is the
  // least.
  lemma GapIsLeast(ptr: size_t, align: size_t, gap: nat)
    requires IsPow2(align) && align > 0 && ptr % 8 == 0 && ptr + align + 56 <= U64_MOD
    requires (ptr + gap) % align == 0 && (gap == 0 || gap >= SIZEOF_BLOCK_HEADER)
    ensures AlignedGap(ptr, align) <= gap
  {
    hide AlignedGap, AlignUp, IsPow2, Pow2, And, Not;
    CeilingBounds(ptr, align);
    if align <= 8 {
      SmallCeiling(ptr, align);
      WideGap(ptr, align);
    } else {
      PowerIsLarge(align);
      var a := AlignUp(ptr, align);
      assert a % align == 0 by { AlignUpIsCeiling(ptr, align); }
      if ptr < a < ptr + 32 {
        NarrowGap(ptr, align);
        CeilingIsEightfold(ptr, align);
        LeastBehind(ptr, a, align, gap);
      } else {
        WideGap(ptr, align);
        LeastAt(ptr, a, align, gap);
      }
    }
  }

  lemma LeastAt(ptr: nat, a: nat, align: nat, gap: nat)
    requires align >= 16 && a % align == 0 && ptr <= a < ptr + align && (ptr + gap) % align == 0
    ensures a <= ptr + gap
  {
    if ptr + gap < a {
      NextAligned(ptr + gap, align, a);
    }
  }

  lemma LeastBehind(ptr: nat, a: nat, align: nat, gap: nat)
    requires align >= 16 && ptr % 8 == 0 && a % 8 == 0 && a % align == 0 && ptr < a < ptr + align && a < ptr + 32
    requires (ptr + gap) % align == 0 && (gap == 0 || gap >= 32) && (align > 16 ==> align >= 32)
    ensures ptr + gap >= a + (if align == 16 then 32 else align)
  {
    hide *;
    LeastAt(ptr, a, align, gap);
    assert gap != 0;
    NextAligned(a, align, ptr + gap);
  }

  // Multiples of align at or above one that is too near.
  lemma NextAligned(a: nat, align: nat, x: nat)
    requires align >= 16 && a % align == 0 && x % align == 0 && x > a
    ensures x >= a + align
    ensures align == 16 && x >= a + 17 ==> x >= a + 32
  {
    var p, q := a / align, x / align;
    assert a == p * align && x == q * align;
    MultipleIsFar(q - p, align);
    MultipleIsFar(p - q, align);
    assert (q - p) * align == x - a;
  }

  // The searched size leaves room for the gap and a header -- unless align is
  // 2^63, where rounding up wraps and only the minimum block is asked for.
  lemma SearchSizeFacts(align: size_t, size: size_t)
    requires 0 < align <= HALF && IsPow2(align)
    ensures var s := SearchSize(align, size); s == 0 || (s % 8 == 0 && BLOCK_SIZE_MIN <= s < BLOCK_SIZE_MAX)
    ensures AdjustRequestSize(size, 8) == 0 ==> SearchSize(align, size) == 0
    ensures align <= 8 ==> SearchSize(align, size) == AdjustRequestSize(size, 8)
    ensures SearchSize(align, size) != 0 && align > 8 ==>
              (SearchSize(align, size) >= AdjustRequestSize(size, 8) + align + SIZEOF_BLOCK_HEADER <==> align < HALF)
  {
    hide AlignUp, Pow2;
    AdjustedRequest(size);
    var adjust := AdjustRequestSize(size, 8);
    if adjust != 0 && align > 8 {
      PowerIsLarge(align);
      if align < HALF {
        HalfOrLess(align);
        CeilingBounds(adjust + align + SIZEOF_BLOCK_HEADER, align);
        CeilingIsEightfold(adjust + align + SIZEOF_BLOCK_HEADER, align);
      } else {
        AlignUpWraps(adjust + align + SIZEOF_BLOCK_HEADER, align);
      }
    }
  }

  lemma HalfOrLess(align: size_t)
    requires IsPow2(align) && align < HALF
    ensures align <= HALF / 2
  {
    var k: nat :| align == Pow2(k);
    Pow2Values();
    assert Pow2(64) == 2 * Pow2(63) && Pow2(63) == 2 * Pow2(62);
    if k >= 63 { Pow2Monotone(63, k); } else { Pow2Monotone(k, 62); }
  }

  // Where the gap ends, for a pointer with enough room behind it.
  lemma RoomForGap(ptr: size_t, align: size_t)
    requires IsPow2(align) && align > 0 && ptr % 8 == 0
    requires align > 8 ==> ptr + align + 56 <= U64_MOD
    requires align <= 8 ==> ptr + 24 <= U64_MOD
    ensures align <= 8 ==> AlignedGap(ptr, align) == 0
    ensures AlignedGap(ptr, align) == 0 || SIZEOF_BLOCK_HEADER <= AlignedGap(ptr, align) <= align + 24
    ensures AlignedGap(ptr, align) % 8 == 0
    ensures (ptr + AlignedGap(ptr, align)) % align == 0
  {
    if align <= 8 {
      SmallCeiling(ptr, align);
      PowerIsSmall(align);
      MultipleOfMultiple(ptr, 8, align);
    } else {
      GapFacts(ptr, align);
      GapIsAligned(ptr, align);
    }
  }

  // A block in which adjust bytes fit behind any gap.
  predicate SkippableBlock(blockSize: nat, align: nat, adjust: nat) {
    blockSize >= if align > ALIGN_SIZE then adjust + align + SIZEOF_BLOCK_HEADER else adjust
  }

  lemma SkippableRoom(blockSize: nat, align: nat, adjust: nat, gap: nat)
    requires SkippableBlock(blockSize, align, adjust) && adjust >= BLOCK_SIZE_MIN
    requires gap != 0 ==> align > 8 && gap <= align + 24
    ensures gap != 0 ==> blockSize >= gap + SIZEOF_BLOCK_HEADER && blockSize - gap >= adjust
    ensures blockSize >= adjust
  {
  }

  // ------------------------------------------------------------- alignment 2^63

  lemma HalfCeiling(x: size_t, align: size_t)
    requires align == HALF
    ensures AlignUp(x, align) == if 0 < x <= HALF then HALF else 0
  {
    HalfIsPower(align);
    if x == 0 {
      AlignedIsFixed(x, align);
    } else if x <= align {
      AlignUpIsCeiling(x, align);
      OnlyMultiple(AlignUp(x, align));
    } else {
      AlignUpWraps(x, align);
    }
  }

  lemma HalfIsPower(align: size_t)
    requires align == HALF
    ensures IsPow2(align)
  {
    Pow2Values();
    assert align == Pow2(63);
  }

  lemma OnlyMultiple(a: nat)
    requires a % HALF == 0 && 0 < a < U64_MOD
    ensures a == HALF
  {
  }

  lemma GapAtHalf(ptr: size_t, align: size_t)
    requires ptr > 0 && align == HALF
    ensures AlignedGap(ptr, align) ==
      if ptr == HALF then 0
      else if ptr + SIZEOF_BLOCK_HEADER <= HALF then HALF - ptr
      else if ptr + SIZEOF_BLOCK_HEADER <= U64_MOD then U64_MOD - ptr
      else U64_MOD + HALF - ptr
  {
    hide AlignUp, IsPow2, Pow2, And, Not, Bit;
    HalfCeiling(ptr, align);
    HalfCeiling(Wrap64(AlignUp(ptr, align) + align), align);
  }

  lemma HalfPlace(p: nat)
    requires p < U64_MOD
    ensures p % HALF == 0 <==> p == 0 || p == HALF
  {
  }

  // What skipping to an aligned address makes of a block: the pointer handed out and
  // the room behind it.  A gap that the block has no room to split off is not skipped.
  function HandedOut(ptr: size_t, blockSize: nat, align: size_t): (nat, nat)
    requires align > 0
  {
    var gap := AlignedGap(ptr, align);
    if gap != 0 && blockSize >= gap + SIZEOF_BLOCK_HEADER then (ptr + gap, blockSize - gap) else (ptr, blockSize)
  }

  // A gap is a multiple of 8 with room for a header, for every alignment and pointer
  // into a block that the search may find.
  lemma GapOrNone(ptr: size_t, blockSize: nat, align: size_t, adjust: nat)
    requires IsPow2(align) && 0 < align <= HALF && 0 < ptr && ptr % 8 == 0 && ptr + 8 + blockSize <= U64_MOD
    requires blockSize >= BLOCK_SIZE_MIN && adjust >= BLOCK_SIZE_MIN
    requires align < HALF ==> SkippableBlock(blockSize, align, adjust)
    ensures AlignedGap(ptr, align) % 8 == 0 && (AlignedGap(ptr, align) == 0 || AlignedGap(ptr, align) >= SIZEOF_BLOCK_HEADER)
    ensures align < HALF ==>
      var (p, room) := HandedOut(ptr, blockSize, align); p % align == 0 && adjust <= room
  {
    hide AlignedGap, AlignUp, IsPow2;
    if align < HALF {
      RoomForGap(ptr, align);
      SkippableRoom(blockSize, align, adjust, AlignedGap(ptr, align));
    } else {
      GapAtHalf(ptr, align);
    }
  }
}
