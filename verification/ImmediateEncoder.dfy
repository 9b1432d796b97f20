// aarch64_encode_immediate: which values it encodes, and when the fields it
// returns stand for the value.
module ImmediateEncoder {
  import opened Bits
  import opened BitFields
  import opened BitCounts
  import opened LogicalImmediate

  const FULL: Word64 := 0xFFFF_FFFF_FFFF_FFFF

  // fls of the low 32 bits
  function Fls32(x: Word64): nat {
    var y := x % 0x1_0000_0000;
    if y == 0 then 0 else Fls(y) + 1
  }

  // imm repeats its low e bits on width bits.
  ghost predicate Periodic(imm: Word64, e: nat, width: nat)
    requires e > 0
  {
    forall i: nat {:trigger Bit(imm, i)} :: i < width ==> Bit(imm, i) == Bit(imm, i % e)
  }

  // The element of size e.
  function ElementOf(imm: Word64, e: nat): (x: Word64)
    requires e <= 64
  {
    ModSmaller(imm, Pow2(e));
    imm % Pow2(e)
  }

  lemma ElementBits(imm: Word64, e: nat, j: nat)
    requires e <= 64
    ensures Bit(ElementOf(imm, e), j) <==> j < e && Bit(imm, j)
  {
    BitTruncate(e, imm, j);
  }

  // The complement within the element.
  function Inverse(x: Word64, e: nat): (z: int)
    requires e <= 64
  {
    Pow2(e) - 1 - x
  }

  lemma {:induction false} CountComplement(x: nat, e: nat)
    requires x < Pow2(e)
    ensures PopCount(x) + PopCount(Pow2(e) - 1 - x) == e
    decreases e
  {
    if e > 0 {
      CountComplement(x / 2, e - 1);
      assert (Pow2(e) - 1 - x) / 2 == Pow2(e - 1) - 1 - x / 2;
      assert (Pow2(e) - 1 - x) % 2 == 1 - x % 2;
    }
  }

  lemma {:induction false} FlsBits(v: nat, j: nat)
    requires v > 0
    ensures Bit(v, Fls(v)) && (j > Fls(v) ==> !Bit(v, j))
    decreases v
  {
    if v > 1 {
      FlsBits(v / 2, if j > 0 then j - 1 else 0);
    } else if j > 0 {
      ZeroHasNoBit(j - 1);
    }
  }

  lemma FlsOfRun(v: nat, lo: nat, n: nat)
    requires v > 0 && n > 0 && IsRun(v, lo, n)
    ensures Fls(v) == lo + n - 1
  {
    FlsBits(v, lo + n - 1);
    assert Bit(v, Fls(v)) && Bit(v, lo + n - 1);
  }

  // ----------------------------------------------------------------- the fields

  function FieldsFor(e: nat, ror: nat, ones: nat): Encoded
    requires IsSize(e) && ones > 0
  {
    Fields(if e == 64 then 1 else 0, (e - ror) % e, SizeField(ones, e))
  }

  ghost predicate MatchesElement(imm: Word64, width: nat, e: nat, s: nat, r: nat)
    requires e > 0
  {
    forall i: nat {:trigger Bit(imm, i)} :: i < width ==> (Bit(imm, i) <==> PatternBit(Element(e, s, r), i))
  }

  lemma DecodesIfMatches(imm: Word64, width: nat, e: nat, ror: nat, ones: nat)
    requires IsSize(e) && ror <= e && 0 < ones < e
    ensures DecodesTo(FieldsFor(e, ror, ones), imm, width) <==> MatchesElement(imm, width, e, ones - 1, (e - ror) % e)
  {
    FieldsDecode(ones, e, (e - ror) % e);
  }

  // A run in an element of e bits ends there.
  lemma RunFits(x: nat, lo: nat, n: nat, e: nat)
    requires x < Pow2(e) && IsRun(x, lo, n) && Bit(x, lo)
    ensures n > 0 && lo + n <= e
  {
    assert Bit(x, lo + n - 1);
    BitInWidth(e, x, lo + n - 1);
  }

  lemma RunBit(imm: Word64, e: nat, lo: nat, n: nat, i: nat)
    requires 0 < e <= 64 && n > 0 && lo + n <= e && IsRun(ElementOf(imm, e), lo, n) && Bit(imm, i) == Bit(imm, i % e)
    ensures Bit(imm, i) <==> PatternBit(Element(e, n - 1, (e - lo) % e), i)
  {
    ElementBits(imm, e, i % e);
    RotatedRun(e, lo, n, i % e);
  }

  // An element that is a run of ones is encoded right.
  lemma RunSound(imm: Word64, e: nat, width: nat)
    requires IsSize(e) && Periodic(imm, e, width)
    requires var x := ElementOf(imm, e); x > 0 && RangeOfOnes(x) && PopCount(x) < e
    ensures var x := ElementOf(imm, e);
      Ffs(x) < e && PopCount(x) > 0 && DecodesTo(FieldsFor(e, Ffs(x), PopCount(x)), imm, width)
  {
    hide Fls, Shr, Shl, Pow2, And, Or, Bit, Ffs;
    var x := ElementOf(imm, e);
    var lo, n := Ffs(x), PopCount(x);
    RangeIsRun(x);
    RunFits(x, lo, n, e);
    forall i: nat {:trigger Bit(imm, i)} | i < width
      ensures Bit(imm, i) <==> PatternBit(Element(e, n - 1, (e - lo) % e), i)
    {
      RunBit(imm, e, lo, n, i);
    }
    DecodesIfMatches(imm, width, e, lo, n);
  }

  lemma GapBit(imm: Word64, e: nat, lo: nat, n: nat, i: nat)
    requires 0 < e <= 64 && 0 < n < e && lo + n <= e && Bit(imm, i) == Bit(imm, i % e)
    requires Inverse(ElementOf(imm, e), e) >= 0 && IsRun(Inverse(ElementOf(imm, e), e), lo, n)
    ensures Bit(imm, i) <==> PatternBit(Element(e, e - n - 1, (e - (lo + n)) % e), i)
  {
    GapBitAt(imm, e, lo, n, i % e);
    RotatedGap(e, lo, lo + n, i % e);
  }

  lemma GapBitAt(imm: Word64, e: nat, lo: nat, n: nat, j: nat)
    requires j < e <= 64 && Inverse(ElementOf(imm, e), e) >= 0 && IsRun(Inverse(ElementOf(imm, e), e), lo, n)
    ensures Bit(imm, j) <==> !(lo <= j < lo + n)
  {
    ElementBits(imm, e, j);
    BitNot(e, ElementOf(imm, e), j);
  }

  // An element whose zeros are one run is encoded right when the highest zero is
  // among the low 32 bits.
  lemma GapSound(imm: Word64, e: nat, width: nat, x: Word64, z: Word64)
    requires IsSize(e) && Periodic(imm, e, width) && x == ElementOf(imm, e) && z == Inverse(x, e)
    requires 0 < z < 0x1_0000_0000 && RangeOfOnes(z) && PopCount(z) < e
    ensures PopCount(x) > 0 && Fls32(z) <= e
    ensures DecodesTo(FieldsFor(e, Fls32(z), PopCount(x)), imm, width)
  {
    GapPlace(z, e);
    CountComplement(x, e);
    GapDecodes(imm, e, width, x, Ffs(z), PopCount(z), Fls32(z), PopCount(x));
  }

  lemma GapDecodes(imm: Word64, e: nat, width: nat, x: Word64, lo: nat, n: nat, ror: nat, ones: nat)
    requires IsSize(e) && Periodic(imm, e, width) && x == ElementOf(imm, e) && Inverse(x, e) >= 0
    requires IsRun(Inverse(x, e), lo, n) && 0 < n < e && ror == lo + n <= e && ones == e - n
    ensures DecodesTo(FieldsFor(e, ror, ones), imm, width)
  {
    GapMatches(imm, e, width, lo, n);
    DecodesIfMatches(imm, width, e, ror, ones);
  }

  lemma GapPlace(z: Word64, e: nat)
    requires 0 < z < 0x1_0000_0000 && z < Pow2(e) && RangeOfOnes(z)
    ensures IsRun(z, Ffs(z), PopCount(z)) && PopCount(z) > 0
    ensures Fls32(z) == Ffs(z) + PopCount(z) <= e
  {
    RangeIsRun(z);
    RunPlace(z, e, Ffs(z), PopCount(z));
  }

  lemma RunPlace(z: Word64, e: nat, lo: nat, n: nat)
    requires 0 < z < 0x1_0000_0000 && z < Pow2(e) && IsRun(z, lo, n) && Bit(z, lo)
    ensures n > 0 && Fls32(z) == lo + n <= e
  {
    RunFits(z, lo, n, e);
    FlsOfRun(z, lo, n);
    Fls32Small(z);
  }

  lemma Fls32Small(z: Word64)
    requires 0 < z < 0x1_0000_0000
    ensures Fls32(z) == Fls(z) + 1
  {
    assert z % 0x1_0000_0000 == z;
  }

  lemma GapMatches(imm: Word64, e: nat, width: nat, lo: nat, n: nat)
    requires 0 < e <= 64 && 0 < n < e && lo + n <= e && Periodic(imm, e, width)
    requires Inverse(ElementOf(imm, e), e) >= 0 && IsRun(Inverse(ElementOf(imm, e), e), lo, n)
    ensures MatchesElement(imm, width, e, e - n - 1, (e - (lo + n)) % e)
  {
    forall i: nat {:trigger Bit(imm, i)} | i < width
      ensures Bit(imm, i) <==> PatternBit(Element(e, e - n - 1, (e - (lo + n)) % e), i)
    {
      GapBit(imm, e, lo, n, i);
    }
  }

  // A 64-bit element with a zero above bit 31 inside ones gets the wrong rotation.
  lemma HighGapUnsound(imm: Word64)
    requires 0 < imm < FULL && !RangeOfOnes(imm) && RangeOfOnes(FULL - imm) && FULL - imm >= 0x1_0000_0000
    ensures PopCount(imm) > 0 && Fls32(FULL - imm) <= 64
    ensures !DecodesTo(FieldsFor(64, Fls32(FULL - imm), PopCount(imm)), imm, 64)
  {
    hide SizeField, FieldsFor, DecodesTo, MatchesElement;
    Pow2Values();
    var z := FULL - imm;
    var lo, n := Ffs(z), PopCount(z);
    RangeIsRun(z);
    RunFits(z, lo, n, 64);
    CountComplement(imm, 64);
    GapIsInside(imm, lo, n);
    LowZeros(z, lo, n);
    DecodesIfMatches(imm, 64, 64, Fls32(z), 64 - n);
    WrongRotation(imm, lo, n, Fls32(z));
  }

  lemma WrongRotation(imm: Word64, lo: nat, n: nat, ror: nat)
    requires 0 < lo && 0 < n && 32 < lo + n < 64 && IsRun(FULL - imm, lo, n) && ror == (if lo < 32 then 32 else 0)
    ensures !MatchesElement(imm, 64, 64, 64 - n - 1, (64 - ror) % 64)
  {
    Pow2Values();
    BitNot(64, imm, 63);
    BitNot(64, imm, 32);
    assert Bit(imm, 63) && (lo < 32 ==> !Bit(imm, 32));
    assert !PatternBit(Element(64, 64 - n - 1, 0), 63);
    assert PatternBit(Element(64, 64 - n - 1, 32), 32);
  }

  // Not being a run of ones itself, imm has ones at both ends.
  lemma GapIsInside(imm: Word64, lo: nat, n: nat)
    requires 0 < imm < FULL && !RangeOfOnes(imm) && n > 0 && lo + n <= 64 && IsRun(FULL - imm, lo, n)
    ensures 0 < lo && lo + n < 64
  {
    Pow2Values();
    if lo == 0 || lo + n == 64 {
      var start, len := if lo == 0 then n else 0, if lo == 0 then 64 - n else lo;
      forall j: nat {:trigger Bit(imm, j)} ensures Bit(imm, j) <==> start <= j < start + len {
        if j < 64 {
          BitNot(64, imm, j);
          assert Bit(FULL - imm, j) <==> lo <= j < lo + n;
        } else if Bit(imm, j) {
          BitInWidth(64, imm, j);
        }
      }
      assert Bit(imm, Ffs(imm));
      RunIsRange(imm, start, len);
    }
  }

  // What the low 32 bits of the zeros look like.
  lemma LowZeros(z: Word64, lo: nat, n: nat)
    requires n > 0 && lo + n <= 64 && IsRun(z, lo, n) && z >= 0x1_0000_0000
    ensures lo + n > 32
    ensures Fls32(z) == if lo < 32 then 32 else 0
  {
    Pow2Values();
    var y := z % 0x1_0000_0000;
    FlsOfRun(z, lo, n);
    if lo + n <= 32 {
      Pow2Monotone(Fls(z) + 1, 32);
    }
    forall j: nat {:trigger Bit(y, j)} ensures Bit(y, j) <==> j < 32 && lo <= j < lo + n {
      BitTruncate(32, z, j);
    }
    if lo < 32 {
      assert Bit(y, lo);
      BitInWidth(32, y, lo);
      assert IsRun(y, lo, 32 - lo);
      FlsOfRun(y, lo, 32 - lo);
    } else if y > 0 {
      assert Bit(y, Ffs(y));
    }
  }

  // ------------------------------------------------------------ finding the element

  // The two halves of the low 2t bits are equal.
  predicate HalvesEqual(imm: Word64, t: nat) {
    And(imm, Pow2(t) - 1) == And(Shr(imm, t), Pow2(t) - 1)
  }

  // The element size that the halving loop stops at.
  function StopSize(imm: Word64, e: nat): (s: nat)
    requires IsSize(e)
    ensures IsSize(s) && s <= e
  {
    if e >= 4 && HalvesEqual(imm, e / 2) then StopSize(imm, e / 2) else e
  }

  lemma HalfBits(imm: Word64, t: nat, j: nat)
    requires HalvesEqual(imm, t) && j < t
    ensures Bit(imm, j) == Bit(imm, j + t)
  {
    BitAnd(imm, Pow2(t) - 1, j);
    BitAnd(Shr(imm, t), Pow2(t) - 1, j);
    BitOnes(t, j);
    BitShr(imm, t, j);
  }

  // Equal halves halve the period.
  lemma PeriodHalves(imm: Word64, t: nat, width: nat)
    requires t > 0 && Periodic(imm, 2 * t, width) && HalvesEqual(imm, t) && 2 * t <= width
    ensures Periodic(imm, t, width)
  {
    forall i: nat {:trigger Bit(imm, i)} | i < width ensures Bit(imm, i) == Bit(imm, i % t) {
      HalfIndex(i, t);
      if i % (2 * t) >= t {
        HalfBits(imm, t, i % t);
      }
    }
  }

  lemma HalfIndex(i: nat, t: nat)
    requires t > 0
    ensures i % (2 * t) == i % t || i % (2 * t) == i % t + t
    ensures i % t < t
  {
    var q, r := i / t, i % t;
    var h := q / 2;
    Twice(h, t);
    if q % 2 == 0 {
      assert q == 2 * h;
      DivModUnique(i, 2 * t, h, r);
    } else {
      assert q == 2 * h + 1;
      OneMore(h, t);
      DivModUnique(i, 2 * t, h, t + r);
    }
  }

  lemma Twice(h: nat, t: nat)
    ensures (2 * h) * t == h * (2 * t)
  {
  }

  lemma OneMore(h: nat, t: nat)
    ensures (2 * h + 1) * t == (2 * h) * t + t
  {
  }

  lemma {:induction false} StopIsPeriod(imm: Word64, e: nat, width: nat)
    requires IsSize(e) && Periodic(imm, e, width) && e <= width
    ensures Periodic(imm, StopSize(imm, e), width)
    decreases e
  {
    var t := e / 2;
    assert e == 2 * t;
    if e >= 4 && HalvesEqual(imm, t) {
      PeriodHalves(imm, t, width);
      StopIsPeriod(imm, t, width);
    }
  }

  lemma WholeIsPeriodic(imm: Word64, width: nat)
    requires width > 0
    ensures Periodic(imm, width, width)
  {
    forall i: nat {:trigger Bit(imm, i)} | i < width ensures Bit(imm, i) == Bit(imm, i % width) {
      DivModUnique(i, width, 0, i);
    }
  }
}
