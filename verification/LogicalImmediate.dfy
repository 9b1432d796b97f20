// The encoder of logical immediates, against DecodeBitMasks() of the Arm
// Architecture Reference Manual (DDI 0487), section J1.
module LogicalImmediate {
  import opened Bits
  import opened BitFields
  import opened BitCounts

  type Word64 = w: nat | w < 0x1_0000_0000_0000_0000

  // The fields N, immr and imms, or AARCH64_BREAK_FAULT.
  datatype Encoded = Fault | Fields(n: nat, immr: nat, imms: nat)

  // ------------------------------------------------------------------ the manual

  // The element that is repeated: its size, S and R; or UNDEFINED.
  datatype Pattern = Undefined | Element(size: nat, s: nat, r: nat)

  function DecodeBitMasks(n: nat, immr: nat, imms: nat): Pattern
    requires n < 2 && immr < 64 && imms < 64
  {
    var x := 64 * n + (63 - imms);
    if x < 2 then Undefined
    else
      var size := Pow2(Fls(x));
      if imms % size == size - 1 then Undefined else Element(size, imms % size, immr % size)
  }

  // Bit i of Replicate(ROR(Ones(S + 1), R)).
  predicate PatternBit(p: Pattern, i: nat)
    requires p.Element? && p.size > 0
  {
    (i % p.size + p.r) % p.size <= p.s
  }

  // The pattern is imm, on width bits.
  ghost predicate PatternIs(p: Pattern, imm: Word64, width: nat) {
    match p
    case Undefined => false
    case Element(size, _, _) =>
      if size == 0 then false
      else forall i: nat {:trigger Bit(imm, i)} :: i < width ==> (Bit(imm, i) <==> PatternBit(p, i))
  }

  // The fields stand for imm, on width bits.
  ghost predicate DecodesTo(f: Encoded, imm: Word64, width: nat) {
    match f
    case Fault => false
    case Fields(n, immr, imms) =>
      if n < 2 && immr < 64 && imms < 64 then PatternIs(DecodeBitMasks(n, immr, imms), imm, width) else false
  }

  // -------------------------------------------------------------- runs of ones

  // The bits of v from lo on, n of them, are set and no others.
  ghost predicate IsRun(v: nat, lo: nat, n: nat) {
    forall j: nat {:trigger Bit(v, j)} :: Bit(v, j) <==> lo <= j < lo + n
  }

  // range_of_ones
  predicate RangeOfOnes(v: Word64)
    requires v > 0
  {
    var sval := Shr(v, Ffs(v));
    And((sval + 1) % 0x1_0000_0000_0000_0000, sval) == 0
  }

  // A number and its successor share no bit only below a power of two.
  lemma {:induction false} NoCommonBit(s: nat)
    requires And(s + 1, s) == 0
    ensures s == Pow2(PopCount(s)) - 1
    decreases s
  {
    if s > 0 {
      var q := s / 2;
      if s % 2 == 1 {
        AndDigit2(q + 1, 0, q, 1);
        NoCommonBit(q);
      } else {
        AndDigit2(q, 1, q, 0);
        AndSelf(q);
      }
    }
  }

  lemma {:induction false} AndSelf(q: nat)
    ensures And(q, q) == q
    decreases q
  {
    if q > 0 {
      AndSelf(q / 2);
    }
  }

  lemma {:induction false} OnesCount(n: nat)
    ensures PopCount(Pow2(n) - 1) == n
    decreases n
  {
    if n > 0 {
      assert (Pow2(n) - 1) / 2 == Pow2(n - 1) - 1;
      OnesCount(n - 1);
    }
  }

  lemma {:induction false} PopOfShr(v: nat, k: nat)
    requires forall j: nat {:trigger Bit(v, j)} :: j < k ==> !Bit(v, j)
    ensures PopCount(Shr(v, k)) == PopCount(v)
    decreases k
  {
    if k > 0 {
      assert !Bit(v, 0);
      forall j: nat {:trigger Bit(v / 2, j)} | j < k - 1 ensures !Bit(v / 2, j) {
        assert !Bit(v, j + 1);
      }
      PopOfShr(v / 2, k - 1);
    }
  }

  lemma AllOnesOrNoCommonBit(sval: Word64)
    requires And((sval + 1) % 0x1_0000_0000_0000_0000, sval) == 0
    ensures sval == Pow2(PopCount(sval)) - 1
  {
    if sval == 0xFFFF_FFFF_FFFF_FFFF {
      Pow2Values();
      OnesCount(64);
    } else {
      NoCommonBit(sval);
    }
  }

  lemma ShrBound(x: nat, k: nat)
    ensures Shr(x, k) <= x
    decreases k
  {
    if k > 0 {
      ShrBound(x / 2, k - 1);
    }
  }

  // range_of_ones holds of the runs of ones only, and the run starts at the lowest
  // bit and is as long as there are ones.
  lemma RangeIsRun(v: Word64)
    requires v > 0 && RangeOfOnes(v)
    ensures IsRun(v, Ffs(v), PopCount(v))
  {
    var lo := Ffs(v);
    var sval := Shr(v, lo);
    ShrBound(v, lo);
    AllOnesOrNoCommonBit(sval);
    PopOfShr(v, lo);
    forall j: nat {:trigger Bit(v, j)} ensures Bit(v, j) <==> lo <= j < lo + PopCount(v) {
      if j >= lo {
        BitShr(v, lo, j - lo);
        BitOnes(PopCount(v), j - lo);
      }
    }
  }

  lemma FfsIs(v: nat, lo: nat)
    requires v > 0 && Bit(v, lo) && forall j: nat {:trigger Bit(v, j)} :: j < lo ==> !Bit(v, j)
    ensures Ffs(v) == lo
  {
    assert Bit(v, Ffs(v));
  }

  // Every run of ones passes range_of_ones.
  lemma RunIsRange(v: Word64, lo: nat, n: nat)
    requires n > 0 && IsRun(v, lo, n)
    ensures v > 0 && RangeOfOnes(v) && Ffs(v) == lo
  {
    assert Bit(v, lo);
    if v == 0 {
      ZeroHasNoBit(lo);
    }
    FfsIs(v, lo);
    var sval := Shr(v, lo);
    forall i: nat {:trigger Bit(sval, i)} ensures Bit(sval, i) == Bit(Pow2(n) - 1, i) {
      BitShr(v, lo, i);
      BitOnes(n, i);
    }
    BitsDetermine(sval, Pow2(n) - 1);
    ShrBound(v, lo);
    OnesPlusOne(sval, n);
  }

  lemma OnesPlusOne(s: Word64, n: nat)
    requires s == Pow2(n) - 1
    ensures And((s + 1) % 0x1_0000_0000_0000_0000, s) == 0
  {
    AndPowOnes(n);
  }

  lemma {:induction false} AndPowOnes(n: nat)
    ensures And(Pow2(n), Pow2(n) - 1) == 0
    decreases n
  {
    if n > 0 {
      AndPowOnes(n - 1);
      AndDigit2(Pow2(n - 1), 0, Pow2(n - 1) - 1, 1);
    }
  }

  // ------------------------------------------------------------------- rotations

  // Rotating ones by R = (e - lo) % e puts a run at lo.
  lemma RotatedRun(e: nat, lo: nat, n: nat, j: nat)
    requires n > 0 && lo + n <= e && j < e
    ensures (j + (e - lo) % e) % e <= n - 1 <==> lo <= j < lo + n
  {
    if lo == 0 {
      DivModUnique(e, e, 1, 0);
      DivModUnique(j, e, 0, j);
    } else {
      DivModUnique(e - lo, e, 0, e - lo);
      if j < lo {
        DivModUnique(j + e - lo, e, 0, j + e - lo);
      } else {
        DivModUnique(j + e - lo, e, 1, j - lo);
      }
    }
  }

  // The same for a run of ones around the end, which is a run of zeros from lo to h - 1.
  lemma RotatedGap(e: nat, lo: nat, h: nat, j: nat)
    requires lo < h <= e && j < e && h - lo < e
    ensures (j + (e - h) % e) % e <= e - (h - lo) - 1 <==> !(lo <= j < h)
  {
    if h == e {
      DivModUnique(0, e, 0, 0);
      DivModUnique(j, e, 0, j);
    } else {
      DivModUnique(e - h, e, 0, e - h);
      if j < h {
        DivModUnique(j + e - h, e, 0, j + e - h);
      } else {
        DivModUnique(j + e - h, e, 1, j - h);
      }
    }
  }

  // -------------------------------------------------------------------- the fields

  predicate IsSize(e: nat) {
    e == 2 || e == 4 || e == 8 || e == 16 || e == 32 || e == 64
  }

  // (ones - 1) | (0xf << ffs(esz)), cut to six bits
  function SizeField(ones: nat, e: nat): nat
    requires ones > 0 && IsSize(e)
  {
    And(Or(ones - 1, Shl(0xF, Ffs(e) + 1)), 63)
  }

  // What stands in front of ones - 1 for each element size.
  function SizePrefix(e: nat): nat
    requires IsSize(e)
  {
    if e >= 32 then 0 else if e == 16 then 0x20 else if e == 8 then 0x30 else if e == 4 then 0x38 else 0x3C
  }

  lemma SizePowers(e: nat)
    requires IsSize(e)
    ensures e == Pow2(Ffs(e)) && 1 <= Ffs(e) <= 6
    ensures Pow2(Ffs(e) + 1) == 2 * e
  {
    var k := if e == 2 then 1 else if e == 4 then 2 else if e == 8 then 3 else if e == 16 then 4 else if e == 32 then 5 else 6;
    SmallPowers();
    PowFfs(k);
  }

  lemma SmallPowers()
    ensures Pow2(1) == 2 && Pow2(2) == 4 && Pow2(3) == 8 && Pow2(4) == 16 && Pow2(5) == 32 && Pow2(6) == 64
  {
    PowersInUse();
    MorePowersInUse();
  }

  lemma {:induction false} PowFfs(k: nat)
    ensures Ffs(Pow2(k)) == k
    decreases k
  {
    if k > 0 {
      PowFfs(k - 1);
      assert Pow2(k) % 2 == 0 && Pow2(k) / 2 == Pow2(k - 1);
    }
  }

  lemma SizeFieldIs(ones: nat, e: nat)
    requires IsSize(e) && 0 < ones <= e
    ensures SizeField(ones, e) == SizePrefix(e) + ones - 1
  {
    hide Shl, Pow2, And, Or, Bit, Ffs;
    SizePowers(e);
    MergedField(ones - 1, Ffs(e) + 1, 2 * e);
    SizeFieldArithmetic(ones, e);
  }

  lemma MergedField(a: nat, k: nat, p: nat)
    requires p == Pow2(k) && a < p
    ensures And(Or(a, Shl(0xF, k)), 63) == (a + 0xF * p) % 64
  {
    OrAbove(a, 0xF, k);
    ShlBy(0xF, k);
    SixBits(a + Shl(0xF, k));
  }

  lemma SixBits(x: nat)
    ensures And(x, 63) == x % 64
  {
    SmallPowers();
    AndLowMask(x, 6);
  }

  lemma SizeFieldArithmetic(ones: nat, e: nat)
    requires IsSize(e) && 0 < ones <= e
    ensures (ones - 1 + 0xF * (2 * e)) % 64 == SizePrefix(e) + ones - 1
  {
  }

  lemma FlsIs(x: nat, k: nat)
    requires Pow2(k) <= x < Pow2(k + 1)
    ensures x > 0 && Fls(x) == k
  {
    if Fls(x) < k {
      Pow2Monotone(Fls(x) + 1, k);
    } else if Fls(x) > k {
      Pow2Monotone(k + 1, Fls(x));
    }
  }

  // The size, S and R that the fields are decoded to.
  lemma FieldsDecode(ones: nat, e: nat, r: nat)
    requires IsSize(e) && 0 < ones <= e && r < e
    ensures SizeField(ones, e) < 64
    ensures DecodeBitMasks(if e == 64 then 1 else 0, r, SizeField(ones, e))
         == if ones == e then Undefined else Element(e, ones - 1, r)
  {
    hide Fls, Shl, Pow2, And, Or, Bit, Ffs;
    SizeFieldIs(ones, e);
    var n, imms := if e == 64 then 1 else 0, SizePrefix(e) + ones - 1;
    SizeOfField(64 * n + (63 - imms), ones, e);
    DivModUnique(r, e, 0, r);
    PrefixVanishes(ones - 1, e);
    DecodesAt(n, r, imms, e);
  }

  lemma DecodesAt(n: nat, r: nat, imms: nat, e: nat)
    requires n < 2 && imms < 64 && r < 64 && 64 * n + (63 - imms) >= 2 && e == Pow2(Fls(64 * n + (63 - imms)))
    ensures DecodeBitMasks(n, r, imms) == if imms % e == e - 1 then Undefined else Element(e, imms % e, r % e)
  {
  }

  // The number whose highest bit tells the size.
  lemma SizeOfField(x: nat, ones: nat, e: nat)
    requires IsSize(e) && 0 < ones <= e
    requires x == 64 * (if e == 64 then 1 else 0) + (63 - (SizePrefix(e) + ones - 1))
    ensures x >= 2 && Pow2(Fls(x)) == e
  {
    SizePowers(e);
    assert e <= x < 2 * e;
    FlsIs(x, Ffs(e));
  }

  lemma PrefixVanishes(s: nat, e: nat)
    requires IsSize(e) && s < e
    ensures (SizePrefix(e) + s) % e == s
  {
  }
}
