// aarch64_encode_immediate, 64-bit variant: it finds an encoding for every value that
// has one, and when the fields it returns stand for the value.
module ImmediateComplete {
  import opened Bits
  import opened BitFields
  import opened BitCounts
  import opened LogicalImmediate
  import opened ImmediateEncoder

  // ------------------------------------------------------------ what can be decoded

  // Position j of an element of size e with S = s and R = r.
  predicate Inside(e: nat, s: nat, r: nat, j: nat)
    requires e > 0
  {
    (j + r) % e <= s
  }

  // Fields that decode to imm describe an element of a possible size, neither empty
  // nor full.
  lemma DecodedShape(imm: Word64, f: Encoded) returns (e: nat, s: nat, r: nat)
    requires DecodesTo(f, imm, 64)
    ensures IsSize(e) && s + 1 < e && r < e && DecodeBitMasks(f.n, f.immr, f.imms) == Element(e, s, r)
    ensures forall i: nat {:trigger Bit(imm, i)} :: i < 64 ==> (Bit(imm, i) <==> Inside(e, s, r, i % e))
  {
    var Fields(n, immr, imms) := f;
    var x := 64 * n + (63 - imms);
    SizeFromFls(x);
    e := Pow2(Fls(x));
    s, r := imms % e, immr % e;
    assert DecodeBitMasks(n, immr, imms) == Element(e, s, r);
    forall i: nat {:trigger Bit(imm, i)} | i < 64 ensures Bit(imm, i) <==> Inside(e, s, r, i % e) {
      assert Bit(imm, i) <==> PatternBit(Element(e, s, r), i);
    }
  }

  lemma SizeFromFls(x: nat)
    requires 2 <= x < 128
    ensures IsSize(Pow2(Fls(x)))
  {
    SmallPowers();
    assert Pow2(7) == 128 by { PowersInUse(); }
    if Fls(x) >= 7 {
      Pow2Monotone(7, Fls(x));
    }
  }

  lemma ShapeIsPeriodic(imm: Word64, e: nat, s: nat, r: nat)
    requires IsSize(e)
    requires forall i: nat {:trigger Bit(imm, i)} :: i < 64 ==> (Bit(imm, i) <==> Inside(e, s, r, i % e))
    ensures Periodic(imm, e, 64)
  {
    forall i: nat {:trigger Bit(imm, i)} | i < 64 ensures Bit(imm, i) == Bit(imm, i % e) {
      DivModUnique(i % e, e, 0, i % e);
      assert Bit(imm, i % e) <==> Inside(e, s, r, i % e % e);
    }
  }

  // A period that divides t makes the halves at t equal.
  lemma PeriodicHalves(imm: Word64, e: nat, t: nat, k: nat)
    requires e > 0 && t == k * e && 2 * t <= 64 && Periodic(imm, e, 64)
    ensures HalvesEqual(imm, t)
  {
    var a, b := And(imm, Pow2(t) - 1), And(Shr(imm, t), Pow2(t) - 1);
    forall j: nat {:trigger Bit(a, j)} ensures Bit(a, j) == Bit(b, j) {
      BitAnd(imm, Pow2(t) - 1, j);
      BitAnd(Shr(imm, t), Pow2(t) - 1, j);
      BitOnes(t, j);
      BitShr(imm, t, j);
      if j < t {
        ShiftedIndex(j, e, k);
        assert Bit(imm, j) == Bit(imm, j % e) && Bit(imm, j + t) == Bit(imm, (j + t) % e);
      }
    }
    BitsDetermine(a, b);
  }

  lemma ShiftedIndex(j: nat, e: nat, k: nat)
    requires e > 0
    ensures (j + k * e) % e == j % e
  {
    var q, r := j / e, j % e;
    assert (q + k) * e == q * e + k * e;
    DivModUnique(j + k * e, e, q + k, r);
  }

  // The halving loop comes down to the period of the pattern.
  lemma {:induction false} StopReaches(imm: Word64, e: nat, from: nat)
    requires IsSize(e) && IsSize(from) && e <= from && Periodic(imm, e, 64)
    ensures StopSize(imm, from) == StopSize(imm, e)
    decreases from
  {
    if e < from {
      var t := from / 2;
      SizesDivide(e, t);
      PeriodicHalves(imm, e, t, t / e);
      StopReaches(imm, e, t);
    }
  }

  lemma SizesDivide(e: nat, t: nat)
    requires IsSize(e) && IsSize(t) && e <= t
    ensures t == t / e * e
  {
  }

  // The position half an element away.
  function Partner(j: nat, t: nat): nat
    requires j < 2 * t
  {
    if j < t then j + t else j - t
  }

  lemma PartnerIsMod(j: nat, t: nat, e: nat)
    requires e == 2 * t && j < e
    ensures (j + t) % e == Partner(j, t)
  {
    if j < t {
      DivModUnique(j + t, e, 0, j + t);
    } else {
      DivModUnique(j + t, e, 1, j - t);
    }
  }

  lemma HalfPair(imm: Word64, t: nat, j: nat)
    requires t > 0 && HalvesEqual(imm, t) && j < 2 * t
    ensures Bit(imm, j) == Bit(imm, Partner(j, t))
  {
    if j < t {
      HalfBits(imm, t, j);
    } else {
      HalfBits(imm, t, j - t);
    }
  }

  // A rotated run that is neither empty nor full differs in its two halves.
  lemma RunHasNoHalves(imm: Word64, e: nat, s: nat, r: nat, t: nat)
    requires IsSize(e) && e == 2 * t && s + 1 < e && r < e
    requires forall i: nat {:trigger Bit(imm, i)} :: i < 64 ==> (Bit(imm, i) <==> Inside(e, s, r, i % e))
    ensures !HalvesEqual(imm, t)
  {
    if HalvesEqual(imm, t) {
      PairInside(imm, e, s, r, t, s);
      PairInside(imm, e, s, r, t, s + 1);
      Wraps(e, s, t);
    }
  }

  // With equal halves the element has at p + t what it has at p.
  lemma PairInside(imm: Word64, e: nat, s: nat, r: nat, t: nat, p: nat)
    requires IsSize(e) && e == 2 * t && p < e && r < e && HalvesEqual(imm, t)
    requires forall i: nat {:trigger Bit(imm, i)} :: i < 64 ==> (Bit(imm, i) <==> Inside(e, s, r, i % e))
    ensures p <= s <==> (p + t) % e <= s
  {
    var a := (p + e - r) % e;
    PlaceOf(e, p, r, t);
    HalfPair(imm, t, a);
    PartnerIsMod(a, t, e);
    var b := (a + t) % e;
    assert Bit(imm, a) <==> Inside(e, s, r, a % e);
    assert Bit(imm, b) <==> Inside(e, s, r, b % e);
  }

  // The position that rotation brings to p, and the one half an element further on.
  lemma PlaceOf(e: nat, p: nat, r: nat, t: nat)
    requires e > 0 && p < e && r < e && t <= e
    ensures var a := (p + e - r) % e;
      a < e && a % e == a && (a + r) % e == p && (a + t) % e % e == (a + t) % e && ((a + t) % e + r) % e == (p + t) % e
  {
    var a := (p + e - r) % e;
    if p >= r {
      DivModUnique(p + e - r, e, 1, p - r);
      DivModUnique(a + r, e, 0, p);
    } else {
      DivModUnique(p + e - r, e, 0, p + e - r);
      DivModUnique(a + r, e, 1, p);
    }
    DivModUnique(a, e, 0, a);
    DivModUnique((a + t) % e, e, 0, (a + t) % e);
    SumModulo(a, t, r, p, e);
  }

  lemma SumModulo(a: nat, t: nat, r: nat, p: nat, e: nat)
    requires e > 0 && a < e && p < e && r < e && t <= e && (a + r) % e == p
    ensures ((a + t) % e + r) % e == (p + t) % e
  {
    var k := (a + r) / e;
    assert a + r == k * e + p;
    var m := (a + t) / e;
    var d := (a + t) % e;
    assert a + t == m * e + d;
    var q, w := (p + t) / e, (p + t) % e;
    assert p + t == q * e + w;
    assert d + r == (k + q - m) * e + w;
    DivModUnique(d + r, e, k + q - m, w);
  }

  lemma Wraps(e: nat, s: nat, t: nat)
    requires e == 2 * t && t > 0 && s + 1 < e
    ensures (s + t) % e > s || (s + 1 + t) % e <= s
  {
    if s + t < e {
      DivModUnique(s + t, e, 0, s + t);
    } else {
      DivModUnique(s + 1 + t, e, 1, s + 1 + t - e);
    }
  }

  // ------------------------------------------------------- the element of a pattern

  // The element of a decodable value is a run of ones, or its complement is one.
  lemma ElementIsRun(imm: Word64, e: nat, s: nat, r: nat)
    requires IsSize(e) && s + 1 < e && r < e
    requires forall i: nat {:trigger Bit(imm, i)} :: i < 64 ==> (Bit(imm, i) <==> Inside(e, s, r, i % e))
    ensures var x := ElementOf(imm, e);
      x > 0 && Inverse(x, e) > 0
      && (RangeOfOnes(x) || (Inverse(x, e) < 0x1_0000_0000_0000_0000 && RangeOfOnes(Inverse(x, e))))
  {
    var x := ElementOf(imm, e);
    var lo := (e - r) % e;
    if lo + s + 1 <= e {
      forall j: nat {:trigger Bit(x, j)} ensures Bit(x, j) <==> lo <= j < lo + (s + 1) {
        RunPosition(imm, e, s, r, j);
      }
      RunIsRange(x, lo, s + 1);
      NotFull(x, e, lo, s + 1);
    } else {
      var z := Inverse(x, e);
      Pow2Monotone(e, 64);
      Pow2Values();
      var start, len := lo + s + 1 - e, e - (s + 1);
      forall j: nat {:trigger Bit(z, j)} ensures Bit(z, j) <==> start <= j < start + len {
        GapPosition(imm, e, s, r, j);
      }
      RunIsRange(z, start, len);
      NotEmpty(imm, e, s, r);
    }
  }

  lemma RunPosition(imm: Word64, e: nat, s: nat, r: nat, j: nat)
    requires IsSize(e) && s + 1 < e && r < e && (e - r) % e + s + 1 <= e
    requires forall i: nat {:trigger Bit(imm, i)} :: i < 64 ==> (Bit(imm, i) <==> Inside(e, s, r, i % e))
    ensures Bit(ElementOf(imm, e), j) <==> (e - r) % e <= j < (e - r) % e + (s + 1)
  {
    hide ElementOf;
    ElementBits(imm, e, j);
    if j < e {
      InsideAt(imm, e, s, r, j);
      RotatedRun(e, (e - r) % e, s + 1, j);
    }
  }

  // Below e, a bit is what rotation by r puts there.
  lemma InsideAt(imm: Word64, e: nat, s: nat, r: nat, j: nat)
    requires IsSize(e) && r < e && j < e
    requires forall i: nat {:trigger Bit(imm, i)} :: i < 64 ==> (Bit(imm, i) <==> Inside(e, s, r, i % e))
    ensures (e - r) % e <= e
    ensures Bit(imm, j) <==> (j + (e - (e - r) % e) % e) % e <= s
  {
    DivModUnique(j, e, 0, j);
    Complement(e, r);
    assert Bit(imm, j) <==> Inside(e, s, r, j % e);
  }

  // (e - (e - r) % e) % e is r.
  lemma Complement(e: nat, r: nat)
    requires r < e
    ensures (e - (e - r) % e) % e == r
  {
    if r == 0 {
      DivModUnique(e, e, 1, 0);
      DivModUnique(e - 0, e, 1, 0);
    } else {
      DivModUnique(e - r, e, 0, e - r);
      DivModUnique(r, e, 0, r);
    }
  }

  lemma GapPosition(imm: Word64, e: nat, s: nat, r: nat, j: nat)
    requires IsSize(e) && s + 1 < e && r < e && (e - r) % e + s + 1 > e
    requires forall i: nat {:trigger Bit(imm, i)} :: i < 64 ==> (Bit(imm, i) <==> Inside(e, s, r, i % e))
    ensures Inverse(ElementOf(imm, e), e) >= 0
    ensures Bit(Inverse(ElementOf(imm, e), e), j) <==> (e - r) % e + s + 1 - e <= j < (e - r) % e
  {
    var x := ElementOf(imm, e);
    if j < e {
      InsideAt(imm, e, s, r, j);
      GapAt(imm, e, s, (e - r) % e, j);
    } else if Bit(Inverse(x, e), j) {
      BitInWidth(e, Inverse(x, e), j);
    }
  }

  lemma GapAt(imm: Word64, e: nat, s: nat, lo: nat, j: nat)
    requires j < e <= 64 && s + 1 < e && lo < e && lo + s + 1 > e
    requires Bit(imm, j) <==> (j + (e - lo) % e) % e <= s
    ensures Inverse(ElementOf(imm, e), e) >= 0
    ensures Bit(Inverse(ElementOf(imm, e), e), j) <==> lo + s + 1 - e <= j < lo
  {
    BitNot(e, ElementOf(imm, e), j);
    ElementBits(imm, e, j);
    RotatedGap(e, lo + s + 1 - e, lo, j);
  }

  lemma NotFull(x: Word64, e: nat, lo: nat, n: nat)
    requires IsSize(e) && x < Pow2(e) && n < e && IsRun(x, lo, n)
    ensures Inverse(x, e) > 0
  {
    BitOnes(e, 0);
    BitOnes(e, e - 1);
    assert Bit(x, 0) <==> lo <= 0 < lo + n;
    assert Bit(x, e - 1) <==> lo <= e - 1 < lo + n;
  }

  lemma NotEmpty(imm: Word64, e: nat, s: nat, r: nat)
    requires IsSize(e) && s + 1 < e && r < e
    requires forall i: nat {:trigger Bit(imm, i)} :: i < 64 ==> (Bit(imm, i) <==> Inside(e, s, r, i % e))
    ensures ElementOf(imm, e) > 0
  {
    PlaceOf(e, 0, r, 0);
    var a := (0 + e - r) % e;
    assert Bit(imm, a);
    ElementBits(imm, e, a);
    ZeroHasNoBit(a);
  }

  // -------------------------------------------------------------------- the encoder

  // Whatever can be decoded, the encoder accepts.
  lemma DecodableIsAccepted(imm: Word64, f: Encoded)
    requires DecodesTo(f, imm, 64)
    ensures var e := StopSize(imm, 64);
      var x, z := ElementOf(imm, e), Inverse(ElementOf(imm, e), e);
      x > 0 && 0 < z < 0x1_0000_0000_0000_0000 && (RangeOfOnes(x) || RangeOfOnes(z))
  {
    var e, s, r := DecodedShape(imm, f);
    ShapeIsPeriodic(imm, e, s, r);
    StopReaches(imm, e, 64);
    if e >= 4 {
      RunHasNoHalves(imm, e, s, r, e / 2);
    }
    ElementIsRun(imm, e, s, r);
    Pow2Monotone(e, 64);
    Pow2Values();
  }

  lemma FullElement(e: nat)
    requires e <= 64
    ensures ElementOf(FULL, e) == Pow2(e) - 1
  {
    Pow2Values();
    forall j: nat {:trigger Bit(ElementOf(FULL, e), j)} ensures Bit(ElementOf(FULL, e), j) == Bit(Pow2(e) - 1, j) {
      ElementBits(FULL, e, j);
      BitOnes(64, j);
      BitOnes(e, j);
    }
    BitsDetermine(ElementOf(FULL, e), Pow2(e) - 1);
  }

  lemma NeitherEmptyNorFull(imm: Word64, f: Encoded)
    requires DecodesTo(f, imm, 64)
    ensures 0 < imm < FULL
  {
    DecodableIsAccepted(imm, f);
    ProperElement(imm, StopSize(imm, 64));
  }

  lemma ProperElement(imm: Word64, e: nat)
    requires e <= 64 && ElementOf(imm, e) > 0 && Inverse(ElementOf(imm, e), e) > 0
    ensures 0 < imm < FULL
  {
    FullElement(e);
  }

  // The values whose fields stand for them: the element has at most 32 bits, or the
  // ones do not wrap around, or every zero is among the low 32 bits.
  predicate Faithful(imm: Word64)
    requires imm > 0
  {
    || imm % 0x1_0000_0000 == imm / 0x1_0000_0000
    || RangeOfOnes(imm)
    || imm >= 0xFFFF_FFFF_0000_0000
  }

  lemma TopHalves(imm: Word64)
    ensures HalvesEqual(imm, 32) <==> imm % 0x1_0000_0000 == imm / 0x1_0000_0000
  {
    hide Shr, Pow2, And;
    Pow2Values();
    AndLowMask(imm, 32);
    AndLowMask(Shr(imm, 32), 32);
    ShrBy(imm, 32);
  }

  // Neither the element nor its complement is empty.
  lemma ElementProper(imm: Word64, e: nat)
    requires 0 < imm < FULL && e == StopSize(imm, 64)
    ensures ElementOf(imm, e) > 0 && 0 < Inverse(ElementOf(imm, e), e) < 0x1_0000_0000_0000_0000
    ensures Periodic(imm, e, 64) && (e == 64 ==> ElementOf(imm, e) == imm && Inverse(imm, 64) == FULL - imm)
  {
    WholeIsPeriodic(imm, 64);
    StopIsPeriod(imm, 64, 64);
    SomeOne(imm, e);
    SomeZero(imm, e);
    WholeElement(imm);
  }

  lemma WholeElement(imm: Word64)
    ensures ElementOf(imm, 64) == imm && Inverse(imm, 64) == FULL - imm
  {
    Pow2Values();
  }

  lemma SomeOne(imm: Word64, e: nat)
    requires 0 < imm && 0 < e <= 64 && Periodic(imm, e, 64)
    ensures ElementOf(imm, e) > 0
  {
    Pow2Values();
    var lit := Ffs(imm);
    BitInWidth(64, imm, lit);
    SomeOneAt(imm, e, lit % e);
  }

  lemma SomeOneAt(imm: Word64, e: nat, j: nat)
    requires j < e <= 64 && Bit(imm, j)
    ensures ElementOf(imm, e) > 0
  {
    ElementBits(imm, e, j);
    ZeroHasNoBit(j);
  }

  lemma SomeZero(imm: Word64, e: nat)
    requires imm < FULL && 0 < e <= 64 && Periodic(imm, e, 64)
    ensures 0 < Inverse(ElementOf(imm, e), e) < 0x1_0000_0000_0000_0000
  {
    Pow2Values();
    Pow2Monotone(e, 64);
    var dark := Ffs(FULL - imm);
    BitInWidth(64, FULL - imm, dark);
    BitNot(64, imm, dark);
    SomeZeroAt(imm, e, dark % e);
  }

  lemma SomeZeroAt(imm: Word64, e: nat, j: nat)
    requires j < e <= 64 && !Bit(imm, j)
    ensures Inverse(ElementOf(imm, e), e) > 0
  {
    ElementBits(imm, e, j);
    BitOnes(e, j);
  }

  // The first halving succeeds exactly for equal halves.
  lemma SmallElement(imm: Word64, e: nat)
    requires e == StopSize(imm, 64)
    ensures e <= 32 <==> imm % 0x1_0000_0000 == imm / 0x1_0000_0000
    ensures e <= 32 || e == 64
  {
    TopHalves(imm);
    assert StopSize(imm, 64) == if HalvesEqual(imm, 32) then StopSize(imm, 32) else 64;
  }

  lemma EncodedRun(imm: Word64, e: nat, x: Word64)
    requires 0 < imm < FULL && e == StopSize(imm, 64) && x == ElementOf(imm, e) && x > 0 && RangeOfOnes(x)
    ensures Ffs(x) <= e && PopCount(x) > 0
    ensures DecodesTo(FieldsFor(e, Ffs(x), PopCount(x)), imm, 64) && Faithful(imm)
  {
    ElementProper(imm, e);
    NotAllOnes(x, e);
    RunSound(imm, e, 64);
    RunFaithful(imm, e, x);
  }

  lemma NotAllOnes(x: Word64, e: nat)
    requires e <= 64 && x < Pow2(e) && Inverse(x, e) > 0
    ensures PopCount(x) < e
  {
    CountComplement(x, e);
    SomeBitCounts(Inverse(x, e));
  }

  lemma RunFaithful(imm: Word64, e: nat, x: Word64)
    requires 0 < imm && e == StopSize(imm, 64) && x == ElementOf(imm, e) && x > 0 && RangeOfOnes(x)
    ensures Faithful(imm)
  {
    SmallElement(imm, e);
    WholeElement(imm);
  }

  lemma {:induction false} SomeBitCounts(v: nat)
    ensures v > 0 ==> PopCount(v) > 0
    decreases v
  {
    if v > 0 {
      SomeBitCounts(v / 2);
    }
  }

  lemma EncodedGap(imm: Word64, e: nat, x: Word64, z: Word64)
    requires 0 < imm < FULL && e == StopSize(imm, 64) && x == ElementOf(imm, e) && z == Inverse(x, e)
    requires x > 0 && z > 0 && !RangeOfOnes(x) && RangeOfOnes(z)
    ensures Fls32(z) <= e && PopCount(x) > 0
    ensures DecodesTo(FieldsFor(e, Fls32(z), PopCount(x)), imm, 64) <==> Faithful(imm)
    ensures exists g: Encoded :: DecodesTo(g, imm, 64)
  {
    GapFaithful(imm, e, x, z);
    if z < 0x1_0000_0000 {
      ElementProper(imm, e);
      CountComplement(x, e);
      SomeBitCounts(x);
      GapSound(imm, e, 64, x, z);
    } else {
      HighGapUnsound(imm);
      HighGapEncodable(imm);
    }
  }

  // A gap is faithful when its zeros are low; a high one is 64 bits wide.
  lemma GapFaithful(imm: Word64, e: nat, x: Word64, z: Word64)
    requires 0 < imm < FULL && e == StopSize(imm, 64) && x == ElementOf(imm, e) && z == Inverse(x, e)
    requires x > 0 && z > 0 && !RangeOfOnes(x)
    ensures Faithful(imm) <==> z < 0x1_0000_0000
    ensures z >= 0x1_0000_0000 ==> e == 64 && x == imm && z == FULL - imm
  {
    SmallElement(imm, e);
    SmallInverse(x, e);
    WholeElement(imm);
  }

  lemma SmallInverse(x: Word64, e: nat)
    requires IsSize(e) && x < Pow2(e)
    ensures e <= 32 ==> Inverse(x, e) < 0x1_0000_0000
  {
    Pow2Values();
    if e <= 32 {
      Pow2Monotone(e, 32);
    }
  }

  // There are fields for it all the same.
  lemma HighGapEncodable(imm: Word64)
    requires 0 < imm < FULL && RangeOfOnes(FULL - imm)
    ensures exists g: Encoded :: DecodesTo(g, imm, 64)
  {
    Pow2Values();
    var z := FULL - imm;
    var lo, n := Ffs(z), PopCount(z);
    RangeIsRun(z);
    RunFits(z, lo, n, 64);
    CountComplement(imm, 64);
    SomeBitCounts(imm);
    WholeIsPeriodic(imm, 64);
    GapDecodes(imm, 64, 64, imm, lo, n, lo + n, 64 - n);
  }

  // ------------------------------------------------------------- the second half

  // The fields made of an element, given the mask that cut it out.
  function ElementFields(x: Word64, mask: Word64, e: nat): Encoded
    requires IsSize(e) && 0 < x <= mask && (RangeOfOnes(x) || x < mask)
  {
    SomeBitCounts(x);
    if RangeOfOnes(x) then FieldsFor(e, Ffs(x), PopCount(x))
    else if RangeOfOnes(mask - x) then FieldsFor(e, Fls32(mask - x), PopCount(x))
    else Fault
  }

  // In the 64-bit variant they fail exactly for the values that no fields stand for,
  // and stand for the value exactly if it is faithful.
  lemma WideFields(imm: Word64, e: nat, x: Word64, mask: Word64)
    requires 0 < imm < FULL && e == StopSize(imm, 64) && x == ElementOf(imm, e) && mask == Pow2(e) - 1
    ensures 0 < x < mask
    ensures var f := ElementFields(x, mask, e);
      && (f.Fault? <==> forall g: Encoded {:trigger DecodesTo(g, imm, 64)} :: !DecodesTo(g, imm, 64))
      && (f.Fields? ==> (DecodesTo(f, imm, 64) <==> Faithful(imm)))
  {
    hide DecodesTo, RangeOfOnes, Faithful, PopCount, Fls32, SizeField, Ffs, Fls, ElementOf, StopSize, Periodic, Pow2;
    ElementProper(imm, e);
    if RangeOfOnes(x) {
      EncodedRun(imm, e, x);
    } else if RangeOfOnes(mask - x) {
      EncodedGap(imm, e, x, mask - x);
    } else {
      forall g: Encoded {:trigger DecodesTo(g, imm, 64)} ensures !DecodesTo(g, imm, 64) {
        if DecodesTo(g, imm, 64) {
          DecodableIsAccepted(imm, g);
        }
      }
    }
  }
}
