// aarch64_encode_immediate, 32-bit variant: as the 64-bit variant on the value
// repeated in both halves, except for an element of all 32 bits.
module ImmediateNarrow {
  import opened Bits
  import opened BitFields
  import opened BitCounts
  import opened LogicalImmediate
  import opened ImmediateEncoder
  import opened ImmediateComplete

  const ONES32: Word64 := 0xFFFF_FFFF

  // The fields stand for imm in a 32-bit instruction, where N must be 0.
  ghost predicate StandsFor(f: Encoded, imm: Word64) {
    imm <= ONES32 && f.Fields? && f.n == 0 && DecodesTo(f, imm, 32)
  }

  // The mask that cuts out an element, after the halving loop from width on.
  function MaskOf(e: nat, width: nat): Word64
    requires IsSize(e)
  {
    Pow2Values();
    Pow2Monotone(e, 64);
    if e == width then FULL else Pow2(e) - 1
  }

  // The 16-bit halves differ, and the ones are not one run: if they are one run around
  // the end, the value can be encoded all the same.
  predicate Wrapped(imm: Word64) {
    0 < imm <= ONES32 && imm % 0x1_0000 != imm / 0x1_0000 && !RangeOfOnes(imm)
  }

  lemma NothingStandsFor(imm: Word64)
    requires imm == 0 || imm == FULL
    ensures forall g: Encoded {:trigger DecodesTo(g, imm, 64)} :: !DecodesTo(g, imm, 64)
    ensures forall g: Encoded {:trigger StandsFor(g, imm)} :: !StandsFor(g, imm)
  {
    forall g: Encoded {:trigger DecodesTo(g, imm, 64)} ensures !DecodesTo(g, imm, 64) {
      if DecodesTo(g, imm, 64) {
        NeitherEmptyNorFull(imm, g);
      }
    }
    forall g: Encoded {:trigger StandsFor(g, imm)} ensures !StandsFor(g, imm) {
      if StandsFor(g, imm) {
        Doubling(imm, g);
      }
    }
  }

  // ------------------------------------------------------------------- doubling

  // The value in both halves of a 64-bit word.
  function Twice32(imm: Word64): Word64
    requires imm <= ONES32
  {
    imm + 0x1_0000_0000 * imm
  }

  lemma TwiceBit(imm: Word64, i: nat)
    requires imm <= ONES32 && i < 64
    ensures Bit(Twice32(imm), i) == Bit(imm, i % 32)
  {
    hide Shr, Pow2, Bit;
    Pow2Values();
    var d := Twice32(imm);
    DivModUnique(d, 0x1_0000_0000, imm, imm);
    if i < 32 {
      BitTruncate(32, d, i);
    } else {
      ShrBy(d, 32);
      BitShr(d, 32, i - 32);
    }
  }

  lemma TwiceHalves(imm: Word64, t: nat)
    requires imm <= ONES32 && t <= 16
    ensures HalvesEqual(Twice32(imm), t) <==> HalvesEqual(imm, t)
  {
    hide Shr, Pow2, And, Twice32;
    LowBitsOfTwice(imm, t);
    NextBitsOfTwice(imm, t);
  }

  lemma NextBitsOfTwice(imm: Word64, t: nat)
    requires imm <= ONES32 && t <= 16
    ensures And(Shr(Twice32(imm), t), Pow2(t) - 1) == And(Shr(imm, t), Pow2(t) - 1)
  {
    hide Bit, Shr, Pow2, And, Twice32;
    var a, b := And(Shr(Twice32(imm), t), Pow2(t) - 1), And(Shr(imm, t), Pow2(t) - 1);
    forall j: nat {:trigger Bit(a, j)} ensures Bit(a, j) == Bit(b, j) {
      NextBitOfTwice(imm, t, j);
    }
    BitsDetermine(a, b);
  }

  lemma NextBitOfTwice(imm: Word64, t: nat, j: nat)
    requires imm <= ONES32 && t <= 16
    ensures Bit(And(Shr(Twice32(imm), t), Pow2(t) - 1), j) == Bit(And(Shr(imm, t), Pow2(t) - 1), j)
  {
    hide Bit, Shr, Pow2, And, Twice32;
    BitAnd(Shr(Twice32(imm), t), Pow2(t) - 1, j);
    BitAnd(Shr(imm, t), Pow2(t) - 1, j);
    BitOnes(t, j);
    BitShr(Twice32(imm), t, j);
    BitShr(imm, t, j);
    if j < t {
      TwiceBit(imm, j + t);
      SmallIndex(j + t);
    }
  }

  lemma SmallIndex(i: nat)
    requires i < 32
    ensures i % 32 == i
  {
  }

  lemma LowBitsOfTwice(imm: Word64, t: nat)
    requires imm <= ONES32 && t <= 32
    ensures And(Twice32(imm), Pow2(t) - 1) == And(imm, Pow2(t) - 1)
    ensures ElementOf(Twice32(imm), t) == ElementOf(imm, t)
  {
    hide Bit, Shr, Pow2, And, Twice32;
    var d := Twice32(imm);
    var a, b := And(d, Pow2(t) - 1), And(imm, Pow2(t) - 1);
    forall j: nat {:trigger Bit(a, j)} ensures Bit(a, j) == Bit(b, j) {
      BitAnd(d, Pow2(t) - 1, j);
      BitAnd(imm, Pow2(t) - 1, j);
      BitOnes(t, j);
      if j < t { TwiceBit(imm, j); }
    }
    BitsDetermine(a, b);
    AndLowMask(d, t);
    AndLowMask(imm, t);
  }

  lemma {:induction false} TwiceStop(imm: Word64, e: nat)
    requires imm <= ONES32 && IsSize(e) && e <= 32
    ensures StopSize(Twice32(imm), e) == StopSize(imm, e)
    decreases e
  {
    if e >= 4 {
      TwiceHalves(imm, e / 2);
      TwiceStop(imm, e / 2);
    }
  }

  lemma TwiceStops(imm: Word64)
    requires imm <= ONES32
    ensures StopSize(Twice32(imm), 64) == StopSize(imm, 32)
    ensures Twice32(imm) % 0x1_0000_0000 == Twice32(imm) / 0x1_0000_0000
  {
    DivModUnique(Twice32(imm), 0x1_0000_0000, imm, imm);
    TopHalves(Twice32(imm));
    TwiceStop(imm, 32);
  }

  // Fields stand for a value on 32 bits exactly if they stand for it twice on 64.
  lemma Doubling(imm: Word64, g: Encoded)
    requires imm <= ONES32
    ensures StandsFor(g, imm) <==> DecodesTo(g, Twice32(imm), 64)
  {
    if StandsFor(g, imm) {
      DoublingUp(imm, g);
    }
    if DecodesTo(g, Twice32(imm), 64) {
      DoublingDown(imm, g);
    }
  }

  lemma DoublingUp(imm: Word64, g: Encoded)
    requires StandsFor(g, imm)
    ensures DecodesTo(g, Twice32(imm), 64)
  {
    var p := DecodeBitMasks(g.n, g.immr, g.imms);
    var d := Twice32(imm);
    SmallPattern(g.immr, g.imms);
    forall i: nat {:trigger Bit(d, i)} | i < 64 ensures Bit(d, i) <==> PatternBit(p, i) {
      TwiceBit(imm, i);
      assert Bit(imm, i % 32) <==> PatternBit(p, i % 32);
      SizeRepeats(p.size, i);
    }
  }

  lemma DoublingDown(imm: Word64, g: Encoded)
    requires imm <= ONES32 && DecodesTo(g, Twice32(imm), 64)
    ensures StandsFor(g, imm)
  {
    hide Bit, Twice32, PatternBit, DecodeBitMasks;
    var p, d := DecodeBitMasks(g.n, g.immr, g.imms), Twice32(imm);
    NotWhole(imm, g);
    forall i: nat {:trigger Bit(imm, i)} | i < 32 ensures Bit(imm, i) <==> PatternBit(p, i) {
      TwiceBit(imm, i);
      SmallIndex(i);
      assert Bit(d, i) <==> PatternBit(p, i);
    }
  }

  // A repeated value is no element of 64 bits.
  lemma NotWhole(imm: Word64, g: Encoded)
    requires imm <= ONES32 && DecodesTo(g, Twice32(imm), 64)
    ensures g.n == 0
  {
    if g.n == 1 {
      hide Bit, Shr, And, Twice32, DecodesTo, Inside, HalvesEqual, DecodeBitMasks;
      var e, s, r := DecodedShape(Twice32(imm), g);
      WholePattern(g.immr, g.imms);
      TwiceStops(imm);
      TopHalves(Twice32(imm));
      RunHasNoHalves(Twice32(imm), e, s, r, 32);
    }
  }

  lemma WholePattern(immr: nat, imms: nat)
    requires immr < 64 && imms < 64
    ensures var p := DecodeBitMasks(1, immr, imms); p.Undefined? || p.size == 64
  {
    var x := 64 + (63 - imms);
    SmallPowers();
    FlsIs(x, 6);
  }

  lemma SmallPattern(immr: nat, imms: nat)
    requires immr < 64 && imms < 64
    ensures var p := DecodeBitMasks(0, immr, imms); p.Undefined? || (IsSize(p.size) && p.size <= 32)
  {
    var x := 63 - imms;
    if x >= 2 {
      SizeFromFls(x);
      SmallPowers();
      if Fls(x) > 5 { Pow2Monotone(6, Fls(x)); }
    }
  }

  lemma SizeRepeats(e: nat, i: nat)
    requires IsSize(e) && e <= 32
    ensures i % 32 % e == i % e
  {
    var k, q := 32 / e, i / 32;
    assert (q * k) * e == q * 32;
    ShiftedIndex(i % 32, e, q * k);
  }

  // ------------------------------------------------------------------- the fields

  // 32 ones are encoded as 01 11 in elements of two bits, which is reserved.
  lemma AllOnesFields(e: nat, x: Word64, mask: Word64)
    requires e == StopSize(ONES32, 32) && mask == MaskOf(e, 32) && x == And(ONES32, mask)
    ensures 0 < x <= mask && RangeOfOnes(x)
    ensures var f := ElementFields(x, mask, e); f.Fields? && !StandsFor(f, ONES32)
  {
    hide RangeOfOnes, ElementFields, StandsFor, Shr, And, StopSize;
    AllOnesSize();
    AndLowMask(ONES32, 2);
    SmallPowers();
    forall j: nat {:trigger Bit(x, j)} ensures Bit(x, j) <==> 0 <= j < 0 + 2 {
      BitOnes(2, j);
    }
    RunIsRange(x, 0, 2);
    ReservedFields(x, mask, e);
  }

  lemma ReservedFields(x: Word64, mask: Word64, e: nat)
    requires x == Pow2(2) - 1 && x <= mask && RangeOfOnes(x) && Ffs(x) == 0 && e == 2
    ensures var f := ElementFields(x, mask, e); f.Fields? && !StandsFor(f, ONES32)
  {
    hide RangeOfOnes, PopCount, Ffs, SizeField, DecodeBitMasks, Pow2;
    OnesCount(2);
    FieldsDecode(2, e, 0);
  }

  lemma AllOnesSize()
    ensures StopSize(ONES32, 32) == 2
  {
    TwiceStops(ONES32);
    Pow2Values();
    forall i: nat {:trigger Bit(FULL, i)} | i < 64 ensures Bit(FULL, i) == Bit(FULL, i % 2) {
      BitOnes(64, i);
      BitOnes(64, i % 2);
    }
    StopReaches(FULL, 2, 64);
  }

  lemma FirstHalves(imm: Word64)
    requires imm <= ONES32
    ensures StopSize(imm, 32) == 32 <==> imm % 0x1_0000 != imm / 0x1_0000
  {
    hide Shr, Pow2, And;
    Pow2Values();
    MorePowersInUse();
    AndLowMask(imm, 16);
    AndLowMask(Shr(imm, 16), 16);
    ShrBy(imm, 16);
    assert StopSize(imm, 32) == if HalvesEqual(imm, 16) then StopSize(imm, 16) else 32;
  }

  // With an element of all 32 bits the mask is wider than the value, so that only a run
  // of ones that does not wrap is recognised.
  lemma WholeWord(imm: Word64)
    requires 0 < imm < ONES32 && !RangeOfOnes(imm)
    ensures !RangeOfOnes(FULL - imm)
  {
    var z := FULL - imm;
    if RangeOfOnes(z) {
      Pow2Values();
      RangeIsRun(z);
      RunFits(z, Ffs(z), PopCount(z), 64);
      if Bit(imm, 63) { BitInWidth(32, imm, 63); }
      BitNot(64, imm, 63);
      assert Bit(z, 63);
      GapIsInside(imm, Ffs(z), PopCount(z));
    }
  }

  lemma NarrowFields(imm: Word64, e: nat, x: Word64, mask: Word64)
    requires 0 < imm < ONES32 && e == StopSize(imm, 32) && mask == MaskOf(e, 32) && x == And(imm, mask)
    ensures 0 < x < mask
    ensures var f := ElementFields(x, mask, e);
      && (f.Fault? <==> Wrapped(imm) || forall g: Encoded {:trigger StandsFor(g, imm)} :: !StandsFor(g, imm))
      && (f.Fields? ==> StandsFor(f, imm))
  {
    hide DecodesTo, RangeOfOnes, PopCount, Fls32, Ffs, Fls, StopSize, Pow2, And, ElementOf, SizeField, StandsFor;
    var d := Twice32(imm);
    TwiceStops(imm);
    FirstHalves(imm);
    LowBitsOfTwice(imm, e);
    CutOut(imm, e, mask);
    WideFields(d, e, ElementOf(d, e), Pow2(e) - 1);
    forall g: Encoded
      ensures StandsFor(g, imm) <==> DecodesTo(g, d, 64)
    {
      Doubling(imm, g);
    }
    if e == 32 && !RangeOfOnes(imm) {
      WholeWord(imm);
    }
  }

  // What the mask cuts out is the element.
  lemma CutOut(imm: Word64, e: nat, mask: Word64)
    requires 0 < imm < ONES32 && IsSize(e) && e <= 32 && mask == MaskOf(e, 32)
    ensures if e == 32 then mask == FULL && And(imm, mask) == imm == ElementOf(imm, e)
            else mask == Pow2(e) - 1 && And(imm, mask) == ElementOf(imm, e)
    ensures Pow2(e) <= 0x1_0000_0000
  {
    hide And, Pow2;
    Pow2Values();
    Pow2Monotone(e, 32);
    AndAllOnes(64, imm);
    AndLowMask(imm, e);
  }

  // Of the values that are refused for their ones around the end, those whose zeros are
  // one run could have been encoded.
  lemma WrappedEncodable(imm: Word64)
    requires Wrapped(imm)
    ensures imm < ONES32
    ensures (exists g: Encoded :: StandsFor(g, imm)) <==> RangeOfOnes(ONES32 - imm)
  {
    hide DecodesTo, RangeOfOnes, PopCount, Fls32, Ffs, Fls, StopSize, Pow2, And, ElementOf, SizeField, StandsFor;
    var d := Twice32(imm);
    TwiceStops(imm);
    FirstHalves(imm);
    LowBitsOfTwice(imm, 32);
    CutOut(imm, 32, FULL);
    Pow2Values();
    WideFields(d, 32, imm, ONES32);
    forall g: Encoded
      ensures StandsFor(g, imm) <==> DecodesTo(g, d, 64)
    {
      Doubling(imm, g);
    }
  }

  // The two outer bits, for one.
  lemma OuterBitsMissed(imm: Word64, z: Word64)
    requires imm == 0x8000_0001 && z == ONES32 - imm
    ensures Wrapped(imm) && exists g: Encoded :: StandsFor(g, imm)
  {
    hide RangeOfOnes, StandsFor, Bit, Shl, Ffs;
    PowersInUse();
    MorePowersInUse();
    ShlBy(Pow2(30) - 1, 1);
    forall j: nat {:trigger Bit(z, j)} ensures Bit(z, j) <==> 1 <= j < 1 + 30 {
      BitShl(Pow2(30) - 1, 1, j);
      if j >= 1 { BitOnes(30, j - 1); }
    }
    RunIsRange(z, 1, 30);
    TwoRuns(imm, z);
    WrappedEncodable(imm);
  }

  lemma TwoRuns(imm: Word64, z: Word64)
    requires imm <= ONES32 && z == ONES32 - imm && imm % 2 == 1 && imm >= 0x8000_0000 && IsRun(z, 1, 30)
    ensures !RangeOfOnes(imm)
  {
    hide RangeOfOnes;
    Pow2Values();
    BitNot(32, imm, 0);
    BitNot(32, imm, 1);
    BitNot(32, imm, 31);
    assert !Bit(z, 0) && Bit(z, 1) && !Bit(z, 31);
    if RangeOfOnes(imm) {
      RangeIsRun(imm);
      assert Bit(imm, 0) && !Bit(imm, 1);
      assert Bit(imm, 31);
    }
  }
}
