// aarch64_encode_immediate as it is computed, for both variants.
module LogicalEncoder {
  import opened Bits
  import opened BitFields
  import opened BitCounts
  import opened FindBits
  import opened LogicalImmediate
  import opened ImmediateEncoder
  import opened ImmediateComplete
  import opened ImmediateNarrow

  // Fields stand for imm in an instruction of this width.
  ghost predicate Means(f: Encoded, imm: Word64, wide: bool) {
    if wide then DecodesTo(f, imm, 64) else StandsFor(f, imm)
  }

  // No fields that could be written stand for imm.
  ghost predicate Unencodable(imm: Word64, wide: bool) {
    forall g: Encoded {:trigger Means(g, imm, wide)} :: !Means(g, imm, wide)
  }

  // The encoder gives up on imm, though it may be encodable in a 32-bit instruction.
  ghost predicate Refused(imm: Word64, wide: bool) {
    if wide then Unencodable(imm, true) else imm != ONES32 && (Wrapped(imm) || Unencodable(imm, false))
  }

  // What the encoder makes of imm stands for it.
  predicate EncodedRight(imm: Word64, wide: bool) {
    if wide then imm > 0 && Faithful(imm) else imm != ONES32
  }

  // aarch64_encode_immediate.  The 64-bit variant fails exactly for the values that no
  // fields stand for, and what it returns stands for imm exactly if imm is faithful.
  // The 32-bit variant also fails for the values whose ones wrap around all 32 bits,
  // and it accepts 32 ones, for which it returns fields that stand for nothing.
  method EncodeImmediate(imm: Word64, wide: bool) returns (f: Encoded)
    ensures f.Fields? ==> f.n < 2 && f.immr < 64 && f.imms < 64
    ensures f.Fault? <==> Refused(imm, wide)
    ensures f.Fields? ==> (Means(f, imm, wide) <==> EncodedRight(imm, wide))
  {
    if imm == 0 || imm == FULL {
      NothingStandsFor(imm);
      NoneMeans(imm);
      return Fault;
    }
    if !wide && imm > ONES32 {
      return Fault;
    }
    var e, mask := FindElement(imm, if wide then 64 else 32);
    hide *;
    FieldsAreRight(imm, wide, e, mask);
    f := EncodeElement(And(imm, mask), mask, e);
  }

  lemma NoneMeans(imm: Word64)
    ensures Unencodable(imm, true) <==> forall g: Encoded {:trigger DecodesTo(g, imm, 64)} :: !DecodesTo(g, imm, 64)
    ensures Unencodable(imm, false) <==> forall g: Encoded {:trigger StandsFor(g, imm)} :: !StandsFor(g, imm)
  {
    hide DecodesTo, StandsFor;
    forall g: Encoded
      ensures Means(g, imm, true) <==> DecodesTo(g, imm, 64)
      ensures Means(g, imm, false) <==> StandsFor(g, imm)
    {
    }
  }

  lemma FieldsAreRight(imm: Word64, wide: bool, e: nat, mask: Word64)
    requires 0 < imm < FULL && (!wide ==> imm <= ONES32)
    requires e == StopSize(imm, if wide then 64 else 32) && mask == MaskOf(e, if wide then 64 else 32)
    ensures IsSize(e) && 0 < And(imm, mask) <= mask && (RangeOfOnes(And(imm, mask)) || And(imm, mask) < mask)
    ensures var f := ElementFields(And(imm, mask), mask, e);
      && (f.Fault? <==> Refused(imm, wide))
      && (f.Fields? ==> (Means(f, imm, wide) <==> EncodedRight(imm, wide)))
  {
    hide DecodesTo, RangeOfOnes, StopSize, Pow2, And, ElementOf, StandsFor, Faithful, ElementFields, MaskOf, Wrapped;
    NoneMeans(imm);
    if wide {
      WideMask(imm, e, mask);
      WideFields(imm, e, ElementOf(imm, e), mask);
    } else if imm == ONES32 {
      AllOnesFields(e, And(imm, mask), mask);
    } else {
      NarrowFields(imm, e, And(imm, mask), mask);
    }
  }

  lemma WideMask(imm: Word64, e: nat, mask: Word64)
    requires IsSize(e) && mask == MaskOf(e, 64)
    ensures mask == Pow2(e) - 1 && And(imm, mask) == ElementOf(imm, e)
  {
    hide And;
    Pow2Values();
    AndLowMask(imm, e);
  }

  // The halving loop: the size of the element and the mask that cuts it out.  The mask
  // stays all ones if the first halves differ.
  method FindElement(imm: Word64, width: nat) returns (esz: nat, mask: Word64)
    requires width == 32 || width == 64
    ensures esz == StopSize(imm, width) && mask == MaskOf(esz, width)
  {
    hide Shr, Pow2, And;
    Pow2Values();
    esz, mask := width, FULL;
    var tmp := esz / 2;
    while tmp >= 2
      invariant IsSize(esz) && esz <= width && tmp == esz / 2 && StopSize(imm, width) == StopSize(imm, esz)
      invariant mask == MaskOf(esz, width)
      decreases esz
    {
      Pow2Monotone(tmp, 64);
      var emask := Pow2(tmp) - 1;
      if And(imm, emask) != And(Shr(imm, tmp), emask) {
        return;
      }
      esz, mask := tmp, emask;
      tmp := tmp / 2;
    }
  }

  // range_of_ones, with __ffs64 as it is computed
  method TestRange(v: Word64) returns (b: bool)
    requires v > 0
    ensures b == RangeOfOnes(v)
  {
    hide Ffs, Shr, And;
    var lit := FfsLong(v);
    var sval := Shr(v, lit);
    b := And((sval + 1) % 0x1_0000_0000_0000_0000, sval) == 0;
  }

  // imms: ones - 1 behind the prefix that tells the element size
  method EncodeSize(ones: nat, e: nat) returns (imms: nat)
    requires ones > 0 && IsSize(e)
    ensures imms == SizeField(ones, e) < 64
  {
    SixBits(Or(ones - 1, Shl(0xF, Ffs(e) + 1)));
    hide Ffs, Shl, Or, And;
    var lit := FfsInt(e);
    imms := Or(ones - 1, Shl(0xF, lit));
    imms := And(imms, 63);
  }

  // The second half of the function, for the element x that the mask cut out.
  method EncodeElement(x: Word64, mask: Word64, e: nat) returns (f: Encoded)
    requires IsSize(e) && 0 < x <= mask && (RangeOfOnes(x) || x < mask)
    ensures f == ElementFields(x, mask, e)
    ensures f.Fields? ==> f.n < 2 && f.immr < 64 && f.imms < 64
  {
    hide *;
    HammingWeightIsPopCount(x);
    SizeBound(e);
    SomeBitCounts(x);
    var ones := HammingWeight(x);
    var ror: nat;
    var run := TestRange(x);
    if run {
      ror := FfsLong(x);
    } else {
      run := TestRange(mask - x);
      if !run {
        MadeFields(x, mask, e, 0);
        return Fault;
      }
      ror := FlsWord((mask - x) % 0x1_0000_0000);
      FlsOfWord(mask - x);
    }
    var imms := EncodeSize(ones, e);
    f := Fields(if e == 64 then 1 else 0, (e - ror) % e, imms);
    MadeFields(x, mask, e, ror);
  }

  lemma SizeBound(e: nat)
    requires IsSize(e)
    ensures 0 < e <= 64
  {
  }

  lemma MadeFields(x: Word64, mask: Word64, e: nat, ror: nat)
    requires IsSize(e) && 0 < x <= mask && (RangeOfOnes(x) || x < mask)
    requires if RangeOfOnes(x) then ror == Ffs(x) else RangeOfOnes(mask - x) ==> ror == Fls32(mask - x)
    ensures PopCount(x) > 0 && 0 <= (e - ror) % e < 64
    ensures ElementFields(x, mask, e) ==
      if RangeOfOnes(x) || RangeOfOnes(mask - x) then Fields(if e == 64 then 1 else 0, (e - ror) % e, SizeField(PopCount(x), e))
      else Fault
  {
    hide RangeOfOnes, PopCount, SizeField, Fls32, Ffs;
    SomeBitCounts(x);
  }

  lemma FlsOfWord(z: Word64)
    ensures Fls32(z) == if z % 0x1_0000_0000 == 0 then 0 else Fls(z % 0x1_0000_0000) + 1
  {
  }
}
