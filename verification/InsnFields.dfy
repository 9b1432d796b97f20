// Immediate fields of instruction words: putting a value in, taking it out, and
// the branch offsets built on them.
module InsnFields {
  import opened Bits
  import opened BitFields
  import opened A64
  import opened Relocation

  // AARCH64_BREAK_FAULT: BRK with the immediate 0x100.
  const BREAK_FAULT: Word := 0xD420_2000

  // The immediate fields and two register fields.
  datatype Field = Imm26 | Imm19 | Imm16 | Imm14 | Imm12 | Imm9 | Imm7 | Imm6 | ImmS | ImmR | ImmN | RegD | RegN

  // aarch64_get_imm_shift_mask and aarch64_insn_encode_register: width and position.
  function WidthOf(f: Field): nat {
    match f
    case Imm26 => 26 case Imm19 => 19 case Imm16 => 16 case Imm14 => 14 case Imm12 => 12
    case Imm9 => 9 case Imm7 => 7 case Imm6 => 6 case ImmS => 6 case ImmR => 6 case ImmN => 1
    case RegD => 5 case RegN => 5
  }

  function ShiftOf(f: Field): nat {
    match f
    case Imm26 => 0 case Imm19 => 5 case Imm16 => 5 case Imm14 => 5 case Imm12 => 10
    case Imm9 => 12 case Imm7 => 15 case Imm6 => 10 case ImmS => 10 case ImmR => 16 case ImmN => 22
    case RegD => 0 case RegN => 5
  }

  // mask << shift
  function FieldMask(f: Field): (m: Word) {
    MaskFits(f);
    Shl(Pow2(WidthOf(f)) - 1, ShiftOf(f))
  }

  lemma MaskFits(f: Field)
    ensures Shl(Pow2(WidthOf(f)) - 1, ShiftOf(f)) < 0x1_0000_0000
  {
    OnesFit(WidthOf(f), ShiftOf(f));
  }

  lemma OnesFit(n: nat, k: nat)
    requires n + k <= 32
    ensures Shl(Pow2(n) - 1, k) < 0x1_0000_0000
  {
    ShlWidth(Pow2(n) - 1, n, k);
    Pow2Monotone(n + k, 32);
    Pow2Values();
  }

  lemma {:induction false} ShlWidth(x: nat, n: nat, k: nat)
    requires x < Pow2(n)
    ensures Shl(x, k) < Pow2(n + k)
    decreases k
  {
    if k > 0 {
      ShlWidth(x, n, k - 1);
    }
  }

  // aarch64_insn_decode_immediate
  function DecodeField(f: Field, insn: Word): (v: nat) {
    And(Shr(insn, ShiftOf(f)), Pow2(WidthOf(f)) - 1)
  }

  // The word without the field, or the value in its place.
  function Merged(f: Field, insn: Word, imm: nat): nat {
    Or(And(insn, 0xFFFF_FFFF - FieldMask(f)), Shl(And(imm, Pow2(WidthOf(f)) - 1), ShiftOf(f)))
  }

  // aarch64_insn_encode_immediate
  function EncodeField(f: Field, insn: Word, imm: nat): (r: Word) {
    if insn == BREAK_FAULT then BREAK_FAULT
    else
      MergedFits(f, insn, imm);
      Merged(f, insn, imm)
  }

  lemma MergedFits(f: Field, insn: Word, imm: nat)
    ensures Merged(f, insn, imm) < 0x1_0000_0000
  {
    hide Shl, Pow2, And, Or;
    var n, k := WidthOf(f), ShiftOf(f);
    ShlWidth(And(imm, Pow2(n) - 1), n, k);
    Pow2Monotone(n + k, 32);
    Pow2Values();
    OrInWidth(32, And(insn, 0xFFFF_FFFF - FieldMask(f)), Shl(And(imm, Pow2(n) - 1), k));
  }

  lemma MaskBit(f: Field, i: nat)
    ensures Bit(FieldMask(f), i) <==> ShiftOf(f) <= i < ShiftOf(f) + WidthOf(f)
  {
    hide Shl, Pow2, Bit;
    BitShl(Pow2(WidthOf(f)) - 1, ShiftOf(f), i);
    if i >= ShiftOf(f) {
      BitOnes(WidthOf(f), i - ShiftOf(f));
    }
  }

  // Bit i of the word after an insertion: inside the field the value, outside it
  // the old word.
  lemma EncodedBit(f: Field, insn: Word, imm: nat, i: nat)
    requires insn != BREAK_FAULT && i < 32
    ensures Bit(EncodeField(f, insn, imm), i) <==>
      if ShiftOf(f) <= i < ShiftOf(f) + WidthOf(f) then Bit(imm, i - ShiftOf(f)) else Bit(insn, i)
  {
    hide Shl, Pow2, And, Or, Bit;
    Pow2Values();
    BitOr(And(insn, 0xFFFF_FFFF - FieldMask(f)), Shl(And(imm, Pow2(WidthOf(f)) - 1), ShiftOf(f)), i);
    OutsideBit(f, insn, i);
    ValueBit(imm, WidthOf(f), ShiftOf(f), i);
  }

  lemma OutsideBit(f: Field, insn: Word, i: nat)
    requires i < 32
    ensures Bit(And(insn, 0xFFFF_FFFF - FieldMask(f)), i) <==>
      Bit(insn, i) && !(ShiftOf(f) <= i < ShiftOf(f) + WidthOf(f))
  {
    hide FieldMask, ShiftOf, WidthOf;
    Pow2Values();
    BitAnd(insn, 0xFFFF_FFFF - FieldMask(f), i);
    BitNot(32, FieldMask(f), i);
    MaskBit(f, i);
  }

  lemma ValueBit(imm: nat, n: nat, k: nat, i: nat)
    ensures Bit(Shl(And(imm, Pow2(n) - 1), k), i) <==> k <= i < k + n && Bit(imm, i - k)
  {
    BitShl(And(imm, Pow2(n) - 1), k, i);
    if i >= k {
      BitAnd(imm, Pow2(n) - 1, i - k);
      BitOnes(n, i - k);
    }
  }

  lemma DecodedBit(f: Field, insn: Word, i: nat)
    ensures Bit(DecodeField(f, insn), i) <==> i < WidthOf(f) && Bit(insn, i + ShiftOf(f))
  {
    BitAnd(Shr(insn, ShiftOf(f)), Pow2(WidthOf(f)) - 1, i);
    BitShr(insn, ShiftOf(f), i);
    BitOnes(WidthOf(f), i);
  }

  // What was put into a field is taken out of it, cut to the width of the field.
  lemma FieldRoundTrip(f: Field, insn: Word, imm: nat)
    requires insn != BREAK_FAULT
    ensures DecodeField(f, EncodeField(f, insn, imm)) == imm % Pow2(WidthOf(f))
  {
    hide Shr, Shl, Pow2, And, Or, Bit;
    var n := WidthOf(f);
    var d := DecodeField(f, EncodeField(f, insn, imm));
    forall i: nat {:trigger Bit(d, i)} ensures Bit(d, i) == Bit(imm % Pow2(n), i) {
      DecodedBit(f, EncodeField(f, insn, imm), i);
      BitTruncate(n, imm, i);
      if i < n {
        EncodedBit(f, insn, imm, i + ShiftOf(f));
      }
    }
    BitsDetermine(d, imm % Pow2(n));
  }

  // Putting back what a field holds changes nothing.
  lemma FieldIsStable(f: Field, insn: Word)
    ensures EncodeField(f, insn, DecodeField(f, insn)) == insn
  {
    if insn != BREAK_FAULT {
      var e := EncodeField(f, insn, DecodeField(f, insn));
      Pow2Values();
      forall i: nat {:trigger Bit(e, i)} ensures Bit(e, i) == Bit(insn, i) {
        if i < 32 {
          EncodedBit(f, insn, DecodeField(f, insn), i);
          if ShiftOf(f) <= i < ShiftOf(f) + WidthOf(f) {
            DecodedBit(f, insn, i - ShiftOf(f));
          }
        } else {
          if Bit(e, i) { BitInWidth(32, e, i); }
          if Bit(insn, i) { BitInWidth(32, insn, i); }
        }
      }
      BitsDetermine(e, insn);
    }
  }

  predicate Disjoint(f: Field, h: Field) {
    ShiftOf(f) + WidthOf(f) <= ShiftOf(h) || ShiftOf(h) + WidthOf(h) <= ShiftOf(f)
  }

  // A field is left alone by writes to fields beside it.
  lemma OtherFieldKept(f: Field, h: Field, insn: Word, imm: nat)
    requires insn != BREAK_FAULT && Disjoint(f, h)
    ensures DecodeField(h, EncodeField(f, insn, imm)) == DecodeField(h, insn)
  {
    hide Shr, Shl, Pow2, And, Or, Bit;
    var a, b := DecodeField(h, EncodeField(f, insn, imm)), DecodeField(h, insn);
    forall i: nat {:trigger Bit(a, i)} ensures Bit(a, i) == Bit(b, i) {
      DecodedBit(h, EncodeField(f, insn, imm), i);
      DecodedBit(h, insn, i);
      if i < WidthOf(h) {
        EncodedBit(f, insn, imm, i + ShiftOf(h));
      }
    }
    BitsDetermine(a, b);
  }

  // ----------------------------------------------------------------- branch offsets

  predicate IsBranch(insn: Word) {
    var k := KindOf(insn);
    k == KB || k == KBL || k == KCBZ || k == KCBNZ || k == KBC || k == KTBZ || k == KTBNZ
  }

  // The field that holds the offset of a branch.
  function OffsetField(insn: Word): Field
    requires IsBranch(insn)
  {
    match KindOf(insn)
    case KB | KBL => Imm26
    case KTBZ | KTBNZ => Imm14
    case _ => Imm19
  }

  // offset >> 2, as the 64-bit value that is masked.
  function WordOffset(offset: int): nat
    requires -0x8000_0000 <= offset < 0x8000_0000
  {
    (offset / 4) % 0x1_0000_0000_0000_0000
  }

  // aarch64_set_branch_offset
  function SetBranchOffset(insn: Word, offset: int): Word
    requires IsBranch(insn) && -0x8000_0000 <= offset < 0x8000_0000
  {
    EncodeField(OffsetField(insn), insn, WordOffset(offset))
  }

  // (imm << (32 - n)) >> (30 - n) on 32 signed bits, for a field of n bits.
  function SignedOffset(n: nat, imm: nat): int
    requires n > 0
  {
    4 * (if imm >= Pow2(n - 1) then imm - Pow2(n) else imm)
  }

  // aarch64_get_branch_offset
  function GetBranchOffset(insn: Word): int
    requires IsBranch(insn)
  {
    SignedOffset(WidthOf(OffsetField(insn)), DecodeField(OffsetField(insn), insn))
  }

  // The offsets that fit a branch.
  predicate Reaches(insn: Word, offset: int)
    requires IsBranch(insn)
  {
    var n := WidthOf(OffsetField(insn));
    offset % 4 == 0 && -4 * Pow2(n - 1) <= offset < 4 * Pow2(n - 1)
  }

  lemma BranchIsNoFault(insn: Word)
    ensures insn == BREAK_FAULT ==> !IsBranch(insn)
  {
  }

  // Writing the offset leaves the kind of the branch as it was.
  lemma KindKept(insn: Word, offset: int)
    requires IsBranch(insn) && -0x8000_0000 <= offset < 0x8000_0000
    ensures KindOf(SetBranchOffset(insn, offset)) == KindOf(insn)
  {
    var now := SetBranchOffset(insn, offset);
    BranchIsNoFault(insn);
    var f := OffsetField(insn);
    TopKept(f, insn, WordOffset(offset));
    if KindOf(insn) == KBC {
      LowBitKept(f, insn, WordOffset(offset), 4);
      BitFour(now);
      BitFour(insn);
    }
    SameKind(insn, now);
  }

  lemma SameKind(w: Word, v: Word)
    requires IsBranch(w)
    requires KindOf(w) == KB || KindOf(w) == KBL ==> v / 0x400_0000 == w / 0x400_0000
    requires KindOf(w) != KB && KindOf(w) != KBL ==> v / 0x100_0000 == w / 0x100_0000
    requires KindOf(w) == KBC ==> v / 0x10 % 2 == w / 0x10 % 2
    ensures KindOf(v) == KindOf(w)
  {
  }

  // The offset fields lie below bit 26, or below bit 24.
  lemma TopKept(f: Field, insn: Word, imm: nat)
    requires insn != BREAK_FAULT && (f == Imm26 || f == Imm19 || f == Imm14)
    ensures EncodeField(f, insn, imm) / 0x400_0000 == insn / 0x400_0000
    ensures f != Imm26 ==> EncodeField(f, insn, imm) / 0x100_0000 == insn / 0x100_0000
  {
    HighBitsKept(f, insn, imm, 26);
    PowersInUse();
    ShrBy(insn, 26);
    ShrBy(EncodeField(f, insn, imm), 26);
    if f != Imm26 {
      HighBitsKept(f, insn, imm, 24);
      ShrBy(insn, 24);
      ShrBy(EncodeField(f, insn, imm), 24);
    }
  }

  lemma HighBitsKept(f: Field, insn: Word, imm: nat, k: nat)
    requires insn != BREAK_FAULT && ShiftOf(f) + WidthOf(f) <= k
    ensures Shr(EncodeField(f, insn, imm), k) == Shr(insn, k)
  {
    var a, b := Shr(EncodeField(f, insn, imm), k), Shr(insn, k);
    Pow2Values();
    forall i: nat {:trigger Bit(a, i)} ensures Bit(a, i) == Bit(b, i) {
      BitShr(EncodeField(f, insn, imm), k, i);
      BitShr(insn, k, i);
      if i + k < 32 {
        EncodedBit(f, insn, imm, i + k);
      } else {
        if Bit(a, i) { BitInWidth(32, EncodeField(f, insn, imm), i + k); }
        if Bit(b, i) { BitInWidth(32, insn, i + k); }
      }
    }
    BitsDetermine(a, b);
  }

  lemma LowBitKept(f: Field, insn: Word, imm: nat, i: nat)
    requires insn != BREAK_FAULT && i < ShiftOf(f)
    ensures Bit(EncodeField(f, insn, imm), i) == Bit(insn, i)
  {
    EncodedBit(f, insn, imm, i);
  }

  lemma BitFour(w: nat)
    ensures Bit(w, 4) <==> w / 0x10 % 2 == 1
  {
    BitShr(w, 4, 0);
    PowersInUse();
    ShrBy(w, 4);
  }

  // Reading back the offset gives the one written, exactly when it fits.
  lemma OffsetRoundTrip(insn: Word, offset: int)
    requires IsBranch(insn) && -0x8000_0000 <= offset < 0x8000_0000
    ensures IsBranch(SetBranchOffset(insn, offset))
    ensures GetBranchOffset(SetBranchOffset(insn, offset)) == offset <==> Reaches(insn, offset)
  {
    hide Pow2, Shr, FieldMask;
    KindKept(insn, offset);
    BranchIsNoFault(insn);
    var f := OffsetField(insn);
    var n := WidthOf(f);
    FieldRoundTrip(f, insn, WordOffset(offset));
    OffsetPowers();
    SignedBack(n, offset);
  }

  lemma OffsetPowers()
    ensures Pow2(13) == 0x2000 && Pow2(14) == 0x4000 && Pow2(18) == 0x4_0000
    ensures Pow2(19) == 0x8_0000 && Pow2(25) == 0x200_0000 && Pow2(26) == 0x400_0000
  {
    PowersInUse();
    MorePowersInUse();
    assert Pow2(26) == 2 * Pow2(25);
  }

  lemma SignedBack(n: nat, offset: int)
    requires (n == 26 || n == 19 || n == 14) && -0x8000_0000 <= offset < 0x8000_0000
    ensures SignedOffset(n, WordOffset(offset) % Pow2(n)) == offset
      <==> offset % 4 == 0 && -4 * Pow2(n - 1) <= offset < 4 * Pow2(n - 1)
  {
    hide Pow2;
    OffsetPowers();
    var q: int := offset / 4;
    var p: int := Pow2(n);
    SameResidue(q, n);
    if 0 - Pow2(n - 1) <= q < 0 {
      assert q % p == q + p by { DivModUnique(q, p, -1, q + p); }
    } else if 0 <= q < Pow2(n - 1) {
      DivModUnique(q, p, 0, q);
    }
  }

  lemma SameResidue(q: int, n: nat)
    requires n == 26 || n == 19 || n == 14
    ensures q % 0x1_0000_0000_0000_0000 % Pow2(n) == q % Pow2(n)
  {
    OffsetPowers();
    var k, r := q / 0x1_0000_0000_0000_0000, q % 0x1_0000_0000_0000_0000;
    if n == 26 {
      DivModUnique(q, 0x400_0000, k * 0x40_0000_0000 + r / 0x400_0000, r % 0x400_0000);
    } else if n == 19 {
      DivModUnique(q, 0x8_0000, k * 0x2000_0000_0000 + r / 0x8_0000, r % 0x8_0000);
    } else {
      DivModUnique(q, 0x4000, k * 0x4_0000_0000_0000 + r / 0x4000, r % 0x4000);
    }
  }

  // ------------------------------------------------------------ where the fields are

  lemma FieldAt(f: Field, w: Word, low: nat, size: nat)
    requires low == Pow2(ShiftOf(f)) && size == Pow2(WidthOf(f))
    ensures DecodeField(f, w) == w / low % size
  {
    hide Pow2, Shr, And;
    ShrBy(w, ShiftOf(f));
    AndLowMask(Shr(w, ShiftOf(f)), WidthOf(f));
  }

  lemma FieldPowers()
    ensures Pow2(0) == 1 && Pow2(1) == 2 && Pow2(5) == 0x20 && Pow2(6) == 0x40 && Pow2(7) == 0x80 && Pow2(9) == 0x200
    ensures Pow2(10) == 0x400 && Pow2(12) == 0x1000 && Pow2(14) == 0x4000 && Pow2(15) == 0x8000 && Pow2(16) == 0x1_0000
    ensures Pow2(19) == 0x8_0000 && Pow2(22) == 0x40_0000 && Pow2(26) == 0x400_0000
  {
    PowersInUse();
    MorePowersInUse();
    assert Pow2(10) == 4 * Pow2(8);
    assert Pow2(22) == 2 * Pow2(21);
  }

  // The bits of a word that each field is, as section C4.1 of the manual (DDI 0487) draws
  // the encodings.
  lemma FieldPlaces(w: Word)
    ensures DecodeField(Imm26, w) == w / 1 % 0x400_0000 && DecodeField(Imm19, w) == w / 0x20 % 0x8_0000
    ensures DecodeField(Imm16, w) == w / 0x20 % 0x1_0000 && DecodeField(Imm14, w) == w / 0x20 % 0x4000
    ensures DecodeField(Imm12, w) == w / 0x400 % 0x1000 && DecodeField(Imm9, w) == w / 0x1000 % 0x200
    ensures DecodeField(Imm7, w) == w / 0x8000 % 0x80 && DecodeField(Imm6, w) == w / 0x400 % 0x40
    ensures DecodeField(ImmN, w) == w / 0x40_0000 % 2 && DecodeField(ImmR, w) == w / 0x1_0000 % 0x40
    ensures DecodeField(ImmS, w) == w / 0x400 % 0x40
    ensures DecodeField(RegN, w) == w / 0x20 % 0x20 && DecodeField(RegD, w) == w / 1 % 0x20
  {
    hide Pow2, DecodeField;
    FieldPowers();
    FieldAt(Imm26, w, 1, 0x400_0000);
    FieldAt(Imm19, w, 0x20, 0x8_0000);
    FieldAt(Imm16, w, 0x20, 0x1_0000);
    FieldAt(Imm14, w, 0x20, 0x4000);
    FieldAt(Imm12, w, 0x400, 0x1000);
    FieldAt(Imm9, w, 0x1000, 0x200);
    FieldAt(Imm7, w, 0x8000, 0x80);
    FieldAt(Imm6, w, 0x400, 0x40);
    FieldAt(ImmN, w, 0x40_0000, 2);
    FieldAt(ImmR, w, 0x1_0000, 0x40);
    FieldAt(ImmS, w, 0x400, 0x40);
    FieldAt(RegN, w, 0x20, 0x20);
    FieldAt(RegD, w, 1, 0x20);
  }

  // offset as a 64-bit address difference
  function AsAddr(offset: int): Addr
    requires -0x8000_0000 <= offset < 0x8000_0000
  {
    if offset >= 0 then offset else offset + 0x1_0000_0000_0000_0000
  }

  // The offset that is read from a branch is the one that the instruction set gives it.
  lemma OffsetIsTaken(insn: Word)
    requires IsBranch(insn)
    ensures -0x8000_0000 <= GetBranchOffset(insn) < 0x8000_0000
    ensures OffsetOf(KindOf(insn), insn) == AsAddr(GetBranchOffset(insn))
  {
    hide DecodeField, KindOf, Pow2;
    FieldPlaces(insn);
    OffsetPowers();
  }

  // A branch that was given an offset in its range goes there.
  lemma BranchGoesThere(insn: Word, offset: int, pc: Addr)
    requires IsBranch(insn) && -0x8000_0000 <= offset < 0x8000_0000 && Reaches(insn, offset)
    ensures var now := SetBranchOffset(insn, offset);
      KindOf(now) == KindOf(insn) && Effective(KindOf(now), pc, now) == Plus(pc, AsAddr(offset))
  {
    hide KindOf, DecodeField, SetBranchOffset, GetBranchOffset, Reaches, AsAddr;
    var now := SetBranchOffset(insn, offset);
    KindKept(insn, offset);
    OffsetRoundTrip(insn, offset);
    OffsetIsTaken(now);
    NotPageRelative(insn);
  }

  lemma NotPageRelative(insn: Word)
    requires IsBranch(insn)
    ensures KindOf(insn) != KADRP
  {
  }
}
