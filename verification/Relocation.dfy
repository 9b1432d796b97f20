// What the hook engine emits for one instruction of a hooked window.
module Relocation {
  import opened Bits
  import opened BitFields
  import opened A64

  datatype Kind =
    | KB | KBC | KBL | KADR | KADRP
    | KLDR32 | KLDR64 | KLDRSW | KPRFM | KSIMD32 | KSIMD64 | KSIMD128
    | KCBZ | KCBNZ | KTBZ | KTBNZ | KIGNORE

  const KINDS := 17

  // The rows of the masks, types and relo_len tables, in their order.
  function KindAt(j: nat): Kind
    requires j < KINDS
  {
    match j
    case 0 => KB case 1 => KBC case 2 => KBL case 3 => KADR case 4 => KADRP
    case 5 => KLDR32 case 6 => KLDR64 case 7 => KLDRSW case 8 => KPRFM
    case 9 => KSIMD32 case 10 => KSIMD64 case 11 => KSIMD128
    case 12 => KCBZ case 13 => KCBNZ case 14 => KTBZ case 15 => KTBNZ case _ => KIGNORE
  }

  function MaskOf(k: Kind): Word {
    match k
    case KB => 0xFC00_0000 case KBC => 0xFF00_0010 case KBL => 0xFC00_0000
    case KADR => 0x9F00_0000 case KADRP => 0x9F00_0000
    case KLDR32 => 0xFF00_0000 case KLDR64 => 0xFF00_0000 case KLDRSW => 0xFF00_0000 case KPRFM => 0xFF00_0000
    case KSIMD32 => 0xFF00_0000 case KSIMD64 => 0xFF00_0000 case KSIMD128 => 0xFF00_0000
    case KCBZ => 0x7F00_0000 case KCBNZ => 0x7F00_0000 case KTBZ => 0x7F00_0000 case KTBNZ => 0x7F00_0000
    case KIGNORE => 0
  }

  function PatternOf(k: Kind): Word {
    match k
    case KB => 0x1400_0000 case KBC => 0x5400_0000 case KBL => 0x9400_0000
    case KADR => 0x1000_0000 case KADRP => 0x9000_0000
    case KLDR32 => 0x1800_0000 case KLDR64 => 0x5800_0000 case KLDRSW => 0x9800_0000 case KPRFM => 0xD800_0000
    case KSIMD32 => 0x1C00_0000 case KSIMD64 => 0x5C00_0000 case KSIMD128 => 0x9C00_0000
    case KCBZ => 0x3400_0000 case KCBNZ => 0x3500_0000 case KTBZ => 0x3600_0000 case KTBNZ => 0x3700_0000
    case KIGNORE => 0
  }

  function LengthOf(k: Kind): (n: nat)
    ensures 2 <= n <= 8
  {
    match k
    case KB => 6 case KBC => 8 case KBL => 8 case KADR => 4 case KADRP => 4
    case KLDR32 => 6 case KLDR64 => 6 case KLDRSW => 6 case KPRFM => 8
    case KSIMD32 => 8 case KSIMD64 => 8 case KSIMD128 => 8
    case KCBZ => 6 case KCBNZ => 6 case KTBZ => 6 case KTBNZ => 6 case KIGNORE => 2
  }

  // (inst & masks[j]) == types[j]
  predicate Matches(w: Word, k: Kind) {
    And(w, MaskOf(k)) == PatternOf(k)
  }

  // The kind an instruction belongs to by the fields of its word.
  function KindOf(w: Word): Kind {
    var op := w / 0x100_0000;
    if op / 4 == 0x05 then KB
    else if op == 0x54 && w / 0x10 % 2 == 0 then KBC
    else if op / 4 == 0x25 then KBL
    else if op % 0x20 == 0x10 then (if op / 0x80 == 0 then KADR else KADRP)
    else if op == 0x18 then KLDR32
    else if op == 0x58 then KLDR64
    else if op == 0x98 then KLDRSW
    else if op == 0xD8 then KPRFM
    else if op == 0x1C then KSIMD32
    else if op == 0x5C then KSIMD64
    else if op == 0x9C then KSIMD128
    else if op % 0x80 == 0x34 then KCBZ
    else if op % 0x80 == 0x35 then KCBNZ
    else if op % 0x80 == 0x36 then KTBZ
    else if op % 0x80 == 0x37 then KTBNZ
    else KIGNORE
  }

  predicate IsLiteral(k: Kind) {
    k == KLDR32 || k == KLDR64 || k == KLDRSW || k == KPRFM || k == KSIMD32 || k == KSIMD64 || k == KSIMD128
  }

  // ------------------------------------------------- the table against the fields

  lemma MaskTop6(w: Word)
    ensures And(w, 0xFC00_0000) == w / 0x400_0000 * 0x400_0000
  {
    PowersInUse();
    ShlBy(63, 26);
    ShrBy(w, 26);
    ShlBy(w / 0x400_0000, 26);
    AndField(w, 6, 26, 0xFC00_0000, w / 0x400_0000, w / 0x400_0000 * 0x400_0000);
  }

  lemma MaskTop8(w: Word)
    ensures And(w, 0xFF00_0000) == w / 0x100_0000 * 0x100_0000
  {
    PowersInUse();
    ShlBy(255, 24);
    ShrBy(w, 24);
    ShlBy(w / 0x100_0000, 24);
    AndField(w, 8, 24, 0xFF00_0000, w / 0x100_0000, w / 0x100_0000 * 0x100_0000);
  }

  lemma MaskTop7(w: Word)
    ensures And(w, 0x7F00_0000) == w / 0x100_0000 % 0x80 * 0x100_0000
  {
    PowersInUse();
    ShlBy(127, 24);
    ShrBy(w, 24);
    var q := w / 0x100_0000 % 0x80;
    ShlBy(q, 24);
    AndField(w, 7, 24, 0x7F00_0000, q, q * 0x100_0000);
  }

  lemma MaskAdr(w: Word)
    ensures And(w, 0x9F00_0000) == w / 0x8000_0000 * 0x8000_0000 + w / 0x100_0000 % 0x20 * 0x100_0000
  {
    PowersInUse();
    ShlBy(31, 24);
    ShrBy(w, 24);
    var q, s := w / 0x100_0000 % 0x20, w / 0x8000_0000;
    ShlBy(q, 24);
    AndField(w, 5, 24, 0x1F00_0000, q, q * 0x100_0000);
    ShlBy(1, 31);
    ShrBy(w, 31);
    ShlBy(s, 31);
    AndField(w, 1, 31, 0x8000_0000, s, s * 0x8000_0000);
    AndAbove(0x1F00_0000, 1, 31);
    AndOfSum(w, 0x1F00_0000, 0x8000_0000);
  }

  lemma MaskCondition(w: Word)
    ensures And(w, 0xFF00_0010) == w / 0x100_0000 * 0x100_0000 + w / 0x10 % 2 * 0x10
  {
    MaskTop8(w);
    PowersInUse();
    ShlBy(1, 4);
    ShrBy(w, 4);
    var q := w / 0x10 % 2;
    ShlBy(q, 4);
    AndField(w, 1, 4, 0x10, q, q * 0x10);
    ShlBy(255, 24);
    AndAbove(0x10, 255, 24);
    AndOfSum(w, 0x10, 0xFF00_0000);
  }

  // What the masked value says about the kind.
  lemma KindTop6(w: Word, v: nat)
    requires v == w / 0x400_0000 * 0x400_0000
    ensures v == 0x1400_0000 <==> KindOf(w) == KB
    ensures v == 0x9400_0000 <==> KindOf(w) == KBL
  {
  }

  lemma KindAdr(w: Word, v: nat)
    requires v == w / 0x8000_0000 * 0x8000_0000 + w / 0x100_0000 % 0x20 * 0x100_0000
    ensures v == 0x1000_0000 <==> KindOf(w) == KADR
    ensures v == 0x9000_0000 <==> KindOf(w) == KADRP
  {
  }

  lemma KindTop7(w: Word, v: nat)
    requires v == w / 0x100_0000 % 0x80 * 0x100_0000
    ensures v == 0x3400_0000 <==> KindOf(w) == KCBZ
    ensures v == 0x3500_0000 <==> KindOf(w) == KCBNZ
    ensures v == 0x3600_0000 <==> KindOf(w) == KTBZ
    ensures v == 0x3700_0000 <==> KindOf(w) == KTBNZ
  {
  }

  lemma KindCondition(w: Word, v: nat)
    requires v == w / 0x100_0000 * 0x100_0000 + w / 0x10 % 2 * 0x10
    ensures v == 0x5400_0000 <==> KindOf(w) == KBC
  {
  }

  lemma KindLiteral(w: Word, k: Kind, v: nat)
    requires v == w / 0x100_0000 * 0x100_0000 && IsLiteral(k)
    ensures v == PatternOf(k) <==> KindOf(w) == k
  {
  }

  // The first row of the table that matches is the kind given by the fields; the
  // rows before the last exclude each other, and the last one matches always.
  lemma KindIsFirstMatch(w: Word, k: Kind)
    ensures Matches(w, k) <==> KindOf(w) == k || k == KIGNORE
  {
    match k
    case KB | KBL =>
      MaskTop6(w);
      KindTop6(w, And(w, 0xFC00_0000));
    case KBC =>
      MaskCondition(w);
      KindCondition(w, And(w, 0xFF00_0010));
    case KADR | KADRP =>
      MaskAdr(w);
      KindAdr(w, And(w, 0x9F00_0000));
    case KCBZ | KCBNZ | KTBZ | KTBNZ =>
      MaskTop7(w);
      KindTop7(w, And(w, 0x7F00_0000));
    case KIGNORE =>
    case _ =>
      MaskTop8(w);
      KindLiteral(w, k, And(w, 0xFF00_0000));
  }

  // ------------------------------------------------------ the address referred to

  // bits32(n, high, low)
  function Bits32(n: Word, high: nat, low: nat): nat
    requires low <= high < 32
  {
    Shr(Shl(n, 31 - high) % 0x1_0000_0000, 31 - high + low)
  }

  // sign64_extend(n, len)
  function SignExtend(n: nat, len: nat): nat
    requires 1 <= len <= 64
  {
    if Shr(Shl(n, 64 - len) % 0x1_0000_0000_0000_0000, 63) != 0
    then Or(n, Shl(0xFFFF_FFFF_FFFF_FFFF, len) % 0x1_0000_0000_0000_0000)
    else n
  }

  lemma Bits32By(w: Word, high: nat, low: nat, p: nat, q: nat)
    requires low <= high < 32 && p == Pow2(31 - high) && q == Pow2(31 - high + low)
    ensures q > 0 && Bits32(w, high, low) == p * w % 0x1_0000_0000 / q
  {
    ShlBy(w, 31 - high);
    ShrBy(p * w % 0x1_0000_0000, 31 - high + low);
  }

  lemma Powers()
    ensures Pow2(1) == 2 && Pow2(6) == 0x40 && Pow2(8) == 0x100 && Pow2(13) == 0x2000 && Pow2(18) == 0x4_0000
    ensures Pow2(27) == 0x800_0000 && Pow2(30) == 0x4000_0000
  {
    MorePowersInUse();
    PowersInUse();
    assert Pow2(27) == 2 * Pow2(26);
  }

  lemma FieldBits(w: Word)
    ensures Bits32(w, 25, 0) == w % 0x400_0000
    ensures Bits32(w, 23, 5) == w / 0x20 % 0x8_0000
    ensures Bits32(w, 4, 0) == w % 0x20
    ensures Bits32(w, 18, 5) == w / 0x20 % 0x4000
    ensures Bits32(w, 30, 29) == w / 0x2000_0000 % 4
  {
    Powers();
    Bits32By(w, 25, 0, 0x40, 0x40);
    Bits32By(w, 23, 5, 0x100, 0x2000);
    Bits32By(w, 4, 0, 0x800_0000, 0x800_0000);
    Bits32By(w, 18, 5, 0x2000, 0x4_0000);
    Bits32By(w, 30, 29, 2, 0x4000_0000);
    FieldArithmetic(w);
  }

  lemma FieldArithmetic(w: Word)
    ensures 0x40 * w % 0x1_0000_0000 / 0x40 == w % 0x400_0000
    ensures 0x100 * w % 0x1_0000_0000 / 0x2000 == w / 0x20 % 0x8_0000
    ensures 0x800_0000 * w % 0x1_0000_0000 / 0x800_0000 == w % 0x20
    ensures 0x2000 * w % 0x1_0000_0000 / 0x4_0000 == w / 0x20 % 0x4000
    ensures 2 * w % 0x1_0000_0000 / 0x4000_0000 == w / 0x2000_0000 % 4
  {
    ShiftOut(w, 0x40, 0x400_0000);
    ShiftOut(w, 0x100, 0x100_0000);
    ShiftOut(w, 0x800_0000, 0x20);
    ShiftOut(w, 0x2000, 0x8_0000);
    ShiftOut(w, 2, 0x8000_0000);
    FieldBelow24(w);
    FieldBelow19(w);
    FieldBelow31(w);
  }

  lemma FieldBelow24(w: Word)
    ensures w % 0x100_0000 / 0x20 == w / 0x20 % 0x8_0000
  {
    assert w / 0x20 == w / 0x100_0000 * 0x8_0000 + w % 0x100_0000 / 0x20;
  }

  lemma FieldBelow19(w: Word)
    ensures w % 0x8_0000 / 0x20 == w / 0x20 % 0x4000
  {
    assert w / 0x20 == w / 0x8_0000 * 0x4000 + w % 0x8_0000 / 0x20;
  }

  lemma FieldBelow31(w: Word)
    ensures w % 0x8000_0000 / 0x2000_0000 == w / 0x2000_0000 % 4
  {
  }

  // Shifting left out of a word of p * m values drops what is above m.
  lemma ShiftOut(w: nat, p: nat, m: nat)
    requires p > 0 && m > 0 && p * m == 0x1_0000_0000
    ensures p * w % 0x1_0000_0000 == p * (w % m)
  {
    var q, r := w / m, w % m;
    Factored(p, q, m, r);
    assert p * w == q * 0x1_0000_0000 + p * r;
    assert p * r <= p * (m - 1);
    DivModUnique(p * w, 0x1_0000_0000, q, p * r);
  }

  lemma Factored(p: nat, q: nat, m: nat, r: nat)
    ensures p * (q * m + r) == q * (p * m) + p * r
  {
  }

  // With n of len bits, sign extension adds ones above exactly when bit len - 1 is set.
  lemma SignExtendBy(n: nat, len: nat, p: nat, q: nat, m: nat)
    requires 1 <= len <= 64 && p == Pow2(64 - len) && q == Pow2(len) && n < q
    requires p * n < 0x1_0000_0000_0000_0000
    requires q * 0xFFFF_FFFF_FFFF_FFFF % 0x1_0000_0000_0000_0000 == q * m
    ensures SignExtend(n, len) == if p * n >= 0x8000_0000_0000_0000 then n + q * m else n
  {
    ShlBy(n, 64 - len);
    TopBit(p * n);
    ShlBy(0xFFFF_FFFF_FFFF_FFFF, len);
    ShlBy(m, len);
    OrAbove(n, m, len);
  }

  lemma TopBit(x: nat)
    requires x < 0x1_0000_0000_0000_0000
    ensures Shr(x % 0x1_0000_0000_0000_0000, 63) != 0 <==> x >= 0x8000_0000_0000_0000
  {
    TopBitBy(x, 63, 0x8000_0000_0000_0000);
  }

  lemma TopBitBy(x: nat, k: nat, p: nat)
    requires p == 0x8000_0000_0000_0000 && k == 63
    ensures Shr(x, k) == x / p
  {
    MorePowersInUse();
    ShrBy(x, k);
  }

  lemma Sign16(n: nat)
    requires n < 0x1_0000
    ensures SignExtend(n, 16) == if n >= 0x8000 then n + 0xFFFF_FFFF_FFFF_0000 else n
  {
    MorePowersInUse();
    SignExtendBy(n, 16, 0x1_0000_0000_0000, 0x1_0000, 0xFFFF_FFFF_FFFF);
  }

  lemma Sign21(n: nat)
    requires n < 0x20_0000
    ensures SignExtend(n, 21) == if n >= 0x10_0000 then n + 0xFFFF_FFFF_FFE0_0000 else n
  {
    MorePowersInUse();
    SignExtendBy(n, 21, 0x800_0000_0000, 0x20_0000, 0x7FF_FFFF_FFFF);
  }

  lemma Sign28(n: nat)
    requires n < 0x1000_0000
    ensures SignExtend(n, 28) == if n >= 0x800_0000 then n + 0xFFFF_FFFF_F000_0000 else n
  {
    MorePowersInUse();
    SignExtendBy(n, 28, 0x10_0000_0000, 0x1000_0000, 0xF_FFFF_FFFF);
  }

  lemma Sign33(n: nat)
    requires n < 0x2_0000_0000
    ensures SignExtend(n, 33) == if n >= 0x1_0000_0000 then n + 0xFFFF_FFFE_0000_0000 else n
  {
    MorePowersInUse();
    PowersInUse();
    SignExtendBy(n, 33, 0x8000_0000, 0x2_0000_0000, 0x7FFF_FFFF);
  }

  // The extended offset, as relo_b, relo_adr, relo_ldr, relo_cb and relo_tb compute it.
  function Immediate(k: Kind, w: Word): nat {
    match k
    case KB | KBL => SignExtend(Shl(Bits32(w, 25, 0), 2), 28)
    case KADR => SignExtend(Or(Shl(Bits32(w, 23, 5), 2), Bits32(w, 30, 29)), 21)
    case KADRP => SignExtend(Or(Shl(Bits32(w, 23, 5), 14), Shl(Bits32(w, 30, 29), 12)), 33)
    case KTBZ | KTBNZ => SignExtend(Shl(Bits32(w, 18, 5), 2), 16)
    case KIGNORE => 0
    case _ => SignExtend(Shl(Bits32(w, 23, 5), 2), 21)
  }

  // The address an instruction at addr refers to.
  function TargetOf(k: Kind, addr: Addr, w: Word): Addr {
    var sum := (addr + Immediate(k, w)) % 0x1_0000_0000_0000_0000;
    if k == KADRP then sum - sum % 0x1000 else sum
  }

  // What the instruction set says the same address is.
  function OffsetOf(k: Kind, w: Word): Addr {
    match k
    case KB | KBL => Offset26(w)
    case KADR => Offset21(w)
    case KADRP => PageOffset(w)
    case KTBZ | KTBNZ => Offset14(w)
    case KIGNORE => 0
    case _ => Offset19(w)
  }

  function Effective(k: Kind, addr: Addr, w: Word): Addr {
    Plus(if k == KADRP then Page(addr) else addr, OffsetOf(k, w))
  }

  lemma ShiftedImmediates(w: Word)
    ensures Shl(Bits32(w, 25, 0), 2) == w % 0x400_0000 * 4
    ensures Shl(Bits32(w, 23, 5), 2) == w / 0x20 % 0x8_0000 * 4
    ensures Shl(Bits32(w, 18, 5), 2) == w / 0x20 % 0x4000 * 4
  {
    FieldBits(w);
    Quadruple(Bits32(w, 25, 0));
    Quadruple(Bits32(w, 23, 5));
    Quadruple(Bits32(w, 18, 5));
  }

  lemma Quadruple(x: nat)
    ensures Shl(x, 2) == 4 * x
  {
    MorePowersInUse();
    ShlBy(x, 2);
  }

  lemma AddressImmediate(w: Word)
    ensures Or(Shl(Bits32(w, 23, 5), 2), Bits32(w, 30, 29)) == w / 0x20 % 0x8_0000 * 4 + w / 0x2000_0000 % 4
  {
    FieldBits(w);
    MorePowersInUse();
    OrAbove(Bits32(w, 30, 29), Bits32(w, 23, 5), 2);
    Quadruple(Bits32(w, 23, 5));
  }

  lemma PageImmediate(w: Word)
    ensures Or(Shl(Bits32(w, 23, 5), 14), Shl(Bits32(w, 30, 29), 12))
         == (w / 0x20 % 0x8_0000 * 4 + w / 0x2000_0000 % 4) * 0x1000
  {
    FieldBits(w);
    MorePowersInUse();
    ShlBy(Bits32(w, 23, 5), 14);
    ShlBy(Bits32(w, 30, 29), 12);
    OrAbove(Shl(Bits32(w, 30, 29), 12), Bits32(w, 23, 5), 14);
  }

  lemma PageImmediateIsOffset(w: Word)
    ensures Immediate(KADRP, w) == PageOffset(w)
  {
    PageImmediate(w);
    Sign33((w / 0x20 % 0x8_0000 * 4 + w / 0x2000_0000 % 4) * 0x1000);
  }

  lemma ImmediateIsOffset(k: Kind, w: Word)
    ensures Immediate(k, w) == OffsetOf(k, w)
  {
    match k
    case KB | KBL =>
      ShiftedImmediates(w);
      Sign28(w % 0x400_0000 * 4);
    case KADR =>
      AddressImmediate(w);
      Sign21(w / 0x20 % 0x8_0000 * 4 + w / 0x2000_0000 % 4);
    case KADRP =>
      PageImmediateIsOffset(w);
    case KTBZ | KTBNZ =>
      ShiftedImmediates(w);
      Sign16(w / 0x20 % 0x4000 * 4);
    case KIGNORE =>
    case _ =>
      ShiftedImmediates(w);
      Sign21(w / 0x20 % 0x8_0000 * 4);
  }

  // Adding whole pages commutes with dropping the offset in the page.
  lemma PageSum(addr: Addr, imm: Addr)
    requires imm % 0x1000 == 0
    ensures var sum := (addr + imm) % 0x1_0000_0000_0000_0000;
            sum == Plus(addr, imm) && sum - sum % 0x1000 == Plus(Page(addr), imm)
  {
    SumIsPlus(addr, imm);
    assert Plus(addr, imm) % 0x1000 == addr % 0x1000;
  }

  lemma SumIsPlus(a: Addr, b: Addr)
    ensures (a + b) % 0x1_0000_0000_0000_0000 == Plus(a, b)
  {
  }

  lemma PageOffsetIsWhole(w: Word)
    ensures PageOffset(w) % 0x1000 == 0
  {
  }

  // The engine and the instruction set agree on every referred address.
  lemma TargetIsEffective(k: Kind, addr: Addr, w: Word)
    ensures TargetOf(k, addr, w) == Effective(k, addr, w)
  {
    ImmediateIsOffset(k, w);
    SumIsPlus(addr, OffsetOf(k, w));
    if k == KADRP {
      PageOffsetIsWhole(w);
      PageSum(addr, PageOffset(w));
    }
  }

  // --------------------------------------------------------------- emitted words

  // addr & 0xFFFFFFFF and addr >> 32
  function Lo(a: Addr): Word { a % 0x1_0000_0000 }
  function Hi(a: Addr): Word { a / 0x1_0000_0000 }

  // The first word of a relocated conditional branch: the same test, over #8.
  function ShortBranch(w: Word, mask: Word): Word
    requires mask <= 0xFFFF_FF1F
  {
    OrInWord(And(w, mask), 0x40);
    Or(And(w, mask), 0x40)
  }

  lemma OrInWord(a: Word, b: Word)
    ensures Or(a, b) < 0x1_0000_0000
  {
    Pow2Values();
    OrInWidth(32, a, b);
  }

  // A fixed word with register r filled in at bit 0.
  function WithRegister(base: Word, r: nat): Word
    requires r < 32
  {
    OrInWord(base, r);
    Or(base, r)
  }

  // A load with r both as base and as destination.
  function LoadThrough(base: Word, r: nat): Word
    requires r < 32
  {
    ShiftedRegister(r);
    OrInWord(WithRegister(base, r), Shl(r, 5));
    Or(WithRegister(base, r), Shl(r, 5))
  }

  lemma ShiftedRegister(r: nat)
    requires r < 32
    ensures Shl(r, 5) == 32 * r
  {
    PowersInUse();
    ShlBy(r, 5);
  }

  // The words relo_b, relo_adr, relo_ldr, relo_cb, relo_tb and relo_ignore write
  // for word w, a being the address it refers to after redirection.
  function Emit(k: Kind, w: Word, a: Addr): (ws: seq<Word>)
    ensures |ws| == LengthOf(k)
  {
    var rt := w % 0x20;
    match k
    case KB => [0x5800_0051, 0x1400_0003, Lo(a), Hi(a), 0xD65F_0220, NOP]
    case KBC => [ShortBranch(w, 0xFF00_001F), 0x1400_0006,
                 0x5800_0051, 0x1400_0003, Lo(a), Hi(a), 0xD65F_0220, NOP]
    case KBL => [0x5800_0051, 0x1400_0003, Lo(a), Hi(a), 0x1000_001E, 0x9100_33DE, 0xD65F_0220, NOP]
    case KADR => [WithRegister(0x5800_0040, rt), 0x1400_0003, Lo(a), Hi(a)]
    case KADRP => [WithRegister(0x5800_0040, rt), 0x1400_0003, Lo(a), Hi(a)]
    case KLDR32 => [WithRegister(0x5800_0060, rt), LoadThrough(0xB940_0000, rt), 0x1400_0004, NOP, Lo(a), Hi(a)]
    case KLDR64 => [WithRegister(0x5800_0060, rt), LoadThrough(0xF940_0000, rt), 0x1400_0004, NOP, Lo(a), Hi(a)]
    case KLDRSW => [WithRegister(0x5800_0060, rt), LoadThrough(0xB980_0000, rt), 0x1400_0004, NOP, Lo(a), Hi(a)]
    case KPRFM => [0xA93F_47F0, 0x5800_0091, WithRegister(0xF980_0220, rt), 0xF85F_83F1, 0x1400_0004,
                   NOP, Lo(a), Hi(a)]
    case KSIMD32 => [0xA93F_47F0, 0x5800_0091, WithRegister(0xBD40_0220, rt), 0xF85F_83F1, 0x1400_0004,
                     NOP, Lo(a), Hi(a)]
    case KSIMD64 => [0xA93F_47F0, 0x5800_0091, WithRegister(0xFD40_0220, rt), 0xF85F_83F1, 0x1400_0004,
                     NOP, Lo(a), Hi(a)]
    case KSIMD128 => [0xA93F_47F0, 0x5800_0091, WithRegister(0x3DC0_0220, rt), 0xF85F_83F1, 0x1400_0004,
                      NOP, Lo(a), Hi(a)]
    case KCBZ | KCBNZ => [ShortBranch(w, 0xFF00_001F), 0x1400_0005, 0x5800_0051, 0xD65F_0220, Lo(a), Hi(a)]
    case KTBZ | KTBNZ => [ShortBranch(w, 0xFFF8_001F), 0x1400_0005, 0x5800_0051, 0xD61F_0220, Lo(a), Hi(a)]
    case KIGNORE => [w, NOP]
  }

  // The stub of branch_from_to: load an address and return to it.
  function Stub(a: Addr): seq<Word> {
    [0x5800_0051, 0xD65F_0220, Lo(a), Hi(a)]
  }
}
