// What running one relocated block does on the A64 machine.
module RelocatedBlocks {
  import opened Bits
  import opened BitFields
  import opened A64
  import opened Relocation

  // ------------------------------------------------------ decoding emitted words

  // The kind table and the instruction set split the words the same way; the branches
  // and address computations first.
  lemma KindIsDecoding(w: Word)
    ensures KindOf(w) == KB ==> Decode(w) == B(Offset26(w))
    ensures KindOf(w) == KBL ==> Decode(w) == BL(Offset26(w))
    ensures KindOf(w) == KBC ==> Decode(w) == BCond(w % 0x10, Offset19(w))
    ensures KindOf(w) == KADR ==> Decode(w) == Adr(w % 0x20, Offset21(w))
    ensures KindOf(w) == KADRP ==> Decode(w) == Adrp(w % 0x20, PageOffset(w))
  {
    hide Offset26, Offset19, Offset14, Offset21, PageOffset, TestedBit, LoadKindOf;
  }

  predicate PositionFree(insn: Insn) {
    insn.Other? || insn.Nop? || insn.AddImm? || insn.Ret? || insn.Br? || insn.Blr?
  }

  // The compare and test rows in the two forms of the test.
  lemma BranchRows(op: nat)
    ensures op / 2 % 0x40 == 0x1A <==> op % 0x80 == 0x34 || op % 0x80 == 0x35
    ensures op / 2 % 0x40 == 0x1B <==> op % 0x80 == 0x36 || op % 0x80 == 0x37
  {
  }

  lemma OtherKindsDecode(w: Word)
    ensures IsLiteral(KindOf(w)) <==> Decode(w).LoadLiteral?
    ensures KindOf(w) == KIGNORE <==> PositionFree(Decode(w))
  {
    BranchRows(w / 0x100_0000);
    hide Offset26, Offset19, Offset14, Offset21, PageOffset, TestedBit, LoadKindOf;
  }

  lemma CompareDecoding(w: Word)
    ensures KindOf(w) == KCBZ || KindOf(w) == KCBNZ ==>
      Decode(w) == CompareBranch(w / 0x8000_0000 == 1, KindOf(w) == KCBNZ, w % 0x20, Offset19(w))
  {
    BranchRows(w / 0x100_0000);
    hide Offset26, Offset19, Offset14, Offset21, PageOffset, TestedBit, LoadKindOf;
  }

  lemma TestDecoding(w: Word)
    ensures KindOf(w) == KTBZ || KindOf(w) == KTBNZ ==>
      Decode(w) == TestBranch(KindOf(w) == KTBNZ, TestedBit(w), w % 0x20, Offset14(w))
  {
    BranchRows(w / 0x100_0000);
  }

  lemma LiteralDecoding(w: Word)
    ensures IsLiteral(KindOf(w)) ==> Decode(w) == LoadLiteral(LoadKindOf(w / 0x100_0000), w % 0x20, Offset19(w))
  {
    hide Offset26, Offset19, Offset14, Offset21, PageOffset, TestedBit, LoadKindOf;
  }

  // The decoding that each row of the tables stands for.
  predicate DecodedAs(w: Word, k: Kind) {
    var insn, rt := Decode(w), w % 0x20;
    match k
    case KB => insn == B(Offset26(w))
    case KBL => insn == BL(Offset26(w))
    case KBC => insn == BCond(w % 0x10, Offset19(w))
    case KADR => insn == Adr(rt, Offset21(w))
    case KADRP => insn == Adrp(rt, PageOffset(w))
    case KLDR32 => insn == LoadLiteral(Load32, rt, Offset19(w))
    case KLDR64 => insn == LoadLiteral(Load64, rt, Offset19(w))
    case KLDRSW => insn == LoadLiteral(LoadSigned, rt, Offset19(w))
    case KPRFM => insn == LoadLiteral(Prefetch, rt, Offset19(w))
    case KSIMD32 => insn == LoadLiteral(LoadS, rt, Offset19(w))
    case KSIMD64 => insn == LoadLiteral(LoadD, rt, Offset19(w))
    case KSIMD128 => insn == LoadLiteral(LoadQ, rt, Offset19(w))
    case KCBZ => insn == CompareBranch(w / 0x8000_0000 == 1, false, rt, Offset19(w))
    case KCBNZ => insn == CompareBranch(w / 0x8000_0000 == 1, true, rt, Offset19(w))
    case KTBZ => insn == TestBranch(false, TestedBit(w), rt, Offset14(w))
    case KTBNZ => insn == TestBranch(true, TestedBit(w), rt, Offset14(w))
    case KIGNORE => PositionFree(insn)
  }

  // Every word is decoded as its kind says.
  lemma EveryKindDecodes(w: Word)
    ensures DecodedAs(w, KindOf(w))
  {
    hide Decode, Offset26, Offset19, Offset14, Offset21, PageOffset, TestedBit;
    KindIsDecoding(w);
    OtherKindsDecode(w);
    CompareDecoding(w);
    TestDecoding(w);
    LiteralDecoding(w);
  }

  // inst & 0xFF00001F
  lemma MaskCompare(w: Word)
    ensures And(w, 0xFF00_001F) == w / 0x100_0000 * 0x100_0000 + w % 0x20
  {
    MaskTop8(w);
    PowersInUse();
    AndLowMask(w, 5);
    ShlBy(255, 24);
    AndAbove(0x1F, 255, 24);
    AndOfSum(w, 0x1F, 0xFF00_0000);
  }

  // inst & 0xFFF8001F
  lemma MaskTest(w: Word)
    ensures And(w, 0xFFF8_001F) == w / 0x8_0000 * 0x8_0000 + w % 0x20
  {
    PowersInUse();
    ShlBy(0x1FFF, 19);
    ShrBy(w, 19);
    var q := w / 0x8_0000;
    ShlBy(q, 19);
    AndField(w, 13, 19, 0xFFF8_0000, q, q * 0x8_0000);
    AndLowMask(w, 5);
    AndAbove(0x1F, 0x1FFF, 19);
    AndOfSum(w, 0x1F, 0xFFF8_0000);
  }

  // a | 0x40 where bit 6 of a is clear
  lemma OrBit6(a: nat)
    requires a / 0x40 % 2 == 0
    ensures Or(a, 0x40) == a + 0x40
  {
    PowersInUse();
    ShlBy(1, 6);
    ShrBy(a, 6);
    ShlBy(0, 6);
    AndField(a, 1, 6, 0x40, 0, 0);
    OrAdds(a, 0x40);
  }

  lemma ShortConditional(w: Word)
    requires KindOf(w) == KBC
    ensures Decode(ShortBranch(w, 0xFF00_001F)) == BCond(w % 0x10, 8)
  {
    ShortCompareWord(w);
    ShortConditionalFields(w, ShortBranch(w, 0xFF00_001F));
  }

  lemma ShortCompareWord(w: Word)
    ensures ShortBranch(w, 0xFF00_001F) == w / 0x100_0000 * 0x100_0000 + w % 0x20 + 0x40
  {
    MaskCompare(w);
    BitSixClear(w / 0x100_0000 * 0x4_0000, w % 0x20);
    OrBit6(w / 0x100_0000 * 0x100_0000 + w % 0x20);
  }

  lemma ShortConditionalFields(w: Word, v: Word)
    requires KindOf(w) == KBC && v == w / 0x100_0000 * 0x100_0000 + w % 0x20 + 0x40
    ensures Decode(v) == BCond(w % 0x10, 8)
  {
    ShortFields(w, v);
    assert w % 0x20 == w % 0x10;
    assert v / 0x100_0000 == 0x54 && v / 0x10 % 2 == 0;
    assert Offset19(v) == 8;
  }

  lemma ShortFields(w: Word, v: Word)
    requires v == w / 0x100_0000 * 0x100_0000 + w % 0x20 + 0x40
    ensures v / 0x100_0000 == w / 0x100_0000 && v / 0x20 % 0x8_0000 == 2 && v % 0x20 == w % 0x20
  {
    assert v / 0x20 == w / 0x100_0000 * 0x8_0000 + 2;
  }

  lemma ShortCompare(w: Word)
    requires KindOf(w) == KCBZ || KindOf(w) == KCBNZ
    ensures Decode(ShortBranch(w, 0xFF00_001F))
         == CompareBranch(w / 0x8000_0000 == 1, KindOf(w) == KCBNZ, w % 0x20, 8)
  {
    ShortCompareWord(w);
    ShortCompareFields(w, ShortBranch(w, 0xFF00_001F));
  }

  lemma ShortCompareFields(w: Word, v: Word)
    requires KindOf(w) == KCBZ || KindOf(w) == KCBNZ
    requires v == w / 0x100_0000 * 0x100_0000 + w % 0x20 + 0x40
    ensures Decode(v) == CompareBranch(w / 0x8000_0000 == 1, KindOf(w) == KCBNZ, w % 0x20, 8)
  {
    ShortFields(w, v);
    SameTop(w, v);
    CompareDecoding(v);
  }

  // Outside B.cond the kind is a matter of the top byte.
  lemma SameTop(w: Word, v: Word)
    requires v / 0x100_0000 == w / 0x100_0000 && w / 0x100_0000 != 0x54
    ensures KindOf(v) == KindOf(w) && v / 0x8000_0000 == w / 0x8000_0000
  {
  }

  lemma ShortTest(w: Word)
    requires KindOf(w) == KTBZ || KindOf(w) == KTBNZ
    ensures Decode(ShortBranch(w, 0xFFF8_001F))
         == TestBranch(KindOf(w) == KTBNZ, TestedBit(w), w % 0x20, 8)
  {
    ShortTestWord(w);
    ShortTestFields(w, ShortBranch(w, 0xFFF8_001F));
  }

  lemma ShortTestWord(w: Word)
    ensures ShortBranch(w, 0xFFF8_001F) == w / 0x8_0000 * 0x8_0000 + w % 0x20 + 0x40
  {
    hide Or, And, Pow2;
    MaskTest(w);
    BitSixClear(w / 0x8_0000 * 0x2000, w % 0x20);
    OrBit6(w / 0x8_0000 * 0x8_0000 + w % 0x20);
  }

  lemma BitSixClear(h: nat, l: nat)
    requires h % 2 == 0 && l < 0x20
    ensures (h * 0x40 + l) / 0x40 % 2 == 0
  {
  }

  lemma ShortTestFields(w: Word, v: Word)
    requires KindOf(w) == KTBZ || KindOf(w) == KTBNZ
    requires v == w / 0x8_0000 * 0x8_0000 + w % 0x20 + 0x40
    ensures Decode(v) == TestBranch(KindOf(w) == KTBNZ, TestedBit(w), w % 0x20, 8)
  {
    ShortTestSplit(w, v);
    SameTop(w, v);
    assert TestedBit(v) == TestedBit(w);
    TestDecoding(v);
  }

  lemma ShortTestSplit(w: Word, v: Word)
    requires v == w / 0x8_0000 * 0x8_0000 + w % 0x20 + 0x40
    ensures v / 0x8_0000 == w / 0x8_0000 && v / 0x100_0000 == w / 0x100_0000
    ensures v % 0x20 == w % 0x20 && v / 0x20 % 0x4000 == 2
  {
    assert v / 0x20 == w / 0x8_0000 * 0x4000 + 2;
    assert v / 0x8_0000 / 0x20 == v / 0x100_0000 && w / 0x8_0000 / 0x20 == w / 0x100_0000;
  }

  // LDR Xr, #8 and LDR Xr, #12
  lemma LoadDecodings(r: nat)
    requires r < 32
    ensures Decode(WithRegister(0x5800_0040, r)) == LoadLiteral(Load64, r, 8)
    ensures Decode(WithRegister(0x5800_0060, r)) == LoadLiteral(Load64, r, 12)
  {
    OrRegister(0x5800_0040, r, 0x2C0_0002);
    LoadFields(0x5800_0040 + r, r, 2);
    OrRegister(0x5800_0060, r, 0x2C0_0003);
    LoadFields(0x5800_0060 + r, r, 3);
  }

  lemma OrRegister(base: Word, r: nat, h: nat)
    requires r < 32 && base == 32 * h
    ensures WithRegister(base, r) == base + r
  {
    PowersInUse();
    ShlBy(h, 5);
    OrAbove(r, h, 5);
  }

  lemma LoadFields(v: Word, r: nat, n: nat)
    requires r < 32 && n < 4 && v == 0x5800_0000 + 32 * n + r
    ensures Decode(v) == LoadLiteral(Load64, r, 4 * n)
  {
  }

  // The words that every block is built from.
  ghost predicate KnowsFixedWords<R>(sem: Sem<R>) {
    && sem.decode(0x5800_0051) == LoadLiteral(Load64, 17, 8)
    && sem.decode(0x5800_0091) == LoadLiteral(Load64, 17, 16)
    && sem.decode(0x1400_0003) == B(12)
    && sem.decode(0x1400_0005) == B(20)
    && sem.decode(0x1400_0006) == B(24)
    && sem.decode(0xD65F_0220) == Ret(17)
    && sem.decode(0xD61F_0220) == Br(17)
    && sem.decode(0x1000_001E) == Adr(30, 0)
    && sem.decode(0x9100_33DE) == AddImm(30, 30, 12)
    && sem.decode(NOP) == Nop
  }

  lemma FixedWordsKnown<R(!new)>(sem: Sem<R>)
    requires IsA64(sem)
    ensures KnowsFixedWords(sem)
  {
    assert DecodesAs(sem, 0x5800_0051) && DecodesAs(sem, 0x5800_0091) && DecodesAs(sem, 0x1400_0003);
    assert DecodesAs(sem, 0x1400_0005) && DecodesAs(sem, 0x1400_0006) && DecodesAs(sem, 0xD65F_0220);
    assert DecodesAs(sem, 0xD61F_0220) && DecodesAs(sem, 0x1000_001E) && DecodesAs(sem, 0x9100_33DE);
    assert DecodesAs(sem, NOP);
    FixedDecodings();
  }

  lemma FixedDecodings()
    ensures Decode(0x5800_0051) == LoadLiteral(Load64, 17, 8) && Decode(0x5800_0091) == LoadLiteral(Load64, 17, 16)
    ensures Decode(0x1400_0003) == B(12) && Decode(0x1400_0005) == B(20) && Decode(0x1400_0006) == B(24)
    ensures Decode(0xD65F_0220) == Ret(17) && Decode(0xD61F_0220) == Br(17)
    ensures Decode(0x1000_001E) == Adr(30, 0) && Decode(0x9100_33DE) == AddImm(30, 30, 12)
    ensures Decode(NOP) == Nop
  {
  }

  // ------------------------------------------------------------- running a block

  // code holds ws from address b on, short of the end of the address space.
  ghost predicate Holds(code: Code, b: Addr, ws: seq<Word>) {
    && b + 4 * |ws| < 0x1_0000_0000_0000_0000
    && forall i: nat {:trigger HoldsAt(code, b, ws, i)} :: i < |ws| ==> HoldsAt(code, b, ws, i)
  }

  predicate HoldsAt(code: Code, b: Addr, ws: seq<Word>, i: nat)
    requires i < |ws| && b + 4 * |ws| < 0x1_0000_0000_0000_0000
  {
    code(b + 4 * i) == ws[i]
  }

  lemma AddressCell(code: Code, c: Addr, a: Addr)
    requires c + 4 < 0x1_0000_0000_0000_0000 && code(c) == Lo(a) && code(c + 4) == Hi(a)
    ensures Cell64(code, c) == a
  {
  }

  // Whether the branch of a conditional kind is taken in state t.
  predicate Taken<R>(sem: Sem<R>, k: Kind, w: Word, t: Cpu<R>) {
    match k
    case KB | KBL => true
    case KBC => CondHolds(w % 0x10, t.flags)
    case KCBZ | KCBNZ => (CompareValue(t.x, w % 0x20, w / 0x8000_0000 == 1) != 0) == (k == KCBNZ)
    case KTBZ | KTBNZ =>
      sem.testBit(Get(t.x, w % 0x20), TestedBit(w)) == (k == KTBNZ)
    case _ => false
  }

  // The state in which the block at b of kind k for word w is left, and the
  // number of instructions it runs: a is the redirected address of w.
  function AfterBlock<R>(sem: Sem<R>, k: Kind, w: Word, a: Addr, b: Addr, t: Cpu<R>): Cpu<R>
    requires b + 40 < 0x1_0000_0000_0000_0000
  {
    match k
    case KADR | KADRP => t.(pc := b + 16, x := Put(t.x, w % 0x20, a))
    case KBL => t.(pc := a, x := Put(Put(t.x, 17, a), 30, b + 28))
    case KIGNORE => AfterPositionFree(sem, sem.decode(w), b, t)
    case _ => if Taken(sem, k, w, t) then t.(pc := a, x := Put(t.x, 17, a)) else t.(pc := b + 4 * LengthOf(k))
  }

  function AfterPositionFree<R>(sem: Sem<R>, insn: Insn, b: Addr, t: Cpu<R>): Cpu<R>
    requires b + 40 < 0x1_0000_0000_0000_0000
  {
    var x := t.x;
    match insn
    case Ret(rn) => t.(pc := Get(x, rn))
    case Br(rn) => t.(pc := Get(x, rn))
    case Blr(rn) => t.(pc := Get(x, rn), x := Put(x, 30, b + 4))
    case AddImm(rd, rn, imm) =>
      t.(pc := b + 8, x := Put(x, rd, (Get(x, rn) + imm) % 0x1_0000_0000_0000_0000))
    case Other(w) =>
      var r := sem.plain(w, x, t.flags, t.rest);
      t.(pc := b + 8, x := r.0, flags := r.1, rest := r.2)
    case _ => t.(pc := b + 8)
  }

  function BlockSteps<R>(sem: Sem<R>, k: Kind, w: Word, t: Cpu<R>): nat {
    match k
    case KB => 3
    case KBC => if Taken(sem, k, w, t) then 4 else 3
    case KBL => 5
    case KADR | KADRP => 2
    case KIGNORE => if sem.decode(w).Ret? || sem.decode(w).Br? || sem.decode(w).Blr? then 1 else 2
    case _ => if Taken(sem, k, w, t) then 3 else 2
  }

  // Loading X17 from the literal two words on.
  lemma LoadsX17<R>(sem: Sem<R>, code: Code, c: Addr, a: Addr, t: Cpu<R>)
    requires KnowsFixedWords(sem) && c + 12 < 0x1_0000_0000_0000_0000 && t.pc == c
    requires code(c) == 0x5800_0051 && code(c + 8) == Lo(a) && code(c + 12) == Hi(a)
    ensures Step(sem, code, t) == t.(pc := c + 4, x := Put(t.x, 17, a))
  {
    AddressCell(code, c + 8, a);
  }

  lemma BlockB<R>(sem: Sem<R>, code: Code, w: Word, a: Addr, b: Addr, t: Cpu<R>)
    requires KnowsFixedWords(sem) && Holds(code, b, Emit(KB, w, a)) && t.pc == b && b + 40 < TWO64
    ensures Steps(sem, code, t, 3) == AfterBlock(sem, KB, w, a, b, t)
  {
    var ws := Emit(KB, w, a);
    assert HoldsAt(code, b, ws, 0) && HoldsAt(code, b, ws, 1) && HoldsAt(code, b, ws, 2);
    assert HoldsAt(code, b, ws, 3) && HoldsAt(code, b, ws, 4);
    LoadsX17(sem, code, b, a, t);
    var t1 := t.(pc := b + 4, x := Put(t.x, 17, a));
    var t2 := t1.(pc := b + 16);
    assert Step(sem, code, t1) == t2;
    assert Step(sem, code, t2) == t1.(pc := a);
    Run3(sem, code, t);
  }

  lemma Run2<R>(sem: Sem<R>, code: Code, t: Cpu<R>)
    ensures Steps(sem, code, t, 1) == Step(sem, code, t)
    ensures Steps(sem, code, t, 2) == Step(sem, code, Step(sem, code, t))
  {
    assert Steps(sem, code, Step(sem, code, t), 1) == Step(sem, code, Step(sem, code, t));
  }

  lemma Run3<R>(sem: Sem<R>, code: Code, t: Cpu<R>)
    ensures Steps(sem, code, t, 3) == Step(sem, code, Step(sem, code, Step(sem, code, t)))
  {
    Run2(sem, code, Step(sem, code, t));
  }

  lemma Run4<R>(sem: Sem<R>, code: Code, t: Cpu<R>)
    ensures Steps(sem, code, t, 4) == Step(sem, code, Step(sem, code, Step(sem, code, Step(sem, code, t))))
  {
    Run3(sem, code, Step(sem, code, t));
  }

  lemma BlockBC<R>(sem: Sem<R>, code: Code, w: Word, a: Addr, b: Addr, t: Cpu<R>)
    requires KnowsFixedWords(sem) && sem.decode(ShortBranch(w, 0xFF00_001F)) == BCond(w % 0x10, 8)
    requires Holds(code, b, Emit(KBC, w, a)) && t.pc == b && b + 40 < TWO64
    ensures Steps(sem, code, t, BlockSteps(sem, KBC, w, t)) == AfterBlock(sem, KBC, w, a, b, t)
  {
    var ws := Emit(KBC, w, a);
    assert HoldsAt(code, b, ws, 0);
    if Taken(sem, KBC, w, t) {
      assert HoldsAt(code, b, ws, 2) && HoldsAt(code, b, ws, 3) && HoldsAt(code, b, ws, 4);
      assert HoldsAt(code, b, ws, 5) && HoldsAt(code, b, ws, 6);
      var t1 := t.(pc := b + 8);
      assert Step(sem, code, t) == t1;
      LoadsX17(sem, code, b + 8, a, t1);
      var t2 := t.(pc := b + 12, x := Put(t.x, 17, a));
      var t3 := t2.(pc := b + 24);
      assert Step(sem, code, t2) == t3;
      assert Step(sem, code, t3) == t2.(pc := a);
      Run4(sem, code, t);
    } else {
      assert HoldsAt(code, b, ws, 1) && HoldsAt(code, b, ws, 7);
      var t1 := t.(pc := b + 4);
      assert Step(sem, code, t) == t1;
      var t2 := t.(pc := b + 28);
      assert Step(sem, code, t1) == t2;
      assert Step(sem, code, t2) == t.(pc := b + 32);
      Run3(sem, code, t);
    }
  }

  // ADR X30, .; ADD X30, X30, #12; RET X17 with X17 loaded.
  lemma LinkTail<R>(sem: Sem<R>, code: Code, c: Addr, a: Addr, t: Cpu<R>)
    requires KnowsFixedWords(sem) && c + 12 < TWO64 && t.pc == c && Get(t.x, 17) == a
    requires code(c) == 0x1000_001E && code(c + 4) == 0x9100_33DE && code(c + 8) == 0xD65F_0220
    ensures Steps(sem, code, t, 3) == t.(pc := a, x := Put(t.x, 30, c + 12))
  {
    var t1 := t.(pc := c + 4, x := Put(t.x, 30, c));
    assert Step(sem, code, t) == t1;
    var t2 := t.(pc := c + 8, x := Put(t.x, 30, c + 12));
    assert t1.x[30 := c + 12] == t2.x;
    assert Step(sem, code, t1) == t2;
    assert Step(sem, code, t2) == t2.(pc := a);
    Run3(sem, code, t);
  }

  lemma BlockBL<R>(sem: Sem<R>, code: Code, w: Word, a: Addr, b: Addr, t: Cpu<R>)
    requires KnowsFixedWords(sem) && Holds(code, b, Emit(KBL, w, a)) && t.pc == b && b + 40 < TWO64
    ensures Steps(sem, code, t, 5) == AfterBlock(sem, KBL, w, a, b, t)
  {
    var ws := Emit(KBL, w, a);
    assert HoldsAt(code, b, ws, 0) && HoldsAt(code, b, ws, 1) && HoldsAt(code, b, ws, 2);
    assert HoldsAt(code, b, ws, 3) && HoldsAt(code, b, ws, 4) && HoldsAt(code, b, ws, 5) && HoldsAt(code, b, ws, 6);
    LoadsX17(sem, code, b, a, t);
    var t1 := t.(pc := b + 4, x := Put(t.x, 17, a));
    var t2 := t1.(pc := b + 16);
    assert Step(sem, code, t1) == t2;
    LinkTail(sem, code, b + 16, a, t2);
    Run2(sem, code, t);
    StepsCompose(sem, code, t, 2, 3);
  }

  lemma BlockAdr<R>(sem: Sem<R>, code: Code, k: Kind, w: Word, a: Addr, b: Addr, t: Cpu<R>)
    requires k == KADR || k == KADRP
    requires KnowsFixedWords(sem)
    requires sem.decode(WithRegister(0x5800_0040, w % 0x20)) == LoadLiteral(Load64, w % 0x20, 8)
    requires Holds(code, b, Emit(k, w, a)) && t.pc == b && b + 40 < TWO64
    ensures Steps(sem, code, t, 2) == AfterBlock(sem, k, w, a, b, t)
  {
    var ws := Emit(k, w, a);
    assert HoldsAt(code, b, ws, 0) && HoldsAt(code, b, ws, 1);
    assert HoldsAt(code, b, ws, 2) && HoldsAt(code, b, ws, 3);
    AddressCell(code, b + 8, a);
    var t1 := t.(pc := b + 4, x := Put(t.x, w % 0x20, a));
    assert Step(sem, code, t) == t1;
    assert Step(sem, code, t1) == t1.(pc := b + 16);
    Run2(sem, code, t);
  }

  // The common shape of the compare and test blocks: the first word goes to the
  // jump when taken and to the skipping branch otherwise.
  lemma BlockSkips<R>(sem: Sem<R>, code: Code, first: Word, ret: Word, a: Addr, b: Addr, t: Cpu<R>, taken: bool)
    requires KnowsFixedWords(sem) && (ret == 0xD65F_0220 || ret == 0xD61F_0220) && b + 40 < TWO64 && t.pc == b
    requires Holds(code, b, [first, 0x1400_0005, 0x5800_0051, ret, Lo(a), Hi(a)])
    requires Step(sem, code, t) == t.(pc := if taken then b + 8 else b + 4)
    ensures taken ==> Steps(sem, code, t, 3) == t.(pc := a, x := Put(t.x, 17, a))
    ensures !taken ==> Steps(sem, code, t, 2) == t.(pc := b + 24)
  {
    var ws := [first, 0x1400_0005, 0x5800_0051, ret, Lo(a), Hi(a)];
    if taken {
      assert HoldsAt(code, b, ws, 2) && HoldsAt(code, b, ws, 3) && HoldsAt(code, b, ws, 4) && HoldsAt(code, b, ws, 5);
      JumpTail(sem, code, b + 8, a, t.(pc := b + 8));
      Run3(sem, code, t);
    } else {
      assert HoldsAt(code, b, ws, 1);
      assert Step(sem, code, t.(pc := b + 4)) == t.(pc := b + 24);
      Run2(sem, code, t);
    }
  }

  lemma BlockCB<R>(sem: Sem<R>, code: Code, k: Kind, w: Word, a: Addr, b: Addr, t: Cpu<R>)
    requires k == KCBZ || k == KCBNZ
    requires KnowsFixedWords(sem)
    requires sem.decode(ShortBranch(w, 0xFF00_001F)) == CompareBranch(w / 0x8000_0000 == 1, k == KCBNZ, w % 0x20, 8)
    requires Holds(code, b, Emit(k, w, a)) && t.pc == b && b + 40 < TWO64
    ensures Steps(sem, code, t, BlockSteps(sem, k, w, t)) == AfterBlock(sem, k, w, a, b, t)
  {
    hide KnowsFixedWords;
    assert HoldsAt(code, b, Emit(k, w, a), 0);
    BlockSkips(sem, code, ShortBranch(w, 0xFF00_001F), 0xD65F_0220, a, b, t, Taken(sem, k, w, t));
  }

  lemma BlockTB<R>(sem: Sem<R>, code: Code, k: Kind, w: Word, a: Addr, b: Addr, t: Cpu<R>)
    requires k == KTBZ || k == KTBNZ
    requires KnowsFixedWords(sem)
    requires sem.decode(ShortBranch(w, 0xFFF8_001F))
          == TestBranch(k == KTBNZ, TestedBit(w), w % 0x20, 8)
    requires Holds(code, b, Emit(k, w, a)) && t.pc == b && b + 40 < TWO64
    ensures Steps(sem, code, t, BlockSteps(sem, k, w, t)) == AfterBlock(sem, k, w, a, b, t)
  {
    hide KnowsFixedWords;
    assert HoldsAt(code, b, Emit(k, w, a), 0);
    BlockSkips(sem, code, ShortBranch(w, 0xFFF8_001F), 0xD61F_0220, a, b, t, Taken(sem, k, w, t));
  }

  // LDR X17, #8; RET X17 or BR X17; address
  lemma JumpTail<R>(sem: Sem<R>, code: Code, c: Addr, a: Addr, t: Cpu<R>)
    requires KnowsFixedWords(sem) && c + 12 < TWO64 && t.pc == c
    requires code(c) == 0x5800_0051 && (code(c + 4) == 0xD65F_0220 || code(c + 4) == 0xD61F_0220)
    requires code(c + 8) == Lo(a) && code(c + 12) == Hi(a)
    ensures Step(sem, code, Step(sem, code, t)) == t.(pc := a, x := Put(t.x, 17, a))
  {
    LoadsX17(sem, code, c, a, t);
  }

  // The stub that ends a relocated window, and the trampoline itself.
  lemma StubJumps<R>(sem: Sem<R>, code: Code, b: Addr, a: Addr, t: Cpu<R>)
    requires KnowsFixedWords(sem) && Holds(code, b, Stub(a)) && t.pc == b
    ensures Steps(sem, code, t, 2) == t.(pc := a, x := Put(t.x, 17, a))
  {
    var ws := Stub(a);
    assert HoldsAt(code, b, ws, 0) && HoldsAt(code, b, ws, 1) && HoldsAt(code, b, ws, 2) && HoldsAt(code, b, ws, 3);
    JumpTail(sem, code, b, a, t);
    Run2(sem, code, t);
  }

  lemma BlockPositionFree<R>(sem: Sem<R>, code: Code, w: Word, a: Addr, b: Addr, t: Cpu<R>)
    requires KnowsFixedWords(sem) && PositionFree(sem.decode(w))
    requires Holds(code, b, Emit(KIGNORE, w, a)) && t.pc == b && b + 40 < TWO64
    ensures Steps(sem, code, t, BlockSteps(sem, KIGNORE, w, t)) == AfterBlock(sem, KIGNORE, w, a, b, t)
  {
    hide Shl, And, Or;
    var ws := Emit(KIGNORE, w, a);
    assert HoldsAt(code, b, ws, 0) && HoldsAt(code, b, ws, 1);
    var t1 := Step(sem, code, t);
    Run2(sem, code, t);
    if BlockSteps(sem, KIGNORE, w, t) == 2 {
      assert t1.pc == b + 4;
      assert Step(sem, code, t1) == t1.(pc := b + 8);
    }
  }

  // Running the block of a word that is no literal load.
  lemma BlockRuns<R(!new)>(sem: Sem<R>, code: Code, w: Word, a: Addr, b: Addr, t: Cpu<R>)
    requires IsA64(sem) && !IsLiteral(KindOf(w))
    requires Holds(code, b, Emit(KindOf(w), w, a)) && t.pc == b && b + 40 < TWO64
    ensures Steps(sem, code, t, BlockSteps(sem, KindOf(w), w, t)) == AfterBlock(sem, KindOf(w), w, a, b, t)
  {
    FixedWordsKnown(sem);
    var k := KindOf(w);
    match k
    case KB => BlockB(sem, code, w, a, b, t);
    case KBL => BlockBL(sem, code, w, a, b, t);
    case KBC =>
      ShortConditional(w);
      assert DecodesAs(sem, ShortBranch(w, 0xFF00_001F));
      BlockBC(sem, code, w, a, b, t);
    case KADR | KADRP =>
      LoadDecodings(w % 0x20);
      assert DecodesAs(sem, WithRegister(0x5800_0040, w % 0x20));
      BlockAdr(sem, code, k, w, a, b, t);
    case KCBZ | KCBNZ =>
      ShortCompare(w);
      assert DecodesAs(sem, ShortBranch(w, 0xFF00_001F));
      BlockCB(sem, code, k, w, a, b, t);
    case KTBZ | KTBNZ =>
      ShortTest(w);
      assert DecodesAs(sem, ShortBranch(w, 0xFFF8_001F));
      BlockTB(sem, code, k, w, a, b, t);
    case KIGNORE =>
      OtherKindsDecode(w);
      assert DecodesAs(sem, w);
      BlockPositionFree(sem, code, w, a, b, t);
    case _ =>
  }

  // ---------------------------------------------------------------- literal loads

  predicate ThroughTarget(k: Kind) {
    k == KLDR32 || k == KLDR64 || k == KLDRSW
  }

  // Where a literal-load block fetches the address to load from: its first
  // instruction into the target register, or its second one into X17.
  function AddressFetch(k: Kind): nat { if ThroughTarget(k) then 0 else 1 }
  function AddressRegister(k: Kind, w: Word): Reg { if ThroughTarget(k) then w % 0x20 else 17 }

  lemma FetchWords(k: Kind, w: Word, a: Addr)
    requires IsLiteral(k)
    ensures var ws, i := Emit(k, w, a), AddressFetch(k);
      && i + 5 < |ws|
      && ws[i] == (if i == 0 then WithRegister(0x5800_0060, w % 0x20) else 0x5800_0091)
      && ws[2 * i + 3] == NOP
      && ws[2 * i + 4] == Lo(a)
  {
  }

  lemma FetchReads<R>(sem: Sem<R>, code: Code, c: Addr, rt: Reg, off: nat, lo: Word, t: Cpu<R>)
    requires off < 20 && c + 40 < TWO64 && t.pc == c && sem.decode(code(c)) == LoadLiteral(Load64, rt, off)
    requires code(c + off) == NOP && code(c + off + 4) == lo
    ensures Step(sem, code, t) == t.(pc := c + 4, x := Put(t.x, rt, NOP + 0x1_0000_0000 * lo))
  {
    assert Cell64(code, c + off) == NOP + 0x1_0000_0000 * lo;
  }

  lemma ShiftedAddress(a: Addr)
    ensures NOP + 0x1_0000_0000 * Lo(a) == a <==> a == 0xD503_201F_D503_201F
  {
  }

  // The address fetched by a literal-load block comes from one word too early:
  // its low half is the NOP of the block and its high half the low half of a.  It
  // is the address of the literal for a single value of a only.
  lemma LiteralAddressIsShifted<R(!new)>(sem: Sem<R>, code: Code, w: Word, a: Addr, b: Addr, t: Cpu<R>)
    requires IsA64(sem) && IsLiteral(KindOf(w)) && b + 80 < TWO64
    requires Holds(code, b, Emit(KindOf(w), w, a)) && t.pc == b + 4 * AddressFetch(KindOf(w))
    ensures Step(sem, code, t)
         == t.(pc := t.pc + 4, x := Put(t.x, AddressRegister(KindOf(w), w), NOP + 0x1_0000_0000 * Lo(a)))
    ensures NOP + 0x1_0000_0000 * Lo(a) == a <==> a == 0xD503_201F_D503_201F
  {
    hide Emit, Hi, IsLiteral, KindOf, LengthOf, Lo, LoadThrough, ShortBranch, WithRegister;
    hide Decode, Execute, Step, Put, Plus, KnowsFixedWords, Cell64;
    var k := KindOf(w);
    var ws, i := Emit(k, w, a), AddressFetch(k);
    FetchWords(k, w, a);
    LoadDecodings(w % 0x20);
    FixedWordsKnown(sem);
    assert DecodesAs(sem, WithRegister(0x5800_0060, w % 0x20));
    assert HoldsAt(code, b, ws, i) && HoldsAt(code, b, ws, 2 * i + 3) && HoldsAt(code, b, ws, 2 * i + 4);
    FetchReads(sem, code, t.pc, AddressRegister(k, w), if i == 0 then 12 else 16, Lo(a), t);
    ShiftedAddress(a);
  }
}
