// aarch64_insn_gen_logical_immediate: the instruction word, and what its fields
// say when they are read back.
module LogicalInsns {
  import opened Bits
  import opened BitFields
  import opened A64
  import opened LogicalImmediate
  import opened ImmediateComplete
  import opened ImmediateNarrow
  import opened LogicalEncoder
  import opened InsnFields

  datatype LogicType = LogicAnd | LogicOrr | LogicEor | LogicAnds

  function Opcode(t: LogicType): Word {
    match t
    case LogicAnd => 0x1200_0000
    case LogicOrr => 0x3200_0000
    case LogicEor => 0x5200_0000
    case LogicAnds => 0x7200_0000
  }

  // What stands above the fields in the 64-bit variant; the SF bit is its highest.
  function ClassOf(t: LogicType): nat {
    match t
    case LogicAnd => 0x124
    case LogicOrr => 0x164
    case LogicEor => 0x1A4
    case LogicAnds => 0x1E4
  }

  // aarch64_insn_encode_register
  function EncodeRegister(f: Field, insn: Word, reg: nat): Word
    requires f == RegD || f == RegN
  {
    if reg > 31 then BREAK_FAULT else EncodeField(f, insn, reg)
  }

  // What a decoder reads from a word: the class above the fields, and the fields.
  datatype View = View(class_: nat, rd: nat, rn: nat, n: nat, immr: nat, imms: nat)

  function ViewOf(insn: Word): View {
    View(Shr(insn, 23), DecodeField(RegD, insn), DecodeField(RegN, insn),
         DecodeField(ImmN, insn), DecodeField(ImmR, insn), DecodeField(ImmS, insn))
  }

  // The fields of a logical instruction.
  predicate InView(f: Field) {
    f == RegD || f == RegN || f == ImmN || f == ImmR || f == ImmS
  }

  function Put(view: View, f: Field, v: nat): View
    requires InView(f)
  {
    match f
    case RegD => view.(rd := v)
    case RegN => view.(rn := v)
    case ImmN => view.(n := v)
    case ImmR => view.(immr := v)
    case _ => view.(imms := v)
  }

  lemma NoFault(w: Word)
    requires Shr(w, 23) % 64 == 36
    ensures w != BREAK_FAULT
  {
    PowersOfClass();
    ShrBy(w, 23);
    hide Shr, Pow2;
  }

  lemma PowersOfClass()
    ensures Pow2(5) == 32 && Pow2(6) == 64 && Pow2(1) == 2 && Pow2(23) == 0x80_0000 && Pow2(31) == 0x8000_0000
  {
    PowersInUse();
    assert Pow2(24) == 2 * Pow2(23);
  }

  // Writing a value that fits its field changes that field of the view only.
  lemma Inserted(f: Field, w: Word, v: nat)
    requires Shr(w, 23) % 64 == 36 && InView(f) && v < Pow2(WidthOf(f))
    ensures ViewOf(EncodeField(f, w, v)) == Put(ViewOf(w), f, v)
  {
    hide EncodeField, DecodeField, Shr, Pow2;
    NoFault(w);
    HighBitsKept(f, w, v, 23);
    FieldRoundTrip(f, w, v);
    DivModUnique(v, Pow2(WidthOf(f)), 0, v);
    if f != RegD { OtherFieldKept(f, RegD, w, v); }
    if f != RegN { OtherFieldKept(f, RegN, w, v); }
    if f != ImmN { OtherFieldKept(f, ImmN, w, v); }
    if f != ImmR { OtherFieldKept(f, ImmR, w, v); }
    if f != ImmS { OtherFieldKept(f, ImmS, w, v); }
  }

  // insn |= AARCH64_INSN_SF_BIT changes the class only.
  lemma WithSfBit(w: Word)
    requires Shr(w, 23) < 256
    ensures Or(w, 0x8000_0000) < 0x1_0000_0000
    ensures ViewOf(Or(w, 0x8000_0000)) == ViewOf(w).(class_ := Shr(w, 23) + 256)
  {
    hide DecodeField, Shr, Pow2, Shl, Or;
    PowersOfClass();
    ShrBy(w, 23);
    ShlOne(31);
    OrAbove(w, 1, 31);
    ShrBy(w + 0x8000_0000, 23);
    LowField(RegD, w);
    LowField(RegN, w);
    LowField(ImmN, w);
    LowField(ImmR, w);
    LowField(ImmS, w);
  }

  lemma LowField(h: Field, w: Word)
    requires InView(h) && w < 0x8000_0000
    ensures DecodeField(h, w + 0x8000_0000) == DecodeField(h, w)
  {
    hide DecodeField, Shr, Pow2, Shl, Or;
    PowersOfClass();
    ShlOne(31);
    OrAbove(w, 1, 31);
    var a, b := DecodeField(h, w + 0x8000_0000), DecodeField(h, w);
    forall i: nat {:trigger Bit(a, i)} ensures Bit(a, i) == Bit(b, i) {
      DecodedBit(h, w + 0x8000_0000, i);
      DecodedBit(h, w, i);
      BitOr(w, Shl(1, 31), i + ShiftOf(h));
      BitShl(1, 31, i + ShiftOf(h));
    }
    BitsDetermine(a, b);
  }

  // The last lines of aarch64_encode_immediate.
  function Packed(insn: Word, n: nat, immr: nat, imms: nat): Word {
    EncodeField(ImmS, EncodeField(ImmR, EncodeField(ImmN, insn, n), immr), imms)
  }

  lemma PackedView(w: Word, n: nat, immr: nat, imms: nat)
    requires Shr(w, 23) % 64 == 36 && n < 2 && immr < 64 && imms < 64
    ensures Packed(w, n, immr, imms) != BREAK_FAULT
    ensures ViewOf(Packed(w, n, immr, imms)) == ViewOf(w).(n := n, immr := immr, imms := imms)
  {
    PowersOfClass();
    hide EncodeField, DecodeField, Shr, Pow2;
    Inserted(ImmN, w, n);
    var w1 := EncodeField(ImmN, w, n);
    Inserted(ImmR, w1, immr);
    var w2 := EncodeField(ImmR, w1, immr);
    Inserted(ImmS, w2, imms);
    NoFault(EncodeField(ImmS, w2, imms));
  }

  function ClassFor(t: LogicType, wide: bool): nat {
    if wide then ClassOf(t) else ClassOf(t) - 256
  }

  // The word is the instruction t on these registers, and a decoder reads imm from its
  // fields exactly if the encoder is right about it.
  ghost predicate Emits(insn: Word, t: LogicType, wide: bool, rn: nat, rd: nat, imm: Word64) {
    var view := ViewOf(insn);
    && view.class_ == ClassFor(t, wide) && view.rn == rn && view.rd == rd
    && (Means(Fields(view.n, view.immr, view.imms), imm, wide) <==> EncodedRight(imm, wide))
  }

  // aarch64_encode_immediate on the word of a logical instruction.
  method EncodeInto(imm: Word64, wide: bool, word: Word, ghost t: LogicType) returns (insn: Word)
    requires word == BREAK_FAULT || Shr(word, 23) == ClassOf(t) - 256
    ensures word == BREAK_FAULT ==> insn == BREAK_FAULT
    ensures word != BREAK_FAULT ==> (insn == BREAK_FAULT <==> Refused(imm, wide))
    ensures insn != BREAK_FAULT ==> Emits(insn, t, wide, DecodeField(RegN, word), DecodeField(RegD, word), imm)
  {
    var f := EncodeImmediate(imm, wide);
    if f.Fault? { return BREAK_FAULT; }
    Marked(word, t, wide);
    var marked := if wide then Or(word, 0x8000_0000) else word;
    insn := Packed(marked, f.n, f.immr, f.imms);
    if word != BREAK_FAULT {
      hide *;
      PackedView(marked, f.n, f.immr, f.imms);
      Emitted(word, marked, insn, f, imm, t, wide);
    }
  }

  lemma Marked(word: Word, t: LogicType, wide: bool)
    requires word == BREAK_FAULT || Shr(word, 23) == ClassOf(t) - 256
    ensures Or(word, 0x8000_0000) < 0x1_0000_0000
    ensures var marked := if wide then Or(word, 0x8000_0000) else word;
      if word == BREAK_FAULT then marked == BREAK_FAULT
      else Shr(marked, 23) % 64 == 36 && ViewOf(marked) == ViewOf(word).(class_ := ClassFor(t, wide))
  {
    hide WidthOf, Shr, Or, ShiftOf, And, Shl, DecodeField, Pow2;
    if word == BREAK_FAULT {
      PowersOfClass();
      ShlOne(31);
      hide Shr, Shl;
      SetAgain(0x5420_2000);
    } else {
      hide DecodeField, Shr, Or;
      WithSfBit(word);
    }
  }

  // Setting a bit that is set.
  lemma SetAgain(x: nat)
    requires x < 0x8000_0000
    ensures Or(x + 0x8000_0000, 0x8000_0000) == x + 0x8000_0000
  {
    PowersOfClass();
    ShlOne(31);
    hide Pow2, Shl, Or;
    OrAbove(x, 1, 31);
    var a, b := Or(x + 0x8000_0000, 0x8000_0000), x + 0x8000_0000;
    forall i: nat {:trigger Bit(a, i)} ensures Bit(a, i) == Bit(b, i) {
      BitOr(b, 0x8000_0000, i);
      BitOr(x, 0x8000_0000, i);
    }
    BitsDetermine(a, b);
  }

  lemma Emitted(word: Word, marked: Word, insn: Word, f: Encoded, imm: Word64, t: LogicType, wide: bool)
    requires f.Fields? && (Means(f, imm, wide) <==> EncodedRight(imm, wide))
    requires ViewOf(marked) == ViewOf(word).(class_ := ClassFor(t, wide))
    requires ViewOf(insn) == ViewOf(marked).(n := f.n, immr := f.immr, imms := f.imms)
    ensures Emits(insn, t, wide, DecodeField(RegN, word), DecodeField(RegD, word), imm)
  {
    hide Means, EncodedRight, DecodeField, Shr;
  }

  // aarch64_insn_gen_logical_immediate.  It gives up exactly when a register is none or
  // the encoder refuses imm.
  method GenLogicalImmediate(t: LogicType, wide: bool, rn: nat, rd: nat, imm: Word64) returns (insn: Word)
    ensures insn == BREAK_FAULT <==> rn > 31 || rd > 31 || Refused(imm, wide)
    ensures insn != BREAK_FAULT ==> Emits(insn, t, wide, rn, rd, imm)
  {
    WithRegisters(t, rn, rd);
    var word := EncodeRegister(RegN, EncodeRegister(RegD, Opcode(t), rd), rn);
    hide *;
    insn := EncodeInto(imm, wide, word, t);
  }

  lemma WithRegisters(t: LogicType, rn: nat, rd: nat)
    ensures var word := EncodeRegister(RegN, EncodeRegister(RegD, Opcode(t), rd), rn);
      if rn > 31 || rd > 31 then word == BREAK_FAULT
      else word != BREAK_FAULT && Shr(word, 23) == ClassOf(t) - 256 && DecodeField(RegN, word) == rn && DecodeField(RegD, word) == rd
  {
    hide Shr, Shl, Pow2, And, Or;
    OpcodeClass(t);
    PowersOfClass();
    if rn <= 31 && rd <= 31 {
      hide DecodeField, Shr, Pow2, EncodeField;
      Inserted(RegD, Opcode(t), rd);
      var w1 := EncodeField(RegD, Opcode(t), rd);
      Inserted(RegN, w1, rn);
      NoFault(EncodeField(RegN, w1, rn));
    }
  }

  lemma OpcodeClass(t: LogicType)
    ensures Shr(Opcode(t), 23) == ClassOf(t) - 256
  {
    PowersOfClass();
    ShrBy(Opcode(t), 23);
    hide Shr, Pow2;
  }
}
