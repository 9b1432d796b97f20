// A small A64 machine: the instructions the hook engine meets in a window or
// emits into a relocation block.  Encodings and meanings follow section C6.2 of
// the Arm Architecture Reference Manual (DDI 0487).  Words and addresses are
// naturals below 2^32 and 2^64; a field [h:l] of w is w / 2^l % 2^(h-l+1).
module A64 {

  const TWO64: nat := 0x1_0000_0000_0000_0000

  type Addr = a: nat | a < 0x1_0000_0000_0000_0000
  type Word = w: nat | w < 0x1_0000_0000
  // Register number, 31 being XZR here.
  type Reg = nat
  type Regs = map<Reg, Addr>
  // Memory as 32-bit cells at 4-aligned addresses.
  type Code = Addr -> Word

  const NOP: Word := 0xD503201F
  const BTI_C: Word := 0xD503_245F
  const BTI_J: Word := 0xD503_249F
  const BTI_JC: Word := 0xD503_24DF

  // BTI, which does nothing once the branch to it is allowed.
  predicate IsLandingPad(w: Word) {
    w == 0xD503_241F || w == BTI_C || w == BTI_J || w == BTI_JC
  }

  datatype LoadKind = Load32 | Load64 | LoadSigned | Prefetch | LoadS | LoadD | LoadQ

  datatype Insn =
    | B(off: Addr)
    | BL(off: Addr)
    | BCond(cond: nat, off: Addr)
    | CompareBranch(wide: bool, nonZero: bool, rt: Reg, off: Addr)
    | TestBranch(nonZero: bool, bitNo: nat, rt: Reg, off: Addr)
    | Adr(rd: Reg, off: Addr)
    | Adrp(rd: Reg, off: Addr)
    | LoadLiteral(kind: LoadKind, rt: Reg, off: Addr)
    | Ret(rn: Reg)
    | Br(rn: Reg)
    | Blr(rn: Reg)
    | AddImm(rd: Reg, rn: Reg, imm: nat)
    | Nop
    | Other(w: Word)

  // Addition of addresses wraps at 2^64.
  function Plus(a: Addr, b: Addr): Addr {
    if a + b < 0x1_0000_0000_0000_0000 then a + b else a + b - 0x1_0000_0000_0000_0000
  }

  // SignExtend() to 64 bits of the offset fields with their scaling zeros.
  function Offset26(w: Word): Addr {
    var n := w % 0x400_0000 * 4;
    if n >= 0x800_0000 then n + 0xFFFF_FFFF_F000_0000 else n
  }

  function Offset19(w: Word): Addr {
    var n := w / 0x20 % 0x8_0000 * 4;
    if n >= 0x10_0000 then n + 0xFFFF_FFFF_FFE0_0000 else n
  }

  function Offset14(w: Word): Addr {
    var n := w / 0x20 % 0x4000 * 4;
    if n >= 0x8000 then n + 0xFFFF_FFFF_FFFF_0000 else n
  }

  function Offset21(w: Word): Addr {
    var n := w / 0x20 % 0x8_0000 * 4 + w / 0x2000_0000 % 4;
    if n >= 0x10_0000 then n + 0xFFFF_FFFF_FFE0_0000 else n
  }

  function PageOffset(w: Word): Addr {
    var n := (w / 0x20 % 0x8_0000 * 4 + w / 0x2000_0000 % 4) * 0x1000;
    if n >= 0x1_0000_0000 then n + 0xFFFF_FFFE_0000_0000 else n
  }

  // b5:b40, the bit that TBZ and TBNZ test
  function TestedBit(w: Word): nat {
    w / 0x8000_0000 * 32 + w / 0x8_0000 % 0x20
  }

  // PC<63:12>:Zeros(12)
  function Page(a: Addr): Addr {
    a - a % 0x1000
  }

  function LoadKindOf(op: nat): LoadKind {
    if op == 0x18 then Load32 else if op == 0x58 then Load64 else if op == 0x98 then LoadSigned
    else if op == 0xD8 then Prefetch else if op == 0x1C then LoadS else if op == 0x5C then LoadD else LoadQ
  }

  predicate IsLoadLiteral(op: nat) {
    op == 0x18 || op == 0x58 || op == 0x98 || op == 0xD8 || op == 0x1C || op == 0x5C || op == 0x9C
  }

  function Decode(w: Word): Insn {
    var op, rt, rn := w / 0x100_0000, w % 0x20, w / 0x20 % 0x20;
    if op / 4 == 0x05 then B(Offset26(w))
    else if op / 4 == 0x25 then BL(Offset26(w))
    else if op == 0x54 && w / 0x10 % 2 == 0 then BCond(w % 0x10, Offset19(w))
    else if op / 2 % 0x40 == 0x1A then CompareBranch(op / 0x80 == 1, op % 2 == 1, rt, Offset19(w))
    else if op / 2 % 0x40 == 0x1B then
      TestBranch(op % 2 == 1, TestedBit(w), rt, Offset14(w))
    else if op % 0x20 == 0x10 then (if op / 0x80 == 0 then Adr(rt, Offset21(w)) else Adrp(rt, PageOffset(w)))
    else if IsLoadLiteral(op) then LoadLiteral(LoadKindOf(op), rt, Offset19(w))
    else if w / 0x400 == 0x35_97C0 && rt == 0 then Ret(rn)
    else if w / 0x400 == 0x35_87C0 && rt == 0 then Br(rn)
    else if w / 0x400 == 0x35_8FC0 && rt == 0 then Blr(rn)
    else if w / 0x40_0000 == 0x244 && rt != 31 && rn != 31 then AddImm(rt, rn, w / 0x400 % 0x1000)
    else if w == NOP || IsLandingPad(w) then Nop
    else Other(w)
  }

  // The machine state; rest is everything but the general registers, the flags
  // and the program counter (stack pointer, vector registers, data memory).
  datatype Flags = Flags(n: bool, z: bool, c: bool, v: bool)
  datatype Cpu<R> = Cpu(pc: Addr, x: Regs, flags: Flags, rest: R)

  function Get(x: Regs, r: Reg): Addr {
    if r != 31 && r in x then x[r] else 0
  }

  function Put(x: Regs, r: Reg, v: Addr): Regs {
    if r == 31 then x else x[r := v]
  }

  // ConditionHolds() of the manual.
  predicate CondHolds(cond: nat, f: Flags) {
    var base :=
      match cond / 2
      case 0 => f.z
      case 1 => f.c
      case 2 => f.n
      case 3 => f.v
      case 4 => f.c && !f.z
      case 5 => f.n == f.v
      case 6 => f.n == f.v && !f.z
      case _ => true;
    if cond % 2 == 1 && cond != 0xF then !base else base
  }

  // What the instructions that are not modelled one by one do: they read and
  // write everything but the program counter.  The remaining instructions that
  // would write it (ERET, RETAA and its like, exception generation, BC.cond) are
  // among them and fall through here.
  type Plain<!R> = (Word, Regs, Flags, R) -> (Regs, Flags, R)
  // What a load from an address does, by kind and destination.
  type Loads<!R> = (LoadKind, Reg, Addr, Regs, R) -> (Regs, R)
  // Whether bit bitNo of a value is set.
  type BitTest = (Addr, nat) -> bool

  // decode is a field so that runs can be reasoned about from the decodings of
  // the words at hand; IsA64 ties it to Decode.
  datatype Sem<!R> = Sem(decode: Word -> Insn, plain: Plain<R>, load: Loads<R>, testBit: BitTest)

  ghost predicate IsA64<R(!new)>(sem: Sem<R>) {
    forall w: Word {:trigger DecodesAs(sem, w)} :: DecodesAs(sem, w)
  }

  predicate DecodesAs<R>(sem: Sem<R>, w: Word) {
    sem.decode(w) == Decode(w)
  }

  function Cell64(code: Code, a: Addr): Addr {
    code(a) + 0x1_0000_0000 * code(Plus(a, 4))
  }

  function CompareValue(x: Regs, r: Reg, wide: bool): nat {
    if wide then Get(x, r) else Get(x, r) % 0x1_0000_0000
  }

  function Execute<R>(sem: Sem<R>, code: Code, insn: Insn, s: Cpu<R>): Cpu<R> {
    var pc, x := s.pc, s.x;
    var next := Plus(pc, 4);
    match insn
    case B(off) => s.(pc := Plus(pc, off))
    case BL(off) => s.(pc := Plus(pc, off), x := Put(x, 30, next))
    case BCond(cond, off) => s.(pc := if CondHolds(cond, s.flags) then Plus(pc, off) else next)
    case CompareBranch(wide, nonZero, rt, off) =>
      s.(pc := if (CompareValue(x, rt, wide) != 0) == nonZero then Plus(pc, off) else next)
    case TestBranch(nonZero, bitNo, rt, off) =>
      s.(pc := if sem.testBit(Get(x, rt), bitNo) == nonZero then Plus(pc, off) else next)
    case Adr(rd, off) => s.(pc := next, x := Put(x, rd, Plus(pc, off)))
    case Adrp(rd, off) => s.(pc := next, x := Put(x, rd, Plus(Page(pc), off)))
    case LoadLiteral(kind, rt, off) =>
      if kind == Load64 then s.(pc := next, x := Put(x, rt, Cell64(code, Plus(pc, off))))
      else
        var r := sem.load(kind, rt, Plus(pc, off), x, s.rest);
        s.(pc := next, x := r.0, rest := r.1)
    case Ret(rn) => s.(pc := Get(x, rn))
    case Br(rn) => s.(pc := Get(x, rn))
    case Blr(rn) => s.(pc := Get(x, rn), x := Put(x, 30, next))
    case AddImm(rd, rn, imm) => s.(pc := next, x := Put(x, rd, (Get(x, rn) + imm) % 0x1_0000_0000_0000_0000))
    case Nop => s.(pc := next)
    case Other(w) =>
      var r := sem.plain(w, x, s.flags, s.rest);
      s.(pc := next, x := r.0, flags := r.1, rest := r.2)
  }

  function Step<R>(sem: Sem<R>, code: Code, s: Cpu<R>): Cpu<R> {
    Execute(sem, code, sem.decode(code(s.pc)), s)
  }

  function Steps<R>(sem: Sem<R>, code: Code, s: Cpu<R>, n: nat): Cpu<R>
    decreases n
  {
    if n == 0 then s else Steps(sem, code, Step(sem, code, s), n - 1)
  }

  lemma {:induction false} StepsCompose<R>(sem: Sem<R>, code: Code, s: Cpu<R>, m: nat, n: nat)
    ensures Steps(sem, code, Steps(sem, code, s, m), n) == Steps(sem, code, s, m + n)
    decreases m
  {
    if m > 0 {
      var t := Step(sem, code, s);
      assert Steps(sem, code, s, m) == Steps(sem, code, t, m - 1);
      assert Steps(sem, code, s, m + n) == Steps(sem, code, t, m - 1 + n);
      StepsCompose(sem, code, t, m - 1, n);
    }
  }
}
