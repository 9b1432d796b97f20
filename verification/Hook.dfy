// hook_t: the buffers of one inline hook and the methods that fill them.
module Hook {
  import Bits
  import BitFields
  import opened A64
  import opened Relocation
  import opened RelocatedBlocks
  import opened HookWindow

  datatype HookError = NoError | BadAddress | Duplicated | NoMemory | BadRelocation | TransitNoMemory | ChainFull

  const PACIASP: Word := 0xD503_233F
  const PACIBSP: Word := 0xD503_237F

  const TRAMPOLINE_MAX := 6
  const RELOCATE_MAX := 36

  // is_bad_address: kernel addresses have their top bit set.
  predicate IsBadAddress(a: Addr) {
    a < 0x8000_0000_0000_0000
  }

  // (addr & 0x8000000000000000) != 0x8000000000000000
  lemma BadAddressMask(a: Addr)
    ensures IsBadAddress(a) <==> Bits.And(a, 0x8000_0000_0000_0000) != 0x8000_0000_0000_0000
  {
    hide Bits.And, Bits.Shl, Bits.Shr, Bits.Pow2;
    BitFields.MorePowersInUse();
    BitFields.PowersInUse();
    var q := a / 0x8000_0000_0000_0000;
    BitFields.ShrBy(a, 63);
    BitFields.ShlBy(1, 63);
    BitFields.ShlBy(q, 63);
    BitFields.AndField(a, 1, 63, 0x8000_0000_0000_0000, q, q * 0x8000_0000_0000_0000);
  }

  predicate IsPac(w: Word) {
    w == PACIASP || w == PACIBSP
  }

  // The trampoline of a hook, by the first original word.
  function Trampoline(first: Word, replace: Addr): seq<Word> {
    if IsPac(first) then [BTI_JC] + Stub(replace) else Stub(replace)
  }

  // The words read at origin.
  function WordsAt(mem: Code, origin: Addr, n: nat): (ws: seq<Word>)
    requires origin + 4 * n < 0x1_0000_0000_0000_0000
    ensures |ws| == n
  {
    seq(n, i requires 0 <= i < n => mem(origin + 4 * i))
  }

  // s with ws written over it from index i on.
  function Patched(s: seq<Word>, i: nat, ws: seq<Word>): (r: seq<Word>)
    requires i + |ws| <= |s|
    ensures |r| == |s|
  {
    s[..i] + ws + s[i + |ws|..]
  }

  lemma PatchedIs(before: seq<Word>, after: seq<Word>, i: nat, ws: seq<Word>)
    requires |before| == |after| && i + |ws| <= |before|
    requires after[..i] == before[..i] && after[i + |ws|..] == before[i + |ws|..]
    requires forall j: nat :: j < |ws| ==> after[i + j] == ws[j]
    ensures after == Patched(before, i, ws)
  {
    assert after[i..i + |ws|] == ws;
    assert after == after[..i] + after[i..i + |ws|] + after[i + |ws|..];
  }

  function Nops(n: nat): (s: seq<Word>)
    ensures |s| == n
  {
    seq(n, _ => NOP)
  }

  // The relocation buffer with words e in it.
  function Filled(e: seq<Word>): (s: seq<Word>)
    requires |e| <= RELOCATE_MAX
    ensures |s| == RELOCATE_MAX
  {
    e + Nops(RELOCATE_MAX - |e|)
  }

  lemma FilledWith(e: seq<Word>, b: seq<Word>)
    requires |e| + |b| <= RELOCATE_MAX
    ensures Patched(Filled(e), |e|, b) == Filled(e + b)
  {
    assert Filled(e)[..|e|] == e;
    assert Filled(e)[|e| + |b|..] == Nops(RELOCATE_MAX - |e| - |b|);
  }

  // The relocation buffer after the first k instructions.
  function Buffer(win: Window, k: nat): (s: seq<Word>)
    requires HookWindow.Valid(win) && k <= |win.words| && WordsBefore(win.words, k) <= RELOCATE_MAX
    ensures |s| == RELOCATE_MAX
  {
    EmissionLength(win, k);
    Filled(Emission(win, k))
  }

  lemma RelocatedLength(win: Window)
    requires HookWindow.Valid(win)
    ensures |Relocated(win)| == WordsBefore(win.words, |win.words|) + 4
  {
    EmissionLength(win, |win.words|);
  }

  lemma BufferGrows(win: Window, k: nat)
    requires HookWindow.Valid(win) && k < |win.words| && WordsBefore(win.words, k + 1) <= RELOCATE_MAX
    ensures WordsBefore(win.words, k) + |BlockOf(win, k)| == WordsBefore(win.words, k + 1)
    ensures Patched(Buffer(win, k), WordsBefore(win.words, k), BlockOf(win, k)) == Buffer(win, k + 1)
  {
    EmissionLength(win, k);
    EmissionLength(win, k + 1);
    EmissionGrows(win, k);
    FilledWith(Emission(win, k), BlockOf(win, k));
  }

  // Five words move when the trampoline starts with a landing pad.
  function WindowSize(first: Word): (n: nat)
    ensures n == |Trampoline(first, 0)|
  {
    if IsPac(first) then 5 else 4
  }

  function WindowOf(mem: Code, origin: Addr, relo: Addr): (win: Window)
    requires origin + 24 < 0x1_0000_0000_0000_0000 && relo + 400 < 0x1_0000_0000_0000_0000
    ensures HookWindow.Valid(win) && HoldsWindow(mem, win)
  {
    Window(origin, relo, WordsAt(mem, origin, WindowSize(mem(origin))))
  }

  lemma WindowIsPrefix(mem: Code, origin: Addr, n: nat)
    requires origin + 24 < 0x1_0000_0000_0000_0000 && n <= TRAMPOLINE_MAX
    ensures WordsAt(mem, origin, TRAMPOLINE_MAX)[..n] == WordsAt(mem, origin, n)
  {
  }

  lemma EmissionGrows(win: Window, k: nat)
    requires HookWindow.Valid(win) && k < |win.words|
    ensures Emission(win, k + 1) == Emission(win, k) + BlockOf(win, k)
  {
    assert Blocks(win)[k] == BlockOf(win, k);
  }

  // One of the first n instructions of the window cannot be moved.
  predicate AnyRefused(win: Window, n: nat)
    requires HookWindow.Valid(win) && n <= |win.words|
  {
    exists k: nat :: k < n && Refused(win, k)
  }

  // What hook_prepare answers.
  function PrepareResult(func: Addr, replace: Addr, win: Window): HookError
    requires HookWindow.Valid(win)
  {
    if IsBadAddress(func) || IsBadAddress(win.origin) || IsBadAddress(replace) || IsBadAddress(win.relo)
    then BadAddress
    else if AnyRefused(win, |win.words|) then BadRelocation
    else NoError
  }

  class HookT {
    var funcAddr: Addr
    var originAddr: Addr
    var replaceAddr: Addr
    var reloAddr: Addr
    var trampInstsNum: nat
    var reloInstsNum: nat
    const originInsts: array<Word>
    const trampInsts: array<Word>
    const reloInsts: array<Word>

    ghost predicate Allocated()
      reads this, originInsts, trampInsts, reloInsts
    {
      && originInsts.Length == TRAMPOLINE_MAX
      && trampInsts.Length == TRAMPOLINE_MAX
      && reloInsts.Length == RELOCATE_MAX
      && originInsts != trampInsts && trampInsts != reloInsts && originInsts != reloInsts
      && trampInstsNum <= TRAMPOLINE_MAX
    }

    // Allocated, with a window whose addresses do not wrap.
    ghost predicate Ready()
      reads this, originInsts, trampInsts, reloInsts
    {
      Allocated() && HookWindow.Valid(View())
    }

    function View(): Window
      requires originInsts.Length == TRAMPOLINE_MAX && trampInstsNum <= TRAMPOLINE_MAX
      reads this, originInsts
    {
      Window(originAddr, reloAddr, originInsts[..trampInstsNum])
    }

    // The slot as hook_mem_zalloc leaves it.
    constructor ()
      ensures Allocated() && fresh(originInsts) && fresh(trampInsts) && fresh(reloInsts)
      ensures reloInstsNum == 0
    {
      originInsts := new Word[TRAMPOLINE_MAX](_ => 0);
      trampInsts := new Word[TRAMPOLINE_MAX](_ => 0);
      reloInsts := new Word[RELOCATE_MAX](_ => 0);
      funcAddr, originAddr, replaceAddr, reloAddr := 0, 0, 0, 0;
      trampInstsNum, reloInstsNum := 0, 0;
    }

    // The scan of the masks and types tables.
    static method FirstMatch(inst: Word) returns (kind: Kind)
      ensures kind == KindOf(inst)
    {
      var j := 0;
      while !Matches(inst, KindAt(j))
        invariant j < KINDS
        invariant forall m: nat {:trigger KindAt(m)} :: m < j ==> KindOf(inst) != KindAt(m)
        decreases KINDS - j
      {
        KindIsFirstMatch(inst, KindAt(j));
        j := j + 1;
      }
      KindIsFirstMatch(inst, KindAt(j));
      if KindAt(j) == KIGNORE {
        OnlyIgnoreIsLeft(inst);
      }
      kind := KindAt(j);
    }

    static lemma OnlyIgnoreIsLeft(inst: Word)
      requires forall m: nat {:trigger KindAt(m)} :: m < 16 ==> KindOf(inst) != KindAt(m)
      ensures KindOf(inst) == KIGNORE
    {
      assert KindAt(0) == KB && KindAt(1) == KBC && KindAt(2) == KBL && KindAt(3) == KADR && KindAt(4) == KADRP;
      assert KindAt(5) == KLDR32 && KindAt(6) == KLDR64 && KindAt(7) == KLDRSW && KindAt(8) == KPRFM;
      assert KindAt(9) == KSIMD32 && KindAt(10) == KSIMD64 && KindAt(11) == KSIMD128;
      assert KindAt(12) == KCBZ && KindAt(13) == KCBNZ && KindAt(14) == KTBZ && KindAt(15) == KTBNZ;
    }

    method ReloInTramp(addr: Addr) returns (fix: Addr)
      requires Ready()
      ensures fix == Image(View(), addr)
    {
      var start := originAddr;
      var end := start + trampInstsNum * 4;
      if !(addr >= start && addr < end) {
        return addr;
      }
      var index := (addr - start) / 4;
      ghost var ws := View().words;
      fix := reloAddr;
      var i := 0;
      while i < index
        invariant i <= index < |ws| <= 6
        invariant fix == reloAddr + 4 * WordsBefore(ws, i)
      {
        var kind := FirstMatch(originInsts[i]);
        assert WordsBefore(ws, i + 1) == WordsBefore(ws, i) + LengthOf(kind);
        fix := fix + LengthOf(kind) * 4;
        i := i + 1;
      }
    }

    // is_in_tramp
    method IsInTramp(addr: Addr) returns (r: bool)
      requires Ready()
      ensures r == InWindow(View(), addr)
    {
      var start := originAddr;
      var end := start + trampInstsNum * 4;
      if addr >= start && addr < end {
        return true;
      }
      return false;
    }

    // Room for the block of a kind in the buffer.
    ghost predicate RoomFor(kind: Kind)
      reads this, originInsts, trampInsts, reloInsts
    {
      Ready() && reloInstsNum + LengthOf(kind) <= RELOCATE_MAX
    }

    // The block for a plain branch.
    method BranchPlain(inst: Word, addr: Addr)
      requires RoomFor(KB)
      modifies reloInsts
      ensures reloInsts[..] == Patched(old(reloInsts[..]), reloInstsNum, Emit(KB, inst, addr))
    {
      hide Lo, Hi, Patched;
      ghost var before := reloInsts[..];
      var buf := reloInstsNum;
      reloInsts[buf] := 0x5800_0051;
      reloInsts[buf + 1] := 0x1400_0003;
      reloInsts[buf + 2] := Lo(addr);
      reloInsts[buf + 3] := Hi(addr);
      reloInsts[buf + 4] := 0xD65F_0220;
      reloInsts[buf + 5] := NOP;
      PatchedIs(before, reloInsts[..], buf, Emit(KB, inst, addr));
    }

    // The block for a branch with link.
    method BranchLinked(inst: Word, addr: Addr)
      requires RoomFor(KBL)
      modifies reloInsts
      ensures reloInsts[..] == Patched(old(reloInsts[..]), reloInstsNum, Emit(KBL, inst, addr))
    {
      hide Lo, Hi, Patched;
      ghost var before := reloInsts[..];
      var buf := reloInstsNum;
      reloInsts[buf] := 0x5800_0051;
      reloInsts[buf + 1] := 0x1400_0003;
      reloInsts[buf + 2] := Lo(addr);
      reloInsts[buf + 3] := Hi(addr);
      reloInsts[buf + 4] := 0x1000_001E;
      reloInsts[buf + 5] := 0x9100_33DE;
      reloInsts[buf + 6] := 0xD65F_0220;
      reloInsts[buf + 7] := NOP;
      PatchedIs(before, reloInsts[..], buf, Emit(KBL, inst, addr));
    }

    // The block for a conditional branch.
    method BranchConditional(inst: Word, addr: Addr)
      requires RoomFor(KBC)
      modifies reloInsts
      ensures reloInsts[..] == Patched(old(reloInsts[..]), reloInstsNum, Emit(KBC, inst, addr))
    {
      hide ShortBranch, Lo, Hi, Patched;
      ghost var before := reloInsts[..];
      var buf := reloInstsNum;
      reloInsts[buf] := ShortBranch(inst, 0xFF00_001F);
      reloInsts[buf + 1] := 0x1400_0006;
      reloInsts[buf + 2] := 0x5800_0051;
      reloInsts[buf + 3] := 0x1400_0003;
      reloInsts[buf + 4] := Lo(addr);
      reloInsts[buf + 5] := Hi(addr);
      reloInsts[buf + 6] := 0xD65F_0220;
      reloInsts[buf + 7] := NOP;
      PatchedIs(before, reloInsts[..], buf, Emit(KBC, inst, addr));
    }

    method ReloB(instAddr: Addr, inst: Word, kind: Kind) returns (rc: HookError)
      requires RoomFor(kind) && (kind == KB || kind == KBC || kind == KBL)
      modifies reloInsts
      ensures rc == NoError
      ensures reloInsts[..]
           == Patched(old(reloInsts[..]), reloInstsNum, Emit(kind, inst, Image(View(), TargetOf(kind, instAddr, inst))))
    {
      hide TargetOf, Image, InWindow, Emit, Patched, View;
      var addr := TargetOf(kind, instAddr, inst);
      addr := ReloInTramp(addr);
      if kind == KBC {
        BranchConditional(inst, addr);
      } else if kind == KBL {
        BranchLinked(inst, addr);
      } else {
        BranchPlain(inst, addr);
      }
      return NoError;
    }

    method ReloAdr(instAddr: Addr, inst: Word, kind: Kind) returns (rc: HookError)
      requires RoomFor(kind) && (kind == KADR || kind == KADRP)
      modifies reloInsts
      ensures rc == BadRelocation <==> kind == KADRP && InWindow(View(), TargetOf(kind, instAddr, inst))
      ensures rc == BadRelocation || rc == NoError
      ensures rc == BadRelocation ==> reloInsts[..] == old(reloInsts[..])
      ensures rc == NoError ==>
        reloInsts[..] == Patched(old(reloInsts[..]), reloInstsNum, Emit(kind, inst, TargetOf(kind, instAddr, inst)))
    {
      ghost var before := reloInsts[..];
      var buf := reloInstsNum;
      var addr := TargetOf(kind, instAddr, inst);
      if kind == KADRP {
        var inTramp := IsInTramp(addr);
        if inTramp {
          return BadRelocation;
        }
      }
      reloInsts[buf] := WithRegister(0x5800_0040, inst % 0x20);
      reloInsts[buf + 1] := 0x1400_0003;
      reloInsts[buf + 2] := Lo(addr);
      reloInsts[buf + 3] := Hi(addr);
      PatchedIs(before, reloInsts[..], buf, Emit(kind, inst, addr));
      return NoError;
    }

    // The block for a load into a general register.
    method LoadGeneral(inst: Word, kind: Kind, addr: Addr)
      requires RoomFor(kind) && (kind == KLDR32 || kind == KLDR64 || kind == KLDRSW)
      modifies reloInsts
      ensures reloInsts[..] == Patched(old(reloInsts[..]), reloInstsNum, Emit(kind, inst, addr))
    {
      hide WithRegister, LoadThrough, Lo, Hi, Patched, ShortBranch;
      ghost var before := reloInsts[..];
      var buf := reloInstsNum;
      var rt := inst % 0x20;
      reloInsts[buf] := WithRegister(0x5800_0060, rt);
      var base := if kind == KLDR32 then 0xB940_0000 else if kind == KLDR64 then 0xF940_0000 else 0xB980_0000;
      reloInsts[buf + 1] := LoadThrough(base, rt);
      reloInsts[buf + 2] := 0x1400_0004;
      reloInsts[buf + 3] := NOP;
      reloInsts[buf + 4] := Lo(addr);
      reloInsts[buf + 5] := Hi(addr);
      PatchedIs(before, reloInsts[..], buf, Emit(kind, inst, addr));
    }

    // The block for a prefetch or a load into a vector register.
    method LoadOther(inst: Word, kind: Kind, addr: Addr)
      requires RoomFor(kind) && (kind == KPRFM || kind == KSIMD32 || kind == KSIMD64 || kind == KSIMD128)
      modifies reloInsts
      ensures reloInsts[..] == Patched(old(reloInsts[..]), reloInstsNum, Emit(kind, inst, addr))
    {
      hide WithRegister, LoadThrough, Lo, Hi, Patched;
      ghost var before := reloInsts[..];
      var buf := reloInstsNum;
      var rt := inst % 0x20;
      reloInsts[buf] := 0xA93F_47F0;
      reloInsts[buf + 1] := 0x5800_0091;
      var base :=
        if kind == KPRFM then 0xF980_0220 else if kind == KSIMD32 then 0xBD40_0220
        else if kind == KSIMD64 then 0xFD40_0220 else 0x3DC0_0220;
      reloInsts[buf + 2] := WithRegister(base, rt);
      reloInsts[buf + 3] := 0xF85F_83F1;
      reloInsts[buf + 4] := 0x1400_0004;
      reloInsts[buf + 5] := NOP;
      reloInsts[buf + 6] := Lo(addr);
      reloInsts[buf + 7] := Hi(addr);
      PatchedIs(before, reloInsts[..], buf, Emit(kind, inst, addr));
    }

    method ReloLdr(instAddr: Addr, inst: Word, kind: Kind) returns (rc: HookError)
      requires RoomFor(kind) && IsLiteral(kind)
      modifies reloInsts
      ensures rc == BadRelocation <==> kind != KPRFM && InWindow(View(), TargetOf(kind, instAddr, inst))
      ensures rc == BadRelocation || rc == NoError
      ensures rc == BadRelocation ==> reloInsts[..] == old(reloInsts[..])
      ensures rc == NoError ==>
        reloInsts[..]
          == Patched(old(reloInsts[..]), reloInstsNum, Emit(kind, inst, Image(View(), TargetOf(kind, instAddr, inst))))
    {
      hide TargetOf, Image, InWindow, Emit, Patched, View;
      var addr := TargetOf(kind, instAddr, inst);
      var inTramp := IsInTramp(addr);
      if inTramp && kind != KPRFM {
        return BadRelocation;
      }
      addr := ReloInTramp(addr);
      if kind == KLDR32 || kind == KLDR64 || kind == KLDRSW {
        LoadGeneral(inst, kind, addr);
      } else {
        LoadOther(inst, kind, addr);
      }
      return NoError;
    }

    method ReloCb(instAddr: Addr, inst: Word, kind: Kind) returns (rc: HookError)
      requires RoomFor(kind) && (kind == KCBZ || kind == KCBNZ)
      modifies reloInsts
      ensures rc == NoError
      ensures reloInsts[..]
           == Patched(old(reloInsts[..]), reloInstsNum, Emit(kind, inst, Image(View(), TargetOf(kind, instAddr, inst))))
    {
      ghost var before := reloInsts[..];
      var buf := reloInstsNum;
      var addr := TargetOf(kind, instAddr, inst);
      addr := ReloInTramp(addr);
      reloInsts[buf] := ShortBranch(inst, 0xFF00_001F);
      reloInsts[buf + 1] := 0x1400_0005;
      reloInsts[buf + 2] := 0x5800_0051;
      reloInsts[buf + 3] := 0xD65F_0220;
      reloInsts[buf + 4] := Lo(addr);
      reloInsts[buf + 5] := Hi(addr);
      PatchedIs(before, reloInsts[..], buf, Emit(kind, inst, addr));
      return NoError;
    }

    method ReloTb(instAddr: Addr, inst: Word, kind: Kind) returns (rc: HookError)
      requires RoomFor(kind) && (kind == KTBZ || kind == KTBNZ)
      modifies reloInsts
      ensures rc == NoError
      ensures reloInsts[..]
           == Patched(old(reloInsts[..]), reloInstsNum, Emit(kind, inst, Image(View(), TargetOf(kind, instAddr, inst))))
    {
      ghost var before := reloInsts[..];
      var buf := reloInstsNum;
      var addr := TargetOf(kind, instAddr, inst);
      addr := ReloInTramp(addr);
      reloInsts[buf] := ShortBranch(inst, 0xFFF8_001F);
      reloInsts[buf + 1] := 0x1400_0005;
      reloInsts[buf + 2] := 0x5800_0051;
      reloInsts[buf + 3] := 0xD61F_0220;
      reloInsts[buf + 4] := Lo(addr);
      reloInsts[buf + 5] := Hi(addr);
      PatchedIs(before, reloInsts[..], buf, Emit(kind, inst, addr));
      return NoError;
    }

    method ReloIgnore(instAddr: Addr, inst: Word, kind: Kind) returns (rc: HookError)
      requires RoomFor(kind) && kind == KIGNORE
      modifies reloInsts
      ensures rc == NoError
      ensures reloInsts[..]
           == Patched(old(reloInsts[..]), reloInstsNum, Emit(kind, inst, TargetOf(kind, instAddr, inst)))
    {
      ghost var before := reloInsts[..];
      var buf := reloInstsNum;
      reloInsts[buf] := inst;
      reloInsts[buf + 1] := NOP;
      PatchedIs(before, reloInsts[..], buf, Emit(kind, inst, TargetOf(kind, instAddr, inst)));
      return NoError;
    }

    // relocate_inst for instruction k of the window.
    method RelocateInst(k: nat, instAddr: Addr, inst: Word) returns (rc: HookError)
      requires RoomFor(KindOf(inst))
      requires k < trampInstsNum && instAddr == AddressOf(View(), k) && inst == View().words[k]
      modifies reloInsts, this`reloInstsNum
      ensures Ready() && View() == old(View())
      ensures rc == if Refused(View(), k) then BadRelocation else NoError
      ensures reloInstsNum == old(reloInstsNum) + LengthOf(KindOf(inst))
      ensures rc == BadRelocation ==> reloInsts[..] == old(reloInsts[..])
      ensures rc == NoError ==>
        reloInsts[..] == Patched(old(reloInsts[..]), old(reloInstsNum), BlockOf(View(), k))
    {
      hide IsPac, Patched, Trampoline, WindowOf, WindowSize, WordsAt;
      var it := FirstMatch(inst);
      match it {
      case KB | KBC | KBL => rc := ReloB(instAddr, inst, it);
      case KADR | KADRP => rc := ReloAdr(instAddr, inst, it);
      case KLDR32 | KLDR64 | KLDRSW | KPRFM | KSIMD32 | KSIMD64 | KSIMD128 => rc := ReloLdr(instAddr, inst, it);
      case KCBZ | KCBNZ => rc := ReloCb(instAddr, inst, it);
      case KTBZ | KTBNZ => rc := ReloTb(instAddr, inst, it);
      case KIGNORE => rc := ReloIgnore(instAddr, inst, it);
      }
      reloInstsNum := reloInstsNum + LengthOf(it);
    }

    // ret_absolute, through branch_from_to
    static method BranchFromTo(buf: array<Word>, at: nat, dst: Addr) returns (n: nat)
      requires at + 4 <= buf.Length
      modifies buf
      ensures n == 4 && buf[..] == Patched(old(buf[..]), at, Stub(dst))
    {
      ghost var before := buf[..];
      buf[at] := 0x5800_0051;
      buf[at + 1] := 0xD65F_0220;
      buf[at + 2] := Lo(dst);
      buf[at + 3] := Hi(dst);
      PatchedIs(before, buf[..], at, Stub(dst));
      return 4;
    }

    // Saves the original words and chooses the trampoline.
    method BackupAndRedirect(mem: Code)
      requires Allocated() && originAddr + 24 < TWO64
      modifies this`trampInstsNum, originInsts, trampInsts
      ensures originInsts[..] == WordsAt(mem, originAddr, TRAMPOLINE_MAX)
      ensures trampInstsNum == WindowSize(mem(originAddr))
      ensures trampInsts[..trampInstsNum] == Trampoline(mem(originAddr), replaceAddr)
    {
      var i := 0;
      while i < TRAMPOLINE_MAX
        invariant i <= TRAMPOLINE_MAX
        invariant originInsts[..i] == WordsAt(mem, originAddr, TRAMPOLINE_MAX)[..i]
        modifies originInsts
      {
        originInsts[i] := mem(originAddr + 4 * i);
        i := i + 1;
      }
      assert originInsts[..] == originInsts[..6];
      assert originInsts[0] == WordsAt(mem, originAddr, TRAMPOLINE_MAX)[0] == mem(originAddr);
      if originInsts[0] == PACIASP || originInsts[0] == PACIBSP {
        trampInstsNum := BranchFromTo(trampInsts, 1, replaceAddr);
        ghost var t := trampInsts[..];
        assert t[1..5] == Stub(replaceAddr);
        trampInsts[0] := BTI_JC;
        assert trampInsts[..5] == [BTI_JC] + t[1..5];
        trampInstsNum := trampInstsNum + 1;
      } else {
        trampInstsNum := BranchFromTo(trampInsts, 0, replaceAddr);
      }
    }

    method ClearRelocation()
      requires Allocated()
      modifies reloInsts
      ensures reloInsts[..] == Nops(RELOCATE_MAX)
    {
      var i := 0;
      while i < reloInsts.Length
        invariant i <= reloInsts.Length
        invariant forall j :: 0 <= j < i ==> reloInsts[j] == NOP
        modifies reloInsts
      {
        reloInsts[i] := NOP;
        i := i + 1;
      }
    }

    // One round of the relocation loop.
    method RelocateNext(i: nat) returns (rc: HookError)
      requires Ready() && i < trampInstsNum && WordsBefore(View().words, i + 1) <= RELOCATE_MAX
      requires reloInstsNum == WordsBefore(View().words, i) && reloInsts[..] == Buffer(View(), i)
      modifies this`reloInstsNum, reloInsts
      ensures Ready() && View() == old(View())
      ensures rc == if Refused(View(), i) then BadRelocation else NoError
      ensures rc == NoError ==>
        reloInstsNum == WordsBefore(View().words, i + 1) && reloInsts[..] == Buffer(View(), i + 1)
    {
      var instAddr := originAddr + i * 4;
      var inst := originInsts[i];
      rc := RelocateInst(i, instAddr, inst);
      BufferGrows(View(), i);
    }

    // The relocation loop of hook_prepare.
    method RelocateWindow() returns (rc: HookError)
      requires Ready() && reloInstsNum == 0 && reloInsts[..] == Nops(RELOCATE_MAX)
      requires WordsBefore(View().words, trampInstsNum) <= RELOCATE_MAX
      modifies this`reloInstsNum, reloInsts
      ensures Ready() && View() == old(View())
      ensures rc == if AnyRefused(View(), trampInstsNum) then BadRelocation else NoError
      ensures rc == NoError ==>
        && reloInstsNum == WordsBefore(View().words, trampInstsNum)
        && reloInsts[..] == Buffer(View(), trampInstsNum)
    {
      hide Refused, BlockOf, Blocks, Emit;
      ghost var win := View();
      assert Buffer(win, 0) == Nops(RELOCATE_MAX);
      var i := 0;
      while i < trampInstsNum
        invariant i <= trampInstsNum == |win.words| && Ready() && View() == win
        invariant reloInstsNum == WordsBefore(win.words, i) <= RELOCATE_MAX
        invariant reloInsts[..] == Buffer(win, i)
        invariant !AnyRefused(win, i)
        modifies this`reloInstsNum, reloInsts
      {
        BlocksAreOrdered(win.words, i + 1, trampInstsNum);
        var reloRes := RelocateNext(i);
        if reloRes != NoError {
          return BadRelocation;
        }
        i := i + 1;
      }
      return NoError;
    }

    // The end of hook_prepare: the way back behind the blocks.
    method JumpBack()
      requires Ready() && |Relocated(View())| <= RELOCATE_MAX
      requires reloInstsNum == WordsBefore(View().words, trampInstsNum) <= RELOCATE_MAX
      requires reloInsts[..] == Buffer(View(), trampInstsNum)
      modifies this`reloInstsNum, reloInsts
      ensures Allocated() && View() == old(View())
      ensures reloInstsNum == |Relocated(View())|
      ensures reloInsts[..] == Filled(Relocated(View()))
    {
      hide Emission, Filled, WordsBefore, Patched;
      ghost var win := View();
      RelocatedLength(win);
      EmissionLength(win, trampInstsNum);
      var back := originAddr + trampInstsNum * 4;
      var n := BranchFromTo(reloInsts, reloInstsNum, back);
      FilledWith(Emission(win, trampInstsNum), Stub(back));
      reloInstsNum := reloInstsNum + n;
    }

    // hook_prepare.  The window must fit the buffer, as FitsBuffer says it does
    // for every window of four instructions.
    method HookPrepare(mem: Code) returns (rc: HookError)
      requires Allocated() && reloInstsNum == 0
      requires originAddr + 24 < TWO64 && reloAddr + 400 < TWO64
      requires |Relocated(WindowOf(mem, originAddr, reloAddr))| <= RELOCATE_MAX
      modifies this`trampInstsNum, this`reloInstsNum, originInsts, trampInsts, reloInsts
      ensures rc == PrepareResult(funcAddr, replaceAddr, WindowOf(mem, originAddr, reloAddr))
      ensures Allocated()
      ensures rc != BadAddress ==>
        && View() == WindowOf(mem, originAddr, reloAddr)
        && originInsts[..] == WordsAt(mem, originAddr, TRAMPOLINE_MAX)
        && trampInsts[..trampInstsNum] == Trampoline(mem(originAddr), replaceAddr)
      ensures rc == NoError ==>
        && reloInstsNum == |Relocated(View())|
        && reloInsts[..] == Filled(Relocated(View()))
    {
      hide AnyRefused, Trampoline, Relocated, Emission, Filled, Buffer, WordsBefore;
      if IsBadAddress(funcAddr) { return BadAddress; }
      if IsBadAddress(originAddr) { return BadAddress; }
      if IsBadAddress(replaceAddr) { return BadAddress; }
      if IsBadAddress(reloAddr) { return BadAddress; }
      BackupAndRedirect(mem);
      ClearRelocation();
      ghost var win := WindowOf(mem, originAddr, reloAddr);
      WindowIsPrefix(mem, originAddr, trampInstsNum);
      assert View() == win;
      RelocatedLength(win);
      rc := RelocateWindow();
      if rc == NoError {
        JumpBack();
      }
    }
  }
}
