// The window of instructions that a hook displaces, the code that replaces it,
// and the proof that running that code simulates the window.
module HookWindow {
  import opened Bits
  import opened A64
  import opened Relocation
  import opened RelocatedBlocks

  // The first words at origin, to be run from relo instead.
  datatype Window = Window(origin: Addr, relo: Addr, words: seq<Word>)

  ghost predicate Valid(win: Window) {
    && 0 < |win.words| <= 6
    && win.origin + 24 < 0x1_0000_0000_0000_0000
    && win.relo + 400 < 0x1_0000_0000_0000_0000
  }

  // is_in_tramp
  predicate InWindow(win: Window, addr: Addr) {
    win.origin <= addr < win.origin + 4 * |win.words|
  }

  // The number of words emitted for the first k instructions.
  function WordsBefore(ws: seq<Word>, k: nat): (n: nat)
    requires k <= |ws|
    ensures 2 * k <= n <= 8 * k
  {
    if k == 0 then 0 else WordsBefore(ws, k - 1) + LengthOf(KindOf(ws[k - 1]))
  }

  // relo_in_tramp: where a branch to addr has to go.
  function Image(win: Window, addr: Addr): Addr
    requires Valid(win)
  {
    if InWindow(win, addr) then win.relo + 4 * WordsBefore(win.words, (addr - win.origin) / 4) else addr
  }

  function AddressOf(win: Window, k: nat): Addr
    requires Valid(win) && k <= |win.words|
  {
    win.origin + 4 * k
  }

  // The address that the block of instruction k refers to.
  function Referred(win: Window, k: nat): Addr
    requires Valid(win) && k < |win.words|
  {
    var kind := KindOf(win.words[k]);
    var a := TargetOf(kind, AddressOf(win, k), win.words[k]);
    if kind == KADR || kind == KADRP || kind == KIGNORE then a else Image(win, a)
  }

  // Instructions that hook_prepare refuses with BAD_RELO.
  predicate Refused(win: Window, k: nat)
    requires Valid(win) && k < |win.words|
  {
    var kind := KindOf(win.words[k]);
    && (kind == KADRP || (IsLiteral(kind) && kind != KPRFM))
    && InWindow(win, TargetOf(kind, AddressOf(win, k), win.words[k]))
  }

  function BlockOf(win: Window, k: nat): (b: seq<Word>)
    requires Valid(win) && k < |win.words|
    ensures |b| == LengthOf(KindOf(win.words[k]))
  {
    Emit(KindOf(win.words[k]), win.words[k], Referred(win, k))
  }

  function Blocks(win: Window): seq<seq<Word>>
    requires Valid(win)
  {
    seq(|win.words|, k requires 0 <= k < |win.words| => BlockOf(win, k))
  }

  // The first k of some blocks, one after the other.
  function Flat(bs: seq<seq<Word>>, k: nat): seq<Word>
    requires k <= |bs|
  {
    if k == 0 then [] else Flat(bs, k - 1) + bs[k - 1]
  }

  // The words emitted for the first k instructions.
  function Emission(win: Window, k: nat): seq<Word>
    requires Valid(win) && k <= |win.words|
  {
    Flat(Blocks(win), k)
  }

  // Everything that runs in place of the window: the blocks and the way back.
  function Relocated(win: Window): seq<Word>
    requires Valid(win)
  {
    Emission(win, |win.words|) + Stub(AddressOf(win, |win.words|))
  }

  // ------------------------------------------------------- prediction and emission

  lemma {:induction false} FlatLength(bs: seq<seq<Word>>, ws: seq<Word>, k: nat)
    requires k <= |bs| == |ws|
    requires forall i :: 0 <= i < |bs| ==> |bs[i]| == LengthOf(KindOf(ws[i]))
    ensures |Flat(bs, k)| == WordsBefore(ws, k)
  {
    if k > 0 {
      FlatLength(bs, ws, k - 1);
    }
  }

  lemma {:induction false} FlatHas(bs: seq<seq<Word>>, k: nat, n: nat)
    requires k < n <= |bs|
    ensures |Flat(bs, k)| + |bs[k]| <= |Flat(bs, n)|
    ensures Flat(bs, n)[|Flat(bs, k)|..|Flat(bs, k)| + |bs[k]|] == bs[k]
    decreases n
  {
    if k < n - 1 {
      FlatHas(bs, k, n - 1);
    }
  }

  lemma EmissionLength(win: Window, k: nat)
    requires Valid(win) && k <= |win.words|
    ensures |Emission(win, k)| == WordsBefore(win.words, k)
  {
    FlatLength(Blocks(win), win.words, k);
  }

  // The words of the relocated code from index i on start with part.
  predicate HasAt(ws: seq<Word>, i: nat, part: seq<Word>) {
    i + |part| <= |ws| && ws[i..i + |part|] == part
  }

  lemma HasAtPrefix(ws: seq<Word>, i: nat, part: seq<Word>, rest: seq<Word>)
    requires HasAt(ws, i, part)
    ensures HasAt(ws + rest, i, part)
  {
    assert (ws + rest)[i..i + |part|] == ws[i..i + |part|];
  }

  // A branch to instruction k of the window goes to the words emitted for it.
  lemma PredictionMatchesEmission(win: Window, k: nat)
    requires Valid(win) && k < |win.words|
    ensures Image(win, AddressOf(win, k)) == win.relo + 4 * |Emission(win, k)|
    ensures HasAt(Relocated(win), |Emission(win, k)|, BlockOf(win, k))
  {
    BlockReached(win, k);
    EmissionLength(win, k);
    EmissionHas(win, k);
  }

  lemma EmissionHas(win: Window, k: nat)
    requires Valid(win) && k < |win.words|
    ensures HasAt(Relocated(win), |Emission(win, k)|, BlockOf(win, k))
  {
    FlatHas(Blocks(win), k, |win.words|);
    HasAtPrefix(Emission(win, |win.words|), |Emission(win, k)|, Blocks(win)[k], Stub(AddressOf(win, |win.words|)));
  }

  // An address inside the window but between instructions counts as the
  // instruction it lies in; any other address is kept.
  lemma PredictionRoundsDown(win: Window, addr: Addr)
    requires Valid(win)
    ensures InWindow(win, addr) ==>
      Image(win, addr) == Image(win, AddressOf(win, (addr - win.origin) / 4))
    ensures !InWindow(win, addr) ==> Image(win, addr) == addr
  {
  }

  lemma {:induction false} BlocksAreOrdered(ws: seq<Word>, j: nat, k: nat)
    requires j <= k <= |ws|
    ensures WordsBefore(ws, j) + 2 * (k - j) <= WordsBefore(ws, k) <= WordsBefore(ws, j) + 8 * (k - j)
    decreases k
  {
    if j < k {
      BlocksAreOrdered(ws, j, k - 1);
    }
  }

  // The buffer of 36 words takes every window of four instructions, and the
  // five-word window of a PAC prologue exactly when its blocks need at most 32.
  lemma FitsBuffer(win: Window)
    requires Valid(win)
    ensures |Relocated(win)| <= 36 <==> WordsBefore(win.words, |win.words|) <= 32
    ensures |win.words| <= 4 ==> |Relocated(win)| <= 36
  {
    EmissionLength(win, |win.words|);
  }

  // A PAC prologue with four long instructions needs 38 words.
  lemma LongPacPrologueOverflows()
    ensures var win := Window(0, 0, [0xD503_233F, 0x9400_0000, 0x9400_0000, 0x9400_0000, 0x9400_0000]);
            Valid(win) && |Relocated(win)| == 38
  {
    var ws := [0xD503_233F, 0x9400_0000, 0x9400_0000, 0x9400_0000, 0x9400_0000];
    assert KindOf(0xD503_233F) == KIGNORE && KindOf(0x9400_0000) == KBL;
    assert WordsBefore(ws, 1) == 2;
    assert WordsBefore(ws, 2) == 10;
    assert WordsBefore(ws, 3) == 18;
    assert WordsBefore(ws, 4) == 26;
    EmissionLength(Window(0, 0, ws), 5);
  }

  // ------------------------------------------------------------------- one step

  lemma HoldsPart(code: Code, b: Addr, ws: seq<Word>, i: nat, part: seq<Word>)
    requires Holds(code, b, ws) && HasAt(ws, i, part)
    ensures b + 4 * i < 0x1_0000_0000_0000_0000 && Holds(code, b + 4 * i, part)
  {
    var c := b + 4 * i;
    forall j: nat {:trigger HoldsAt(code, c, part, j)} | j < |part|
      ensures HoldsAt(code, c, part, j)
    {
      HoldsPartAt(code, b, ws, i, part, j);
    }
  }

  lemma HoldsPartAt(code: Code, b: Addr, ws: seq<Word>, i: nat, part: seq<Word>, j: nat)
    requires Holds(code, b, ws) && HasAt(ws, i, part) && j < |part|
    ensures HoldsAt(code, b + 4 * i, part, j)
  {
    assert HoldsAt(code, b, ws, i + j);
    assert part[j] == ws[i..i + |part|][j] == ws[i + j];
  }

  // The original code holds the window at origin.
  ghost predicate HoldsWindow(code: Code, win: Window)
    requires Valid(win)
  {
    forall k: nat {:trigger AddressOf(win, k)} :: k < |win.words| ==> code(AddressOf(win, k)) == win.words[k]
  }

  function BlockAt(win: Window, k: nat): Addr
    requires Valid(win) && k <= |win.words|
  {
    win.relo + 4 * WordsBefore(win.words, k)
  }

  // Where the relocated run stands after word w of kind k at index i, for the
  // original state s: the state after the original instruction, with the
  // program counter moved and X17 and X30 as the block leaves them.
  function Expected<R>(sem: Sem<R>, win: Window, k: nat, s: Cpu<R>, after: Cpu<R>): Cpu<R>
    requires Valid(win) && k < |win.words|
  {
    var w := win.words[k];
    var kind := KindOf(w);
    var insn := Decode(w);
    if kind == KBL then
      after.(pc := Image(win, after.pc), x := Put(Put(s.x, 17, Image(win, after.pc)), 30, BlockAt(win, k) + 28))
    else if Taken(sem, kind, w, s) then
      after.(pc := Image(win, after.pc), x := Put(after.x, 17, Image(win, after.pc)))
    else if insn.Ret? || insn.Br? then after
    else if insn.Blr? then after.(x := Put(s.x, 30, BlockAt(win, k) + 4))
    else after.(pc := BlockAt(win, k + 1))
  }

  lemma BlockReached(win: Window, k: nat)
    requires Valid(win) && k < |win.words|
    ensures Image(win, AddressOf(win, k)) == BlockAt(win, k)
  {
    assert (AddressOf(win, k) - win.origin) / 4 == k;
  }

  lemma BlockHeld(code: Code, win: Window, k: nat)
    requires Valid(win) && k < |win.words| && Holds(code, win.relo, Relocated(win))
    ensures Holds(code, BlockAt(win, k), BlockOf(win, k))
  {
    hide Emission, BlockOf, Relocated, Holds, HasAt, Image;
    BlockReached(win, k);
    PredictionMatchesEmission(win, k);
    EmissionLength(win, k);
    HoldsPart(code, win.relo, Relocated(win), |Emission(win, k)|, BlockOf(win, k));
  }

  lemma StubHeld(code: Code, win: Window)
    requires Valid(win) && Holds(code, win.relo, Relocated(win))
    ensures Holds(code, BlockAt(win, |win.words|), Stub(AddressOf(win, |win.words|)))
  {
    hide Fls, Shr, Shl, Pow2, And, Or, Bit;
    var n := |win.words|;
    EmissionLength(win, n);
    HoldsPart(code, win.relo, Relocated(win), |Emission(win, n)|, Stub(AddressOf(win, n)));
  }

  // The branch target of a block is the image of the target of its instruction.
  lemma ReferredIsImage(win: Window, k: nat)
    requires Valid(win) && k < |win.words|
    ensures var kind := KindOf(win.words[k]);
            var e := Effective(kind, AddressOf(win, k), win.words[k]);
            Referred(win, k) == if kind == KADR || kind == KADRP || kind == KIGNORE then e else Image(win, e)
  {
    TargetIsEffective(KindOf(win.words[k]), AddressOf(win, k), win.words[k]);
  }

  // What AfterBlock leaves, against the original step, kind by kind.
  ghost predicate BlockMeets<R>(sem: Sem<R>, original: Code, win: Window, k: nat, s: Cpu<R>)
    requires Valid(win) && k < |win.words|
  {
    var w := win.words[k];
    AfterBlock(sem, KindOf(w), w, Referred(win, k), BlockAt(win, k), s.(pc := BlockAt(win, k)))
      == Expected(sem, win, k, s, Step(sem, original, s))
  }

  lemma BranchMeets<R(!new)>(sem: Sem<R>, original: Code, win: Window, k: nat, s: Cpu<R>)
    requires Valid(win) && IsA64(sem) && k < |win.words|
    requires KindOf(win.words[k]) == KB || KindOf(win.words[k]) == KBL
    requires s.pc == AddressOf(win, k) && original(s.pc) == win.words[k]
    ensures BlockMeets(sem, original, win, k, s)
  {
    hide Fls, Shr, Shl, Pow2, And, Or, Bit;
    var w := win.words[k];
    assert DecodesAs(sem, w);
    KindIsDecoding(w);
    ReferredIsImage(win, k);
  }

  lemma ConditionMeets<R(!new)>(sem: Sem<R>, original: Code, win: Window, k: nat, s: Cpu<R>)
    requires Valid(win) && IsA64(sem) && k < |win.words| && KindOf(win.words[k]) == KBC
    requires s.pc == AddressOf(win, k) && original(s.pc) == win.words[k]
    ensures BlockMeets(sem, original, win, k, s)
  {
    var w := win.words[k];
    assert DecodesAs(sem, w);
    KindIsDecoding(w);
    ReferredIsImage(win, k);
  }

  lemma CompareMeets<R(!new)>(sem: Sem<R>, original: Code, win: Window, k: nat, s: Cpu<R>)
    requires Valid(win) && IsA64(sem) && k < |win.words|
    requires KindOf(win.words[k]) == KCBZ || KindOf(win.words[k]) == KCBNZ
    requires s.pc == AddressOf(win, k) && original(s.pc) == win.words[k]
    ensures BlockMeets(sem, original, win, k, s)
  {
    var w := win.words[k];
    assert DecodesAs(sem, w);
    CompareDecoding(w);
    ReferredIsImage(win, k);
  }

  lemma TestMeets<R(!new)>(sem: Sem<R>, original: Code, win: Window, k: nat, s: Cpu<R>)
    requires Valid(win) && IsA64(sem) && k < |win.words|
    requires KindOf(win.words[k]) == KTBZ || KindOf(win.words[k]) == KTBNZ
    requires s.pc == AddressOf(win, k) && original(s.pc) == win.words[k]
    ensures BlockMeets(sem, original, win, k, s)
  {
    var w := win.words[k];
    assert DecodesAs(sem, w);
    TestDecoding(w);
    ReferredIsImage(win, k);
  }

  lemma AdrMeets<R(!new)>(sem: Sem<R>, original: Code, win: Window, k: nat, s: Cpu<R>)
    requires Valid(win) && IsA64(sem) && k < |win.words|
    requires KindOf(win.words[k]) == KADR || KindOf(win.words[k]) == KADRP
    requires s.pc == AddressOf(win, k) && original(s.pc) == win.words[k]
    ensures BlockMeets(sem, original, win, k, s)
  {
    var w := win.words[k];
    assert DecodesAs(sem, w);
    KindIsDecoding(w);
    ReferredIsImage(win, k);
  }

  lemma PositionFreeMeets<R(!new)>(sem: Sem<R>, original: Code, win: Window, k: nat, s: Cpu<R>)
    requires Valid(win) && IsA64(sem) && k < |win.words| && KindOf(win.words[k]) == KIGNORE
    requires s.pc == AddressOf(win, k) && original(s.pc) == win.words[k]
    ensures BlockMeets(sem, original, win, k, s)
  {
    hide Decode, Emit, Image, Plus, Put;
    var w := win.words[k];
    assert DecodesAs(sem, w);
    OtherKindsDecode(w);
  }

  lemma BlockOfRuns<R(!new)>(sem: Sem<R>, code: Code, win: Window, k: nat, t: Cpu<R>)
    requires Valid(win) && IsA64(sem) && k < |win.words| && !IsLiteral(KindOf(win.words[k]))
    requires Holds(code, BlockAt(win, k), BlockOf(win, k)) && t.pc == BlockAt(win, k)
    ensures Steps(sem, code, t, BlockSteps(sem, KindOf(win.words[k]), win.words[k], t))
         == AfterBlock(sem, KindOf(win.words[k]), win.words[k], Referred(win, k), BlockAt(win, k), t)
  {
    BlockRuns(sem, code, win.words[k], Referred(win, k), BlockAt(win, k), t);
  }

  // From the same registers and flags, the block of an instruction ends in the
  // state the instruction would have produced, with the program counter at the
  // image of its successor, X17 replaced on taken branches and X30 by a link.
  lemma StepSimulated<R(!new)>(sem: Sem<R>, original: Code, code: Code, win: Window, k: nat, s: Cpu<R>)
    requires Valid(win) && IsA64(sem) && k < |win.words| && !IsLiteral(KindOf(win.words[k]))
    requires original(AddressOf(win, k)) == win.words[k] && Holds(code, win.relo, Relocated(win))
    requires s.pc == AddressOf(win, k)
    ensures Steps(sem, code, s.(pc := Image(win, s.pc)),
                  BlockSteps(sem, KindOf(win.words[k]), win.words[k], s.(pc := Image(win, s.pc))))
         == Expected(sem, win, k, s, Step(sem, original, s))
  {
    BlockReached(win, k);
    BlockHeld(code, win, k);
    BlockOfRuns(sem, code, win, k, s.(pc := BlockAt(win, k)));
    match KindOf(win.words[k])
    case KB | KBL => BranchMeets(sem, original, win, k, s);
    case KBC => ConditionMeets(sem, original, win, k, s);
    case KCBZ | KCBNZ => CompareMeets(sem, original, win, k, s);
    case KTBZ | KTBNZ => TestMeets(sem, original, win, k, s);
    case KADR | KADRP => AdrMeets(sem, original, win, k, s);
    case KIGNORE => PositionFreeMeets(sem, original, win, k, s);
    case _ =>
  }

  // Falling off the last block runs the way back to the first address after the window.
  lemma FallsBack<R(!new)>(sem: Sem<R>, code: Code, win: Window, t: Cpu<R>)
    requires Valid(win) && IsA64(sem) && Holds(code, win.relo, Relocated(win))
    requires t.pc == BlockAt(win, |win.words|)
    ensures var back := AddressOf(win, |win.words|);
            Steps(sem, code, t, 2) == t.(pc := back, x := Put(t.x, 17, back))
  {
    StubHeld(code, win);
    FixedWordsKnown(sem);
    StubJumps(sem, code, t.pc, AddressOf(win, |win.words|), t);
  }

  // Returning to the link of a BL or BLR block goes on with the next instruction's block.
  lemma LinkContinues<R(!new)>(sem: Sem<R>, code: Code, win: Window, k: nat, t: Cpu<R>)
    requires Valid(win) && IsA64(sem) && k < |win.words| && Holds(code, win.relo, Relocated(win))
    requires KindOf(win.words[k]) == KBL || KindOf(win.words[k]) == KIGNORE
    requires t.pc == BlockAt(win, k) + if KindOf(win.words[k]) == KBL then 28 else 4
    ensures Step(sem, code, t) == t.(pc := BlockAt(win, k + 1))
  {
    hide Holds, Emit, BlockOf, Relocated, Referred;
    BlockHeld(code, win, k);
    BlockIsEmission(win, k);
    EndsInNop(code, win.words[k], Referred(win, k), BlockAt(win, k));
    NextBlock(win, k);
    NopSteps(sem, code, t);
  }

  lemma BlockIsEmission(win: Window, k: nat)
    requires Valid(win) && k < |win.words|
    ensures BlockOf(win, k) == Emit(KindOf(win.words[k]), win.words[k], Referred(win, k))
  {
    hide Emit, Referred, KindOf;
  }

  lemma NextBlock(win: Window, k: nat)
    requires Valid(win) && k < |win.words|
    ensures BlockAt(win, k + 1) == BlockAt(win, k) + 4 * LengthOf(KindOf(win.words[k]))
  {
    hide KindOf, LengthOf;
  }

  lemma NopSteps<R(!new)>(sem: Sem<R>, code: Code, t: Cpu<R>)
    requires IsA64(sem) && code(t.pc) == NOP && t.pc + 4 < 0x1_0000_0000_0000_0000
    ensures Step(sem, code, t) == t.(pc := t.pc + 4)
  {
    hide Decode;
    FixedWordsKnown(sem);
  }

  lemma EndsInNop(code: Code, w: Word, a: Addr, b: Addr)
    requires (KindOf(w) == KBL || KindOf(w) == KIGNORE) && Holds(code, b, Emit(KindOf(w), w, a))
    ensures KindOf(w) == KBL ==> code(b + 28) == NOP
    ensures KindOf(w) == KIGNORE ==> code(b + 4) == NOP
  {
    var ws := Emit(KindOf(w), w, a);
    assert HoldsAt(code, b, ws, |ws| - 1);
  }

  // ------------------------------------------------------------------ whole runs

  // Equal but for the registers d.
  ghost predicate SameBut(d: set<Reg>, x: Regs, y: Regs) {
    forall r: Reg {:trigger Get(y, r)} :: r !in d ==> Get(x, r) == Get(y, r)
  }

  // What may differ between the two runs: some registers, and the rest of the state up
  // to a relation, such as being equal but for the stack words that are dead.
  datatype Slack<!R> = Slack(regs: set<Reg>, same: (R, R) -> bool)

  function Linked<R>(d: Slack<R>): Slack<R> {
    d.(regs := d.regs + {30})
  }

  // State t of the relocated run stands for state s of the original one; X17 may differ.
  ghost predicate Simulates<R>(win: Window, d: Slack<R>, s: Cpu<R>, t: Cpu<R>)
    requires Valid(win)
  {
    && 17 in d.regs
    && t.pc == Image(win, s.pc)
    && t.flags == s.flags
    && d.same(s.rest, t.rest)
    && SameBut(d.regs, s.x, t.x)
  }

  // An instruction whose effect does not depend on what may differ, and keeps it so.
  ghost predicate Ignores<R(!new)>(sem: Sem<R>, d: Slack<R>, w: Word) {
    forall x: Regs, y: Regs, f: Flags, rest: R, other: R {:trigger sem.plain(w, x, f, rest), sem.plain(w, y, f, other)} ::
      SameBut(d.regs, x, y) && d.same(rest, other) ==>
        && SameBut(d.regs, sem.plain(w, x, f, rest).0, sem.plain(w, y, f, other).0)
        && sem.plain(w, x, f, rest).1 == sem.plain(w, y, f, other).1
        && d.same(sem.plain(w, x, f, rest).2, sem.plain(w, y, f, other).2)
  }

  // What instruction k may be, in state s, for the run to go on being followed step
  // by step: no literal load, no call, no use of what may differ and no computed jump
  // into the window.
  ghost predicate Followed<R(!new)>(sem: Sem<R>, win: Window, d: Slack<R>, k: nat, s: Cpu<R>)
    requires Valid(win) && k < |win.words|
  {
    var w := win.words[k];
    match Decode(w)
    case LoadLiteral(_, _, _) => false
    case BL(_) => false
    case Blr(_) => false
    case Ret(rn) => rn !in d.regs && !InWindow(win, Get(s.x, rn))
    case Br(rn) => rn !in d.regs && !InWindow(win, Get(s.x, rn))
    case CompareBranch(_, _, rt, _) => rt !in d.regs
    case TestBranch(_, _, rt, _) => rt !in d.regs
    case AddImm(_, rn, _) => rn !in d.regs
    case Other(_) => Ignores(sem, d, w)
    case _ => true
  }

  lemma SameButAfterPut(d: set<Reg>, x: Regs, y: Regs, r: Reg, v: Addr)
    requires 17 in d && SameBut(d, x, y)
    ensures SameBut(d, Put(x, r, v), Put(y, r, v)) && SameBut(d, x, Put(y, 17, v))
  {
    forall q: Reg {:trigger Get(y, q)} | q !in d
      ensures Get(Put(x, r, v), q) == Get(Put(y, r, v), q) && Get(x, q) == Get(Put(y, 17, v), q)
    {
      assert Get(x, q) == Get(y, q);
    }
    forall q: Reg {:trigger Get(Put(y, r, v), q)} | q !in d ensures Get(Put(x, r, v), q) == Get(Put(y, r, v), q) {
      assert Get(x, q) == Get(y, q);
    }
    forall q: Reg {:trigger Get(Put(y, 17, v), q)} | q !in d ensures Get(x, q) == Get(Put(y, 17, v), q) {
      assert Get(x, q) == Get(y, q);
    }
  }

  // A block is left at the image of the successor, or at the next block when the
  // successor is the next instruction.
  ghost predicate Landed<R>(win: Window, d: Slack<R>, k: nat, s: Cpu<R>, t: Cpu<R>)
    requires Valid(win) && k < |win.words|
  {
    && 17 in d.regs
    && t.flags == s.flags
    && d.same(s.rest, t.rest)
    && SameBut(d.regs, s.x, t.x)
    && (t.pc == Image(win, s.pc) || (t.pc == BlockAt(win, k + 1) && s.pc == AddressOf(win, k + 1)))
  }

  ghost predicate Lands<R>(sem: Sem<R>, original: Code, win: Window, d: Slack<R>, k: nat, s: Cpu<R>, t: Cpu<R>)
    requires Valid(win) && k < |win.words|
  {
    var w := win.words[k];
    Landed(win, d, k, Step(sem, original, s), AfterBlock(sem, KindOf(w), w, Referred(win, k), BlockAt(win, k), t))
  }

  ghost predicate AtInstruction<R(!new)>(sem: Sem<R>, original: Code, win: Window, d: Slack<R>, k: nat, s: Cpu<R>, t: Cpu<R>)
    requires Valid(win) && k < |win.words|
  {
    && IsA64(sem)
    && s.pc == AddressOf(win, k)
    && original(s.pc) == win.words[k]
    && Simulates(win, d, s, t)
    && Followed(sem, win, d, k, s)
  }

  lemma BranchLands<R(!new)>(sem: Sem<R>, original: Code, win: Window, d: Slack<R>, k: nat, s: Cpu<R>, t: Cpu<R>)
    requires Valid(win) && k < |win.words| && AtInstruction(sem, original, win, d, k, s, t)
    requires KindOf(win.words[k]) == KB || KindOf(win.words[k]) == KBC
    ensures Lands(sem, original, win, d, k, s, t)
  {
    var w := win.words[k];
    assert DecodesAs(sem, w);
    KindIsDecoding(w);
    ReferredIsImage(win, k);
    SameButAfterPut(d.regs, s.x, t.x, 17, Referred(win, k));
  }

  lemma CompareLands<R(!new)>(sem: Sem<R>, original: Code, win: Window, d: Slack<R>, k: nat, s: Cpu<R>, t: Cpu<R>)
    requires Valid(win) && k < |win.words| && AtInstruction(sem, original, win, d, k, s, t)
    requires KindOf(win.words[k]) == KCBZ || KindOf(win.words[k]) == KCBNZ
    ensures Lands(sem, original, win, d, k, s, t)
  {
    hide TargetOf, Image, Referred, Immediate, SignExtend, Emit;
    var w := win.words[k];
    assert DecodesAs(sem, w);
    CompareDecoding(w);
    ReferredIsImage(win, k);
    assert Get(s.x, w % 0x20) == Get(t.x, w % 0x20);
    SameButAfterPut(d.regs, s.x, t.x, 17, Referred(win, k));
  }

  lemma TestLands<R(!new)>(sem: Sem<R>, original: Code, win: Window, d: Slack<R>, k: nat, s: Cpu<R>, t: Cpu<R>)
    requires Valid(win) && k < |win.words| && AtInstruction(sem, original, win, d, k, s, t)
    requires KindOf(win.words[k]) == KTBZ || KindOf(win.words[k]) == KTBNZ
    ensures Lands(sem, original, win, d, k, s, t)
  {
    hide TargetOf, Image, Referred, Immediate, SignExtend, Emit;
    var w := win.words[k];
    assert DecodesAs(sem, w);
    TestDecoding(w);
    ReferredIsImage(win, k);
    assert Get(s.x, w % 0x20) == Get(t.x, w % 0x20);
    SameButAfterPut(d.regs, s.x, t.x, 17, Referred(win, k));
  }

  lemma AdrLands<R(!new)>(sem: Sem<R>, original: Code, win: Window, d: Slack<R>, k: nat, s: Cpu<R>, t: Cpu<R>)
    requires Valid(win) && k < |win.words| && AtInstruction(sem, original, win, d, k, s, t)
    requires KindOf(win.words[k]) == KADR || KindOf(win.words[k]) == KADRP
    ensures Lands(sem, original, win, d, k, s, t)
  {
    var w := win.words[k];
    assert DecodesAs(sem, w);
    KindIsDecoding(w);
    ReferredIsImage(win, k);
    SameButAfterPut(d.regs, s.x, t.x, w % 0x20, Referred(win, k));
  }

  lemma JumpLands<R(!new)>(sem: Sem<R>, original: Code, win: Window, d: Slack<R>, k: nat, s: Cpu<R>, t: Cpu<R>, rn: Reg)
    requires Valid(win) && k < |win.words| && AtInstruction(sem, original, win, d, k, s, t)
    requires KindOf(win.words[k]) == KIGNORE && (Decode(win.words[k]) == Ret(rn) || Decode(win.words[k]) == Br(rn))
    ensures Lands(sem, original, win, d, k, s, t)
  {
    assert DecodesAs(sem, win.words[k]);
    assert Get(s.x, rn) == Get(t.x, rn);
  }

  lemma AddLands<R(!new)>(sem: Sem<R>, original: Code, win: Window, d: Slack<R>, k: nat, s: Cpu<R>, t: Cpu<R>)
    requires Valid(win) && k < |win.words| && AtInstruction(sem, original, win, d, k, s, t)
    requires KindOf(win.words[k]) == KIGNORE && (Decode(win.words[k]).AddImm? || Decode(win.words[k]).Nop?)
    ensures Lands(sem, original, win, d, k, s, t)
  {
    hide TargetOf, Image, Taken, CondHolds, Put, Offset21;
    assert DecodesAs(sem, win.words[k]);
    if Decode(win.words[k]).AddImm? {
      var AddImm(rd, rn, imm) := Decode(win.words[k]);
      assert Get(s.x, rn) == Get(t.x, rn);
      SameButAfterPut(d.regs, s.x, t.x, rd, (Get(s.x, rn) + imm) % 0x1_0000_0000_0000_0000);
    }
  }

  lemma OtherLands<R(!new)>(sem: Sem<R>, original: Code, win: Window, d: Slack<R>, k: nat, s: Cpu<R>, t: Cpu<R>)
    requires Valid(win) && k < |win.words| && AtInstruction(sem, original, win, d, k, s, t)
    requires KindOf(win.words[k]) == KIGNORE && Decode(win.words[k]).Other?
    ensures Lands(sem, original, win, d, k, s, t)
  {
    var w := win.words[k];
    assert DecodesAs(sem, w);
    OtherIsItself(w);
    assert SameBut(d.regs, sem.plain(w, s.x, s.flags, s.rest).0, sem.plain(w, t.x, s.flags, t.rest).0);
  }

  lemma OtherIsItself(w: Word)
    ensures Decode(w).Other? ==> Decode(w) == Other(w)
  {
  }

  lemma StepLands<R(!new)>(sem: Sem<R>, original: Code, win: Window, d: Slack<R>, k: nat, s: Cpu<R>, t: Cpu<R>)
    requires Valid(win) && k < |win.words| && AtInstruction(sem, original, win, d, k, s, t)
    ensures !IsLiteral(KindOf(win.words[k])) && Lands(sem, original, win, d, k, s, t)
  {
    hide Lands;
    var w := win.words[k];
    OtherKindsDecode(w);
    KindIsDecoding(w);
    match KindOf(w)
    case KB | KBC => BranchLands(sem, original, win, d, k, s, t);
    case KCBZ | KCBNZ => CompareLands(sem, original, win, d, k, s, t);
    case KTBZ | KTBNZ => TestLands(sem, original, win, d, k, s, t);
    case KADR | KADRP => AdrLands(sem, original, win, d, k, s, t);
    case KIGNORE => {
      match Decode(w)
      case Ret(rn) => JumpLands(sem, original, win, d, k, s, t, rn);
      case Br(rn) => JumpLands(sem, original, win, d, k, s, t, rn);
      case Other(_) => OtherLands(sem, original, win, d, k, s, t);
      case _ => AddLands(sem, original, win, d, k, s, t);
    }
    case _ =>
  }

  // One original instruction is matched by a number of relocated ones.
  lemma StepFollowed<R(!new)>(sem: Sem<R>, original: Code, code: Code, win: Window, d: Slack<R>, k: nat, s: Cpu<R>, t: Cpu<R>)
    returns (n: nat)
    requires Valid(win) && k < |win.words| && AtInstruction(sem, original, win, d, k, s, t)
    requires Holds(code, win.relo, Relocated(win))
    ensures n > 0 && Simulates(win, d, Step(sem, original, s), Steps(sem, code, t, n))
  {
    var w := win.words[k];
    StepLands(sem, original, win, d, k, s, t);
    BlockReached(win, k);
    BlockHeld(code, win, k);
    BlockOfRuns(sem, code, win, k, t);
    var m := BlockSteps(sem, KindOf(w), w, t);
    n := Completed(sem, code, win, d, k, Step(sem, original, s), t, m);
  }

  // Where the last block falls through, the way back completes the step.
  lemma Completed<R(!new)>(sem: Sem<R>, code: Code, win: Window, d: Slack<R>, k: nat, s: Cpu<R>, t: Cpu<R>, m: nat) returns (n: nat)
    requires Valid(win) && k < |win.words| && IsA64(sem) && Holds(code, win.relo, Relocated(win)) && m > 0
    requires Landed(win, d, k, s, Steps(sem, code, t, m))
    ensures n > 0 && Simulates(win, d, s, Steps(sem, code, t, n))
  {
    hide Emit, Stub, LoadThrough, ShortBranch, TargetOf, WithRegister, KindOf, Lo, Hi;
    var u := Steps(sem, code, t, m);
    if u.pc == Image(win, s.pc) {
      n := m;
    } else {
      n := m + 2;
      WayBack(sem, code, win, d, k, s, u);
      StepsCompose(sem, code, t, m, 2);
      SimulatesEqual(win, d, s, s, Steps(sem, code, u, 2), Steps(sem, code, t, n));
    }
  }

  lemma WayBack<R(!new)>(sem: Sem<R>, code: Code, win: Window, d: Slack<R>, k: nat, s: Cpu<R>, u: Cpu<R>)
    requires Valid(win) && k < |win.words| && IsA64(sem) && Holds(code, win.relo, Relocated(win))
    requires Landed(win, d, k, s, u) && u.pc != Image(win, s.pc)
    ensures Simulates(win, d, s, Steps(sem, code, u, 2))
  {
    hide Relocated, Holds, WordsBefore, Steps;
    if k + 1 < |win.words| {
      BlockReached(win, k + 1);
      assert false;
    }
    FallsBack(sem, code, win, u);
    SameButAfterPut(d.regs, s.x, u.x, 17, s.pc);
    assert !InWindow(win, s.pc);
  }

  // ---------------------------------------------------------------------- calls

  predicate IsCall(win: Window, k: nat)
    requires k < |win.words|
  {
    KindOf(win.words[k]) == KBL || Decode(win.words[k]).Blr?
  }

  // A call by register uses none of the registers that may differ and does not lead into the window.
  predicate CallTarget<R>(win: Window, d: Slack<R>, k: nat, s: Cpu<R>)
    requires k < |win.words|
  {
    match Decode(win.words[k])
    case Blr(rn) => rn !in d.regs && !InWindow(win, Get(s.x, rn))
    case _ => true
  }

  // Where the block of a call makes the callee return to.
  function LinkOf(win: Window, k: nat): Addr
    requires Valid(win) && k < |win.words|
  {
    BlockAt(win, k) + if KindOf(win.words[k]) == KBL then 28 else 4
  }

  // The state w of the relocated run, after a callee entered in state u has returned,
  // stands for the state v in which the original callee returned.
  ghost predicate BackIn<R>(d: Slack<R>, v: Cpu<R>, u: Cpu<R>, w: Cpu<R>) {
    w.pc == Get(u.x, 30) && w.flags == v.flags && d.same(v.rest, w.rest) && SameBut(d.regs, v.x, w.x)
  }

  ghost predicate ReturnsFrom<R>(sem: Sem<R>, code: Code, d: Slack<R>, v: Cpu<R>, u: Cpu<R>) {
    exists c: nat {:trigger Steps(sem, code, u, c)} :: BackIn(d, v, u, Steps(sem, code, u, c))
  }

  // The code called from state s returns after c steps, and it does so in the relocated
  // run too: it looks at X17 and at its return address only to return there.
  ghost predicate Returns<R(!new)>(sem: Sem<R>, original: Code, code: Code, win: Window, d: Slack<R>, s: Cpu<R>, c: nat)
    requires Valid(win)
  {
    && Steps(sem, original, s, c).pc == Get(s.x, 30)
    && forall u: Cpu<R> {:trigger ReturnsFrom(sem, code, d, Steps(sem, original, s, c), u)} ::
         Simulates(win, d, s, u) ==> ReturnsFrom(sem, code, d, Steps(sem, original, s, c), u)
  }

  ghost predicate Enters<R>(sem: Sem<R>, original: Code, win: Window, d: Slack<R>, k: nat, s: Cpu<R>, t: Cpu<R>)
    requires Valid(win) && k < |win.words|
  {
    var w := win.words[k];
    var u := AfterBlock(sem, KindOf(w), w, Referred(win, k), BlockAt(win, k), t);
    && Simulates(win, Linked(d), Step(sem, original, s), u)
    && Get(u.x, 30) == LinkOf(win, k) && Get(Step(sem, original, s).x, 30) == AddressOf(win, k + 1)
  }

  // The block of a call enters the callee with the link in X30.
  lemma CallEnters<R(!new)>(sem: Sem<R>, original: Code, win: Window, d: Slack<R>, k: nat, s: Cpu<R>, t: Cpu<R>)
    requires Valid(win) && k < |win.words| && IsA64(sem) && s.pc == AddressOf(win, k) && original(s.pc) == win.words[k]
    requires Simulates(win, d, s, t) && IsCall(win, k) && CallTarget(win, d, k, s)
    ensures KindOf(win.words[k]) == KBL || KindOf(win.words[k]) == KIGNORE
    ensures Enters(sem, original, win, d, k, s, t)
  {
    hide Enters, Simulates, Decode, KindOf, Valid;
    CallKinds(win.words[k]);
    if KindOf(win.words[k]) == KBL {
      BranchEnters(sem, original, win, d, k, s, t);
    } else {
      RegisterEnters(sem, original, win, d, k, s, t);
    }
  }

  lemma CallKinds(w: Word)
    ensures Decode(w).Blr? ==> KindOf(w) == KIGNORE
  {
    OtherKindsDecode(w);
    hide Decode, KindOf;
  }

  lemma BranchEnters<R(!new)>(sem: Sem<R>, original: Code, win: Window, d: Slack<R>, k: nat, s: Cpu<R>, t: Cpu<R>)
    requires Valid(win) && k < |win.words| && IsA64(sem) && s.pc == AddressOf(win, k) && original(s.pc) == win.words[k]
    requires Simulates(win, d, s, t) && KindOf(win.words[k]) == KBL
    ensures Enters(sem, original, win, d, k, s, t)
  {
    hide Decode, Image, Referred, SameBut, Put, Get;
    var w := win.words[k];
    assert DecodesAs(sem, w);
    KindIsDecoding(w);
    ReferredIsImage(win, k);
    LinkedSame(d.regs, s.x, t.x, Referred(win, k), AddressOf(win, k + 1), LinkOf(win, k));
  }

  lemma RegisterEnters<R(!new)>(sem: Sem<R>, original: Code, win: Window, d: Slack<R>, k: nat, s: Cpu<R>, t: Cpu<R>)
    requires Valid(win) && k < |win.words| && IsA64(sem) && s.pc == AddressOf(win, k) && original(s.pc) == win.words[k]
    requires Simulates(win, d, s, t) && KindOf(win.words[k]) == KIGNORE && Decode(win.words[k]).Blr? && CallTarget(win, d, k, s)
    ensures Enters(sem, original, win, d, k, s, t)
  {
    hide Decode, Referred, Put, Get;
    var w := win.words[k];
    assert DecodesAs(sem, w);
    var Blr(rn) := Decode(w);
    assert Get(s.x, rn) == Get(t.x, rn);
    LinkedSame(d.regs, s.x, t.x, 0, AddressOf(win, k + 1), LinkOf(win, k));
  }

  lemma LinkedSame(d: set<Reg>, x: Regs, y: Regs, a: Addr, l: Addr, m: Addr)
    requires 17 in d && SameBut(d, x, y)
    ensures SameBut(d + {30}, Put(x, 30, l), Put(y, 30, m)) && SameBut(d + {30}, Put(x, 30, l), Put(Put(y, 17, a), 30, m))
    ensures Get(Put(x, 30, l), 30) == l && Get(Put(y, 30, m), 30) == m && Get(Put(Put(y, 17, a), 30, m), 30) == m
  {
    forall q: Reg {:trigger Get(Put(y, 30, m), q)} | q !in d + {30} ensures Get(Put(x, 30, l), q) == Get(Put(y, 30, m), q) {
      assert Get(x, q) == Get(y, q);
    }
    forall q: Reg {:trigger Get(Put(Put(y, 17, a), 30, m), q)} | q !in d + {30}
      ensures Get(Put(x, 30, l), q) == Get(Put(Put(y, 17, a), 30, m), q)
    {
      assert Get(x, q) == Get(y, q);
    }
  }

  // A call with its return is matched by the block, the callee and the next NOP.
  lemma CallFollowed<R(!new)>(sem: Sem<R>, original: Code, code: Code, win: Window, d: Slack<R>, k: nat,
      s: Cpu<R>, t: Cpu<R>, c: nat) returns (n: nat)
    requires Valid(win) && k < |win.words| && IsA64(sem) && s.pc == AddressOf(win, k) && original(s.pc) == win.words[k]
    requires Holds(code, win.relo, Relocated(win))
    requires Simulates(win, d, s, t) && IsCall(win, k) && CallTarget(win, d, k, s)
    requires Returns(sem, original, code, win, Linked(d), Step(sem, original, s), c)
    ensures n > 0 && Simulates(win, Linked(d), Steps(sem, original, Step(sem, original, s), c), Steps(sem, code, t, n))
  {
    var w := win.words[k];
    CallEnters(sem, original, win, d, k, s, t);
    BlockReached(win, k);
    BlockHeld(code, win, k);
    CallIsNoLiteral(w);
    hide *;
    BlockOfRuns(sem, code, win, k, t);
    var m := BlockSteps(sem, KindOf(w), w, t);
    var v := Steps(sem, original, Step(sem, original, s), c);
    n := ReturnFollowed(sem, original, code, win, Linked(d), k, Step(sem, original, s), v, t, m, c);
  }

  lemma CallIsNoLiteral(w: Word)
    ensures KindOf(w) == KBL || KindOf(w) == KIGNORE ==> !IsLiteral(KindOf(w))
  {
  }

  lemma ReturnFollowed<R(!new)>(sem: Sem<R>, original: Code, code: Code, win: Window, d: Slack<R>, k: nat,
      s: Cpu<R>, v: Cpu<R>, t: Cpu<R>, m: nat, c: nat) returns (n: nat)
    requires Valid(win) && k < |win.words| && IsA64(sem) && Holds(code, win.relo, Relocated(win))
    requires KindOf(win.words[k]) == KBL || KindOf(win.words[k]) == KIGNORE
    requires Simulates(win, d, s, Steps(sem, code, t, m)) && v == Steps(sem, original, s, c)
    requires Get(Steps(sem, code, t, m).x, 30) == LinkOf(win, k) && Get(s.x, 30) == AddressOf(win, k + 1)
    requires Returns(sem, original, code, win, d, s, c)
    ensures n > 0 && Simulates(win, d, v, Steps(sem, code, t, n))
  {
    hide Holds, Relocated, AddressOf, Step;
    var u := Steps(sem, code, t, m);
    var r: nat := ReturnSteps(sem, original, code, win, d, s, u, c);
    var w := Steps(sem, code, u, r);
    LinkContinues(sem, code, win, k, w);
    ThreeParts(sem, code, t, m, r);
    n := Completed(sem, code, win, d, k, v, t, m + r + 1);
  }

  lemma ReturnSteps<R(!new)>(sem: Sem<R>, original: Code, code: Code, win: Window, d: Slack<R>, s: Cpu<R>, u: Cpu<R>, c: nat)
    returns (r: nat)
    requires Valid(win) && Returns(sem, original, code, win, d, s, c) && Simulates(win, d, s, u)
    ensures BackIn(d, Steps(sem, original, s, c), u, Steps(sem, code, u, r))
  {
    assert ReturnsFrom(sem, code, d, Steps(sem, original, s, c), u);
    r :| BackIn(d, Steps(sem, original, s, c), u, Steps(sem, code, u, r));
  }

  lemma ThreeParts<R>(sem: Sem<R>, code: Code, t: Cpu<R>, m: nat, r: nat)
    ensures Steps(sem, code, t, m + r + 1) == Step(sem, code, Steps(sem, code, Steps(sem, code, t, m), r))
  {
    hide Step;
    StepsCompose(sem, code, t, m, r);
    StepsCompose(sem, code, t, m + r, 1);
    assert Steps(sem, code, Steps(sem, code, t, m + r), 1) == Steps(sem, code, Step(sem, code, Steps(sem, code, t, m + r)), 0);
  }

  // ----------------------------------------------------------------------- runs

  // A run through the window: single instructions, and calls that return after so
  // many steps of the callee.
  datatype Move = One | Called(steps: nat)

  function Length(moves: seq<Move>): nat {
    if moves == [] then 0
    else Length(moves[1..]) + match moves[0] case One => 1 case Called(c) => c + 1
  }

  // What may differ after the moves.
  function Differing<R>(d: Slack<R>, moves: seq<Move>): Slack<R>
    decreases |moves|
  {
    if moves == [] then d
    else match moves[0] case One => Differing(d, moves[1..]) case Called(_) => Differing(Linked(d), moves[1..])
  }

  // The run of these moves from s stays in the window until its end, but for calls.
  ghost predicate RunFollowed<R(!new)>(sem: Sem<R>, original: Code, code: Code, win: Window, d: Slack<R>, s: Cpu<R>, moves: seq<Move>)
    requires Valid(win)
    decreases moves
  {
    moves == [] || (
      && InWindow(win, s.pc)
      && (s.pc - win.origin) % 4 == 0
      && MoveFollowed(sem, original, code, win, d, s, moves[0])
      && RunFollowed(sem, original, code, win, Differing(d, moves[..1]), Steps(sem, original, s, Length(moves[..1])), moves[1..]))
  }

  ghost predicate MoveFollowed<R(!new)>(sem: Sem<R>, original: Code, code: Code, win: Window, d: Slack<R>, s: Cpu<R>, move: Move)
    requires Valid(win) && InWindow(win, s.pc) && (s.pc - win.origin) % 4 == 0
  {
    var k := (s.pc - win.origin) / 4;
    match move
    case One => Followed(sem, win, d, k, s)
    case Called(c) =>
      IsCall(win, k) && CallTarget(win, d, k, s) && Returns(sem, original, code, win, Linked(d), Step(sem, original, s), c)
  }

  lemma OneMove<R>(d: Slack<R>, moves: seq<Move>)
    requires moves != []
    ensures Differing(d, moves[..1]) == match moves[0] case One => d case Called(_) => Linked(d)
    ensures Length(moves[..1]) == match moves[0] case One => 1 case Called(c) => c + 1
    ensures Differing(d, moves) == Differing(Differing(d, moves[..1]), moves[1..])
    ensures Length(moves) == Length(moves[..1]) + Length(moves[1..])
  {
    assert moves[..1][1..] == [] && moves[..1][0] == moves[0];
  }

  lemma FirstMoveFollowed<R(!new)>(sem: Sem<R>, original: Code, code: Code, win: Window, d: Slack<R>, s: Cpu<R>, t: Cpu<R>,
      moves: seq<Move>) returns (n: nat)
    requires Valid(win) && IsA64(sem) && HoldsWindow(original, win) && Holds(code, win.relo, Relocated(win))
    requires Simulates(win, d, s, t) && moves != [] && RunFollowed(sem, original, code, win, d, s, moves)
    ensures n > 0 && Simulates(win, Differing(d, moves[..1]), Steps(sem, original, s, Length(moves[..1])), Steps(sem, code, t, n))
  {
    hide Simulates, Holds, Relocated, Followed, Returns, CallTarget, IsCall, Step, Differing, Length, Valid, IsA64;
    var k := FirstMove(sem, original, code, win, d, s, moves);
    OneMove(d, moves);
    match moves[0] {
      case One =>
        n := StepFollowed(sem, original, code, win, d, k, s, t);
      case Called(c) =>
        n := CallFollowed(sem, original, code, win, d, k, s, t, c);
    }
  }

  lemma FirstMove<R(!new)>(sem: Sem<R>, original: Code, code: Code, win: Window, d: Slack<R>, s: Cpu<R>, moves: seq<Move>)
    returns (k: nat)
    requires Valid(win) && HoldsWindow(original, win) && moves != [] && RunFollowed(sem, original, code, win, d, s, moves)
    ensures k < |win.words| && s.pc == AddressOf(win, k) && original(s.pc) == win.words[k]
    ensures match moves[0]
            case One => Followed(sem, win, d, k, s)
            case Called(c) =>
              IsCall(win, k) && CallTarget(win, d, k, s) && Returns(sem, original, code, win, Linked(d), Step(sem, original, s), c)
  {
    hide Followed, Returns, CallTarget, IsCall, Step, Differing, Length;
    k := (s.pc - win.origin) / 4;
    assert s.pc == AddressOf(win, k);
  }

  // Every run through the window, of any length, with any loops inside it and any
  // calls that return, is simulated by the relocated code.
  lemma {:induction false} RunSimulated<R(!new)>(sem: Sem<R>, original: Code, code: Code, win: Window,
      d: Slack<R>, s: Cpu<R>, t: Cpu<R>, moves: seq<Move>)
    returns (n: nat)
    requires Valid(win) && IsA64(sem) && HoldsWindow(original, win) && Holds(code, win.relo, Relocated(win))
    requires Simulates(win, d, s, t) && RunFollowed(sem, original, code, win, d, s, moves)
    ensures n >= |moves|
    ensures Simulates(win, Differing(d, moves), Steps(sem, original, s, Length(moves)), Steps(sem, code, t, n))
    decreases |moves|
  {
    hide *;
    n := 0;
    if moves == [] {
      NoMoves(sem, original, code, win, d, s, t);
    } else {
      RestFollowed(sem, original, code, win, d, s, moves);
      OneMove(d, moves);
      var n0 := FirstMoveFollowed(sem, original, code, win, d, s, t, moves);
      var mid := Steps(sem, original, s, Length(moves[..1]));
      var n1 := RunSimulated(sem, original, code, win, Differing(d, moves[..1]), mid, Steps(sem, code, t, n0), moves[1..]);
      n := n0 + n1;
      StepsCompose(sem, original, s, Length(moves[..1]), Length(moves[1..]));
      StepsCompose(sem, code, t, n0, n1);
    }
  }

  lemma RestFollowed<R(!new)>(sem: Sem<R>, original: Code, code: Code, win: Window, d: Slack<R>, s: Cpu<R>, moves: seq<Move>)
    requires Valid(win) && moves != [] && RunFollowed(sem, original, code, win, d, s, moves)
    ensures RunFollowed(sem, original, code, win, Differing(d, moves[..1]), Steps(sem, original, s, Length(moves[..1])), moves[1..])
  {
    hide Valid, InWindow, MoveFollowed, Steps, Differing, Length;
  }

  lemma NoMoves<R>(sem: Sem<R>, original: Code, code: Code, win: Window, d: Slack<R>, s: Cpu<R>, t: Cpu<R>)
    requires Valid(win) && Simulates(win, d, s, t)
    ensures Simulates(win, Differing(d, []), Steps(sem, original, s, Length([])), Steps(sem, code, t, 0))
  {
    hide Valid, Simulates, Step;
  }

  // Calling the relocated code in place of the function: any run of the function
  // that leaves the window is matched by a run from relo, up to X17, the relation
  // chosen and, after a call, the stale return address.
  lemma OriginIsCallable<R(!new)>(sem: Sem<R>, original: Code, code: Code, win: Window, same: (R, R) -> bool,
      s: Cpu<R>, moves: seq<Move>) returns (n: nat)
    requires Valid(win) && IsA64(sem) && HoldsWindow(original, win) && Holds(code, win.relo, Relocated(win))
    requires s.pc == win.origin && same(s.rest, s.rest) && RunFollowed(sem, original, code, win, Slack({17}, same), s, moves)
    ensures Simulates(win, Differing(Slack({17}, same), moves), Steps(sem, original, s, Length(moves)),
                      Steps(sem, code, s.(pc := win.relo), n))
    ensures !InWindow(win, Steps(sem, original, s, Length(moves)).pc) ==>
      Steps(sem, code, s.(pc := win.relo), n).pc == Steps(sem, original, s, Length(moves)).pc
  {
    BlockReached(win, 0);
    StartSimulates(win, same, s);
    n := RunSimulated(sem, original, code, win, Slack({17}, same), s, s.(pc := win.relo), moves);
  }

  lemma StartSimulates<R>(win: Window, same: (R, R) -> bool, s: Cpu<R>)
    requires Valid(win) && s.pc == win.origin && same(s.rest, s.rest)
    ensures Simulates(win, Slack({17}, same), s, s.(pc := win.relo))
  {
    BlockReached(win, 0);
  }

  lemma SimulatesEqual<R>(win: Window, d: Slack<R>, s: Cpu<R>, s': Cpu<R>, t: Cpu<R>, t': Cpu<R>)
    requires Valid(win) && Simulates(win, d, s, t) && s == s' && t == t'
    ensures Simulates(win, d, s', t')
  {
  }
}
