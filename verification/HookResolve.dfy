// branch_func_addr: following branches and landing pads from a function's
// address to the address that gets hooked, and why hooking does not disturb it.
module HookResolve {
  import opened A64
  import opened Relocation
  import opened Hook
  import opened HookWindow
  import opened HookChain

  // One slot of the hook memory; buffer are its relocated words.
  datatype HookSlot = HookSlot(
    inUse: bool,
    addr: Addr,
    func: Addr,
    replace: Addr,
    win: Window,
    buffer: seq<Word>,
    chain: Items,
    max: nat)

  const FREE_SLOT := HookSlot(false, 0, 0, 0, Window(0, 0, []), [], [], 0)

  // hook_get_mem_from_origin finds a slot.
  predicate Hooked(slots: seq<HookSlot>, addr: Addr) {
    exists i :: 0 <= i < |slots| && slots[i].inUse && slots[i].addr == addr
  }

  // branch_func_addr_once
  function Once(mem: Code, slots: seq<HookSlot>, addr: Addr): Addr {
    var inst := mem(addr);
    if KindOf(inst) == KB then TargetOf(KB, addr, inst)
    else if inst == BTI_C || inst == BTI_J || (inst == BTI_JC && !Hooked(slots, addr)) then Plus(addr, 4)
    else addr
  }

  function Resolve(mem: Code, slots: seq<HookSlot>, addr: Addr, n: nat): Addr
    decreases n
  {
    if n == 0 then addr else Resolve(mem, slots, Once(mem, slots, addr), n - 1)
  }

  // The addresses looked at, in order.
  lemma {:induction false} ResolveSteps(mem: Code, slots: seq<HookSlot>, addr: Addr, n: nat)
    ensures Resolve(mem, slots, addr, n + 1) == Once(mem, slots, Resolve(mem, slots, addr, n))
    decreases n
  {
    if n > 0 {
      ResolveSteps(mem, slots, Once(mem, slots, addr), n - 1);
    }
  }

  // A trampoline is never followed: its first word is a load, or a landing pad
  // whose address is hooked.
  lemma TrampolineIsFinal(mem: Code, slots: seq<HookSlot>, addr: Addr, first: Word, replace: Addr)
    requires mem(addr) == Trampoline(first, replace)[0] && Hooked(slots, addr)
    ensures Once(mem, slots, addr) == addr
  {
    assert KindOf(0x5800_0051) == KLDR64 && KindOf(BTI_JC) == KIGNORE;
  }

  // ------------------------------------------------------------------- assumptions

  // Functions that may be hooked, with the length of their resolution.
  type Functions = map<Addr, nat>

  function Origin(base: Code, funcs: Functions, f: Addr): Addr
    requires f in funcs
  {
    Resolve(base, [], f, funcs[f])
  }

  // Resolution ends, and the window at its end can be moved.
  ghost predicate Hookable(base: Code, funcs: Functions, f: Addr)
    requires f in funcs
  {
    var o := Origin(base, funcs, f);
    && Once(base, [], o) == o
    && o + 24 < 0x1_0000_0000_0000_0000
    && WordsBefore(WordsAt(base, o, WindowSize(base(o))), WindowSize(base(o))) <= 32
  }

  // addr lies in the window at origin o.
  predicate Covered(base: Code, o: Addr, addr: Addr) {
    o <= addr < o + 4 * WindowSize(base(o))
  }

  // The resolution of f meets the window of g at its first word only, and their
  // windows are the same or apart.
  ghost predicate Apart(base: Code, funcs: Functions, f: Addr, g: Addr)
    requires f in funcs && g in funcs
  {
    var p, q := Origin(base, funcs, f), Origin(base, funcs, g);
    && (p == q || p + 4 * WindowSize(base(p)) <= q || q + 4 * WindowSize(base(q)) <= p)
    && forall j: nat {:trigger Resolve(base, [], f, j)} :: j <= funcs[f] ==>
         Resolve(base, [], f, j) == q || !Covered(base, q, Resolve(base, [], f, j))
  }

  ghost predicate World(base: Code, funcs: Functions) {
    && (forall f {:trigger Hookable(base, funcs, f)} :: f in funcs ==> Hookable(base, funcs, f))
    && (forall f, g {:trigger Apart(base, funcs, f, g)} :: f in funcs && g in funcs ==> Apart(base, funcs, f, g))
  }

  // --------------------------------------------------------------------- invariant

  function TrampOf(s: HookSlot): seq<Word>
    requires |s.win.words| > 0
  {
    Trampoline(s.win.words[0], s.replace)
  }

  ghost predicate SlotOk(base: Code, funcs: Functions, s: HookSlot) {
    && s.func in funcs
    && s.addr == Origin(base, funcs, s.func)
    && s.addr + 24 < TWO64 && s.win.relo + 400 < TWO64
    && s.win == WindowOf(base, s.addr, s.win.relo)
    && |Relocated(s.win)| <= RELOCATE_MAX && s.buffer == Filled(Relocated(s.win))
    && |s.chain| == 16 && Settled(s.chain, s.max)
  }

  // The window and the trampoline of a slot in use.
  lemma SlotShape(base: Code, funcs: Functions, s: HookSlot)
    requires SlotOk(base, funcs, s)
    ensures s.func in funcs && s.addr == Origin(base, funcs, s.func) && s.addr + 24 < TWO64
    ensures 0 < |s.win.words| == WindowSize(base(s.addr)) <= 5 && s.win.words[0] == base(s.addr) && s.win.origin == s.addr
    ensures |TrampOf(s)| == |Trampoline(s.win.words[0], 0)| == |s.win.words|
  {
  }

  // The windows of two hooked origins do not meet.
  lemma WindowsApart(base: Code, funcs: Functions, s: HookSlot, t: HookSlot)
    requires World(base, funcs) && SlotOk(base, funcs, s) && SlotOk(base, funcs, t) && s.addr != t.addr
    ensures s.addr + 4 * |s.win.words| <= t.addr || t.addr + 4 * |t.win.words| <= s.addr
  {
    SlotShape(base, funcs, s);
    SlotShape(base, funcs, t);
    assert Apart(base, funcs, s.func, t.func);
  }

  // Word k of the window of a slot.
  function CellOf(s: HookSlot, k: nat): Addr {
    (s.addr + 4 * k) % 0x1_0000_0000_0000_0000
  }

  // The code in memory is the original code, except that every hooked origin
  // holds its trampoline.
  ghost predicate Consistent(base: Code, funcs: Functions, slots: seq<HookSlot>, mem: Code) {
    && (forall i {:trigger SlotOk(base, funcs, slots[i])} :: 0 <= i < |slots| && slots[i].inUse ==>
          SlotOk(base, funcs, slots[i]))
    && (forall i, j {:trigger slots[i], slots[j]} :: 0 <= i < j < |slots| && slots[i].inUse && slots[j].inUse ==>
          slots[i].addr != slots[j].addr)
    && (forall i, k: nat {:trigger CellOf(slots[i], k)} ::
          0 <= i < |slots| && slots[i].inUse && k < |slots[i].win.words| && k < |Trampoline(slots[i].win.words[0], 0)| ==>
          mem(CellOf(slots[i], k)) == TrampOf(slots[i])[k])
    && (forall a: Addr {:trigger mem(a)} :: Untouched(base, slots, a) ==> mem(a) == base(a))
  }

  lemma UseSlot(base: Code, funcs: Functions, slots: seq<HookSlot>, mem: Code, j: nat)
    requires Consistent(base, funcs, slots, mem) && j < |slots| && slots[j].inUse
    ensures SlotOk(base, funcs, slots[j])
  {
  }

  // What memory holds in the window of a slot in use.
  lemma UseCell(base: Code, funcs: Functions, slots: seq<HookSlot>, mem: Code, j: nat, k: nat)
    requires Consistent(base, funcs, slots, mem) && j < |slots| && slots[j].inUse && k < |slots[j].win.words|
    ensures CellOf(slots[j], k) == slots[j].addr + 4 * k < TWO64
    ensures |TrampOf(slots[j])| == |slots[j].win.words| && mem(slots[j].addr + 4 * k) == TrampOf(slots[j])[k]
  {
    UseSlot(base, funcs, slots, mem, j);
    SlotShape(base, funcs, slots[j]);
    hide SlotOk, WindowOf, WindowSize, Origin, Trampoline;
    assert CellOf(slots[j], k) == slots[j].addr + 4 * k;
  }

  lemma DistinctOrigins(base: Code, funcs: Functions, slots: seq<HookSlot>, mem: Code, i: nat, j: nat)
    requires Consistent(base, funcs, slots, mem) && i < |slots| && j < |slots| && i != j && slots[i].inUse && slots[j].inUse
    ensures slots[i].addr != slots[j].addr
  {
  }

  // addr is one of the words of the window at origin o.
  predicate WordOf(base: Code, o: Addr, addr: Addr) {
    Covered(base, o, addr) && (addr - o) % 4 == 0
  }

  // No slot in use has a in its window.
  ghost predicate Untouched(base: Code, slots: seq<HookSlot>, a: Addr) {
    forall i {:trigger slots[i]} :: 0 <= i < |slots| && slots[i].inUse ==> !WordOf(base, slots[i].addr, a)
  }

  // In every reachable state resolution gives what it gave on the original code.
  lemma {:induction false} ResolutionUnchanged(base: Code, funcs: Functions, slots: seq<HookSlot>, mem: Code, f: Addr, n: nat)
    requires World(base, funcs) && Consistent(base, funcs, slots, mem) && f in funcs && n <= funcs[f]
    ensures Resolve(mem, slots, f, n) == Resolve(base, [], f, n)
    decreases n
  {
    if n > 0 {
      ResolutionUnchanged(base, funcs, slots, mem, f, n - 1);
      ResolveSteps(mem, slots, f, n - 1);
      ResolveSteps(base, [], f, n - 1);
      OnceUnchanged(base, funcs, slots, mem, f, n - 1);
    }
  }

  lemma OnceUnchanged(base: Code, funcs: Functions, slots: seq<HookSlot>, mem: Code, f: Addr, j: nat)
    requires World(base, funcs) && Consistent(base, funcs, slots, mem) && f in funcs && j <= funcs[f]
    ensures Once(mem, slots, Resolve(base, [], f, j)) == Once(base, [], Resolve(base, [], f, j))
  {
    var a := Resolve(base, [], f, j);
    if i :| 0 <= i < |slots| && slots[i].inUse && slots[i].addr == a {
      HookedIsFinal(base, funcs, slots, mem, i);
    } else {
      assert !Hooked(slots, a) && !Hooked([], a);
      assert Untouched(base, slots, a) by {
        forall i {:trigger slots[i]} | 0 <= i < |slots| && slots[i].inUse ensures !WordOf(base, slots[i].addr, a) {
          assert SlotOk(base, funcs, slots[i]);
          assert Apart(base, funcs, f, slots[i].func);
        }
      }
      assert mem(a) == base(a);
    }
  }

  lemma HookedIsFinal(base: Code, funcs: Functions, slots: seq<HookSlot>, mem: Code, i: nat)
    requires World(base, funcs) && Consistent(base, funcs, slots, mem) && i < |slots| && slots[i].inUse
    ensures Once(mem, slots, slots[i].addr) == slots[i].addr == Once(base, [], slots[i].addr)
  {
    hide Once, Emission, Blocks;
    var s := slots[i];
    assert SlotOk(base, funcs, s);
    assert Hookable(base, funcs, s.func);
    assert CellOf(s, 0) == s.addr;
    assert |s.win.words| > 0;
    assert mem(CellOf(slots[i], 0)) == TrampOf(s)[0];
    TrampolineIsFinal(mem, slots, s.addr, s.win.words[0], s.replace);
  }

  // --------------------------------------------------------------- relocated code

  // The relocation buffers of different slots are apart, and so are they from
  // every window.
  ghost predicate BuffersApart(base: Code, funcs: Functions, relo: nat -> Addr) {
    && (forall i: nat, j: nat {:trigger relo(i), relo(j)} :: i != j ==> relo(i) + 144 <= relo(j) || relo(j) + 144 <= relo(i))
    && (forall f, i: nat {:trigger Origin(base, funcs, f), relo(i)} :: f in funcs ==>
          Origin(base, funcs, f) + 24 <= relo(i) || relo(i) + 144 <= Origin(base, funcs, f))
  }

  // A slot in use relocates to its own buffer.
  ghost predicate Placed(slots: seq<HookSlot>, relo: nat -> Addr) {
    forall i: nat {:trigger slots[i]} :: i < |slots| && slots[i].inUse ==> slots[i].win.relo == relo(i)
  }

  // The trampoline of a slot in use jumps to the slot's own transit code.
  ghost predicate Targeted(slots: seq<HookSlot>, transit: nat -> Addr) {
    forall i: nat {:trigger slots[i]} :: i < |slots| && slots[i].inUse ==> slots[i].replace == transit(i)
  }

  predicate InBuffer(s: HookSlot, a: Addr) {
    s.inUse && s.win.relo <= a < s.win.relo + 4 * |s.buffer| && (a - s.win.relo) % 4 == 0
  }

  // The slot whose buffer has an address, or -1.
  ghost function Holder(slots: seq<HookSlot>, a: Addr): (i: int)
    ensures i == -1 || (0 <= i < |slots| && InBuffer(slots[i], a))
    ensures i == -1 ==> forall j :: 0 <= j < |slots| ==> !InBuffer(slots[j], a)
  {
    if exists i :: 0 <= i < |slots| && InBuffer(slots[i], a) then
      var i :| 0 <= i < |slots| && InBuffer(slots[i], a);
      i
    else -1
  }

  // What the processor fetches: the code, and the relocated words of the slots in use.
  ghost function Fetched(slots: seq<HookSlot>, mem: Code): Code {
    (a: Addr) =>
      var i := Holder(slots, a);
      if i < 0 then mem(a) else slots[i].buffer[(a - slots[i].win.relo) / 4]
  }

  lemma BufferLength(base: Code, funcs: Functions, s: HookSlot)
    requires SlotOk(base, funcs, s)
    ensures HookWindow.Valid(s.win) && |Relocated(s.win)| <= |s.buffer| == 36
    ensures s.buffer[..|Relocated(s.win)|] == Relocated(s.win)
  {
  }

  // An address is in the buffer of one slot only.
  lemma SoleBuffer(base: Code, funcs: Functions, slots: seq<HookSlot>, mem: Code, relo: nat -> Addr, i: nat, j: nat, a: Addr)
    requires Consistent(base, funcs, slots, mem) && Placed(slots, relo) && BuffersApart(base, funcs, relo)
    requires i < |slots| && j < |slots| && InBuffer(slots[i], a) && InBuffer(slots[j], a)
    ensures i == j
  {
    assert SlotOk(base, funcs, slots[i]) && SlotOk(base, funcs, slots[j]);
    BufferLength(base, funcs, slots[i]);
    BufferLength(base, funcs, slots[j]);
    assert slots[i].win.relo == relo(i) && slots[j].win.relo == relo(j);
  }

  lemma FetchedAt(slots: seq<HookSlot>, mem: Code, i: nat, a: Addr, k: nat)
    requires i < |slots| && InBuffer(slots[i], a) && a == slots[i].win.relo + 4 * k
    requires forall j: nat :: j < |slots| && InBuffer(slots[j], a) ==> j == i
    ensures k < |slots[i].buffer| && Fetched(slots, mem)(a) == slots[i].buffer[k]
  {
    assert 0 <= i < |slots| && InBuffer(slots[i], a);
    assert Holder(slots, a) == i;
    assert (a - slots[i].win.relo) / 4 == k;
  }

  // The relocated words of a slot in use are fetched from its buffer.
  lemma RelocatedFetched(base: Code, funcs: Functions, slots: seq<HookSlot>, mem: Code, relo: nat -> Addr, i: nat, k: nat)
    requires Consistent(base, funcs, slots, mem) && Placed(slots, relo) && BuffersApart(base, funcs, relo)
    requires i < |slots| && slots[i].inUse && k < |slots[i].buffer|
    ensures slots[i].win.relo + 4 * k < TWO64
    ensures Fetched(slots, mem)(slots[i].win.relo + 4 * k) == slots[i].buffer[k]
  {
    hide CompareValue, CondHolds, Get, Plus, TestedBit, Relocated, Blocks, Flat;
    assert SlotOk(base, funcs, slots[i]);
    BufferLength(base, funcs, slots[i]);
    assert slots[i].win.relo + 400 < TWO64;
    var a := slots[i].win.relo + 4 * k;
    assert InBuffer(slots[i], a);
    hide *;
    forall j: nat | j < |slots| && InBuffer(slots[j], a) ensures j == i {
      SoleBuffer(base, funcs, slots, mem, relo, i, j, a);
    }
    FetchedAt(slots, mem, i, a, k);
  }

  // Windows are fetched from the code.
  lemma WindowFetched(base: Code, funcs: Functions, slots: seq<HookSlot>, mem: Code, relo: nat -> Addr, f: Addr, a: Addr)
    requires Consistent(base, funcs, slots, mem) && Placed(slots, relo) && BuffersApart(base, funcs, relo)
    requires f in funcs && Origin(base, funcs, f) <= a < Origin(base, funcs, f) + 24
    ensures Fetched(slots, mem)(a) == mem(a)
  {
    forall i: nat | i < |slots| ensures !InBuffer(slots[i], a) {
      if slots[i].inUse {
        assert SlotOk(base, funcs, slots[i]);
        BufferLength(base, funcs, slots[i]);
        assert slots[i].win.relo == relo(i);
      }
    }
  }
}
