// The life of inline hooks: hook_wrap and hook_unwrap_remove over the slot pool
// of hook_mem, for one piece of code in memory.
module HookEngine {
  import opened A64
  import opened Relocation
  import opened Hook
  import opened HookWindow
  import opened HookChain
  import opened HookPool
  import opened HookResolve

  function PutWord(mem: Code, a: Addr, w: Word): Code {
    x => if x == a then w else mem(x)
  }

  // mem with the n words ws written from origin on.
  ghost predicate Written(before: Code, after: Code, o: Addr, ws: seq<Word>)
    requires o + 4 * |ws| < 0x1_0000_0000_0000_0000
  {
    && (forall k: nat {:trigger ws[k]} :: k < |ws| ==> after(o + 4 * k) == ws[k])
    && (forall a: Addr {:trigger after(a)} :: !(o <= a < o + 4 * |ws| && (a - o) % 4 == 0) ==> after(a) == before(a))
  }

  // ----------------------------------------------------------- steps on the state

  // Slots that are not in use may change freely.
  lemma IdleSlotChanges(base: Code, funcs: Functions, slots: seq<HookSlot>, mem: Code, i: nat, s: HookSlot)
    requires Consistent(base, funcs, slots, mem) && i < |slots| && !slots[i].inUse && !s.inUse
    ensures Consistent(base, funcs, slots[i := s], mem)
  {
    var after := slots[i := s];
    assert forall j {:trigger slots[j]} :: 0 <= j < |slots| && slots[j].inUse ==> after[j] == slots[j];
    forall a: Addr {:trigger mem(a)} | Untouched(base, after, a) ensures mem(a) == base(a) {
      assert Untouched(base, slots, a);
    }
  }

  lemma ChainChanges(base: Code, funcs: Functions, slots: seq<HookSlot>, mem: Code, i: nat, chain: Items, max: nat)
    requires Consistent(base, funcs, slots, mem) && i < |slots| && slots[i].inUse
    requires |chain| == CHAIN_NUM && Settled(chain, max)
    ensures Consistent(base, funcs, slots[i := slots[i].(chain := chain, max := max)], mem)
  {
    hide Relocated, Emission, HoldsWindow, Image, Referred, WordsBefore;
    var after := slots[i := slots[i].(chain := chain, max := max)];
    assert SlotOk(base, funcs, slots[i]);
    forall a: Addr {:trigger mem(a)} | Untouched(base, after, a) ensures mem(a) == base(a) {
      assert Untouched(base, slots, a) by {
        forall j {:trigger slots[j]} | 0 <= j < |slots| && slots[j].inUse ensures !WordOf(base, slots[j].addr, a) {
          assert after[j].addr == slots[j].addr && after[j].inUse;
        }
      }
    }
    forall j {:trigger SlotOk(base, funcs, after[j])} | 0 <= j < |after| && after[j].inUse
      ensures SlotOk(base, funcs, after[j])
    {
      assert SlotOk(base, funcs, slots[j]);
    }
    forall j, k: nat {:trigger CellOf(after[j], k)}
      | 0 <= j < |after| && after[j].inUse && k < |after[j].win.words| && k < |Trampoline(after[j].win.words[0], 0)|
      ensures mem(CellOf(after[j], k)) == TrampOf(after[j])[k]
    {
      assert CellOf(slots[j], k) == CellOf(after[j], k);
    }
  }

  lemma HookInstalled(base: Code, funcs: Functions, slots: seq<HookSlot>, mem: Code, i: nat, s: HookSlot, mem': Code)
    requires World(base, funcs) && Consistent(base, funcs, slots, mem)
    requires i < |slots| && !slots[i].inUse && s.inUse && SlotOk(base, funcs, s) && !Hooked(slots, s.addr)
    requires Written(mem, mem', s.addr, TrampOf(s))
    ensures Consistent(base, funcs, slots[i := s], mem')
  {
    var after := slots[i := s];
    forall j {:trigger SlotOk(base, funcs, after[j])} | 0 <= j < |after| && after[j].inUse
      ensures SlotOk(base, funcs, after[j])
    {
      if j != i { assert SlotOk(base, funcs, slots[j]); }
    }
    forall j, k: nat {:trigger CellOf(after[j], k)}
      | 0 <= j < |after| && after[j].inUse && k < |after[j].win.words| && k < |Trampoline(after[j].win.words[0], 0)|
      ensures mem'(CellOf(after[j], k)) == TrampOf(after[j])[k]
    {
      if j == i {
        assert CellOf(s, k) == s.addr + 4 * k;
        assert TrampOf(s)[k] == mem'(s.addr + 4 * k);
      } else {
        InstallKeepsOthers(base, funcs, slots, mem, i, s, mem', j, k);
      }
    }
    forall a: Addr {:trigger mem'(a)} | Untouched(base, after, a) ensures mem'(a) == base(a) {
      assert after[i] == s && !WordOf(base, s.addr, a);
      assert Untouched(base, slots, a) by {
        forall j {:trigger slots[j]} | 0 <= j < |slots| && slots[j].inUse ensures !WordOf(base, slots[j].addr, a) {
          assert after[j] == slots[j];
        }
      }
      assert mem(a) == base(a);
    }
  }

  lemma InstallKeepsOthers(base: Code, funcs: Functions, slots: seq<HookSlot>, mem: Code, i: nat, s: HookSlot, mem': Code,
      j: nat, k: nat)
    requires World(base, funcs) && Consistent(base, funcs, slots, mem)
    requires SlotOk(base, funcs, s) && !Hooked(slots, s.addr)
    requires s.addr + 4 * |TrampOf(s)| < 0x1_0000_0000_0000_0000 && Written(mem, mem', s.addr, TrampOf(s))
    requires j < |slots| && slots[j].inUse && k < |slots[j].win.words|
    ensures CellOf(slots[j], k) == slots[j].addr + 4 * k
    ensures |TrampOf(slots[j])| == |slots[j].win.words| && mem'(slots[j].addr + 4 * k) == TrampOf(slots[j])[k]
  {
    assert s.addr != slots[j].addr;
    SlotShape(base, funcs, s);
    hide *;
    UseSlot(base, funcs, slots, mem, j);
    UseCell(base, funcs, slots, mem, j, k);
    WindowsApart(base, funcs, s, slots[j]);
    WrittenElsewhere(mem, mem', s.addr, TrampOf(s), slots[j].addr + 4 * k);
  }

  lemma WrittenElsewhere(before: Code, after: Code, o: Addr, ws: seq<Word>, a: Addr)
    requires o + 4 * |ws| < 0x1_0000_0000_0000_0000 && Written(before, after, o, ws) && (a < o || o + 4 * |ws| <= a)
    ensures after(a) == before(a)
  {
  }

  lemma HookRemoved(base: Code, funcs: Functions, slots: seq<HookSlot>, mem: Code, i: nat, mem': Code)
    requires World(base, funcs) && Consistent(base, funcs, slots, mem)
    requires i < |slots| && slots[i].inUse
    requires slots[i].addr + 4 * |slots[i].win.words| < TWO64
    requires Written(mem, mem', slots[i].addr, slots[i].win.words)
    ensures Consistent(base, funcs, slots[i := slots[i].(inUse := false)], mem')
  {
    var s := slots[i];
    var after := slots[i := s.(inUse := false)];
    assert SlotOk(base, funcs, s);
    forall j {:trigger SlotOk(base, funcs, after[j])} | 0 <= j < |after| && after[j].inUse
      ensures SlotOk(base, funcs, after[j])
    {
      assert SlotOk(base, funcs, slots[j]);
    }
    forall j, k: nat {:trigger CellOf(after[j], k)}
      | 0 <= j < |after| && after[j].inUse && k < |after[j].win.words| && k < |Trampoline(after[j].win.words[0], 0)|
      ensures mem'(CellOf(after[j], k)) == TrampOf(after[j])[k]
    {
      RemoveKeepsOthers(base, funcs, slots, mem, i, mem', j, k);
    }
    forall a: Addr {:trigger mem'(a)} | Untouched(base, after, a) ensures mem'(a) == base(a) {
      RemovalRestores(base, funcs, slots, mem, i, mem', a);
    }
  }

  lemma RemoveKeepsOthers(base: Code, funcs: Functions, slots: seq<HookSlot>, mem: Code, i: nat, mem': Code, j: nat, k: nat)
    requires World(base, funcs) && Consistent(base, funcs, slots, mem)
    requires i < |slots| && slots[i].inUse && slots[i].addr + 4 * |slots[i].win.words| < 0x1_0000_0000_0000_0000
    requires Written(mem, mem', slots[i].addr, slots[i].win.words)
    requires j < |slots| && j != i && slots[j].inUse && k < |slots[j].win.words|
    ensures CellOf(slots[j], k) == slots[j].addr + 4 * k
    ensures |TrampOf(slots[j])| == |slots[j].win.words| && mem'(slots[j].addr + 4 * k) == TrampOf(slots[j])[k]
  {
    hide *;
    UseSlot(base, funcs, slots, mem, i);
    UseSlot(base, funcs, slots, mem, j);
    UseCell(base, funcs, slots, mem, j, k);
    DistinctOrigins(base, funcs, slots, mem, i, j);
    WindowsApart(base, funcs, slots[i], slots[j]);
    WrittenElsewhere(mem, mem', slots[i].addr, slots[i].win.words, slots[j].addr + 4 * k);
  }

  lemma RemovalRestores(base: Code, funcs: Functions, slots: seq<HookSlot>, mem: Code, i: nat, mem': Code, a: Addr)
    requires World(base, funcs) && Consistent(base, funcs, slots, mem)
    requires i < |slots| && slots[i].inUse && slots[i].addr + 4 * |slots[i].win.words| < TWO64
    requires Written(mem, mem', slots[i].addr, slots[i].win.words)
    requires Untouched(base, slots[i := slots[i].(inUse := false)], a)
    ensures mem'(a) == base(a)
  {
    hide Relocated, TargetOf, Flat;
    var s := slots[i];
    var after := slots[i := s.(inUse := false)];
    assert SlotOk(base, funcs, s);
    if WordOf(base, s.addr, a) {
      var k := (a - s.addr) / 4;
      assert s.win.words[k] == mem'(s.addr + 4 * k);
      assert AddressOf(s.win, k) == a;
    } else {
      assert Untouched(base, slots, a) by {
        forall j {:trigger slots[j]} | 0 <= j < |slots| && slots[j].inUse ensures !WordOf(base, slots[j].addr, a) {
          if j != i { assert after[j] == slots[j]; }
        }
      }
      assert mem(a) == base(a) && mem'(a) == mem(a);
    }
  }

  // ---------------------------------------------------------------- specification

  // The slot of an origin, or the number of slots.
  function Find(slots: seq<HookSlot>, o: Addr): (n: nat)
    ensures n <= |slots|
    ensures n < |slots| ==> slots[n].inUse && slots[n].addr == o
    ensures forall i :: 0 <= i < n ==> !(slots[i].inUse && slots[i].addr == o)
    ensures n < |slots| <==> Hooked(slots, o)
  {
    if slots == [] then 0
    else if slots[0].inUse && slots[0].addr == o then
      assert Hooked(slots, o);
      0
    else
      var n := Find(slots[1..], o);
      assert n < |slots| - 1 ==> slots[n + 1].inUse && slots[n + 1].addr == o;
      assert Hooked(slots, o) ==> Hooked(slots[1..], o) by {
        if i :| 0 <= i < |slots| && slots[i].inUse && slots[i].addr == o {
          assert slots[1..][i - 1] == slots[i];
        }
      }
      n + 1
  }

  function FirstFree(slots: seq<HookSlot>): (n: nat)
    ensures n <= |slots|
    ensures n < |slots| ==> !slots[n].inUse
    ensures forall i :: 0 <= i < n ==> slots[i].inUse
  {
    if slots == [] || !slots[0].inUse then 0 else 1 + FirstFree(slots[1..])
  }

  // The callbacks of a hooked origin; of any other one, none.
  function ChainAt(slots: seq<HookSlot>, o: Addr): Items {
    var n := Find(slots, o);
    if n < |slots| then slots[n].chain else seq(CHAIN_NUM, _ => NO_ITEM)
  }

  // At most the slot of origin o differs, and it is or was a slot for o.
  ghost predicate OnlyAt(before: seq<HookSlot>, after: seq<HookSlot>, o: Addr) {
    && |before| == |after|
    && forall i {:trigger after[i]} :: 0 <= i < |after| && (before[i].inUse || after[i].inUse) ==>
         before[i] == after[i] || ((before[i].inUse ==> before[i].addr == o) && (after[i].inUse ==> after[i].addr == o))
  }

  // Every other origin is hooked as before, with the same callbacks.
  lemma OtherHooksKept(before: seq<HookSlot>, after: seq<HookSlot>, o: Addr, p: Addr)
    requires OnlyAt(before, after, o) && p != o
    ensures Hooked(after, p) <==> Hooked(before, p)
    ensures ChainAt(after, p) == ChainAt(before, p)
  {
    var m, n := Find(before, p), Find(after, p);
    if m < |before| { assert after[m] == before[m]; }
    if n < |after| { assert after[n] == before[n]; }
  }

  // hook_wrap of a function that resolves to o.  A transit function of 95 words is
  // copied one word past its array, which is still in its slot (InlineWordsStay).
  function WrapResult(mem: Code, slots: seq<HookSlot>, f: Addr, o: Addr, replace: Addr, relo: Addr,
      transitNum: nat, before: Addr, after: Addr): HookError
    requires o + 24 < 0x1_0000_0000_0000_0000 && relo + 400 < 0x1_0000_0000_0000_0000
  {
    if IsBadAddress(f) then BadAddress
    else if Hooked(slots, o) then AddResult(ChainAt(slots, o), before, after)
    else if FirstFree(slots) == |slots| then NoMemory
    else
      var rc := PrepareResult(f, replace, WindowOf(mem, o, relo));
      if rc != NoError then rc
      else if transitNum >= TRANSIT_NUM then TransitNoMemory
      else NoError
  }

  // ------------------------------------------------------------------- the engine

  // When hook_wrap of a function that is not hooked succeeds, and what it answers else, in
  // the order in which it finds out.
  lemma WrapAnswers(mem: Code, slots: seq<HookSlot>, f: Addr, o: Addr, replace: Addr, relo: Addr,
      transitNum: nat, before: Addr, after: Addr)
    requires o + 24 < 0x1_0000_0000_0000_0000 && relo + 400 < 0x1_0000_0000_0000_0000 && !Hooked(slots, o)
    ensures var rc := WrapResult(mem, slots, f, o, replace, relo, transitNum, before, after);
      var win := WindowOf(mem, o, relo);
      var known := f >= 0x8000_0000_0000_0000;
      var room := exists i :: 0 <= i < |slots| && !slots[i].inUse;
      var placed := o >= 0x8000_0000_0000_0000 && replace >= 0x8000_0000_0000_0000 && relo >= 0x8000_0000_0000_0000;
      var movable := forall k: nat :: k < |win.words| ==> !Refused(win, k);
      && (rc == NoError <==> known && room && placed && movable && transitNum < 96)
      && (rc == NoMemory <==> known && !room)
      && (rc == BadAddress <==> !known || (room && !placed))
      && (rc == BadRelocation <==> known && room && placed && !movable)
      && (rc == TransitNoMemory <==> known && room && placed && movable && transitNum >= 96)
  {
    hide Refused;
    var n := FirstFree(slots);
    if n < |slots| {
      assert !slots[n].inUse;
    }
  }

  class Engine {
    // Code in memory, and the hook slots.
    var mem: Code
    const slots: array<HookSlot>
    // Where the transit code and the relocation buffer of a slot lie.
    const transitAddr: nat -> Addr
    const reloAddr: nat -> Addr
    // The code before any hook, and the functions that may be hooked.
    ghost const base: Code
    ghost const funcs: Functions

    ghost predicate Valid()
      reads this, slots
    {
      && World(base, funcs)
      && Consistent(base, funcs, slots[..], mem)
      && (forall i {:trigger reloAddr(i)} :: reloAddr(i) + 400 < TWO64)
      && BuffersApart(base, funcs, reloAddr)
      && Placed(slots[..], reloAddr) && Targeted(slots[..], transitAddr)
    }

    // hook_mem_add
    constructor (code: Code, num: nat, transit: nat -> Addr, relo: nat -> Addr, ghost hookable: Functions)
      requires World(code, hookable)
      requires forall i {:trigger relo(i)} :: relo(i) + 400 < TWO64
      requires BuffersApart(code, hookable, relo)
      ensures Valid() && fresh(slots) && slots.Length == num
      ensures base == code && mem == code && funcs == hookable
      ensures transitAddr == transit && reloAddr == relo
      ensures forall o: Addr :: !Hooked(slots[..], o)
    {
      mem, transitAddr, reloAddr := code, transit, relo;
      base, funcs := code, hookable;
      slots := new HookSlot[num](_ => FREE_SLOT);
      new;
      assert forall a: Addr {:trigger Untouched(code, slots[..], a)} :: Untouched(code, slots[..], a) ==> mem(a) == code(a);
    }

    // hook_get_mem_from_origin
    method GetMemFromOrigin(o: Addr) returns (n: nat)
      ensures n == Find(slots[..], o)
    {
      n := 0;
      while n < slots.Length
        invariant n <= Find(slots[..], o) && n <= slots.Length
      {
        if slots[n].inUse && slots[n].addr == o {
          return;
        }
        n := n + 1;
      }
    }

    // hook_mem_zalloc
    method ZAlloc(o: Addr) returns (n: nat)
      modifies slots
      ensures n == FirstFree(old(slots[..]))
      ensures n == slots.Length ==> slots[..] == old(slots[..])
      ensures n < slots.Length ==> slots[..] == old(slots[..])[n := FREE_SLOT.(inUse := true, addr := o)]
    {
      n := 0;
      while n < slots.Length
        invariant n <= FirstFree(old(slots[..])) && n <= slots.Length && slots[..] == old(slots[..])
      {
        if !slots[n].inUse {
          slots[n] := FREE_SLOT.(inUse := true, addr := o);
          return;
        }
        n := n + 1;
      }
    }

    // branch_func_addr; steps bounds the walk, which the original leaves to the code.
    method BranchFuncAddr(f: Addr, ghost steps: nat) returns (o: Addr)
      requires Once(mem, slots[..], Resolve(mem, slots[..], f, steps)) == Resolve(mem, slots[..], f, steps)
      ensures o == Resolve(mem, slots[..], f, steps)
    {
      hide Once;
      o := f;
      ghost var left := steps;
      while true
        invariant Resolve(mem, slots[..], o, left) == Resolve(mem, slots[..], f, steps)
        decreases left
      {
        var next := BranchFuncAddrOnce(o);
        if next == o {
          ResolveStays(mem, slots[..], o, left);
          return;
        }
        if left == 0 {
          assert false;
        }
        o := next;
        left := left - 1;
      }
    }

    method BranchFuncAddrOnce(addr: Addr) returns (r: Addr)
      ensures r == Once(mem, slots[..], addr)
    {
      var inst := mem(addr);
      KindIsFirstMatch(inst, KB);
      if Matches(inst, KB) {
        return TargetOf(KB, addr, inst);
      }
      if inst == BTI_C || inst == BTI_J {
        return Plus(addr, 4);
      }
      if inst == BTI_JC {
        var n := GetMemFromOrigin(addr);
        if n == slots.Length {
          return Plus(addr, 4);
        }
      }
      return addr;
    }

    // hook_install and hook_uninstall: write words over a window.
    method WriteWords(o: Addr, ws: seq<Word>)
      requires o + 4 * |ws| < TWO64
      modifies this`mem
      ensures Written(old(mem), mem, o, ws)
    {
      var i: nat := 0;
      while i < |ws|
        invariant i <= |ws| && Written(old(mem), mem, o, ws[..i])
        modifies this`mem
      {
        ghost var was := mem;
        mem := PutWord(mem, o + 4 * i, ws[i]);
        WriteOne(old(mem), was, mem, o, ws, i);
        i := i + 1;
      }
      assert ws[..i] == ws;
    }

    // hook_wrap; transitNum is the length of the transit function for argno.
    method Wrap(f: Addr, transitNum: nat, before: Addr, after: Addr, udata: Addr) returns (rc: HookError)
      requires Valid() && (IsBadAddress(f) || f in funcs)
      modifies this`mem, slots
      ensures Valid()
      ensures IsBadAddress(f) ==> rc == BadAddress && mem == old(mem) && slots[..] == old(slots[..])
      ensures !IsBadAddress(f) ==>
        var o, n := Origin(base, funcs, f), FirstFree(old(slots[..]));
        && o + 24 < TWO64
        && rc == WrapResult(old(mem), old(slots[..]), f, o, transitAddr(n), reloAddr(n), transitNum, before, after)
        && OnlyAt(old(slots[..]), slots[..], o)
        && (rc == NoError ==>
              Hooked(slots[..], o) && ChainAt(slots[..], o) == Added(ChainAt(old(slots[..]), o), before, after, udata))
        && (rc != NoError ==>
              (Hooked(slots[..], o) <==> Hooked(old(slots[..]), o)) && ChainAt(slots[..], o) == ChainAt(old(slots[..]), o))
        && (rc != NoError || Hooked(old(slots[..]), o) ==> mem == old(mem))
    {
      if IsBadAddress(f) {
        return BadAddress;
      }
      ghost var o := Origin(base, funcs, f);
      ghost var was := slots[..];
      ResolvesToOrigin(base, funcs, was, mem, f);
      var origin := BranchFuncAddr(f, funcs[f]);
      assert Hookable(base, funcs, f);
      var n := GetMemFromOrigin(origin);
      if n < slots.Length {
        rc := AddToChain(n, before, after, udata);
      } else {
        rc := WrapNew(f, origin, transitNum, before, after, udata);
      }
    }

    // hook_chain_add on the chain of a slot in use.
    method AddToChain(n: nat, before: Addr, after: Addr, udata: Addr) returns (rc: HookError)
      requires Valid() && n < slots.Length && slots[n].inUse && Find(slots[..], slots[n].addr) == n
      modifies slots
      ensures Valid() && mem == old(mem)
      ensures rc == AddResult(old(slots[n].chain), before, after)
      ensures slots[..] == old(slots[..])[n := slots[n]] && slots[n].inUse && slots[n].addr == old(slots[n].addr)
      ensures slots[n].chain == Added(old(slots[n].chain), before, after, udata)
    {
      var s := slots[n];
      ghost var was := slots[..];
      assert SlotOk(base, funcs, was[n]);
      var chain, max;
      rc, chain, max := AddTo(s.chain, s.max, before, after, udata);
      ChainChanges(base, funcs, was, mem, n, chain, max);
      slots[n] := s.(chain := chain, max := max);
      assert slots[..] == was[n := slots[n]];
    }

    // Fills the hook_t of slot n for the code as it is.
    method PrepareSlot(f: Addr, origin: Addr, n: nat, ghost was: seq<HookSlot>)
      returns (rc: HookError, win: Window, words: seq<Word>, buffer: seq<Word>)
      requires World(base, funcs) && Consistent(base, funcs, was, mem) && reloAddr(n) + 400 < TWO64
      requires f in funcs && origin == Origin(base, funcs, f) && !Hooked(was, origin)
      ensures origin + 24 < TWO64
      ensures rc == PrepareResult(f, transitAddr(n), WindowOf(mem, origin, reloAddr(n)))
      ensures rc == NoError ==>
        && win == WindowOf(base, origin, reloAddr(n)) == WindowOf(mem, origin, reloAddr(n))
        && words == Trampoline(win.words[0], transitAddr(n)) && |words| == |win.words|
        && |Relocated(win)| <= RELOCATE_MAX && buffer == Filled(Relocated(win))
    {
      WindowUntouched(base, funcs, was, mem, f, reloAddr(n));
      var h := new HookT();
      h.funcAddr, h.originAddr, h.replaceAddr, h.reloAddr := f, origin, transitAddr(n), reloAddr(n);
      rc := h.HookPrepare(mem);
      win, words, buffer := Window(0, 0, []), [], [];
      if rc == NoError {
        win, words, buffer := h.View(), h.trampInsts[..h.trampInstsNum], h.reloInsts[..];
      }
    }

    // The part of hook_wrap for an origin that is not hooked yet.
    method WrapNew(f: Addr, origin: Addr, transitNum: nat, before: Addr, after: Addr, udata: Addr) returns (rc: HookError)
      requires Valid() && f in funcs && !IsBadAddress(f) && origin == Origin(base, funcs, f) && Hookable(base, funcs, f)
      requires !Hooked(slots[..], origin)
      modifies this`mem, slots
      ensures Valid()
      ensures var n := FirstFree(old(slots[..]));
        rc == WrapResult(old(mem), old(slots[..]), f, origin, transitAddr(n), reloAddr(n), transitNum, before, after)
      ensures OnlyAt(old(slots[..]), slots[..], origin)
      ensures rc == NoError ==>
        && Hooked(slots[..], origin)
        && ChainAt(slots[..], origin) == Added(seq(CHAIN_NUM, _ => NO_ITEM), before, after, udata)
      ensures rc != NoError ==> mem == old(mem) && !Hooked(slots[..], origin)
    {
      hide Emission, Emit, Trampoline, PrepareResult, AnyRefused, Relocated, Filled, World, Consistent, SlotOk, Written, Find;
      hide Added, AddResult, Settled, AllEmpty, Once, WordsAt, FirstFree, TargetOf, IsPac, HoldsWindow, Origin, Untouched;
      ghost var was := slots[..];
      var n := ZAlloc(origin);
      if n == slots.Length {
        return NoMemory;
      }
      assert forall i {:trigger was[i]} :: 0 <= i < |was| && i != n ==> slots[i] == was[i];
      var win, words, buffer;
      rc, win, words, buffer := PrepareSlot(f, origin, n, was);
      if rc == NoError && transitNum >= TRANSIT_NUM {
        rc := TransitNoMemory;
      }
      if rc != NoError {
        slots[n] := slots[n].(inUse := false);
        IdleSlotChanges(base, funcs, was, mem, n, slots[n]);
        assert slots[..] == was[n := slots[n]];
        return;
      }
      EmptyChainTakes(before, after, udata);
      var added, chain, max := AddTo(seq(CHAIN_NUM, _ => NO_ITEM), 0, before, after, udata);
      var s := HookSlot(true, origin, f, transitAddr(n), win, buffer, chain, max);
      slots[n] := s;
      WriteWords(origin, words);
      HookInstalled(base, funcs, was, old(mem), n, s, mem);
      assert slots[..] == was[n := s];
    }

    // hook_unwrap_remove
    method UnwrapRemove(f: Addr, before: Addr, after: Addr, remove: bool)
      requires Valid() && (IsBadAddress(f) || f in funcs)
      modifies this`mem, slots
      ensures Valid()
      ensures IsBadAddress(f) || !Hooked(old(slots[..]), Origin(base, funcs, f)) ==>
        mem == old(mem) && slots[..] == old(slots[..])
      ensures !IsBadAddress(f) && Hooked(old(slots[..]), Origin(base, funcs, f)) ==>
        var o := Origin(base, funcs, f);
        var left := Removed(ChainAt(old(slots[..]), o), before, after);
        && OnlyAt(old(slots[..]), slots[..], o)
        && (if remove && AllEmpty(left) then !Hooked(slots[..], o)
            else Hooked(slots[..], o) && ChainAt(slots[..], o) == left && mem == old(mem))
    {
      if IsBadAddress(f) {
        return;
      }
      ghost var o := Origin(base, funcs, f);
      ghost var was := slots[..];
      ResolvesToOrigin(base, funcs, was, mem, f);
      var origin := BranchFuncAddr(f, funcs[f]);
      var n := GetMemFromOrigin(origin);
      if n == slots.Length {
        return;
      }
      RemoveFromChain(n, before, after);
      if !remove {
        return;
      }
      assert SlotOk(base, funcs, slots[..][n]);
      var empty := IsEmpty(slots[n].chain, slots[n].max);
      if !empty {
        return;
      }
      TakeOut(n);
    }

    // hook_chain_remove on the chain of a slot in use.
    method RemoveFromChain(n: nat, before: Addr, after: Addr)
      requires Valid() && n < slots.Length && slots[n].inUse && Find(slots[..], slots[n].addr) == n
      modifies slots
      ensures Valid() && mem == old(mem)
      ensures slots[..] == old(slots[..])[n := slots[n]] && slots[n].inUse && slots[n].addr == old(slots[n].addr)
      ensures Find(slots[..], slots[n].addr) == n
      ensures slots[n].chain == Removed(old(slots[n].chain), before, after) && |slots[n].chain| == CHAIN_NUM
    {
      var s := slots[n];
      ghost var was := slots[..];
      assert SlotOk(base, funcs, was[n]);
      var chain := RemoveFrom(s.chain, s.max, before, after);
      ChainChanges(base, funcs, was, mem, n, chain, s.max);
      slots[n] := s.(chain := chain);
      assert slots[..] == was[n := slots[n]];
    }

    // hook_chain_uninstall and hook_mem_free
    method TakeOut(n: nat)
      requires Valid() && n < slots.Length && slots[n].inUse
      modifies this`mem, slots
      ensures Valid()
      ensures slots[..] == old(slots[..])[n := old(slots[n]).(inUse := false)]
      ensures !Hooked(slots[..], old(slots[n]).addr)
    {
      var s := slots[n];
      ghost var was := slots[..];
      assert SlotOk(base, funcs, was[n]);
      WriteWords(s.addr, s.win.words);
      HookRemoved(base, funcs, was, old(mem), n, mem);
      slots[n] := s.(inUse := false);
      assert slots[..] == was[n := s.(inUse := false)];
      forall i | 0 <= i < slots.Length && slots[i].inUse ensures slots[i].addr != s.addr {
        assert i != n && slots[i] == was[i];
      }
    }
  }

  lemma ResolvesToOrigin(base: Code, funcs: Functions, slots: seq<HookSlot>, mem: Code, f: Addr)
    requires World(base, funcs) && Consistent(base, funcs, slots, mem) && f in funcs
    ensures Resolve(mem, slots, f, funcs[f]) == Origin(base, funcs, f)
    ensures Once(mem, slots, Origin(base, funcs, f)) == Origin(base, funcs, f)
  {
    ResolutionUnchanged(base, funcs, slots, mem, f, funcs[f]);
    assert Hookable(base, funcs, f);
    OnceUnchanged(base, funcs, slots, mem, f, funcs[f]);
  }

  // Before it is hooked, a window still holds its original words.
  lemma WindowUntouched(base: Code, funcs: Functions, slots: seq<HookSlot>, mem: Code, f: Addr, relo: Addr)
    requires World(base, funcs) && Consistent(base, funcs, slots, mem) && f in funcs && relo + 400 < TWO64
    requires !Hooked(slots, Origin(base, funcs, f))
    ensures Origin(base, funcs, f) + 24 < TWO64
    ensures WindowOf(mem, Origin(base, funcs, f), relo) == WindowOf(base, Origin(base, funcs, f), relo)
    ensures |Relocated(WindowOf(base, Origin(base, funcs, f), relo))| <= RELOCATE_MAX
  {
    var o := Origin(base, funcs, f);
    assert Hookable(base, funcs, f);
    forall a: Addr | Covered(base, o, a) ensures mem(a) == base(a) {
      assert Untouched(base, slots, a) by {
        forall j {:trigger slots[j]} | 0 <= j < |slots| && slots[j].inUse ensures !WordOf(base, slots[j].addr, a) {
          assert SlotOk(base, funcs, slots[j]);
          assert Apart(base, funcs, f, slots[j].func);
        }
      }
    }
    assert Covered(base, o, o);
    assert mem(o) == base(o);
    var n := WindowSize(base(o));
    forall i | 0 <= i < n ensures WordsAt(mem, o, n)[i] == WordsAt(base, o, n)[i] {
      assert Covered(base, o, o + 4 * i);
    }
    assert WordsAt(mem, o, n) == WordsAt(base, o, n);
    EmissionLength(WindowOf(base, o, relo), n);
  }

  lemma EmptyChainTakes(before: Addr, after: Addr, udata: Addr)
    ensures var none := seq(CHAIN_NUM, _ => NO_ITEM);
      && Settled(none, 0) && Settled(Added(none, before, after, udata), 1)
      && AddResult(none, before, after) == NoError && MaxAfterAdd(none, 0, before, after) == 1
  {
    var none := seq(CHAIN_NUM, _ => NO_ITEM);
    assert none[0] == NO_ITEM;
    assert StopOfAdd(none, before, after) == 0;
  }

  lemma WriteOne(before: Code, was: Code, now: Code, o: Addr, ws: seq<Word>, i: nat)
    requires i < |ws| && o + 4 * |ws| < 0x1_0000_0000_0000_0000
    requires Written(before, was, o, ws[..i]) && now == PutWord(was, o + 4 * i, ws[i])
    ensures Written(before, now, o, ws[..i + 1])
  {
    forall k: nat {:trigger ws[..i + 1][k]} | k < i + 1 ensures now(o + 4 * k) == ws[..i + 1][k] {
      if k < i { assert ws[..i][k] == was(o + 4 * k); }
    }
    forall a: Addr {:trigger now(a)} | !(o <= a < o + 4 * (i + 1) && (a - o) % 4 == 0) ensures now(a) == before(a) {
      assert was(a) == before(a);
    }
  }

  lemma {:induction false} ResolveStays(mem: Code, slots: seq<HookSlot>, a: Addr, n: nat)
    requires Once(mem, slots, a) == a
    ensures Resolve(mem, slots, a, n) == a
  {
    if n > 0 {
      ResolveStays(mem, slots, a, n - 1);
    }
  }
}
