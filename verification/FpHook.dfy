// Function-pointer hooks: fp_hook_wrap and fp_hook_unwrap over a pool of slots
// and a memory of pointer cells.
module FpHook {
  import opened A64
  import opened Hook
  import opened HookChain
  import opened HookPool

  // fp_hook_chain_t with its slot header; inUse is that the field using is not zero.
  datatype FpSlot = FpSlot(
    inUse: bool,
    fpAddr: Addr,
    replace: Addr,
    originFp: Addr,
    chain: Items,
    max: nat,
    transit: seq<Word>)

  type Cells = map<Addr, Addr>

  function NoItems(): (r: Items)
    ensures |r| == FP_CHAIN_NUM && AllEmpty(r) && Settled(r, 0)
  {
    seq(FP_CHAIN_NUM, _ => NO_ITEM)
  }

  function Zeros(): (r: seq<Word>)
    ensures |r| == TRANSIT_NUM
  {
    seq(TRANSIT_NUM, _ => 0)
  }

  // ------------------------------------------------------------------ slot lookup

  predicate Hooked(slots: seq<FpSlot>, p: Addr) {
    exists i :: 0 <= i < |slots| && slots[i].inUse && slots[i].fpAddr == p
  }

  function Find(slots: seq<FpSlot>, p: Addr): (n: nat)
    ensures n <= |slots|
    ensures n < |slots| ==> slots[n].inUse && slots[n].fpAddr == p
    ensures forall i :: 0 <= i < n ==> !(slots[i].inUse && slots[i].fpAddr == p)
  {
    if slots == [] || (slots[0].inUse && slots[0].fpAddr == p) then 0 else 1 + Find(slots[1..], p)
  }

  function FirstFree(slots: seq<FpSlot>): (n: nat)
    ensures n <= |slots|
    ensures n < |slots| ==> !slots[n].inUse
    ensures forall i :: 0 <= i < n ==> slots[i].inUse
  {
    if slots == [] || !slots[0].inUse then 0 else 1 + FirstFree(slots[1..])
  }

  // The callbacks on a pointer; on one that is not hooked, none.
  function ChainAt(slots: seq<FpSlot>, p: Addr): Items {
    var n := Find(slots, p);
    if n < |slots| then slots[n].chain else NoItems()
  }

  // -------------------------------------------------------------------- invariant

  // A slot in use has a callback, its cell holds its transit code, and it keeps
  // what the cell held at first; a free slot has no callback.
  ghost predicate SlotOk(base: Cells, s: FpSlot, cells: Cells)
    requires cells.Keys == base.Keys
  {
    && s.fpAddr in base
    && |s.chain| == FP_CHAIN_NUM && Settled(s.chain, s.max) && !AllEmpty(s.chain)
    && cells[s.fpAddr] == s.replace
    && s.originFp == base[s.fpAddr]
  }

  ghost predicate Consistent(base: Cells, slots: seq<FpSlot>, cells: Cells) {
    && cells.Keys == base.Keys
    && (forall i {:trigger slots[i]} :: 0 <= i < |slots| && slots[i].inUse ==> SlotOk(base, slots[i], cells))
    && (forall i {:trigger slots[i]} :: 0 <= i < |slots| && !slots[i].inUse ==> AllEmpty(slots[i].chain))
    && (forall i, j {:trigger slots[i], slots[j]} :: 0 <= i < j < |slots| && slots[i].inUse && slots[j].inUse ==>
          slots[i].fpAddr != slots[j].fpAddr)
    && (forall p: Addr {:trigger cells[p]} :: p in cells && !Hooked(slots, p) ==> cells[p] == base[p])
  }

  predicate SomeReady(items: Items) {
    exists i :: 0 <= i < |items| && items[i].state == Ready
  }

  // What the cell of a slot in use holds is the address of the slot's own transit code.
  ghost predicate Targeted(slots: seq<FpSlot>, transit: nat -> Addr) {
    forall i: nat {:trigger slots[i]} :: i < |slots| && slots[i].inUse ==> slots[i].replace == transit(i)
  }

  // In every reachable state the pointer cell holds the transit code of its slot while
  // some callback is ready, and the original pointer otherwise.
  lemma CellByReadiness(base: Cells, slots: seq<FpSlot>, cells: Cells, transit: nat -> Addr, p: Addr)
    requires Consistent(base, slots, cells) && Targeted(slots, transit) && p in cells
    ensures SomeReady(ChainAt(slots, p)) <==> Hooked(slots, p)
    ensures cells[p] == if SomeReady(ChainAt(slots, p)) then transit(Find(slots, p)) else base[p]
    ensures SomeReady(ChainAt(slots, p)) ==> slots[Find(slots, p)].originFp == base[p]
  {
    var n := Find(slots, p);
    if n < |slots| {
      assert SlotOk(base, slots[n], cells) && slots[n].replace == transit(n);
    }
  }

  // Every ready slot lies below the mark that bounds the transit loops.
  lemma ReadyBelowMark(base: Cells, slots: seq<FpSlot>, cells: Cells, i: nat, k: nat)
    requires Consistent(base, slots, cells) && i < |slots| && slots[i].inUse
    requires k < |slots[i].chain| && slots[i].chain[k].state == Ready
    ensures k < slots[i].max <= FP_CHAIN_NUM
  {
    assert SlotOk(base, slots[i], cells);
  }

  // At most the slot of pointer p differs.
  ghost predicate OnlyAt(before: seq<FpSlot>, after: seq<FpSlot>, p: Addr) {
    && |before| == |after|
    && forall i {:trigger after[i]} :: 0 <= i < |after| && (before[i].inUse || after[i].inUse) ==>
         before[i] == after[i] || ((before[i].inUse ==> before[i].fpAddr == p) && (after[i].inUse ==> after[i].fpAddr == p))
  }

  // ------------------------------------------------------------------- operations

  lemma HookedKept(slots: seq<FpSlot>, n: nat, s: FpSlot, p: Addr)
    requires n < |slots| && (slots[n].inUse && slots[n].fpAddr == p ==> s.inUse && s.fpAddr == p)
    ensures Hooked(slots, p) ==> Hooked(slots[n := s], p)
  {
    var after := slots[n := s];
    if i :| 0 <= i < |slots| && slots[i].inUse && slots[i].fpAddr == p {
      assert after[i].inUse && after[i].fpAddr == p;
    }
  }

  lemma ChainChanges(base: Cells, slots: seq<FpSlot>, cells: Cells, n: nat, s: FpSlot)
    requires Consistent(base, slots, cells) && n < |slots| && slots[n].inUse
    requires s == slots[n].(chain := s.chain, max := s.max)
    requires |s.chain| == FP_CHAIN_NUM && Settled(s.chain, s.max) && !AllEmpty(s.chain)
    ensures Consistent(base, slots[n := s], cells)
  {
    var after := slots[n := s];
    assert SlotOk(base, slots[n], cells);
    forall p: Addr {:trigger cells[p]} | p in cells && !Hooked(after, p) ensures cells[p] == base[p] {
      HookedKept(slots, n, after[n], p);
    }
    forall i {:trigger after[i]} | 0 <= i < |after| && after[i].inUse ensures SlotOk(base, after[i], cells) {
      assert SlotOk(base, slots[i], cells);
    }
  }

  lemma PointerHooked(base: Cells, slots: seq<FpSlot>, cells: Cells, n: nat, s: FpSlot)
    requires Consistent(base, slots, cells) && n < |slots| && !slots[n].inUse && s.inUse
    requires s.fpAddr in base && !Hooked(slots, s.fpAddr) && s.originFp == cells[s.fpAddr]
    requires |s.chain| == FP_CHAIN_NUM && Settled(s.chain, s.max) && !AllEmpty(s.chain)
    ensures Consistent(base, slots[n := s], cells[s.fpAddr := s.replace])
  {
    var after, now := slots[n := s], cells[s.fpAddr := s.replace];
    assert now.Keys == cells.Keys;
    forall p: Addr {:trigger now[p]} | p in now && !Hooked(after, p) ensures now[p] == base[p] {
      assert after[n].fpAddr != p;
      HookedKept(slots, n, after[n], p);
      assert now[p] == cells[p];
    }
    forall i {:trigger after[i]} | 0 <= i < |after| && after[i].inUse ensures SlotOk(base, after[i], now) {
      if i != n {
        assert SlotOk(base, slots[i], cells);
        assert slots[i].fpAddr != s.fpAddr;
      }
    }
  }

  lemma PointerUnhooked(base: Cells, slots: seq<FpSlot>, cells: Cells, n: nat, s: FpSlot)
    requires Consistent(base, slots, cells) && n < |slots| && slots[n].inUse
    requires !s.inUse && AllEmpty(s.chain)
    ensures Consistent(base, slots[n := s], cells[slots[n].fpAddr := slots[n].originFp])
  {
    var p0 := slots[n].fpAddr;
    var after, now := slots[n := s], cells[p0 := slots[n].originFp];
    assert SlotOk(base, slots[n], cells);
    assert now.Keys == cells.Keys;
    forall p: Addr {:trigger now[p]} | p in now && !Hooked(after, p) ensures now[p] == base[p] {
      if p != p0 {
        HookedKept(slots, n, after[n], p);
        assert now[p] == cells[p];
      }
    }
    forall i {:trigger after[i]} | 0 <= i < |after| && after[i].inUse ensures SlotOk(base, after[i], now) {
      assert SlotOk(base, slots[i], cells);
      assert slots[i].fpAddr != p0;
    }
  }

  lemma AddFills(items: Items, max: nat, before: Addr, after: Addr, udata: Addr)
    requires Settled(items, max) && (!AllEmpty(items) || AddResult(items, before, after) == NoError)
    ensures !AllEmpty(Added(items, before, after, udata))
  {
    var more := Added(items, before, after, udata);
    if AddResult(items, before, after) == NoError {
      assert more[StopOfAdd(items, before, after)].state == Ready;
    }
  }

  lemma EmptyChainTakes(before: Addr, after: Addr)
    ensures AddResult(NoItems(), before, after) == NoError && StopOfAdd(NoItems(), before, after) == 0
  {
    assert NoItems()[0] == NO_ITEM;
  }

  // ------------------------------------------------------------ the transit code

  // The transit words of a slot after a function was copied behind the landing pad.
  function Copied(t: seq<Word>, code: seq<Word>): (r: seq<Word>)
    requires |t| == TRANSIT_NUM
    ensures |r| == TRANSIT_NUM
    ensures r[..2] == [BTI_JC, NOP] && (|code| <= 94 ==> r[2..2 + |code|] == code)
  {
    seq(TRANSIT_NUM, j requires 0 <= j < TRANSIT_NUM =>
      if j == 0 then BTI_JC else if j == 1 then NOP else if j - 2 < |code| then code[j - 2] else t[j])
  }

  // What copying into slot n makes of the slot behind it: a function of 95 words has its
  // last word in the field using there.
  function Spilled(slots: seq<FpSlot>, n: nat, code: seq<Word>): (r: seq<FpSlot>)
    ensures |r| == |slots|
  {
    if |code| == 95 && n + 1 < |slots| then slots[n + 1 := slots[n + 1].(inUse := code[94] != 0)] else slots
  }

  // A slot whose state of use is turned over breaks the invariant.
  lemma TurnedIsInconsistent(base: Cells, slots: seq<FpSlot>, was: FpSlot, cells: Cells, cells': Cells, k: nat)
    requires k < |slots| && slots[k] == was.(inUse := !was.inUse)
    requires if was.inUse then cells.Keys == base.Keys && SlotOk(base, was, cells) else AllEmpty(was.chain)
    ensures !Consistent(base, slots, cells')
  {
  }

  class FpEngine {
    // The pointer cells of the kernel, the hook slots and the word behind the last one.
    var cells: Cells
    const slots: array<FpSlot>
    var behind: Word
    // Where the transit code of a slot lies.
    const transitAddr: nat -> Addr
    ghost const base: Cells
    ghost const behindAtFirst: Word

    ghost predicate Valid()
      reads this, slots
    {
      && Consistent(base, slots[..], cells) && Targeted(slots[..], transitAddr) && behind == behindAtFirst
      && forall i {:trigger transitAddr(i)} :: transitAddr(i) != 0
    }

    constructor (pointers: Cells, num: nat, transit: nat -> Addr, word: Word)
      requires forall i {:trigger transit(i)} :: transit(i) != 0
      ensures Valid() && fresh(slots) && slots.Length == num && base == cells == pointers && behind == word
      ensures forall i :: 0 <= i < num ==> !slots[i].inUse
      ensures forall p: Addr :: !Hooked(slots[..], p)
    {
      cells, transitAddr, behind := pointers, transit, word;
      base, behindAtFirst := pointers, word;
      slots := new FpSlot[num](_ => FpSlot(false, 0, 0, 0, [], 0, []));
    }

    // hook_get_mem_from_origin
    method GetMemFromOrigin(p: Addr) returns (n: nat)
      ensures n == Find(slots[..], p)
    {
      n := 0;
      while n < slots.Length
        invariant n <= Find(slots[..], p) && n <= slots.Length
      {
        if slots[n].inUse && slots[n].fpAddr == p {
          return;
        }
        n := n + 1;
      }
    }

    // hook_mem_zalloc
    method ZAlloc(p: Addr) returns (n: nat)
      modifies slots
      ensures n == FirstFree(old(slots[..]))
      ensures n == slots.Length ==> slots[..] == old(slots[..])
      ensures n < slots.Length ==> slots[..] == old(slots[..])[n := FpSlot(true, p, 0, 0, NoItems(), 0, Zeros())]
    {
      n := 0;
      while n < slots.Length
        invariant n <= FirstFree(old(slots[..])) && n <= slots.Length && slots[..] == old(slots[..])
      {
        if !slots[n].inUse {
          slots[n] := FpSlot(true, p, 0, 0, NoItems(), 0, Zeros());
          return;
        }
        n := n + 1;
      }
    }

    // fp_hook and fp_unhook
    method FpHook(p: Addr, replace: Addr) returns (backup: Addr)
      requires p in cells
      modifies this`cells
      ensures backup == old(cells)[p] && cells == old(cells)[p := replace]
    {
      backup := cells[p];
      cells := cells[p := replace];
    }

    method FpUnhook(p: Addr, backup: Addr)
      modifies this`cells
      ensures cells == old(cells)[p := backup]
    {
      cells := cells[p := backup];
    }

    // Word j of the transit code of slot n.  The one behind the last lies in the field
    // using of the next slot, as HookPool.FpWordsEndSlot computes from the declarations.
    method PutWord(n: nat, j: nat, w: Word)
      requires n < slots.Length && j <= TRANSIT_NUM && |slots[n].transit| == TRANSIT_NUM
      modifies slots, this`behind
      ensures j < TRANSIT_NUM ==>
        slots[..] == old(slots[..])[n := old(slots[n]).(transit := old(slots[n]).transit[j := w])] && behind == old(behind)
      ensures j == TRANSIT_NUM && n + 1 < slots.Length ==>
        slots[..] == old(slots[..])[n + 1 := old(slots[n + 1]).(inUse := w != 0)] && behind == old(behind)
      ensures j == TRANSIT_NUM && n + 1 == slots.Length ==> slots[..] == old(slots[..]) && behind == w
    {
      if j < TRANSIT_NUM {
        slots[n] := slots[n].(transit := slots[n].transit[j := w]);
      } else if n + 1 < slots.Length {
        slots[n + 1] := slots[n + 1].(inUse := w != 0);
      } else {
        behind := w;
      }
    }

    // hook_chain_prepare.  A function is accepted up to 95 words, and fits up to 94.
    method ChainPrepare(n: nat, code: seq<Word>) returns (ok: bool)
      requires n < slots.Length && |slots[n].transit| == TRANSIT_NUM
      modifies slots, this`behind
      ensures ok <==> |code| < TRANSIT_NUM
      ensures !ok ==> slots[..] == old(slots[..]) && behind == old(behind)
      ensures ok ==>
        && slots[..] == Spilled(old(slots[..])[n := old(slots[n]).(transit := Copied(old(slots[n]).transit, code))], n, code)
        && behind == if |code| == 95 && n + 1 == slots.Length then code[94] else old(behind)
    {
      if |code| >= TRANSIT_NUM {
        return false;
      }
      ghost var was, zero := slots[..], slots[n].transit;
      PutWord(n, 0, BTI_JC);
      PutWord(n, 1, NOP);
      var i := 0;
      while i < |code|
        invariant i <= |code| && |slots[n].transit| == TRANSIT_NUM
        invariant slots[n] == was[n].(transit := slots[n].transit) && slots[n].transit == Copied(zero, code[..i])
        invariant slots[..] == Spilled(was[n := slots[n]], n, code[..i])
        invariant behind == if i == 95 && n + 1 == slots.Length then code[94] else old(behind)
      {
        PutWord(n, i + 2, code[i]);
        assert i < 94 ==> slots[n].transit == Copied(zero, code[..i + 1]);
        assert i == 94 ==> slots[n].transit == Copied(zero, code[..i + 1]);
        i := i + 1;
      }
      assert code[..i] == code;
      return true;
    }

    // Wrapping takes a slot and then finds that the transit code does not fit.
    ghost predicate Leaks(p: Addr, code: seq<Word>)
      reads slots
    {
      && !IsBadAddress(p) && !Hooked(slots[..], p)
      && FirstFree(slots[..]) < slots.Length && |code| >= TRANSIT_NUM
    }

    // Wrapping copies transit code of 95 words, the last of which turns over the state of
    // use of the next slot, or changes the word behind the slots.
    ghost predicate Spills(p: Addr, code: seq<Word>)
      reads this, slots
    {
      var n := FirstFree(slots[..]);
      && !IsBadAddress(p) && !Hooked(slots[..], p) && n < slots.Length && |code| == 95
      && if n + 1 < slots.Length then slots[n + 1].inUse != (code[94] != 0) else behind != code[94]
    }

    // fp_hook_wrap; code is the transit function for argno.  The slot taken for code that
    // does not fit is not given back, and code that fits but for one word overwrites
    // what is behind the slot: the state stays consistent exactly when neither happens.
    method Wrap(p: Addr, code: seq<Word>, before: Addr, after: Addr, udata: Addr) returns (rc: HookError)
      requires Valid() && (IsBadAddress(p) || p in cells)
      modifies this`cells, this`behind, slots
      ensures Valid() <==> !old(Leaks(p, code)) && !old(Spills(p, code))
      ensures rc ==
        if IsBadAddress(p) then BadAddress
        else if old(Leaks(p, code)) then TransitNoMemory
        else if !old(Hooked(slots[..], p)) && FirstFree(old(slots[..])) == slots.Length then NoMemory
        else AddResult(ChainAt(old(slots[..]), p), before, after)
      ensures OnlyAt(if old(Spills(p, code)) then Spilled(old(slots[..]), FirstFree(old(slots[..])), code) else old(slots[..]),
                     slots[..], p)
      ensures old(Spills(p, code)) && FirstFree(old(slots[..])) + 1 < slots.Length ==>
        var k := FirstFree(old(slots[..])) + 1; slots[k] == old(slots[..])[k].(inUse := code[94] != 0)
      ensures behind != old(behind) ==> old(Spills(p, code)) && behind == code[94]
      ensures rc == NoError ==>
        Hooked(slots[..], p) && ChainAt(slots[..], p) == Added(ChainAt(old(slots[..]), p), before, after, udata)
      ensures rc == NoError && !old(Hooked(slots[..], p)) ==>
        slots[Find(slots[..], p)].transit == Copied(Zeros(), code)
      ensures rc != NoError ==> cells == old(cells)
      ensures rc != NoError && rc != TransitNoMemory ==> slots[..] == old(slots[..])
    {
      hide AddResult, Added, AllEmpty, Settled, Consistent, Copied, Spilled;
      if IsBadAddress(p) {
        return BadAddress;
      }
      var n := GetMemFromOrigin(p);
      if n == slots.Length {
        rc := WrapNew(p, code, before, after, udata);
      } else {
        rc := WrapAgain(n, p, before, after, udata);
      }
    }

    // fp_hook_wrap of a pointer that is not hooked yet.
    method WrapNew(p: Addr, code: seq<Word>, before: Addr, after: Addr, udata: Addr) returns (rc: HookError)
      requires Valid() && p in cells && !IsBadAddress(p) && !Hooked(slots[..], p)
      modifies this`cells, this`behind, slots
      ensures Valid() <==> !old(Leaks(p, code)) && !old(Spills(p, code))
      ensures rc ==
        if FirstFree(old(slots[..])) == slots.Length then NoMemory
        else if old(Leaks(p, code)) then TransitNoMemory
        else AddResult(NoItems(), before, after)
      ensures OnlyAt(if old(Spills(p, code)) then Spilled(old(slots[..]), FirstFree(old(slots[..])), code) else old(slots[..]),
                     slots[..], p)
      ensures old(Spills(p, code)) && FirstFree(old(slots[..])) + 1 < slots.Length ==>
        var k := FirstFree(old(slots[..])) + 1; slots[k] == old(slots[..])[k].(inUse := code[94] != 0)
      ensures behind != old(behind) ==> old(Spills(p, code)) && behind == code[94]
      ensures rc == NoError ==> Hooked(slots[..], p) && ChainAt(slots[..], p) == Added(NoItems(), before, after, udata)
      ensures rc == NoError ==> slots[Find(slots[..], p)].transit == Copied(Zeros(), code)
      ensures rc != NoError ==> cells == old(cells)
      ensures rc != NoError && rc != TransitNoMemory ==> slots[..] == old(slots[..])
    {
      hide SlotOk, StopOfAdd, SameCallback, FirstFree, Find, IsBadAddress;
      hide AddResult, Added, AllEmpty, Settled, Consistent, Copied;
      ghost var was := slots[..];
      var n := ZAlloc(p);
      if n == slots.Length {
        return NoMemory;
      }
      slots[n] := slots[n].(replace := transitAddr(n));
      var ok := ChainPrepare(n, code);
      if !ok {
        LeakIsInconsistent(base, slots[..], cells, n);
        return TransitNoMemory;
      }
      var backup := FpHook(slots[n].fpAddr, slots[n].replace);
      var s := slots[n].(originFp := backup);
      EmptyChainTakes(before, after);
      AddFills(s.chain, s.max, before, after, udata);
      var chain, max;
      rc, chain, max := AddTo(s.chain, s.max, before, after, udata);
      slots[n] := s.(chain := chain, max := max);
      assert slots[..] == Spilled(was[n := slots[n]], n, code);
      KeysKept(base, was, old(cells), p);
      PointerHooked(base, was, old(cells), n, slots[n]);
      FoundAt(slots[..], n, p);
      if old(Spills(p, code)) {
        SpillIsInconsistent(base, was, old(cells), slots[..], cells, n, code, behind, old(behind));
      } else {
        assert slots[..] == was[n := slots[n]];
      }
    }

    // fp_hook_wrap of a pointer that is hooked.
    method WrapAgain(n: nat, p: Addr, before: Addr, after: Addr, udata: Addr) returns (rc: HookError)
      requires Valid() && n < slots.Length && n == Find(slots[..], p)
      modifies slots
      ensures Valid() && OnlyAt(old(slots[..]), slots[..], p)
      ensures rc == AddResult(ChainAt(old(slots[..]), p), before, after)
      ensures Hooked(slots[..], p) && ChainAt(slots[..], p) == Added(ChainAt(old(slots[..]), p), before, after, udata)
      ensures rc != NoError ==> slots[..] == old(slots[..])
    {
      ghost var was := slots[..];
      assert SlotOk(base, was[n], cells);
      hide AddResult, AllEmpty, Settled, Consistent;
      var s := slots[n];
      AddFills(s.chain, s.max, before, after, udata);
      var chain, max;
      rc, chain, max := AddTo(s.chain, s.max, before, after, udata);
      slots[n] := s.(chain := chain, max := max);
      assert slots[..] == was[n := slots[n]];
      ChainChanges(base, was, cells, n, slots[n]);
      FoundAgain(was, slots[..], n, p);
    }

    // fp_hook_unwrap
    method Unwrap(p: Addr, before: Addr, after: Addr)
      requires Valid() && (IsBadAddress(p) || p in cells)
      modifies this`cells, slots
      ensures Valid()
      ensures IsBadAddress(p) || !Hooked(old(slots[..]), p) ==> cells == old(cells) && slots[..] == old(slots[..])
      ensures !IsBadAddress(p) && Hooked(old(slots[..]), p) ==>
        var left := Removed(ChainAt(old(slots[..]), p), before, after);
        && OnlyAt(old(slots[..]), slots[..], p)
        && (if AllEmpty(left) then !Hooked(slots[..], p) && cells == old(cells)[p := base[p]]
            else Hooked(slots[..], p) && ChainAt(slots[..], p) == left && cells == old(cells))
    {
      hide AddResult, Added, AllEmpty, Removed, SameCallback, Settled, StopOfAdd, StopOfRemove;
      ghost var was := slots[..];
      if IsBadAddress(p) {
        return;
      }
      var n := GetMemFromOrigin(p);
      if n == slots.Length {
        return;
      }
      assert SlotOk(base, was[n], cells);
      var s := slots[n];
      var chain := RemoveFrom(s.chain, s.max, before, after);
      slots[n] := s.(chain := chain);
      assert slots[..] == was[n := slots[n]];
      var empty := IsEmpty(chain, s.max);
      if !empty {
        ChainChanges(base, was, cells, n, slots[n]);
        return;
      }
      Release(n, was);
    }

    // The end of fp_hook_unwrap, for a chain that has become empty.
    method Release(n: nat, ghost was: seq<FpSlot>)
      requires Consistent(base, was, cells) && Targeted(was, transitAddr) && n < slots.Length == |was| && was[n].inUse
      requires behind == behindAtFirst && forall i {:trigger transitAddr(i)} :: transitAddr(i) != 0
      requires slots[..] == was[n := slots[n]] && slots[n] == was[n].(chain := slots[n].chain) && AllEmpty(slots[n].chain)
      modifies this`cells, slots
      ensures Valid() && slots[..] == was[n := slots[n]] && !slots[n].inUse
      ensures cells == old(cells)[was[n].fpAddr := base[was[n].fpAddr]]
      ensures !Hooked(slots[..], was[n].fpAddr)
    {
      assert SlotOk(base, was[n], cells);
      hide AllEmpty, SlotOk;
      FpUnhook(slots[n].fpAddr, slots[n].originFp);
      slots[n] := slots[n].(inUse := false);
      PointerUnhooked(base, was, old(cells), n, slots[n]);
      assert slots[..] == was[n := slots[n]];
      forall i | 0 <= i < slots.Length && slots[i].inUse ensures slots[i].fpAddr != was[n].fpAddr {
        assert i != n && slots[i] == was[i];
      }
    }
  }

  lemma KeysKept(base: Cells, slots: seq<FpSlot>, cells: Cells, p: Addr)
    requires Consistent(base, slots, cells) && p in cells
    ensures p in base
  {
  }

  lemma FoundAt(slots: seq<FpSlot>, n: nat, p: Addr)
    requires n < |slots| && slots[n].inUse && slots[n].fpAddr == p
    requires forall i :: 0 <= i < n ==> !(slots[i].inUse && slots[i].fpAddr == p)
    ensures Find(slots, p) == n && Hooked(slots, p)
  {
  }

  lemma FoundAgain(was: seq<FpSlot>, now: seq<FpSlot>, n: nat, p: Addr)
    requires n < |was| == |now| && n == Find(was, p) && now == was[n := now[n]] && now[n].inUse && now[n].fpAddr == p
    ensures Find(now, p) == n && Hooked(now, p)
  {
    assert forall i :: 0 <= i < n ==> now[i] == was[i];
  }

  lemma LeakIsInconsistent(base: Cells, slots: seq<FpSlot>, cells: Cells, n: nat)
    requires n < |slots| && slots[n].inUse && slots[n].chain == NoItems()
    ensures !Consistent(base, slots, cells)
  {
    assert Consistent(base, slots, cells) ==> SlotOk(base, slots[n], cells);
  }

  // What the last of 95 words has overwritten.
  lemma SpillIsInconsistent(base: Cells, was: seq<FpSlot>, cells: Cells, now: seq<FpSlot>, cells': Cells, n: nat, code: seq<Word>,
      behind: Word, behindAtFirst: Word)
    requires Consistent(base, was, cells) && n < |was| && |code| == 95 && n < |now| && now == Spilled(was[n := now[n]], n, code)
    requires if n + 1 < |was| then was[n + 1].inUse != (code[94] != 0) else behind == code[94] != behindAtFirst
    ensures !(Consistent(base, now, cells') && behind == behindAtFirst)
  {
    if n + 1 < |was| {
      assert was[n + 1].inUse ==> SlotOk(base, was[n + 1], cells);
      TurnedIsInconsistent(base, now, was[n + 1], cells, cells', n + 1);
    }
  }

  // Ninety-five words are accepted, and the slot behind the one they are copied into is
  // in use from then on.
  method NinetyFiveWordsSpill(p: Addr, code: seq<Word>, transit: nat -> Addr, before: Addr) returns (e: FpEngine, rc: HookError)
    requires !IsBadAddress(p) && |code| == 95 && code[94] != 0
    requires forall i {:trigger transit(i)} :: transit(i) != 0
    ensures rc == NoError && !e.Valid() && e.slots.Length == 2 && e.slots[1].inUse
  {
    e := new FpEngine(map[p := 0], 2, transit, 0);
    assert FirstFree(e.slots[..]) == 0;
    EmptyChainTakes(before, 0);
    rc := e.Wrap(p, code, before, 0, 0);
  }

  datatype Request =
    | Wrap(p: Addr, code: seq<Word>, before: Addr, after: Addr, udata: Addr)
    | Unwrap(p: Addr, before: Addr, after: Addr)

  // Every run whose transit functions fit keeps cells and slots consistent.
  method Run(e: FpEngine, rs: seq<Request>)
    requires e.Valid()
    requires forall i {:trigger rs[i]} :: 0 <= i < |rs| ==>
      (IsBadAddress(rs[i].p) || rs[i].p in e.base) && (rs[i].Wrap? ==> 2 + |rs[i].code| <= TRANSIT_NUM)
    modifies e, e.slots
    ensures e.Valid()
  {
    var i := 0;
    while i < |rs|
      invariant i <= |rs| && e.Valid()
    {
      match rs[i] {
        case Wrap(p, code, before, after, udata) => var _ := e.Wrap(p, code, before, after, udata);
        case Unwrap(p, before, after) => e.Unwrap(p, before, after);
      }
      i := i + 1;
    }
  }
}
