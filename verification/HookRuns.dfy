// What holds after any sequence of wraps and unwraps.
module HookRuns {
  import opened A64
  import opened Relocation
  import opened RelocatedBlocks
  import opened Hook
  import opened HookWindow
  import opened HookChain
  import opened HookPool
  import opened HookResolve
  import opened HookEngine

  datatype Request =
    | Wrap(f: Addr, transitNum: nat, before: Addr, after: Addr, udata: Addr)
    | Unwrap(f: Addr, before: Addr, after: Addr, remove: bool)

  // Requests name functions that may be hooked, or no kernel address at all.
  ghost predicate Known(funcs: Functions, r: Request) {
    IsBadAddress(r.f) || r.f in funcs
  }

  // Every run of requests, in any order and number, keeps the code consistent
  // with the slots in use.
  method Run(e: Engine, rs: seq<Request>)
    requires e.Valid()
    requires forall i {:trigger rs[i]} :: 0 <= i < |rs| ==> Known(e.funcs, rs[i])
    modifies e, e.slots
    ensures e.Valid()
  {
    var i := 0;
    while i < |rs|
      invariant i <= |rs| && e.Valid()
    {
      match rs[i] {
        case Wrap(f, n, before, after, udata) => var _ := e.Wrap(f, n, before, after, udata);
        case Unwrap(f, before, after, remove) => e.UnwrapRemove(f, before, after, remove);
      }
      i := i + 1;
    }
  }

  // In every reachable state the code at the origin of a function is the trampoline
  // to the transit code of its slot while one is in use, and the original code otherwise.
  lemma TrampolineWhileHooked(base: Code, funcs: Functions, slots: seq<HookSlot>, mem: Code, transit: nat -> Addr, f: Addr)
    requires World(base, funcs) && Consistent(base, funcs, slots, mem) && Targeted(slots, transit) && f in funcs
    ensures var o, n := Origin(base, funcs, f), WindowSize(base(Origin(base, funcs, f)));
      && o + 24 < TWO64
      && WordsAt(mem, o, n) ==
           if Hooked(slots, o) then Trampoline(base(o), transit(Find(slots, o))) else WordsAt(base, o, n)
  {
    hide Consistent, SlotOk, Origin, WindowSize, Trampoline, WindowOf, Find, WordsAt, Targeted;
    var o := Origin(base, funcs, f);
    var n := WindowSize(base(o));
    assert Hookable(base, funcs, f);
    if Hooked(slots, o) {
      var i := Find(slots, o);
      TargetOfSlot(slots, transit, i);
      UseSlot(base, funcs, slots, mem, i);
      SlotShape(base, funcs, slots[i]);
      WindowHoldsTrampoline(base, funcs, slots, mem, i);
    } else {
      WindowUntouched(base, funcs, slots, mem, f, 0);
      SameWindow(mem, base, o, n);
    }
  }

  lemma TargetOfSlot(slots: seq<HookSlot>, transit: nat -> Addr, i: nat)
    requires Targeted(slots, transit) && i < |slots| && slots[i].inUse
    ensures slots[i].replace == transit(i)
  {
  }

  lemma SameWindow(mem: Code, base: Code, o: Addr, n: nat)
    requires o + 24 < TWO64 && WindowOf(mem, o, 0) == WindowOf(base, o, 0) && n == WindowSize(base(o))
    ensures n <= 5 && WordsAt(mem, o, n) == WordsAt(base, o, n)
  {
    assert |WindowOf(mem, o, 0).words| == |WindowOf(base, o, 0).words|;
  }

  lemma WindowHoldsTrampoline(base: Code, funcs: Functions, slots: seq<HookSlot>, mem: Code, i: nat)
    requires Consistent(base, funcs, slots, mem) && i < |slots| && slots[i].inUse
    ensures |slots[i].win.words| > 0 && slots[i].addr + 24 < TWO64 && |slots[i].win.words| <= 5
    ensures WordsAt(mem, slots[i].addr, |slots[i].win.words|) == TrampOf(slots[i])
  {
    UseSlot(base, funcs, slots, mem, i);
    SlotShape(base, funcs, slots[i]);
    hide Consistent, SlotOk, Origin, WindowSize, Trampoline, WindowOf, TrampOf;
    var n := |slots[i].win.words|;
    forall k | 0 <= k < n ensures WordsAt(mem, slots[i].addr, n)[k] == TrampOf(slots[i])[k] {
      UseCell(base, funcs, slots, mem, i, k);
    }
    UseCell(base, funcs, slots, mem, i, 0);
  }

  // Calling a hooked function reaches the transit code of its slot: from the
  // origin, over the landing pad of a PAC trampoline, with only X17 changed.
  lemma HookedCallIsRedirected<R(!new)>(sem: Sem<R>, base: Code, funcs: Functions, slots: seq<HookSlot>, mem: Code,
      relo: nat -> Addr, transit: nat -> Addr, f: Addr, s: Cpu<R>)
    requires World(base, funcs) && Consistent(base, funcs, slots, mem) && f in funcs && IsA64(sem)
    requires Placed(slots, relo) && BuffersApart(base, funcs, relo) && Targeted(slots, transit)
    requires Hooked(slots, Origin(base, funcs, f)) && s.pc == Origin(base, funcs, f)
    ensures var to := transit(Find(slots, s.pc));
      Steps(sem, Fetched(slots, mem), s, if IsPac(base(s.pc)) then 3 else 2) == s.(pc := to, x := Put(s.x, 17, to))
  {
    hide *;
    var o := s.pc;
    var pac := IsPac(base(o));
    var to := transit(Find(slots, o));
    var code := Fetched(slots, mem);
    TrampolineFetched(base, funcs, slots, mem, relo, transit, f);
    FixedWordsKnown(sem);
    if pac {
      PadSteps(sem, code, s);
      StubJumps(sem, code, o + 4, to, s.(pc := o + 4));
      StepsCompose(sem, code, s, 1, 2);
    } else {
      StubJumps(sem, code, o, to, s);
    }
  }

  lemma PadSteps<R(!new)>(sem: Sem<R>, code: Code, s: Cpu<R>)
    requires IsA64(sem) && code(s.pc) == BTI_JC && s.pc + 4 < TWO64
    ensures Steps(sem, code, s, 1) == s.(pc := s.pc + 4)
  {
    assert DecodesAs(sem, BTI_JC);
    assert Decode(BTI_JC) == Nop;
    hide Decode;
    assert Steps(sem, code, s, 1) == Steps(sem, code, Step(sem, code, s), 0);
  }

  // What is fetched at a hooked origin.
  lemma TrampolineFetched(base: Code, funcs: Functions, slots: seq<HookSlot>, mem: Code, relo: nat -> Addr,
      transit: nat -> Addr, f: Addr)
    requires World(base, funcs) && Consistent(base, funcs, slots, mem) && Targeted(slots, transit) && f in funcs
    requires Placed(slots, relo) && BuffersApart(base, funcs, relo) && Hooked(slots, Origin(base, funcs, f))
    ensures var o, code := Origin(base, funcs, f), Fetched(slots, mem);
      var to := transit(Find(slots, o));
      && o + 24 < TWO64
      && (IsPac(base(o)) ==> code(o) == BTI_JC)
      && Holds(code, if IsPac(base(o)) then o + 4 else o, Stub(to))
  {
    hide *;
    var o := Origin(base, funcs, f);
    var to := transit(Find(slots, o));
    UseHookable(base, funcs, f);
    WindowSizes(base(o));
    TrampolineWhileHooked(base, funcs, slots, mem, transit, f);
    TrampolineWords(base(o), to);
    var n := WindowSize(base(o));
    forall k: nat | k < n
      ensures o + 4 * k < TWO64 && Fetched(slots, mem)(o + 4 * k) == Trampoline(base(o), to)[k]
    {
      FetchedWord(base, funcs, slots, mem, relo, f, k);
    }
    StubHeld(Fetched(slots, mem), o, base(o), to);
  }

  lemma UseHookable(base: Code, funcs: Functions, f: Addr)
    requires World(base, funcs) && f in funcs
    ensures Hookable(base, funcs, f) && Origin(base, funcs, f) + 24 < TWO64
  {
    assert Hookable(base, funcs, f);
  }

  lemma WindowSizes(first: Word)
    ensures WindowSize(first) == (if IsPac(first) then 5 else 4)
  {
  }

  lemma TrampolineWords(first: Word, to: Addr)
    ensures |Trampoline(first, to)| == WindowSize(first) && |Stub(to)| == 4
    ensures IsPac(first) ==> Trampoline(first, to) == [BTI_JC] + Stub(to)
    ensures !IsPac(first) ==> Trampoline(first, to) == Stub(to)
  {
  }

  lemma FetchedWord(base: Code, funcs: Functions, slots: seq<HookSlot>, mem: Code, relo: nat -> Addr, f: Addr, k: nat)
    requires Consistent(base, funcs, slots, mem) && Placed(slots, relo) && BuffersApart(base, funcs, relo)
    requires f in funcs && Origin(base, funcs, f) + 24 < TWO64 && k < 5
    requires var o := Origin(base, funcs, f); k < WindowSize(base(o)) <= 5
    ensures var o := Origin(base, funcs, f);
      Fetched(slots, mem)(o + 4 * k) == WordsAt(mem, o, WindowSize(base(o)))[k]
  {
    hide Consistent, Placed, BuffersApart, Fetched, Origin, WindowSize;
    WindowFetched(base, funcs, slots, mem, relo, f, Origin(base, funcs, f) + 4 * k);
  }

  lemma StubHeld(code: Code, o: Addr, first: Word, to: Addr)
    requires o + 24 < TWO64 && |Trampoline(first, to)| == WindowSize(first) == (if IsPac(first) then 5 else 4)
    requires forall k: nat {:trigger Trampoline(first, to)[k]} :: k < WindowSize(first) ==>
      o + 4 * k < TWO64 && code(o + 4 * k) == Trampoline(first, to)[k]
    requires |Stub(to)| == 4
    requires Trampoline(first, to) == if IsPac(first) then [BTI_JC] + Stub(to) else Stub(to)
    ensures IsPac(first) ==> code(o) == BTI_JC
    ensures Holds(code, if IsPac(first) then o + 4 else o, Stub(to))
  {
    hide Stub, Trampoline, WindowSize, IsPac;
    var b: Addr := if IsPac(first) then o + 4 else o;
    var t := Trampoline(first, to);
    forall i: nat {:trigger HoldsAt(code, b, Stub(to), i)} | i < 4 ensures HoldsAt(code, b, Stub(to), i) {
      assert t[if IsPac(first) then i + 1 else i] == Stub(to)[i];
    }
    assert t[0] == code(o + 4 * 0);
  }

  // The relocated words that hook_prepare left are what the processor fetches
  // behind the relocated entry.
  lemma RelocatedHeld(base: Code, funcs: Functions, slots: seq<HookSlot>, mem: Code, relo: nat -> Addr, i: nat)
    requires Consistent(base, funcs, slots, mem) && Placed(slots, relo) && BuffersApart(base, funcs, relo)
    requires i < |slots| && slots[i].inUse
    ensures SlotOk(base, funcs, slots[i]) && HookWindow.Valid(slots[i].win)
    ensures HoldsWindow(base, slots[i].win)
    ensures Holds(Fetched(slots, mem), slots[i].win.relo, Relocated(slots[i].win))
  {
    assert SlotOk(base, funcs, slots[i]);
    BufferLength(base, funcs, slots[i]);
    var code, ws, b := Fetched(slots, mem), Relocated(slots[i].win), slots[i].win.relo;
    hide Fetched, Relocated, BuffersApart, Placed;
    forall k: nat {:trigger HoldsAt(code, b, ws, k)} | k < |ws| ensures HoldsAt(code, b, ws, k) {
      RelocatedFetched(base, funcs, slots, mem, relo, i, k);
      assert ws[k] == slots[i].buffer[..|ws|][k];
    }
  }

  // While a function is hooked its original behaviour is kept at the relocated
  // code: any run through the displaced window, with the calls it makes, is matched
  // from there, in the memory that the engine left.
  lemma HookedOriginStillRuns<R(!new)>(sem: Sem<R>, base: Code, funcs: Functions, slots: seq<HookSlot>, mem: Code,
      relo: nat -> Addr, f: Addr, same: (R, R) -> bool, s: Cpu<R>, moves: seq<Move>) returns (n: nat)
    requires World(base, funcs) && Consistent(base, funcs, slots, mem) && f in funcs && IsA64(sem)
    requires Placed(slots, relo) && BuffersApart(base, funcs, relo)
    requires Hooked(slots, Origin(base, funcs, f)) && s.pc == Origin(base, funcs, f) && same(s.rest, s.rest)
    requires HookWindow.Valid(slots[Find(slots, s.pc)].win) ==>
      RunFollowed(sem, base, Fetched(slots, mem), slots[Find(slots, s.pc)].win, Slack({17}, same), s, moves)
    ensures var win := slots[Find(slots, s.pc)].win;
      && HookWindow.Valid(win)
      && Simulates(win, Differing(Slack({17}, same), moves), Steps(sem, base, s, Length(moves)),
                   Steps(sem, Fetched(slots, mem), s.(pc := win.relo), n))
  {
    var i := Find(slots, s.pc);
    RelocatedHeld(base, funcs, slots, mem, relo, i);
    hide Fetched, Relocated, BuffersApart, Placed, Consistent, World;
    n := OriginIsCallable(sem, base, Fetched(slots, mem), slots[i].win, same, s, moves);
  }

  // ------------------------------------------------------------ what is resolved

  // Where resolution follows, the processor goes, and does nothing else.
  lemma OnceRuns<R(!new)>(sem: Sem<R>, code: Code, slots: seq<HookSlot>, s: Cpu<R>)
    requires IsA64(sem) && Once(code, slots, s.pc) != s.pc
    ensures Step(sem, code, s) == s.(pc := Once(code, slots, s.pc))
  {
    var w := code(s.pc);
    assert DecodesAs(sem, w);
    if KindOf(w) == KB {
      KindIsDecoding(w);
      TargetIsEffective(KB, s.pc, w);
    } else {
      LandingPads();
    }
  }

  lemma LandingPads()
    ensures Decode(BTI_C) == Nop && Decode(BTI_J) == Nop && Decode(BTI_JC) == Nop
    ensures KindOf(BTI_C) != KB && KindOf(BTI_J) != KB && KindOf(BTI_JC) != KB
  {
  }

  lemma {:induction false} ResolveRuns<R(!new)>(sem: Sem<R>, code: Code, slots: seq<HookSlot>, s: Cpu<R>, n: nat) returns (k: nat)
    requires IsA64(sem)
    ensures k <= n && Steps(sem, code, s, k) == s.(pc := Resolve(code, slots, s.pc, n))
    decreases n
  {
    hide Once, Step, IsA64;
    k := 0;
    if n > 0 {
      var next := Once(code, slots, s.pc);
      if next == s.pc {
        k := ResolveRuns(sem, code, slots, s, n - 1);
      } else {
        OnceRuns(sem, code, slots, s);
        k := ResolveRuns(sem, code, slots, s.(pc := next), n - 1);
        k := k + 1;
        assert Steps(sem, code, s, k) == Steps(sem, code, s.(pc := next), k - 1);
      }
    }
  }

  // In every reachable state a call of a function comes to its origin with nothing but
  // the program counter changed, so that hooking the origin catches every call.
  lemma CallReachesOrigin<R(!new)>(sem: Sem<R>, base: Code, funcs: Functions, slots: seq<HookSlot>, mem: Code, f: Addr, s: Cpu<R>)
    returns (k: nat)
    requires World(base, funcs) && Consistent(base, funcs, slots, mem) && f in funcs && IsA64(sem) && s.pc == f
    ensures Steps(sem, mem, s, k) == s.(pc := Origin(base, funcs, f))
  {
    hide *;
    ResolvesToOrigin(base, funcs, slots, mem, f);
    k := ResolveRuns(sem, mem, slots, s, funcs[f]);
  }

  // And in the original code it stops nowhere before: there, an origin is neither a
  // landing pad nor a branch to another address.
  lemma OriginIsNoPad(base: Code, funcs: Functions, f: Addr)
    requires World(base, funcs) && f in funcs
    ensures var o := Origin(base, funcs, f);
      && base(o) != BTI_C && base(o) != BTI_J && base(o) != BTI_JC
      && (KindOf(base(o)) == KB ==> Effective(KB, o, base(o)) == o)
  {
    var o := Origin(base, funcs, f);
    assert Hookable(base, funcs, f);
    TargetIsEffective(KB, o, base(o));
    LandingPads();
  }

  // A function resolves to the same origin in every reachable state, hooked or not.
  lemma ResolutionIsStable(base: Code, funcs: Functions, slots: seq<HookSlot>, mem: Code,
      slots': seq<HookSlot>, mem': Code, f: Addr)
    requires World(base, funcs) && f in funcs
    requires Consistent(base, funcs, slots, mem) && Consistent(base, funcs, slots', mem')
    ensures Resolve(mem, slots, f, funcs[f]) == Resolve(mem', slots', f, funcs[f])
    ensures Once(mem', slots', Resolve(mem', slots', f, funcs[f])) == Resolve(mem', slots', f, funcs[f])
  {
    ResolvesToOrigin(base, funcs, slots, mem, f);
    ResolvesToOrigin(base, funcs, slots', mem', f);
  }

  // What memory holds at a word of a hooked window.
  lemma CodeInWindow(base: Code, funcs: Functions, slots: seq<HookSlot>, mem: Code, i: nat, a: Addr)
    requires Consistent(base, funcs, slots, mem) && i < |slots| && slots[i].inUse && WordOf(base, slots[i].addr, a)
    ensures |slots[i].win.words| > 0 && 0 <= (a - slots[i].addr) / 4 < |TrampOf(slots[i])|
    ensures mem(a) == TrampOf(slots[i])[(a - slots[i].addr) / 4]
  {
    UseSlot(base, funcs, slots, mem, i);
    SlotShape(base, funcs, slots[i]);
    var k := (a - slots[i].addr) / 4;
    hide Consistent, SlotOk, Trampoline, TrampOf, WindowOf, WindowSize;
    assert a == slots[i].addr + 4 * k;
    UseCell(base, funcs, slots, mem, i, k);
  }

  // The code is determined by the slots in use.
  lemma CodeIsDetermined(base: Code, funcs: Functions, slots: seq<HookSlot>, mem: Code,
      slots': seq<HookSlot>, mem': Code, a: Addr)
    requires Consistent(base, funcs, slots, mem) && Consistent(base, funcs, slots', mem')
    requires |slots| == |slots'|
    requires forall i {:trigger slots[i]} {:trigger slots'[i]} :: 0 <= i < |slots| ==>
      (slots[i].inUse || slots'[i].inUse ==> slots[i] == slots'[i])
    ensures mem(a) == mem'(a)
  {
    if i :| 0 <= i < |slots| && slots[i].inUse && WordOf(base, slots[i].addr, a) {
      hide *;
      CodeInWindow(base, funcs, slots, mem, i, a);
      CodeInWindow(base, funcs, slots', mem', i, a);
    } else {
      assert Untouched(base, slots, a) && Untouched(base, slots', a);
    }
  }

  lemma SameSlotsInUse(was: seq<HookSlot>, mid: seq<HookSlot>, now: seq<HookSlot>, o: Addr, i: nat)
    requires OnlyAt(was, mid, o) && OnlyAt(mid, now, o) && !Hooked(was, o) && !Hooked(now, o) && i < |was|
    ensures was[i].inUse || now[i].inUse ==> was[i] == now[i]
  {
    assert mid[i] == mid[i] && now[i] == now[i];
  }

  // Wrapping a function that was not hooked and unwrapping it again puts every
  // word of the code back.
  method WrapThenUnwrap(e: Engine, f: Addr, transitNum: nat, before: Addr, after: Addr, udata: Addr) returns (rc: HookError)
    requires e.Valid() && f in e.funcs && (before != 0 || after != 0)
    requires !IsBadAddress(f) && !Hooked(e.slots[..], Origin(e.base, e.funcs, f))
    modifies e, e.slots
    ensures e.Valid()
    ensures rc == NoError ==> forall a: Addr {:trigger e.mem(a)} :: e.mem(a) == old(e.mem)(a)
  {
    ghost var o := Origin(e.base, e.funcs, f);
    ghost var was, code := e.slots[..], e.mem;
    rc := e.Wrap(f, transitNum, before, after, udata);
    if rc == NoError {
      ghost var mid := e.slots[..];
      ghost var none: Items := seq(CHAIN_NUM, _ => NO_ITEM);
      EmptyChainTakes(before, after, udata);
      RemoveUndoesAdd(none, 0, before, after, udata);
      e.UnwrapRemove(f, before, after, true);
      forall i {:trigger was[i]} | 0 <= i < |was| ensures was[i].inUse || e.slots[..][i].inUse ==> was[i] == e.slots[..][i] {
        SameSlotsInUse(was, mid, e.slots[..], o, i);
      }
      forall a: Addr {:trigger e.mem(a)} ensures e.mem(a) == code(a) {
        CodeIsDetermined(e.base, e.funcs, was, code, e.slots[..], e.mem, a);
      }
    }
  }
}
