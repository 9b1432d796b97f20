// A callee that saves its return address on the stack is one that the theorem about
// runs covers: the two runs then differ in a word below the stack pointer.
module SavedReturn {
  import opened A64
  import opened HookWindow

  // The part of the state that matters here: the stack pointer and 64-bit words.
  datatype Stack = Stack(sp: Addr, cell: Addr -> Addr)

  // Equal but for the words below the stack pointer.
  ghost predicate Alike(s: Stack, t: Stack) {
    s.sp == t.sp && forall a: Addr {:trigger t.cell(a)} :: a >= s.sp ==> s.cell(a) == t.cell(a)
  }

  // STP X29, X30, [SP, #-16]! and LDP X29, X30, [SP], #16
  const SAVE: Word := 0xA9BF_7BFD
  const RESTORE: Word := 0xA8C1_7BFD
  const RETURN: Word := 0xD65F_03C0

  function Stored(cell: Addr -> Addr, at: Addr, v: Addr, w: Addr): Addr -> Addr {
    a => if a == at then v else if a == Plus(at, 8) then w else cell(a)
  }

  function Saved(x: Regs, r: Stack): Stack {
    var sp := Plus(r.sp, 0xFFFF_FFFF_FFFF_FFF0);
    Stack(sp, Stored(r.cell, sp, Get(x, 29), Get(x, 30)))
  }

  function Restored(x: Regs, r: Stack): (Regs, Stack) {
    (Put(Put(x, 29, r.cell(r.sp)), 30, r.cell(Plus(r.sp, 8))), r.(sp := Plus(r.sp, 16)))
  }

  // The machine executes the two instructions as the manual says.
  ghost predicate Stacks(sem: Sem<Stack>) {
    && (forall x: Regs, f: Flags, r: Stack {:trigger sem.plain(SAVE, x, f, r)} :: sem.plain(SAVE, x, f, r) == (x, f, Saved(x, r)))
    && (forall x: Regs, f: Flags, r: Stack {:trigger sem.plain(RESTORE, x, f, r)} ::
          sem.plain(RESTORE, x, f, r) == (Restored(x, r).0, f, Restored(x, r).1))
  }

  ghost predicate HoldsCallee(code: Code, at: Addr) {
    at + 12 < TWO64 && code(at) == SAVE && code(at + 4) == RESTORE && code(at + 8) == RETURN
  }

  // What three steps of the callee do.
  lemma CalleeRuns(sem: Sem<Stack>, code: Code, s: Cpu<Stack>)
    requires IsA64(sem) && Stacks(sem) && HoldsCallee(code, s.pc) && 16 <= s.rest.sp
    ensures var t := Steps(sem, code, s, 3);
      && t.pc == Get(s.x, 30) && t.flags == s.flags && t.rest == Saved(s.x, s.rest).(sp := s.rest.sp)
      && forall r: Reg {:trigger Get(t.x, r)} :: Get(t.x, r) == Get(s.x, r)
  {
    var s1, s2, s3 := Step(sem, code, s), Step(sem, code, Step(sem, code, s)), Step(sem, code, Step(sem, code, Step(sem, code, s)));
    CalleeWords(sem);
    assert s1 == s.(pc := s.pc + 4, rest := Saved(s.x, s.rest));
    var back := Restored(s.x, s1.rest);
    assert s2 == s.(pc := s.pc + 8, x := back.0, rest := back.1);
    assert s3 == s2.(pc := Get(back.0, 30));
    ThreeSteps(sem, code, s);
  }

  lemma CalleeWords(sem: Sem<Stack>)
    requires IsA64(sem)
    ensures sem.decode(SAVE) == Other(SAVE) && sem.decode(RESTORE) == Other(RESTORE) && sem.decode(RETURN) == Ret(30)
  {
    assert DecodesAs(sem, SAVE) && DecodesAs(sem, RESTORE) && DecodesAs(sem, RETURN);
  }

  lemma ThreeSteps(sem: Sem<Stack>, code: Code, s: Cpu<Stack>)
    ensures Steps(sem, code, s, 3) == Step(sem, code, Step(sem, code, Step(sem, code, s)))
  {
    hide Step;
    var s1 := Step(sem, code, s);
    var s2 := Step(sem, code, s1);
    assert Steps(sem, code, s, 3) == Steps(sem, code, s1, 2);
    assert Steps(sem, code, s1, 2) == Steps(sem, code, s2, 1);
    assert Steps(sem, code, s2, 1) == Steps(sem, code, Step(sem, code, s2), 0);
  }

  // The callee that saves and restores its return address returns, as a call in a
  // followed run has to.
  lemma SavingCalleeReturns(sem: Sem<Stack>, original: Code, code: Code, win: Window, d: Slack<Stack>, s: Cpu<Stack>)
    requires Valid(win) && IsA64(sem) && Stacks(sem) && 16 <= s.rest.sp && !InWindow(win, s.pc)
    requires HoldsCallee(original, s.pc) && HoldsCallee(code, s.pc)
    requires forall a: Stack, b: Stack {:trigger d.same(a, b)} :: d.same(a, b) <==> Alike(a, b)
    ensures Returns(sem, original, code, win, d, s, 3)
  {
    CalleeRuns(sem, original, s);
    var v := Steps(sem, original, s, 3);
    hide Steps, Stacks, IsA64, HoldsCallee;
    forall u: Cpu<Stack> {:trigger ReturnsFrom(sem, code, d, v, u)} | Simulates(win, d, s, u)
      ensures ReturnsFrom(sem, code, d, v, u)
    {
      assert d.same(s.rest, u.rest);
      CalleeRuns(sem, code, u);
      StillAlike(s, u, v, Steps(sem, code, u, 3));
      assert SameBut(d.regs, v.x, Steps(sem, code, u, 3).x);
      assert BackIn(d, v, u, Steps(sem, code, u, 3));
    }
  }

  lemma StillAlike(s: Cpu<Stack>, u: Cpu<Stack>, v: Cpu<Stack>, w: Cpu<Stack>)
    requires Alike(s.rest, u.rest) && 16 <= s.rest.sp
    requires v.rest == Saved(s.x, s.rest).(sp := s.rest.sp) && w.rest == Saved(u.x, u.rest).(sp := u.rest.sp)
    ensures Alike(v.rest, w.rest)
  {
  }
}
