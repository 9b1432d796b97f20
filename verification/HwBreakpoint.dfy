// Hardware breakpoints that move to the next instruction and back, so that
// they stay armed.
module HwBreakpoint {

  const MAX_BREAKPOINTS: nat := 4

  const TYPE_EXEC: int := 0
  const TYPE_RW: int := 3
  const SIZE_8: int := 3

  const KIND_R: nat := 1
  const KIND_W: nat := 2
  const KIND_X: nat := 4

  const ESRCH: int := 3
  const ENOMEM: int := 12
  const EINVAL: int := 22
  const ENOENT: int := 2
  const ENOSYS: int := 38

  // One index of the static arrays: the breakpoint's record, its kernel event
  // and task (0 for none) and the state of the mechanism.
  datatype Slot = Slot(
    addr: nat,
    kind: int,
    size: int,
    enabled: bool,
    hitCount: nat,
    event: nat,
    task: nat,
    atNext: bool,
    originalAddr: nat,
    nextAddr: nat)

  function Empty(): Slot {
    Slot(0, TYPE_EXEC, 2, false, 0, 0, 0, false, 0, 0)
  }

  // What the kernel holds for a registered event.
  datatype Event = Event(addr: nat, kind: nat, len: nat)

  // What registering an event gives: its handle, or an error.
  datatype Outcome = Registered(event: nat) | Refused(err: int)

  function KindOf(kind: int): nat {
    if kind == TYPE_EXEC then KIND_X
    else if kind == 1 then KIND_W
    else if kind == 2 then KIND_R
    else KIND_R + KIND_W
  }

  function LenOf(size: int): nat {
    if size == 0 then 1 else if size == 1 then 2 else if size == 2 then 4 else 8
  }

  // The event watches reads and writes as the type asks, and nothing but execution for
  // type 0; its length is 1 and doubles from size to size.
  lemma EventAsAsked(kind: int, size: int)
    requires TYPE_EXEC <= kind <= TYPE_RW && 0 <= size <= SIZE_8
    ensures KindOf(kind) % 2 == kind / 2 && KindOf(kind) / 2 % 2 == kind % 2 && (KindOf(kind) >= 4 <==> kind == 0)
    ensures LenOf(0) == 1 && (size < SIZE_8 ==> LenOf(size + 1) == 2 * LenOf(size))
  {
  }

  function NextInsn(pc: nat): (n: nat)
    ensures pc < 0x1_0000_0000_0000_0000 ==> n != pc
  {
    (pc + 4) % 0x1_0000_0000_0000_0000
  }

  function Disabled(s: Slot): Slot {
    s.(enabled := false, event := 0, task := 0)
  }

  // Where the mechanism has its event.
  function LiveAddr(s: Slot): nat {
    if s.atNext then s.nextAddr else s.originalAddr
  }

  // A hit of an enabled slot: canModify is whether the kernel offers to move
  // events, moved whether it did so this time.
  function AfterHit(s: Slot, pc: nat, canModify: bool, moved: bool): Slot {
    if !s.atNext then
      var t := s.(hitCount := s.hitCount + 1);
      if !canModify then Disabled(t)
      else if moved then t.(nextAddr := NextInsn(pc), atNext := true)
      else Disabled(t.(nextAddr := NextInsn(pc)))
    else if canModify && moved then s.(atNext := false)
    else s
  }

  // --------------------------------------------------------------- hit sequences

  // A hit: the address it is reported at, and whether the kernel moves the event
  // when it is asked to.
  datatype Hit = Hit(pc: nat, moved: bool)

  // The slot after a sequence of hits; a disabled one has no event to be hit.
  function Hits(s: Slot, canModify: bool, hits: seq<Hit>): Slot {
    if hits == [] then s
    else
      var n := |hits| - 1;
      var t := Hits(s, canModify, hits[..n]);
      if t.enabled then AfterHit(t, hits[n].pc, canModify, hits[n].moved) else t
  }

  // Execute breakpoints report the address at which they sit.
  predicate Reported(s: Slot, canModify: bool, hits: seq<Hit>) {
    hits == [] ||
      var n := |hits| - 1;
      && Reported(s, canModify, hits[..n])
      && hits[n].pc == LiveAddr(Hits(s, canModify, hits[..n]))
  }

  // How many of the hits were at the original address.
  function OriginalHits(s: Slot, canModify: bool, hits: seq<Hit>): nat {
    if hits == [] then 0
    else
      var n := |hits| - 1;
      OriginalHits(s, canModify, hits[..n])
      + (if Hits(s, canModify, hits[..n]).enabled && hits[n].pc == s.originalAddr then 1 else 0)
  }

  // Whatever succeeds or fails, the count is that of the original-address
  // hits, and the breakpoint sits at its address or at the instruction behind it.
  lemma {:induction false} HitsCounted(s: Slot, canModify: bool, hits: seq<Hit>)
    requires s.enabled && !s.atNext && s.originalAddr < 0x1_0000_0000_0000_0000
    requires Reported(s, canModify, hits)
    ensures var t := Hits(s, canModify, hits);
            && t.hitCount == s.hitCount + OriginalHits(s, canModify, hits)
            && t.originalAddr == s.originalAddr
            && (t.atNext ==> canModify && t.nextAddr == NextInsn(s.originalAddr) != s.originalAddr)
            && (t.atNext && s.originalAddr + 4 < 0x1_0000_0000_0000_0000 ==> t.nextAddr == s.originalAddr + 4)
            && LiveAddr(t) == (if t.atNext then t.nextAddr else s.originalAddr)
    decreases |hits|
  {
    if hits != [] {
      HitsCounted(s, canModify, hits[..|hits| - 1]);
    }
  }

  // While every move succeeds, hits alternate between the two addresses.
  lemma {:induction false} HitsAlternate(s: Slot, hits: seq<Hit>)
    requires s.enabled && !s.atNext && forall i :: 0 <= i < |hits| ==> hits[i].moved
    ensures var t := Hits(s, true, hits);
            t.enabled && t.atNext == (|hits| % 2 == 1) && t.hitCount == s.hitCount + (|hits| + 1) / 2
    decreases |hits|
  {
    if hits != [] {
      HitsAlternate(s, hits[..|hits| - 1]);
    }
  }

  // It stays armed exactly as long as every hit away from the next address is
  // followed by a move there.
  lemma {:induction false} ArmedUnlessMoveFails(s: Slot, canModify: bool, hits: seq<Hit>)
    requires s.enabled
    ensures Hits(s, canModify, hits).enabled <==>
      forall i :: 0 <= i < |hits| ==> (canModify && hits[i].moved) || Hits(s, canModify, hits[..i]).atNext
    decreases |hits|
  {
    if hits != [] {
      var n := |hits| - 1;
      var before := hits[..n];
      ArmedUnlessMoveFails(s, canModify, before);
      var t := Hits(s, canModify, before);
      assert forall i :: 0 <= i < n ==> before[..i] == hits[..i];
      if !t.enabled {
        var i :| 0 <= i < n && !((canModify && before[i].moved) || Hits(s, canModify, before[..i]).atNext);
        assert before[i] == hits[i];
      } else {
        forall i | 0 <= i < n ensures (canModify && hits[i].moved) || Hits(s, canModify, hits[..i]).atNext {
          assert before[i] == hits[i] && before[..i] == hits[..i];
        }
      }
    }
  }

  // ------------------------------------------------------------------------- runs

  datatype Request =
    | Set(addr: nat, kind: int, size: int, pid: int, task: nat, outcome: Outcome)
    | Report(event: nat, hit: Hit)
    | Clear(index: int)
    | ClearAll

  // What has happened to a slot since it was set: nothing, or these hits.
  datatype History = Unused | Used(start: Slot, hits: seq<Hit>)

  // The slot is what its history makes of it.
  predicate Explains(h: History, s: Slot, canModify: bool) {
    match h
    case Unused => !s.enabled
    case Used(start, hits) =>
      && start.enabled && !start.atNext && start.hitCount == 0 && start.originalAddr < 0x1_0000_0000_0000_0000
      && s == Hits(start, canModify, hits)
      && (start.kind == TYPE_EXEC ==> Reported(start, canModify, hits))
  }

  lemma OneMoreHit(start: Slot, canModify: bool, hits: seq<Hit>, hit: Hit)
    requires Hits(start, canModify, hits).enabled
    ensures Hits(start, canModify, hits + [hit]) == AfterHit(Hits(start, canModify, hits), hit.pc, canModify, hit.moved)
    ensures Reported(start, canModify, hits) && hit.pc == LiveAddr(Hits(start, canModify, hits))
      ==> Reported(start, canModify, hits + [hit])
  {
    assert (hits + [hit])[..|hits|] == hits;
  }

  lemma HitGrows(h: History, s: Slot, canModify: bool, hit: Hit, event: Event)
    requires Explains(h, s, canModify) && s.enabled && event.addr == LiveAddr(s)
    requires event.kind == KindOf(s.kind) || event.kind == KIND_X
    requires event.kind == KIND_X ==> hit.pc == event.addr
    ensures h.Used?
    ensures Explains(Used(h.start, h.hits + [hit]), AfterHit(s, hit.pc, canModify, hit.moved), canModify)
  {
    OneMoreHit(h.start, canModify, h.hits, hit);
    KindStays(h.start, canModify, h.hits);
  }

  lemma {:induction false} KindStays(s: Slot, canModify: bool, hits: seq<Hit>)
    ensures Hits(s, canModify, hits).kind == s.kind
    decreases |hits|
  {
    if hits != [] {
      KindStays(s, canModify, hits[..|hits| - 1]);
    }
  }

  // What a history says about the count of an execute breakpoint.
  lemma CountIsExplained(h: History, s: Slot, canModify: bool)
    requires Explains(h, s, canModify) && h.Used? && h.start.kind == TYPE_EXEC
    ensures s.hitCount == OriginalHits(h.start, canModify, h.hits)
  {
    HitsCounted(h.start, canModify, h.hits);
  }

  // -------------------------------------------------------------------- the class

  class Breakpoints {
    const slots: array<Slot>
    // The events that the kernel holds for this module.
    var live: map<nat, Event>
    const canModify: bool
    const canRegisterUser: bool
    const canFindTasks: bool

    // A slot owns a live event exactly while it is enabled; the event sits
    // where the mechanism says, and watches what was asked for until the first
    // move makes it an execute breakpoint.
    predicate SlotOk(i: nat)
      requires slots.Length == MAX_BREAKPOINTS
      reads this, slots
    {
      i < MAX_BREAKPOINTS ==>
        var s := slots[i];
        if s.enabled then
          && s.event != 0 && s.event in live
          && live[s.event].addr == LiveAddr(s) && s.originalAddr == s.addr < 0x1_0000_0000_0000_0000
          && (live[s.event].kind == KindOf(s.kind) || live[s.event].kind == KIND_X)
          && (s.atNext ==> live[s.event].kind == KIND_X)
          && (s.kind == TYPE_EXEC && s.atNext ==> s.nextAddr == NextInsn(s.addr))
        else s.event == 0 && s.task == 0
    }

    predicate OwnersApart(i: nat, j: nat)
      requires slots.Length == MAX_BREAKPOINTS
      reads slots
    {
      i < j < MAX_BREAKPOINTS && slots[i].enabled && slots[j].enabled ==> slots[i].event != slots[j].event
    }

    predicate Owned(e: nat)
      requires slots.Length == MAX_BREAKPOINTS
      reads slots
    {
      exists i :: 0 <= i < MAX_BREAKPOINTS && slots[i].enabled && slots[i].event == e
    }

    ghost predicate Valid()
      reads this, slots
    {
      && slots.Length == MAX_BREAKPOINTS && 0 !in live
      && (forall i: nat {:trigger SlotOk(i)} :: SlotOk(i))
      && (forall i: nat, j: nat {:trigger OwnersApart(i, j)} :: OwnersApart(i, j))
      && (forall e {:trigger Owned(e)} {:trigger e in live} :: e in live ==> Owned(e))
    }

    // hw_breakpoint_init that succeeds: the system-wide calls are there, the
    // others may be missing.
    constructor (canModify: bool, canRegisterUser: bool, canFindTasks: bool)
      ensures Valid() && fresh(slots) && live == map[]
      ensures forall i :: 0 <= i < MAX_BREAKPOINTS ==> slots[i] == Empty()
    {
      slots := new Slot[MAX_BREAKPOINTS](_ => Empty());
      live := map[];
      this.canModify, this.canRegisterUser, this.canFindTasks := canModify, canRegisterUser, canFindTasks;
    }

    // Slot i took a new value, and its event with it.
    twostate lemma SlotChanged(i: nat)
      requires old(Valid()) && slots.Length == MAX_BREAKPOINTS && i < MAX_BREAKPOINTS
      requires forall j :: 0 <= j < MAX_BREAKPOINTS && j != i ==> slots[j] == old(slots[j])
      requires SlotOk(i)
      requires slots[i].enabled ==> slots[i].event !in old(live) || (old(slots[i].enabled) && slots[i].event == old(slots[i].event))
      requires forall e :: e in live ==> e in old(live) || e == slots[i].event
      requires forall e :: e in live && !(old(slots[i].enabled) && e == old(slots[i].event)) && e in old(live) ==> live[e] == old(live)[e]
      requires forall e :: e in old(live) && !(old(slots[i].enabled) && e == old(slots[i].event)) ==> e in live
      requires old(slots[i].enabled) && !(slots[i].enabled && slots[i].event == old(slots[i].event)) ==> old(slots[i].event) !in live
      requires 0 !in live
      ensures Valid()
    {
      forall j: nat {:trigger SlotOk(j)} ensures SlotOk(j) {
        if j < MAX_BREAKPOINTS && j != i {
          assert old(SlotOk(j)) && old(SlotOk(i)) && old(OwnersApart(i, j)) && old(OwnersApart(j, i));
        }
      }
      forall j: nat, k: nat {:trigger OwnersApart(j, k)} ensures OwnersApart(j, k) {
        assert old(OwnersApart(j, k)) && old(SlotOk(j)) && old(SlotOk(k));
        assert old(SlotOk(i)) && old(OwnersApart(i, j)) && old(OwnersApart(j, i)) && old(OwnersApart(i, k)) && old(OwnersApart(k, i));
      }
      forall e | e in live ensures Owned(e) {
        if e != slots[i].event {
          assert old(Owned(e));
          var j :| 0 <= j < MAX_BREAKPOINTS && old(slots[j].enabled) && old(slots[j].event) == e;
          assert j != i;
          assert slots[j].enabled && slots[j].event == e;
        }
      }
    }

    // The slot that a hit belongs to.
    function OwnerOf(ev: nat): (i: nat)
      requires Valid() && ev in live
      reads this, slots
      ensures i < MAX_BREAKPOINTS && slots[i].enabled && slots[i].event == ev
    {
      assert Owned(ev);
      if slots[0].enabled && slots[0].event == ev then 0
      else if slots[1].enabled && slots[1].event == ev then 1
      else if slots[2].enabled && slots[2].event == ev then 2
      else 3
    }

    // hw_bp_handler for an event of the kernel; moved is whether the kernel
    // moves the event when it is asked to.
    method Handler(ev: nat, pc: nat, moved: bool)
      requires Valid() && ev in live && pc < 0x1_0000_0000_0000_0000
      requires live[ev].kind == KIND_X ==> pc == live[ev].addr
      modifies slots, this`live
      ensures Valid()
      ensures var i := old(OwnerOf(ev));
              && slots[..] == old(slots[..])[i := AfterHit(old(slots[i]), pc, canModify, moved)]
              && live == (if !slots[i].enabled then old(live) - {ev}
                          else if canModify && moved then old(live)[ev := Event(LiveAddr(slots[i]), KIND_X, 4)]
                          else old(live))
    {
      ghost var owner := OwnerOf(ev);
      var i := 0;
      while i < MAX_BREAKPOINTS
        invariant i <= owner && slots[..] == old(slots[..]) && live == old(live)
        invariant forall j :: 0 <= j < i ==> !(slots[j].event == ev && slots[j].enabled)
      {
        var s := slots[i];
        if s.event == ev && s.enabled {
          assert OwnersApart(i, owner) && OwnersApart(owner, i) && SlotOk(i);
          if !s.atNext {
            s := s.(hitCount := s.hitCount + 1);
            if canModify {
              s := s.(nextAddr := NextInsn(pc));
              if moved {
                live := live[ev := Event(s.nextAddr, KIND_X, LenOf(2))];
                s := s.(atNext := true);
              } else {
                live := live - {ev};
                s := s.(enabled := false, event := 0, task := 0);
              }
            } else {
              live := live - {ev};
              s := s.(enabled := false, event := 0, task := 0);
            }
          } else {
            if canModify && moved {
              live := live[ev := Event(s.originalAddr, KIND_X, LenOf(2))];
              s := s.(atNext := false);
            }
          }
          slots[i] := s;
          SlotChanged(i);
          break;
        }
        i := i + 1;
      }
    }

    // The first slot that is not enabled.
    method FreeSlot() returns (i: nat)
      requires Valid()
      ensures i <= MAX_BREAKPOINTS && (i < MAX_BREAKPOINTS ==> !slots[i].enabled)
      ensures forall j :: 0 <= j < i ==> slots[j].enabled
    {
      i := 0;
      while i < MAX_BREAKPOINTS
        invariant i <= MAX_BREAKPOINTS && forall j :: 0 <= j < i ==> slots[j].enabled
      {
        if !slots[i].enabled { break; }
        i := i + 1;
      }
    }

    // The error that the arguments give, or 0; task is what the lookup of the
    // process finds, 0 for nothing.
    function ArgumentError(addr: nat, kind: int, size: int, pid: int, task: nat): int
      reads this
    {
      if kind < TYPE_EXEC || kind > TYPE_RW then -EINVAL
      else if size < 0 || size > SIZE_8 then -EINVAL
      else if addr == 0 then -EINVAL
      else if pid > 0 && !canRegisterUser then -ENOSYS
      else if pid > 0 && !canFindTasks then -ENOSYS
      else if pid > 0 && task == 0 then -ESRCH
      else 0
    }

    // hw_breakpoint_set_for_pid
    method SetForPid(addr: nat, kind: int, size: int, pid: int, task: nat, outcome: Outcome) returns (rc: int)
      requires Valid() && addr < 0x1_0000_0000_0000_0000
      requires outcome.Registered? ==> outcome.event != 0 && outcome.event !in live
      requires outcome.Refused? ==> -4095 <= outcome.err < 0
      modifies slots, this`live
      ensures Valid()
      ensures rc < 0 ==> slots[..] == old(slots[..]) && live == old(live)
      ensures rc < 0 <==> (
        || ArgumentError(addr, kind, size, pid, task) != 0
        || (forall j :: 0 <= j < MAX_BREAKPOINTS ==> old(slots[j].enabled))
        || outcome.Refused?)
      ensures rc >= 0 ==>
        && rc < MAX_BREAKPOINTS && !old(slots[rc].enabled)
        && (forall j :: 0 <= j < rc ==> old(slots[j].enabled))
        && outcome.Registered?
        && slots[..] == old(slots[..])[rc :=
          Slot(addr, kind, size, true, 0, outcome.event, if pid > 0 then task else 0, false, addr, 0)]
        && live == old(live)[outcome.event := Event(addr, KindOf(kind), LenOf(size))]
    {
      rc := ArgumentError(addr, kind, size, pid, task);
      if rc != 0 { return; }
      var target := if pid > 0 then task else 0;
      var i := FreeSlot();
      if i >= MAX_BREAKPOINTS { return -ENOMEM; }
      match outcome {
        case Refused(err) =>
          rc := err;
        case Registered(bp) =>
          assert SlotOk(i);
          live := live[bp := Event(addr, KindOf(kind), LenOf(size))];
          slots[i] := Slot(addr, kind, size, true, 0, bp, target, false, addr, 0);
          SlotChanged(i);
          rc := i;
      }
    }

    // hw_breakpoint_clear
    method Clear(index: int) returns (rc: int)
      requires Valid()
      modifies slots, this`live
      ensures Valid()
      ensures rc == if index < 0 || index >= MAX_BREAKPOINTS then -EINVAL else if !old(slots[index].enabled) then -ENOENT else 0
      ensures rc != 0 ==> slots[..] == old(slots[..]) && live == old(live)
      ensures rc == 0 ==>
        && slots[..] == old(slots[..])[index := Disabled(old(slots[index])).(addr := 0, hitCount := 0)]
        && live == old(live) - {old(slots[index].event)}
    {
      if index < 0 || index >= MAX_BREAKPOINTS { return -EINVAL; }
      var s := slots[index];
      if !s.enabled { return -ENOENT; }
      assert SlotOk(index);
      live := live - {s.event};
      s := s.(event := 0, task := 0);
      slots[index] := s.(enabled := false, addr := 0, hitCount := 0);
      SlotChanged(index);
      rc := 0;
    }

    // hw_breakpoint_clear_all leaves no event in the kernel.
    method ClearAll()
      requires Valid()
      modifies slots, this`live
      ensures Valid() && live == map[]
      ensures forall i :: 0 <= i < MAX_BREAKPOINTS ==> !slots[i].enabled
    {
      var i := 0;
      while i < MAX_BREAKPOINTS
        invariant i <= MAX_BREAKPOINTS && Valid()
        invariant forall j :: 0 <= j < i ==> !slots[j].enabled
      {
        if slots[i].enabled {
          var rc := Clear(i);
          assert forall j :: 0 <= j <= i ==> slots[j] == slots[..][j];
        }
        i := i + 1;
      }
      assert forall e: nat :: !Owned(e);
      assert live.Keys == {};
    }

    ghost predicate Explained(log: seq<History>)
      requires slots.Length == MAX_BREAKPOINTS
      reads this, slots
    {
      |log| == MAX_BREAKPOINTS && forall i {:trigger log[i]} :: 0 <= i < MAX_BREAKPOINTS ==> Explains(log[i], slots[i], canModify)
    }

    // The kernel reports hits of the events it holds; the hit joins the history
    // of the slot that owns the event.
    method ReportHit(ev: nat, hit: Hit, ghost log: seq<History>) returns (ghost now: seq<History>)
      requires Valid() && Explained(log) && ev in live && hit.pc < 0x1_0000_0000_0000_0000
      requires live[ev].kind == KIND_X ==> hit.pc == live[ev].addr
      modifies slots, this`live
      ensures Valid() && Explained(now)
      ensures var i := old(OwnerOf(ev)); log[i].Used? && now == log[i := Used(log[i].start, log[i].hits + [hit])]
    {
      ghost var i := OwnerOf(ev);
      ghost var s := slots[i];
      ghost var h := log[i];
      assert SlotOk(i) && Explains(h, s, canModify);
      HitGrows(h, s, canModify, hit, live[ev]);
      now := log[i := Used(h.start, h.hits + [hit])];
      Handler(ev, hit.pc, hit.moved);
      assert forall j :: 0 <= j < MAX_BREAKPOINTS ==> slots[j] == slots[..][j] && old(slots[j]) == old(slots[..])[j];
    }

    // A breakpoint that is set begins a history.
    method SetLogged(addr: nat, kind: int, size: int, pid: int, task: nat, outcome: Outcome, ghost log: seq<History>)
      returns (rc: int, ghost now: seq<History>)
      requires Valid() && Explained(log) && addr < 0x1_0000_0000_0000_0000 && AnswerOk(outcome)
      modifies slots, this`live
      ensures Valid() && Explained(now) && rc < MAX_BREAKPOINTS
      ensures now == if rc >= 0 then log[rc := Used(slots[rc], [])] else log
    {
      rc := SetForPid(addr, kind, size, pid, task, outcome);
      now := if rc >= 0 then log[rc := Used(slots[rc], [])] else log;
      assert forall j :: 0 <= j < MAX_BREAKPOINTS ==> slots[j] == slots[..][j] && old(slots[j]) == old(slots[..])[j];
    }

    // One that is cleared ends it.
    method ClearLogged(index: int, ghost log: seq<History>) returns (rc: int, ghost now: seq<History>)
      requires Valid() && Explained(log)
      modifies slots, this`live
      ensures Valid() && Explained(now) && (rc == 0 ==> 0 <= index < MAX_BREAKPOINTS)
      ensures now == if rc == 0 then log[index := Unused] else log
    {
      rc := Clear(index);
      now := if rc == 0 then log[index := Unused] else log;
      assert forall j :: 0 <= j < MAX_BREAKPOINTS ==> slots[j] == slots[..][j] && old(slots[j]) == old(slots[..])[j];
    }

    // Any run of requests keeps the invariant and the histories, so that by
    // CountIsExplained every count is that of the hits at the original address.
    method Run(requests: seq<Request>, ghost start: seq<History>) returns (ghost log: seq<History>)
      requires Valid() && Explained(start)
      modifies slots, this`live
      ensures Valid() && Explained(log)
    {
      log := start;
      for k := 0 to |requests|
        invariant Valid() && Explained(log)
      {
        match requests[k] {
          case Set(addr, kind, size, pid, task, outcome) =>
            if addr < 0x1_0000_0000_0000_0000 && AnswerOk(outcome) {
              var rc;
              rc, log := SetLogged(addr, kind, size, pid, task, outcome, log);
            }
          case Report(ev, hit) =>
            if ev in live && hit.pc < 0x1_0000_0000_0000_0000 && (live[ev].kind != KIND_X || hit.pc == live[ev].addr) {
              log := ReportHit(ev, hit, log);
            }
          case Clear(index) =>
            var rc;
            rc, log := ClearLogged(index, log);
          case ClearAll =>
            ClearAll();
            log := seq(MAX_BREAKPOINTS, _ => Unused);
        }
      }
    }

    // A registered event is a new one; a refusal is an error number.
    predicate AnswerOk(outcome: Outcome)
      reads this
    {
      match outcome
      case Registered(e) => e != 0 && e !in live
      case Refused(err) => -4095 <= err < 0
    }
  }
}
