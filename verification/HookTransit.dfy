// The call order of the transit functions: befores, the origin, afters.
module HookTransit {
  import opened A64
  import opened HookChain

  // The argument block that every callback gets; world is what else it can reach.
  datatype Fargs<W> = Fargs(skipOrigin: bool, args: seq<Addr>, ret: Addr, local: seq<Addr>, world: W)

  // A callback by its address, with its udata; the origin function.
  type Call<!W> = (Addr, Fargs<W>, Addr) -> Fargs<W>
  type OriginCall<!W> = (seq<Addr>, W) -> (Addr, W)

  // ------------------------------------------------------------------- call order

  predicate HasBefore(items: Items, i: nat) {
    i < |items| && items[i].state == Ready && items[i].before != 0
  }

  predicate HasAfter(items: Items, i: nat) {
    i < |items| && items[i].state == Ready && items[i].after != 0
  }

  // The slots below n with a before callback, in call order.
  function BeforeOrder(items: Items, n: nat): seq<nat> {
    if n == 0 then []
    else BeforeOrder(items, n - 1) + if HasBefore(items, n - 1) then [n - 1] else []
  }

  // The slots below n with an after callback, in call order.
  function AfterOrder(items: Items, n: nat): seq<nat> {
    if n == 0 then []
    else (if HasAfter(items, n - 1) then [n - 1] else []) + AfterOrder(items, n - 1)
  }

  // Calls the befores (or the afters) of the listed slots, first to last.
  function CallBefores<W>(items: Items, slots: seq<nat>, call: Call<W>, f: Fargs<W>): Fargs<W>
    requires forall k :: 0 <= k < |slots| ==> slots[k] < |items|
  {
    if slots == [] then f
    else
      var i := slots[|slots| - 1];
      call(items[i].before, CallBefores(items, slots[..|slots| - 1], call, f), items[i].udata)
  }

  function CallAfters<W>(items: Items, slots: seq<nat>, call: Call<W>, f: Fargs<W>): Fargs<W>
    requires forall k :: 0 <= k < |slots| ==> slots[k] < |items|
  {
    if slots == [] then f
    else CallAfters(items, slots[1..], call, call(items[slots[0]].after, f, items[slots[0]].udata))
  }

  function CallOrigin<W>(origin: OriginCall<W>, f: Fargs<W>): Fargs<W> {
    if f.skipOrigin then f else
      var r := origin(f.args, f.world);
      f.(ret := r.0, world := r.1)
  }

  predicate InRange(items: Items, slots: seq<nat>) {
    forall k :: 0 <= k < |slots| ==> slots[k] < |items|
  }

  // Every ready slot with a before callback is called exactly once, in ascending order.
  lemma {:induction false} BeforesAscend(items: Items, n: nat)
    ensures InRange(items, BeforeOrder(items, n))
    ensures forall i: nat :: i in BeforeOrder(items, n) <==> i < n && HasBefore(items, i)
    ensures forall p, q :: 0 <= p < q < |BeforeOrder(items, n)| ==> BeforeOrder(items, n)[p] < BeforeOrder(items, n)[q]
  {
    if n > 0 {
      BeforesAscend(items, n - 1);
      var o := BeforeOrder(items, n - 1);
      assert forall p :: 0 <= p < |o| ==> o[p] in o;
    }
  }

  // Every ready slot with an after callback is called exactly once, in descending order.
  lemma {:induction false} AftersDescend(items: Items, n: nat)
    ensures InRange(items, AfterOrder(items, n))
    ensures forall i: nat :: i in AfterOrder(items, n) <==> i < n && HasAfter(items, i)
    ensures forall p, q :: 0 <= p < q < |AfterOrder(items, n)| ==> AfterOrder(items, n)[p] > AfterOrder(items, n)[q]
  {
    if n > 0 {
      AftersDescend(items, n - 1);
      var o := AfterOrder(items, n - 1);
      assert forall p :: 0 <= p < |o| ==> o[p] in o;
    }
  }

  // With no slot ready the call is the original function's: its return value, and what it
  // did to the world.
  lemma EmptyChainIsOrigin<W>(items: Items, max: nat, call: Call<W>, origin: OriginCall<W>, f: Fargs<W>)
    requires AllEmpty(items) && !f.skipOrigin
    ensures Transited(items, max, call, origin, f)
      == f.(ret := origin(f.args, f.world).0, world := origin(f.args, f.world).1)
  {
    BeforesAscend(items, max);
    AftersDescend(items, max);
    assert BeforeOrder(items, max) == [] by {
      if BeforeOrder(items, max) != [] {
        assert BeforeOrder(items, max)[0] in BeforeOrder(items, max);
      }
    }
    assert AfterOrder(items, max) == [] by {
      if AfterOrder(items, max) != [] {
        assert AfterOrder(items, max)[0] in AfterOrder(items, max);
      }
    }
  }

  // The mark below which the transit looks bounds every ready slot.
  lemma MarkCoversReady(items: Items, max: nat, i: nat)
    requires Settled(items, max)
    ensures HasBefore(items, i) || HasAfter(items, i) ==> i < max
  {
  }

  lemma BeforesAppend<W>(items: Items, slots: seq<nat>, i: nat, call: Call<W>, f: Fargs<W>)
    requires InRange(items, slots) && i < |items|
    ensures CallBefores(items, slots + [i], call, f)
         == call(items[i].before, CallBefores(items, slots, call, f), items[i].udata)
  {
    assert (slots + [i])[..|slots|] == slots;
  }

  // What a call of the hooked function does.
  function Transited<W>(items: Items, max: nat, call: Call<W>, origin: OriginCall<W>, f: Fargs<W>): Fargs<W> {
    BeforesAscend(items, max);
    AftersDescend(items, max);
    CallAfters(items, AfterOrder(items, max), call,
      CallOrigin(origin, CallBefores(items, BeforeOrder(items, max), call, f)))
  }

  lemma BeforesStep<W>(items: Items, i: nat, call: Call<W>, f: Fargs<W>)
    requires i < |items|
    ensures InRange(items, BeforeOrder(items, i)) && InRange(items, BeforeOrder(items, i + 1))
    ensures var g := CallBefores(items, BeforeOrder(items, i), call, f);
      CallBefores(items, BeforeOrder(items, i + 1), call, f)
        == if HasBefore(items, i) then call(items[i].before, g, items[i].udata) else g
  {
    BeforesAscend(items, i);
    BeforesAscend(items, i + 1);
    if HasBefore(items, i) {
      BeforesAppend(items, BeforeOrder(items, i), i, call, f);
    } else {
      assert BeforeOrder(items, i + 1) == BeforeOrder(items, i);
    }
  }

  lemma AftersStep<W>(items: Items, j: nat, call: Call<W>, f: Fargs<W>)
    requires j < |items|
    ensures InRange(items, AfterOrder(items, j)) && InRange(items, AfterOrder(items, j + 1))
    ensures CallAfters(items, AfterOrder(items, j + 1), call, f)
         == CallAfters(items, AfterOrder(items, j), call,
              if HasAfter(items, j) then call(items[j].after, f, items[j].udata) else f)
  {
    AftersDescend(items, j);
    AftersDescend(items, j + 1);
    if HasAfter(items, j) {
      assert AfterOrder(items, j + 1)[1..] == AfterOrder(items, j);
    } else {
      assert AfterOrder(items, j + 1) == AfterOrder(items, j);
    }
  }

  method RunBefores<W>(chain: ChainSlots, call: Call<W>, start: Fargs<W>) returns (fargs: Fargs<W>)
    requires chain.Valid()
    ensures InRange(chain.Contents(), BeforeOrder(chain.Contents(), chain.chainItemsMax))
    ensures fargs == CallBefores(chain.Contents(), BeforeOrder(chain.Contents(), chain.chainItemsMax), call, start)
  {
    ghost var items := chain.Contents();
    fargs := start;
    var i: nat := 0;
    while i < chain.chainItemsMax
      invariant i <= chain.chainItemsMax && InRange(items, BeforeOrder(items, i))
      invariant fargs == CallBefores(items, BeforeOrder(items, i), call, start)
    {
      BeforesStep(items, i, call, start);
      assert items[i] == Item(chain.states[i], chain.udata[i], chain.befores[i], chain.afters[i]);
      if chain.states[i] == Ready && chain.befores[i] != 0 {
        fargs := call(chain.befores[i], fargs, chain.udata[i]);
      }
      i := i + 1;
    }
  }

  method RunAfters<W>(chain: ChainSlots, call: Call<W>, start: Fargs<W>) returns (fargs: Fargs<W>)
    requires chain.Valid()
    ensures InRange(chain.Contents(), AfterOrder(chain.Contents(), chain.chainItemsMax))
    ensures fargs == CallAfters(chain.Contents(), AfterOrder(chain.Contents(), chain.chainItemsMax), call, start)
  {
    ghost var items := chain.Contents();
    AftersDescend(items, chain.chainItemsMax);
    ghost var all := CallAfters(items, AfterOrder(items, chain.chainItemsMax), call, start);
    fargs := start;
    var j: nat := chain.chainItemsMax;
    while j > 0
      invariant j <= chain.chainItemsMax && InRange(items, AfterOrder(items, j))
      invariant all == CallAfters(items, AfterOrder(items, j), call, fargs)
    {
      j := j - 1;
      AftersStep(items, j, call, fargs);
      assert items[j] == Item(chain.states[j], chain.udata[j], chain.befores[j], chain.afters[j]);
      if chain.states[j] == Ready && chain.afters[j] != 0 {
        fargs := call(chain.afters[j], fargs, chain.udata[j]);
      }
    }
  }

  // _transitN and _fp_transitN; the chain is found by scanning back to the head
  // of the transit code, which is not part of this model.
  method Transit<W>(chain: ChainSlots, call: Call<W>, origin: OriginCall<W>, arguments: Fargs<W>)
    returns (fargs: Fargs<W>)
    requires chain.Valid()
    ensures fargs
         == Transited(chain.Contents(), chain.chainItemsMax, call, origin, arguments.(skipOrigin := false))
  {
    fargs := arguments.(skipOrigin := false);
    fargs := RunBefores(chain, call, fargs);
    if !fargs.skipOrigin {
      var r := origin(fargs.args, fargs.world);
      fargs := fargs.(ret := r.0, world := r.1);
    }
    fargs := RunAfters(chain, call, fargs);
  }

  // When the before callbacks leave skip_origin clear, the origin is called with the
  // arguments they left, and the afters see its return value and what it did.
  lemma OriginCalled<W>(items: Items, max: nat, call: Call<W>, origin: OriginCall<W>, f: Fargs<W>)
    requires InRange(items, BeforeOrder(items, max)) && InRange(items, AfterOrder(items, max))
    ensures var g := CallBefores(items, BeforeOrder(items, max), call, f);
      !g.skipOrigin ==>
        Transited(items, max, call, origin, f) ==
          CallAfters(items, AfterOrder(items, max), call,
            g.(ret := origin(g.args, g.world).0, world := origin(g.args, g.world).1))
  {
  }

  // When they leave it set, the afters see what the befores left, and which origin it is
  // does not matter: nothing of it is in the result.
  lemma OriginSkipped<W>(items: Items, max: nat, call: Call<W>, origin: OriginCall<W>, other: OriginCall<W>, f: Fargs<W>)
    requires InRange(items, BeforeOrder(items, max)) && InRange(items, AfterOrder(items, max))
    ensures var g := CallBefores(items, BeforeOrder(items, max), call, f);
      g.skipOrigin ==>
        && Transited(items, max, call, origin, f) == CallAfters(items, AfterOrder(items, max), call, g)
        && Transited(items, max, call, origin, f) == Transited(items, max, call, other, f)
  {
  }

  // ------------------------------------------------------------- a log of the calls

  datatype Event = Called(func: Addr, udata: Addr) | OriginRan(args: seq<Addr>)

  // Callbacks and an origin that write down that they were called; those that skips
  // holds of set skip_origin.
  function Logging(skips: Addr -> bool): Call<seq<Event>> {
    (func: Addr, f: Fargs<seq<Event>>, udata: Addr) =>
      f.(world := f.world + [Called(func, udata)], skipOrigin := f.skipOrigin || skips(func))
  }

  function LoggingOrigin(ret: Addr): OriginCall<seq<Event>> {
    (args: seq<Addr>, log: seq<Event>) => (ret, log + [OriginRan(args)])
  }

  function BeforeEvents(items: Items, slots: seq<nat>): (r: seq<Event>)
    requires InRange(items, slots)
    ensures |r| == |slots|
  {
    seq(|slots|, k requires 0 <= k < |slots| => Called(items[slots[k]].before, items[slots[k]].udata))
  }

  function AfterEvents(items: Items, slots: seq<nat>): (r: seq<Event>)
    requires InRange(items, slots)
    ensures |r| == |slots|
  {
    seq(|slots|, k requires 0 <= k < |slots| => Called(items[slots[k]].after, items[slots[k]].udata))
  }

  predicate AnySkips(items: Items, slots: seq<nat>, skips: Addr -> bool)
    requires InRange(items, slots)
  {
    exists k :: 0 <= k < |slots| && skips(items[slots[k]].before)
  }

  lemma {:induction false} BeforesLogged(items: Items, slots: seq<nat>, skips: Addr -> bool, f: Fargs<seq<Event>>)
    requires InRange(items, slots)
    ensures CallBefores(items, slots, Logging(skips), f)
      == f.(world := f.world + BeforeEvents(items, slots), skipOrigin := f.skipOrigin || AnySkips(items, slots, skips))
    decreases |slots|
  {
    if slots == [] {
      assert f.world + BeforeEvents(items, slots) == f.world;
    } else {
      var n := |slots| - 1;
      var less := slots[..n];
      BeforesLogged(items, less, skips, f);
      var e := Called(items[slots[n]].before, items[slots[n]].udata);
      assert f.world + BeforeEvents(items, less) + [e] == f.world + BeforeEvents(items, slots);
      assert AnySkips(items, slots, skips) <==> AnySkips(items, less, skips) || skips(items[slots[n]].before) by {
        if k :| 0 <= k < |slots| && skips(items[slots[k]].before) && k < n {
          assert less[k] == slots[k];
        }
        if k :| 0 <= k < |less| && skips(items[less[k]].before) {
          assert slots[k] == less[k];
        }
      }
    }
  }

  lemma {:induction false} AftersLogged(items: Items, slots: seq<nat>, skips: Addr -> bool, f: Fargs<seq<Event>>)
    requires InRange(items, slots)
    ensures CallAfters(items, slots, Logging(skips), f).world == f.world + AfterEvents(items, slots)
    ensures CallAfters(items, slots, Logging(skips), f).ret == f.ret
    decreases |slots|
  {
    if slots == [] {
      assert f.world + AfterEvents(items, slots) == f.world;
    } else {
      var i, rest := slots[0], slots[1..];
      var next := Logging(skips)(items[i].after, f, items[i].udata);
      AftersLogged(items, rest, skips, next);
      assert next.world + AfterEvents(items, rest) == f.world + AfterEvents(items, slots);
    }
  }

  // What a call of the hooked function does, in order: the befores from the first slot to
  // the last, each with its udata; the origin, unless one of them has skipped it; and the
  // afters from the last slot to the first.
  lemma CallsAreLogged(items: Items, max: nat, skips: Addr -> bool, ret: Addr, f: Fargs<seq<Event>>)
    requires InRange(items, BeforeOrder(items, max)) && InRange(items, AfterOrder(items, max)) && !f.skipOrigin
    ensures var r, skipped := Transited(items, max, Logging(skips), LoggingOrigin(ret), f), AnySkips(items, BeforeOrder(items, max), skips);
      && r.world == f.world + BeforeEvents(items, BeforeOrder(items, max))
                      + (if skipped then [] else [OriginRan(f.args)]) + AfterEvents(items, AfterOrder(items, max))
      && r.ret == if skipped then f.ret else ret
  {
    var call, origin := Logging(skips), LoggingOrigin(ret);
    var g := CallBefores(items, BeforeOrder(items, max), call, f);
    BeforesLogged(items, BeforeOrder(items, max), skips, f);
    OriginCalled(items, max, call, origin, f);
    OriginSkipped(items, max, call, origin, origin, f);
    if g.skipOrigin {
      AftersLogged(items, AfterOrder(items, max), skips, g);
    } else {
      AftersLogged(items, AfterOrder(items, max), skips, g.(ret := ret, world := g.world + [OriginRan(f.args)]));
    }
  }
}
