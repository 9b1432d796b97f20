// The callback slots of a wrapped function: hook_chain_add, hook_chain_remove
// and the order in which a transit function calls them.  The inline-hook chain
// has 16 slots and the function-pointer chain 32; the code is the same.
module HookChain {
  import opened A64
  import opened Hook

  datatype State = Empty | Ready | Busy
  datatype Item = Item(state: State, udata: Addr, before: Addr, after: Addr)

  const NO_ITEM := Item(Empty, 0, 0, 0)

  type Items = seq<Item>

  // ------------------------------------------------------------- specification

  predicate SameCallback(item: Item, before: Addr, after: Addr) {
    (before != 0 && item.before == before) || (after != 0 && item.after == after)
  }

  // The slot at which adding stops: the first that holds the callback or is empty.
  function StopOfAdd(items: Items, before: Addr, after: Addr): (n: nat)
    ensures n <= |items|
    ensures forall i :: 0 <= i < n ==> items[i].state != Empty && !SameCallback(items[i], before, after)
    ensures n < |items| ==> items[n].state == Empty || SameCallback(items[n], before, after)
  {
    if items == [] || SameCallback(items[0], before, after) || items[0].state == Empty then 0
    else 1 + StopOfAdd(items[1..], before, after)
  }

  function AddResult(items: Items, before: Addr, after: Addr): HookError {
    var n := StopOfAdd(items, before, after);
    if n == |items| then ChainFull
    else if SameCallback(items[n], before, after) then Duplicated
    else NoError
  }

  function Added(items: Items, before: Addr, after: Addr, udata: Addr): (r: Items)
    ensures |r| == |items|
  {
    var n := StopOfAdd(items, before, after);
    if AddResult(items, before, after) == NoError then items[n := Item(Ready, udata, before, after)] else items
  }

  // chain_items_max afterwards.
  function MaxAfterAdd(items: Items, max: nat, before: Addr, after: Addr): nat {
    var n := StopOfAdd(items, before, after);
    if AddResult(items, before, after) == NoError && n + 1 > max then n + 1 else max
  }

  // The first ready slot that holds the callback, or the number of slots.
  function StopOfRemove(items: Items, before: Addr, after: Addr): (n: nat)
    ensures n <= |items|
    ensures forall i :: 0 <= i < n ==> !(items[i].state == Ready && SameCallback(items[i], before, after))
    ensures n < |items| ==> items[n].state == Ready && SameCallback(items[n], before, after)
  {
    if items == [] || (items[0].state == Ready && SameCallback(items[0], before, after)) then 0
    else 1 + StopOfRemove(items[1..], before, after)
  }

  function Removed(items: Items, before: Addr, after: Addr): (r: Items)
    ensures |r| == |items|
  {
    var n := StopOfRemove(items, before, after);
    if n < |items| then items[n := NO_ITEM] else items
  }

  predicate AllEmpty(items: Items) {
    forall i :: 0 <= i < |items| ==> items[i].state == Empty
  }

  // Between calls a slot is empty and cleared, or ready and below the mark.
  predicate Settled(items: Items, max: nat) {
    && max <= |items|
    && forall i {:trigger items[i]} :: 0 <= i < |items| ==>
         items[i] == NO_ITEM || (items[i].state == Ready && i < max)
  }

  // ------------------------------------------------------------------ properties

  // A callback that was added stands, ready and with its udata, in what was the first
  // empty slot, and no other slot has changed; one that was not has changed nothing.
  lemma AddedReads(items: Items, before: Addr, after: Addr, udata: Addr)
    ensures var n, more := StopOfAdd(items, before, after), Added(items, before, after, udata);
      if AddResult(items, before, after) == NoError then
        && n < |items| && items[n].state == Empty && (forall i :: 0 <= i < n ==> items[i].state != Empty)
        && more[n].state == Ready && more[n].before == before && more[n].after == after && more[n].udata == udata
        && forall i :: 0 <= i < |items| && i != n ==> more[i] == items[i]
      else more == items
    ensures var n := StopOfAdd(items, before, after);
      && (AddResult(items, before, after) == NoError <==> n < |items| && !SameCallback(items[n], before, after))
      && (AddResult(items, before, after) == Duplicated <==> n < |items| && SameCallback(items[n], before, after))
      && (AddResult(items, before, after) == ChainFull <==> n == |items|)
  {
  }

  // Removing clears the first ready slot that holds the callback, and no other.
  lemma RemovedReads(items: Items, before: Addr, after: Addr)
    ensures var n, less := StopOfRemove(items, before, after), Removed(items, before, after);
      && (n < |items| ==> less[n] == Item(Empty, 0, 0, 0))
      && forall i :: 0 <= i < |items| && i != n ==> less[i] == items[i]
  {
  }

  // Adding and removing keep the slots settled.
  lemma AddSettles(items: Items, max: nat, before: Addr, after: Addr, udata: Addr)
    requires Settled(items, max)
    ensures Settled(Added(items, before, after, udata), MaxAfterAdd(items, max, before, after))
  {
  }

  lemma RemoveSettles(items: Items, max: nat, before: Addr, after: Addr)
    requires Settled(items, max)
    ensures Settled(Removed(items, before, after), max)
  {
  }

  // Removing right after adding gives back exactly the slots there were.
  lemma RemoveUndoesAdd(items: Items, max: nat, before: Addr, after: Addr, udata: Addr)
    requires Settled(items, max) && (before != 0 || after != 0)
    requires AddResult(items, before, after) == NoError
    ensures Removed(Added(items, before, after, udata), before, after) == items
  {
    var n := StopOfAdd(items, before, after);
    var more := Added(items, before, after, udata);
    assert SameCallback(more[n], before, after);
    assert forall i :: 0 <= i < n ==> more[i] == items[i];
    assert StopOfRemove(more, before, after) == n;
    assert items[n] == NO_ITEM;
  }

  // No callback sits in two slots.
  predicate Distinct(items: Items) {
    forall i, j {:trigger items[i], items[j]} :: 0 <= i < j < |items| && items[i].state == Ready && items[j].state == Ready
      ==> !SameCallback(items[j], items[i].before, items[i].after)
  }

  // The callback already sits in a slot after the one that adding picks.
  predicate HeldLater(items: Items, before: Addr, after: Addr) {
    exists j {:trigger items[j]} :: StopOfAdd(items, before, after) < j < |items|
      && items[j].state == Ready && SameCallback(items[j], before, after)
  }

  // The duplicate check looks no further than the first empty slot, so adding
  // keeps the callbacks distinct exactly when none is held behind that slot.
  lemma AddKeepsDistinct(items: Items, max: nat, before: Addr, after: Addr, udata: Addr)
    requires Settled(items, max) && Distinct(items) && AddResult(items, before, after) == NoError
    ensures Distinct(Added(items, before, after, udata)) <==> !HeldLater(items, before, after)
  {
    var n := StopOfAdd(items, before, after);
    var more := Added(items, before, after, udata);
    assert more[n] == Item(Ready, udata, before, after);
    if HeldLater(items, before, after) {
      var j :| n < j < |items| && items[j].state == Ready && SameCallback(items[j], before, after);
      assert more[j] == items[j];
      assert SameCallback(more[j], more[n].before, more[n].after);
    } else {
      forall i, j | 0 <= i < j < |more| && more[i].state == Ready && more[j].state == Ready
        ensures !SameCallback(more[j], more[i].before, more[i].after)
      {
        if i == n {
          assert more[j] == items[j];
        } else if j == n {
          assert more[i] == items[i] && !SameCallback(items[i], before, after);
        } else {
          assert more[i] == items[i] && more[j] == items[j];
        }
      }
    }
  }

  // Without a hole nothing is held behind the first empty slot.
  predicate Packed(items: Items) {
    forall i, j {:trigger items[i], items[j]} :: 0 <= i < j < |items| && items[j].state == Ready ==> items[i].state == Ready
  }

  lemma PackedHoldsNothingLater(items: Items, before: Addr, after: Addr)
    requires Packed(items) && AddResult(items, before, after) == NoError
    ensures !HeldLater(items, before, after)
  {
    var n := StopOfAdd(items, before, after);
    assert items[n].state == Empty;
  }

  // Adding a, adding b, removing a and adding b again leaves b in two slots.
  lemma DuplicateAfterHole()
    ensures var none := [NO_ITEM, NO_ITEM];
      var ab := Added(Added(none, 1, 0, 7), 2, 0, 7);
      var bb := Added(Removed(ab, 1, 0), 2, 0, 7);
      Distinct(ab) && AddResult(Removed(ab, 1, 0), 2, 0) == NoError && !Distinct(bb)
  {
    var none := [NO_ITEM, NO_ITEM];
    var a := [Item(Ready, 7, 1, 0), NO_ITEM];
    assert StopOfAdd(none, 1, 0) == 0;
    assert Added(none, 1, 0, 7) == a;
    assert StopOfAdd(a, 2, 0) == 1;
    var ab := [Item(Ready, 7, 1, 0), Item(Ready, 7, 2, 0)];
    assert Added(a, 2, 0, 7) == ab;
    assert StopOfRemove(ab, 1, 0) == 0;
    var b := [NO_ITEM, Item(Ready, 7, 2, 0)];
    assert Removed(ab, 1, 0) == b;
    assert StopOfAdd(b, 2, 0) == 0;
    var bb := [Item(Ready, 7, 2, 0), Item(Ready, 7, 2, 0)];
    assert Added(b, 2, 0, 7) == bb;
    assert SameCallback(bb[1], bb[0].before, bb[0].after);
  }

  // -------------------------------------------------------------- the slot arrays

  class ChainSlots {
    var chainItemsMax: nat
    const states: array<State>
    const udata: array<Addr>
    const befores: array<Addr>
    const afters: array<Addr>

    ghost predicate Allocated()
      reads this
    {
      && states.Length == udata.Length == befores.Length == afters.Length
      && udata != befores && befores != afters && udata != afters
      && chainItemsMax <= states.Length
    }

    ghost function Contents(): (items: Items)
      requires Allocated()
      reads this, states, udata, befores, afters
      ensures |items| == states.Length
    {
      seq(states.Length, i requires 0 <= i < states.Length reads this, states, udata, befores, afters requires Allocated() =>
        Item(states[i], udata[i], befores[i], afters[i]))
    }

    ghost predicate Valid()
      reads this, states, udata, befores, afters
    {
      Allocated() && Settled(Contents(), chainItemsMax)
    }

    constructor (num: nat)
      ensures Valid() && states.Length == num && chainItemsMax == 0
      ensures fresh(states) && fresh(udata) && fresh(befores) && fresh(afters)
      ensures AllEmpty(Contents())
    {
      chainItemsMax := 0;
      states := new State[num](_ => Empty);
      udata := new Addr[num](_ => 0);
      befores := new Addr[num](_ => 0);
      afters := new Addr[num](_ => 0);
    }

    // The slots of a chain that is in use.
    constructor From(items: Items, max: nat)
      requires Settled(items, max)
      ensures Valid() && Contents() == items && chainItemsMax == max
      ensures fresh(states) && fresh(udata) && fresh(befores) && fresh(afters)
    {
      chainItemsMax := max;
      states := new State[|items|](i requires 0 <= i < |items| => items[i].state);
      udata := new Addr[|items|](i requires 0 <= i < |items| => items[i].udata);
      befores := new Addr[|items|](i requires 0 <= i < |items| => items[i].before);
      afters := new Addr[|items|](i requires 0 <= i < |items| => items[i].after);
    }

    method Read() returns (items: Items)
      requires Allocated()
      ensures items == Contents()
    {
      items := [];
      var i := 0;
      while i < states.Length
        invariant i == |items| <= states.Length && items == Contents()[..i]
      {
        items := items + [Item(states[i], udata[i], befores[i], afters[i])];
        i := i + 1;
      }
    }

    // hook_chain_add
    method Add(before: Addr, after: Addr, data: Addr) returns (rc: HookError)
      requires Valid()
      modifies this`chainItemsMax, states, udata, befores, afters
      ensures Valid()
      ensures rc == AddResult(old(Contents()), before, after)
      ensures Contents() == Added(old(Contents()), before, after, data)
      ensures chainItemsMax == MaxAfterAdd(old(Contents()), old(chainItemsMax), before, after)
    {
      ghost var items := Contents();
      var i := 0;
      while i < states.Length
        invariant i <= StopOfAdd(items, before, after) && Valid() && Contents() == items
        invariant chainItemsMax == old(chainItemsMax)
      {
        assert items[i] == Item(states[i], udata[i], befores[i], afters[i]);
        if (before != 0 && befores[i] == before) || (after != 0 && afters[i] == after) {
          return Duplicated;
        }
        if states[i] == Empty {
          AddSettles(items, chainItemsMax, before, after, data);
          states[i] := Busy;
          udata[i] := data;
          befores[i] := before;
          afters[i] := after;
          if i + 1 > chainItemsMax {
            chainItemsMax := i + 1;
          }
          states[i] := Ready;
          assert Contents() == items[i := Item(Ready, data, before, after)];
          return NoError;
        }
        i := i + 1;
      }
      return ChainFull;
    }

    // hook_chain_remove
    method Remove(before: Addr, after: Addr)
      requires Valid()
      modifies states, udata, befores, afters
      ensures Valid()
      ensures Contents() == Removed(old(Contents()), before, after)
    {
      ghost var items := Contents();
      RemoveSettles(items, chainItemsMax, before, after);
      var i := 0;
      while i < states.Length
        invariant i <= StopOfRemove(items, before, after) && Valid() && Contents() == items
      {
        assert items[i] == Item(states[i], udata[i], befores[i], afters[i]);
        if states[i] == Ready && ((before != 0 && befores[i] == before) || (after != 0 && afters[i] == after)) {
          states[i] := Busy;
          udata[i] := 0;
          befores[i] := 0;
          afters[i] := 0;
          states[i] := Empty;
          assert Contents() == items[i := NO_ITEM];
          return;
        }
        i := i + 1;
      }
    }

    // The scan before a hook is taken out.
    method IsAllEmpty() returns (r: bool)
      requires Valid()
      ensures r == AllEmpty(Contents())
    {
      var i := 0;
      while i < states.Length
        invariant i <= states.Length
        invariant forall j :: 0 <= j < i ==> Contents()[j].state == Empty
      {
        if states[i] != Empty {
          assert Contents()[i].state != Empty;
          return false;
        }
        i := i + 1;
      }
      return true;
    }
  }

  // The loops above on the chain of a hook slot.
  method AddTo(chain: Items, max: nat, before: Addr, after: Addr, data: Addr)
    returns (rc: HookError, now: Items, nowMax: nat)
    requires Settled(chain, max)
    ensures rc == AddResult(chain, before, after) && now == Added(chain, before, after, data)
    ensures nowMax == MaxAfterAdd(chain, max, before, after) && Settled(now, nowMax)
  {
    var c := new ChainSlots.From(chain, max);
    rc := c.Add(before, after, data);
    now := c.Read();
    nowMax := c.chainItemsMax;
  }

  method RemoveFrom(chain: Items, max: nat, before: Addr, after: Addr) returns (now: Items)
    requires Settled(chain, max)
    ensures now == Removed(chain, before, after) && Settled(now, max)
  {
    var c := new ChainSlots.From(chain, max);
    c.Remove(before, after);
    now := c.Read();
    RemoveSettles(chain, max, before, after);
  }

  method IsEmpty(chain: Items, max: nat) returns (r: bool)
    requires Settled(chain, max)
    ensures r == AllEmpty(chain)
  {
    var c := new ChainSlots.From(chain, max);
    r := c.IsAllEmpty();
  }
}
