// The kernel's circular doubly linked lists, with the operations that the
// keyed store uses.  A ring is the head followed by the entries.
module LinkedRings {

  import opened BaseLib

  class Node {
    const did: int
    const data: seq<Byte>
    var next: Node?
    var prev: Node?

    constructor (did: int, data: seq<Byte>)
      ensures this.did == did && this.data == data
    {
      this.did, this.data := did, data;
      next, prev := null, null;
    }
  }

  function Succ(i: nat, n: nat): (j: nat)
    requires i < n
    ensures j < n
  {
    if i + 1 == n then 0 else i + 1
  }

  function Pred(i: nat, n: nat): (j: nat)
    requires i < n
    ensures j < n
  {
    if i == 0 then n - 1 else i - 1
  }

  predicate LinkedAt(c: seq<Node>, i: nat)
    reads c
  {
    i < |c| ==> c[i].next == c[Succ(i, |c|)] && c[i].prev == c[Pred(i, |c|)]
  }

  predicate Distinct(c: seq<Node>) {
    forall i, j :: 0 <= i < j < |c| ==> c[i] != c[j]
  }

  ghost predicate Ring(c: seq<Node>)
    reads c
  {
    |c| > 0 && Distinct(c) && forall i: nat {:trigger LinkedAt(c, i)} :: LinkedAt(c, i)
  }

  // INIT_LIST_HEAD
  method InitListHead(head: Node)
    modifies head
    ensures Ring([head])
  {
    head.next := head;
    head.prev := head;
  }

  // list_add_rcu
  method ListAdd(newl: Node, head: Node, ghost c: seq<Node>)
    requires Ring(c) && c[0] == head && newl !in c
    modifies newl`next, newl`prev, c`next, c`prev
    ensures Ring([head, newl] + c[1..])
  {
    assert LinkedAt(c, 0);
    var prev, next := head, head.next;
    newl.next := next;
    newl.prev := prev;
    prev.next := newl;
    next.prev := newl;
    ghost var d := [head, newl] + c[1..];
    forall i: nat {:trigger LinkedAt(d, i)} | i < |d| ensures LinkedAt(d, i) {
      if i >= 2 {
        assert old(LinkedAt(c, i - 1)) && d[i] == c[i - 1];
      } else {
        assert old(LinkedAt(c, 0));
      }
    }
  }

  // list_del_rcu; the entry still points forward.
  method ListDel(entry: Node, ghost c: seq<Node>, ghost k: nat)
    requires Ring(c) && 0 < k < |c| && c[k] == entry
    modifies c`next, c`prev
    ensures Ring(c[..k] + c[k + 1..])
  {
    assert LinkedAt(c, k);
    var prev, next := entry.prev, entry.next;
    next.prev := prev;
    prev.next := next;
    entry.prev := null;
    ghost var d := c[..k] + c[k + 1..];
    forall i: nat {:trigger LinkedAt(d, i)} | i < |d| ensures LinkedAt(d, i) {
      ghost var m := if i < k then i else i + 1;
      assert old(LinkedAt(c, m)) && d[i] == c[m];
    }
  }

  // list_replace_rcu
  method ListReplace(oldl: Node, newl: Node, ghost c: seq<Node>, ghost k: nat)
    requires Ring(c) && 0 < k < |c| && c[k] == oldl && newl !in c
    modifies newl`next, newl`prev, c`next, c`prev
    ensures Ring(c[k := newl])
  {
    assert LinkedAt(c, k);
    newl.next := oldl.next;
    newl.prev := oldl.prev;
    newl.prev.next := newl;
    newl.next.prev := newl;
    oldl.prev := null;
    ghost var d := c[k := newl];
    forall i: nat {:trigger LinkedAt(d, i)} | i < |d| ensures LinkedAt(d, i) {
      assert old(LinkedAt(c, i));
    }
  }
}
