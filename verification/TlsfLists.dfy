// The segregated free lists: taking a block out of its list and putting a
// block at the head of one.
module TlsfLists {
  import opened Bits
  import opened TlsfMapping
  import opened TlsfBlocks

  // Every block keeps its physical description; only list places may change.
  ghost predicate SamePhysical(bs: Blks, bs': Blks) {
    && bs'.Keys == bs.Keys
    && forall a {:trigger bs'[a]} :: a in bs ==> bs'[a] == bs[a].(node := bs'[a].node)
  }

  ghost function WithPrev(node: Node, p: nat): Node {
    if node.In? then node.(prev := p) else node
  }

  ghost function WithNext(node: Node, n: nat): Node {
    if node.In? then node.(next := n) else node
  }

  // remove_free_block: neighbours of b in its list are joined.
  ghost function Unlink(bs: Blks, nul: nat, b: nat): Blks
    requires b in bs && bs[b].node.In?
  {
    var n := bs[b].node;
    map a | a in bs ::
      if a == b then bs[a].(node := Out)
      else if a == n.next && a != nul then bs[a].(node := WithPrev(bs[a].node, n.prev))
      else if a == n.prev && a != nul then bs[a].(node := WithNext(bs[a].node, n.next))
      else bs[a]
  }

  ghost function UnlinkHeads(bs: Blks, heads: Heads, nul: nat, b: nat): Heads
    requires b in bs && bs[b].node.In? && InRange(bs[b].node.idx) && HeadsOk(heads)
  {
    if heads[bs[b].node.idx] == b then heads[bs[b].node.idx := bs[b].node.next] else heads
  }

  // The blocks whose list fields an operation on b can touch.
  ghost predicate ListNear(bs: Blks, heads: Heads, nul: nat, b: nat)
    requires HeadsOk(heads)
  {
    && b in bs && bs[b].node.In? && InRange(bs[b].node.idx) && nul !in bs
    && ListAt(bs, heads, nul, b)
    && (bs[b].node.next != nul ==> ListAt(bs, heads, nul, bs[b].node.next))
    && (bs[b].node.prev != nul ==> ListAt(bs, heads, nul, bs[b].node.prev))
  }

  lemma UnlinkListAt(bs: Blks, heads: Heads, nul: nat, b: nat, a: nat)
    requires HeadsOk(heads) && ListNear(bs, heads, nul, b)
    requires a in bs && ListAt(bs, heads, nul, a)
    ensures ListAt(Unlink(bs, nul, b), UnlinkHeads(bs, heads, nul, b), nul, a)
  {
    var n := bs[b].node;
    if a == b {
    } else if a == n.next {
    } else if a == n.prev {
    } else if bs[a].node.In? {
      assert bs[a].node.next != b && bs[a].node.prev != b;
    }
  }

  lemma UnlinkHeadAt(bs: Blks, heads: Heads, nul: nat, b: nat, i: ListIndex)
    requires Lists(bs, heads, nul) && b in bs && bs[b].node.In? && InRange(bs[b].node.idx) && InRange(i)
    ensures HeadsOk(UnlinkHeads(bs, heads, nul, b))
    ensures HeadAt(Unlink(bs, nul, b), UnlinkHeads(bs, heads, nul, b), nul, i)
  {
    assert ListAt(bs, heads, nul, b);
    assert HeadAt(bs, heads, nul, i);
    var n := bs[b].node;
    if n.next != nul { assert ListAt(bs, heads, nul, n.next); }
  }

  lemma UnlinkKeepsLists(bs: Blks, heads: Heads, nul: nat, b: nat)
    requires Lists(bs, heads, nul) && b in bs && bs[b].node.In? && InRange(bs[b].node.idx)
    ensures Lists(Unlink(bs, nul, b), UnlinkHeads(bs, heads, nul, b), nul)
  {
    assert ListNear(bs, heads, nul, b) by { assert ListAt(bs, heads, nul, b); }
    forall a | a in bs
      ensures ListAt(Unlink(bs, nul, b), UnlinkHeads(bs, heads, nul, b), nul, a)
    {
      assert ListAt(bs, heads, nul, a);
      UnlinkListAt(bs, heads, nul, b, a);
    }
    forall i | InRange(i)
      ensures HeadAt(Unlink(bs, nul, b), UnlinkHeads(bs, heads, nul, b), nul, i)
    {
      UnlinkHeadAt(bs, heads, nul, b, i);
    }
  }

  // bs' is bs with block b taken out of its list.
  ghost predicate Delisted(bs: Blks, bs': Blks, b: nat) {
    && SamePhysical(bs, bs')
    && forall a {:trigger bs'[a]} :: a in bs ==>
         && (bs'[a].node.In? <==> a != b && bs[a].node.In?)
         && (bs'[a].node.In? ==> bs'[a].node.idx == bs[a].node.idx)
  }

  // bs' is bs with block b put into list i.
  ghost predicate Enlisted(bs: Blks, bs': Blks, b: nat, i: ListIndex) {
    && SamePhysical(bs, bs')
    && forall a {:trigger bs'[a]} :: a in bs ==>
         && (bs'[a].node.In? <==> a == b || bs[a].node.In?)
         && (bs'[a].node.In? ==> bs'[a].node.idx == if a == b then i else bs[a].node.idx)
  }

  lemma UnlinkDelists(bs: Blks, nul: nat, b: nat)
    requires b in bs && bs[b].node.In?
    ensures Delisted(bs, Unlink(bs, nul, b), b)
  {
  }

  // insert_free_block: b becomes the head of list i.
  ghost function LinkNode(bs: Blks, heads: Heads, nul: nat, i: ListIndex): Node
    requires HeadsOk(heads) && InRange(i)
  {
    var h := heads[i];
    In(h, nul, if h in bs && bs[h].node.In? then bs[h].node.stamp + 1 else 0, i)
  }

  ghost function Link(bs: Blks, heads: Heads, nul: nat, b: nat, i: ListIndex): Blks
    requires b in bs && HeadsOk(heads) && InRange(i)
  {
    var h := heads[i];
    map a | a in bs ::
      if a == b then bs[a].(node := LinkNode(bs, heads, nul, i))
      else if a == h && a != nul then bs[a].(node := WithPrev(bs[a].node, b))
      else bs[a]
  }

  lemma LinkKeepsLists(bs: Blks, heads: Heads, nul: nat, b: nat, i: ListIndex)
    requires Lists(bs, heads, nul) && b in bs && bs[b].node.Out? && InRange(i)
    ensures Lists(Link(bs, heads, nul, b, i), heads[i := b], nul)
  {
    var bs', heads' := Link(bs, heads, nul, b, i), heads[i := b];
    assert HeadAt(bs, heads, nul, i);
    forall a | a in bs
      ensures ListAt(bs', heads', nul, a)
    {
      assert ListAt(bs, heads, nul, a);
    }
    forall j | InRange(j)
      ensures HeadAt(bs', heads', nul, j)
    {
      assert HeadAt(bs, heads, nul, j);
    }
  }

  lemma LinkEnlists(bs: Blks, heads: Heads, nul: nat, b: nat, i: ListIndex)
    requires HeadsOk(heads) && b in bs && InRange(i)
    ensures Enlisted(bs, Link(bs, heads, nul, b, i), b, i)
  {
  }

  // ------------------------------------------------- the list as a sequence

  // The blocks of a list from a on.
  ghost function ListFrom(bs: Blks, heads: Heads, nul: nat, a: nat): seq<nat>
    requires Lists(bs, heads, nul) && (a == nul || (a in bs && bs[a].node.In?))
    decreases if a == nul then 0 else bs[a].node.stamp + 1
  {
    if a == nul then []
    else
      assert ListAt(bs, heads, nul, a);
      [a] + ListFrom(bs, heads, nul, bs[a].node.next)
  }

  ghost function FreeList(bs: Blks, heads: Heads, nul: nat, i: ListIndex): seq<nat>
    requires Lists(bs, heads, nul) && InRange(i)
  {
    assert HeadAt(bs, heads, nul, i);
    ListFrom(bs, heads, nul, heads[i])
  }

  // The blocks from a on are filed with a, in order of falling stamps.
  lemma {:induction false} ListFromMember(bs: Blks, heads: Heads, nul: nat, a: nat, k: nat)
    requires Lists(bs, heads, nul) && a in bs && bs[a].node.In?
    requires k < |ListFrom(bs, heads, nul, a)|
    ensures var b := ListFrom(bs, heads, nul, a)[k];
            b in bs && bs[b].node.In? && bs[b].node.idx == bs[a].node.idx
            && bs[b].node.stamp <= bs[a].node.stamp && (k > 0 ==> bs[b].node.stamp < bs[a].node.stamp)
    decreases k
  {
    assert ListAt(bs, heads, nul, a);
    if k > 0 {
      ListFromMember(bs, heads, nul, bs[a].node.next, k - 1);
    }
  }

  lemma {:induction false} ListFromDistinct(bs: Blks, heads: Heads, nul: nat, a: nat, j: nat, k: nat)
    requires Lists(bs, heads, nul) && a in bs && bs[a].node.In?
    requires j < k < |ListFrom(bs, heads, nul, a)|
    ensures ListFrom(bs, heads, nul, a)[j] != ListFrom(bs, heads, nul, a)[k]
    decreases j
  {
    assert ListAt(bs, heads, nul, a);
    if j == 0 {
      ListFromMember(bs, heads, nul, a, k);
    } else {
      ListFromDistinct(bs, heads, nul, bs[a].node.next, j - 1, k - 1);
    }
  }

  // Following prev_free from a listed block reaches the head of its list, so
  // the block occurs in the list.
  lemma {:induction false} ListedBlockIsReached(bs: Blks, heads: Heads, nul: nat, a: nat, bound: nat)
    requires Lists(bs, heads, nul) && a in bs && bs[a].node.In?
    requires InRange(bs[a].node.idx)
    requires forall b :: b in bs && bs[b].node.In? ==> bs[b].node.stamp <= bound
    ensures a in FreeList(bs, heads, nul, bs[a].node.idx)
    ensures exists k: nat :: k <= |FreeList(bs, heads, nul, bs[a].node.idx)|
                 && FreeList(bs, heads, nul, bs[a].node.idx)[k..] == ListFrom(bs, heads, nul, a)
    decreases bound - bs[a].node.stamp
  {
    var i, p := bs[a].node.idx, bs[a].node.prev;
    var l := FreeList(bs, heads, nul, i);
    assert ListAt(bs, heads, nul, a);
    if p == nul {
      assert l == ListFrom(bs, heads, nul, a);
      assert l[0..] == l;
    } else {
      ListedBlockIsReached(bs, heads, nul, p, bound);
      var k: nat :| k <= |l| && l[k..] == ListFrom(bs, heads, nul, p);
      assert ListFrom(bs, heads, nul, p) == [p] + ListFrom(bs, heads, nul, a);
      assert l[k + 1..] == l[k..][1..] == ListFrom(bs, heads, nul, a);
      assert l[k + 1] == a;
    }
  }

  lemma {:induction false} StampBound(bs: Blks) returns (bound: nat)
    ensures forall b :: b in bs && bs[b].node.In? ==> bs[b].node.stamp <= bound
    decreases |bs|
  {
    if bs == map[] {
      bound := 0;
    } else {
      var a :| a in bs;
      var rest := bs - {a};
      assert |rest| < |bs| by { assert bs.Keys == rest.Keys + {a}; }
      var m := StampBound(rest);
      bound := m;
      if bs[a].node.In? && bs[a].node.stamp > m {
        bound := bs[a].node.stamp;
      }
      forall b | b in bs && bs[b].node.In?
        ensures bs[b].node.stamp <= bound
      {
        if b != a { assert b in rest; }
      }
    }
  }

  // Each list holds exactly the blocks filed there ...
  lemma FreeListMembers(bs: Blks, heads: Heads, nul: nat, i: ListIndex, a: nat)
    requires Lists(bs, heads, nul) && InRange(i)
    ensures a in FreeList(bs, heads, nul, i) <==> a in bs && bs[a].node.In? && bs[a].node.idx == i
  {
    var l, h := FreeList(bs, heads, nul, i), heads[i];
    assert HeadAt(bs, heads, nul, i);
    if a in l {
      var k :| 0 <= k < |l| && l[k] == a;
      ListFromMember(bs, heads, nul, h, k);
    }
    if a in bs && bs[a].node.In? && bs[a].node.idx == i {
      var bound := StampBound(bs);
      ListedBlockIsReached(bs, heads, nul, a, bound);
    }
  }

  // ... and each of them once.
  lemma FreeListDistinct(bs: Blks, heads: Heads, nul: nat, i: ListIndex, j: nat, k: nat)
    requires Lists(bs, heads, nul) && InRange(i) && j < k < |FreeList(bs, heads, nul, i)|
    ensures FreeList(bs, heads, nul, i)[j] != FreeList(bs, heads, nul, i)[k]
  {
    assert HeadAt(bs, heads, nul, i);
    ListFromDistinct(bs, heads, nul, heads[i], j, k);
  }
}
