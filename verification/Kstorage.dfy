// The grouped store: four circular lists of entries with size counters.
module Kstorage {

  import opened BaseLib
  import opened LinkedRings
  import opened KeyedStore

  const MAX_GROUP_NUM: nat := 4

  const ENOENT: int := 2
  const ENOMEM: int := 12

  datatype Read = NoEntry | Copied(bytes: seq<Byte>) | NegativeLength

  function EntryOf(n: Node): Entry {
    Entry(n.did, n.data)
  }

  function View(ns: seq<Node>): (v: Group)
    ensures |v| == |ns| && forall i :: 0 <= i < |ns| ==> v[i] == EntryOf(ns[i])
  {
    seq(|ns|, i requires 0 <= i < |ns| => EntryOf(ns[i]))
  }

  lemma ViewReplaced(c: seq<Node>, k: nat, n: Node)
    requires k + 1 < |c|
    ensures View(c[k + 1 := n][1..]) == View(c[1..])[k := EntryOf(n)]
  {
  }

  lemma ViewAdded(c: seq<Node>, n: Node)
    requires |c| > 0
    ensures View(([c[0], n] + c[1..])[1..]) == [EntryOf(n)] + View(c[1..])
  {
  }

  lemma ViewDeleted(c: seq<Node>, k: nat)
    requires k + 1 < |c|
    ensures View((c[..k + 1] + c[k + 2..])[1..]) == View(c[1..])[..k] + View(c[1..])[k + 1..]
  {
  }

  // The first min(len, dlen - offset) bytes from offset on.
  function Clipped(data: seq<Byte>, offset: nat, len: nat): (s: seq<Byte>)
    requires offset <= |data|
    ensures |s| <= len
  {
    var n := if |data| - offset > len then len else |data| - offset;
    data[offset..offset + n]
  }

  class Store {
    const heads: seq<Node>
    const groupSizes: array<int>
    var usedMaxGroup: int
    // The ring of each group, and all nodes in them.
    ghost var rings: seq<seq<Node>>
    ghost var nodes: set<Node>

    ghost predicate GroupOk(g: nat)
      requires |heads| == MAX_GROUP_NUM == |rings| && groupSizes.Length == MAX_GROUP_NUM
      reads this, groupSizes, nodes
    {
      g < MAX_GROUP_NUM ==>
        && (forall n :: n in rings[g] ==> n in nodes)
        && Ring(rings[g]) && rings[g][0] == heads[g]
        && groupSizes[g] == |rings[g]| - 1 && DistinctIds(View(rings[g][1..]))
    }

    ghost predicate GroupsApart(g: nat, h: nat)
      requires |rings| == MAX_GROUP_NUM
      reads this
    {
      g < MAX_GROUP_NUM && h < MAX_GROUP_NUM && g != h ==> forall n :: n in rings[g] ==> n !in rings[h]
    }

    ghost predicate Valid()
      reads this, groupSizes, nodes
    {
      && |heads| == MAX_GROUP_NUM == |rings| && groupSizes.Length == MAX_GROUP_NUM
      && -1 <= usedMaxGroup < MAX_GROUP_NUM
      && (forall g: nat {:trigger GroupOk(g)} :: GroupOk(g))
      && (forall g: nat, h: nat {:trigger GroupsApart(g, h)} :: GroupsApart(g, h))
    }

    // The entries of a group, in list order.
    ghost function Entries(g: nat): Group
      requires Valid() && g < MAX_GROUP_NUM
      reads this, groupSizes, nodes
    {
      assert GroupOk(g);
      View(rings[g][1..])
    }

    // kstorage_init
    constructor ()
      ensures Valid() && fresh(groupSizes) && fresh(nodes)
      ensures forall g: nat {:trigger Entries(g)} :: g < MAX_GROUP_NUM ==> Entries(g) == []
    {
      var a := EmptyRing();
      var b := EmptyRing();
      var c := EmptyRing();
      var d := EmptyRing();
      groupSizes := new int[MAX_GROUP_NUM](_ => 0);
      usedMaxGroup := -1;
      heads := [a, b, c, d];
      rings := [[a], [b], [c], [d]];
      nodes := {a, b, c, d};
      new;
      StartIsValid();
    }

    // Four rings of a head each.
    lemma StartIsValid()
      requires |heads| == MAX_GROUP_NUM == |rings| && groupSizes.Length == MAX_GROUP_NUM && usedMaxGroup == -1
      requires forall g: nat {:trigger rings[g]} :: g < MAX_GROUP_NUM ==>
        rings[g] == [heads[g]] && Ring([heads[g]]) && heads[g] in nodes && groupSizes[g] == 0
      requires forall g: nat, h: nat {:trigger heads[g], heads[h]} :: g < h < MAX_GROUP_NUM ==> heads[g] != heads[h]
      ensures Valid()
      ensures forall g: nat {:trigger Entries(g)} :: g < MAX_GROUP_NUM ==> Entries(g) == []
    {
      hide Ring;
      forall g: nat {:trigger GroupOk(g)} ensures GroupOk(g) {
        if g < MAX_GROUP_NUM { assert rings[g] == [heads[g]] && View([]) == []; }
      }
      forall g: nat, h: nat {:trigger GroupsApart(g, h)} ensures GroupsApart(g, h) {
        if g < MAX_GROUP_NUM && h < MAX_GROUP_NUM { assert rings[g] == [heads[g]] && rings[h] == [heads[h]]; }
      }
      forall g: nat {:trigger Entries(g)} | g < MAX_GROUP_NUM ensures Entries(g) == [] {
        assert rings[g] == [heads[g]] && rings[g][1..] == [];
      }
    }

    static method EmptyRing() returns (head: Node)
      ensures fresh(head) && Ring([head])
    {
      head := new Node(0, []);
      InitListHead(head);
    }

    // try_alloc_kstroage_group
    method TryAllocGroup() returns (gid: int)
      requires Valid()
      modifies this`usedMaxGroup
      ensures Valid()
      ensures gid == if old(usedMaxGroup) + 1 < MAX_GROUP_NUM then old(usedMaxGroup) + 1 else -1
      ensures usedMaxGroup == if gid >= 0 then gid else old(usedMaxGroup)
    {
      if usedMaxGroup + 1 >= MAX_GROUP_NUM { return -1; }
      usedMaxGroup := usedMaxGroup + 1;
      gid := usedMaxGroup;
      assert forall g: nat {:trigger GroupOk(g)} :: old(GroupOk(g)) ==> GroupOk(g);
      assert forall g: nat, h: nat {:trigger GroupsApart(g, h)} :: old(GroupsApart(g, h)) ==> GroupsApart(g, h);
    }

    // kstorage_group_size
    method GroupSize(gid: int) returns (n: int)
      requires Valid()
      ensures n == if 0 <= gid < MAX_GROUP_NUM then |Entries(gid)| else -ENOENT
    {
      if gid < 0 || gid >= MAX_GROUP_NUM { return -ENOENT; }
      assert GroupOk(gid);
      n := groupSizes[gid];
    }

    // The loop over the list that looks for a key.
    method FindEntry(gid: nat, did: int) returns (pos: Node?, ghost k: nat)
      requires Valid() && gid < MAX_GROUP_NUM
      ensures k == PlaceOf(Entries(gid), did)
      ensures pos != null <==> k < |Entries(gid)|
      ensures pos != null ==> k + 1 < |rings[gid]| && pos == rings[gid][k + 1]
    {
      assert GroupOk(gid);
      ghost var c, v := rings[gid], Entries(gid);
      var head := heads[gid];
      assert LinkedAt(c, 0);
      pos := head.next;
      k := 0;
      while pos != head
        invariant k <= |v| == |c| - 1 && pos == c[Succ(k, |c|)] && pos != null
        invariant forall j :: 0 <= j < k ==> v[j].did != did
        decreases |v| - k
      {
        assert v[k] == EntryOf(c[k + 1]);
        if pos.did == did {
          PlaceIs(v, did, k);
          return;
        }
        assert LinkedAt(c, k + 1);
        pos := pos.next;
        k := k + 1;
      }
      pos := null;
      assert PlaceOf(v, did) >= k;
    }

    // A group's ring was replaced, the others stayed.
    twostate lemma OtherGroupsKept(gid: nat)
      requires old(Valid()) && gid < MAX_GROUP_NUM && |rings| == MAX_GROUP_NUM
      requires old(nodes) <= nodes
      requires forall h: nat :: h < MAX_GROUP_NUM && h != gid ==> rings[h] == old(rings)[h] && groupSizes[h] == old(groupSizes[h])
      requires forall n :: n in old(nodes) && n !in old(rings)[gid] ==> n.next == old(n.next) && n.prev == old(n.prev)
      requires forall n :: n in rings[gid] ==> n in old(rings)[gid] || n !in old(nodes)
      requires GroupOk(gid) && usedMaxGroup == old(usedMaxGroup)
      ensures Valid()
      ensures forall h: nat {:trigger Entries(h)} :: h < MAX_GROUP_NUM && h != gid ==> Entries(h) == old(Entries(h))
    {
      forall h: nat {:trigger GroupOk(h)} ensures GroupOk(h) {
        if h < MAX_GROUP_NUM && h != gid {
          assert old(GroupOk(h)) && old(GroupsApart(h, gid));
          RingKept(rings[h]);
        }
      }
      forall g: nat, h: nat {:trigger GroupsApart(g, h)} ensures GroupsApart(g, h) {
        assert old(GroupsApart(g, h)) && old(GroupOk(g)) && old(GroupOk(h));
      }
    }

    // write_kstorage, of bytes that the kernel holds.
    method Write(gid: int, did: int, data: seq<Byte>, offset: nat, len: nat, hasMemory: bool) returns (rc: int)
      requires Valid() && offset + len <= |data|
      modifies this, groupSizes, nodes
      ensures Valid() && fresh(nodes - old(nodes)) && usedMaxGroup == old(usedMaxGroup)
      ensures rc == if gid < 0 || gid >= MAX_GROUP_NUM then -ENOENT else if !hasMemory then -ENOMEM else 0
      ensures forall h: nat {:trigger Entries(h)} :: h < MAX_GROUP_NUM ==>
        Entries(h) == if rc == 0 && h == gid then Written(old(Entries(h)), did, data[offset..offset + len]) else old(Entries(h))
    {
      if gid < 0 || gid >= MAX_GROUP_NUM { return -ENOENT; }
      var oldl, k := FindEntry(gid, did);
      if !hasMemory { return -ENOMEM; }
      var newl := new Node(did, data[offset..offset + len]);
      if oldl != null {
        ReplaceEntry(gid, oldl, newl, k);
      } else {
        AddEntry(gid, newl);
      }
      rc := 0;
    }

    // Replacing the entry of a key in place.
    method ReplaceEntry(gid: nat, oldl: Node, newl: Node, ghost k: nat)
      requires Valid() && gid < MAX_GROUP_NUM && newl !in nodes
      requires k == PlaceOf(Entries(gid), newl.did) < |Entries(gid)| && k + 1 < |rings[gid]| && oldl == rings[gid][k + 1]
      modifies this, nodes, newl
      ensures Valid() && nodes == old(nodes) + {newl} && usedMaxGroup == old(usedMaxGroup)
      ensures forall h: nat {:trigger Entries(h)} :: h < MAX_GROUP_NUM ==>
        Entries(h) == if h == gid then Written(old(Entries(h)), newl.did, newl.data) else old(Entries(h))
    {
      ghost var c := rings[gid];
      assert GroupOk(gid);
      WrittenIsUpdate(View(c[1..]), newl.did, newl.data);
      ListReplace(oldl, newl, c, k + 1);
      ghost var d := c[k + 1 := newl];
      ViewReplaced(c, k, newl);
      rings := rings[gid := d];
      nodes := nodes + {newl};
      assert GroupOk(gid);
      OtherGroupsKept(gid);
    }

    // Adding an entry for a new key.
    method AddEntry(gid: nat, newl: Node)
      requires Valid() && gid < MAX_GROUP_NUM && newl !in nodes
      requires PlaceOf(Entries(gid), newl.did) == |Entries(gid)|
      modifies this, groupSizes, nodes, newl
      ensures Valid() && nodes == old(nodes) + {newl} && usedMaxGroup == old(usedMaxGroup)
      ensures forall h: nat {:trigger Entries(h)} :: h < MAX_GROUP_NUM ==>
        Entries(h) == if h == gid then Written(old(Entries(h)), newl.did, newl.data) else old(Entries(h))
    {
      hide MapOf, View, DistinctIds, LinkedAt;
      ghost var c := rings[gid];
      assert GroupOk(gid);
      WrittenIsUpdate(View(c[1..]), newl.did, newl.data);
      ListAdd(newl, heads[gid], c);
      groupSizes[gid] := groupSizes[gid] + 1;
      ghost var d := [heads[gid], newl] + c[1..];
      ViewAdded(c, newl);
      rings := rings[gid := d];
      nodes := nodes + {newl};
      assert GroupOk(gid);
      OtherGroupsKept(gid);
    }

    // remove_kstorage, which does not tell whether the key was there.
    method Remove(gid: int, did: int) returns (rc: int)
      requires Valid()
      modifies this, groupSizes, nodes
      ensures Valid() && nodes == old(nodes) && usedMaxGroup == old(usedMaxGroup)
      ensures rc == if gid < 0 || gid >= MAX_GROUP_NUM then -ENOENT else 0
      ensures forall h: nat {:trigger Entries(h)} :: h < MAX_GROUP_NUM ==>
        Entries(h) == if h == gid then Removed(old(Entries(h)), did) else old(Entries(h))
    {
      if gid < 0 || gid >= MAX_GROUP_NUM { return -ENOENT; }
      rc := 0;
      var pos, k := FindEntry(gid, did);
      if pos != null {
        DeleteEntry(gid, pos, k);
      }
    }

    method DeleteEntry(gid: nat, pos: Node, ghost k: nat)
      requires Valid() && gid < MAX_GROUP_NUM && k < |Entries(gid)| && k + 1 < |rings[gid]| && pos == rings[gid][k + 1]
      requires k == PlaceOf(Entries(gid), Entries(gid)[k].did)
      modifies this, groupSizes, nodes
      ensures Valid() && nodes == old(nodes) && usedMaxGroup == old(usedMaxGroup)
      ensures forall h: nat {:trigger Entries(h)} :: h < MAX_GROUP_NUM ==>
        Entries(h) == if h == gid then Removed(old(Entries(h)), old(Entries(h))[k].did) else old(Entries(h))
    {
      hide MapOf, View, DistinctIds, Ring, LinkedAt;
      ghost var c := rings[gid];
      assert GroupOk(gid);
      RemovedIsRemoval(View(c[1..]), View(c[1..])[k].did);
      ListDel(pos, c, k + 1);
      groupSizes[gid] := groupSizes[gid] - 1;
      ghost var d := c[..k + 1] + c[k + 2..];
      ViewDeleted(c, k);
      rings := rings[gid := d];
      assert GroupOk(gid);
      OtherGroupsKept(gid);
    }

    // read_kstorage to kernel memory; an offset behind the data makes the
    // length that is copied negative.
    method ReadEntry(gid: int, did: int, offset: nat, len: nat) returns (r: Read)
      requires Valid()
      ensures r == if gid < 0 || gid >= MAX_GROUP_NUM || did !in MapOf(Entries(gid)) then NoEntry
                   else if offset > |MapOf(Entries(gid))[did]| then NegativeLength
                   else Copied(Clipped(MapOf(Entries(gid))[did], offset, len))
    {
      if gid < 0 || gid >= MAX_GROUP_NUM { return NoEntry; }
      assert GroupOk(gid);
      LookupIsMap(Entries(gid), did);
      var pos, k := FindEntry(gid, did);
      if pos == null { return NoEntry; }
      assert Entries(gid)[k] == EntryOf(pos);
      if offset > |pos.data| { return NegativeLength; }
      var minLen := if |pos.data| - offset > len then len else |pos.data| - offset;
      r := Copied(pos.data[offset..offset + minLen]);
    }

    // list_kstorage_ids to kernel memory
    method ListIds(gid: int, idslen: int) returns (cnt: int, ids: seq<int>)
      requires Valid()
      ensures gid < 0 || gid >= MAX_GROUP_NUM ==> cnt == -ENOENT && ids == []
      ensures 0 <= gid < MAX_GROUP_NUM ==>
        var n := |Entries(gid)|;
        && cnt == |ids| == (if idslen <= 0 then 0 else if idslen < n then idslen else n)
        && ids == Ids(Entries(gid))[..cnt]
        && forall i, j :: 0 <= i < j < |ids| ==> ids[i] != ids[j]
    {
      cnt, ids := 0, [];
      if gid < 0 || gid >= MAX_GROUP_NUM { return -ENOENT, []; }
      assert GroupOk(gid);
      ghost var c, v := rings[gid], Entries(gid);
      var head := heads[gid];
      assert LinkedAt(c, 0);
      var pos := head.next;
      while pos != head
        invariant 0 <= cnt <= |v| == |c| - 1 && pos == c[Succ(cnt, |c|)] && pos != null
        invariant cnt == |ids| && ids == Ids(v)[..cnt] && (cnt == 0 || cnt <= idslen)
        decreases |v| - cnt
      {
        if cnt >= idslen { break; }
        assert v[cnt] == EntryOf(c[cnt + 1]);
        ids := ids + [pos.did];
        assert LinkedAt(c, cnt + 1);
        pos := pos.next;
        cnt := cnt + 1;
      }
    }

    // on_each_kstorage_elem: the entries up to the first whose callback fails;
    // that code is lost, as it is kept in a variable of the loop.
    method OnEach(gid: int, callback: Entry -> int) returns (rc: int, visited: seq<Entry>)
      requires Valid()
      ensures gid < 0 || gid >= MAX_GROUP_NUM ==> rc == -ENOENT && visited == []
      ensures 0 <= gid < MAX_GROUP_NUM ==>
        && rc == 0 && visited <= Entries(gid)
        && (forall i :: 0 <= i < |visited| - 1 ==> callback(visited[i]) == 0)
        && (visited == Entries(gid) || (visited != [] && callback(visited[|visited| - 1]) != 0))
    {
      rc, visited := 0, [];
      if gid < 0 || gid >= MAX_GROUP_NUM { return -ENOENT, []; }
      assert GroupOk(gid);
      ghost var c, v := rings[gid], Entries(gid);
      var head := heads[gid];
      assert LinkedAt(c, 0);
      var pos := head.next;
      while pos != head
        invariant |visited| <= |v| == |c| - 1 && pos == c[Succ(|visited|, |c|)] && pos != null
        invariant visited == v[..|visited|] && forall i :: 0 <= i < |visited| ==> callback(visited[i]) == 0
        decreases |v| - |visited|
      {
        var e := Entry(pos.did, pos.data);
        assert v[|visited|] == EntryOf(c[|visited| + 1]) == e;
        assert LinkedAt(c, |visited| + 1);
        visited := visited + [e];
        if callback(e) != 0 { break; }
        pos := pos.next;
      }
    }

    // A run of writes and removals on one group refines the map.
    method RunOps(gid: nat, ops: seq<Op>)
      requires Valid() && gid < MAX_GROUP_NUM
      modifies this, groupSizes, nodes
      ensures Valid()
      ensures MapOf(Entries(gid)) == RunOnMap(MapOf(old(Entries(gid))), ops)
      ensures groupSizes[gid] == |MapOf(Entries(gid))|
      ensures forall h: nat {:trigger Entries(h)} :: h < MAX_GROUP_NUM && h != gid ==> Entries(h) == old(Entries(h))
    {
      hide Written, Removed, MapOf;
      var i := 0;
      while i < |ops|
        invariant i <= |ops| && Valid() && fresh(nodes - old(nodes))
        invariant Entries(gid) == Run(old(Entries(gid)), ops[..i])
        invariant forall h: nat {:trigger Entries(h)} :: h < MAX_GROUP_NUM && h != gid ==> Entries(h) == old(Entries(h))
      {
        RunOneMore(old(Entries(gid)), ops, i);
        var rc := 0;
        match ops[i] {
          case Write(did, data) =>
            rc := Write(gid, did, data, 0, |data|, true);
            assert data[0..0 + |data|] == data;
          case Remove(did) =>
            rc := Remove(gid, did);
        }
        i := i + 1;
      }
      assert ops[..i] == ops;
      assert old(GroupOk(gid)) && GroupOk(gid);
      RunRefinesMap(old(Entries(gid)), ops);
    }
  }

  twostate lemma RingKept(c: seq<Node>)
    requires old(Ring(c))
    requires forall n :: n in c ==> n.next == old(n.next) && n.prev == old(n.prev)
    ensures Ring(c)
  {
    forall i: nat {:trigger LinkedAt(c, i)} ensures LinkedAt(c, i) {
      assert old(LinkedAt(c, i));
    }
  }
}
