// The store as a specification: a group lists entries, the newest key first.
module KeyedStore {

  import opened BaseLib

  datatype Entry = Entry(did: int, data: seq<Byte>)

  type Group = seq<Entry>

  predicate DistinctIds(v: Group) {
    forall i, j :: 0 <= i < j < |v| ==> v[i].did != v[j].did
  }

  // The place of a key, or the number of entries.
  function PlaceOf(v: Group, did: int): (i: nat)
    ensures i <= |v| && (i < |v| ==> v[i].did == did) && forall j :: 0 <= j < i ==> v[j].did != did
  {
    if v == [] || v[0].did == did then 0
    else
      var i := PlaceOf(v[1..], did);
      assert forall j :: 0 < j < i + 1 ==> v[j] == v[1..][j - 1];
      i + 1
  }

  // A write replaces the entry in place, or puts a new one first.
  function Written(v: Group, did: int, data: seq<Byte>): Group {
    var i := PlaceOf(v, did);
    if i < |v| then v[i := Entry(did, data)] else [Entry(did, data)] + v
  }

  function Removed(v: Group, did: int): Group {
    var i := PlaceOf(v, did);
    if i < |v| then v[..i] + v[i + 1..] else v
  }

  // The finite map that a group stands for.
  function MapOf(v: Group): map<int, seq<Byte>> {
    if v == [] then map[] else MapOf(v[1..])[v[0].did := v[0].data]
  }

  lemma {:induction false} MapHolds(v: Group)
    requires DistinctIds(v)
    ensures forall i :: 0 <= i < |v| ==> v[i].did in MapOf(v) && MapOf(v)[v[i].did] == v[i].data
    ensures forall d :: d in MapOf(v) ==> PlaceOf(v, d) < |v|
    ensures |MapOf(v)| == |v|
    decreases v
  {
    if v != [] {
      var rest := v[1..];
      MapHolds(rest);
      forall i | 0 <= i < |v| ensures v[i].did in MapOf(v) && MapOf(v)[v[i].did] == v[i].data {
        if i > 0 { assert v[i] == rest[i - 1]; }
      }
      assert forall i :: 0 <= i < |rest| ==> rest[i] == v[i + 1];
      assert v[0].did !in MapOf(rest);
      assert MapOf(v).Keys == MapOf(rest).Keys + {v[0].did};
    }
  }

  // Two groups with the same entries are the same map.
  lemma MapIs(v: Group, m: map<int, seq<Byte>>)
    requires DistinctIds(v)
    requires forall i :: 0 <= i < |v| ==> v[i].did in m && m[v[i].did] == v[i].data
    requires forall d :: d in m ==> PlaceOf(v, d) < |v|
    ensures MapOf(v) == m
  {
    MapHolds(v);
    forall d | d in MapOf(v) ensures d in m && m[d] == MapOf(v)[d] {
      assert v[PlaceOf(v, d)].did == d;
    }
    forall d | d in m ensures d in MapOf(v) {
      assert v[PlaceOf(v, d)].did == d;
    }
  }

  lemma PlaceIs(v: Group, did: int, i: nat)
    requires DistinctIds(v) && i < |v| && v[i].did == did
    ensures PlaceOf(v, did) == i
  {
  }

  // A write is a map update, and keeps the keys distinct; the size grows
  // exactly when the key is new.
  lemma WrittenIsUpdate(v: Group, did: int, data: seq<Byte>)
    requires DistinctIds(v)
    ensures DistinctIds(Written(v, did, data)) && MapOf(Written(v, did, data)) == MapOf(v)[did := data]
    ensures |Written(v, did, data)| == |v| + (if did in MapOf(v) then 0 else 1)
  {
    MapHolds(v);
    var w, m := Written(v, did, data), MapOf(v)[did := data];
    assert DistinctIds(w);
    forall d | d in m ensures PlaceOf(w, d) < |w| {
      if d == did {
        assert w[if PlaceOf(v, did) < |v| then PlaceOf(v, did) else 0].did == d;
      } else {
        var i := PlaceOf(v, d);
        assert w[if PlaceOf(v, did) < |v| then i else i + 1] == v[i];
      }
    }
    forall i | 0 <= i < |w| ensures w[i].did in m && m[w[i].did] == w[i].data {
      if PlaceOf(v, did) == |v| && i > 0 { assert w[i] == v[i - 1]; }
      if w[i].did != did { assert w[i] in v; }
    }
    MapIs(w, m);
  }

  lemma RemovedIsRemoval(v: Group, did: int)
    requires DistinctIds(v)
    ensures DistinctIds(Removed(v, did)) && MapOf(Removed(v, did)) == MapOf(v) - {did}
    ensures |Removed(v, did)| == |v| - (if did in MapOf(v) then 1 else 0)
  {
    hide MapOf, PlaceOf;
    MapHolds(v);
    var w, m, k := Removed(v, did), MapOf(v) - {did}, PlaceOf(v, did);
    assert DistinctIds(w);
    forall d | d in m ensures PlaceOf(w, d) < |w| {
      var i := PlaceOf(v, d);
      assert w[if i < k then i else i - 1] == v[i];
    }
    forall i | 0 <= i < |w| ensures w[i].did in m && m[w[i].did] == w[i].data {
      assert w[i] == v[if i < k then i else i + 1];
    }
    MapIs(w, m);
  }

  // Looking a key up in the list is looking it up in the map.
  lemma LookupIsMap(v: Group, did: int)
    requires DistinctIds(v)
    ensures PlaceOf(v, did) < |v| <==> did in MapOf(v)
    ensures did in MapOf(v) ==> v[PlaceOf(v, did)].data == MapOf(v)[did]
  {
    MapHolds(v);
  }

  function Ids(v: Group): (ids: seq<int>)
    ensures |ids| == |v| && forall i :: 0 <= i < |v| ==> ids[i] == v[i].did
  {
    seq(|v|, i requires 0 <= i < |v| => v[i].did)
  }

  // -------------------------------------------------------------------- runs

  datatype Op = Write(did: int, data: seq<Byte>) | Remove(did: int)

  function Applied(v: Group, op: Op): Group {
    match op case Write(d, x) => Written(v, d, x) case Remove(d) => Removed(v, d)
  }

  function AppliedToMap(m: map<int, seq<Byte>>, op: Op): map<int, seq<Byte>> {
    match op case Write(d, x) => m[d := x] case Remove(d) => m - {d}
  }

  function Run(v: Group, ops: seq<Op>): Group {
    if ops == [] then v else Applied(Run(v, ops[..|ops| - 1]), ops[|ops| - 1])
  }

  function RunOnMap(m: map<int, seq<Byte>>, ops: seq<Op>): map<int, seq<Byte>> {
    if ops == [] then m else AppliedToMap(RunOnMap(m, ops[..|ops| - 1]), ops[|ops| - 1])
  }

  lemma RunOneMore(v: Group, ops: seq<Op>, i: nat)
    requires i < |ops|
    ensures Run(v, ops[..i + 1]) == Applied(Run(v, ops[..i]), ops[i])
  {
    hide Written, Removed;
    assert ops[..i + 1][..i] == ops[..i] && ops[..i + 1][i] == ops[i];
  }

  lemma {:induction false} RunRefinesMap(v: Group, ops: seq<Op>)
    requires DistinctIds(v)
    ensures DistinctIds(Run(v, ops)) && MapOf(Run(v, ops)) == RunOnMap(MapOf(v), ops) && |Run(v, ops)| == |MapOf(Run(v, ops))|
    decreases |ops|
  {
    if ops != [] {
      var w := Run(v, ops[..|ops| - 1]);
      RunRefinesMap(v, ops[..|ops| - 1]);
      match ops[|ops| - 1] {
        case Write(d, x) => WrittenIsUpdate(w, d, x);
        case Remove(d) => RemovedIsRemoval(w, d);
      }
    }
    MapHolds(Run(v, ops));
  }
}
