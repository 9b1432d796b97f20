// The extra items at the end of a patched kernel image: the writer and the
// reader of the patch tool, and the reader that runs inside the kernel.
module PatchExtra {

  import opened BaseLib
  import opened Buffers

  const HEADER_LEN: nat := 128
  const INT_MOD: nat := 0x8000_0000

  // --------------------------------------------------------------------- items

  datatype Item = Item(
    priority: nat,
    kind: nat,
    name: seq<Byte>,
    event: seq<Byte>,
    pad: seq<Byte>,
    args: seq<Byte>,
    content: seq<Byte>)

  // "kpe" with its terminator
  function Magic(): (m: seq<Byte>)
    ensures |m| == 4
  {
    [0x6B, 0x70, 0x65, 0]
  }

  // Fields have the widths of the header structure, and sizes fit an int32.
  predicate Fits(it: Item) {
    && it.priority < 0x1_0000_0000 && it.kind < 0x1_0000_0000
    && |it.name| == 32 && |it.event| == 32 && |it.pad| == 44
    && |it.args| < INT_MOD && |it.content| < INT_MOD
  }

  function HeaderBytes(it: Item): (s: seq<Byte>)
    requires Fits(it)
    ensures |s| == HEADER_LEN
  {
    Magic() + Le(4, it.priority) + Le(4, |it.args|) + Le(4, |it.content|) + Le(4, it.kind) + it.name + it.event + it.pad
  }

  function ItemBytes(it: Item): (s: seq<Byte>)
    requires Fits(it)
    ensures |s| == HEADER_LEN + |it.args| + |it.content|
  {
    HeaderBytes(it) + it.args + it.content
  }

  predicate AllFit(items: seq<Item>) {
    forall i :: 0 <= i < |items| ==> Fits(items[i])
  }

  function ItemsBytes(items: seq<Item>): seq<Byte>
    requires AllFit(items)
  {
    if items == [] then [] else ItemBytes(items[0]) + ItemsBytes(items[1..])
  }

  // The empty item behind the last one.
  function Guard(): (s: seq<Byte>)
    ensures |s| == HEADER_LEN
  {
    seq(HEADER_LEN, _ => 0)
  }

  // ----------------------------------------------------------------- the writer

  lemma {:induction false} ItemsAppend(items: seq<Item>, it: Item)
    requires AllFit(items) && Fits(it)
    ensures AllFit(items + [it]) && ItemsBytes(items + [it]) == ItemsBytes(items) + ItemBytes(it)
    decreases items
  {
    if items == [] {
      assert [it][1..] == [];
    } else {
      ItemsAppend(items[1..], it);
      assert (items + [it])[1..] == items[1..] + [it];
    }
  }

  lemma {:induction false} ItemsLonger(items: seq<Item>, n: nat)
    requires AllFit(items) && n < |items|
    ensures |ItemsBytes(items[..n])| + |ItemBytes(items[n])| <= |ItemsBytes(items)|
    decreases items
  {
    if n > 0 {
      ItemsLonger(items[1..], n - 1);
      assert items[1..][..n - 1] == items[..n][1..];
    }
  }

  // One round of the writing loop.
  method AppendItem(img: array<Byte>, it: Item, offset: nat) returns (next: nat)
    requires Fits(it) && offset + |ItemBytes(it)| <= img.Length
    modifies img
    ensures next == offset + |ItemBytes(it)|
    ensures img[..] == Splice(old(img[..]), offset, ItemBytes(it))
  {
    hide Splice, Fits, HeaderBytes;
    ghost var was := img[..];
    next := ExtraAppend(img, HeaderBytes(it), offset);
    ghost var done := HeaderBytes(it);
    if |it.args| > 0 {
      next := ExtraAppend(img, it.args, next);
      SpliceTwice(was, offset, done, it.args);
    } else {
      assert done + it.args == done;
    }
    done := done + it.args;
    next := ExtraAppend(img, it.content, next);
    SpliceTwice(was, offset, done, it.content);
  }

  // The end of patch_update_img: the items behind each other, then the guard.
  method WriteExtras(img: array<Byte>, items: seq<Item>, offset: nat) returns (end: nat)
    requires AllFit(items) && offset + |ItemsBytes(items)| + HEADER_LEN <= img.Length
    modifies img
    ensures end == offset + |ItemsBytes(items)| + HEADER_LEN
    ensures img[..] == Splice(old(img[..]), offset, ItemsBytes(items) + Guard())
  {
    hide Splice, Fits, ItemBytes, ItemsBytes;
    ghost var was := img[..];
    end := offset;
    assert items[..0] == [];
    NoItems();
    SpliceNothing(was, offset);
    var i := 0;
    while i < |items|
      invariant i <= |items| && AllFit(items[..i])
      invariant end == offset + |ItemsBytes(items[..i])| <= img.Length
      invariant img[..] == Splice(was, offset, ItemsBytes(items[..i]))
    {
      NextItem(items, i);
      end := AppendItem(img, items[i], end);
      SpliceTwice(was, offset, ItemsBytes(items[..i]), ItemBytes(items[i]));
      i := i + 1;
    }
    assert items[..i] == items;
    end := ExtraAppend(img, Guard(), end);
    SpliceTwice(was, offset, ItemsBytes(items), Guard());
  }

  lemma NoItems()
    ensures ItemsBytes([]) == []
  {
  }

  lemma NextItem(items: seq<Item>, i: nat)
    requires AllFit(items) && i < |items|
    ensures AllFit(items[..i]) && AllFit(items[..i + 1]) && Fits(items[i])
    ensures ItemsBytes(items[..i + 1]) == ItemsBytes(items[..i]) + ItemBytes(items[i])
    ensures |ItemsBytes(items[..i])| + |ItemBytes(items[i])| <= |ItemsBytes(items)|
  {
    ItemsLonger(items, i);
    ItemsAppend(items[..i], items[i]);
    assert items[..i] + [items[i]] == items[..i + 1];
  }

  // ---------------------------------------------------------------- the readers

  // An int32 field of the header at pos.
  function Word(img: seq<Byte>, pos: nat, off: nat): nat
    requires pos + off + 4 <= |img|
  {
    FromLe(img[pos + off..pos + off + 4])
  }

  predicate HasMagic(img: seq<Byte>, pos: nat)
    requires pos + HEADER_LEN <= |img|
  {
    img[pos..pos + 4] == Magic()
  }

  function KindAt(img: seq<Byte>, pos: nat): nat
    requires pos + HEADER_LEN <= |img|
  {
    Word(img, pos, 16)
  }

  // Both sizes are non-negative as int32.
  predicate SizesAt(img: seq<Byte>, pos: nat)
    requires pos + HEADER_LEN <= |img|
  {
    Word(img, pos, 8) < INT_MOD && Word(img, pos, 12) < INT_MOD
  }

  function NextAt(img: seq<Byte>, pos: nat): nat
    requires pos + HEADER_LEN <= |img|
  {
    pos + HEADER_LEN + Word(img, pos, 8) + Word(img, pos, 12)
  }

  // What a reader finds: the places of the headers, or a header that lies
  // outside the buffer or has a negative size, which the code does not check.
  datatype Scan = Found(places: seq<nat>) | Overrun

  function Prepend(pos: nat, s: Scan): Scan {
    match s case Found(ps) => Found([pos] + ps) case Overrun => Overrun
  }

  // Reading the headers from pos up to end; strict readers want the magic.
  function ScanFrom(img: seq<Byte>, pos: nat, end: nat, strict: bool): Scan
    decreases end - pos
  {
    if pos >= end then Found([])
    else if pos + HEADER_LEN > |img| then Overrun
    else if strict && !HasMagic(img, pos) then Found([])
    else if KindAt(img, pos) == 0 then Found([])
    else if !SizesAt(img, pos) then Overrun
    else Prepend(pos, ScanFrom(img, NextAt(img, pos), end, strict))
  }

  // The item whose header is at pos.
  function ItemAt(img: seq<Byte>, pos: nat): Item
    requires pos + HEADER_LEN <= |img| && NextAt(img, pos) <= |img|
  {
    var args := pos + HEADER_LEN;
    var content := args + Word(img, pos, 8);
    Item(
      Word(img, pos, 4), Word(img, pos, 16), img[pos + 20..pos + 52], img[pos + 52..pos + 84], img[pos + 84..args],
      img[args..content], img[content..NextAt(img, pos)])
  }

  // The item loop of parse_image_patch_info.
  method ParseItems(img: array<Byte>, start: nat, end: nat) returns (s: Scan)
    ensures s == ScanFrom(img[..], start, end, true)
  {
    var places: seq<nat> := [];
    var pos := start;
    while pos < end
      invariant ScanFrom(img[..], start, end, true) == Behind(places, ScanFrom(img[..], pos, end, true))
      decreases end - pos
    {
      if pos + HEADER_LEN > img.Length { return Overrun; }
      if !HasMagic(img[..], pos) { break; }
      if KindAt(img[..], pos) == 0 { break; }
      if !SizesAt(img[..], pos) { return Overrun; }
      BehindOne(places, pos, ScanFrom(img[..], NextAt(img[..], pos), end, true));
      places := places + [pos];
      pos := NextAt(img[..], pos);
    }
    assert places + [] == places;
    s := Found(places);
  }

  function Behind(places: seq<nat>, s: Scan): Scan {
    match s case Found(ps) => Found(places + ps) case Overrun => Overrun
  }

  lemma BehindOne(places: seq<nat>, pos: nat, s: Scan)
    ensures Behind(places, Prepend(pos, s)) == Behind(places + [pos], s)
  {
    if s.Found? {
      assert places + ([pos] + s.places) == places + [pos] + s.places;
    }
  }

  // A call of the callback: the header, its arguments if there are any, and
  // its content.
  datatype Call = Call(place: nat, args: int, content: nat)

  function CallAt(img: seq<Byte>, pos: nat): Call
    requires pos + HEADER_LEN <= |img|
  {
    Call(pos, if Word(img, pos, 8) > 0 then pos + HEADER_LEN else 0, pos + HEADER_LEN + Word(img, pos, 8))
  }

  // The places up to the first whose callback returns a non-zero code.
  function Visited(img: seq<Byte>, places: seq<nat>, callback: Call -> int): (v: seq<nat>)
    requires forall i :: 0 <= i < |places| ==> places[i] + HEADER_LEN <= |img|
    ensures v <= places
  {
    if places == [] then []
    else if callback(CallAt(img, places[0])) != 0 then [places[0]]
    else [places[0]] + Visited(img, places[1..], callback)
  }

  lemma {:induction false} PlacesInside(img: seq<Byte>, pos: nat, end: nat, strict: bool)
    requires ScanFrom(img, pos, end, strict).Found?
    ensures forall i :: 0 <= i < |ScanFrom(img, pos, end, strict).places| ==>
      ScanFrom(img, pos, end, strict).places[i] + HEADER_LEN <= |img|
    decreases end - pos
  {
    if pos < end && !(strict && !HasMagic(img, pos)) && KindAt(img, pos) != 0 {
      PlacesInside(img, NextAt(img, pos), end, strict);
    }
  }

  // on_each_extra_item; a header without the magic is visited as well, since
  // the comparison of the magic only leaves its own loop.
  method OnEachExtraItem(img: seq<Byte>, start: nat, end: nat, callback: Call -> int)
    returns (calls: seq<Call>, rc: int)
    requires ScanFrom(img, start, end, false).Found?
    ensures forall i :: 0 <= i < |ScanFrom(img, start, end, false).places| ==>
      ScanFrom(img, start, end, false).places[i] + HEADER_LEN <= |img|
    ensures var v := Visited(img, ScanFrom(img, start, end, false).places, callback);
            && |calls| == |v| && (forall i :: 0 <= i < |v| ==> calls[i] == CallAt(img, v[i]))
            && rc == if v == [] then 0 else callback(CallAt(img, v[|v| - 1]))
  {
    hide FromLe, KindAt, Word;
    ghost var seen: seq<nat> := [];
    ghost var all := ScanFrom(img, start, end, false);
    calls, rc := [], 0;
    var pos := start;
    PlacesInside(img, start, end, false);
    hide Visited, CallAt, CallsAre, AllZero;
    while pos < end
      invariant all == Behind(seen, ScanFrom(img, pos, end, false))
      invariant CallsAre(img, seen, calls) && rc == 0 && AllZero(img, seen, callback)
      decreases end - pos
    {
      if KindAt(img, pos) == 0 { break; }
      BehindOne(seen, pos, ScanFrom(img, NextAt(img, pos), end, false));
      rc := callback(CallAt(img, pos));
      CallsOneMore(img, seen, calls, pos);
      calls := calls + [CallAt(img, pos)];
      if rc != 0 {
        VisitedStops(img, seen, pos, all.places, callback);
        return;
      }
      seen := seen + [pos];
      pos := NextAt(img, pos);
    }
    assert seen + [] == seen;
    VisitedAll(img, seen, callback);
  }

  predicate CallsAre(img: seq<Byte>, seen: seq<nat>, calls: seq<Call>) {
    && |calls| == |seen|
    && forall i :: 0 <= i < |seen| ==> seen[i] + HEADER_LEN <= |img| && calls[i] == CallAt(img, seen[i])
  }

  predicate AllZero(img: seq<Byte>, seen: seq<nat>, callback: Call -> int) {
    forall i :: 0 <= i < |seen| ==> seen[i] + HEADER_LEN <= |img| && callback(CallAt(img, seen[i])) == 0
  }

  lemma CallsOneMore(img: seq<Byte>, seen: seq<nat>, calls: seq<Call>, pos: nat)
    requires CallsAre(img, seen, calls) && pos + HEADER_LEN <= |img|
    ensures CallsAre(img, seen + [pos], calls + [CallAt(img, pos)])
  {
  }

  lemma {:induction false} VisitedAll(img: seq<Byte>, places: seq<nat>, callback: Call -> int)
    requires AllZero(img, places, callback)
    ensures Visited(img, places, callback) == places
    decreases places
  {
    if places != [] {
      assert places == [places[0]] + places[1..];
      VisitedAll(img, places[1..], callback);
    }
  }

  lemma {:induction false} VisitedStops(img: seq<Byte>, seen: seq<nat>, pos: nat, all: seq<nat>, callback: Call -> int)
    requires AllZero(img, seen, callback) && seen + [pos] <= all
    requires forall i :: 0 <= i < |all| ==> all[i] + HEADER_LEN <= |img|
    requires callback(CallAt(img, all[|seen|])) != 0
    ensures Visited(img, all, callback) == seen + [pos]
    decreases seen
  {
    assert all[|seen|] == (seen + [pos])[|seen|];
    if seen != [] {
      assert all[0] == seen[0];
      assert seen[1..] + [pos] == (seen + [pos])[1..] <= all[1..];
      VisitedStops(img, seen[1..], pos, all[1..], callback);
      assert seen + [pos] == [seen[0]] + (seen[1..] + [pos]);
    }
  }

  // ------------------------------------------------------- the readers compared

  // The tool lists a prefix of what the kernel visits, and all of it exactly
  // when every visited header carries the magic.
  lemma {:induction false} ToolReadsPrefix(img: seq<Byte>, pos: nat, end: nat)
    requires ScanFrom(img, pos, end, false).Found?
    ensures ScanFrom(img, pos, end, true).Found?
    ensures var tool, kernel := ScanFrom(img, pos, end, true).places, ScanFrom(img, pos, end, false).places;
            && tool <= kernel
            && (forall i :: 0 <= i < |kernel| ==> kernel[i] + HEADER_LEN <= |img|)
            && (tool == kernel <==> forall i :: 0 <= i < |kernel| ==> HasMagic(img, kernel[i]))
    decreases end - pos
  {
    PlacesInside(img, pos, end, false);
    if pos < end && KindAt(img, pos) != 0 {
      var n := NextAt(img, pos);
      ToolReadsPrefix(img, n, end);
      var kernel, rest := ScanFrom(img, pos, end, false).places, ScanFrom(img, n, end, false).places;
      assert kernel == [pos] + rest;
      if HasMagic(img, pos) {
        var tool, after := ScanFrom(img, pos, end, true).places, ScanFrom(img, n, end, true).places;
        assert tool == [pos] + after;
        assert tool == kernel <==> after == rest by { assert tool[1..] == after && kernel[1..] == rest; }
        if after == rest {
          forall i | 0 <= i < |kernel| ensures HasMagic(img, kernel[i]) {
            if i > 0 { assert kernel[i] == rest[i - 1]; }
          }
        } else {
          var i :| 0 <= i < |rest| && !HasMagic(img, rest[i]);
          assert kernel[i + 1] == rest[i];
        }
      } else {
        assert kernel[0] == pos;
      }
    }
  }

  // --------------------------------------------------- what was written is read

  // The fields of a written header.
  lemma HeaderFields(img: seq<Byte>, pos: nat, it: Item)
    requires Fits(it) && At(img, pos, HeaderBytes(it))
    ensures HasMagic(img, pos) && SizesAt(img, pos) && KindAt(img, pos) == it.kind
    ensures Word(img, pos, 4) == it.priority && Word(img, pos, 8) == |it.args| && Word(img, pos, 12) == |it.content|
    ensures img[pos + 20..pos + 52] == it.name && img[pos + 52..pos + 84] == it.event && img[pos + 84..pos + 128] == it.pad
  {
    var h := HeaderBytes(it);
    RadixValues();
    LeRoundTrip(4, it.priority);
    LeRoundTrip(4, |it.args|);
    LeRoundTrip(4, |it.content|);
    LeRoundTrip(4, it.kind);
    SameSlices(img, pos, h);
    assert h[0..4] == Magic() && h[4..8] == Le(4, it.priority) && h[8..12] == Le(4, |it.args|);
    assert h[12..16] == Le(4, |it.content|) && h[16..20] == Le(4, it.kind);
    assert h[20..52] == it.name && h[52..84] == it.event && h[84..128] == it.pad;
  }

  lemma ItemReadBack(img: seq<Byte>, pos: nat, it: Item)
    requires Fits(it) && At(img, pos, ItemBytes(it))
    ensures pos + |ItemBytes(it)| <= |img|
    ensures HasMagic(img, pos) && SizesAt(img, pos) && KindAt(img, pos) == it.kind
    ensures NextAt(img, pos) == pos + |ItemBytes(it)| && ItemAt(img, pos) == it
  {
    var w := ItemBytes(it);
    SameSlices(img, pos, w);
    assert w[0..128] == HeaderBytes(it);
    assert img[pos + 0..pos + 128] == w[0..128];
    HeaderFields(img, pos, it);
    assert w[128..128 + |it.args|] == it.args;
    assert w[128 + |it.args|..|w|] == it.content;
  }

  // The items before the first one of type none.
  function BeforeNone(items: seq<Item>): (r: seq<Item>)
    ensures r <= items
    ensures r == items <==> forall i :: 0 <= i < |items| ==> items[i].kind != 0
  {
    if items == [] || items[0].kind == 0 then []
    else
      var r := [items[0]] + BeforeNone(items[1..]);
      assert r == items <==> BeforeNone(items[1..]) == items[1..] by {
        assert items == [items[0]] + items[1..] && r[1..] == BeforeNone(items[1..]);
      }
      assert (forall i :: 0 <= i < |items| ==> items[i].kind != 0)
        <==> (forall i :: 0 <= i < |items[1..]| ==> items[1..][i].kind != 0) by {
        SplitAll(items);
      }
      r
  }

  lemma SplitAll(items: seq<Item>)
    requires items != [] && items[0].kind != 0
    ensures (forall i :: 0 <= i < |items| ==> items[i].kind != 0)
        <==> (forall i :: 0 <= i < |items[1..]| ==> items[1..][i].kind != 0)
  {
    if forall i :: 0 <= i < |items[1..]| ==> items[1..][i].kind != 0 {
      forall i | 0 <= i < |items| ensures items[i].kind != 0 {
        if i > 0 { assert items[i] == items[1..][i - 1]; }
      }
    }
  }

  predicate ReadsAs(img: seq<Byte>, places: seq<nat>, items: seq<Item>) {
    && |places| == |items|
    && forall i :: 0 <= i < |places| ==>
      places[i] + HEADER_LEN <= |img| && NextAt(img, places[i]) <= |img| && ItemAt(img, places[i]) == items[i]
  }

  // The scan finds exactly these items, up to the first of type none.
  predicate Recovers(img: seq<Byte>, s: Scan, items: seq<Item>) {
    match s case Found(places) => ReadsAs(img, places, BeforeNone(items)) case Overrun => false
  }

  // The scan of the space that some items and their guard take.
  function ScanItems(img: seq<Byte>, pos: nat, items: seq<Item>, strict: bool): Scan
    requires AllFit(items)
  {
    ScanFrom(img, pos, pos + |ItemsBytes(items)| + HEADER_LEN, strict)
  }

  // Wherever the items and their guard were written, both readers find exactly
  // those items, up to the first of type none.
  lemma {:induction false} ItemsReadBack(img: seq<Byte>, pos: nat, items: seq<Item>, strict: bool)
    requires AllFit(items) && At(img, pos, ItemsBytes(items) + Guard())
    ensures Recovers(img, ScanItems(img, pos, items, strict), items)
    decreases items
  {
    hide FromLe, Word, At, ItemAt;
    if items == [] {
      GuardStops(img, pos);
    } else {
      hide *;
      FitsParts(items);
      var w, rest := ItemBytes(items[0]), ItemsBytes(items[1..]);
      FirstAndRest(items, w, rest);
      SplitBuffer(img, pos, w, rest + Guard());
      ItemReadBack(img, pos, items[0]);
      ItemsReadBack(img, pos + |w|, items[1..], strict);
      ItemsScan(img, pos, items, strict);
      ReadsOneMore(img, pos, ScanItems(img, pos + |w|, items[1..], strict), items);
    }
  }

  lemma ItemsScan(img: seq<Byte>, pos: nat, items: seq<Item>, strict: bool)
    requires items != [] && AllFit(items) && At(img, pos, ItemBytes(items[0]))
    ensures ScanItems(img, pos, items, strict) ==
      if items[0].kind == 0 then Found([])
      else Prepend(pos, ScanItems(img, pos + |ItemBytes(items[0])|, items[1..], strict))
  {
    hide *;
    FitsParts(items);
    var w, rest := ItemBytes(items[0]), ItemsBytes(items[1..]);
    FirstAndRest(items, w, rest);
    ScanItemsIs(img, pos, items, strict);
    ScanItemsIs(img, pos + |w|, items[1..], strict);
    ItemScan(img, pos, items[0], pos + |w| + |rest| + HEADER_LEN, strict);
  }

  lemma FitsParts(items: seq<Item>)
    requires items != [] && AllFit(items)
    ensures Fits(items[0]) && AllFit(items[1..])
  {
  }

  lemma ScanItemsIs(img: seq<Byte>, pos: nat, items: seq<Item>, strict: bool)
    requires AllFit(items)
    ensures ScanItems(img, pos, items, strict) == ScanFrom(img, pos, pos + |ItemsBytes(items)| + HEADER_LEN, strict)
  {
  }

  lemma FirstAndRest(items: seq<Item>, w: seq<Byte>, rest: seq<Byte>)
    requires items != [] && AllFit(items) && w == ItemBytes(items[0]) && rest == ItemsBytes(items[1..])
    ensures |w| >= HEADER_LEN > 0 && AllFit(items[1..]) && |ItemsBytes(items)| == |w| + |rest|
    ensures ItemsBytes(items) + Guard() == w + (rest + Guard())
    ensures Fits(items[0])
  {
    assert w + (rest + Guard()) == w + rest + Guard();
  }

  // One written item, as a reader sees it.
  lemma ItemScan(img: seq<Byte>, pos: nat, it: Item, end: nat, strict: bool)
    requires Fits(it) && At(img, pos, ItemBytes(it)) && pos < end
    ensures ScanFrom(img, pos, end, strict) ==
      if it.kind == 0 then Found([]) else Prepend(pos, ScanFrom(img, pos + |ItemBytes(it)|, end, strict))
  {
    ItemReadBack(img, pos, it);
    hide ItemBytes, HeaderBytes, ItemAt, At, Word;
    ScanStep(img, pos, end, strict);
  }

  // One header that a reader accepts, or that ends its loop.
  lemma ScanStep(img: seq<Byte>, pos: nat, end: nat, strict: bool)
    requires pos < end && pos + HEADER_LEN <= |img| && HasMagic(img, pos) && SizesAt(img, pos)
    ensures ScanFrom(img, pos, end, strict) ==
      if KindAt(img, pos) == 0 then Found([]) else Prepend(pos, ScanFrom(img, NextAt(img, pos), end, strict))
    ensures KindAt(img, pos) != 0 && ScanFrom(img, NextAt(img, pos), end, strict).Found? ==>
      ScanFrom(img, pos, end, strict) == Found([pos] + ScanFrom(img, NextAt(img, pos), end, strict).places)
  {
  }

  lemma ReadsOneMore(img: seq<Byte>, pos: nat, s: Scan, items: seq<Item>)
    requires items != [] && Recovers(img, s, items[1..])
    requires pos + HEADER_LEN <= |img| && NextAt(img, pos) <= |img| && ItemAt(img, pos) == items[0]
    ensures Recovers(img, if items[0].kind == 0 then Found([]) else Prepend(pos, s), items)
  {
    if items[0].kind == 0 { return; }
    var more, kept := [pos] + s.places, BeforeNone(items);
    assert kept == [items[0]] + BeforeNone(items[1..]);
    hide ItemAt, NextAt, BeforeNone;
    forall i | 0 <= i < |more|
      ensures more[i] + HEADER_LEN <= |img| && NextAt(img, more[i]) <= |img| && ItemAt(img, more[i]) == kept[i]
    {
      if i > 0 { assert more[i] == s.places[i - 1] && kept[i] == BeforeNone(items[1..])[i - 1]; }
    }
  }

  lemma GuardStops(img: seq<Byte>, pos: nat)
    requires At(img, pos, [] + Guard())
    ensures pos + HEADER_LEN <= |img| && KindAt(img, pos) == 0
  {
    assert [] + Guard() == Guard();
    SameSlices(img, pos, Guard());
    assert Guard()[16..20] == [0, 0, 0, 0] && img[pos + 16..pos + 20] == Guard()[16..20];
    ZeroWord();
  }

  lemma ZeroWord()
    ensures FromLe([0, 0, 0, 0]) == 0
  {
    assert FromLe([0]) == 0 + 256 * FromLe([0][1..]) == 0;
    assert [0, 0][1..] == [0] && [0, 0, 0][1..] == [0, 0] && [0, 0, 0, 0][1..] == [0, 0, 0];
    assert FromLe([0, 0]) == 0;
    assert FromLe([0, 0, 0]) == 0;
  }
}
