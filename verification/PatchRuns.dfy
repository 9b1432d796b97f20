// Reading a patched image again, undoing the patch, and runs of patching.
module PatchRuns {

  import opened BaseLib
  import opened Buffers
  import opened PatchExtra
  import opened PatchAdditional
  import opened PatchImage

  // ------------------------------------------------------------------ the parser

  // Fresh: no preset, the whole image is the kernel.  Outside: the code would
  // read outside the image.
  datatype Parsed =
    | Fresh(len: int)
    | SizeMismatch
    | KpimgMismatch
    | Outside
    | Patched(len: int, places: seq<nat>)

  // A 64-bit field of the setup structure of the preset at place p.
  function SetupField(img: seq<Byte>, p: nat, off: nat): nat
    requires p + PRESET_LEN <= |img| && off + 8 <= FIELDS_LEN
  {
    FromLe(img[p + SETUP_AT + off..p + SETUP_AT + off + 8])
  }

  function Backup(img: seq<Byte>, p: nat): (b: seq<Byte>)
    requires p + PRESET_LEN <= |img|
    ensures |b| == 8
  {
    img[p + SETUP_AT + 144..p + SETUP_AT + 152]
  }

  // The image with the saved header bytes back in place.
  function HeaderRestored(img: seq<Byte>, p: nat): (r: seq<Byte>)
    requires p + PRESET_LEN <= |img|
    ensures |r| == |img|
  {
    Splice(img, 0, Backup(img, p))
  }

  predicate HasSavedSize(img: seq<Byte>, p: nat)
    requires p + PRESET_LEN <= |img|
  {
    AlignPage(Int32(SetupField(img, p, 8))) == p
  }

  // The preset at place p describes a kernel of len bytes with the extra items
  // between start and end.
  function ParseAt(img: seq<Byte>, p: nat): Parsed {
    if p + PRESET_LEN > |img| then Outside
    else if !HasSavedSize(img, p) then SizeMismatch
    else
      var len := Int32(SetupField(img, p, 8));
      var start := Int32(p + SetupField(img, p, 16));
      if start > |img| then KpimgMismatch
      else if start == |img| then Patched(len, [])
      else if start < 0 then Outside
      else
        var end := start + Int32(SetupField(img, p, 56));
        var s := if end < 0 then Found([]) else ScanFrom(HeaderRestored(img, p), start, end, true);
        if s.Found? then Patched(len, s.places) else Outside
  }

  function Parse(img: seq<Byte>): Parsed {
    var p := Find(img, PresetMagic(), 0);
    if p < 0 then Fresh(|img|) else ParseAt(img, p)
  }

  // The image after it was parsed.
  function View(img: seq<Byte>): seq<Byte> {
    var p := Find(img, PresetMagic(), 0);
    if p >= 0 && p + PRESET_LEN <= |img| && HasSavedSize(img, p) then HeaderRestored(img, p) else img
  }

  // parse_image_patch_info, behind the checks of the kernel's own header and banner.
  method ParseImage(img: array<Byte>) returns (r: Parsed)
    modifies img
    ensures r == Parse(old(img[..])) && img[..] == View(old(img[..]))
  {
    hide Splice, FromLe, ScanFrom;
    ghost var was := img[..];
    var p := Find(img[..], PresetMagic(), 0);
    if p < 0 { return Fresh(img.Length); }
    if p + PRESET_LEN > img.Length { return Outside; }
    var len := Int32(SetupField(img[..], p, 8));
    if AlignPage(len) != p { return SizeMismatch; }
    var next := ExtraAppend(img, Backup(img[..], p), 0);
    SameFields(was, p);
    var start := Int32(p + SetupField(img[..], p, 16));
    if start > img.Length { return KpimgMismatch; }
    if start == img.Length { return Patched(len, []); }
    if start < 0 { return Outside; }
    var end := start + Int32(SetupField(img[..], p, 56));
    if end < 0 { return Patched(len, []); }
    var s := ParseItems(img, start, end);
    r := if s.Found? then Patched(len, s.places) else Outside;
  }

  lemma SameFields(img: seq<Byte>, p: nat)
    requires p + PRESET_LEN <= |img|
    ensures forall off: nat :: off + 8 <= FIELDS_LEN ==>
      SetupField(HeaderRestored(img, p), p, off) == SetupField(img, p, off)
  {
    forall off: nat | off + 8 <= FIELDS_LEN
      ensures SetupField(HeaderRestored(img, p), p, off) == SetupField(img, p, off)
    {
      var a := p + SETUP_AT + off;
      assert HeaderRestored(img, p)[a..a + 8] == img[a..a + 8];
    }
  }

  // unpatch_img: null where it has no preset, or would copy from outside the image.
  method Unpatch(img: array<Byte>) returns (out: array?<Byte>)
    modifies img
    ensures out != null <==> Unpatched(old(img[..])).Kernel?
    ensures out != null ==> fresh(out) && out[..] == Unpatched(old(img[..])).bytes
  {
    hide Splice, FromLe;
    ghost var was := img[..];
    var p := Find(img[..], PresetMagic(), 0);
    if p < 0 || p + PRESET_LEN > img.Length { return null; }
    var next := ExtraAppend(img, Backup(img[..], p), 0);
    SameFields(was, p);
    var size := Int32(SetupField(img[..], p, 8));
    if SetupField(img[..], p, 8) == 0 { size := p; }
    if size < 0 || size > img.Length { return null; }
    out := new Byte[size];
    ghost var blank := out[..];
    next := ExtraAppend(out, img[..size], 0);
    WholeSplice(blank, img[..size]);
  }

  datatype Restored = Kernel(bytes: seq<Byte>) | NotPatched | BadSize

  function Unpatched(img: seq<Byte>): Restored {
    var p := Find(img, PresetMagic(), 0);
    if p < 0 then NotPatched
    else if p + PRESET_LEN > |img| then BadSize
    else
      var size := if SetupField(img, p, 8) == 0 then p else Int32(SetupField(img, p, 8));
      if 0 <= size <= |img| then Kernel(HeaderRestored(img, p)[..size]) else BadSize
  }

  lemma WholeSplice(s: seq<Byte>, d: seq<Byte>)
    requires |s| == |d|
    ensures Splice(s, 0, d) == d
  {
  }

  // ---------------------------------------------------------- an output read back

  lemma {:induction false} FieldKept(f: seq<Byte>, at: nat, d: seq<Byte>, a: nat, b: nat)
    requires at + |d| <= |f| && a <= b <= |f| && (b <= at || at + |d| <= a)
    ensures Splice(f, at, d)[a..b] == f[a..b]
  {
  }

  lemma FieldSet(f: seq<Byte>, at: nat, d: seq<Byte>)
    requires at + |d| <= |f|
    ensures Splice(f, at, d)[at..at + |d|] == d
  {
  }

  lemma FieldsWritten(u: Update, len: nat)
    requires Suits(u, len)
    ensures var f := SetupFields(u, len);
            && f[8..16] == Le(8, len) && f[16..24] == Le(8, |u.kpimg|) && f[24..32] == Le(8, u.kernelSize)
            && f[40..48] == Le(8, AlignPage(len)) && f[48..56] == Le(8, StartOffset(u, len))
            && f[56..64] == Le(8, ExtraSize(u)) && f[144..152] == u.synced[..8]
            && forall k: nat {:trigger f[k]} :: k < 8 || 32 <= k < 40 || 64 <= k < 144 || 152 <= k < FIELDS_LEN ==> f[k] == u.fields[k]
  {
    hide Splice, Le, StartOffset, ExtraSize, OutLen;
    var f1 := Splice(u.fields, 8, Le(8, len));
    var f2 := Splice(f1, 16, Le(8, |u.kpimg|));
    AlignPageIs(len);
    var f3 := Splice(f2, 24, Le(8, u.kernelSize));
    var f4 := Splice(f3, 40, Le(8, AlignPage(len)));
    var f5 := Splice(f4, 48, Le(8, StartOffset(u, len)));
    var f6 := Splice(f5, 56, Le(8, ExtraSize(u)));
    forall k: nat | k < FIELDS_LEN
      ensures SetupFields(u, len)[k] ==
        if 8 <= k < 16 then Le(8, len)[k - 8] else if 16 <= k < 24 then Le(8, |u.kpimg|)[k - 16]
        else if 24 <= k < 32 then Le(8, u.kernelSize)[k - 24] else if 40 <= k < 48 then Le(8, AlignPage(len))[k - 40]
        else if 48 <= k < 56 then Le(8, StartOffset(u, len))[k - 48] else if 56 <= k < 64 then Le(8, ExtraSize(u))[k - 56]
        else if 144 <= k < 152 then u.synced[k - 144] else u.fields[k]
    {
      SpliceAt(u.fields, 8, Le(8, len), k);
      SpliceAt(f1, 16, Le(8, |u.kpimg|), k);
      SpliceAt(f2, 24, Le(8, u.kernelSize), k);
      SpliceAt(f3, 40, Le(8, AlignPage(len)), k);
      SpliceAt(f4, 48, Le(8, StartOffset(u, len)), k);
      SpliceAt(f5, 56, Le(8, ExtraSize(u)), k);
      SpliceAt(f6, 144, u.synced[..8], k);
    }
  }

  // The fields of the preset that an update writes.
  predicate PresetHolds(img: seq<Byte>, p: nat, u: Update, len: nat)
    requires Suits(u, len)
  {
    && p + PRESET_LEN <= |img|
    && SetupField(img, p, 8) == len && SetupField(img, p, 16) == |u.kpimg| && SetupField(img, p, 56) == ExtraSize(u)
    && SetupField(img, p, 48) == StartOffset(u, len)
    && Backup(img, p) == u.synced[..8]
  }

  lemma PresetWritten(img: seq<Byte>, p: nat, u: Update, len: nat)
    requires Suits(u, len) && Accepted(u.kvs) && At(img, p, KpimgPart(u, len))
    ensures At(img, p, PresetMagic()) && PresetHolds(img, p, u, len)
  {
    var k, f := KpimgPart(u, len), SetupFields(u, len);
    PresetParts(u, len);
    SameSlices(img, p, k);
    assert img[p + 0..p + 8] == k[0..8];
    forall a, b | 0 <= a <= b <= FIELDS_LEN
      ensures img[p + SETUP_AT + a..p + SETUP_AT + b] == f[a..b]
    {
      assert img[p + (SETUP_AT + a)..p + (SETUP_AT + b)] == k[SETUP_AT + a..SETUP_AT + b];
      assert k[SETUP_AT..SETUP_AT + FIELDS_LEN][a..b] == k[SETUP_AT + a..SETUP_AT + b];
    }
    FieldsWritten(u, len);
    hide Splice, Le, StartOffset, ExtraSize, OutLen, KpimgPart, SetupFields;
    FieldsReadBack(img, p, u, len);
  }

  lemma FieldsReadBack(img: seq<Byte>, p: nat, u: Update, len: nat)
    requires Suits(u, len) && p + PRESET_LEN <= |img|
    requires var a := p + SETUP_AT;
             && img[a + 8..a + 16] == Le(8, len) && img[a + 16..a + 24] == Le(8, |u.kpimg|)
             && img[a + 48..a + 56] == Le(8, StartOffset(u, len)) && img[a + 56..a + 64] == Le(8, ExtraSize(u))
             && img[a + 144..a + 152] == u.synced[..8]
    ensures PresetHolds(img, p, u, len)
  {
    RadixValues();
    AlignPageIs(len);
    var bound := OutLen(u, len);
    hide Le, FromLe, StartOffset;
    LeRoundTrip(8, len);
    LeRoundTrip(8, |u.kpimg|);
    LeRoundTrip(8, ExtraSize(u));
    LeRoundTrip(8, StartOffset(u, len));
  }

  // The preset's magic and fields inside the patch's part.
  lemma PresetParts(u: Update, len: nat)
    requires Suits(u, len) && Accepted(u.kvs)
    ensures var k := KpimgPart(u, len);
            && k[0..8] == PresetMagic()
            && k[SETUP_AT..SETUP_AT + FIELDS_LEN] == SetupFields(u, len)
  {
    hide SetupFields, Packed, OutLen;
    TailFits(u.kvs);
    var d, t := SetupFields(u, len) + Zeros(ADDITIONAL_LEN), Packed(u.kvs) + Tail(u.kvs);
    var k := Splice(u.kpimg, SETUP_AT, d);
    FieldKept(k, SETUP_AT + FIELDS_LEN, t, 0, 8);
    FieldKept(u.kpimg, SETUP_AT, d, 0, 8);
    FieldKept(k, SETUP_AT + FIELDS_LEN, t, SETUP_AT, SETUP_AT + FIELDS_LEN);
    FieldSet(u.kpimg, SETUP_AT, d);
    assert k[SETUP_AT..SETUP_AT + |d|][..FIELDS_LEN] == k[SETUP_AT..SETUP_AT + FIELDS_LEN];
    assert d[..FIELDS_LEN] == SetupFields(u, len);
  }

  // Where the parts of an output lie, also after the header was restored.
  lemma PartsLie(base: seq<Byte>, u: Update, head: seq<Byte>)
    requires Suits(u, |base|) && Accepted(u.kvs) && |head| == 8
    ensures |base| <= AlignPage(|base|)
    ensures var out := Splice(Output(base, u), 0, head);
            && At(out, 0, Splice(KernelPart(base, u), 0, head))
            && At(out, AlignPage(|base|), KpimgPart(u, |base|))
            && At(out, AlignPage(|base|) + |u.kpimg|, ItemsBytes(u.items) + Guard())
  {
    hide KernelPart, KpimgPart, ItemsBytes, Splice;
    AlignPageIs(|base|);
    var k, z, p, e := KernelPart(base, u), Zeros(AlignPage(|base|) - |base|), KpimgPart(u, |base|), ItemsBytes(u.items) + Guard();
    SpliceFront(k, z + p + e, 0, head);
    Regroup(k, z, p, e);
    LiesIn(Splice(k, 0, head), z, p, e);
  }

  lemma LiesIn(k: seq<Byte>, z: seq<Byte>, p: seq<Byte>, e: seq<Byte>)
    ensures var s := k + (z + p + e);
            At(s, 0, k) && At(s, |k| + |z|, p) && At(s, |k| + |z| + |p|, e)
  {
  }

  lemma PartsLieInOutput(base: seq<Byte>, u: Update)
    requires Suits(u, |base|) && Accepted(u.kvs)
    ensures At(Output(base, u), AlignPage(|base|), KpimgPart(u, |base|))
    ensures At(Output(base, u), AlignPage(|base|) + |u.kpimg|, ItemsBytes(u.items) + Guard())
  {
    hide KernelPart, KpimgPart, ItemsBytes, AllFit, Fits, WellFormed, PresetMagic, Zeros, Entry;
    AlignPageIs(|base|);
    LiesIn(KernelPart(base, u), Zeros(AlignPage(|base|) - |base|), KpimgPart(u, |base|), ItemsBytes(u.items) + Guard());
    Regroup(KernelPart(base, u), Zeros(AlignPage(|base|) - |base|), KpimgPart(u, |base|), ItemsBytes(u.items) + Guard());
  }

  // The output, once it is the first magic that the tools find.
  predicate MagicIsFirst(base: seq<Byte>, u: Update)
    requires Suits(u, |base|) && Accepted(u.kvs)
  {
    Find(Output(base, u), PresetMagic(), 0) == AlignPage(|base|)
  }

  lemma OutputPreset(base: seq<Byte>, u: Update)
    requires Suits(u, |base|) && Accepted(u.kvs)
    ensures var out, p := Output(base, u), AlignPage(|base|);
            At(out, p, PresetMagic()) && PresetHolds(out, p, u, |base|)
  {
    PartsLieInOutput(base, u);
    AlignPageIs(|base|);
    hide *;
    PresetWritten(Output(base, u), AlignPage(|base|), u, |base|);
  }

  // The first magic of an output is never behind its preset.
  lemma MagicIsFoundByPreset(base: seq<Byte>, u: Update)
    requires Suits(u, |base|) && Accepted(u.kvs)
    ensures 0 <= Find(Output(base, u), PresetMagic(), 0) <= AlignPage(|base|)
    ensures MagicIsFirst(base, u) <==> forall k: nat :: k < AlignPage(|base|) ==> !OccursAt(Output(base, u), PresetMagic(), k)
  {
    OutputPreset(base, u);
    var out, p := Output(base, u), AlignPage(|base|);
    assert OccursAt(out, PresetMagic(), p);
  }

  // The result of the parser: a kernel of len bytes and these items.
  predicate ParsedAs(r: Parsed, view: seq<Byte>, len: nat, items: seq<Item>) {
    match r case Patched(n, places) => n == len && ReadsAs(view, places, BeforeNone(items)) case _ => false
  }

  // The parser on a preset that an update wrote.
  lemma ParseOfPreset(img: seq<Byte>, p: nat, u: Update, len: nat)
    requires Suits(u, len) && PresetHolds(img, p, u, len) && p == AlignPage(len) && |img| == OutLen(u, len)
    requires Recovers(HeaderRestored(img, p), ScanItems(HeaderRestored(img, p), p + |u.kpimg|, u.items, true), u.items)
    ensures HasSavedSize(img, p)
    ensures ParsedAs(ParseAt(img, p), HeaderRestored(img, p), len, u.items)
    ensures ParseAt(img, p).Patched? &&
      ScanItems(HeaderRestored(img, p), p + |u.kpimg|, u.items, true) == Found(ParseAt(img, p).places)
  {
    AlignPageIs(len);
    hide SetupField, ScanFrom, HeaderRestored, ItemsBytes, StartOffset, ReadsAs, BeforeNone;
  }

  // Once the preset is the first, parsing an output restores the header.
  lemma ViewOfOutput(base: seq<Byte>, u: Update)
    requires Suits(u, |base|) && Accepted(u.kvs) && MagicIsFirst(base, u)
    ensures var out, p := Output(base, u), AlignPage(|base|);
            && p + PRESET_LEN <= |out|
            && View(out) == HeaderRestored(out, p) == Splice(out, 0, u.synced[..8])
            && Parse(out) == ParseAt(out, p)
  {
    var out, p := Output(base, u), AlignPage(|base|);
    OutputPreset(base, u);
    AlignPageIs(|base|);
    hide Output, Splice, FromLe, ExtraSize, StartOffset;
  }

  // A patched image parses back: the length of the kernel and the extra items.
  lemma ParsesBack(base: seq<Byte>, u: Update)
    requires Suits(u, |base|) && Accepted(u.kvs) && MagicIsFirst(base, u)
    ensures ParsedAs(Parse(Output(base, u)), View(Output(base, u)), |base|, u.items)
    ensures Parse(Output(base, u)).Patched? &&
      ScanItems(View(Output(base, u)), AlignPage(|base|) + |u.kpimg|, u.items, true) == Found(Parse(Output(base, u)).places)
  {
    hide *;
    AlignPageIs(|base|);
    SuitsParts(u, |base|);
    ViewOfOutput(base, u);
    OutputPreset(base, u);
    PartsLie(base, u, u.synced[..8]);
    var out, p := Output(base, u), AlignPage(|base|);
    ItemsReadBack(View(out), p + |u.kpimg|, u.items, true);
    ParseOfPreset(out, p, u, |base|);
  }

  // And its kernel is the one that was patched, with the edited window.
  lemma ViewIsKernel(base: seq<Byte>, u: Update)
    requires Suits(u, |base|) && Accepted(u.kvs) && MagicIsFirst(base, u)
    ensures |base| <= |View(Output(base, u))|
    ensures View(Output(base, u))[..|base|] == Splice(KernelPart(base, u), 0, u.synced[..8])
  {
    ViewOfOutput(base, u);
    PartsLie(base, u, u.synced[..8]);
    hide Output, KernelPart, KpimgPart, ItemsBytes, Splice, View;
  }

  // The kernel itself visits the items that the tool lists.
  lemma KernelVisitsSameItems(base: seq<Byte>, u: Update)
    requires Suits(u, |base|) && Accepted(u.kvs) && MagicIsFirst(base, u)
    ensures Recovers(Output(base, u), ScanItems(Output(base, u), AlignPage(|base|) + |u.kpimg|, u.items, false), u.items)
    ensures Parse(Output(base, u)).Patched? &&
      ScanItems(Output(base, u), AlignPage(|base|) + |u.kpimg|, u.items, false) == Found(Parse(Output(base, u)).places)
  {
    hide *;
    AlignPageIs(|base|);
    SuitsParts(u, |base|);
    ViewOfOutput(base, u);
    var out, p := Output(base, u), AlignPage(|base|);
    PartsLieInOutput(base, u);
    PartsLie(base, u, u.synced[..8]);
    ParsesBack(base, u);
    ItemsReadBack(out, p + |u.kpimg|, u.items, false);
    SamePlaces(out, p + |u.kpimg|, u.items, false, View(out), true);
  }

  // The places depend only on the items.
  lemma {:induction false} SamePlaces(img: seq<Byte>, pos: nat, items: seq<Item>, strict: bool, img': seq<Byte>, strict': bool)
    requires AllFit(items) && At(img, pos, ItemsBytes(items) + Guard()) && At(img', pos, ItemsBytes(items) + Guard())
    ensures ScanItems(img, pos, items, strict) == ScanItems(img', pos, items, strict')
    decreases items
  {
    if items == [] {
      GuardStops(img, pos);
      GuardStops(img', pos);
    } else {
      hide *;
      FitsParts(items);
      var w, rest := ItemBytes(items[0]), ItemsBytes(items[1..]);
      FirstAndRest(items, w, rest);
      SplitBuffer(img, pos, w, rest + Guard());
      SplitBuffer(img', pos, w, rest + Guard());
      SamePlaces(img, pos + |w|, items[1..], strict, img', strict');
      ItemsScan(img, pos, items, strict);
      ItemsScan(img', pos, items, strict');
    }
  }

  // The additional strings of an output are read back.
  lemma AdditionalReadBack(base: seq<Byte>, u: Update)
    requires Suits(u, |base|) && Accepted(u.kvs)
    ensures var area := AlignPage(|base|) + SETUP_AT + FIELDS_LEN;
            ReadFrom(Output(base, u), area, area + ADDITIONAL_LEN) == Strings(u.kvs)
  {
    AlignPageIs(|base|);
    hide Output, KpimgPart, Packed, Splice, ReadFrom, At;
    SuitsParts(u, |base|);
    AreaHolds(u, |base|);
    PartsLieInOutput(base, u);
    AreaReadBack(Output(base, u), AlignPage(|base|), KpimgPart(u, |base|), u.kvs);
  }

  lemma AreaReadBack(out: seq<Byte>, p: nat, k: seq<Byte>, kvs: seq<seq<Byte>>)
    requires At(out, p, k) && |k| > PRESET_LEN && Accepted(kvs)
    requires var a := SETUP_AT + FIELDS_LEN;
             && k[a..a + |Packed(kvs)|] == Packed(kvs)
             && (|Packed(kvs)| < ADDITIONAL_LEN ==> k[a + |Packed(kvs)|] == 0)
    ensures var area := p + SETUP_AT + FIELDS_LEN;
            ReadFrom(out, area, area + ADDITIONAL_LEN) == Strings(kvs)
  {
    var a, packed := SETUP_AT + FIELDS_LEN, Packed(kvs);
    hide Packed, ReadFrom;
    SliceInside(out, p, k, a, a + |packed|);
    assert p + |k| <= |out|;
    if |packed| < ADDITIONAL_LEN {
      SliceInside(out, p, k, a + |packed|, a + |packed| + 1);
      assert out[p + a + |packed|] == out[p + (a + |packed|)..p + (a + |packed| + 1)][0] == k[a + |packed|];
    }
    AdditionalRoundTrip(out, p + a, p + a + ADDITIONAL_LEN, kvs);
  }

  lemma AreaHolds(u: Update, len: nat)
    requires Suits(u, len) && Accepted(u.kvs)
    ensures var k, a := KpimgPart(u, len), SETUP_AT + FIELDS_LEN;
            && k[a..a + |Packed(u.kvs)|] == Packed(u.kvs)
            && (|Packed(u.kvs)| < ADDITIONAL_LEN ==> k[a + |Packed(u.kvs)|] == 0)
  {
    hide SetupFields, Packed, OutLen;
    TailFits(u.kvs);
    var d, t := SetupFields(u, len) + Zeros(ADDITIONAL_LEN), Packed(u.kvs) + Tail(u.kvs);
    var k, a := Splice(u.kpimg, SETUP_AT, d), SETUP_AT + FIELDS_LEN;
    FieldSet(k, a, t);
    assert Splice(k, a, t)[a..a + |t|][..|Packed(u.kvs)|] == Splice(k, a, t)[a..a + |Packed(u.kvs)|];
    if |Packed(u.kvs)| < ADDITIONAL_LEN {
      if u.kvs == [] {
        NothingPacked();
        assert k[a] == d[FIELDS_LEN] == 0;
      } else {
        assert Splice(k, a, t)[a + |Packed(u.kvs)|] == t[|Packed(u.kvs)|];
      }
    }
  }

  lemma NothingPacked()
    ensures Packed([]) == []
  {
  }

  // ----------------------------------------------------------------- unpatching

  // Unpatching an output gives the kernel that parsing shows.
  lemma UnpatchIsView(base: seq<Byte>, u: Update)
    requires Suits(u, |base|) && Accepted(u.kvs) && MagicIsFirst(base, u)
    ensures |base| <= |View(Output(base, u))|
    ensures Unpatched(Output(base, u)) == Kernel(View(Output(base, u))[..|base|])
  {
    hide Output, KpimgPart, KernelPart, Splice, ItemsBytes;
    OutputPreset(base, u);
    AlignPageIs(|base|);
    hide Output, Splice, FromLe, ExtraSize, StartOffset, PresetMagic;
  }

  // It differs from the kernel that was patched only in the window, and in the
  // first bytes, which come from the edited copy.
  lemma KernelBytes(base: seq<Byte>, u: Update, i: nat)
    requires Suits(u, |base|) && i < |base|
    ensures Splice(KernelPart(base, u), 0, u.synced[..8])[i] ==
      if i < 8 || InWindow(u, |base|, i) then u.synced[i] else base[i]
  {
    var end := WindowEnd(u, |base|);
    var copied := base;
    if end <= |base| {
      copied := Splice(base, u.mapAt, u.synced[u.mapAt..end]);
      SpliceAt(base, u.mapAt, u.synced[u.mapAt..end], i);
    }
    SpliceAt(copied, u.branchAt, BranchBytes(u, |base|), i);
    SpliceAt(KernelPart(base, u), 0, u.synced[..8], i);
  }

  lemma SpliceAt(s: seq<Byte>, off: nat, d: seq<Byte>, i: nat)
    requires off + |d| <= |s| && i < |s|
    ensures Splice(s, off, d)[i] == if off <= i < off + |d| then d[i - off] else s[i]
  {
  }

  // ----------------------------------------------------------------------- runs

  // disable_pi_map
  function PiPattern(): (p: seq<Byte>)
    ensures |p| == 12
  {
    [0xE6, 0x03, 0x16, 0xAA, 0xE7, 0x03, 0x1F, 0x2A, 0x34, 0x11, 0x88, 0x9A]
  }

  function PiReplacement(): (p: seq<Byte>)
    ensures |p| == 12
  {
    [0xE6, 0x03, 0x16, 0xAA, 0xE7, 0x03, 0x1F, 0x2A, 0xF4, 0x03, 0x09, 0xAA]
  }

  function PiMapDisabled(img: seq<Byte>): (r: seq<Byte>)
    ensures |r| == |img|
  {
    var q := Find(img, PiPattern(), 0);
    if q < 0 then img else Splice(img, q, PiReplacement())
  }

  method DisablePiMap(img: array<Byte>)
    modifies img
    ensures img[..] == PiMapDisabled(old(img[..]))
  {
    var q := Find(img[..], PiPattern(), 0);
    if q >= 0 {
      var next := ExtraAppend(img, PiReplacement(), q);
    }
  }

  // Only the last word of the pattern changes.
  lemma PiMapTouches(img: seq<Byte>, i: nat)
    requires i < |img|
    ensures PiMapDisabled(img)[i] != img[i] ==>
      Find(img, PiPattern(), 0) >= 0 && Find(img, PiPattern(), 0) + 8 <= i < Find(img, PiPattern(), 0) + 12
  {
    hide Find;
    var q := Find(img, PiPattern(), 0);
    if q >= 0 && q <= i < q + 8 {
      assert img[i] == img[q..q + 12][i - q] == PiPattern()[i - q];
      assert PiMapDisabled(img)[i] == PiReplacement()[i - q];
    }
  }

  // The kernel that an update of this image starts from.
  function Base(img: seq<Byte>, u: Update): seq<Byte>
    requires 0 <= KernelLen(img) <= |img|
  {
    (if u.hidesPiMap then PiMapDisabled(View(img)) else View(img))[..KernelLen(img)]
  }

  function KernelLen(img: seq<Byte>): int {
    match Parse(img) case Fresh(n) => n case Patched(n, _) => n case _ => -1
  }

  // The update runs to its end and its magic is the first one.
  predicate Applies(img: seq<Byte>, u: Update) {
    && 0 <= KernelLen(img) <= |img|
    && Suits(u, KernelLen(img)) && Accepted(u.kvs) && MagicIsFirst(Base(img, u), u)
  }

  function Next(img: seq<Byte>, u: Update): seq<Byte>
    requires Applies(img, u)
  {
    Output(Base(img, u), u)
  }

  predicate AllApply(img: seq<Byte>, us: seq<Update>)
    decreases us
  {
    us == [] || (Applies(img, us[0]) && AllApply(Next(img, us[0]), us[1..]))
  }

  function Run(img: seq<Byte>, us: seq<Update>): seq<Byte>
    requires AllApply(img, us)
    decreases us
  {
    if us == [] then img else Run(Next(img, us[0]), us[1..])
  }

  // Byte i of the kernel is not written by the update: it is outside the
  // window and the hidden mapping, or it is a header byte that the edited copy
  // still has.
  predicate Spares(img: seq<Byte>, u: Update, i: nat)
    requires Applies(img, u) && i < KernelLen(img)
  {
    if i < 8 || InWindow(u, KernelLen(img), i) then u.synced[i] == View(img)[i]
    else u.hidesPiMap && Find(View(img), PiPattern(), 0) >= 0 ==>
      !(Find(View(img), PiPattern(), 0) + 8 <= i < Find(View(img), PiPattern(), 0) + 12)
  }

  predicate AllSpare(img: seq<Byte>, us: seq<Update>, i: nat)
    requires AllApply(img, us)
    decreases us
  {
    us == [] || (i < KernelLen(img) && Spares(img, us[0], i) && AllSpare(Next(img, us[0]), us[1..], i))
  }

  lemma StepKeeps(img: seq<Byte>, u: Update)
    requires Applies(img, u)
    ensures KernelLen(Next(img, u)) == KernelLen(img) <= |Next(img, u)|
    ensures |View(Next(img, u))| == |Next(img, u)| && |View(img)| == |img|
    ensures forall i: nat :: i < KernelLen(img) && Spares(img, u, i) ==> View(Next(img, u))[i] == View(img)[i]
    ensures Unpatched(Next(img, u)) == Kernel(View(Next(img, u))[..KernelLen(img)])
  {
    var base := Base(img, u);
    ParsesBack(base, u);
    ViewIsKernel(base, u);
    UnpatchIsView(base, u);
    AlignPageIs(|base|);
    forall i: nat | i < KernelLen(img) && Spares(img, u, i)
      ensures View(Next(img, u))[i] == View(img)[i]
    {
      KernelBytes(base, u, i);
      PiMapTouches(View(img), i);
      assert View(Output(base, u))[i] == View(Output(base, u))[..|base|][i];
    }
  }

  // After any number of updates, unpatching gives back the kernel of the first
  // image: its length, and every byte that no update has written.
  lemma {:induction false} RunRestores(img: seq<Byte>, us: seq<Update>)
    requires AllApply(img, us) && us != [] && |View(img)| == |img|
    ensures 0 <= KernelLen(img) <= |img|
    ensures Unpatched(Run(img, us)).Kernel? && |Unpatched(Run(img, us)).bytes| == KernelLen(img)
    ensures forall i: nat :: i < KernelLen(img) && AllSpare(img, us, i) ==>
      Unpatched(Run(img, us)).bytes[i] == View(img)[i]
    decreases us
  {
    hide Applies, Spares, Unpatched, View, KernelLen, Next;
    StepKeeps(img, us[0]);
    AppliesLen(img, us[0]);
    if us[1..] == [] {
      assert Run(img, us) == Next(img, us[0]);
    } else {
      RunRestores(Next(img, us[0]), us[1..]);
    }
  }

  lemma AppliesLen(img: seq<Byte>, u: Update)
    requires Applies(img, u)
    ensures 0 <= KernelLen(img) <= |img|
  {
  }

  // For an image without a preset, the first image is the kernel itself.
  lemma FreshIsItsView(img: seq<Byte>)
    requires forall k: nat :: !OccursAt(img, PresetMagic(), k)
    ensures View(img) == img && KernelLen(img) == |img|
  {
  }
}
