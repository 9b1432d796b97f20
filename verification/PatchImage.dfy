// The patched kernel image: how patch_update_img lays it out, how
// parse_image_patch_info reads it again and how unpatch_img undoes it.
module PatchImage {

  import opened Bits
  import opened BitFields
  import opened BaseLib
  import opened Buffers
  import opened PatchExtra
  import opened PatchAdditional

  const SETUP_AT: nat := 64
  const FIELDS_LEN: nat := 824
  const PRESET_LEN: nat := 1400

  // "KP1158" in the eight bytes of the header's magic
  function PresetMagic(): (m: seq<Byte>)
    ensures |m| == 8
  {
    [0x4B, 0x50, 0x31, 0x31, 0x35, 0x38, 0, 0]
  }

  function Zeros(n: nat): (z: seq<Byte>)
    ensures |z| == n && forall i :: 0 <= i < n ==> z[i] == 0
  {
    seq(n, _ => 0)
  }

  // align_ceil(x, SZ_4K)
  function AlignPage(x: int): int {
    (x + 0xFFF) / 0x1000 * 0x1000
  }

  lemma AlignPageIs(x: int)
    ensures AlignPage(x) % 0x1000 == 0 && x <= AlignPage(x) < x + 0x1000
  {
  }

  // memmem(y, x) from place i on, or -1.
  function Find(y: seq<Byte>, x: seq<Byte>, i: nat): (r: int)
    ensures r == -1 || (i <= r && OccursAt(y, x, r) && forall k: nat :: i <= k < r ==> !OccursAt(y, x, k))
    ensures r == -1 ==> forall k: nat :: i <= k ==> !OccursAt(y, x, k)
    decreases |y| - i
  {
    if i + |x| > |y| then -1
    else if OccursAt(y, x, i) then i
    else Find(y, x, i + 1)
  }

  // ------------------------------------------------------------------ an update

  // What one call of patch_update_img puts into the image.  synced is the copy
  // of the kernel whose map area was edited, fields the bytes of the setup
  // structure that this model does not interpret.
  datatype Update = Update(
    kernelSize: nat,
    kpimg: seq<Byte>,
    fields: seq<Byte>,
    synced: seq<Byte>,
    mapAt: nat,
    mapMax: nat,
    hidesPiMap: bool,
    branchAt: nat,
    kvs: seq<seq<Byte>>,
    items: seq<Item>)

  // For a kernel of len bytes; the kpimg is one of this repository's, and the
  // sizes fit the ints they are computed in.
  predicate Suits(u: Update, len: nat) {
    && |u.kpimg| > PRESET_LEN && u.kpimg[..8] == PresetMagic()
    && |u.fields| == FIELDS_LEN && |u.synced| == len >= 8
    && (u.branchAt == 0 || u.branchAt == 4)
    && AllFit(u.items)
    && OutLen(u, len) < INT_MOD && StartOffset(u, len) < INT_MOD
  }

  function ExtraSize(u: Update): nat
    requires AllFit(u.items)
  {
    |ItemsBytes(u.items)| + HEADER_LEN
  }

  function OutLen(u: Update, len: nat): nat
    requires AllFit(u.items)
  {
    AlignPage(len) + |u.kpimg| + ExtraSize(u)
  }

  // start_offset
  function StartOffset(u: Update, len: nat): nat
    requires AllFit(u.items)
  {
    if OutLen(u, len) > AlignPage(u.kernelSize) then AlignPage(OutLen(u, len)) else AlignPage(u.kernelSize)
  }

  lemma StartIsPastOutput(u: Update, len: nat)
    requires AllFit(u.items)
    ensures StartOffset(u, len) % 0x1000 == 0
    ensures OutLen(u, len) <= StartOffset(u, len) && u.kernelSize <= StartOffset(u, len)
    ensures StartOffset(u, len) < OutLen(u, len) + 0x1000 || StartOffset(u, len) < u.kernelSize + 0x1000
  {
    hide OutLen;
    var n := OutLen(u, len);
    AlignPageIs(n);
    AlignPageIs(u.kernelSize);
  }

  // The end of the window that is copied from the edited kernel.
  function WindowEnd(u: Update, len: nat): nat {
    if u.mapAt + 2 * u.mapMax <= len then u.mapAt + 2 * u.mapMax
    else if u.mapAt <= len then len
    else u.mapAt
  }

  predicate InWindow(u: Update, len: nat, i: nat) {
    u.mapAt <= i < WindowEnd(u, len)
  }

  // text_offset: the engine's code starts behind its preset.
  function TextOffset(len: nat): int {
    AlignPage(len) + 0x1000
  }

  // can_b_imm
  predicate CanBranch(from: nat, to: nat) {
    (to >= from && to - from <= 0x800_0000) || (from >= to && from - to <= 0x800_0000)
  }

  // The word that b writes.
  function BranchWord(from: nat, to: nat): (w: nat)
    requires from <= to
    ensures w < 0x1_0000_0000
  {
    BranchValue(to - from);
    Or(0x1400_0000, Shr(And(to - from, 0x0FFF_FFFF), 2))
  }

  lemma BranchValue(d: nat)
    ensures Or(0x1400_0000, Shr(And(d, 0x0FFF_FFFF), 2)) == 0x1400_0000 + d % 0x1000_0000 / 4
  {
    hide Or, Shr, And, Pow2, Shl;
    PowersInUse();
    MorePowersInUse();
    AndLowMask(d, 28);
    ShrBy(d % 0x1000_0000, 2);
    ShlBy(5, 26);
    OrAbove(d % 0x1000_0000 / 4, 5, 26);
  }

  // What b writes over the first branch of the kernel: nothing if it cannot reach.
  function BranchBytes(u: Update, len: nat): (b: seq<Byte>)
    requires u.branchAt <= 4
    ensures |b| <= 4
  {
    AlignPageIs(len);
    if CanBranch(u.branchAt, TextOffset(len)) then Le(4, BranchWord(u.branchAt, TextOffset(len))) else []
  }

  // The kernel's part of the output.
  function KernelPart(base: seq<Byte>, u: Update): (k: seq<Byte>)
    requires Suits(u, |base|)
    ensures |k| == |base|
  {
    var end := WindowEnd(u, |base|);
    var copied := if end <= |base| then Splice(base, u.mapAt, u.synced[u.mapAt..end]) else base;
    Splice(copied, u.branchAt, BranchBytes(u, |base|))
  }

  // The setup structure up to the additional strings.
  function SetupFields(u: Update, len: nat): (f: seq<Byte>)
    requires Suits(u, len)
    ensures |f| == FIELDS_LEN
  {
    AlignPageIs(len);
    var f1 := Splice(u.fields, 8, Le(8, len));
    var f2 := Splice(f1, 16, Le(8, |u.kpimg|));
    var f3 := Splice(f2, 24, Le(8, u.kernelSize));
    var f4 := Splice(f3, 40, Le(8, AlignPage(len)));
    var f5 := Splice(f4, 48, Le(8, StartOffset(u, len)));
    var f6 := Splice(f5, 56, Le(8, ExtraSize(u)));
    Splice(f6, 144, u.synced[..8])
  }

  // The patch's part, with its preset filled in.
  function KpimgPart(u: Update, len: nat): (k: seq<Byte>)
    requires Suits(u, len) && Accepted(u.kvs)
    ensures |k| == |u.kpimg|
  {
    Splice(
      Splice(u.kpimg, SETUP_AT, SetupFields(u, len) + Zeros(ADDITIONAL_LEN)),
      SETUP_AT + FIELDS_LEN,
      Packed(u.kvs) + Tail(u.kvs))
  }

  // The whole output for a kernel.
  function Output(base: seq<Byte>, u: Update): (out: seq<Byte>)
    requires Suits(u, |base|) && Accepted(u.kvs)
    ensures |out| == OutLen(u, |base|)
  {
    AlignPageIs(|base|);
    KernelPart(base, u) + Zeros(AlignPage(|base|) - |base|) + KpimgPart(u, |base|) + (ItemsBytes(u.items) + Guard())
  }

  lemma SpliceMid(p: seq<Byte>, m: seq<Byte>, q: seq<Byte>, off: nat, d: seq<Byte>)
    requires off + |d| <= |m|
    ensures Splice(p + m + q, |p| + off, d) == p + Splice(m, off, d) + q
  {
    var s := p + m + q;
    assert s[..|p| + off] == p + m[..off];
    assert s[|p| + off + |d|..] == m[off + |d|..] + q;
  }

  lemma SpliceInSplice(s: seq<Byte>, at: nat, f: seq<Byte>, k: nat, d: seq<Byte>)
    requires at + |f| <= |s| && k + |d| <= |f|
    ensures Splice(Splice(s, at, f), at + k, d) == Splice(s, at, Splice(f, k, d))
  {
    SpliceMid(s[..at], f, s[at + |f|..], k, d);
  }

  // Filling in the setup structure, which starts at place at.
  method WriteSetup(out: array<Byte>, at: nat, u: Update, len: nat)
    requires Suits(u, len) && at + FIELDS_LEN + ADDITIONAL_LEN <= out.Length
    modifies out
    ensures out[..] == Splice(old(out[..]), at, SetupFields(u, len) + Zeros(ADDITIONAL_LEN))
  {
    hide Splice, StartOffset, ExtraSize, Suits;
    SuitsParts(u, len);
    ghost var was := out[..];
    var z := Zeros(ADDITIONAL_LEN);
    var next := ExtraAppend(out, Zeros(FIELDS_LEN + ADDITIONAL_LEN), at);
    next := ExtraAppend(out, u.fields, at);
    OverZeros(was, at, u.fields);
    ghost var f := u.fields;
    next := SetField(out, at, was, f, 8, Le(8, len));
    f := Splice(f, 8, Le(8, len));
    next := SetField(out, at, was, f, 16, Le(8, |u.kpimg|));
    f := Splice(f, 16, Le(8, |u.kpimg|));
    next := SetField(out, at, was, f, 24, Le(8, u.kernelSize));
    f := Splice(f, 24, Le(8, u.kernelSize));
    AlignPageIs(len);
    next := SetField(out, at, was, f, 40, Le(8, AlignPage(len)));
    f := Splice(f, 40, Le(8, AlignPage(len)));
    next := SetField(out, at, was, f, 48, Le(8, StartOffset(u, len)));
    f := Splice(f, 48, Le(8, StartOffset(u, len)));
    next := SetField(out, at, was, f, 56, Le(8, ExtraSize(u)));
    f := Splice(f, 56, Le(8, ExtraSize(u)));
    next := SetField(out, at, was, f, 144, u.synced[..8]);
  }

  lemma SuitsParts(u: Update, len: nat)
    requires Suits(u, len)
    ensures AllFit(u.items) && |u.fields| == FIELDS_LEN && |u.synced| == len >= 8
  {
  }

  lemma OverZeros(was: seq<Byte>, at: nat, f: seq<Byte>)
    requires |f| == FIELDS_LEN && at + FIELDS_LEN + ADDITIONAL_LEN <= |was|
    ensures Splice(Splice(was, at, Zeros(FIELDS_LEN + ADDITIONAL_LEN)), at, f) == Splice(was, at, f + Zeros(ADDITIONAL_LEN))
  {
    SpliceInSplice(was, at, Zeros(FIELDS_LEN + ADDITIONAL_LEN), 0, f);
    assert Splice(Zeros(FIELDS_LEN + ADDITIONAL_LEN), 0, f) == f + Zeros(ADDITIONAL_LEN);
  }

  // One field; f are the fields so far.
  method SetField(out: array<Byte>, at: nat, ghost was: seq<Byte>, ghost f: seq<Byte>, k: nat, d: seq<Byte>)
    returns (next: nat)
    requires |f| == FIELDS_LEN && k + |d| <= FIELDS_LEN && at + FIELDS_LEN + ADDITIONAL_LEN <= out.Length == |was|
    requires out[..] == Splice(was, at, f + Zeros(ADDITIONAL_LEN))
    modifies out
    ensures out[..] == Splice(was, at, Splice(f, k, d) + Zeros(ADDITIONAL_LEN))
  {
    next := ExtraAppend(out, d, at + k);
    SpliceInSplice(was, at, f + Zeros(ADDITIONAL_LEN), k, d);
    SpliceMid([], f, Zeros(ADDITIONAL_LEN), k, d);
    assert [] + f + Zeros(ADDITIONAL_LEN) == f + Zeros(ADDITIONAL_LEN);
    assert [] + Splice(f, k, d) + Zeros(ADDITIONAL_LEN) == Splice(f, k, d) + Zeros(ADDITIONAL_LEN);
  }

  // The window and the branch of the kernel's part.
  method SyncKernel(out: array<Byte>, u: Update, ghost base: seq<Byte>, ghost rest: seq<Byte>, len: nat)
    requires Suits(u, len) && |base| == len && out[..] == base + rest
    modifies out
    ensures out[..] == KernelPart(base, u) + rest
  {
    AlignPageIs(len);
    var end := WindowEnd(u, len);
    ghost var k := base;
    var next := 0;
    if end <= len {
      next := ExtraAppend(out, u.synced[u.mapAt..end], u.mapAt);
      SpliceFront(base, rest, u.mapAt, u.synced[u.mapAt..end]);
      k := Splice(base, u.mapAt, u.synced[u.mapAt..end]);
    }
    WriteBranch(out, u.branchAt, TextOffset(len));
    SpliceFront(k, rest, u.branchAt, BranchBytes(u, len));
  }

  // b of the tool
  method WriteBranch(out: array<Byte>, from: nat, to: nat)
    requires from <= to && from + 4 <= out.Length
    modifies out
    ensures out[..] ==
      if CanBranch(from, to) then Splice(old(out[..]), from, Le(4, BranchWord(from, to))) else old(out[..])
  {
    if CanBranch(from, to) {
      var next := ExtraAppend(out, Le(4, BranchWord(from, to)), from);
    }
  }

  lemma SpliceFront(m: seq<Byte>, q: seq<Byte>, off: nat, d: seq<Byte>)
    requires off + |d| <= |m|
    ensures Splice(m + q, off, d) == Splice(m, off, d) + q
  {
    SpliceMid([], m, q, off, d);
    assert [] + m + q == m + q && [] + Splice(m, off, d) + q == Splice(m, off, d) + q;
  }

  // Copying the three parts to the start of the output.
  method CopyParts(out: array<Byte>, base: seq<Byte>, zeros: seq<Byte>, kpimg: seq<Byte>) returns (ghost rest: seq<Byte>)
    requires |base| + |zeros| + |kpimg| <= out.Length
    modifies out
    ensures out[..] == base + zeros + kpimg + rest
  {
    hide Splice;
    ghost var was := out[..];
    var next := ExtraAppend(out, base, 0);
    next := ExtraAppend(out, zeros, next);
    SpliceTwice(was, 0, base, zeros);
    next := ExtraAppend(out, kpimg, next);
    SpliceTwice(was, 0, base + zeros, kpimg);
    SpliceAtStart(was, base + zeros + kpimg);
    rest := was[next..];
  }

  lemma SpliceAtStart(s: seq<Byte>, d: seq<Byte>)
    requires |d| <= |s|
    ensures Splice(s, 0, d) == d + s[|d|..]
  {
    assert s[..0] == [];
  }

  // The layout half of patch_update_img; None for the errors of the
  // additional strings.
  method PatchUpdate(base: seq<Byte>, u: Update) returns (out: array?<Byte>)
    requires Suits(u, |base|)
    ensures (out != null <==> Accepted(u.kvs)) && (out != null ==> fresh(out) && out[..] == Output(base, u))
  {
    hide Splice, ItemsBytes, Packed, Le;
    var len := |base|;
    AlignPageIs(len);
    var align := AlignPage(len);
    var z := Zeros(align - len);
    out := new Byte[OutLen(u, len)];
    ghost var rest := CopyParts(out, base, z, u.kpimg);
    ghost var front, k := base + z, u.kpimg;
    WriteSetup(out, align + SETUP_AT, u, len);
    SpliceMid(front, k, rest, SETUP_AT, SetupFields(u, len) + Zeros(ADDITIONAL_LEN));
    k := Splice(k, SETUP_AT, SetupFields(u, len) + Zeros(ADDITIONAL_LEN));
    Regroup(base, z, k, rest);
    SyncKernel(out, u, base, z + k + rest, len);
    ghost var kernel := KernelPart(base, u);
    Regroup(kernel, z, k, rest);
    var ok := WriteAdditional(out, align + SETUP_AT + FIELDS_LEN, u.kvs);
    if !ok { return null; }
    TailFits(u.kvs);
    SpliceMid(kernel + z, k, rest, SETUP_AT + FIELDS_LEN, Packed(u.kvs) + Tail(u.kvs));
    k := KpimgPart(u, len);
    var end := WriteExtras(out, u.items, align + |u.kpimg|);
    SpliceEnd(kernel + z + k, rest, ItemsBytes(u.items) + Guard());
  }

  lemma Regroup(a: seq<Byte>, b: seq<Byte>, c: seq<Byte>, d: seq<Byte>)
    ensures a + b + c + d == a + (b + c + d)
  {
  }

  lemma TailFits(kvs: seq<seq<Byte>>)
    requires Accepted(kvs)
    ensures |Packed(kvs) + Tail(kvs)| <= ADDITIONAL_LEN + 1
  {
  }

  lemma SpliceEnd(front: seq<Byte>, rest: seq<Byte>, d: seq<Byte>)
    requires |rest| == |d|
    ensures Splice(front + rest, |front|, d) == front + d
  {
    assert (front + rest)[..|front|] == front;
  }
}
