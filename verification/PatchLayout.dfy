// Where every byte of a patched image lies, by the offsets that the declarations of
// preset.h give, and where its first branch goes.
module PatchLayout {
  import opened Bits
  import opened BitFields
  import A64
  import opened BaseLib
  import opened Buffers
  import opened PatchExtra
  import opened PatchAdditional
  import opened PatchImage
  import opened PatchRuns

  // ------------------------------------------------------------------ the kernel

  // Every byte of the kernel in the output: the branch over its first instructions, the
  // edited copy in the window, and the kernel that was patched everywhere else.
  lemma KernelInOutput(base: seq<Byte>, u: Update, i: nat)
    requires Suits(u, |base|) && Accepted(u.kvs) && i < |base|
    ensures var b := BranchBytes(u, |base|);
      Output(base, u)[i] ==
        if u.branchAt <= i < u.branchAt + |b| then b[i - u.branchAt]
        else if u.mapAt <= i < u.mapAt + 2 * u.mapMax then u.synced[i]
        else base[i]
  {
    hide KpimgPart, ItemsBytes, BranchBytes, Suits, Splice;
    SuitsParts(u, |base|);
    AlignPageIs(|base|);
    InFront(base, u, i);
    var end := WindowEnd(u, |base|);
    var copied := base;
    if end <= |base| {
      copied := Splice(base, u.mapAt, u.synced[u.mapAt..end]);
      SpliceAt(base, u.mapAt, u.synced[u.mapAt..end], i);
    }
    BranchFits(u, |base|);
    SpliceAt(copied, u.branchAt, BranchBytes(u, |base|), i);
  }

  lemma BranchFits(u: Update, len: nat)
    requires Suits(u, len)
    ensures u.branchAt <= 4 && u.branchAt + |BranchBytes(u, len)| <= len
  {
  }

  lemma InFront(base: seq<Byte>, u: Update, i: nat)
    requires Suits(u, |base|) && Accepted(u.kvs) && i < |base|
    ensures |Output(base, u)| > i && Output(base, u)[i] == KernelPart(base, u)[i]
  {
    hide KernelPart, KpimgPart, ItemsBytes;
    AlignPageIs(|base|);
  }

  lemma OutputIsLonger(base: seq<Byte>, u: Update)
    requires Suits(u, |base|) && Accepted(u.kvs)
    ensures |base| <= AlignPage(|base|) <= |Output(base, u)|
  {
    AlignPageIs(|base|);
  }

  // The word at the start of the output, as a little-endian processor reads it.
  function EntryWord(base: seq<Byte>, u: Update): (w: nat)
    requires Suits(u, |base|) && Accepted(u.kvs)
    ensures w < 0x1_0000_0000
  {
    OutputIsLonger(base, u);
    hide Output;
    var out, at := Output(base, u), u.branchAt;
    WordOf(out[at], out[at + 1], out[at + 2], out[at + 3])
  }

  function WordOf(b0: nat, b1: nat, b2: nat, b3: nat): (w: nat)
    ensures b0 < 256 && b1 < 256 && b2 < 256 && b3 < 256 ==> w < 0x1_0000_0000
  {
    b0 + 0x100 * b1 + 0x1_0000 * b2 + 0x100_0000 * b3
  }

  // The processor that executes the first branch reaches the engine's code, one page
  // behind the start of its preset, if and only if that is less than 2^27 bytes away.  At
  // exactly 2^27 the branch goes backwards, and further on none is written.
  lemma EntryReachesEngine(base: seq<Byte>, u: Update)
    requires Suits(u, |base|) && Accepted(u.kvs)
    ensures var insn, to := A64.Decode(EntryWord(base, u)), AlignPage(|base|) + 0x1000;
      insn.B? && A64.Plus(u.branchAt, insn.off) == to <==> to - u.branchAt < 0x800_0000
  {
    hide Output, KernelPart, A64.Decode, A64.Offset26, Accepted, AlignPage;
    AlignPageIs(|base|);
    TextAligned(|base|);
    EntryPlace(u, |base|);
    var from, to := u.branchAt, TextOffset(|base|);
    var w := EntryWord(base, u);
    if CanBranch(from, to) {
      EntryIsBranch(base, u);
      BranchDecodes(w, from, to);
    } else {
      FarFromAny(w, from, to);
    }
  }

  lemma TextAligned(len: nat)
    ensures TextOffset(len) % 4 == 0 && TextOffset(len) >= 0x1000 && TextOffset(len) == AlignPage(len) + 0x1000
  {
    AlignPageIs(len);
  }

  lemma EntryPlace(u: Update, len: nat)
    requires Suits(u, len)
    ensures (u.branchAt == 0 || u.branchAt == 4) && AlignPage(len) < 0x8000_0000
  {
  }

  lemma EntryIsBranch(base: seq<Byte>, u: Update)
    requires Suits(u, |base|) && Accepted(u.kvs) && u.branchAt <= TextOffset(|base|)
    requires CanBranch(u.branchAt, TextOffset(|base|))
    ensures EntryWord(base, u) == 0x1400_0000 + (TextOffset(|base|) - u.branchAt) % 0x1000_0000 / 4
  {
    hide Output, KernelPart, Suits, Or, Shr, And, TextOffset, AlignPage, OutLen;
    SuitsParts(u, |base|);
    BranchFits(u, |base|);
    var w := BranchWord(u.branchAt, TextOffset(|base|));
    KernelInOutput(base, u, u.branchAt);
    KernelInOutput(base, u, u.branchAt + 1);
    KernelInOutput(base, u, u.branchAt + 2);
    KernelInOutput(base, u, u.branchAt + 3);
    FourBytes(w);
    BranchValue(TextOffset(|base|) - u.branchAt);
  }

  // The little-endian bytes of a word.
  lemma FourBytes(w: nat)
    requires w < 0x1_0000_0000
    ensures var s := Le(4, w);
      s[0] == w % 0x100 && s[1] == w / 0x100 % 0x100 && s[2] == w / 0x1_0000 % 0x100 && s[3] == w / 0x100_0000
    ensures var s := Le(4, w); WordOf(s[0], s[1], s[2], s[3]) == w
  {
    var a, b, c := w / 256, w / 256 / 256, w / 256 / 256 / 256;
    assert Le(4, w) == [w % 256] + Le(3, a) && Le(3, a) == [a % 256] + Le(2, b);
    assert Le(2, b) == [b % 256] + Le(1, c) && Le(1, c) == [c % 256] + Le(0, c / 256);
  }

  lemma BranchDecodes(w: nat, from: nat, to: nat)
    requires from <= 4 && from <= to && to - from <= 0x800_0000 && to % 4 == 0 && from % 4 == 0
    requires w == 0x1400_0000 + (to - from) % 0x1000_0000 / 4
    ensures A64.Decode(w) == A64.B(A64.Offset26(w))
    ensures A64.Plus(from, A64.Offset26(w)) == to <==> to - from < 0x800_0000
  {
    var n := (to - from) / 4;
    assert w == 0x1400_0000 + n && w / 0x100_0000 / 4 == 5 && w % 0x400_0000 == n;
  }

  // No branch reaches as far.
  lemma FarFromAny(w: nat, from: nat, to: nat)
    requires w < 0x1_0000_0000 && from <= 4 && to > from + 0x800_0000 && to < 0x1_0000_0000
    ensures A64.Decode(w).B? ==> A64.Plus(from, A64.Decode(w).off) != to
  {
    hide A64.PageOffset, A64.Offset21, A64.Offset19, A64.Offset14, A64.TestedBit, A64.LoadKindOf;
    assert A64.Decode(w).B? ==> A64.Decode(w).off == A64.Offset26(w);
  }

  // The third word of the pattern that the tool looks for is a CSEL, and it is replaced by
  // a move of the register that the CSEL takes if its condition holds.
  lemma PiMapTakesFirst()
    ensures var p, r := PiPattern(), PiReplacement();
      var w, v := WordOf(p[8], p[9], p[10], p[11]), WordOf(r[8], r[9], r[10], r[11]);
      && p[..8] == r[..8]
      && w / 0x20_0000 == 0x4D4 && w / 0x400 % 4 == 0
      && v / 0x20_0000 == 0x550 && v / 0x400 % 0x40 == 0 && v / 0x20 % 0x20 == 31
      && v % 0x20 == w % 0x20 && v / 0x1_0000 % 0x20 == w / 0x20 % 0x20
  {
  }

  // ------------------------------------------------------------------ the engine

  // Every byte of the engine in the output: its own, but for the setup structure, which
  // starts at 64, the additional strings, which start at 888, and the zeros up to 1400.
  lemma EngineInOutput(base: seq<Byte>, u: Update, k: nat)
    requires Suits(u, |base|) && Accepted(u.kvs) && k < |u.kpimg|
    ensures |Output(base, u)| > AlignPage(|base|) + k
    ensures var strings := Packed(u.kvs) + Tail(u.kvs);
      Output(base, u)[AlignPage(|base|) + k] ==
        if 64 <= k < 888 then SetupFields(u, |base|)[k - 64]
        else if 888 <= k < 888 + |strings| then strings[k - 888]
        else if 888 <= k < 1400 then 0
        else u.kpimg[k]
  {
    PartsLieInOutput(base, u);
    AlignPageIs(|base|);
    TailFits(u.kvs);
    var f, d := SetupFields(u, |base|), Packed(u.kvs) + Tail(u.kvs);
    var now := Splice(u.kpimg, 64, f + Zeros(512));
    hide Output, SetupFields, Packed, Tail, Splice;
    assert Output(base, u)[AlignPage(|base|)..AlignPage(|base|) + |u.kpimg|][k] == KpimgPart(u, |base|)[k];
    SpliceAt(u.kpimg, 64, f + Zeros(512), k);
    SpliceAt(now, 888, d, k);
  }

  // The fields of the setup structure that the tool computes, each at its offset: the
  // lengths of kernel and engine, the memory the kernel needs, where the engine is and
  // where it is started, the length of the items, and the saved header.
  lemma SetupInOutput(base: seq<Byte>, u: Update)
    requires Suits(u, |base|) && Accepted(u.kvs)
    ensures var out, a := Output(base, u), AlignPage(|base|);
      && 0 <= a && a + 1400 <= |out|
      && out[a + 72..a + 80] == Le(8, |base|) && out[a + 80..a + 88] == Le(8, |u.kpimg|)
      && out[a + 88..a + 96] == Le(8, u.kernelSize) && out[a + 104..a + 112] == Le(8, a)
      && out[a + 112..a + 120] == Le(8, StartOffset(u, |base|)) && out[a + 120..a + 128] == Le(8, ExtraSize(u))
      && out[a + 208..a + 216] == u.synced[..8]
  {
    hide Output, SetupFields, StartOffset, ExtraSize, Le, Suits, Accepted, AlignPage;
    AlignPageIs(|base|);
    FieldsWritten(u, |base|);
    FieldInOutput(base, u, 8, 16);
    FieldInOutput(base, u, 16, 24);
    FieldInOutput(base, u, 24, 32);
    FieldInOutput(base, u, 40, 48);
    FieldInOutput(base, u, 48, 56);
    FieldInOutput(base, u, 56, 64);
    FieldInOutput(base, u, 144, 152);
  }

  lemma FieldInOutput(base: seq<Byte>, u: Update, p: nat, q: nat)
    requires Suits(u, |base|) && Accepted(u.kvs) && p <= q <= 824
    ensures 0 <= AlignPage(|base|) && AlignPage(|base|) + 1400 <= |Output(base, u)|
    ensures Output(base, u)[AlignPage(|base|) + 64 + p..AlignPage(|base|) + 64 + q] == SetupFields(u, |base|)[p..q]
  {
    hide KernelPart, Output, SetupFields;
    AlignPageIs(|base|);
    EngineInOutput(base, u, 1399);
    var out, a, f := Output(base, u), AlignPage(|base|), SetupFields(u, |base|);
    forall k: nat | k < q - p
      ensures out[a + 64 + p..a + 64 + q][k] == f[p..q][k]
    {
      EngineInOutput(base, u, 64 + p + k);
    }
  }

  // Every string lies in the area behind its length, and behind the last is a zero as far
  // as the area goes.
  lemma StringsInOutput(base: seq<Byte>, u: Update, i: nat)
    requires Suits(u, |base|) && Accepted(u.kvs) && i < |u.kvs|
    ensures var out, at := Output(base, u), AlignPage(|base|) + 888 + |Packed(u.kvs[..i])|;
      && 0 <= AlignPage(|base|) && at + 1 + |u.kvs[i]| <= |out|
      && out[at] == |u.kvs[i]| && out[at + 1..at + 1 + |u.kvs[i]|] == u.kvs[i]
  {
    hide *;
    AlignPageIs(|base|);
    ShortString(u.kvs, i);
    StringByte(base, u, i, |u.kvs[i]|);
    var out, at: nat := Output(base, u), AlignPage(|base|) + 888 + |Packed(u.kvs[..i])|;
    forall k: nat | k <= |u.kvs[i]|
      ensures at + k < |out| && out[at + k] == Entry(u.kvs[i])[k]
    {
      StringByte(base, u, i, k);
    }
    EntryLies(out, at, u.kvs[i]);
  }

  lemma EntryLies(out: seq<Byte>, at: nat, kv: seq<Byte>)
    requires |kv| <= 127
    requires forall k: nat {:trigger Entry(kv)[k]} :: k <= |kv| ==> at + k < |out| && out[at + k] == Entry(kv)[k]
    ensures at + 1 + |kv| <= |out| && out[at] == |kv| && out[at + 1..at + 1 + |kv|] == kv
  {
    var e, first, last := Entry(kv), Entry(kv)[0], Entry(kv)[|kv|];
    assert out[at + 0] == first && at + |kv| < |out|;
    forall k: nat | k < |kv|
      ensures out[at + 1..at + 1 + |kv|][k] == kv[k]
    {
      assert out[at + (k + 1)] == e[k + 1];
    }
  }

  lemma StringByte(base: seq<Byte>, u: Update, i: nat, k: nat)
    requires Suits(u, |base|) && Accepted(u.kvs) && i < |u.kvs| && k <= |u.kvs[i]|
    ensures 0 <= AlignPage(|base|) && AlignPage(|base|) + 1400 <= |Output(base, u)|
    ensures 888 + |Packed(u.kvs[..i])| + k < 1400
    ensures Output(base, u)[AlignPage(|base|) + 888 + |Packed(u.kvs[..i])| + k] == Entry(u.kvs[i])[k]
  {
    hide KpimgPart, ItemsBytes, AllFit;
    AlignPageIs(|base|);
    PackedSplits(u.kvs, i);
    ShortString(u.kvs, i);
    EngineLength(base, u);
    EngineInOutput(base, u, 1399);
    var p := |Packed(u.kvs[..i])|;
    EngineInOutput(base, u, 888 + p + k);
    hide Output, Packed, Tail, Suits, Accepted, SetupFields;
    assert Packed(u.kvs)[p..p + 1 + |u.kvs[i]|][k] == Packed(u.kvs)[p + k];
  }

  lemma EngineLength(base: seq<Byte>, u: Update)
    requires Suits(u, |base|)
    ensures |u.kpimg| > 1400
  {
  }

  lemma ShortString(kvs: seq<seq<Byte>>, i: nat)
    requires Accepted(kvs) && i < |kvs|
    ensures |kvs[i]| <= 127 && |Packed(kvs)| <= 512
  {
  }

  lemma {:induction false} PackedSplits(kvs: seq<seq<Byte>>, i: nat)
    requires i < |kvs|
    ensures var p := |Packed(kvs[..i])|;
      p + 1 + |kvs[i]| <= |Packed(kvs)| && Packed(kvs)[p..p + 1 + |kvs[i]|] == Entry(kvs[i])
  {
    if i == 0 {
      assert kvs[..0] == [];
    } else {
      PackedSplits(kvs[1..], i - 1);
      assert kvs[..i][0] == kvs[0] && kvs[..i][1..] == kvs[1..][..i - 1];
    }
  }

  // ------------------------------------------------------------- around and behind

  // Zeros fill the kernel's last page, and behind the engine are the items, the empty
  // one at the end, and nothing more.
  lemma RestOfOutput(base: seq<Byte>, u: Update)
    requires Suits(u, |base|) && Accepted(u.kvs)
    ensures var out, a := Output(base, u), AlignPage(|base|);
      && |base| <= a && |out| == a + |u.kpimg| + |ItemsBytes(u.items)| + 128
      && (forall i :: |base| <= i < a ==> out[i] == 0)
      && out[a + |u.kpimg|..] == ItemsBytes(u.items) + seq(128, _ => 0)
  {
    PartsLieInOutput(base, u);
    AlignPageIs(|base|);
    hide KernelPart, KpimgPart, ItemsBytes;
  }

  // The fields of an item's header, each at its offset.
  lemma ItemLayout(it: Item)
    requires Fits(it)
    ensures var s := ItemBytes(it);
      && |s| == 128 + |it.args| + |it.content| && s[..4] == [0x6B, 0x70, 0x65, 0]
      && s[4..8] == Le(4, it.priority) && s[8..12] == Le(4, |it.args|) && s[12..16] == Le(4, |it.content|)
      && s[16..20] == Le(4, it.kind) && s[20..52] == it.name && s[52..84] == it.event
      && s[128..128 + |it.args|] == it.args && s[128 + |it.args|..] == it.content
  {
    hide Le;
  }
}
