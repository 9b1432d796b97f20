// The "additional" area of the preset: key=value strings, each behind a byte
// with its length.
module PatchAdditional {

  import opened BaseLib
  import opened Buffers
  import opened PatchExtra

  const ADDITIONAL_LEN: nat := 512

  // Contains '=' and is not too long.
  predicate WellFormed(kv: seq<Byte>) {
    0x3D in kv && |kv| <= 127
  }

  // The bytes that a list of strings takes.
  function Packed(kvs: seq<seq<Byte>>): seq<Byte> {
    if kvs == [] then [] else Entry(kvs[0]) + Packed(kvs[1..])
  }

  // The length, as a char, and the string.
  function Entry(kv: seq<Byte>): (s: seq<Byte>)
    ensures |s| == 1 + |kv|
  {
    [|kv| % 0x100] + kv
  }

  predicate Accepted(kvs: seq<seq<Byte>>) {
    && (forall i :: 0 <= i < |kvs| ==> WellFormed(kvs[i]))
    && |Packed(kvs)| <= ADDITIONAL_LEN
  }

  lemma {:induction false} PackedAppend(kvs: seq<seq<Byte>>, kv: seq<Byte>)
    ensures Packed(kvs + [kv]) == Packed(kvs) + Entry(kv)
    decreases kvs
  {
    if kvs == [] {
      assert [kv][1..] == [];
      assert Packed([]) == [];
      assert Entry(kv) + [] == Entry(kv);
    } else {
      PackedAppend(kvs[1..], kv);
      assert (kvs + [kv])[1..] == kvs[1..] + [kv];
    }
  }

  lemma {:induction false} PackedPrefix(kvs: seq<seq<Byte>>, n: nat)
    requires n <= |kvs|
    ensures |Packed(kvs[..n])| <= |Packed(kvs)|
    decreases kvs
  {
    if n > 0 {
      PackedPrefix(kvs[1..], n - 1);
      assert kvs[1..][..n - 1] == kvs[..n][1..];
    }
  }

  lemma RejectedBy(kvs: seq<seq<Byte>>, i: nat)
    requires i < |kvs| && forall j :: 0 <= j < i ==> WellFormed(kvs[j])
    requires WellFormed(kvs[i]) ==> |Packed(kvs[..i])| + 1 + |kvs[i]| > ADDITIONAL_LEN
    ensures !Accepted(kvs)
  {
    if Accepted(kvs) {
      PackedAppend(kvs[..i], kvs[i]);
      assert kvs[..i] + [kvs[i]] == kvs[..i + 1];
      PackedPrefix(kvs, i + 1);
    }
  }

  // What strcpy leaves behind a list that was written: the terminator of the
  // last string, which is one byte past the area when the list fills it.
  function Tail(kvs: seq<seq<Byte>>): seq<Byte> {
    if kvs == [] then [] else [0]
  }

  // The loop over the additional strings in patch_update_img: false for the
  // errors that end the tool.
  method WriteAdditional(img: array<Byte>, area: nat, kvs: seq<seq<Byte>>) returns (ok: bool)
    requires area + ADDITIONAL_LEN < img.Length
    modifies img
    ensures ok <==> Accepted(kvs)
    ensures ok ==> img[..] == Splice(old(img[..]), area, Packed(kvs) + Tail(kvs))
  {
    hide Splice;
    ghost var was := img[..];
    var pos := area;
    var i := 0;
    SpliceNothing(was, area);
    assert kvs[..0] == [] && Packed([]) + Tail([]) == [];
    while i < |kvs|
      invariant i <= |kvs| && forall j :: 0 <= j < i ==> WellFormed(kvs[j])
      invariant pos == area + |Packed(kvs[..i])| <= area + ADDITIONAL_LEN
      invariant img[..] == Splice(was, area, Packed(kvs[..i]) + Tail(kvs[..i]))
    {
      var kv := kvs[i];
      if 0x3D !in kv || |kv| > 127 || pos + |kv| + 1 > area + ADDITIONAL_LEN {
        RejectedBy(kvs, i);
        return false;
      }
      ghost var done := Packed(kvs[..i]);
      PackedAppend(kvs[..i], kv);
      assert kvs[..i] + [kv] == kvs[..i + 1];
      ghost var before := img[..];
      var next := ExtraAppend(img, [|kv|], pos);
      SpliceTwice(before, pos, [|kv|], kv + [0]);
      next := ExtraAppend(img, kv + [0], next);
      assert [|kv|] + (kv + [0]) == Entry(kv) + [0];
      OverTerminator(was, area, done, Tail(kvs[..i]), Entry(kv) + [0]);
      assert done + (Entry(kv) + [0]) == done + Entry(kv) + [0];
      pos := pos + 1 + |kv|;
      i := i + 1;
    }
    assert kvs[..i] == kvs;
    ok := true;
  }

  // The next string overwrites the terminator of the one before.
  lemma OverTerminator(was: seq<Byte>, area: nat, done: seq<Byte>, tail: seq<Byte>, more: seq<Byte>)
    requires |tail| <= |more| && area + |done| + |more| <= |was|
    ensures Splice(Splice(was, area, done + tail), area + |done|, more) == Splice(was, area, done + more)
  {
    var t := Splice(was, area, done + tail);
    assert t[..area + |done|] == was[..area] + done;
    assert t[area + |done| + |more|..] == was[area + |done| + |more|..];
  }

  // ------------------------------------------------------------------ the reader

  datatype Strings = Strings(kvs: seq<seq<Byte>>) | Overlong

  function PutFirst(kv: seq<Byte>, s: Strings): Strings {
    match s case Strings(kvs) => Strings([kv] + kvs) case Overlong => Overlong
  }

  // What print_preset_info prints; a length byte above 127 is a negative char.
  function ReadFrom(img: seq<Byte>, pos: nat, end: nat): Strings
    decreases end - pos
  {
    if pos >= end then Strings([])
    else if pos >= |img| then Overlong
    else if img[pos] == 0 then Strings([])
    else if img[pos] > 127 || pos + 1 + img[pos] >= |img| then Overlong
    else PutFirst(img[pos + 1..pos + 1 + img[pos]], ReadFrom(img, pos + 1 + img[pos], end))
  }

  // The loop at the end of print_preset_info, which puts a terminator behind
  // each string and takes it away again.
  method ReadAdditional(img: array<Byte>, area: nat) returns (s: Strings)
    modifies img
    ensures img[..] == old(img[..])
    ensures s == ReadFrom(img[..], area, area + ADDITIONAL_LEN)
  {
    hide PutFirst;
    var end := area + ADDITIONAL_LEN;
    var kvs: seq<seq<Byte>> := [];
    var pos := area;
    while pos < end
      invariant img[..] == old(img[..])
      invariant ReadFrom(img[..], area, end) == PutAll(kvs, ReadFrom(img[..], pos, end))
      decreases end - pos
    {
      if pos >= img.Length { return Overlong; }
      var len := img[pos];
      if len == 0 { break; }
      if len > 127 || pos + 1 + len >= img.Length { return Overlong; }
      ghost var was := img[..];
      pos := pos + 1;
      var backup := img[pos + len];
      img[pos + len] := 0;
      var kv := img[pos..pos + len];
      img[pos + len] := backup;
      assert img[..] == was && kv == was[pos..pos + len];
      PutAllOne(kvs, kv, ReadFrom(was, pos + len, end));
      kvs := kvs + [kv];
      pos := pos + len;
    }
    assert kvs + [] == kvs;
    s := Strings(kvs);
  }

  function PutAll(kvs: seq<seq<Byte>>, s: Strings): Strings {
    match s case Strings(more) => Strings(kvs + more) case Overlong => Overlong
  }

  lemma PutAllOne(kvs: seq<seq<Byte>>, kv: seq<Byte>, s: Strings)
    ensures PutAll(kvs, PutFirst(kv, s)) == PutAll(kvs + [kv], s)
  {
    if s.Strings? {
      assert kvs + ([kv] + s.kvs) == kvs + [kv] + s.kvs;
    }
  }

  // Every accepted list of strings is read back, from an area that is full or
  // zero behind it.
  lemma {:induction false} AdditionalRoundTrip(img: seq<Byte>, pos: nat, end: nat, kvs: seq<seq<Byte>>)
    requires forall i :: 0 <= i < |kvs| ==> WellFormed(kvs[i])
    requires At(img, pos, Packed(kvs)) && pos + |Packed(kvs)| <= end < |img|
    requires pos + |Packed(kvs)| < end ==> img[pos + |Packed(kvs)|] == 0
    ensures ReadFrom(img, pos, end) == Strings(kvs)
    decreases kvs
  {
    hide At, WellFormed;
    if kvs != [] {
      var kv := kvs[0];
      SplitBuffer(img, pos, Entry(kv), Packed(kvs[1..]));
      EntryRead(img, pos, end, kv);
      AdditionalRoundTrip(img, pos + 1 + |kv|, end, kvs[1..]);
      assert [kv] + kvs[1..] == kvs;
    }
  }

  lemma EntryRead(img: seq<Byte>, pos: nat, end: nat, kv: seq<Byte>)
    requires WellFormed(kv) && At(img, pos, Entry(kv)) && pos + 1 + |kv| <= end < |img|
    ensures ReadFrom(img, pos, end) == PutFirst(kv, ReadFrom(img, pos + 1 + |kv|, end))
  {
    assert |kv| > 0;
    assert img[pos..pos + |Entry(kv)|][0] == img[pos];
    assert img[pos..pos + |Entry(kv)|][1..] == img[pos + 1..pos + 1 + |kv|];
    assert Entry(kv)[1..] == kv;
  }

  // The byte behind the area changes exactly when the strings fill the area
  // (and it was not zero before).
  lemma FullAreaSpills(img: seq<Byte>, area: nat, kvs: seq<seq<Byte>>)
    requires Accepted(kvs) && area + ADDITIONAL_LEN < |img|
    ensures |Packed(kvs) + Tail(kvs)| <= ADDITIONAL_LEN + 1
    ensures var now := Splice(img, area, Packed(kvs) + Tail(kvs));
            && (now[area + ADDITIONAL_LEN] == if |Packed(kvs)| == ADDITIONAL_LEN then 0 else img[area + ADDITIONAL_LEN])
            && now[..area] == img[..area] && now[area + ADDITIONAL_LEN + 1..] == img[area + ADDITIONAL_LEN + 1..]
  {
    var data := Packed(kvs) + Tail(kvs);
    if |Packed(kvs)| == ADDITIONAL_LEN {
      assert kvs != [];
    }
  }

  // Four pairs of 127 bytes are accepted and fill the area, so that the byte behind it
  // is lost.
  lemma AreaCanBeFull(img: seq<Byte>, area: nat) returns (kvs: seq<seq<Byte>>)
    requires area + ADDITIONAL_LEN < |img|
    ensures Accepted(kvs) && |Packed(kvs)| == ADDITIONAL_LEN && |Packed(kvs) + Tail(kvs)| <= ADDITIONAL_LEN + 1
    ensures Splice(img, area, Packed(kvs) + Tail(kvs))[area + ADDITIONAL_LEN] == 0
  {
    var kv: seq<Byte> := [0x3D] + seq(126, _ => 0x61);
    kvs := [kv, kv, kv, kv];
    assert kv[0] == 0x3D;
    FourEntries(kv);
    FullAreaSpills(img, area, kvs);
  }

  lemma FourEntries(kv: seq<Byte>)
    ensures |Packed([kv, kv, kv, kv])| == 4 * (1 + |kv|)
  {
    assert [kv, kv, kv, kv][1..] == [kv, kv, kv] && [kv, kv, kv][1..] == [kv, kv];
    assert [kv, kv][1..] == [kv] && [kv][1..] == [];
    assert Packed([kv]) == Entry(kv) + Packed([]);
    assert Packed([kv, kv]) == Entry(kv) + Packed([kv]);
    assert Packed([kv, kv, kv]) == Entry(kv) + Packed([kv, kv]);
  }
}
