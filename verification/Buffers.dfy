// Byte buffers: integers in them, writes into them and what lies where.
module Buffers {

  import opened BaseLib

  // ------------------------------------------------------------------ integers

  function Radix(n: nat): (r: nat)
    ensures r >= 1
  {
    if n == 0 then 1 else 256 * Radix(n - 1)
  }

  // The n low bytes of x, least significant first.
  function Le(n: nat, x: nat): (s: seq<Byte>)
    ensures |s| == n
  {
    if n == 0 then [] else [x % 256] + Le(n - 1, x / 256)
  }

  function FromLe(s: seq<Byte>): nat {
    if s == [] then 0 else s[0] + 256 * FromLe(s[1..])
  }

  lemma {:induction false} LeRoundTrip(n: nat, x: nat)
    requires x < Radix(n)
    ensures FromLe(Le(n, x)) == x
  {
    if n > 0 {
      assert Le(n, x)[1..] == Le(n - 1, x / 256);
      LeRoundTrip(n - 1, x / 256);
    }
  }

  lemma RadixValues()
    ensures Radix(4) == 0x1_0000_0000 && Radix(8) == 0x1_0000_0000_0000_0000
  {
    assert Radix(2) == 256 * Radix(1) && Radix(1) == 256;
    assert Radix(4) == 256 * Radix(3) && Radix(3) == 256 * Radix(2);
    assert Radix(6) == 256 * Radix(5) && Radix(5) == 256 * Radix(4);
    assert Radix(8) == 256 * Radix(7) && Radix(7) == 256 * Radix(6);
  }

  // An int32 with the bit pattern of the low half of x.
  function Int32(x: nat): (i: int)
    ensures x < 0x8000_0000 ==> i == x
  {
    var w := x % 0x1_0000_0000;
    if w < 0x8000_0000 then w else w - 0x1_0000_0000
  }

  // -------------------------------------------------------------------- writing

  // s with data put at offset
  function Splice(s: seq<Byte>, offset: nat, data: seq<Byte>): (r: seq<Byte>)
    requires offset + |data| <= |s|
    ensures |r| == |s|
  {
    s[..offset] + data + s[offset + |data|..]
  }

  // memcpy to a moving offset
  method ExtraAppend(img: array<Byte>, data: seq<Byte>, offset: nat) returns (next: nat)
    requires offset + |data| <= img.Length
    modifies img
    ensures next == offset + |data|
    ensures img[..] == Splice(old(img[..]), offset, data)
  {
    var i := 0;
    while i < |data|
      invariant i <= |data|
      invariant img[..offset] == old(img[..offset])
      invariant img[offset..offset + i] == data[..i]
      invariant img[offset + i..] == old(img[offset + i..])
    {
      img[offset + i] := data[i];
      i := i + 1;
    }
    next := offset + |data|;
    assert img[..] == img[..offset] + img[offset..next] + img[next..];
  }

  lemma SpliceTwice(s: seq<Byte>, offset: nat, a: seq<Byte>, b: seq<Byte>)
    requires offset + |a| + |b| <= |s|
    ensures Splice(Splice(s, offset, a), offset + |a|, b) == Splice(s, offset, a + b)
  {
    var t := s[..offset] + a + s[offset + |a|..];
    assert t[..offset + |a|] == s[..offset] + a;
    assert t[offset + |a| + |b|..] == s[offset + |a| + |b|..];
  }

  lemma SpliceNothing(s: seq<Byte>, offset: nat)
    requires offset <= |s|
    ensures Splice(s, offset, []) == s
  {
  }

  // -------------------------------------------------------------------- reading

  // The bytes s lie at place pos.
  predicate At(img: seq<Byte>, pos: nat, s: seq<Byte>) {
    pos + |s| <= |img| && img[pos..pos + |s|] == s
  }

  lemma SameSlices(img: seq<Byte>, pos: nat, h: seq<Byte>)
    requires At(img, pos, h)
    ensures pos + |h| <= |img|
    ensures forall a, b {:trigger img[pos + a..pos + b]} {:trigger h[a..b]} ::
      0 <= a <= b <= |h| ==> img[pos + a..pos + b] == h[a..b]
  {
    forall a, b | 0 <= a <= b <= |h| ensures img[pos + a..pos + b] == h[a..b] {
      forall k | 0 <= k < b - a ensures img[pos + a..pos + b][k] == h[a..b][k] {
        assert img[pos..pos + |h|][a + k] == img[pos + a + k];
      }
    }
  }

  lemma SliceInside(img: seq<Byte>, pos: nat, h: seq<Byte>, a: nat, b: nat)
    requires At(img, pos, h) && a <= b <= |h|
    ensures pos + b <= |img| && img[pos + a..pos + b] == h[a..b]
  {
    SameSlices(img, pos, h);
  }

  lemma SplitBuffer(img: seq<Byte>, pos: nat, a: seq<Byte>, b: seq<Byte>)
    requires At(img, pos, a + b)
    ensures At(img, pos, a) && At(img, pos + |a|, b)
  {
    var s := img[pos..pos + |a| + |b|];
    assert s[..|a|] == a && s[|a|..] == b;
    assert s[..|a|] == img[pos..pos + |a|] && s[|a|..] == img[pos + |a|..pos + |a| + |b|];
  }
}
