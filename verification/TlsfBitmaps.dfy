// The two levels of bitmaps that index the free lists.
module TlsfBitmaps {
  import opened Bits
  import opened TlsfMapping
  import opened TlsfBlocks

  type Word32 = x: nat | x < U32_MOD

  // 1U << k and ~0U << k on 32 bits.
  function OneAt(k: nat): (r: Word32)
    requires k < 32
  {
    Pow2Values();
    ShlOne(k);
    Pow2Monotone(k, 31);
    Shl(1, k)
  }

  function OnesFrom(k: nat): Word32 {
    Shl(U32_MOD - 1, k) % U32_MOD
  }

  function SetBit(w: Word32, k: nat): Word32
    requires k < 32
  {
    Pow2Values();
    OrInWidth(32, w, OneAt(k));
    Or(w, OneAt(k))
  }

  function ClearBit(w: Word32, k: nat): Word32
    requires k < 32
  {
    Pow2Values();
    And(w, Not(32, OneAt(k)))
  }

  lemma BitOneAt(k: nat, i: nat)
    requires k < 32
    ensures Bit(OneAt(k), i) <==> i == k
  {
    BitShl(1, k, i);
    if i > k {
      assert Bit(1, i - k) == Bit(0, i - k - 1);
      ZeroHasNoBit(i - k - 1);
    }
  }

  lemma BitInWord(w: Word32, i: nat)
    ensures Bit(w, i) ==> i < 32
  {
    Pow2Values();
    if Bit(w, i) { BitInWidth(32, w, i); }
  }

  lemma BitSetBit(w: Word32, k: nat, i: nat)
    requires k < 32
    ensures Bit(SetBit(w, k), i) <==> i == k || Bit(w, i)
  {
    BitOr(w, OneAt(k), i);
    BitOneAt(k, i);
  }

  lemma BitClearBit(w: Word32, k: nat, i: nat)
    requires k < 32
    ensures Bit(ClearBit(w, k), i) <==> i != k && Bit(w, i)
  {
    Pow2Values();
    BitAnd(w, Not(32, OneAt(k)), i);
    BitInWord(w, i);
    if i < 32 {
      BitNot(32, OneAt(k), i);
      BitOneAt(k, i);
    }
  }

  lemma {:induction false} AllOnes(n: nat, i: nat)
    requires i < n
    ensures Bit(Pow2(n) - 1, i)
    decreases i
  {
    if i > 0 {
      AllOnes(n - 1, i - 1);
      assert (Pow2(n) - 1) / 2 == Pow2(n - 1) - 1;
    }
  }

  lemma BitAboveMask(w: Word32, k: nat, i: nat)
    ensures Bit(And(w, OnesFrom(k)), i) <==> i >= k && Bit(w, i)
  {
    Pow2Values();
    BitAnd(w, OnesFrom(k), i);
    BitInWord(w, i);
    BitTruncate(32, Shl(U32_MOD - 1, k), i);
    BitShl(U32_MOD - 1, k, i);
    if i < 32 && i >= k {
      AllOnes(32, i - k);
    }
  }

  // ------------------------------------------------------------- both levels

  // Marking list i as non-empty.
  lemma SetBits(fl: nat, sl: seq<nat>, heads: Heads, nul: nat, i: ListIndex, h: nat)
    requires BitmapsOk(fl, sl, heads, nul) && InRange(i) && h != nul
    ensures sl[i.fl] < U32_MOD
    ensures BitmapsOk(SetBit(fl, i.fl), sl[i.fl := SetBit(sl[i.fl], i.sl)], heads[i := h], nul)
  {
    assert SlOk(fl, sl, heads, nul, i.fl);
    var fl', sl', heads' := SetBit(fl, i.fl), sl[i.fl := SetBit(sl[i.fl], i.sl)], heads[i := h];
    forall f: nat | Bit(fl', f)
      ensures f < FL_INDEX_COUNT
    {
      BitSetBit(fl, i.fl, f);
    }
    forall f: nat | f < FL_INDEX_COUNT
      ensures SlOk(fl', sl', heads', nul, f)
    {
      assert SlOk(fl, sl, heads, nul, f);
      SetBitsAt(fl, sl, heads, nul, i, h, f);
    }
  }

  lemma SetBitsAt(fl: Word32, sl: seq<nat>, heads: Heads, nul: nat, i: ListIndex, h: nat, f: nat)
    requires HeadsOk(heads) && |sl| == FL_INDEX_COUNT && InRange(i) && h != nul && f < FL_INDEX_COUNT
    requires SlOk(fl, sl, heads, nul, f) && sl[i.fl] < U32_MOD
    ensures SlOk(SetBit(fl, i.fl), sl[i.fl := SetBit(sl[i.fl], i.sl)], heads[i := h], nul, f)
  {
    BitSetBit(fl, i.fl, f);
    forall s: nat | s < SL_INDEX_COUNT
      ensures f == i.fl ==> (Bit(SetBit(sl[f], i.sl), s) <==> s == i.sl || Bit(sl[f], s))
    {
      if f == i.fl { BitSetBit(sl[f], i.sl, s); }
    }
    if f == i.fl {
      BitSetBit(sl[f], i.sl, i.sl);
      ZeroHasNoBit(i.sl);
    }
  }

  // Bitmaps after list i has become empty.
  function ClearedSl(sl: seq<nat>, i: ListIndex): seq<nat>
    requires |sl| == FL_INDEX_COUNT && InRange(i) && sl[i.fl] < U32_MOD
  {
    sl[i.fl := ClearBit(sl[i.fl], i.sl)]
  }

  function ClearedFl(fl: Word32, sl: seq<nat>, i: ListIndex): Word32
    requires |sl| == FL_INDEX_COUNT && InRange(i) && sl[i.fl] < U32_MOD
  {
    if ClearBit(sl[i.fl], i.sl) == 0 then ClearBit(fl, i.fl) else fl
  }

  lemma ClearBits(fl: nat, sl: seq<nat>, heads: Heads, nul: nat, i: ListIndex)
    requires BitmapsOk(fl, sl, heads, nul) && InRange(i)
    ensures sl[i.fl] < U32_MOD
    ensures BitmapsOk(ClearedFl(fl, sl, i), ClearedSl(sl, i), heads[i := nul], nul)
  {
    assert SlOk(fl, sl, heads, nul, i.fl);
    var fl', sl', heads' := ClearedFl(fl, sl, i), ClearedSl(sl, i), heads[i := nul];
    forall f: nat | Bit(fl', f)
      ensures f < FL_INDEX_COUNT
    {
      BitClearBit(fl, i.fl, f);
    }
    forall f: nat | f < FL_INDEX_COUNT
      ensures SlOk(fl', sl', heads', nul, f)
    {
      assert SlOk(fl, sl, heads, nul, f);
      ClearBitsAt(fl, sl, heads, nul, i, f);
    }
  }

  lemma ClearBitsAt(fl: Word32, sl: seq<nat>, heads: Heads, nul: nat, i: ListIndex, f: nat)
    requires HeadsOk(heads) && |sl| == FL_INDEX_COUNT && InRange(i) && f < FL_INDEX_COUNT
    requires SlOk(fl, sl, heads, nul, f) && sl[i.fl] < U32_MOD
    ensures SlOk(ClearedFl(fl, sl, i), ClearedSl(sl, i), heads[i := nul], nul, f)
  {
    BitClearBit(fl, i.fl, f);
    forall s: nat | s < SL_INDEX_COUNT
      ensures f == i.fl ==> (Bit(ClearBit(sl[f], i.sl), s) <==> s != i.sl && Bit(sl[f], s))
    {
      if f == i.fl { BitClearBit(sl[f], i.sl, s); }
    }
    if f == i.fl && sl[f] == 0 {
      assert ClearBit(sl[f], i.sl) == 0;
    }
  }

  // Replacing a head by another block leaves the bitmaps right.
  lemma SameBits(fl: nat, sl: seq<nat>, heads: Heads, nul: nat, i: ListIndex, h: nat)
    requires BitmapsOk(fl, sl, heads, nul) && InRange(i) && h != nul && heads[i] != nul
    ensures BitmapsOk(fl, sl, heads[i := h], nul)
  {
    var heads' := heads[i := h];
    forall f: nat | f < FL_INDEX_COUNT
      ensures SlOk(fl, sl, heads', nul, f)
    {
      assert SlOk(fl, sl, heads, nul, f);
    }
  }

  // Bits of the maps tell which lists are empty.
  lemma EmptyLists(fl: nat, sl: seq<nat>, heads: Heads, nul: nat, i: ListIndex)
    requires BitmapsOk(fl, sl, heads, nul) && InRange(i)
    ensures sl[i.fl] < U32_MOD
    ensures Bit(sl[i.fl], i.sl) <==> heads[i] != nul
    ensures Bit(fl, i.fl) <==> sl[i.fl] != 0
    ensures heads[i] != nul ==> sl[i.fl] != 0
  {
    assert SlOk(fl, sl, heads, nul, i.fl);
    assert i == ListIndex(i.fl, i.sl);
    ZeroHasNoBit(i.sl);
  }
}
