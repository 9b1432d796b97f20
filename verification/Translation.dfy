// The translation of an address by the processor: the table lookup of the Arm
// Architecture Reference Manual (DDI 0487), section D8.2, with 48-bit addresses, and
// the two walks of the kernel measured by it.
module Translation {
  import opened Bits
  import opened BitFields
  import opened PageWalks
  import opened PageTables

  // ------------------------------------------------------------------ the manual

  // The granule of TCR_EL1.TG1, and 64 - TCR_EL1.T1SZ.
  datatype Regime = Regime(shift: nat, vaBits: nat)

  datatype Outcome = TranslationFault | OutputAddress(pa: nat)

  predicate ValidRegime(r: Regime) {
    (r.shift == 12 || r.shift == 14 || r.shift == 16) && r.shift < r.vaBits <= 48
  }

  // x<lo+n-1:lo>
  function Slice(x: nat, lo: nat, n: nat): nat {
    x / Pow2(lo) % Pow2(n)
  }

  // x<47:lo>:Zeros(lo)
  function TopSlice(x: nat, lo: nat): nat
    requires lo <= 48
  {
    Slice(x, lo, 48 - lo) * Pow2(lo)
  }

  // The lowest bit that a lookup at level lv resolves.
  function LowBit(r: Regime, lv: nat): nat
    requires ValidRegime(r) && lv < 4
  {
    r.shift + (3 - lv) * (r.shift - 3)
  }

  // The bits it resolves: a full table's, or those that the input address has left.
  function IndexWidth(r: Regime, lv: nat): nat
    requires ValidRegime(r) && lv < 4 && LowBit(r, lv) < r.vaBits
  {
    if LowBit(r, lv) + (r.shift - 3) <= r.vaBits then r.shift - 3 else r.vaBits - LowBit(r, lv)
  }

  function StartLevel(r: Regime): nat
    requires ValidRegime(r)
  {
    4 - (r.vaBits - r.shift + (r.shift - 3) - 1) / (r.shift - 3)
  }

  predicate HasBlocks(r: Regime, lv: nat) {
    lv == 2 || (lv == 1 && r.shift == 12)
  }

  // The lookup from level lv on; words holds the 64-bit words of physical memory.
  function LookUp(r: Regime, words: nat -> Addr, table: nat, va: Addr, lv: nat): Outcome
    requires ValidRegime(r) && lv < 4 && LowBit(r, lv) < r.vaBits
    decreases 4 - lv
  {
    var lo := LowBit(r, lv);
    var desc := words(table + 8 * Slice(va, lo, IndexWidth(r, lv)));
    if desc % 4 == 3 then
      if lv == 3 then OutputAddress(TopSlice(desc, r.shift) + Slice(va, 0, r.shift))
      else LookUp(r, words, TopSlice(desc, r.shift), va, lv + 1)
    else if desc % 4 == 1 && HasBlocks(r, lv) then OutputAddress(TopSlice(desc, lo) + Slice(va, 0, lo))
    else TranslationFault
  }

  lemma StartIsLevel(r: Regime)
    requires ValidRegime(r)
    ensures StartLevel(r) < 4 && LowBit(r, StartLevel(r)) < r.vaBits <= LowBit(r, StartLevel(r)) + (r.shift - 3)
  {
    var n := r.vaBits - 4;
    if r.shift == 12 {
      assert StartLevel(r) == 4 - n / 9;
    } else if r.shift == 14 {
      assert StartLevel(r) == 4 - n / 11;
    } else {
      assert StartLevel(r) == 4 - n / 13;
    }
  }

  function Translate(r: Regime, words: nat -> Addr, base: nat, va: Addr): Outcome
    requires ValidRegime(r)
  {
    StartIsLevel(r);
    LookUp(r, words, base, va, StartLevel(r))
  }

  // Addresses that TTBR1_EL1 translates: all bits above the input address are ones.
  predicate IsKernelAddress(r: Regime, va: Addr)
    requires ValidRegime(r)
  {
    va >= 0x1_0000_0000_0000_0000 - Pow2(r.vaBits)
  }

  // ------------------------------------------------- the walks of the kernel

  // The geometries whose first table is a full one.
  predicate IsFull(g: Geometry) {
    g.shift + g.levels * (g.shift - 3) <= 48
  }

  // The regime in which the tables of a full geometry are used.
  function RegimeOf(g: Geometry): (r: Regime)
    requires ValidGeometry(g) && IsFull(g)
    ensures ValidRegime(r)
  {
    Regime(g.shift, g.shift + g.levels * (g.shift - 3))
  }

  // Physical memory, which the kernel reads at the offset of its linear map.
  function WordAt(voff: Addr, mem: Memory, p: nat): Addr {
    if p + voff < 0x1_0000_0000_0000_0000 then mem(p + voff) else 0
  }

  function Physical(g: Geometry, mem: Memory): nat -> Addr {
    (p: nat) => WordAt(g.voff, mem, p)
  }

  lemma LevelsAgree(g: Geometry, lv: nat)
    requires ValidGeometry(g) && IsFull(g) && 4 - g.levels <= lv < 4
    ensures StartLevel(RegimeOf(g)) == 4 - g.levels
    ensures LowBit(RegimeOf(g), lv) == ShiftOf(g, lv) < RegimeOf(g).vaBits
    ensures IndexWidth(RegimeOf(g), lv) == g.shift - 3
  {
    var w := g.shift - 3;
    DivModUnique(g.levels * w + (w - 1), w, g.levels, w - 1);
    TimesMonotone(w, 4 - lv, g.levels);
    assert (3 - lv) * w + w == (4 - lv) * w;
  }

  lemma IndexAgrees(g: Geometry, va: Addr, lv: nat)
    requires ValidGeometry(g) && lv < 4
    ensures IndexOf(g, va, lv) == Slice(va, ShiftOf(g, lv), g.shift - 3)
  {
    IndexBits(g, va, lv);
    ShrBy(va, ShiftOf(g, lv));
  }

  // The walks read the descriptor that the processor reads.
  lemma EntryAgrees(g: Geometry, mem: Memory, table: Addr, va: Addr, lv: nat)
    requires ValidGeometry(g) && IsFull(g) && IsPage(g, table) && 4 - g.levels <= lv < 4
    ensures LowBit(RegimeOf(g), lv) < RegimeOf(g).vaBits
    ensures var r := RegimeOf(g);
      Physical(g, mem)(table + 8 * Slice(va, LowBit(r, lv), IndexWidth(r, lv))) == mem(EntryAt(g, table, IndexOf(g, va, lv)))
  {
    hide IndexOf, Slice, ShiftOf;
    LevelsAgree(g, lv);
    IndexAgrees(g, va, lv);
    var i := IndexOf(g, va, lv);
    assert i < Pointers(g) && table + 8 * i + g.voff == EntryAt(g, table, i);
  }

  lemma AddressAgrees(g: Geometry, desc: Addr)
    requires ValidGeometry(g)
    ensures AddressIn(g, desc) == TopSlice(desc, g.shift)
  {
    hide AddressIn, Pow2;
    AddressInIs(g, desc);
    PageCounts(g);
  }

  lemma OffsetAgrees(g: Geometry, va: Addr)
    requires ValidGeometry(g)
    ensures Slice(va, 0, g.shift) == va % PageSize(g)
  {
    PageCounts(g);
    assert Pow2(0) == 1;
  }

  lemma {:induction false} WalkTranslates(g: Geometry, mem: Memory, table: Addr, va: Addr, lv: nat)
    requires ValidGeometry(g) && IsFull(g) && IsPage(g, table) && 4 - g.levels <= lv < 4
    ensures LowBit(RegimeOf(g), lv) < RegimeOf(g).vaBits
    ensures var out := LookUp(RegimeOf(g), Physical(g, mem), table, va, lv);
      match Walk(MmuOf(g), mem, table, va, lv)
      case Missing => out == TranslationFault
      case Found(_, desc) => KindOf(desc) == Table ==> out == OutputAddress(AddressIn(g, desc) + va % PageSize(g))
    decreases 4 - lv
  {
    hide IndexOf, Slice, AddressIn, EntryAt, TopSlice, Physical, Walk, LookUp, MmuOf, LowBit, IndexWidth, ShiftOf, StartLevel;
    LevelsAgree(g, lv);
    EntryAgrees(g, mem, table, va, lv);
    var cell := EntryAt(g, table, IndexOf(g, va, lv));
    AddressAgrees(g, mem(cell));
    OffsetAgrees(g, va);
    WalkStep(g, mem, table, va, lv);
    LookUpStep(RegimeOf(g), Physical(g, mem), table, va, lv, mem(cell));
    if mem(cell) % 4 == 3 && lv < 3 {
      WalkTranslates(g, mem, AddressIn(g, mem(cell)), va, lv + 1);
    }
  }

  lemma WalkStep(g: Geometry, mem: Memory, table: Addr, va: Addr, lv: nat)
    requires ValidGeometry(g) && IsPage(g, table) && lv < 4
    ensures var cell := EntryAt(g, table, IndexOf(g, va, lv));
      var desc := mem(cell);
      Walk(MmuOf(g), mem, table, va, lv) ==
        if desc % 4 == 3 && lv < 3 then Walk(MmuOf(g), mem, AddressIn(g, desc), va, lv + 1)
        else if desc % 4 == 1 || desc % 4 == 3 then Found(cell, desc)
        else Missing
  {
    hide IndexOf, AddressIn, EntryAt;
  }

  lemma LookUpStep(r: Regime, words: nat -> Addr, table: nat, va: Addr, lv: nat, desc: Addr)
    requires ValidRegime(r) && lv < 4 && LowBit(r, lv) < r.vaBits
    requires desc == words(table + 8 * Slice(va, LowBit(r, lv), IndexWidth(r, lv)))
    ensures lv < 3 ==> LowBit(r, lv + 1) < r.vaBits
    ensures desc % 4 == 3 && lv == 3 ==>
      LookUp(r, words, table, va, lv) == OutputAddress(TopSlice(desc, r.shift) + Slice(va, 0, r.shift))
    ensures desc % 4 == 3 && lv < 3 ==>
      LookUp(r, words, table, va, lv) == LookUp(r, words, TopSlice(desc, r.shift), va, lv + 1)
    ensures desc % 4 == 0 || desc % 4 == 2 ==> LookUp(r, words, table, va, lv) == TranslationFault
  {
    hide Slice, TopSlice;
  }

  // What the processor makes of an address, by the finding walk.
  lemma TranslatedByHardware(g: Geometry, mem: Memory, pgd: Addr, va: Addr)
    requires ValidGeometry(g) && IsFull(g) && IsPage(g, pgd)
    ensures var out := Translate(RegimeOf(g), Physical(g, mem), pgd, va);
      match Walk(MmuOf(g), mem, pgd, va, 4 - g.levels)
      case Missing => out == TranslationFault
      case Found(_, desc) => KindOf(desc) == Table ==> out == OutputAddress(AddressIn(g, desc) + va % PageSize(g))
  {
    hide *;
    FirstLevel(g);
    LevelsAgree(g, 4 - g.levels);
    WalkTranslates(g, mem, pgd, va, 4 - g.levels);
    StartsThere(RegimeOf(g), Physical(g, mem), pgd, va);
  }

  lemma FirstLevel(g: Geometry)
    requires ValidGeometry(g)
    ensures 0 <= 4 - g.levels < 4
  {
  }

  lemma StartsThere(r: Regime, words: nat -> Addr, base: nat, va: Addr)
    requires ValidRegime(r)
    ensures StartLevel(r) < 4 && LowBit(r, StartLevel(r)) < r.vaBits
    ensures Translate(r, words, base, va) == LookUp(r, words, base, va, StartLevel(r))
  {
    StartIsLevel(r);
  }

  // Addresses with one page number have the same indices, and so the same walk.
  lemma OnePageOneIndex(g: Geometry, va: Addr, x: Addr, lv: nat)
    requires ValidGeometry(g) && lv < 4 && x / PageSize(g) == va / PageSize(g)
    ensures IndexOf(g, x, lv) == IndexOf(g, va, lv)
  {
    hide IndexOf;
    IndexBits(g, va, lv);
    IndexBits(g, x, lv);
    PageCounts(g);
    ShrBy(va, g.shift);
    ShrBy(x, g.shift);
    ShrAdds(va, g.shift, ShiftOf(g, lv) - g.shift);
    ShrAdds(x, g.shift, ShiftOf(g, lv) - g.shift);
  }

  lemma {:induction false} OnePageOneWalk(g: Geometry, mem: Memory, table: Addr, va: Addr, x: Addr, lv: nat)
    requires ValidGeometry(g) && lv < 4 && x / PageSize(g) == va / PageSize(g)
    ensures Walk(MmuOf(g), mem, table, x, lv) == Walk(MmuOf(g), mem, table, va, lv)
    decreases 4 - lv
  {
    hide IndexOf, AddressIn, EntryAt;
    OnePageOneIndex(g, va, x, lv);
    var cell := MmuOf(g).entry(table, MmuOf(g).index(va, lv));
    if lv < 3 {
      OnePageOneWalk(g, mem, MmuOf(g).address(mem(cell)), va, x, lv + 1);
    }
  }

  // The processor translates every address of the page of va into the page pa.
  ghost predicate HardwareMaps(g: Geometry, mem: Memory, pgd: Addr, va: Addr, pa: nat)
    requires ValidGeometry(g) && IsFull(g)
  {
    forall x: Addr {:trigger Translate(RegimeOf(g), Physical(g, mem), pgd, x)} :: x / PageSize(g) == va / PageSize(g) ==>
      Translate(RegimeOf(g), Physical(g, mem), pgd, x) == OutputAddress(pa + x % PageSize(g))
  }

  lemma LeafIsMapped(g: Geometry, mem: Memory, pgd: Addr, va: Addr, cell: Addr, desc: Addr)
    requires ValidGeometry(g) && IsFull(g) && IsPage(g, pgd) && KindOf(desc) == Table
    requires Walk(MmuOf(g), mem, pgd, va, 4 - g.levels) == Found(cell, desc)
    ensures HardwareMaps(g, mem, pgd, va, AddressIn(g, desc))
  {
    hide AddressIn, Walk, MmuOf, Translate, Physical, RegimeOf;
    forall x: Addr | x / PageSize(g) == va / PageSize(g)
      ensures Translate(RegimeOf(g), Physical(g, mem), pgd, x) == OutputAddress(AddressIn(g, desc) + x % PageSize(g))
    {
      OnePageOneWalk(g, mem, pgd, va, x, 4 - g.levels);
      TranslatedByHardware(g, mem, pgd, x);
    }
  }

  // ------------------------------------------------- the translation of other pages

  // What a lookup makes of the descriptor that it ends at.
  function LeafOutput(r: Regime, desc: Addr, va: Addr, lv: nat): Outcome
    requires ValidRegime(r) && lv < 4
  {
    if desc % 4 == 3 then OutputAddress(TopSlice(desc, r.shift) + Slice(va, 0, r.shift))
    else if desc % 4 == 1 && HasBlocks(r, lv) && LowBit(r, lv) <= 48 then
      OutputAddress(TopSlice(desc, LowBit(r, lv)) + Slice(va, 0, LowBit(r, lv)))
    else TranslationFault
  }

  lemma LookUpEnds(r: Regime, words: nat -> Addr, table: nat, va: Addr, lv: nat, desc: Addr)
    requires ValidRegime(r) && lv < 4 && LowBit(r, lv) < r.vaBits
    requires desc == words(table + 8 * Slice(va, LowBit(r, lv), IndexWidth(r, lv)))
    requires desc % 4 == 3 ==> lv == 3
    ensures LookUp(r, words, table, va, lv) == LeafOutput(r, desc, va, lv)
  {
    hide Slice, TopSlice;
  }

  // The table and the level at which a walk finds its descriptor.
  lemma {:induction false} EndsSomewhere(g: Geometry, mem: Memory, owners: Owners, t: Addr, va: Addr, lv: nat) returns (u: Addr, l: nat)
    requires ValidGeometry(g) && IsFull(g) && Laws(MmuOf(g)) && Tree(MmuOf(g), mem, owners)
    requires OnPath(MmuOf(g), owners, t, va, lv) && IsPage(g, t) && Walk(MmuOf(g), mem, t, va, lv).Found?
    ensures OnPath(MmuOf(g), owners, u, va, l) && LowBit(RegimeOf(g), lv) < RegimeOf(g).vaBits
    ensures var w := Walk(MmuOf(g), mem, t, va, lv);
      w.cell == MmuOf(g).entry(u, MmuOf(g).index(va, l))
      && LookUp(RegimeOf(g), Physical(g, mem), t, va, lv) == LeafOutput(RegimeOf(g), w.desc, va, l)
    decreases 4 - lv
  {
    hide Walk, LookUp, Laws, Tree, MmuOf, Slice, TopSlice, IndexOf, AddressIn, EntryAt, Physical, LowBit, IndexWidth, LeafOutput,
      Prefix, Linked, ShiftOf, StartLevel;
    LevelsAgree(g, lv);
    EntryAgrees(g, mem, t, va, lv);
    EntryOf(g, t, va, lv);
    var cell := EntryAt(g, t, IndexOf(g, va, lv));
    AddressAgrees(g, mem(cell));
    WalkStep(g, mem, t, va, lv);
    if mem(cell) % 4 == 3 && lv < 3 {
      NextOnPath(MmuOf(g), mem, owners, t, va, lv);
      LookUpStep(RegimeOf(g), Physical(g, mem), t, va, lv, mem(cell));
      u, l := EndsSomewhere(g, mem, owners, AddressIn(g, mem(cell)), va, lv + 1);
    } else {
      u, l := t, lv;
      LookUpEnds(RegimeOf(g), Physical(g, mem), t, va, lv, mem(cell));
    }
  }

  lemma EntryOf(g: Geometry, t: Addr, va: Addr, lv: nat)
    requires ValidGeometry(g) && IsPage(g, t) && lv < 4
    ensures MmuOf(g).entry(t, MmuOf(g).index(va, lv)) == EntryAt(g, t, IndexOf(g, va, lv))
    ensures forall d: Addr {:trigger MmuOf(g).address(d)} :: MmuOf(g).address(d) == AddressIn(g, d)
    ensures forall d: Addr {:trigger MmuOf(g).kind(d)} :: MmuOf(g).kind(d) == KindOf(d)
  {
  }

  lemma RootOnPath(g: Geometry, owners: Owners, pgd: Addr, va: Addr)
    requires ValidGeometry(g) && pgd in owners && owners[pgd] == [] && IsPage(g, pgd)
    ensures OnPath(MmuOf(g), owners, pgd, va, 4 - g.levels)
  {
  }

  // If both walks find the same, the processor translates the address as before.
  lemma SameTranslation(g: Geometry, mem: Memory, owners: Owners, now: Memory, more: Owners, pgd: Addr, va: Addr)
    requires ValidGeometry(g) && IsFull(g) && Laws(MmuOf(g)) && Tree(MmuOf(g), mem, owners) && Tree(MmuOf(g), now, more)
    requires pgd in owners && owners[pgd] == [] && IsPage(g, pgd) && Extends(owners, more)
    requires Walk(MmuOf(g), now, pgd, va, 4 - g.levels) == Walk(MmuOf(g), mem, pgd, va, 4 - g.levels)
    ensures Translate(RegimeOf(g), Physical(g, now), pgd, va) == Translate(RegimeOf(g), Physical(g, mem), pgd, va)
  {
    hide Walk, LookUp, Tree, MmuOf, Translate, Physical, LeafOutput, RegimeOf, Linked, IsFull, ValidGeometry, IsPage;
    FirstLevel(g);
    var first := 4 - g.levels;
    LevelsAgree(g, first);
    StartsThere(RegimeOf(g), Physical(g, mem), pgd, va);
    StartsThere(RegimeOf(g), Physical(g, now), pgd, va);
    var w := Walk(MmuOf(g), mem, pgd, va, first);
    if w.Missing? {
      TranslatedByHardware(g, mem, pgd, va);
      TranslatedByHardware(g, now, pgd, va);
    } else {
      assert pgd in more && more[pgd] == owners[pgd];
      RootOnPath(g, owners, pgd, va);
      RootOnPath(g, more, pgd, va);
      var u, l := EndsSomewhere(g, mem, owners, pgd, va, first);
      var u', l' := EndsSomewhere(g, now, more, pgd, va, first);
      assert EntriesApart(MmuOf(g), u, MmuOf(g).index(va, l), u', MmuOf(g).index(va, l'));
      assert u == u' && more[u] == owners[u];
      assert |Prefix(MmuOf(g), va, l)| == |Prefix(MmuOf(g), va, l')|;
    }
  }

  // ------------------------------------------------------ tables that are not full

  // page_level is the number of lookups.
  lemma PageLevels(r: Regime)
    requires ValidRegime(r)
    ensures StartLevel(r) == 4 - (r.vaBits - 4) / (r.shift - 3)
  {
  }

  // The first index that both walks compute for a kernel address is the one that the
  // processor uses if and only if the first table is full; otherwise it lies behind
  // the end of that table.
  lemma FirstIndexAgreesExactly(r: Regime, g: Geometry, va: Addr)
    requires ValidRegime(r) && ValidGeometry(g) && g.shift == r.shift && 4 - g.levels == StartLevel(r)
    requires IsKernelAddress(r, va)
    ensures LowBit(r, StartLevel(r)) < r.vaBits
    ensures var lv := StartLevel(r);
      && (IndexOf(g, va, lv) == Slice(va, LowBit(r, lv), IndexWidth(r, lv)) <==> r.vaBits == g.shift + g.levels * (g.shift - 3))
      && (r.vaBits != g.shift + g.levels * (g.shift - 3) ==> IndexOf(g, va, lv) >= Pow2(IndexWidth(r, lv)))
  {
    hide StartLevel, IndexOf, Pow2, Slice, ShiftOf, LowBit;
    StartIsLevel(r);
    var lv := StartLevel(r);
    var lo, k := LowBit(r, lv), IndexWidth(r, lv);
    IndexAgrees(g, va, lv);
    LastLevel(r, g);
    if k < g.shift - 3 {
      HighBitSet(r, va);
      OverrunBit(va, lo, k, g.shift - 3);
      SliceBelow(va, lo, k);
    }
  }

  lemma SliceBelow(x: nat, lo: nat, n: nat)
    ensures Slice(x, lo, n) < Pow2(n)
  {
    hide Pow2;
    ModSmaller(x / Pow2(lo), Pow2(n));
  }

  lemma LastLevel(r: Regime, g: Geometry)
    requires ValidRegime(r) && ValidGeometry(g) && g.shift == r.shift && 4 - g.levels == StartLevel(r)
    ensures LowBit(r, 4 - g.levels) == ShiftOf(g, 4 - g.levels) == g.shift + g.levels * (g.shift - 3) - (g.shift - 3)
  {
    hide StartLevel;
    var n := g.levels;
    if g.shift == 12 {
      assert 9 * n + 3 == 12 + (n - 1) * 9;
    } else if g.shift == 14 {
      assert 11 * n + 3 == 14 + (n - 1) * 11;
    } else {
      assert 13 * n + 3 == 16 + (n - 1) * 13;
    }
  }

  lemma HighBitSet(r: Regime, va: Addr)
    requires ValidRegime(r) && IsKernelAddress(r, va)
    ensures Bit(va, r.vaBits)
  {
    Pow2Values();
    BitNot(64, va, r.vaBits);
    if Bit(0xFFFF_FFFF_FFFF_FFFF - va, r.vaBits) {
      BitInWidth(r.vaBits, 0xFFFF_FFFF_FFFF_FFFF - va, r.vaBits);
    }
  }

  lemma OverrunBit(va: Addr, lo: nat, k: nat, w: nat)
    requires Bit(va, lo + k) && k < w
    ensures Slice(va, lo, w) >= Pow2(k)
  {
    ShrBy(va, lo);
    BitShr(va, lo, k);
    BitTruncate(w, Shr(va, lo), k);
    if Slice(va, lo, w) < Pow2(k) {
      BitInWidth(k, Slice(va, lo, w), k);
    }
  }
}
