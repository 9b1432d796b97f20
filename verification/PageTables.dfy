// The translation tables of AArch64 as the kernel's two walks compute with them:
// shifts, index masks and descriptor bits.
module PageTables {
  import opened Bits
  import opened BitFields
  import opened PageWalks

  // Page shift, number of levels, and the offset of the linear map.
  datatype Geometry = Geometry(shift: nat, levels: nat, voff: Addr)

  predicate ValidGeometry(g: Geometry) {
    && (g.shift == 12 || g.shift == 14 || g.shift == 16)
    && 1 <= g.levels <= (if g.shift == 16 then 3 else 4)
    && g.voff + 0x1_0000_0000_0000 <= 0x1_0000_0000_0000_0000
  }

  function PageSize(g: Geometry): (p: nat)
    requires ValidGeometry(g)
    ensures p == if g.shift == 12 then 0x1000 else if g.shift == 14 then 0x4000 else 0x1_0000
  {
    MorePowersInUse();
    Pow2(g.shift)
  }

  function Pointers(g: Geometry): (n: nat)
    requires ValidGeometry(g)
    ensures 8 * n == PageSize(g)
  {
    PageSize(g) / 8
  }

  // A table or page that the linear map reaches.
  predicate IsPage(g: Geometry, pa: Addr)
    requires ValidGeometry(g)
  {
    pa % PageSize(g) == 0 && pa + PageSize(g) <= 0x1_0000_0000_0000
  }

  // phys_to_lm, phys_to_virt
  function Linear(g: Geometry, pa: nat): Addr
    requires ValidGeometry(g) && pa < 0x1_0000_0000_0000
  {
    pa + g.voff
  }

  function ShiftOf(g: Geometry, lv: nat): nat
    requires ValidGeometry(g) && lv < 4
  {
    (g.shift - 3) * (4 - lv) + 3
  }

  // (va >> pxd_shift) & (pxd_ptrs - 1)
  function IndexOf(g: Geometry, va: Addr, lv: nat): (i: nat)
    requires ValidGeometry(g) && lv < 4
    ensures i < Pointers(g)
  {
    And(Shr(va, ShiftOf(g, lv)), Pointers(g) - 1)
  }

  // The cell of entry i of a table.
  function EntryAt(g: Geometry, table: Addr, i: nat): Addr
    requires ValidGeometry(g) && IsPage(g, table) && i < Pointers(g)
  {
    Linear(g, table) + i * 8
  }

  // The two low bits of a descriptor.
  function KindOf(desc: Addr): Kind {
    if desc % 4 == 3 then Table else if desc % 4 == 1 then Block else Invalid
  }

  // desc & (((1 << (48 - page_shift)) - 1) << page_shift)
  function AddressIn(g: Geometry, desc: Addr): (pa: Addr)
    requires ValidGeometry(g)
    ensures IsPage(g, pa)
  {
    AddressField(g, desc);
    And(desc, Shl(Pow2(48 - g.shift) - 1, g.shift))
  }

  // The number of pages below 2^48.
  function PageCount(g: Geometry): nat
    requires ValidGeometry(g)
  {
    0x1_0000_0000_0000 / PageSize(g)
  }

  lemma AddressField(g: Geometry, desc: Addr)
    requires ValidGeometry(g)
    ensures var pa := And(desc, Shl(Pow2(48 - g.shift) - 1, g.shift));
            pa == PageSize(g) * (desc / PageSize(g) % PageCount(g)) && IsPage(g, pa)
  {
    AddressMask(desc, g.shift);
    PageCounts(g);
    NumberedPage(g, desc / PageSize(g) % PageCount(g));
  }

  lemma AddressMask(desc: nat, s: nat)
    requires s <= 48
    ensures And(desc, Shl(Pow2(48 - s) - 1, s)) == Pow2(s) * (desc / Pow2(s) % Pow2(48 - s))
  {
    var q := Shr(desc, s) % Pow2(48 - s);
    ShrBy(desc, s);
    ShlBy(q, s);
    AndField(desc, 48 - s, s, Shl(Pow2(48 - s) - 1, s), q, Shl(q, s));
  }

  lemma PageCounts(g: Geometry)
    requires ValidGeometry(g)
    ensures Pow2(g.shift) == PageSize(g) && Pow2(48 - g.shift) == PageCount(g)
  {
    MorePowersInUse();
    Pow2Values();
    assert Pow2(34) == 4 * Pow2(32);
  }

  lemma NumberedPage(g: Geometry, q: nat)
    requires ValidGeometry(g) && q < PageCount(g)
    ensures PageSize(g) * q < 0x1_0000_0000_0000 && IsPage(g, PageSize(g) * q)
  {
  }

  // Entries of different tables, or at different indices, are different cells.
  lemma EntriesDiffer(g: Geometry, t: Addr, i: nat, u: Addr, j: nat)
    requires ValidGeometry(g) && IsPage(g, t) && IsPage(g, u) && i < Pointers(g) && j < Pointers(g)
    ensures EntryAt(g, t, i) == EntryAt(g, u, j) <==> t == u && i == j
  {
    if EntryAt(g, t, i) == EntryAt(g, u, j) {
      CellInPage(g, t, u, j);
    }
  }

  // ------------------------------------------------------------ descriptors made

  // pxd_pa | attr_prot
  function MakeDescriptor(pa: Addr, attr: Addr): nat {
    Or(pa, Or(0x40_0000_0000_0703, attr))
  }

  lemma Descriptor(g: Geometry, pa: Addr, attr: Addr)
    requires ValidGeometry(g) && IsPage(g, pa) && IsAttrIndex(attr)
    ensures MakeDescriptor(pa, attr) == pa + 0x40_0000_0000_0703 + attr < 0x1_0000_0000_0000_0000
    ensures KindOf(MakeDescriptor(pa, attr)) == Table && AddressIn(g, MakeDescriptor(pa, attr)) == pa
  {
    DescriptorValue(g, pa, attr);
    DescriptorAddress(g, pa, 0x703 + attr);
    AddressInIs(g, MakeDescriptor(pa, attr));
  }

  lemma AddressInIs(g: Geometry, desc: Addr)
    requires ValidGeometry(g)
    ensures AddressIn(g, desc) == PageSize(g) * (desc / PageSize(g) % PageCount(g))
  {
    AddressField(g, desc);
  }

  lemma DescriptorValue(g: Geometry, pa: Addr, attr: Addr)
    requires ValidGeometry(g) && IsPage(g, pa) && IsAttrIndex(attr)
    ensures MakeDescriptor(pa, attr) == pa + 0x40_0000_0000_0703 + attr < 0x1_0000_0000_0000_0000
    ensures KindOf(MakeDescriptor(pa, attr)) == Table
  {
    var prot := Or(0x40_0000_0000_0703, attr);
    Protection(attr);
    PageLow(g, pa);
    WithProtection(pa, 0x703 + attr, prot);
    LowBits(pa, attr);
  }

  lemma PageLow(g: Geometry, pa: Addr)
    requires ValidGeometry(g) && IsPage(g, pa)
    ensures pa % 0x1000 == 0
  {
    PageNumber(g, pa);
    var k := pa / PageSize(g);
    if g.shift == 14 {
      assert pa == 0x1000 * (4 * k);
    } else if g.shift == 16 {
      assert pa == 0x1000 * (16 * k);
    }
  }

  lemma LowBits(pa: Addr, attr: Addr)
    requires pa % 0x1000 == 0 && IsAttrIndex(attr)
    ensures (pa + 0x40_0000_0000_0703 + attr) % 4 == 3
  {
    var p, a := pa / 0x1000, attr / 4;
    DivModUnique(pa + 0x40_0000_0000_0703 + attr, 4, 0x400 * p + 0x10_0000_0000_01C0 + a, 3);
  }

  lemma Protection(attr: Addr)
    requires IsAttrIndex(attr)
    ensures Or(0x40_0000_0000_0703, attr) == 0x40_0000_0000_0703 + attr
  {
    PowersInUse();
    MorePowersInUse();
    ShlBy(0x2_0000_0000_0038, 5);
    AndAbove(attr, 0x2_0000_0000_0038, 5);
    AndCommutes(attr, 0x40_0000_0000_0700);
    AndLow2(3, attr);
    AndCommutes(3, attr);
    assert And(3, 0x40_0000_0000_0700) == 0 by {
      ShlBy(0x10_0000_0000_01C0, 2);
      AndAbove(3, 0x10_0000_0000_01C0, 2);
    }
    AndOfSum(attr, 3, 0x40_0000_0000_0700);
    AndCommutes(attr, 0x40_0000_0000_0703);
    OrAdds(0x40_0000_0000_0703, attr);
  }

  lemma AndLow2(l: nat, a: nat)
    requires l < 4 && a % 4 == 0
    ensures And(l, a) == 0
  {
    MorePowersInUse();
    ShlBy(a / 4, 2);
    AndAbove(l, a / 4, 2);
  }

  lemma WithProtection(pa: Addr, low: nat, prot: nat)
    requires pa % 0x1000 == 0 && pa < 0x1_0000_0000_0000 && low < 0x1000 && prot == 0x40_0000_0000_0000 + low
    ensures Or(pa, prot) == pa + prot
  {
    hide *;
    MorePowersInUse();
    ShlBy(pa / 0x1000, 12);
    AndAbove(low, pa / 0x1000, 12);
    AndCommutes(low, pa);
    Pow54();
    ShlBy(1, 54);
    AndAbove(pa, 1, 54);
    AndAbove(low, 1, 54);
    AndOfSum(pa, low, 0x40_0000_0000_0000);
    OrAdds(pa, prot);
  }

  lemma Pow54()
    ensures Pow2(51) == 0x8_0000_0000_0000 && Pow2(53) == 0x20_0000_0000_0000 && Pow2(54) == 0x40_0000_0000_0000
  {
    MorePowersInUse();
    assert Pow2(51) == 8 * Pow2(48);
  }

  lemma DescriptorAddress(g: Geometry, pa: Addr, low: nat)
    requires ValidGeometry(g) && IsPage(g, pa) && low < 0x1000
    ensures var desc := pa + 0x40_0000_0000_0000 + low;
            PageSize(g) * (desc / PageSize(g) % PageCount(g)) == pa
  {
    var p, c := PageSize(g), PageCount(g);
    assert p * c == 0x1_0000_0000_0000;
    var k := pa / p;
    assert pa == p * k;
    PageNumberOf(p, c, k, low);
  }

  lemma PageNumberOf(p: nat, c: nat, k: nat, low: nat)
    requires p * c == 0x1_0000_0000_0000 && p * k + p <= 0x1_0000_0000_0000 && low < p
    ensures c > 0 && (p * k + 0x40_0000_0000_0000 + low) / p % c == k
  {
    assert 0x40_0000_0000_0000 == 64 * (p * c);
    Regroup(p, c, k);
    DivModUnique(p * k + 0x40_0000_0000_0000 + low, p, k + 64 * c, low);
    if k >= c {
      assert p * k >= p * c by { TimesMonotone(p, c, k); }
    }
    DivModUnique(k + 64 * c, c, 64, k);
  }

  lemma Regroup(p: nat, c: nat, k: nat)
    ensures p * k + 64 * (p * c) == (k + 64 * c) * p
  {
  }

  lemma TimesMonotone(p: nat, c: nat, k: nat)
    requires c <= k
    ensures p * c <= p * k
  {
  }

  // ------------------------------------------------------------- the laws, proved

  function MmuOf(g: Geometry): (m: Mmu)
    requires ValidGeometry(g)
    ensures m.levels == g.levels && m.pointers == Pointers(g)
  {
    Mmu(
      g.levels,
      Pointers(g),
      KindOf,
      (va: Addr, lv: nat) => if lv < 4 then IndexOf(g, va, lv) else 0,
      (t: Addr, i: nat) => if IsPage(g, t) && i < Pointers(g) then EntryAt(g, t, i) else 0,
      (desc: Addr) => AddressIn(g, desc),
      (pa: Addr, attr: Addr) => DescriptorFor(g, pa, attr),
      (pa: Addr) => IsPage(g, pa),
      (page: Addr, a: Addr) => IsPage(g, page) && Linear(g, page) <= a < Linear(g, page) + PageSize(g))
  }

  function DescriptorFor(g: Geometry, pa: Addr, attr: Addr): Addr
    requires ValidGeometry(g)
  {
    if IsPage(g, pa) && IsAttrIndex(attr) then
      Descriptor(g, pa, attr);
      MakeDescriptor(pa, attr)
    else 0
  }

  lemma CellInPage(g: Geometry, page: Addr, u: Addr, i: nat)
    requires ValidGeometry(g) && IsPage(g, page) && IsPage(g, u) && i < Pointers(g)
    ensures Linear(g, page) <= EntryAt(g, u, i) < Linear(g, page) + PageSize(g) <==> u == page
  {
    PageNumber(g, page);
    PageNumber(g, u);
    MultiplesApart(PageSize(g), page / PageSize(g), u / PageSize(g), i * 8);
  }

  lemma PageNumber(g: Geometry, pa: Addr)
    requires ValidGeometry(g) && IsPage(g, pa)
    ensures pa == PageSize(g) * (pa / PageSize(g))
  {
  }

  lemma MultiplesApart(p: nat, a: nat, b: nat, x: nat)
    requires x < p
    ensures p * a <= p * b + x < p * a + p <==> a == b
  {
    if a < b {
      TimesMonotone(p, a + 1, b);
    } else if b < a {
      TimesMonotone(p, b + 1, a);
    }
  }

  lemma LawsHold(g: Geometry)
    requires ValidGeometry(g)
    ensures Laws(MmuOf(g))
  {
    var m := MmuOf(g);
    forall t: Addr, i: nat, u: Addr, j: nat {:trigger EntriesApart(m, t, i, u, j)} ensures EntriesApart(m, t, i, u, j) {
      if m.isPage(t) && m.isPage(u) && i < m.pointers && j < m.pointers {
        EntriesDiffer(g, t, i, u, j);
      }
    }
    forall pa: Addr, attr: Addr {:trigger Makes(m, pa, attr)} ensures Makes(m, pa, attr) {
      if m.isPage(pa) && IsAttrIndex(attr) {
        Descriptor(g, pa, attr);
      }
    }
    forall page: Addr, u: Addr, i: nat {:trigger CellsApart(m, page, u, i)} ensures CellsApart(m, page, u, i) {
      if m.isPage(page) && m.isPage(u) && i < m.pointers {
        CellInPage(g, page, u, i);
      }
    }
  }

  // ---------------------------------------------------------------- page numbers

  // The bits of an address that the levels down to lv translate.
  function TotalBits(g: Geometry, lv: nat): nat
    requires ValidGeometry(g) && 4 - g.levels <= lv < 4
  {
    (g.shift - 3) + if lv == 4 - g.levels then 0 else TotalBits(g, lv - 1)
  }

  lemma {:induction false} ShrAdds(x: nat, j: nat, k: nat)
    ensures Shr(Shr(x, j), k) == Shr(x, j + k)
    decreases j
  {
    if j > 0 {
      ShrAdds(x / 2, j - 1, k);
    }
  }

  // The low b and the next t bits of a number determine the low t + b bits.
  lemma {:induction false} LowBitsDetermine(x: nat, y: nat, b: nat, t: nat)
    requires x % Pow2(b) == y % Pow2(b) && Shr(x, b) % Pow2(t) == Shr(y, b) % Pow2(t)
    ensures x % Pow2(t + b) == y % Pow2(t + b)
    decreases b
  {
    if b > 0 {
      ModHalf(b, x);
      ModHalf(b, y);
      LowBitsDetermine(x / 2, y / 2, b - 1, t);
      ModHalf(t + b, x);
      ModHalf(t + b, y);
      HalvesDetermine(x % Pow2(t + b), y % Pow2(t + b));
    }
  }

  lemma HalvesDetermine(x: nat, y: nat)
    requires x / 2 == y / 2 && x % 2 == y % 2
    ensures x == y
  {
  }

  lemma IndexBits(g: Geometry, va: Addr, lv: nat)
    requires ValidGeometry(g) && lv < 4
    ensures IndexOf(g, va, lv) == Shr(va, ShiftOf(g, lv)) % Pow2(g.shift - 3)
  {
    PowersInUse();
    assert Pow2(11) == 0x800;
    AndLowMask(Shr(va, ShiftOf(g, lv)), g.shift - 3);
  }

  lemma NextShift(g: Geometry, lv: nat)
    requires ValidGeometry(g) && 0 < lv < 4
    ensures ShiftOf(g, lv - 1) == ShiftOf(g, lv) + (g.shift - 3)
  {
  }

  // Equal indices mean equal page numbers.
  lemma {:induction false} PrefixDetermines(g: Geometry, va: Addr, va': Addr, lv: nat)
    requires ValidGeometry(g) && 4 - g.levels <= lv < 4
    requires Prefix(MmuOf(g), va, lv + 1) == Prefix(MmuOf(g), va', lv + 1)
    ensures Shr(va, ShiftOf(g, lv)) % Pow2(TotalBits(g, lv)) == Shr(va', ShiftOf(g, lv)) % Pow2(TotalBits(g, lv))
    decreases lv
  {
    var b := g.shift - 3;
    var x, y := Shr(va, ShiftOf(g, lv)), Shr(va', ShiftOf(g, lv));
    LastIndex(g, va, va', lv);
    IndexBits(g, va, lv);
    IndexBits(g, va', lv);
    if lv > 4 - g.levels {
      PrefixDetermines(g, va, va', lv - 1);
      NextShift(g, lv);
      ShrAdds(va, ShiftOf(g, lv), b);
      ShrAdds(va', ShiftOf(g, lv), b);
      LowBitsDetermine(x, y, b, TotalBits(g, lv - 1));
    }
  }

  lemma LastIndex(g: Geometry, va: Addr, va': Addr, lv: nat)
    requires ValidGeometry(g) && 4 - g.levels <= lv < 4
    requires Prefix(MmuOf(g), va, lv + 1) == Prefix(MmuOf(g), va', lv + 1)
    ensures IndexOf(g, va, lv) == IndexOf(g, va', lv)
    ensures Prefix(MmuOf(g), va, lv) == Prefix(MmuOf(g), va', lv)
  {
    var m := MmuOf(g);
    var p, q := Prefix(m, va, lv), Prefix(m, va', lv);
    assert Prefix(m, va, lv + 1) == p + [m.index(va, lv)];
    assert Prefix(m, va', lv + 1) == q + [m.index(va', lv)];
    assert (p + [m.index(va, lv)])[..|p|] == p && (q + [m.index(va', lv)])[..|q|] == q;
    assert (p + [m.index(va, lv)])[|p|] == (q + [m.index(va', lv)])[|p|];
  }

  // The number of pages that the tables can tell apart.
  function PageNumbers(g: Geometry): nat
    requires ValidGeometry(g)
  {
    Pow2(TotalBits(g, 3))
  }

  // n pages from start, within one round of page numbers.
  predicate IsRange(g: Geometry, start: Addr, n: nat)
    requires ValidGeometry(g)
  {
    && start % PageSize(g) == 0
    && start + n * PageSize(g) <= 0x1_0000_0000_0000_0000
    && start / PageSize(g) % PageNumbers(g) + n <= PageNumbers(g)
  }

  // Different pages of a range are different pages for the tables.
  lemma RangePagesDiffer(g: Geometry, start: Addr, n: nat, i: nat, j: nat)
    requires ValidGeometry(g) && IsRange(g, start, n) && i < n && j < n
    requires start + i * PageSize(g) < 0x1_0000_0000_0000_0000 && start + j * PageSize(g) < 0x1_0000_0000_0000_0000
    requires SamePage(MmuOf(g), start + i * PageSize(g), start + j * PageSize(g))
    ensures i == j
  {
    PrefixDetermines(g, start + i * PageSize(g), start + j * PageSize(g), 3);
    RangePage(g, start, n, i);
    RangePage(g, start, n, j);
  }

  lemma RangePage(g: Geometry, start: Addr, n: nat, i: nat)
    requires ValidGeometry(g) && IsRange(g, start, n) && i < n
    ensures start + i * PageSize(g) < 0x1_0000_0000_0000_0000
    ensures Shr(start + i * PageSize(g), ShiftOf(g, 3)) % PageNumbers(g) == start / PageSize(g) % PageNumbers(g) + i
  {
    RangeBound(PageSize(g), start, n, i);
    PageShift(g, start, i);
    Remainders(start / PageSize(g), PageNumbers(g), n, i);
  }

  lemma RangeBound(p: nat, start: nat, n: nat, i: nat)
    requires p > 0 && i < n && start + n * p <= 0x1_0000_0000_0000_0000
    ensures start + i * p < 0x1_0000_0000_0000_0000
  {
    TimesMonotone(p, i + 1, n);
  }

  lemma PageShift(g: Geometry, start: Addr, i: nat)
    requires ValidGeometry(g) && start % PageSize(g) == 0
    ensures Shr(start + i * PageSize(g), ShiftOf(g, 3)) == start / PageSize(g) + i
  {
    assert ShiftOf(g, 3) == g.shift;
    PageCounts(g);
    ShrBy(start + i * PageSize(g), g.shift);
    PagesOn(PageSize(g), start, start / PageSize(g), i);
  }

  lemma Remainders(s: nat, m: nat, n: nat, i: nat)
    requires m > 0 && i < n && s % m + n <= m
    ensures (s + i) % m == s % m + i
  {
    DivModUnique(s + i, m, s / m, s % m + i);
  }

  lemma PagesOn(p: nat, start: nat, s: nat, i: nat)
    requires p > 0 && start % p == 0 && s == start / p
    ensures (start + i * p) / p == s + i
  {
    assert start == s * p;
    assert (s + i) * p == s * p + i * p;
    DivModUnique(start + i * p, p, s + i, 0);
  }
}
