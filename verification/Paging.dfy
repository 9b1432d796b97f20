// get_or_create_pte, pgtable_entry, the mapping loop of _paging_init and
// modify_entry_kernel, over the translation tables in memory.
module Paging {
  import opened Bits
  import opened BitFields
  import opened PageWalks
  import opened PageTables
  import opened Translation

  // ------------------------------------------------------------- descriptor bits

  const DBM: Addr := 0x8_0000_0000_0000
  const KEEP: Addr := 0xFFDF_FFFF_FFFF_FF7F

  // (desc | DBM) without the PXN and RDONLY bits
  function Writable(desc: Addr): (r: Addr) {
    And(Or(desc, DBM), KEEP)
  }

  // The leaf that _paging_init leaves for a page.
  function FinalLeaf(pa: nat, attr: Addr): nat {
    pa + 0x48_0000_0000_0703 + attr
  }

  lemma BitClear(x: nat, k: nat)
    requires x / Pow2(k) % 2 == 0
    ensures And(x, Pow2(k)) == 0
  {
    ShlBy(1, k);
    ShrBy(x, k);
    ShlBy(0, k);
    assert Pow2(1) == 2;
    AndField(x, 1, k, Pow2(k), 0, 0);
  }

  lemma DbmAdded(x: nat)
    requires x / 0x8_0000_0000_0000 % 2 == 0
    ensures Or(x, DBM) == x + DBM
  {
    Pow54();
    BitClear(x, 51);
    OrAdds(x, DBM);
  }

  lemma KeepIsComplement()
    ensures And(KEEP, 0x20_0000_0000_0080) == 0
  {
    Pow54();
    PowersInUse();
    BitClear(KEEP, 7);
    BitClear(KEEP, 53);
    ShlBy(1, 53);
    AndAbove(0x80, 1, 53);
    AndOfSum(KEEP, 0x80, 0x20_0000_0000_0000);
  }

  lemma KeepsClear(x: Addr)
    requires x / 0x80 % 2 == 0 && x / 0x20_0000_0000_0000 % 2 == 0
    ensures And(x, KEEP) == x
  {
    Pow54();
    PowersInUse();
    Pow2Values();
    KeepIsComplement();
    AndOfSum(x, KEEP, 0x20_0000_0000_0080);
    AndAllOnes(64, x);
    BitClear(x, 7);
    BitClear(x, 53);
    ShlBy(1, 53);
    AndAbove(0x80, 1, 53);
    AndOfSum(x, 0x80, 0x20_0000_0000_0000);
  }

  // For a fresh page the leaf gets the DBM bit and has neither PXN nor RDONLY.
  lemma FinalLeafBits(g: Geometry, pa: Addr, attr: Addr)
    requires ValidGeometry(g) && IsPage(g, pa) && IsAttrIndex(attr)
    ensures DescriptorFor(g, pa, attr) == pa + 0x40_0000_0000_0703 + attr
    ensures FinalLeaf(pa, attr) < 0x1_0000_0000_0000_0000
    ensures Writable(DescriptorFor(g, pa, attr)) == FinalLeaf(pa, attr)
  {
    hide Shl, Pow2, And, Or;
    DescriptorValue(g, pa, attr);
    PageLow(g, pa);
    var leaf := pa + 0x40_0000_0000_0703 + attr;
    HighBits(pa, attr);
    DbmAdded(leaf);
    KeepsClear(leaf + DBM);
  }

  lemma HighBits(pa: Addr, attr: Addr)
    requires pa % 0x1000 == 0 && pa < 0x1_0000_0000_0000 && IsAttrIndex(attr)
    ensures var leaf := pa + 0x40_0000_0000_0703 + attr;
      leaf / 0x8_0000_0000_0000 % 2 == 0
      && (leaf + DBM) / 0x80 % 2 == 0 && (leaf + DBM) / 0x20_0000_0000_0000 % 2 == 0
  {
    var k := pa / 0x1000;
    assert pa + 0x48_0000_0000_0703 + attr == 0x100 * (16 * k + 0x48_0000_0000_07) + (3 + attr);
  }

  // The final leaf still is a page descriptor for the same page.
  lemma FinalLeafMaps(g: Geometry, pa: Addr, attr: Addr)
    requires ValidGeometry(g) && IsPage(g, pa) && IsAttrIndex(attr)
    ensures FinalLeaf(pa, attr) < 0x1_0000_0000_0000_0000
    ensures KindOf(FinalLeaf(pa, attr)) == Table && AddressIn(g, FinalLeaf(pa, attr)) == pa
  {
    PageLow(g, pa);
    FinalLowBits(pa, attr);
    AddressInIs(g, FinalLeaf(pa, attr));
    DbmAddress(g, pa, 0x703 + attr);
  }

  lemma FinalLowBits(pa: Addr, attr: Addr)
    requires pa % 0x1000 == 0 && IsAttrIndex(attr)
    ensures FinalLeaf(pa, attr) % 4 == 3
  {
    var k := pa / 0x1000;
    assert FinalLeaf(pa, attr) == 4 * (0x400 * k + 0x12_0000_0000_01C0 + attr / 4) + 3;
  }

  lemma DbmAddress(g: Geometry, pa: Addr, low: nat)
    requires ValidGeometry(g) && IsPage(g, pa) && low < 0x1000
    ensures PageSize(g) * ((pa + 0x48_0000_0000_0000 + low) / PageSize(g) % PageCount(g)) == pa
  {
    var p, c := PageSize(g), PageCount(g);
    var k := pa / p;
    PageNumber(g, pa);
    assert p * c == 0x1_0000_0000_0000;
    assert p * k + 72 * (p * c) == (k + 72 * c) * p;
    DivModUnique(p * k + 0x48_0000_0000_0000 + low, p, k + 72 * c, low);
    if k >= c {
      TimesMonotone(p, c, k);
    }
    DivModUnique(k + 72 * c, c, 72, k);
  }

  // It is valid, used, inner shareable and writable, may be executed at EL1 and not at
  // EL0, and has the memory attributes asked for.
  lemma FinalLeafPermits(g: Geometry, pa: Addr, attr: Addr)
    requires ValidGeometry(g) && IsPage(g, pa) && IsAttrIndex(attr)
    ensures var leaf := FinalLeaf(pa, attr);
      && leaf % 4 == 3 && leaf / 4 % 8 == attr / 4
      && leaf / 0x80 % 2 == 0 && leaf / 0x100 % 4 == 3 && leaf / 0x400 % 2 == 1
      && leaf / 0x8_0000_0000_0000 % 2 == 1 && leaf / 0x20_0000_0000_0000 % 2 == 0 && leaf / 0x40_0000_0000_0000 % 2 == 1
  {
    PageLow(g, pa);
    LowFields(pa / 0x1000 + 0x480_0000_0000, attr, FinalLeaf(pa, attr));
    HighFields(pa + 0x703 + attr);
  }

  lemma LowFields(q: nat, attr: Addr, leaf: nat)
    requires IsAttrIndex(attr) && leaf == 0x1000 * q + 0x703 + attr
    ensures leaf % 4 == 3 && leaf / 4 % 8 == attr / 4
    ensures leaf / 0x80 % 2 == 0 && leaf / 0x100 % 4 == 3 && leaf / 0x400 % 2 == 1
  {
    hide *;
    AttrIsFourfold(attr);
    var a := attr / 4;
    FieldIs(leaf, 4, 0x400 * q + 0x1C0 + a, 3, 8, 0x80 * q + 0x38, a);
    FieldIs(leaf, 0x80, 0x20 * q + 14, 3 + attr, 2, 0x10 * q + 7, 0);
    FieldIs(leaf, 0x100, 0x10 * q + 7, 3 + attr, 4, 4 * q + 1, 3);
    FieldIs(leaf, 0x400, 4 * q + 1, 0x303 + attr, 2, 2 * q, 1);
  }

  lemma AttrIsFourfold(attr: Addr)
    requires IsAttrIndex(attr)
    ensures attr == 4 * (attr / 4) && attr < 32 && attr / 4 < 8
  {
  }

  lemma FieldIs(x: nat, d: nat, q: nat, r: nat, m: nat, k: nat, v: nat)
    requires d > 0 && r < d && x == q * d + r && v < m && q == k * m + v
    ensures x % d == r && x / d % m == v
  {
    DivModUnique(x, d, q, r);
    DivModUnique(q, m, k, v);
  }

  lemma HighFields(low: nat)
    requires low < 0x2_0000_0000_0000
    ensures var leaf := low + 0x48_0000_0000_0000;
      leaf / 0x8_0000_0000_0000 == 9 && leaf / 0x20_0000_0000_0000 == 2 && leaf / 0x40_0000_0000_0000 == 1
  {
  }

  // ------------------------------------------------------------- pgtable_entry

  // desc & (((1 << (48 - block_bits)) - 1) << block_bits) for a block at level 0
  function TopBlock(g: Geometry, desc: Addr): (pa: Addr)
    requires ValidGeometry(g) && g.shift < 16
    ensures IsPage(g, pa)
  {
    TopBlockIsPage(g, desc);
    And(desc, Shl(Pow2(48 - (4 * g.shift - 9)) - 1, 4 * g.shift - 9))
  }

  lemma TopBlockIsPage(g: Geometry, desc: Addr)
    requires ValidGeometry(g) && g.shift < 16
    ensures And(desc, Shl(Pow2(48 - (4 * g.shift - 9)) - 1, 4 * g.shift - 9)) < 0x1_0000_0000_0000
    ensures IsPage(g, And(desc, Shl(Pow2(48 - (4 * g.shift - 9)) - 1, 4 * g.shift - 9)))
  {
    var s := 4 * g.shift - 9;
    AddressMask(desc, s);
    TopPowers();
    BlockOfPages(g, desc / Pow2(s) % Pow2(48 - s));
  }

  lemma TopPowers()
    ensures Pow2(39) == 0x80_0000_0000 && Pow2(47) == 0x8000_0000_0000 && Pow2(9) == 512 && Pow2(1) == 2
  {
    MorePowersInUse();
    PowersInUse();
    assert Pow2(39) == 8 * Pow2(36);
    assert Pow2(47) * 2 == Pow2(48);
  }

  lemma BlockOfPages(g: Geometry, q: nat)
    requires ValidGeometry(g) && g.shift < 16 && q < (if g.shift == 12 then 512 else 2)
    ensures var pa := (if g.shift == 12 then 0x80_0000_0000 else 0x8000_0000_0000) * q;
      pa < 0x1_0000_0000_0000 && IsPage(g, pa)
  {
    if g.shift == 12 {
      assert 0x80_0000_0000 * q == 0x1000 * (0x800_0000 * q);
    } else {
      assert 0x8000_0000_0000 * q == 0x4000 * (0x2_0000_0000 * q);
    }
  }

  // What pgtable_entry does from level lv on.  A block ends the walk below level
  // 0; at level 0 the level number reads as no block, and the walk goes on.
  function PgWalk(g: Geometry, mem: Memory, table: Addr, va: Addr, lv: nat): Walked
    requires ValidGeometry(g) && IsPage(g, table) && 4 - g.levels <= lv < 4
    decreases 4 - lv
  {
    var cell := EntryAt(g, table, IndexOf(g, va, lv));
    var desc := mem(cell);
    match KindOf(desc)
    case Invalid => Missing
    case Table => if lv == 3 then Found(cell, desc) else PgWalk(g, mem, AddressIn(g, desc), va, lv + 1)
    case Block => if lv == 0 then PgWalk(g, mem, TopBlock(g, desc), va, 1) else Found(cell, desc)
  }

  // The walk that finds and the walk that creates agree unless the first level is
  // level 0 and holds a block there.
  lemma {:induction false} WalksAgree(g: Geometry, mem: Memory, table: Addr, va: Addr, lv: nat)
    requires ValidGeometry(g) && IsPage(g, table) && 4 - g.levels <= lv < 4
    requires lv == 0 ==> KindOf(mem(EntryAt(g, table, IndexOf(g, va, 0)))) != Block
    ensures PgWalk(g, mem, table, va, lv) == Walk(MmuOf(g), mem, table, va, lv)
    decreases 4 - lv
  {
    var desc := mem(EntryAt(g, table, IndexOf(g, va, lv)));
    if lv < 3 && KindOf(desc) == Table {
      WalksAgree(g, mem, AddressIn(g, desc), va, lv + 1);
    }
  }

  // What the creating walk ends in, the finding one finds, if it is a page.
  lemma FoundByBoth(g: Geometry, mem: Memory, pgd: Addr, va: Addr, cell: Addr, desc: Addr)
    requires ValidGeometry(g) && IsPage(g, pgd)
    requires Walk(MmuOf(g), mem, pgd, va, 4 - g.levels) == Found(cell, desc) && KindOf(desc) == Table
    ensures PgWalk(g, mem, pgd, va, 4 - g.levels) == Found(cell, desc)
  {
    WalksAgree(g, mem, pgd, va, 4 - g.levels);
  }

  // A block at level 0 that leads the finding walk back to the entry it is in: there
  // the walk ends at level 1, as a block does.
  predicate PointsBack(g: Geometry, mem: Memory, pgd: Addr, va: Addr)
    requires ValidGeometry(g) && g.levels == 4 && IsPage(g, pgd)
  {
    var cell := EntryAt(g, pgd, IndexOf(g, va, 0));
    EntryAt(g, TopBlock(g, mem(cell)), IndexOf(g, va, 1)) == cell
  }

  // The walks agree in every memory that holds this level-0 entry if and only if the
  // entry is no block, or points back at itself.
  lemma WalksAgreeExactly(g: Geometry, mem: Memory, pgd: Addr, va: Addr)
    requires ValidGeometry(g) && g.levels == 4 && IsPage(g, pgd)
    ensures var cell := EntryAt(g, pgd, IndexOf(g, va, 0));
      (forall now: Memory {:trigger now(cell)} :: now(cell) == mem(cell) ==> SameWalks(g, now, pgd, va))
      <==> (KindOf(mem(cell)) == Block ==> PointsBack(g, mem, pgd, va))
  {
    var cell := EntryAt(g, pgd, IndexOf(g, va, 0));
    if KindOf(mem(cell)) == Block && !PointsBack(g, mem, pgd, va) {
      var now := WalksDisagree(g, mem, pgd, va);
    } else {
      forall now: Memory {:trigger now(cell)} | now(cell) == mem(cell) ensures SameWalks(g, now, pgd, va) {
        if KindOf(mem(cell)) == Block {
          ReadAgain(g, now, pgd, va);
        } else {
          WalksAgree(g, now, pgd, va, 0);
        }
      }
    }
  }

  predicate SameWalks(g: Geometry, mem: Memory, pgd: Addr, va: Addr)
    requires ValidGeometry(g) && g.levels == 4 && IsPage(g, pgd)
  {
    PgWalk(g, mem, pgd, va, 0) == Walk(MmuOf(g), mem, pgd, va, 0)
  }

  lemma ReadAgain(g: Geometry, mem: Memory, pgd: Addr, va: Addr)
    requires ValidGeometry(g) && g.levels == 4 && IsPage(g, pgd)
    requires KindOf(mem(EntryAt(g, pgd, IndexOf(g, va, 0)))) == Block && PointsBack(g, mem, pgd, va)
    ensures SameWalks(g, mem, pgd, va)
  {
    var cell := EntryAt(g, pgd, IndexOf(g, va, 0));
    assert PgWalk(g, mem, TopBlock(g, mem(cell)), va, 1) == Found(cell, mem(cell));
  }

  // The memory in which they disagree: the creating walk finds the block, and the
  // finding walk nothing, since what it takes for the next entry is zero.
  lemma WalksDisagree(g: Geometry, mem: Memory, pgd: Addr, va: Addr) returns (now: Memory)
    requires ValidGeometry(g) && g.levels == 4 && IsPage(g, pgd)
    requires KindOf(mem(EntryAt(g, pgd, IndexOf(g, va, 0)))) == Block && !PointsBack(g, mem, pgd, va)
    ensures var cell := EntryAt(g, pgd, IndexOf(g, va, 0));
      now(cell) == mem(cell)
      && Walk(MmuOf(g), now, pgd, va, 0) == Found(cell, mem(cell))
      && PgWalk(g, now, pgd, va, 0) == Missing
  {
    var cell := EntryAt(g, pgd, IndexOf(g, va, 0));
    var inner := EntryAt(g, TopBlock(g, mem(cell)), IndexOf(g, va, 1));
    now := Put(mem, inner, 0);
    assert PgWalk(g, now, TopBlock(g, mem(cell)), va, 1) == Missing;
  }

  // The translation of an address from the first table.
  function Translated(g: Geometry, mem: Memory, pgd: Addr, va: Addr): Walked
    requires ValidGeometry(g)
  {
    Walk(MmuOf(g), mem, pgd, va, 4 - g.levels)
  }

  predicate OnePage(g: Geometry, va: Addr, va': Addr)
    requires ValidGeometry(g)
  {
    SamePage(MmuOf(g), va, va')
  }

  // Every page but that of va is translated as before.
  ghost predicate OthersSame(g: Geometry, was: Memory, now: Memory, pgd: Addr, va: Addr)
    requires ValidGeometry(g)
  {
    forall x: Addr {:trigger Translated(g, now, pgd, x)} :: !OnePage(g, va, x) ==>
      Translated(g, now, pgd, x) == Translated(g, was, pgd, x)
  }

  // The processor translates every address as before, but for the page of va.
  ghost predicate HardwareKeeps(g: Geometry, was: Memory, now: Memory, pgd: Addr, va: Addr)
    requires ValidGeometry(g) && IsFull(g)
  {
    forall x: Addr {:trigger Translate(RegimeOf(g), Physical(g, now), pgd, x)} :: !OnePage(g, va, x) ==>
      Translate(RegimeOf(g), Physical(g, now), pgd, x) == Translate(RegimeOf(g), Physical(g, was), pgd, x)
  }

  lemma HardwareKept(g: Geometry, was: Memory, owners: Owners, now: Memory, more: Owners, pgd: Addr, va: Addr)
    requires ValidGeometry(g) && IsFull(g) && Laws(MmuOf(g)) && Tree(MmuOf(g), was, owners) && Tree(MmuOf(g), now, more)
    requires pgd in owners && owners[pgd] == [] && IsPage(g, pgd) && Extends(owners, more)
    requires OthersSame(g, was, now, pgd, va)
    ensures HardwareKeeps(g, was, now, pgd, va)
  {
    hide Translate, Laws, Tree, MmuOf, RegimeOf, Physical, Walk, OnePage, Extends;
    forall x: Addr | !OnePage(g, va, x)
      ensures Translate(RegimeOf(g), Physical(g, now), pgd, x) == Translate(RegimeOf(g), Physical(g, was), pgd, x)
    {
      assert Translated(g, now, pgd, x) == Translated(g, was, pgd, x);
      SameTranslation(g, was, owners, now, more, pgd, x);
    }
  }

  // --------------------------------------------------------- contiguous entries

  // pte_valid_cont
  predicate IsContiguous(desc: Addr) {
    KindOf(desc) == Table && desc / 0x10_0000_0000_0000 % 2 == 1
  }

  // The cells of the sixteen entries that share the contiguous bit with an entry.
  predicate InGroup(entry: Addr, c: Addr) {
    entry - entry % 128 <= c < entry - entry % 128 + 128 && c % 8 == 0
  }

  // They are the sixteen entries of one aligned 128 bytes, which is the contiguous set of
  // 4 KiB pages.
  lemma GroupIsSixteen(entry: Addr, c: Addr)
    requires entry % 8 == 0
    ensures InGroup(entry, c) <==> c % 8 == 0 && c / 8 / 16 == entry / 8 / 16
  {
    var k := entry / 128;
    assert entry / 8 / 16 == k;
  }

  // table_pa_mask
  function AddressBits(g: Geometry): (m: Addr)
    requires ValidGeometry(g)
  {
    AddressBitsFit(g);
    Shl(Pow2(48 - g.shift) - 1, g.shift)
  }

  lemma AddressBitsFit(g: Geometry)
    requires ValidGeometry(g)
    ensures Shl(Pow2(48 - g.shift) - 1, g.shift) < 0x1_0000_0000_0000_0000
  {
    PageCounts(g);
    ShlBy(PageCount(g) - 1, g.shift);
    assert PageSize(g) * (PageCount(g) - 1) == 0x1_0000_0000_0000 - PageSize(g);
  }

  // value & ~table_pa_mask
  function ProtectionOf(g: Geometry, desc: Addr): Addr
    requires ValidGeometry(g)
  {
    And(desc, 0xFFFF_FFFF_FFFF_FFFF - AddressBits(g))
  }

  // (*p & table_pa_mask) | prot
  function Reprotected(g: Geometry, desc: Addr, prot: Addr): Addr
    requires ValidGeometry(g)
  {
    OrBelow64(And(desc, AddressBits(g)), prot);
    Or(And(desc, AddressBits(g)), prot)
  }

  lemma OrBelow64(a: Addr, b: Addr)
    ensures Or(a, b) < 0x1_0000_0000_0000_0000
  {
    Pow2Values();
    OrInWidth(64, a, b);
  }

  // Merging the masked halves of two words and masking again gives back each half.
  lemma MergedHalves(a: Addr, b: Addr, mask: Addr)
    ensures var rest := 0xFFFF_FFFF_FFFF_FFFF - mask;
      And(Or(And(a, mask), And(b, rest)), mask) == And(a, mask)
      && And(Or(And(a, mask), And(b, rest)), rest) == And(b, rest)
  {
    var rest := 0xFFFF_FFFF_FFFF_FFFF - mask;
    var both := Or(And(a, mask), And(b, rest));
    Pow2Values();
    forall i: nat ensures Bit(And(both, mask), i) == Bit(And(a, mask), i) && Bit(And(both, rest), i) == Bit(And(b, rest), i) {
      MergedBit(a, b, mask, i);
    }
    BitsDetermine(And(both, mask), And(a, mask));
    BitsDetermine(And(both, rest), And(b, rest));
  }

  lemma MergedBit(a: Addr, b: Addr, mask: Addr, i: nat)
    ensures var rest := 0xFFFF_FFFF_FFFF_FFFF - mask;
      var both := Or(And(a, mask), And(b, rest));
      Bit(And(both, mask), i) == Bit(And(a, mask), i) && Bit(And(both, rest), i) == Bit(And(b, rest), i)
  {
    var rest := 0xFFFF_FFFF_FFFF_FFFF - mask;
    var both := Or(And(a, mask), And(b, rest));
    BitAnd(both, mask, i);
    BitAnd(both, rest, i);
    BitAnd(a, mask, i);
    BitAnd(b, rest, i);
    BitOr(And(a, mask), And(b, rest), i);
    ComplementBit(mask, i);
  }

  lemma ComplementBit(mask: Addr, i: nat)
    ensures !(Bit(mask, i) && Bit(0xFFFF_FFFF_FFFF_FFFF - mask, i))
  {
    Pow2Values();
    if i < 64 {
      BitNot(64, mask, i);
    } else if Bit(mask, i) {
      BitInWidth(64, mask, i);
    }
  }

  // Changing the protection of an entry keeps the address it maps to.
  lemma ReprotectKeepsAddress(g: Geometry, desc: Addr, value: Addr)
    requires ValidGeometry(g)
    ensures AddressIn(g, Reprotected(g, desc, ProtectionOf(g, value))) == AddressIn(g, desc)
    ensures ProtectionOf(g, Reprotected(g, desc, ProtectionOf(g, value))) == ProtectionOf(g, value)
  {
    MergedHalves(desc, value, AddressBits(g));
  }

  // The protection are the bits below the page and above bit 47.
  lemma ProtectionBits(g: Geometry, desc: Addr, i: nat)
    requires ValidGeometry(g) && i < 64
    ensures Bit(ProtectionOf(g, desc), i) <==> Bit(desc, i) && !(g.shift <= i < 48)
  {
    hide Bit, Shl, Pow2, And;
    Pow2Values();
    AddressBitsFit(g);
    BitAnd(desc, 0xFFFF_FFFF_FFFF_FFFF - AddressBits(g), i);
    BitNot(64, AddressBits(g), i);
    BitShl(Pow2(48 - g.shift) - 1, g.shift, i);
    if i >= g.shift {
      BitOnes(48 - g.shift, i - g.shift);
    }
  }

  lemma GeometryLevels(g: Geometry)
    requires ValidGeometry(g)
    ensures 1 <= g.levels <= 4
  {
  }

  // One level of Create, in terms of the concrete tables.
  lemma CreateStep(g: Geometry, mem: Memory, pages: seq<Addr>, table: Addr, va: Addr, pa: Addr, attr: Addr, lv: nat)
    requires ValidGeometry(g) && 4 - g.levels <= lv < 4 && IsPage(g, table) && |pages| >= 3 - lv
    ensures var m, cell := MmuOf(g), EntryAt(g, table, IndexOf(g, va, lv));
            Create(m, mem, pages, table, va, pa, attr, lv) ==
              match KindOf(mem(cell))
              case Table => (
                if lv == 3 then Created(mem, pages, cell)
                else Create(m, mem, pages, AddressIn(g, mem(cell)), va, pa, attr, lv + 1))
              case Block => Created(mem, pages, cell)
              case Invalid => (
                if lv == 3 then Created(Put(mem, cell, m.make(pa, attr)), pages, cell)
                else Create(m, Link(m, mem, cell, pages[0], attr), pages[1..], pages[0], va, pa, attr, lv + 1))
  {
    var m := MmuOf(g);
    assert EntryAt(g, table, IndexOf(g, va, lv)) == m.entry(table, m.index(va, lv));
  }

  // -------------------------------------------------------------------- the class

  class KernelMap {
    const g: Geometry
    // Physical address of the first table.
    const pgd: Addr
    var mem: Memory
    // The pages that memblock_phys_alloc hands out next.
    var pages: seq<Addr>
    ghost var owners: Owners

    ghost predicate Valid()
      reads this
    {
      && ValidGeometry(g)
      && Laws(MmuOf(g))
      && Tree(MmuOf(g), mem, owners) && Fresh(MmuOf(g), owners, pages)
      && pgd in owners && owners[pgd] == [] && IsPage(g, pgd)
    }

    // The kernel's tables, and the pages that will be handed out.
    constructor (g: Geometry, pgd: Addr, mem: Memory, pages: seq<Addr>, ghost owners: Owners)
      requires ValidGeometry(g) && IsPage(g, pgd)
      requires Tree(MmuOf(g), mem, owners) && Fresh(MmuOf(g), owners, pages) && pgd in owners && owners[pgd] == []
      ensures Valid() && this.g == g && this.pgd == pgd && this.mem == mem && this.pages == pages
    {
      LawsHold(g);
      this.g, this.pgd, this.mem, this.pages := g, pgd, mem, pages;
      this.owners := owners;
    }

    lemma ValidParts()
      requires Valid()
      ensures ValidGeometry(g) && IsPage(g, pgd)
    {
    }

    lemma TreeParts()
      requires Valid()
      ensures Tree(MmuOf(g), mem, owners) && pgd in owners && owners[pgd] == [] && Extends(owners, owners)
    {
      hide Tree, MmuOf, Laws, Fresh;
    }

    // pgtable_entry
    method PgtableEntry(va: Addr) returns (entry: Addr)
      requires ValidGeometry(g) && IsPage(g, pgd)
      ensures entry ==
        match PgWalk(g, mem, pgd, va, 4 - g.levels) case Found(cell, _) => cell case Missing => 0
    {
      var pxd := pgd;
      entry := 0;
      var lv := 4 - g.levels;
      while lv < 4
        invariant 4 - g.levels <= lv <= 4 && IsPage(g, pxd)
        invariant lv < 4 ==> PgWalk(g, mem, pgd, va, 4 - g.levels) == PgWalk(g, mem, pxd, va, lv)
        invariant lv == 4 ==> PgWalk(g, mem, pgd, va, 4 - g.levels) == Found(entry, mem(entry))
      {
        entry := EntryAt(g, pxd, IndexOf(g, va, lv));
        var desc := mem(entry);
        if KindOf(desc) == Table {
          pxd := AddressIn(g, desc);
        } else if KindOf(desc) == Block {
          if lv != 0 {
            return;
          }
          pxd := TopBlock(g, desc);
        } else {
          return 0;
        }
        lv := lv + 1;
      }
    }

    // The branch of get_or_create_pte for an invalid descriptor; filling a new
    // table with zeros is one step here.
    method FillEntry(entry: Addr, lv: nat, pa: Addr, attr: Addr) returns (pxd: Addr)
      requires ValidGeometry(g) && lv < 4 && |pages| >= 3 - lv && (lv < 3 ==> IsPage(g, pages[0]))
      modifies this`mem, this`pages
      ensures lv < 3 ==> pxd == old(pages)[0] && pages == old(pages)[1..]
      ensures lv < 3 ==> mem == Link(MmuOf(g), old(mem), entry, pxd, attr)
      ensures lv == 3 ==> pxd == pa && pages == old(pages) && mem == Put(old(mem), entry, MmuOf(g).make(pa, attr))
    {
      var alloc := false;
      if lv != 3 {
        pxd := pages[0];
        pages := pages[1..];
        alloc := true;
      } else {
        pxd := pa;
      }
      mem := Put(mem, entry, DescriptorFor(g, pxd, attr));
      if alloc {
        mem := Zeroed(MmuOf(g), mem, pxd);
      }
    }

    // The loop of get_or_create_pte.
    method CreatePath(va: Addr, pa: Addr, attr: Addr) returns (entry: Addr)
      requires ValidGeometry(g) && IsPage(g, pgd) && |pages| >= 3
      requires forall i {:trigger pages[i]} :: 0 <= i < |pages| ==> IsPage(g, pages[i])
      modifies this`mem, this`pages
      ensures Created(mem, pages, entry) == Create(MmuOf(g), old(mem), old(pages), pgd, va, pa, attr, 4 - g.levels)
    {
      hide *;
      GeometryLevels(g);
      ghost var m, first := MmuOf(g), 4 - g.levels;
      ghost var spec := Create(m, mem, pages, pgd, va, pa, attr, first);
      var pxd := pgd;
      entry := 0;
      var lv := 4 - g.levels;
      while lv < 4
        invariant first <= lv <= 4 && (lv < 4 ==> IsPage(g, pxd))
        invariant lv < 4 ==> |pages| >= 3 - lv && Create(m, mem, pages, pxd, va, pa, attr, lv) == spec
        invariant lv == 4 ==> Created(mem, pages, entry) == spec
        invariant forall i {:trigger pages[i]} :: 0 <= i < |pages| ==> IsPage(g, pages[i])
      {
        entry := EntryAt(g, pxd, IndexOf(g, va, lv));
        CreateStep(g, mem, pages, pxd, va, pa, attr, lv);
        var desc := mem(entry);
        var kind := KindOf(desc);
        if kind == Table {
          pxd := AddressIn(g, desc);
        } else if kind == Block {
          return;
        } else {
          pxd := FillEntry(entry, lv, pa, attr);
        }
        lv := lv + 1;
      }
    }

    // get_or_create_pte
    method GetOrCreatePte(va: Addr, pa: Addr, attr: Addr) returns (entry: Addr)
      requires Valid() && IsPage(g, pa) && IsAttrIndex(attr) && |pages| >= 3
      modifies this
      ensures Valid() && |pages| >= old(|pages|) - 3
      ensures Translated(g, mem, pgd, va) == Found(entry, mem(entry))
      ensures old(Translated(g, mem, pgd, va)) == Missing ==> mem(entry) == DescriptorFor(g, pa, attr)
      ensures old(Translated(g, mem, pgd, va)) != Missing ==> mem == old(mem)
      ensures OthersSame(g, old(mem), mem, pgd, va)
      ensures old(Translated(g, mem, pgd, va)) == Missing ==>
        PgWalk(g, mem, pgd, va, 4 - g.levels) == Found(entry, DescriptorFor(g, pa, attr))
      ensures old(Translated(g, mem, pgd, va)) == Missing && IsFull(g) ==> HardwareMaps(g, mem, pgd, va, pa)
      ensures IsFull(g) ==> HardwareKeeps(g, old(mem), mem, pgd, va)
      ensures Extends(old(owners), owners)
    {
      hide ValidGeometry, SamePage, PgWalk, Extends, HardwareKeeps, Tree;
      ghost var was, had, own := mem, pages, owners;
      entry := CreatePath(va, pa, attr);
      owners := CreationKeeps(g, was, own, had, pgd, va, pa, attr);
      if Translated(g, was, pgd, va) == Missing {
        FreshLeafKind(g, pa, attr);
        FoundByBoth(g, mem, pgd, va, entry, mem(entry));
        if IsFull(g) {
          LeafIsMapped(g, mem, pgd, va, entry, mem(entry));
        }
      }
      if IsFull(g) {
        HardwareKept(g, was, own, mem, owners, pgd, va);
      }
    }

    // After a creation on an unmapped page, pgtable_entry finds the same leaf.
    method CreateThenFind(va: Addr, pa: Addr, attr: Addr) returns (entry: Addr, found: Addr)
      requires Valid() && IsPage(g, pa) && IsAttrIndex(attr) && |pages| >= 3
      requires Translated(g, mem, pgd, va) == Missing
      modifies this
      ensures Valid() && found == entry && mem(entry) == DescriptorFor(g, pa, attr)
      ensures OthersSame(g, old(mem), mem, pgd, va)
    {
      entry := GetOrCreatePte(va, pa, attr);
      found := PgtableEntry(va);
    }

    // One round of the mapping loop.
    method MapPage(startVa: Addr, startPa: Addr, off: nat, attr: Addr, ghost n: nat, ghost i: nat, ghost was: Memory)
      requires Valid() && IsAttrIndex(attr) && i < n && off == Pages(g, i) && |pages| >= 3
      requires IsRange(g, startVa, n) && IsPhysicalRange(g, startPa, n)
      requires RangeState(g, was, mem, pgd, startVa, startPa, attr, n, i)
      modifies this
      ensures Valid() && |pages| >= old(|pages|) - 3 && Extends(old(owners), owners)
      ensures RangeState(g, was, mem, pgd, startVa, startPa, attr, n, i + 1)
    {
      hide MmuOf, Translated, Walk, TotalBits, OutOfRange, CellsApart, PageSize, PgWalk, Linear, Pow2, TopBlock, Shr, Laws;
      RangePage(g, startVa, n, i);
      PageOfRange(g, startPa, n, i);
      ghost var before := mem;
      var va, pa := startVa + off, startPa + off;
      assert va == PageAt(g, startVa, n, i);
      assert Translated(g, mem, pgd, va) == Missing;
      var entry := GetOrCreatePte(va, pa, attr);
      ghost var between := mem;
      FinalLeafBits(g, pa, attr);
      FinalLeafMaps(g, pa, attr);
      DescriptorValue(g, pa, attr);
      LeafSet(g, mem, owners, pgd, va, entry, FinalLeaf(pa, attr));
      mem := Put(mem, entry, Writable(mem(entry)));
      RangeStep(g, was, before, between, mem, pgd, startVa, startPa, attr, n, i);
    }

    // The mapping loop of _paging_init, over a range of pages that is not mapped yet.
    method MapRange(startVa: Addr, startPa: Addr, size: nat, attr: Addr, ghost n: nat)
      requires Valid() && IsAttrIndex(attr)
      requires NeedsPages(g, size, n)
      requires IsRange(g, startVa, n) && IsPhysicalRange(g, startPa, n)
      requires |pages| >= 3 * n
      requires forall k: nat {:trigger PageAt(g, startVa, n, k)} :: k < n ==>
        Translated(g, mem, pgd, PageAt(g, startVa, n, k)) == Missing
      modifies this
      ensures Valid()
      ensures forall k: nat {:trigger PageAt(g, startVa, n, k)} :: k < n ==>
        MapsTo(g, mem, pgd, PageAt(g, startVa, n, k), startPa + Pages(g, k), attr)
        && PgWalk(g, mem, pgd, PageAt(g, startVa, n, k), 4 - g.levels) == Translated(g, mem, pgd, PageAt(g, startVa, n, k))
        && (IsFull(g) ==> HardwareMaps(g, mem, pgd, PageAt(g, startVa, n, k), startPa + Pages(g, k)))
      ensures forall x: Addr {:trigger Translated(g, mem, pgd, x)} ::
        OutOfRange(g, startVa, n, x) ==> Translated(g, mem, pgd, x) == Translated(g, old(mem), pgd, x)
      ensures IsFull(g) ==> HardwareKeepsOutside(g, old(mem), mem, pgd, startVa, n)
    {
      hide *;
      ValidParts();
      NextPages(g, 0);
      RangeStart(g, mem, pgd, startVa, startPa, attr, n);
      ghost var was, own := mem, owners;
      TreeParts();
      var off := 0;
      ghost var i := 0;
      while off < size
        invariant i <= n && off == Pages(g, i) && Valid() && |pages| >= 3 * (n - i)
        invariant Extends(own, owners)
        invariant RangeState(g, was, mem, pgd, startVa, startPa, attr, n, i)
        decreases n - i
      {
        StillInRange(g, size, n, i);
        NextPages(g, i);
        ghost var mid := owners;
        MapPage(startVa, startPa, off, attr, n, i, was);
        ExtendsSteps(own, mid, owners);
        off := off + PageSize(g);
        i := i + 1;
      }
      RangeDone(g, size, n, i);
      RangeMapped(g, was, mem, pgd, startVa, startPa, attr, n);
      if IsFull(g) {
        HardwareKeptOutside(was, own, startVa, startPa, attr, n);
      }
    }

    lemma HardwareKeptOutside(was: Memory, own: Owners, startVa: Addr, startPa: Addr, attr: Addr, n: nat)
      requires Valid() && IsFull(g) && IsRange(g, startVa, n) && RangeState(g, was, mem, pgd, startVa, startPa, attr, n, n)
      requires Tree(MmuOf(g), was, own) && Extends(own, owners) && pgd in own && own[pgd] == []
      ensures HardwareKeepsOutside(g, was, mem, pgd, startVa, n)
    {
      hide Translate, Laws, Tree, MmuOf, RegimeOf, Physical, Walk, Extends, OutOfRange, Fresh;
      forall x: Addr | OutOfRange(g, startVa, n, x)
        ensures Translate(RegimeOf(g), Physical(g, mem), pgd, x) == Translate(RegimeOf(g), Physical(g, was), pgd, x)
      {
        assert Translated(g, mem, pgd, x) == Translated(g, was, pgd, x);
        SameTranslation(g, was, own, mem, owners, pgd, x);
      }
    }

    // modify_entry_kernel: one entry, or the contiguous group of sixteen it lies in.
    method ModifyEntry(entry: Addr, value: Addr)
      requires ValidGeometry(g) && entry % 8 == 0
      modifies this`mem
      ensures !IsContiguous(old(mem)(entry)) && !IsContiguous(value) ==> mem == Put(old(mem), entry, value)
      ensures IsContiguous(old(mem)(entry)) || IsContiguous(value) ==>
        mem(entry) == value
        && forall c: Addr {:trigger mem(c)} :: c != entry ==>
             if InGroup(entry, c)
             then AddressIn(g, mem(c)) == AddressIn(g, old(mem)(c)) && ProtectionOf(g, mem(c)) == ProtectionOf(g, value)
             else mem(c) == old(mem)(c)
    {
      hide Reprotected, ProtectionOf, AddressIn, IsContiguous, InGroup, Among;
      if !IsContiguous(mem(entry)) && !IsContiguous(value) {
        mem := Put(mem, entry, value);
        return;
      }
      ghost var was := mem;
      var prot := ProtectionOf(g, value);
      var first := entry - entry % 128;
      var i: nat := 0;
      forall c: Addr ensures !Among(first, 0, c) { AmongNext(entry, first, 0, c); }
      while i < 16
        invariant i <= 16
        invariant forall c: Addr {:trigger mem(c)} :: mem(c) == if Among(first, i, c) then Reprotected(g, was(c), prot) else was(c)
        modifies this`mem
      {
        AmongNext(entry, first, i, first);
        var p := first + 8 * i;
        forall c: Addr ensures Among(first, i + 1, c) <==> (Among(first, i, c) || c == p) { AmongNext(entry, first, i, c); }
        AmongNext(entry, first, i, p);
        mem := Put(mem, p, Reprotected(g, mem(p), prot));
        i := i + 1;
      }
      mem := Put(mem, entry, value);
      forall c: Addr {:trigger mem(c)} | c != entry
        ensures if InGroup(entry, c) then AddressIn(g, mem(c)) == AddressIn(g, was(c)) && ProtectionOf(g, mem(c)) == prot
                else mem(c) == was(c)
      {
        AmongAll(entry, first, c);
        ReprotectKeepsAddress(g, was(c), value);
      }
    }
  }

  // The cells of the first i entries from first on.
  predicate Among(first: Addr, i: nat, c: Addr) {
    first <= c < first + 8 * i && c % 8 == 0
  }

  lemma AmongNext(entry: Addr, first: Addr, i: nat, c: Addr)
    requires entry % 8 == 0 && first == entry - entry % 128 && i < 16
    ensures first + 8 * i < 0x1_0000_0000_0000_0000 && !Among(first, 0, c) && !Among(first, i, first + 8 * i)
    ensures Among(first, i + 1, c) <==> (Among(first, i, c) || c == first + 8 * i)
  {
    var k := entry / 128;
    assert first == 128 * k;
    if first + 8 * i <= c < first + 8 * i + 8 && c % 8 == 0 {
      assert c == 8 * (c / 8);
      assert 16 * k + i <= c / 8 < 16 * k + i + 1;
    }
  }

  lemma AmongAll(entry: Addr, first: Addr, c: Addr)
    requires first == entry - entry % 128
    ensures Among(first, 16, c) <==> InGroup(entry, c)
  {
  }

  // The results about creations, for the concrete tables.
  lemma CreationKeeps(g: Geometry, mem: Memory, owners: Owners, pages: seq<Addr>, pgd: Addr, va: Addr, pa: Addr, attr: Addr)
    returns (more: Owners)
    requires ValidGeometry(g) && Laws(MmuOf(g)) && Tree(MmuOf(g), mem, owners) && Fresh(MmuOf(g), owners, pages)
    requires pgd in owners && owners[pgd] == [] && IsPage(g, pgd) && IsPage(g, pa) && IsAttrIndex(attr) && |pages| >= 3
    ensures var r := Create(MmuOf(g), mem, pages, pgd, va, pa, attr, 4 - g.levels);
      && Tree(MmuOf(g), r.mem, more) && Fresh(MmuOf(g), more, r.pages) && |r.pages| >= |pages| - 3
      && pgd in more && more[pgd] == [] && Extends(owners, more)
      && Translated(g, r.mem, pgd, va) == Found(r.cell, r.mem(r.cell))
      && (Translated(g, mem, pgd, va) == Missing ==> r.mem(r.cell) == DescriptorFor(g, pa, attr))
      && (Translated(g, mem, pgd, va) != Missing ==> r.mem == mem)
      && OthersSame(g, mem, r.mem, pgd, va)
  {
    hide IsAttrIndex;
    var m, first := MmuOf(g), 4 - g.levels;
    assert OnPath(m, owners, pgd, va, first);
    assert Ready(m, mem, owners, pages, pgd, va, pa, attr, first);
    CreatedIsFound(m, mem, owners, pages, pgd, va, pa, attr, first);
    more := TreeKept(m, mem, owners, pages, pgd, va, pa, attr, first);
    var r := Create(m, mem, pages, pgd, va, pa, attr, first);
    forall x: Addr {:trigger Translated(g, r.mem, pgd, x)} | !OnePage(g, va, x)
      ensures Translated(g, r.mem, pgd, x) == Translated(g, mem, pgd, x)
    {
      OthersKept(m, mem, owners, pages, pgd, va, pa, attr, first, pgd, x, first);
    }
    assert pgd in more;
  }

  // ------------------------------------------------------------- mapping a range

  // The length of k pages.
  function Pages(g: Geometry, k: nat): nat
    requires ValidGeometry(g)
  {
    k * PageSize(g)
  }

  lemma NextPages(g: Geometry, k: nat)
    requires ValidGeometry(g)
    ensures Pages(g, 0) == 0 && Pages(g, k + 1) == Pages(g, k) + PageSize(g)
  {
    assert (k + 1) * PageSize(g) == k * PageSize(g) + PageSize(g);
  }

  predicate IsPhysicalRange(g: Geometry, startPa: Addr, n: nat)
    requires ValidGeometry(g)
  {
    startPa % PageSize(g) == 0 && startPa + Pages(g, n) <= 0x1_0000_0000_0000
  }

  // n pages are enough for size bytes, and one less is not.
  predicate NeedsPages(g: Geometry, size: nat, n: nat)
    requires ValidGeometry(g)
  {
    size <= Pages(g, n) && (n > 0 ==> Pages(g, n - 1) < size) && (n == 0 ==> size == 0)
  }

  // Address of page k of a range.
  function PageAt(g: Geometry, start: Addr, n: nat, k: nat): Addr
    requires ValidGeometry(g) && IsRange(g, start, n) && k < n
  {
    RangePage(g, start, n, k);
    start + Pages(g, k)
  }

  // va is translated to physical page pa: writable, with execution left to EL1.
  ghost predicate MapsTo(g: Geometry, mem: Memory, pgd: Addr, va: Addr, pa: nat, attr: Addr)
    requires ValidGeometry(g)
  {
    Translated(g, mem, pgd, va).Found? && Translated(g, mem, pgd, va).desc == FinalLeaf(pa, attr)
  }

  // After i pages: those are mapped, the others of the range are not, and
  // everything outside the range is as it was.
  ghost predicate RangeState(g: Geometry, was: Memory, now: Memory, pgd: Addr, startVa: Addr, startPa: Addr, attr: Addr,
      n: nat, i: nat)
    requires ValidGeometry(g) && IsRange(g, startVa, n)
  {
    && (forall k: nat {:trigger PageAt(g, startVa, n, k)} :: k < n ==>
          if k < i then MapsTo(g, now, pgd, PageAt(g, startVa, n, k), startPa + Pages(g, k), attr)
          else Translated(g, now, pgd, PageAt(g, startVa, n, k)) == Missing)
    && (forall x: Addr {:trigger Translated(g, now, pgd, x)} :: OutOfRange(g, startVa, n, x) ==>
          Translated(g, now, pgd, x) == Translated(g, was, pgd, x))
  }

  ghost predicate OutOfRange(g: Geometry, start: Addr, n: nat, x: Addr)
    requires ValidGeometry(g) && IsRange(g, start, n)
  {
    forall k: nat {:trigger PageAt(g, start, n, k)} :: k < n ==> !OnePage(g, PageAt(g, start, n, k), x)
  }

  // The processor translates every address outside the range as before.
  ghost predicate HardwareKeepsOutside(g: Geometry, was: Memory, now: Memory, pgd: Addr, start: Addr, n: nat)
    requires ValidGeometry(g) && IsFull(g) && IsRange(g, start, n)
  {
    forall x: Addr {:trigger Translate(RegimeOf(g), Physical(g, now), pgd, x)} :: OutOfRange(g, start, n, x) ==>
      Translate(RegimeOf(g), Physical(g, now), pgd, x) == Translate(RegimeOf(g), Physical(g, was), pgd, x)
  }

  lemma ExtendsSteps(a: Owners, b: Owners, c: Owners)
    requires Extends(a, b) && Extends(b, c)
    ensures Extends(a, c)
  {
    forall u | u in a ensures u in c && c[u] == a[u] {
      assert u in b && b[u] == a[u];
    }
  }

  // pgtable_entry finds the leaf of every page of the range.
  lemma MappedIsFound(g: Geometry, mem: Memory, pgd: Addr, startVa: Addr, startPa: Addr, attr: Addr, n: nat, k: nat)
    requires ValidGeometry(g) && IsRange(g, startVa, n) && k < n && IsPage(g, pgd) && IsAttrIndex(attr)
    requires IsPhysicalRange(g, startPa, n)
    requires MapsTo(g, mem, pgd, PageAt(g, startVa, n, k), startPa + Pages(g, k), attr)
    ensures PgWalk(g, mem, pgd, PageAt(g, startVa, n, k), 4 - g.levels) == Translated(g, mem, pgd, PageAt(g, startVa, n, k))
    ensures IsFull(g) ==> HardwareMaps(g, mem, pgd, PageAt(g, startVa, n, k), startPa + Pages(g, k))
  {
    hide Fls, Shr, Shl, Pow2, And, Or, Bit;
    PageOfRange(g, startPa, n, k);
    FinalLeafMaps(g, startPa + Pages(g, k), attr);
    var w := Translated(g, mem, pgd, PageAt(g, startVa, n, k));
    FoundByBoth(g, mem, pgd, PageAt(g, startVa, n, k), w.cell, w.desc);
    if IsFull(g) {
      LeafIsMapped(g, mem, pgd, PageAt(g, startVa, n, k), w.cell, w.desc);
    }
  }

  lemma FreshLeafKind(g: Geometry, pa: Addr, attr: Addr)
    requires ValidGeometry(g) && IsPage(g, pa) && IsAttrIndex(attr)
    ensures KindOf(DescriptorFor(g, pa, attr)) == Table && AddressIn(g, DescriptorFor(g, pa, attr)) == pa
  {
    hide Fls, Shr, Shl, Pow2, And, Or, Bit;
    Descriptor(g, pa, attr);
  }

  lemma StillInRange(g: Geometry, size: nat, n: nat, i: nat)
    requires ValidGeometry(g) && NeedsPages(g, size, n) && i <= n && Pages(g, i) < size
    ensures i < n
  {
  }

  lemma PageOfRange(g: Geometry, startPa: Addr, n: nat, i: nat)
    requires ValidGeometry(g) && IsPhysicalRange(g, startPa, n) && i < n
    ensures startPa + Pages(g, i) < 0x1_0000_0000_0000 && IsPage(g, startPa + Pages(g, i))
  {
    var p, k := PageSize(g), startPa / PageSize(g);
    TimesMonotone(p, i + 1, n);
    assert startPa == p * k;
    assert startPa + i * p == (k + i) * p;
    DivModUnique(startPa + i * p, p, k + i, 0);
  }

  // Rewriting the leaf of a page changes that page's descriptor only.
  lemma LeafSet(g: Geometry, mem: Memory, owners: Owners, pgd: Addr, va: Addr, entry: Addr, v: nat)
    requires ValidGeometry(g) && Laws(MmuOf(g)) && Tree(MmuOf(g), mem, owners)
    requires pgd in owners && owners[pgd] == [] && IsPage(g, pgd)
    requires Translated(g, mem, pgd, va) == Found(entry, mem(entry)) && KindOf(mem(entry)) == Table
    requires v < 0x1_0000_0000_0000_0000 && v % 4 == 3
    ensures Tree(MmuOf(g), Put(mem, entry, v), owners)
    ensures Translated(g, Put(mem, entry, v), pgd, va) == Found(entry, v)
    ensures OthersSame(g, mem, Put(mem, entry, v), pgd, va)
  {
    hide Laws, SamePage, Walk;
    var m, first := MmuOf(g), 4 - g.levels;
    assert OnPath(m, owners, pgd, va, first);
    var leaf := LeafOnPath(m, mem, owners, pgd, va, first);
    LeafWriteKeepsTree(m, mem, owners, leaf, va, v);
    LeafRewritten(m, mem, owners, pgd, va, first, leaf, v);
    var now := Put(mem, entry, v);
    forall x: Addr {:trigger Translated(g, now, pgd, x)} | !OnePage(g, va, x)
      ensures Translated(g, now, pgd, x) == Translated(g, mem, pgd, x)
    {
      LeafWriteKeeps(m, mem, owners, leaf, va, v, pgd, x, first);
    }
  }

  lemma RangeStart(g: Geometry, mem: Memory, pgd: Addr, startVa: Addr, startPa: Addr, attr: Addr, n: nat)
    requires ValidGeometry(g) && IsRange(g, startVa, n)
    requires forall k: nat {:trigger PageAt(g, startVa, n, k)} :: k < n ==>
      Translated(g, mem, pgd, PageAt(g, startVa, n, k)) == Missing
    ensures RangeState(g, mem, mem, pgd, startVa, startPa, attr, n, 0)
  {
  }

  // What the state after all pages says of the range.
  lemma RangeMapped(g: Geometry, was: Memory, now: Memory, pgd: Addr, startVa: Addr, startPa: Addr, attr: Addr, n: nat)
    requires ValidGeometry(g) && IsRange(g, startVa, n) && IsPage(g, pgd) && IsAttrIndex(attr) && IsPhysicalRange(g, startPa, n)
    requires RangeState(g, was, now, pgd, startVa, startPa, attr, n, n)
    ensures forall k: nat {:trigger PageAt(g, startVa, n, k)} :: k < n ==>
      MapsTo(g, now, pgd, PageAt(g, startVa, n, k), startPa + Pages(g, k), attr)
      && PgWalk(g, now, pgd, PageAt(g, startVa, n, k), 4 - g.levels) == Translated(g, now, pgd, PageAt(g, startVa, n, k))
      && (IsFull(g) ==> HardwareMaps(g, now, pgd, PageAt(g, startVa, n, k), startPa + Pages(g, k)))
    ensures forall x: Addr {:trigger Translated(g, now, pgd, x)} ::
      OutOfRange(g, startVa, n, x) ==> Translated(g, now, pgd, x) == Translated(g, was, pgd, x)
  {
    forall k: nat {:trigger PageAt(g, startVa, n, k)} | k < n
      ensures PgWalk(g, now, pgd, PageAt(g, startVa, n, k), 4 - g.levels) == Translated(g, now, pgd, PageAt(g, startVa, n, k))
      ensures IsFull(g) ==> HardwareMaps(g, now, pgd, PageAt(g, startVa, n, k), startPa + Pages(g, k))
    {
      MappedIsFound(g, now, pgd, startVa, startPa, attr, n, k);
    }
  }

  lemma RangeStep(g: Geometry, was: Memory, before: Memory, between: Memory, now: Memory, pgd: Addr, startVa: Addr,
      startPa: Addr, attr: Addr, n: nat, i: nat)
    requires ValidGeometry(g) && IsRange(g, startVa, n) && i < n
    requires RangeState(g, was, before, pgd, startVa, startPa, attr, n, i)
    requires OthersSame(g, before, between, pgd, PageAt(g, startVa, n, i))
    requires OthersSame(g, between, now, pgd, PageAt(g, startVa, n, i))
    requires MapsTo(g, now, pgd, PageAt(g, startVa, n, i), startPa + Pages(g, i), attr)
    ensures RangeState(g, was, now, pgd, startVa, startPa, attr, n, i + 1)
  {
    hide Walk, MmuOf, Translated, ValidGeometry;
    var here := PageAt(g, startVa, n, i);
    forall k: nat {:trigger PageAt(g, startVa, n, k)} | k < n && k != i
      ensures Translated(g, now, pgd, PageAt(g, startVa, n, k)) == Translated(g, before, pgd, PageAt(g, startVa, n, k))
    {
      var x := PageAt(g, startVa, n, k);
      assert !OnePage(g, here, x) by { PagesOfRangeDiffer(g, startVa, n, i, k); }
      assert Translated(g, now, pgd, x) == Translated(g, between, pgd, x);
    }
    forall x: Addr {:trigger Translated(g, now, pgd, x)} | OutOfRange(g, startVa, n, x)
      ensures Translated(g, now, pgd, x) == Translated(g, was, pgd, x)
    {
      assert !OnePage(g, here, x);
      assert Translated(g, now, pgd, x) == Translated(g, between, pgd, x);
      assert Translated(g, between, pgd, x) == Translated(g, before, pgd, x);
    }
  }

  lemma PagesOfRangeDiffer(g: Geometry, start: Addr, n: nat, i: nat, k: nat)
    requires ValidGeometry(g) && IsRange(g, start, n) && i < n && k < n && i != k
    ensures !OnePage(g, PageAt(g, start, n, i), PageAt(g, start, n, k))
  {
    if OnePage(g, PageAt(g, start, n, i), PageAt(g, start, n, k)) {
      RangePagesDiffer(g, start, n, i, k);
    }
  }

  lemma RangeDone(g: Geometry, size: nat, n: nat, i: nat)
    requires ValidGeometry(g) && NeedsPages(g, size, n) && i <= n && Pages(g, i) >= size
    ensures i == n
  {
    if i < n {
      TimesMonotone(PageSize(g), i, n - 1);
    }
  }
}
