// Walking and creating the translation tables, for any way of numbering entries
// and of packing addresses into descriptors that obeys a few laws.
module PageWalks {

  type Addr = a: nat | a < 0x1_0000_0000_0000_0000
  // Memory as 64-bit cells.
  type Memory = Addr -> Addr

  datatype Kind = Table | Block | Invalid

  // levels and pointers per table; kind of a descriptor, index of an address at a level, cell of an
  // entry, address in a descriptor, descriptor for a page, tables and pages, and
  // the cells of a page.
  datatype Mmu = Mmu(
    levels: nat,
    pointers: nat,
    kind: Addr -> Kind,
    index: (Addr, nat) -> nat,
    entry: (Addr, nat) -> Addr,
    address: Addr -> Addr,
    make: (Addr, Addr) -> Addr,
    isPage: Addr -> bool,
    inPage: (Addr, Addr) -> bool)

  // AttrIndx[2:0] of a descriptor
  predicate IsAttrIndex(attr: Addr) {
    attr < 32 && attr % 4 == 0
  }

  predicate EntriesApart(m: Mmu, t: Addr, i: nat, u: Addr, j: nat) {
    m.isPage(t) && m.isPage(u) && i < m.pointers && j < m.pointers && m.entry(t, i) == m.entry(u, j) ==> t == u && i == j
  }

  predicate Makes(m: Mmu, pa: Addr, attr: Addr) {
    m.isPage(pa) && IsAttrIndex(attr) ==> m.kind(m.make(pa, attr)) == Table && m.address(m.make(pa, attr)) == pa
  }

  predicate CellsApart(m: Mmu, page: Addr, u: Addr, i: nat) {
    m.isPage(page) && m.isPage(u) && i < m.pointers ==> (m.inPage(page, m.entry(u, i)) <==> u == page)
  }

  ghost predicate Laws(m: Mmu) {
    && 1 <= m.levels <= 4
    && m.kind(0) == Invalid
    && (forall va: Addr, lv: nat {:trigger m.index(va, lv)} :: m.index(va, lv) < m.pointers)
    && (forall d: Addr {:trigger m.address(d)} :: m.isPage(m.address(d)))
    && (forall t: Addr, i: nat, u: Addr, j: nat {:trigger EntriesApart(m, t, i, u, j)} :: EntriesApart(m, t, i, u, j))
    && (forall pa: Addr, attr: Addr {:trigger Makes(m, pa, attr)} :: Makes(m, pa, attr))
    && (forall page: Addr, u: Addr, i: nat {:trigger CellsApart(m, page, u, i)} :: CellsApart(m, page, u, i))
  }

  // ------------------------------------------------------------------------ walks

  // The descriptor that translates an address, and its cell.
  datatype Walked = Found(cell: Addr, desc: Addr) | Missing

  // pgtable_entry from level lv on: table descriptors are followed, a block or a
  // page ends the walk, an invalid descriptor fails it.
  function Walk(m: Mmu, mem: Memory, table: Addr, va: Addr, lv: nat): Walked
    requires lv < 4
    decreases 4 - lv
  {
    var cell := m.entry(table, m.index(va, lv));
    var desc := mem(cell);
    if m.kind(desc) == Invalid then Missing
    else if m.kind(desc) == Block || lv == 3 then Found(cell, desc)
    else Walk(m, mem, m.address(desc), va, lv + 1)
  }

  function Put(mem: Memory, a: Addr, v: Addr): Memory {
    x => if x == a then v else mem(x)
  }

  // A page filled with zeros.
  function Zeroed(m: Mmu, mem: Memory, page: Addr): Memory {
    x => if m.inPage(page, x) then 0 else mem(x)
  }

  // A new table hung into a cell.
  function Link(m: Mmu, mem: Memory, cell: Addr, page: Addr, attr: Addr): Memory {
    Zeroed(m, Put(mem, cell, m.make(page, attr)), page)
  }

  datatype Created = Created(mem: Memory, pages: seq<Addr>, cell: Addr)

  // get_or_create_pte from level lv on; pages are the pages that the allocator
  // hands out next.
  function Create(m: Mmu, mem: Memory, pages: seq<Addr>, table: Addr, va: Addr, pa: Addr, attr: Addr, lv: nat): Created
    requires lv < 4 && |pages| >= 3 - lv
    decreases 4 - lv
  {
    var cell := m.entry(table, m.index(va, lv));
    var desc := mem(cell);
    if m.kind(desc) == Table then
      if lv == 3 then Created(mem, pages, cell)
      else Create(m, mem, pages, m.address(desc), va, pa, attr, lv + 1)
    else if m.kind(desc) == Block then Created(mem, pages, cell)
    else if lv == 3 then
      Created(Put(mem, cell, m.make(pa, attr)), pages, cell)
    else
      Create(m, Link(m, mem, cell, pages[0], attr), pages[1..], pages[0], va, pa, attr, lv + 1)
  }

  // ------------------------------------------------------- the tree of the tables

  // The indices that lead an address to its table at level lv.
  function Prefix(m: Mmu, va: Addr, lv: nat): (p: seq<nat>)
    requires m.levels <= 4 && 4 - m.levels <= lv <= 4
    ensures |p| == lv - (4 - m.levels)
  {
    if lv == 4 - m.levels then [] else Prefix(m, va, lv - 1) + [m.index(va, lv - 1)]
  }

  predicate SamePage(m: Mmu, va: Addr, va': Addr)
    requires m.levels <= 4
  {
    Prefix(m, va, 4) == Prefix(m, va', 4)
  }

  // Every table belongs to one sequence of indices.
  type Owners = map<Addr, seq<nat>>

  ghost predicate Tree(m: Mmu, mem: Memory, owners: Owners)
  {
    && (forall t {:trigger m.isPage(t)} :: t in owners ==> m.isPage(t) && |owners[t]| < m.levels)
    && (forall t, i: nat {:trigger Linked(m, mem, owners, t, i)} :: t in owners && m.isPage(t) && i < m.pointers
          ==> Linked(m, mem, owners, t, i))
  }

  // A table descriptor leads to the table that its position owns.
  ghost predicate Linked(m: Mmu, mem: Memory, owners: Owners, t: Addr, i: nat)
    requires t in owners
  {
    var desc := mem(m.entry(t, i));
    |owners[t]| + 1 < m.levels && m.kind(desc) == Table ==>
      m.address(desc) in owners && owners[m.address(desc)] == owners[t] + [i]
  }

  // A first table that is all zeros.
  lemma EmptyTree(m: Mmu, mem: Memory, pgd: Addr)
    requires Laws(m) && m.isPage(pgd)
    ensures Tree(m, Zeroed(m, mem, pgd), map[pgd := []])
  {
    forall i: nat | i < m.pointers
      ensures Linked(m, Zeroed(m, mem, pgd), map[pgd := []], pgd, i)
    {
      assert CellsApart(m, pgd, pgd, i);
    }
  }

  // The pages still to be handed out are pages of their own.
  predicate Fresh(m: Mmu, owners: Owners, pages: seq<Addr>)
  {
    && (forall i {:trigger pages[i]} :: 0 <= i < |pages| ==> m.isPage(pages[i]) && pages[i] !in owners)
    && (forall i, j {:trigger pages[i], pages[j]} :: 0 <= i < j < |pages| ==> pages[i] != pages[j])
  }

  // The table that the walk of va reads at level lv.
  ghost predicate OnPath(m: Mmu, owners: Owners, table: Addr, va: Addr, lv: nat)
    requires m.levels <= 4
  {
    table in owners && m.isPage(table) && 4 - m.levels <= lv < 4 && owners[table] == Prefix(m, va, lv)
  }

  // What a creation needs: a tree of tables, fresh pages, a place on the path.
  ghost predicate Ready(m: Mmu, mem: Memory, owners: Owners, pages: seq<Addr>, table: Addr, va: Addr, pa: Addr,
      attr: Addr, lv: nat)
  {
    && Laws(m) && Tree(m, mem, owners) && Fresh(m, owners, pages)
    && OnPath(m, owners, table, va, lv)
    && m.isPage(pa) && IsAttrIndex(attr) && |pages| >= 3 - lv
  }

  // ------------------------------------------------------------------ single writes

  // A cell of the path of va is read by another walk at the same place only.
  lemma CellPlace(m: Mmu, owners: Owners, t: Addr, va: Addr, lv: nat, u: Addr, va': Addr, lv': nat)
    requires Laws(m) && OnPath(m, owners, t, va, lv) && OnPath(m, owners, u, va', lv')
    requires m.entry(t, m.index(va, lv)) == m.entry(u, m.index(va', lv'))
    ensures t == u && lv == lv' && Prefix(m, va, lv + 1) == Prefix(m, va', lv' + 1)
  {
    assert EntriesApart(m, t, m.index(va, lv), u, m.index(va', lv'));
  }

  lemma LeafPlace(m: Mmu, owners: Owners, t: Addr, va: Addr, u: Addr, va': Addr, lv: nat)
    requires Laws(m) && OnPath(m, owners, t, va, 3) && OnPath(m, owners, u, va', lv) && !SamePage(m, va, va')
    ensures m.entry(t, m.index(va, 3)) != m.entry(u, m.index(va', lv))
  {
    assert EntriesApart(m, t, m.index(va, 3), u, m.index(va', lv));
  }

  lemma NextOnPath(m: Mmu, mem: Memory, owners: Owners, t: Addr, va: Addr, lv: nat)
    requires Laws(m) && Tree(m, mem, owners) && OnPath(m, owners, t, va, lv) && lv < 3
    requires m.kind(mem(m.entry(t, m.index(va, lv)))) == Table
    ensures OnPath(m, owners, m.address(mem(m.entry(t, m.index(va, lv)))), va, lv + 1)
  {
    assert Linked(m, mem, owners, t, m.index(va, lv));
  }

  // The cases of a walk.
  lemma WalkEnds(m: Mmu, mem: Memory, u: Addr, va: Addr, lv: nat)
    requires lv < 4
    requires m.kind(mem(m.entry(u, m.index(va, lv)))) == Invalid
    ensures Walk(m, mem, u, va, lv) == Missing
  {
  }

  lemma WalkFollows(m: Mmu, mem: Memory, u: Addr, va: Addr, lv: nat, next: Addr)
    requires lv < 3 && m.kind(mem(m.entry(u, m.index(va, lv)))) == Table
    requires next == m.address(mem(m.entry(u, m.index(va, lv))))
    ensures Walk(m, mem, u, va, lv) == Walk(m, mem, next, va, lv + 1)
  {
  }

  lemma WalkHits(m: Mmu, mem: Memory, u: Addr, va: Addr, lv: nat)
    requires lv < 4 && m.kind(mem(m.entry(u, m.index(va, lv)))) != Invalid && (lv == 3 || m.kind(mem(m.entry(u, m.index(va, lv)))) == Block)
    ensures Walk(m, mem, u, va, lv) == Found(m.entry(u, m.index(va, lv)), mem(m.entry(u, m.index(va, lv))))
  {
  }

  // Walks that read the same descriptor and go on alike.
  lemma WalkSame(m: Mmu, mem: Memory, mem': Memory, u: Addr, va: Addr, lv: nat)
    requires lv < 4
    requires var cell := m.entry(u, m.index(va, lv));
      mem'(cell) == mem(cell) &&
      (lv < 3 && m.kind(mem(cell)) == Table ==>
        Walk(m, mem', m.address(mem(cell)), va, lv + 1) == Walk(m, mem, m.address(mem(cell)), va, lv + 1))
    ensures Walk(m, mem', u, va, lv) == Walk(m, mem, u, va, lv)
  {
    var desc := mem(m.entry(u, m.index(va, lv)));
    if m.kind(desc) == Invalid {
      WalkEnds(m, mem, u, va, lv);
      WalkEnds(m, mem', u, va, lv);
    } else if lv == 3 || m.kind(desc) == Block {
      WalkHits(m, mem, u, va, lv);
      WalkHits(m, mem', u, va, lv);
    } else {
      WalkFollows(m, mem, u, va, lv, m.address(desc));
      WalkFollows(m, mem', u, va, lv, m.address(desc));
    }
  }

  // Writing the last cell of va's path leaves the walks of other pages alone.
  lemma {:induction false} LeafWriteKeeps(m: Mmu, mem: Memory, owners: Owners, t: Addr, va: Addr, v: Addr,
      u: Addr, va': Addr, lv: nat)
    requires Laws(m) && Tree(m, mem, owners) && OnPath(m, owners, t, va, 3)
    requires OnPath(m, owners, u, va', lv) && !SamePage(m, va, va')
    ensures Walk(m, Put(mem, m.entry(t, m.index(va, 3)), v), u, va', lv) == Walk(m, mem, u, va', lv)
    decreases 4 - lv
  {
    var cell := m.entry(u, m.index(va', lv));
    var now := Put(mem, m.entry(t, m.index(va, 3)), v);
    assert m.entry(t, m.index(va, 3)) != cell by { LeafPlace(m, owners, t, va, u, va', lv); }
    if lv < 3 && m.kind(mem(cell)) == Table {
      NextOnPath(m, mem, owners, u, va', lv);
      LeafWriteKeeps(m, mem, owners, t, va, v, m.address(mem(cell)), va', lv + 1);
    }
    WalkSame(m, mem, now, u, va', lv);
  }

  // What the memory holds after a table has been hung in.
  lemma LinkReads(m: Mmu, mem: Memory, cell: Addr, page: Addr, attr: Addr, u: Addr, i: nat)
    requires Laws(m) && m.isPage(page) && IsAttrIndex(attr) && m.isPage(u) && i < m.pointers
    ensures Link(m, mem, cell, page, attr)(m.entry(u, i)) ==
      if u == page then 0 else if m.entry(u, i) == cell then m.make(page, attr) else mem(m.entry(u, i))
  {
    assert CellsApart(m, page, u, i);
    assert Makes(m, page, attr);
  }

  // Through a cell with an empty table in it nothing is found either.
  lemma LinkIsEmpty(m: Mmu, mem: Memory, t: Addr, va: Addr, lv: nat, page: Addr, attr: Addr)
    requires Laws(m) && m.isPage(t) && lv < 3 && m.isPage(page) && page != t && IsAttrIndex(attr)
    ensures Walk(m, Link(m, mem, m.entry(t, m.index(va, lv)), page, attr), t, va, lv) == Missing
  {
    var cell := m.entry(t, m.index(va, lv));
    var now := Link(m, mem, cell, page, attr);
    LinkReads(m, mem, cell, page, attr, t, m.index(va, lv));
    LinkReads(m, mem, cell, page, attr, page, m.index(va, lv + 1));
    assert Makes(m, page, attr);
    WalkFollows(m, now, t, va, lv, page);
    WalkEnds(m, now, page, va, lv + 1);
  }

  // Hanging an empty table into an invalid cell changes no translation.
  lemma {:induction false} LinkKeeps(m: Mmu, mem: Memory, owners: Owners, t: Addr, va: Addr, lv: nat,
      page: Addr, attr: Addr, u: Addr, va': Addr, lv': nat)
    requires Laws(m) && Tree(m, mem, owners) && OnPath(m, owners, t, va, lv) && lv < 3
    requires m.kind(mem(m.entry(t, m.index(va, lv)))) == Invalid
    requires m.isPage(page) && page !in owners && IsAttrIndex(attr) && OnPath(m, owners, u, va', lv')
    ensures Walk(m, Link(m, mem, m.entry(t, m.index(va, lv)), page, attr), u, va', lv') == Walk(m, mem, u, va', lv')
    decreases 4 - lv'
  {
    var cell, cell' := m.entry(t, m.index(va, lv)), m.entry(u, m.index(va', lv'));
    var now := Link(m, mem, cell, page, attr);
    if cell == cell' {
      CellPlace(m, owners, t, va, lv, u, va', lv');
      LinkIsEmpty(m, mem, u, va', lv', page, attr);
      WalkEnds(m, mem, u, va', lv');
    } else {
      LinkReads(m, mem, cell, page, attr, u, m.index(va', lv'));
      if lv' < 3 && m.kind(mem(cell')) == Table {
        NextOnPath(m, mem, owners, u, va', lv');
        LinkKeeps(m, mem, owners, t, va, lv, page, attr, m.address(mem(cell')), va', lv' + 1);
      }
      WalkSame(m, mem, now, u, va', lv');
    }
  }

  lemma LinkKeepsTree(m: Mmu, mem: Memory, owners: Owners, t: Addr, va: Addr, lv: nat, page: Addr, attr: Addr)
    requires Laws(m) && Tree(m, mem, owners) && OnPath(m, owners, t, va, lv) && lv < 3
    requires m.isPage(page) && page !in owners && IsAttrIndex(attr)
    ensures Tree(m, Link(m, mem, m.entry(t, m.index(va, lv)), page, attr), owners[page := Prefix(m, va, lv + 1)])
  {
    var cell := m.entry(t, m.index(va, lv));
    var now, more := Link(m, mem, cell, page, attr), owners[page := Prefix(m, va, lv + 1)];
    forall u: Addr {:trigger m.isPage(u)} | u in more ensures m.isPage(u) && |more[u]| < m.levels {
      assert u != page ==> u in owners;
    }
    forall u, j: nat {:trigger Linked(m, now, more, u, j)} | u in more && m.isPage(u) && j < m.pointers
      ensures Linked(m, now, more, u, j)
    {
      LinkKeepsLinked(m, mem, owners, t, va, lv, page, attr, u, j);
    }
  }

  lemma LinkKeepsLinked(m: Mmu, mem: Memory, owners: Owners, t: Addr, va: Addr, lv: nat, page: Addr, attr: Addr,
      u: Addr, j: nat)
    requires Laws(m) && Tree(m, mem, owners) && OnPath(m, owners, t, va, lv) && lv < 3
    requires m.isPage(page) && page !in owners && IsAttrIndex(attr)
    requires (u == page || u in owners) && m.isPage(u) && j < m.pointers
    ensures Linked(m, Link(m, mem, m.entry(t, m.index(va, lv)), page, attr), owners[page := Prefix(m, va, lv + 1)], u, j)
  {
    var i := m.index(va, lv);
    var cell := m.entry(t, i);
    LinkReads(m, mem, cell, page, attr, u, j);
    if u != page {
      if m.entry(u, j) == cell {
        assert EntriesApart(m, t, i, u, j);
        assert Makes(m, page, attr);
      } else {
        assert Linked(m, mem, owners, u, j);
      }
    }
  }

  lemma LinkReady(m: Mmu, mem: Memory, owners: Owners, pages: seq<Addr>, t: Addr, va: Addr, pa: Addr, attr: Addr, lv: nat)
    requires Ready(m, mem, owners, pages, t, va, pa, attr, lv) && lv < 3
    ensures Ready(m, Link(m, mem, m.entry(t, m.index(va, lv)), pages[0], attr), owners[pages[0] := Prefix(m, va, lv + 1)],
                  pages[1..], pages[0], va, pa, attr, lv + 1)
  {
    LinkKeepsTree(m, mem, owners, t, va, lv, pages[0], attr);
    assert forall i {:trigger pages[1..][i]} :: 0 <= i < |pages| - 1 ==> pages[1..][i] == pages[i + 1];
  }

  // ------------------------------------------------------------------ the creation

  // The cases of a creation.
  lemma CreateFollows(m: Mmu, mem: Memory, pages: seq<Addr>, t: Addr, va: Addr, pa: Addr, attr: Addr, lv: nat)
    requires lv < 3 && |pages| >= 3 - lv
    requires m.kind(mem(m.entry(t, m.index(va, lv)))) == Table
    ensures Create(m, mem, pages, t, va, pa, attr, lv)
         == Create(m, mem, pages, m.address(mem(m.entry(t, m.index(va, lv)))), va, pa, attr, lv + 1)
  {
  }

  lemma CreateLinks(m: Mmu, mem: Memory, pages: seq<Addr>, t: Addr, va: Addr, pa: Addr, attr: Addr, lv: nat)
    requires lv < 3 && |pages| >= 3 - lv
    requires m.kind(mem(m.entry(t, m.index(va, lv)))) == Invalid
    ensures Create(m, mem, pages, t, va, pa, attr, lv)
         == Create(m, Link(m, mem, m.entry(t, m.index(va, lv)), pages[0], attr), pages[1..], pages[0], va, pa, attr, lv + 1)
  {
  }

  lemma CreateEnds(m: Mmu, mem: Memory, pages: seq<Addr>, t: Addr, va: Addr, pa: Addr, attr: Addr, lv: nat)
    requires lv < 4 && |pages| >= 3 - lv
    requires m.kind(mem(m.entry(t, m.index(va, lv)))) == Block || lv == 3
    ensures var cell := m.entry(t, m.index(va, lv));
      Create(m, mem, pages, t, va, pa, attr, lv)
        == Created(if m.kind(mem(cell)) == Invalid then Put(mem, cell, m.make(pa, attr)) else mem, pages, cell)
  {
  }

  // Valid descriptors of existing tables are not written.
  lemma {:induction false} EntryKept(m: Mmu, mem: Memory, owners: Owners, pages: seq<Addr>, t: Addr, va: Addr, pa: Addr,
      attr: Addr, lv: nat, u: Addr, i: nat)
    requires Ready(m, mem, owners, pages, t, va, pa, attr, lv)
    requires u in owners && m.isPage(u) && i < m.pointers && m.kind(mem(m.entry(u, i))) != Invalid
    ensures Create(m, mem, pages, t, va, pa, attr, lv).mem(m.entry(u, i)) == mem(m.entry(u, i))
    decreases 4 - lv
  {
    hide Create;
    var cell := m.entry(t, m.index(va, lv));
    if lv == 3 || m.kind(mem(cell)) == Block {
      CreateEnds(m, mem, pages, t, va, pa, attr, lv);
    } else if m.kind(mem(cell)) == Table {
      NextOnPath(m, mem, owners, t, va, lv);
      CreateFollows(m, mem, pages, t, va, pa, attr, lv);
      EntryKept(m, mem, owners, pages, m.address(mem(cell)), va, pa, attr, lv + 1, u, i);
    } else {
      LinkReady(m, mem, owners, pages, t, va, pa, attr, lv);
      LinkReads(m, mem, cell, pages[0], attr, u, i);
      CreateLinks(m, mem, pages, t, va, pa, attr, lv);
      var now := Link(m, mem, cell, pages[0], attr);
      assert now(m.entry(u, i)) == mem(m.entry(u, i));
      EntryKept(m, now, owners[pages[0] := Prefix(m, va, lv + 1)], pages[1..], pages[0], va, pa, attr, lv + 1, u, i);
    }
  }

  // What a creation promises: the walk finds the cell it returned; on a page that
  // was not mapped the descriptor there is the one asked for, otherwise nothing changed.
  ghost predicate Finds(m: Mmu, mem: Memory, pages: seq<Addr>, t: Addr, va: Addr, lv: nat, desc: Addr, r: Created)
    requires lv < 4
  {
    && Walk(m, r.mem, t, va, lv) == Found(r.cell, r.mem(r.cell))
    && (Walk(m, mem, t, va, lv) == Missing ==> r.mem(r.cell) == desc)
    && (Walk(m, mem, t, va, lv) != Missing ==> r.mem == mem && r.pages == pages)
  }

  lemma {:induction false} CreatedIsFound(m: Mmu, mem: Memory, owners: Owners, pages: seq<Addr>, t: Addr, va: Addr,
      pa: Addr, attr: Addr, lv: nat)
    requires Ready(m, mem, owners, pages, t, va, pa, attr, lv)
    ensures Finds(m, mem, pages, t, va, lv, m.make(pa, attr), Create(m, mem, pages, t, va, pa, attr, lv))
    decreases 4 - lv
  {
    var i := m.index(va, lv);
    var cell := m.entry(t, i);
    if lv == 3 || m.kind(mem(cell)) == Block {
      EndIsFound(m, mem, pages, t, va, pa, attr, lv);
    } else if m.kind(mem(cell)) == Table {
      var next := m.address(mem(cell));
      NextOnPath(m, mem, owners, t, va, lv);
      CreateFollows(m, mem, pages, t, va, pa, attr, lv);
      EntryKept(m, mem, owners, pages, next, va, pa, attr, lv + 1, t, i);
      CreatedIsFound(m, mem, owners, pages, next, va, pa, attr, lv + 1);
      FoundThroughTable(m, mem, pages, t, va, lv, next, m.make(pa, attr),
        Create(m, mem, pages, next, va, pa, attr, lv + 1));
    } else {
      LinkIsFound(m, mem, owners, pages, t, va, pa, attr, lv);
    }
  }

  lemma EndIsFound(m: Mmu, mem: Memory, pages: seq<Addr>, t: Addr, va: Addr, pa: Addr, attr: Addr, lv: nat)
    requires Laws(m) && m.isPage(pa) && IsAttrIndex(attr) && lv < 4 && |pages| >= 3 - lv
    requires m.kind(mem(m.entry(t, m.index(va, lv)))) == Block || lv == 3
    ensures Finds(m, mem, pages, t, va, lv, m.make(pa, attr), Create(m, mem, pages, t, va, pa, attr, lv))
  {
    var cell := m.entry(t, m.index(va, lv));
    CreateEnds(m, mem, pages, t, va, pa, attr, lv);
    if m.kind(mem(cell)) == Invalid {
      assert Makes(m, pa, attr);
      WalkEnds(m, mem, t, va, lv);
      WalkHits(m, Put(mem, cell, m.make(pa, attr)), t, va, lv);
    } else {
      WalkHits(m, mem, t, va, lv);
    }
  }

  lemma FoundThroughTable(m: Mmu, mem: Memory, pages: seq<Addr>, t: Addr, va: Addr, lv: nat,
      next: Addr, desc: Addr, r: Created)
    requires lv < 3 && Finds(m, mem, pages, next, va, lv + 1, desc, r)
    requires m.kind(mem(m.entry(t, m.index(va, lv)))) == Table && next == m.address(mem(m.entry(t, m.index(va, lv))))
    requires r.mem(m.entry(t, m.index(va, lv))) == mem(m.entry(t, m.index(va, lv)))
    ensures Finds(m, mem, pages, t, va, lv, desc, r)
  {
    WalkFollows(m, mem, t, va, lv, next);
    WalkFollows(m, r.mem, t, va, lv, next);
  }

  // The case of a new table.
  lemma {:induction false} LinkIsFound(m: Mmu, mem: Memory, owners: Owners, pages: seq<Addr>, t: Addr, va: Addr,
      pa: Addr, attr: Addr, lv: nat)
    requires Ready(m, mem, owners, pages, t, va, pa, attr, lv) && lv < 3
    requires m.kind(mem(m.entry(t, m.index(va, lv)))) == Invalid
    ensures Finds(m, mem, pages, t, va, lv, m.make(pa, attr), Create(m, mem, pages, t, va, pa, attr, lv))
    decreases 4 - lv, 0
  {
    var i, page := m.index(va, lv), pages[0];
    var cell := m.entry(t, i);
    var now, more := Link(m, mem, cell, page, attr), owners[page := Prefix(m, va, lv + 1)];
    LinkReady(m, mem, owners, pages, t, va, pa, attr, lv);
    LinkReads(m, mem, cell, page, attr, t, i);
    LinkReads(m, mem, cell, page, attr, page, m.index(va, lv + 1));
    assert Makes(m, page, attr);
    CreateLinks(m, mem, pages, t, va, pa, attr, lv);
    EntryKept(m, now, more, pages[1..], page, va, pa, attr, lv + 1, t, i);
    WalkEnds(m, now, page, va, lv + 1);
    WalkEnds(m, mem, t, va, lv);
    CreatedIsFound(m, now, more, pages[1..], page, va, pa, attr, lv + 1);
    FoundThroughLink(m, mem, now, pages, t, va, lv, page, m.make(pa, attr),
      Create(m, now, pages[1..], page, va, pa, attr, lv + 1));
  }

  lemma FoundThroughLink(m: Mmu, mem: Memory, now: Memory, pages: seq<Addr>, t: Addr, va: Addr, lv: nat,
      page: Addr, desc: Addr, r: Created)
    requires Laws(m) && m.isPage(t) && m.isPage(page) && lv < 3 && |pages| > 0
    requires Finds(m, now, pages[1..], page, va, lv + 1, desc, r) && Walk(m, now, page, va, lv + 1) == Missing
    requires Walk(m, mem, t, va, lv) == Missing
    requires m.kind(r.mem(m.entry(t, m.index(va, lv)))) == Table
    requires m.address(r.mem(m.entry(t, m.index(va, lv)))) == page
    ensures Finds(m, mem, pages, t, va, lv, desc, r)
  {
    WalkFollows(m, r.mem, t, va, lv, page);
  }

  // Every other page is translated as before: what was mapped keeps its
  // descriptor, and what was not mapped stays so.
  lemma {:induction false} OthersKept(m: Mmu, mem: Memory, owners: Owners, pages: seq<Addr>, t: Addr, va: Addr, pa: Addr,
      attr: Addr, lv: nat, u: Addr, va': Addr, lv': nat)
    requires Ready(m, mem, owners, pages, t, va, pa, attr, lv)
    requires OnPath(m, owners, u, va', lv') && !SamePage(m, va, va')
    ensures Walk(m, Create(m, mem, pages, t, va, pa, attr, lv).mem, u, va', lv') == Walk(m, mem, u, va', lv')
    decreases 4 - lv
  {
    hide Create;
    var cell := m.entry(t, m.index(va, lv));
    if lv == 3 || m.kind(mem(cell)) == Block {
      CreateEnds(m, mem, pages, t, va, pa, attr, lv);
      if m.kind(mem(cell)) == Invalid {
        LeafWriteKeeps(m, mem, owners, t, va, m.make(pa, attr), u, va', lv');
      }
    } else if m.kind(mem(cell)) == Table {
      NextOnPath(m, mem, owners, t, va, lv);
      CreateFollows(m, mem, pages, t, va, pa, attr, lv);
      OthersKept(m, mem, owners, pages, m.address(mem(cell)), va, pa, attr, lv + 1, u, va', lv');
    } else {
      LinkReady(m, mem, owners, pages, t, va, pa, attr, lv);
      LinkKeeps(m, mem, owners, t, va, lv, pages[0], attr, u, va', lv');
      CreateLinks(m, mem, pages, t, va, pa, attr, lv);
      OthersKept(m, Link(m, mem, cell, pages[0], attr), owners[pages[0] := Prefix(m, va, lv + 1)],
        pages[1..], pages[0], va, pa, attr, lv + 1, u, va', lv');
    }
  }

  // Every table of the first tree is one of the second, at the same place.
  ghost predicate Extends(owners: Owners, more: Owners) {
    forall u {:trigger u in more} :: u in owners ==> u in more && more[u] == owners[u]
  }

  // The tables still form a tree, with the pages used so far in it.
  ghost predicate Grown(m: Mmu, owners: Owners, pages: seq<Addr>, lv: nat, r: Created, more: Owners)
  {
    && Tree(m, r.mem, more) && Fresh(m, more, r.pages) && |r.pages| >= |pages| - (3 - lv)
    && Extends(owners, more)
  }

  lemma {:induction false} TreeKept(m: Mmu, mem: Memory, owners: Owners, pages: seq<Addr>, t: Addr, va: Addr, pa: Addr,
      attr: Addr, lv: nat) returns (more: Owners)
    requires Ready(m, mem, owners, pages, t, va, pa, attr, lv)
    ensures Grown(m, owners, pages, lv, Create(m, mem, pages, t, va, pa, attr, lv), more)
    decreases 4 - lv
  {
    var cell := m.entry(t, m.index(va, lv));
    if lv == 3 || m.kind(mem(cell)) == Block {
      more := owners;
      CreateEnds(m, mem, pages, t, va, pa, attr, lv);
      if m.kind(mem(cell)) == Invalid {
        LeafWriteKeepsTree(m, mem, owners, t, va, m.make(pa, attr));
      }
    } else if m.kind(mem(cell)) == Table {
      NextOnPath(m, mem, owners, t, va, lv);
      CreateFollows(m, mem, pages, t, va, pa, attr, lv);
      more := TreeKept(m, mem, owners, pages, m.address(mem(cell)), va, pa, attr, lv + 1);
    } else {
      LinkReady(m, mem, owners, pages, t, va, pa, attr, lv);
      CreateLinks(m, mem, pages, t, va, pa, attr, lv);
      var with := owners[pages[0] := Prefix(m, va, lv + 1)];
      more := TreeKept(m, Link(m, mem, cell, pages[0], attr), with, pages[1..], pages[0], va, pa, attr, lv + 1);
      assert forall u {:trigger u in owners} :: u in owners ==> u in with && with[u] == owners[u];
    }
  }

  // Leaf cells hold no links.
  lemma LeafWriteKeepsTree(m: Mmu, mem: Memory, owners: Owners, t: Addr, va: Addr, v: Addr)
    requires Laws(m) && Tree(m, mem, owners) && OnPath(m, owners, t, va, 3)
    ensures Tree(m, Put(mem, m.entry(t, m.index(va, 3)), v), owners)
  {
    var now := Put(mem, m.entry(t, m.index(va, 3)), v);
    forall u, j: nat {:trigger Linked(m, now, owners, u, j)} | u in owners && m.isPage(u) && j < m.pointers
      ensures Linked(m, now, owners, u, j)
    {
      assert EntriesApart(m, t, m.index(va, 3), u, j);
      assert Linked(m, mem, owners, u, j);
    }
  }

  // ------------------------------------------------------------- rewriting a leaf

  // A walk that ends at a page descriptor ends in a table of the last level.
  lemma {:induction false} LeafOnPath(m: Mmu, mem: Memory, owners: Owners, t: Addr, va: Addr, lv: nat) returns (leaf: Addr)
    requires Laws(m) && Tree(m, mem, owners) && OnPath(m, owners, t, va, lv)
    requires Walk(m, mem, t, va, lv).Found? && m.kind(Walk(m, mem, t, va, lv).desc) == Table
    ensures OnPath(m, owners, leaf, va, 3) && Walk(m, mem, t, va, lv).cell == m.entry(leaf, m.index(va, 3))
    decreases 4 - lv
  {
    if lv == 3 {
      leaf := t;
    } else {
      NextOnPath(m, mem, owners, t, va, lv);
      leaf := LeafOnPath(m, mem, owners, m.address(mem(m.entry(t, m.index(va, lv)))), va, lv + 1);
    }
  }

  // Another page descriptor in the leaf cell is what the walk finds then.
  lemma {:induction false} LeafRewritten(m: Mmu, mem: Memory, owners: Owners, t: Addr, va: Addr, lv: nat, leaf: Addr, v: Addr)
    requires Laws(m) && Tree(m, mem, owners) && OnPath(m, owners, t, va, lv) && OnPath(m, owners, leaf, va, 3)
    requires Walk(m, mem, t, va, lv).Found? && Walk(m, mem, t, va, lv).cell == m.entry(leaf, m.index(va, 3))
    requires m.kind(Walk(m, mem, t, va, lv).desc) == Table && m.kind(v) == Table
    ensures Walk(m, Put(mem, m.entry(leaf, m.index(va, 3)), v), t, va, lv) == Found(m.entry(leaf, m.index(va, 3)), v)
    decreases 4 - lv
  {
    var cell := m.entry(t, m.index(va, lv));
    var now := Put(mem, m.entry(leaf, m.index(va, 3)), v);
    if lv == 3 {
      WalkHits(m, now, t, va, lv);
    } else {
      assert EntriesApart(m, t, m.index(va, lv), leaf, m.index(va, 3));
      var next := m.address(mem(cell));
      NextOnPath(m, mem, owners, t, va, lv);
      WalkFollows(m, mem, t, va, lv, next);
      WalkFollows(m, now, t, va, lv, next);
      LeafRewritten(m, mem, owners, next, va, lv + 1, leaf, v);
    }
  }
}
