// What a client may expect to read: the bytes it wrote, as long as it keeps the
// allocation they lie in.
module TlsfNotes {
  import opened Bits
  import opened TlsfMapping
  import opened TlsfBlocks
  import opened TlsfSteps
  import opened TlsfMemory
  import opened TlsfHeap
  import opened TlsfBytes

  // The byte written last at an address, and the pointer of its allocation.
  datatype Note = Unknown | Wrote(ptr: nat, v: byte)

  type Record = nat -> Note

  ghost predicate Holds(n: Note, x: nat, m: Mem, live: map<nat, nat>) {
    n.Wrote? ==> LivePointer(live, n.ptr) && n.ptr <= x < n.ptr + live[n.ptr - 16] && LoadByte(m, x) == n.v
  }

  ghost predicate ReadsBack(record: Record, m: Mem, live: map<nat, nat>) {
    forall x {:trigger record(x)} :: Holds(record(x), x, m, live)
  }

  predicate Owns(n: Note, ptr: nat) {
    n.Wrote? && n.ptr == ptr
  }

  function Nothing(): Record {
    x => Unknown
  }

  // After the word v was written through ptr.
  function Written(record: Record, ptr: nat, word: nat, v: nat): Record {
    (x: nat) => if word <= x < word + 8 then Wrote(ptr, Digit(v, x - word)) else record(x)
  }

  // After ptr was given up.
  function Dropped(record: Record, ptr: nat): Record {
    (x: nat) => if Owns(record(x), ptr) then Unknown else record(x)
  }

  // After the allocation at ptr became one at p, of which the first n bytes were kept.
  function Moved(record: Record, ptr: nat, p: nat, n: nat): Record {
    (x: nat) =>
      if p <= x < p + n && Owns(record(ptr + (x - p)), ptr) then Wrote(p, record(ptr + (x - p)).v)
      else Dropped(record, ptr)(x)
  }

  // The notes of every allocation but one are as they were.
  ghost predicate OthersNoted(record: Record, record': Record, ptr: nat) {
    forall x {:trigger record(x)} :: record(x).Wrote? && record(x).ptr != ptr ==> record'(x) == record(x)
  }

  // An allocation that a step keeps.
  ghost predicate Stays(live: map<nat, nat>, kept: map<nat, nat>, live': map<nat, nat>, ptr: nat) {
    LivePointer(live, ptr) && LivePointer(kept, ptr) && LivePointer(live', ptr)
    && kept[ptr - 16] == live[ptr - 16] == live'[ptr - 16]
  }

  lemma NoteKept(n: Note, x: nat, h: Heap, m': Mem, live': map<nat, nat>, kept: map<nat, nat>, pools: Pools)
    requires Valid(h) && Holds(n, x, h.mem, Live(h.bs)) && Frame(h.mem, m', kept, pools, h.nul)
    requires n.Wrote? ==> Stays(Live(h.bs), kept, live', n.ptr)
    ensures Holds(n, x, m', live')
  {
    if n.Wrote? {
      var b := n.ptr - 16;
      LiveSize(h, b);
      assert b + 16 <= WordOf(x) < b + 16 + kept[b];
      assert Protected(kept, pools, h.nul, WordOf(x));
      assert Load(m', WordOf(x)) == Load(h.mem, WordOf(x));
    }
  }

  // One more allocation, or none.
  lemma NotesOutliveMalloc(record: Record, h: Heap, m': Mem, live': map<nat, nat>, pools: Pools)
    requires Valid(h) && ReadsBack(record, h.mem, Live(h.bs)) && Frame(h.mem, m', Live(h.bs), pools, h.nul)
    requires forall b {:trigger b in live'} :: b in Live(h.bs) ==> b in live' && live'[b] == Live(h.bs)[b]
    ensures ReadsBack(record, m', live')
  {
    forall x: nat
      ensures Holds(record(x), x, m', live')
    {
      assert Holds(record(x), x, h.mem, Live(h.bs));
      assert record(x).Wrote? ==> record(x).ptr - 16 in live';
      NoteKept(record(x), x, h, m', live', Live(h.bs), pools);
    }
  }

  // Every allocation but one stays.
  lemma OthersOutlive(record: Record, h: Heap, m': Mem, live': map<nat, nat>, ptr: nat)
    requires Valid(h) && ReadsBack(record, h.mem, Live(h.bs)) && LivePointer(Live(h.bs), ptr)
    requires Frame(h.mem, m', Without(Live(h.bs), ptr - 16), h.pools, h.nul)
    requires forall b {:trigger b in live'} :: b in Without(Live(h.bs), ptr - 16) ==> b in live' && live'[b] == Live(h.bs)[b]
    ensures ReadsBack(Dropped(record, ptr), m', live') && OthersNoted(record, Dropped(record, ptr), ptr)
  {
    forall x: nat
      ensures Holds(Dropped(record, ptr)(x), x, m', live')
    {
      assert Holds(record(x), x, h.mem, Live(h.bs));
      if record(x).Wrote? && record(x).ptr != ptr {
        assert record(x).ptr - 16 in live';
        NoteKept(record(x), x, h, m', live', Without(Live(h.bs), ptr - 16), h.pools);
      }
    }
  }

  lemma NotesOutliveFree(record: Record, h: Heap, h': Heap, ptr: nat)
    requires Valid(h) && ReadsBack(record, h.mem, Live(h.bs)) && LivePointer(Live(h.bs), ptr)
    requires Live(h'.bs) == Without(Live(h.bs), ptr - 16) && Preserves(h, h', Live(h'.bs))
    ensures ReadsBack(Dropped(record, ptr), h'.mem, Live(h'.bs)) && OthersNoted(record, Dropped(record, ptr), ptr)
  {
    hide Live, Valid, Frame, ReadsBack, OthersNoted, Dropped;
    OthersOutlive(record, h, h'.mem, Live(h'.bs), ptr);
  }

  lemma NotesAfterWrite(record: Record, h: Heap, ptr: nat, word: nat, v: nat)
    requires Valid(h) && ReadsBack(record, h.mem, Live(h.bs)) && ptr >= 16 && PayloadWord(Live(h.bs), ptr - 16, word)
    ensures ReadsBack(Written(record, ptr, word, v), Store(h.mem, word, v), Live(h.bs))
    ensures OthersNoted(record, Written(record, ptr, word, v), ptr)
  {
    forall x: nat
      ensures Holds(Written(record, ptr, word, v)(x), x, Store(h.mem, word, v), Live(h.bs))
      ensures record(x).Wrote? && record(x).ptr != ptr ==> Written(record, ptr, word, v)(x) == record(x)
    {
      assert Holds(record(x), x, h.mem, Live(h.bs));
      if word <= x < word + 8 {
        WordInside(h, ptr, word, x);
        if record(x).Wrote? && record(x).ptr != ptr {
          OneOwner(h, ptr, record(x).ptr, x);
        }
      } else {
        OtherWord(word, x);
      }
    }
  }

  lemma WordInside(h: Heap, ptr: nat, word: nat, x: nat)
    requires Valid(h) && ptr >= 16 && PayloadWord(Live(h.bs), ptr - 16, word) && word <= x < word + 8
    ensures ptr <= x < ptr + Live(h.bs)[ptr - 16] && WordOf(x) == word && x % 8 == x - word
  {
    hide Valid;
    PayloadInPool(h, ptr - 16);
  }

  lemma OtherWord(word: nat, x: nat)
    requires word % 8 == 0 && !(word <= x < word + 8)
    ensures WordOf(x) != word
  {
  }

  // No address lies in two live payloads.
  lemma OneOwner(h: Heap, p: nat, q: nat, x: nat)
    requires Valid(h) && LivePointer(Live(h.bs), p) && LivePointer(Live(h.bs), q)
    requires p <= x < p + Live(h.bs)[p - 16] && q <= x < q + Live(h.bs)[q - 16]
    ensures p == q
  {
    hide Valid;
    if p != q { PayloadsDisjoint(h, p - 16, q - 16); }
  }

  // realloc moved the allocation, or resized it in place.
  lemma NotesFollowRealloc(record: Record, h: Heap, h': Heap, ptr: nat, p: nat, size: size_t)
    requires Valid(h) && Valid(h') && ReadsBack(record, h.mem, Live(h.bs)) && LivePointer(Live(h.bs), ptr)
    requires Resized(h, h', ptr, p, size) && Preserves(h, h', Without(Live(h.bs), ptr - 16))
    ensures ReadsBack(Moved(record, ptr, p, Min(Live(h'.bs)[p - 16], size)), h'.mem, Live(h'.bs))
    ensures OthersNoted(record, Moved(record, ptr, p, Min(Live(h'.bs)[p - 16], size)), ptr)
  {
    hide Valid, AdjustRequestSize, Frame, LoadByte, Min;
    var n := Min(Live(h'.bs)[p - 16], size);
    OthersOutlive(record, h, h'.mem, Live(h'.bs), ptr);
    forall x: nat
      ensures Holds(Moved(record, ptr, p, n)(x), x, h'.mem, Live(h'.bs))
      ensures record(x).Wrote? && record(x).ptr != ptr ==> Moved(record, ptr, p, n)(x) == record(x)
    {
      MovedNote(record, h, h', ptr, p, size, x);
    }
  }

  lemma MovedAt(record: Record, ptr: nat, p: nat, n: nat, x: nat)
    ensures Moved(record, ptr, p, n)(x) ==
      if p <= x < p + n && Owns(record(ptr + (x - p)), ptr) then Wrote(p, record(ptr + (x - p)).v)
      else Dropped(record, ptr)(x)
    ensures record(x).Wrote? && record(x).ptr != ptr ==> Dropped(record, ptr)(x) == record(x)
  {
  }

  lemma MovedNote(record: Record, h: Heap, h': Heap, ptr: nat, p: nat, size: size_t, x: nat)
    requires Valid(h') && ReadsBack(record, h.mem, Live(h.bs)) && LivePointer(Live(h.bs), ptr)
    requires Resized(h, h', ptr, p, size) && ReadsBack(Dropped(record, ptr), h'.mem, Live(h'.bs))
    ensures var next := Moved(record, ptr, p, Min(Live(h'.bs)[p - 16], size));
            && Holds(next(x), x, h'.mem, Live(h'.bs))
            && (record(x).Wrote? && record(x).ptr != ptr ==> next(x) == record(x))
  {
    hide Valid, AdjustRequestSize, Frame, LoadByte, SameByte, SameBytes, Live, Moved, Dropped;
    var n := Min(Live(h'.bs)[p - 16], size);
    MovedAt(record, ptr, p, n, x);
    assert Holds(Dropped(record, ptr)(x), x, h'.mem, Live(h'.bs)) && Holds(record(x), x, h.mem, Live(h.bs));
    if p <= x < p + n && Owns(record(ptr + (x - p)), ptr) {
      assert Holds(record(ptr + (x - p)), ptr + (x - p), h.mem, Live(h.bs));
      MovedByte(record(ptr + (x - p)), h, h', ptr, p, size, x - p);
      if record(x).Wrote? && record(x).ptr != ptr {
        OneOwner(h', p, record(x).ptr, x);
      }
    }
  }

  lemma MovedByte(n: Note, h: Heap, h': Heap, ptr: nat, p: nat, size: size_t, k: nat)
    requires LivePointer(Live(h.bs), ptr) && Resized(h, h', ptr, p, size) && k < Min(Live(h'.bs)[p - 16], size)
    requires Owns(n, ptr) && Holds(n, ptr + k, h.mem, Live(h.bs))
    ensures Holds(Wrote(p, n.v), p + k, h'.mem, Live(h'.bs))
  {
    hide AdjustRequestSize, LoadByte, Live;
    assert SameByte(h'.mem, p, h.mem, ptr, k);
  }
}
