// sha256_init, sha256_update and sha256_final: any way of cutting a message into
// updates gives the hash of the standard.
module Sha256Stream {
  import opened Sha256

  // ------------------------------------------------------------------ whole blocks

  lemma {:induction false} FoldAppends(c: Compressor, v: Vars, m: seq<Byte>, b: Block)
    requires |m| % 64 == 0
    ensures Fold(c, v, m + b) == c(Fold(c, v, m), b)
    decreases |m|
  {
    if |m| == 0 {
      assert m + b == b && (m + b)[..64] == b && (m + b)[64..] == [];
      assert Fold(c, v, m + b) == Fold(c, c(v, b), []);
    } else {
      assert (m + b)[..64] == m[..64] && (m + b)[64..] == m[64..] + b;
      FoldAppends(c, c(v, m[..64]), m[64..], b);
    }
  }

  // Part of a message has been taken in: its whole blocks are folded into v, and
  // buf is the rest.
  ghost predicate Taken(c: Compressor, m: seq<Byte>, bits: nat, buf: seq<Byte>, v: Vars) {
    && |buf| == |m| % 64
    && m == m[..|m| - |buf|] + buf
    && v == Fold(c, INITIAL, m[..|m| - |buf|])
    && bits == 8 * (|m| - |buf|)
  }

  lemma NextRemainder(n: nat)
    ensures (n + 1) % 64 == if n % 64 == 63 then 0 else n % 64 + 1
  {
  }

  lemma ByteJoins(c: Compressor, m: seq<Byte>, bits: nat, buf: seq<Byte>, v: Vars, byte: Byte)
    requires Taken(c, m, bits, buf, v)
    ensures |buf| < 63 ==> Taken(c, m + [byte], bits, buf + [byte], v)
    ensures |buf| == 63 ==> Taken(c, m + [byte], bits + 512, [], c(v, buf + [byte]))
  {
    hide Fold;
    var whole, now := m[..|m| - |buf|], m + [byte];
    NextRemainder(|m|);
    assert now == whole + (buf + [byte]);
    if |buf| < 63 {
      assert now[..|now| - (|buf| + 1)] == whole;
    } else {
      FoldAppends(c, INITIAL, whole, buf + [byte]);
      assert now[..|now|] == now;
    }
  }

  // The padded message, cut after its whole blocks: one more block or two.
  lemma PaddedTail(m: seq<Byte>, r: nat)
    requires r == |m| % 64
    ensures var w, tail := m[..|m| - r], m[|m| - r..];
      && (r < 56 ==> Padded(m) == w + (tail + [0x80] + Zeros(55 - r) + LengthField(8 * |m|)))
      && (r >= 56 ==>
            Padded(m) == w + (tail + [0x80] + Zeros(63 - r)) + (Zeros(56) + LengthField(8 * |m|)))
  {
    var w, tail := m[..|m| - r], m[|m| - r..];
    assert m == w + tail;
    if r >= 56 {
      assert ZeroCount(|m|) == 119 - r;
      assert Zeros(119 - r) == Zeros(63 - r) + Zeros(56);
    } else {
      assert ZeroCount(|m|) == 55 - r;
    }
  }

  // The padded message without its last block.
  function BeforeLast(m: seq<Byte>): seq<Byte> {
    var r := |m| % 64;
    if r < 56 then m[..|m| - r] else m[..|m| - r] + (m[|m| - r..] + [0x80] + Zeros(63 - r))
  }

  // Everything of the padded message but its length field is in v and rest.
  ghost predicate PaddedTo(c: Compressor, m: seq<Byte>, rest: seq<Byte>, v: Vars) {
    && |rest| == 56 && |BeforeLast(m)| % 64 == 0
    && Padded(m) == BeforeLast(m) + rest + LengthField(8 * |m|)
    && v == Fold(c, INITIAL, BeforeLast(m))
  }

  lemma PadsShort(c: Compressor, m: seq<Byte>, bits: nat, buf: seq<Byte>, v: Vars)
    requires Taken(c, m, bits, buf, v) && |buf| < 56
    ensures PaddedTo(c, m, buf + [0x80] + Zeros(55 - |buf|), v)
  {
    PaddedTail(m, |buf|);
    assert m[|m| - |buf|..] == buf;
  }

  lemma PadsLong(c: Compressor, m: seq<Byte>, bits: nat, buf: seq<Byte>, v: Vars)
    requires Taken(c, m, bits, buf, v) && 56 <= |buf| < 64
    ensures PaddedTo(c, m, Zeros(56), c(v, buf + [0x80] + Zeros(63 - |buf|)))
  {
    PaddedTail(m, |buf|);
    assert m[|m| - |buf|..] == buf;
    FoldAppends(c, INITIAL, m[..|m| - |buf|], buf + [0x80] + Zeros(63 - |buf|));
  }

  lemma TotalBits(c: Compressor, m: seq<Byte>, bits: nat, buf: seq<Byte>, v: Vars)
    requires Taken(c, m, bits, buf, v)
    ensures bits + 8 * |buf| == 8 * |m|
  {
  }

  lemma LastBlock(o: Ops, m: seq<Byte>, rest: seq<Byte>, v: Vars)
    requires PaddedTo(CompressWith(o), m, rest, v)
    ensures Digest(o, CompressWith(o)(v, rest + LengthField(8 * |m|))) == Hash(o, m)
  {
    FoldAppends(CompressWith(o), INITIAL, BeforeLast(m), rest + LengthField(8 * |m|));
    assert Padded(m) == BeforeLast(m) + (rest + LengthField(8 * |m|));
  }

  function Concat(chunks: seq<seq<Byte>>): seq<Byte> {
    if chunks == [] then [] else Concat(chunks[..|chunks| - 1]) + chunks[|chunks| - 1]
  }

  // ------------------------------------------------------------------- the context

  lemma ScheduleStarts(o: Ops, b: Block, t: nat)
    requires t < 16
    ensures Schedule(o, b, t) == o.wordOf(b[4 * t], b[4 * t + 1], b[4 * t + 2], b[4 * t + 3])
  {
  }

  lemma ScheduleGoesOn(o: Ops, b: Block, t: nat)
    requires 16 <= t < 64
    ensures Schedule(o, b, t) ==
      Sum(Sum(Sum(o.sig1(Schedule(o, b, t - 2)), Schedule(o, b, t - 7)), o.sig0(Schedule(o, b, t - 15))), Schedule(o, b, t - 16))
  {
  }

  class Context {
    const ops: Ops
    const data: array<Byte>
    var datalen: nat
    var bitlen: nat
    const state: array<Word>

    ghost predicate Allocated()
      reads this
    {
      data.Length == 64 && state.Length == 8 && datalen < 64
    }

    ghost function View(): Vars
      requires state.Length == 8
      reads this, state
    {
      Vars(state[0], state[1], state[2], state[3], state[4], state[5], state[6], state[7])
    }

    // The context has taken in exactly the message m.
    ghost predicate Absorbed(m: seq<Byte>)
      reads this, data, state
    {
      && Allocated()
      && Taken(CompressWith(ops), m, bitlen, data[..datalen], View())
    }

    // sha256_init
    constructor (o: Ops)
      ensures ops == o && Absorbed([]) && fresh(data) && fresh(state)
    {
      ops := o;
      data := new Byte[64](_ => 0);
      datalen, bitlen := 0, 0;
      state := new Word[8](_ => 0);
      new;
      state[0], state[1], state[2], state[3] := 0x6a09_e667, 0xbb67_ae85, 0x3c6e_f372, 0xa54f_f53a;
      state[4], state[5], state[6], state[7] := 0x510e_527f, 0x9b05_688c, 0x1f83_d9ab, 0x5be0_cd19;
    }

    // The message schedule of sha256_transform.
    method Expand() returns (m: array<Word>)
      requires data.Length == 64
      ensures fresh(m) && m.Length == 64
      ensures forall t: nat {:trigger m[t]} :: t < 64 ==> m[t] == Schedule(ops, data[..], t)
    {
      hide Schedule, Sum;
      m := new Word[64];
      ghost var b: Block := data[..];
      var i: nat, j := 0, 0;
      while i < 16
        invariant i <= 16 && j == 4 * i
        invariant forall t: nat {:trigger m[t]} :: t < i ==> m[t] == Schedule(ops, b, t)
      {
        ScheduleStarts(ops, b, i);
        m[i] := ops.wordOf(data[j], data[j + 1], data[j + 2], data[j + 3]);
        i, j := i + 1, j + 4;
      }
      while i < 64
        invariant 16 <= i <= 64
        invariant forall t: nat {:trigger m[t]} :: t < i ==> m[t] == Schedule(ops, b, t)
      {
        ScheduleGoesOn(ops, b, i);
        m[i] := Sum(Sum(Sum(ops.sig1(m[i - 2]), m[i - 7]), ops.sig0(m[i - 15])), m[i - 16]);
        i := i + 1;
      }
    }

    // sha256_transform on the buffer of the context
    method Transform()
      requires data.Length == 64 && state.Length == 8
      modifies state
      ensures View() == CompressWith(ops)(old(View()), data[..])
    {
      ghost var was, block: Block := View(), data[..];
      var m := Expand();
      var a, b, c, d := state[0], state[1], state[2], state[3];
      var e, f, g, h := state[4], state[5], state[6], state[7];
      var i: nat := 0;
      while i < 64
        invariant i <= 64 && Vars(a, b, c, d, e, f, g, h) == Rounds(ops, was, block, i)
        invariant View() == was && data[..] == block
        invariant forall t: nat {:trigger m[t]} :: t < 64 ==> m[t] == Schedule(ops, block, t)
      {
        var t1 := Sum(Sum(Sum(Sum(h, ops.ep1(e)), ops.ch(e, f, g)), K(i)), m[i]);
        var t2 := Sum(ops.ep0(a), ops.maj(a, b, c));
        h := g;
        g := f;
        f := e;
        e := Sum(d, t1);
        d := c;
        c := b;
        b := a;
        a := Sum(t1, t2);
        i := i + 1;
      }
      state[0] := Sum(state[0], a);
      state[1] := Sum(state[1], b);
      state[2] := Sum(state[2], c);
      state[3] := Sum(state[3], d);
      state[4] := Sum(state[4], e);
      state[5] := Sum(state[5], f);
      state[6] := Sum(state[6], g);
      state[7] := Sum(state[7], h);
    }

    // One byte of sha256_update.
    method UpdateByte(byte: Byte, ghost m: seq<Byte>)
      requires Absorbed(m)
      modifies this`datalen, this`bitlen, data, state
      ensures Absorbed(m + [byte])
    {
      ByteJoins(CompressWith(ops), m, bitlen, data[..datalen], View(), byte);
      ghost var buf := data[..datalen];
      data[datalen] := byte;
      assert data[..datalen + 1] == buf + [byte];
      datalen := datalen + 1;
      if datalen == 64 {
        assert data[..] == buf + [byte];
        Transform();
        bitlen := bitlen + 512;
        datalen := 0;
      }
    }

    // sha256_update; the loop counter of the original has 32 bits.
    method Update(chunk: seq<Byte>, ghost m: seq<Byte>)
      requires Absorbed(m) && |chunk| < 0x1_0000_0000
      modifies this`datalen, this`bitlen, data, state
      ensures Absorbed(m + chunk)
    {
      hide *;
      assert m + chunk[..0] == m;
      var i: nat := 0;
      while i < |chunk|
        invariant i <= |chunk| && Absorbed(m + chunk[..i])
        modifies this`datalen, this`bitlen, data, state
      {
        UpdateByte(chunk[i], m + chunk[..i]);
        assert m + chunk[..i] + [chunk[i]] == m + chunk[..i + 1];
        i := i + 1;
      }
      assert chunk[..i] == chunk;
    }

    // Zeros in the buffer from index i up to n.
    method FillZeros(i: nat, n: nat)
      requires data.Length == 64 && i <= n <= 64
      modifies data
      ensures data[..] == old(data[..i]) + Zeros(n - i) + old(data[n..])
    {
      var j := i;
      while j < n
        invariant i <= j <= n
        invariant data[..] == old(data[..i]) + Zeros(j - i) + old(data[j..])
        modifies data
      {
        data[j] := 0;
        j := j + 1;
      }
    }

    // The padding of sha256_final up to the length field.
    method Pad(ghost m: seq<Byte>)
      requires Absorbed(m)
      modifies data, state
      ensures PaddedTo(CompressWith(ops), m, data[..56], View())
    {
      ghost var buf, was := data[..datalen], View();
      var i := datalen;
      data[i] := 0x80;
      assert data[..i + 1] == buf + [0x80];
      if datalen < 56 {
        FillZeros(i + 1, 56);
        assert data[..56] == buf + [0x80] + Zeros(55 - |buf|);
        PadsShort(CompressWith(ops), m, bitlen, buf, was);
      } else {
        FillZeros(i + 1, 64);
        assert data[..] == buf + [0x80] + Zeros(63 - |buf|);
        PadsLong(CompressWith(ops), m, bitlen, buf, was);
        Transform();
        FillZeros(0, 56);
        assert data[..56] == Zeros(56);
      }
    }

    // The length field at the end of the buffer.
    method WriteLength()
      requires data.Length == 64
      modifies data
      ensures data[..] == old(data[..56]) + LengthField(bitlen)
    {
      data[63] := ByteOf(bitlen, 0);
      data[62] := ByteOf(bitlen, 1);
      data[61] := ByteOf(bitlen, 2);
      data[60] := ByteOf(bitlen, 3);
      data[59] := ByteOf(bitlen, 4);
      data[58] := ByteOf(bitlen, 5);
      data[57] := ByteOf(bitlen, 6);
      data[56] := ByteOf(bitlen, 7);
      assert data[56..] == LengthField(bitlen);
      assert data[..] == data[..56] + data[56..];
    }

    // sha256_final
    method Final(hash: array<Byte>, ghost m: seq<Byte>)
      requires Absorbed(m) && 8 * |m| < 0x1_0000_0000_0000_0000
      requires hash.Length == 32 && hash != data
      modifies this`bitlen, data, state, hash
      ensures hash[..] == Hash(ops, m)
    {
      TotalBits(CompressWith(ops), m, bitlen, data[..datalen], View());
      Pad(m);
      ghost var rest, was := data[..56], View();
      bitlen := bitlen + datalen * 8;
      WriteLength();
      assert data[..] == rest + LengthField(8 * |m|);
      LastBlock(ops, m, rest, was);
      Transform();
      WriteDigest(hash);
    }

    // One round of the copy of the state: byte i of every word.
    method WriteRow(hash: array<Byte>, i: nat)
      requires state.Length == 8 && hash.Length == 32 && i < 4
      modifies hash
      ensures RowWritten(hash[..], ops, View(), i)
      ensures forall k {:trigger hash[k]} :: 0 <= k < 32 && k % 4 != i ==> hash[k] == old(hash[k])
    {
      hash[i] := ops.wordByte(state[0], i);
      hash[i + 4] := ops.wordByte(state[1], i);
      hash[i + 8] := ops.wordByte(state[2], i);
      hash[i + 12] := ops.wordByte(state[3], i);
      hash[i + 16] := ops.wordByte(state[4], i);
      hash[i + 20] := ops.wordByte(state[5], i);
      hash[i + 24] := ops.wordByte(state[6], i);
      hash[i + 28] := ops.wordByte(state[7], i);
    }

    // The big-endian copy of the state into the output.
    method WriteDigest(hash: array<Byte>)
      requires state.Length == 8 && hash.Length == 32
      modifies hash
      ensures hash[..] == Digest(ops, View())
    {
      var i: nat := 0;
      while i < 4
        invariant i <= 4
        invariant forall j: nat {:trigger RowWritten(hash[..], ops, View(), j)} :: j < i ==> RowWritten(hash[..], ops, View(), j)
        modifies hash
      {
        ghost var was := hash[..];
        WriteRow(hash, i);
        forall j: nat {:trigger RowWritten(hash[..], ops, View(), j)} | j < i ensures RowWritten(hash[..], ops, View(), j) {
          assert RowWritten(was, ops, View(), j);
          RowStays(was, hash[..], ops, View(), i, j);
        }
        i := i + 1;
      }
      assert RowWritten(hash[..], ops, View(), 0) && RowWritten(hash[..], ops, View(), 1);
      assert RowWritten(hash[..], ops, View(), 2) && RowWritten(hash[..], ops, View(), 3);
      RowsAreDigest(hash[..], ops, View());
    }
  }

  // Byte i of every word is in place.
  predicate RowWritten(s: seq<Byte>, o: Ops, v: Vars, i: nat)
    requires |s| == 32
  {
    i < 4 ==>
      && s[i] == o.wordByte(v.a, i) && s[i + 4] == o.wordByte(v.b, i)
      && s[i + 8] == o.wordByte(v.c, i) && s[i + 12] == o.wordByte(v.d, i)
      && s[i + 16] == o.wordByte(v.e, i) && s[i + 20] == o.wordByte(v.f, i)
      && s[i + 24] == o.wordByte(v.g, i) && s[i + 28] == o.wordByte(v.h, i)
  }

  lemma RowStays(s: seq<Byte>, s': seq<Byte>, o: Ops, v: Vars, i: nat, j: nat)
    requires |s| == |s'| == 32 && i < 4 && j < 4 && i != j && RowWritten(s, o, v, j)
    requires forall k :: 0 <= k < 32 && k % 4 != i ==> s'[k] == s[k]
    ensures RowWritten(s', o, v, j)
  {
  }

  lemma RowsAreDigest(s: seq<Byte>, o: Ops, v: Vars)
    requires |s| == 32
    requires RowWritten(s, o, v, 0) && RowWritten(s, o, v, 1) && RowWritten(s, o, v, 2) && RowWritten(s, o, v, 3)
    ensures s == Digest(o, v)
  {
    forall k: nat | k < 32 ensures s[k] == Digest(o, v)[k] {
      RowGives(s, o, v, k / 4, k % 4);
      assert k == 4 * (k / 4) + k % 4;
    }
  }

  lemma RowGives(s: seq<Byte>, o: Ops, v: Vars, w: nat, i: nat)
    requires |s| == 32 && w < 8 && i < 4 && RowWritten(s, o, v, i)
    ensures s[4 * w + i] == o.wordByte(WordAt(v, w), i)
  {
  }

  // Hashing a message in pieces, however it is cut.
  method HashChunks(chunks: seq<seq<Byte>>) returns (hash: array<Byte>)
    requires forall i {:trigger chunks[i]} :: 0 <= i < |chunks| ==> |chunks[i]| < 0x1_0000_0000
    requires 8 * |Concat(chunks)| < 0x1_0000_0000_0000_0000
    ensures hash[..] == Hash(Standard(), Concat(chunks))
  {
    hide Padded, Digest, Compress, Rounds, Schedule, Round, Fold;
    var ctx := new Context(Standard());
    hash := new Byte[32](_ => 0);
    var i: nat := 0;
    while i < |chunks|
      invariant i <= |chunks| && ctx.Absorbed(Concat(chunks[..i]))
      invariant fresh(ctx) && fresh(ctx.data) && fresh(ctx.state) && fresh(hash) && hash.Length == 32 && hash != ctx.data
    {
      ctx.Update(chunks[i], Concat(chunks[..i]));
      assert chunks[..i + 1][..i] == chunks[..i];
      i := i + 1;
    }
    assert chunks[..i] == chunks;
    ctx.Final(hash, Concat(chunks));
  }
}
