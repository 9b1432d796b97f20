// The compressed symbol table of a kernel image: the tokens, the names that
// are written with them, and the lookup of a symbol.
module Kallsyms {

  import opened BaseLib
  import opened Buffers

  const TOKEN_NUMS: nat := 256
  const SYMBOL_LEN: nat := 512

  // -------------------------------------------------------------------- strings

  // The place of the first zero at or after pos, or the end of the image.
  function EndOf(img: seq<Byte>, pos: nat): (e: nat)
    requires pos <= |img|
    ensures pos <= e <= |img|
    decreases |img| - pos
  {
    if pos == |img| || img[pos] == 0 then pos else EndOf(img, pos + 1)
  }

  // The C string at pos.
  function StrAt(img: seq<Byte>, pos: nat): seq<Byte>
    requires pos <= |img|
  {
    img[pos..EndOf(img, pos)]
  }

  lemma {:induction false} EndIs(img: seq<Byte>, pos: nat, e: nat)
    requires pos <= e < |img| && img[e] == 0 && 0 !in img[pos..e]
    ensures EndOf(img, pos) == e
    decreases e - pos
  {
    if pos < e {
      assert img[pos..e][0] == img[pos] && img[pos..e][1..] == img[pos + 1..e];
      EndIs(img, pos + 1, e);
    }
  }

  // --------------------------------------------------------------------- tokens

  // Where the i-th of the strings that lie one behind the other from start on begins.
  function TokenPos(img: seq<Byte>, start: nat, i: nat): (p: nat)
    requires start <= |img|
    ensures start <= p <= |img|
  {
    if i == 0 then start
    else
      var e := EndOf(img, TokenPos(img, start, i - 1));
      if e < |img| then e + 1 else e
  }

  // All token strings end inside the image.
  predicate TableInside(img: seq<Byte>, start: nat) {
    && start <= |img|
    && forall i: nat {:trigger TokenPos(img, start, i)} :: i < TOKEN_NUMS ==> EndOf(img, TokenPos(img, start, i)) < |img|
  }

  function U16(x: nat, be: bool): (s: seq<Byte>)
    requires x < 0x1_0000
    ensures |s| == 2
  {
    if be then [x / 256, x % 256] else [x % 256, x / 256]
  }

  // The first n entries of the index: distances from the table's start, in 16 bits.
  function IndexBytes(img: seq<Byte>, start: nat, n: nat, be: bool): (s: seq<Byte>)
    requires start <= |img|
    ensures |s| == 2 * n
  {
    if n == 0 then []
    else IndexBytes(img, start, n - 1, be) + U16((TokenPos(img, start, n - 1) - start) % 0x1_0000, be)
  }

  // uint_unpack
  function Unpack(s: seq<Byte>, be: bool): nat {
    FromLe(if be then Reversed(s) else s)
  }

  function Reversed(s: seq<Byte>): (r: seq<Byte>)
    ensures |r| == |s|
  {
    if s == [] then [] else Reversed(s[1..]) + [s[0]]
  }

  // The n bytes of x in one of the two orders.
  function Ordered(n: nat, x: nat, be: bool): (s: seq<Byte>)
    ensures |s| == n
  {
    if be then Reversed(Le(n, x)) else Le(n, x)
  }

  lemma {:induction false} ReversedAppend(s: seq<Byte>, b: Byte)
    ensures Reversed(s + [b]) == [b] + Reversed(s)
    decreases |s|
  {
    if s == [] {
      assert [] + [b] == [b] && [b][1..] == [];
    } else {
      assert (s + [b])[1..] == s[1..] + [b];
      ReversedAppend(s[1..], b);
    }
  }

  lemma {:induction false} ReversedTwice(s: seq<Byte>)
    ensures Reversed(Reversed(s)) == s
    decreases |s|
  {
    if s != [] {
      ReversedAppend(Reversed(s[1..]), s[0]);
      ReversedTwice(s[1..]);
    }
  }

  lemma OrderedReads(n: nat, x: nat, be: bool)
    requires x < Radix(n)
    ensures Unpack(Ordered(n, x, be), be) == x
  {
    LeRoundTrip(n, x);
    ReversedTwice(Le(n, x));
  }

  // (int32_t)(target - base) in 64-bit arithmetic gives back a small distance.
  lemma Difference64(base: nat, offset: int)
    requires -0x8000_0000 <= offset < 0x8000_0000 && 0 <= base + offset < 0x1_0000_0000_0000_0000
    ensures Int32((base + offset + 0x1_0000_0000_0000_0000 - base % 0x1_0000_0000_0000_0000) % 0x1_0000_0000_0000_0000) == offset
  {
  }

  lemma UnpackTwo(a: Byte, b: Byte)
    ensures Unpack([a, b], false) == a + 256 * b && Unpack([a, b], true) == 256 * a + b
  {
    assert [a, b][1..] == [b] && [b, a][1..] == [a] && [a][1..] == [] && [b][1..] == [];
    assert Reversed([b]) == [b];
    assert Reversed([a, b]) == [b, a];
    assert FromLe([b]) == b && FromLe([a]) == a;
  }

  lemma {:induction false} IndexEntry(img: seq<Byte>, start: nat, n: nat, be: bool, i: nat)
    requires start <= |img| && i < n
    ensures IndexBytes(img, start, n, be)[2 * i..2 * i + 2] == U16((TokenPos(img, start, i) - start) % 0x1_0000, be)
    decreases n
  {
    hide U16;
    var before := IndexBytes(img, start, n - 1, be);
    if i < n - 1 {
      IndexEntry(img, start, n - 1, be, i);
      assert IndexBytes(img, start, n, be)[2 * i..2 * i + 2] == before[2 * i..2 * i + 2];
    } else {
      assert IndexBytes(img, start, n, be)[2 * i..] == U16((TokenPos(img, start, i) - start) % 0x1_0000, be);
    }
  }

  // An index found in the image holds the places of the tokens.
  lemma IndexHoldsTokens(img: seq<Byte>, start: nat, at: nat, be: bool)
    requires start <= |img| && OccursAt(img, IndexBytes(img, start, TOKEN_NUMS, be), at)
    ensures forall i: nat {:trigger TokenPos(img, start, i)} :: i < TOKEN_NUMS ==>
      at + 2 * i + 2 <= |img| && Unpack(img[at + 2 * i..at + 2 * i + 2], be) == (TokenPos(img, start, i) - start) % 0x1_0000
  {
    hide EndOf, IndexBytes, Reversed, TokenPos, U16, Unpack;
    var all := IndexBytes(img, start, TOKEN_NUMS, be);
    forall i: nat | i < TOKEN_NUMS
      ensures at + 2 * i + 2 <= |img| && Unpack(img[at + 2 * i..at + 2 * i + 2], be) == (TokenPos(img, start, i) - start) % 0x1_0000
    {
      hide Unpack, IndexBytes, TokenPos;
      SliceInside(img, at, all, 2 * i, 2 * i + 2);
      IndexEntry(img, start, TOKEN_NUMS, be, i);
      U16Unpacked((TokenPos(img, start, i) - start) % 0x1_0000, be);
    }
  }

  lemma U16Unpacked(x: nat, be: bool)
    requires x < 0x1_0000
    ensures Unpack(U16(x, be), be) == x
  {
    UnpackTwo(x / 256, x % 256);
    UnpackTwo(x % 256, x / 256);
  }

  // The table as an image holds it.
  function TokensBytes(tokens: seq<seq<Byte>>): seq<Byte> {
    if tokens == [] then [] else tokens[0] + [0] + TokensBytes(tokens[1..])
  }

  predicate Strings(tokens: seq<seq<Byte>>) {
    forall i :: 0 <= i < |tokens| ==> 0 !in tokens[i]
  }

  // The tokens are found where they were written.
  lemma {:induction false} TokensFound(img: seq<Byte>, start: nat, tokens: seq<seq<Byte>>, i: nat)
    requires Strings(tokens) && At(img, start, TokensBytes(tokens)) && i < |tokens|
    ensures TokenPos(img, start, i) == start + |TokensBytes(tokens[..i])| < |img|
    ensures EndOf(img, TokenPos(img, start, i)) < |img| && StrAt(img, TokenPos(img, start, i)) == tokens[i]
    decreases i
  {
    hide TokensBytes, At, EndOf;
    var p := start + |TokensBytes(tokens[..i])|;
    TokenLies(img, start, tokens, i);
    assert TokenPos(img, start, i) == p by {
      if i == 0 {
        NoTokens();
      } else {
        TokensFound(img, start, tokens, i - 1);
        TokensOneMore(tokens, i - 1);
      }
    }
    var t := tokens[i];
    SplitBuffer(img, p, t, [0]);
    EndIs(img, p, p + |t|);
  }

  lemma NoTokens()
    ensures forall tokens: seq<seq<Byte>> {:trigger TokensBytes(tokens)} :: tokens == [] ==> TokensBytes(tokens) == []
  {
  }

  lemma {:induction false} TokensOneMore(tokens: seq<seq<Byte>>, i: nat)
    requires i < |tokens|
    ensures |TokensBytes(tokens[..i + 1])| == |TokensBytes(tokens[..i])| + |tokens[i]| + 1
    decreases i
  {
    var a, b := tokens[..i], tokens[..i + 1];
    if i == 0 {
      assert b[1..] == [];
    } else {
      TokensOneMore(tokens[1..], i - 1);
      assert a[1..] == tokens[1..][..i - 1] && b[1..] == tokens[1..][..i];
    }
  }

  lemma {:induction false} TokenLies(img: seq<Byte>, start: nat, tokens: seq<seq<Byte>>, i: nat)
    requires At(img, start, TokensBytes(tokens)) && i < |tokens|
    ensures At(img, start + |TokensBytes(tokens[..i])|, tokens[i] + [0])
    decreases i
  {
    var first := tokens[0] + [0];
    SplitBuffer(img, start, first, TokensBytes(tokens[1..]));
    if i > 0 {
      TokenLies(img, start + |first|, tokens[1..], i - 1);
      assert tokens[..i][1..] == tokens[1..][..i - 1];
    }
  }

  // So the rebuilt table points at them.
  lemma TableBuilt(img: seq<Byte>, start: nat, tokens: seq<seq<Byte>>, table: seq<nat>)
    requires Strings(tokens) && |tokens| == TOKEN_NUMS && At(img, start, TokensBytes(tokens))
    requires |table| == TOKEN_NUMS && forall i: nat {:trigger TokenPos(img, start, i)} :: i < TOKEN_NUMS ==> table[i] == TokenPos(img, start, i)
    ensures TableInside(img, start) && TableOf(img, table, tokens)
  {
    forall i: nat {:trigger TokenPos(img, start, i)} {:trigger table[i]} | i < TOKEN_NUMS
      ensures EndOf(img, TokenPos(img, start, i)) < |img| && table[i] < |img| && StrAt(img, table[i]) == tokens[i]
    {
      TokensFound(img, start, tokens, i);
      assert table[i] == TokenPos(img, start, i);
    }
  }

  // ---------------------------------------------------------------------- names

  // The length of a name, in one or two bytes.
  function HeadLen(img: seq<Byte>, pos: nat): nat
    requires pos < |img|
  {
    if img[pos] > 0x7F then 2 else 1
  }

  function CodesLen(img: seq<Byte>, pos: nat): nat
    requires pos < |img| && pos + HeadLen(img, pos) <= |img|
  {
    if img[pos] > 0x7F then img[pos] - 0x80 + img[pos + 1] as int * 128 else img[pos]
  }

  predicate NameInside(img: seq<Byte>, pos: nat) {
    && pos < |img| && pos + HeadLen(img, pos) <= |img|
    && pos + HeadLen(img, pos) + CodesLen(img, pos) <= |img|
  }

  predicate TablePoints(img: seq<Byte>, table: seq<nat>) {
    |table| == TOKEN_NUMS && forall i :: 0 <= i < TOKEN_NUMS ==> table[i] < |img|
  }

  // The tokens of some codes one behind the other.
  function Expand(img: seq<Byte>, table: seq<nat>, codes: seq<Byte>): seq<Byte>
    requires TablePoints(img, table)
  {
    if codes == [] then [] else StrAt(img, table[codes[0]]) + Expand(img, table, codes[1..])
  }

  datatype Decoded = Bad | Name(next: nat, kind: Byte, name: seq<Byte>)

  // The name at pos: the first character is the symbol's type.
  function Decode(img: seq<Byte>, table: seq<nat>, pos: nat): Decoded
    requires TablePoints(img, table) && NameInside(img, pos)
  {
    var len, p := CodesLen(img, pos), pos + HeadLen(img, pos);
    if len == 0 || len >= SYMBOL_LEN then Bad
    else Name(p + len, img[table[img[p]]], Written(img, table, p, len))
  }

  // The name after n > 0 of the codes at p.
  function Written(img: seq<Byte>, table: seq<nat>, p: nat, n: nat): seq<Byte>
    requires TablePoints(img, table) && p + n <= |img|
  {
    if n == 0 then [] else StrAt(img, table[img[p]] + 1) + Expand(img, table, img[p + 1..p + n])
  }

  lemma WrittenStep(img: seq<Byte>, table: seq<nat>, p: nat, n: nat)
    requires TablePoints(img, table) && p + n < |img|
    ensures Written(img, table, p, n + 1) ==
      Written(img, table, p, n) + StrAt(img, if n == 0 then table[img[p]] + 1 else table[img[p + n]])
  {
    if n == 0 {
      assert img[p + 1..p + 1] == [];
      NothingExpands(img, table);
    } else {
      ExpandAppend(img, table, img[p + 1..p + n], img[p + n]);
      assert img[p + 1..p + n] + [img[p + n]] == img[p + 1..p + n + 1];
      assert StrAt(img, table[img[p]] + 1) + (Expand(img, table, img[p + 1..p + n]) + StrAt(img, table[img[p + n]]))
          == Written(img, table, p, n) + StrAt(img, table[img[p + n]]);
    }
  }

  lemma NothingExpands(img: seq<Byte>, table: seq<nat>)
    requires TablePoints(img, table)
    ensures Expand(img, table, []) == []
  {
  }

  lemma {:induction false} ExpandAppend(img: seq<Byte>, table: seq<nat>, codes: seq<Byte>, c: Byte)
    requires TablePoints(img, table)
    ensures Expand(img, table, codes + [c]) == Expand(img, table, codes) + StrAt(img, table[c])
    decreases codes
  {
    if codes == [] {
      assert [c][1..] == [];
      assert StrAt(img, table[c]) + [] == StrAt(img, table[c]);
    } else {
      ExpandAppend(img, table, codes[1..], c);
      assert (codes + [c])[1..] == codes[1..] + [c];
    }
  }

  // The place of the i-th name, and the name; a bad name is not passed, and
  // leaves the buffer empty.
  function NamePos(img: seq<Byte>, table: seq<nat>, start: nat, i: nat): (p: nat)
    requires TablePoints(img, table)
    ensures p >= start
  {
    if i == 0 then start
    else
      var p := NamePos(img, table, start, i - 1);
      if !NameInside(img, p) || Decode(img, table, p).Bad? then p
      else
        assert Decode(img, table, p).next > p;
        Decode(img, table, p).next
  }

  function NthName(img: seq<Byte>, table: seq<nat>, start: nat, i: nat): seq<Byte>
    requires TablePoints(img, table)
  {
    var p := NamePos(img, table, start, i);
    if NameInside(img, p) && Decode(img, table, p).Name? then Decode(img, table, p).name else []
  }

  // The i-th name lies in the image and fits the buffer.
  predicate NthInside(img: seq<Byte>, table: seq<nat>, start: nat, i: nat)
    requires TablePoints(img, table)
  {
    NameInside(img, NamePos(img, table, start, i)) && |NthName(img, table, start, i)| < SYMBOL_LEN
  }

  predicate NamesInside(img: seq<Byte>, table: seq<nat>, start: nat, n: nat)
    requires TablePoints(img, table)
  {
    forall i: nat {:trigger NthInside(img, table, start, i)} :: i < n ==> NthInside(img, table, start, i)
  }

  // The first n names.
  function Names(img: seq<Byte>, table: seq<nat>, start: nat, n: nat): (names: seq<seq<Byte>>)
    requires TablePoints(img, table)
    ensures |names| == n
    ensures forall i: nat {:trigger NthName(img, table, start, i)} {:trigger names[i]} :: i < n ==> names[i] == NthName(img, table, start, i)
  {
    seq(n, (i: nat) => NthName(img, table, start, i))
  }

  // The first name from the i-th on that is symbol, or the number of names.
  function FirstNamed(names: seq<seq<Byte>>, symbol: seq<Byte>, i: nat): (r: nat)
    requires i <= |names|
    ensures i <= r <= |names|
    ensures r < |names| ==> names[r] == symbol
    ensures forall k :: i <= k < r ==> names[k] != symbol
    decreases |names| - i
  {
    if i == |names| || names[i] == symbol then i else FirstNamed(names, symbol, i + 1)
  }

  lemma FirstNamedStep(names: seq<seq<Byte>>, symbol: seq<Byte>, i: nat)
    requires i < |names|
    ensures FirstNamed(names, symbol, i) == if names[i] == symbol then i else FirstNamed(names, symbol, i + 1)
  {
  }

  // ------------------------------------------------------- what was encoded is read

  datatype Symbol = Symbol(kind: Byte, name: seq<Byte>)

  // How the kernel writes a length.
  function LenBytes(n: nat): (s: seq<Byte>)
    requires n < 0x4000
  {
    if n > 0x7F then [n % 128 + 0x80, n / 128] else [n]
  }

  // The codes of the names, as an image holds them.
  function NamesBytes(codes: seq<seq<Byte>>): seq<Byte>
    requires forall i :: 0 <= i < |codes| ==> |codes[i]| < SYMBOL_LEN
  {
    if codes == [] then [] else LenBytes(|codes[0]|) + codes[0] + NamesBytes(codes[1..])
  }

  function Spelled(tokens: seq<seq<Byte>>, codes: seq<Byte>): seq<Byte>
    requires |tokens| == TOKEN_NUMS
  {
    if codes == [] then [] else tokens[codes[0]] + Spelled(tokens, codes[1..])
  }

  // The codes spell the type and the name of a symbol, and the first of them
  // is a token with at least the type in it.
  predicate Encodes(tokens: seq<seq<Byte>>, codes: seq<Byte>, s: Symbol)
    requires |tokens| == TOKEN_NUMS
  {
    && 0 < |codes| < SYMBOL_LEN && tokens[codes[0]] != []
    && Spelled(tokens, codes) == [s.kind] + s.name && |s.name| < SYMBOL_LEN
  }

  predicate EncodesAll(tokens: seq<seq<Byte>>, codes: seq<seq<Byte>>, syms: seq<Symbol>)
    requires |tokens| == TOKEN_NUMS
  {
    |codes| == |syms| && forall i :: 0 <= i < |codes| ==> Encodes(tokens, codes[i], syms[i])
  }

  // A table whose entries point at the tokens.
  predicate TableOf(img: seq<Byte>, table: seq<nat>, tokens: seq<seq<Byte>>) {
    && TablePoints(img, table) && |tokens| == TOKEN_NUMS
    && forall i :: 0 <= i < TOKEN_NUMS ==> StrAt(img, table[i]) == tokens[i]
  }

  lemma {:induction false} ExpandIsSpelled(img: seq<Byte>, table: seq<nat>, tokens: seq<seq<Byte>>, codes: seq<Byte>)
    requires TableOf(img, table, tokens)
    ensures Expand(img, table, codes) == Spelled(tokens, codes)
    decreases codes
  {
    if codes != [] {
      ExpandIsSpelled(img, table, tokens, codes[1..]);
    }
  }

  // One encoded name is read back.
  lemma NameReadBack(img: seq<Byte>, table: seq<nat>, tokens: seq<seq<Byte>>, pos: nat, codes: seq<Byte>, s: Symbol)
    requires TableOf(img, table, tokens) && Encodes(tokens, codes, s) && At(img, pos, LenBytes(|codes|) + codes)
    ensures NameInside(img, pos)
    ensures Decode(img, table, pos) == Name(pos + |LenBytes(|codes|)| + |codes|, s.kind, s.name)
  {
    hide LenBytes, EndOf, StrAt, NameInside, HeadLen, CodesLen;
    LengthRead(img, pos, codes);
    var p := pos + |LenBytes(|codes|)|;
    SplitBuffer(img, pos, LenBytes(|codes|), codes);
    var c := codes[0];
    assert img[p] == img[p..p + |codes|][0] == c;
    assert img[p + 1..p + |codes|] == img[p..p + |codes|][1..] == codes[1..];
    ExpandIsSpelled(img, table, tokens, codes[1..]);
    var t := tokens[c];
    SkipFirst(img, table[c], t);
    assert Spelled(tokens, codes) == t + Spelled(tokens, codes[1..]);
    TypeAndRest(t, Spelled(tokens, codes[1..]), s.kind, s.name);
  }

  lemma TypeAndRest(t: seq<Byte>, rest: seq<Byte>, kind: Byte, name: seq<Byte>)
    requires t != [] && t + rest == [kind] + name
    ensures t[0] == kind && t[1..] + rest == name
  {
    assert (t + rest)[0] == t[0];
    assert (t + rest)[1..] == t[1..] + rest;
    assert ([kind] + name)[1..] == name;
  }

  lemma SkipFirst(img: seq<Byte>, q: nat, t: seq<Byte>)
    requires q < |img| && StrAt(img, q) == t && t != []
    ensures img[q] == t[0] && StrAt(img, q + 1) == t[1..]
  {
    assert EndOf(img, q) == EndOf(img, q + 1);
    assert img[q..EndOf(img, q)][1..] == img[q + 1..EndOf(img, q)];
  }

  lemma LengthRead(img: seq<Byte>, pos: nat, codes: seq<Byte>)
    requires 0 < |codes| < SYMBOL_LEN && At(img, pos, LenBytes(|codes|) + codes)
    ensures NameInside(img, pos) && HeadLen(img, pos) == |LenBytes(|codes|)| && CodesLen(img, pos) == |codes|
  {
    var n := |codes|;
    var h := LenBytes(n);
    SplitBuffer(img, pos, h, codes);
    assert img[pos] == img[pos..pos + |h|][0] == h[0];
    if n > 0x7F {
      assert img[pos + 1] == img[pos..pos + |h|][1] == h[1];
    }
  }

  // Every encoded name is found at its place, with its type.
  lemma {:induction false} NamesReadBack(
    img: seq<Byte>, table: seq<nat>, tokens: seq<seq<Byte>>, start: nat, codes: seq<seq<Byte>>, syms: seq<Symbol>, i: nat)
    requires TableOf(img, table, tokens) && EncodesAll(tokens, codes, syms)
    requires At(img, start, NamesBytes(codes)) && i < |codes|
    ensures NamePos(img, table, start, i) == start + |NamesBytes(codes[..i])|
    ensures var p := NamePos(img, table, start, i);
            NameInside(img, p) && Decode(img, table, p) == Name(p + |LenBytes(|codes[i]|)| + |codes[i]|, syms[i].kind, syms[i].name)
    decreases i
  {
    hide LenBytes, Decode, Written;
    var p := start + |NamesBytes(codes[..i])|;
    NameLies(img, start, codes, i);
    NameReadBack(img, table, tokens, p, codes[i], syms[i]);
    assert NamePos(img, table, start, i) == p by {
      if i == 0 {
        assert codes[..0] == [];
      } else {
        NamesReadBack(img, table, tokens, start, codes, syms, i - 1);
        NamesOneMore(codes, i - 1);
      }
    }
  }

  lemma {:induction false} NamesOneMore(codes: seq<seq<Byte>>, i: nat)
    requires i < |codes| && forall k :: 0 <= k < |codes| ==> |codes[k]| < SYMBOL_LEN
    ensures |NamesBytes(codes[..i + 1])| == |NamesBytes(codes[..i])| + |LenBytes(|codes[i]|)| + |codes[i]|
    decreases i
  {
    var a, b := codes[..i], codes[..i + 1];
    if i == 0 {
      assert b[1..] == [] && a == [];
    } else {
      NamesOneMore(codes[1..], i - 1);
      assert a[1..] == codes[1..][..i - 1] && b[1..] == codes[1..][..i];
    }
  }

  lemma {:induction false} NameLies(img: seq<Byte>, start: nat, codes: seq<seq<Byte>>, i: nat)
    requires forall k :: 0 <= k < |codes| ==> |codes[k]| < SYMBOL_LEN
    requires At(img, start, NamesBytes(codes)) && i < |codes|
    ensures At(img, start + |NamesBytes(codes[..i])|, LenBytes(|codes[i]|) + codes[i])
    decreases i
  {
    var first := LenBytes(|codes[0]|) + codes[0];
    SplitBuffer(img, start, first, NamesBytes(codes[1..]));
    if i > 0 {
      NameLies(img, start + |first|, codes[1..], i - 1);
      assert codes[..i][1..] == codes[1..][..i - 1];
    }
  }

  // The lookup finds the first symbol of that name, if there is one.
  lemma LookupFindsFirst(
    img: seq<Byte>, table: seq<nat>, tokens: seq<seq<Byte>>, start: nat, codes: seq<seq<Byte>>, syms: seq<Symbol>, symbol: seq<Byte>)
    requires TableOf(img, table, tokens) && EncodesAll(tokens, codes, syms) && At(img, start, NamesBytes(codes))
    ensures NamesInside(img, table, start, |syms|)
    ensures var r := FirstNamed(Names(img, table, start, |syms|), symbol, 0);
            && (r < |syms| ==> syms[r].name == symbol)
            && (forall k :: 0 <= k < r ==> syms[k].name != symbol)
  {
    forall i: nat {:trigger NthName(img, table, start, i)} {:trigger NthInside(img, table, start, i)} | i < |syms|
      ensures NthName(img, table, start, i) == syms[i].name && NthInside(img, table, start, i)
    {
      NamesReadBack(img, table, tokens, start, codes, syms, i);
      assert Encodes(tokens, codes[i], syms[i]);
    }
    hide NthName, NthInside, TableOf, EncodesAll;
    var names := Names(img, table, start, |syms|);
    var r := FirstNamed(names, symbol, 0);
    forall k | 0 <= k < r ensures syms[k].name != symbol {
      assert names[k] == NthName(img, table, start, k);
    }
  }

  lemma FirstPos(img: seq<Byte>, table: seq<nat>, start: nat)
    requires TablePoints(img, table)
    ensures NamePos(img, table, start, 0) == start
  {
  }

  // One round of a lookup.
  lemma NameStep(img: seq<Byte>, table: seq<nat>, start: nat, n: nat, i: nat)
    requires TablePoints(img, table) && i < n && NamesInside(img, table, start, n)
    ensures var p := NamePos(img, table, start, i);
            && NameInside(img, p)
            && match Decode(img, table, p)
               case Bad => NamePos(img, table, start, i + 1) == p && NthName(img, table, start, i) == []
               case Name(next, _, name) => NamePos(img, table, start, i + 1) == next && NthName(img, table, start, i) == name
  {
    assert NthInside(img, table, start, i);
  }

  // ------------------------------------------------------------------- the class

  class Kallsym {
    // Places of the 256 token strings.
    const tokenTable: array<nat>
    var tokenTableAt: nat
    var tokenIndexAt: nat
    var isBe: bool
    var namesAt: nat
    var numSyms: nat
    var hasRelativeBase: bool
    var offsetsAt: nat
    var addressesAt: nat
    var kernelBase: nat
    const is64: bool

    constructor (is64: bool)
      ensures tokenTable.Length == TOKEN_NUMS && fresh(tokenTable) && this.is64 == is64
    {
      tokenTable := new nat[TOKEN_NUMS];
      this.is64 := is64;
      hasRelativeBase, isBe := false, false;
    }

    // The rebuild of the token table in find_token_table.
    method BuildTokenTable(img: seq<Byte>)
      requires tokenTable.Length == TOKEN_NUMS && TableInside(img, tokenTableAt)
      modifies tokenTable
      ensures forall i: nat {:trigger TokenPos(img, tokenTableAt, i)} :: i < TOKEN_NUMS ==>
        tokenTable[i] == TokenPos(img, tokenTableAt, i) < |img|
    {
      var pos := tokenTableAt;
      var i := 0;
      while i < TOKEN_NUMS
        invariant i <= TOKEN_NUMS && pos == TokenPos(img, tokenTableAt, i)
        invariant forall k: nat {:trigger TokenPos(img, tokenTableAt, k)} :: k < i ==>
          tokenTable[k] == TokenPos(img, tokenTableAt, k) < |img|
      {
        tokenTable[i] := pos;
        ghost var end := EndOf(img, pos);
        while img[pos] != 0
          invariant TokenPos(img, tokenTableAt, i) <= pos <= end && EndOf(img, pos) == end < |img|
          decreases end - pos
        {
          pos := pos + 1;
        }
        pos := pos + 1;
        assert pos == TokenPos(img, tokenTableAt, i + 1);
        i := i + 1;
      }
    }

    // find_token_index: the little-endian form of the index is preferred.
    method FindTokenIndex(img: seq<Byte>) returns (rc: int)
      requires TableInside(img, tokenTableAt)
      modifies this`tokenIndexAt, this`isBe
      ensures rc == 0 || rc == -1
      ensures rc == -1 <==> forall j: nat, be: bool {:trigger OccursAt(img, IndexBytes(img, tokenTableAt, TOKEN_NUMS, be), j)} ::
        !OccursAt(img, IndexBytes(img, tokenTableAt, TOKEN_NUMS, be), j)
      ensures rc == 0 ==>
        && OccursAt(img, IndexBytes(img, tokenTableAt, TOKEN_NUMS, isBe), tokenIndexAt)
        && (isBe ==> forall j: nat :: !OccursAt(img, IndexBytes(img, tokenTableAt, TOKEN_NUMS, false), j))
    {
      var le: seq<Byte>, be: seq<Byte> := [], [];
      var offset := tokenTableAt;
      var i := 0;
      while i < TOKEN_NUMS
        invariant i <= TOKEN_NUMS && offset == TokenPos(img, tokenTableAt, i)
        invariant le == IndexBytes(img, tokenTableAt, i, false) && be == IndexBytes(img, tokenTableAt, i, true)
      {
        var index := (offset - tokenTableAt) % 0x1_0000;
        le, be := le + U16(index, false), be + U16(index, true);
        ghost var end := EndOf(img, offset);
        while img[offset] != 0
          invariant TokenPos(img, tokenTableAt, i) <= offset <= end && EndOf(img, offset) == end < |img|
          decreases end - offset
        {
          offset := offset + 1;
        }
        offset := offset + 1;
        assert offset == TokenPos(img, tokenTableAt, i + 1);
        i := i + 1;
      }
      var lepos := MemMem(img, le);
      var bepos := MemMem(img, be);
      hide IndexBytes, TokenPos, EndOf, OccursAt;
      if lepos < 0 && bepos < 0 {
        forall j: nat, b: bool ensures !OccursAt(img, IndexBytes(img, tokenTableAt, TOKEN_NUMS, b), j) {
          assert IndexBytes(img, tokenTableAt, TOKEN_NUMS, b) == if b then be else le;
        }
        return -1;
      }
      isBe := lepos < 0;
      tokenIndexAt := if lepos >= 0 then lepos else bepos;
      rc := 0;
      assert OccursAt(img, IndexBytes(img, tokenTableAt, TOKEN_NUMS, isBe), tokenIndexAt);
    }

    // decompress_symbol_name, with an empty buffer for the name.
    method DecompressSymbolName(img: seq<Byte>, posToNext: nat) returns (rc: int, next: nat, kind: Byte, name: seq<Byte>)
      requires TablePoints(img, tokenTable[..]) && NameInside(img, posToNext)
      ensures match Decode(img, tokenTable[..], posToNext)
              case Bad => rc == -1 && next == posToNext && name == []
              case Name(n, k, s) => rc == 0 && next == n && kind == k && name == s
    {
      hide Expand, StrAt, EndOf;
      ghost var table := tokenTable[..];
      var pos := posToNext;
      var len: nat := img[pos];
      kind, name, next := 0, [], posToNext;
      pos := pos + 1;
      if len > 0x7F {
        len, pos := len - 0x80 + img[pos] as int * 128, pos + 1;
      }
      if len == 0 || len >= SYMBOL_LEN { return -1, next, kind, name; }
      next := pos + len;
      var i := 0;
      while i < len
        invariant i <= len && name == Written(img, table, pos, i)
        invariant i > 0 ==> kind == img[table[img[pos]]]
      {
        var token := tokenTable[img[pos + i]];
        if i == 0 {
          kind := img[token];
          token := token + 1;
        }
        WrittenStep(img, table, pos, i);
        hide Written;
        name := name + StrAt(img, token);
        i := i + 1;
      }
      rc := 0;
    }

    // The element of a symbol: a 32-bit offset, or an address.
    function ElementSize(): (n: nat)
      reads this
      ensures n == 4 || n == 8
    {
      if !hasRelativeBase && is64 then 8 else 4
    }

    function ElementPos(index: nat): nat
      reads this
    {
      (if hasRelativeBase then offsetsAt else addressesAt) + (if ElementSize() == 8 then 8 * index else 4 * index)
    }

    predicate IndexInside(img: seq<Byte>, index: nat)
      reads this
    {
      ElementPos(index) + ElementSize() <= |img|
    }

    predicate ElementsInside(img: seq<Byte>)
      reads this
    {
      forall i: nat {:trigger IndexInside(img, i)} :: i < numSyms ==> IndexInside(img, i)
    }

    lemma ElementInside(img: seq<Byte>, index: nat)
      requires ElementsInside(img) && index < numSyms
      ensures IndexInside(img, index)
    {
    }

    // get_symbol_index_offset: the offset from the kernel's start, as an int32.
    function OffsetOf(img: seq<Byte>, index: nat): int
      requires IndexInside(img, index)
      reads this
    {
      var pos := ElementPos(index);
      var target := Unpack(img[pos..pos + ElementSize()], isBe);
      if hasRelativeBase then Int32(target)
      else Int32((target + 0x1_0000_0000_0000_0000 - kernelBase % 0x1_0000_0000_0000_0000) % 0x1_0000_0000_0000_0000)
    }

    // The image holds the offset of a symbol: as an int32, or as the symbol's address.
    predicate HoldsOffset(img: seq<Byte>, index: nat, offset: int)
      requires -0x8000_0000 <= offset
      reads this
    {
      if hasRelativeBase then
        At(img, offsetsAt + 4 * index, Ordered(4, if offset >= 0 then offset else offset + 0x1_0000_0000, isBe))
      else if is64 then
        && 0 <= kernelBase + offset < 0x1_0000_0000_0000_0000
        && At(img, addressesAt + 8 * index, Ordered(8, kernelBase + offset, isBe))
      else
        && 0 <= kernelBase + offset < 0x1_0000_0000
        && At(img, addressesAt + 4 * index, Ordered(4, kernelBase + offset, isBe))
    }

    lemma OffsetReadBack(img: seq<Byte>, index: nat, offset: int)
      requires -0x8000_0000 <= offset < 0x8000_0000 && HoldsOffset(img, index, offset)
      ensures IndexInside(img, index) && OffsetOf(img, index) == offset
    {
      hide Le, Ordered, Unpack;
      RadixValues();
      if hasRelativeBase {
        OrderedReads(4, if offset >= 0 then offset else offset + 0x1_0000_0000, isBe);
      } else {
        OrderedReads(if is64 then 8 else 4, kernelBase + offset, isBe);
        Difference64(kernelBase, offset);
      }
    }

    // get_symbol_offset
    method GetSymbolOffset(img: seq<Byte>, symbol: seq<Byte>) returns (offset: int)
      requires TablePoints(img, tokenTable[..]) && NamesInside(img, tokenTable[..], namesAt, numSyms)
      requires ElementsInside(img)
      ensures var r := FirstNamed(Names(img, tokenTable[..], namesAt, numSyms), symbol, 0);
              r < numSyms ==> IndexInside(img, r)
      ensures var r := FirstNamed(Names(img, tokenTable[..], namesAt, numSyms), symbol, 0);
              offset == if r < numSyms then OffsetOf(img, r) else -1
    {
      hide *;
      ghost var table := tokenTable[..];
      ghost var names := Names(img, table, namesAt, numSyms);
      FirstPos(img, table, namesAt);
      var pos := namesAt;
      var i := 0;
      while i < numSyms
        invariant i <= numSyms && pos == NamePos(img, table, namesAt, i)
        invariant FirstNamed(names, symbol, 0) == FirstNamed(names, symbol, i)
      {
        NameStep(img, table, namesAt, numSyms, i);
        FirstNamedStep(names, symbol, i);
        ElementInside(img, i);
        var rc, next, kind, decomp := DecompressSymbolName(img, pos);
        if decomp == symbol {
          return OffsetOf(img, i);
        }
        pos := next;
        i := i + 1;
      }
      offset := -1;
    }

    // The distance to the next symbol at another offset, 0 if there is none.
    function SizeFrom(img: seq<Byte>, offset: int, j: nat): int
      requires ElementsInside(img)
      reads this
      decreases numSyms - j
    {
      if j >= numSyms then 0
      else
        assert IndexInside(img, j);
        if OffsetOf(img, j) != offset then OffsetOf(img, j) - offset
        else SizeFrom(img, offset, j + 1)
    }

    // While k - j symbols share the offset, the next one decides.
    lemma {:induction false} SizeIsDistance(img: seq<Byte>, offset: int, j: nat, k: nat)
      requires ElementsInside(img) && j <= k <= numSyms
      requires forall m: nat {:trigger IndexInside(img, m)} :: j <= m < k ==> IndexInside(img, m) && OffsetOf(img, m) == offset
      ensures k == numSyms ==> SizeFrom(img, offset, j) == 0
      ensures k < numSyms ==> IndexInside(img, k)
      ensures k < numSyms && OffsetOf(img, k) != offset ==> SizeFrom(img, offset, j) == OffsetOf(img, k) - offset
      decreases k - j
    {
      hide OffsetOf, IndexInside;
      assert k < numSyms ==> IndexInside(img, k);
      if j < k {
        assert IndexInside(img, j);
        forall m: nat | j + 1 <= m < k ensures IndexInside(img, m) && OffsetOf(img, m) == offset {
          assert j <= m && IndexInside(img, m);
        }
        SizeIsDistance(img, offset, j + 1, k);
      }
    }

    method SizeAfter(img: seq<Byte>, offset: int, first: nat) returns (size: int)
      requires first <= numSyms && ElementsInside(img)
      ensures size == SizeFrom(img, offset, first)
    {
      hide OffsetOf, IndexInside;
      size := 0;
      var j := first;
      while j < numSyms
        invariant first <= j <= numSyms && size == 0 && SizeFrom(img, offset, first) == SizeFrom(img, offset, j)
      {
        assert IndexInside(img, j);
        var nextOffset := OffsetOf(img, j);
        if nextOffset != offset { return nextOffset - offset; }
        j := j + 1;
      }
    }

    // get_symbol_offset_and_size
    method GetSymbolOffsetAndSize(img: seq<Byte>, symbol: seq<Byte>) returns (offset: int, size: int)
      requires TablePoints(img, tokenTable[..]) && NamesInside(img, tokenTable[..], namesAt, numSyms)
      requires ElementsInside(img)
      ensures var r := FirstNamed(Names(img, tokenTable[..], namesAt, numSyms), symbol, 0);
              r < numSyms ==> IndexInside(img, r)
      ensures var r := FirstNamed(Names(img, tokenTable[..], namesAt, numSyms), symbol, 0);
              && offset == (if r < numSyms then OffsetOf(img, r) else -1)
              && size == (if r < numSyms then SizeFrom(img, OffsetOf(img, r), r + 1) else 0)
    {
      hide *;
      ghost var table := tokenTable[..];
      ghost var names := Names(img, table, namesAt, numSyms);
      FirstPos(img, table, namesAt);
      size := 0;
      var pos := namesAt;
      var i := 0;
      while i < numSyms
        invariant i <= numSyms && pos == NamePos(img, table, namesAt, i) && size == 0
        invariant FirstNamed(names, symbol, 0) == FirstNamed(names, symbol, i)
      {
        NameStep(img, table, namesAt, numSyms, i);
        FirstNamedStep(names, symbol, i);
        ElementInside(img, i);
        var rc, next, kind, decomp := DecompressSymbolName(img, pos);
        if decomp == symbol {
          offset := OffsetOf(img, i);
          size := SizeAfter(img, offset, i + 1);
          return;
        }
        pos := next;
        i := i + 1;
      }
      offset := -1;
    }
  }
}
