// Counting bits: hweight64 as the tools compute it, against the number of set bits.
module BitCounts {
  import opened Bits
  import opened BitFields

  // The number of set bits.
  function PopCount(w: nat): nat {
    if w == 0 then 0 else w % 2 + PopCount(w / 2)
  }

  // ------------------------------------------------------------------- hweight64

  // A pattern repeated n times in digits of a base.
  function Pattern(d: nat, base: nat, n: nat): nat {
    if n == 0 then 0 else base * Pattern(d, base, n - 1) + d
  }

  lemma AndDigit2(a: nat, x: nat, b: nat, y: nat)
    requires x < 2 && y < 2
    ensures And(2 * a + x, 2 * b + y) == 2 * And(a, b) + And(x, y)
  {
    assert (2 * a + x) / 2 == a && (2 * a + x) % 2 == x && (2 * b + y) / 2 == b && (2 * b + y) % 2 == y;
    if y == 1 {
      AndOdd(2 * a + x, b);
      AndOdd(x, 0);
    } else {
      AndEven(2 * a + x, b);
      AndEven(x, 0);
    }
  }

  // Digit-wise and: the low k bits apart from the rest.
  lemma {:induction false} AndDigit(a: nat, x: nat, b: nat, y: nat, k: nat)
    requires x < Pow2(k) && y < Pow2(k)
    ensures And(Shl(a, k) + x, Shl(b, k) + y) == Shl(And(a, b), k) + And(x, y)
    decreases k
  {
    hide And;
    if k > 0 {
      AndDigit2(Shl(a, k - 1) + x / 2, x % 2, Shl(b, k - 1) + y / 2, y % 2);
      AndDigit(a, x / 2, b, y / 2, k - 1);
      AndDigit2(x / 2, x % 2, y / 2, y % 2);
    }
  }

  // The same for digits of a given base.
  lemma AndDigitOf(a: nat, x: nat, b: nat, y: nat, k: nat, base: nat)
    requires base == Pow2(k) && x < base && y < base
    ensures And(base * a + x, base * b + y) == base * And(a, b) + And(x, y)
  {
    ShlBy(a, k);
    ShlBy(b, k);
    ShlBy(And(a, b), k);
    AndDigit(a, x, b, y, k);
  }

  // ---- the three masks, digit by digit

  function Mask55(x: nat, n: nat): nat {
    if n == 0 then 0 else 4 * Mask55(x / 4, n - 1) + x % 2
  }

  function Mask33(x: nat, n: nat): nat {
    if n == 0 then 0 else 16 * Mask33(x / 16, n - 1) + x % 4
  }

  function Mask0F(x: nat, n: nat): nat {
    if n == 0 then 0 else 256 * Mask0F(x / 256, n - 1) + x % 16
  }

  // One digit of a mask: its low j bits.
  lemma MaskDigit(a: nat, d: nat, p: nat, m: nat, k: nat, base: nat, j: nat)
    requires base == Pow2(k) && m + 1 == Pow2(j) && m < base && d < base
    ensures And(base * a + d, base * p + m) == base * And(a, p) + d % (m + 1)
  {
    AndDigitOf(a, d, p, m, k, base);
    AndLowMask(d, j);
  }

  lemma {:induction false} And55(x: nat, n: nat)
    ensures And(x, Pattern(1, 4, n)) == Mask55(x, n)
    decreases n
  {
    if n > 0 {
      PairMask(x, Pattern(1, 4, n - 1));
      And55(x / 4, n - 1);
    }
  }

  lemma PairMask(x: nat, p: nat)
    ensures And(x, 4 * p + 1) == 4 * And(x / 4, p) + x % 2
  {
    AndOdd(x, 2 * p);
    AndEven(x / 2, p);
    assert x / 2 / 2 == x / 4;
  }

  lemma {:induction false} And33(x: nat, n: nat)
    ensures And(x, Pattern(3, 16, n)) == Mask33(x, n)
    decreases n
  {
    hide And, Pow2;
    if n > 0 {
      MorePowersInUse();
      PowersInUse();
      MaskDigit(x / 16, x % 16, Pattern(3, 16, n - 1), 3, 4, 16, 2);
      And33(x / 16, n - 1);
      Mod16(x);
    }
  }

  lemma {:induction false} And0F(x: nat, n: nat)
    ensures And(x, Pattern(15, 256, n)) == Mask0F(x, n)
    decreases n
  {
    if n > 0 {
      PowersInUse();
      MaskDigit(x / 256, x % 256, Pattern(15, 256, n - 1), 15, 8, 256, 4);
      And0F(x / 256, n - 1);
      Mod256(x);
    }
  }

  lemma Mod16(x: nat)
    ensures x % 16 % 4 == x % 4
  {
    DivModUnique(x, 4, 4 * (x / 16) + x % 16 / 4, x % 16 % 4);
  }

  lemma Mod256(x: nat)
    ensures x % 256 % 16 == x % 16
  {
    DivModUnique(x, 16, 16 * (x / 256) + x % 256 / 16, x % 256 % 16);
  }

  // ---- first line: every two bits become their count

  function Pairs(w: nat, n: nat): nat {
    if n == 0 then 0 else 4 * Pairs(w / 4, n - 1) + (w % 2 + w / 2 % 2)
  }

  lemma LowPair(w: nat)
    ensures w == 4 * (w / 4) + w % 2 + 2 * (w / 2 % 2)
  {
  }

  lemma EighthEitherWay(w: nat)
    ensures w / 2 / 4 == w / 4 / 2
  {
  }

  lemma {:induction false} PairsAre(w: nat, n: nat)
    requires w < Pow2(2 * n)
    ensures w == Pairs(w, n) + Mask55(w / 2, n)
    decreases n
  {
    if n > 0 {
      assert Pow2(2 * n) == 4 * Pow2(2 * (n - 1));
      PairsAre(w / 4, n - 1);
      LowPair(w);
      EighthEitherWay(w);
    }
  }

  // ---- second line: every four bits become their count

  function Quads(w: nat, n: nat): nat {
    if n == 0 then 0 else 16 * Quads(w / 16, n - 1) + (w % 2 + w / 2 % 2 + w / 4 % 2 + w / 8 % 2)
  }

  lemma {:induction false} QuadsAre(w: nat, n: nat)
    ensures Mask33(Pairs(w, 2 * n), n) + Mask33(Pairs(w, 2 * n) / 4, n) == Quads(w, n)
    decreases n
  {
    if n > 0 {
      var r := Pairs(w / 16, 2 * (n - 1));
      var p0, p1 := w % 2 + w / 2 % 2, w / 4 % 2 + w / 8 % 2;
      TwoPairs(w, n);
      QuadDigits(r, p1, p0);
      QuadsAre(w / 16, n - 1);
    }
  }

  lemma TwoPairs(w: nat, n: nat)
    requires n > 0
    ensures Pairs(w, 2 * n) == 16 * Pairs(w / 16, 2 * (n - 1)) + 4 * (w / 4 % 2 + w / 8 % 2) + (w % 2 + w / 2 % 2)
  {
    var h := w / 4;
    assert h / 4 == w / 16 && h / 2 == w / 8;
    assert Pairs(w, 2 * n) == 4 * Pairs(h, 2 * n - 1) + (w % 2 + w / 2 % 2);
    assert Pairs(h, 2 * n - 1) == 4 * Pairs(h / 4, 2 * n - 2) + (h % 2 + h / 2 % 2);
  }

  lemma QuadDigits(r: nat, p1: nat, p0: nat)
    requires p0 < 4 && p1 < 4
    ensures var x := 16 * r + 4 * p1 + p0;
      x / 16 == r && x % 4 == p0 && x / 4 / 16 == r / 4 && x / 4 % 4 == p1
  {
    var x := 16 * r + 4 * p1 + p0;
    assert x / 4 == 4 * r + p1;
  }

  // ---- third line: every byte becomes its count

  function ByteCounts(w: nat, n: nat): nat {
    if n == 0 then 0 else 256 * ByteCounts(w / 256, n - 1) + (Nibble(w) + Nibble(w / 16))
  }

  function Nibble(w: nat): (c: nat)
    ensures c <= 4
  {
    w % 2 + w / 2 % 2 + w / 4 % 2 + w / 8 % 2
  }

  lemma {:induction false} ByteCountsAre(w: nat, n: nat)
    ensures Mask0F(Quads(w, 2 * n) + Quads(w, 2 * n) / 16, n) == ByteCounts(w, n)
    decreases n
  {
    hide Nibble, Quads;
    if n > 0 {
      var r := Quads(w / 256, 2 * (n - 1));
      TwoQuads(w, n);
      QuadDigit(w / 256, 2 * (n - 1));
      ByteDigits(r, Nibble(w / 16), Nibble(w));
      ByteCountsAre(w / 256, n - 1);
    }
  }

  lemma TwoQuads(w: nat, n: nat)
    requires n > 0
    ensures Quads(w, 2 * n) == 256 * Quads(w / 256, 2 * (n - 1)) + 16 * Nibble(w / 16) + Nibble(w)
  {
    var h := w / 16;
    assert h / 16 == w / 256;
    assert Quads(w, 2 * n) == 16 * Quads(h, 2 * n - 1) + Nibble(w);
    assert Quads(h, 2 * n - 1) == 16 * Quads(h / 16, 2 * n - 2) + Nibble(h);
  }

  lemma QuadDigit(w: nat, n: nat)
    ensures Quads(w, n) % 16 <= 4
  {
    if n > 0 {
      LastDigit(Quads(w / 16, n - 1), Nibble(w));
    }
  }

  lemma ByteDigits(r: nat, q1: nat, q0: nat)
    requires q0 <= 4 && q1 <= 4 && r % 16 <= 4
    ensures var x := 256 * r + 16 * q1 + q0;
      (x + x / 16) / 256 == r + r / 16 && (x + x / 16) % 16 == q0 + q1
  {
    var x := 256 * r + 16 * q1 + q0;
    assert x / 16 == 16 * r + q1;
    var k, t := r + r / 16, r % 16 + q1;
    assert x + x / 16 == 16 * t + (q0 + q1) + 0x100 * k;
    DropByte(16 * t + (q0 + q1), k);
    LastDigit(16 * k + t, q0 + q1);
  }

  lemma LastDigit(a: nat, d: nat)
    requires d < 16
    ensures (16 * a + d) % 16 == d
  {
  }

  // ---- the last three lines: the bytes are added up

  function Digits8(c0: nat, c1: nat, c2: nat, c3: nat, c4: nat, c5: nat, c6: nat, c7: nat): nat {
    c0 + 0x100 * c1 + 0x1_0000 * c2 + 0x100_0000 * c3 + 0x1_0000_0000 * c4
    + 0x100_0000_0000 * c5 + 0x1_0000_0000_0000 * c6 + 0x100_0000_0000_0000 * c7
  }

  lemma DropByte(c0: nat, r: nat)
    requires c0 < 0x100
    ensures (c0 + 0x100 * r) / 0x100 == r
  {
  }

  lemma DropTwo(c: nat, r: nat)
    requires c < 0x1_0000
    ensures (c + 0x1_0000 * r) / 0x1_0000 == r
  {
  }

  lemma DropFour(c: nat, r: nat)
    requires c < 0x1_0000_0000
    ensures (c + 0x1_0000_0000 * r) / 0x1_0000_0000 == r
  {
  }

  // Adding up eight bytes of at most eight each.
  lemma ByteSum(c0: nat, c1: nat, c2: nat, c3: nat, c4: nat, c5: nat, c6: nat, c7: nat)
    requires c0 <= 8 && c1 <= 8 && c2 <= 8 && c3 <= 8 && c4 <= 8 && c5 <= 8 && c6 <= 8 && c7 <= 8
    ensures FoldBytes(Digits8(c0, c1, c2, c3, c4, c5, c6, c7)) % 0x100 == c0 + c1 + c2 + c3 + c4 + c5 + c6 + c7
  {
    hide Digits8;
    FirstFold(c0, c1, c2, c3, c4, c5, c6, c7);
    SecondFold(c0 + c1, c1 + c2, c2 + c3, c3 + c4, c4 + c5, c5 + c6, c6 + c7, c7);
    LastFold(c0 + c1 + c2 + c3, c1 + c2 + c3 + c4, c2 + c3 + c4 + c5, c3 + c4 + c5 + c6, c4 + c5 + c6 + c7,
      c5 + c6 + c7, c6 + c7, c7);
  }

  lemma FirstFold(c0: nat, c1: nat, c2: nat, c3: nat, c4: nat, c5: nat, c6: nat, c7: nat)
    requires c0 < 0x100
    ensures var r := Digits8(c0, c1, c2, c3, c4, c5, c6, c7);
      r + r / 0x100 == Digits8(c0 + c1, c1 + c2, c2 + c3, c3 + c4, c4 + c5, c5 + c6, c6 + c7, c7)
  {
    DropByte(c0, Digits8(c1, c2, c3, c4, c5, c6, c7, 0));
  }

  lemma SecondFold(c0: nat, c1: nat, c2: nat, c3: nat, c4: nat, c5: nat, c6: nat, c7: nat)
    requires c0 < 0x100 && c1 < 0x100
    ensures var r := Digits8(c0, c1, c2, c3, c4, c5, c6, c7);
      r + r / 0x1_0000 == Digits8(c0 + c2, c1 + c3, c2 + c4, c3 + c5, c4 + c6, c5 + c7, c6, c7)
  {
    DropTwo(c0 + 0x100 * c1, Digits8(c2, c3, c4, c5, c6, c7, 0, 0));
  }

  lemma LastFold(d0: nat, d1: nat, d2: nat, d3: nat, d4: nat, d5: nat, d6: nat, d7: nat)
    requires d0 <= 32 && d1 <= 32 && d2 <= 32 && d3 <= 32 && d4 <= 32 && d5 <= 32 && d6 <= 32 && d7 <= 32
    ensures var r := Digits8(d0, d1, d2, d3, d4, d5, d6, d7); (r + r / 0x1_0000_0000) % 0x100 == d0 + d4
  {
    var r := Digits8(d0, d1, d2, d3, d4, d5, d6, d7);
    var low, up := d0 + 0x100 * d1 + 0x1_0000 * d2 + 0x100_0000 * d3, d4 + 0x100 * d5 + 0x1_0000 * d6 + 0x100_0000 * d7;
    assert r == low + 0x1_0000_0000 * up;
    DropFour(low, up);
    var rest := d1 + d5 + 0x100 * (d2 + d6) + 0x1_0000 * (d3 + d7) + 0x100_0000 * up;
    assert r + up == (d0 + d4) + 0x100 * rest;
    assert ((d0 + d4) + 0x100 * rest) % 0x100 == d0 + d4;
  }

  function FoldBytes(r3: nat): nat {
    var r4 := r3 + r3 / 0x100;
    var r5 := r4 + r4 / 0x1_0000;
    r5 + r5 / 0x1_0000_0000
  }

  // hweight64, line by line
  function Weight1(w: nat): int { w - And(w / 2, 0x5555_5555_5555_5555) }
  function Weight2(r: nat): nat { And(r, 0x3333_3333_3333_3333) + And(r / 4, 0x3333_3333_3333_3333) }
  function Weight3(r: nat): nat { And(r + r / 16, 0x0F0F_0F0F_0F0F_0F0F) }
  function Weight4(r: nat): nat { And(FoldBytes(r), 0xFF) }

  function HammingWeight(w: nat): nat {
    WeightPositive(w);
    Weight4(Weight3(Weight2(Weight1(w))))
  }

  lemma WeightPositive(w: nat)
    ensures Weight1(w) >= 0
  {
  }

  lemma Patterns()
    ensures Pattern(1, 4, 32) == 0x5555_5555_5555_5555
    ensures Pattern(3, 16, 16) == 0x3333_3333_3333_3333
    ensures Pattern(15, 256, 8) == 0x0F0F_0F0F_0F0F_0F0F
  {
    assert Pattern(1, 4, 8) == 0x5555;
    assert Pattern(1, 4, 16) == 0x5555_5555;
    assert Pattern(1, 4, 24) == 0x5555_5555_5555;
    assert Pattern(3, 16, 8) == 0x3333_3333;
  }

  // The count of a byte, and the counts of the bytes of a word.
  function ByteCount(w: nat): (c: nat)
    ensures c <= 8
  {
    Nibble(w) + Nibble(w / 16)
  }

  lemma FourBytes(w: nat, n: nat)
    ensures ByteCounts(w, n + 4) == ByteCount(w) + 0x100 * ByteCount(w / 256) + 0x1_0000 * ByteCount(w / 256 / 256)
      + 0x100_0000 * ByteCount(w / 256 / 256 / 256) + 0x1_0000_0000 * ByteCounts(w / 256 / 256 / 256 / 256, n)
  {
    var w1 := w / 256;
    var w2 := w1 / 256;
    var w3 := w2 / 256;
    assert ByteCounts(w, n + 4) == 256 * ByteCounts(w1, n + 3) + ByteCount(w);
    assert ByteCounts(w1, n + 3) == 256 * ByteCounts(w2, n + 2) + ByteCount(w1);
    assert ByteCounts(w2, n + 2) == 256 * ByteCounts(w3, n + 1) + ByteCount(w2);
    assert ByteCounts(w3, n + 1) == 256 * ByteCounts(w3 / 256, n) + ByteCount(w3);
  }

  // The counts of n bytes, added up.
  function CountSum(w: nat, n: nat): nat {
    if n == 0 then 0 else ByteCount(w) + CountSum(w / 256, n - 1)
  }

  lemma {:induction false} PopByBytes(w: nat, n: nat)
    requires w < Pow2(8 * n)
    ensures PopCount(w) == CountSum(w, n)
    decreases n
  {
    hide ByteCount;
    if n > 0 {
      PowersInUse();
      PowAdds(8 * (n - 1));
      PopOfByte(w);
      PopByBytes(w / 256, n - 1);
    }
  }

  lemma PowAdds(k: nat)
    ensures Pow2(k + 8) == 256 * Pow2(k)
  {
    assert Pow2(k + 8) == 4 * Pow2(k + 6) && Pow2(k + 6) == 4 * Pow2(k + 4);
    assert Pow2(k + 4) == 4 * Pow2(k + 2) && Pow2(k + 2) == 4 * Pow2(k);
  }

  lemma PopOfByte(w: nat)
    ensures PopCount(w) == ByteCount(w) + PopCount(w / 256)
  {
    PopOfNibble(w);
    PopOfNibble(w / 16);
    assert w / 16 / 16 == w / 256;
  }

  lemma PopOfNibble(w: nat)
    ensures PopCount(w) == Nibble(w) + PopCount(w / 16)
  {
    assert w / 2 / 2 == w / 4 && w / 4 / 2 == w / 8 && w / 8 / 2 == w / 16;
    assert PopCount(w) == w % 2 + PopCount(w / 2);
    assert PopCount(w / 2) == w / 2 % 2 + PopCount(w / 4);
    assert PopCount(w / 4) == w / 4 % 2 + PopCount(w / 8);
    assert PopCount(w / 8) == w / 8 % 2 + PopCount(w / 16);
  }

  lemma FourCounts(w: nat, n: nat)
    ensures CountSum(w, n + 4) == ByteCount(w) + ByteCount(w / 256) + ByteCount(w / 256 / 256)
      + ByteCount(w / 256 / 256 / 256) + CountSum(w / 256 / 256 / 256 / 256, n)
  {
    var w1 := w / 256;
    var w2 := w1 / 256;
    var w3 := w2 / 256;
    assert CountSum(w, n + 4) == ByteCount(w) + CountSum(w1, n + 3);
    assert CountSum(w1, n + 3) == ByteCount(w1) + CountSum(w2, n + 2);
    assert CountSum(w2, n + 2) == ByteCount(w2) + CountSum(w3, n + 1);
    assert CountSum(w3, n + 1) == ByteCount(w3) + CountSum(w3 / 256, n);
  }

  lemma CountSum8(w: nat)
    ensures FoldBytes(ByteCounts(w, 8)) % 0x100 == CountSum(w, 8)
  {
    hide Nibble;
    hide ByteCount, FoldBytes;
    var w1 := w / 256;
    var w2 := w1 / 256;
    var w3 := w2 / 256;
    var w4 := w3 / 256;
    FourBytes(w, 4);
    FourBytes(w4, 0);
    FourCounts(w, 4);
    FourCounts(w4, 0);
    EightCounts(ByteCounts(w, 8), ByteCount(w), ByteCount(w1), ByteCount(w2), ByteCount(w3), ByteCount(w4),
      ByteCount(w4 / 256), ByteCount(w4 / 256 / 256), ByteCount(w4 / 256 / 256 / 256), ByteCounts(w4, 4));
  }

  lemma EightCounts(r: nat, c0: nat, c1: nat, c2: nat, c3: nat, c4: nat, c5: nat, c6: nat, c7: nat, up: nat)
    requires c0 <= 8 && c1 <= 8 && c2 <= 8 && c3 <= 8 && c4 <= 8 && c5 <= 8 && c6 <= 8 && c7 <= 8
    requires r == c0 + 0x100 * c1 + 0x1_0000 * c2 + 0x100_0000 * c3 + 0x1_0000_0000 * up
    requires up == c4 + 0x100 * c5 + 0x1_0000 * c6 + 0x100_0000 * c7
    ensures FoldBytes(r) % 0x100 == c0 + c1 + c2 + c3 + (c4 + c5 + c6 + c7)
  {
    assert r == Digits8(c0, c1, c2, c3, c4, c5, c6, c7);
    ByteSum(c0, c1, c2, c3, c4, c5, c6, c7);
  }

  lemma Weight1Is(w: nat)
    requires w < 0x1_0000_0000_0000_0000
    ensures Weight1(w) == Pairs(w, 32)
  {
    Patterns();
    Pow2Values();
    PairsAre(w, 32);
    And55(w / 2, 32);
  }

  lemma Weight2Is(w: nat)
    ensures Weight2(Pairs(w, 32)) == Quads(w, 16)
  {
    hide Pattern, Mask33, And;
    Patterns();
    QuadsAre(w, 16);
    And33(Pairs(w, 32), 16);
    And33(Pairs(w, 32) / 4, 16);
  }

  lemma Weight3Is(w: nat)
    ensures Weight3(Quads(w, 16)) == ByteCounts(w, 8)
  {
    hide Pattern, Quads, Mask0F, ByteCounts;
    Patterns();
    ByteCountsAre(w, 8);
    And0F(Quads(w, 16) + Quads(w, 16) / 16, 8);
  }

  lemma Weight4Is(w: nat)
    ensures Weight4(ByteCounts(w, 8)) == CountSum(w, 8)
  {
    PowersInUse();
    AndLowMask(FoldBytes(ByteCounts(w, 8)), 8);
    CountSum8(w);
  }

  // hweight64 counts the set bits.
  lemma HammingWeightIsPopCount(w: nat)
    requires w < 0x1_0000_0000_0000_0000
    ensures HammingWeight(w) == PopCount(w)
  {
    Pow2Values();
    Weight1Is(w);
    Weight2Is(w);
    Weight3Is(w);
    Weight4Is(w);
    PopByBytes(w, 8);
  }
}
