// The constants of FIPS 180-2 by what they are, and its logical functions bit by bit.
module Sha256Standard {
  import opened Bits
  import opened Sha256

  // -------------------------------------------------------------------- constants

  // The first 64 primes.
  function Prime(t: nat): (p: nat)
    requires t < 64
    ensures 2 <= p < 343
  {
    match t
    case 0 => 2 case 1 => 3 case 2 => 5 case 3 => 7
    case 4 => 11 case 5 => 13 case 6 => 17 case 7 => 19
    case 8 => 23 case 9 => 29 case 10 => 31 case 11 => 37
    case 12 => 41 case 13 => 43 case 14 => 47 case 15 => 53
    case 16 => 59 case 17 => 61 case 18 => 67 case 19 => 71
    case 20 => 73 case 21 => 79 case 22 => 83 case 23 => 89
    case 24 => 97 case 25 => 101 case 26 => 103 case 27 => 107
    case 28 => 109 case 29 => 113 case 30 => 127 case 31 => 131
    case 32 => 137 case 33 => 139 case 34 => 149 case 35 => 151
    case 36 => 157 case 37 => 163 case 38 => 167 case 39 => 173
    case 40 => 179 case 41 => 181 case 42 => 191 case 43 => 193
    case 44 => 197 case 45 => 199 case 46 => 211 case 47 => 223
    case 48 => 227 case 49 => 229 case 50 => 233 case 51 => 239
    case 52 => 241 case 53 => 251 case 54 => 257 case 55 => 263
    case 56 => 269 case 57 => 271 case 58 => 277 case 59 => 281
    case 60 => 283 case 61 => 293 case 62 => 307 case _ => 311
  }

  predicate Divides(d: nat, n: nat)
    requires d > 0
  {
    n % d == 0
  }

  ghost predicate IsPrime(n: nat) {
    n >= 2 && forall d: nat {:trigger Divides(d, n)} :: 2 <= d < n ==> !Divides(d, n)
  }

  // The 32 leading bits of the fraction of the cube root of p.
  ghost predicate IsCubeRootFraction(p: nat, k: Word) {
    exists whole: nat {:trigger CubeRootAt(p, whole, k)} :: CubeRootAt(p, whole, k)
  }

  // whole and k / 2^32 together are the cube root of p, rounded down to 32 bits.
  predicate CubeRootAt(p: nat, whole: nat, k: Word) {
    var r := whole * 0x1_0000_0000 + k;
    r * r * r <= p * 0x1_0000_0000_0000_0000_0000_0000 < (r + 1) * (r + 1) * (r + 1)
  }

  predicate SquareRootAt(p: nat, whole: nat, k: Word) {
    var r := whole * 0x1_0000_0000 + k;
    r * r <= p * 0x1_0000_0000_0000_0000 < (r + 1) * (r + 1)
  }

  ghost predicate IsSquareRootFraction(p: nat, k: Word) {
    exists whole: nat {:trigger SquareRootAt(p, whole, k)} :: SquareRootAt(p, whole, k)
  }

  // The constants of the rounds are the cube roots of the first primes.
  lemma KIsCubeRoot(t: nat)
    requires t < 64
    ensures IsCubeRootFraction(Prime(t), K(t))
  {
    if t < 16 { CubeRoots0(t); } else if t < 32 { CubeRoots16(t); } else if t < 48 { CubeRoots32(t); } else { CubeRoots48(t); }
  }

  lemma CubeRoots0(t: nat)
    requires 0 <= t < 16
    ensures IsCubeRootFraction(Prime(t), K(t))
  {
    if t == 0 { assert CubeRootAt(2, 1, 0x428a2f98); }
    if t == 1 { assert CubeRootAt(3, 1, 0x71374491); }
    if t == 2 { assert CubeRootAt(5, 1, 0xb5c0fbcf); }
    if t == 3 { assert CubeRootAt(7, 1, 0xe9b5dba5); }
    if t == 4 { assert CubeRootAt(11, 2, 0x3956c25b); }
    if t == 5 { assert CubeRootAt(13, 2, 0x59f111f1); }
    if t == 6 { assert CubeRootAt(17, 2, 0x923f82a4); }
    if t == 7 { assert CubeRootAt(19, 2, 0xab1c5ed5); }
    if t == 8 { assert CubeRootAt(23, 2, 0xd807aa98); }
    if t == 9 { assert CubeRootAt(29, 3, 0x12835b01); }
    if t == 10 { assert CubeRootAt(31, 3, 0x243185be); }
    if t == 11 { assert CubeRootAt(37, 3, 0x550c7dc3); }
    if t == 12 { assert CubeRootAt(41, 3, 0x72be5d74); }
    if t == 13 { assert CubeRootAt(43, 3, 0x80deb1fe); }
    if t == 14 { assert CubeRootAt(47, 3, 0x9bdc06a7); }
    if t == 15 { assert CubeRootAt(53, 3, 0xc19bf174); }
  }

  lemma CubeRoots16(t: nat)
    requires 16 <= t < 32
    ensures IsCubeRootFraction(Prime(t), K(t))
  {
    if t == 16 { assert CubeRootAt(59, 3, 0xe49b69c1); }
    if t == 17 { assert CubeRootAt(61, 3, 0xefbe4786); }
    if t == 18 { assert CubeRootAt(67, 4, 0x0fc19dc6); }
    if t == 19 { assert CubeRootAt(71, 4, 0x240ca1cc); }
    if t == 20 { assert CubeRootAt(73, 4, 0x2de92c6f); }
    if t == 21 { assert CubeRootAt(79, 4, 0x4a7484aa); }
    if t == 22 { assert CubeRootAt(83, 4, 0x5cb0a9dc); }
    if t == 23 { assert CubeRootAt(89, 4, 0x76f988da); }
    if t == 24 { assert CubeRootAt(97, 4, 0x983e5152); }
    if t == 25 { assert CubeRootAt(101, 4, 0xa831c66d); }
    if t == 26 { assert CubeRootAt(103, 4, 0xb00327c8); }
    if t == 27 { assert CubeRootAt(107, 4, 0xbf597fc7); }
    if t == 28 { assert CubeRootAt(109, 4, 0xc6e00bf3); }
    if t == 29 { assert CubeRootAt(113, 4, 0xd5a79147); }
    if t == 30 { assert CubeRootAt(127, 5, 0x06ca6351); }
    if t == 31 { assert CubeRootAt(131, 5, 0x14292967); }
  }

  lemma CubeRoots32(t: nat)
    requires 32 <= t < 48
    ensures IsCubeRootFraction(Prime(t), K(t))
  {
    if t == 32 { assert CubeRootAt(137, 5, 0x27b70a85); }
    if t == 33 { assert CubeRootAt(139, 5, 0x2e1b2138); }
    if t == 34 { assert CubeRootAt(149, 5, 0x4d2c6dfc); }
    if t == 35 { assert CubeRootAt(151, 5, 0x53380d13); }
    if t == 36 { assert CubeRootAt(157, 5, 0x650a7354); }
    if t == 37 { assert CubeRootAt(163, 5, 0x766a0abb); }
    if t == 38 { assert CubeRootAt(167, 5, 0x81c2c92e); }
    if t == 39 { assert CubeRootAt(173, 5, 0x92722c85); }
    if t == 40 { assert CubeRootAt(179, 5, 0xa2bfe8a1); }
    if t == 41 { assert CubeRootAt(181, 5, 0xa81a664b); }
    if t == 42 { assert CubeRootAt(191, 5, 0xc24b8b70); }
    if t == 43 { assert CubeRootAt(193, 5, 0xc76c51a3); }
    if t == 44 { assert CubeRootAt(197, 5, 0xd192e819); }
    if t == 45 { assert CubeRootAt(199, 5, 0xd6990624); }
    if t == 46 { assert CubeRootAt(211, 5, 0xf40e3585); }
    if t == 47 { assert CubeRootAt(223, 6, 0x106aa070); }
  }

  lemma CubeRoots48(t: nat)
    requires 48 <= t < 64
    ensures IsCubeRootFraction(Prime(t), K(t))
  {
    if t == 48 { assert CubeRootAt(227, 6, 0x19a4c116); }
    if t == 49 { assert CubeRootAt(229, 6, 0x1e376c08); }
    if t == 50 { assert CubeRootAt(233, 6, 0x2748774c); }
    if t == 51 { assert CubeRootAt(239, 6, 0x34b0bcb5); }
    if t == 52 { assert CubeRootAt(241, 6, 0x391c0cb3); }
    if t == 53 { assert CubeRootAt(251, 6, 0x4ed8aa4a); }
    if t == 54 { assert CubeRootAt(257, 6, 0x5b9cca4f); }
    if t == 55 { assert CubeRootAt(263, 6, 0x682e6ff3); }
    if t == 56 { assert CubeRootAt(269, 6, 0x748f82ee); }
    if t == 57 { assert CubeRootAt(271, 6, 0x78a5636f); }
    if t == 58 { assert CubeRootAt(277, 6, 0x84c87814); }
    if t == 59 { assert CubeRootAt(281, 6, 0x8cc70208); }
    if t == 60 { assert CubeRootAt(283, 6, 0x90befffa); }
    if t == 61 { assert CubeRootAt(293, 6, 0xa4506ceb); }
    if t == 62 { assert CubeRootAt(307, 6, 0xbef9a3f7); }
    if t == 63 { assert CubeRootAt(311, 6, 0xc67178f2); }
  }

  // The initial hash value are the square roots of the first eight primes.
  lemma InitialIsSquareRoot(t: nat)
    requires t < 8
    ensures IsSquareRootFraction(Prime(t), WordAt(INITIAL, t))
  {
    if t == 0 { assert SquareRootAt(2, 1, 0x6a09e667); }
    if t == 1 { assert SquareRootAt(3, 1, 0xbb67ae85); }
    if t == 2 { assert SquareRootAt(5, 2, 0x3c6ef372); }
    if t == 3 { assert SquareRootAt(7, 2, 0xa54ff53a); }
    if t == 4 { assert SquareRootAt(11, 3, 0x510e527f); }
    if t == 5 { assert SquareRootAt(13, 3, 0x9b05688c); }
    if t == 6 { assert SquareRootAt(17, 4, 0x1f83d9ab); }
    if t == 7 { assert SquareRootAt(19, 4, 0x5be0cd19); }
  }

  // No prime up to 17 divides n, but n itself.
  predicate Sieved(n: nat) {
    && (n % 2 != 0 || n == 2) && (n % 3 != 0 || n == 3) && (n % 5 != 0 || n == 5) && (n % 7 != 0 || n == 7)
    && (n % 11 != 0 || n == 11) && (n % 13 != 0 || n == 13) && (n % 17 != 0 || n == 17)
  }

  // One of two factors is at most 18, and has a prime factor up to 17.
  lemma SmallFactor(n: nat, d: nat)
    requires 2 <= d < n < 361 && Divides(d, n)
    ensures !Sieved(n)
  {
    var e := n / d;
    assert n == e * d;
    if d <= 18 {
      FactorShows(n, d, e);
    } else {
      if e >= 19 {
        LargeProduct(e, d);
      }
      FactorShows(n, e, d);
    }
  }

  lemma LargeProduct(a: nat, b: nat)
    requires a >= 19 && b >= 19
    ensures a * b >= 361
  {
    assert a * b >= 19 * b;
  }

  lemma FactorShows(n: nat, f: nat, q: nat)
    requires 2 <= f <= 18 && q >= 2 && n == q * f
    ensures !Sieved(n)
  {
    var p, k := if f % 2 == 0 then 2 else if f % 3 == 0 then 3 else f, if f % 2 == 0 then f / 2 else if f % 3 == 0 then f / 3 else 1;
    ProductRegrouped(q, k, p);
    DivModUnique(n, p, q * k, 0);
    LargerThanFactor(n, f, q);
  }

  lemma ProductRegrouped(q: nat, k: nat, p: nat)
    ensures q * (k * p) == (q * k) * p
  {
  }

  lemma LargerThanFactor(n: nat, f: nat, q: nat)
    requires f >= 2 && q >= 2 && n == q * f
    ensures n > f
  {
    assert n - f == (q - 1) * f;
  }

  lemma SieveFindsPrimes(n: nat)
    requires 2 <= n < 361
    ensures IsPrime(n) <==> Sieved(n)
  {
    if !Sieved(n) {
      assert Divides(2, n) || Divides(3, n) || Divides(5, n) || Divides(7, n) || Divides(11, n) || Divides(13, n) || Divides(17, n);
    } else {
      forall d: nat {:trigger Divides(d, n)} | 2 <= d < n ensures !Divides(d, n) {
        if Divides(d, n) { SmallFactor(n, d); }
      }
    }
  }

  // None from n up to q.
  predicate NoneUpTo(n: nat, q: nat)
    decreases q - n
  {
    n >= q || (!Sieved(n) && NoneUpTo(n + 1, q))
  }

  lemma {:induction false} NoneSieved(n: nat, q: nat, m: nat)
    requires NoneUpTo(n, q) && n <= m < q
    ensures !Sieved(m)
    decreases q - n
  {
    if n < m {
      NoneSieved(n + 1, q, m);
    }
  }

  lemma SievedInOrder(t: nat)
    requires t < 64
    ensures Sieved(Prime(t)) && (t < 63 ==> Prime(t) < Prime(t + 1) && NoneUpTo(Prime(t) + 1, Prime(t + 1)))
  {
    if t < 32 { SievedInOrder0(t); } else { SievedInOrder32(t); }
  }

  lemma SievedInOrder0(t: nat)
    requires 0 <= t < 32
    ensures Sieved(Prime(t)) && (t < 63 ==> Prime(t) < Prime(t + 1) && NoneUpTo(Prime(t) + 1, Prime(t + 1)))
  {
    if t == 0 { assert NoneUpTo(3, 3); }
    if t == 1 { assert NoneUpTo(4, 5); }
    if t == 2 { assert NoneUpTo(6, 7); }
    if t == 3 { assert NoneUpTo(8, 11); }
    if t == 4 { assert NoneUpTo(12, 13); }
    if t == 5 { assert NoneUpTo(14, 17); }
    if t == 6 { assert NoneUpTo(18, 19); }
    if t == 7 { assert NoneUpTo(20, 23); }
    if t == 8 { assert NoneUpTo(24, 29); }
    if t == 9 { assert NoneUpTo(30, 31); }
    if t == 10 { assert NoneUpTo(32, 37); }
    if t == 11 { assert NoneUpTo(38, 41); }
    if t == 12 { assert NoneUpTo(42, 43); }
    if t == 13 { assert NoneUpTo(44, 47); }
    if t == 14 { assert NoneUpTo(48, 53); }
    if t == 15 { assert NoneUpTo(54, 59); }
    if t == 16 { assert NoneUpTo(60, 61); }
    if t == 17 { assert NoneUpTo(62, 67); }
    if t == 18 { assert NoneUpTo(68, 71); }
    if t == 19 { assert NoneUpTo(72, 73); }
    if t == 20 { assert NoneUpTo(74, 79); }
    if t == 21 { assert NoneUpTo(80, 83); }
    if t == 22 { assert NoneUpTo(84, 89); }
    if t == 23 { assert NoneUpTo(90, 97); }
    if t == 24 { assert NoneUpTo(98, 101); }
    if t == 25 { assert NoneUpTo(102, 103); }
    if t == 26 { assert NoneUpTo(104, 107); }
    if t == 27 { assert NoneUpTo(108, 109); }
    if t == 28 { assert NoneUpTo(110, 113); }
    if t == 29 { assert NoneUpTo(114, 127); }
    if t == 30 { assert NoneUpTo(128, 131); }
    if t == 31 { assert NoneUpTo(132, 137); }
  }

  lemma SievedInOrder32(t: nat)
    requires 32 <= t < 64
    ensures Sieved(Prime(t)) && (t < 63 ==> Prime(t) < Prime(t + 1) && NoneUpTo(Prime(t) + 1, Prime(t + 1)))
  {
    if t == 32 { assert NoneUpTo(138, 139); }
    if t == 33 { assert NoneUpTo(140, 149); }
    if t == 34 { assert NoneUpTo(150, 151); }
    if t == 35 { assert NoneUpTo(152, 157); }
    if t == 36 { assert NoneUpTo(158, 163); }
    if t == 37 { assert NoneUpTo(164, 167); }
    if t == 38 { assert NoneUpTo(168, 173); }
    if t == 39 { assert NoneUpTo(174, 179); }
    if t == 40 { assert NoneUpTo(180, 181); }
    if t == 41 { assert NoneUpTo(182, 191); }
    if t == 42 { assert NoneUpTo(192, 193); }
    if t == 43 { assert NoneUpTo(194, 197); }
    if t == 44 { assert NoneUpTo(198, 199); }
    if t == 45 { assert NoneUpTo(200, 211); }
    if t == 46 { assert NoneUpTo(212, 223); }
    if t == 47 { assert NoneUpTo(224, 227); }
    if t == 48 { assert NoneUpTo(228, 229); }
    if t == 49 { assert NoneUpTo(230, 233); }
    if t == 50 { assert NoneUpTo(234, 239); }
    if t == 51 { assert NoneUpTo(240, 241); }
    if t == 52 { assert NoneUpTo(242, 251); }
    if t == 53 { assert NoneUpTo(252, 257); }
    if t == 54 { assert NoneUpTo(258, 263); }
    if t == 55 { assert NoneUpTo(264, 269); }
    if t == 56 { assert NoneUpTo(270, 271); }
    if t == 57 { assert NoneUpTo(272, 277); }
    if t == 58 { assert NoneUpTo(278, 281); }
    if t == 59 { assert NoneUpTo(282, 283); }
    if t == 60 { assert NoneUpTo(284, 293); }
    if t == 61 { assert NoneUpTo(294, 307); }
    if t == 62 { assert NoneUpTo(308, 311); }
  }

  // The list starts at 2 and leaves out no prime.
  lemma PrimesInOrder(t: nat)
    requires t < 64
    ensures Prime(0) == 2 && IsPrime(Prime(t))
    ensures t < 63 ==> Prime(t) < Prime(t + 1)
    ensures t < 63 ==> forall n: nat {:trigger IsPrime(n)} :: Prime(t) < n < Prime(t + 1) ==> !IsPrime(n)
  {
    SievedInOrder(t);
    SieveFindsPrimes(Prime(t));
    if t < 63 {
      forall n: nat {:trigger IsPrime(n)} | Prime(t) < n < Prime(t + 1) ensures !IsPrime(n) {
        NoneSieved(Prime(t) + 1, Prime(t + 1), n);
        SieveFindsPrimes(n);
      }
    }
  }

  // ------------------------------------------------------------ logical functions

  lemma {:induction false} BitXor(a: nat, b: nat, i: nat)
    ensures Bit(Xor(a, b), i) <==> Bit(a, i) != Bit(b, i)
    decreases i
  {
    if i > 0 {
      BitXor(a / 2, b / 2, i - 1);
    }
  }

  // Rotation to the right: bit i is bit i + n of the word, around its end.
  lemma RotatedBit(x: Word, n: nat, i: nat)
    requires 0 < n < 32 && i < 32
    ensures Bit(RotateRight(x, n), i) == Bit(x, (i + n) % 32)
  {
    hide Pow2, Bit, Or, Shl, Shr;
    Pow2Values();
    BitOr(ShiftRight(x, n), Shl(x, 32 - n) % 0x1_0000_0000, i);
    BitShr(x, n, i);
    BitTruncate(32, Shl(x, 32 - n), i);
    BitShl(x, 32 - n, i);
    if i + n >= 32 && Bit(x, i + n) {
      BitInWidth(32, x, i + n);
    }
  }

  lemma ThreeRotations(x: Word, p: nat, q: nat, r: nat, i: nat)
    requires 0 < p < 32 && 0 < q < 32 && 0 < r < 32 && i < 32
    ensures Bit(Xor32(Xor32(RotateRight(x, p), RotateRight(x, q)), RotateRight(x, r)), i)
      <==> (Bit(x, (i + p) % 32) != Bit(x, (i + q) % 32)) != Bit(x, (i + r) % 32)
  {
    hide RotateRight;
    RotatedBit(x, p, i);
    RotatedBit(x, q, i);
    RotatedBit(x, r, i);
    BitXor(RotateRight(x, p), RotateRight(x, q), i);
    BitXor(Xor32(RotateRight(x, p), RotateRight(x, q)), RotateRight(x, r), i);
  }

  lemma RotationsAndShift(x: Word, p: nat, q: nat, r: nat, i: nat)
    requires 0 < p < 32 && 0 < q < 32 && i < 32
    ensures Bit(Xor32(Xor32(RotateRight(x, p), RotateRight(x, q)), ShiftRight(x, r)), i)
      <==> (Bit(x, (i + p) % 32) != Bit(x, (i + q) % 32)) != Bit(x, i + r)
  {
    hide RotateRight;
    RotatedBit(x, p, i);
    RotatedBit(x, q, i);
    BitShr(x, r, i);
    BitXor(RotateRight(x, p), RotateRight(x, q), i);
    BitXor(Xor32(RotateRight(x, p), RotateRight(x, q)), ShiftRight(x, r), i);
  }

  // A number from its digits to the base 256, and a number without its low k digits.
  function BigEndianValue(s: seq<Byte>): nat {
    if s == [] then 0 else 256 * BigEndianValue(s[..|s| - 1]) + s[|s| - 1]
  }

  function Shifted(n: nat, k: nat): nat {
    if k == 0 then n else Shifted(n / 256, k - 1)
  }

  lemma {:induction false} NextDigit(n: nat, k: nat)
    ensures Shifted(n, k) == 256 * Shifted(n, k + 1) + ByteOf(n, k)
    decreases k
  {
    if k > 0 {
      NextDigit(n / 256, k - 1);
    }
  }

  lemma EightDigits(n: nat)
    requires n < 0x1_0000_0000_0000_0000
    ensures Shifted(n, 8) == 0
  {
    var a, b, c := n / 256, n / 256 / 256, n / 256 / 256 / 256;
    var d, e, f := c / 256, c / 256 / 256, c / 256 / 256 / 256;
    var g, h := f / 256, f / 256 / 256;
    assert Shifted(n, 8) == Shifted(a, 7) == Shifted(b, 6) == Shifted(c, 5);
    assert Shifted(c, 5) == Shifted(d, 4) == Shifted(e, 3) == Shifted(f, 2);
    assert Shifted(f, 2) == Shifted(g, 1) == Shifted(h, 0);
  }

  // The first k bytes of a length field are the length without its low 8 - k bytes.
  lemma {:induction false} LengthPrefix(bits: nat, k: nat)
    requires bits < 0x1_0000_0000_0000_0000 && k <= 8
    ensures BigEndianValue(LengthField(bits)[..k]) == Shifted(bits, 8 - k)
    decreases k
  {
    hide ByteOf, Shifted;
    if k == 0 {
      EightDigits(bits);
    } else {
      LengthPrefix(bits, k - 1);
      NextDigit(bits, 8 - k);
      var s := LengthField(bits);
      assert s[..k][..k - 1] == s[..k - 1] && s[..k][k - 1] == ByteOf(bits, 8 - k);
    }
  }

  // The padding of section 5.1.1: a one bit, the fewest zeros that fill a block, and the
  // length in bits as a number of 64 bits with the highest byte first.
  lemma PaddingReads(m: seq<Byte>)
    requires 8 * |m| < 0x1_0000_0000_0000_0000
    ensures var p := Padded(m);
      && |p| % 64 == 0 && |m| + 9 <= |p| < |m| + 73
      && p[..|m|] == m && p[|m|] == 0x80 && (forall i :: |m| < i < |p| - 8 ==> p[i] == 0)
      && BigEndianValue(p[|p| - 8..]) == 8 * |m|
  {
    hide LengthField, BigEndianValue;
    var p, field := Padded(m), LengthField(8 * |m|);
    assert p[|p| - 8..] == field == field[..8];
    LengthPrefix(8 * |m|, 8);
  }

  // Words are read and written with the highest byte first.
  lemma BigEndian(b0: Byte, b1: Byte, b2: Byte, b3: Byte)
    ensures var w := Standard().wordOf(b0, b1, b2, b3);
      && w / 0x100_0000 == b0 && w / 0x1_0000 % 0x100 == b1 && w / 0x100 % 0x100 == b2 && w % 0x100 == b3
      && Standard().wordByte(w, 0) == b0 && Standard().wordByte(w, 1) == b1
      && Standard().wordByte(w, 2) == b2 && Standard().wordByte(w, 3) == b3
  {
    hide RotateRight, ShiftRight, Xor32;
    var w := Standard().wordOf(b0, b1, b2, b3);
    DivModUnique(w, 0x100_0000, b0, b1 * 0x1_0000 + b2 * 0x100 + b3);
    DivModUnique(w, 0x1_0000, b0 * 0x100 + b1, b2 * 0x100 + b3);
    DivModUnique(w, 0x100, b0 * 0x1_0000 + b1 * 0x100 + b2, b3);
  }

  // Section 4.1.2 bit by bit: choice, majority, and the four functions sigma.
  lemma LogicalFunctions(x: Word, y: Word, z: Word, i: nat)
    requires i < 32
    ensures Bit(Standard().ch(x, y, z), i) <==> if Bit(x, i) then Bit(y, i) else Bit(z, i)
    ensures Bit(Standard().maj(x, y, z), i) <==> (Bit(x, i) && Bit(y, i)) || (Bit(x, i) && Bit(z, i)) || (Bit(y, i) && Bit(z, i))
    ensures Bit(Standard().ep0(x), i) <==> (Bit(x, (i + 2) % 32) != Bit(x, (i + 13) % 32)) != Bit(x, (i + 22) % 32)
    ensures Bit(Standard().ep1(x), i) <==> (Bit(x, (i + 6) % 32) != Bit(x, (i + 11) % 32)) != Bit(x, (i + 25) % 32)
    ensures Bit(Standard().sig0(x), i) <==> (Bit(x, (i + 7) % 32) != Bit(x, (i + 18) % 32)) != Bit(x, i + 3)
    ensures Bit(Standard().sig1(x), i) <==> (Bit(x, (i + 17) % 32) != Bit(x, (i + 19) % 32)) != Bit(x, i + 10)
  {
    hide RotateRight, ShiftRight, Xor32, Bit;
    Chosen(x, y, z, i);
    Most(x, y, z, i);
    ThreeRotations(x, 2, 13, 22, i);
    ThreeRotations(x, 6, 11, 25, i);
    RotationsAndShift(x, 7, 18, 3, i);
    RotationsAndShift(x, 17, 19, 10, i);
  }

  lemma Chosen(x: Word, y: Word, z: Word, i: nat)
    requires i < 32
    ensures Bit(Xor32(And32(x, y), And32(Not32(x), z)), i) <==> if Bit(x, i) then Bit(y, i) else Bit(z, i)
  {
    Pow2Values();
    BitXor(And32(x, y), And32(Not32(x), z), i);
    BitAnd(x, y, i);
    BitAnd(Not32(x), z, i);
    BitNot(32, x, i);
  }

  lemma Most(x: Word, y: Word, z: Word, i: nat)
    ensures Bit(Xor32(Xor32(And32(x, y), And32(x, z)), And32(y, z)), i)
      <==> (Bit(x, i) && Bit(y, i)) || (Bit(x, i) && Bit(z, i)) || (Bit(y, i) && Bit(z, i))
  {
    BitXor(And32(x, y), And32(x, z), i);
    BitXor(Xor32(And32(x, y), And32(x, z)), And32(y, z), i);
    BitAnd(x, y, i);
    BitAnd(x, z, i);
    BitAnd(y, z, i);
  }
}
