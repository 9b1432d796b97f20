// SHA-256 as sections 4, 5 and 6.2.2 of FIPS 180-2 define it, and the streaming
// implementation that takes a message in pieces.
module Sha256 {

  import opened Bits

  type Byte = b: nat | b < 0x100
  type Word = w: nat | w < 0x1_0000_0000

  // ------------------------------------------------------------------ the standard

  // The logical functions on words.  What follows holds for any; Standard gives
  // those of section 4.1.2, and the packing of words into bytes.
  datatype Ops = Ops(
    ch: (Word, Word, Word) -> Word,
    maj: (Word, Word, Word) -> Word,
    ep0: Word -> Word,
    ep1: Word -> Word,
    sig0: Word -> Word,
    sig1: Word -> Word,
    wordOf: (Byte, Byte, Byte, Byte) -> Word,
    wordByte: (Word, nat) -> Byte)

  function Standard(): Ops {
    Ops(
      (x: Word, y: Word, z: Word) => Xor32(And32(x, y), And32(Not32(x), z)),
      (x: Word, y: Word, z: Word) => Xor32(Xor32(And32(x, y), And32(x, z)), And32(y, z)),
      (x: Word) => Xor32(Xor32(RotateRight(x, 2), RotateRight(x, 13)), RotateRight(x, 22)),
      (x: Word) => Xor32(Xor32(RotateRight(x, 6), RotateRight(x, 11)), RotateRight(x, 25)),
      (x: Word) => Xor32(Xor32(RotateRight(x, 7), RotateRight(x, 18)), ShiftRight(x, 3)),
      (x: Word) => Xor32(Xor32(RotateRight(x, 17), RotateRight(x, 19)), ShiftRight(x, 10)),
      (b0: Byte, b1: Byte, b2: Byte, b3: Byte) => b0 * 0x100_0000 + b1 * 0x1_0000 + b2 * 0x100 + b3,
      (w: Word, i: nat) =>
        if i == 0 then w / 0x100_0000 else if i == 1 then w / 0x1_0000 % 0x100
        else if i == 2 then w / 0x100 % 0x100 else w % 0x100)
  }

  function Xor32(x: Word, y: Word): Word {
    Pow2Values();
    XorInWidth(32, x, y);
    Xor(x, y)
  }

  function And32(x: Word, y: Word): Word {
    And(x, y)
  }

  function Not32(x: Word): Word {
    0xFFFF_FFFF - x
  }

  function ShiftRight(x: Word, n: nat): Word {
    ShrSmaller(x, n);
    Shr(x, n)
  }

  lemma {:induction false} ShrSmaller(x: nat, n: nat)
    ensures Shr(x, n) <= x
    decreases n
  {
    if n > 0 {
      ShrSmaller(x / 2, n - 1);
    }
  }

  // (x >> n) | (x << (32 - n)) on 32 bits
  function RotateRight(x: Word, n: nat): Word
    requires 0 < n < 32
  {
    Pow2Values();
    OrInWidth(32, ShiftRight(x, n), Shl(x, 32 - n) % 0x1_0000_0000);
    Or(ShiftRight(x, n), Shl(x, 32 - n) % 0x1_0000_0000)
  }

  // Addition modulo 2^32.
  function Sum(x: Word, y: Word): Word {
    (x + y) % 0x1_0000_0000
  }

  function K(t: nat): Word
    requires t < 64
  {
    match t
    case 0 => 0x428a2f98 case 1 => 0x71374491 case 2 => 0xb5c0fbcf case 3 => 0xe9b5dba5
    case 4 => 0x3956c25b case 5 => 0x59f111f1 case 6 => 0x923f82a4 case 7 => 0xab1c5ed5
    case 8 => 0xd807aa98 case 9 => 0x12835b01 case 10 => 0x243185be case 11 => 0x550c7dc3
    case 12 => 0x72be5d74 case 13 => 0x80deb1fe case 14 => 0x9bdc06a7 case 15 => 0xc19bf174
    case 16 => 0xe49b69c1 case 17 => 0xefbe4786 case 18 => 0x0fc19dc6 case 19 => 0x240ca1cc
    case 20 => 0x2de92c6f case 21 => 0x4a7484aa case 22 => 0x5cb0a9dc case 23 => 0x76f988da
    case 24 => 0x983e5152 case 25 => 0xa831c66d case 26 => 0xb00327c8 case 27 => 0xbf597fc7
    case 28 => 0xc6e00bf3 case 29 => 0xd5a79147 case 30 => 0x06ca6351 case 31 => 0x14292967
    case 32 => 0x27b70a85 case 33 => 0x2e1b2138 case 34 => 0x4d2c6dfc case 35 => 0x53380d13
    case 36 => 0x650a7354 case 37 => 0x766a0abb case 38 => 0x81c2c92e case 39 => 0x92722c85
    case 40 => 0xa2bfe8a1 case 41 => 0xa81a664b case 42 => 0xc24b8b70 case 43 => 0xc76c51a3
    case 44 => 0xd192e819 case 45 => 0xd6990624 case 46 => 0xf40e3585 case 47 => 0x106aa070
    case 48 => 0x19a4c116 case 49 => 0x1e376c08 case 50 => 0x2748774c case 51 => 0x34b0bcb5
    case 52 => 0x391c0cb3 case 53 => 0x4ed8aa4a case 54 => 0x5b9cca4f case 55 => 0x682e6ff3
    case 56 => 0x748f82ee case 57 => 0x78a5636f case 58 => 0x84c87814 case 59 => 0x8cc70208
    case 60 => 0x90befffa case 61 => 0xa4506ceb case 62 => 0xbef9a3f7 case _ => 0xc67178f2
  }

  type Block = b: seq<Byte> | |b| == 64 witness seq(64, _ => 0)

  // The message schedule W_t.
  function Schedule(o: Ops, b: Block, t: nat): Word
    requires t < 64
  {
    if t < 16 then o.wordOf(b[4 * t], b[4 * t + 1], b[4 * t + 2], b[4 * t + 3])
    else
      Sum(Sum(Sum(o.sig1(Schedule(o, b, t - 2)), Schedule(o, b, t - 7)),
              o.sig0(Schedule(o, b, t - 15))), Schedule(o, b, t - 16))
  }

  // The working variables, and the hash value.
  datatype Vars = Vars(a: Word, b: Word, c: Word, d: Word, e: Word, f: Word, g: Word, h: Word)

  const INITIAL := Vars(
    0x6a09_e667, 0xbb67_ae85, 0x3c6e_f372, 0xa54f_f53a, 0x510e_527f, 0x9b05_688c, 0x1f83_d9ab, 0x5be0_cd19)

  function Round(o: Ops, v: Vars, k: Word, w: Word): Vars {
    var t1 := Sum(Sum(Sum(Sum(v.h, o.ep1(v.e)), o.ch(v.e, v.f, v.g)), k), w);
    var t2 := Sum(o.ep0(v.a), o.maj(v.a, v.b, v.c));
    Vars(Sum(t1, t2), v.a, v.b, v.c, Sum(v.d, t1), v.e, v.f, v.g)
  }

  function Rounds(o: Ops, v: Vars, b: Block, n: nat): Vars
    requires n <= 64
  {
    if n == 0 then v else Round(o, Rounds(o, v, b, n - 1), K(n - 1), Schedule(o, b, n - 1))
  }

  function Add(u: Vars, v: Vars): Vars {
    Vars(Sum(u.a, v.a), Sum(u.b, v.b), Sum(u.c, v.c), Sum(u.d, v.d),
         Sum(u.e, v.e), Sum(u.f, v.f), Sum(u.g, v.g), Sum(u.h, v.h))
  }

  function Compress(o: Ops, v: Vars, b: Block): Vars {
    Add(v, Rounds(o, v, b, 64))
  }

  // A compression function, and the one of the standard.
  type Compressor = (Vars, Block) -> Vars

  function CompressWith(o: Ops): Compressor {
    (v: Vars, b: Block) => Compress(o, v, b)
  }

  // The hash value after the whole blocks of a message.
  function Fold(c: Compressor, v: Vars, m: seq<Byte>): Vars
    decreases |m|
  {
    if |m| < 64 then v else Fold(c, c(v, m[..64]), m[64..])
  }

  function Zeros(n: nat): (s: seq<Byte>)
    ensures |s| == n
  {
    seq(n, _ => 0)
  }

  // Byte i of a number, counted from the lowest.
  function ByteOf(n: nat, i: nat): Byte {
    if i == 0 then n % 256 else ByteOf(n / 256, i - 1)
  }

  // The length field: 64 bits, big-endian.
  function LengthField(bits: nat): (s: seq<Byte>)
    ensures |s| == 8
  {
    [ByteOf(bits, 7), ByteOf(bits, 6), ByteOf(bits, 5), ByteOf(bits, 4),
     ByteOf(bits, 3), ByteOf(bits, 2), ByteOf(bits, 1), ByteOf(bits, 0)]
  }

  // The least number of zeros that completes the padding to whole blocks.
  function ZeroCount(n: nat): (k: nat)
    ensures (n + 1 + k + 8) % 64 == 0 && k < 64
  {
    (119 - n % 64) % 64
  }

  function Padded(m: seq<Byte>): seq<Byte> {
    m + [0x80] + Zeros(ZeroCount(|m|)) + LengthField(8 * |m|)
  }

  function WordAt(v: Vars, w: nat): Word
    requires w < 8
  {
    match w
    case 0 => v.a case 1 => v.b case 2 => v.c case 3 => v.d
    case 4 => v.e case 5 => v.f case 6 => v.g case _ => v.h
  }

  function DigestByte(o: Ops, v: Vars, k: nat): Byte
    requires k < 32
  {
    o.wordByte(WordAt(v, k / 4), k % 4)
  }

  // The hash value as bytes, each word big-endian.
  function Digest(o: Ops, v: Vars): (s: seq<Byte>)
    ensures |s| == 32
  {
    seq(32, k requires 0 <= k < 32 => DigestByte(o, v, k))
  }

  function Hash(o: Ops, m: seq<Byte>): seq<Byte> {
    Digest(o, Fold(CompressWith(o), INITIAL, Padded(m)))
  }
}
