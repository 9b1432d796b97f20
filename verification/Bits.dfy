// Bit-level operations of C on unsigned integers, as functions on natural
// numbers.  A word is a nat below Pow2(n); each operation is characterised by
// the bits of its result, so callers never unfold the recursions.
module Bits {

  const U32_MOD: nat := 0x1_0000_0000
  const U64_MOD: nat := 0x1_0000_0000_0000_0000

  // Reduction of a sum of two 64-bit words to 64 bits.
  function Wrap64(x: nat): nat
    requires x < 2 * 0x1_0000_0000_0000_0000
  {
    if x < 0x1_0000_0000_0000_0000 then x else x - 0x1_0000_0000_0000_0000
  }

  function Pow2(n: nat): (r: nat)
    ensures r >= 1
  {
    if n == 0 then 1 else 2 * Pow2(n - 1)
  }

  predicate Bit(w: nat, i: nat) {
    if i == 0 then w % 2 == 1 else Bit(w / 2, i - 1)
  }

  // a & b
  function And(a: nat, b: nat): (r: nat)
    ensures r <= a && r <= b
  {
    if a == 0 || b == 0 then 0
    else 2 * And(a / 2, b / 2) + (if a % 2 == 1 && b % 2 == 1 then 1 else 0)
  }

  // a | b
  function Or(a: nat, b: nat): (r: nat)
    ensures r >= a && r >= b
    decreases a + b
  {
    if a == 0 then b
    else if b == 0 then a
    else 2 * Or(a / 2, b / 2) + (if a % 2 == 1 || b % 2 == 1 then 1 else 0)
  }

  // a ^ b
  function Xor(a: nat, b: nat): nat
    decreases a + b
  {
    if a == 0 then b
    else if b == 0 then a
    else 2 * Xor(a / 2, b / 2) + (if a % 2 != b % 2 then 1 else 0)
  }

  // ~a on n bits
  function Not(n: nat, a: nat): nat
    requires a < Pow2(n)
  {
    Pow2(n) - 1 - a
  }

  // a << k, not yet truncated
  function Shl(a: nat, k: nat): nat {
    if k == 0 then a else 2 * Shl(a, k - 1)
  }

  // a >> k
  function Shr(a: nat, k: nat): nat {
    if k == 0 then a else Shr(a / 2, k - 1)
  }

  // Index of the lowest set bit.
  function Ffs(w: nat): (r: nat)
    requires w > 0
    ensures Bit(w, r) && forall j: nat :: j < r ==> !Bit(w, j)
  {
    if w % 2 == 1 then 0 else 1 + Ffs(w / 2)
  }

  // Index of the highest set bit.
  function Fls(w: nat): (r: nat)
    requires w > 0
    ensures Pow2(r) <= w < Pow2(r + 1)
  {
    if w == 1 then 0 else 1 + Fls(w / 2)
  }

  lemma {:induction false} BitAnd(a: nat, b: nat, i: nat)
    ensures Bit(And(a, b), i) <==> Bit(a, i) && Bit(b, i)
    decreases i
  {
    ZeroHasNoBit(i);
    if i > 0 && a > 0 && b > 0 {
      BitAnd(a / 2, b / 2, i - 1);
      assert And(a, b) / 2 == And(a / 2, b / 2);
    }
  }

  lemma {:induction false} BitOr(a: nat, b: nat, i: nat)
    ensures Bit(Or(a, b), i) <==> Bit(a, i) || Bit(b, i)
    decreases i
  {
    ZeroHasNoBit(i);
    if i > 0 && a > 0 && b > 0 {
      BitOr(a / 2, b / 2, i - 1);
      assert Or(a, b) / 2 == Or(a / 2, b / 2);
    }
  }

  lemma {:induction false} BitShl(a: nat, k: nat, i: nat)
    ensures Bit(Shl(a, k), i) <==> i >= k && Bit(a, i - k)
    decreases k
  {
    if k > 0 && i > 0 {
      BitShl(a, k - 1, i - 1);
    }
  }

  lemma {:induction false} BitShr(x: nat, k: nat, i: nat)
    ensures Bit(Shr(x, k), i) == Bit(x, i + k)
    decreases k
  {
    if k > 0 {
      BitShr(x / 2, k - 1, i);
    }
  }

  // The bits of 2^n - 1.
  lemma {:induction false} BitOnes(n: nat, i: nat)
    ensures Bit(Pow2(n) - 1, i) <==> i < n
    decreases n
  {
    if n == 0 {
      ZeroHasNoBit(i);
    } else if i > 0 {
      assert (Pow2(n) - 1) / 2 == Pow2(n - 1) - 1;
      BitOnes(n - 1, i - 1);
    }
  }

  lemma {:induction false} BitNot(n: nat, a: nat, i: nat)
    requires a < Pow2(n) && i < n
    ensures Bit(Not(n, a), i) <==> !Bit(a, i)
    decreases i
  {
    if i > 0 {
      assert a / 2 < Pow2(n - 1);
      BitNot(n - 1, a / 2, i - 1);
      assert Not(n, a) / 2 == Not(n - 1, a / 2);
    }
  }

  // Truncation to n bits keeps the low n bits and clears the others.
  lemma {:induction false} BitTruncate(n: nat, a: nat, i: nat)
    ensures Bit(a % Pow2(n), i) <==> i < n && Bit(a, i)
    decreases i
  {
    ModHalf(n, a);
    if n == 0 {
      ZeroHasNoBit(i);
    } else if i > 0 {
      BitTruncate(n - 1, a / 2, i - 1);
    }
  }

  lemma ModHalf(n: nat, a: nat)
    ensures n > 0 ==> (a % Pow2(n)) / 2 == (a / 2) % Pow2(n - 1)
    ensures n > 0 ==> (a % Pow2(n)) % 2 == a % 2
  {
    if n > 0 {
      var p := Pow2(n - 1);
      var h, q, r := a / 2, a / 2 / p, a / 2 % p;
      assert h == q * p + r;
      assert a == q * (2 * p) + (2 * r + a % 2);
      DivModUnique(a, 2 * p, q, 2 * r + a % 2);
    }
  }

  lemma DivModUnique(x: int, d: int, q: int, r: int)
    requires d > 0 && 0 <= r < d && x == q * d + r
    ensures x / d == q && x % d == r
  {
    var q', r' := x / d, x % d;
    assert (q - q') * d == r' - r;
    MultipleIsFar(q - q', d);
  }

  lemma ModSmaller(x: nat, p: nat)
    requires p > 0
    ensures x % p <= x && x % p < p
  {
    MultipleIsFar(x / p, p);
    assert x == x / p * p + x % p;
  }

  lemma MultipleIsFar(k: int, d: int)
    requires d > 0
    ensures k >= 1 ==> k * d >= d
    ensures k <= -1 ==> k * d <= -d
  {
    if k >= 1 {
      assert k * d == d + (k - 1) * d;
    } else if k <= -1 {
      assert k * d == -d + (k + 1) * d;
    }
  }

  lemma {:induction false} ZeroHasNoBit(i: nat)
    ensures !Bit(0, i)
  {
    if i > 0 {
      ZeroHasNoBit(i - 1);
    }
  }

  // A set bit lies below the width of the word.
  lemma {:induction false} BitInWidth(n: nat, w: nat, i: nat)
    requires w < Pow2(n) && Bit(w, i)
    ensures i < n && w > 0
    decreases i
  {
    if n == 0 {
      ZeroHasNoBit(i);
    } else if i > 0 {
      BitInWidth(n - 1, w / 2, i - 1);
    }
  }

  lemma {:induction false} OrInWidth(n: nat, a: nat, b: nat)
    requires a < Pow2(n) && b < Pow2(n)
    ensures Or(a, b) < Pow2(n)
    decreases n
  {
    if n > 0 && a > 0 && b > 0 {
      OrInWidth(n - 1, a / 2, b / 2);
    }
  }

  lemma {:induction false} XorInWidth(n: nat, a: nat, b: nat)
    requires a < Pow2(n) && b < Pow2(n)
    ensures Xor(a, b) < Pow2(n)
    decreases n
  {
    if n > 0 && a > 0 && b > 0 {
      XorInWidth(n - 1, a / 2, b / 2);
    }
  }

  lemma {:induction false} Pow2Monotone(m: nat, n: nat)
    requires m <= n
    ensures Pow2(m) <= Pow2(n)
    decreases n
  {
    if m < n {
      Pow2Monotone(m, n - 1);
    }
  }

  lemma {:induction false} ShrMonotone(x: nat, y: nat, k: nat)
    requires x <= y
    ensures Shr(x, k) <= Shr(y, k)
    decreases k
  {
    if k > 0 {
      ShrMonotone(x / 2, y / 2, k - 1);
    }
  }

  // Shifting right by k is division by 2^k, rounded down.
  lemma {:induction false} ShrAtLeast(x: nat, q: nat, k: nat)
    ensures Shr(x, k) >= q <==> x >= Shl(q, k)
    decreases k
  {
    if k > 0 {
      ShrAtLeast(x / 2, q, k - 1);
    }
  }

  // Removing the k lowest of fl bits leaves a number of fl - k + 1 bits.
  lemma {:induction false} ShrOfFls(x: nat, k: nat)
    requires x > 0 && k <= Fls(x)
    ensures Shr(x, k) > 0 && Fls(Shr(x, k)) == Fls(x) - k
    decreases k
  {
    if k > 0 {
      ShrOfFls(x / 2, k - 1);
    }
  }

  lemma {:induction false} ShlOfSum(a: nat, b: nat, k: nat)
    ensures Shl(a + b, k) == Shl(a, k) + Shl(b, k)
  {
    if k > 0 {
      ShlOfSum(a, b, k - 1);
    }
  }

  lemma {:induction false} ShlOne(k: nat)
    ensures Shl(1, k) == Pow2(k)
  {
    if k > 0 {
      ShlOne(k - 1);
    }
  }

  lemma {:induction false} ShlAdds(a: nat, j: nat, k: nat)
    ensures Shl(Shl(a, j), k) == Shl(a, j + k)
    decreases k
  {
    if k > 0 {
      ShlAdds(a, j, k - 1);
    }
  }

  lemma {:induction false} FlsMonotone(x: nat, y: nat)
    requires 0 < x <= y
    ensures Fls(x) <= Fls(y)
    decreases y
  {
    if x > 1 {
      FlsMonotone(x / 2, y / 2);
    }
  }

  lemma Pow2Values()
    ensures Pow2(3) == 8 && Pow2(5) == 32 && Pow2(8) == 256
    ensures Pow2(32) == U32_MOD && Pow2(64) == U64_MOD
  {
    assert Pow2(8) == 256;
    assert Pow2(16) == 0x1_0000;
    assert Pow2(24) == 0x100_0000;
    assert Pow2(32) == 0x1_0000_0000;
    assert Pow2(40) == 0x100_0000_0000;
    assert Pow2(48) == 0x1_0000_0000_0000;
    assert Pow2(56) == 0x100_0000_0000_0000;
  }

  // y & ~(2^k - 1) on n bits clears the low k bits.
  lemma {:induction false} ClearLowBits(n: nat, y: nat, k: nat)
    requires k <= n && y < Pow2(n) && Pow2(k) - 1 < Pow2(n)
    ensures And(y, Not(n, Pow2(k) - 1)) == y - y % Pow2(k)
    decreases n
  {
    if k == 0 {
      AndAllOnes(n, y);
    } else {
      var h := Pow2(k - 1);
      assert y / 2 < Pow2(n - 1) && h - 1 < Pow2(n - 1);
      ClearLowBits(n - 1, y / 2, k - 1);
      NotOfOddMask(n, h);
      AndEven(y, Not(n - 1, h - 1));
      LowBitsHalve(y, k);
    }
  }

  lemma NotOfOddMask(n: nat, h: nat)
    requires n > 0 && h > 0 && h - 1 < Pow2(n - 1)
    ensures 2 * h - 1 < Pow2(n)
    ensures Not(n, 2 * h - 1) == 2 * Not(n - 1, h - 1)
  {
  }

  lemma LowBitsHalve(y: nat, k: nat)
    requires k > 0
    ensures 2 * (y / 2 - y / 2 % Pow2(k - 1)) == y - y % Pow2(k)
  {
    ModHalf(k, y);
  }

  lemma AndEven(y: nat, m: nat)
    ensures And(y, 2 * m) == 2 * And(y / 2, m)
  {
    if y > 0 && m > 0 {
      assert 2 * m / 2 == m;
    }
  }

  lemma {:induction false} AndAllOnes(n: nat, y: nat)
    requires y < Pow2(n)
    ensures And(y, Pow2(n) - 1) == y
    decreases n
  {
    if n > 0 && y > 0 {
      AndAllOnes(n - 1, y / 2);
      assert (Pow2(n) - 1) / 2 == Pow2(n - 1) - 1;
    }
  }

  // A number is its bits.
  lemma {:induction false} BitsDetermine(x: nat, y: nat)
    requires forall i: nat {:trigger Bit(x, i)} :: Bit(x, i) == Bit(y, i)
    ensures x == y
    decreases x + y
  {
    if x + y > 0 {
      assert Bit(x, 0) == Bit(y, 0);
      forall i: nat {:trigger Bit(x / 2, i)} ensures Bit(x / 2, i) == Bit(y / 2, i) {
        assert Bit(x, i + 1) == Bit(y, i + 1);
      }
      BitsDetermine(x / 2, y / 2);
    }
  }
}
