// Masks of contiguous bits as division and remainder: how the C expressions
// on words become the fields of the word.
module BitFields {
  import opened Bits

  // y & (m << k)
  lemma {:induction false} AndShl(y: nat, m: nat, k: nat)
    ensures And(y, Shl(m, k)) == Shl(And(Shr(y, k), m), k)
    decreases k
  {
    if k > 0 {
      AndEven(y, Shl(m, k - 1));
      AndShl(y / 2, m, k - 1);
    }
  }

  // y & (2^n - 1)
  lemma {:induction false} AndLowMask(y: nat, n: nat)
    ensures And(y, Pow2(n) - 1) == y % Pow2(n)
    decreases n
  {
    hide And;
    if n > 0 {
      var m := Pow2(n - 1) - 1;
      AndLowMask(y / 2, n - 1);
      AndOdd(y, m);
      assert And(y, 2 * m + 1) == 2 * (y / 2 % Pow2(n - 1)) + y % 2;
      ModHalf(n, y);
    }
  }

  lemma AndOdd(y: nat, m: nat)
    ensures And(y, 2 * m + 1) == 2 * And(y / 2, m) + y % 2
  {
    assert (2 * m + 1) / 2 == m && (2 * m + 1) % 2 == 1;
  }

  // y & (n ones at position k), mask and result given as numbers
  lemma AndField(y: nat, n: nat, k: nat, mask: nat, q: nat, r: nat)
    requires mask == Shl(Pow2(n) - 1, k) && q == Shr(y, k) % Pow2(n) && r == Shl(q, k)
    ensures And(y, mask) == r
  {
    AndShl(y, Pow2(n) - 1, k);
    AndLowMask(Shr(y, k), n);
  }

  // A mask of two separate fields.
  lemma {:induction false} AndOfSum(y: nat, m1: nat, m2: nat)
    requires And(m1, m2) == 0
    ensures And(y, m1 + m2) == And(y, m1) + And(y, m2)
    decreases y
  {
    if y > 0 && m1 > 0 && m2 > 0 {
      AndOfSum(y / 2, m1 / 2, m2 / 2);
      assert (m1 + m2) / 2 == m1 / 2 + m2 / 2;
    }
  }

  lemma {:induction false} AndCommutes(a: nat, b: nat)
    ensures And(a, b) == And(b, a)
    decreases a
  {
    if a > 0 {
      AndCommutes(a / 2, b / 2);
    }
  }

  // Without common bits, or is addition.
  lemma {:induction false} OrAdds(a: nat, b: nat)
    requires And(a, b) == 0
    ensures Or(a, b) == a + b
    decreases a + b
  {
    if a > 0 && b > 0 {
      OrAdds(a / 2, b / 2);
    }
  }

  // A multiple of 2^n and a number below 2^n.
  lemma {:induction false} OrAbove(b: nat, h: nat, n: nat)
    requires b < Pow2(n)
    ensures Or(b, Shl(h, n)) == b + Shl(h, n) && Or(Shl(h, n), b) == b + Shl(h, n)
  {
    AndAbove(b, h, n);
    AndCommutes(b, Shl(h, n));
    OrAdds(b, Shl(h, n));
    OrAdds(Shl(h, n), b);
  }

  lemma {:induction false} AndAbove(b: nat, h: nat, n: nat)
    requires b < Pow2(n)
    ensures And(b, Shl(h, n)) == 0
    decreases n
  {
    if n > 0 {
      AndAbove(b / 2, h, n - 1);
      AndEven(b, Shl(h, n - 1));
    }
  }

  // Shifts are multiplication and division by the power of two.
  lemma {:induction false} ShlBy(x: nat, k: nat)
    ensures Shl(x, k) == Pow2(k) * x
    decreases k
  {
    if k > 0 {
      ShlBy(x, k - 1);
      Doubled(x, Pow2(k - 1));
    }
  }

  lemma Doubled(x: nat, p: nat)
    ensures 2 * (p * x) == (2 * p) * x
  {
  }

  lemma {:induction false} ShrBy(x: nat, k: nat)
    ensures Shr(x, k) == x / Pow2(k)
    decreases k
  {
    if k == 0 {
      assert x / 1 == x;
    } else {
      ShrBy(x / 2, k - 1);
      DivHalf(x, Pow2(k - 1));
    }
  }

  lemma DivHalf(x: nat, p: nat)
    requires p > 0
    ensures x / 2 / p == x / (2 * p)
  {
    var q, r := x / 2 / p, x / 2 % p;
    assert x / 2 == q * p + r;
    assert x == q * (2 * p) + (2 * r + x % 2);
    DivModUnique(x, 2 * p, q, 2 * r + x % 2);
  }

  lemma PowersInUse()
    ensures Pow2(1) == 2 && Pow2(4) == 0x10 && Pow2(5) == 0x20 && Pow2(6) == 0x40 && Pow2(7) == 0x80
    ensures Pow2(8) == 0x100 && Pow2(13) == 0x2000 && Pow2(19) == 0x8_0000
    ensures Pow2(24) == 0x100_0000 && Pow2(26) == 0x400_0000 && Pow2(31) == 0x8000_0000
  {
    assert Pow2(8) == 0x100;
    assert Pow2(13) == 0x2000;
    assert Pow2(19) == 0x8_0000;
    assert Pow2(24) == 0x100_0000;
    assert Pow2(26) == 0x400_0000;
  }

  lemma MorePowersInUse()
    ensures Pow2(2) == 4 && Pow2(3) == 8 && Pow2(12) == 0x1000 && Pow2(14) == 0x4000 && Pow2(16) == 0x1_0000
    ensures Pow2(18) == 0x4_0000 && Pow2(21) == 0x20_0000
    ensures Pow2(28) == 0x1000_0000 && Pow2(30) == 0x4000_0000 && Pow2(33) == 0x2_0000_0000
    ensures Pow2(36) == 0x10_0000_0000 && Pow2(43) == 0x800_0000_0000 && Pow2(48) == 0x1_0000_0000_0000
    ensures Pow2(63) == 0x8000_0000_0000_0000 && Pow2(64) == 0x1_0000_0000_0000_0000
  {
    PowersInUse();
    assert Pow2(16) == 0x1_0000;
    assert Pow2(21) == 0x20_0000;
    assert Pow2(28) == 0x1000_0000;
    assert Pow2(30) == 0x4000_0000;
    assert Pow2(33) == 0x2_0000_0000;
    assert Pow2(36) == 0x10_0000_0000;
    assert Pow2(43) == 0x800_0000_0000;
    assert Pow2(48) == 0x1_0000_0000_0000;
    assert Pow2(56) == 0x100_0000_0000_0000;
  }
}
