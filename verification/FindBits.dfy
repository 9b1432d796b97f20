// Finding the first and the last set bit by halving, as the tools do it.
module FindBits {
  import opened Bits
  import opened BitFields

  lemma {:induction false} FfsOfShift(x: nat, k: nat)
    requires x > 0 && x % Pow2(k) == 0
    ensures Shr(x, k) > 0 && Ffs(x) == k + Ffs(Shr(x, k))
    decreases k
  {
    if k > 0 {
      ModHalf(k, x);
      EvenIfDivides(x, k);
      FfsOfShift(x / 2, k - 1);
    }
  }

  lemma EvenIfDivides(x: nat, k: nat)
    requires k > 0 && x > 0 && x % Pow2(k) == 0
    ensures x % 2 == 0 && x / 2 > 0 && (x / 2) % Pow2(k - 1) == 0
  {
    ModHalf(k, x);
  }

  lemma {:induction false} FfsBelow(x: nat, k: nat)
    requires x > 0 && x % Pow2(k) != 0
    ensures Ffs(x) < k
    decreases k
  {
    ModHalf(k, x);
    if k > 0 && x % 2 == 0 {
      FfsBelow(x / 2, k - 1);
    }
  }

  // if ((word & (2^k - 1)) == 0) { num += k; word >>= k; }
  method SkipZeros(word: nat, num: nat, k: nat) returns (w: nat, n: nat)
    requires word > 0
    ensures w > 0 && n + Ffs(w) == num + Ffs(word)
    ensures Ffs(word) < 2 * k ==> Ffs(w) < k
  {
    AndLowMask(word, k);
    hide And, Shr, Pow2;
    w, n := word, num;
    if And(word, Pow2(k) - 1) == 0 {
      FfsOfShift(word, k);
      w, n := Shr(word, k), num + k;
    } else {
      FfsBelow(word, k);
    }
  }

  // __ffs
  method FfsLong(word: nat) returns (num: nat)
    requires 0 < word < 0x1_0000_0000_0000_0000
    ensures num == Ffs(word)
  {
    Pow2Values();
    BitInWidth(64, word, Ffs(word));
    hide Ffs, Pow2;
    var w;
    w, num := SkipZeros(word, 0, 32);
    w, num := SkipZeros(w, num, 16);
    w, num := SkipZeros(w, num, 8);
    w, num := SkipZeros(w, num, 4);
    w, num := SkipZeros(w, num, 2);
    w, num := SkipZeros(w, num, 1);
  }

  // ffs of a non-negative int
  method FfsInt(x: nat) returns (r: nat)
    requires x < 0x8000_0000
    ensures r == if x == 0 then 0 else Ffs(x) + 1
  {
    if x == 0 { return 0; }
    Pow2Values();
    BitInWidth(32, x, Ffs(x));
    hide Ffs, Pow2;
    var w;
    w, r := SkipZeros(x, 1, 16);
    w, r := SkipZeros(w, r, 8);
    w, r := SkipZeros(w, r, 4);
    w, r := SkipZeros(w, r, 2);
    w, r := SkipZeros(w, r, 1);
  }

  lemma {:induction false} FlsOfShift(x: nat, k: nat)
    requires x > 0
    ensures Shl(x, k) > 0 && Fls(Shl(x, k)) == Fls(x) + k
    decreases k
  {
    if k > 0 {
      FlsOfShift(x, k - 1);
    }
  }

  // The k high bits of a 32-bit word are clear exactly if it is below 2^(32 - k).
  lemma HighClear(x: nat, k: nat)
    requires k <= 32 && x < Pow2(32)
    ensures And(x, Shl(Pow2(k) - 1, 32 - k)) == 0 <==> x < Pow2(32 - k)
  {
    var s := 32 - k;
    AndShl(x, Pow2(k) - 1, s);
    AndLowMask(Shr(x, s), k);
    ShrFits(x, s, k);
    ShrAtLeast(x, 1, s);
    ShlOne(s);
    ShlAtLeast(Shr(x, s), s);
  }

  lemma {:induction false} ShrFits(x: nat, s: nat, k: nat)
    requires x < Pow2(s + k)
    ensures Shr(x, s) < Pow2(k) && Shr(x, s) % Pow2(k) == Shr(x, s)
    decreases s
  {
    if s > 0 {
      assert Pow2(s + k) == 2 * Pow2(s - 1 + k);
      ShrFits(x / 2, s - 1, k);
    } else {
      DivModUnique(x, Pow2(k), 0, x);
    }
  }

  lemma {:induction false} ShlAtLeast(q: nat, s: nat)
    ensures Shl(q, s) >= q && (q == 0 ==> Shl(q, s) == 0)
    decreases s
  {
    if s > 0 {
      ShlAtLeast(q, s - 1);
    }
  }

  // if (!(x & (the k high bits))) { x <<= k; r -= k; }
  method SkipHigh(x: nat, r: int, k: nat) returns (y: nat, n: int)
    requires 0 < x < Pow2(32) && k <= 32
    ensures 0 < y < Pow2(32) && n + Fls(y) == r + Fls(x)
    ensures Fls(x) + 2 * k >= 32 ==> Fls(y) + k >= 32
  {
    hide Pow2, And, Shl;
    HighClear(x, k);
    hide And, Shl, Pow2, Fls;
    y, n := x, r;
    if And(x, Shl(Pow2(k) - 1, 32 - k)) == 0 {
      FlsOfShift(x, k);
      ShiftedFits(x, k);
      y, n := Shl(x, k), r - k;
    } else {
      FlsAbove(x, 32 - k);
    }
  }

  lemma ShiftedFits(x: nat, k: nat)
    requires k <= 32 && x < Pow2(32 - k)
    ensures Shl(x, k) < Pow2(32)
  {
    ShlBelow(x, k, 32 - k);
  }

  lemma {:induction false} ShlBelow(x: nat, k: nat, n: nat)
    requires x < Pow2(n)
    ensures Shl(x, k) < Pow2(n + k)
    decreases k
  {
    if k > 0 {
      ShlBelow(x, k - 1, n);
    }
  }

  lemma FlsAbove(x: nat, n: nat)
    requires x > 0 && x >= Pow2(n)
    ensures Fls(x) >= n
  {
    hide Pow2, Fls;
    if Fls(x) < n {
      Pow2Monotone(Fls(x) + 1, n);
    }
  }

  // fls of a 32-bit word
  method FlsWord(x: nat) returns (r: int)
    requires x < 0x1_0000_0000
    ensures r == if x == 0 then 0 else Fls(x) + 1
  {
    if x == 0 { return 0; }
    Pow2Values();
    hide Pow2, Fls;
    FlsBelow(x, 32);
    var y;
    y, r := SkipHigh(x, 32, 16);
    y, r := SkipHigh(y, r, 8);
    y, r := SkipHigh(y, r, 4);
    y, r := SkipHigh(y, r, 2);
    y, r := SkipHigh(y, r, 1);
    FlsBelow(y, 32);
  }

  lemma FlsBelow(x: nat, n: nat)
    requires 0 < x < Pow2(n)
    ensures Fls(x) < n
  {
    hide Pow2, Fls;
    if Fls(x) >= n {
      Pow2Monotone(n, Fls(x));
    }
  }
}
