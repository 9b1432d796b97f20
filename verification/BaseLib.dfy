// Memory and string searches of the base library, over byte sequences.
module BaseLib {

  type Byte = b: nat | b < 0x100

  predicate OccursAt(y: seq<Byte>, x: seq<Byte>, j: nat) {
    j + |x| <= |y| && y[j..j + |x|] == x
  }

  // The first place at or after i where two buffers differ, up to n.
  function Mismatch(s: seq<Byte>, t: seq<Byte>, n: nat): (i: nat)
    requires n <= |s| && n <= |t|
    ensures i <= n && s[..i] == t[..i] && (i < n ==> s[i] != t[i])
    decreases n
  {
    if n == 0 then 0
    else
      var i := Mismatch(s, t, n - 1);
      if i < n - 1 || s[n - 1] != t[n - 1] then i else n
  }

  lemma {:induction false} MismatchIs(s: seq<Byte>, t: seq<Byte>, n: nat, i: nat)
    requires i < n <= |s| && n <= |t| && s[..i] == t[..i] && s[i] != t[i]
    ensures Mismatch(s, t, n) == i
    decreases n
  {
    if i < n - 1 {
      MismatchIs(s, t, n - 1, i);
    } else {
      NoMismatch(s, t, i);
    }
  }

  lemma {:induction false} NoMismatch(s: seq<Byte>, t: seq<Byte>, n: nat)
    requires n <= |s| && n <= |t| && s[..n] == t[..n]
    ensures Mismatch(s, t, n) == n
    decreases n
  {
    if n > 0 {
      assert s[..n][..n - 1] == s[..n - 1] && t[..n][..n - 1] == t[..n - 1];
      assert s[..n][n - 1] == t[..n][n - 1];
      NoMismatch(s, t, n - 1);
    }
  }

  // lib_memcmp: the difference of the first bytes that differ.
  method MemCmp(s: seq<Byte>, t: seq<Byte>, n: nat) returns (d: int)
    requires n <= |s| && n <= |t|
    ensures d == 0 <==> s[..n] == t[..n]
    ensures d != 0 ==> Mismatch(s, t, n) < n && d == s[Mismatch(s, t, n)] as int - t[Mismatch(s, t, n)] as int
  {
    d := 0;
    var i := 0;
    while i < n
      invariant i <= n && s[..i] == t[..i] && d == 0
    {
      d := s[i] as int - t[i] as int;
      if d != 0 {
        MismatchIs(s, t, n, i);
        return;
      }
      assert s[..i + 1] == s[..i] + [s[i]] && t[..i + 1] == t[..i] + [t[i]];
      i := i + 1;
    }
  }

  // A needle of two bytes or more occurs at j exactly when its second byte, the
  // rest and its first byte match there.
  lemma OccursByParts(y: seq<Byte>, x: seq<Byte>, j: nat)
    requires |x| >= 2 && j + |x| <= |y|
    ensures OccursAt(y, x, j) <==> x[1] == y[j + 1] && x[2..] == y[j + 2..j + |x|] && x[0] == y[j]
  {
    var w := y[j..j + |x|];
    assert w == [y[j], y[j + 1]] + y[j + 2..j + |x|];
    assert x == [x[0], x[1]] + x[2..];
    assert w[0] == y[j] && w[1] == y[j + 1] && w[2..] == y[j + 2..j + |x|];
  }

  lemma OccurrenceStarts(y: seq<Byte>, x: seq<Byte>, j: nat)
    requires |x| > 0 && OccursAt(y, x, j)
    ensures y[j] == x[0]
  {
    assert y[j..j + |x|][0] == y[j];
  }

  // The longer step never passes an occurrence: the byte that was looked at rules
  // out the place in between.
  lemma SkipIsSafe(y: seq<Byte>, x: seq<Byte>, j: nat)
    requires |x| >= 2 && j + |x| <= |y|
    requires if x[0] == x[1] then x[1] != y[j + 1] else x[1] == y[j + 1]
    ensures !OccursAt(y, x, j + 1)
  {
    if OccursAt(y, x, j + 1) {
      OccurrenceStarts(y, x, j + 1);
    }
  }

  // lib_memmem: the offset of the first occurrence, or -1.  An empty needle, or an
  // empty haystack, is found nowhere.
  method MemMem(y: seq<Byte>, x: seq<Byte>) returns (r: int)
    ensures r == -1 <==> x == [] || forall j: nat :: !OccursAt(y, x, j)
    ensures r != -1 ==> r >= 0 && OccursAt(y, x, r) && forall j: nat :: j < r ==> !OccursAt(y, x, j)
  {
    var n, m := |y|, |x|;
    if m > n || m == 0 || n == 0 {
      return -1;
    }
    if m != 1 {
      var k, l := 1, 2;
      if x[0] == x[1] {
        k, l := 2, 1;
      }
      var j := 0;
      while j <= n - m
        invariant 0 <= j <= n - m + 2
        invariant forall i: nat {:trigger OccursAt(y, x, i)} :: i < j ==> !OccursAt(y, x, i)
        decreases n - m + 2 - j
      {
        OccursByParts(y, x, j);
        if x[1] != y[j + 1] {
          if k == 2 {
            SkipIsSafe(y, x, j);
          }
          j := j + k;
        } else {
          var d := MemCmp(x[2..], y[j + 2..], m - 2);
          assert x[2..][..m - 2] == x[2..] && y[j + 2..][..m - 2] == y[j + 2..j + m];
          if d == 0 && x[0] == y[j] {
            return j;
          }
          if l == 2 {
            SkipIsSafe(y, x, j);
          }
          j := j + l;
        }
      }
      return -1;
    }
    var p := 0;
    while p < n
      invariant 0 <= p <= n
      invariant forall i: nat {:trigger OccursAt(y, x, i)} :: i < p ==> !OccursAt(y, x, i)
    {
      SingleByte(y, x, p);
      if y[p] == x[0] {
        return p;
      }
      p := p + 1;
    }
    return -1;
  }

  lemma SingleByte(y: seq<Byte>, x: seq<Byte>, p: nat)
    requires |x| == 1 && p < |y|
    ensures OccursAt(y, x, p) <==> y[p] == x[0]
  {
    assert y[p..p + 1] == [y[p]] && x == [x[0]];
  }

  // A string up to its terminator.
  predicate IsString(s: seq<Byte>) {
    0 in s
  }

  function StringOf(s: seq<Byte>): (t: seq<Byte>)
    requires IsString(s)
    ensures |t| < |s| && s[..|t|] == t && s[|t|] == 0 && 0 !in t
  {
    if s[0] == 0 then [] else [s[0]] + StringOf(s[1..])
  }

  lemma {:induction false} LengthIs(s: seq<Byte>, n: nat)
    requires n < |s| && s[n] == 0 && forall i :: 0 <= i < n ==> s[i] != 0
    ensures IsString(s) && |StringOf(s)| == n
    decreases n
  {
    if n > 0 {
      LengthIs(s[1..], n - 1);
    }
  }

  // lib_strlen
  method StrLen(s: seq<Byte>) returns (n: nat)
    requires IsString(s)
    ensures n == |StringOf(s)|
  {
    n := 0;
    while s[n] != 0
      invariant n < |s| && forall i :: 0 <= i < n ==> s[i] != 0
      decreases |s| - n
    {
      assert StringOf(s) == s[..|StringOf(s)|];
      n := n + 1;
    }
    LengthIs(s, n);
  }

  // lib_strstr; unlike the C library's, it finds an empty needle nowhere.
  method StrStr(haystack: seq<Byte>, needle: seq<Byte>) returns (r: int)
    requires IsString(haystack) && IsString(needle)
    ensures r == -1 <==>
      StringOf(needle) == [] || forall j: nat :: !OccursAt(StringOf(haystack), StringOf(needle), j)
    ensures r != -1 ==> (
      && r >= 0 && OccursAt(StringOf(haystack), StringOf(needle), r)
      && forall j: nat :: j < r ==> !OccursAt(StringOf(haystack), StringOf(needle), j))
  {
    var n := StrLen(haystack);
    var m := StrLen(needle);
    r := MemMem(haystack[..n], needle[..m]);
  }
}
