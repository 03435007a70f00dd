/** Powers and positional digit strings over an arbitrary base. */
module Digits {
  function Pow(b: nat, e: nat): (r: nat)
    ensures b > 0 ==> r > 0
  {
    if e == 0 then 1 else b * Pow(b, e - 1)
  }

  function Pow10(e: nat): (r: nat)
    ensures r > 0
  {
    Pow(10, e)
  }

  lemma {:induction false} PowAdd(b: nat, x: nat, y: nat)
    ensures Pow(b, x + y) == Pow(b, x) * Pow(b, y)
  {
    if x > 0 {
      PowAdd(b, x - 1, y);
      assert Pow(b, x + y) == b * Pow(b, x - 1 + y);
      MulAssoc(b, Pow(b, x - 1), Pow(b, y));
    }
  }

  lemma {:induction false} PowMonotone(b: nat, x: nat, y: nat)
    requires b > 0 && x <= y
    ensures Pow(b, x) <= Pow(b, y)
  {
    if x < y {
      PowMonotone(b, x, y - 1);
      MulGrows(b, Pow(b, y - 1));
    }
  }

  lemma {:induction false} Pow100Is10(e: nat)
    ensures Pow(100, e) == Pow10(2 * e)
  {
    if e > 0 {
      Pow100Is10(e - 1);
      assert Pow(10, 2 * e) == 10 * (10 * Pow(10, 2 * e - 2));
    }
  }

  lemma MulAssoc(a: int, b: int, c: int)
    ensures a * (b * c) == (a * b) * c
  {}

  lemma MulGrows(a: nat, b: nat)
    requires a > 0
    ensures b <= a * b
  {}

  lemma MulMonotone(a: int, b: int, c: nat)
    requires a <= b
    ensures a * c <= b * c
  {}

  /** A multiple of d strictly between -d and d is 0. */
  lemma SmallMultiple(k: int, d: nat)
    requires 0 - d < k * d < d
    ensures k == 0
  {
    if k >= 1 { MulMonotone(1, k, d); }
    if k <= -1 { MulMonotone(k, -1, d); }
  }

  /** a == q * d + r with 0 <= r < d determines quotient and remainder. */
  lemma DivModUnique(a: int, d: nat, q: int, r: int)
    requires a == q * d + r && 0 <= r < d
    ensures a / d == q && a % d == r
  {
    var q', r' := a / d, a % d;
    assert a == q' * d + r';
    assert (q - q') * d == r' - r by { Distribute(q, q', d); }
    SmallMultiple(q - q', d);
  }

  lemma Distribute(a: int, b: int, c: int)
    ensures (a - b) * c == a * c - b * c
    ensures (a + b) * c == a * c + b * c
  {}

  ghost predicate AllBelow(s: seq<nat>, b: nat) {
    forall i :: 0 <= i < |s| ==> s[i] < b
  }

  /** Number written by the digits of `s`, most significant first. */
  function Fold(s: seq<nat>, b: nat): nat {
    if |s| == 0 then 0 else Fold(s[..|s| - 1], b) * b + s[|s| - 1]
  }

  lemma EmptyFold(b: nat)
    ensures Fold([], b) == 0 && Pow(b, 0) == 1
  {}

  lemma {:induction false} FoldConcat(s: seq<nat>, t: seq<nat>, b: nat)
    ensures Fold(s + t, b) == Fold(s, b) * Pow(b, |t|) + Fold(t, b)
  {
    if |t| == 0 {
      assert s + t == s;
    } else {
      var t' := t[..|t| - 1];
      assert (s + t)[..|s + t| - 1] == s + t';
      FoldConcat(s, t', b);
      ShiftSum(Fold(s, b), Pow(b, |t'|), Fold(t', b), b);
    }
  }

  lemma ShiftSum(x: nat, p: nat, y: nat, b: nat)
    ensures (x * p + y) * b == x * (b * p) + y * b
  {
    Distribute(x * p, y, b);
    MulAssoc(x, p, b);
  }

  lemma {:induction false} FoldBound(s: seq<nat>, b: nat)
    requires AllBelow(s, b)
    ensures Fold(s, b) < Pow(b, |s|)
  {
    if |s| > 0 {
      FoldBound(s[..|s| - 1], b);
      AppendBound(Fold(s[..|s| - 1], b), Pow(b, |s| - 1), s[|s| - 1], b);
    }
  }

  lemma AppendBound(x: nat, p: nat, d: nat, b: nat)
    requires x < p && d < b
    ensures x * b + d < b * p
  {
    MulMonotone(x, p - 1, b);
    Distribute(p, 1, b);
  }

  lemma FoldAppend(s: seq<nat>, d: nat, b: nat)
    ensures Fold(s + [d], b) == Fold(s, b) * b + d
  {
    assert (s + [d])[..|s|] == s;
  }

  lemma DivMod(n: nat, d: nat)
    requires d > 0
    ensures n == n / d * d + n % d && 0 <= n % d < d
  {}

  lemma FoldSingle(d: nat, b: nat)
    ensures Fold([d], b) == d
  {
    assert [d][..0] == [];
  }

  /** Splitting off the most significant digit. */
  lemma FoldHead(s: seq<nat>, b: nat)
    requires |s| > 0
    ensures Fold(s, b) == s[0] * Pow(b, |s| - 1) + Fold(s[1..], b)
  {
    assert s == [s[0]] + s[1..];
    FoldConcat([s[0]], s[1..], b);
    FoldSingle(s[0], b);
  }

  /** Digits of n in base b, least significant first, without leading zeros. */
  function LowDigits(n: nat, b: nat): (s: seq<nat>)
    requires b >= 2
    ensures AllBelow(s, b)
    ensures n == 0 <==> s == []
    ensures |s| > 0 ==> s[|s| - 1] != 0
  {
    if n == 0 then [] else [n % b] + LowDigits(n / b, b)
  }

  lemma LowDigitsStep(n: nat, b: nat)
    requires b >= 2 && n > 0
    ensures LowDigits(n, b) == [n % b] + LowDigits(n / b, b)
  {}

  function Reverse(s: seq<nat>): (r: seq<nat>)
    ensures |r| == |s| && forall i :: 0 <= i < |s| ==> r[i] == s[|s| - 1 - i]
  {
    if s == [] then [] else Reverse(s[1..]) + [s[0]]
  }

  /** Digits of n in base b, most significant first, without leading zeros. */
  function HighDigits(n: nat, b: nat): (s: seq<nat>)
    requires b >= 2
    ensures AllBelow(s, b)
    ensures n == 0 <==> s == []
    ensures |s| > 0 ==> s[0] != 0
  {
    Reverse(LowDigits(n, b))
  }

  lemma HighDigitsStep(n: nat, b: nat)
    requires b >= 2 && n > 0
    ensures HighDigits(n, b) == HighDigits(n / b, b) + [n % b]
  {
    assert LowDigits(n, b)[1..] == LowDigits(n / b, b);
  }

  lemma {:induction false} FoldHighDigits(n: nat, b: nat)
    requires b >= 2
    ensures Fold(HighDigits(n, b), b) == n
  {
    if n > 0 {
      FoldHighDigits(n / b, b);
      HighDigitsStep(n, b);
      FoldAppend(HighDigits(n / b, b), n % b, b);
      DivMod(n, b);
    }
  }

  /** The digit string of a number is the only one without a leading zero. */
  lemma {:induction false} HighDigitsUnique(s: seq<nat>, b: nat)
    requires b >= 2 && AllBelow(s, b) && (|s| > 0 ==> s[0] != 0)
    ensures HighDigits(Fold(s, b), b) == s
  {
    hide HighDigits, Fold, Pow;
    if |s| == 0 {
      EmptyFold(b);
    } else {
      var t, d := s[..|s| - 1], s[|s| - 1];
      HighDigitsUnique(t, b);
      var x := Fold(t, b);
      assert s == t + [d];
      FoldAppend(t, d, b);
      DivModUnique(x * b + d, b, x, d);
      FoldHighPositive(s, b);
      HighDigitsStep(x * b + d, b);
    }
  }

  lemma FoldHighPositive(s: seq<nat>, b: nat)
    requires b >= 1 && |s| > 0 && s[0] > 0
    ensures Fold(s, b) >= Pow(b, |s| - 1)
  {
    FoldHead(s, b);
    var p := Pow(b, |s| - 1);
    assert s[0] * p >= p;
  }

  lemma PowUnfold(b: nat, e: nat)
    ensures Pow(b, e) == if e == 0 then 1 else b * Pow(b, e - 1)
  {}

  lemma {:induction false} LowDigitsCount(n: nat, b: nat, k: nat)
    requires b >= 2 && n < Pow(b, k)
    ensures |LowDigits(n, b)| <= k
    decreases k
  {
    hide LowDigits, Pow;
    PowUnfold(b, k);
    if n > 0 {
      LowDigitsStep(n, b);
      DivBelow(n, b, Pow(b, k - 1));
      LowDigitsCount(n / b, b, k - 1);
    }
  }

  lemma DivBelow(n: nat, d: nat, q: nat)
    requires d > 0 && n < d * q
    ensures n / d < q
  {
    if n / d >= q {
      DivMod(n, d);
      MulMonotone(q, n / d, d);
    }
  }

  /** The decimal digits of a string of base-100 digits: two for each. */
  function Stream(pairs: seq<nat>): (s: seq<nat>)
    ensures |s| == 2 * |pairs|
  {
    if |pairs| == 0 then [] else
    var d := pairs[|pairs| - 1];
    Stream(pairs[..|pairs| - 1]) + [d / 10, d % 10]
  }

  lemma {:induction false} StreamPair(pairs: seq<nat>, k: nat)
    requires k < |pairs|
    ensures Stream(pairs)[2 * k] == pairs[k] / 10
    ensures Stream(pairs)[2 * k + 1] == pairs[k] % 10
  {
    if k < |pairs| - 1 { StreamPair(pairs[..|pairs| - 1], k); }
  }

  lemma StreamAt(pairs: seq<nat>, i: nat)
    requires i < 2 * |pairs|
    ensures Stream(pairs)[i] == if i % 2 == 1 then pairs[i / 2] % 10 else pairs[i / 2] / 10
  {
    var k := i / 2;
    StreamPair(pairs, k);
    if i % 2 == 1 {
      assert i == 2 * k + 1;
    } else {
      assert i == 2 * k;
    }
  }

  lemma {:induction false} StreamConcat(s: seq<nat>, t: seq<nat>)
    ensures Stream(s + t) == Stream(s) + Stream(t)
  {
    if |t| == 0 {
      assert s + t == s;
    } else {
      StreamConcat(s, t[..|t| - 1]);
      assert (s + t)[..|s + t| - 1] == s + t[..|t| - 1];
    }
  }

  lemma {:induction false} FoldStream(pairs: seq<nat>)
    ensures Fold(Stream(pairs), 10) == Fold(pairs, 100)
  {
    if |pairs| > 0 {
      var t, d := Stream(pairs[..|pairs| - 1]), pairs[|pairs| - 1];
      FoldStream(pairs[..|pairs| - 1]);
      FoldAppend(t, d / 10, 10);
      FoldAppend(t + [d / 10], d % 10, 10);
      assert Stream(pairs) == t + [d / 10] + [d % 10];
    }
  }

  lemma {:induction false} StreamBelow(pairs: seq<nat>)
    requires AllBelow(pairs, 100)
    ensures AllBelow(Stream(pairs), 10)
  {
    if |pairs| > 0 { StreamBelow(pairs[..|pairs| - 1]); }
  }

  lemma ConcatAssoc<T>(a: seq<T>, b: seq<T>, c: seq<T>)
    ensures a + (b + c) == (a + b) + c
  {}

  lemma SliceInMiddle<T>(u: seq<T>, i: nat, j: nat)
    requires i <= j <= |u|
    ensures u == (u[..i] + u[i..j]) + u[j..]
  {}

  lemma SliceOfSlice<T>(s: seq<T>, lo: nat, hi: nat, i: nat, j: nat)
    requires lo <= hi <= |s| && i <= j <= hi - lo
    ensures s[lo..hi][i..j] == s[lo + i..lo + j]
  {
    var t := s[lo..hi];
    forall k | 0 <= k < j - i
      ensures t[i..j][k] == s[lo + i..lo + j][k]
    {
      assert t[i..j][k] == t[i + k] == s[lo + (i + k)];
    }
  }

  lemma StreamSlice(u: seq<nat>, i: nat, j: nat)
    requires i <= j <= |u|
    ensures Stream(u)[2 * i..2 * j] == Stream(u[i..j])
  {
    SliceInMiddle(u, i, j);
    StreamConcat(u[..i] + u[i..j], u[j..]);
    StreamConcat(u[..i], u[i..j]);
  }
}
