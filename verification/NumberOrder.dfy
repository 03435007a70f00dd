/** NUMBER encodings are canonical and order preserving: their bytes compare, byte by byte, as the values
    do. Mantissas are compared as digit strings after padding them to 20 base-100 digits. */
module NumberOrder {
  import opened Machine
  import opened Digits
  import opened NumberEncoding
  import opened NumberRoundTrip

  /** Lexicographic order; a proper prefix comes first. */
  predicate LexLess(a: seq<nat>, b: seq<nat>) {
    |b| > 0 && (|a| == 0 || a[0] < b[0] || (a[0] == b[0] && LexLess(a[1..], b[1..])))
  }

  lemma {:induction false} LexTotal(a: seq<nat>, b: seq<nat>)
    ensures LexLess(a, b) || a == b || LexLess(b, a)
    ensures !(LexLess(a, b) && LexLess(b, a))
    ensures a == b ==> !LexLess(a, b)
  {
    if |a| > 0 && |b| > 0 {
      LexTotal(a[1..], b[1..]);
      assert a == [a[0]] + a[1..] && b == [b[0]] + b[1..];
    }
  }

  /** Mantissa digits as an integer after padding to `width` digits. */
  function Weight(pairs: seq<nat>, width: nat): nat
    requires |pairs| <= width
  {
    Fold(pairs, 100) * Pow(100, width - |pairs|)
  }

  lemma WeightBound(pairs: seq<nat>, width: nat)
    requires |pairs| <= width && AllBelow(pairs, 100)
    ensures Weight(pairs, width) < Pow(100, width)
    ensures |pairs| > 0 && pairs[0] != 0 ==> Pow(100, width - 1) <= Weight(pairs, width)
  {
    hide Fold, Pow;
    var p := Pow(100, width - |pairs|);
    FoldBound(pairs, 100);
    PowAdd(100, |pairs|, width - |pairs|);
    MulStrict(Fold(pairs, 100), Pow(100, |pairs|), p);
    if |pairs| > 0 && pairs[0] != 0 {
      FoldHighPositive(pairs, 100);
      PowAdd(100, |pairs| - 1, width - |pairs|);
      MulMonotone(Pow(100, |pairs| - 1), Fold(pairs, 100), p);
    }
  }

  lemma WeightHead(pairs: seq<nat>, width: nat)
    requires 0 < |pairs| <= width
    ensures Weight(pairs, width) == pairs[0] * Pow(100, width - 1) + Weight(pairs[1..], width - 1)
  {
    hide Fold, Pow;
    FoldHead(pairs, 100);
    var n, p := |pairs| - 1, Pow(100, width - |pairs|);
    PowAdd(100, n, width - |pairs|);
    Distribute(pairs[0] * Pow(100, n), Fold(pairs[1..], 100), p);
    MulAssoc(pairs[0], Pow(100, n), p);
  }

  /** Digit strings without trailing zeros: lexicographic order is the order of the padded numbers. */
  lemma {:induction false} LexLessWeight(a: seq<nat>, b: seq<nat>, width: nat)
    requires |a| <= width && |b| <= width && AllBelow(a, 100) && AllBelow(b, 100)
    requires LexLess(a, b) && b[|b| - 1] != 0
    ensures Weight(a, width) < Weight(b, width)
  {
    hide Pow, Weight;
    WeightHead(b, width);
    var p := Pow(100, width - 1);
    if |a| == 0 {
      WeightOfNone(width);
      WeightPositive(b, width);
    } else {
      WeightHead(a, width);
      if a[0] < b[0] {
        WeightBound(a[1..], width - 1);
        MulMonotone(a[0] + 1, b[0], p);
        Distribute(a[0], 1, p);
      } else {
        LexLessWeight(a[1..], b[1..], width - 1);
      }
    }
  }

  lemma WeightOfNone(width: nat)
    ensures Weight([], width) == 0
  {}

  lemma WeightPositive(b: seq<nat>, width: nat)
    requires 0 < |b| <= width && b[|b| - 1] != 0
    ensures Weight(b, width) > 0
  {
    MulGrows(Pow(100, width - |b|), Fold(b, 100));
  }

  predicate NormalLess(x: Normal, y: Normal) {
    x.exponent < y.exponent || (x.exponent == y.exponent && LexLess(x.pairs, y.pairs))
  }

  /** The padded mantissa carries the value: w * 10^(2e + 2 + scale) == magnitude * 10^(2 * width). */
  lemma WeightValue(magnitude: nat, scale: nat, width: nat)
    requires magnitude > 0 && |NormalForm(magnitude, scale).pairs| <= width
    ensures var n := NormalForm(magnitude, scale);
            var place := 2 * n.exponent + 2 + scale;
            place >= 0 && Weight(n.pairs, width) * Pow10(place) == magnitude * Pow10(2 * width)
  {
    hide Fold, Pow, NormalForm;
    var n := NormalForm(magnitude, scale);
    NormalPairs(magnitude, scale);
    NormalValue(magnitude, scale);
    var frac, odd, place := FractionPairs(scale), scale % 2, 2 * n.exponent + 2 + scale;
    var t, pad := n.exponent + 1 - |n.pairs| + frac, width - |n.pairs|;
    var v, w := Fold(n.pairs, 100), Weight(n.pairs, width);
    assert 2 * frac == scale + odd && 2 * t + 2 * |n.pairs| == place + odd;
    PowSmall();
    Pow100Is10(pad);
    assert v * Pow10(2 * t) == magnitude * Pow10(odd);
    // both sides times 10^(2 * width)
    assert w * Pow10(place + odd) == magnitude * Pow10(2 * width + odd) by {
      assert w * Pow10(place + odd) == v * Pow10(2 * pad + (place + odd)) by { TimesPow(v, 2 * pad, place + odd); }
      assert v * Pow10(2 * t + 2 * width) == magnitude * Pow10(odd + 2 * width) by {
        TimesPow(v, 2 * t, 2 * width);
        TimesPow(magnitude, odd, 2 * width);
      }
      assert 2 * pad + (place + odd) == 2 * t + 2 * width;
      assert odd + 2 * width == 2 * width + odd;
    }
    TimesPow(w, place, odd);
    TimesPow(magnitude, 2 * width, odd);
    CancelFactor(w * Pow10(place), magnitude * Pow10(2 * width), Pow10(odd));
    CancelFactor(magnitude * Pow10(2 * width), w * Pow10(place), Pow10(odd));
  }

  lemma TimesPow(x: nat, i: nat, j: nat)
    ensures x * Pow10(i) * Pow10(j) == x * Pow10(i + j)
  {
    PowAdd(10, i, j);
    MulAssoc(x, Pow10(i), Pow10(j));
  }

  /** magnitude1 * 10^-scale1 < magnitude2 * 10^-scale2 */
  predicate ValueLess(m1: int, scale1: nat, m2: int, scale2: nat) {
    m1 * Pow10(scale2) < m2 * Pow10(scale1)
  }

  lemma NormalLessValue(m1: nat, scale1: nat, m2: nat, scale2: nat)
    requires 0 < m1 < TWO128 && 0 < m2 < TWO128
    requires NormalLess(NormalForm(m1, scale1), NormalForm(m2, scale2))
    ensures ValueLess(m1, scale1, m2, scale2)
  {
    hide Fold, Pow, NormalForm, Weight;
    var x, y := NormalForm(m1, scale1), NormalForm(m2, scale2);
    TwentyPairs(m1, scale1);
    TwentyPairs(m2, scale2);
    NormalPairs(m1, scale1);
    NormalPairs(m2, scale2);
    WeightValue(m1, scale1, 20);
    WeightValue(m2, scale2, 20);
    var u, w := Weight(x.pairs, 20), Weight(y.pairs, 20);
    var i, j := 2 * x.exponent + 2 + scale1, 2 * y.exponent + 2 + scale2;
    assert u * Pow10(i + scale2) < w * Pow10(j + scale1) by {
      if x.exponent == y.exponent {
        LexLessWeight(x.pairs, y.pairs, 20);
        MulStrict(u, w, Pow10(i + scale2));
      } else {
        WeightBound(x.pairs, 20);
        WeightBound(y.pairs, 20);
        Pow100Is10(20);
        Pow100Is10(19);
        MulStrict(u, Pow10(40), Pow10(i + scale2));
        MulMonotone(Pow10(38), w, Pow10(j + scale1));
        PowAdd(10, 40, i + scale2);
        PowAdd(10, 38, j + scale1);
        PowMonotone(10, 40 + i + scale2, 38 + j + scale1);
      }
    }
    TimesPow(u, i, scale2);
    TimesPow(w, j, scale1);
    SwapFactors(m1, Pow10(40), Pow10(scale2));
    SwapFactors(m2, Pow10(40), Pow10(scale1));
    CancelFactor(m2 * Pow10(scale1), m1 * Pow10(scale2), Pow10(40));
  }

  lemma SwapFactors(a: int, b: int, c: int)
    ensures a * b * c == a * c * b
  {
    MulAssoc(a, b, c);
    MulAssoc(a, c, b);
  }

  lemma SameNormalSameValue(m1: nat, scale1: nat, m2: nat, scale2: nat)
    requires 0 < m1 < TWO128 && 0 < m2 < TWO128
    requires NormalForm(m1, scale1) == NormalForm(m2, scale2)
    ensures m1 * Pow10(scale2) == m2 * Pow10(scale1)
  {
    hide Fold, Pow, NormalForm, Weight;
    var x := NormalForm(m1, scale1);
    TwentyPairs(m1, scale1);
    WeightValue(m1, scale1, 20);
    WeightValue(m2, scale2, 20);
    var u := Weight(x.pairs, 20);
    TimesPow(u, 2 * x.exponent + 2 + scale1, scale2);
    TimesPow(u, 2 * x.exponent + 2 + scale2, scale1);
    SwapFactors(m1, Pow10(40), Pow10(scale2));
    SwapFactors(m2, Pow10(40), Pow10(scale1));
    CancelFactor(m2 * Pow10(scale1), m1 * Pow10(scale2), Pow10(40));
    CancelFactor(m1 * Pow10(scale2), m2 * Pow10(scale1), Pow10(40));
  }

  /** Normal forms are ordered exactly as the values. */
  lemma NormalOrder(m1: nat, scale1: nat, m2: nat, scale2: nat)
    requires 0 < m1 < TWO128 && 0 < m2 < TWO128
    ensures NormalLess(NormalForm(m1, scale1), NormalForm(m2, scale2)) <==> ValueLess(m1, scale1, m2, scale2)
  {
    hide Pow, Pow10, NormalForm, LexLess;
    var x, y := NormalForm(m1, scale1), NormalForm(m2, scale2);
    LexTotal(x.pairs, y.pairs);
    if NormalLess(x, y) {
      NormalLessValue(m1, scale1, m2, scale2);
    } else if NormalLess(y, x) {
      NormalLessValue(m2, scale2, m1, scale1);
    } else {
      SameNormalSameValue(m1, scale1, m2, scale2);
    }
  }

  /** Digit bytes of a positive mantissa. */
  function PlusBytes(pairs: seq<nat>): seq<nat> {
    if |pairs| == 0 then [] else [pairs[0] + 1] + PlusBytes(pairs[1..])
  }

  /** Digit bytes of a negative mantissa with room for `width` digits, and its terminator. */
  function MinusBytes(pairs: seq<nat>, width: nat): seq<nat>
    requires |pairs| <= width && AllBelow(pairs, 100)
  {
    if |pairs| == 0 then (if width > 0 then [102] else [])
    else [(101 - pairs[0]) as nat] + MinusBytes(pairs[1..], width - 1)
  }

  lemma {:induction false} PlusBytesAre(pairs: seq<nat>)
    requires AllBelow(pairs, 100)
    ensures PlusBytes(pairs) == seq(|pairs|, i requires 0 <= i < |pairs| => pairs[i] + 1)
  {
    if |pairs| > 0 { PlusBytesAre(pairs[1..]); }
  }

  lemma {:induction false} MinusBytesAre(pairs: seq<nat>, width: nat)
    requires AllBelow(pairs, 100) && |pairs| <= width
    ensures MinusBytes(pairs, width)
         == seq(|pairs|, i requires 0 <= i < |pairs| => (101 - pairs[i]) as nat)
          + if |pairs| < width then [102] else []
  {
    if |pairs| > 0 { MinusBytesAre(pairs[1..], width - 1); }
  }

  lemma {:induction false} PlusOrder(a: seq<nat>, b: seq<nat>)
    ensures LexLess(PlusBytes(a), PlusBytes(b)) <==> LexLess(a, b)
  {
    if |a| > 0 && |b| > 0 {
      PlusOrder(a[1..], b[1..]);
      assert PlusBytes(a)[1..] == PlusBytes(a[1..]) && PlusBytes(b)[1..] == PlusBytes(b[1..]);
    }
  }

  /** Smaller digits give larger bytes, and the terminator is larger than any digit byte. */
  lemma {:induction false} MinusOrder(a: seq<nat>, b: seq<nat>, width: nat)
    requires |a| <= width && |b| <= width && AllBelow(a, 100) && AllBelow(b, 100)
    ensures LexLess(MinusBytes(a, width), MinusBytes(b, width)) <==> LexLess(b, a)
  {
    if |a| > 0 && |b| > 0 {
      MinusOrder(a[1..], b[1..], width - 1);
      assert MinusBytes(a, width)[1..] == MinusBytes(a[1..], width - 1);
      assert MinusBytes(b, width)[1..] == MinusBytes(b[1..], width - 1);
    }
  }

  /** Encodings of two nonzero values of the same sign. */
  lemma SameSignOrder(x: Normal, y: Normal, negative: bool)
    requires AllBelow(x.pairs, 100) && AllBelow(y.pairs, 100) && |x.pairs| <= 20 && |y.pairs| <= 20
    requires -65 <= x.exponent <= 62 && -65 <= y.exponent <= 62
    ensures LexLess(NormalBytes(x, negative), NormalBytes(y, negative))
       <==> if negative then NormalLess(y, x) else NormalLess(x, y)
  {
    hide NormalBytes, PlusBytes, MinusBytes, LexLess;
    BytesOf(x, negative);
    BytesOf(y, negative);
    if negative {
      LexHead(62 - x.exponent, MinusBytes(x.pairs, 20), 62 - y.exponent, MinusBytes(y.pairs, 20));
      MinusOrder(x.pairs, y.pairs, 20);
    } else {
      LexHead((193 + x.exponent) % 256, PlusBytes(x.pairs), (193 + y.exponent) % 256, PlusBytes(y.pairs));
      PlusOrder(x.pairs, y.pairs);
    }
  }

  lemma LexHead(a: nat, s: seq<nat>, b: nat, t: seq<nat>)
    ensures LexLess([a] + s, [b] + t) <==> a < b || (a == b && LexLess(s, t))
  {
    assert ([a] + s)[1..] == s && ([b] + t)[1..] == t;
  }

  lemma BytesOf(n: Normal, negative: bool)
    requires AllBelow(n.pairs, 100) && |n.pairs| <= 20 && -65 <= n.exponent <= 62
    ensures NormalBytes(n, negative)
         == if negative then [62 - n.exponent] + MinusBytes(n.pairs, 20)
            else [(193 + n.exponent) % 256] + PlusBytes(n.pairs)
  {
    hide PlusBytes, MinusBytes;
    MinusBytesAre(n.pairs, 20);
    PlusBytesAre(n.pairs);
  }

  function Signed(magnitude: nat, negative: bool): int {
    if negative then 0 - magnitude else magnitude
  }

  /** Zero's byte lies between the exponent bytes of the negative and of the positive numbers. */
  lemma HeadByte(magnitude: nat, negative: bool, scale: nat)
    requires magnitude < TWO128 && ExponentFits(magnitude, negative, scale)
    ensures var bytes := Encode(magnitude, negative, scale);
            |bytes| > 0
            && (Signed(magnitude, negative) > 0 <==> bytes[0] > 0x80)
            && (Signed(magnitude, negative) < 0 <==> bytes[0] < 0x80)
            && (magnitude == 0 <==> bytes == [0x80])
            && (magnitude > 0 ==> bytes == NormalBytes(NormalForm(magnitude, scale), negative))
  {
    hide NormalForm, NormalBytes;
    if magnitude > 0 {
      var n := NormalForm(magnitude, scale);
      NormalPairs(magnitude, scale);
      TwentyPairs(magnitude, scale);
      ExponentBound(magnitude, scale);
      NormalBytesAt(n, negative);
    }
  }

  lemma NegatedLess(m1: nat, m2: nat, p: nat, q: nat)
    ensures (0 - m1) * p < (0 - m2) * q <==> m2 * q < m1 * p
  {
    Distribute(0, m1, p);
    Distribute(0, m2, q);
  }

  lemma SignsDiffer(m1: int, m2: int, p: nat, q: nat)
    requires p > 0 && q > 0
    ensures m1 <= 0 <= m2 && (m1 < 0 || m2 > 0) ==> m1 * p < m2 * q
  {
    if m1 <= 0 <= m2 {
      MulMonotone(m1, 0, p);
      MulMonotone(0, m2, q);
      if m1 < 0 { MulMonotone(m1, -1, p); }
      if m2 > 0 { MulMonotone(1, m2, q); }
    }
  }

  /** Byte order is numeric order, across signs, scales and lengths. */
  lemma EncodingOrder(m1: nat, negative1: bool, scale1: nat, m2: nat, negative2: bool, scale2: nat)
    requires m1 < TWO128 && ExponentFits(m1, negative1, scale1)
    requires m2 < TWO128 && ExponentFits(m2, negative2, scale2)
    ensures LexLess(Encode(m1, negative1, scale1), Encode(m2, negative2, scale2))
       <==> ValueLess(Signed(m1, negative1), scale1, Signed(m2, negative2), scale2)
  {
    hide Pow, Pow10, NormalForm, NormalBytes, Encode, NormalLess;
    HeadByte(m1, negative1, scale1);
    HeadByte(m2, negative2, scale2);
    var x, y := NormalForm(m1, scale1), NormalForm(m2, scale2);
    var v1, v2 := Signed(m1, negative1), Signed(m2, negative2);
    if m1 > 0 && m2 > 0 && negative1 == negative2 {
      NormalPairs(m1, scale1);
      NormalPairs(m2, scale2);
      TwentyPairs(m1, scale1);
      TwentyPairs(m2, scale2);
      ExponentBound(m1, scale1);
      ExponentBound(m2, scale2);
      SameSignOrder(x, y, negative1);
      if negative1 {
        NormalOrder(m2, scale2, m1, scale1);
        NegatedLess(m1, m2, Pow10(scale2), Pow10(scale1));
      } else {
        NormalOrder(m1, scale1, m2, scale2);
      }
    } else {
      SignsDiffer(v1, v2, Pow10(scale2), Pow10(scale1));
      SignsDiffer(v2, v1, Pow10(scale1), Pow10(scale2));
    }
  }

  /** Equal bytes for equal values, whatever scales they were given in. */
  lemma EncodingCanonical(m1: nat, negative1: bool, scale1: nat, m2: nat, negative2: bool, scale2: nat)
    requires m1 < TWO128 && ExponentFits(m1, negative1, scale1)
    requires m2 < TWO128 && ExponentFits(m2, negative2, scale2)
    ensures Encode(m1, negative1, scale1) == Encode(m2, negative2, scale2)
       <==> Signed(m1, negative1) * Pow10(scale2) == Signed(m2, negative2) * Pow10(scale1)
  {
    hide Pow, Pow10, Encode, LexLess;
    EncodingOrder(m1, negative1, scale1, m2, negative2, scale2);
    EncodingOrder(m2, negative2, scale2, m1, negative1, scale1);
    LexTotal(Encode(m1, negative1, scale1), Encode(m2, negative2, scale2));
  }
}
