/** Writing a value as a NUMBER and reading it back. */
module NumberRoundTrip {
  import opened Machine
  import opened Digits
  import opened OracleNumber
  import opened Limbs
  import opened NumberEncoding
  import opened NumberDecoding

  lemma NormalValue(magnitude: nat, scale: nat)
    requires magnitude > 0
    ensures var n := NormalForm(magnitude, scale);
            var t := n.exponent + 1 - |n.pairs| + FractionPairs(scale);
            t >= 0 && Fold(n.pairs, 100) * Pow10(2 * t) == AlignedMagnitude(magnitude, scale)
  {
    hide LowDigits, Fold, Pow, Pow10;
    var a := AlignedMagnitude(magnitude, scale);
    var low := LowDigits(a, 100);
    var t := ZeroPrefix(low);
    var n := NormalForm(magnitude, scale);
    LowFoldDigits(a, 100);
    LowFoldZeros(low, t);
    LowFoldReverse(low[t..], 100);
    Pow100Is10(t);
  }

  lemma {:induction false} LowFoldReverse(s: seq<nat>, b: nat)
    ensures Fold(Reverse(s), b) == LowFold(s, b)
  {
    hide Fold;
    if s == [] {
      EmptyFold(b);
    } else {
      LowFoldReverse(s[1..], b);
      FoldAppend(Reverse(s[1..]), s[0], b);
    }
  }

  lemma {:induction false} LowFoldZeros(s: seq<nat>, t: nat)
    requires t <= |s| && forall k :: 0 <= k < t ==> s[k] == 0
    ensures LowFold(s, 100) == LowFold(s[t..], 100) * Pow(100, t)
  {
    if t > 0 {
      LowFoldZeros(s[1..], t - 1);
      assert s[1..][t - 1..] == s[t..];
      var x, p := LowFold(s[t..], 100), Pow(100, t - 1);
      assert 100 * (x * p) == x * (100 * p);
    } else {
      assert s[0..] == s;
    }
  }

  /** A 128-bit magnitude never needs more than 20 base-100 digits, whatever the scale. */
  lemma TwentyPairs(magnitude: nat, scale: nat)
    requires 0 < magnitude < TWO128
    ensures |NormalForm(magnitude, scale).pairs| <= 20
    ensures |LowDigits(AlignedMagnitude(magnitude, scale), 100)| <= 20
  {
    hide LowDigits, Pow;
    Powers();
    Pow100Is10(20);
    PowAdd(10, 39, 1);
    assert Pow(10, 1) == 10 by { PowOne(10); }
    LowDigitsCount(AlignedMagnitude(magnitude, scale), 100, 20);
  }

  lemma PowOne(b: nat)
    ensures Pow(b, 1) == b
  {}

  /** The bytes of a normal form parse to its digits when the exponent fits the exponent byte. */
  lemma NormalMeaning(n: Normal, negative: bool)
    requires AllBelow(n.pairs, 100) && 0 < |n.pairs| <= 20
    requires (if negative then -65 else -64) <= n.exponent <= 62
    ensures Meaning(NormalBytes(n, negative))
         == Success(Finite(negative && Fold(n.pairs, 100) > 0, Fold(n.pairs, 100), 2 * (n.exponent + 1 - |n.pairs|)))
  {
    hide Fold, NormalBytes;
    var bytes := NormalBytes(n, negative);
    NormalBytesAt(n, negative);
    assert n.pairs[0] < 100;
    NormalMantissa(n, negative);
    var mantissa := MantissaBytes(bytes);
    forall k | 0 <= k < |n.pairs|
      ensures DigitOf(mantissa[k], negative) == n.pairs[k]
    {}
    assert DigitsOf(mantissa, negative) == n.pairs;
  }

  lemma NormalMantissa(n: Normal, negative: bool)
    requires AllBelow(n.pairs, 100) && 0 < |n.pairs| <= 20
    requires (if negative then -65 else -64) <= n.exponent <= 62
    ensures MantissaBytes(NormalBytes(n, negative)) == NormalBytes(n, negative)[1..1 + |n.pairs|]
  {
    hide NormalBytes;
    NormalBytesAt(n, negative);
    var bytes := NormalBytes(n, negative);
    assert n.pairs[|n.pairs| - 1] < 100;
  }

  /** The exponent byte of the encoding stays on the side of its sign. */
  predicate ExponentFits(magnitude: nat, negative: bool, scale: nat) {
    magnitude > 0 ==> (if negative then -65 else -64) <= NormalForm(magnitude, scale).exponent
  }

  /** The encoding of magnitude * 10^-scale means that value: decoding it at any scale, rounding or not,
      gives what decoding the exact value gives. */
  lemma EncodingMeans(magnitude: nat, negative: bool, scale: nat, target: nat, round: bool)
    requires magnitude < TWO128 && ExponentFits(magnitude, negative, scale)
    ensures var m := Meaning(Encode(magnitude, negative, scale));
            && m.Success? && m.value.Finite?
            && m.value.negative == (negative && magnitude > 0)
            && Magnitude(m.value, target, round)
            == Magnitude(Finite(negative && magnitude > 0, magnitude, 0 - scale), target, round)
  {
    hide Fold, Pow, Pow10, LowDigits, NormalForm, NormalBytes, Meaning, Magnitude;
    if magnitude == 0 {
      MeaningOfZero();
      ZeroMagnitude(Finite(false, 0, 0), target, round);
      ZeroMagnitude(Finite(false, 0, 0 - scale), target, round);
      return;
    }
    var n := NormalForm(magnitude, scale);
    var v := Fold(n.pairs, 100);
    NormalPairs(magnitude, scale);
    TwentyPairs(magnitude, scale);
    ExponentBound(magnitude, scale);
    NormalMeaning(n, negative);
    NormalValue(magnitude, scale);
    FoldPositive(n.pairs, 100, 0);
    var t := n.exponent + 1 - |n.pairs| + FractionPairs(scale);
    var odd := scale % 2;
    assert AlignedMagnitude(magnitude, scale) == magnitude * Pow10(odd) by { PowSmall(); }
    MagnitudeOfShifted(negative, v, 2 * t, -2 * FractionPairs(scale), target, round);
    MagnitudeOfShifted(negative, magnitude, odd, -2 * FractionPairs(scale), target, round);
    assert 2 * (n.exponent + 1 - |n.pairs|) == -2 * FractionPairs(scale) + 2 * t;
    assert -2 * FractionPairs(scale) + odd == 0 - scale;
  }

  lemma MeaningOfZero()
    ensures Meaning([0x80]) == Success(Finite(false, 0, 0))
  {}

  lemma PowSmall()
    ensures Pow10(0) == 1 && Pow10(1) == 10
  {}

  lemma ExponentBound(magnitude: nat, scale: nat)
    requires 0 < magnitude < TWO128
    ensures NormalForm(magnitude, scale).exponent <= 19
    ensures scale <= 128 ==> NormalForm(magnitude, scale).exponent >= -64
  {
    hide LowDigits;
    TwentyPairs(magnitude, scale);
  }

  /** Signed 128-bit values survive the trip at every DECIMAL scale, in at most 21 bytes. */
  lemma RoundTrip(v: int, scale: nat)
    requires -TWO127 <= v < TWO127 && scale <= 128
    ensures var bytes := Encode(if v < 0 then -v else v, v < 0, scale);
            && 0 < |bytes| <= 21
            && DecodeBytes(bytes, scale, false, TWO127) == Success(Exactly(v))
            && (-TWO63 <= v < TWO63 ==> DecodeBytes(bytes, scale, false, TWO63) == Success(Exactly(v)))
  {
    hide Pow, Pow10, NormalForm, NormalBytes, Meaning, Magnitude, LowDigits;
    var m := if v < 0 then -v else v;
    if m > 0 {
      ExponentBound(m, scale);
      NormalPairs(m, scale);
      TwentyPairs(m, scale);
      NormalBytesAt(NormalForm(m, scale), v < 0);
    }
    EncodingMeans(m, v < 0, scale, scale, false);
    OwnScale(v < 0, m, scale);
  }

  lemma OwnScale(negative: bool, magnitude: nat, scale: nat)
    requires magnitude < TWO128
    ensures Magnitude(Finite(negative, magnitude, 0 - scale), scale, false) == Exactly(magnitude)
  {
    PowSmall();
  }

  /** What is left of the law beyond the DECIMAL scales: it holds exactly for the values that are not
      smaller than the smallest exponent byte of their sign. */
  lemma RoundTripExactly(v: int, scale: nat)
    requires -TWO127 <= v < TWO127 && scale <= 255
    ensures var m := if v < 0 then -v else v;
            DecodeBytes(Encode(m, v < 0, scale), scale, false, TWO127) == Success(Exactly(v))
            <==> (v == 0 || Pow10(scale) <= m * Pow10(if v < 0 then 130 else 128))
  {
    hide Pow, Pow10, NormalForm, Meaning, Magnitude, Encode;
    var m := if v < 0 then -v else v;
    if m > 0 {
      SmallestExponent(m, v < 0, scale);
    }
    if ExponentFits(m, v < 0, scale) {
      EncodingMeans(m, v < 0, scale, scale, false);
      OwnScale(v < 0, m, scale);
    } else {
      OtherSign(m, v < 0, scale);
      var meaning := Meaning(Encode(m, v < 0, scale));
      if meaning.Success? { MagnitudeNotNegative(meaning.value, scale); }
      if meaning.Success? && meaning.value.mantissa == 0 {
        ZeroMagnitude(meaning.value, scale, false);
      }
    }
  }

  lemma MagnitudeNotNegative(n: Number, scale: nat)
    ensures var m := Magnitude(n, scale, false);
            m.Exactly? ==> m.value >= 0
  {}

  /** Below the smallest exponent the exponent byte falls among those of zero or of the other sign. */
  lemma OtherSign(magnitude: nat, negative: bool, scale: nat)
    requires 0 < magnitude < TWO128 && scale <= 255 && !ExponentFits(magnitude, negative, scale)
    ensures var m := Meaning(Encode(magnitude, negative, scale));
            m.Success? ==> (m.value.Finite? && (m.value.mantissa > 0 ==> m.value.negative != negative))
  {
    hide Pow, Pow10, LowDigits, NormalBytes, Meaning;
    var n := NormalForm(magnitude, scale);
    TwentyPairs(magnitude, scale);
    NormalPairs(magnitude, scale);
    NormalBytesAt(n, negative);
    var bytes := NormalBytes(n, negative);
    SignOfMeaning(bytes);
  }

  /** The exponent byte alone tells the sign. */
  lemma SignOfMeaning(bytes: seq<uint8>)
    requires |bytes| > 1 && bytes[0] != 0xFF
    ensures var m := Meaning(bytes);
            m.Success? ==> (m.value.Finite? && bytes[0] != 0x80
                            && (m.value.mantissa > 0 ==> (m.value.negative <==> bytes[0] < 0x80)))
  {
    hide Fold, DigitsOf, DigitsInRange, MantissaBytes;
  }

  lemma SmallestExponent(magnitude: nat, negative: bool, scale: nat)
    requires 0 < magnitude < TWO128
    ensures ExponentFits(magnitude, negative, scale)
       <==> Pow10(scale) <= magnitude * Pow10(if negative then 130 else 128)
  {
    hide Pow, LowDigits, Fold;
    var a := AlignedMagnitude(magnitude, scale);
    var length, frac := |LowDigits(a, 100)|, FractionPairs(scale);
    var places, odd := (if negative then 65 else 64), scale % 2;
    DigitsBracket(a);
    if length - 1 + places >= frac {
      PowAdd(100, length - 1, places);
      MulMonotone(Pow(100, length - 1), a, Pow(100, places));
      PowMonotone(100, frac, length - 1 + places);
    } else {
      PowAdd(100, length, places);
      MulStrict(a, Pow(100, length), Pow(100, places));
      PowMonotone(100, length + places, frac);
    }
    assert length - 1 + places >= frac <==> Pow(100, frac) <= a * Pow(100, places);
    PowSmall();
    Pow100Is10(places);
    Pow100Is10(frac);
    PowAdd(10, scale, odd);
    assert 2 * frac == scale + odd && a == magnitude * Pow10(odd);
    var x := magnitude * Pow10(2 * places);
    assert a * Pow10(2 * places) == x * Pow10(odd) by {
      MulAssoc(magnitude, Pow10(odd), Pow10(2 * places));
      MulAssoc(magnitude, Pow10(2 * places), Pow10(odd));
    }
    CancelFactor(Pow10(scale), x, Pow10(odd));
  }

  /** A value that is too small for the exponent byte at its scale does not come back. */
  lemma TooSmall()
    ensures DecodeBytes(Encode(1, false, 200), 200, false, TWO127) != Success(Exactly(1))
    ensures DecodeBytes(Encode(1, true, 200), 200, false, TWO127) != Success(Exactly(-1))
  {
    hide Pow10, Encode, DecodeBytes;
    Pow10Grows(128, 200);
    Pow10Grows(130, 200);
    RoundTripExactly(1, 200);
    RoundTripExactly(-1, 200);
  }

  lemma Pow10Grows(i: nat, j: nat)
    requires i < j
    ensures Pow10(i) < Pow10(j)
  {
    hide Pow;
    PowUnfold(10, i + 1);
    PowMonotone(10, i + 1, j);
  }

  lemma DigitsBracket(a: nat)
    requires a > 0
    ensures var length := |LowDigits(a, 100)|;
            length > 0 && Pow(100, length - 1) <= a < Pow(100, length)
  {
    hide Pow, Fold, LowDigits, LowFold, Reverse;
    var low := LowDigits(a, 100);
    LowFoldDigits(a, 100);
    LowFoldReverse(low, 100);
    FoldHighPositive(Reverse(low), 100);
    FoldBound(Reverse(low), 100);
  }

  lemma MulStrict(a: nat, b: nat, c: nat)
    requires a < b && c > 0
    ensures a * c < b * c
  {
    MulMonotone(a + 1, b, c);
    Distribute(a, 1, c);
  }

  lemma CancelFactor(a: nat, b: nat, c: nat)
    requires c > 0
    ensures a * c <= b * c <==> a <= b
  {
    if a <= b { MulMonotone(a, b, c); } else { MulStrict(b, a, c); }
  }
}
