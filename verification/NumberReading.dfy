/** Reading decimal numerals back: the texts written for NUMBER values are exact and canonical, the two
    printers agree, and a literal determines its value, sign and scale. */
module NumberReading {
  import opened Digits
  import opened OracleNumber
  import opened NumberDecoding
  import opened NumberRoundTrip
  import opened NumberText

  datatype Option<+T> = None | Some(value: T)

  /** m1 * 10^e1 == m2 * 10^e2 */
  predicate SameValue(m1: nat, e1: int, m2: nat, e2: int) {
    var low := if e1 <= e2 then e1 else e2;
    m1 * Pow10(e1 - low) == m2 * Pow10(e2 - low)
  }

  predicate AllDecimal(t: string) {
    forall i :: 0 <= i < |t| ==> '0' <= t[i] <= '9'
  }

  function DigitValues(t: string): (s: seq<nat>)
    requires AllDecimal(t)
    ensures |s| == |t| && AllBelow(s, 10)
  {
    seq(|t|, i requires 0 <= i < |t| => (t[i] - '0') as nat)
  }

  function IndexOf(t: string, c: char): (n: nat)
    ensures n <= |t| && (forall i :: 0 <= i < n ==> t[i] != c) && (n < |t| ==> t[n] == c)
  {
    if t == "" || t[0] == c then 0 else 1 + IndexOf(t[1..], c)
  }

  /** sign, all digits as one number, and how many of them stand after the point */
  datatype Reading = Reading(negative: bool, digits: nat, scale: nat)

  function ReadBody(t: string, negative: bool): Option<Reading> {
    var dot := IndexOf(t, '.');
    var whole := t[..dot];
    var fraction := if dot < |t| then t[dot + 1..] else "";
    if whole == "" || (dot < |t| && fraction == "") || !AllDecimal(whole) || !AllDecimal(fraction) then None
    else Some(Reading(negative, Fold(DigitValues(whole) + DigitValues(fraction), 10), |fraction|))
  }

  function ReadNumeral(t: string): Option<Reading> {
    if t != "" && t[0] == '-' then ReadBody(t[1..], true) else ReadBody(t, false)
  }

  lemma CharsRead(s: seq<nat>)
    requires AllBelow(s, 10)
    ensures AllDecimal(Chars(s)) && DigitValues(Chars(s)) == s
    ensures forall i :: 0 <= i < |s| ==> Chars(s)[i] != '.' && Chars(s)[i] != '-'
  {}

  lemma IndexIs(t: string, c: char, k: nat)
    requires k <= |t| && (forall i :: 0 <= i < k ==> t[i] != c) && (k < |t| ==> t[k] == c)
    ensures IndexOf(t, c) == k
  {
    hide IndexOf;
    assert !(IndexOf(t, c) < k);
  }

  lemma ReadBodyOf(whole: seq<nat>, fraction: seq<nat>, negative: bool)
    requires AllBelow(whole, 10) && AllBelow(fraction, 10) && |whole| > 0
    ensures ReadBody(Chars(whole) + if |fraction| > 0 then "." + Chars(fraction) else "", negative)
         == Some(Reading(negative, Fold(whole + fraction, 10), |fraction|))
  {
    hide Chars, Fold;
    CharsRead(whole);
    CharsRead(fraction);
    var t := Chars(whole) + if |fraction| > 0 then "." + Chars(fraction) else "";
    assert forall i :: 0 <= i < |whole| ==> t[i] == Chars(whole)[i];
    IndexIs(t, '.', |whole|);
    assert t[..|whole|] == Chars(whole);
    if |fraction| > 0 {
      assert t[|whole| + 1..] == Chars(fraction);
    } else {
      assert DigitValues("") == [] == fraction;
    }
  }

  lemma ReadSigned(negative: bool, body: string)
    requires body != "" && body[0] != '-'
    ensures ReadNumeral((if negative then "-" else "") + body) == ReadBody(body, negative)
  {
    hide ReadBody;
    if negative {
      assert ("-" + body)[1..] == body;
    } else {
      assert "" + body == body;
    }
  }

  lemma ReadOfNumeral(negative: bool, whole: seq<nat>, fraction: seq<nat>)
    requires AllBelow(whole, 10) && AllBelow(fraction, 10) && |whole| > 0
    ensures ReadNumeral(Numeral(negative, whole, fraction))
         == Some(Reading(negative, Fold(whole + fraction, 10), |fraction|))
  {
    hide Chars, Fold, ReadBody, ReadNumeral;
    var body := Chars(whole) + if |fraction| > 0 then "." + Chars(fraction) else "";
    assert body != "" && body[0] != '-' by {
      CharsRead(whole);
      assert body[0] == Chars(whole)[0];
    }
    ReadBodyOf(whole, fraction, negative);
    ReadSigned(negative, body);
    SameNumeral(negative, whole, fraction, body);
  }

  lemma SameNumeral(negative: bool, whole: seq<nat>, fraction: seq<nat>, body: string)
    requires AllBelow(whole, 10) && AllBelow(fraction, 10)
    requires body == Chars(whole) + if |fraction| > 0 then "." + Chars(fraction) else ""
    ensures Numeral(negative, whole, fraction) == (if negative then "-" else "") + body
  {
    hide Chars;
  }

  /** No leading zero but a single one, no trailing fractional zero, no negative zero. */
  predicate CanonicalParts(negative: bool, whole: seq<nat>, fraction: seq<nat>) {
    && |whole| > 0
    && (|whole| > 1 ==> whole[0] != 0)
    && (|fraction| > 0 ==> fraction[|fraction| - 1] != 0)
    && (negative ==> whole != [0] || fraction != [])
  }

  /** The text of a finite NUMBER is a canonical numeral. */
  lemma TextIsCanonical(negative: bool, v: nat, e: int)
    requires negative ==> v > 0
    ensures exists whole: seq<nat>, fraction: seq<nat> ::
              && AllBelow(whole, 10) && AllBelow(fraction, 10)
              && TextOf(Finite(negative, v, e)) == Numeral(negative, whole, fraction)
              && CanonicalParts(negative, whole, fraction)
  {
    hide HighDigits, Significant, PlainText, Numeral;
    if v == 0 {
      ZeroNumeral();
      assert CanonicalParts(false, [0], []);
    } else {
      var s, point := Significant(v), |HighDigits(v, 10)| + e;
      SignificantEnds(v);
      PlainIsNumeral(negative, s, point);
      assert CanonicalParts(negative, WholePart(s, point), FractionPart(s, point));
    }
  }

  lemma ZeroNumeral()
    ensures "0" == Numeral(false, [0], [])
  {}

  lemma {:induction false} SignificantEnds(v: nat)
    requires v > 0
    ensures var s := Significant(v); s[|s| - 1] != 0
    ensures exists z: nat :: (v == Fold(Significant(v), 10) * Pow10(z)
                             && HighDigits(v, 10) == Significant(v) + Zeros(z))
  {
    hide HighDigits, Fold, Pow, Pow10;
    if v % 10 == 0 {
      SignificantEnds(v / 10);
      var z: nat :| v / 10 == Fold(Significant(v / 10), 10) * Pow10(z)
                    && HighDigits(v / 10, 10) == Significant(v / 10) + Zeros(z);
      HighDigitsStep(v, 10);
      TenTimes(Fold(Significant(v), 10), z);
      assert Zeros(z + 1) == Zeros(z) + [0];
      assert HighDigits(v, 10) == Significant(v) + Zeros(z + 1);
      assert v == Fold(Significant(v), 10) * Pow10(z + 1);
    } else {
      HighDigitsStep(v, 10);
      FoldHighDigits(v, 10);
      PowSmall();
      assert Significant(v) == Significant(v) + Zeros(0);
      assert v == Fold(Significant(v), 10) * Pow10(0);
    }
  }

  lemma TenTimes(x: nat, z: nat)
    ensures x * Pow10(z + 1) == 10 * (x * Pow10(z))
  {}

  /** Reading the text of a finite NUMBER gives exactly its value. */
  lemma TextIsExact(negative: bool, v: nat, e: int)
    requires negative ==> v > 0
    ensures var r := ReadNumeral(TextOf(Finite(negative, v, e)));
            && r.Some? && r.value.negative == negative
            && SameValue(r.value.digits, 0 - r.value.scale, v, e)
  {
    hide HighDigits, Significant, PlainText, Numeral, ReadNumeral, Fold, Pow, Pow10, SameValue;
    if v == 0 {
      ZeroNumeral();
      ReadOfNumeral(false, [0], []);
      assert [0] + [] == [0];
      FoldSingle(0, 10);
      SameZero(0, e);
    } else {
      var s, point := Significant(v), |HighDigits(v, 10)| + e;
      SignificantEnds(v);
      var z: nat :| v == Fold(s, 10) * Pow10(z) && HighDigits(v, 10) == s + Zeros(z);
      PlainIsNumeral(negative, s, point);
      ReadOfNumeral(negative, WholePart(s, point), FractionPart(s, point));
      PartsValue(s, point);
      SameShift(Fold(s, 10), z, e);
      var digits, places := Fold(WholePart(s, point) + FractionPart(s, point), 10), |FractionPart(s, point)|;
      if point >= |s| {
        SameShift(Fold(s, 10), point - |s|, 0);
        assert places == 0 && SameValue(digits, 0, Fold(s, 10), 0 + (point - |s|));
      } else {
        SameRefl(digits, e + z);
      }
      SameIsTransitive(digits, 0 - places, Fold(s, 10), e + z, v, e);
    }
  }

  lemma SameZero(e1: int, e2: int)
    ensures SameValue(0, e1, 0, e2)
  {}

  lemma SameRefl(v: nat, e: int)
    ensures SameValue(v, e, v, e)
  {}

  lemma SameShift(v: nat, z: nat, e: int)
    ensures SameValue(v, e + z, v * Pow10(z), e)
    ensures SameValue(v * Pow10(z), e, v, e + z)
  {
    PowSmall();
  }

  lemma SameIsTransitive(m1: nat, e1: int, m2: nat, e2: int, m3: nat, e3: int)
    requires SameValue(m1, e1, m2, e2) && SameValue(m2, e2, m3, e3)
    ensures SameValue(m1, e1, m3, e3)
  {
    hide Pow, Pow10, SameValue;
    var low := if e1 <= e2 && e1 <= e3 then e1 else if e2 <= e3 then e2 else e3;
    SameAt(m1, e1, m2, e2, low);
    SameAt(m2, e2, m3, e3, low);
    SameFrom(m1, e1, m3, e3, low);
  }

  lemma SameAt(m1: nat, e1: int, m2: nat, e2: int, low: int)
    requires SameValue(m1, e1, m2, e2) && low <= e1 && low <= e2
    ensures m1 * Pow10(e1 - low) == m2 * Pow10(e2 - low)
  {
    hide Pow, Pow10;
    var min := if e1 <= e2 then e1 else e2;
    TimesPow10(m1, e1 - min, min - low, e1 - low);
    TimesPow10(m2, e2 - min, min - low, e2 - low);
  }

  lemma SameFrom(m1: nat, e1: int, m2: nat, e2: int, low: int)
    requires low <= e1 && low <= e2 && m1 * Pow10(e1 - low) == m2 * Pow10(e2 - low)
    ensures SameValue(m1, e1, m2, e2)
  {
    hide Pow, Pow10;
    var min := if e1 <= e2 then e1 else e2;
    TimesPow10(m1, e1 - min, min - low, e1 - low);
    TimesPow10(m2, e2 - min, min - low, e2 - low);
    CancelFactor(m1 * Pow10(e1 - min), m2 * Pow10(e2 - min), Pow10(min - low));
    CancelFactor(m2 * Pow10(e2 - min), m1 * Pow10(e1 - min), Pow10(min - low));
  }

  /** The digits of both parts together. */
  lemma PartsValue(s: seq<nat>, point: int)
    requires AllBelow(s, 10) && |s| > 0
    ensures Fold(WholePart(s, point) + FractionPart(s, point), 10)
         == if point >= |s| then Fold(s, 10) * Pow10(point - |s|) else Fold(s, 10)
    ensures |FractionPart(s, point)| == if point >= |s| then 0 else |s| - point
  {
    hide Fold, Pow, Pow10;
    var w, f := WholePart(s, point), FractionPart(s, point);
    if point <= 0 {
      StripZeros(w + f, |w + f| - |s|, |w + f|, s, 0);
      TimesPow10Of0(Fold(s, 10));
    } else if point >= |s| {
      assert w + f == s + Zeros(point - |s|);
      StripZeros(w + f, 0, |s|, s, point - |s|);
    } else {
      assert w + f == s;
    }
  }

  /** A literal shows sign, unscaled value and scale, each of them completely. */
  lemma LiteralReads(magnitude: nat, negative: bool, scale: nat)
    ensures ReadNumeral(LiteralText(magnitude, negative, scale)) == Some(Reading(negative, magnitude, scale))
  {
    hide HighDigits, LiteralText, Numeral, ReadNumeral, Fold, Pow, Pow10;
    var p := Padded(magnitude, scale);
    LiteralIsNumeral(magnitude, negative, scale);
    ReadOfNumeral(negative, p[..|p| - scale], p[|p| - scale..]);
    assert p[..|p| - scale] + p[|p| - scale..] == p;
    var digits := HighDigits(magnitude, 10);
    FoldHighDigits(magnitude, 10);
    StripZeros(p, |p| - |digits|, |p|, digits, 0);
    TimesPow10Of0(Fold(digits, 10));
  }

  /** Equal literals come from equal binds. */
  lemma LiteralInjective(m1: nat, negative1: bool, scale1: nat, m2: nat, negative2: bool, scale2: nat)
    requires LiteralText(m1, negative1, scale1) == LiteralText(m2, negative2, scale2)
    ensures m1 == m2 && negative1 == negative2 && scale1 == scale2
  {
    hide LiteralText, ReadNumeral;
    LiteralReads(m1, negative1, scale1);
    LiteralReads(m2, negative2, scale2);
  }

  /** Two finite NUMBERs have the same text exactly when they have the same sign and value. */
  lemma SameTextSameValue(neg1: bool, v1: nat, e1: int, neg2: bool, v2: nat, e2: int)
    requires (neg1 ==> v1 > 0) && (neg2 ==> v2 > 0)
    ensures TextOf(Finite(neg1, v1, e1)) == TextOf(Finite(neg2, v2, e2))
       <==> neg1 == neg2 && SameValue(v1, e1, v2, e2)
  {
    hide TextOf, ReadNumeral, SameValue;
    if TextOf(Finite(neg1, v1, e1)) == TextOf(Finite(neg2, v2, e2)) {
      TextIsExact(neg1, v1, e1);
      TextIsExact(neg2, v2, e2);
      var r := ReadNumeral(TextOf(Finite(neg1, v1, e1))).value;
      SameIsSymmetric(r.digits, 0 - r.scale, v1, e1);
      SameIsTransitive(v1, e1, r.digits, 0 - r.scale, v2, e2);
    }
    if neg1 == neg2 && SameValue(v1, e1, v2, e2) {
      var low := if e1 <= e2 then e1 else e2;
      SameAt(v1, e1, v2, e2, low);
      TextOfShifted(neg1, v1, e1 - low, low);
      TextOfShifted(neg1, v2, e2 - low, low);
    }
  }

  lemma SameIsSymmetric(m1: nat, e1: int, m2: nat, e2: int)
    requires SameValue(m1, e1, m2, e2)
    ensures SameValue(m2, e2, m1, e1)
  {}
}
