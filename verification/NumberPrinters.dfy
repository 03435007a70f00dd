/** The text decoded from an encoded decimal is the literal of that decimal without trailing zeros. */
module NumberPrinters {
  import opened Machine
  import opened Digits
  import opened OracleNumber
  import opened NumberEncoding
  import opened NumberDecoding
  import opened NumberRoundTrip
  import opened NumberText
  import opened NumberReading

  function DropZeros(t: string): string {
    if t != "" && t[|t| - 1] == '0' then DropZeros(t[..|t| - 1]) else t
  }

  /** A numeral without its trailing fractional zeros, nor a point with nothing behind it. */
  function Trimmed(t: string): string {
    if '.' !in t then t else
    var u := DropZeros(t);
    if u != "" && u[|u| - 1] == '.' then u[..|u| - 1] else u
  }

  lemma DropZero(u: string)
    ensures DropZeros(u + "0") == DropZeros(u)
  {
    assert (u + "0")[..|u|] == u;
  }

  lemma CharsZerosStep(k: nat)
    ensures Chars(Zeros(k + 1)) == Chars(Zeros(k)) + "0"
  {}

  lemma {:induction false} DropAppendedZeros(u: string, k: nat)
    ensures DropZeros(u + Chars(Zeros(k))) == DropZeros(u)
  {
    hide DropZeros, Chars, Zeros;
    if k == 0 {
      assert u + Chars(Zeros(0)) == u;
    } else {
      DropAppendedZeros(u, k - 1);
      CharsZerosStep(k - 1);
      DropZero(u + Chars(Zeros(k - 1)));
      assert u + Chars(Zeros(k)) == u + Chars(Zeros(k - 1)) + "0";
    }
  }

  lemma NumeralMoreZeros(negative: bool, w: seq<nat>, f: seq<nat>, k: nat)
    requires AllBelow(w, 10) && AllBelow(f, 10) && |f| > 0
    ensures Numeral(negative, w, f + Zeros(k)) == Numeral(negative, w, f) + Chars(Zeros(k))
  {
    hide Chars, Zeros;
    CharsConcat(f, Zeros(k));
  }

  lemma NumeralPoint(negative: bool, w: seq<nat>, k: nat)
    requires AllBelow(w, 10) && k > 0
    ensures Numeral(negative, w, Zeros(k)) == (Numeral(negative, w, []) + ".") + Chars(Zeros(k))
  {
    hide Chars, Zeros;
  }

  lemma PointInside(negative: bool, w: seq<nat>, f: seq<nat>)
    requires AllBelow(w, 10) && AllBelow(f, 10)
    ensures '.' in Numeral(negative, w, f) <==> |f| > 0
  {
    if |f| > 0 {
      var i := |Chars(w)| + if negative then 1 else 0;
      assert Numeral(negative, w, f)[i] == '.';
    }
  }

  lemma LastChar(negative: bool, w: seq<nat>, f: seq<nat>)
    requires AllBelow(w, 10) && AllBelow(f, 10) && |f| > 0 && f[|f| - 1] != 0
    ensures var t := Numeral(negative, w, f);
            |t| > 0 && t[|t| - 1] != '0' && t[|t| - 1] != '.'
  {
    hide Chars;
    var t := Numeral(negative, w, f);
    assert t[|t| - 1] == Chars(f)[|f| - 1];
  }

  lemma TrimNumeral(negative: bool, w: seq<nat>, f: seq<nat>, k: nat)
    requires AllBelow(w, 10) && AllBelow(f, 10) && (|f| > 0 ==> f[|f| - 1] != 0)
    ensures Trimmed(Numeral(negative, w, f + Zeros(k))) == Numeral(negative, w, f)
  {
    hide Numeral, Chars, Zeros;
    PointInside(negative, w, f + Zeros(k));
    if |f| > 0 {
      NumeralMoreZeros(negative, w, f, k);
      DropAppendedZeros(Numeral(negative, w, f), k);
      LastChar(negative, w, f);
    } else if k > 0 {
      assert f + Zeros(k) == Zeros(k);
      NumeralPoint(negative, w, k);
      DropAppendedZeros(Numeral(negative, w, []) + ".", k);
      var u := Numeral(negative, w, []) + ".";
      assert u[..|u| - 1] == Numeral(negative, w, f);
    } else {
      assert f + Zeros(0) == f;
    }
  }

  /** The literal has the parts of the canonical text, with zeros appended to the fraction. */
  lemma SameParts(v: nat, scale: nat, s: seq<nat>, z: nat)
    requires AllBelow(s, 10) && |s| > 0 && HighDigits(v, 10) == s + Zeros(z)
    ensures var p, point := Padded(v, scale), |s| + z - scale;
            && p[..|p| - scale] == WholePart(s, point)
            && p[|p| - scale..] == FractionPart(s, point) + Zeros(if point >= |s| then scale else z)
  {
    hide HighDigits, Zeros;
    var p, point := Padded(v, scale), |s| + z - scale;
    if point <= 0 {
      LeadingPart(s, point, z);
      assert p == Zeros(1 - point) + (s + Zeros(z));
    } else if point >= |s| {
      ZerosCut(s, z, point);
    } else {
      CutAppended(s, Zeros(z), point);
    }
  }

  lemma LeadingPart(s: seq<nat>, point: int, z: nat)
    requires AllBelow(s, 10) && point <= 0
    ensures var p := Zeros(1 - point) + (s + Zeros(z));
            p[..1] == [0] && p[1..] == Zeros(-point) + s + Zeros(z)
  {}

  lemma ZerosCut(s: seq<nat>, z: nat, point: nat)
    requires |s| <= point <= |s| + z
    ensures (s + Zeros(z))[..point] == s + Zeros(point - |s|)
    ensures (s + Zeros(z))[point..] == [] + Zeros(|s| + z - point)
  {}

  lemma CutAppended(s: seq<nat>, t: seq<nat>, i: nat)
    requires i <= |s|
    ensures (s + t)[..i] == s[..i] && (s + t)[i..] == s[i..] + t
  {}

  lemma FractionEnds(s: seq<nat>, point: int)
    requires AllBelow(s, 10) && |s| > 0 && s[|s| - 1] != 0
    ensures var f := FractionPart(s, point);
            |f| > 0 ==> f[|f| - 1] != 0
  {}

  /** A trimmed literal is the canonical text of the value it denotes. */
  lemma TrimmedLiteral(magnitude: nat, negative: bool, scale: nat)
    requires negative ==> magnitude > 0
    ensures Trimmed(LiteralText(magnitude, negative, scale)) == TextOf(Finite(negative, magnitude, 0 - scale))
  {
    hide HighDigits, Significant, PlainText, Numeral, LiteralText, Trimmed, Fold, Pow10, WholePart, FractionPart;
    LiteralIsNumeral(magnitude, negative, scale);
    if magnitude == 0 {
      ZeroNumeral();
      var p := Padded(0, scale);
      assert HighDigits(0, 10) == [];
      assert p[..1] == [0] && p[1..] == [] + Zeros(scale);
      TrimNumeral(false, [0], [], scale);
    } else {
      var s := Significant(magnitude);
      SignificantEnds(magnitude);
      var z: nat :| magnitude == Fold(s, 10) * Pow10(z) && HighDigits(magnitude, 10) == s + Zeros(z);
      var point := |s| + z - scale;
      SameParts(magnitude, scale, s, z);
      FractionEnds(s, point);
      TrimNumeral(negative, WholePart(s, point), FractionPart(s, point), if point >= |s| then scale else z);
      PlainIsNumeral(negative, s, point);
    }
  }

  /** The text of an encoding is the text of the encoded value. */
  lemma TextOfEncoding(magnitude: nat, negative: bool, scale: nat)
    requires magnitude < TWO128 && ExponentFits(magnitude, negative, scale) && (negative ==> magnitude > 0)
    ensures var m := Meaning(Encode(magnitude, negative, scale));
            m.Success? && TextOf(m.value) == TextOf(Finite(negative, magnitude, 0 - scale))
  {
    hide Fold, Pow, Pow10, LowDigits, NormalForm, NormalBytes, Meaning, TextOf;
    if magnitude == 0 {
      MeaningOfZero();
      TextOfZero(0, 0 - scale);
      return;
    }
    var n := NormalForm(magnitude, scale);
    var v := Fold(n.pairs, 100);
    NormalPairs(magnitude, scale);
    TwentyPairs(magnitude, scale);
    ExponentBound(magnitude, scale);
    NormalMeaning(n, negative);
    NormalValue(magnitude, scale);
    FoldPositive(n.pairs, 100, 0);
    var t, odd := n.exponent + 1 - |n.pairs| + FractionPairs(scale), scale % 2;
    assert AlignedMagnitude(magnitude, scale) == magnitude * Pow10(odd) by { PowSmall(); }
    TextOfShifted(negative, v, 2 * t, -2 * FractionPairs(scale));
    TextOfShifted(negative, magnitude, odd, -2 * FractionPairs(scale));
    assert 2 * (n.exponent + 1 - |n.pairs|) == -2 * FractionPairs(scale) + 2 * t;
    assert -2 * FractionPairs(scale) + odd == 0 - scale;
  }

  lemma TextOfZero(e1: int, e2: int)
    ensures TextOf(Finite(false, 0, e1)) == TextOf(Finite(false, 0, e2))
  {}

  /** Decoding an encoded decimal to text gives its literal, trimmed. */
  lemma PrintersAgree(magnitude: nat, negative: bool, scale: nat)
    requires magnitude < TWO128 && scale <= 128 && (negative ==> magnitude > 0)
    ensures var m := Meaning(Encode(magnitude, negative, scale));
            m.Success? && TextOf(m.value) == Trimmed(LiteralText(magnitude, negative, scale))
  {
    hide Meaning, TextOf, Trimmed, LiteralText, NormalForm;
    if magnitude > 0 { ExponentBound(magnitude, scale); }
    TextOfEncoding(magnitude, negative, scale);
    TrimmedLiteral(magnitude, negative, scale);
  }
}
