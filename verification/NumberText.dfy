/** The two decimal printers: the canonical text of a decoded NUMBER, and the literal shown for a bound
    decimal. Both are read back by the same reader of plain decimal numerals. */
module NumberText {
  import opened Machine
  import opened Digits
  import opened OracleNumber
  import opened NumberDecoding
  import opened Limbs

  function Chars(s: seq<nat>): (t: string)
    requires AllBelow(s, 10)
    ensures |t| == |s| && forall i :: 0 <= i < |s| ==> t[i] == '0' + s[i] as char
  {
    seq(|s|, i requires 0 <= i < |s| => '0' + s[i] as char)
  }

  function Zeros(n: nat): (s: seq<nat>)
    ensures |s| == n && AllBelow(s, 10) && forall i :: 0 <= i < n ==> s[i] == 0
  {
    seq(n, _ => 0)
  }

  /** Significant digits of v > 0: its decimal digits without the trailing zeros. */
  function Significant(v: nat): (s: seq<nat>)
    requires v > 0
    ensures AllBelow(s, 10) && |s| > 0 && s[0] != 0
    decreases v
  {
    if v % 10 == 0 then Significant(v / 10) else HighDigits(v, 10)
  }

  /** 0.s * 10^point as a plain numeral. */
  function PlainText(negative: bool, s: seq<nat>, point: int): string
    requires AllBelow(s, 10)
  {
    (if negative then "-" else "") +
    if point <= 0 then "0." + Chars(Zeros(-point)) + Chars(s)
    else if point >= |s| then Chars(s) + Chars(Zeros(point - |s|))
    else Chars(s[..point]) + "." + Chars(s[point..])
  }

  /** Canonical text of a NUMBER. */
  function TextOf(n: Number): string {
    match n
    case Infinite(negative) => if negative then "-Infinity" else "Infinity"
    case Finite(negative, v, e) =>
      if v == 0 then "0" else PlainText(negative, Significant(v), |HighDigits(v, 10)| + e)
  }

  /** The literal of magnitude * 10^-scale: all its digits, at least one before the point. */
  function LiteralText(magnitude: nat, negative: bool, scale: nat): string {
    var digits := HighDigits(magnitude, 10);
    var padded := (if |digits| <= scale then Zeros(scale + 1 - |digits|) else []) + digits;
    var point := |padded| - scale;
    (if negative then "-" else "") + Chars(padded[..point]) + if scale > 0 then "." + Chars(padded[point..]) else ""
  }

  lemma {:induction false} SignificantShift(v: nat, z: nat)
    requires v > 0
    ensures v * Pow10(z) > 0 && Significant(v * Pow10(z)) == Significant(v)
    ensures |HighDigits(v * Pow10(z), 10)| == |HighDigits(v, 10)| + z
  {
    hide HighDigits;
    if z > 0 {
      SignificantShift(v, z - 1);
      var w := v * Pow10(z - 1);
      assert v * Pow10(z) == 10 * w;
      DivModUnique(10 * w, 10, w, 0);
      HighDigitsStep(10 * w, 10);
    }
  }

  /** A digit string without zeros at either end is what its own value shows. */
  lemma SignificantOfDigits(s: seq<nat>)
    requires AllBelow(s, 10) && |s| > 0 && s[0] != 0 && s[|s| - 1] != 0
    ensures Fold(s, 10) > 0 && Significant(Fold(s, 10)) == s && HighDigits(Fold(s, 10), 10) == s
  {
    hide HighDigits;
    HighDigitsUnique(s, 10);
    FoldPositive(s, 10, 0);
    assert Fold(s, 10) == Fold(s[..|s| - 1], 10) * 10 + s[|s| - 1];
    DivModUnique(Fold(s, 10), 10, Fold(s[..|s| - 1], 10), s[|s| - 1]);
  }

  lemma TextOfShifted(negative: bool, v: nat, z: nat, e: int)
    ensures TextOf(Finite(negative, v * Pow10(z), e)) == TextOf(Finite(negative, v, e + z))
  {
    hide Significant, HighDigits, PlainText, Pow10;
    if v > 0 { SignificantShift(v, z); }
  }

  lemma TextOfDigits(negative: bool, s: seq<nat>, v: nat, point: int, e: int)
    requires AllBelow(s, 10) && |s| > 0 && s[0] != 0 && s[|s| - 1] != 0
    requires point - |s| >= e && v == Fold(s, 10) * Pow10(point - |s| - e)
    ensures v > 0 && TextOf(Finite(negative, v, e)) == PlainText(negative, s, point)
  {
    hide Significant, HighDigits, PlainText, Pow10, Fold;
    SignificantOfDigits(s);
    MulGrows(Pow10(point - |s| - e), Fold(s, 10));
    TextOfShifted(negative, Fold(s, 10), point - |s| - e, e);
  }

  /** Decodes to the canonical text, exact for any precision. */
  method DecodeText(bytes: seq<uint8>) returns (r: Result<string>)
    ensures match Meaning(bytes)
            case Failure(error) => r == Failure(error)
            case Success(n) => r == Success(TextOf(n))
  {
    hide Meaning, Significant, HighDigits, Fold, Pow10, Stream, PlainText;
    var n := new ParsedNumber();
    var parsed := ParseNumber(bytes, n);
    if parsed.Failure? {
      return Failure(parsed.error);
    }
    ghost var number := Meaning(bytes).value;
    if n.infinity {
      return Success(if n.negative then "-Infinity" else "Infinity");
    }
    if n.zero {
      return Success("0");
    }
    TextOfDigits(n.negative, n.Significant(), number.mantissa, n.point, number.exponent);
    var text := NumeralText(n);
    return Success(text);
  }

  method NumeralText(n: ParsedNumber) returns (text: string)
    requires n.Loaded()
    ensures text == PlainText(n.negative, n.Significant(), n.point)
  {
    hide Chars, Zeros, ParsedNumber.Significant;
    ghost var s := n.Significant();
    text := if n.negative then "-" else "";
    if n.point <= 0 {
      var digits := DigitText(n, 0, n.size);
      assert s[0..n.size] == s;
      text := text + ("0." + Chars(Zeros(-n.point)) + digits);
    } else if n.point >= n.size {
      var digits := DigitText(n, 0, n.size);
      assert s[0..n.size] == s;
      text := text + (digits + Chars(Zeros(n.point - n.size)));
    } else {
      var whole := DigitText(n, 0, n.point);
      var fraction := DigitText(n, n.point, n.size);
      assert s[0..n.point] == s[..n.point] && s[n.point..n.size] == s[n.point..];
      text := text + (whole + "." + fraction);
    }
  }

  /** The significant digits [from, to) as characters. */
  method DigitText(n: ParsedNumber, from: nat, to: nat) returns (text: string)
    requires n.Loaded() && from <= to <= n.size
    ensures text == Chars(n.Significant()[from..to])
  {
    text := "";
    ghost var s := n.Significant();
    for i := from to to
      invariant text == Chars(s[from..i])
    {
      text := text + ['0' + n.Digit(i) as char];
      assert s[from..i + 1] == s[from..i] + [s[i]];
    }
  }

  /** Literal of a 128-bit magnitude scaled by 10^-scale. */
  method DecimalText(hi: uint64, lo: uint64, negative: bool, scale: uint8) returns (out: string)
    ensures out == LiteralText(hi * TWO64 + lo, negative, scale)
  {
    hide LowDigits, LiteralText, Padded, Numeral;
    var digits := LimbDigits(hi, lo);
    ghost var all := digits;
    while |digits| <= scale
      invariant |all| <= |digits| && digits[..|all|] == all
      invariant |digits| <= if |all| <= scale then scale + 1 else |all|
      invariant forall k :: |all| <= k < |digits| ==> digits[k] == 0
    {
      digits := digits + [0];
    }
    PaddedReversed(hi * TWO64 + lo, scale, digits);
    out := WriteReversed(digits, Padded(hi * TWO64 + lo, scale), negative, scale);
    LiteralIsNumeral(hi * TWO64 + lo, negative, scale);
  }

  /** Decimal digits, least significant first, by long division over the limbs. */
  method LimbDigits(hi: uint64, lo: uint64) returns (digits: seq<nat>)
    ensures digits == LowDigits(hi * TWO64 + lo, 10)
  {
    hide Held, LowDigits;
    ghost var all := LowDigits(hi * TWO64 + lo, 10);
    var limbs := SplitLimbs(hi, lo);
    digits := [];
    while limbs[0] != 0 || limbs[1] != 0 || limbs[2] != 0 || limbs[3] != 0
      invariant limbs.Length == 4 && fresh(limbs)
      invariant |digits| <= |all| && LowDigits(Held(limbs), 10) == all[|digits|..]
      invariant digits == all[..|digits|]
      decreases Held(limbs)
    {
      ghost var rest, n := Held(limbs), |digits|;
      LowDigitsStep(rest, 10);
      var remainder := DivideBy10(limbs);
      DivModUnique(rest, 10, Held(limbs), remainder);
      assert all[n..][0] == remainder && all[n..][1..] == all[n + 1..];
      assert all[..n + 1] == all[..n] + [all[n]];
      digits := digits + [remainder];
    }
  }

  /** Writes digits given least significant first, with the point before the last `scale` of them. */
  method WriteReversed(digits: seq<nat>, ghost padded: seq<nat>, negative: bool, scale: uint8) returns (out: string)
    requires AllBelow(digits, 10) && AllBelow(padded, 10) && scale < |digits| == |padded|
    requires forall k :: 0 <= k < |digits| ==> padded[k] == digits[|digits| - 1 - k]
    ensures out == Numeral(negative, padded[..|padded| - scale], padded[|padded| - scale..])
  {
    hide Written;
    out := if negative then "-" else "";
    WrittenEnds(padded, negative, scale);
    var i := |digits|;
    while i > 0
      invariant 0 <= i <= |digits|
      invariant out == Written(padded, negative, scale, |digits| - i)
    {
      WrittenStep(padded, negative, scale, |digits| - i);
      i := i - 1;
      out := out + ['0' + digits[i] as char];
      if i == scale && scale > 0 {
        out := out + ".";
      }
    }
  }

  /** The numeral after k digits, with the point as soon as the whole part is complete. */
  ghost function Written(padded: seq<nat>, negative: bool, scale: nat, k: nat): string
    requires AllBelow(padded, 10) && scale < |padded| && k <= |padded|
  {
    var point := |padded| - scale;
    (if negative then "-" else "") +
    if k < point || scale == 0 then Chars(padded[..k]) else Chars(padded[..point]) + "." + Chars(padded[point..k])
  }

  lemma WrittenEnds(padded: seq<nat>, negative: bool, scale: nat)
    requires AllBelow(padded, 10) && scale < |padded|
    ensures Written(padded, negative, scale, 0) == if negative then "-" else ""
    ensures Written(padded, negative, scale, |padded|)
         == Numeral(negative, padded[..|padded| - scale], padded[|padded| - scale..])
  {
    assert padded[..|padded|] == padded && padded[..0] == [];
  }

  lemma WrittenStep(padded: seq<nat>, negative: bool, scale: nat, k: nat)
    requires AllBelow(padded, 10) && scale < |padded| && k < |padded|
    ensures Written(padded, negative, scale, k + 1)
         == Written(padded, negative, scale, k) + ['0' + padded[k] as char]
          + if k + 1 == |padded| - scale && scale > 0 then "." else ""
  {
    hide Chars;
    NoChars();
    var point := |padded| - scale;
    if k < point || scale == 0 {
      CharsSlice(padded, 0, k);
      assert padded[0..k] == padded[..k] && padded[0..k + 1] == padded[..k + 1];
      assert padded[point..point] == [];
    } else {
      CharsSlice(padded, point, k);
    }
  }

  lemma NoChars()
    ensures Chars([]) == ""
  {}

  lemma CharsSlice(s: seq<nat>, i: nat, j: nat)
    requires AllBelow(s, 10) && i <= j < |s|
    ensures Chars(s[i..j + 1]) == Chars(s[i..j]) + ['0' + s[j] as char]
  {}

  lemma CharsConcat(s: seq<nat>, t: seq<nat>)
    requires AllBelow(s, 10) && AllBelow(t, 10)
    ensures Chars(s + t) == Chars(s) + Chars(t)
  {}

  /** Digits of a magnitude with at least one before the last `scale`. */
  function Padded(magnitude: nat, scale: nat): (p: seq<nat>)
    ensures |p| > scale && AllBelow(p, 10)
  {
    var digits := HighDigits(magnitude, 10);
    (if |digits| <= scale then Zeros(scale + 1 - |digits|) else []) + digits
  }

  lemma PaddedReversed(magnitude: nat, scale: nat, digits: seq<nat>)
    requires var all := LowDigits(magnitude, 10);
             && |digits| == (if |all| <= scale then scale + 1 else |all|)
             && digits[..|all|] == all
             && forall k :: |all| <= k < |digits| ==> digits[k] == 0
    ensures var p := Padded(magnitude, scale);
            |p| == |digits| && forall k :: 0 <= k < |p| ==> p[k] == digits[|digits| - 1 - k]
  {
    hide LowDigits, Reverse;
    var all := LowDigits(magnitude, 10);
    assert forall k :: 0 <= k < |all| ==> digits[k] == all[k];
  }

  /** A plain numeral: sign, whole part, and a fraction unless it is empty. */
  function Numeral(negative: bool, whole: seq<nat>, fraction: seq<nat>): string
    requires AllBelow(whole, 10) && AllBelow(fraction, 10)
  {
    (if negative then "-" else "") + Chars(whole) + if |fraction| > 0 then "." + Chars(fraction) else ""
  }

  lemma LiteralIsNumeral(magnitude: nat, negative: bool, scale: nat)
    ensures var p := Padded(magnitude, scale);
            LiteralText(magnitude, negative, scale) == Numeral(negative, p[..|p| - scale], p[|p| - scale..])
  {
    hide HighDigits, Chars, Zeros;
  }

  /** Whole part and fraction of 0.s * 10^point. */
  function WholePart(s: seq<nat>, point: int): (w: seq<nat>)
    requires AllBelow(s, 10)
    ensures AllBelow(w, 10)
  {
    if point <= 0 then [0] else if point >= |s| then s + Zeros(point - |s|) else s[..point]
  }

  function FractionPart(s: seq<nat>, point: int): (f: seq<nat>)
    requires AllBelow(s, 10)
    ensures AllBelow(f, 10)
  {
    if point <= 0 then Zeros(-point) + s else if point >= |s| then [] else s[point..]
  }

  lemma ZeroChar()
    ensures Chars([0]) == "0"
  {}

  lemma PlainIsNumeral(negative: bool, s: seq<nat>, point: int)
    requires AllBelow(s, 10) && |s| > 0
    ensures PlainText(negative, s, point) == Numeral(negative, WholePart(s, point), FractionPart(s, point))
  {
    hide Chars, Zeros;
    if point <= 0 {
      ZeroChar();
      CharsConcat(Zeros(-point), s);
      assert "0." == "0" + ".";
    } else if point >= |s| {
      CharsConcat(s, Zeros(point - |s|));
    }
  }
}
