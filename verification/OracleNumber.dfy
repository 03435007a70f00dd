/** What the bytes of Oracle's internal NUMBER format (SQLT_NUM) mean, and what decoding one to a scaled
    integer has to give. Everything here is a definition over exact rationals: a finite NUMBER is
    mantissa * 10^exponent with an unbounded mantissa. */
module OracleNumber {
  import opened Machine
  import opened Digits

  const MAX_BYTES: nat := 22

  datatype Malformed = BadLength | ZeroWithDigits | BadMantissa | BadDigit

  datatype Result<+T> = Success(value: T) | Failure(error: Malformed)

  datatype Number =
    | Infinite(negative: bool)
    | Finite(negative: bool, mantissa: nat, exponent: int)

  /** Base-100 digit stored in a mantissa byte: one more than the digit, or 101 minus the digit in a
      negative number. Out of 0..99 when the byte is malformed. */
  function DigitOf(b: uint8, negative: bool): int {
    if negative then 101 - b else b - 1
  }

  /** Mantissa bytes: what follows the exponent byte, without the terminator of a negative number. */
  function MantissaBytes(bytes: seq<uint8>): seq<uint8>
    requires |bytes| > 0
  {
    var tail := bytes[1..];
    if bytes[0] < 0x80 && |tail| > 0 && tail[|tail| - 1] == 102 then tail[..|tail| - 1] else tail
  }

  predicate DigitsInRange(mantissa: seq<uint8>, negative: bool) {
    forall i :: 0 <= i < |mantissa| ==> 0 <= DigitOf(mantissa[i], negative) < 100
  }

  function DigitsOf(mantissa: seq<uint8>, negative: bool): (r: seq<nat>)
    requires DigitsInRange(mantissa, negative)
    ensures |r| == |mantissa| && AllBelow(r, 100)
  {
    seq(|mantissa|, i requires 0 <= i < |mantissa| => DigitOf(mantissa[i], negative))
  }

  /** Power of 100 of the first mantissa digit. */
  function ExponentOf(head: uint8): int {
    if head < 0x80 then 0x3E - head else head - 0xC1
  }

  function Meaning(bytes: seq<uint8>): Result<Number> {
    if |bytes| == 0 || |bytes| > MAX_BYTES then Failure(BadLength)
    else if bytes[0] == 0x80 then
      if |bytes| == 1 then Success(Finite(false, 0, 0)) else Failure(ZeroWithDigits)
    else if bytes == [0x00] then Success(Infinite(true))
    else if bytes == [0xFF, 0x65] then Success(Infinite(false))
    else
      var negative := bytes[0] < 0x80;
      var mantissa := MantissaBytes(bytes);
      if |mantissa| == 0 || |mantissa| > 20 then Failure(BadMantissa)
      else if !DigitsInRange(mantissa, negative) then Failure(BadDigit)
      else
        var value := Fold(DigitsOf(mantissa, negative), 100);
        Success(Finite(negative && value > 0, value, 2 * (ExponentOf(bytes[0]) + 1 - |mantissa|)))
  }

  /** floor(v * 10^e) */
  function Floor10(v: nat, e: int): nat {
    if e >= 0 then v * Pow10(e) else v / Pow10(-e)
  }

  /** v * 10^e is an integer */
  predicate Whole10(v: nat, e: int) {
    e >= 0 || v % Pow10(-e) == 0
  }

  /** floor(v * 10^e + 1/2): the nearest integer, halves away from zero */
  function Nearest10(v: nat, e: int): nat {
    if e >= 0 then v * Pow10(e) else (2 * v + Pow10(-e)) / (2 * Pow10(-e))
  }

  datatype Decoded = Exactly(value: int) | Overflow | Inexact | Infinity

  /** The magnitude a decoder accumulates in 128 bits before it applies the sign and its own range. */
  function Magnitude(n: Number, scale: nat, round: bool): Decoded {
    match n
    case Infinite(_) => Infinity
    case Finite(_, v, e) =>
      if Floor10(v, e + scale) >= TWO128 then Overflow
      else if !Whole10(v, e + scale) && !round then Inexact
      else if Nearest10(v, e + scale) >= TWO128 then Overflow
      else Exactly(Nearest10(v, e + scale))
  }

  /** n * 10^scale as a two's complement integer of `bits` bits. */
  function Scaled(n: Number, scale: nat, round: bool, limit: nat): Decoded {
    match Magnitude(n, scale, round)
    case Exactly(m) =>
      var signed := if n.negative then -m else m;
      if 0 - limit <= signed < limit then Exactly(signed) else Overflow
    case other => other
  }

  /** Decoding of bytes to a signed integer in [-limit, limit). */
  function DecodeBytes(bytes: seq<uint8>, scale: nat, round: bool, limit: nat): Result<Decoded> {
    match Meaning(bytes)
    case Failure(error) => Failure(error)
    case Success(n) => Success(Scaled(n, scale, round, limit))
  }

  lemma DivPow(v: nat, x: nat, z: nat)
    requires z <= x
    ensures v * Pow10(z) / Pow10(x) == v / Pow10(x - z)
    ensures v * Pow10(z) % Pow10(x) == v % Pow10(x - z) * Pow10(z)
  {
    var p, q := Pow10(x - z), Pow10(z);
    PowAdd(10, x - z, z);
    DivMod(v, p);
    Distribute(v / p * p, v % p, q);
    assert v / p * p * q == v / p * (p * q) by { MulAssoc(v / p, p, q); }
    MulMonotone(v % p, p - 1, q);
    Distribute(p, 1, q);
    DivModUnique(v * q, p * q, v / p, v % p * q);
  }

  /** Trailing zeros of the mantissa can be moved into the exponent. */
  lemma TrailingZeros(v: nat, z: nat, e: int)
    ensures Floor10(v * Pow10(z), e) == Floor10(v, e + z)
    ensures Whole10(v * Pow10(z), e) == Whole10(v, e + z)
    ensures Nearest10(v * Pow10(z), e) == Nearest10(v, e + z)
  {
    var w := v * Pow10(z);
    if e >= 0 {
      PowAdd(10, z, e);
      MulAssoc(v, Pow10(z), Pow10(e));
    } else if e + z >= 0 {
      PowAdd(10, e + z, -e);
      var q, p := v * Pow10(e + z), Pow10(-e);
      MulAssoc(v, Pow10(e + z), p);
      DivModUnique(w, p, q, 0);
      assert 2 * w + p == q * (2 * p) + p;
      DivModUnique(2 * w + p, 2 * p, q, p);
    } else {
      DivPow(v, -e, z);
      var p, q := Pow10(-e - z), Pow10(z);
      PowAdd(10, -e - z, z);
      NearestOfMultiple(v, p, q);
      if v % p != 0 { MulGrows(q, v % p); assert v % p * q > 0; }
    }
  }

  lemma NearestOfMultiple(v: nat, p: nat, q: nat)
    requires p > 0 && q > 0
    ensures p * q > 0
    ensures (2 * (v * q) + p * q) / (2 * (p * q)) == (2 * v + p) / (2 * p)
  {
    var u, d := 2 * v + p, 2 * p;
    MulGrows(p, q);
    DivMod(u, d);
    var a, r := u / d, u % d;
    assert u * q == 2 * (v * q) + p * q by { Distribute(2 * v, p, q); MulAssoc(2, v, q); }
    assert d * q == 2 * (p * q) by { MulAssoc(2, p, q); }
    assert u * q == a * (d * q) + r * q by { Distribute(a * d, r, q); MulAssoc(a, d, q); }
    MulMonotone(r, d - 1, q);
    Distribute(d, 1, q);
    DivModUnique(u * q, d * q, a, r * q);
  }

  /** Decoding does not depend on how a number is split into mantissa and exponent. */
  lemma MagnitudeOfShifted(neg: bool, v: nat, z: nat, e: int, scale: nat, round: bool)
    ensures Magnitude(Finite(neg, v * Pow10(z), e), scale, round) == Magnitude(Finite(neg, v, e + z), scale, round)
  {
    TrailingZeros(v, z, e + scale);
  }

  /** The first dropped digit d decides whether a remainder rounds up. */
  lemma HalfUp(v: nat, p: nat, q: nat, d: nat, t: nat, rest: nat)
    requires t > 0 && p == 10 * t && rest < t && d < 10
    requires v == q * p + (d * t + rest)
    ensures (2 * v + p) / (2 * p) == q + if d >= 5 then 1 else 0
  {
    var r := d * t + rest;
    assert q * (2 * p) == 2 * (q * p) by { MulAssoc(2, q, p); MulAssoc(q, 2, p); }
    if d >= 5 {
      MulMonotone(5, d, t);
      MulMonotone(d, 9, t);
      Distribute(q, -1, 2 * p);
      DivModUnique(2 * v + p, 2 * p, q + 1, 2 * r - p);
    } else {
      MulMonotone(d, 4, t);
      DivModUnique(2 * v + p, 2 * p, q, 2 * r + p);
    }
  }

  lemma SplitFold(s: seq<nat>, keep: nat)
    requires AllBelow(s, 10) && keep < |s| && s[|s| - 1] != 0
    ensures Fold(s, 10) == Fold(s[..keep], 10) * Pow10(|s| - keep) + Fold(s[keep..], 10)
    ensures 0 < Fold(s[keep..], 10) < Pow10(|s| - keep)
    ensures Fold(s[keep..], 10) == s[keep] * Pow10(|s| - keep - 1) + Fold(s[keep + 1..], 10)
    ensures Fold(s[keep + 1..], 10) < Pow10(|s| - keep - 1)
  {
    var hi, lo := s[..keep], s[keep..];
    assert s == hi + lo;
    FoldConcat(hi, lo, 10);
    FoldBound(lo, 10);
    assert lo[|lo| - 1] != 0;
    FoldHead(lo, 10);
    assert lo[1..] == s[keep + 1..];
    FoldBound(lo[1..], 10);
  }

  /** Cutting a digit string at `keep` digits splits its value at the decimal point. */
  lemma CutDigits(s: seq<nat>, keep: nat)
    requires AllBelow(s, 10) && keep < |s| && s[|s| - 1] != 0
    ensures Floor10(Fold(s, 10), keep - |s|) == Fold(s[..keep], 10)
    ensures !Whole10(Fold(s, 10), keep - |s|)
    ensures Nearest10(Fold(s, 10), keep - |s|) == Fold(s[..keep], 10) + if s[keep] >= 5 then 1 else 0
  {
    SplitFold(s, keep);
    var v, q, p, t := Fold(s, 10), Fold(s[..keep], 10), Pow10(|s| - keep), Pow10(|s| - keep - 1);
    DivModUnique(v, p, q, Fold(s[keep..], 10));
    HalfUp(v, p, q, s[keep], t, Fold(s[keep + 1..], 10));
  }

  /** All digits lie at least one place behind the decimal point. */
  lemma BelowTenth(s: seq<nat>, keep: int)
    requires AllBelow(s, 10) && keep < 0 && |s| > 0 && s[|s| - 1] != 0
    ensures Floor10(Fold(s, 10), keep - |s|) == 0
    ensures !Whole10(Fold(s, 10), keep - |s|)
    ensures Nearest10(Fold(s, 10), keep - |s|) == 0
  {
    var v, p := Fold(s, 10), Pow10(|s| - keep);
    FoldBound(s, 10);
    assert v > 0;
    PowMonotone(10, |s| + 1, |s| - keep);
    assert 10 * Pow10(|s|) == Pow10(|s| + 1) <= p;
    DivModUnique(v, p, 0, v);
    DivModUnique(2 * v + p, 2 * p, 0, 2 * v + p);
  }

  /** Floor, exactness and rounding of 0.s * 10^keep, read off the digits. */
  lemma ScaledDigits(s: seq<nat>, keep: int)
    requires AllBelow(s, 10) && |s| > 0 && s[|s| - 1] != 0
    ensures Floor10(Fold(s, 10), keep - |s|)
         == if keep < 0 then 0 else if keep < |s| then Fold(s[..keep], 10) else Fold(s, 10) * Pow10(keep - |s|)
    ensures Whole10(Fold(s, 10), keep - |s|) <==> keep >= |s|
    ensures Nearest10(Fold(s, 10), keep - |s|)
         == Floor10(Fold(s, 10), keep - |s|) + if 0 <= keep < |s| && s[keep] >= 5 then 1 else 0
  {
    hide Fold, Pow10;
    if keep < 0 {
      BelowTenth(s, keep);
    } else if keep < |s| {
      CutDigits(s, keep);
    }
  }

  /** More than 40 integer digits need more than 128 bits. */
  lemma ManyDigits(s: seq<nat>, keep: int)
    requires AllBelow(s, 10) && 0 < |s| <= 40 && s[0] != 0 && keep > 40
    ensures Fold(s, 10) * Pow10(keep - |s|) >= TWO128
  {
    FoldHighPositive(s, 10);
    PowAdd(10, |s| - 1, keep - |s|);
    MulMonotone(Pow10(|s| - 1), Fold(s, 10), Pow10(keep - |s|));
    PowMonotone(10, 40, keep - 1);
    Pow10Of40();
  }

  lemma Pow10Of40()
    ensures Pow10(40) > TWO128
  {
    assert Pow(10, 5) == 100000;
    PowAdd(10, 5, 5);
    PowAdd(10, 10, 10);
    PowAdd(10, 20, 20);
  }
}
