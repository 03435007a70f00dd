/** Encoding of a magnitude, a sign and a decimal scale in Oracle's NUMBER format. The specification
    works on the base-100 digits of the magnitude aligned on a digit pair. */
module NumberEncoding {
  import opened Machine
  import opened Digits
  import opened OracleNumber
  import opened Limbs

  /** magnitude * 10^-scale == AlignedMagnitude * 100^-FractionPairs */
  function AlignedMagnitude(magnitude: nat, scale: nat): nat {
    if scale % 2 != 0 then 10 * magnitude else magnitude
  }

  function FractionPairs(scale: nat): nat {
    (scale + 1) / 2
  }

  function ZeroPrefix(s: seq<nat>): (n: nat)
    ensures n <= |s|
    ensures forall k :: 0 <= k < n ==> s[k] == 0
    ensures n < |s| ==> s[n] != 0
  {
    if s == [] || s[0] != 0 then 0 else 1 + ZeroPrefix(s[1..])
  }

  /** pairs are base-100 digits, most significant first; the first one weighs 100^exponent. */
  datatype Normal = Normal(pairs: seq<nat>, exponent: int)

  /** Normal form of magnitude * 10^-scale: no leading and no trailing zero pair. */
  function NormalForm(magnitude: nat, scale: nat): Normal {
    var low := LowDigits(AlignedMagnitude(magnitude, scale), 100);
    Normal(Reverse(low[ZeroPrefix(low)..]), |low| - 1 - FractionPairs(scale))
  }

  /** Bytes of a normal form: exponent byte, digits, terminator of a short negative mantissa. */
  function NormalBytes(n: Normal, negative: bool): (bytes: seq<uint8>)
    requires AllBelow(n.pairs, 100)
  {
    if negative then
      [(0x3E - n.exponent) % 256] + seq(|n.pairs|, i requires 0 <= i < |n.pairs| => 101 - n.pairs[i])
      + if |n.pairs| < 20 then [102] else []
    else
      [(0xC1 + n.exponent) % 256] + seq(|n.pairs|, i requires 0 <= i < |n.pairs| => n.pairs[i] + 1)
  }

  lemma NormalPairs(magnitude: nat, scale: nat)
    requires magnitude > 0
    ensures var n := NormalForm(magnitude, scale);
            AllBelow(n.pairs, 100) && |n.pairs| > 0 && n.pairs[0] != 0 && n.pairs[|n.pairs| - 1] != 0
  {
    var low := LowDigits(AlignedMagnitude(magnitude, scale), 100);
    assert low[|low| - 1] != 0;
  }

  /** The encoding: empty when the value needs more than 20 base-100 digits. */
  function Encode(magnitude: nat, negative: bool, scale: nat): seq<uint8> {
    if magnitude == 0 then [0x80] else
    NormalPairs(magnitude, scale);
    var n := NormalForm(magnitude, scale);
    if |n.pairs| > 20 then [] else NormalBytes(n, negative)
  }

  /** Number written by the digits of s, least significant first. */
  function LowFold(s: seq<nat>, b: nat): nat {
    if s == [] then 0 else s[0] + b * LowFold(s[1..], b)
  }

  lemma LowFoldStep(d: nat, s: seq<nat>, b: nat)
    ensures LowFold([d] + s, b) == d + b * LowFold(s, b)
  {
    assert ([d] + s)[1..] == s;
  }

  lemma NoLowFold(b: nat)
    ensures LowFold([], b) == 0
  {}

  lemma {:induction false} LowFoldDigits(n: nat, b: nat)
    requires b >= 2
    ensures LowFold(LowDigits(n, b), b) == n
  {
    hide LowFold, LowDigits;
    NoLowFold(b);
    if n > 0 {
      LowFoldDigits(n / b, b);
      LowDigitsStep(n, b);
      LowFoldStep(n % b, LowDigits(n / b, b), b);
      DivMod(n, b);
    }
  }

  lemma {:induction false} LowDigitsOfFold(s: seq<nat>, b: nat)
    requires b >= 2 && AllBelow(s, b) && (s != [] ==> s[|s| - 1] != 0)
    ensures LowDigits(LowFold(s, b), b) == s
  {
    hide LowFold, LowDigits;
    NoLowFold(b);
    if s != [] {
      LowDigitsOfFold(s[1..], b);
      var x := LowFold(s[1..], b);
      assert s == [s[0]] + s[1..];
      LowFoldStep(s[0], s[1..], b);
      DivModUnique(s[0] + b * x, b, x, s[0]);
      MulGrows(b, x);
      LowDigitsStep(s[0] + b * x, b);
    }
  }

  lemma {:induction false} LowFoldAppendZero(s: seq<nat>, b: nat)
    ensures LowFold(s + [0], b) == LowFold(s, b)
  {
    if s != [] {
      LowFoldAppendZero(s[1..], b);
      assert (s + [0])[1..] == s[1..] + [0];
    } else {
      assert ([] + [0])[1..] == [];
      assert s + [0] == [0];
    }
  }

  /** Base-100 digits of an even number of decimal digits, least significant first. */
  function Paired(s: seq<nat>): (r: seq<nat>)
    requires |s| % 2 == 0
    ensures |r| == |s| / 2
    ensures forall i :: 0 <= i < |r| ==> r[i] == s[2 * i] + 10 * s[2 * i + 1]
  {
    if s == [] then [] else [s[0] + 10 * s[1]] + Paired(s[2..])
  }

  lemma {:induction false} PairedValue(s: seq<nat>)
    requires |s| % 2 == 0
    ensures LowFold(Paired(s), 100) == LowFold(s, 10)
  {
    if s != [] {
      PairedValue(s[2..]);
      assert Paired(s)[1..] == Paired(s[2..]);
      assert s[1..][1..] == s[2..];
    }
  }

  lemma AlignedValue(digits: seq<nat>, scale: nat, aligned: seq<nat>)
    requires aligned == (if scale % 2 != 0 then [0] else []) + digits
          || aligned == (if scale % 2 != 0 then [0] else []) + digits + [0]
    ensures LowFold(aligned, 10) == AlignedMagnitude(LowFold(digits, 10), scale)
  {
    var shifted := (if scale % 2 != 0 then [0] else []) + digits;
    LowFoldAppendZero(shifted, 10);
    if scale % 2 != 0 {
      assert shifted[1..] == digits;
    } else {
      assert shifted == digits;
    }
  }

  /** Leading zero pairs removed: what is left are the base-100 digits of the value. */
  lemma {:induction false} TrimmedDigits(pairs: seq<nat>, hi: nat)
    requires AllBelow(pairs, 100) && hi <= |pairs|
    requires forall k :: hi <= k < |pairs| ==> pairs[k] == 0
    requires hi > 0 ==> pairs[hi - 1] != 0
    ensures LowDigits(LowFold(pairs, 100), 100) == pairs[..hi]
    decreases |pairs|
  {
    if hi == |pairs| {
      LowDigitsOfFold(pairs, 100);
      assert pairs[..hi] == pairs;
    } else {
      var rest := pairs[..|pairs| - 1];
      TrimmedDigits(rest, hi);
      LowFoldAppendZero(rest, 100);
      assert rest + [0] == pairs;
      assert rest[..hi] == pairs[..hi];
    }
  }

  /** Pads the digits so that they form pairs, of which frac / 2 stand behind the point. */
  method AlignDigits(dec: array<uint8>, n: nat, scale: uint8) returns (aligned: array<uint8>, m: nat, frac: nat)
    requires n <= dec.Length && n <= 46 && AllBelow(dec[..n], 10)
    ensures fresh(aligned) && m <= aligned.Length == 48 && m % 2 == 0 && m <= n + 2
    ensures frac == 2 * FractionPairs(scale)
    ensures AllBelow(aligned[..m], 10)
    ensures LowFold(aligned[..m], 10) == AlignedMagnitude(LowFold(dec[..n], 10), scale)
  {
    hide LowFold, AlignedMagnitude;
    aligned := new uint8[48];
    m := 0;
    frac := scale;
    if frac % 2 != 0 {
      aligned[m] := 0;
      m := m + 1;
      frac := frac + 1;
    }
    ghost var digits: seq<nat> := dec[..n];
    ghost var lead := m;
    for i := 0 to n
      invariant m == lead + i && (lead == 1 ==> aligned[0] == 0)
      invariant forall k :: 0 <= k < i ==> aligned[lead + k] == digits[k]
    {
      aligned[m] := dec[i];
      m := m + 1;
    }
    if m % 2 != 0 {
      aligned[m] := 0;
      m := m + 1;
    }
    ghost var all: seq<nat> := aligned[..m];
    assert all == (if scale % 2 != 0 then [0] else []) + digits + (if m > lead + n then [0] else []);
    AlignedValue(digits, scale, all);
  }

  /** Combines aligned decimal digits two by two. */
  method CombinePairs(aligned: array<uint8>, m: nat) returns (base100: array<uint8>)
    requires m <= aligned.Length && m % 2 == 0 && m <= 48 && AllBelow(aligned[..m], 10)
    ensures fresh(base100) && base100.Length == 24
    ensures AllBelow(base100[..m / 2], 100)
    ensures LowFold(base100[..m / 2], 100) == LowFold(aligned[..m], 10)
  {
    hide LowFold, Paired;
    base100 := new uint8[24];
    ghost var all: seq<nat> := aligned[..m];
    for i := 0 to m / 2
      invariant forall k :: 0 <= k < i ==> base100[k] == Paired(all)[k]
    {
      assert aligned[2 * i] == all[2 * i] && aligned[2 * i + 1] == all[2 * i + 1];
      base100[i] := (aligned[2 * i] as int) + 10 * (aligned[2 * i + 1] as int);
    }
    PairedValue(all);
    assert base100[..m / 2] == Paired(all);
  }

  /** Drops the zero pairs at both ends. */
  method TrimZeros(base100: array<uint8>, pairs: nat) returns (lo: nat, hi: nat)
    requires pairs <= base100.Length && AllBelow(base100[..pairs], 100)
    ensures lo <= hi <= pairs
    ensures base100[..hi] == LowDigits(LowFold(base100[..pairs], 100), 100)
    ensures lo == ZeroPrefix(base100[..hi])
  {
    hide LowFold, LowDigits;
    hi := pairs;
    while hi > 0 && base100[hi - 1] == 0
      invariant hi <= pairs
      invariant forall k :: hi <= k < pairs ==> base100[k] == 0
    {
      hi := hi - 1;
    }
    TrimmedDigits(base100[..pairs], hi);
    assert base100[..pairs][..hi] == base100[..hi];
    lo := 0;
    while lo < hi && base100[lo] == 0
      invariant lo <= hi
      invariant forall k :: 0 <= k < lo ==> base100[k] == 0
    {
      lo := lo + 1;
    }
  }

  /** dec: decimal digits, least significant first. Writes nothing (0) beyond 20 base-100 digits. */
  method EncodeFromDigits(dec: array<uint8>, n: nat, negative: bool, scale: uint8, out: array<uint8>)
      returns (len: nat)
    requires 0 < n <= dec.Length && n <= 46 && AllBelow(dec[..n], 10) && dec[n - 1] != 0
    requires out.Length >= MAX_BYTES && out != dec
    modifies out
    ensures len <= 21 && out[..len] == Encode(LowFold(dec[..n], 10), negative, scale)
  {
    hide LowFold, LowDigits, AlignedMagnitude, NormalForm, NormalBytes, Reverse, ZeroPrefix, Paired,
      FractionPairs;
    ghost var magnitude := LowFold(dec[..n], 10);
    PositiveValue(dec[..n], 10);
    var aligned, m, frac := AlignDigits(dec, n, scale);
    var base100 := CombinePairs(aligned, m);
    var pairs := m / 2;
    var lo, hi := TrimZeros(base100, pairs);
    ghost var normal := NormalForm(magnitude, scale);
    assert base100[..hi][lo..] == base100[lo..hi];
    NormalPairs(magnitude, scale);
    NormalFromDigits(magnitude, scale, base100[..hi], base100[lo..hi]);
    var exponent: int := (hi as int) - 1 - frac / 2;
    if hi - lo > 20 {
      return 0;
    }
    len := WriteBytes(base100, lo, hi, exponent, negative, out);
  }

  lemma NormalFromDigits(magnitude: nat, scale: nat, low: seq<nat>, significant: seq<nat>)
    requires low == LowDigits(AlignedMagnitude(magnitude, scale), 100) && significant == low[ZeroPrefix(low)..]
    ensures NormalForm(magnitude, scale) == Normal(Reverse(significant), |low| - 1 - FractionPairs(scale))
  {}

  /** Writes the exponent byte, the digits [lo, hi) most significant first, and the terminator. */
  method WriteBytes(base100: array<uint8>, lo: nat, hi: nat, exponent: int, negative: bool, out: array<uint8>)
      returns (len: nat)
    requires lo < hi <= base100.Length && hi - lo <= 20 && AllBelow(base100[lo..hi], 100)
    requires out.Length >= MAX_BYTES && out != base100
    modifies out
    ensures len <= 21 && out[..len] == NormalBytes(Normal(Reverse(base100[lo..hi]), exponent), negative)
  {
    hide Reverse, NormalBytes;
    ghost var digits: seq<nat> := base100[lo..hi];
    ghost var normal := Normal(Reverse(digits), exponent);
    ghost var bytes := NormalBytes(normal, negative);
    NormalBytesAt(normal, negative);
    len := 0;
    if !negative {
      out[len] := (0xC1 + exponent) % 256;
      len := len + 1;
      var i := hi;
      while i > lo
        invariant lo <= i <= hi && len == 1 + hi - i
        invariant forall k :: 0 <= k < len ==> out[k] == bytes[k]
      {
        i := i - 1;
        assert base100[i] == digits[i - lo] == normal.pairs[len - 1];
        out[len] := base100[i] + 1;
        len := len + 1;
      }
    } else {
      out[len] := (0x3E - exponent) % 256;
      len := len + 1;
      var i := hi;
      while i > lo
        invariant lo <= i <= hi && len == 1 + hi - i
        invariant forall k :: 0 <= k < len ==> out[k] == bytes[k]
      {
        i := i - 1;
        assert base100[i] == digits[i - lo] == normal.pairs[len - 1];
        out[len] := 101 - (base100[i] as int);
        len := len + 1;
      }
      if hi - lo < 20 {
        out[len] := 102;
        len := len + 1;
      }
    }
    assert len == |bytes| && base100[lo..hi] == digits;
  }

  lemma NormalBytesAt(n: Normal, negative: bool)
    requires AllBelow(n.pairs, 100)
    ensures var bytes := NormalBytes(n, negative);
            && |bytes| == 1 + |n.pairs| + (if negative && |n.pairs| < 20 then 1 else 0)
            && bytes[0] == (if negative then (0x3E - n.exponent) % 256 else (0xC1 + n.exponent) % 256)
            && (forall k :: 0 <= k < |n.pairs| ==>
                  bytes[1 + k] == if negative then 101 - n.pairs[k] else n.pairs[k] + 1)
            && (negative && |n.pairs| < 20 ==> bytes[|bytes| - 1] == 102)
  {}

  lemma {:induction false} PositiveValue(s: seq<nat>, b: nat)
    requires b > 0 && s != [] && s[|s| - 1] != 0
    ensures LowFold(s, b) > 0
  {
    if |s| > 1 {
      PositiveValue(s[1..], b);
      MulGrows(b, LowFold(s[1..], b));
    }
  }

  /** Encoder of a 64-bit magnitude. */
  method EncodeNumber64(magnitude: uint64, negative: bool, scale: uint8, out: array<uint8>) returns (len: nat)
    requires out.Length >= MAX_BYTES
    modifies out
    ensures len <= 21 && out[..len] == Encode(magnitude, negative, scale)
  {
    hide LowFold, LowDigits, NormalForm, NormalBytes;
    if magnitude == 0 {
      out[0] := 0x80;
      return 1;
    }
    var dec := new uint8[24];
    var n := DecimalDigits64(magnitude, dec);
    LowFoldDigits(magnitude, 10);
    assert dec[..n][n - 1] != 0;
    len := EncodeFromDigits(dec, n, negative, scale, out);
  }

  /** Encoder of a 128-bit magnitude. */
  method EncodeNumber128(hi: uint64, lo: uint64, negative: bool, scale: uint8, out: array<uint8>)
      returns (len: nat)
    requires out.Length >= MAX_BYTES
    modifies out
    ensures len <= 21 && out[..len] == Encode(hi * TWO64 + lo, negative, scale)
  {
    hide LowFold, LowDigits, NormalForm, NormalBytes;
    if hi == 0 && lo == 0 {
      out[0] := 0x80;
      return 1;
    }
    var dec := new uint8[48];
    var n := DecimalDigits128(hi, lo, dec);
    LowFoldDigits(hi * TWO64 + lo, 10);
    assert dec[..n][n - 1] != 0;
    len := EncodeFromDigits(dec, n, negative, scale, out);
  }
}
