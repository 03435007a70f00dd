/** Decimal digits of 64-bit and 128-bit magnitudes, the latter by long division over 32-bit limbs. */
module Limbs {
  import opened Machine
  import opened Digits

  /** Number held by four 32-bit limbs, most significant first. */
  ghost function LimbValue(limbs: seq<nat>): nat {
    Fold(limbs, 0x1_0000_0000)
  }

  /** Number currently held by the array of limbs. */
  ghost function Held(limbs: array<uint32>): (v: nat)
    reads limbs
    requires limbs.Length == 4
    ensures v == 0 <==> limbs[0] == limbs[1] == limbs[2] == limbs[3] == 0
  {
    LimbsZero(limbs[..]);
    LimbValue(limbs[..])
  }

  /** Long division by 10 in place. */
  method DivideBy10(limbs: array<uint32>) returns (remainder: uint64)
    requires limbs.Length == 4
    modifies limbs
    ensures old(Held(limbs)) == 10 * Held(limbs) + remainder
    ensures remainder < 10
  {
    hide Fold;
    remainder := 0;
    EmptyFold(TWO32);
    ghost var start: seq<nat> := limbs[..];
    ghost var done: seq<nat> := [];
    assert start[..0] == [];
    for i := 0 to limbs.Length
      invariant remainder < 10
      invariant |done| == i && forall k :: 0 <= k < i ==> limbs[k] == done[k]
      invariant forall k :: i <= k < limbs.Length ==> limbs[k] == start[k]
      invariant Fold(start[..i], TWO32) == 10 * Fold(done, TWO32) + remainder
    {
      var current: uint64 := remainder * TWO32 + limbs[i];
      DivideStep(start, done, i, remainder, current);
      done := done + [current / 10];
      limbs[i] := current / 10;
      remainder := current % 10;
    }
    assert start[..|start|] == start;
    assert done == limbs[..];
  }

  lemma DivideStep(start: seq<nat>, done: seq<nat>, i: nat, remainder: nat, current: nat)
    requires i < |start| && Fold(start[..i], TWO32) == 10 * Fold(done, TWO32) + remainder
    requires current == remainder * TWO32 + start[i]
    ensures Fold(start[..i + 1], TWO32) == 10 * Fold(done + [current / 10], TWO32) + current % 10
  {
    hide Fold;
    assert start[..i] + [start[i]] == start[..i + 1];
    FoldAppend(start[..i], start[i], TWO32);
    FoldAppend(done, current / 10, TWO32);
  }

  /** The four limbs of a 128-bit word. */
  method SplitLimbs(hi: uint64, lo: uint64) returns (limbs: array<uint32>)
    ensures fresh(limbs) && limbs.Length == 4 && Held(limbs) == hi * TWO64 + lo
  {
    limbs := new uint32[4];
    limbs[0], limbs[1], limbs[2], limbs[3] := hi / TWO32, hi % TWO32, lo / TWO32, lo % TWO32;
    assert limbs[..] == [hi / TWO32, hi % TWO32, lo / TWO32, lo % TWO32];
    FourLimbs(hi / TWO32, hi % TWO32, lo / TWO32, lo % TWO32);
  }

  lemma FourLimbs(a: nat, b: nat, c: nat, d: nat)
    ensures LimbValue([a, b, c, d]) == ((a * TWO32 + b) * TWO32 + c) * TWO32 + d
  {
    hide Fold;
    FoldSingle(a, TWO32);
    FoldAppend([a], b, TWO32);
    FoldAppend([a, b], c, TWO32);
    FoldAppend([a, b, c], d, TWO32);
    assert [a] + [b] == [a, b] && [a, b] + [c] == [a, b, c] && [a, b, c] + [d] == [a, b, c, d];
  }

  lemma LimbsZero(limbs: seq<nat>)
    requires |limbs| == 4
    ensures LimbValue(limbs) == 0 <==> limbs[0] == limbs[1] == limbs[2] == limbs[3] == 0
  {
    FourLimbs(limbs[0], limbs[1], limbs[2], limbs[3]);
    assert limbs == [limbs[0], limbs[1], limbs[2], limbs[3]];
  }

  /** A 128-bit magnitude has at most 39 decimal digits, a 64-bit one at most 20. */
  lemma MagnitudeDigits(m: nat)
    requires m < TWO128
    ensures |LowDigits(m, 10)| <= 39
    ensures m < TWO64 ==> |LowDigits(m, 10)| <= 20
  {
    hide LowDigits;
    Powers();
    LowDigitsCount(m, 10, 39);
    if m < TWO64 { LowDigitsCount(m, 10, 20); }
  }

  lemma Powers()
    ensures Pow(10, 20) == 100_000_000_000_000_000_000
    ensures Pow(10, 39) == 1_000_000_000_000_000_000_000_000_000_000_000_000_000
  {
    assert Pow(10, 4) == 10000;
    assert Pow(10, 5) == 100000;
    PowAdd(10, 5, 5);
    PowAdd(10, 10, 10);
    PowAdd(10, 5, 4);
    PowAdd(10, 10, 9);
    PowAdd(10, 20, 19);
  }

  /** Decimal digits of a 64-bit magnitude, least significant first. */
  method DecimalDigits64(magnitude: uint64, digits: array<uint8>) returns (n: nat)
    requires digits.Length >= 24
    modifies digits
    ensures n <= 20 && digits[..n] == LowDigits(magnitude, 10)
  {
    hide LowDigits;
    MagnitudeDigits(magnitude);
    n := 0;
    var rest := magnitude;
    ghost var all := LowDigits(magnitude, 10);
    while rest != 0
      invariant n <= |all| && LowDigits(rest, 10) == all[n..]
      invariant forall k :: 0 <= k < n ==> digits[k] == all[k]
    {
      LowDigitsStep(rest, 10);
      assert all[n..][0] == rest % 10 && all[n..][1..] == all[n + 1..];
      digits[n] := rest % 10;
      n := n + 1;
      rest := rest / 10;
    }
  }

  /** Decimal digits of a 128-bit magnitude, least significant first. */
  method DecimalDigits128(hi: uint64, lo: uint64, digits: array<uint8>) returns (n: nat)
    requires digits.Length >= 48
    modifies digits
    ensures n <= 39 && digits[..n] == LowDigits(hi * TWO64 + lo, 10)
  {
    hide Held, LowDigits;
    ghost var magnitude := hi * TWO64 + lo;
    MagnitudeDigits(magnitude);
    var limbs := SplitLimbs(hi, lo);
    n := 0;
    ghost var all := LowDigits(magnitude, 10);
    while limbs[0] != 0 || limbs[1] != 0 || limbs[2] != 0 || limbs[3] != 0
      invariant limbs.Length == 4 && fresh(limbs)
      invariant n <= |all| && LowDigits(Held(limbs), 10) == all[n..]
      invariant forall k :: 0 <= k < n ==> digits[k] == all[k]
      decreases Held(limbs)
    {
      ghost var rest := Held(limbs);
      LowDigitsStep(rest, 10);
      var remainder := DivideBy10(limbs);
      DivModUnique(rest, 10, Held(limbs), remainder);
      assert all[n..][0] == remainder && all[n..][1..] == all[n + 1..];
      digits[n] := remainder;
      n := n + 1;
    }
  }
}
