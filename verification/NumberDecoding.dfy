/** Decoding of Oracle NUMBER bytes to scaled integers: parsing in place, folding the digits in chunks,
    rounding, and the range of the 64-bit and 128-bit results. */
module NumberDecoding {
  import opened Machine
  import opened Digits
  import opened OracleNumber
  import opened Accumulator

  const CHUNK_DIGITS: nat := 18

  /** A NUMBER parsed in place. Its value is 0.DIGITS * 10^point, where DIGITS are the digits
      [lead, lead + size) of the decimal stream read from the base-100 digits in `pairs`. */
  class ParsedNumber {
    var negative: bool
    var infinity: bool
    var zero: bool
    var point: int
    var lead: nat
    var size: nat
    const pairs: array<uint8>
    ghost var used: nat // pairs in use

    constructor ()
      ensures !negative && !infinity && !zero && fresh(pairs) && pairs.Length == 20
    {
      negative, infinity, zero := false, false, false;
      point, lead, size, used := 0, 0, 0, 0;
      pairs := new uint8[20];
    }

    /** The base-100 digits in use are digits, and the significant ones lie among them. */
    ghost predicate Loaded()
      reads this, pairs
    {
      && used <= pairs.Length == 20
      && AllBelow(pairs[..used], 100)
      && 0 < size && lead + size <= 2 * used
    }

    ghost function StreamDigits(): (s: seq<nat>)
      reads this, pairs
      requires Loaded()
      ensures |s| == 2 * used && AllBelow(s, 10)
    {
      StreamBelow(pairs[..used]);
      Stream(pairs[..used])
    }

    ghost function Significant(): (s: seq<nat>)
      reads this, pairs
      requires Loaded()
      ensures |s| == size && AllBelow(s, 10)
    {
      StreamDigits()[lead..lead + size]
    }

    /** This object holds the number n: exactly its significant digits, at the right place. */
    ghost predicate Describes(n: Number)
      reads this, pairs
      ensures Describes(n) ==> negative == n.negative
    {
      && negative == n.negative
      && infinity == n.Infinite?
      && (n.Finite? ==> zero == (n.mantissa == 0))
      && (n.Finite? && !zero ==>
            && Loaded()
            && Significant()[0] != 0 && Significant()[size - 1] != 0
            && point - size >= n.exponent
            && n.mantissa == Fold(Significant(), 10) * Pow10(point - size - n.exponent))
    }

    function StreamDigit(i: nat): (d: nat)
      reads this, pairs
      requires Loaded() && i < 2 * used
      ensures d == StreamDigits()[i]
    {
      StreamAt(pairs[..used], i);
      var pair := pairs[i / 2];
      if i % 2 == 1 then pair % 10 else pair / 10
    }

    /** i-th significant digit */
    function Digit(i: nat): (d: nat)
      reads this, pairs
      requires Loaded() && i < size
      ensures d == Significant()[i] < 10
    {
      StreamDigit(lead + i)
    }

    /** Value of the stream digits [start, start + digits): a leading half pair, whole pairs in groups
        of four, a trailing half pair. */
    method ChunkValue(start: nat, digits: nat) returns (value: uint64)
      requires Loaded()
      requires 1 <= digits <= CHUNK_DIGITS && start + digits <= 2 * used
      ensures value == Fold(StreamDigits()[start..start + digits], 10)
      ensures value < Pow10(digits)
    {
      hide Fold, Stream, Pow, Pow10;
      ghost var u: seq<nat> := pairs[..used];
      var pos, end := start, start + digits;
      value := 0;
      if pos % 2 == 1 {
        StreamAt(u, pos);
        value := pairs[pos / 2] % 10;
        pos := pos + 1;
      }
      var p, count := pos / 2, (end - pos) / 2;
      var whole := ChunkPairs(p, count);
      ghost var aligned := pos;
      pos := pos + 2 * count;
      WholePairs(u, p, p + count);
      StreamBelow(u);
      ExtendDigits(Stream(u), start, aligned, pos, end, value, whole);
      assert 2 * count == pos - aligned;
      Pow10FitsWord(digits);
      PowMonotone(10, pos - start, digits);
      value := value * Pow10(2 * count) + whole;
      if pos < end {
        StreamAt(u, pos);
        value := value * 10 + pairs[pos / 2] / 10;
      }
    }

    /** The whole pairs of a chunk, combined in independent groups of four. */
    method ChunkPairs(first: nat, wholePairs: nat) returns (whole: uint64)
      requires Loaded()
      requires wholePairs <= 9 && first + wholePairs <= used
      ensures whole == Fold(pairs[..used][first..first + wholePairs], 100)
    {
      hide Fold, Pow;
      ghost var u: seq<nat> := pairs[..used];
      EmptyFold(100);
      var p, count := first, wholePairs;
      whole := 0;
      assert u[first..p] == [];
      while count >= 4
        invariant 0 <= count <= wholePairs && p == first + wholePairs - count
        invariant whole == Fold(u[first..p], 100) < Pow(100, wholePairs - count)
      {
        var group: uint64 := ((pairs[p] as int) * 100 + pairs[p + 1]) * 10000
                           + ((pairs[p + 2] as int) * 100 + pairs[p + 3]);
        FoldFour(u, first, p);
        FoldBound(u[first..p + 4], 100);
        PowersFitWord(wholePairs - count + 4);
        whole := whole * 100000000 + group;
        p := p + 4;
        count := count - 4;
      }
      while count > 0
        invariant 0 <= count <= wholePairs && p == first + wholePairs - count
        invariant whole == Fold(u[first..p], 100) < Pow(100, wholePairs - count)
      {
        FoldSlice(u, first, p, 100);
        FoldBound(u[first..p + 1], 100);
        PowersFitWord(wholePairs - count + 1);
        whole := whole * 100 + pairs[p];
        p := p + 1;
        count := count - 1;
      }
    }
  }

  lemma WholePairs(u: seq<nat>, i: nat, j: nat)
    requires i <= j <= |u|
    ensures Fold(Stream(u)[2 * i..2 * j], 10) == Fold(u[i..j], 100)
  {
    StreamSlice(u, i, j);
    FoldStream(u[i..j]);
  }

  /** At most one digit before and one after the digits [mid, last) of known value. */
  lemma ExtendDigits(s: seq<nat>, start: nat, mid: nat, last: nat, end: nat, head: nat,
                     whole: nat)
    requires AllBelow(s, 10) && mid - 1 <= start <= mid <= last <= end <= last + 1 && start < end <= |s|
    requires Fold(s[mid..last], 10) == whole && head == if start < mid then s[start] else 0
    ensures var value := head * Pow10(last - mid) + whole;
            && value < Pow10(last - start)
            && Fold(s[start..end], 10) == (if last < end then value * 10 + s[last] else value)
    ensures Fold(s[start..end], 10) < Pow10(end - start)
  {
    hide Fold, Pow;
    FoldBound(s[start..end], 10);
    FoldBound(s[start..last], 10);
    if start < mid { PrependDigit(s, start, last); }
    if last < end { FoldSlice(s, start, last, 10); }
  }

  lemma PrependDigit(s: seq<nat>, i: nat, j: nat)
    requires i < j <= |s|
    ensures Fold(s[i..j], 10) == s[i] * Pow10(j - i - 1) + Fold(s[i + 1..j], 10)
  {
    FoldHead(s[i..j], 10);
    assert s[i..j][1..] == s[i + 1..j];
  }

  lemma FoldSlice(s: seq<nat>, i: nat, j: nat, b: nat)
    requires i <= j < |s|
    ensures Fold(s[i..j + 1], b) == Fold(s[i..j], b) * b + s[j]
  {
    FoldAppend(s[i..j], s[j], b);
    assert s[i..j] + [s[j]] == s[i..j + 1];
  }

  lemma FoldFour(u: seq<nat>, i: nat, p: nat)
    requires i <= p && p + 4 <= |u|
    ensures Fold(u[i..p + 4], 100)
         == Fold(u[i..p], 100) * 100000000 + ((u[p] * 100 + u[p + 1]) * 10000 + (u[p + 2] * 100 + u[p + 3]))
  {
    hide Fold;
    FoldSlice(u, i, p, 100);
    FoldSlice(u, i, p + 1, 100);
    FoldSlice(u, i, p + 2, 100);
    FoldSlice(u, i, p + 3, 100);
  }

  lemma Pow10FitsWord(k: nat)
    requires k <= 19
    ensures Pow10(k) < TWO64
  {
    assert Pow(10, 6) == 1000000;
    PowAdd(10, 6, 6);
    PowAdd(10, 12, 6);
    assert Pow(10, 19) == 10 * Pow(10, 18);
    PowMonotone(10, k, 19);
  }

  lemma PowersFitWord(k: nat)
    requires k <= 9
    ensures Pow(100, k) < TWO64
  {
    Pow100Is10(k);
    Pow10FitsWord(2 * k);
  }

  /** Digit of a mantissa byte over 8 bits, branch free in the source: (b - offset) with its low byte
      flipped (255 - x) for a negative number. */
  function DigitByte(b: uint8, negative: bool): (d: uint8)
    ensures d <= 99 <==> 0 <= DigitOf(b, negative) < 100
    ensures d <= 99 ==> d == DigitOf(b, negative)
  {
    if negative then 255 - (b - 102) % 256 else (b - 1) % 256
  }

  /** Leading and trailing zeros around the significant digits of a stream. */
  lemma StripZeros(s: seq<nat>, i: nat, j: nat, mid: seq<nat>, zeros: nat)
    requires i <= j <= |s| && mid == s[i..j] && zeros == |s| - j
    requires forall k :: 0 <= k < i || j <= k < |s| ==> s[k] == 0
    ensures Fold(s, 10) == Fold(mid, 10) * Pow10(zeros)
  {
    hide Fold;
    FoldZeros(s[..i], 10);
    FoldZeros(s[j..], 10);
    FoldConcat(s[..i], mid, 10);
    FoldConcat(s[..i] + mid, s[j..], 10);
    assert s == s[..i] + mid + s[j..];
  }

  lemma {:induction false} FoldZeros(s: seq<nat>, b: nat)
    requires forall k :: 0 <= k < |s| ==> s[k] == 0
    ensures Fold(s, b) == 0
  {
    if |s| > 0 { FoldZeros(s[..|s| - 1], b); }
  }

  lemma {:induction false} FoldPositive(s: seq<nat>, b: nat, i: nat)
    requires b > 0 && i < |s| && s[i] > 0
    ensures Fold(s, b) > 0
  {
    if i < |s| - 1 {
      FoldPositive(s[..|s| - 1], b, i);
      MulGrows(b, Fold(s[..|s| - 1], b));
    }
  }

  /** Stores the digits of the mantissa bytes; the result says whether one was malformed. */
  method LoadDigits(mantissa: seq<uint8>, r: ParsedNumber) returns (bad: bool)
    requires |mantissa| <= r.pairs.Length == 20
    modifies r.pairs
    ensures bad <==> !DigitsInRange(mantissa, r.negative)
    ensures !bad ==> r.pairs[..|mantissa|] == DigitsOf(mantissa, r.negative)
  {
    bad := false;
    for i := 0 to |mantissa|
      invariant bad <==> exists k :: 0 <= k < i && DigitByte(mantissa[k], r.negative) > 99
      invariant forall k :: 0 <= k < i ==> r.pairs[k] == DigitByte(mantissa[k], r.negative)
    {
      var d := DigitByte(mantissa[i], r.negative);
      bad := bad || d > 99;
      r.pairs[i] := d;
    }
  }

  /** Skips leading and trailing zero pairs; first == last when all are zero. */
  method TrimPairs(pairs: array<uint8>, pairCount: nat) returns (first: nat, last: nat)
    requires pairCount <= pairs.Length
    ensures first <= last <= pairCount
    ensures forall k :: 0 <= k < first || last <= k < pairCount ==> pairs[k] == 0
    ensures first < last ==> pairs[first] != 0 && pairs[last - 1] != 0
  {
    first, last := 0, pairCount;
    while first < last && pairs[first] == 0
      invariant 0 <= first <= last
      invariant forall k :: 0 <= k < first ==> pairs[k] == 0
    {
      first := first + 1;
    }
    if first == last {
      return;
    }
    while pairs[last - 1] == 0
      invariant first < last <= pairCount
      invariant forall k :: last <= k < pairCount ==> pairs[k] == 0
      decreases last
    {
      last := last - 1;
    }
  }

  /** Places the decimal point of the significant digits among the first `pairCount` pairs. */
  method PlacePoint(r: ParsedNumber, exponent: int, pairCount: nat)
    requires !r.infinity && !r.zero && r.pairs.Length == 20 && 0 < pairCount <= 20
    requires AllBelow(r.pairs[..pairCount], 100)
    modifies r
    ensures var value := Fold(r.pairs[..pairCount], 100);
            r.Describes(Finite(old(r.negative) && value > 0, value, 2 * (exponent + 1 - pairCount)))
  {
    hide Fold, Stream, Pow, Pow10;
    ghost var digits: seq<nat> := r.pairs[..pairCount];
    var first, count := TrimPairs(r.pairs, pairCount);
    if first == count {
      FoldZeros(digits, 100);
      r.zero := true;
      r.negative := false;
      return;
    }
    FoldPositive(digits, 100, first);
    assert digits[..count] == r.pairs[..count];
    StreamBelow(digits[..count]);
    r.lead := 2 * first + if r.pairs[first] < 10 then 1 else 0;
    r.size := 2 * count - (if r.pairs[count - 1] % 10 == 0 then 1 else 0) - r.lead;
    r.point := 2 * (exponent + 1) - r.lead;
    r.used := count;
    SignificantDigits(digits, first, count, r.lead, r.lead + r.size,
                      r.point - r.size - 2 * (exponent + 1 - pairCount));
    assert r.Loaded() && r.Significant() == Stream(digits[..count])[r.lead..r.lead + r.size];
  }

  /** The digits found between the zeros carry the whole value. */
  lemma SignificantDigits(digits: seq<nat>, first: nat, used: nat, lead: nat, end: nat,
                          zeros: nat)
    requires AllBelow(digits, 100) && first < used <= |digits|
    requires digits[first] != 0 && digits[used - 1] != 0
    requires forall k :: 0 <= k < first || used <= k < |digits| ==> digits[k] == 0
    requires lead == 2 * first + if digits[first] < 10 then 1 else 0
    requires end == 2 * used - if digits[used - 1] % 10 == 0 then 1 else 0
    requires zeros == 2 * |digits| - end
    ensures lead < end && Stream(digits[..used])[lead] != 0 && Stream(digits[..used])[end - 1] != 0
    ensures Fold(digits, 100) == Fold(Stream(digits[..used])[lead..end], 10) * Pow10(zeros)
  {
    hide Fold, Stream, Pow, Pow10;
    ZerosOutside(digits, first, used, lead, end);
    FoldStream(digits);
    StreamSlice(digits, 0, used);
    assert digits[..used] == digits[0..used];
    SliceOfSlice(Stream(digits), 0, 2 * used, lead, end);
    StripZeros(Stream(digits), lead, end, Stream(digits[..used])[lead..end], zeros);
  }

  /** Fills r from the bytes; fails exactly on the bytes that have no meaning. */
  method ParseNumber(bytes: seq<uint8>, r: ParsedNumber) returns (outcome: Result<()>)
    requires !r.negative && !r.infinity && !r.zero && r.pairs.Length == 20
    modifies r, r.pairs
    ensures match Meaning(bytes)
            case Failure(error) => outcome == Failure(error)
            case Success(n) => outcome == Success(()) && r.Describes(n)
  {
    hide Fold, Stream, Pow, Pow10, DigitsOf, DigitsInRange;
    if |bytes| == 0 || |bytes| > MAX_BYTES {
      return Failure(BadLength);
    }
    if bytes[0] == 0x80 {
      if |bytes| != 1 {
        return Failure(ZeroWithDigits);
      }
      r.zero := true;
      return Success(());
    }
    if |bytes| == 1 && bytes[0] == 0x00 {
      r.negative, r.infinity := true, true;
      return Success(());
    }
    if |bytes| == 2 && bytes[0] == 0xFF && bytes[1] == 0x65 {
      r.infinity := true;
      return Success(());
    }
    assert bytes != [0x00] && bytes != [0xFF, 0x65];
    r.negative := bytes[0] < 0x80;
    var exponent := if r.negative then 0x3E - (bytes[0] as int) else (bytes[0] as int) - 0xC1;
    var count := |bytes| - 1;
    if r.negative && count > 0 && bytes[|bytes| - 1] == 102 {
      count := count - 1;
    }
    assert MantissaBytes(bytes) == bytes[1..1 + count];
    if count == 0 || count > 20 {
      return Failure(BadMantissa);
    }
    var bad := LoadDigits(bytes[1..1 + count], r);
    if bad {
      return Failure(BadDigit);
    }
    PlacePoint(r, exponent, count);
    return Success(());
  }

  lemma ZerosOutside(digits: seq<nat>, first: nat, used: nat, lead: nat, end: nat)
    requires AllBelow(digits, 100) && first < used <= |digits|
    requires digits[first] != 0 && digits[used - 1] != 0
    requires forall k :: 0 <= k < first || used <= k < |digits| ==> digits[k] == 0
    requires lead == 2 * first + if digits[first] < 10 then 1 else 0
    requires end == 2 * used - if digits[used - 1] % 10 == 0 then 1 else 0
    ensures lead < end && Stream(digits)[lead] != 0 && Stream(digits)[end - 1] != 0
    ensures forall k :: 0 <= k < lead || end <= k < 2 * |digits| ==> Stream(digits)[k] == 0
  {
    hide Stream;
    StreamPair(digits, first);
    StreamPair(digits, used - 1);
    forall k | 0 <= k < lead || end <= k < 2 * |digits|
      ensures Stream(digits)[k] == 0
    {
      StreamAt(digits, k);
    }
  }

  datatype DecodeStatus = Ok | OverflowStatus | InexactStatus | InfinityStatus

  /** What a decoder's status and accumulator say. */
  function Reported(status: DecodeStatus, value: int): Decoded {
    match status
    case Ok => Exactly(value)
    case OverflowStatus => Overflow
    case InexactStatus => Inexact
    case InfinityStatus => Infinity
  }

  /** Integer part of 0.s * 10^keep. */
  ghost function IntegerPart(s: seq<nat>, keep: int): nat {
    if keep < 0 then 0
    else if keep < |s| then Fold(s[..keep], 10)
    else Fold(s, 10) * Pow10(keep - |s|)
  }

  /** Magnitude of 0.s * 10^keep. */
  ghost function DigitsMagnitude(s: seq<nat>, keep: int, round: bool): Decoded {
    if IntegerPart(s, keep) >= TWO128 then Overflow
    else if keep < |s| && !round then Inexact
    else
      var rounded := IntegerPart(s, keep) + if 0 <= keep < |s| && s[keep] >= 5 then 1 else 0;
      if rounded >= TWO128 then Overflow else Exactly(rounded)
  }

  lemma MagnitudeOfDigits(s: seq<nat>, negative: bool, v: nat, exponent: int, point: int, scale: nat, round: bool)
    requires AllBelow(s, 10) && |s| > 0 && s[|s| - 1] != 0
    requires point - |s| >= exponent && v == Fold(s, 10) * Pow10(point - |s| - exponent)
    ensures Magnitude(Finite(negative, v, exponent), scale, round) == DigitsMagnitude(s, point + scale, round)
  {
    hide Fold, Pow, Pow10, Floor10, Whole10, Nearest10;
    MagnitudeOfShifted(negative, Fold(s, 10), point - |s| - exponent, exponent, scale, round);
    ScaledDigits(s, point + scale);
  }

  /** The first `taken` significant digits as a number in acc; fails exactly when it does not fit. */
  method AddDigits(n: ParsedNumber, taken: nat, acc: Acc) returns (ok: bool)
    requires n.Loaded() && taken <= n.size && acc.Value() == 0
    modifies acc
    ensures ok <==> Fold(n.Significant()[..taken], 10) < TWO128
    ensures ok ==> acc.Value() == Fold(n.Significant()[..taken], 10)
  {
    hide Fold, Stream, Pow, Pow10;
    ghost var sig := n.Significant();
    ghost var stream := n.StreamDigits();
    var pos, end := n.lead, n.lead + taken;
    EmptyFold(10);
    assert sig[..0] == [];
    while pos < end
      invariant n.lead <= pos <= end
      invariant acc.Value() == Fold(sig[..pos - n.lead], 10)
    {
      var digits := if end - pos < CHUNK_DIGITS then end - pos else CHUNK_DIGITS;
      Pow10FitsWord(digits);
      var chunk := n.ChunkValue(pos, digits);
      ghost var i, j := pos - n.lead, pos + digits - n.lead;
      SliceOfSlice(stream, n.lead, n.lead + n.size, i, j);
      FoldExtend(sig, i, j, digits);
      FoldPrefix(sig, j, taken);
      ok := acc.MulAdd(Pow10(digits), chunk);
      if !ok {
        return;
      }
      pos := pos + digits;
    }
    ok := true;
  }

  /** Trailing zeros of the integer part. */
  method AddZeros(zeros: int, acc: Acc) returns (ok: bool)
    modifies acc
    ensures zeros <= 0 ==> ok && acc.Value() == old(acc.Value())
    ensures zeros > 0 ==> (ok <==> old(acc.Value()) * Pow10(zeros) < TWO128)
    ensures zeros > 0 && ok ==> acc.Value() == old(acc.Value()) * Pow10(zeros)
  {
    hide Pow, Pow10;
    ghost var start := acc.Value();
    ghost var done := 0;
    TimesPow10Of0(start);
    var pad := zeros;
    while pad > 0
      invariant if zeros > 0 then pad >= 0 && done + pad == zeros else pad == zeros && done == 0
      invariant 0 <= done && acc.Value() == start * Pow10(done)
    {
      var step := if pad < CHUNK_DIGITS then pad else CHUNK_DIGITS;
      Pow10FitsWord(step);
      TimesPow10(start, done, step, done + step);
      TimesPow10Monotone(start, done + step, zeros);
      ok := acc.MulAdd(Pow10(step), 0);
      if !ok {
        return;
      }
      pad := pad - step;
      done := done + step;
    }
    ok := true;
  }

  /** Status and accumulator together report the scaled magnitude of the number that n describes. */
  method ScaledMagnitude(n: ParsedNumber, ghost number: Number, scale: uint8, round: bool, acc: Acc)
      returns (status: DecodeStatus)
    requires n.Describes(number) && acc.Value() == 0
    modifies acc
    ensures Reported(status, acc.Value()) == Magnitude(number, scale, round)
  {
    hide Fold, Stream, Pow, Pow10, Floor10, Whole10, Nearest10, Magnitude;
    if n.infinity {
      InfiniteMagnitude(number, scale, round);
      return InfinityStatus;
    }
    if n.zero {
      ZeroMagnitude(number, scale, round);
      return Ok;
    }
    ghost var sig := n.Significant();
    MagnitudeOfDigits(sig, n.negative, number.mantissa, number.exponent, n.point, scale, round);
    var keep := n.point + scale;
    if keep > 40 {
      ManyDigits(sig, keep);
      return OverflowStatus;
    }
    var taken := if keep < n.size then (if keep > 0 then keep else 0) else n.size;
    IntegerPartTaken(sig, keep, taken);
    var ok := AddDigits(n, taken, acc);
    if !ok {
      return OverflowStatus;
    }
    ok := AddZeros(keep - taken, acc);
    if !ok {
      return OverflowStatus;
    }
    if keep >= n.size {
      return Ok;
    }
    if !round {
      return InexactStatus;
    }
    var up := if keep >= 0 then n.Digit(keep) >= 5 else false;
    if up {
      ok := acc.Increment();
      if !ok {
        return OverflowStatus;
      }
    }
    return Ok;
  }

  lemma InfiniteMagnitude(n: Number, scale: nat, round: bool)
    requires n.Infinite?
    ensures Magnitude(n, scale, round) == Infinity
  {}

  lemma ZeroMagnitude(n: Number, scale: nat, round: bool)
    requires n.Finite? && n.mantissa == 0
    ensures Magnitude(n, scale, round) == Exactly(0)
  {
    var e := n.exponent + scale;
    if e < 0 { DivModUnique(Pow10(-e), 2 * Pow10(-e), 0, Pow10(-e)); }
  }

  lemma TimesPow10Of0(x: nat)
    ensures x * Pow10(0) == x
  {}

  lemma TimesPow10(x: nat, i: nat, j: nat, k: nat)
    requires k == i + j
    ensures x * Pow10(i) * Pow10(j) == x * Pow10(k)
  {
    PowAdd(10, i, j);
    MulAssoc(x, Pow10(i), Pow10(j));
  }

  lemma TimesPow10Monotone(x: nat, i: nat, j: nat)
    requires i <= j
    ensures x * Pow10(i) <= x * Pow10(j)
  {
    PowMonotone(10, i, j);
    MulMonotone(Pow10(i), Pow10(j), x);
  }

  /** The digits before the decimal point, then zeros. */
  lemma IntegerPartTaken(s: seq<nat>, keep: int, taken: nat)
    requires |s| > 0
    requires taken == if keep < |s| then (if keep > 0 then keep else 0) else |s|
    ensures IntegerPart(s, keep)
         == if keep <= taken then Fold(s[..taken], 10) else Fold(s[..taken], 10) * Pow10(keep - taken)
    ensures IntegerPart(s, keep) >= Fold(s[..taken], 10)
  {
    hide Fold, Pow;
    if keep >= |s| {
      assert s[..taken] == s;
      TimesPow10Of0(Fold(s, 10));
      TimesPow10Monotone(Fold(s, 10), 0, keep - |s|);
    } else if keep <= 0 {
      assert s[..taken] == [];
      EmptyFold(10);
    }
  }

  lemma FoldExtend(s: seq<nat>, i: nat, j: nat, count: nat)
    requires i <= j <= |s| && count == j - i
    ensures Fold(s[..j], 10) == Fold(s[..i], 10) * Pow10(count) + Fold(s[i..j], 10)
  {
    hide Fold;
    FoldConcat(s[..i], s[i..j], 10);
    assert s[..i] + s[i..j] == s[..j];
  }

  lemma FoldPrefix(s: seq<nat>, i: nat, j: nat)
    requires i <= j <= |s|
    ensures Fold(s[..i], 10) <= Fold(s[..j], 10)
  {
    hide Fold;
    FoldExtend(s, i, j, j - i);
    MulGrows(Pow10(j - i), Fold(s[..i], 10));
  }

  /** Decoder of NUMBER bytes to a signed 64-bit integer scaled by 10^scale. */
  method DecodeScaled64(bytes: seq<uint8>, scale: uint8, round: bool) returns (r: Result<Decoded>)
    ensures r == DecodeBytes(bytes, scale, round, TWO63)
  {
    hide Meaning, Magnitude, ParsedNumber.Describes;
    var n := new ParsedNumber();
    var parsed := ParseNumber(bytes, n);
    if parsed.Failure? {
      return Failure(parsed.error);
    }
    var acc := new Acc();
    var status := ScaledMagnitude(n, Meaning(bytes).value, scale, round, acc);
    if status != Ok {
      return Success(Reported(status, 0));
    }
    var limit: uint64 := TWO63 - 1 + if n.negative then 1 else 0;
    if acc.hi != 0 || acc.lo > limit {
      return Success(Overflow);
    }
    var out := if n.negative then AsSigned64(Negate64(acc.lo)) else AsSigned64(acc.lo);
    return Success(Exactly(out));
  }

  /** Decoder of NUMBER bytes to a signed 128-bit integer scaled by 10^scale, in two's complement halves. */
  method DecodeScaled128(bytes: seq<uint8>, scale: uint8, round: bool) returns (r: Result<Decoded>)
    ensures r == DecodeBytes(bytes, scale, round, TWO127)
  {
    hide Meaning, Magnitude, ParsedNumber.Describes;
    var n := new ParsedNumber();
    var parsed := ParseNumber(bytes, n);
    if parsed.Failure? {
      return Failure(parsed.error);
    }
    var acc := new Acc();
    var status := ScaledMagnitude(n, Meaning(bytes).value, scale, round, acc);
    if status != Ok {
      return Success(Reported(status, 0));
    }
    if acc.hi > TWO63 || (acc.hi == TWO63 && (!n.negative || acc.lo != 0)) {
      return Success(Overflow);
    }
    var lo, hi := acc.lo, acc.hi;
    if n.negative {
      lo := Negate64(lo);
      hi := Add64(TWO64 - 1 - hi, if lo == 0 then 1 else 0);
    }
    return Success(Exactly(AsSigned64(hi) * TWO64 + lo));
  }
}
