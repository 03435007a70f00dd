/** From DuckDB's signed integers to NUMBERs: the magnitudes taken by two's complement, the bound values of
    a filter and the cells of a loaded column. */
module NumberBinds {
  import opened Machine
  import opened Digits
  import opened OracleNumber
  import opened NumberEncoding
  import opened NumberRoundTrip
  import opened NumberText
  import opened NumberReading
  import opened NumberPrinters

  datatype Hugeint = Hugeint(upper: int64, lower: uint64) {
    function Value(): int {
      upper * TWO64 + lower
    }
  }

  function Abs(v: int): nat {
    if v < 0 then -v else v
  }

  /** uint64_t(0) - uint64_t(v) */
  function Magnitude64(v: int64): (m: uint64)
    ensures m == Abs(v)
  {
    if v < 0 then (TWO64 - AsUnsigned64(v)) % TWO64 else AsUnsigned64(v)
  }

  method MagnitudeOf(v: Hugeint) returns (hi: uint64, lo: uint64)
    ensures hi * TWO64 + lo == Abs(v.Value())
  {
    hi, lo := AsUnsigned64(v.upper), v.lower;
    if v.upper < 0 {
      lo := Negate64(lo);
      hi := Add64(TWO64 - 1 - hi, if lo == 0 then 1 else 0);
    }
  }

  /** A bound NUMBER: its bytes and the literal shown for it. */
  datatype NumberBind = NumberBind(bytes: seq<uint8>, display: string)

  function BindOf(v: int, scale: uint8): NumberBind {
    NumberBind(Encode(Abs(v), v < 0, scale), LiteralText(Abs(v), v < 0, scale))
  }

  method Bind(hi: uint64, lo: uint64, negative: bool, scale: uint8) returns (bind: NumberBind)
    ensures bind.bytes == Encode(hi * TWO64 + lo, negative, scale)
    ensures bind.display == LiteralText(hi * TWO64 + lo, negative, scale)
  {
    hide Encode, LiteralText;
    var buf := new uint8[MAX_BYTES];
    var n := EncodeNumber128(hi, lo, negative, scale, buf);
    var display := DecimalText(hi, lo, negative, scale);
    bind := NumberBind(buf[..n], display);
  }

  method BindNumber(value: int64) returns (bind: NumberBind)
    ensures bind == BindOf(value, 0)
  {
    hide Encode, LiteralText;
    bind := Bind(0, Magnitude64(value), value < 0, 0);
  }

  method BindDecimal(value: Hugeint, scale: uint8) returns (bind: NumberBind)
    ensures bind == BindOf(value.Value(), scale)
  {
    hide Encode, LiteralText;
    var hi, lo := MagnitudeOf(value);
    bind := Bind(hi, lo, value.upper < 0, scale);
  }

  /** A bound decimal is received as the value it was made from, and its text shows the same value. */
  lemma BindIsExact(v: int, scale: uint8)
    requires -TWO127 <= v < TWO127 && scale <= 128
    ensures DecodeBytes(BindOf(v, scale).bytes, scale, false, TWO127) == Success(Exactly(v))
    ensures ReadNumeral(BindOf(v, scale).display) == Some(Reading(v < 0, Abs(v), scale))
    ensures Meaning(BindOf(v, scale).bytes).Success?
    ensures TextOf(Meaning(BindOf(v, scale).bytes).value) == Trimmed(BindOf(v, scale).display)
  {
    hide DecodeBytes, Encode, LiteralText, Meaning, ReadNumeral, TextOf, Trimmed;
    RoundTrip(v, scale);
    LiteralReads(Abs(v), v < 0, scale);
    PrintersAgree(Abs(v), v < 0, scale);
  }

  /** Two NUMBER binds with the same display are the same bind. */
  lemma SameDisplaySameBind(v1: int, scale1: uint8, v2: int, scale2: uint8)
    ensures BindOf(v1, scale1).display == BindOf(v2, scale2).display <==> v1 == v2 && scale1 == scale2
  {
    hide Encode, LiteralText;
    if BindOf(v1, scale1).display == BindOf(v2, scale2).display {
      LiteralInjective(Abs(v1), v1 < 0, scale1, Abs(v2), v2 < 0, scale2);
    }
  }

  /** What the loader is told about one cell: no value, or where its bytes are in the scratch buffer. */
  datatype Cell = Null | At(offset: nat, length: nat)

  ghost predicate Holds(cell: Cell, scratch: seq<uint8>, value: Option<Hugeint>, scale: uint8) {
    match value
    case None => cell == Null
    case Some(v) =>
      && cell.At? && cell.length > 0 && cell.offset + cell.length <= |scratch|
      && scratch[cell.offset..cell.offset + cell.length] == Encode(Abs(v.Value()), v.Value() < 0, scale)
  }

  /** Encodes one column of a chunk: row r into its own slot of the scratch buffer. */
  method WriteHugeintNumber(values: seq<Option<Hugeint>>, scale: uint8, scratch: array<uint8>, cells: array<Cell>)
    requires scratch.Length >= MAX_BYTES * |values| && cells.Length >= |values|
    modifies scratch, cells
    ensures forall r :: 0 <= r < |values| ==> Holds(cells[r], scratch[..], values[r], scale)
    ensures forall i :: MAX_BYTES * |values| <= i < scratch.Length ==> scratch[i] == old(scratch[i])
    ensures forall r :: |values| <= r < cells.Length ==> cells[r] == old(cells[r])
  {
    hide Encode, Holds;
    var r := 0;
    while r < |values|
      invariant r <= |values|
      invariant forall k :: 0 <= k < r ==> InSlot(cells[k], k) && Holds(cells[k], scratch[..], values[k], scale)
      invariant forall i :: MAX_BYTES * |values| <= i < scratch.Length ==> scratch[i] == old(scratch[i])
      invariant forall k :: r <= k < cells.Length ==> cells[k] == old(cells[k])
    {
      ghost var before := scratch[..];
      if values[r].None? {
        cells[r] := Null;
        NullHolds(scratch[..], scale);
      } else {
        var v := values[r].value;
        var hi, lo := MagnitudeOf(v);
        var out := new uint8[MAX_BYTES];
        var length := EncodeNumber128(hi, lo, v.upper < 0, scale, out);
        EncodeNotEmpty(Abs(v.Value()), v.upper < 0, scale);
        Store(out, length, scratch, MAX_BYTES * r);
        cells[r] := At(MAX_BYTES * r, length);
        SlotHolds(cells[r], scratch[..], v, scale);
      }
      forall k | 0 <= k < r
        ensures Holds(cells[k], scratch[..], values[k], scale)
      {
        HoldsKept(cells[k], k, before, scratch[..], values[k], scale, r);
      }
      r := r + 1;
    }
  }

  predicate InSlot(cell: Cell, r: nat) {
    cell.At? ==> cell.offset == MAX_BYTES * r && cell.length <= MAX_BYTES
  }

  lemma NullHolds(scratch: seq<uint8>, scale: uint8)
    ensures Holds(Null, scratch, None, scale)
  {}

  lemma SlotHolds(cell: Cell, scratch: seq<uint8>, v: Hugeint, scale: uint8)
    requires cell.At? && cell.length > 0 && cell.offset + cell.length <= |scratch|
    requires scratch[cell.offset..cell.offset + cell.length] == Encode(Abs(v.Value()), v.Value() < 0, scale)
    ensures Holds(cell, scratch, Some(v), scale)
  {}

  /** No 128-bit magnitude is too large for a NUMBER: the writer's error for an empty encoding cannot occur. */
  lemma EncodeNotEmpty(magnitude: nat, negative: bool, scale: nat)
    requires magnitude < TWO128
    ensures Encode(magnitude, negative, scale) != []
  {
    hide LowDigits, NormalForm;
    if magnitude > 0 {
      NormalPairs(magnitude, scale);
      TwentyPairs(magnitude, scale);
    }
  }

  /** Writing the slot of row r leaves the cells of earlier rows as they were. */
  lemma HoldsKept(cell: Cell, k: nat, before: seq<uint8>, after: seq<uint8>, value: Option<Hugeint>, scale: uint8,
                  r: nat)
    requires k < r && InSlot(cell, k) && Holds(cell, before, value, scale) && |before| == |after|
    requires MAX_BYTES * r <= |before| && before[..MAX_BYTES * r] == after[..MAX_BYTES * r]
    ensures Holds(cell, after, value, scale)
  {
    hide Encode;
    if cell.At? {
      var i, j := cell.offset, cell.offset + cell.length;
      assert before[i..j] == before[..MAX_BYTES * r][i..j] == after[..MAX_BYTES * r][i..j] == after[i..j];
    }
  }

  /** What the encoder writes through its pointer into the scratch buffer. */
  method Store(out: array<uint8>, length: nat, scratch: array<uint8>, offset: nat)
    requires length <= out.Length && offset + length <= scratch.Length && out != scratch
    modifies scratch
    ensures scratch[..] == old(scratch[..offset]) + out[..length] + old(scratch[offset + length..])
  {
    forall i | 0 <= i < length {
      scratch[offset + i] := out[i];
    }
  }

  /** Every cell written for a column reads back as the value of its row. */
  lemma ColumnRoundTrip(cell: Cell, scratch: seq<uint8>, v: Hugeint, scale: uint8)
    requires Holds(cell, scratch, Some(v), scale) && scale <= 128
    ensures DecodeBytes(scratch[cell.offset..cell.offset + cell.length], scale, false, TWO127)
         == Success(Exactly(v.Value()))
  {
    hide Encode, DecodeBytes;
    RoundTrip(v.Value(), scale);
  }
}
