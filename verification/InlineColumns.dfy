/** The columns of a fetch cursor that are not LOBs: OCI writes a batch into arrays of the cursor, with an indicator and
    a return code for every value, and no value that it reports as cut or not converted is passed on. */
module InlineColumns {
  import opened Machine
  import opened NumberReading

  const VALUE_TRUNCATED: nat := 1406

  /** What OCI writes for one value: indicator, return code and bytes. */
  datatype Raw = Raw(ind: int, rcode: nat, bytes: seq<uint8>) {
    predicate IsNull() {
      ind == -1
    }

    /** The value was cut or could not be converted. */
    predicate Bad() {
      ind != -1 && (ind != 0 || rcode != 0)
    }

    function Code(): nat {
      if rcode != 0 then rcode else VALUE_TRUNCATED
    }
  }

  /** The rows of a batch, column by column. */
  type RawBatch = seq<seq<Raw>>

  ghost predicate RawFits(batch: RawBatch, widths: seq<nat>, n: nat) {
    && |batch| == |widths|
    && forall c :: 0 <= c < |batch| ==>
         |batch[c]| == n && forall r :: 0 <= r < n ==> |batch[c][r].bytes| <= widths[c]
  }

  ghost predicate AnyBad(batch: RawBatch) {
    exists c, r :: 0 <= c < |batch| && 0 <= r < |batch[c]| && batch[c][r].Bad()
  }

  /** No bad value before row r of column c. */
  ghost predicate GoodBefore(batch: RawBatch, c: nat, r: nat) {
    forall i, j :: 0 <= i < |batch| && 0 <= j < |batch[i]| && (i < c || (i == c && j < r)) ==> !batch[i][j].Bad()
  }

  /** The code of the first bad value. */
  ghost predicate FirstBad(batch: RawBatch, code: nat) {
    exists c, r :: 0 <= c < |batch| && 0 <= r < |batch[c]| && batch[c][r].Bad() && code == batch[c][r].Code()
                   && GoodBefore(batch, c, r)
  }

  function Widest(widths: seq<nat>): (w: nat)
    ensures forall i :: 0 <= i < |widths| ==> widths[i] <= w
  {
    if widths == [] then 0
    else
      var n := |widths| - 1;
      if Widest(widths[..n]) < widths[n] then widths[n] else Widest(widths[..n])
  }

  class Buffers {
    const widths: seq<nat>
    const rows: nat
    const ind: array2<int>
    const rcode: array2<nat>
    const len: array2<nat>
    const data: array3<uint8>

    ghost predicate Valid() {
      && ind.Length0 == rcode.Length0 == len.Length0 == data.Length0 == |widths|
      && ind.Length1 == rcode.Length1 == len.Length1 == data.Length1 == rows
      && data.Length2 == Widest(widths)
      && rcode != len
    }

    constructor (widths: seq<nat>, rows: nat)
      ensures Valid() && this.widths == widths && this.rows == rows
      ensures fresh(ind) && fresh(rcode) && fresh(len) && fresh(data)
    {
      this.widths, this.rows := widths, rows;
      ind := new int[|widths|, rows]((i, j) => 0);
      rcode := new nat[|widths|, rows]((i, j) => 0);
      len := new nat[|widths|, rows]((i, j) => 0);
      data := new uint8[|widths|, rows, Widest(widths)]((i, j, k) => 0);
    }

    /** The arrays hold this batch. */
    ghost predicate Holds(batch: RawBatch, n: nat)
      reads ind, rcode, len, data
      requires Valid() && n <= rows && RawFits(batch, widths, n)
    {
      forall c, r :: 0 <= c < |batch| && 0 <= r < n ==>
        && ind[c, r] == batch[c][r].ind && rcode[c, r] == batch[c][r].rcode && len[c, r] == |batch[c][r].bytes|
        && forall k :: 0 <= k < |batch[c][r].bytes| ==> data[c, r, k] == batch[c][r].bytes[k]
    }

    /** OCIStmtFetch2 fills the arrays for the fetched rows. */
    method Fill(batch: RawBatch, n: nat)
      requires Valid() && n <= rows && RawFits(batch, widths, n)
      modifies ind, rcode, len, data
      ensures Holds(batch, n)
    {
      forall c, r | 0 <= c < |batch| && 0 <= r < n {
        ind[c, r] := batch[c][r].ind;
      }
      forall c, r | 0 <= c < |batch| && 0 <= r < n {
        rcode[c, r] := batch[c][r].rcode;
      }
      forall c, r | 0 <= c < |batch| && 0 <= r < n {
        len[c, r] := |batch[c][r].bytes|;
      }
      forall c, r, k | 0 <= c < |batch| && 0 <= r < n && 0 <= k < |batch[c][r].bytes| {
        data[c, r, k] := batch[c][r].bytes[k];
      }
    }

    /** The code of the first value that was cut or not converted; none when all values of the batch are good. */
    method CheckValues(ghost batch: RawBatch, n: nat) returns (code: Option<nat>)
      requires Valid() && n <= rows && RawFits(batch, widths, n) && Holds(batch, n)
      ensures code.Some? <==> AnyBad(batch)
      ensures code.Some? ==> FirstBad(batch, code.value)
    {
      var c := 0;
      while c < |widths|
        invariant c <= |widths| && GoodBefore(batch, c, 0)
      {
        var r := 0;
        while r < n
          invariant r <= n && GoodBefore(batch, c, r)
        {
          if ind[c, r] != -1 && (ind[c, r] != 0 || rcode[c, r] != 0) {
            assert batch[c][r].Bad();
            return Some(if rcode[c, r] != 0 then rcode[c, r] else VALUE_TRUNCATED);
          }
          r := r + 1;
        }
        c := c + 1;
      }
      return None;
    }

    /** The value of a row of the current batch. */
    function Value(c: nat, r: nat): Option<seq<uint8>>
      reads ind, len, data
      requires Valid() && c < |widths| && r < rows
      requires ind[c, r] == -1 || len[c, r] <= data.Length2
    {
      if ind[c, r] == -1 then None
      else Some(seq(len[c, r], k requires 0 <= k < data.Length2 reads data => data[c, r, k]))
    }

    /** Every row of the batch can be read back: its bytes, or NULL. */
    ghost predicate Delivers(batch: RawBatch, n: nat)
      reads ind, len, data
      requires Valid() && n <= rows && RawFits(batch, widths, n)
    {
      forall c, r :: 0 <= c < |batch| && 0 <= r < n ==>
        && (ind[c, r] == -1 || len[c, r] <= data.Length2)
        && Value(c, r) == if batch[c][r].IsNull() then None else Some(batch[c][r].bytes)
    }

    lemma HeldIsDelivered(batch: RawBatch, n: nat)
      requires Valid() && n <= rows && RawFits(batch, widths, n) && Holds(batch, n)
      ensures Delivers(batch, n)
    {
      forall c, r | 0 <= c < |batch| && 0 <= r < n
        ensures len[c, r] <= data.Length2
        ensures Value(c, r) == if batch[c][r].IsNull() then None else Some(batch[c][r].bytes)
      {
        assert widths[c] <= Widest(widths);
        if ind[c, r] != -1 { assert Value(c, r).value == batch[c][r].bytes; }
      }
    }
  }
}
