/** The fetch cursor: batches sized by a byte budget, and the LOB values of a batch read one after the other
    into one growing buffer that is addressed by offsets. */
module FetchCursors {
  import opened Machine
  import opened Digits
  import opened NumberReading
  import opened InlineColumns

  const INITIAL_LOB_BYTES: nat := 65536
  const MAX_UTF8_BYTES: nat := 4
  const UINT32_MAX: nat := 0xFFFF_FFFF
  const COUNTER_BYTES: nat := 8
  const INLINE_BYTES: nat := 8
  const LOB_ROW_BYTES: nat := 12288

  /** A LOB value as OCI reads it: its bytes, character by character (one byte each in a BLOB). */
  type Lob = seq<seq<uint8>>

  ghost predicate CharactersFit(lob: Lob, width: nat) {
    forall i :: 0 <= i < |lob| ==> 0 < |lob[i]| <= width
  }

  function Bytes(lob: Lob): seq<uint8> {
    if lob == [] then [] else Bytes(lob[..|lob| - 1]) + lob[|lob| - 1]
  }

  lemma {:induction false} BytesConcat(s: Lob, t: Lob)
    ensures Bytes(s + t) == Bytes(s) + Bytes(t)
  {
    if t == [] {
      assert s + t == s;
    } else {
      BytesConcat(s, t[..|t| - 1]);
      assert (s + t)[..|s + t| - 1] == s + t[..|t| - 1];
    }
  }

  lemma {:induction false} BytesBound(lob: Lob, width: nat)
    requires CharactersFit(lob, width)
    ensures |Bytes(lob)| <= |lob| * width
  {
    if lob != [] {
      var n := |lob| - 1;
      BytesBound(lob[..n], width);
      Distribute(n, 1, width);
      assert |lob[n]| <= width;
    }
  }

  /** As many rows as fit the budget, but at least one and at most maxRows. */
  predicate Fills(rows: nat, budget: nat, rowBytes: nat, maxRows: nat) {
    && 1 <= rows <= maxRows
    && (rows == 1 || rows * rowBytes <= budget)
    && (rows == maxRows || budget < (rows + 1) * rowBytes)
  }

  /** clamp(budget / rowBytes, 1, maxRows) */
  function RowsWithin(budget: nat, rowBytes: nat, maxRows: nat): (rows: nat)
    requires rowBytes > 0 && maxRows > 0
    ensures Fills(rows, budget, rowBytes, maxRows)
  {
    var fit := budget / rowBytes;
    DivMod(budget, rowBytes);
    Distribute(fit, 1, rowBytes);
    if maxRows < fit then (MulMonotone(maxRows, fit, rowBytes); maxRows) else if fit < 1 then 1 else fit
  }

  function Total(widths: seq<nat>): nat {
    if widths == [] then 0 else Total(widths[..|widths| - 1]) + widths[|widths| - 1]
  }

  datatype FetchError = UnexpectedRead | TooLarge | BadValue(code: nat) | OtherStatement

  /** OCI's part in reading LOBs. `stalls` counts the reads that it answered without any progress. */
  class LobReader {
    /** most characters that it is asked for in one read; 0 for no limit */
    const readChunk: nat
    ghost var stalls: nat

    constructor (readChunk: nat)
      ensures this.readChunk == readChunk && stalls == 0
    {
      this.readChunk, stalls := readChunk, 0;
    }

    /** OCILobRead2: any part of what was asked for, at its place in the buffer. */
    method Read(lob: Lob, done: nat, request: nat, out: array<uint8>, at: nat, ghost room: nat)
        returns (progress: nat, bytes: nat)
      requires done + request <= |lob| && (readChunk == 0 || request <= readChunk)
      requires |Bytes(lob[done..done + request])| <= room && at + room <= out.Length
      modifies this, out
      ensures progress <= request && bytes == |Bytes(lob[done..done + progress])| <= room
      ensures out[..at + bytes] == old(out[..at]) + Bytes(lob[done..done + progress])
      ensures stalls == old(stalls) + if progress == 0 then 1 else 0
    {
      hide Bytes;
      progress :| 0 <= progress <= request;
      if progress == 0 { stalls := stalls + 1; }
      BytesConcat(lob[done..done + progress], lob[done + progress..done + request]);
      assert lob[done..done + request] == lob[done..done + progress] + lob[done + progress..done + request];
      var data := Bytes(lob[done..done + progress]);
      bytes := |data|;
      forall i | 0 <= i < bytes {
        out[at + i] := data[i];
      }
      assert out[..at] == old(out[..at]) && out[at..at + bytes] == data;
      assert out[..at + bytes] == out[..at] + out[at..at + bytes];
    }
  }

  /** The rows of one batch: for each LOB column, the value of each row or NULL. */
  type Batch = seq<seq<Option<Lob>>>

  ghost predicate BatchFits(batch: Batch, widths: seq<nat>, n: nat) {
    && |batch| == |widths|
    && forall c :: 0 <= c < |batch| ==>
         |batch[c]| == n && forall r :: 0 <= r < n && batch[c][r].Some? ==> CharactersFit(batch[c][r].value, widths[c])
  }

  function CellBytes(cell: Option<Lob>): seq<uint8> {
    if cell.Some? then Bytes(cell.value) else []
  }

  /** The values of the first r rows of a column, one after the other. */
  function ColumnBytes(column: seq<Option<Lob>>, r: nat): seq<uint8>
    requires r <= |column|
  {
    if r == 0 then [] else ColumnBytes(column, r - 1) + CellBytes(column[r - 1])
  }

  /** The values of the first c columns, column by column. */
  function ArenaBytes(batch: Batch, c: nat): seq<uint8>
    requires c <= |batch|
  {
    if c == 0 then [] else ArenaBytes(batch, c - 1) + ColumnBytes(batch[c - 1], |batch[c - 1]|)
  }

  /** Where the value of a row is. */
  function Place(batch: Batch, c: nat, r: nat): nat
    requires c < |batch| && r < |batch[c]|
  {
    |ArenaBytes(batch, c)| + |ColumnBytes(batch[c], r)|
  }

  lemma {:induction false} ColumnSlice(column: seq<Option<Lob>>, r: nat, n: nat)
    requires r < n <= |column|
    ensures var i, bytes := |ColumnBytes(column, r)|, CellBytes(column[r]);
            i + |bytes| <= |ColumnBytes(column, n)| && ColumnBytes(column, n)[i..i + |bytes|] == bytes
  {
    hide CellBytes;
    if r < n - 1 {
      ColumnSlice(column, r, n - 1);
      SliceOfPrefix(ColumnBytes(column, n - 1), CellBytes(column[n - 1]), |ColumnBytes(column, r)|,
                    |CellBytes(column[r])|);
    }
  }

  lemma SliceOfPrefix(s: seq<uint8>, t: seq<uint8>, i: nat, n: nat)
    requires i + n <= |s|
    ensures (s + t)[i..i + n] == s[i..i + n]
  {}

  lemma SliceOfSuffix(s: seq<uint8>, t: seq<uint8>, i: nat, n: nat)
    requires i + n <= |t|
    ensures (s + t)[|s| + i..|s| + i + n] == t[i..i + n]
  {}

  /** The buffer of a complete batch holds every value at its place. */
  lemma {:induction false} ArenaSlice(batch: Batch, c: nat, r: nat, n: nat)
    requires c < n <= |batch| && r < |batch[c]|
    ensures var i, bytes := Place(batch, c, r), CellBytes(batch[c][r]);
            i + |bytes| <= |ArenaBytes(batch, n)| && ArenaBytes(batch, n)[i..i + |bytes|] == bytes
  {
    hide CellBytes, ColumnBytes;
    var bytes, column := CellBytes(batch[c][r]), ColumnBytes(batch[n - 1], |batch[n - 1]|);
    if c < n - 1 {
      ArenaSlice(batch, c, r, n - 1);
      SliceOfPrefix(ArenaBytes(batch, n - 1), column, Place(batch, c, r), |bytes|);
    } else {
      ColumnSlice(batch[c], r, |batch[c]|);
      SliceOfSuffix(ArenaBytes(batch, c), column, |ColumnBytes(batch[c], r)|, |bytes|);
    }
  }

  /** Values do not overlap: a later one starts behind the end of an earlier one. */
  lemma PlacesApart(batch: Batch, c: nat, r: nat, c': nat, r': nat)
    requires c < |batch| && c' < |batch| && r < |batch[c]| && r' < |batch[c']|
    requires c < c' || (c == c' && r < r')
    ensures Place(batch, c, r) + |CellBytes(batch[c][r])| <= Place(batch, c', r')
  {
    hide CellBytes, ColumnBytes;
    if c < c' {
      ArenaSlice(batch, c, r, c');
    } else {
      ColumnSlice(batch[c], r, r');
    }
  }

  class FetchCursor {
    const budget: nat
    const rowBytes: nat
    const rows: nat
    /** the statement that is prepared, and how many binds it has */
    const sql: string
    const bindCount: nat
    const inline: Buffers
    const lobs: LobReader
    /** per LOB column: the most bytes that one of its characters takes */
    const widths: seq<nat>
    var nextRows: nat
    var isNull: array2<bool>
    var lobOffset: array2<nat>
    var lobLength: array2<nat>
    var lobData: array<uint8>
    var lobCapacity: nat
    var lobUsed: nat
    var done: bool

    ghost predicate Valid()
      reads this
    {
      && rowBytes > 0 && 1 <= nextRows <= rows
      && isNull.Length0 == lobOffset.Length0 == lobLength.Length0 == |widths|
      && isNull.Length1 == lobOffset.Length1 == lobLength.Length1 == rows
      && lobOffset != lobLength && inline.Valid() && inline.rows == rows
      && inline.len != lobOffset && inline.len != lobLength && inline.rcode != lobOffset && inline.rcode != lobLength
      && lobUsed <= lobCapacity == lobData.Length
    }

    /** The bytes read for the current batch. */
    ghost function Content(): seq<uint8>
      reads this, lobData
      requires Valid()
    {
      lobData[..lobUsed]
    }

    /** `inlineWidths` gives the columns that are not LOBs; `characters` tells which LOB columns hold characters, the
        others hold bytes; a LOB is expected to have `prefetch` of them. Without columns a counter is fetched. */
    constructor (sql: string, bindCount: nat, budget: nat, maxRows: nat, inlineWidths: seq<nat>,
                 characters: seq<bool>, prefetch: nat, lobs: LobReader)
      ensures Valid() && !done && lobUsed == 0 && this.lobs == lobs
      ensures this.sql == sql && this.bindCount == bindCount && this.budget == budget
      ensures inline.widths == if inlineWidths == [] && characters == [] then [COUNTER_BYTES] else inlineWidths
      ensures |widths| == |characters|
      ensures forall c :: 0 <= c < |widths| ==> widths[c] == if characters[c] then MAX_UTF8_BYTES else 1
      ensures this.rowBytes >= Total(inline.widths) + INLINE_BYTES * |inline.widths| + LOB_ROW_BYTES * |widths|
      ensures this.rowBytes == 1 || this.rowBytes == Total(inline.widths) + INLINE_BYTES * |inline.widths|
                                                     + LOB_ROW_BYTES * |widths|
      ensures Fills(rows, budget, this.rowBytes, if maxRows < 1 then 1 else maxRows)
      ensures Fills(nextRows, budget, this.rowBytes + prefetch * Total(widths), rows)
      ensures fresh(isNull) && fresh(lobOffset) && fresh(lobLength) && fresh(lobData)
      ensures fresh(inline.ind) && fresh(inline.rcode) && fresh(inline.len) && fresh(inline.data)
    {
      hide RowsWithin, Total;
      var inlineColumns := if inlineWidths == [] && characters == [] then [COUNTER_BYTES] else inlineWidths;
      var lobColumns := seq(|characters|, i requires 0 <= i < |characters| =>
                                            if characters[i] then MAX_UTF8_BYTES else 1);
      var bytes := Total(inlineColumns) + INLINE_BYTES * |inlineColumns| + LOB_ROW_BYTES * |lobColumns|;
      var perRow := if bytes < 1 then 1 else bytes;
      var size := RowsWithin(budget, perRow, if maxRows < 1 then 1 else maxRows);
      this.sql, this.bindCount, this.budget, this.lobs := sql, bindCount, budget, lobs;
      this.rowBytes := perRow;
      this.rows := size;
      nextRows := RowsWithin(budget, perRow + prefetch * Total(lobColumns), size);
      widths := lobColumns;
      inline := new Buffers(inlineColumns, size);
      isNull := new bool[|characters|, size];
      lobOffset := new nat[|characters|, size]((i, j) => 0);
      lobLength := new nat[|characters|, size]((i, j) => 0);
      lobData := new uint8[INITIAL_LOB_BYTES](i => 0);
      lobCapacity, lobUsed, done := INITIAL_LOB_BYTES, 0, false;
    }

    /** Runs the statement again, with other binds: nothing of the previous run is left. Any other statement is
        refused. */
    method Execute(sql: string, bindCount: nat) returns (error: Option<FetchError>)
      requires Valid()
      modifies this`done, this`lobUsed
      ensures Valid() && error == if sql == this.sql && bindCount == this.bindCount then None else Some(OtherStatement)
      ensures error == None ==> !done && Content() == []
      ensures error != None ==> unchanged(this)
    {
      if sql != this.sql || bindCount != this.bindCount {
        return Some(OtherStatement);
      }
      done, lobUsed := false, 0;
      return None;
    }

    /** Room for `bytes` more; the buffer may move, its content does not change. */
    method ReserveLob(bytes: nat)
      requires Valid()
      modifies this`lobData, this`lobCapacity
      ensures Valid() && Content() == old(Content())
      ensures lobCapacity - lobUsed >= bytes
      ensures lobData == old(lobData) || fresh(lobData)
      ensures lobCapacity == old(lobCapacity) || lobCapacity >= 2 * old(lobCapacity)
      ensures lobCapacity in {old(lobCapacity), 2 * old(lobCapacity), INITIAL_LOB_BYTES, lobUsed + bytes}
    {
      if lobCapacity - lobUsed >= bytes {
        return;
      }
      var capacity := if 2 * lobCapacity < INITIAL_LOB_BYTES then INITIAL_LOB_BYTES else 2 * lobCapacity;
      if capacity < lobUsed + bytes {
        capacity := lobUsed + bytes;
      }
      var data := new uint8[capacity](i => 0);
      forall i | 0 <= i < lobUsed {
        data[i] := lobData[i];
      }
      lobData, lobCapacity := data, capacity;
    }

    /** Reads a value piece by piece behind the bytes already in use. The only error is that OCI makes no progress. */
    method ReadPieces(lob: Lob, width: nat, capacity: nat) returns (error: Option<FetchError>, used: nat)
      requires Valid() && CharactersFit(lob, width)
      requires capacity == |lob| * width && lobCapacity - lobUsed >= capacity
      modifies lobs, lobData
      ensures Valid() && Content() == old(Content()) && lobs.stalls >= old(lobs.stalls)
      ensures error == if lobs.stalls > old(lobs.stalls) then Some(UnexpectedRead) else None
      ensures error == None ==> (lobUsed + used <= lobCapacity && used == |Bytes(lob)|
                                && lobData[..lobUsed + used] == Content() + Bytes(lob))
    {
      hide Bytes, CharactersFit;
      ghost var before := Content();
      var got := 0;
      used := 0;
      NoBytes();
      assert lob[..0] == [];
      while got < |lob|
        invariant Valid() && got <= |lob| && lobUsed + used <= lobCapacity
        invariant used == |Bytes(lob[..got])| <= capacity && lobs.stalls == old(lobs.stalls)
        invariant lobData[..lobUsed + used] == before + Bytes(lob[..got])
      {
        var request := if 0 < lobs.readChunk < |lob| - got then lobs.readChunk else |lob| - got;
        Remaining(lob, got, request, width);
        var progress, bytes := lobs.Read(lob, got, request, lobData, lobUsed + used, capacity - used);
        PiecesJoin(lob, got, got + progress);
        ConcatAssoc(before, Bytes(lob[..got]), Bytes(lob[got..got + progress]));
        if progress == 0 {
          PrefixKept(lobData, before, Bytes(lob[..got + progress]));
          return Some(UnexpectedRead), used;
        }
        got, used := got + progress, used + bytes;
      }
      assert lob[..got] == lob;
      PrefixKept(lobData, before, Bytes(lob));
      return None, used;
    }

    /** Appends the whole value of a row to the buffer and notes where it is, unless OCI makes no progress or the value
        is of more than 4 GiB. */
    method ReadLob(c: nat, r: nat, lob: Lob) returns (error: Option<FetchError>)
      requires Valid() && c < |widths| && r < rows && CharactersFit(lob, widths[c])
      modifies this`lobData, this`lobCapacity, this`lobUsed, lobData, lobOffset, lobLength, lobs
      ensures Valid() && (lobData == old(lobData) || fresh(lobData)) && lobs.stalls >= old(lobs.stalls)
      ensures error == if lobs.stalls > old(lobs.stalls) then Some(UnexpectedRead)
                       else if Oversized(Some(lob)) then Some(TooLarge) else None
      ensures error == None ==>
          && Content() == old(Content()) + Bytes(lob)
          && lobOffset[c, r] == old(lobUsed) && lobLength[c, r] == |Bytes(lob)|
      ensures forall i, j :: 0 <= i < |widths| && 0 <= j < rows && (i != c || j != r) ==>
          lobOffset[i, j] == old(lobOffset[i, j]) && lobLength[i, j] == old(lobLength[i, j])
    {
      hide Bytes;
      var total := |lob|;
      BytesAtLeast(lob, widths[c]);
      if total > UINT32_MAX {
        return Some(TooLarge);
      }
      var capacity := total * widths[c];
      ReserveLob(capacity);
      var used: nat;
      error, used := ReadPieces(lob, widths[c], capacity);
      if error.Some? {
        return;
      }
      if used > UINT32_MAX {
        return Some(TooLarge);
      }
      lobOffset[c, r] := lobUsed;
      lobLength[c, r] := used;
      lobUsed := lobUsed + used;
      return None;
    }

    /** Every value of the batch up to row r of column c is where it belongs. */
    ghost predicate Placed(batch: Batch, c: nat, r: nat)
      reads this, lobOffset, lobLength
      requires Valid() && |batch| == |widths| && forall i :: 0 <= i < |batch| ==> |batch[i]| <= rows
    {
      forall i, j :: 0 <= i < |batch| && 0 <= j < |batch[i]| && (i < c || (i == c && j < r)) && batch[i][j].Some? ==>
        lobOffset[i, j] == Place(batch, i, j) && lobLength[i, j] == |CellBytes(batch[i][j])|
    }

    /** Reads the values of a column. */
    method ReadColumn(batch: Batch, c: nat, n: nat) returns (error: Option<FetchError>)
      requires Valid() && n <= rows && BatchFits(batch, widths, n) && c < |batch|
      requires Content() == ArenaBytes(batch, c) && Placed(batch, c, 0)
      modifies this`lobData, this`lobCapacity, this`lobUsed, lobData, lobOffset, lobLength, lobs
      ensures Valid() && (lobData == old(lobData) || fresh(lobData)) && lobs.stalls >= old(lobs.stalls)
      ensures error == if lobs.stalls > old(lobs.stalls) then Some(UnexpectedRead)
                       else if OversizedIn(batch[c], n) then Some(TooLarge) else None
      ensures error == None ==> Content() == ArenaBytes(batch, c + 1) && Placed(batch, c + 1, 0)
    {
      hide Bytes, CellBytes, ArenaBytes, ColumnBytes, CharactersFit, Oversized;
      NoColumn(batch[c]);
      var r := 0;
      while r < n
        invariant Valid() && r <= n && (lobData == old(lobData) || fresh(lobData)) && lobs.stalls == old(lobs.stalls)
        invariant Content() == ArenaBytes(batch, c) + ColumnBytes(batch[c], r) && Placed(batch, c, r)
        invariant !OversizedIn(batch[c], r)
      {
        ColumnStep(batch[c], r);
        if batch[c][r].Some? {
          error := ReadLob(c, r, batch[c][r].value);
          assert batch[c][r] == Some(batch[c][r].value);
          if error.Some? {
            return;
          }
        }
        r := r + 1;
      }
      ArenaStep(batch, c);
      return None;
    }

    /** A new batch: gives back what an oversized batch needed beyond twice the budget. */
    method StartBatch()
      requires Valid()
      modifies this`lobData, this`lobCapacity, this`lobUsed
      ensures Valid() && Content() == [] && (lobData == old(lobData) || fresh(lobData))
      ensures lobCapacity <= INITIAL_LOB_BYTES || lobCapacity <= 2 * budget
      ensures old(lobCapacity) <= INITIAL_LOB_BYTES || old(lobCapacity) <= 2 * budget ==> lobData == old(lobData)
    {
      lobUsed := 0;
      var keep := if 2 * budget < INITIAL_LOB_BYTES then INITIAL_LOB_BYTES else 2 * budget;
      if lobCapacity > keep {
        lobData, lobCapacity := new uint8[0](i => 0), 0;
        ReserveLob(keep);
      }
    }

    /** Reads all values of a batch. */
    method ReadLobs(batch: Batch, n: nat) returns (error: Option<FetchError>)
      requires Valid() && n <= rows && BatchFits(batch, widths, n)
      modifies this`lobData, this`lobCapacity, this`lobUsed, lobData, lobOffset, lobLength, lobs
      ensures Valid() && (lobData == old(lobData) || fresh(lobData)) && lobs.stalls >= old(lobs.stalls)
      ensures error == if lobs.stalls > old(lobs.stalls) then Some(UnexpectedRead)
                       else if AnyOversized(batch) then Some(TooLarge) else None
      ensures error == None ==> Content() == ArenaBytes(batch, |batch|) && Placed(batch, |batch|, 0)
    {
      hide OversizedIn, Bytes, CellBytes, ArenaBytes, ColumnBytes, Buffers.Valid;
      StartBatch();
      NothingPlaced(batch);
      var c := 0;
      while c < |batch|
        invariant Valid() && c <= |batch| && (lobData == old(lobData) || fresh(lobData))
        invariant lobs.stalls == old(lobs.stalls)
        invariant Content() == ArenaBytes(batch, c) && Placed(batch, c, 0)
        invariant forall i :: 0 <= i < c ==> !OversizedIn(batch[i], |batch[i]|)
      {
        error := ReadColumn(batch, c, n);
        if error.Some? {
          return;
        }
        c := c + 1;
      }
      return None;
    }

    /** The value of a row of the current batch. */
    function Value(c: nat, r: nat): Option<seq<uint8>>
      reads this, isNull, lobOffset, lobLength, lobData
      requires Valid() && c < |widths| && r < rows
      requires isNull[c, r] || lobOffset[c, r] + lobLength[c, r] <= lobUsed
    {
      if isNull[c, r] then None else Some(lobData[lobOffset[c, r]..lobOffset[c, r] + lobLength[c, r]])
    }

    /** Every row of the batch can be read back: its LOB's bytes, or NULL. */
    ghost predicate Delivers(batch: Batch, n: nat)
      reads this, isNull, lobOffset, lobLength, lobData
      requires Valid() && n <= rows && BatchFits(batch, widths, n)
    {
      forall c, r :: 0 <= c < |batch| && 0 <= r < n ==>
        && (isNull[c, r] || lobOffset[c, r] + lobLength[c, r] <= lobUsed)
        && Value(c, r) == if batch[c][r].Some? then Some(Bytes(batch[c][r].value)) else None
    }

    /** OCIStmtFetch2 fills the indicators of the fetched rows. */
    method SetIndicators(batch: Batch, n: nat)
      requires Valid() && n <= rows && BatchFits(batch, widths, n)
      modifies isNull
      ensures Valid()
      ensures forall c, r :: 0 <= c < |batch| && 0 <= r < n ==> (isNull[c, r] <==> batch[c][r].None?)
    {
      hide CharactersFit;
      forall c, r | 0 <= c < |batch| && 0 <= r < n {
        isNull[c, r] := batch[c][r].None?;
      }
    }

    /** OCIStmtFetch2, and the check of the values it has written. */
    method FetchRows(cells: RawBatch, batch: Batch, n: nat) returns (code: Option<nat>)
      requires Valid() && n <= rows && BatchFits(batch, widths, n) && RawFits(cells, inline.widths, n)
      modifies isNull, inline.ind, inline.rcode, inline.len, inline.data
      ensures Valid() && inline.Holds(cells, n)
      ensures forall c, r :: 0 <= c < |batch| && 0 <= r < n ==> (isNull[c, r] <==> batch[c][r].None?)
      ensures code.Some? <==> AnyBad(cells)
      ensures code.Some? ==> FirstBad(cells, code.value)
    {
      hide BatchFits, RawFits, AnyBad, FirstBad, Buffers.Holds;
      SetIndicators(batch, n);
      inline.Fill(cells, n);
      code := inline.CheckValues(cells, n);
    }

    lemma PlacedDelivers(batch: Batch, n: nat)
      requires Valid() && n <= rows && BatchFits(batch, widths, n)
      requires Content() == ArenaBytes(batch, |batch|) && Placed(batch, |batch|, 0)
      requires forall c, r :: 0 <= c < |batch| && 0 <= r < n ==> (isNull[c, r] <==> batch[c][r].None?)
      ensures Delivers(batch, n)
    {
      hide Bytes, ArenaBytes, ColumnBytes, CharactersFit, Place;
      forall c, r | 0 <= c < |batch| && 0 <= r < n && batch[c][r].Some?
        ensures lobOffset[c, r] + lobLength[c, r] <= lobUsed
        ensures lobData[lobOffset[c, r]..lobOffset[c, r] + lobLength[c, r]] == Bytes(batch[c][r].value)
      {
        ArenaSlice(batch, c, r, |batch|);
        var i, m := Place(batch, c, r), |CellBytes(batch[c][r])|;
        ArraySlice(lobData, lobUsed, i, i + m);
      }
    }

    /** Next batch: `n` rows with these values, `end` when OCI reports that there are no more. A value that was cut or
        not converted is an error. Otherwise every value can be read afterwards, and the next request fits the budget at
        this batch's LOB bytes per row. */
    method Fetch(cells: RawBatch, batch: Batch, n: nat, end: bool) returns (fetched: nat, error: Option<FetchError>)
      requires Valid() && n <= nextRows && BatchFits(batch, widths, n) && RawFits(cells, inline.widths, n)
      modifies this`lobData, this`lobCapacity, this`lobUsed, this`done, this`nextRows
      modifies lobData, lobOffset, lobLength, isNull, inline.ind, inline.rcode, inline.len, inline.data, lobs
      ensures Valid() && done == (old(done) || end) && (lobData == old(lobData) || fresh(lobData))
      ensures old(done) ==> fetched == 0 && error == None && Content() == old(Content())
      ensures !old(done) ==> (AnyBad(cells) <==> error.Some? && error.value.BadValue?)
      ensures error.Some? && error.value.BadValue? ==> FirstBad(cells, error.value.code)
      ensures !old(done) && !AnyBad(cells) ==>
          error == if lobs.stalls > old(lobs.stalls) then Some(UnexpectedRead)
                   else if AnyOversized(batch) then Some(TooLarge) else None
      ensures !old(done) && error == None ==>
          fetched == n && inline.Delivers(cells, n) && Delivers(batch, n) && Content() == ArenaBytes(batch, |batch|)
      ensures !old(done) && error == None && n > 0 && widths != [] ==>
          var perRow := (|Content()| + n - 1) / n;
          perRow * n >= |Content()| && Fills(nextRows, budget, rowBytes + perRow, rows)
      ensures nextRows == old(nextRows) || (widths != [] && n > 0)
    {
      hide AnyOversized, Bytes, CellBytes, ArenaBytes, ColumnBytes, Delivers, CharactersFit, RowsWithin,
           Buffers.Delivers, Buffers.Holds, Buffers.Valid, AnyBad, FirstBad, RawFits;
      fetched := 0;
      if done {
        return 0, None;
      }
      done := end;
      var code := FetchRows(cells, batch, n);
      if code.Some? {
        return 0, Some(BadValue(code.value));
      }
      error := ReadLobs(batch, n);
      if error.Some? {
        return;
      }
      if widths != [] && n > 0 {
        var perRow := (lobUsed + n - 1) / n;
        DivMod(lobUsed + n - 1, n);
        nextRows := RowsWithin(budget, rowBytes + perRow, rows);
      }
      PlacedDelivers(batch, n);
      inline.HeldIsDelivered(cells, n);
      return n, None;
    }
  }

  lemma PrefixKept(a: array<uint8>, s: seq<uint8>, t: seq<uint8>)
    requires |s| + |t| <= a.Length && a[..|s| + |t|] == s + t
    ensures a[..|s|] == s
  {
    assert a[..|s|] == a[..|s| + |t|][..|s|];
  }

  lemma ArraySlice(a: array<uint8>, n: nat, i: nat, j: nat)
    requires i <= j <= n <= a.Length
    ensures a[..n][i..j] == a[i..j]
  {}

  lemma NothingPlaced(batch: Batch)
    ensures ArenaBytes(batch, 0) == []
  {}

  lemma NoColumn(column: seq<Option<Lob>>)
    ensures ColumnBytes(column, 0) == []
  {}

  lemma ColumnStep(column: seq<Option<Lob>>, r: nat)
    requires r < |column|
    ensures ColumnBytes(column, r + 1)
         == ColumnBytes(column, r) + if column[r].Some? then Bytes(column[r].value) else []
    ensures if column[r].Some? then CellBytes(column[r]) == Bytes(column[r].value) else !Oversized(column[r])
  {}

  lemma ArenaStep(batch: Batch, c: nat)
    requires c < |batch|
    ensures ArenaBytes(batch, c + 1) == ArenaBytes(batch, c) + ColumnBytes(batch[c], |batch[c]|)
  {}

  lemma NoBytes()
    ensures Bytes([]) == []
  {}

  lemma PiecesJoin(lob: Lob, i: nat, j: nat)
    requires i <= j <= |lob|
    ensures Bytes(lob[..j]) == Bytes(lob[..i]) + Bytes(lob[i..j])
  {
    hide Bytes;
    BytesConcat(lob[..i], lob[i..j]);
    assert lob[..j] == lob[..i] + lob[i..j];
  }

  /** The next part of a value fits the room left for the value. */
  lemma Remaining(lob: Lob, got: nat, request: nat, width: nat)
    requires got + request <= |lob| && CharactersFit(lob, width)
    ensures |Bytes(lob[..got])| + |Bytes(lob[got..got + request])| <= |lob| * width
  {
    hide Bytes, CharactersFit;
    PiecesJoin(lob, got, got + request);
    PiecesJoin(lob, got + request, |lob|);
    assert lob[..|lob|] == lob;
    BytesBound(lob, width);
  }

  lemma {:induction false} BytesAtLeast(lob: Lob, width: nat)
    requires CharactersFit(lob, width)
    ensures |Bytes(lob)| >= |lob|
  {
    if lob != [] { BytesAtLeast(lob[..|lob| - 1], width); }
  }

  /** A value of more than 4 GiB. */
  predicate Oversized(cell: Option<Lob>) {
    cell.Some? && |Bytes(cell.value)| > UINT32_MAX
  }

  /** One of the first n rows of a column is. */
  ghost predicate OversizedIn(column: seq<Option<Lob>>, n: nat)
    requires n <= |column|
  {
    exists r :: 0 <= r < n && Oversized(column[r])
  }

  ghost predicate AnyOversized(batch: Batch) {
    exists c :: 0 <= c < |batch| && OversizedIn(batch[c], |batch[c]|)
  }
}
