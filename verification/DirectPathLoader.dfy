/** The direct path loader of one Oracle session: rows are converted into a stream, the stream is sent, and the
    load is finished or aborted once. OCI may answer every call in any way its documentation allows. */
module Loader {
  const MAX_STREAMS_WITHOUT_PROGRESS: nat := 4096

  /** A row of the load: row number `index` of a batch. */
  datatype BatchRow = BatchRow(batch: nat, index: nat)

  datatype Outcome = Ok | ConversionFailed | RowTooWide | StreamRejected | ResetFailed | FinishFailed | AlreadyFinished

  /** What OCIDirPathColArrayToStream answers: everything converted, the stream full after some rows, or an error. */
  datatype Conversion = Success | Continue(converted: nat) | Error

  /** What the other calls answer. */
  datatype Answer = OciSuccess | OciSuccessWithInfo | OciNeedData | OciError

  datatype Call = ColArrayToStreamCall | LoadStreamCall | StreamResetCall | FinishCall

  /** Oracle's side of a direct path load. Only the calls change it. */
  class DirectPath {
    /** rows in the stream, accepted and committed by Oracle */
    ghost var stream: seq<BatchRow>
    ghost var accepted: seq<BatchRow>
    ghost var committed: seq<BatchRow>
    ghost var finishes: nat
    ghost var aborts: nat
    /** the calls answered with an error */
    ghost var failures: seq<Call>
    /** the last streams that were full before a row was converted */
    ghost var idle: nat
    /** rows may be in the stream, or have been accepted, that do not count as such for the caller */
    ghost var spoiled: bool

    constructor ()
      ensures stream == [] && accepted == [] && committed == [] && finishes == 0 && aborts == 0
      ensures failures == [] && idle == 0 && !spoiled
    {
      stream, accepted, committed, finishes, aborts, failures, idle, spoiled := [], [], [], 0, 0, [], 0, false;
    }

    /** OCIDirPathColArrayToStream, from the first row not yet converted on. After an error some rows may have been
        converted. */
    method ColArrayToStream(ghost rows: seq<BatchRow>, remaining: nat) returns (conversion: Conversion)
      requires |rows| == remaining
      modifies this`stream, this`failures, this`idle, this`spoiled
      ensures conversion == Success ==> stream == old(stream) + rows && idle == 0
      ensures conversion.Continue? ==>
          && conversion.converted <= remaining && stream == old(stream) + rows[..conversion.converted]
          && idle == if conversion.converted == 0 then old(idle) + 1 else 0
      ensures !conversion.Error? ==> failures == old(failures) && spoiled == old(spoiled)
      ensures conversion == Error ==> failures == old(failures) + [ColArrayToStreamCall] && idle == old(idle)
      ensures conversion == Error ==>
          exists n :: 0 <= n <= remaining && stream == old(stream) + rows[..n] && spoiled == (old(spoiled) || n > 0)
    {
      var full: bool, bad: bool := *, *;
      var converted: nat :| converted <= remaining;
      if bad {
        failures, stream, spoiled := failures + [ColArrayToStreamCall], stream + rows[..converted],
                                     spoiled || converted > 0;
        return Error;
      }
      if full {
        stream, idle := stream + rows[..converted], if converted == 0 then idle + 1 else 0;
        return Continue(converted);
      }
      stream, idle := stream + rows, 0;
      return Success;
    }

    /** OCIDirPathLoadStream. OCI_NEED_DATA: the last row of the stream goes on in the next one. */
    method LoadStream() returns (rc: Answer)
      modifies this`accepted, this`failures
      ensures rc in {OciSuccess, OciSuccessWithInfo, OciNeedData} ==>
          accepted == old(accepted) + stream && failures == old(failures)
      ensures rc == OciError ==> accepted == old(accepted) && failures == old(failures) + [LoadStreamCall]
    {
      rc :| true;
      if rc == OciError {
        failures := failures + [LoadStreamCall];
      } else {
        accepted := accepted + stream;
      }
    }

    /** OCIDirPathStreamReset; without it what the stream holds would be sent again. */
    method StreamReset() returns (rc: Answer)
      modifies this`stream, this`failures, this`spoiled
      ensures rc in {OciSuccess, OciSuccessWithInfo} ==>
          stream == [] && failures == old(failures) && spoiled == old(spoiled)
      ensures rc !in {OciSuccess, OciSuccessWithInfo} ==>
          stream == old(stream) && failures == old(failures) + [StreamResetCall] && spoiled
    {
      rc :| true;
      if rc in {OciSuccess, OciSuccessWithInfo} {
        stream := [];
      } else {
        failures, spoiled := failures + [StreamResetCall], true;
      }
    }

    /** OCIDirPathFinish: commits what has been accepted. */
    method Finish() returns (rc: Answer)
      modifies this`committed, this`finishes, this`failures
      ensures rc in {OciSuccess, OciSuccessWithInfo} ==>
          committed == accepted && finishes == old(finishes) + 1 && failures == old(failures)
      ensures rc !in {OciSuccess, OciSuccessWithInfo} ==>
          committed == old(committed) && finishes == old(finishes) && failures == old(failures) + [FinishCall]
    {
      rc :| true;
      if rc in {OciSuccess, OciSuccessWithInfo} {
        committed, finishes := accepted, finishes + 1;
      } else {
        failures := failures + [FinishCall];
      }
    }

    /** OCIDirPathAbort, whose answer is ignored. */
    method Abort()
      modifies this`aborts
      ensures aborts == old(aborts) + 1
    {
      aborts := aborts + 1;
    }
  }

  /** The outcome names the call that was answered with an error; it names none exactly if there was none. */
  predicate Told(outcome: Outcome, before: seq<Call>, after: seq<Call>) {
    match outcome
    case ConversionFailed => after == before + [ColArrayToStreamCall]
    case StreamRejected => after == before + [LoadStreamCall]
    case ResetFailed => after == before + [StreamResetCall]
    case FinishFailed => after == before + [FinishCall]
    case _ => after == before
  }

  /** CheckOci: these answers throw. */
  predicate Throws(rc: Answer) {
    rc != OciSuccess && rc != OciSuccessWithInfo
  }

  lemma Further(base: seq<BatchRow>, rows: seq<BatchRow>, i: nat, j: nat)
    requires i <= j <= |rows|
    ensures base + rows[..i] + rows[i..][..j - i] == base + rows[..j]
  {
    assert rows[..j] == rows[..i] + rows[i..][..j - i];
  }

  /** Some of these rows, from the first on, have been added. */
  ghost predicate Partly(before: seq<BatchRow>, rows: seq<BatchRow>, after: seq<BatchRow>) {
    exists n :: 0 <= n <= |rows| && after == before + rows[..n]
  }

  lemma PartlyAt(before: seq<BatchRow>, rows: seq<BatchRow>, n: nat)
    requires n <= |rows|
    ensures Partly(before, rows, before + rows[..n])
  {}

  lemma PartlyLater(before: seq<BatchRow>, rows: seq<BatchRow>, i: nat, n: nat, after: seq<BatchRow>)
    requires i + n <= |rows| && Partly(before + rows[..i], rows[i..i + n], after)
    ensures Partly(before, rows, after)
  {
    var k :| 0 <= k <= n && after == before + rows[..i] + rows[i..i + n][..k];
    assert rows[..i + k] == rows[..i] + rows[i..i + n][..k];
    PartlyAt(before, rows, i + k);
    assert after == before + rows[..i + k];
  }

  lemma PieceAdded(before: seq<BatchRow>, rows: seq<BatchRow>, i: nat, n: nat)
    requires i + n <= |rows|
    ensures before + rows[..i] + rows[i..i + n] == before + rows[..i + n]
  {
    assert rows[..i + n] == rows[..i] + rows[i..i + n];
  }

  class DirectPathLoader {
    const accumulateStream: bool
    /** how many rows the column array holds */
    const columnArrayRows: nat
    const path: DirectPath
    /** the three OCI handles */
    var ctx: bool
    var columnArray: bool
    var stream: bool
    var done: bool
    var streamPending: bool
    var rowsInStream: nat
    var rowsLoaded: nat
    /** all rows given to the loader so far, in order */
    ghost var given: seq<BatchRow>

    ghost predicate Valid()
      reads this, path
    {
      && columnArrayRows > 0 && rowsLoaded + rowsInStream == |given|
      && (!path.spoiled ==> path.accepted + path.stream == given && rowsInStream == |path.stream|)
      && (!streamPending ==> rowsInStream == 0)
      && (!done ==> ctx && columnArray && stream && path.finishes == 0 && path.aborts == 0 && path.committed == [])
      && (done ==> !ctx && !columnArray && !stream && path.finishes + path.aborts == 1)
      && (path.finishes == 1 ==> path.committed == path.accepted && (!path.spoiled ==> path.stream == []))
      && (path.finishes == 0 ==> path.committed == [])
    }

    ghost function Rows(): seq<BatchRow>
      reads this`given
    {
      given
    }

    constructor (accumulateStream: bool, columnArrayRows: nat)
      requires columnArrayRows > 0
      ensures Valid() && !done && Rows() == []
      ensures this.accumulateStream == accumulateStream && this.columnArrayRows == columnArrayRows
      ensures fresh(path) && !path.spoiled && path.failures == [] && path.idle == 0
    {
      this.accumulateStream, this.columnArrayRows := accumulateStream, columnArrayRows;
      path := new DirectPath();
      ctx, columnArray, stream, done := true, true, true, false;
      streamPending, rowsInStream, rowsLoaded := false, 0, 0;
      given := [];
    }

    /** Sends what the stream holds. When the stream cannot be reset afterwards, Oracle has its rows although they
        still count as not sent. */
    method LoadStream() returns (outcome: Outcome)
      requires Valid() && !done
      modifies this`streamPending, this`rowsInStream, this`rowsLoaded
      modifies path`stream, path`accepted, path`failures, path`spoiled
      ensures Valid() && outcome in {Ok, StreamRejected, ResetFailed}
      ensures Told(outcome, old(path.failures), path.failures)
      ensures outcome == Ok ==>
          !streamPending && path.spoiled == old(path.spoiled) && (!path.spoiled ==> path.stream == [])
      ensures outcome == Ok && old(streamPending) ==> path.accepted == old(path.accepted + path.stream)
      ensures !old(streamPending) ==> outcome == Ok && unchanged(this) && unchanged(path)
      ensures outcome == StreamRejected ==> unchanged(this) && unchanged(path`stream, path`accepted, path`spoiled)
      ensures outcome == ResetFailed ==>
          unchanged(this) && path.spoiled && path.accepted == old(path.accepted + path.stream) && unchanged(path`stream)
    {
      if !streamPending {
        return Ok;
      }
      var rc := path.LoadStream();
      if rc != OciSuccess && rc != OciSuccessWithInfo && rc != OciNeedData {
        return StreamRejected;
      }
      rc := path.StreamReset();
      if Throws(rc) {
        return ResetFailed;
      }
      rowsLoaded := rowsLoaded + rowsInStream;
      rowsInStream := 0;
      streamPending := false;
      return Ok;
    }

    /** These rows, the last of the stream, are not counted yet. */
    ghost predicate Uncounted(rows: seq<BatchRow>)
      reads this, path
    {
      && columnArrayRows > 0 && !done && ctx && columnArray && stream
      && path.finishes == 0 && path.aborts == 0 && path.committed == []
      && rowsLoaded + rowsInStream == |given| && (!streamPending ==> rowsInStream == 0)
      && (!path.spoiled ==> path.accepted + path.stream == given + rows && rowsInStream + |rows| == |path.stream|)
    }

    /** Converts rows into the stream. */
    method Convert(ghost rows: seq<BatchRow>, remaining: nat) returns (conversion: Conversion)
      requires Valid() && !done && |rows| == remaining
      modifies path`stream, path`failures, path`idle, path`spoiled
      ensures conversion == Success ==> Uncounted(rows) && path.idle == 0
      ensures conversion.Continue? ==>
          && conversion.converted <= remaining && Uncounted(rows[..conversion.converted])
          && path.idle == if conversion.converted == 0 then old(path.idle) + 1 else 0
      ensures !conversion.Error? ==> path.failures == old(path.failures) && path.spoiled == old(path.spoiled)
      ensures conversion == Error ==>
          Valid() && path.failures == old(path.failures) + [ColArrayToStreamCall] && path.idle == old(path.idle)
    {
      ghost var before := path.stream;
      conversion := path.ColArrayToStream(rows, remaining);
      assert forall more: seq<BatchRow> :: (path.accepted + before) + more == path.accepted + (before + more);
    }

    lemma NoneUncounted()
      requires Uncounted([])
      ensures Valid()
    {
      assert given + [] == given;
    }

    method CountRows(n: nat, ghost rows: seq<BatchRow>)
      requires Uncounted(rows) && |rows| == n
      modifies this`streamPending, this`rowsInStream, this`given
      ensures Valid() && !done && Rows() == old(Rows()) + rows
    {
      streamPending := true;
      rowsInStream := rowsInStream + n;
      given := given + rows;
    }

    /** The stream is full: counts its rows and sends it. */
    method CountAndLoad(n: nat, ghost rows: seq<BatchRow>) returns (outcome: Outcome)
      requires Uncounted(rows) && |rows| == n
      modifies this`streamPending, this`rowsInStream, this`rowsLoaded, this`given
      modifies path`stream, path`accepted, path`failures, path`spoiled
      ensures Valid() && !done && Rows() == old(Rows()) + rows && outcome in {Ok, StreamRejected, ResetFailed}
      ensures Told(outcome, old(path.failures), path.failures)
      ensures outcome == Ok ==> path.spoiled == old(path.spoiled)
    {
      hide Valid, Uncounted;
      CountRows(n, rows);
      outcome := LoadStream();
    }

    /** Converts and sends rows until all of them are in the stream. Terminates whatever OCI answers: every answer
        either converts a row or uses up one of the streams allowed without progress. */
    method ConvertRows(rows: seq<BatchRow>) returns (outcome: Outcome)
      requires Valid() && !done && |rows| <= columnArrayRows
      modifies this`streamPending, this`rowsInStream, this`rowsLoaded, this`given
      modifies path`stream, path`accepted, path`failures, path`spoiled, path`idle
      ensures Valid() && outcome in {Ok, ConversionFailed, RowTooWide, StreamRejected, ResetFailed}
      ensures Told(outcome, old(path.failures), path.failures)
      ensures old(path.idle) == 0 ==> (outcome == RowTooWide <==> path.idle > MAX_STREAMS_WITHOUT_PROGRESS)
      ensures outcome == Ok ==>
          && path.spoiled == old(path.spoiled) && (path.idle == 0 || path.idle == old(path.idle))
          && Rows() == old(Rows()) + rows && !done
      ensures Partly(old(Rows()), rows, Rows())
    {
      hide Valid, Uncounted, Partly, Rows;
      var rowoff := 0;
      var withoutProgress := 0;
      assert rows[..0] == [];
      while rowoff < |rows|
        invariant Valid() && !done && rowoff <= |rows| && withoutProgress <= MAX_STREAMS_WITHOUT_PROGRESS
        invariant Rows() == old(Rows()) + rows[..rowoff] && path.spoiled == old(path.spoiled)
        invariant path.failures == old(path.failures)
        invariant path.idle == withoutProgress + if rowoff == 0 then old(path.idle) else 0
        invariant rowoff == |rows| ==> withoutProgress == 0
        decreases |rows| - rowoff, MAX_STREAMS_WITHOUT_PROGRESS - withoutProgress
      {
        PartlyAt(old(Rows()), rows, rowoff);
        var conversion := Convert(rows[rowoff..], |rows| - rowoff);
        match conversion
        case Success =>
          CountRows(|rows| - rowoff, rows[rowoff..]);
          Further(old(Rows()), rows, rowoff, |rows|);
          assert rows[rowoff..][..|rows| - rowoff] == rows[rowoff..];
          rowoff := |rows|;
          break;
        case Error =>
          return ConversionFailed;
        case Continue(converted) =>
          withoutProgress := if converted == 0 then withoutProgress + 1 else 0;
          if withoutProgress > MAX_STREAMS_WITHOUT_PROGRESS {
            NoneUncounted();
            return RowTooWide;
          }
          outcome := CountAndLoad(converted, rows[rowoff..][..converted]);
          Further(old(Rows()), rows, rowoff, rowoff + converted);
          rowoff := rowoff + converted;
          PartlyAt(old(Rows()), rows, rowoff);
          if outcome != Ok {
            return;
          }
      }
      assert rows[..rowoff] == rows;
      PartlyAt(old(Rows()), rows, rowoff);
      return Ok;
    }

    /** Converts the rows of the column array and sends them, or leaves the last of them in the stream. */
    method ConvertAndLoad(rows: seq<BatchRow>) returns (outcome: Outcome)
      requires Valid() && !done && |rows| <= columnArrayRows
      modifies this`streamPending, this`rowsInStream, this`rowsLoaded, this`given
      modifies path`stream, path`accepted, path`failures, path`spoiled, path`idle
      ensures Valid() && outcome in {Ok, ConversionFailed, RowTooWide, StreamRejected, ResetFailed}
      ensures Told(outcome, old(path.failures), path.failures)
      ensures old(path.idle) == 0 ==> (outcome == RowTooWide <==> path.idle > MAX_STREAMS_WITHOUT_PROGRESS)
      ensures outcome == Ok ==>
          && path.spoiled == old(path.spoiled) && (path.idle == 0 || path.idle == old(path.idle))
          && Rows() == old(Rows()) + rows
          && (!accumulateStream ==> rowsInStream == 0)
      ensures Partly(old(Rows()), rows, Rows())
    {
      hide Partly;
      outcome := ConvertRows(rows);
      if outcome != Ok {
        return;
      }
      if !accumulateStream {
        outcome := LoadStream();
        return;
      }
      return Ok;
    }

    /** Frees the handles; aborts first what has not been finished, if asked to. */
    method Release(abort: bool)
      requires columnArrayRows > 0 && rowsLoaded + rowsInStream == |given|
      requires !path.spoiled ==> path.accepted + path.stream == given && rowsInStream == |path.stream|
      requires !streamPending ==> rowsInStream == 0
      requires done && ctx ==>
          && path.finishes == 1 && path.aborts == 0 && !abort
          && path.committed == path.accepted && (!path.spoiled ==> path.stream == [])
      requires !done ==> ctx && path.finishes == 0 && path.aborts == 0 && path.committed == [] && abort
      requires done && !ctx ==> Valid()
      modifies this`ctx, this`columnArray, this`stream, this`done, path`aborts
      ensures Valid() && done
      ensures path.aborts == old(path.aborts) + if abort && old(ctx) && !old(done) then 1 else 0
    {
      if abort && ctx && !done {
        path.Abort();
      }
      done := true;
      columnArray := false;
      stream := false;
      ctx := false;
    }

    /** Sends the rest and commits what Oracle has accepted: every row once, if every stream could be reset. It succeeds
        exactly if no call was answered with an error. */
    method Finish() returns (outcome: Outcome)
      requires Valid()
      modifies this, path
      ensures Valid() && Rows() == old(Rows())
      ensures old(done) ==> outcome == AlreadyFinished && unchanged(this) && unchanged(path)
      ensures !old(done) ==> outcome in {Ok, StreamRejected, ResetFailed, FinishFailed} && (done <==> outcome == Ok)
      ensures Told(outcome, old(path.failures), path.failures)
      ensures !old(done) ==> (outcome == Ok <==> path.failures == old(path.failures))
      ensures !old(done) ==>
          path.aborts == 0 && if outcome == Ok then path.finishes == 1 else path.finishes == 0 && path.committed == []
      ensures !old(done) && outcome == Ok ==>
          && path.committed == path.accepted && path.spoiled == old(path.spoiled)
          && (!path.spoiled ==> path.committed == Rows())
    {
      if done {
        return AlreadyFinished;
      }
      outcome := LoadStream();
      if outcome != Ok {
        return;
      }
      var rc := path.Finish();
      if Throws(rc) {
        return FinishFailed;
      }
      done := true;
      Release(false);
      return Ok;
    }

    /** Abort, and the destructor: whatever happened before, the load has then been either finished or aborted,
        and that once. */
    method Abort()
      requires Valid()
      modifies this`ctx, this`columnArray, this`stream, this`done, path`aborts
      ensures Valid() && done && path.finishes + path.aborts == 1
      ensures path.finishes == 1 ==> path.aborts == 0
      ensures path.finishes == 0 ==> path.committed == []
    {
      Release(true);
    }
  }

  /** Rows of a chunk, loaded in pieces of at most the column array's capacity. */
  method WriteChunk(loader: DirectPathLoader, chunk: seq<BatchRow>) returns (outcome: Outcome)
    requires loader.Valid() && !loader.done
    modifies loader`streamPending, loader`rowsInStream, loader`rowsLoaded, loader`given
    modifies loader.path`stream, loader.path`accepted, loader.path`failures, loader.path`spoiled, loader.path`idle
    ensures loader.Valid() && outcome in {Ok, ConversionFailed, RowTooWide, StreamRejected, ResetFailed}
    ensures Told(outcome, old(loader.path.failures), loader.path.failures)
    ensures old(loader.path.idle) == 0 ==> (outcome == RowTooWide <==> loader.path.idle > MAX_STREAMS_WITHOUT_PROGRESS)
    ensures outcome == Ok ==>
        && loader.Rows() == old(loader.Rows()) + chunk && loader.path.spoiled == old(loader.path.spoiled)
        && (loader.path.idle == 0 || loader.path.idle == old(loader.path.idle))
    ensures Partly(old(loader.Rows()), chunk, loader.Rows())
  {
    hide Partly;
    var offset := 0;
    var capacity := loader.columnArrayRows;
    assert chunk[..0] == [];
    while offset < |chunk|
      invariant loader.Valid() && !loader.done && offset <= |chunk|
      invariant loader.Rows() == old(loader.Rows()) + chunk[..offset]
      invariant loader.path.spoiled == old(loader.path.spoiled) && loader.path.failures == old(loader.path.failures)
      invariant loader.path.idle == 0 || loader.path.idle == old(loader.path.idle)
    {
      var n := if capacity < |chunk| - offset then capacity else |chunk| - offset;
      outcome := loader.ConvertAndLoad(chunk[offset..offset + n]);
      PartlyLater(old(loader.Rows()), chunk, offset, n, loader.Rows());
      if outcome != Ok {
        return;
      }
      PieceAdded(old(loader.Rows()), chunk, offset, n);
      offset := offset + n;
    }
    assert chunk[..offset] == chunk;
    PartlyAt(old(loader.Rows()), chunk, offset);
    return Ok;
  }
}
