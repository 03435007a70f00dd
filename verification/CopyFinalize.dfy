/** The end of a parallel load: every session is committed, and the result says whether all, none or some of
    them were. */
module CopyFinalize {
  import opened Loader
  import opened WriterPool

  datatype Result = AllCommitted | NothingLoaded(error: string) | Partial(committed: nat, failed: nat, error: string)

  /** The message of the exception behind an outcome; none for success. */
  function What(outcome: Outcome): string {
    match outcome
    case Ok => ""
    case ConversionFailed => "direct path conversion failed"
    case RowTooWide => "a row does not fit in the direct path stream buffer"
    case StreamRejected => "direct path stream rejected by Oracle"
    case ResetFailed => "OCIDirPathStreamReset"
    case FinishFailed => "OCIDirPathFinish"
    case AlreadyFinished => "direct path load already finished"
  }

  /** Every session has its own loader and its own load in Oracle. */
  ghost predicate Apart(writers: seq<DirectPathLoader>) {
    forall i, j :: 0 <= i < j < |writers| ==> writers[i] != writers[j] && writers[i].path != writers[j].path
  }

  ghost function Paths(writers: seq<DirectPathLoader>): (paths: set<DirectPath>)
    ensures forall i :: 0 <= i < |writers| ==> writers[i].path in paths
  {
    set w <- writers :: w.path
  }

  ghost predicate Open(writer: DirectPathLoader)
    reads writer, writer.path
  {
    writer.Valid() && !writer.done
  }

  /** The sessions that finished their load. */
  ghost predicate Finished(writer: DirectPathLoader)
    reads writer, writer.path
  {
    writer.Valid() && writer.path.finishes == 1 && writer.path.aborts == 0
  }

  /** The sessions that committed all that they were given, and that once. */
  ghost predicate Committed(writer: DirectPathLoader)
    reads writer, writer.path
  {
    Finished(writer) && !writer.path.spoiled && writer.path.committed == writer.Rows()
  }

  ghost predicate Aborted(writer: DirectPathLoader)
    reads writer, writer.path
  {
    writer.Valid() && writer.path.finishes == 0 && writer.path.aborts == 1 && writer.path.committed == []
  }

  function Failures(errors: seq<string>): nat {
    if errors == [] then 0 else Failures(errors[..|errors| - 1]) + if errors[|errors| - 1] != "" then 1 else 0
  }

  lemma {:induction false} FailuresBound(errors: seq<string>)
    ensures Failures(errors) <= |errors|
    ensures Failures(errors) == 0 <==> forall i :: 0 <= i < |errors| ==> errors[i] == ""
    ensures Failures(errors) == |errors| <==> forall i :: 0 <= i < |errors| ==> errors[i] != ""
  {
    if errors != [] { FailuresBound(errors[..|errors| - 1]); }
  }

  function Below(n: nat): (s: set<nat>)
    ensures forall i: nat :: i in s <==> i < n
  {
    if n == 0 then {} else Below(n - 1) + {n - 1}
  }

  /** What is known of a session before its end: what it was given, whether its streams were clean, the calls answered
      with an error, and what it has committed. */
  datatype Before = Before(
    rows: seq<BatchRow>,
    spoiled: bool,
    failures: seq<Call>,
    finishes: nat,
    committed: seq<BatchRow>)

  ghost function BeforeEnd(writer: DirectPathLoader): Before
    reads writer, writer.path
  {
    Before(writer.Rows(), writer.path.spoiled, writer.path.failures, writer.path.finishes, writer.path.committed)
  }

  /** A session that is still to be finished. */
  ghost predicate Waiting(writer: DirectPathLoader, before: Before)
    reads writer, writer.path
  {
    Open(writer) && BeforeEnd(writer) == before
  }

  /** What the thread of a session reports of it: no error exactly if no call was answered with one. */
  ghost predicate Reports(writer: DirectPathLoader, before: Before, error: string)
    reads writer, writer.path
  {
    && writer.Valid() && writer.Rows() == before.rows
    && (error == "" <==> writer.path.failures == before.failures)
    && (error == "" <==> writer.path.finishes == 1)
    && (error == "" ==> Finished(writer) && writer.path.spoiled == before.spoiled)
    && (error == "" && !before.spoiled ==> Committed(writer))
    && (error != "" ==> !writer.done)
  }

  method FinishOne(writer: DirectPathLoader, ghost before: Before) returns (error: string)
    requires Waiting(writer, before)
    modifies writer, writer.path
    ensures Reports(writer, before, error)
  {
    var outcome := writer.Finish();
    error := What(outcome);
  }

  /** Finishes every session, in any order: each one is touched only by its own thread. */
  method FinishAll(writers: seq<DirectPathLoader>) returns (errors: seq<string>)
    requires Apart(writers) && forall w <- writers :: Open(w)
    modifies writers, Paths(writers)
    ensures |errors| == |writers|
    ensures forall i :: 0 <= i < |writers| ==> Reports(writers[i], old(BeforeEnd(writers[i])), errors[i])
  {
    hide Apart, Reports, Waiting, Open, Paths, DirectPathLoader.Valid, DirectPathLoader.Rows, BeforeEnd;
    ghost var before := seq(|writers|, i requires 0 <= i < |writers| reads writers, Paths(writers) =>
                                         BeforeEnd(writers[i]));
    forall i | 0 <= i < |writers| ensures Waiting(writers[i], before[i]) { StartWaiting(writers[i]); }
    errors := seq(|writers|, _ => "");
    var left: set<nat> := Below(|writers|);
    while left != {}
      invariant |errors| == |writers|
      invariant forall i: nat :: i in left ==> i < |writers| && Waiting(writers[i], before[i])
      invariant forall i: nat :: i < |writers| && i !in left ==> Reports(writers[i], before[i], errors[i])
      decreases |left|
    {
      var i: nat :| i in left;
      ApartFrom(writers, i);
      var error := FinishOne(writers[i], before[i]);
      errors := errors[i := error];
      left := left - {i};
    }
  }

  lemma ApartFrom(writers: seq<DirectPathLoader>, i: nat)
    requires Apart(writers) && i < |writers|
    ensures forall k :: 0 <= k < |writers| && k != i ==>
              writers[k] != writers[i] && writers[k].path != writers[i].path
  {}

  lemma StartWaiting(writer: DirectPathLoader)
    requires Open(writer)
    ensures Waiting(writer, BeforeEnd(writer))
  {}

  /** What is left of a session: finished if it was before, otherwise aborted. */
  ghost predicate Destroyed(writer: DirectPathLoader, before: Before)
    reads writer, writer.path
  {
    && writer.Valid() && BeforeEnd(writer) == before
    && if before.finishes == 1 then Finished(writer) else Aborted(writer)
  }

  /** Destroys every session: those that did not finish are aborted. */
  method DestroyAll(writers: seq<DirectPathLoader>)
    requires Apart(writers) && forall w <- writers :: w.Valid()
    modifies writers, Paths(writers)
    ensures forall i :: 0 <= i < |writers| ==> Destroyed(writers[i], old(BeforeEnd(writers[i])))
  {
    hide Apart, Paths, Destroyed, DirectPathLoader.Valid, DirectPathLoader.Rows, BeforeEnd;
    ghost var before := seq(|writers|, i requires 0 <= i < |writers| reads writers, Paths(writers) =>
                                         BeforeEnd(writers[i]));
    var i := 0;
    while i < |writers|
      invariant 0 <= i <= |writers|
      invariant forall k :: 0 <= k < i ==> Destroyed(writers[k], before[k])
      invariant forall k :: i <= k < |writers| ==> writers[k].Valid() && BeforeEnd(writers[k]) == before[k]
    {
      ApartFrom(writers, i);
      DestroyOne(writers[i]);
      i := i + 1;
    }
  }

  method DestroyOne(writer: DirectPathLoader)
    requires writer.Valid()
    modifies writer, writer.path
    ensures Destroyed(writer, old(BeforeEnd(writer)))
  {
    writer.Abort();
  }

  lemma ReportsValid(writer: DirectPathLoader, before: Before, error: string)
    requires Reports(writer, before, error)
    ensures writer.Valid() && Reported(before, BeforeEnd(writer), error)
  {}

  /** A session after the end of the load. One that was clean before and is not any more could not reset its last
      stream, and is aborted. */
  ghost predicate Final(writer: DirectPathLoader, before: Before, error: string)
    reads writer, writer.path
  {
    && writer.Rows() == before.rows
    && (error == "" <==> writer.path.failures == before.failures)
    && (if error == "" then Finished(writer) && !Aborted(writer) else Aborted(writer) && !Finished(writer))
    && (error == "" ==> writer.path.spoiled == before.spoiled)
    && (error == "" && !before.spoiled ==> Committed(writer))
  }

  lemma Ends(writer: DirectPathLoader, before: Before, reported: Before, error: string)
    requires Destroyed(writer, reported) && Reported(before, reported, error)
    ensures Final(writer, before, error)
  {}

  /** How a session stands after its report. */
  predicate Reported(before: Before, reported: Before, error: string) {
    && reported.rows == before.rows
    && (error == "" <==> reported.failures == before.failures)
    && (error == "" <==> reported.finishes == 1)
    && (error == "" ==> reported.spoiled == before.spoiled)
    && (error == "" && !before.spoiled ==> reported.committed == before.rows)
  }

  /** The first error reported. */
  ghost predicate FirstError(errors: seq<string>, error: string) {
    exists i :: 0 <= i < |errors| && error == errors[i] != "" && forall k :: 0 <= k < i ==> errors[k] == ""
  }

  /** The result of a load whose sessions reported these errors. */
  method Verdict(errors: seq<string>) returns (result: Result)
    ensures result.AllCommitted? <==> Failures(errors) == 0
    ensures result.NothingLoaded? <==> Failures(errors) == |errors| > 0
    ensures result.Partial? ==> result.failed == Failures(errors) && result.committed == |errors| - Failures(errors)
    ensures !result.AllCommitted? ==> FirstError(errors, result.error)
  {
    var failed := 0;
    var firstError := "";
    var i := 0;
    while i < |errors|
      invariant 0 <= i <= |errors| && failed == Failures(errors[..i])
      invariant failed == 0 ==> forall k :: 0 <= k < i ==> errors[k] == ""
      invariant failed > 0 ==> FirstError(errors, firstError)
    {
      assert errors[..i + 1][..i] == errors[..i];
      if errors[i] != "" {
        if failed == 0 {
          firstError := errors[i];
        }
        failed := failed + 1;
      }
      i := i + 1;
    }
    assert errors[..i] == errors;
    FailuresBound(errors);
    if failed == 0 {
      return AllCommitted;
    }
    if failed == |errors| {
      return NothingLoaded(firstError);
    }
    return Partial(|errors| - failed, failed, firstError);
  }

  /** Commits the load. It ends normally exactly when every session has finished, which is when Oracle answered no call
      with an error, and a session whose streams had been reset has then committed every row it was given; it says that
      no data was loaded exactly when no session committed; otherwise it says how many did. */
  method Finalize(writers: seq<DirectPathLoader>) returns (result: Result, ghost errors: seq<string>)
    requires Apart(writers) && forall w <- writers :: Open(w)
    modifies writers, Paths(writers)
    ensures |errors| == |writers|
    ensures forall i :: 0 <= i < |writers| ==> Final(writers[i], old(BeforeEnd(writers[i])), errors[i])
    ensures result.AllCommitted? <==>
        forall i :: 0 <= i < |writers| ==> writers[i].path.failures == old(writers[i].path.failures)
    ensures result.AllCommitted? <==> forall i :: 0 <= i < |writers| ==> Finished(writers[i])
    ensures result.NothingLoaded? <==> writers != [] && forall i :: 0 <= i < |writers| ==> Aborted(writers[i])
    ensures result.Partial? ==> result.failed == Failures(errors) && result.committed == |writers| - result.failed
    ensures !result.AllCommitted? ==> FirstError(errors, result.error)
  {
    hide Apart, Paths, DirectPathLoader.Valid, DirectPathLoader.Rows, Reports, Reported, Destroyed, Finished, Aborted,
         Committed, Failures;
    var reports := FinishAll(writers);
    errors := reports;
    ghost var before := seq(|writers|, i requires 0 <= i < |writers| => old(BeforeEnd(writers[i])));
    ghost var reported := seq(|writers|, i requires 0 <= i < |writers| reads writers, Paths(writers) =>
                                           BeforeEnd(writers[i]));
    forall i | 0 <= i < |writers| ensures writers[i].Valid() && Reported(before[i], reported[i], errors[i]) {
      ReportsValid(writers[i], before[i], errors[i]);
    }
    DestroyAll(writers);
    forall i | 0 <= i < |writers| ensures Final(writers[i], before[i], errors[i]) {
      Ends(writers[i], before[i], reported[i], errors[i]);
    }
    result := Verdict(reports);
    FailuresBound(reports);
  }

  ghost function CommittedRows(writers: seq<DirectPathLoader>): seq<seq<BatchRow>>
    reads Paths(writers)
  {
    seq(|writers|, i requires 0 <= i < |writers| reads Paths(writers) => writers[i].path.committed)
  }

  /** A load whose batches were all prepared and whose end reported success has every row of every batch in the
      table exactly once. */
  lemma LoadIsComplete(batches: Batches, run: seq<State>, k: nat, writers: seq<DirectPathLoader>, r: BatchRow)
    requires IsRun(batches, run) && k < |run| && Prepared(batches, run[k])
    requires |writers| == |run[k].writers|
    requires forall i :: 0 <= i < |writers| ==> Committed(writers[i]) && writers[i].Rows() == run[k].writers[i]
    ensures InWriters(CommittedRows(writers), r) == InBatches(batches, r)
  {
    hide IsRun, InWriters, Prepared;
    PreparedRows(batches, run, k, r);
    assert CommittedRows(writers) == run[k].writers;
  }
}
