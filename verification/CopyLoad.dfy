/** A whole parallel load: a run of the session pool in which every session is a direct path loader, and the end of
    the load. Which thread goes on, how many rows it loads and what fails are not known. */
module CopyLoad {
  import opened Loader
  import opened NumberReading
  import opened WriterPool
  import opened CopyFinalize

  ghost predicate AllOpen(loaders: seq<DirectPathLoader>)
    reads loaders, Paths(loaders)
  {
    Apart(loaders) && forall w <- loaders :: Open(w)
  }

  /** The loaders have the rows that the pool has given to their sessions. */
  ghost predicate Matches(loaders: seq<DirectPathLoader>, writers: seq<seq<BatchRow>>)
    reads loaders
  {
    |loaders| == |writers| && forall i :: 0 <= i < |loaders| ==> loaders[i].Rows() == writers[i]
  }

  ghost predicate AnyFailed(threads: seq<Pc>) {
    exists t :: 0 <= t < |threads| && threads[t].Failed?
  }

  /** Oracle has answered no call with an error, and the streams were clean. */
  ghost predicate Clean(loader: DirectPathLoader)
    reads loader.path
  {
    !loader.path.spoiled && loader.path.failures == [] && loader.path.idle == 0
  }

  /** As long as no batch has failed, every call has succeeded and every stream sent has been reset. */
  ghost predicate CleanUnlessFailed(loaders: seq<DirectPathLoader>, threads: seq<Pc>)
    reads Paths(loaders)
  {
    AnyFailed(threads) || forall i :: 0 <= i < |loaders| ==> Clean(loaders[i])
  }

  lemma PartOfBatch(batches: Batches, b: nat, pos: nat, end: nat, n: nat)
    requires pos <= end && n <= end - pos
    ensures BatchRows(batches, b, pos, end)[..n] == BatchRows(batches, b, pos, pos + n)
  {}

  /** Loads some of the rows that a thread still has to load, on its session: what the session's loader has afterwards
      is what the pool's step says, also when loading fails after some rows. It fails exactly if OCI answers a call with
      an error, or converts no row into too many streams one after the other. */
  method LoadSome(batches: Batches, s: State, t: nat, loaders: seq<DirectPathLoader>) returns (c: Choice)
    requires t < |s.threads| && s.threads[t].Loading? && PcFits(batches, s.threads[t], |s.writers|)
    requires s.threads[t].pos < batches[s.threads[t].batch]
    requires AllOpen(loaders) && Matches(loaders, s.writers)
    modifies loaders, Paths(loaders)
    ensures CanStep(batches, s, t, c)
    ensures AllOpen(loaders) && Matches(loaders, After(batches, s, t, c).writers)
    ensures !c.fails ==> forall i :: 0 <= i < |loaders| && old(Clean(loaders[i])) ==> Clean(loaders[i])
    ensures var path := loaders[s.threads[t].writer].path;
            old(Clean(loaders[s.threads[t].writer])) ==>
              (c.fails <==> path.failures != [] || path.idle > MAX_STREAMS_WITHOUT_PROGRESS)
  {
    hide Sum, BatchRows, DirectPathLoader.Valid, DirectPathLoader.Rows;
    var Loading(b, w, pos) := s.threads[t];
    var end: nat :| pos < end <= batches[b];
    var rows := BatchRows(batches, b, pos, end);
    ghost var before := loaders[w].Rows();
    var outcome, count := LoadChunk(loaders[w], rows);
    PartOfBatch(batches, b, pos, end, count);
    c := Choice(outcome != Ok, count);
    assert loaders[w].Rows() == s.writers[w] + BatchRows(batches, b, pos, pos + count);
  }

  /** A chunk, and how many of its rows the loader has taken. */
  method LoadChunk(loader: DirectPathLoader, chunk: seq<BatchRow>) returns (outcome: Outcome, count: nat)
    requires Open(loader)
    modifies loader, loader.path
    ensures Open(loader) && count <= |chunk| && loader.Rows() == old(loader.Rows()) + chunk[..count]
    ensures outcome == Ok ==> count == |chunk| && (old(Clean(loader)) ==> Clean(loader))
    ensures old(Clean(loader)) ==>
        (outcome == Ok <==> loader.path.failures == [] && loader.path.idle <= MAX_STREAMS_WITHOUT_PROGRESS)
  {
    var before := loader.rowsLoaded + loader.rowsInStream;
    outcome := WriteChunk(loader, chunk);
    count := loader.rowsLoaded + loader.rowsInStream - before;
    assert chunk[..|chunk|] == chunk;
  }

  /** One step of one thread, on the pool and on the loaders. */
  method Step(batches: Batches, s: State, t: nat, loaders: seq<DirectPathLoader>, capacity: nat, accumulate: bool)
      returns (c: Choice, more: seq<DirectPathLoader>)
    requires t < |s.threads| && PcFits(batches, s.threads[t], |s.writers|) && capacity > 0
    requires CanStep(batches, s, t, Choice(true, 0))
    requires AllOpen(loaders) && Matches(loaders, s.writers) && CleanUnlessFailed(loaders, s.threads)
    modifies loaders, Paths(loaders)
    ensures CanStep(batches, s, t, c)
    ensures loaders <= more && forall i :: |loaders| <= i < |more| ==> fresh(more[i]) && fresh(more[i].path)
    ensures AllOpen(more) && Matches(more, After(batches, s, t, c).writers)
    ensures CleanUnlessFailed(more, After(batches, s, t, c).threads)
  {
    hide Sum, BatchRows, DirectPathLoader.Valid, DirectPathLoader.Rows;
    var fails: bool := *;
    c, more := Choice(fails, 0), loaders;
    var pc := s.threads[t];
    if pc.Opened? {
      var loader := new DirectPathLoader(accumulate, capacity);
      more := loaders + [loader];
    } else if pc.Loading? && pc.pos < batches[pc.batch] {
      c := LoadSome(batches, s, t, loaders);
    } else if pc.Loading? {
      c := Choice(false, 0);
    }
    FailuresStay(batches, s, t, c);
  }

  /** A failed batch stays failed. */
  lemma FailuresStay(batches: Batches, s: State, t: nat, c: Choice)
    requires CanStep(batches, s, t, c) && PcFits(batches, s.threads[t], |s.writers|)
    ensures AnyFailed(s.threads) || (c.fails && After(batches, s, t, c).threads[t].Failed?)
        ==> AnyFailed(After(batches, s, t, c).threads)
    ensures s.threads[t].Loading? && c.fails ==> After(batches, s, t, c).threads[t].Failed?
  {
    hide Sum, BatchRows;
    var threads := After(batches, s, t, c).threads;
    if AnyFailed(s.threads) {
      var u :| 0 <= u < |s.threads| && s.threads[u].Failed?;
      assert threads[u].Failed?;
    }
    if threads[t].Failed? { assert AnyFailed(threads); }
  }

  /** A load under any scheduler, which ends with the commit of all sessions if every batch was prepared, and gives up
      otherwise. When it reports success every row of every batch is committed exactly once; when it gives up nothing
      is committed. */
  method Load(batches: Batches, threads: nat, capacity: nat, accumulate: bool)
      returns (result: Option<Result>, loaders: seq<DirectPathLoader>, ghost run: seq<State>)
    requires capacity > 0
    ensures |run| > 0 && IsRun(batches, run) && Matches(loaders, run[|run| - 1].writers)
    ensures result.Some? <==> Prepared(batches, run[|run| - 1])
    ensures result == None ==> forall w <- loaders :: Aborted(w)
    ensures result.Some? ==> forall w <- loaders :: Committed(w) || Aborted(w)
    ensures result.Some? && result.value.NothingLoaded? ==> forall w <- loaders :: Aborted(w)
    ensures result.Some? ==>
        (result.value.AllCommitted? <==> forall i :: 0 <= i < |loaders| ==> loaders[i].path.failures == [])
    ensures result == Some(AllCommitted) ==>
        forall r: BatchRow :: InWriters(CommittedRows(loaders), r) == InBatches(batches, r)
  {
    hide Sum, DirectPathLoader.Valid, DirectPathLoader.Rows, IsRun, PcFits, CanStep, After, InWriters;
    var s := State([], [], 0, seq(threads, _ => Free), 0, 0, 0);
    loaders, run := [], [s];
    OneState(batches, s);
    var steps: nat := *;
    while steps > 0
      invariant |run| > 0 && IsRun(batches, run) && run[|run| - 1] == s
      invariant AllOpen(loaders) && Matches(loaders, s.writers) && CleanUnlessFailed(loaders, s.threads)
      invariant forall i :: 0 <= i < |loaders| ==> fresh(loaders[i]) && fresh(loaders[i].path)
    {
      var t: nat := *;
      if CanStep(batches, s, t, Choice(true, 0)) {
        NextFits(batches, run, t);
        var c, more := Step(batches, s, t, loaders, capacity, accumulate);
        s, loaders := After(batches, s, t, c), more;
        OneStep(batches, run, t, c);
        run := run + [s];
      }
      steps := steps - 1;
    }
    if Prepared(batches, s) {
      NoneFailed(batches, s);
      var outcome, errors := Finalize(loaders);
      result := Some(outcome);
      if outcome == AllCommitted {
        forall r: BatchRow ensures InWriters(CommittedRows(loaders), r) == InBatches(batches, r) {
          LoadIsComplete(batches, run, |run| - 1, loaders, r);
        }
      }
    } else {
      NoneFinished(loaders);
      DestroyAll(loaders);
      result := None;
    }
  }

  lemma NoneFinished(loaders: seq<DirectPathLoader>)
    requires AllOpen(loaders)
    ensures forall i :: 0 <= i < |loaders| ==> loaders[i].path.finishes == 0
  {
    forall i | 0 <= i < |loaders| ensures loaders[i].path.finishes == 0 { assert Open(loaders[i]); }
  }

  lemma NoneFailed(batches: Batches, s: State)
    requires Prepared(batches, s)
    ensures !AnyFailed(s.threads)
  {}

  lemma OneState(batches: Batches, s: State)
    requires Init(s)
    ensures IsRun(batches, [s])
  {}

  lemma OneStep(batches: Batches, run: seq<State>, t: nat, c: Choice)
    requires |run| > 0 && IsRun(batches, run) && CanStep(batches, run[|run| - 1], t, c)
    ensures IsRun(batches, run + [After(batches, run[|run| - 1], t, c)])
  {
    hide CanStep, After, Init;
    var more := run + [After(batches, run[|run| - 1], t, c)];
    forall i | 0 <= i < |more| - 1 ensures WriterPool.Step(batches, more[i], more[i + 1]) {
      if i < |run| - 1 { assert WriterPool.Step(batches, run[i], run[i + 1]); }
    }
  }

  lemma NextFits(batches: Batches, run: seq<State>, t: nat)
    requires |run| > 0 && IsRun(batches, run) && CanStep(batches, run[|run| - 1], t, Choice(true, 0))
    ensures var s := run[|run| - 1];
            t < |s.threads| && PcFits(batches, s.threads[t], |s.writers|)
  {
    hide IsRun, PoolInv, SessionsInv, RowsInv, PcFits;
    RunInv(batches, run, |run| - 1);
  }
}
