/** A parallel load: threads prepare batches, each on a session borrowed from a shared pool, and all sessions are
    committed together at the end. Every access to the pool under its lock is one step. */
module WriterPool {
  import opened Loader

  /** How many rows each batch has. */
  type Batches = seq<nat>

  function BatchRows(batches: Batches, b: nat, first: nat, end: nat): (rows: seq<BatchRow>)
    requires first <= end
    ensures |rows| == end - first
  {
    seq(end - first, i requires 0 <= i < end - first => BatchRow(b, first + i))
  }

  /** What a thread is doing: nothing; with a batch: looking for an idle session, logging in, adding the new
      session to the pool, loading rows from `pos` on, giving the session back; or it has failed, with the rows
      from `pos` on not loaded. */
  datatype Pc =
    | Free
    | Acquiring(batch: nat)
    | Opening(batch: nat)
    | Opened(batch: nat)
    | Loading(batch: nat, writer: nat, pos: nat)
    | Releasing(writer: nat)
    | Failed(batch: nat, pos: nat)

  /** writers: the rows each session was given. peak: the most batches ever in progress at once. failed and lost:
      batches that failed, and sessions lost with one. */
  datatype State = State(
    writers: seq<seq<BatchRow>>,
    idle: seq<nat>,
    nextBatch: nat,
    threads: seq<Pc>,
    peak: nat,
    failed: nat,
    lost: nat)

  predicate Init(s: State) {
    && s.writers == [] && s.idle == [] && s.nextBatch == 0 && s.peak == 0 && s.failed == 0 && s.lost == 0
    && forall t :: 0 <= t < |s.threads| ==> s.threads[t] == Free
  }

  /** What the environment decides: whether a login or a load fails, and how many rows are loaded. */
  datatype Choice = Choice(fails: bool, rows: nat)

  predicate CanStep(batches: Batches, s: State, t: nat, c: Choice) {
    t < |s.threads| &&
    match s.threads[t]
    case Free => s.nextBatch < |batches|
    case Loading(b, _, pos) =>
      b < |batches| && pos + c.rows <= batches[b] && (c.fails || pos == batches[b] || c.rows > 0)
    case Failed(_, _) => false
    case _ => true
  }

  function InProgress(pc: Pc): nat {
    if pc.Free? || pc.Failed? then 0 else 1
  }

  function Holding(pc: Pc): nat {
    if pc.Loading? || pc.Releasing? then 1 else 0
  }

  function LoggingIn(pc: Pc): nat {
    if pc.Opening? || pc.Opened? then 1 else 0
  }

  function Sum(f: Pc -> nat, threads: seq<Pc>): nat {
    if threads == [] then 0 else Sum(f, threads[..|threads| - 1]) + f(threads[|threads| - 1])
  }

  function Max(a: nat, b: nat): nat {
    if a < b then b else a
  }

  function After(batches: Batches, s: State, t: nat, c: Choice): State
    requires CanStep(batches, s, t, c)
  {
    match s.threads[t]
    case Free =>
      var threads := s.threads[t := Acquiring(s.nextBatch)];
      s.(threads := threads, nextBatch := s.nextBatch + 1, peak := Max(s.peak, Sum(InProgress, threads)))
    case Acquiring(b) =>
      if s.idle == [] then s.(threads := s.threads[t := Opening(b)])
      else
        var last := |s.idle| - 1;
        s.(idle := s.idle[..last], threads := s.threads[t := Loading(b, s.idle[last], 0)])
    case Opening(b) =>
      if c.fails then s.(threads := s.threads[t := Failed(b, 0)], failed := s.failed + 1)
      else s.(threads := s.threads[t := Opened(b)])
    case Opened(b) =>
      s.(writers := s.writers + [[]], threads := s.threads[t := Loading(b, |s.writers|, 0)])
    case Loading(b, w, pos) =>
      if w >= |s.writers| then s else
      var end := pos + c.rows;
      var s' := s.(writers := s.writers[w := s.writers[w] + BatchRows(batches, b, pos, end)]);
      if c.fails then
        s'.(threads := s.threads[t := Failed(b, end)], failed := s.failed + 1, lost := s.lost + 1)
      else if pos == batches[b] then s.(threads := s.threads[t := Releasing(w)])
      else s'.(threads := s.threads[t := Loading(b, w, end)])
    case Releasing(w) => s.(idle := s.idle + [w], threads := s.threads[t := Free])
    case Failed(_, _) => s
  }

  // The pool

  predicate Holds(pc: Pc, w: nat) {
    (pc.Loading? || pc.Releasing?) && pc.writer == w
  }

  /** No session is with two threads, nor with a thread and idle; idle sessions are open and listed once. */
  ghost predicate PoolInv(s: State) {
    && (forall i :: 0 <= i < |s.idle| ==> s.idle[i] < |s.writers|)
    && (forall i, j :: 0 <= i < j < |s.idle| ==> s.idle[i] != s.idle[j])
    && (forall t :: 0 <= t < |s.threads| && Holding(s.threads[t]) == 1 ==>
          s.threads[t].writer < |s.writers| && s.threads[t].writer !in s.idle)
    && (forall t, u :: 0 <= t < u < |s.threads| && Holding(s.threads[t]) == 1 && Holding(s.threads[u]) == 1 ==>
          s.threads[t].writer != s.threads[u].writer)
  }

  /** Every session is idle, with a thread, or lost with a failed batch; no more were opened than batches were
      ever in progress at once, not counting failed ones. */
  ghost predicate SessionsInv(s: State) {
    && |s.writers| == |s.idle| + Sum(Holding, s.threads) + s.lost
    && s.lost <= s.failed
    && Sum(InProgress, s.threads) <= s.peak
    && |s.writers| + Sum(LoggingIn, s.threads) <= s.peak + s.failed
  }

  lemma {:induction false} SumAfterMove(f: Pc -> nat, threads: seq<Pc>, t: nat, pc: Pc)
    requires t < |threads|
    ensures Sum(f, threads[t := pc]) + f(threads[t]) == Sum(f, threads) + f(pc)
  {
    var n := |threads| - 1;
    if t == n {
      assert threads[t := pc][..n] == threads[..n];
    } else {
      SumAfterMove(f, threads[..n], t, pc);
      assert threads[t := pc][..n] == threads[..n][t := pc];
    }
  }

  /** Threads that hold a session, log in or look for one are all in progress. */
  lemma {:induction false} ProgressSplits(threads: seq<Pc>, t: nat)
    requires t < |threads| && threads[t].Acquiring?
    ensures Sum(Holding, threads) + Sum(LoggingIn, threads) + 1 <= Sum(InProgress, threads)
  {
    var n := |threads| - 1;
    if t < n { ProgressSplits(threads[..n], t); } else { ProgressAtLeast(threads[..n]); }
  }

  lemma {:induction false} ProgressAtLeast(threads: seq<Pc>)
    ensures Sum(Holding, threads) + Sum(LoggingIn, threads) <= Sum(InProgress, threads)
  {
    if threads != [] { ProgressAtLeast(threads[..|threads| - 1]); }
  }

  lemma {:induction false} NothingInProgress(f: Pc -> nat, threads: seq<Pc>)
    requires f(Free) == 0 && forall t :: 0 <= t < |threads| ==> threads[t] == Free
    ensures Sum(f, threads) == 0
  {
    if threads != [] { NothingInProgress(f, threads[..|threads| - 1]); }
  }

  lemma StepPool(batches: Batches, s: State, t: nat, c: Choice)
    requires CanStep(batches, s, t, c) && PoolInv(s)
    ensures PoolInv(After(batches, s, t, c))
  {
    hide Sum, BatchRows;
    var pc := s.threads[t];
    if pc.Acquiring? && s.idle != [] {
      TakeIdle(s, t, pc.batch);
    } else if pc.Releasing? {
      GiveBack(s, t);
    }
  }

  lemma TakeIdle(s: State, t: nat, batch: nat)
    requires PoolInv(s) && t < |s.threads| && s.idle != []
    ensures var last := |s.idle| - 1;
            PoolInv(s.(idle := s.idle[..last], threads := s.threads[t := Loading(batch, s.idle[last], 0)]))
  {}

  lemma GiveBack(s: State, t: nat)
    requires PoolInv(s) && t < |s.threads| && s.threads[t].Releasing?
    ensures PoolInv(s.(idle := s.idle + [s.threads[t].writer], threads := s.threads[t := Free]))
  {}

  lemma StepSessions(batches: Batches, s: State, t: nat, c: Choice)
    requires CanStep(batches, s, t, c) && PoolInv(s) && SessionsInv(s)
    ensures SessionsInv(After(batches, s, t, c))
  {
    hide Sum, BatchRows, PoolInv;
    var pc := After(batches, s, t, c).threads[t];
    SumAfterMove(Holding, s.threads, t, pc);
    SumAfterMove(LoggingIn, s.threads, t, pc);
    SumAfterMove(InProgress, s.threads, t, pc);
    if s.threads[t].Acquiring? { ProgressSplits(s.threads, t); }
  }

  // The rows

  function Times(rows: seq<BatchRow>, r: BatchRow): nat {
    multiset(rows)[r]
  }

  function InBatches(batches: Batches, r: BatchRow): nat {
    if r.batch < |batches| && r.index < batches[r.batch] then 1 else 0
  }

  /** 1 for the rows of batches from `batch` on. */
  function Waiting(batches: Batches, batch: nat, r: BatchRow): nat {
    if batch <= r.batch then InBatches(batches, r) else 0
  }

  /** 1 for the rows of a thread's batch that it has not loaded. */
  function ToLoad(batches: Batches, pc: Pc, r: BatchRow): nat {
    match pc
    case Free => 0
    case Releasing(_) => 0
    case Loading(b, _, pos) => if r.batch == b && r.index >= pos then InBatches(batches, r) else 0
    case Failed(b, pos) => if r.batch == b && r.index >= pos then InBatches(batches, r) else 0
    case Acquiring(b) => if r.batch == b then InBatches(batches, r) else 0
    case Opening(b) => if r.batch == b then InBatches(batches, r) else 0
    case Opened(b) => if r.batch == b then InBatches(batches, r) else 0
  }

  function InWriters(writers: seq<seq<BatchRow>>, r: BatchRow): nat {
    if writers == [] then 0 else InWriters(writers[..|writers| - 1], r) + Times(writers[|writers| - 1], r)
  }

  function LeftToLoad(batches: Batches, threads: seq<Pc>, r: BatchRow): nat {
    if threads == [] then 0
    else LeftToLoad(batches, threads[..|threads| - 1], r) + ToLoad(batches, threads[|threads| - 1], r)
  }

  predicate PcFits(batches: Batches, pc: Pc, sessions: nat) {
    match pc
    case Loading(b, w, pos) => b < |batches| && pos <= batches[b] && w < sessions
    case Acquiring(b) => b < |batches|
    case Opening(b) => b < |batches|
    case Opened(b) => b < |batches|
    case _ => true
  }

  ghost predicate PcsFit(batches: Batches, s: State) {
    forall t :: 0 <= t < |s.threads| ==> PcFits(batches, s.threads[t], |s.writers|)
  }

  /** Every row of every batch is in one session once, or still to be loaded. */
  ghost predicate RowsInv(batches: Batches, s: State) {
    forall r: BatchRow :: InWriters(s.writers, r) + LeftToLoad(batches, s.threads, r) + Waiting(batches, s.nextBatch, r)
                  == InBatches(batches, r)
  }

  lemma {:induction false} LeftAfterMove(batches: Batches, threads: seq<Pc>, t: nat, pc: Pc, r: BatchRow)
    requires t < |threads|
    ensures LeftToLoad(batches, threads[t := pc], r) + ToLoad(batches, threads[t], r)
         == LeftToLoad(batches, threads, r) + ToLoad(batches, pc, r)
  {
    hide ToLoad;
    var n := |threads| - 1;
    if t == n {
      assert threads[t := pc][..n] == threads[..n];
    } else {
      LeftAfterMove(batches, threads[..n], t, pc, r);
      assert threads[t := pc][..n] == threads[..n][t := pc];
    }
  }

  lemma {:induction false} InWritersAfter(writers: seq<seq<BatchRow>>, w: nat, more: seq<BatchRow>, r: BatchRow)
    requires w < |writers|
    ensures InWriters(writers[w := writers[w] + more], r) == InWriters(writers, r) + Times(more, r)
  {
    hide Times;
    var n := |writers| - 1;
    TimesSplit(writers[w], more, r);
    if w == n {
      assert writers[w := writers[w] + more][..n] == writers[..n];
    } else {
      InWritersAfter(writers[..n], w, more, r);
      assert writers[w := writers[w] + more][..n] == writers[..n][w := writers[w] + more];
    }
  }

  lemma TimesSplit(s: seq<BatchRow>, t: seq<BatchRow>, r: BatchRow)
    ensures Times(s + t, r) == Times(s, r) + Times(t, r)
  {}

  lemma InNewWriter(writers: seq<seq<BatchRow>>, r: BatchRow)
    ensures InWriters(writers + [[]], r) == InWriters(writers, r)
  {
    assert (writers + [[]])[..|writers|] == writers;
    assert Times([], r) == 0;
  }

  lemma {:induction false} BatchRowsOnce(batches: Batches, b: nat, first: nat, end: nat, r: BatchRow)
    requires first <= end
    ensures Times(BatchRows(batches, b, first, end), r) == if r.batch == b && first <= r.index < end then 1 else 0
    decreases end
  {
    var rows := BatchRows(batches, b, first, end);
    if first < end {
      BatchRowsOnce(batches, b, first, end - 1, r);
      assert rows == BatchRows(batches, b, first, end - 1) + [rows[end - 1 - first]];
    }
  }

  /** Rows loaded by one step leave the thread and enter its session. */
  lemma LoadRows(batches: Batches, b: nat, pos: nat, end: nat, r: BatchRow)
    requires b < |batches| && pos <= end <= batches[b]
    ensures Times(BatchRows(batches, b, pos, end), r)
          + (if r.batch == b && r.index >= end then InBatches(batches, r) else 0)
         == if r.batch == b && r.index >= pos then InBatches(batches, r) else 0
  {
    BatchRowsOnce(batches, b, pos, end, r);
  }

  lemma StepPcs(batches: Batches, s: State, t: nat, c: Choice)
    requires CanStep(batches, s, t, c) && PcsFit(batches, s) && PoolInv(s)
    ensures PcsFit(batches, After(batches, s, t, c))
  {
    hide Sum, BatchRows;
  }

  lemma StepRow(batches: Batches, s: State, t: nat, c: Choice, r: BatchRow)
    requires CanStep(batches, s, t, c) && PcFits(batches, s.threads[t], |s.writers|)
    ensures (var s' := After(batches, s, t, c);
             InWriters(s'.writers, r) + LeftToLoad(batches, s'.threads, r) + Waiting(batches, s'.nextBatch, r))
         == InWriters(s.writers, r) + LeftToLoad(batches, s.threads, r) + Waiting(batches, s.nextBatch, r)
  {
    hide Sum, BatchRows, InWriters, LeftToLoad, Times, InBatches;
    var pc := s.threads[t];
    LeftAfterMove(batches, s.threads, t, After(batches, s, t, c).threads[t], r);
    if pc.Opened? {
      InNewWriter(s.writers, r);
    } else if pc.Loading? {
      LoadRows(batches, pc.batch, pc.pos, pc.pos + c.rows, r);
      InWritersAfter(s.writers, pc.writer, BatchRows(batches, pc.batch, pc.pos, pc.pos + c.rows), r);
      if pc.pos == batches[pc.batch] { NothingBehind(batches, pc.batch, r); }
    }
  }

  lemma NothingBehind(batches: Batches, b: nat, r: BatchRow)
    requires b < |batches|
    ensures r.batch == b && r.index >= batches[b] ==> InBatches(batches, r) == 0
  {}

  lemma StepRows(batches: Batches, s: State, t: nat, c: Choice)
    requires CanStep(batches, s, t, c) && PcsFit(batches, s) && RowsInv(batches, s)
    ensures RowsInv(batches, After(batches, s, t, c))
  {
    hide Sum, BatchRows, InWriters, LeftToLoad, Waiting, InBatches, After;
    forall r: BatchRow
      ensures (var s' := After(batches, s, t, c);
               InWriters(s'.writers, r) + LeftToLoad(batches, s'.threads, r) + Waiting(batches, s'.nextBatch, r))
           == InBatches(batches, r)
    {
      StepRow(batches, s, t, c, r);
    }
  }

  // Whole runs

  ghost predicate Inv(batches: Batches, s: State) {
    PoolInv(s) && SessionsInv(s) && PcsFit(batches, s) && RowsInv(batches, s)
  }

  ghost predicate Step(batches: Batches, s: State, s': State) {
    exists t: nat, c: Choice :: CanStep(batches, s, t, c) && s' == After(batches, s, t, c)
  }

  ghost predicate IsRun(batches: Batches, run: seq<State>) {
    |run| > 0 && Init(run[0]) && forall i :: 0 <= i < |run| - 1 ==> Step(batches, run[i], run[i + 1])
  }

  lemma {:induction false} NothingLeft(batches: Batches, threads: seq<Pc>, r: BatchRow)
    requires forall t :: 0 <= t < |threads| ==> threads[t] == Free
    ensures LeftToLoad(batches, threads, r) == 0
  {
    if threads != [] { NothingLeft(batches, threads[..|threads| - 1], r); }
  }

  lemma InitInv(batches: Batches, s: State)
    requires Init(s)
    ensures Inv(batches, s)
  {
    hide Sum, LeftToLoad;
    NothingInProgress(Holding, s.threads);
    NothingInProgress(LoggingIn, s.threads);
    NothingInProgress(InProgress, s.threads);
    forall r: BatchRow
      ensures LeftToLoad(batches, s.threads, r) == 0
    {
      NothingLeft(batches, s.threads, r);
    }
  }

  /** What holds in every interleaving, whichever logins and loads fail. */
  lemma {:induction false} RunInv(batches: Batches, run: seq<State>, i: nat)
    requires IsRun(batches, run) && i < |run|
    ensures Inv(batches, run[i])
  {
    hide PoolInv, SessionsInv, PcsFit, RowsInv, Init, After, CanStep;
    if i == 0 {
      InitInv(batches, run[0]);
    } else {
      RunInv(batches, run, i - 1);
      var s, s' := run[i - 1], run[i];
      assert Step(batches, run[i - 1], run[i - 1 + 1]);
      var t: nat, c: Choice :| CanStep(batches, s, t, c) && s' == After(batches, s, t, c);
      StepPool(batches, s, t, c);
      StepSessions(batches, s, t, c);
      StepPcs(batches, s, t, c);
      StepRows(batches, s, t, c);
    }
  }

  /** No session is used by two threads at the same time. */
  lemma WritersNotShared(batches: Batches, run: seq<State>, i: nat, t: nat, u: nat)
    requires IsRun(batches, run) && i < |run| && t < u < |run[i].threads|
    requires Holding(run[i].threads[t]) == 1 && Holding(run[i].threads[u]) == 1
    ensures run[i].threads[t].writer != run[i].threads[u].writer
    ensures run[i].threads[t].writer !in run[i].idle
  {
    hide IsRun, SessionsInv, PcsFit, RowsInv;
    RunInv(batches, run, i);
  }

  /** A load opens at most as many sessions as batches were in progress at once, plus one per failed batch. */
  lemma SessionsBounded(batches: Batches, run: seq<State>, i: nat)
    requires IsRun(batches, run) && i < |run|
    ensures |run[i].writers| <= run[i].peak + run[i].failed
  {
    hide IsRun, PoolInv, PcsFit, RowsInv, Sum;
    RunInv(batches, run, i);
  }

  /** Every batch was prepared without an error. */
  predicate Prepared(batches: Batches, s: State) {
    s.nextBatch >= |batches| && forall t :: 0 <= t < |s.threads| ==> s.threads[t] == Free
  }

  /** When all batches have been prepared, every row of every batch has been given to exactly one session, once. */
  lemma PreparedRows(batches: Batches, run: seq<State>, i: nat, r: BatchRow)
    requires IsRun(batches, run) && i < |run| && Prepared(batches, run[i])
    ensures InWriters(run[i].writers, r) == InBatches(batches, r)
  {
    hide IsRun, PoolInv, SessionsInv, PcsFit, InWriters, LeftToLoad;
    RunInv(batches, run, i);
    NothingLeft(batches, run[i].threads, r);
  }
}
