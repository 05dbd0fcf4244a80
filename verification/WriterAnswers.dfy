/**
 What each call of the LoadJobsWriter decides the moment it holds the lock (write.go:318-459),
 told from the history of the run alone: whether a schema has been bound and whether a Close
 has gone before. Nothing else refuses a call.
 */
module WriterAnswers {
  import opened Wrappers
  import opened Values
  import opened Writer
  import opened WriterProtocol
  import opened WriterSafety

  /** A schema has been bound before step k. */
  predicate BoundBefore(steps: seq<Step>, k: nat)
    requires k <= |steps|
  {
    exists m | 0 <= m < k :: steps[m].Bind?
  }

  /** A Close has held the lock before step k. */
  predicate ClosedBefore(states: seq<State>, steps: seq<Step>, k: nat)
    requires k <= |steps| < |states|
  {
    exists m | 0 <= m < k ::
      steps[m].Enter? && steps[m].i < |states[m].calls| && states[m].calls[steps[m].i].op.CloseOp?
  }

  lemma BoundStep(s: State, step: Step)
    requires Enabled(s, step)
    ensures Next(s, step).w.bound <==> s.w.bound || step.Bind?
    ensures Next(s, step).w.closed
       <==> s.w.closed || (step.Enter? && step.i < |s.calls| && s.calls[step.i].op.CloseOp?)
    ensures Next(s, step).w.flushRows == s.w.flushRows
  {
  }

  /** The two flags say what has happened so far. */
  lemma FlagsAreHistory(states: seq<State>, steps: seq<Step>, k: nat)
    requires IsRun(states, steps) && k < |states|
    ensures states[k].w.bound <==> BoundBefore(steps, k)
    ensures states[k].w.closed <==> ClosedBefore(states, steps, k)
    ensures states[k].w.closed <==> states[k].closer.Some?
  {
    for j := 0 to k
      invariant states[j].w.bound <==> BoundBefore(steps, j)
      invariant states[j].w.closed <==> ClosedBefore(states, steps, j)
    {
      BoundStep(states[j], steps[j]);
    }
    RunKeeps(states, steps, k);
  }

  /** t is s with call i moved on to pc. */
  predicate Moved(s: State, t: State, i: nat, pc: Pc) {
    i < |s.calls| && t.calls == s.calls[i := Call(s.calls[i].op, pc)]
  }

  /** Call i has answered its caller, and nothing else has changed. */
  predicate OnlyAnswers(s: State, t: State, i: nat, outcome: Outcome) {
    Moved(s, t, i, Returned(outcome)) && t == s.(calls := t.calls)
  }

  /** A new job for call i to load, of these rows; nothing is kept from the loader. */
  predicate Detaches(s: State, t: State, i: nat, rows: seq<Row>, kind: Kind) {
    t.jobs == s.jobs + [Job(rows, i, kind, Waiting)] && t.handed == s.handed
  }

  predicate SameJobs(s: State, t: State) {
    t.jobs == s.jobs && t.handed == s.handed
  }

  /** The rows have become a job of their own: FlushRows is unset. */
  predicate LoadsItsOwn(s: State, t: State, i: nat, rows: seq<Row>) {
    Detaches(s, t, i, rows, DirectJob) && Moved(s, t, i, Holding(|s.jobs|, [])) && t.w == s.w
  }

  /** The rows are at the end of the buffer, and the call has answered. */
  predicate BuffersOnly(s: State, t: State, i: nat, rows: seq<Row>) {
    && SameJobs(s, t) && Moved(s, t, i, Returned(Outcome(|rows|, [], None)))
    && t.w == s.w.(buf := s.w.buf + rows)
  }

  /** The rows have filled the buffer, and all of it is the call's to load. */
  predicate TakesTheBuffer(s: State, t: State, i: nat, rows: seq<Row>) {
    && Detaches(s, t, i, s.w.buf + rows, ThresholdJob) && Moved(s, t, i, Holding(|s.jobs|, []))
    && t.w == s.w.(buf := [], wg := s.w.wg + 1)
  }

  /**
   WriteRows. Without rows it reports zero rows and no error. Otherwise it is refused when a
   Close has gone before, or else when no schema is bound, and accepts its rows in every other
   case, whatever the buffer holds; then they are loaded, buffered, or loaded with the buffer.
   */
  lemma WriteAnswered(states: seq<State>, steps: seq<Step>, k: nat, i: nat, rows: seq<Row>)
    requires IsRun(states, steps) && k < |steps| && steps[k] == Enter(i) && i < |states[k].calls|
    requires states[k].calls[i].op == WriteOp(rows)
    ensures
      var s, t := states[k], states[k + 1];
      if rows == [] then OnlyAnswers(s, t, i, Outcome(0, [], None))
      else if ClosedBefore(states, steps, k) then OnlyAnswers(s, t, i, Outcome(0, [], Some(WriterClosed)))
      else if !BoundBefore(steps, k) then OnlyAnswers(s, t, i, Outcome(0, [], Some(NoSchemaBound)))
      else
        && t.accepted == s.accepted + rows && t.closer == s.closer
        && (if s.w.flushRows == 0 then LoadsItsOwn(s, t, i, rows)
            else if |s.w.buf| + |rows| < s.w.flushRows then BuffersOnly(s, t, i, rows)
            else TakesTheBuffer(s, t, i, rows))
  {
    FlagsAreHistory(states, steps, k);
  }

  /** A WriteRows is accepted exactly when it has no rows, or a schema is bound and no Close has gone before. */
  lemma AcceptedExactlyWhen(states: seq<State>, steps: seq<Step>, k: nat, i: nat, rows: seq<Row>)
    requires IsRun(states, steps) && k < |steps| && steps[k] == Enter(i) && i < |states[k].calls|
    requires states[k].calls[i].op == WriteOp(rows)
    ensures states[k + 1].accepted == states[k].accepted + rows
       <==> rows == [] || (BoundBefore(steps, k) && !ClosedBefore(states, steps, k))
    ensures states[k + 1].accepted == states[k].accepted + rows || states[k + 1].accepted == states[k].accepted
  {
    WriteAnswered(states, steps, k, i, rows);
    assert rows != [] ==> |states[k].accepted + rows| != |states[k].accepted|;
    assert states[k].accepted + [] == states[k].accepted;
  }

  /**
   FlushRows is refused exactly when a Close has gone before. Otherwise it takes the whole
   buffer and every failure kept, and answers at once when there is nothing to load.
   */
  lemma FlushAnswered(states: seq<State>, steps: seq<Step>, k: nat, i: nat)
    requires IsRun(states, steps) && k < |steps| && steps[k] == Enter(i) && i < |states[k].calls|
    requires states[k].calls[i].op.FlushOp?
    ensures
      var s, t := states[k], states[k + 1];
      if ClosedBefore(states, steps, k) then OnlyAnswers(s, t, i, Outcome(0, [], Some(WriterClosed)))
      else
        && t.accepted == s.accepted && t.closer == s.closer
        && (if s.w.buf == [] then
              && SameJobs(s, t) && Moved(s, t, i, Returned(Outcome(0, s.w.pending, None)))
              && t.w == s.w.(pending := [])
            else
              && Detaches(s, t, i, s.w.buf, FlushJob) && Moved(s, t, i, Holding(|s.jobs|, s.w.pending))
              && t.w == s.w.(buf := [], pending := [], wg := s.w.wg + 1))
  {
    FlagsAreHistory(states, steps, k);
  }

  /**
   The first Close closes the writer, takes the whole buffer and goes on to wait; any later
   one returns without an error and changes nothing.
   */
  lemma CloseAnswered(states: seq<State>, steps: seq<Step>, k: nat, i: nat)
    requires IsRun(states, steps) && k < |steps| && steps[k] == Enter(i) && i < |states[k].calls|
    requires states[k].calls[i].op.CloseOp?
    ensures
      var s, t := states[k], states[k + 1];
      if ClosedBefore(states, steps, k) then OnlyAnswers(s, t, i, Outcome(0, [], None))
      else
        && t.accepted == s.accepted && t.closer == Some(i) && t.w == s.w.(closed := true, buf := [])
        && (if s.w.buf == [] then SameJobs(s, t) && Moved(s, t, i, AwaitJobs(None))
            else Detaches(s, t, i, s.w.buf, CloseJob) && Moved(s, t, i, AwaitJobs(Some(|s.jobs|))))
  {
    FlagsAreHistory(states, steps, k);
  }

  /** After the wait the Close takes every failure kept, and answers when it has no rows to load. */
  lemma CloseTakesPending(states: seq<State>, steps: seq<Step>, k: nat, i: nat)
    requires IsRun(states, steps) && k < |steps| && steps[k] == Take(i)
    ensures
      var s, t := states[k], states[k + 1];
      && i < |s.calls| && s.calls[i].pc.Drained? && t == s.(calls := t.calls, w := s.w.(pending := []))
      && Moved(s, t, i, match s.calls[i].pc.own
                        case None => Returned(Outcome(0, s.w.pending, None))
                        case Some(job) => Holding(job, s.w.pending))
  {
  }

  // ---- Over whole runs ----

  /** A call keeps its operation, and its answer once it has one. */
  lemma CallStays(s: State, step: Step, i: nat)
    requires Enabled(s, step) && i < |s.calls|
    ensures i < |Next(s, step).calls| && Next(s, step).calls[i].op == s.calls[i].op
    ensures s.calls[i].pc.Returned? ==> Next(s, step).calls[i] == s.calls[i]
    ensures !s.calls[i].pc.Start? ==> !Next(s, step).calls[i].pc.Start?
  {
  }

  /** Past its first section no call is refused any more. */
  lemma NotRefusedLater(s: State, step: Step, i: nat)
    requires Enabled(s, step) && i < |s.calls| && !s.calls[i].pc.Start? && !s.calls[i].pc.Returned?
    requires Next(s, step).calls[i].pc.Returned?
    ensures Next(s, step).calls[i].pc.outcome.refused.None?
  {
  }

  /** Call i held the lock for the first time at step k. */
  predicate EnteredAt(steps: seq<Step>, k: nat, i: nat) {
    k < |steps| && steps[k] == Enter(i)
  }

  /** What call i, entered at step k, is refused with. */
  function Refusal(states: seq<State>, steps: seq<Step>, k: nat, op: Op): Option<WriteError>
    requires k <= |steps| < |states|
  {
    if op.CloseOp? || op == WriteOp([]) then None
    else if ClosedBefore(states, steps, k) then Some(WriterClosed)
    else if op.WriteOp? && !BoundBefore(steps, k) then Some(NoSchemaBound)
    else None
  }

  lemma RefusedAtEntry(states: seq<State>, steps: seq<Step>, k: nat, i: nat)
    requires IsRun(states, steps) && EnteredAt(steps, k, i) && i < |states[k].calls|
    ensures
      var pc, refusal := states[k + 1].calls[i].pc, Refusal(states, steps, k, states[k].calls[i].op);
      && i < |states[k + 1].calls| && !pc.Start?
      && (if pc.Returned? then pc.outcome.refused == refusal else refusal.None?)
  {
    match states[k].calls[i].op
    case WriteOp(rows) => WriteAnswered(states, steps, k, i, rows);
    case FlushOp => FlushAnswered(states, steps, k, i);
    case CloseOp => CloseAnswered(states, steps, k, i);
  }

  /**
   A call that has returned was refused, and with what, exactly by what had happened when it
   held the lock: WriterClosed after a Close, NoSchemaBound before a schema, and nothing else.
   */
  lemma RefusedExactlyWhen(states: seq<State>, steps: seq<Step>, k: nat, m: nat, i: nat)
    requires IsRun(states, steps) && EnteredAt(steps, k, i) && k < m < |states| && i < |states[k].calls|
    ensures i < |states[m].calls| && states[m].calls[i].op == states[k].calls[i].op
    ensures states[m].calls[i].pc.Returned? ==>
              states[m].calls[i].pc.outcome.refused == Refusal(states, steps, k, states[k].calls[i].op)
  {
    RefusedAtEntry(states, steps, k, i);
    CallStays(states[k], steps[k], i);
    var refusal := Refusal(states, steps, k, states[k].calls[i].op);
    for j := k + 1 to m
      invariant i < |states[j].calls| && states[j].calls[i].op == states[k].calls[i].op && !states[j].calls[i].pc.Start?
      invariant if states[j].calls[i].pc.Returned? then states[j].calls[i].pc.outcome.refused == refusal else refusal.None?
    {
      CallStays(states[j], steps[j], i);
      if !states[j].calls[i].pc.Returned? && states[j + 1].calls[i].pc.Returned? {
        NotRefusedLater(states[j], steps[j], i);
      }
    }
  }
}
