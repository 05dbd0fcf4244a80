/**
 What the LoadJobsWriter protocol promises over whole runs: nothing is lost or loaded
 twice, every failure is told exactly once, Close does not race the submissions it waits
 for, and every call gets to return.
 */
module WriterSafety {
  import opened Arith
  import opened Wrappers
  import opened Values
  import opened Writer
  import opened WriterProtocol

  /** A run from an open, empty writer: steps[k] takes states[k] to states[k+1]. */
  predicate IsRun(states: seq<State>, steps: seq<Step>) {
    && |states| == |steps| + 1
    && Init(states[0])
    && forall k | 0 <= k < |steps| :: Enabled(states[k], steps[k]) && states[k + 1] == Next(states[k], steps[k])
  }

  lemma {:induction false} RunKeeps(states: seq<State>, steps: seq<Step>, k: nat)
    requires IsRun(states, steps) && k < |states|
    ensures Inv(states[k])
  {
    if k > 0 {
      RunKeeps(states, steps, k - 1);
      StepKeeps(states[k - 1], steps[k - 1]);
    }
  }

  // ---- Nothing lost, nothing loaded twice ----

  /** The rows of a WriteRows call that has been accepted. */
  function Taken(c: Call): seq<Row> {
    if c.op.WriteOp? && !c.pc.Start? && !(c.pc.Returned? && c.pc.outcome.refused.Some?) then c.op.rows else []
  }

  function TakenRows(calls: seq<Call>): multiset<Row> {
    if calls == [] then multiset{} else TakenRows(calls[..|calls|-1]) + multiset(Taken(calls[|calls|-1]))
  }

  lemma TakenLast(calls: seq<Call>)
    requires calls != []
    ensures TakenRows(calls) == TakenRows(calls[..|calls|-1]) + multiset(Taken(calls[|calls|-1]))
  {
  }

  lemma {:induction false} TakenUpdate(calls: seq<Call>, i: nat, c: Call)
    requires i < |calls|
    ensures TakenRows(calls[i := c]) + multiset(Taken(calls[i])) == TakenRows(calls) + multiset(Taken(c))
  {
    var n := |calls| - 1;
    var before, after := multiset(Taken(calls[i])), multiset(Taken(c));
    var updated := calls[i := c];
    TakenLast(calls);
    TakenLast(updated);
    if i == n {
      assert updated[..n] == calls[..n] && updated[n] == c;
    } else {
      assert updated[..n] == calls[..n][i := c] && updated[n] == calls[n];
      TakenUpdate(calls[..n], i, c);
      AddToBoth(TakenRows(updated[..n]), TakenRows(calls[..n]), before, after, multiset(Taken(calls[n])));
    }
  }

  lemma CancelBoth<T>(a: multiset<T>, b: multiset<T>, x: multiset<T>)
    requires a + x == b + x
    ensures a == b
  {
    forall e: T ensures a[e] == b[e] {
      assert (a + x)[e] == (b + x)[e];
    }
  }

  lemma TakenAppend(calls: seq<Call>, c: Call)
    ensures TakenRows(calls + [c]) == TakenRows(calls) + multiset(Taken(c))
  {
    assert (calls + [c])[..|calls|] == calls;
  }

  lemma MoveTakes(s: State, t: State, i: nat)
    requires i < |s.calls| == |t.calls| && t.calls == s.calls[i := t.calls[i]]
    requires TakenRows(s.calls) == multiset(s.accepted)
    requires || (Taken(s.calls[i]) == [] && t.accepted == s.accepted + Taken(t.calls[i]))
             || (Taken(t.calls[i]) == Taken(s.calls[i]) && t.accepted == s.accepted)
    ensures TakenRows(t.calls) == multiset(t.accepted)
  {
    TakenUpdate(s.calls, i, t.calls[i]);
    var before, after := multiset(Taken(s.calls[i])), multiset(Taken(t.calls[i]));
    if t.accepted == s.accepted && after == before {
      CancelBoth(TakenRows(t.calls), TakenRows(s.calls), before);
    } else {
      assert TakenRows(t.calls) + before == TakenRows(t.calls);
    }
  }

  lemma WriteTakes(s: State, i: nat, rows: seq<Row>)
    requires i < |s.calls| && s.calls[i].pc.Start? && s.calls[i].op == WriteOp(rows)
    requires TakenRows(s.calls) == multiset(s.accepted)
    ensures TakenRows(NextWrite(s, i, rows).calls) == multiset(NextWrite(s, i, rows).accepted)
  {
    var t := NextWrite(s, i, rows);
    MoveTakes(s, t, i);
  }

  lemma EnterTakes(s: State, i: nat)
    requires Enabled(s, Enter(i)) && TakenRows(s.calls) == multiset(s.accepted)
    ensures TakenRows(Next(s, Enter(i)).calls) == multiset(Next(s, Enter(i)).accepted)
  {
    match s.calls[i].op
    case WriteOp(rows) => WriteTakes(s, i, rows);
    case FlushOp => FlushTakes(s, i);
    case CloseOp => CloseTakes(s, i);
  }

  lemma FlushTakes(s: State, i: nat)
    requires i < |s.calls| && s.calls[i].pc.Start? && s.calls[i].op.FlushOp?
    requires TakenRows(s.calls) == multiset(s.accepted)
    ensures TakenRows(NextFlush(s, i).calls) == multiset(NextFlush(s, i).accepted)
  {
    MoveTakes(s, NextFlush(s, i), i);
  }

  lemma CloseTakes(s: State, i: nat)
    requires i < |s.calls| && s.calls[i].pc.Start? && s.calls[i].op.CloseOp?
    requires TakenRows(s.calls) == multiset(s.accepted)
    ensures TakenRows(NextClose(s, i).calls) == multiset(NextClose(s, i).accepted)
  {
    MoveTakes(s, NextClose(s, i), i);
  }

  lemma AdvanceTakes(s: State, step: Step)
    requires Enabled(s, step) && TakenRows(s.calls) == multiset(s.accepted)
    requires !step.Bind? && !step.Invoke? && !step.Enter?
    ensures TakenRows(Next(s, step).calls) == multiset(Next(s, step).accepted)
  {
    var t := Next(s, step);
    assert t.calls == s.calls[step.i := t.calls[step.i]] && t.accepted == s.accepted;
    MoveTakes(s, t, step.i);
  }

  /** A step accepts exactly the rows its call goes on to answer for. */
  lemma StepTakes(s: State, step: Step)
    requires Enabled(s, step) && TakenRows(s.calls) == multiset(s.accepted)
    ensures TakenRows(Next(s, step).calls) == multiset(Next(s, step).accepted)
  {
    match step
    case Bind =>
    case Invoke(op) => TakenAppend(s.calls, Call(op, Start));
    case Enter(i) => EnterTakes(s, i);
    case _ => AdvanceTakes(s, step);
  }

  lemma {:induction false} RunTakes(states: seq<State>, steps: seq<Step>, k: nat)
    requires IsRun(states, steps) && k < |states|
    ensures TakenRows(states[k].calls) == multiset(states[k].accepted)
  {
    if k > 0 {
      RunTakes(states, steps, k - 1);
      StepTakes(states[k - 1], steps[k - 1]);
    }
  }

  function RowsAnyFate(jobs: seq<Job>): multiset<Row> {
    multiset(RowsWith(Waiting, jobs)) + multiset(RowsWith(InFlight, jobs))
    + multiset(RowsWith(Landed, jobs)) + multiset(RowsWith(Lost, jobs))
  }

  lemma {:induction false} RowsByFate(jobs: seq<Job>)
    ensures multiset(JobRows(jobs)) == RowsAnyFate(jobs)
  {
    var n := |jobs| - 1;
    if jobs != [] {
      RowsByFate(jobs[..n]);
      forall fate: Fate
        ensures multiset(RowsWith(fate, jobs))
             == multiset(RowsWith(fate, jobs[..n])) + (if jobs[n].fate == fate then multiset(jobs[n].rows) else multiset{})
      {
      }
      assert RowsAnyFate(jobs) == RowsAnyFate(jobs[..n]) + multiset(jobs[n].rows);
    }
  }

  lemma {:induction false} RowCountsByFate(jobs: seq<Job>)
    ensures |JobRows(jobs)|
         == |RowsWith(Waiting, jobs)| + |RowsWith(InFlight, jobs)|
            + |RowsWith(Landed, jobs)| + |RowsWith(Lost, jobs)|
  {
    if jobs != [] {
      RowCountsByFate(jobs[..|jobs| - 1]);
    }
  }

  /**
   At every moment of every run: the batches in detach order followed by the buffer are the
   accepted rows in acceptance order; those are exactly the rows of the accepted WriteRows
   calls; each sits in one place; and no batch is handed to the loader twice.
   */
  lemma NothingLostOrRepeated(states: seq<State>, steps: seq<Step>, k: nat)
    requires IsRun(states, steps) && k < |states|
    ensures
      var s := states[k];
      && JobRows(s.jobs) + s.w.buf == s.accepted
      && multiset(s.accepted) == TakenRows(s.calls)
      && multiset(s.accepted) == RowsAnyFate(s.jobs) + multiset(s.w.buf)
      && (forall a, b | 0 <= a < b < |s.handed| :: s.handed[a] != s.handed[b])
      && (forall j | 0 <= j < |s.jobs| :: s.jobs[j].fate != Waiting <==> j in s.handed)
  {
    var s := states[k];
    RunKeeps(states, steps, k);
    RunTakes(states, steps, k);
    RowsByFate(s.jobs);
    assert multiset(s.accepted) == multiset(JobRows(s.jobs)) + multiset(s.w.buf);
    forall j | 0 <= j < |s.jobs| ensures s.jobs[j].fate != Waiting <==> j in s.handed {
      assert JobOk(s, j);
    }
  }

  // ---- Every failure told exactly once ----

  /** The Close that set closed has returned, and so has every other call. */
  predicate AllReturned(s: State) {
    s.closer.Some? && forall i | 0 <= i < |s.calls| :: s.calls[i].pc.Returned?
  }

  lemma {:induction false} NoneWith(fate: Fate, jobs: seq<Job>)
    requires forall j | 0 <= j < |jobs| :: jobs[j].fate != fate
    ensures RowsWith(fate, jobs) == []
  {
    if jobs != [] {
      NoneWith(fate, jobs[..|jobs| - 1]);
    }
  }

  lemma SettledIsDrained(s: State)
    requires Inv(s) && AllReturned(s)
    ensures s.w.pending == [] && s.w.buf == []
    ensures forall j | 0 <= j < |s.jobs| :: s.jobs[j].fate == Landed || s.jobs[j].fate == Lost
  {
    assert CallOk(s, s.closer.value);
    forall j | 0 <= j < |s.jobs| ensures s.jobs[j].fate == Landed || s.jobs[j].fate == Lost {
      assert JobOk(s, j);
    }
  }

  /** Accepted rows = landed rows + the rows of the jobs whose failures the calls returned. */
  lemma Accounting(states: seq<State>, steps: seq<Step>, k: nat)
    requires IsRun(states, steps) && k < |states| && AllReturned(states[k])
    ensures
      var s := states[k];
      && |s.accepted| == |RowsWith(Landed, s.jobs)| + RowsTold(s.calls)
      && TakenRows(s.calls) == multiset(RowsWith(Landed, s.jobs)) + multiset(RowsWith(Lost, s.jobs))
  {
    RunKeeps(states, steps, k);
    RunTakes(states, steps, k);
    SettledAccounts(states[k]);
  }

  lemma SettledAccounts(s: State)
    requires Inv(s) && AllReturned(s) && TakenRows(s.calls) == multiset(s.accepted)
    ensures |s.accepted| == |RowsWith(Landed, s.jobs)| + RowsTold(s.calls)
    ensures TakenRows(s.calls) == multiset(RowsWith(Landed, s.jobs)) + multiset(RowsWith(Lost, s.jobs))
  {
    SettledIsDrained(s);
    assert JobRows(s.jobs) + [] == s.accepted;
    SettledFates(s.jobs);
  }

  lemma SettledFates(jobs: seq<Job>)
    requires forall j | 0 <= j < |jobs| :: jobs[j].fate == Landed || jobs[j].fate == Lost
    ensures |JobRows(jobs)| == |RowsWith(Landed, jobs)| + |RowsWith(Lost, jobs)|
    ensures multiset(JobRows(jobs)) == multiset(RowsWith(Landed, jobs)) + multiset(RowsWith(Lost, jobs))
  {
    RowCountsByFate(jobs);
    RowsByFate(jobs);
    NoneWith(Waiting, jobs);
    NoneWith(InFlight, jobs);
  }

  lemma {:induction false} LostFailuresOnce(jobs: seq<Job>, j: nat, rows: nat)
    ensures LostFailures(jobs)[Failure(j, rows)]
         == if j < |jobs| && jobs[j].fate == Lost && rows == |jobs[j].rows| then 1 else 0
  {
    if jobs != [] {
      LostFailuresOnce(jobs[..|jobs| - 1], j, rows);
    }
  }

  lemma {:induction false} HeldSomewhere(calls: seq<Call>, i: nat, f: Failure)
    requires i < |calls|
    ensures Held(calls)[f] >= multiset(Carried(calls[i].pc))[f]
  {
    if i < |calls| - 1 {
      HeldSomewhere(calls[..|calls| - 1], i, f);
    }
  }

  lemma {:induction false} HeldByOne(calls: seq<Call>, f: Failure) returns (i: nat)
    requires Held(calls)[f] == 1
    ensures i < |calls| && multiset(Carried(calls[i].pc))[f] == 1
    ensures forall k | 0 <= k < |calls| && k != i :: f !in Carried(calls[k].pc)
  {
    var n := |calls| - 1;
    if f in Carried(calls[n].pc) {
      i := n;
      forall k | 0 <= k < n ensures f !in Carried(calls[k].pc) {
        HeldSomewhere(calls[..n], k, f);
      }
    } else {
      i := HeldByOne(calls[..n], f);
    }
  }

  /**
   Once everything has returned, the failure of a lost job was told by exactly one call,
   exactly once: a threshold submission's by a FlushRows or a Close, any other by the call
   that made it.
   */
  lemma ToldExactlyOnce(states: seq<State>, steps: seq<Step>, k: nat, j: nat) returns (i: nat)
    requires IsRun(states, steps) && k < |states| && AllReturned(states[k])
    requires j < |states[k].jobs| && states[k].jobs[j].fate == Lost
    ensures
      var s := states[k];
      var f := FailureOf(s, j);
      && i < |s.calls|
      && multiset(s.calls[i].pc.outcome.failures)[f] == 1
      && (forall m | 0 <= m < |s.calls| && m != i :: f !in s.calls[m].pc.outcome.failures)
      && (if s.jobs[j].kind == ThresholdJob then !s.calls[i].op.WriteOp? else i == s.jobs[j].owner)
  {
    RunKeeps(states, steps, k);
    i := SettledTells(states[k], j);
    RightlyTold(states[k], i, j);
  }

  /** With nothing pending the calls carry exactly the failures of the lost jobs. */
  lemma SettledHolds(s: State)
    requires Inv(s) && AllReturned(s)
    ensures Held(s.calls) == LostFailures(s.jobs)
  {
    SettledIsDrained(s);
    assert multiset(s.w.pending) == multiset{};
  }

  lemma SettledTells(s: State, j: nat) returns (i: nat)
    requires Inv(s) && AllReturned(s) && j < |s.jobs| && s.jobs[j].fate == Lost
    ensures i < |s.calls| && multiset(s.calls[i].pc.outcome.failures)[FailureOf(s, j)] == 1
    ensures forall m | 0 <= m < |s.calls| && m != i :: FailureOf(s, j) !in s.calls[m].pc.outcome.failures
  {
    SettledHolds(s);
    LostFailuresOnce(s.jobs, j, |s.jobs[j].rows|);
    i := ToldByOne(s.calls, FailureOf(s, j));
  }

  lemma ToldByOne(calls: seq<Call>, f: Failure) returns (i: nat)
    requires Held(calls)[f] == 1 && forall m | 0 <= m < |calls| :: calls[m].pc.Returned?
    ensures i < |calls| && multiset(calls[i].pc.outcome.failures)[f] == 1
    ensures forall m | 0 <= m < |calls| && m != i :: f !in calls[m].pc.outcome.failures
  {
    i := HeldByOne(calls, f);
    forall m | 0 <= m < |calls| ensures calls[m].pc.outcome.failures == Carried(calls[m].pc) {
    }
  }

  lemma RightlyTold(s: State, i: nat, j: nat)
    requires Inv(s) && i < |s.calls| && s.calls[i].pc.Returned? && j < |s.jobs|
    requires FailureOf(s, j) in s.calls[i].pc.outcome.failures
    ensures if s.jobs[j].kind == ThresholdJob then !s.calls[i].op.WriteOp? else i == s.jobs[j].owner
  {
    assert CallOk(s, i);
  }

  /** No call ever tells of a failure that did not happen, or gets its row count wrong. */
  lemma OnlyTrueFailuresTold(states: seq<State>, steps: seq<Step>, k: nat, i: nat, f: Failure)
    requires IsRun(states, steps) && k < |states| && i < |states[k].calls|
    requires f in Carried(states[k].calls[i].pc)
    ensures f.job < |states[k].jobs| && states[k].jobs[f.job].fate == Lost
    ensures f.rows == |states[k].jobs[f.job].rows|
  {
    var s := states[k];
    RunKeeps(states, steps, k);
    HeldSomewhere(s.calls, i, f);
    LostFailuresOnce(s.jobs, f.job, f.rows);
  }

  /**
   A result reports its own rows truthfully: with FlushRows set an accepted WriteRows
   reports all of them and no error, and a FlushRows, or a WriteRows that loads its own
   rows, reports the rows of its job when they landed and none when they did not.
   */
  lemma ResultsTellTheTruth(states: seq<State>, steps: seq<Step>, k: nat, i: nat)
    requires IsRun(states, steps) && k < |states| && i < |states[k].calls|
    requires states[k].calls[i].pc.Returned?
    ensures
      var s := states[k];
      var o := s.calls[i].pc.outcome;
      && (s.calls[i].op.WriteOp? && s.w.flushRows > 0 && o.refused.None? ==> o.n == |s.calls[i].op.rows| && o.failures == [])
      && (forall j | 0 <= j < |s.jobs| && s.jobs[j].owner == i && (s.jobs[j].kind == FlushJob || s.jobs[j].kind == DirectJob) ::
            o.n == if s.jobs[j].fate == Landed then |s.jobs[j].rows| else 0)
  {
    var s := states[k];
    var o := s.calls[i].pc.outcome;
    RunKeeps(states, steps, k);
    assert CallOk(s, i);
    forall j | 0 <= j < |s.jobs| && s.jobs[j].owner == i && (s.jobs[j].kind == FlushJob || s.jobs[j].kind == DirectJob)
      ensures o.n == if s.jobs[j].fate == Landed then |s.jobs[j].rows| else 0
    {
      assert JobOk(s, j);
    }
  }

  // ---- Close does not race what it waits for ----

  /** The Close that set closed has taken pending. */
  predicate ClosePassed(s: State) {
    && s.closer.Some? && s.closer.value < |s.calls|
    && !s.calls[s.closer.value].pc.AwaitJobs? && !s.calls[s.closer.value].pc.Drained?
  }

  lemma {:induction false} SomeCounted(flushRows: nat, calls: seq<Call>) returns (i: nat)
    requires InFlightCount(flushRows, calls) > 0
    ensures i < |calls| && Counted(flushRows, calls[i])
  {
    var n := |calls| - 1;
    if Counted(flushRows, calls[n]) {
      i := n;
    } else {
      i := SomeCounted(flushRows, calls[..n]);
    }
  }

  /** One step after closed is set: it stays set, the count does not rise, the buffer stays empty. */
  lemma ClosedStep(s: State, step: Step)
    requires Enabled(s, step) && s.w.closed && s.w.buf == []
    ensures
      var t := Next(s, step);
      t.w.closed && t.closer == s.closer && t.w.wg <= s.w.wg && t.w.buf == [] && t.accepted == s.accepted
  {
  }

  /** The Close that took pending does not go back to waiting. */
  lemma PassedStep(s: State, step: Step)
    requires CallsOk(s) && Enabled(s, step) && s.w.closed && ClosePassed(s)
    ensures ClosePassed(Next(s, step))
  {
    assert CallOk(s, s.closer.value);
  }

  lemma ClosedOnce(states: seq<State>, steps: seq<Step>, k: nat)
    requires IsRun(states, steps) && k < |steps| && states[k].w.closed
    ensures
      var s, t := states[k], states[k + 1];
      && t.w.closed && t.closer == s.closer && t.w.wg <= s.w.wg && t.accepted == s.accepted
      && (ClosePassed(s) ==> ClosePassed(t))
  {
    RunKeeps(states, steps, k);
    ClosedStep(states[k], steps[k]);
    if ClosePassed(states[k]) {
      PassedStep(states[k], steps[k]);
    }
  }

  lemma PassedMeans(states: seq<State>, steps: seq<Step>, k: nat)
    requires IsRun(states, steps) && k < |states| && states[k].w.closed
    ensures states[k].w.buf == []
    ensures ClosePassed(states[k]) ==> states[k].w.pending == [] && states[k].w.wg == 0
  {
    var s := states[k];
    RunKeeps(states, steps, k);
    assert ClosePassed(s) ==> CallOk(s, s.closer.value);
  }

  /**
   Once closed is set it stays set, nothing more is accepted, the buffer stays empty and the
   wait group's count never rises; once the Close that set it has taken pending, pending
   stays empty and the count stays at zero.
   */
  lemma ClosedForGood(states: seq<State>, steps: seq<Step>, k: nat, m: nat)
    requires IsRun(states, steps) && k <= m < |states| && states[k].w.closed
    ensures
      var s, t := states[k], states[m];
      && t.w.closed && t.closer == s.closer && t.w.wg <= s.w.wg && t.w.buf == [] && t.accepted == s.accepted
      && (ClosePassed(s) ==> ClosePassed(t) && t.w.pending == [] && t.w.wg == 0)
  {
    for j := k to m
      invariant states[j].w.closed && states[j].closer == states[k].closer && states[j].accepted == states[k].accepted
      invariant states[j].w.wg <= states[k].w.wg && (ClosePassed(states[k]) ==> ClosePassed(states[j]))
    {
      ClosedOnce(states, steps, j);
    }
    PassedMeans(states, steps, m);
  }

  /**
   The wait group counts exactly the live threshold and FlushRows submissions; once Close
   has got past its wait, all of those have returned to their callers, so the only jobs
   still open are its own and the unbuffered ones.
   */
  lemma CloseWaitsForSubmissions(states: seq<State>, steps: seq<Step>, k: nat)
    requires IsRun(states, steps) && k < |states|
    ensures states[k].w.wg == InFlightCount(states[k].w.flushRows, states[k].calls)
    ensures
      var s := states[k];
      s.closer.Some? && s.closer.value < |s.calls| && !s.calls[s.closer.value].pc.AwaitJobs? ==>
        forall j | 0 <= j < |s.jobs| && (s.jobs[j].kind == ThresholdJob || s.jobs[j].kind == FlushJob) ::
          s.jobs[j].owner < |s.calls| && s.calls[s.jobs[j].owner].pc.Returned?
  {
    var s := states[k];
    RunKeeps(states, steps, k);
    if s.closer.Some? && s.closer.value < |s.calls| && !s.calls[s.closer.value].pc.AwaitJobs? {
      assert CallOk(s, s.closer.value);
      forall j | 0 <= j < |s.jobs| && (s.jobs[j].kind == ThresholdJob || s.jobs[j].kind == FlushJob)
        ensures s.jobs[j].owner < |s.calls| && s.calls[s.jobs[j].owner].pc.Returned?
      {
        assert JobOk(s, j);
        assert CallOk(s, s.jobs[j].owner);
        if Counted(s.w.flushRows, s.calls[s.jobs[j].owner]) {
          CountedIsCounted(s.w.flushRows, s.calls, s.jobs[j].owner);
        }
      }
    }
  }

  // ---- The buffer bound and the number of jobs ----

  /** Between critical sections the buffer is short of FlushRows, and a threshold batch exceeds it by less than one call's rows. */
  lemma BufferBound(states: seq<State>, steps: seq<Step>, k: nat)
    requires IsRun(states, steps) && k < |states| && states[k].w.flushRows > 0
    ensures
      var s := states[k];
      && |s.w.buf| < s.w.flushRows
      && forall j | 0 <= j < |s.jobs| && s.jobs[j].kind == ThresholdJob ::
           && s.jobs[j].owner < |s.calls| && s.calls[s.jobs[j].owner].op.WriteOp?
           && s.w.flushRows <= |s.jobs[j].rows| < s.w.flushRows + |s.calls[s.jobs[j].owner].op.rows|
  {
    var s := states[k];
    RunKeeps(states, steps, k);
    forall j | 0 <= j < |s.jobs| && s.jobs[j].kind == ThresholdJob ensures JobOk(s, j) {
      assert JobOk(s, j);
    }
  }

  lemma {:induction false} EqualJobs(jobs: seq<Job>, size: nat)
    requires forall j | 0 <= j < |jobs| :: |jobs[j].rows| == size
    ensures |JobRows(jobs)| == size * |jobs|
  {
    if jobs != [] {
      EqualJobs(jobs[..|jobs| - 1], size);
      assert size * |jobs| == size * (|jobs| - 1) + size;
    }
  }

  /** Single-row calls and no flush, in any interleaving: one job per FlushRows accepted rows. */
  lemma SingleRowJobCount(states: seq<State>, steps: seq<Step>, k: nat)
    requires IsRun(states, steps) && k < |states| && states[k].w.flushRows > 0
    requires forall i | 0 <= i < |states[k].calls| :: states[k].calls[i].op.WriteOp? && |states[k].calls[i].op.rows| == 1
    ensures
      var s := states[k];
      |s.jobs| == |s.accepted| / s.w.flushRows && |s.w.buf| == |s.accepted| % s.w.flushRows
  {
    var s := states[k];
    RunKeeps(states, steps, k);
    forall j | 0 <= j < |s.jobs| ensures |s.jobs[j].rows| == s.w.flushRows {
      assert JobOk(s, j);
    }
    EqualJobs(s.jobs, s.w.flushRows);
    assert s.w.flushRows * |s.jobs| == |s.jobs| * s.w.flushRows;
    DivMod(|s.accepted|, s.w.flushRows, |s.jobs|, |s.w.buf|);
  }

  // ---- Every call gets to return ----

  predicate Moves(step: Step) {
    !step.Invoke? && !step.Bind?
  }

  /** As long as a call has not returned, some call can take a step; Close's wait cannot deadlock. */
  lemma NoDeadlock(states: seq<State>, steps: seq<Step>, k: nat, i: nat) returns (step: Step)
    requires IsRun(states, steps) && k < |states|
    requires i < |states[k].calls| && !states[k].calls[i].pc.Returned?
    ensures Moves(step) && Enabled(states[k], step)
  {
    var s := states[k];
    RunKeeps(states, steps, k);
    assert CallOk(s, i);
    match s.calls[i].pc
    case Start => step := Enter(i);
    case AwaitJobs(_) =>
      if s.w.wg == 0 {
        step := Wait(i);
      } else {
        var c := SomeCounted(s.w.flushRows, s.calls);
        step := CountedMoves(s, c);
      }
    case Drained(_) => step := Take(i);
    case Holding(_, _) => step := Submit(i);
    case Loading(_, _) => step := Answer(i, true);
    case Settled(_, _, _) => step := LastStep(s, i);
    case Recorded(_) => step := LastStep(s, i);
  }

  lemma LastStep(s: State, i: nat) returns (step: Step)
    requires Inv(s) && i < |s.calls| && (s.calls[i].pc.Settled? || s.calls[i].pc.Recorded?)
    ensures Moves(step) && Enabled(s, step)
  {
    assert CallOk(s, i);
    if Counted(s.w.flushRows, s.calls[i]) {
      CountedIsCounted(s.w.flushRows, s.calls, i);
    }
    step := if MustRecord(s, i) then KeepFailure(i) else Finish(i);
  }

  lemma CountedMoves(s: State, i: nat) returns (step: Step)
    requires Inv(s) && i < |s.calls| && Counted(s.w.flushRows, s.calls[i])
    ensures Moves(step) && Enabled(s, step)
  {
    assert CallOk(s, i);
    match s.calls[i].pc
    case Holding(_, _) => step := Submit(i);
    case Loading(_, _) => step := Answer(i, true);
    case _ => step := LastStep(s, i);
  }

  /** The most steps the call can still take. */
  function Distance(c: Call): nat {
    match c.pc
    case Start => 6
    case AwaitJobs(_) => 5
    case Drained(_) => 4
    case Holding(_, _) => if c.op.CloseOp? then 3 else 4
    case Loading(_, _) => if c.op.CloseOp? then 2 else 3
    case Settled(_, _, _) => if c.op.CloseOp? then 1 else 2
    case Recorded(_) => 1
    case Returned(_) => 0
  }

  function Remaining(calls: seq<Call>): nat {
    if calls == [] then 0 else Remaining(calls[..|calls|-1]) + Distance(calls[|calls|-1])
  }

  lemma {:induction false} RemainingUpdate(calls: seq<Call>, i: nat, c: Call)
    requires i < |calls|
    ensures Remaining(calls[i := c]) + Distance(calls[i]) == Remaining(calls) + Distance(c)
  {
    var n := |calls| - 1;
    if i == n {
      assert calls[i := c][..n] == calls[..n];
    } else {
      assert calls[i := c][..n] == calls[..n][i := c];
      RemainingUpdate(calls[..n], i, c);
    }
  }

  lemma OneCallMoves(s: State, step: Step)
    requires CallsOk(s) && Enabled(s, step) && Moves(step)
    ensures
      var t := Next(s, step);
      && step.i < |s.calls| == |t.calls| && t.calls == s.calls[step.i := t.calls[step.i]]
      && Distance(t.calls[step.i]) < Distance(s.calls[step.i])
  {
    assert CallOk(s, step.i);
  }

  lemma StepApproaches(s: State, step: Step)
    requires CallsOk(s) && Enabled(s, step)
    ensures
      match step
      case Invoke(_) => Remaining(Next(s, step).calls) == Remaining(s.calls) + 6
      case Bind => Remaining(Next(s, step).calls) == Remaining(s.calls)
      case _ => Remaining(Next(s, step).calls) < Remaining(s.calls)
  {
    var t := Next(s, step);
    match step
    case Invoke(_) =>
      assert t.calls[..|s.calls|] == s.calls;
    case Bind =>
    case _ =>
      OneCallMoves(s, step);
      RemainingUpdate(s.calls, step.i, t.calls[step.i]);
  }

  function MoveCount(steps: seq<Step>): nat {
    if steps == [] then 0 else MoveCount(steps[..|steps|-1]) + (if Moves(steps[|steps|-1]) then 1 else 0)
  }

  function InvokeCount(steps: seq<Step>): nat {
    if steps == [] then 0 else InvokeCount(steps[..|steps|-1]) + (if steps[|steps|-1].Invoke? then 1 else 0)
  }

  lemma CountsGrow(steps: seq<Step>, j: nat)
    requires j < |steps|
    ensures MoveCount(steps[..j + 1]) == MoveCount(steps[..j]) + (if Moves(steps[j]) then 1 else 0)
    ensures InvokeCount(steps[..j + 1]) == InvokeCount(steps[..j]) + (if steps[j].Invoke? then 1 else 0)
  {
    assert steps[..j + 1][..j] == steps[..j];
  }

  lemma ApproachesOnce(states: seq<State>, steps: seq<Step>, j: nat)
    requires IsRun(states, steps) && j < |steps|
    ensures Remaining(states[j + 1].calls) + (if Moves(steps[j]) then 1 else 0)
         <= Remaining(states[j].calls) + (if steps[j].Invoke? then 6 else 0)
  {
    RunKeeps(states, steps, j);
    StepApproaches(states[j], steps[j]);
  }

  /** All calls together take at most six steps for each one made, less what they may still take. */
  lemma CallsReturn(states: seq<State>, steps: seq<Step>)
    requires IsRun(states, steps)
    ensures MoveCount(steps) + Remaining(states[|steps|].calls) <= 6 * InvokeCount(steps)
  {
    for j := 0 to |steps|
      invariant MoveCount(steps[..j]) + Remaining(states[j].calls) <= 6 * InvokeCount(steps[..j])
    {
      CountsGrow(steps, j);
      ApproachesOnce(states, steps, j);
    }
    assert steps[..|steps|] == steps;
  }

  function OwnMoves(steps: seq<Step>, i: nat): nat {
    if steps == [] then 0
    else
      var last := steps[|steps| - 1];
      OwnMoves(steps[..|steps| - 1], i) + (if Moves(last) && last.i == i then 1 else 0)
  }

  lemma OwnMove(s: State, step: Step, i: nat)
    requires CallsOk(s) && Enabled(s, step)
    ensures i < |s.calls| ==>
              && i < |Next(s, step).calls|
              && Distance(Next(s, step).calls[i]) + (if Moves(step) && step.i == i then 1 else 0) <= Distance(s.calls[i])
    ensures i >= |s.calls| ==> !(Moves(step) && step.i == i)
    ensures |s.calls| <= i < |Next(s, step).calls| ==> Distance(Next(s, step).calls[i]) == 6
  {
    if Moves(step) {
      OneCallMoves(s, step);
    }
  }

  /** No call takes more than six steps, and one that has taken six has returned. */
  lemma AtMostSixSteps(states: seq<State>, steps: seq<Step>, i: nat)
    requires IsRun(states, steps) && i < |states[|steps|].calls|
    ensures OwnMoves(steps, i) + Distance(states[|steps|].calls[i]) <= 6
    ensures OwnMoves(steps, i) == 6 ==> states[|steps|].calls[i].pc.Returned?
  {
    for j := 0 to |steps|
      invariant i < |states[j].calls| ==> OwnMoves(steps[..j], i) + Distance(states[j].calls[i]) <= 6
      invariant i >= |states[j].calls| ==> OwnMoves(steps[..j], i) == 0
    {
      assert steps[..j + 1][..j] == steps[..j];
      RunKeeps(states, steps, j);
      OwnMove(states[j], steps[j], i);
    }
    assert steps[..|steps|] == steps;
  }

  lemma OneMoreMove(states: seq<State>, steps: seq<Step>, i: nat) returns (step: Step)
    requires IsRun(states, steps) && i < |states[|steps|].calls| && !states[|steps|].calls[i].pc.Returned?
    ensures Moves(step) && Enabled(states[|steps|], step)
    ensures IsRun(states + [Next(states[|steps|], step)], steps + [step])
    ensures |Next(states[|steps|], step).calls| == |states[|steps|].calls|
    ensures Remaining(Next(states[|steps|], step).calls) < Remaining(states[|steps|].calls)
  {
    step := NoDeadlock(states, steps, |steps|, i);
    MovesLeave(states, steps, step);
    Extends(states, steps, step);
  }

  lemma MovesLeave(states: seq<State>, steps: seq<Step>, step: Step)
    requires IsRun(states, steps) && Enabled(states[|steps|], step) && Moves(step)
    ensures |Next(states[|steps|], step).calls| == |states[|steps|].calls|
    ensures Remaining(Next(states[|steps|], step).calls) < Remaining(states[|steps|].calls)
  {
    RunKeeps(states, steps, |steps|);
    StepApproaches(states[|steps|], step);
    OneCallMoves(states[|steps|], step);
  }

  lemma Extends(states: seq<State>, steps: seq<Step>, step: Step)
    requires IsRun(states, steps) && Enabled(states[|steps|], step)
    ensures IsRun(states + [Next(states[|steps|], step)], steps + [step])
  {
  }

  /** Every run can go on, without another call being made, until all its calls have returned. */
  lemma EveryCallCanReturn(states: seq<State>, steps: seq<Step>) returns (allStates: seq<State>, allSteps: seq<Step>)
    requires IsRun(states, steps)
    ensures IsRun(allStates, allSteps) && states <= allStates && steps <= allSteps
    ensures forall k | |steps| <= k < |allSteps| :: Moves(allSteps[k])
    ensures |allStates[|allSteps|].calls| == |states[|steps|].calls|
    ensures forall i | 0 <= i < |allStates[|allSteps|].calls| :: allStates[|allSteps|].calls[i].pc.Returned?
    decreases Remaining(states[|steps|].calls)
  {
    var last := states[|steps|];
    if i: nat :| i < |last.calls| && !last.calls[i].pc.Returned? {
      var step := OneMoreMove(states, steps, i);
      allStates, allSteps := EveryCallCanReturn(states + [Next(last, step)], steps + [step]);
    } else {
      allStates, allSteps := states, steps;
    }
  }
}
