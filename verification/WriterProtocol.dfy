/**
 Any number of goroutines calling WriteRows, FlushRows and Close on one
 LoadJobsWriter (write.go:318-459), as a step system. A call is a program counter;
 a step is one mutex-held section, one answer of the loader, or one wait-group move,
 of one call. Histories record what was accepted, what was detached and what was
 handed to the loader.
 */
module WriterProtocol {
  import opened Wrappers
  import opened Values
  import opened Writer

  datatype Op = WriteOp(rows: seq<Row>) | FlushOp | CloseOp

  /** What a returned call told its caller; n has no meaning for Close, which returns only an error. */
  datatype Outcome = Outcome(n: nat, failures: seq<Failure>, refused: Option<WriteError>)

  datatype Pc =
    | Start
    | AwaitJobs(own: Option<nat>)                          // Close, before wg.Wait returns
    | Drained(own: Option<nat>)                            // Close, before it takes pending
    | Holding(job: nat, told: seq<Failure>)                // lock released, loader not called yet
    | Loading(job: nat, told: seq<Failure>)
    | Settled(job: nat, landed: bool, told: seq<Failure>)  // the loader has answered
    | Recorded(job: nat)                                   // failure in pending, wg.Done due
    | Returned(outcome: Outcome)

  datatype Call = Call(op: Op, pc: Pc)

  datatype Kind = DirectJob | ThresholdJob | FlushJob | CloseJob

  datatype Fate = Waiting | InFlight | Landed | Lost

  /** One detached batch and the call that has to load it. */
  datatype Job = Job(rows: seq<Row>, owner: nat, kind: Kind, fate: Fate)

  datatype State = State(
    w: Shared,
    calls: seq<Call>,
    accepted: seq<Row>,       // rows in the order WriteRows accepted them
    jobs: seq<Job>,           // batches in the order they were detached
    handed: seq<nat>,         // jobs in the order the loader was called with them
    closer: Option<nat>)      // the Close call that set closed

  datatype Step =
    | Invoke(op: Op)
    | Bind
    | Enter(i: nat)
    | Wait(i: nat)
    | Take(i: nat)
    | Submit(i: nat)
    | Answer(i: nat, landed: bool)
    | KeepFailure(i: nat)
    | Finish(i: nat)

  predicate Init(s: State) {
    && s.w == Shared(s.w.flushRows, false, [], [], false, 0)
    && s.calls == [] && s.accepted == [] && s.jobs == [] && s.handed == [] && s.closer == None
  }

  predicate Enabled(s: State, step: Step) {
    match step
    case Invoke(_) => true
    case Bind => true
    case Enter(i) => i < |s.calls| && s.calls[i].pc.Start?
    case Wait(i) => i < |s.calls| && s.calls[i].pc.AwaitJobs? && s.w.wg == 0
    case Take(i) => i < |s.calls| && s.calls[i].pc.Drained?
    case Submit(i) => i < |s.calls| && s.calls[i].pc.Holding? && s.calls[i].pc.job < |s.jobs|
    case Answer(i, _) => i < |s.calls| && s.calls[i].pc.Loading? && s.calls[i].pc.job < |s.jobs|
    case KeepFailure(i) =>
      && i < |s.calls| && s.calls[i].pc.Settled? && s.calls[i].pc.job < |s.jobs|
      && MustRecord(s, i)
    case Finish(i) =>
      && i < |s.calls|
      && (s.calls[i].pc.Recorded? || s.calls[i].pc.Settled?)
      && s.calls[i].pc.job < |s.jobs|
      && !MustRecord(s, i)
      && (Counted(s.w.flushRows, s.calls[i]) ==> s.w.wg > 0)
  }

  /** A threshold submission that failed still has its failure to put in pending. */
  predicate MustRecord(s: State, i: nat)
    requires i < |s.calls|
  {
    var pc := s.calls[i].pc;
    pc.Settled? && !pc.landed && pc.job < |s.jobs| && s.jobs[pc.job].kind == ThresholdJob
  }

  /**
   The failure of a job with its row count. Submissions from the buffer name the count in the
   error (write.go:351, 399, 455); an unbuffered WriteRows does not (write.go:335), and its
   count is that of the rows the caller handed it.
   */
  function FailureOf(s: State, job: nat): Failure
    requires job < |s.jobs|
  {
    Failure(job, |s.jobs[job].rows|)
  }

  function Next(s: State, step: Step): State
    requires Enabled(s, step)
  {
    match step
    case Invoke(op) => s.(calls := s.calls + [Call(op, Start)])
    case Bind => s.(w := s.w.(bound := true))
    case Enter(i) =>
      (match s.calls[i].op
       case WriteOp(rows) => NextWrite(s, i, rows)
       case FlushOp => NextFlush(s, i)
       case CloseOp => NextClose(s, i))
    case Wait(i) => Goto(s, i, Drained(s.calls[i].pc.own))
    case Take(i) =>
      var (w, pending) := TakePending(s.w);
      var pc := match s.calls[i].pc.own
                case Some(job) => Holding(job, pending)
                case None => Returned(Outcome(0, pending, None));
      Goto(s.(w := w), i, pc)
    case Submit(i) =>
      var pc := s.calls[i].pc;
      Goto(s.(jobs := WithFate(s.jobs, pc.job, InFlight), handed := s.handed + [pc.job]),
           i, Loading(pc.job, pc.told))
    case Answer(i, landed) =>
      var pc := s.calls[i].pc;
      var fate := if landed then Landed else Lost;
      var told := if landed then pc.told else pc.told + [FailureOf(s, pc.job)];
      Goto(s.(jobs := WithFate(s.jobs, pc.job, fate)), i, Settled(pc.job, landed, told))
    case KeepFailure(i) =>
      var pc := s.calls[i].pc;
      Goto(s.(w := RecordFailure(s.w, FailureOf(s, pc.job))), i, Recorded(pc.job))
    case Finish(i) =>
      var w := if Counted(s.w.flushRows, s.calls[i]) then s.w.(wg := s.w.wg - 1) else s.w;
      Goto(s.(w := w), i, Returned(FinalOutcome(s, i)))
  }

  function Goto(s: State, i: nat, pc: Pc): State
    requires i < |s.calls|
  {
    s.(calls := s.calls[i := s.calls[i].(pc := pc)])
  }

  function Detach(s: State, i: nat, rows: seq<Row>, kind: Kind): State {
    s.(jobs := s.jobs + [Job(rows, i, kind, Waiting)])
  }

  function NextWrite(s: State, i: nat, rows: seq<Row>): State
    requires i < |s.calls|
  {
    var (w, entry) := EnterWrite(s.w, rows);
    var t := s.(w := w);
    match entry
    case Nothing => Goto(t, i, Returned(Outcome(0, [], None)))
    case Refused(e) => Goto(t, i, Returned(Outcome(0, [], Some(e))))
    case Direct =>
      Goto(Detach(t.(accepted := t.accepted + rows), i, rows, DirectJob), i, Holding(|s.jobs|, []))
    case Buffered => Goto(t.(accepted := t.accepted + rows), i, Returned(Outcome(|rows|, [], None)))
    case Detached(batch) =>
      Goto(Detach(t.(accepted := t.accepted + rows), i, batch, ThresholdJob), i, Holding(|s.jobs|, []))
  }

  function NextFlush(s: State, i: nat): State
    requires i < |s.calls|
  {
    var (w, entry) := EnterFlush(s.w);
    match entry
    case FlushRefused => Goto(s, i, Returned(Outcome(0, [], Some(WriterClosed))))
    case FlushTook(batch, pending) =>
      if |batch| > 0 then Goto(Detach(s.(w := w), i, batch, FlushJob), i, Holding(|s.jobs|, pending))
      else Goto(s.(w := w), i, Returned(Outcome(0, pending, None)))
  }

  function NextClose(s: State, i: nat): State
    requires i < |s.calls|
  {
    var (w, entry) := EnterClose(s.w);
    match entry
    case AlreadyClosed => Goto(s, i, Returned(Outcome(0, [], None)))
    case CloseTook(batch) =>
      var t := s.(w := w, closer := Some(i));
      if |batch| > 0 then Goto(Detach(t, i, batch, CloseJob), i, AwaitJobs(Some(|s.jobs|)))
      else Goto(t, i, AwaitJobs(None))
  }

  /**
   What a settled call returns. WriteRows with FlushRows set reports acceptance whatever
   became of its job (write.go:355); every other call reports its own job's outcome, after
   the failures it took from pending (write.go:333-337, 404-408, 451-458).
   */
  function FinalOutcome(s: State, i: nat): Outcome
    requires i < |s.calls|
    requires s.calls[i].pc.Recorded? || s.calls[i].pc.Settled?
    requires s.calls[i].pc.job < |s.jobs|
  {
    var pc := s.calls[i].pc;
    var job := s.jobs[pc.job];
    match s.calls[i].op
    case WriteOp(rows) =>
      if job.kind == ThresholdJob then Outcome(|rows|, [], None)
      else Outcome(if pc.Settled? && pc.landed then |rows| else 0, if pc.Settled? then pc.told else [], None)
    case FlushOp =>
      Outcome(if pc.Settled? && pc.landed then |job.rows| else 0, if pc.Settled? then pc.told else [], None)
    case CloseOp => Outcome(0, if pc.Settled? then pc.told else [], None)
  }

  // ---- Measures of a state ----

  /** The calls the wait group counts: the threshold and FlushRows submissions not yet done. */
  predicate Counted(flushRows: nat, c: Call) {
    flushRows > 0 && !c.op.CloseOp? && (c.pc.Recorded? || c.pc.Holding? || c.pc.Loading? || c.pc.Settled?)
  }

  /** The failures a call carries towards its caller. */
  function Carried(pc: Pc): seq<Failure> {
    match pc
    case Holding(_, told) => told
    case Loading(_, told) => told
    case Settled(_, _, told) => told
    case Returned(outcome) => outcome.failures
    case _ => []
  }

  function InFlightCount(flushRows: nat, calls: seq<Call>): nat {
    if calls == [] then 0
    else InFlightCount(flushRows, calls[..|calls|-1]) + (if Counted(flushRows, calls[|calls|-1]) then 1 else 0)
  }

  function Held(calls: seq<Call>): multiset<Failure> {
    if calls == [] then multiset{}
    else Held(calls[..|calls|-1]) + multiset(Carried(calls[|calls|-1].pc))
  }

  function RowsNamed(fs: seq<Failure>): nat {
    if fs == [] then 0 else RowsNamed(fs[..|fs|-1]) + fs[|fs|-1].rows
  }

  function RowsTold(calls: seq<Call>): nat {
    if calls == [] then 0
    else RowsTold(calls[..|calls|-1]) + RowsNamed(Carried(calls[|calls|-1].pc))
  }

  function JobRows(jobs: seq<Job>): seq<Row> {
    if jobs == [] then [] else JobRows(jobs[..|jobs|-1]) + jobs[|jobs|-1].rows
  }

  /** The rows in the jobs a fate befell, in detach order. */
  function RowsWith(fate: Fate, jobs: seq<Job>): seq<Row> {
    if jobs == [] then []
    else RowsWith(fate, jobs[..|jobs|-1]) + (if jobs[|jobs|-1].fate == fate then jobs[|jobs|-1].rows else [])
  }

  /** One failure per lost job, naming the job and its row count. */
  function LostFailures(jobs: seq<Job>): multiset<Failure> {
    if jobs == [] then multiset{}
    else
      var n := |jobs| - 1;
      LostFailures(jobs[..n]) + (if jobs[n].fate == Lost then multiset{Failure(n, |jobs[n].rows|)} else multiset{})
  }

  // ---- The invariant ----

  predicate KindFits(kind: Kind, op: Op) {
    match op
    case WriteOp(_) => kind == DirectJob || kind == ThresholdJob
    case FlushOp => kind == FlushJob
    case CloseOp => kind == CloseJob
  }

  /** Every failure in fs names a job with its true row count, and may be told by call i. */
  predicate ToldOk(s: State, i: nat, fs: seq<Failure>) {
    forall k | 0 <= k < |fs| ::
      && fs[k].job < |s.jobs|
      && fs[k].rows == |s.jobs[fs[k].job].rows|
      && (s.jobs[fs[k].job].kind != ThresholdJob ==> s.jobs[fs[k].job].owner == i)
  }

  predicate NamesNo(s: State, fs: seq<Failure>, kind: Kind) {
    forall k | 0 <= k < |fs| :: fs[k].job < |s.jobs| && s.jobs[fs[k].job].kind != kind
  }

  predicate Owns(s: State, i: nat, job: nat, fate: Fate)
    requires i < |s.calls|
  {
    && job < |s.jobs|
    && s.jobs[job].owner == i
    && s.jobs[job].fate == fate
    && KindFits(s.jobs[job].kind, s.calls[i].op)
  }

  /** A Close call between its two sections, or past them, is the one that set closed. */
  predicate CloserOk(s: State, i: nat)
    requires i < |s.calls|
  {
    match s.calls[i].pc
    case AwaitJobs(_) => s.calls[i].op.CloseOp? && s.closer == Some(i)
    case Drained(_) => s.calls[i].op.CloseOp? && s.closer == Some(i) && s.w.wg == 0
    case Start => s.closer != Some(i)
    case _ => s.closer == Some(i) ==> s.calls[i].op.CloseOp? && s.w.wg == 0 && s.w.pending == []
  }

  predicate CallOk(s: State, i: nat)
    requires i < |s.calls|
  {
    var c := s.calls[i];
    && CloserOk(s, i)
    && ToldOk(s, i, Carried(c.pc))
    && (match c.pc
        case Start => true
        case AwaitJobs(own) => own.Some? ==> Owns(s, i, own.value, Waiting)
        case Drained(own) => own.Some? ==> Owns(s, i, own.value, Waiting)
        case Holding(job, _) => Owns(s, i, job, Waiting)
        case Loading(job, _) => Owns(s, i, job, InFlight)
        case Settled(job, landed, _) =>
          && Owns(s, i, job, if landed then Landed else Lost)
          && (c.op.WriteOp? ==> c.pc.told == if landed then [] else [FailureOf(s, job)])
        case Recorded(job) => Owns(s, i, job, Lost) && s.jobs[job].kind == ThresholdJob
        case Returned(o) =>
          c.op.WriteOp? ==>
            && NamesNo(s, o.failures, ThresholdJob)
            && (s.w.flushRows > 0 && o.refused.None? ==> o.n == |c.op.rows| && o.failures == []))
    && (c.op.CloseOp? && (c.pc.Holding? || c.pc.Loading? || c.pc.Settled?) ==> s.closer == Some(i))
    && (c.op.WriteOp? && (c.pc.Holding? || c.pc.Loading?) ==> Carried(c.pc) == [])
  }

  /** A job, its fate and the call that has to see it through agree. */
  predicate JobStage(pc: Pc, job: Job, j: nat) {
    match pc
    case Start => false
    case AwaitJobs(own) => own == Some(j) && job.fate == Waiting
    case Drained(own) => own == Some(j) && job.fate == Waiting
    case Holding(k, _) => k == j && job.fate == Waiting
    case Loading(k, _) => k == j && job.fate == InFlight
    case Settled(k, landed, _) => k == j && job.fate == if landed then Landed else Lost
    case Recorded(k) => k == j && job.fate == Lost
    case Returned(o) =>
      && (job.fate == Landed || job.fate == Lost)
      && (job.kind == FlushJob || job.kind == DirectJob ==>
            o.n == if job.fate == Landed then |job.rows| else 0)
  }

  predicate JobOk(s: State, j: nat)
    requires j < |s.jobs|
  {
    var job := s.jobs[j];
    && job.owner < |s.calls|
    && job.rows != []
    && KindFits(job.kind, s.calls[job.owner].op)
    && JobStage(s.calls[job.owner].pc, job, j)
    && (job.kind == DirectJob <==> s.w.flushRows == 0)
    && (job.kind == DirectJob ==> job.rows == s.calls[job.owner].op.rows)
    && (job.kind == ThresholdJob ==>
          s.w.flushRows <= |job.rows| < s.w.flushRows + |s.calls[job.owner].op.rows|)
    && (job.fate != Waiting <==> j in s.handed)
  }

  predicate HandedOk(s: State) {
    && (forall k | 0 <= k < |s.handed| :: s.handed[k] < |s.jobs|)
    && (forall k, l | 0 <= k < l < |s.handed| :: s.handed[k] != s.handed[l])
  }

  predicate GuardedOk(s: State) {
    && s.w.closed == s.closer.Some?
    && (s.closer.Some? ==> s.closer.value < |s.calls| && s.w.buf == [])
    && (if s.w.flushRows == 0 then s.w.buf == [] else |s.w.buf| < s.w.flushRows)
    && (!s.w.bound ==> s.accepted == [])
    && (forall k | 0 <= k < |s.w.pending| ::
          && s.w.pending[k].job < |s.jobs|
          && s.w.pending[k].rows == |s.jobs[s.w.pending[k].job].rows|
          && s.jobs[s.w.pending[k].job].kind == ThresholdJob)
  }

  predicate OrderOk(s: State) {
    JobRows(s.jobs) + s.w.buf == s.accepted
  }

  predicate CountOk(s: State) {
    s.w.wg == InFlightCount(s.w.flushRows, s.calls)
  }

  predicate ConservedOk(s: State) {
    && multiset(s.w.pending) + Held(s.calls) == LostFailures(s.jobs)
    && RowsNamed(s.w.pending) + RowsTold(s.calls) == |RowsWith(Lost, s.jobs)|
  }

  predicate CallsOk(s: State) {
    forall i | 0 <= i < |s.calls| :: CallOk(s, i)
  }

  predicate JobsOk(s: State) {
    forall j | 0 <= j < |s.jobs| :: JobOk(s, j)
  }

  predicate Inv(s: State) {
    OrderOk(s) && CountOk(s) && ConservedOk(s) && CallsOk(s) && JobsOk(s) && HandedOk(s) && GuardedOk(s)
  }

  // ---- How the measures move ----

  lemma {:induction false} InFlightCountUpdate(flushRows: nat, calls: seq<Call>, i: nat, c: Call)
    requires i < |calls|
    ensures InFlightCount(flushRows, calls[i := c]) + (if Counted(flushRows, calls[i]) then 1 else 0)
         == InFlightCount(flushRows, calls) + (if Counted(flushRows, c) then 1 else 0)
  {
    var n := |calls| - 1;
    if i == n {
      assert calls[i := c][..n] == calls[..n];
    } else {
      assert calls[i := c][..n] == calls[..n][i := c];
      InFlightCountUpdate(flushRows, calls[..n], i, c);
    }
  }

  lemma AddToBoth<T>(a: multiset<T>, b: multiset<T>, x: multiset<T>, y: multiset<T>, z: multiset<T>)
    requires a + x == b + y
    ensures (a + z) + x == (b + z) + y
  {
    assert (a + z) + x == (a + x) + z;
    assert (b + z) + y == (b + y) + z;
  }

  lemma {:induction false} HeldUpdate(calls: seq<Call>, i: nat, c: Call)
    requires i < |calls|
    ensures Held(calls[i := c]) + multiset(Carried(calls[i].pc)) == Held(calls) + multiset(Carried(c.pc))
  {
    var n := |calls| - 1;
    var before, after := multiset(Carried(calls[i].pc)), multiset(Carried(c.pc));
    var updated := calls[i := c];
    if i == n {
      assert updated[..n] == calls[..n];
      assert Held(updated) == Held(calls[..n]) + after;
    } else {
      var last := multiset(Carried(calls[n].pc));
      assert updated[..n] == calls[..n][i := c] && updated[n] == calls[n];
      HeldUpdate(calls[..n], i, c);
      AddToBoth(Held(updated[..n]), Held(calls[..n]), before, after, last);
      assert Held(updated) == Held(updated[..n]) + last;
    }
  }

  lemma RowsToldLast(calls: seq<Call>)
    requires calls != []
    ensures RowsTold(calls) == RowsTold(calls[..|calls|-1]) + RowsNamed(Carried(calls[|calls|-1].pc))
  {
  }

  lemma {:induction false} RowsToldUpdate(calls: seq<Call>, i: nat, c: Call)
    requires i < |calls|
    ensures RowsTold(calls[i := c]) + RowsNamed(Carried(calls[i].pc)) == RowsTold(calls) + RowsNamed(Carried(c.pc))
  {
    var n, updated := |calls| - 1, calls[i := c];
    RowsToldLast(calls);
    RowsToldLast(updated);
    if i == n {
      assert updated[..n] == calls[..n] && updated[n] == c;
    } else {
      assert updated[..n] == calls[..n][i := c] && updated[n] == calls[n];
      RowsToldUpdate(calls[..n], i, c);
    }
  }

  lemma InvokeMeasures(flushRows: nat, calls: seq<Call>, op: Op)
    ensures InFlightCount(flushRows, calls + [Call(op, Start)]) == InFlightCount(flushRows, calls)
    ensures Held(calls + [Call(op, Start)]) == Held(calls)
    ensures RowsTold(calls + [Call(op, Start)]) == RowsTold(calls)
  {
    assert (calls + [Call(op, Start)])[..|calls|] == calls;
  }

  lemma {:induction false} RowsNamedAppend(fs: seq<Failure>, gs: seq<Failure>)
    ensures RowsNamed(fs + gs) == RowsNamed(fs) + RowsNamed(gs)
  {
    if gs == [] {
      assert fs + gs == fs;
    } else {
      assert (fs + gs)[..|fs + gs| - 1] == fs + gs[..|gs| - 1];
      RowsNamedAppend(fs, gs[..|gs| - 1]);
    }
  }

  function WithFate(jobs: seq<Job>, j: nat, fate: Fate): seq<Job>
    requires j < |jobs|
  {
    jobs[j := jobs[j].(fate := fate)]
  }

  lemma {:induction false} FateKeepsRows(jobs: seq<Job>, j: nat, fate: Fate)
    requires j < |jobs|
    ensures JobRows(WithFate(jobs, j, fate)) == JobRows(jobs)
  {
    var n := |jobs| - 1;
    if j == n {
      assert WithFate(jobs, j, fate)[..n] == jobs[..n];
    } else {
      assert WithFate(jobs, j, fate)[..n] == WithFate(jobs[..n], j, fate);
      FateKeepsRows(jobs[..n], j, fate);
    }
  }

  lemma {:induction false} FateMovesLostRows(jobs: seq<Job>, j: nat, fate: Fate)
    requires j < |jobs| && jobs[j].fate != Lost
    ensures |RowsWith(Lost, WithFate(jobs, j, fate))|
         == |RowsWith(Lost, jobs)| + (if fate == Lost then |jobs[j].rows| else 0)
  {
    var n := |jobs| - 1;
    if j == n {
      assert WithFate(jobs, j, fate)[..n] == jobs[..n];
    } else {
      assert WithFate(jobs, j, fate)[..n] == WithFate(jobs[..n], j, fate);
      FateMovesLostRows(jobs[..n], j, fate);
    }
  }

  lemma LossesLast(jobs: seq<Job>)
    requires jobs != []
    ensures
      var n := |jobs| - 1;
      LostFailures(jobs)
      == LostFailures(jobs[..n]) + (if jobs[n].fate == Lost then multiset{Failure(n, |jobs[n].rows|)} else multiset{})
  {
  }

  lemma InAnyOrder<T>(a: multiset<T>, x: multiset<T>, y: multiset<T>)
    ensures a + x + y == a + y + x
  {
  }

  lemma {:induction false} FateMovesFailures(jobs: seq<Job>, j: nat, fate: Fate)
    requires j < |jobs| && jobs[j].fate != Lost
    ensures LostFailures(WithFate(jobs, j, fate))
         == LostFailures(jobs) + (if fate == Lost then multiset{Failure(j, |jobs[j].rows|)} else multiset{})
  {
    var n, updated := |jobs| - 1, WithFate(jobs, j, fate);
    if j == n {
      assert updated[..n] == jobs[..n];
      LossesLast(updated);
    } else {
      assert updated[..n] == WithFate(jobs[..n], j, fate) && updated[n] == jobs[n];
      FateMovesFailures(jobs[..n], j, fate);
      LossesLast(jobs);
      LossesLast(updated);
      InAnyOrder(LostFailures(jobs[..n]), if fate == Lost then multiset{Failure(j, |jobs[j].rows|)} else multiset{},
                 if jobs[n].fate == Lost then multiset{Failure(n, |jobs[n].rows|)} else multiset{});
    }
  }

  lemma FateMovesLosses(jobs: seq<Job>, j: nat, fate: Fate)
    requires j < |jobs| && jobs[j].fate != Lost
    ensures LostFailures(WithFate(jobs, j, fate))
         == LostFailures(jobs) + (if fate == Lost then multiset{Failure(j, |jobs[j].rows|)} else multiset{})
    ensures |RowsWith(Lost, WithFate(jobs, j, fate))|
         == |RowsWith(Lost, jobs)| + (if fate == Lost then |jobs[j].rows| else 0)
  {
    FateMovesLostRows(jobs, j, fate);
    FateMovesFailures(jobs, j, fate);
  }

  lemma DetachMeasures(jobs: seq<Job>, job: Job)
    requires job.fate == Waiting
    ensures JobRows(jobs + [job]) == JobRows(jobs) + job.rows
    ensures LostFailures(jobs + [job]) == LostFailures(jobs)
    ensures RowsWith(Lost, jobs + [job]) == RowsWith(Lost, jobs)
  {
    assert (jobs + [job])[..|jobs|] == jobs;
  }

  lemma {:induction false} CountedIsCounted(flushRows: nat, calls: seq<Call>, i: nat)
    requires i < |calls| && Counted(flushRows, calls[i])
    ensures InFlightCount(flushRows, calls) > 0
  {
    if i < |calls| - 1 {
      CountedIsCounted(flushRows, calls[..|calls| - 1], i);
    }
  }

  // ---- Every step keeps the invariant ----

  /** t is s after a step of call i: only call i and jobs it owns have changed. */
  predicate OnlyCall(s: State, t: State, i: nat) {
    && i < |s.calls| == |t.calls|
    && t.calls[i].op == s.calls[i].op
    && (forall k | 0 <= k < |s.calls| && k != i :: t.calls[k] == s.calls[k])
    && |s.jobs| <= |t.jobs|
    && (forall j | 0 <= j < |s.jobs| ::
          t.jobs[j].(fate := s.jobs[j].fate) == s.jobs[j] && (t.jobs[j].owner != i ==> t.jobs[j] == s.jobs[j]))
    && t.w.flushRows == s.w.flushRows
    && (s.closer.Some? ==> t.closer == s.closer)
  }

  lemma OtherCallsKept(s: State, t: State, i: nat)
    requires CallsOk(s) && OnlyCall(s, t, i)
    requires forall k | 0 <= k < |s.calls| && k != i :: CloserOk(t, k)
    ensures forall k | 0 <= k < |s.calls| && k != i :: CallOk(t, k)
  {
    forall k | 0 <= k < |s.calls| && k != i ensures CallOk(t, k) {
      assert CallOk(s, k);
    }
  }

  lemma InvokedCalls(s: State, op: Op)
    requires CallsOk(s) && GuardedOk(s)
    ensures CallsOk(Next(s, Invoke(op)))
  {
    var t := Next(s, Invoke(op));
    forall k | 0 <= k < |s.calls| ensures CallOk(t, k) {
      assert CallOk(s, k) && t.calls[k] == s.calls[k];
    }
    assert CallOk(t, |s.calls|);
  }

  lemma InvokeKeeps(s: State, op: Op)
    requires Inv(s)
    ensures Inv(Next(s, Invoke(op)))
  {
    var t := Next(s, Invoke(op));
    InvokeMeasures(s.w.flushRows, s.calls, op);
    InvokedCalls(s, op);
    forall j | 0 <= j < |t.jobs| ensures JobOk(t, j) {
      assert JobOk(s, j);
    }
  }

  lemma BindKeeps(s: State)
    requires Inv(s)
    ensures Inv(Next(s, Bind))
  {
    BoundCalls(s);
    BoundJobs(s);
  }

  lemma BoundCalls(s: State)
    requires CallsOk(s)
    ensures CallsOk(Next(s, Bind))
  {
    forall k | 0 <= k < |s.calls| ensures CallOk(Next(s, Bind), k) {
      assert CallOk(s, k);
    }
  }

  lemma BoundJobs(s: State)
    requires JobsOk(s)
    ensures JobsOk(Next(s, Bind))
  {
    forall j | 0 <= j < |s.jobs| ensures JobOk(Next(s, Bind), j) {
      assert JobOk(s, j);
    }
  }

  function One(b: bool): nat {
    if b then 1 else 0
  }

  lemma CountMoves(s: State, t: State, i: nat)
    requires CountOk(s) && i < |s.calls| == |t.calls| && t.calls == s.calls[i := t.calls[i]]
    requires t.w.flushRows == s.w.flushRows
    requires t.w.wg + One(Counted(s.w.flushRows, s.calls[i])) == s.w.wg + One(Counted(s.w.flushRows, t.calls[i]))
    ensures CountOk(t)
  {
    InFlightCountUpdate(s.w.flushRows, s.calls, i, t.calls[i]);
  }

  lemma SameBalance<T>(p: multiset<T>, q: multiset<T>, h: multiset<T>, g: multiset<T>, x: multiset<T>, y: multiset<T>,
                       lost: multiset<T>)
    requires q + y == p + x + lost
    requires g + x == h + y
    ensures q + g == p + h + lost
  {
    forall e: T ensures (q + g)[e] == (p + h + lost)[e] {
      assert (q + y)[e] == (p + x + lost)[e];
      assert (g + x)[e] == (h + y)[e];
    }
  }

  /** Failures only move between pending, the calls and the newly lost job. */
  lemma FailuresMove(s: State, t: State, i: nat, lost: multiset<Failure>, rows: nat)
    requires ConservedOk(s) && i < |s.calls| == |t.calls| && t.calls == s.calls[i := t.calls[i]]
    requires multiset(t.w.pending) + multiset(Carried(t.calls[i].pc))
          == multiset(s.w.pending) + multiset(Carried(s.calls[i].pc)) + lost
    requires RowsNamed(t.w.pending) + RowsNamed(Carried(t.calls[i].pc))
          == RowsNamed(s.w.pending) + RowsNamed(Carried(s.calls[i].pc)) + rows
    requires LostFailures(t.jobs) == LostFailures(s.jobs) + lost
    requires |RowsWith(Lost, t.jobs)| == |RowsWith(Lost, s.jobs)| + rows
    ensures ConservedOk(t)
  {
    HeldUpdate(s.calls, i, t.calls[i]);
    RowsToldUpdate(s.calls, i, t.calls[i]);
    SameBalance(multiset(s.w.pending), multiset(t.w.pending), Held(s.calls), Held(t.calls),
                multiset(Carried(s.calls[i].pc)), multiset(Carried(t.calls[i].pc)), lost);
  }

  /** Jobs stay good when call i moves without touching them and agrees with its own. */
  lemma JobsKept(s: State, t: State, i: nat)
    requires JobsOk(s) && OnlyCall(s, t, i) && t.jobs == s.jobs && t.handed == s.handed
    requires forall j | 0 <= j < |s.jobs| && s.jobs[j].owner == i :: JobStage(t.calls[i].pc, s.jobs[j], j)
    ensures JobsOk(t)
  {
    forall j | 0 <= j < |t.jobs| ensures JobOk(t, j) {
      assert JobOk(s, j);
    }
  }

  lemma StartOwnsNothing(s: State, i: nat)
    requires JobsOk(s) && i < |s.calls| && s.calls[i].pc.Start?
    ensures forall j | 0 <= j < |s.jobs| :: s.jobs[j].owner != i
  {
    forall j | 0 <= j < |s.jobs| ensures s.jobs[j].owner != i {
      assert JobOk(s, j);
    }
  }

  /** Calls other than i stay good when the guarded state a closer depends on is untouched. */
  lemma CallsKept(s: State, t: State, i: nat)
    requires CallsOk(s) && OnlyCall(s, t, i) && CallOk(t, i)
    requires t.closer == s.closer
    requires t.closer.Some? && s.w.wg == 0 ==> t.w.wg == 0 && (s.w.pending == [] ==> t.w.pending == [])
    ensures CallsOk(t)
  {
    forall k | 0 <= k < |s.calls| && k != i ensures CloserOk(t, k) {
      assert CallOk(s, k);
    }
    OtherCallsKept(s, t, i);
  }

  /** A step of call i that detaches nothing, settles nothing and moves no failure out of place. */
  lemma MoveKeeps(s: State, t: State, i: nat)
    requires Inv(s) && OnlyCall(s, t, i)
    requires t.calls == s.calls[i := t.calls[i]] && t.jobs == s.jobs && t.handed == s.handed && t.closer == s.closer
    requires forall j | 0 <= j < |s.jobs| && s.jobs[j].owner == i :: JobStage(t.calls[i].pc, s.jobs[j], j)
    requires CallOk(t, i) && GuardedOk(t) && OrderOk(t)
    requires t.closer.Some? && s.w.wg == 0 ==> t.w.wg == 0 && (s.w.pending == [] ==> t.w.pending == [])
    requires t.w.wg + One(Counted(s.w.flushRows, s.calls[i])) == s.w.wg + One(Counted(s.w.flushRows, t.calls[i]))
    requires multiset(t.w.pending) + multiset(Carried(t.calls[i].pc))
          == multiset(s.w.pending) + multiset(Carried(s.calls[i].pc))
    requires RowsNamed(t.w.pending) + RowsNamed(Carried(t.calls[i].pc))
          == RowsNamed(s.w.pending) + RowsNamed(Carried(s.calls[i].pc))
    ensures Inv(t)
  {
    CountMoves(s, t, i);
    FailuresMove(s, t, i, multiset{}, 0);
    CallsKept(s, t, i);
    JobsKept(s, t, i);
  }

  /** A call that has not started answers at once and changes nothing else. */
  lemma AnswerAtOnceKeeps(s: State, i: nat, outcome: Outcome)
    requires Inv(s) && i < |s.calls| && s.calls[i].pc.Start? && outcome.failures == []
    requires s.calls[i].op.WriteOp? && outcome.refused.None? ==> outcome.n == |s.calls[i].op.rows|
    ensures Inv(Goto(s, i, Returned(outcome)))
  {
    AnsweredAtOnce(s, i, outcome);
    StartOwnsNothing(s, i);
    MoveKeeps(s, Goto(s, i, Returned(outcome)), i);
  }

  lemma AnsweredAtOnce(s: State, i: nat, outcome: Outcome)
    requires CallsOk(s) && GuardedOk(s) && i < |s.calls| && s.calls[i].pc.Start? && outcome.failures == []
    requires s.calls[i].op.WriteOp? && outcome.refused.None? ==> outcome.n == |s.calls[i].op.rows|
    ensures var t := Goto(s, i, Returned(outcome)); CallOk(t, i) && GuardedOk(t)
  {
    assert CallOk(s, i);
  }

  lemma BufferedCall(s: State, i: nat, rows: seq<Row>)
    requires CallsOk(s) && GuardedOk(s) && i < |s.calls| && s.calls[i].pc.Start? && s.calls[i].op == WriteOp(rows)
    requires EnterWrite(s.w, rows).1.Buffered?
    ensures var t := NextWrite(s, i, rows); CallOk(t, i) && GuardedOk(t)
  {
    assert CallOk(s, i);
  }

  lemma OrderOnAccept(s: State, t: State, rows: seq<Row>)
    requires OrderOk(s) && t.jobs == s.jobs && t.accepted == s.accepted + rows && t.w.buf == s.w.buf + rows
    ensures OrderOk(t)
  {
    assert JobRows(s.jobs) + (s.w.buf + rows) == (JobRows(s.jobs) + s.w.buf) + rows;
  }

  lemma BufferedKeeps(s: State, i: nat, rows: seq<Row>)
    requires Inv(s) && i < |s.calls| && s.calls[i].pc.Start? && s.calls[i].op == WriteOp(rows)
    requires EnterWrite(s.w, rows).1.Buffered?
    ensures Inv(NextWrite(s, i, rows))
  {
    var t := NextWrite(s, i, rows);
    BufferedCall(s, i, rows);
    OrderOnAccept(s, t, rows);
    StartOwnsNothing(s, i);
    MoveKeeps(s, t, i);
  }

  lemma JobsKeptOnDetach(s: State, t: State, i: nat)
    requires JobsOk(s) && OnlyCall(s, t, i) && s.calls[i].pc.Start? && t.handed == s.handed
    requires |t.jobs| == |s.jobs| + 1 && t.jobs[..|s.jobs|] == s.jobs && JobOk(t, |s.jobs|)
    ensures JobsOk(t)
  {
    StartOwnsNothing(s, i);
    forall j | 0 <= j < |s.jobs| ensures JobOk(t, j) {
      assert JobOk(s, j);
      assert t.jobs[j] == t.jobs[..|s.jobs|][j];
    }
  }

  lemma DetachConserves(s: State, t: State, i: nat, job: Job)
    requires CountOk(s) && ConservedOk(s) && i < |s.calls| == |t.calls|
    requires s.calls[i].pc.Start? && job.fate == Waiting && t.w.flushRows == s.w.flushRows
    requires t.calls == s.calls[i := t.calls[i]] && t.jobs == s.jobs + [job]
    requires t.w.wg == s.w.wg + One(Counted(s.w.flushRows, t.calls[i]))
    requires multiset(t.w.pending) + multiset(Carried(t.calls[i].pc)) == multiset(s.w.pending)
    requires RowsNamed(t.w.pending) + RowsNamed(Carried(t.calls[i].pc)) == RowsNamed(s.w.pending)
    ensures CountOk(t) && ConservedOk(t)
  {
    CountMoves(s, t, i);
    DetachMeasures(s.jobs, job);
    FailuresMove(s, t, i, multiset{}, 0);
  }

  lemma OrderOnDetach(s: State, t: State, job: Job, rows: seq<Row>)
    requires OrderOk(s) && job.fate == Waiting && t.jobs == s.jobs + [job]
    requires t.accepted == s.accepted + rows && s.w.buf + rows == job.rows + t.w.buf
    ensures OrderOk(t)
  {
    DetachMeasures(s.jobs, job);
    calc {
      JobRows(t.jobs) + t.w.buf;
      (JobRows(s.jobs) + job.rows) + t.w.buf;
      JobRows(s.jobs) + (job.rows + t.w.buf);
      JobRows(s.jobs) + (s.w.buf + rows);
      (JobRows(s.jobs) + s.w.buf) + rows;
    }
  }

  /** A step that accepts rows and detaches one batch for call i to load. */
  lemma DetachKeeps(s: State, t: State, i: nat, job: Job, rows: seq<Row>)
    requires OrderOk(s) && CallsOk(s) && JobsOk(s) && HandedOk(s) && CountOk(s) && ConservedOk(s)
    requires OnlyCall(s, t, i) && s.calls[i].pc.Start? && job.fate == Waiting
    requires t.calls == s.calls[i := t.calls[i]] && t.jobs == s.jobs + [job] && t.handed == s.handed
    requires t.accepted == s.accepted + rows && s.w.buf + rows == job.rows + t.w.buf
    requires CallOk(t, i) && JobOk(t, |s.jobs|) && GuardedOk(t)
    requires forall k | 0 <= k < |s.calls| && k != i :: CloserOk(t, k)
    requires t.w.wg == s.w.wg + One(Counted(s.w.flushRows, t.calls[i]))
    requires multiset(t.w.pending) + multiset(Carried(t.calls[i].pc)) == multiset(s.w.pending)
    requires RowsNamed(t.w.pending) + RowsNamed(Carried(t.calls[i].pc)) == RowsNamed(s.w.pending)
    ensures Inv(t)
  {
    assert OrderOk(t) by { OrderOnDetach(s, t, job, rows); }
    assert CountOk(t) && ConservedOk(t) by { DetachConserves(s, t, i, job); }
    assert CallsOk(t) by { OtherCallsKept(s, t, i); }
    assert JobsOk(t) by { JobsKeptOnDetach(s, t, i); }
  }

  /** An open writer has no closer, so no other call is past Close's first section. */
  lemma NoCloserYet(s: State, t: State, i: nat)
    requires CallsOk(s) && GuardedOk(s) && !s.w.closed && OnlyCall(s, t, i)
    requires t.closer.None? || t.closer == Some(i)
    ensures forall k | 0 <= k < |s.calls| && k != i :: CloserOk(t, k)
  {
    forall k | 0 <= k < |s.calls| && k != i ensures CloserOk(t, k) {
      assert CallOk(s, k);
    }
  }

  lemma DirectCall(s: State, i: nat, rows: seq<Row>)
    requires CallsOk(s) && HandedOk(s) && GuardedOk(s) && i < |s.calls| && s.calls[i].pc.Start? && s.calls[i].op == WriteOp(rows)
    requires EnterWrite(s.w, rows).1.Direct?
    ensures var t := NextWrite(s, i, rows); CallOk(t, i) && JobOk(t, |s.jobs|) && GuardedOk(t)
  {
    assert CallOk(s, i);
  }

  lemma DirectKeeps(s: State, i: nat, rows: seq<Row>)
    requires Inv(s) && i < |s.calls| && s.calls[i].pc.Start? && s.calls[i].op == WriteOp(rows)
    requires EnterWrite(s.w, rows).1.Direct?
    ensures Inv(NextWrite(s, i, rows))
  {
    var t := NextWrite(s, i, rows);
    DirectCall(s, i, rows);
    NoCloserYet(s, t, i);
    assert s.w.buf + rows == rows + t.w.buf;
    DetachKeeps(s, t, i, Job(rows, i, DirectJob, Waiting), rows);
  }

  lemma ThresholdCall(s: State, i: nat, rows: seq<Row>)
    requires CallsOk(s) && HandedOk(s) && GuardedOk(s) && i < |s.calls| && s.calls[i].pc.Start? && s.calls[i].op == WriteOp(rows)
    requires EnterWrite(s.w, rows).1.Detached?
    ensures var t := NextWrite(s, i, rows); CallOk(t, i) && JobOk(t, |s.jobs|) && GuardedOk(t)
  {
    assert CallOk(s, i);
  }

  lemma ThresholdKeeps(s: State, i: nat, rows: seq<Row>)
    requires Inv(s) && i < |s.calls| && s.calls[i].pc.Start? && s.calls[i].op == WriteOp(rows)
    requires EnterWrite(s.w, rows).1.Detached?
    ensures Inv(NextWrite(s, i, rows))
  {
    var t := NextWrite(s, i, rows);
    ThresholdCall(s, i, rows);
    NoCloserYet(s, t, i);
    assert s.w.buf + rows == (s.w.buf + rows) + t.w.buf;
    DetachKeeps(s, t, i, Job(s.w.buf + rows, i, ThresholdJob, Waiting), rows);
  }

  lemma FlushKeeps(s: State, i: nat)
    requires Inv(s) && i < |s.calls| && s.calls[i].pc.Start? && s.calls[i].op.FlushOp?
    ensures Inv(NextFlush(s, i))
  {
    if s.w.closed {
      AnswerAtOnceKeeps(s, i, Outcome(0, [], Some(WriterClosed)));
    } else if |s.w.buf| > 0 {
      FlushBatchKeeps(s, i);
    } else {
      FlushEmptyKeeps(s, i);
    }
  }

  lemma FlushEmptyKeeps(s: State, i: nat)
    requires Inv(s) && i < |s.calls| && s.calls[i].pc.Start? && s.calls[i].op.FlushOp?
    requires !s.w.closed && s.w.buf == []
    ensures Inv(NextFlush(s, i))
  {
    assert CallOk(s, i);
    NoCloserYet(s, NextFlush(s, i), i);
    StartOwnsNothing(s, i);
    MoveKeeps(s, NextFlush(s, i), i);
  }

  lemma FlushCall(s: State, i: nat)
    requires CallsOk(s) && HandedOk(s) && GuardedOk(s) && i < |s.calls| && s.calls[i].pc.Start? && s.calls[i].op.FlushOp?
    requires !s.w.closed && |s.w.buf| > 0
    ensures var t := NextFlush(s, i); CallOk(t, i) && JobOk(t, |s.jobs|) && GuardedOk(t)
  {
    assert CallOk(s, i);
  }

  lemma FlushBatchKeeps(s: State, i: nat)
    requires Inv(s) && i < |s.calls| && s.calls[i].pc.Start? && s.calls[i].op.FlushOp?
    requires !s.w.closed && |s.w.buf| > 0
    ensures Inv(NextFlush(s, i))
  {
    var t := NextFlush(s, i);
    FlushCall(s, i);
    NoCloserYet(s, t, i);
    assert s.w.buf + [] == s.w.buf + t.w.buf && t.accepted == s.accepted + [];
    DetachKeeps(s, t, i, Job(s.w.buf, i, FlushJob, Waiting), []);
  }

  lemma CloseKeeps(s: State, i: nat)
    requires Inv(s) && i < |s.calls| && s.calls[i].pc.Start? && s.calls[i].op.CloseOp?
    ensures Inv(NextClose(s, i))
  {
    if s.w.closed {
      AnswerAtOnceKeeps(s, i, Outcome(0, [], None));
    } else if |s.w.buf| > 0 {
      CloseBatchKeeps(s, i);
    } else {
      CloseEmptyKeeps(s, i);
    }
  }

  lemma CloseCall(s: State, i: nat)
    requires CallsOk(s) && HandedOk(s) && GuardedOk(s) && i < |s.calls| && s.calls[i].pc.Start? && s.calls[i].op.CloseOp?
    requires !s.w.closed && |s.w.buf| > 0
    ensures var t := NextClose(s, i); CallOk(t, i) && JobOk(t, |s.jobs|) && GuardedOk(t)
  {
    assert CallOk(s, i);
  }

  lemma CloseBatchKeeps(s: State, i: nat)
    requires Inv(s) && i < |s.calls| && s.calls[i].pc.Start? && s.calls[i].op.CloseOp?
    requires !s.w.closed && |s.w.buf| > 0
    ensures Inv(NextClose(s, i))
  {
    var t := NextClose(s, i);
    CloseCall(s, i);
    NoCloserYet(s, t, i);
    assert s.w.buf + [] == s.w.buf + t.w.buf && t.accepted == s.accepted + [];
    DetachKeeps(s, t, i, Job(s.w.buf, i, CloseJob, Waiting), []);
  }

  lemma CloseEmptyKeeps(s: State, i: nat)
    requires Inv(s) && i < |s.calls| && s.calls[i].pc.Start? && s.calls[i].op.CloseOp?
    requires !s.w.closed && s.w.buf == []
    ensures Inv(NextClose(s, i))
  {
    var t := NextClose(s, i);
    assert CallOk(s, i);
    NoCloserYet(s, t, i);
    StartOwnsNothing(s, i);
    assert CountOk(t) by { CountMoves(s, t, i); }
    assert ConservedOk(t) by { FailuresMove(s, t, i, multiset{}, 0); }
    assert CallsOk(t) by { OtherCallsKept(s, t, i); }
    assert JobsOk(t) by { JobsKept(s, t, i); }
  }

  /** A call with a job at hand owns no other. */
  lemma OwnsOne(s: State, i: nat)
    requires JobsOk(s) && i < |s.calls|
    ensures forall j | 0 <= j < |s.jobs| && s.jobs[j].owner == i :: JobStage(s.calls[i].pc, s.jobs[j], j)
  {
    forall j | 0 <= j < |s.jobs| && s.jobs[j].owner == i ensures JobStage(s.calls[i].pc, s.jobs[j], j) {
      assert JobOk(s, j);
    }
  }

  lemma WaitKeeps(s: State, i: nat)
    requires Inv(s) && Enabled(s, Wait(i))
    ensures Inv(Next(s, Wait(i)))
  {
    WaitedCall(s, i);
    OwnsOne(s, i);
    MoveKeeps(s, Next(s, Wait(i)), i);
  }

  lemma WaitedCall(s: State, i: nat)
    requires CallsOk(s) && GuardedOk(s) && Enabled(s, Wait(i))
    ensures CallOk(Next(s, Wait(i)), i) && GuardedOk(Next(s, Wait(i)))
  {
    assert CallOk(s, i);
  }

  lemma TakeKeeps(s: State, i: nat)
    requires Inv(s) && Enabled(s, Take(i))
    ensures Inv(Next(s, Take(i)))
  {
    var t := Next(s, Take(i));
    assert CallOk(s, i);
    OwnsOne(s, i);
    MoveKeeps(s, t, i);
  }

  /** A step that only changes the fate of the job call i owns. */
  lemma FateKeepsJobs(s: State, t: State, i: nat, job: nat, fate: Fate)
    requires JobsOk(s) && OnlyCall(s, t, i) && job < |s.jobs| && t.jobs == WithFate(s.jobs, job, fate)
    requires s.calls[i].pc.Holding? || s.calls[i].pc.Loading?
    requires job == s.calls[i].pc.job && fate != Waiting && JobStage(t.calls[i].pc, t.jobs[job], job)
    requires job in t.handed && (forall j | j != job :: j in t.handed <==> j in s.handed)
    ensures JobsOk(t)
  {
    forall j | 0 <= j < |t.jobs| ensures JobOk(t, j) {
      assert JobOk(s, j);
    }
  }

  lemma FateConserves(s: State, t: State, i: nat, job: nat, fate: Fate, lost: seq<Failure>)
    requires OrderOk(s) && CountOk(s) && ConservedOk(s) && i < |s.calls| == |t.calls|
    requires t.calls == s.calls[i := t.calls[i]] && t.w == s.w && t.accepted == s.accepted
    requires job < |s.jobs| && s.jobs[job].fate != Lost && t.jobs == WithFate(s.jobs, job, fate)
    requires Counted(s.w.flushRows, s.calls[i]) == Counted(s.w.flushRows, t.calls[i])
    requires lost == if fate == Lost then [FailureOf(s, job)] else []
    requires Carried(t.calls[i].pc) == Carried(s.calls[i].pc) + lost
    ensures OrderOk(t) && CountOk(t) && ConservedOk(t)
  {
    FateKeepsRows(s.jobs, job, fate);
    CountMoves(s, t, i);
    FateMovesLosses(s.jobs, job, fate);
    RowsNamedAppend(Carried(s.calls[i].pc), lost);
    assert multiset(Carried(t.calls[i].pc)) == multiset(Carried(s.calls[i].pc)) + multiset(lost);
    FailuresMove(s, t, i, multiset(lost), RowsNamed(lost));
  }

  lemma SubmittedCall(s: State, i: nat)
    requires CallsOk(s) && JobsOk(s) && HandedOk(s) && Enabled(s, Submit(i))
    ensures s.jobs[s.calls[i].pc.job].fate == Waiting
    ensures var t := Next(s, Submit(i)); CallsOk(t) && JobsOk(t) && HandedOk(t)
  {
    var t := Next(s, Submit(i));
    var job := s.calls[i].pc.job;
    assert CallOk(s, i) && JobOk(s, job);
    assert CallOk(t, i);
    CallsKept(s, t, i);
    FateKeepsJobs(s, t, i, job, InFlight);
  }

  lemma SubmitKeeps(s: State, i: nat)
    requires Inv(s) && Enabled(s, Submit(i))
    ensures Inv(Next(s, Submit(i)))
  {
    SubmittedCall(s, i);
    SubmitConserves(s, i);
    SubmitGuards(s, i);
  }

  lemma SubmitConserves(s: State, i: nat)
    requires OrderOk(s) && CountOk(s) && ConservedOk(s) && Enabled(s, Submit(i))
    requires s.jobs[s.calls[i].pc.job].fate == Waiting
    ensures var t := Next(s, Submit(i)); OrderOk(t) && CountOk(t) && ConservedOk(t)
  {
    FateConserves(s, Next(s, Submit(i)), i, s.calls[i].pc.job, InFlight, []);
  }

  lemma SubmitGuards(s: State, i: nat)
    requires GuardedOk(s) && JobsOk(s) && Enabled(s, Submit(i))
    ensures GuardedOk(Next(s, Submit(i)))
  {
  }

  lemma AnsweredCall(s: State, i: nat, landed: bool)
    requires CallsOk(s) && JobsOk(s) && Enabled(s, Answer(i, landed))
    ensures s.jobs[s.calls[i].pc.job].fate == InFlight
    ensures var t := Next(s, Answer(i, landed)); CallsOk(t) && JobsOk(t)
  {
    var t := Next(s, Answer(i, landed));
    AnsweredOk(s, i, landed);
    CallsKept(s, t, i);
    FateKeepsJobs(s, t, i, s.calls[i].pc.job, if landed then Landed else Lost);
  }

  lemma AnsweredOk(s: State, i: nat, landed: bool)
    requires CallsOk(s) && JobsOk(s) && Enabled(s, Answer(i, landed))
    ensures s.jobs[s.calls[i].pc.job].fate == InFlight && s.calls[i].pc.job in s.handed
    ensures CallOk(Next(s, Answer(i, landed)), i)
  {
    assert CallOk(s, i) && JobOk(s, s.calls[i].pc.job);
  }

  lemma AnswerConserves(s: State, i: nat, landed: bool)
    requires OrderOk(s) && CountOk(s) && ConservedOk(s) && Enabled(s, Answer(i, landed))
    requires s.jobs[s.calls[i].pc.job].fate == InFlight
    ensures var t := Next(s, Answer(i, landed)); OrderOk(t) && CountOk(t) && ConservedOk(t)
  {
    var t := Next(s, Answer(i, landed));
    var job := s.calls[i].pc.job;
    if landed {
      FateConserves(s, t, i, job, Landed, []);
    } else {
      FateConserves(s, t, i, job, Lost, [FailureOf(s, job)]);
    }
  }

  lemma AnswerKeeps(s: State, i: nat, landed: bool)
    requires Inv(s) && Enabled(s, Answer(i, landed))
    ensures Inv(Next(s, Answer(i, landed)))
  {
    AnsweredCall(s, i, landed);
    AnswerConserves(s, i, landed);
    AnswerGuards(s, i, landed);
  }

  lemma AnswerGuards(s: State, i: nat, landed: bool)
    requires HandedOk(s) && GuardedOk(s) && JobsOk(s) && Enabled(s, Answer(i, landed))
    requires s.jobs[s.calls[i].pc.job].fate == InFlight
    ensures var t := Next(s, Answer(i, landed)); HandedOk(t) && GuardedOk(t)
  {
  }

  lemma RecordedCall(s: State, i: nat)
    requires CallsOk(s) && JobsOk(s) && CountOk(s) && GuardedOk(s) && Enabled(s, KeepFailure(i))
    ensures s.w.wg > 0
    ensures s.calls[i].pc.told == [FailureOf(s, s.calls[i].pc.job)]
    ensures CallOk(Next(s, KeepFailure(i)), i) && GuardedOk(Next(s, KeepFailure(i)))
  {
    assert CallOk(s, i) && JobOk(s, s.calls[i].pc.job);
    CountedIsCounted(s.w.flushRows, s.calls, i);
  }

  lemma RecordKeeps(s: State, i: nat)
    requires Inv(s) && Enabled(s, KeepFailure(i))
    ensures Inv(Next(s, KeepFailure(i)))
  {
    var t := Next(s, KeepFailure(i));
    RecordedCall(s, i);
    assert t.w.pending == s.w.pending + s.calls[i].pc.told;
    RowsNamedAppend(s.w.pending, s.calls[i].pc.told);
    OwnsOne(s, i);
    MoveKeeps(s, t, i);
  }

  lemma FinishedCall(s: State, i: nat)
    requires CallsOk(s) && JobsOk(s) && Enabled(s, Finish(i))
    ensures CallOk(Next(s, Finish(i)), i)
    ensures Carried(Next(s, Finish(i)).calls[i].pc) == Carried(s.calls[i].pc)
    ensures forall j | 0 <= j < |s.jobs| && s.jobs[j].owner == i ::
              JobStage(Next(s, Finish(i)).calls[i].pc, s.jobs[j], j)
  {
    assert CallOk(s, i) && JobOk(s, s.calls[i].pc.job);
    OwnsOne(s, i);
  }

  lemma FinishKeeps(s: State, i: nat)
    requires Inv(s) && Enabled(s, Finish(i))
    ensures Inv(Next(s, Finish(i)))
  {
    FinishedCall(s, i);
    MoveKeeps(s, Next(s, Finish(i)), i);
  }

  lemma WriteKeeps(s: State, i: nat, rows: seq<Row>)
    requires Inv(s) && i < |s.calls| && s.calls[i].pc.Start? && s.calls[i].op == WriteOp(rows)
    ensures Inv(NextWrite(s, i, rows))
  {
    match EnterWrite(s.w, rows).1
    case Nothing => AnswerAtOnceKeeps(s, i, Outcome(0, [], None));
    case Refused(e) => AnswerAtOnceKeeps(s, i, Outcome(0, [], Some(e)));
    case Direct => DirectKeeps(s, i, rows);
    case Buffered => BufferedKeeps(s, i, rows);
    case Detached(_) => ThresholdKeeps(s, i, rows);
  }

  lemma EnterKeeps(s: State, i: nat)
    requires Inv(s) && Enabled(s, Enter(i))
    ensures Inv(Next(s, Enter(i)))
  {
    match s.calls[i].op
    case WriteOp(rows) => WriteKeeps(s, i, rows);
    case FlushOp => FlushKeeps(s, i);
    case CloseOp => CloseKeeps(s, i);
  }

  lemma StepKeeps(s: State, step: Step)
    requires Inv(s) && Enabled(s, step)
    ensures Inv(Next(s, step))
  {
    match step
    case Invoke(op) => InvokeKeeps(s, op);
    case Bind => BindKeeps(s);
    case Enter(i) => EnterKeeps(s, i);
    case Wait(i) => WaitKeeps(s, i);
    case Take(i) => TakeKeeps(s, i);
    case Submit(i) => SubmitKeeps(s, i);
    case Answer(i, landed) => AnswerKeeps(s, i, landed);
    case KeepFailure(i) => RecordKeeps(s, i);
    case Finish(i) => FinishKeeps(s, i);
  }
}
