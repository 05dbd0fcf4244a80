/**
 What a Sinker does with the rows it is handed (bqsink.go:474-485, 544-656): it reconciles
 the table and binds the schema once, before the first batch, and keeps the outcome; it
 writes a batch whole or not at all; and it does not let a writer lose rows quietly.
 The table, the writer and the conversion of each row answer as oracles.
 */
module Sinking {
  import opened Wrappers
  import opened Values

  /** One row as handed over: its type, and what FillRow and the conversion make of it. */
  datatype Given = Given(rowType: nat, prepared: Option<Row>)

  /** The rows argument; None is a nil element of a []any. */
  datatype Handed = NilRows | Single(row: Given) | Batch(rows: seq<Option<Given>>)

  /** What the Sinker has done to the table and the writer. */
  datatype Event = Migrate | Bind | Write(rows: seq<Row>)

  /** How the k-th event is answered; a write accepted settles n rows, with an error or not. */
  datatype Answer = Refused | NoResult | Settled(n: int, failed: bool)

  datatype Sinker = Sinker(connected: bool, rowType: nat, started: bool, startFailed: bool, log: seq<Event>)

  datatype Sunk = Sunk(n: int, failed: bool)

  const FAILED := Sunk(0, true)

  type Answers = nat -> Answer

  /** rowsOf. */
  function RowsOf(handed: Handed): Option<seq<Given>> {
    match handed
    case NilRows => None
    case Single(row) => Some([row])
    case Batch(rows) =>
      if forall i | 0 <= i < |rows| :: rows[i].Some? then
        Some(seq(|rows|, i requires 0 <= i < |rows| => rows[i].value))
      else None
  }

  function New(connected: bool, rowType: nat): Sinker {
    Sinker(connected, rowType, false, false, [])
  }

  /** start. */
  function Start(s: Sinker, answers: Answers): Sinker {
    if s.started then s
    else if s.connected && answers(|s.log|) == Refused then
      s.(started := true, startFailed := true, log := s.log + [Migrate])
    else
      var log := if s.connected then s.log + [Migrate] else s.log;
      s.(started := true, startFailed := answers(|log|) == Refused, log := log + [Bind])
  }

  /** Everything the batch needs before the writer sees it, once the Sinker has started. */
  function Prepared(rows: seq<Given>): Option<seq<Row>> {
    if forall i | 0 <= i < |rows| :: rows[i].prepared.Some? then
      Some(seq(|rows|, i requires 0 <= i < |rows| => rows[i].prepared.value))
    else None
  }

  /** What a call has come to before it reaches the writer: an answer, or rows to write. */
  datatype Entry = Answered(sunk: Sunk) | Holding(rows: seq<Row>)

  /** send up to WriteRows: the batch is read and checked, the Sinker started, every row prepared. */
  function Begin(s: Sinker, handed: Handed, answers: Answers): (Sinker, Entry) {
    match RowsOf(handed)
    case None => (s, Answered(FAILED))
    case Some(rows) =>
      if rows == [] then (s, Answered(Sunk(0, false)))
      else if exists i | 0 <= i < |rows| :: rows[i].rowType != s.rowType then (s, Answered(FAILED))
      else
        var t := Start(s, answers);
        if t.startFailed || Prepared(rows).None? then (t, Answered(FAILED)) else (t, Holding(Prepared(rows).value))
  }

  /** WriteRows, the wait for its result, and the guard against a short count. */
  function Deliver(s: Sinker, rows: seq<Row>, answers: Answers): (Sinker, Sunk) {
    (s.(log := s.log + [Write(rows)]),
     match answers(|s.log|)
     case Settled(n, failed) => Sunk(n, failed || n != |rows|)
     case _ => FAILED)
  }

  /** Sink, with no other call in between. */
  function Sink(s: Sinker, handed: Handed, answers: Answers): (Sinker, Sunk) {
    match Begin(s, handed, answers)
    case (t, Answered(sunk)) => (t, sunk)
    case (t, Holding(rows)) => Deliver(t, rows, answers)
  }

  // ---- The loops and the guards as the code has them ----

  method ReadRows(handed: Handed) returns (rows: Option<seq<Given>>)
    ensures rows == RowsOf(handed)
  {
    if handed.NilRows? {
      return None;
    }
    if handed.Single? {
      return Some([handed.row]);
    }
    var out := [];
    for i := 0 to |handed.rows|
      invariant |out| == i && forall k | 0 <= k < i :: handed.rows[k] == Some(out[k])
    {
      if handed.rows[i].None? {
        return None;
      }
      out := out + [handed.rows[i].value];
    }
    assert out == RowsOf(handed).value;
    return Some(out);
  }

  /** batchRowType: None when the batch mixes types. */
  method BatchRowType(rows: seq<Given>) returns (rowType: Option<nat>)
    requires rows != []
    ensures rowType.None? <==> exists i | 0 <= i < |rows| :: rows[i].rowType != rows[0].rowType
    ensures rowType.Some? ==> rowType.value == rows[0].rowType
  {
    for i := 1 to |rows|
      invariant forall k | 0 <= k < i :: rows[k].rowType == rows[0].rowType
    {
      if rows[i].rowType != rows[0].rowType {
        return None;
      }
    }
    return Some(rows[0].rowType);
  }

  /** The Sinker as it is: what it keeps between calls are started and startFailed. */
  class LiveSinker {
    const connected: bool
    const rowType: nat
    const answers: Answers
    var started: bool
    var startFailed: bool
    var log: seq<Event>

    function State(): Sinker
      reads this
    {
      Sinker(connected, rowType, started, startFailed, log)
    }

    constructor (connected: bool, rowType: nat, answers: Answers)
      ensures State() == New(connected, rowType) && this.answers == answers
    {
      this.connected, this.rowType, this.answers := connected, rowType, answers;
      started, startFailed, log := false, false, [];
    }

    method StartOnce() returns (ok: bool)
      modifies this
      ensures State() == Start(old(State()), answers)
      ensures ok == !startFailed
    {
      if !started {
        started := true;
        if connected {
          var answer := answers(|log|);
          log := log + [Migrate];
          if answer == Refused {
            startFailed := true;
            return false;
          }
        }
        startFailed := answers(|log|) == Refused;
        log := log + [Bind];
      }
      return !startFailed;
    }

    method SinkRows(handed: Handed) returns (sunk: Sunk)
      modifies this
      ensures (State(), sunk) == Sink(old(State()), handed, answers)
    {
      var rows := ReadRows(handed);
      if rows.None? {
        return FAILED;
      }
      if rows.value == [] {
        return Sunk(0, false);
      }
      var batchType := BatchRowType(rows.value);
      if batchType != Some(rowType) {
        return FAILED;
      }
      var ok := StartOnce();
      if !ok {
        return FAILED;
      }
      var out := [];
      for i := 0 to |rows.value|
        invariant State() == Start(old(State()), answers)
        invariant |out| == i && forall k | 0 <= k < i :: rows.value[k].prepared == Some(out[k])
      {
        if rows.value[i].prepared.None? {
          return FAILED;
        }
        out := out + [rows.value[i].prepared.value];
      }
      assert out == Prepared(rows.value).value;
      var answer := answers(|log|);
      log := log + [Write(out)];
      if !answer.Settled? {
        return FAILED;
      }
      return Sunk(answer.n, answer.failed || answer.n != |out|);
    }
  }

  // ---- Calls that overlap ----

  /**
   Any number of Sink calls at once. One of them starts the Sinker while the others wait for
   it under startOnce, so starting is one step; preparing rows touches nothing shared; then
   the batches reach the writer in any order.
   */
  datatype Phase = Fresh | Ready(rows: seq<Row>) | Returned(sunk: Sunk)

  datatype Call = Call(handed: Handed, phase: Phase)

  /** writers: the calls that have written, in the order they did. */
  datatype State = State(sinker: Sinker, calls: seq<Call>, writers: seq<nat>)

  datatype Step = Arrive(handed: Handed) | Enter(i: nat) | Hand(i: nat)

  predicate Init(s: State) {
    s.sinker == New(s.sinker.connected, s.sinker.rowType) && s.calls == [] && s.writers == []
  }

  predicate Enabled(s: State, step: Step) {
    match step
    case Arrive(_) => true
    case Enter(i) => i < |s.calls| && s.calls[i].phase.Fresh?
    case Hand(i) => i < |s.calls| && s.calls[i].phase.Ready?
  }

  function Goto(calls: seq<Call>, i: nat, phase: Phase): seq<Call>
    requires i < |calls|
  {
    calls[i := calls[i].(phase := phase)]
  }

  function Next(s: State, step: Step, answers: Answers): State
    requires Enabled(s, step)
  {
    match step
    case Arrive(handed) => s.(calls := s.calls + [Call(handed, Fresh)])
    case Enter(i) =>
      var (t, entry) := Begin(s.sinker, s.calls[i].handed, answers);
      var phase := match entry case Answered(sunk) => Returned(sunk) case Holding(rows) => Ready(rows);
      s.(sinker := t, calls := Goto(s.calls, i, phase))
    case Hand(i) =>
      var (t, sunk) := Deliver(s.sinker, s.calls[i].phase.rows, answers);
      s.(sinker := t, calls := Goto(s.calls, i, Returned(sunk)), writers := s.writers + [i])
  }

  predicate IsRun(states: seq<State>, steps: seq<Step>, answers: Answers) {
    && |states| == |steps| + 1
    && Init(states[0])
    && forall k | 0 <= k < |steps| :: Enabled(states[k], steps[k]) && states[k + 1] == Next(states[k], steps[k], answers)
  }

  /** What starting does, when every step of it succeeds. */
  function StartUp(connected: bool): seq<Event> {
    (if connected then [Migrate] else []) + [Bind]
  }

  /** The number of rows a call was handed, where it can be told. */
  function Count(handed: Handed): nat {
    match handed
    case NilRows => 0
    case Single(_) => 1
    case Batch(rows) => |rows|
  }

  /** The rows are the batch's own, all of them, in order and as each was prepared. */
  predicate IsBatch(handed: Handed, rows: seq<Row>) {
    rows != [] &&
    match handed
    case NilRows => false
    case Single(given) => |rows| == 1 && given.prepared == Some(rows[0])
    case Batch(all) => |rows| == |all| && forall i | 0 <= i < |all| :: all[i].Some? && all[i].value.prepared == Some(rows[i])
  }

  /** The write the k-th writer caused. */
  predicate WroteIts(s: State, k: nat)
    requires k < |s.writers|
  {
    var at := |StartUp(s.sinker.connected)| + k;
    && s.writers[k] < |s.calls| && at < |s.sinker.log|
    && s.sinker.log[at].Write? && IsBatch(s.calls[s.writers[k]].handed, s.sinker.log[at].rows)
  }

  /**
   Nothing before the start-up. When some step of it failed, that is the end of the log.
   Otherwise all of it, and then one write for each call that has written: its whole batch.
   */
  predicate LogOk(s: State, answers: Answers) {
    var k := s.sinker;
    if !k.started then !k.startFailed && k.log == [] && s.writers == []
    else if k.startFailed then
      0 < |k.log| && k.log <= StartUp(k.connected) && answers(|k.log| - 1) == Refused && s.writers == []
    else
      && StartUp(k.connected) <= k.log
      && (forall i | 0 <= i < |StartUp(k.connected)| :: answers(i) != Refused)
      && |k.log| == |StartUp(k.connected)| + |s.writers|
      && (forall j | 0 <= j < |s.writers| :: WroteIts(s, j))
  }

  predicate CallOk(s: State, i: nat)
    requires i < |s.calls|
  {
    match s.calls[i].phase
    case Fresh => i !in s.writers
    case Ready(rows) =>
      i !in s.writers && s.sinker.started && !s.sinker.startFailed && IsBatch(s.calls[i].handed, rows)
    case Returned(sunk) =>
      !sunk.failed ==> sunk.n == Count(s.calls[i].handed) && (Count(s.calls[i].handed) > 0 <==> i in s.writers)
  }

  predicate Inv(s: State, answers: Answers) {
    && LogOk(s, answers)
    && (forall j, k | 0 <= j < k < |s.writers| :: s.writers[j] != s.writers[k])
    && (forall j | 0 <= j < |s.writers| :: s.writers[j] < |s.calls|)
    && (forall i | 0 <= i < |s.calls| :: CallOk(s, i))
  }

  lemma ArriveKeeps(s: State, handed: Handed, answers: Answers)
    requires Inv(s, answers)
    ensures Inv(Next(s, Arrive(handed), answers), answers)
  {
    var t := Next(s, Arrive(handed), answers);
    forall j | 0 <= j < |s.writers| && s.sinker.started && !s.sinker.startFailed ensures WroteIts(t, j) {
      assert WroteIts(s, j);
    }
    forall i | 0 <= i < |t.calls| ensures CallOk(t, i) {
      if i < |s.calls| {
        assert CallOk(s, i);
      }
    }
  }

  /** What starting adds to the log: all of the start-up when it succeeds, a part of it when it fails. */
  lemma StartAdds(k: Sinker, answers: Answers)
    requires !k.started && k.log == []
    ensures
      var t := Start(k, answers);
      && t.started && t.connected == k.connected
      && (if t.startFailed then 0 < |t.log| && t.log <= StartUp(k.connected) && answers(|t.log| - 1) == Refused
          else t.log == StartUp(k.connected) && forall i | 0 <= i < |t.log| :: answers(i) != Refused)
  {
    assert StartUp(k.connected) == if k.connected then [Migrate, Bind] else [Bind];
  }

  lemma HeldIsBatch(k: Sinker, handed: Handed, answers: Answers)
    ensures Begin(k, handed, answers).1.Holding? ==> IsBatch(handed, Begin(k, handed, answers).1.rows)
  {
  }

  lemma EnterKeeps(s: State, i: nat, answers: Answers)
    requires Inv(s, answers) && Enabled(s, Enter(i))
    ensures Inv(Next(s, Enter(i), answers), answers)
  {
    var t := Next(s, Enter(i), answers);
    assert CallOk(s, i);
    HeldIsBatch(s.sinker, s.calls[i].handed, answers);
    if !s.sinker.started {
      StartAdds(s.sinker, answers);
    } else {
      assert t.sinker == s.sinker;
    }
    forall j | 0 <= j < |s.writers| && s.sinker.started && !s.sinker.startFailed ensures WroteIts(t, j) {
      assert WroteIts(s, j);
    }
    forall c | 0 <= c < |t.calls| ensures CallOk(t, c) {
      assert CallOk(s, c);
    }
  }

  lemma HandKeeps(s: State, i: nat, answers: Answers)
    requires Inv(s, answers) && Enabled(s, Hand(i))
    ensures Inv(Next(s, Hand(i), answers), answers)
  {
    var t := Next(s, Hand(i), answers);
    assert CallOk(s, i);
    forall j | 0 <= j < |t.writers| ensures WroteIts(t, j) {
      if j < |s.writers| {
        assert WroteIts(s, j);
      }
    }
    forall c | 0 <= c < |t.calls| ensures CallOk(t, c) {
      assert CallOk(s, c);
    }
  }

  lemma RunKeeps(states: seq<State>, steps: seq<Step>, answers: Answers, k: nat)
    requires IsRun(states, steps, answers) && k < |states|
    ensures Inv(states[k], answers)
  {
    for j := 0 to k
      invariant Inv(states[j], answers)
    {
      match steps[j] {
        case Arrive(handed) => ArriveKeeps(states[j], handed, answers);
        case Enter(i) => EnterKeeps(states[j], i, answers);
        case Hand(i) => HandKeeps(states[j], i, answers);
      }
    }
  }

  /**
   However many calls there are and however they overlap, the table is migrated at most once
   and the schema bound at most once, both before any row is written, and after a failed start
   nothing is written.
   */
  lemma EveryRunStartsOnce(states: seq<State>, steps: seq<Step>, answers: Answers, k: nat)
    requires IsRun(states, steps, answers) && k < |states|
    ensures
      var s := states[k].sinker;
      var start := StartUp(s.connected);
      && (!s.started ==> s.log == [])
      && (s.startFailed ==> 0 < |s.log| && s.log <= start && answers(|s.log| - 1) == Refused)
      && (s.started && !s.startFailed ==>
            && start <= s.log
            && (forall j | 0 <= j < |start| :: answers(j) != Refused)
            && (forall j | |start| <= j < |s.log| :: s.log[j].Write? && s.log[j].rows != []))
  {
    var s := states[k];
    RunKeeps(states, steps, answers, k);
    if s.sinker.started && !s.sinker.startFailed {
      var n := |StartUp(s.sinker.connected)|;
      forall j | n <= j < |s.sinker.log| ensures s.sinker.log[j].Write? && s.sinker.log[j].rows != [] {
        assert WroteIts(s, j - n);
      }
    }
  }

  /**
   At every moment of every run the writes in the log are those of distinct calls, one each,
   and each is that call's whole batch, in order; a call that has returned without an error
   settled every row it was handed, and is one of them unless it was handed none.
   */
  lemma NothingLostQuietly(states: seq<State>, steps: seq<Step>, answers: Answers, k: nat)
    requires IsRun(states, steps, answers) && k < |states|
    ensures
      var s := states[k];
      && (s.sinker.started && !s.sinker.startFailed ==> |s.sinker.log| == |StartUp(s.sinker.connected)| + |s.writers|)
      && (!s.sinker.started || s.sinker.startFailed ==> s.writers == [])
      && (forall j, l | 0 <= j < l < |s.writers| :: s.writers[j] != s.writers[l])
      && (forall j | 0 <= j < |s.writers| :: WroteIts(s, j))
      && (forall i | 0 <= i < |s.calls| && s.calls[i].phase.Returned? && !s.calls[i].phase.sunk.failed ::
            && s.calls[i].phase.sunk.n == Count(s.calls[i].handed)
            && (Count(s.calls[i].handed) > 0 <==> i in s.writers))
  {
    var s := states[k];
    RunKeeps(states, steps, answers, k);
    forall j | 0 <= j < |s.writers|
      ensures WroteIts(s, j)
    {
      assert s.sinker.started && !s.sinker.startFailed;
    }
    forall i | 0 <= i < |s.calls| && s.calls[i].phase.Returned? && !s.calls[i].phase.sunk.failed
      ensures s.calls[i].phase.sunk.n == Count(s.calls[i].handed)
      ensures Count(s.calls[i].handed) > 0 <==> i in s.writers
    {
      assert CallOk(s, i);
    }
  }

  /** What is written stays written, and in its place. */
  lemma LogGrows(states: seq<State>, steps: seq<Step>, answers: Answers, k: nat, m: nat)
    requires IsRun(states, steps, answers) && k <= m < |states|
    ensures states[k].sinker.log <= states[m].sinker.log && states[k].writers <= states[m].writers
  {
    for j := k to m
      invariant states[k].sinker.log <= states[j].sinker.log && states[k].writers <= states[j].writers
    {
      LogGrowsOnce(states[j], steps[j], answers);
    }
  }

  lemma LogGrowsOnce(s: State, step: Step, answers: Answers)
    requires Enabled(s, step)
    ensures s.sinker.log <= Next(s, step, answers).sinker.log && s.writers <= Next(s, step, answers).writers
  {
  }

  // ---- What a call is told ----

  /** Every row is there, and is of the Sinker's type. */
  predicate OfType(handed: Handed, rowType: nat) {
    match handed
    case NilRows => false
    case Single(given) => given.rowType == rowType
    case Batch(all) => forall i | 0 <= i < |all| :: all[i].Some? && all[i].value.rowType == rowType
  }

  /** Starting has succeeded, or does now: neither the migration nor the binding is refused. */
  predicate Starts(s: Sinker, answers: Answers) {
    if s.started then !s.startFailed
    else (s.connected ==> answers(|s.log|) != Refused) && answers(if s.connected then |s.log| + 1 else |s.log|) != Refused
  }

  /** Where the next write of a Sinker that starts, or has started, is in its log. */
  function WriteAt(s: Sinker): nat {
    if s.started then |s.log| else |s.log| + (if s.connected then 2 else 1)
  }

  lemma TypesAre(handed: Handed, rowType: nat)
    requires RowsOf(handed).Some?
    ensures OfType(handed, rowType) <==> !exists i | 0 <= i < |RowsOf(handed).value| :: RowsOf(handed).value[i].rowType != rowType
  {
    var rows := RowsOf(handed).value;
    if handed.Single? {
      assert rows[0] == handed.row;
    } else {
      assert forall i | 0 <= i < |handed.rows| :: rows[i] == handed.rows[i].value;
    }
  }

  lemma BeginsWhen(s: Sinker, handed: Handed, answers: Answers)
    ensures
      var (t, entry) := Begin(s, handed, answers);
      if handed == Batch([]) then t == s && entry == Answered(Sunk(0, false))
      else if !OfType(handed, s.rowType) then t == s && entry == Answered(FAILED)
      else
        && t.started && (s.started ==> t == s) && t.connected == s.connected && t.rowType == s.rowType
        && (t.startFailed <==> !Starts(s, answers))
        && (Starts(s, answers) ==> |t.log| == WriteAt(s))
        && (if Starts(s, answers) && exists rows :: IsBatch(handed, rows)
            then entry.Holding? && IsBatch(handed, entry.rows)
            else entry == Answered(FAILED))
  {
    if RowsOf(handed).Some? {
      TypesAre(handed, s.rowType);
    }
    if handed != Batch([]) && OfType(handed, s.rowType) {
      if rows :| IsBatch(handed, rows) {
        assert Prepared(RowsOf(handed).value).Some?;
      }
      HeldIsBatch(s, handed, answers);
    }
  }

  /**
   Sink returns without an error exactly when it was handed no rows at all, or every row is there,
   of the Sinker's type and prepared, the start succeeds, and the writer settles exactly that many
   rows without an error of its own; then it returns their number.
   */
  lemma SinkSucceedsExactlyWhen(s: Sinker, handed: Handed, answers: Answers)
    ensures
      var sunk := Sink(s, handed, answers).1;
      && (!sunk.failed <==>
            || handed == Batch([])
            || (&& OfType(handed, s.rowType) && (exists rows :: IsBatch(handed, rows)) && Starts(s, answers)
                && answers(WriteAt(s)) == Settled(Count(handed), false)))
      && (!sunk.failed ==> sunk.n == Count(handed))
  {
    BeginsWhen(s, handed, answers);
    var (t, entry) := Begin(s, handed, answers);
    if entry.Holding? {
      assert |entry.rows| == Count(handed);
    }
  }

  /** The same of a call among others: it comes to rows to write, or is answered at once. */
  lemma EntryAnswered(s: State, i: nat, answers: Answers)
    requires Enabled(s, Enter(i))
    ensures
      var t, handed := Next(s, Enter(i), answers), s.calls[i].handed;
      && i < |t.calls| && t.calls[i].handed == handed && t.writers == s.writers
      && (if handed == Batch([]) then t.sinker == s.sinker && t.calls[i].phase == Returned(Sunk(0, false))
          else if !OfType(handed, s.sinker.rowType) then t.sinker == s.sinker && t.calls[i].phase == Returned(FAILED)
          else if Starts(s.sinker, answers) && exists rows :: IsBatch(handed, rows)
          then t.calls[i].phase.Ready? && IsBatch(handed, t.calls[i].phase.rows)
          else t.calls[i].phase == Returned(FAILED))
  {
    BeginsWhen(s.sinker, s.calls[i].handed, answers);
  }

  /** A call with rows to write is answered by the writer, and a count other than its own is an error. */
  lemma HandAnswered(states: seq<State>, steps: seq<Step>, answers: Answers, k: nat, i: nat)
    requires IsRun(states, steps, answers) && k < |steps| && steps[k] == Hand(i)
    ensures
      var s, t := states[k], states[k + 1];
      && i < |s.calls| && s.calls[i].phase.Ready? && i < |t.calls| && t.calls[i].phase.Returned?
      && t.sinker.log == s.sinker.log + [Write(s.calls[i].phase.rows)]
      && (match answers(|s.sinker.log|)
          case Settled(n, failed) => t.calls[i].phase.sunk == Sunk(n, failed || n != Count(s.calls[i].handed))
          case _ => t.calls[i].phase.sunk == FAILED)
  {
    RunKeeps(states, steps, answers, k);
    assert CallOk(states[k], i);
  }
}
