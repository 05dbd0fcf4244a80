/**
 The state LoadJobsWriter guards with its mutex (write.go:257-275), and the
 mutex-held sections of WriteRows, FlushRows and Close as functions on it. Each
 section is one atomic step; the load that follows runs with the lock released.

 The class below is the imperative form: its methods are those sections, each proved
 to take the fields through the matching function.
 */
module Writer {
  import opened Values

  /** "N row(s) did not land": which load job failed, and how many rows it carried. */
  datatype Failure = Failure(job: nat, rows: nat)

  datatype Shared = Shared(
    flushRows: nat,
    bound: bool,
    buf: seq<Row>,
    pending: seq<Failure>,
    closed: bool,
    wg: nat)

  datatype WriteError = WriterClosed | NoSchemaBound

  /** What a lock section of WriteRows decided. */
  datatype WriteEntry =
    | Nothing                       // no rows: answered before the lock is taken
    | Refused(error: WriteError)
    | Direct                        // FlushRows unset: load the call's own rows
    | Buffered                      // accepted, and the buffer is still short
    | Detached(batch: seq<Row>)     // accepted, and the buffer is this call's to load

  datatype FlushEntry = FlushRefused | FlushTook(batch: seq<Row>, pending: seq<Failure>)

  datatype CloseEntry = AlreadyClosed | CloseTook(batch: seq<Row>)

  /** WriteRows up to its first unlock, write.go:318-346. */
  function EnterWrite(w: Shared, rows: seq<Row>): (Shared, WriteEntry) {
    if rows == [] then (w, Nothing)
    else if w.closed then (w, Refused(WriterClosed))
    else if !w.bound then (w, Refused(NoSchemaBound))
    else if w.flushRows == 0 then (w, Direct)
    else
      var buf := w.buf + rows;
      if |buf| >= w.flushRows then (w.(buf := [], wg := w.wg + 1), Detached(buf))
      else (w.(buf := buf), Buffered)
  }

  /** A failed threshold submission is kept for later, write.go:350-352. */
  function RecordFailure(w: Shared, f: Failure): Shared {
    w.(pending := w.pending + [f])
  }

  /** FlushRows up to its unlock, write.go:379-392. */
  function EnterFlush(w: Shared): (Shared, FlushEntry) {
    if w.closed then (w, FlushRefused)
    else (w.(buf := [], pending := [], wg := if |w.buf| > 0 then w.wg + 1 else w.wg),
          FlushTook(w.buf, w.pending))
  }

  /** Close up to its first unlock, write.go:433-442. */
  function EnterClose(w: Shared): (Shared, CloseEntry) {
    if w.closed then (w, AlreadyClosed)
    else (w.(closed := true, buf := []), CloseTook(w.buf))
  }

  /** Close's second section, after the wait, write.go:446-449. */
  function TakePending(w: Shared): (Shared, seq<Failure>) {
    (w.(pending := []), w.pending)
  }

  class LoadJobsWriter {
    const flushRows: nat
    var bound: bool
    var buf: seq<Row>
    var pending: seq<Failure>
    var closed: bool
    var wg: nat

    /** The fields as one value, which is what the sections are specified on. */
    ghost function State(): Shared
      reads this
    {
      Shared(flushRows, bound, buf, pending, closed, wg)
    }

    constructor (flushRows: nat)
      ensures State() == Shared(flushRows, false, [], [], false, 0)
    {
      this.flushRows := flushRows;
      bound, buf, pending, closed, wg := false, [], [], false, 0;
    }

    /** BindSchema refuses an empty schema and a second one, write.go:292-303. */
    method BindSchema(columns: nat) returns (ok: bool)
      modifies this`bound
      ensures ok == (columns > 0 && !old(bound))
      ensures State() == if ok then old(State()).(bound := true) else old(State())
    {
      if columns == 0 || bound {
        return false;
      }
      bound := true;
      return true;
    }

    method WriteSection(rows: seq<Row>) returns (entry: WriteEntry)
      modifies this`buf, this`wg
      ensures (State(), entry) == EnterWrite(old(State()), rows)
    {
      if |rows| == 0 {
        return Nothing;
      }
      if closed {
        return Refused(WriterClosed);
      }
      if !bound {
        return Refused(NoSchemaBound);
      }
      if flushRows == 0 {
        return Direct;
      }
      buf := buf + rows;
      entry := Buffered;
      if |buf| >= flushRows {
        entry := Detached(buf);
        buf := [];
        wg := wg + 1;
      }
    }

    method RecordSection(f: Failure)
      modifies this`pending
      ensures State() == RecordFailure(old(State()), f)
    {
      pending := pending + [f];
    }

    method FlushSection() returns (entry: FlushEntry)
      modifies this`buf, this`pending, this`wg
      ensures (State(), entry) == EnterFlush(old(State()))
    {
      if closed {
        return FlushRefused;
      }
      var batch := buf;
      buf := [];
      entry := FlushTook(batch, pending);
      pending := [];
      if |batch| > 0 {
        wg := wg + 1;
      }
    }

    method CloseSection() returns (entry: CloseEntry)
      modifies this`buf, this`closed
      ensures (State(), entry) == EnterClose(old(State()))
    {
      if closed {
        return AlreadyClosed;
      }
      closed := true;
      entry := CloseTook(buf);
      buf := [];
    }

    method TakePendingSection() returns (taken: seq<Failure>)
      modifies this`pending
      ensures (State(), taken) == TakePending(old(State()))
    {
      taken := pending;
      pending := [];
    }
  }
}
