/**
 One load job (write.go:461-477): the batch's rows become newline delimited JSON, and that
 payload is what every attempt carries.
 */
module Load {
  import opened Wrappers
  import opened Schema
  import opened Values
  import opened JsonRow
  import opened JsonText
  import opened Retry

  /** Each row's encoding, in order; None when some row cannot be encoded. */
  function Lines(rows: seq<Row>, schema: seq<Field>, valid: Validity, e: Encoder): Option<seq<string>> {
    if forall i | 0 <= i < |rows| :: EncodeRow(rows[i].values, schema, LoadJob, valid, e).Some? then
      Some(seq(|rows|, i requires 0 <= i < |rows| => EncodeRow(rows[i].values, schema, LoadJob, valid, e).value))
    else None
  }

  function Payload(lines: seq<string>): string {
    if lines == [] then "" else Payload(lines[..|lines| - 1]) + lines[|lines| - 1] + "\n"
  }

  /** What a reader of newline delimited text finds: the text before each newline, and any rest. */
  function Split(text: string, line: string): (seq<string>, string) {
    if text == "" then ([], line)
    else if text[0] == '\n' then
      var (lines, rest) := Split(text[1..], "");
      ([line] + lines, rest)
    else Split(text[1..], line + [text[0]])
  }

  lemma {:induction false} SplitLine(line: string, text: string, before: string)
    requires OneLine(line)
    ensures Split(line + "\n" + text, before) == ([before + line] + Split(text, "").0, Split(text, "").1)
  {
    var t := line + "\n" + text;
    if line == "" {
      assert t == "\n" + text && t[1..] == text;
      assert before + line == before;
    } else {
      assert t[1..] == line[1..] + "\n" + text;
      SplitLine(line[1..], text, before + [line[0]]);
      assert before + [line[0]] + line[1..] == before + line;
    }
  }

  lemma {:induction false} PayloadStarts(lines: seq<string>)
    requires lines != []
    ensures Payload(lines) == lines[0] + "\n" + Payload(lines[1..])
  {
    var n := |lines| - 1;
    if n > 0 {
      PayloadStarts(lines[..n]);
      assert lines[..n][1..] == lines[1..][..n - 1];
      assert lines[1..][n - 1] == lines[n];
    } else {
      assert lines[..0] == [] && lines[1..] == [];
    }
  }

  /** Split at its newlines, a payload is its lines and nothing else. */
  lemma {:induction false} PayloadSplits(lines: seq<string>)
    requires forall i | 0 <= i < |lines| :: OneLine(lines[i])
    ensures Split(Payload(lines), "") == (lines, "")
  {
    if lines != [] {
      PayloadStarts(lines);
      PayloadSplits(lines[1..]);
      SplitLine(lines[0], Payload(lines[1..]), "");
      assert "" + lines[0] == lines[0] && [lines[0]] + lines[1..] == lines;
    }
  }

  /** The payload of a batch holds one line per row, each that row's encoding, in the batch's order. */
  lemma PayloadHoldsTheRows(rows: seq<Row>, schema: seq<Field>, valid: Validity, e: Encoder)
    requires Sound(e) && ValidMeansNoControls(valid) && Lines(rows, schema, valid, e).Some?
    ensures var (lines, rest) := Split(Payload(Lines(rows, schema, valid, e).value), "");
            && rest == "" && |lines| == |rows|
            && forall i | 0 <= i < |rows| :: EncodeRow(rows[i].values, schema, LoadJob, valid, e) == Some(lines[i])
  {
    var lines := Lines(rows, schema, valid, e).value;
    forall i | 0 <= i < |lines| ensures OneLine(lines[i]) {
      RowIsOneLine(rows[i].values, schema, LoadJob, valid, e);
    }
    PayloadSplits(lines);
  }

  lemma PayloadGrows(lines: seq<string>, line: string)
    ensures Payload(lines + [line]) == Payload(lines) + line + "\n"
  {
    assert (lines + [line])[..|lines|] == lines;
  }

  ghost predicate AreLines(rows: seq<Row>, schema: seq<Field>, valid: Validity, e: Encoder, lines: seq<string>) {
    && |lines| == |rows|
    && forall k | 0 <= k < |rows| :: EncodeRow(rows[k].values, schema, LoadJob, valid, e) == Some(lines[k])
  }

  lemma TheseLines(rows: seq<Row>, schema: seq<Field>, valid: Validity, e: Encoder, lines: seq<string>)
    requires AreLines(rows, schema, valid, e, lines)
    ensures Lines(rows, schema, valid, e) == Some(lines)
  {
    assert lines == Lines(rows, schema, valid, e).value;
  }

  /** Rendering every row into one buffer. */
  method BuildPayload(rows: seq<Row>, schema: seq<Field>, valid: Validity, e: Encoder) returns (payload: Option<string>)
    ensures Lines(rows, schema, valid, e).None? ==> payload == None
    ensures Lines(rows, schema, valid, e).Some? ==> payload == Some(Payload(Lines(rows, schema, valid, e).value))
  {
    var buf := "";
    ghost var lines: seq<string> := [];
    for i := 0 to |rows|
      invariant buf == Payload(lines) && AreLines(rows[..i], schema, valid, e, lines)
    {
      var line := EncodeRow(rows[i].values, schema, LoadJob, valid, e);
      if line.None? {
        return None;
      }
      PayloadGrows(lines, line.value);
      assert rows[..i + 1] == rows[..i] + [rows[i]];
      buf := buf + line.value;
      buf := buf + "\n";
      lines := lines + [line.value];
    }
    assert rows[..|rows|] == rows;
    TheseLines(rows, schema, valid, e, lines);
    return Some(buf);
  }

  datatype LoadResult = NotEncoded | Answered(outcome: Outcome)

  /**
   A batch with a row that cannot be encoded is never sent. Any other is sent under the
   retry policy, every attempt carrying the same payload.
   */
  method LoadRows(rows: seq<Row>, schema: seq<Field>, policy: Policy, loader: JobLoader, valid: Validity, e: Encoder)
    returns (result: LoadResult)
    modifies loader
    ensures Lines(rows, schema, valid, e).None? ==> result == NotEncoded && loader.seen == old(loader.seen)
    ensures Lines(rows, schema, valid, e).Some? ==>
              && Resent(old(loader.seen), loader.seen, Payload(Lines(rows, schema, valid, e).value),
                        AttemptsUnder(policy, loader.answers, |old(loader.seen)|))
              && result == Answered(loader.answers(|loader.seen| - 1))
  {
    var payload := BuildPayload(rows, schema, valid, e);
    if payload.None? {
      return NotEncoded;
    }
    var outcome := Retrying(policy, loader, payload.value);
    return Answered(outcome);
  }

  /**
   Under the default policy a batch is sent one to five times, and whoever reads any of
   those payloads line by line finds the batch's rows, in order.
   */
  lemma EveryAttemptCarriesTheRows(
      rows: seq<Row>, schema: seq<Field>, answers: nat -> Outcome, before: seq<string>, after: seq<string>, valid: Validity, e: Encoder)
    requires Sound(e) && ValidMeansNoControls(valid) && Lines(rows, schema, valid, e).Some?
    requires Resent(before, after, Payload(Lines(rows, schema, valid, e).value),
                    AttemptsUnder(DEFAULT_RETRY_POLICY, answers, |before|))
    ensures |before| + 1 <= |after| <= |before| + 1 + MIGRATE_MAX_RETRIES
    ensures forall k | |before| <= k < |after| ::
              Split(after[k], "") == (Lines(rows, schema, valid, e).value, "")
  {
    forall i | 0 <= i < |rows| ensures OneLine(Lines(rows, schema, valid, e).value[i]) {
      RowIsOneLine(rows[i].values, schema, LoadJob, valid, e);
    }
    PayloadSplits(Lines(rows, schema, valid, e).value);
  }
}
