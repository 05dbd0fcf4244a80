/**
 What a reader of JSON finds in the text of a rendered row (jsonrow.go:42-193): the whole row,
 each column under its own name, each value as its column type and the transport have it.
 */
module ReadBack {
  import opened Wrappers
  import opened Schema
  import opened Decimal
  import opened Values
  import opened JsonRow
  import opened JsonText
  import opened JsonReader
  import opened JsonCompaction
  import opened RenderedRows

  /** A reader that comes upon s takes all of it, and nothing after it, for d. */
  ghost predicate StandsFor(s: string, d: Doc) {
    forall rest: string :: Ends(rest) ==> ReadDoc(s + rest) == Some((d, rest))
  }

  /** Valid text can be read, and so can what encoding/json writes by itself, which is compact. */
  ghost predicate Legible(e: Encoder, valid: Validity) {
    && Sound(e)
    && (forall t: string :: valid(t) ==> Read(t).Some?)
    && (forall v: Value :: e.leaf(v).Some? ==>
          Read(e.leaf(v).value).Some? && Compact(e.leaf(v).value, Outside) == e.leaf(v).value)
  }

  predicate IsNumber(d: Doc, i: int) {
    d.DNumber? && IsDecimal(d.text) && ReadDecimal(d.text) == Ratio(i, 1)
  }

  predicate SaysScalar(d: Doc, v: Value, e: Encoder) {
    match v
    case Null => d.DNull?
    case NilBytes => d.DNull?
    case Text(s) => d == DText(s)
    case Int(i) => IsNumber(d, i)
    case Bool(b) => d == DBool(b)
    case _ => e.leaf(v).Some? && Read(e.leaf(v).value) == Some(d)
  }

  /** d says what the tree j says: the same elements in order, and each member once. */
  predicate Says(d: Doc, j: Json, e: Encoder)
    decreases j
  {
    match j
    case JNull => d.DNull?
    case JText(s) => d == DText(s)
    case JInt(i) => IsNumber(d, i)
    case JRaw(t) => Read(t) == Some(d)
    case JScalar(v) => SaysScalar(d, v, e)
    case JArray(elements) =>
      && d.DArray? && |d.elements| == |elements|
      && forall i | 0 <= i < |elements| :: Says(d.elements[i], elements[i], e)
    case JObject(members) =>
      && d.DObject? && |d.members| == |members|
      && (forall k | 0 <= k < |d.members| :: d.members[k].0 in members && Says(d.members[k].1, members[d.members[k].0], e))
      && (forall name | name in members :: exists k :: 0 <= k < |d.members| && d.members[k].0 == name)
  }

  // ---- Tokens ----

  lemma QuoteReads(s: string, rest: string)
    ensures
      var t := Quote(s) + rest;
      SkipSpace(t) == t && t[0] == '"' && ReadString(t[1..]) == Some((s, rest))
  {
    QuotedTextReadsBack(s, rest);
  }

  lemma QuoteStands(s: string)
    ensures StandsFor(Quote(s), DText(s))
  {
    forall rest: string | Ends(rest) ensures ReadDoc(Quote(s) + rest) == Some((DText(s), rest)) {
      QuoteReads(s, rest);
    }
  }

  lemma IntStands(i: int)
    ensures StandsFor(IntText(i), DNumber(IntText(i))) && IsNumber(DNumber(IntText(i)), i)
  {
    IntRead(i);
    DigitsRead(Abs(i));
    var s := IntText(i);
    forall rest: string | Ends(rest) ensures ReadDoc(s + rest) == Some((DNumber(s), rest)) {
      NumberRead(s, rest);
      assert (s + rest)[0] == s[0];
      assert SkipSpace(s + rest) == s + rest;
    }
  }

  lemma WordStands(d: Doc)
    requires d.DNull? || d.DBool?
    ensures StandsFor(WordOf(d), d)
  {
    forall rest: string | Ends(rest) ensures ReadDoc(WordOf(d) + rest) == Some((d, rest)) {
      WordRead(d, rest);
      assert (WordOf(d) + rest)[0] == WordOf(d)[0];
      assert SkipSpace(WordOf(d) + rest) == WordOf(d) + rest;
    }
  }

  /** Text embedded compacted stands for what it stands for by itself. */
  lemma CompactStands(t: string)
    requires Read(t).Some?
    ensures StandsFor(Compact(t, Outside), Read(t).value)
  {
    forall rest: string | Ends(rest) ensures ReadDoc(Compact(t, Outside) + rest) == Some((Read(t).value, rest)) {
      CompactedReads(t, rest);
    }
  }

  // ---- Lists ----

  /** No value and no member begins with a closing bracket. */
  lemma NotClosing(t: string)
    requires ReadElements(t).Some? || ReadMembers(t).Some?
    ensures SkipSpace(t) != "" && SkipSpace(t)[0] != ']' && SkipSpace(t)[0] != '}'
  {
  }

  lemma JoinMore(texts: seq<string>, close: string)
    requires |texts| > 1
    ensures Join(texts) + close == texts[0] + ("," + (Join(texts[1..]) + close))
  {
    assert (texts[0] + "," + Join(texts[1..])) + close == texts[0] + ("," + (Join(texts[1..]) + close));
  }

  ghost predicate AllStand(texts: seq<string>, ds: seq<Doc>)
    requires |texts| == |ds|
  {
    texts == [] || (StandsFor(texts[0], ds[0]) && AllStand(texts[1..], ds[1..]))
  }

  lemma {:induction false} EachStands(texts: seq<string>, ds: seq<Doc>)
    requires |texts| == |ds| && forall i | 0 <= i < |ds| :: StandsFor(texts[i], ds[i])
    ensures AllStand(texts, ds)
  {
    if texts != [] {
      EachStands(texts[1..], ds[1..]);
    }
  }

  lemma {:induction false} ElementsRead(texts: seq<string>, ds: seq<Doc>, rest: string)
    requires |texts| == |ds| > 0 && AllStand(texts, ds)
    ensures ReadElements(Join(texts) + ("]" + rest)) == Some((ds, rest))
  {
    if |texts| == 1 {
      LastElement(texts[0], ds[0], rest);
      assert ds == [ds[0]];
    } else {
      JoinMore(texts, "]" + rest);
      ElementsRead(texts[1..], ds[1..], rest);
      NextElement(texts[0], ds[0], Join(texts[1..]) + ("]" + rest));
      assert ds == [ds[0]] + ds[1..];
    }
  }

  lemma LastElement(text: string, d: Doc, rest: string)
    requires StandsFor(text, d)
    ensures ReadElements(text + ("]" + rest)) == Some(([d], rest))
  {
    var close := "]" + rest;
    assert close[1..] == rest && ReadDoc(text + close) == Some((d, close));
  }

  lemma NextElement(text: string, d: Doc, more: string)
    requires StandsFor(text, d) && ReadElements(more).Some?
    ensures ReadElements(text + ("," + more)) == Some(([d] + ReadElements(more).value.0, ReadElements(more).value.1))
  {
    assert ("," + more)[1..] == more;
    assert ReadDoc(text + ("," + more)) == Some((d, "," + more));
  }

  /** A list that is closed at once. */
  lemma EmptyReads(rest: string)
    ensures ReadArray("]" + rest) == Some((DArray([]), rest))
    ensures ReadObject("}" + rest) == Some((DObject([]), rest))
  {
    assert ("]" + rest)[0] == ']' && ("]" + rest)[1..] == rest;
    assert ("}" + rest)[0] == '}' && ("}" + rest)[1..] == rest;
  }

  lemma NothingJoined(close: string)
    ensures Join([]) + close == close
  {
  }

  lemma ArrayReads(texts: seq<string>, ds: seq<Doc>, rest: string)
    requires |texts| == |ds| && AllStand(texts, ds)
    ensures ReadArray(Join(texts) + ("]" + rest)) == Some((DArray(ds), rest))
  {
    if texts == [] {
      NothingJoined("]" + rest);
      EmptyReads(rest);
    } else {
      ElementsRead(texts, ds, rest);
      NotClosing(Join(texts) + ("]" + rest));
    }
  }

  lemma Bracketed(t: string)
    ensures ReadDoc("[" + t) == ReadArray(t)
    ensures ReadDoc("{" + t) == ReadObject(t)
  {
    assert ("[" + t)[1..] == t && ("{" + t)[1..] == t;
    assert SkipSpace("[" + t) == "[" + t && SkipSpace("{" + t) == "{" + t;
  }

  lemma Between(open: string, middle: string, close: string, rest: string)
    ensures open + middle + close + rest == open + (middle + (close + rest))
  {
  }

  lemma ArrayStands(texts: seq<string>, ds: seq<Doc>)
    requires |texts| == |ds| && forall i | 0 <= i < |ds| :: StandsFor(texts[i], ds[i])
    ensures StandsFor("[" + Join(texts) + "]", DArray(ds))
  {
    EachStands(texts, ds);
    forall rest: string | Ends(rest) ensures ReadDoc("[" + Join(texts) + "]" + rest) == Some((DArray(ds), rest)) {
      Between("[", Join(texts), "]", rest);
      ArrayReads(texts, ds, rest);
      Bracketed(Join(texts) + ("]" + rest));
    }
  }

  /** The same of a name with its value. */
  ghost predicate MemberStandsFor(s: string, m: (string, Doc)) {
    forall rest: string :: Ends(rest) ==> ReadMember(s + rest) == Some((m, rest))
  }

  lemma MemberStands(name: string, text: string, d: Doc)
    requires StandsFor(text, d)
    ensures MemberStandsFor(Quote(name) + ":" + text, (name, d))
  {
    forall rest: string | Ends(rest) ensures ReadMember(Quote(name) + ":" + text + rest) == Some(((name, d), rest)) {
      Between(Quote(name), ":", text, rest);
      assert ReadDoc(text + rest) == Some((d, rest));
      MemberReads(name, text + rest);
    }
  }

  lemma MemberReads(name: string, t: string)
    requires ReadDoc(t).Some?
    ensures ReadMember(Quote(name) + (":" + t)) == Some(((name, ReadDoc(t).value.0), ReadDoc(t).value.1))
  {
    var after := ":" + t;
    QuoteReads(name, after);
    assert SkipSpace(after) == after && after[1..] == t;
  }

  ghost predicate AllMembersStand(texts: seq<string>, ms: seq<(string, Doc)>)
    requires |texts| == |ms|
  {
    texts == [] || (MemberStandsFor(texts[0], ms[0]) && AllMembersStand(texts[1..], ms[1..]))
  }

  lemma {:induction false} EachMemberStands(texts: seq<string>, ms: seq<(string, Doc)>)
    requires |texts| == |ms| && forall i | 0 <= i < |ms| :: MemberStandsFor(texts[i], ms[i])
    ensures AllMembersStand(texts, ms)
  {
    if texts != [] {
      EachMemberStands(texts[1..], ms[1..]);
    }
  }

  lemma {:induction false} MembersRead(texts: seq<string>, ms: seq<(string, Doc)>, rest: string)
    requires |texts| == |ms| > 0 && AllMembersStand(texts, ms)
    ensures ReadMembers(Join(texts) + ("}" + rest)) == Some((ms, rest))
  {
    if |texts| == 1 {
      LastMember(texts[0], ms[0], rest);
      assert ms == [ms[0]];
    } else {
      JoinMore(texts, "}" + rest);
      MembersRead(texts[1..], ms[1..], rest);
      NextMember(texts[0], ms[0], Join(texts[1..]) + ("}" + rest));
      assert ms == [ms[0]] + ms[1..];
    }
  }

  lemma LastMember(text: string, m: (string, Doc), rest: string)
    requires MemberStandsFor(text, m)
    ensures ReadMembers(text + ("}" + rest)) == Some(([m], rest))
  {
    var close := "}" + rest;
    assert close[1..] == rest && ReadMember(text + close) == Some((m, close));
  }

  lemma NextMember(text: string, m: (string, Doc), more: string)
    requires MemberStandsFor(text, m) && ReadMembers(more).Some?
    ensures ReadMembers(text + ("," + more)) == Some(([m] + ReadMembers(more).value.0, ReadMembers(more).value.1))
  {
    assert ("," + more)[1..] == more;
    assert ReadMember(text + ("," + more)) == Some((m, "," + more));
  }

  lemma ObjectReads(texts: seq<string>, ms: seq<(string, Doc)>, rest: string)
    requires |texts| == |ms| && AllMembersStand(texts, ms)
    ensures ReadObject(Join(texts) + ("}" + rest)) == Some((DObject(ms), rest))
  {
    if texts == [] {
      NothingJoined("}" + rest);
      EmptyReads(rest);
    } else {
      MembersRead(texts, ms, rest);
      NotClosing(Join(texts) + ("}" + rest));
    }
  }

  lemma ObjectStands(texts: seq<string>, ms: seq<(string, Doc)>)
    requires |texts| == |ms| && forall i | 0 <= i < |ms| :: MemberStandsFor(texts[i], ms[i])
    ensures StandsFor("{" + Join(texts) + "}", DObject(ms))
  {
    EachMemberStands(texts, ms);
    forall rest: string | Ends(rest) ensures ReadDoc("{" + Join(texts) + "}" + rest) == Some((DObject(ms), rest)) {
      Between("{", Join(texts), "}", rest);
      ObjectReads(texts, ms, rest);
      Bracketed(Join(texts) + ("}" + rest));
    }
  }

  // ---- Trees ----

  lemma ScalarReads(v: Value, e: Encoder, valid: Validity) returns (d: Doc)
    requires Legible(e, valid) && EncodeScalar(v, e).Some?
    ensures StandsFor(EncodeScalar(v, e).value, d) && SaysScalar(d, v, e)
  {
    match v
    case Null => d := DNull; WordStands(d);
    case NilBytes => d := DNull; WordStands(d);
    case Text(s) => d := DText(s); QuoteStands(s);
    case Int(i) => d := DNumber(IntText(i)); IntStands(i);
    case Bool(b) => d := DBool(b); WordStands(d);
    case _ => d := Read(e.leaf(v).value).value; CompactStands(e.leaf(v).value);
  }

  /** j has a text, which stands for d, and d says what j says. */
  ghost predicate Tells(j: Json, d: Doc, e: Encoder) {
    Encode(j, e).Some? && StandsFor(Encode(j, e).value, d) && Says(d, j, e)
  }

  /** j can be written, and whatever text it embeds can be read. */
  ghost predicate Writable(j: Json, e: Encoder, valid: Validity) {
    Legible(e, valid) && RawsValid(j, valid) && Encode(j, e).Some?
  }

  lemma {:induction false} ElementsSaid(elements: seq<Json>, e: Encoder, valid: Validity) returns (ds: seq<Doc>)
    requires forall i | 0 <= i < |elements| :: Writable(elements[i], e, valid)
    ensures |ds| == |elements| && forall i | 0 <= i < |elements| :: Tells(elements[i], ds[i], e)
    decreases elements, 0
  {
    ds := [];
    for i := 0 to |elements|
      invariant |ds| == i && forall k | 0 <= k < i :: Tells(elements[k], ds[k], e)
    {
      var d := TreeReadsBack(elements[i], e, valid);
      ds := ds + [d];
    }
  }

  lemma ArrayTells(j: Json, ds: seq<Doc>, e: Encoder)
    requires j.JArray? && Encode(j, e).Some? && |ds| == |j.elements|
    requires forall i | 0 <= i < |ds| :: Tells(j.elements[i], ds[i], e)
    ensures Tells(j, DArray(ds), e)
  {
    ArrayStands(seq(|j.elements|, i requires 0 <= i < |j.elements| => Encode(j.elements[i], e).value), ds);
  }

  lemma {:induction false} MembersSaid(j: Json, keys: seq<string>, e: Encoder, valid: Validity) returns (ms: seq<(string, Doc)>)
    requires Legible(e, valid) && j.JObject? && RawsValid(j, valid)
    requires forall i | 0 <= i < |keys| :: keys[i] in j.members && EncodeMember(j, keys[i], e).Some?
    ensures |ms| == |keys|
    ensures forall i | 0 <= i < |keys| ::
              && MemberStandsFor(EncodeMember(j, keys[i], e).value, ms[i])
              && ms[i].0 == keys[i] && Says(ms[i].1, j.members[keys[i]], e)
    decreases j, 0
  {
    ms := [];
    for i := 0 to |keys|
      invariant |ms| == i
      invariant forall k | 0 <= k < i ::
        && MemberStandsFor(EncodeMember(j, keys[k], e).value, ms[k])
        && ms[k].0 == keys[k] && Says(ms[k].1, j.members[keys[k]], e)
    {
      var d := TreeReadsBack(j.members[keys[i]], e, valid);
      MemberStands(keys[i], Encode(j.members[keys[i]], e).value, d);
      ms := ms + [(keys[i], d)];
    }
  }

  /** A reader finds in the text of a tree what the tree says, and stops where the text ends. */
  lemma {:induction false} TreeReadsBack(j: Json, e: Encoder, valid: Validity) returns (d: Doc)
    requires Writable(j, e, valid)
    ensures Tells(j, d, e)
    decreases j, 2
  {
    match j
    case JNull => d := DNull; WordStands(d);
    case JText(s) => d := DText(s); QuoteStands(s);
    case JInt(i) => d := DNumber(IntText(i)); IntStands(i);
    case JRaw(t) => d := Read(t).value; CompactStands(t);
    case JScalar(v) => d := ScalarReads(v, e, valid);
    case JArray(elements) =>
      var ds := ElementsSaid(elements, e, valid);
      ArrayTells(j, ds, e);
      d := DArray(ds);
    case JObject(members) =>
      d := ObjectReadsBack(j, e, valid);
  }

  function MemberTexts(j: Json, keys: seq<string>, e: Encoder): (texts: seq<string>)
    requires j.JObject? && forall i | 0 <= i < |keys| :: keys[i] in j.members && EncodeMember(j, keys[i], e).Some?
    ensures |texts| == |keys| && forall i | 0 <= i < |keys| :: texts[i] == EncodeMember(j, keys[i], e).value
  {
    seq(|keys|, i requires 0 <= i < |keys| => EncodeMember(j, keys[i], e).value)
  }

  lemma ObjectText(j: Json, e: Encoder)
    requires j.JObject? && Encode(j, e).Some?
    ensures
      var keys := e.order(j.members.Keys);
      && (forall i | 0 <= i < |keys| :: keys[i] in j.members && EncodeMember(j, keys[i], e).Some?)
      && Encode(j, e).value == "{" + Join(MemberTexts(j, keys, e)) + "}"
  {
    var keys := e.order(j.members.Keys);
    assert MemberTexts(j, keys, e) == seq(|keys|, i requires 0 <= i < |keys| => EncodeMember(j, keys[i], e).value);
  }

  lemma ListedSays(j: Json, keys: seq<string>, ms: seq<(string, Doc)>, e: Encoder)
    requires j.JObject? && Lists(keys, j.members.Keys) && |ms| == |keys|
    requires forall i | 0 <= i < |keys| :: keys[i] in j.members && ms[i].0 == keys[i] && Says(ms[i].1, j.members[keys[i]], e)
    ensures Says(DObject(ms), j, e)
  {
    forall name | name in j.members ensures exists k :: 0 <= k < |ms| && ms[k].0 == name {
      assert name in keys;
      var k :| 0 <= k < |keys| && keys[k] == name;
      assert ms[k].0 == name;
    }
    assert |j.members| == |j.members.Keys|;
  }

  lemma {:induction false} ObjectReadsBack(j: Json, e: Encoder, valid: Validity) returns (d: Doc)
    requires Legible(e, valid) && j.JObject? && RawsValid(j, valid) && Encode(j, e).Some?
    ensures Tells(j, d, e)
    decreases j, 1
  {
    var keys := e.order(j.members.Keys);
    assert Lists(keys, j.members.Keys);
    ObjectText(j, e);
    var ms := MembersSaid(j, keys, e, valid);
    ObjectStands(MemberTexts(j, keys, e), ms);
    ListedSays(j, keys, ms, e);
    d := DObject(ms);
  }

  // ---- Rows ----

  /** What the reader finds where the column holds one value. */
  ghost predicate FindsElement(value: Value, field: Field, dialect: Dialect, d: Doc, e: Encoder)
    decreases field, 0
  {
    if value.Null? then d.DNull?
    else if field.typ == RecordField then
      value.Record? && d.DObject? && FindsRow(value.columns, field.nested, dialect, d.members, e)
    else if field.typ == JSONField then
      if value.NilBytes? then d.DNull?
      else
        && HoldsText(value)
        && (if value.text == "" then d.DNull?
            else if dialect == LoadJob then Read(value.text) == Some(d)
            else d == DText(value.text))
    else
      match value
      case Instant(time) => if dialect == LoadJob then d == DText(time.rfc3339) else IsNumber(d, time.micros)
      case CivilDate(text) => d == DText(text)
      case CivilTime(text) => d == DText(text)
      case CivilDateTime(text) => d == DText(text)
      case Rat(r) => d.DText? && IsDecimalFor(d.text, r, field)
      case _ => SaysScalar(d, value, e)
  }

  ghost predicate FindsValue(value: Value, field: Field, dialect: Dialect, d: Doc, e: Encoder)
    decreases field, 1
  {
    if field.repeated && !value.Null? then
      && value.List? && d.DArray? && |d.elements| == |value.elements|
      && forall i | 0 <= i < |value.elements| :: FindsElement(value.elements[i], field, dialect, d.elements[i], e)
    else FindsElement(value, field, dialect, d, e)
  }

  /** Each of the row's columns once, and no other, with what its field makes of its value. */
  ghost predicate FindsRow(row: map<string, Value>, schema: seq<Field>, dialect: Dialect, members: seq<(string, Doc)>, e: Encoder)
    decreases schema
  {
    && |members| == |row|
    && (forall name | name in row :: exists k :: 0 <= k < |members| && members[k].0 == name)
    && (forall k | 0 <= k < |members| :: members[k].0 in row)
    && (forall i, k | 0 <= i < |schema| && 0 <= k < |members| && members[k].0 in row && members[k].0 == schema[i].name ::
          FindsValue(row[members[k].0], schema[i], dialect, members[k].1, e))
  }

  lemma {:induction false} ElementFound(value: Value, field: Field, dialect: Dialect, j: Json, d: Doc, e: Encoder)
    requires RendersElement(value, field, dialect, j) && Says(d, j, e)
    ensures FindsElement(value, field, dialect, d, e)
    decreases field, 0
  {
    if !value.Null? && field.typ == RecordField {
      RowFound(value.columns, field.nested, dialect, j, d, e);
    }
  }

  lemma {:induction false} ValueFound(value: Value, field: Field, dialect: Dialect, j: Json, d: Doc, e: Encoder)
    requires RendersValue(value, field, dialect, j) && Says(d, j, e)
    ensures FindsValue(value, field, dialect, d, e)
    decreases field, 1
  {
    if field.repeated && !value.Null? {
      forall i | 0 <= i < |value.elements| ensures FindsElement(value.elements[i], field, dialect, d.elements[i], e) {
        ElementFound(value.elements[i], field, dialect, j.elements[i], d.elements[i], e);
      }
    } else {
      ElementFound(value, field, dialect, j, d, e);
    }
  }

  lemma {:induction false} RowFound(row: map<string, Value>, schema: seq<Field>, dialect: Dialect, j: Json, d: Doc, e: Encoder)
    requires j.JObject? && RendersRow(row, schema, dialect, j.members) && Says(d, j, e)
    ensures d.DObject? && FindsRow(row, schema, dialect, d.members, e)
    decreases schema
  {
    assert |j.members| == |j.members.Keys| && |row| == |row.Keys|;
    forall i, k | 0 <= i < |schema| && 0 <= k < |d.members| && d.members[k].0 in row && d.members[k].0 == schema[i].name
      ensures FindsValue(row[d.members[k].0], schema[i], dialect, d.members[k].1, e)
    {
      ValueFound(row[schema[i].name], schema[i], dialect, j.members[schema[i].name], d.members[k].1, e);
    }
  }

  /**
   Whatever row is encoded, a reader of its text finds the row: every column once under its own
   name and no other, every value as its column type and the transport have it, at every RECORD
   depth and in every array, and nothing after it.
   */
  lemma RowReadsBack(row: map<string, Value>, schema: seq<Field>, dialect: Dialect, valid: Validity, e: Encoder) returns (d: Doc)
    requires Legible(e, valid) && RecDistinct(schema) && EncodeRow(row, schema, dialect, valid, e).Some?
    ensures Read(EncodeRow(row, schema, dialect, valid, e).value) == Some(d)
    ensures d.DObject? && FindsRow(row, schema, dialect, d.members, e)
  {
    var tree := JObject(JsonObject(row, schema, dialect, valid).value);
    ObjectRawsValid(row, schema, dialect, valid);
    d := TreeReadsBack(tree, e, valid);
    RowRendered(row, schema, dialect, valid);
    RowFound(row, schema, dialect, tree, d, e);
    WholeText(Encode(tree, e).value, d);
  }

  /** encodeRow trims the encoder's newline and nothing else. */
  lemma WholeText(text: string, d: Doc)
    requires StandsFor(text, d)
    ensures TrimNewline(text + "\n") == text && Read(text) == Some(d)
  {
    assert text + "" == text && ReadDoc(text + "") == Some((d, ""));
  }
}
