/**
 The text of a rendered row: encodeRow's use of encoding/json (jsonrow.go:42-59), with
 strings escaped as in section 7 of RFC 8259. Text is a sequence of Unicode characters.
 The member order encoding/json settles on, and its text for floats and other values it is
 handed as they are, are parameters.
 */
module JsonText {
  import opened Wrappers
  import opened Schema
  import opened Decimal
  import opened Values
  import opened JsonRow

  // ---- Strings ----

  function HexDigit(d: nat): char
    requires d < 16
  {
    if d < 10 then '0' + d as char else 'a' + (d - 10) as char
  }

  function HexValue(c: char): Option<nat> {
    if '0' <= c <= '9' then Some(c as nat - '0' as nat)
    else if 'a' <= c <= 'f' then Some(c as nat - 'a' as nat + 10)
    else if 'A' <= c <= 'F' then Some(c as nat - 'A' as nat + 10)
    else None
  }

  function UnicodeEscape(code: nat): string
    requires code < 0x10000
  {
    ['\\', 'u', HexDigit(code / 0x1000), HexDigit(code / 0x100 % 0x10), HexDigit(code / 0x10 % 0x10), HexDigit(code % 0x10)]
  }

  /** How encoding/json writes one character with HTML escaping off. */
  function EscapeChar(c: char): string {
    var code := c as nat;
    if c == '"' then "\\\""
    else if c == '\\' then "\\\\"
    else if code == 0x08 then "\\b"
    else if code == 0x0c then "\\f"
    else if c == '\n' then "\\n"
    else if c == '\r' then "\\r"
    else if c == '\t' then "\\t"
    else if code < 0x20 || code == 0x2028 || code == 0x2029 then UnicodeEscape(code)
    else [c]
  }

  function Escape(s: string): string {
    if s == "" then "" else EscapeChar(s[0]) + Escape(s[1..])
  }

  function Quote(s: string): string {
    "\"" + Escape(s) + "\""
  }

  /** The character a two-character escape stands for. */
  function ShortEscape(c: char): Option<char> {
    match c
    case '"' => Some('"')
    case '\\' => Some('\\')
    case '/' => Some('/')
    case 'b' => Some(0x08 as char)
    case 'f' => Some(0x0c as char)
    case 'n' => Some('\n')
    case 'r' => Some('\r')
    case 't' => Some('\t')
    case _ => None
  }

  /** The code of a \u escape; t starts after the u. */
  function ReadHex(t: string): (code: Option<nat>)
    ensures code.Some? ==> code.value < 0x10000 && |t| >= 4
  {
    if |t| < 4 || HexValue(t[0]).None? || HexValue(t[1]).None? || HexValue(t[2]).None? || HexValue(t[3]).None? then None
    else
      Some(((HexValue(t[0]).value * 0x10 + HexValue(t[1]).value) * 0x10 + HexValue(t[2]).value) * 0x10
           + HexValue(t[3]).value)
  }

  /** The second half of a surrogate pair, where t goes on with one. */
  function LowSurrogate(t: string): (code: Option<nat>)
    ensures code.Some? ==> |t| >= 6 && 0xDC00 <= code.value < 0xE000
  {
    if |t| < 6 || t[0] != '\\' || t[1] != 'u' then None
    else
      match ReadHex(t[2..])
      case None => None
      case Some(code) => if 0xDC00 <= code < 0xE000 then Some(code) else None
  }

  /** One character escaped with \u, a surrogate pair being one; half a pair stands for U+FFFD. */
  function ReadUnicode(t: string): Option<(char, nat)> {
    match ReadHex(t)
    case None => None
    case Some(code) =>
      if code < 0xD800 || 0xE000 <= code then Some((code as char, 6))
      else if code < 0xDC00 && LowSurrogate(t[4..]).Some? then
        Some(((0x10000 + (code - 0xD800) * 0x400 + (LowSurrogate(t[4..]).value - 0xDC00)) as char, 12))
      else Some((0xFFFD as char, 6))
  }

  /** One character of a string literal, and how much text it took. */
  function ReadChar(t: string): Option<(char, nat)>
    requires t != ""
  {
    if t[0] == '\\' then
      if |t| < 2 then None
      else if t[1] == 'u' then ReadUnicode(t[2..])
      else
        (match ShortEscape(t[1]) case None => None case Some(c) => Some((c, 2)))
    else if t[0] < ' ' then None
    else Some((t[0], 1))
  }

  /** Reads a string literal whose opening quote is already read: its text, and what follows. */
  function ReadString(t: string): Option<(string, string)> {
    if t == "" then None
    else if t[0] == '"' then Some(("", t[1..]))
    else
      match ReadChar(t)
      case None => None
      case Some((c, taken)) =>
        if taken > |t| then None
        else
          match ReadString(t[taken..])
          case None => None
          case Some((s, rest)) => Some(([c] + s, rest))
  }

  lemma HexRead(d: nat)
    requires d < 16
    ensures HexValue(HexDigit(d)) == Some(d)
  {
  }

  lemma HexParts(code: nat)
    requires code < 0x10000
    ensures code / 0x1000 < 0x10
    ensures ((code / 0x1000 * 0x10 + code / 0x100 % 0x10) * 0x10 + code / 0x10 % 0x10) * 0x10 + code % 0x10 == code
  {
  }

  lemma UnicodeRead(code: nat, rest: string)
    requires code < 0xD800
    ensures ReadHex((UnicodeEscape(code) + rest)[2..]) == Some(code)
  {
    HexParts(code);
    var t := (UnicodeEscape(code) + rest)[2..];
    var a, b, c, d := code / 0x1000, code / 0x100 % 0x10, code / 0x10 % 0x10, code % 0x10;
    assert t[0] == HexDigit(a) && t[1] == HexDigit(b) && t[2] == HexDigit(c) && t[3] == HexDigit(d);
    FourHexRead(t, a, b, c, d);
  }

  lemma FourHexRead(t: string, a: nat, b: nat, c: nat, d: nat)
    requires a < 16 && b < 16 && c < 16 && d < 16 && |t| >= 4
    requires t[0] == HexDigit(a) && t[1] == HexDigit(b) && t[2] == HexDigit(c) && t[3] == HexDigit(d)
    ensures ReadHex(t) == Some(((a * 0x10 + b) * 0x10 + c) * 0x10 + d)
  {
    HexRead(a);
    HexRead(b);
    HexRead(c);
    HexRead(d);
  }

  lemma CharRead(c: char, rest: string)
    ensures (EscapeChar(c) + rest)[0] != '"'
    ensures ReadChar(EscapeChar(c) + rest) == Some((c, |EscapeChar(c)|))
  {
    var code := c as nat;
    if c != '"' && c != '\\' && c != '\n' && c != '\r' && c != '\t' && code != 0x08 && code != 0x0c
       && (code < 0x20 || code == 0x2028 || code == 0x2029) {
      UnicodeRead(code, rest);
    }
  }

  lemma ReadOne(c: char, after: string, s: string, rest: string)
    requires ReadString(after) == Some((s, rest))
    ensures ReadString(EscapeChar(c) + after) == Some(([c] + s, rest))
  {
    CharRead(c, after);
    assert (EscapeChar(c) + after)[|EscapeChar(c)|..] == after;
  }

  lemma ReadEnd(rest: string)
    ensures ReadString("" + ("\"" + rest)) == Some(("", rest))
  {
    assert "" + ("\"" + rest) == "\"" + rest;
    assert ("\"" + rest)[1..] == rest;
  }

  lemma Associates(a: string, b: string, c: string)
    ensures a + b + c == a + (b + c)
  {
  }

  lemma {:induction false} EscapedReadsBack(s: string, rest: string)
    ensures ReadString(Escape(s) + ("\"" + rest)) == Some((s, rest))
  {
    if s == "" {
      ReadEnd(rest);
    } else {
      EscapedReadsBack(s[1..], rest);
      ReadOne(s[0], Escape(s[1..]) + ("\"" + rest), s[1..], rest);
      Associates(EscapeChar(s[0]), Escape(s[1..]), "\"" + rest);
      assert [s[0]] + s[1..] == s;
    }
  }

  /** A reader of RFC 8259 strings gets the text back and stops at the closing quote, whatever follows. */
  lemma QuotedTextReadsBack(s: string, rest: string)
    ensures ReadString((Quote(s) + rest)[1..]) == Some((s, rest))
  {
    EscapedReadsBack(s, rest);
    assert (Quote(s) + rest)[1..] == Escape(s) + ("\"" + rest);
  }

  predicate OneLine(t: string) {
    '\n' !in t
  }

  lemma {:induction false} EscapedIsOneLine(s: string)
    ensures OneLine(Escape(s))
  {
    if s != "" {
      EscapedIsOneLine(s[1..]);
    }
  }

  // ---- JSON text embedded as it is ----

  datatype Scan = Outside | Inside | Escaped

  function NextScan(at: Scan, c: char): Scan {
    match at
    case Outside => if c == '"' then Inside else Outside
    case Inside => if c == '"' then Outside else if c == '\\' then Escaped else Inside
    case Escaped => Inside
  }

  predicate Whitespace(c: char) {
    c == ' ' || c == '\t' || c == '\n' || c == '\r'
  }

  /** encoding/json compacts a json.RawMessage: whitespace between tokens is dropped. */
  function Compact(t: string, at: Scan): string {
    if t == "" then ""
    else (if at == Outside && Whitespace(t[0]) then "" else [t[0]]) + Compact(t[1..], NextScan(at, t[0]))
  }

  /** No control character inside a string literal, which section 7 of RFC 8259 demands. */
  predicate NoControls(t: string, at: Scan) {
    t != "" ==> (at == Outside || t[0] >= ' ') && NoControls(t[1..], NextScan(at, t[0]))
  }

  ghost predicate ValidMeansNoControls(valid: Validity) {
    forall t: string :: valid(t) ==> NoControls(t, Outside)
  }

  lemma {:induction false} CompactIsOneLine(t: string, at: Scan)
    requires NoControls(t, at)
    ensures OneLine(Compact(t, at))
  {
    if t != "" {
      CompactIsOneLine(t[1..], NextScan(at, t[0]));
    }
  }

  /** Compacting changes nothing a second time. */
  lemma {:induction false} CompactTwice(t: string, at: Scan)
    ensures Compact(Compact(t, at), at) == Compact(t, at)
  {
    if t != "" {
      var next := NextScan(at, t[0]);
      CompactTwice(t[1..], next);
      if at == Outside && Whitespace(t[0]) {
        assert next == Outside;
        assert Compact(t, at) == Compact(t[1..], next);
      } else {
        assert Compact(t, at)[1..] == Compact(t[1..], next);
      }
    }
  }

  // ---- Whole trees ----

  /** order is the order of an object's members; leaf the text of a value handed over as it is, None when refused. */
  datatype Encoder = Encoder(order: set<string> -> seq<string>, leaf: Value -> Option<string>)

  /** Every member is written once, and no leaf spans lines. */
  ghost predicate Sound(e: Encoder) {
    && (forall keys: set<string> :: Lists(e.order(keys), keys))
    && (forall v: Value :: e.leaf(v).Some? ==> OneLine(e.leaf(v).value))
  }

  ghost predicate Lists(order: seq<string>, keys: set<string>) {
    && |order| == |keys|
    && (forall key :: key in order <==> key in keys)
  }

  function Join(texts: seq<string>): string {
    if texts == [] then ""
    else if |texts| == 1 then texts[0]
    else texts[0] + "," + Join(texts[1..])
  }

  lemma {:induction false} JoinIsOneLine(texts: seq<string>)
    requires forall i | 0 <= i < |texts| :: OneLine(texts[i])
    ensures OneLine(Join(texts))
  {
    if |texts| > 1 {
      JoinIsOneLine(texts[1..]);
    }
  }

  function EncodeScalar(v: Value, e: Encoder): Option<string> {
    match v
    case Null => Some("null")
    case NilBytes => Some("null")
    case Text(s) => Some(Quote(s))
    case Int(i) => Some(IntText(i))
    case Bool(b) => Some(if b then "true" else "false")
    case _ => e.leaf(v)
  }

  function EncodeMember(j: Json, key: string, e: Encoder): Option<string>
    requires j.JObject? && key in j.members
    decreases j, 0
  {
    match Encode(j.members[key], e)
    case None => None
    case Some(text) => Some(Quote(key) + ":" + text)
  }

  function Encode(j: Json, e: Encoder): Option<string>
    decreases j, 1
  {
    match j
    case JNull => Some("null")
    case JText(s) => Some(Quote(s))
    case JInt(i) => Some(IntText(i))
    case JRaw(t) => Some(Compact(t, Outside))
    case JScalar(v) => EncodeScalar(v, e)
    case JArray(elements) =>
      if forall i | 0 <= i < |elements| :: Encode(elements[i], e).Some? then
        Some("[" + Join(seq(|elements|, i requires 0 <= i < |elements| => Encode(elements[i], e).value)) + "]")
      else None
    case JObject(members) =>
      var keys := e.order(members.Keys);
      if forall i | 0 <= i < |keys| :: keys[i] in members && EncodeMember(j, keys[i], e).Some? then
        Some("{" + Join(seq(|keys|, i requires 0 <= i < |keys| => EncodeMember(j, keys[i], e).value)) + "}")
      else None
  }

  /** Every text embedded as it is is JSON. */
  predicate RawsValid(j: Json, valid: Validity) {
    match j
    case JRaw(t) => valid(t)
    case JArray(elements) => forall i | 0 <= i < |elements| :: RawsValid(elements[i], valid)
    case JObject(members) => forall key | key in members :: RawsValid(members[key], valid)
    case _ => true
  }

  lemma {:induction false} IntTextIsOneLine(i: int)
    ensures OneLine(IntText(i))
  {
    DigitsRead(Abs(i));
  }

  lemma ScalarIsOneLine(v: Value, e: Encoder)
    requires Sound(e) && EncodeScalar(v, e).Some?
    ensures OneLine(EncodeScalar(v, e).value)
  {
    match v
    case Text(s) => EscapedIsOneLine(s);
    case Int(i) => IntTextIsOneLine(i);
    case _ =>
  }

  /** Rendered text never spans lines. */
  lemma {:induction false} TreeIsOneLine(j: Json, e: Encoder, valid: Validity)
    requires Sound(e) && ValidMeansNoControls(valid) && RawsValid(j, valid) && Encode(j, e).Some?
    ensures OneLine(Encode(j, e).value)
  {
    match j
    case JNull =>
    case JText(s) => EscapedIsOneLine(s);
    case JInt(i) => IntTextIsOneLine(i);
    case JRaw(t) => CompactIsOneLine(t, Outside);
    case JScalar(v) => ScalarIsOneLine(v, e);
    case JArray(elements) =>
      forall i | 0 <= i < |elements| ensures OneLine(Encode(elements[i], e).value) {
        TreeIsOneLine(elements[i], e, valid);
      }
      JoinIsOneLine(seq(|elements|, i requires 0 <= i < |elements| => Encode(elements[i], e).value));
    case JObject(members) =>
      var keys := e.order(members.Keys);
      forall i | 0 <= i < |keys| ensures OneLine(EncodeMember(j, keys[i], e).value) {
        EscapedIsOneLine(keys[i]);
        TreeIsOneLine(members[keys[i]], e, valid);
      }
      JoinIsOneLine(seq(|keys|, i requires 0 <= i < |keys| => EncodeMember(j, keys[i], e).value));
  }

  // ---- Rendered rows ----

  lemma {:induction false} ElementRawsValid(value: Value, field: Field, dialect: Dialect, valid: Validity)
    requires JsonElement(value, field, dialect, valid).Some?
    ensures RawsValid(JsonElement(value, field, dialect, valid).value, valid)
    decreases field, 0
  {
    if !value.Null? && field.typ == RecordField {
      ObjectRawsValid(value.columns, field.nested, dialect, valid);
    }
  }

  lemma {:induction false} ValueRawsValid(value: Value, field: Field, dialect: Dialect, valid: Validity)
    requires JsonValue(value, field, dialect, valid).Some?
    ensures RawsValid(JsonValue(value, field, dialect, valid).value, valid)
    decreases field, 1
  {
    if !value.Null? {
      if field.repeated {
        forall i | 0 <= i < |value.elements| ensures RawsValid(JsonElement(value.elements[i], field, dialect, valid).value, valid) {
          ElementRawsValid(value.elements[i], field, dialect, valid);
        }
      } else {
        ElementRawsValid(value, field, dialect, valid);
      }
    }
  }

  /** The renderer embeds only JSON. */
  lemma {:induction false} ObjectRawsValid(row: map<string, Value>, schema: seq<Field>, dialect: Dialect, valid: Validity)
    requires JsonObject(row, schema, dialect, valid).Some?
    ensures RawsValid(JObject(JsonObject(row, schema, dialect, valid).value), valid)
    decreases schema
  {
    forall name | name in row
      ensures name in ByName(schema)
      ensures RawsValid(JsonValue(row[name], ByName(schema)[name], dialect, valid).value, valid)
    {
      ByNameMember(schema, name);
      ValueRawsValid(row[name], ByName(schema)[name], dialect, valid);
    }
  }

  /** bytes.TrimSuffix(text, "\n"). */
  function TrimNewline(text: string): string {
    if text != "" && text[|text| - 1] == '\n' then text[..|text| - 1] else text
  }

  /** encodeRow: the encoder ends its text with a newline, which is trimmed; None is an error. */
  function EncodeRow(row: map<string, Value>, schema: seq<Field>, dialect: Dialect, valid: Validity, e: Encoder): Option<string> {
    match JsonObject(row, schema, dialect, valid)
    case None => None
    case Some(members) =>
      match Encode(JObject(members), e)
      case None => None
      case Some(text) => Some(TrimNewline(text + "\n"))
  }

  /** A rendered row contains no raw newline. */
  lemma RowIsOneLine(row: map<string, Value>, schema: seq<Field>, dialect: Dialect, valid: Validity, e: Encoder)
    requires Sound(e) && ValidMeansNoControls(valid)
    requires EncodeRow(row, schema, dialect, valid, e).Some?
    ensures OneLine(EncodeRow(row, schema, dialect, valid, e).value)
  {
    var tree := JObject(JsonObject(row, schema, dialect, valid).value);
    ObjectRawsValid(row, schema, dialect, valid);
    TreeIsOneLine(tree, e, valid);
    var text := Encode(tree, e).value;
    assert (text + "\n")[..|text + "\n"| - 1] == text;
  }
}
