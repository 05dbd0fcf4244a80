/**
 A reader of JSON text (RFC 8259), with whitespace between tokens: what BigQuery, or any other
 reader, finds in a line. Numbers are kept as their text. It is what the text of a rendered row
 is measured by; no part of the program reads JSON.
 */
module JsonReader {
  import opened Wrappers
  import opened Decimal
  import opened JsonText

  datatype Doc =
    | DNull
    | DBool(b: bool)
    | DNumber(text: string)
    | DText(text: string)
    | DArray(elements: seq<Doc>)
    | DObject(members: seq<(string, Doc)>)   // in the order of the text

  function SkipSpace(t: string): (u: string)
    ensures |u| <= |t|
    ensures u != "" ==> !Whitespace(u[0])
  {
    if t != "" && Whitespace(t[0]) then SkipSpace(t[1..]) else t
  }

  predicate NumberChar(c: char) {
    IsDigit(c) || c == '-' || c == '+' || c == '.' || c == 'e' || c == 'E'
  }

  /** How many characters of a number t starts with. */
  function NumberEnd(t: string): (k: nat)
    ensures k <= |t|
    ensures t != "" && NumberChar(t[0]) ==> k > 0
  {
    if t == "" || !NumberChar(t[0]) then 0 else 1 + NumberEnd(t[1..])
  }

  lemma {:induction false} StringShrinks(t: string)
    ensures ReadString(t).Some? ==> |ReadString(t).value.1| < |t|
    decreases |t|
  {
    if t != "" && t[0] != '"' && ReadChar(t).Some? && ReadChar(t).value.1 <= |t| {
      StringShrinks(t[ReadChar(t).value.1..]);
    }
  }

  /** A literal or a number. */
  function ReadPlain(u: string): (r: Option<(Doc, string)>)
    requires u != ""
    ensures r.Some? ==> |r.value.1| < |u|
  {
    if u[0] == 'n' then if "null" <= u then Some((DNull, u[4..])) else None
    else if u[0] == 't' then if "true" <= u then Some((DBool(true), u[4..])) else None
    else if u[0] == 'f' then if "false" <= u then Some((DBool(false), u[5..])) else None
    else if IsDigit(u[0]) || u[0] == '-' then Some((DNumber(u[..NumberEnd(u)]), u[NumberEnd(u)..]))
    else None
  }

  /** One value at the start of t, and the text after it. */
  function ReadDoc(t: string): (r: Option<(Doc, string)>)
    ensures r.Some? ==> |r.value.1| < |t|
    decreases |t|, 0
  {
    var u := SkipSpace(t);
    if u == "" then None
    else if u[0] == '"' then
      StringShrinks(u[1..]);
      match ReadString(u[1..])
      case None => None
      case Some((s, rest)) => Some((DText(s), rest))
    else if u[0] == '[' then ReadArray(u[1..])
    else if u[0] == '{' then ReadObject(u[1..])
    else ReadPlain(u)
  }

  /** An array whose opening bracket is already read. */
  function ReadArray(t: string): (r: Option<(Doc, string)>)
    ensures r.Some? ==> |r.value.1| < |t|
    decreases |t|, 2
  {
    var u := SkipSpace(t);
    if u != "" && u[0] == ']' then Some((DArray([]), u[1..]))
    else
      match ReadElements(t)
      case None => None
      case Some((elements, rest)) => Some((DArray(elements), rest))
  }

  function ReadElements(t: string): (r: Option<(seq<Doc>, string)>)
    ensures r.Some? ==> |r.value.1| < |t|
    decreases |t|, 1
  {
    match ReadDoc(t)
    case None => None
    case Some((d, after)) =>
      var v := SkipSpace(after);
      if v == "" then None
      else if v[0] == ']' then Some(([d], v[1..]))
      else if v[0] != ',' then None
      else
        match ReadElements(v[1..])
        case None => None
        case Some((more, rest)) => Some(([d] + more, rest))
  }

  /** A name, a colon and a value. */
  function ReadMember(t: string): (r: Option<((string, Doc), string)>)
    ensures r.Some? ==> |r.value.1| < |t|
    decreases |t|, 0
  {
    var u := SkipSpace(t);
    if u == "" || u[0] != '"' then None
    else
      StringShrinks(u[1..]);
      match ReadString(u[1..])
      case None => None
      case Some((name, after)) =>
        var v := SkipSpace(after);
        if v == "" || v[0] != ':' then None
        else
          match ReadDoc(v[1..])
          case None => None
          case Some((d, rest)) => Some(((name, d), rest))
  }

  /** An object whose opening brace is already read. */
  function ReadObject(t: string): (r: Option<(Doc, string)>)
    ensures r.Some? ==> |r.value.1| < |t|
    decreases |t|, 2
  {
    var u := SkipSpace(t);
    if u != "" && u[0] == '}' then Some((DObject([]), u[1..]))
    else
      match ReadMembers(t)
      case None => None
      case Some((members, rest)) => Some((DObject(members), rest))
  }

  function ReadMembers(t: string): (r: Option<(seq<(string, Doc)>, string)>)
    ensures r.Some? ==> |r.value.1| < |t|
    decreases |t|, 1
  {
    match ReadMember(t)
    case None => None
    case Some((member, after)) =>
      var v := SkipSpace(after);
      if v == "" then None
      else if v[0] == '}' then Some(([member], v[1..]))
      else if v[0] != ',' then None
      else
        match ReadMembers(v[1..])
        case None => None
        case Some((more, rest)) => Some(([member] + more, rest))
  }

  /** The value a whole text stands for. */
  function Read(t: string): Option<Doc> {
    match ReadDoc(t)
    case None => None
    case Some((d, rest)) => if SkipSpace(rest) == "" then Some(d) else None
  }

  // ---- Compacting keeps the meaning ----

  /** Nothing follows that a number would take for part of itself. */
  predicate Ends(rest: string) {
    rest == "" || !NumberChar(rest[0])
  }

  lemma {:induction false} CompactSkips(t: string)
    ensures Compact(SkipSpace(t), Outside) == Compact(t, Outside)
  {
    if t != "" && Whitespace(t[0]) {
      CompactSkips(t[1..]);
    }
  }

  /** Compacted text starts with its first token. */
  lemma StartsWithToken(t: string, rest: string)
    ensures
      var u, x := SkipSpace(t), Compact(t, Outside) + rest;
      if u == "" then x == rest
      else SkipSpace(x) == x && x != "" && x[0] == u[0] && x[1..] == Compact(u[1..], NextScan(Outside, u[0])) + rest
  {
    CompactSkips(t);
    var u := SkipSpace(t);
    if u != "" {
      var more := Compact(u[1..], NextScan(Outside, u[0]));
      assert Compact(u, Outside) == [u[0]] + more;
      assert ([u[0]] + more) + rest == [u[0]] + (more + rest);
    } else {
      assert "" + rest == rest;
    }
  }

  lemma EndsCompacted(t: string, rest: string)
    requires Ends(SkipSpace(t) + rest)
    ensures Ends(Compact(t, Outside) + rest)
  {
    StartsWithToken(t, rest);
    if SkipSpace(t) == "" {
      assert "" + rest == rest;
    }
  }

  /** Text that compacting leaves alone: no whitespace and no quote. */
  predicate Solid(s: string) {
    forall i | 0 <= i < |s| :: !Whitespace(s[i]) && s[i] != '"'
  }

  lemma {:induction false} SolidKept(s: string, t: string)
    requires Solid(s)
    ensures Compact(s + t, Outside) == s + Compact(t, Outside)
  {
    if s == "" {
      assert s + t == t;
    } else {
      assert (s + t)[1..] == s[1..] + t;
      SolidKept(s[1..], t);
      assert [s[0]] + (s[1..] + Compact(t, Outside)) == s + Compact(t, Outside);
    }
  }

  lemma {:induction false} NumberEnds(s: string, rest: string)
    requires (forall i | 0 <= i < |s| :: NumberChar(s[i])) && Ends(rest)
    ensures NumberEnd(s + rest) == |s|
  {
    if s == "" {
      assert s + rest == rest;
    } else {
      assert (s + rest)[1..] == s[1..] + rest;
      NumberEnds(s[1..], rest);
    }
  }

  lemma {:induction false} NumberChars(t: string)
    ensures forall i | 0 <= i < NumberEnd(t) :: NumberChar(t[i])
  {
    if t != "" && NumberChar(t[0]) {
      NumberChars(t[1..]);
      forall i | 0 <= i < NumberEnd(t) ensures NumberChar(t[i]) {
        assert i > 0 ==> t[i] == t[1..][i - 1];
      }
    }
  }

  lemma WordAhead(word: string, rest: string)
    requires word != ""
    ensures word <= word + rest && (word + rest)[0] == word[0] && (word + rest)[|word|..] == rest
  {
  }

  lemma NumberRead(s: string, rest: string)
    requires s != "" && (forall i | 0 <= i < |s| :: NumberChar(s[i])) && (IsDigit(s[0]) || s[0] == '-') && Ends(rest)
    ensures ReadPlain(s + rest) == Some((DNumber(s), rest))
  {
    NumberEnds(s, rest);
    assert (s + rest)[..|s|] == s && (s + rest)[|s|..] == rest;
  }

  /** A solid token at the start of u stays at the start, followed by the rest compacted. */
  lemma TokenKept(s: string, u: string, rest: string)
    requires Solid(s) && s <= u
    ensures Compact(u, Outside) + rest == s + (Compact(u[|s|..], Outside) + rest)
  {
    assert u == s + u[|s|..];
    SolidKept(s, u[|s|..]);
  }

  lemma NumberTaken(u: string)
    requires u != "" && ReadPlain(u).Some? && ReadPlain(u).value.0.DNumber?
    ensures ReadPlain(u).value == (DNumber(u[..NumberEnd(u)]), u[NumberEnd(u)..])
    ensures NumberEnd(u) > 0 && (IsDigit(u[0]) || u[0] == '-')
  {
  }

  lemma NumberCompacts(u: string, k: nat, rest: string)
    requires u != "" && k == NumberEnd(u) > 0 && (IsDigit(u[0]) || u[0] == '-') && Ends(SkipSpace(u[k..]) + rest)
    ensures
      var x, more := Compact(u, Outside) + rest, Compact(u[k..], Outside) + rest;
      x != "" && ReadPlain(x) == Some((DNumber(u[..k]), more))
  {
    NumberChars(u);
    EndsCompacted(u[k..], rest);
    assert u[..k][0] == u[0];
    NumberRead(u[..k], Compact(u[k..], Outside) + rest);
    TokenKept(u[..k], u, rest);
  }

  function WordOf(d: Doc): string
    requires d.DNull? || d.DBool?
  {
    if d.DNull? then "null" else if d.b then "true" else "false"
  }

  lemma WordTaken(u: string)
    requires u != "" && ReadPlain(u).Some? && !ReadPlain(u).value.0.DNumber?
    ensures
      var (d, after) := ReadPlain(u).value;
      (d.DNull? || d.DBool?) && WordOf(d) <= u && after == u[|WordOf(d)|..]
  {
  }

  lemma WordRead(d: Doc, rest: string)
    requires d.DNull? || d.DBool?
    ensures Solid(WordOf(d)) && WordOf(d) + rest != "" && ReadPlain(WordOf(d) + rest) == Some((d, rest))
  {
    WordAhead(WordOf(d), rest);
  }

  lemma PlainCompacts(u: string, rest: string)
    requires u != "" && ReadPlain(u).Some? && Ends(SkipSpace(ReadPlain(u).value.1) + rest)
    ensures
      var (d, after) := ReadPlain(u).value;
      var x := Compact(u, Outside) + rest;
      x != "" && ReadPlain(x) == Some((d, Compact(after, Outside) + rest))
  {
    if ReadPlain(u).value.0.DNumber? {
      NumberTaken(u);
      NumberCompacts(u, NumberEnd(u), rest);
    } else {
      WordCompacts(u, rest);
    }
  }

  lemma WordCompacts(u: string, rest: string)
    requires u != "" && ReadPlain(u).Some? && !ReadPlain(u).value.0.DNumber?
    ensures
      var (d, after) := ReadPlain(u).value;
      var x := Compact(u, Outside) + rest;
      x != "" && ReadPlain(x) == Some((d, Compact(after, Outside) + rest))
  {
    var (d, after) := ReadPlain(u).value;
    WordTaken(u);
    WordRead(d, Compact(after, Outside) + rest);
    TokenKept(WordOf(d), u, rest);
  }
}
