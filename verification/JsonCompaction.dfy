/**
 Compacting JSON text changes nothing a reader finds in it (jsonrow.go:164-167): encoding/json
 compacts the text of a JSON column where it embeds it.
 */
module JsonCompaction {
  import opened Wrappers
  import opened JsonText
  import opened JsonReader

  // ---- Inside a string ----

  lemma InsideOne(t: string)
    requires t != "" && t[0] != '"' && t[0] != '\\'
    ensures Compact(t, Inside) == [t[0]] + Compact(t[1..], Inside)
  {
  }

  lemma EscapedOne(t: string)
    requires t != ""
    ensures Compact(t, Escaped) == [t[0]] + Compact(t[1..], Inside)
  {
  }

  lemma InsideBackslash(t: string)
    requires t != "" && t[0] == '\\'
    ensures Compact(t, Inside) == [t[0]] + Compact(t[1..], Escaped)
  {
  }

  lemma InsideEscape(t: string)
    requires |t| >= 2 && t[0] == '\\'
    ensures Compact(t, Inside) == t[..2] + Compact(t[2..], Inside)
  {
    var u := t[1..];
    InsideBackslash(t);
    EscapedOne(u);
    assert u[1..] == t[2..] && [t[0]] + [u[0]] == t[..2];
    Associates([t[0]], [u[0]], Compact(t[2..], Inside));
  }

  lemma InsideFour(t: string)
    requires ReadHex(t).Some?
    ensures Compact(t, Inside) == t[..4] + Compact(t[4..], Inside)
  {
    InsideOne(t);
    InsideOne(t[1..]);
    InsideOne(t[2..]);
    InsideOne(t[3..]);
    assert t[1..][1..] == t[2..] && t[2..][1..] == t[3..] && t[3..][1..] == t[4..];
    assert t[..4] == [t[0]] + [t[1]] + [t[2]] + [t[3]];
  }

  /** An escape with \u is kept as it is. */
  lemma InsideUnicode(t: string)
    requires |t| >= 2 && t[0] == '\\' && t[1] == 'u' && ReadHex(t[2..]).Some?
    ensures |t| >= 6 && Compact(t, Inside) == t[..6] + Compact(t[6..], Inside)
  {
    InsideEscape(t);
    var u := t[2..];
    InsideFour(u);
    assert u[4..] == t[6..] && t[..2] + u[..4] == t[..6];
    Associates(t[..2], u[..4], Compact(t[6..], Inside));
  }

  lemma SameHex(a: string, b: string)
    requires |a| >= 4 && |b| >= 4 && a[..4] == b[..4]
    ensures ReadHex(a) == ReadHex(b)
  {
    assert a[0] == a[..4][0] && a[1] == a[..4][1] && a[2] == a[..4][2] && a[3] == a[..4][3];
  }

  /** Whether a second half of a surrogate pair follows is not changed either. */
  lemma LowKept(t: string, rest: string)
    requires t != "" && (t[0] == '"' || ReadChar(t).Some?)
    ensures LowSurrogate(Compact(t, Inside) + rest) == LowSurrogate(t)
  {
    var x := Compact(t, Inside) + rest;
    assert x[0] == t[0];
    if t[0] == '\\' {
      InsideEscape(t);
      assert x[1] == t[1];
      if t[1] == 'u' {
        InsideUnicode(t);
        assert x[..6] == t[..6];
        assert x[2..][..4] == x[..6][2..] && t[2..][..4] == t[..6][2..];
        SameHex(x[2..], t[2..]);
      }
    }
  }

  lemma UnicodeKept(t: string, rest: string)
    requires |t| >= 2 && t[0] == '\\' && t[1] == 'u' && ReadChar(t).Some? && ReadChar(t).value.1 == 6
    requires t[6..] != "" && (t[6] == '"' || ReadChar(t[6..]).Some?)
    ensures
      var x := t[..6] + (Compact(t[6..], Inside) + rest);
      ReadChar(x) == ReadChar(t)
  {
    var more := Compact(t[6..], Inside) + rest;
    var x := t[..6] + more;
    LowKept(t[6..], rest);
    assert x[2..][..4] == x[..6][2..] && x[..6] == t[..6] && t[2..][..4] == t[..6][2..];
    SameHex(x[2..], t[2..]);
    assert x[2..][4..] == more && t[2..][4..] == t[6..];
  }

  lemma PairKept(t: string, more: string)
    requires |t| >= 12 && t[0] == '\\' && t[1] == 'u' && ReadChar(t).Some? && ReadChar(t).value.1 == 12
    ensures ReadChar(t[..12] + more) == ReadChar(t)
  {
    var x := t[..12] + more;
    assert x[..12] == t[..12];
    assert x[2..][..4] == x[..12][2..6] && t[2..][..4] == t[..12][2..6];
    SameHex(x[2..], t[2..]);
    var lx, lt := x[2..][4..], t[2..][4..];
    assert lx[0] == x[6] == t[6] == lt[0] && lx[1] == x[7] == t[7] == lt[1];
    assert lx[2..][..4] == x[..12][8..] && lt[2..][..4] == t[..12][8..];
    SameHex(lx[2..], lt[2..]);
  }

  lemma PairParts(t: string)
    requires |t| >= 2 && t[0] == '\\' && t[1] == 'u' && ReadChar(t).Some? && ReadChar(t).value.1 == 12
    ensures |t| >= 12 && t[6] == '\\' && t[7] == 'u' && ReadHex(t[2..]).Some? && ReadHex(t[6..][2..]).Some?
  {
    assert t[2..][4..] == t[6..];
  }

  lemma InsidePair(t: string)
    requires |t| >= 12 && t[0] == '\\' && t[1] == 'u' && ReadHex(t[2..]).Some?
    requires t[6] == '\\' && t[7] == 'u' && ReadHex(t[6..][2..]).Some?
    ensures Compact(t, Inside) == t[..12] + Compact(t[12..], Inside)
  {
    InsideUnicode(t);
    var u := t[6..];
    InsideUnicode(u);
    assert u[6..] == t[12..];
    assert t[..6] + u[..6] == t[..12];
    Associates(t[..6], u[..6], Compact(t[12..], Inside));
  }

  /** How much text a character takes. */
  lemma CharTakes(t: string)
    requires t != "" && ReadChar(t).Some?
    ensures
      var n := ReadChar(t).value.1;
      if t[0] != '\\' then n == 1
      else |t| >= 2 && if t[1] != 'u' then n == 2 else ReadHex(t[2..]).Some? && (n == 6 || n == 12)
  {
  }

  /** The text of one character is kept. */
  lemma CharKept(t: string, n: nat)
    requires t != "" && t[0] != '"' && ReadChar(t).Some? && ReadChar(t).value.1 == n
    ensures n <= |t| && Compact(t, Inside) == t[..n] + Compact(t[n..], Inside)
  {
    CharTakes(t);
    if n == 1 {
      InsideOne(t);
      assert t[..1] == [t[0]];
    } else if n == 2 {
      InsideEscape(t);
    } else {
      UnicodeTextKept(t, n);
    }
  }

  lemma UnicodeTextKept(t: string, n: nat)
    requires |t| >= 2 && t[0] == '\\' && t[1] == 'u' && ReadChar(t).Some? && ReadChar(t).value.1 == n
    requires ReadHex(t[2..]).Some? && (n == 6 || n == 12)
    ensures n <= |t| && Compact(t, Inside) == t[..n] + Compact(t[n..], Inside)
  {
    if n == 6 {
      InsideUnicode(t);
    } else {
      PairParts(t);
      InsidePair(t);
    }
  }

  lemma CharSame(t: string, rest: string)
    requires t != "" && t[0] != '"' && ReadChar(t).Some?
    requires var n := ReadChar(t).value.1; n < |t| && (t[n] == '"' || ReadChar(t[n..]).Some?)
    ensures
      var n := ReadChar(t).value.1;
      ReadChar(t[..n] + (Compact(t[n..], Inside) + rest)) == ReadChar(t)
  {
    var n := ReadChar(t).value.1;
    if t[0] == '\\' && t[1] == 'u' {
      if n == 6 {
        UnicodeKept(t, rest);
      } else {
        PairKept(t, Compact(t[n..], Inside) + rest);
      }
    }
  }

  /** One character of a string is read as before, and what follows it is compacted. */
  lemma CharCompacts(t: string, rest: string)
    requires t != "" && t[0] != '"' && ReadChar(t).Some?
    requires var n := ReadChar(t).value.1; n < |t| && (t[n] == '"' || ReadChar(t[n..]).Some?)
    ensures
      var x, n := Compact(t, Inside) + rest, ReadChar(t).value.1;
      x != "" && x[0] == t[0] && n <= |x| && ReadChar(x) == ReadChar(t) && x[n..] == Compact(t[n..], Inside) + rest
  {
    var n := ReadChar(t).value.1;
    CharKept(t, n);
    CharSame(t, rest);
    Associates(t[..n], Compact(t[n..], Inside), rest);
  }

  lemma StringStarts(t: string)
    requires ReadString(t).Some?
    ensures t != "" && (t[0] == '"' || ReadChar(t).Some?)
  {
  }

  /** A string literal keeps its text; after it, compacting goes on. */
  lemma {:induction false} StringCompacts(t: string, rest: string)
    requires ReadString(t).Some?
    ensures
      var (s, after) := ReadString(t).value;
      ReadString(Compact(t, Inside) + rest) == Some((s, Compact(after, Outside) + rest))
    decreases |t|
  {
    var x := Compact(t, Inside) + rest;
    if t[0] == '"' {
      assert x == ['"'] + (Compact(t[1..], Outside) + rest);
    } else {
      var n := ReadChar(t).value.1;
      StringStarts(t[n..]);
      CharCompacts(t, rest);
      StringCompacts(t[n..], rest);
    }
  }

  // ---- Values ----

  lemma {:induction false} DocCompacts(t: string, rest: string)
    requires ReadDoc(t).Some? && Ends(SkipSpace(ReadDoc(t).value.1) + rest)
    ensures
      var (d, after) := ReadDoc(t).value;
      ReadDoc(Compact(t, Outside) + rest) == Some((d, Compact(after, Outside) + rest))
    decreases |t|, 0
  {
    var u, x := SkipSpace(t), Compact(t, Outside) + rest;
    StartsWithToken(t, rest);
    if u[0] == '"' {
      StringCompacts(u[1..], rest);
    } else if u[0] == '[' {
      ArrayCompacts(u[1..], rest);
    } else if u[0] == '{' {
      ObjectCompacts(u[1..], rest);
    } else {
      CompactSkips(t);
      PlainCompacts(u, rest);
    }
  }

  lemma {:induction false} ArrayCompacts(t: string, rest: string)
    requires ReadArray(t).Some?
    ensures
      var (d, after) := ReadArray(t).value;
      ReadArray(Compact(t, Outside) + rest) == Some((d, Compact(after, Outside) + rest))
    decreases |t|, 2
  {
    StartsWithToken(t, rest);
    var u := SkipSpace(t);
    if !(u != "" && u[0] == ']') {
      ElementsStart(t);
      ElementsCompact(t, rest);
    }
  }

  lemma ElementsStart(t: string)
    requires ReadElements(t).Some? || ReadMembers(t).Some?
    ensures SkipSpace(t) != ""
  {
  }

  lemma {:induction false} ElementsCompact(t: string, rest: string)
    requires ReadElements(t).Some?
    ensures
      var (ds, after) := ReadElements(t).value;
      ReadElements(Compact(t, Outside) + rest) == Some((ds, Compact(after, Outside) + rest))
    decreases |t|, 1
  {
    var v := SkipSpace(ReadDoc(t).value.1);
    assert Ends(v + rest);
    DocCompacts(t, rest);
    StartsWithToken(ReadDoc(t).value.1, rest);
    if v[0] == ',' {
      ElementsCompact(v[1..], rest);
    }
  }

  lemma {:induction false} MemberCompacts(t: string, rest: string)
    requires ReadMember(t).Some? && Ends(SkipSpace(ReadMember(t).value.1) + rest)
    ensures
      var (m, after) := ReadMember(t).value;
      ReadMember(Compact(t, Outside) + rest) == Some((m, Compact(after, Outside) + rest))
    decreases |t|, 0
  {
    var u := SkipSpace(t);
    StartsWithToken(t, rest);
    StringShrinks(u[1..]);
    StringCompacts(u[1..], rest);
    var after := ReadString(u[1..]).value.1;
    var v := SkipSpace(after);
    StartsWithToken(after, rest);
    DocCompacts(v[1..], rest);
  }

  lemma {:induction false} ObjectCompacts(t: string, rest: string)
    requires ReadObject(t).Some?
    ensures
      var (d, after) := ReadObject(t).value;
      ReadObject(Compact(t, Outside) + rest) == Some((d, Compact(after, Outside) + rest))
    decreases |t|, 2
  {
    StartsWithToken(t, rest);
    var u := SkipSpace(t);
    if !(u != "" && u[0] == '}') {
      ElementsStart(t);
      MembersCompact(t, rest);
    }
  }

  lemma {:induction false} MembersCompact(t: string, rest: string)
    requires ReadMembers(t).Some?
    ensures
      var (ms, after) := ReadMembers(t).value;
      ReadMembers(Compact(t, Outside) + rest) == Some((ms, Compact(after, Outside) + rest))
    decreases |t|, 1
  {
    var v := SkipSpace(ReadMember(t).value.1);
    assert Ends(v + rest);
    MemberCompacts(t, rest);
    StartsWithToken(ReadMember(t).value.1, rest);
    if v[0] == ',' {
      MembersCompact(v[1..], rest);
    }
  }

  /** A whole text means the same once compacted, also where other text follows it. */
  lemma CompactedReads(t: string, rest: string)
    requires Read(t).Some? && Ends(rest)
    ensures ReadDoc(Compact(t, Outside) + rest) == Some((Read(t).value, rest))
  {
    var after := ReadDoc(t).value.1;
    assert SkipSpace(after) + rest == rest;
    DocCompacts(t, rest);
    StartsWithToken(after, rest);
  }

  /** Compacting changes nothing that a reader finds in a text. */
  lemma CompactKeepsMeaning(t: string)
    requires Read(t).Some?
    ensures Read(Compact(t, Outside)) == Read(t)
  {
    CompactedReads(t, "");
    assert Compact(t, Outside) + "" == Compact(t, Outside);
  }
}
