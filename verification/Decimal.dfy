/**
 Decimal text (jsonrow.go:170-193): how a rational is written for a NUMERIC or BIGNUMERIC
 column, and what number the text reads back as.
 */
module Decimal {
  import opened Arith
  import opened Schema

  datatype Ratio = Ratio(num: int, den: int)

  type Rational = r: Ratio | r.den > 0 witness Ratio(0, 1)

  const NUMERIC_SCALE := 9
  const BIGNUMERIC_SCALE := 38

  /** The digits a column keeps after the point. */
  function DecimalScale(field: Field): (scale: nat)
    ensures scale > 0
  {
    if field.scale > 0 then field.scale
    else if field.typ == BigNumericField then BIGNUMERIC_SCALE
    else NUMERIC_SCALE
  }

  predicate IsInt(r: Rational) {
    r.num % r.den == 0
  }

  function Pow10(n: nat): (p: nat)
    ensures p > 0
  {
    if n == 0 then 1 else 10 * Pow10(n - 1)
  }

  function Digit(d: nat): char
    requires d < 10
  {
    '0' + d as char
  }

  function Digits(n: nat): (s: string)
    ensures s != []
  {
    if n < 10 then [Digit(n)] else Digits(n / 10) + [Digit(n % 10)]
  }

  function Zeros(n: nat): string {
    seq(n, _ => '0')
  }

  function Abs(i: int): nat {
    if i < 0 then -i else i
  }

  /** An integer in decimal, as big.Int prints it. */
  function IntText(i: int): string {
    (if i < 0 then "-" else "") + Digits(Abs(i))
  }

  /** The whole part and the fraction, in units of 1/p, that FloatString prints for a / den: a half goes up. */
  function Rounded(a: nat, den: nat, p: nat): (nat, nat)
    requires den > 0
  {
    MulMono(0, a % den, p);
    var whole := a / den;
    var rest := a % den * p;
    var frac := rest / den;
    if den <= 2 * (rest % den) then
      if frac + 1 >= p then (whole + 1, frac + 1 - p) else (whole, frac + 1)
    else (whole, frac)
  }

  function Sign(r: Rational): string {
    if r.num < 0 then "-" else ""
  }

  /** big.Rat's FloatString for a positive precision. */
  function FloatText(r: Rational, scale: nat): string
    requires scale > 0
  {
    var parts := Rounded(Abs(r.num), r.den, Pow10(scale));
    Sign(r) + (Digits(parts.0) + "." + Padded(parts.1, scale))
  }

  function Padded(frac: nat, scale: nat): string {
    var digits := Digits(frac);
    Zeros(if |digits| < scale then scale - |digits| else 0) + digits
  }

  /** decimalString. */
  function DecimalText(r: Rational, field: Field): string {
    if IsInt(r) then IntText(r.num / r.den) else FloatText(r, DecimalScale(field))
  }

  // ---- Reading decimal text ----

  predicate IsDigit(c: char) {
    '0' <= c <= '9'
  }

  function DigitValue(c: char): (d: nat)
    requires IsDigit(c)
    ensures d < 10
  {
    (c - '0') as int
  }

  predicate AllDigits(s: string) {
    s != [] && forall i | 0 <= i < |s| :: IsDigit(s[i])
  }

  function ReadDigits(s: string): nat
    requires forall i | 0 <= i < |s| :: IsDigit(s[i])
  {
    if s == [] then 0 else 10 * ReadDigits(s[..|s|-1]) + DigitValue(s[|s|-1])
  }

  function Point(s: string): (k: nat)
    ensures k <= |s|
    ensures forall i | 0 <= i < k :: s[i] != '.'
    ensures k < |s| ==> s[k] == '.'
  {
    if s == [] || s[0] == '.' then 0 else 1 + Point(s[1..])
  }

  /** An optional sign, digits, and optionally a point with more digits. */
  predicate IsDecimal(s: string) {
    if s != [] && s[0] == '-' then IsUnsigned(s[1..]) else IsUnsigned(s)
  }

  predicate IsUnsigned(s: string) {
    AllDigits(s[..Point(s)]) && (Point(s) < |s| ==> AllDigits(s[Point(s) + 1..]))
  }

  function ReadUnsigned(s: string): (r: Rational)
    requires IsUnsigned(s)
  {
    if Point(s) == |s| then Ratio(ReadDigits(s), 1)
    else
      var frac := s[Point(s) + 1..];
      Ratio(ReadDigits(s[..Point(s)]) * Pow10(|frac|) + ReadDigits(frac), Pow10(|frac|))
  }

  /** The number decimal text stands for. */
  function ReadDecimal(s: string): Rational
    requires IsDecimal(s)
  {
    if s != [] && s[0] == '-' then
      var r := ReadUnsigned(s[1..]);
      Ratio(-r.num, r.den)
    else ReadUnsigned(s)
  }

  // ---- Order of rationals ----

  predicate Equal(a: Rational, b: Rational) {
    a.num * b.den == b.num * a.den
  }

  predicate AtMost(a: Rational, b: Rational) {
    a.num * b.den <= b.num * a.den
  }

  // ---- Digits ----

  lemma {:induction false} DigitsRead(n: nat)
    ensures AllDigits(Digits(n)) && ReadDigits(Digits(n)) == n
  {
    if n >= 10 {
      DigitsRead(n / 10);
      assert Digits(n)[..|Digits(n)|-1] == Digits(n / 10);
    } else {
      assert Digits(n)[..0] == [];
    }
  }

  lemma {:induction false} ZerosRead(k: nat, s: string)
    requires forall i | 0 <= i < |s| :: IsDigit(s[i])
    ensures ReadDigits(Zeros(k) + s) == ReadDigits(s)
    decreases |s|, k
  {
    var t := Zeros(k) + s;
    if s == [] {
      if k > 0 {
        assert t[..|t|-1] == Zeros(k - 1) + s;
        ZerosRead(k - 1, s);
      }
    } else {
      assert t[..|t|-1] == Zeros(k) + s[..|s|-1];
      ZerosRead(k, s[..|s|-1]);
    }
  }

  lemma {:induction false} DigitsFit(n: nat, width: nat)
    requires n < Pow10(width) && width > 0
    ensures |Digits(n)| <= width
  {
    if n >= 10 {
      assert Pow10(width) == 10 * Pow10(width - 1);
      DigitsFit(n / 10, width - 1);
    }
  }

  lemma {:induction false} PointAfter(a: string, b: string)
    requires AllDigits(a)
    ensures Point(a + "." + b) == |a|
  {
    PointAt(a + "." + b, |a|);
  }

  lemma {:induction false} PointAt(s: string, k: nat)
    requires k <= |s| && (forall i | 0 <= i < k :: s[i] != '.') && (k < |s| ==> s[k] == '.')
    ensures Point(s) == k
  {
    if k > 0 {
      PointAt(s[1..], k - 1);
    }
  }

  lemma PaddedRead(frac: nat, scale: nat)
    requires frac < Pow10(scale) && scale > 0
    ensures AllDigits(Padded(frac, scale)) && |Padded(frac, scale)| == scale && ReadDigits(Padded(frac, scale)) == frac
  {
    DigitsRead(frac);
    DigitsFit(frac, scale);
    ZerosRead(scale - |Digits(frac)|, Digits(frac));
  }

  /** Unsigned text with a point reads as its whole part and its fraction. */
  lemma PointRead(whole: nat, frac: string)
    requires AllDigits(frac)
    ensures
      var s := Digits(whole) + "." + frac;
      && IsUnsigned(s) && s[0] != '-'
      && ReadUnsigned(s) == Ratio(whole * Pow10(|frac|) + ReadDigits(frac), Pow10(|frac|))
  {
    var s := Digits(whole) + "." + frac;
    DigitsRead(whole);
    PointAfter(Digits(whole), frac);
    assert s[..|Digits(whole)|] == Digits(whole);
    assert s[|Digits(whole)| + 1..] == frac;
  }

  lemma IntRead(i: int)
    ensures IsDecimal(IntText(i)) && ReadDecimal(IntText(i)) == Ratio(i, 1)
  {
    var digits := Digits(Abs(i));
    DigitsRead(Abs(i));
    PointAt(digits, |digits|);
    assert digits[..|digits|] == digits;
    if i < 0 {
      assert IntText(i)[1..] == digits;
    } else {
      assert IntText(i) == digits;
    }
  }

  // ---- Rounding ----

  /** a / den rounded to an integer, a half going up. */
  function Nearest(a: nat, den: nat): nat
    requires den > 0
  {
    a / den + (if den <= 2 * (a % den) then 1 else 0)
  }

  lemma SplitScaled(a: int, p: int, den: int, q: int, m: int, x: int, b: int)
    requires a == q * den + m && m * p == x * den + b
    ensures a * p == (q * p + x) * den + b
  {
    calc {
      a * p;
      (q * den) * p + m * p;
      (q * p) * den + x * den + b;
      (q * p + x) * den + b;
    }
  }

  lemma FractionBound(m: int, p: int, den: int, x: int, b: int)
    requires 0 <= m < den && p > 0 && m * p == x * den + b && b >= 0
    ensures x < p
  {
    MulStrict(m, den, p);
    if x >= p {
      MulMono(p, x, den);
      assert false;
    }
  }

  /** Whole part and fraction together are the scaled value rounded to the nearest integer. */
  lemma RoundedIsNearest(a: nat, den: nat, p: nat)
    requires den > 0 && p > 0
    ensures Rounded(a, den, p).0 * p + Rounded(a, den, p).1 == Nearest(a * p, den)
    ensures Rounded(a, den, p).1 < p
  {
    var q, m := a / den, a % den;
    var x, b := m * p / den, m * p % den;
    QuotRem(a, den);
    QuotRem(m * p, den);
    FractionBound(m, p, den, x, b);
    SplitScaled(a, p, den, q, m, x, b);
    DivMod(a * p, den, q * p + x, b);
    assert (q + 1) * p == q * p + p;
  }

  // ---- What the text stands for ----

  /** The value the text stands for, in units of the last kept digit. */
  function Kept(r: Rational, scale: nat): int {
    var n: int := Nearest(Abs(r.num) * Pow10(scale), r.den);
    if r.num < 0 then -n else n
  }

  lemma SignedRead(r: Rational, unsigned: string)
    requires IsUnsigned(unsigned) && unsigned[0] != '-'
    ensures IsDecimal(Sign(r) + unsigned)
    ensures
      var u := ReadUnsigned(unsigned);
      ReadDecimal(Sign(r) + unsigned) == Ratio(if r.num < 0 then -u.num else u.num, u.den)
  {
    if r.num < 0 {
      assert (Sign(r) + unsigned)[1..] == unsigned;
    } else {
      assert Sign(r) + unsigned == unsigned;
    }
  }

  lemma FloatRead(r: Rational, scale: nat)
    requires scale > 0
    ensures IsDecimal(FloatText(r, scale))
    ensures ReadDecimal(FloatText(r, scale)) == Ratio(Kept(r, scale), Pow10(scale))
  {
    var parts := Rounded(Abs(r.num), r.den, Pow10(scale));
    var whole, frac := parts.0, parts.1;
    RoundedIsNearest(Abs(r.num), r.den, Pow10(scale));
    var padded := Padded(frac, scale);
    PaddedRead(frac, scale);
    PointRead(whole, padded);
    SignedRead(r, Digits(whole) + "." + padded);
  }

  lemma SignOfQuotient(k: int, den: int)
    requires den > 0
    ensures k * den < 0 <==> k < 0
  {
    if k < 0 {
      AtMostMinusOne(den, k);
    } else {
      MulMono(0, k, den);
    }
  }

  lemma ExactlyScaled(m: nat, den: nat, p: nat)
    requires den > 0
    ensures m * den * p / den == m * p && m * den * p % den == 0
  {
    assert m * den * p == m * p * den;
    DivMod(m * den * p, den, m * p, 0);
  }

  /** An integral value keeps all of itself at every scale. */
  lemma IntegralKept(r: Rational, scale: nat)
    requires IsInt(r)
    ensures Kept(r, scale) == r.num / r.den * Pow10(scale)
  {
    var k, p := r.num / r.den, Pow10(scale);
    assert r.num == k * r.den;
    SignOfQuotient(k, r.den);
    var m := if k < 0 then -k else k;
    assert Abs(r.num) == m * r.den;
    ExactlyScaled(m, r.den, p);
    assert -(m * p) == -m * p;
  }

  /** The text of a value, integral or not, is decimal text for Kept units of its scale. */
  lemma TextStandsFor(r: Rational, field: Field)
    ensures IsDecimal(DecimalText(r, field))
    ensures Equal(ReadDecimal(DecimalText(r, field)), Ratio(Kept(r, DecimalScale(field)), Pow10(DecimalScale(field))))
  {
    var scale := DecimalScale(field);
    if IsInt(r) {
      IntRead(r.num / r.den);
      IntegralKept(r, scale);
    } else {
      FloatRead(r, scale);
    }
  }

  lemma NearestWithinHalf(a: int, den: int)
    requires a >= 0 && den > 0
    ensures -den <= 2 * (a - Nearest(a, den) * den) < den
    ensures Nearest(a, den) * den == a <==> a % den == 0
  {
    assert a == a / den * den + a % den;
    assert (a / den + 1) * den == a / den * den + den;
  }

  lemma KeptWithinHalf(r: Rational, scale: nat)
    ensures -r.den <= 2 * (r.num * Pow10(scale) - Kept(r, scale) * r.den) <= r.den
    ensures Kept(r, scale) * r.den == r.num * Pow10(scale) <==> r.num * Pow10(scale) % r.den == 0
  {
    var p := Pow10(scale);
    var a := Abs(r.num) * p;
    NearestWithinHalf(a, r.den);
    if r.num < 0 {
      assert r.num * p == -a;
      assert Kept(r, scale) * r.den == -(Nearest(a, r.den) * r.den);
      NegatedRemainder(a, r.den);
    }
  }

  lemma NegatedRemainder(a: int, den: int)
    requires den > 0
    ensures a % den == 0 <==> (-a) % den == 0
  {
    if a % den == 0 {
      DivMod(-a, den, -(a / den), 0);
    }
    if (-a) % den == 0 {
      DivMod(a, den, -((-a) / den), 0);
    }
  }

  lemma SameAs(a: Rational, b: Rational, c: Rational)
    requires Equal(a, b) && Equal(b, c)
    ensures Equal(a, c)
  {
    assert a.num * c.den * b.den == c.num * a.den * b.den by {
      assert a.num * c.den * b.den == (a.num * b.den) * c.den;
      assert (b.num * a.den) * c.den == (b.num * c.den) * a.den;
      assert (c.num * b.den) * a.den == c.num * a.den * b.den;
    }
    Cancel(a.num * c.den, c.num * a.den, b.den);
  }

  /**
   The text is within half a unit of the last kept digit of the value, and it is exact
   exactly when the value fits the scale.
   */
  lemma WithinHalfADigit(r: Rational, field: Field)
    ensures
      var p, n := Pow10(DecimalScale(field)), Kept(r, DecimalScale(field));
      -r.den <= 2 * (r.num * p - n * r.den) <= r.den
    ensures IsDecimal(DecimalText(r, field))
    ensures Equal(ReadDecimal(DecimalText(r, field)), r) <==> r.num * Pow10(DecimalScale(field)) % r.den == 0
  {
    var scale := DecimalScale(field);
    TextStandsFor(r, field);
    var text, kept := ReadDecimal(DecimalText(r, field)), Ratio(Kept(r, scale), Pow10(scale));
    KeptWithinHalf(r, scale);
    if Equal(text, r) {
      SameAs(kept, text, r);
    }
    if Equal(kept, r) {
      SameAs(text, kept, r);
    }
  }

  // ---- The text as its reader needs it ----

  /** scale is the number of digits after the point that the column keeps: its own, or its type's limit. */
  predicate Keeps(field: Field, scale: nat) {
    if field.scale > 0 then scale == field.scale
    else if field.typ == BigNumericField then scale == 38
    else scale == 9
  }

  /** q is r rounded to a whole number of units of the last kept digit, a half going away from zero. */
  ghost predicate IsRounded(q: Rational, r: Rational, scale: nat) {
    var twice, unit := 2 * (q.num * r.den - r.num * q.den) * Pow10(scale), q.den * r.den;
    && (exists n: int :: Equal(q, Ratio(n, Pow10(scale))))
    && (if r.num >= 0 then -unit < twice <= unit else -unit <= twice < unit)
  }

  /** Decimal text, with no more digits than the column keeps, for r as nearly as they can give it. */
  ghost predicate IsDecimalFor(s: string, r: Rational, field: Field) {
    && IsDecimal(s)
    && exists scale: nat | Keeps(field, scale) ::
         && |s| <= Point(s) + 1 + scale
         && IsRounded(ReadDecimal(s), r, scale)
         && (Equal(ReadDecimal(s), r) <==> r.num * Pow10(scale) % r.den == 0)
  }

  lemma KeptIsNearest(r: Rational, scale: nat)
    ensures
      var twice := 2 * (Kept(r, scale) * r.den - r.num * Pow10(scale));
      if r.num >= 0 then -r.den < twice <= r.den else -r.den <= twice < r.den
  {
    var p := Pow10(scale);
    var a := Abs(r.num) * p;
    NearestWithinHalf(a, r.den);
    if r.num < 0 {
      Negated(r.num, p);
      Negated(Nearest(a, r.den), r.den);
    }
  }

  lemma Negated(x: int, y: int)
    ensures -x * y == -(x * y)
  {
  }

  lemma ScaledDifference(x: int, y: int, n: int, p: int, m: int, d: int)
    requires x * p == n * y
    ensures (x * d - m * y) * p == y * (n * d - m * p)
  {
    calc {
      (x * d - m * y) * p;
      x * d * p - m * y * p;
      (x * p) * d - m * y * p;
      (n * y) * d - m * y * p;
      y * (n * d) - y * (m * p);
      y * (n * d - m * p);
    }
  }

  /** The same for any rational equal to the kept units. */
  lemma KeptIsRounded(q: Rational, r: Rational, scale: nat)
    requires Equal(q, Ratio(Kept(r, scale), Pow10(scale)))
    ensures IsRounded(q, r, scale)
  {
    var p, n := Pow10(scale), Kept(r, scale);
    var d := n * r.den - r.num * p;
    KeptIsNearest(r, scale);
    ScaledDifference(q.num, q.den, n, p, r.num, r.den);
    Doubled(q.num * r.den - r.num * q.den, p, q.den, d);
    ScaledBounds(q.den, 2 * d, r.den);
  }

  lemma Doubled(x: int, p: int, y: int, d: int)
    requires x * p == y * d
    ensures 2 * x * p == y * (2 * d)
  {
    assert 2 * x * p == 2 * (x * p) && y * (2 * d) == 2 * (y * d);
  }

  lemma ScaledBounds(k: int, x: int, b: int)
    requires k > 0
    ensures x <= b ==> k * x <= k * b
    ensures x < b ==> k * x < k * b
    ensures -b <= x ==> -(k * b) <= k * x
    ensures -b < x ==> -(k * b) < k * x
  {
    if x < b {
      MulStrict(x, b, k);
    }
    if -b < x {
      MulStrict(-b, x, k);
    }
    assert -b * k == -(k * b);
  }

  lemma DigitsAfterPoint(r: Rational, scale: nat)
    requires scale > 0
    ensures |FloatText(r, scale)| == Point(FloatText(r, scale)) + 1 + scale
  {
    var parts := Rounded(Abs(r.num), r.den, Pow10(scale));
    RoundedIsNearest(Abs(r.num), r.den, Pow10(scale));
    PaddedRead(parts.1, scale);
    DigitsRead(parts.0);
    PointAt(FloatText(r, scale), |Sign(r)| + |Digits(parts.0)|);
  }

  lemma NoPoint(i: int)
    ensures Point(IntText(i)) == |IntText(i)|
  {
    DigitsRead(Abs(i));
    PointAt(IntText(i), |IntText(i)|);
  }

  /** Every rational is written as its column can take it. */
  lemma DecimalTextIs(r: Rational, field: Field)
    ensures IsDecimalFor(DecimalText(r, field), r, field)
  {
    var scale := DecimalScale(field);
    assert Keeps(field, scale);
    WithinHalfADigit(r, field);
    TextStandsFor(r, field);
    KeptIsRounded(ReadDecimal(DecimalText(r, field)), r, scale);
    if IsInt(r) {
      NoPoint(r.num / r.den);
    } else {
      DigitsAfterPoint(r, scale);
    }
  }

  // ---- Order ----

  lemma NearestMonotone(a: int, da: int, b: int, db: int)
    requires a >= 0 && b >= 0 && da > 0 && db > 0 && a * db <= b * da
    ensures Nearest(a, da) <= Nearest(b, db)
  {
    NearestWithinHalf(a, da);
    NearestWithinHalf(b, db);
    HalfUnitOrder(a, da, b, db, Nearest(a, da), Nearest(b, db));
  }

  lemma HalfUnitOrder(a: int, da: int, b: int, db: int, m: int, n: int)
    requires da > 0 && db > 0 && a * db <= b * da
    requires -da <= 2 * (a - m * da) && 2 * (b - n * db) < db
    ensures m <= n
  {
    if m > n {
      var low, high := (2 * m - 1) * da, (2 * n + 1) * db;
      MulMono(low, 2 * a, db);
      MulStrict(2 * b, high, da);
      MulMono(2 * n + 1, 2 * m - 1, da * db);
      Regroup(2 * m - 1, da, db);
      Regroup(2 * n + 1, db, da);
      Regroup(2, a, db);
      Regroup(2, b, da);
      assert false;
    }
  }

  lemma Regroup(k: int, x: int, y: int)
    ensures k * x * y == k * (x * y)
  {
  }

  lemma ScaledOrder(a: int, b: int, da: int, db: int, p: int)
    requires a * db <= b * da && p > 0
    ensures a * p * db <= b * p * da
  {
    MulMono(a * db, b * da, p);
    assert a * p * db == a * db * p && b * p * da == b * da * p;
  }

  /** For one column, a larger value never reads back smaller. */
  lemma Monotone(r: Rational, s: Rational, field: Field)
    requires AtMost(r, s)
    ensures Kept(r, DecimalScale(field)) <= Kept(s, DecimalScale(field))
    ensures IsDecimal(DecimalText(r, field)) && IsDecimal(DecimalText(s, field))
    ensures AtMost(ReadDecimal(DecimalText(r, field)), ReadDecimal(DecimalText(s, field)))
  {
    var scale := DecimalScale(field);
    var p := Pow10(scale);
    SignOfQuotient(r.num, s.den);
    SignOfQuotient(s.num, r.den);
    if r.num >= 0 {
      ScaledOrder(r.num, s.num, r.den, s.den, p);
      NearestMonotone(r.num * p, r.den, s.num * p, s.den);
    } else if s.num < 0 {
      assert -s.num * r.den <= -r.num * s.den;
      ScaledOrder(-s.num, -r.num, s.den, r.den, p);
      NearestMonotone(-s.num * p, s.den, -r.num * p, r.den);
    }
    TextStandsFor(r, field);
    TextStandsFor(s, field);
    var u, v := ReadDecimal(DecimalText(r, field)), ReadDecimal(DecimalText(s, field));
    KeptOrder(u, v, Kept(r, scale), Kept(s, scale), p);
  }

  lemma KeptOrder(u: Rational, v: Rational, m: int, n: int, p: int)
    requires p > 0 && m <= n && Equal(u, Ratio(m, p)) && Equal(v, Ratio(n, p))
    ensures AtMost(u, v)
  {
    MulMono(m, n, u.den * v.den);
    assert u.num * v.den * p == (u.num * p) * v.den;
    assert m * u.den * v.den == m * (u.den * v.den);
    assert v.num * u.den * p == (v.num * p) * u.den;
    assert n * v.den * u.den == n * (u.den * v.den);
    if u.num * v.den > v.num * u.den {
      MulStrict(v.num * u.den, u.num * v.den, p);
      assert false;
    }
  }

  /** Every unsigned 64-bit integer written as NUMERIC reads back as itself. */
  lemma UnsignedRoundTrips(n: nat, field: Field)
    ensures IsDecimal(DecimalText(Ratio(n, 1), field))
    ensures ReadDecimal(DecimalText(Ratio(n, 1), field)) == Ratio(n, 1)
  {
    assert n % 1 == 0 && n / 1 == n;
    IntRead(n);
  }
}
