/** Facts about products, quotients and remainders that the solver does not find alone. */
module Arith {

  lemma AtLeastOne(size: int, d: int)
    requires size >= 0 && d >= 1
    ensures size * d >= size
  {
    assert size * d == size * (d - 1) + size;
  }

  lemma AtMostMinusOne(size: int, d: int)
    requires size >= 0 && d <= -1
    ensures size * d <= -size
  {
    assert size * d == size * (d + 1) - size;
  }

  lemma MulMono(a: int, b: int, c: int)
    requires a <= b && c >= 0
    ensures a * c <= b * c
  {
    assert b * c == a * c + (b - a) * c;
  }

  lemma MulStrict(a: int, b: int, c: int)
    requires a < b && c > 0
    ensures a * c < b * c
  {
    MulMono(a, b - 1, c);
    assert (b - 1) * c == b * c - c;
  }

  lemma QuotRem(n: int, den: int)
    requires den > 0
    ensures n == n / den * den + n % den
  {
  }

  /** A quotient and a remainder in range are the quotient and the remainder. */
  lemma DivMod(n: int, den: int, q: int, b: int)
    requires den > 0 && 0 <= b < den && n == q * den + b
    ensures n / den == q && n % den == b
  {
    var d := q - n / den;
    assert den * d == n % den - b by {
      assert n == den * (n / den) + n % den;
    }
    if d >= 1 {
      AtLeastOne(den, d);
      assert false;
    } else if d <= -1 {
      AtMostMinusOne(den, d);
      assert false;
    }
  }

  lemma Cancel(x: int, y: int, k: int)
    requires k > 0 && x * k == y * k
    ensures x == y
  {
    if x < y {
      MulStrict(x, y, k);
      assert false;
    } else if y < x {
      MulStrict(y, x, k);
      assert false;
    }
  }
}
