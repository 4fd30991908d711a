/**
 Exact-real stand-ins for the few pieces of JavaScript number arithmetic the
 player uses: `Math.round` and `Math.min`. JavaScript doubles are idealised as
 Dafny `real`s; IEEE-754 rounding is not modelled.
 */
module Numeric {

  /** `Math.round`: rounds to the nearest integer, halves toward +infinity. */
  function Round(x: real): (r: int)
    ensures r as real - 0.5 <= x < r as real + 0.5
  {
    (x + 0.5).Floor
  }

  /** `Math.min` on two numbers. */
  function Min(a: real, b: real): (r: real)
    ensures r <= a && r <= b
    ensures r == a || r == b
  {
    if a <= b then a else b
  }

  /** `Math.max` on two numbers. */
  function Max(a: real, b: real): (r: real)
    ensures a <= r && b <= r
    ensures r == a || r == b
  {
    if a <= b then b else a
  }

  /** Rounding an integral value gives that value back. */
  lemma RoundOfInt(n: int)
    ensures Round(n as real) == n
  {
  }

  /** `Math.round` is monotonic. */
  lemma RoundMonotonic(x: real, y: real)
    requires x <= y
    ensures Round(x) <= Round(y)
  {
  }

  /** Rounding stays inside integer bounds that enclose its argument. */
  lemma RoundBetween(x: real, lo: int, hi: int)
    requires lo as real <= x <= hi as real
    ensures lo <= Round(x) <= hi
  {
    RoundMonotonic(lo as real, x);
    RoundMonotonic(x, hi as real);
    RoundOfInt(lo);
    RoundOfInt(hi);
  }

  /** Rounding a fraction `a` in [0, 1] of a natural `m` gives an integer in [0, m]. */
  lemma RoundScaled(a: real, m: nat)
    requires 0.0 <= a <= 1.0
    ensures 0 <= Round(a * m as real) <= m
  {
    FractionBounds(a, m as real);
    RoundBetween(a * m as real, 0, m);
  }

  /** A fraction in [0, 1] of a non-negative `c` lies in [0, c]. */
  lemma FractionBounds(a: real, c: real)
    requires 0.0 <= a <= 1.0 && 0.0 <= c
    ensures 0.0 <= a * c <= c
  {
    assert c - a * c == (1.0 - a) * c;
  }

  /** Scaling by a non-negative factor preserves order. */
  lemma ScaleMonotonic(a: real, b: real, c: real)
    requires a <= b && 0.0 <= c
    ensures a * c <= b * c
  {
  }

  lemma Cancel(u: real, v: real, c: real)
    requires c > 0.0 && u * c == v * c
    ensures u == v
  {
    assert (u - v) * c == 0.0;
  }

  lemma CancelLe(u: real, v: real, c: real)
    requires c > 0.0 && u * c <= v * c
    ensures u <= v
  {
    assert (v - u) * c >= 0.0;
  }

  lemma CancelLt(u: real, v: real, c: real)
    requires c > 0.0 && u * c < v * c
    ensures u < v
  {
    assert (v - u) * c > 0.0;
  }

  /** The floor of an exact real quotient is the integer quotient. */
  lemma FloorOfQuotient(a: int, b: int)
    requires b > 0
    ensures (a as real / b as real).Floor == a / b
  {
    var q := a / b;
    var x := a as real / b as real;
    var bb := b as real;
    assert x * bb == a as real;
    assert q * b <= a < (q + 1) * b;
    assert (q * b) as real == q as real * bb;
    assert ((q + 1) * b) as real == (q as real + 1.0) * bb;
    CancelLe(q as real, x, bb);
    CancelLt(x, q as real + 1.0, bb);
  }

  /** Comparing quotients by cross-multiplication. */
  lemma CrossLt(a: real, b: real, c: real, d: real)
    requires b > 0.0 && d > 0.0
    ensures a / b < c / d <==> a * d < c * b
  {
    var x, y := a / b, c / d;
    assert x * b == a && y * d == c;
    assert a * d == x * (b * d) && c * b == y * (b * d);
    if x < y {
      assert (y - x) * (b * d) > 0.0;
    } else {
      assert (x - y) * (b * d) >= 0.0;
    }
  }
}
