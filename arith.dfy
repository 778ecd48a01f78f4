/** Integer and real arithmetic shared by the models: Python's `int(x)`
    on a float, and the division and multiplication facts the proofs use. */
module Arith {

  /** Python's `int(x)` for a float `x`: truncation toward zero. */
  function Trunc(x: real): (r: int)
    ensures x >= 0.0 ==> r as real <= x < r as real + 1.0
    ensures x < 0.0 ==> r as real - 1.0 < x <= r as real
    ensures x >= 0.0 ==> r >= 0
  {
    if x >= 0.0 then x.Floor else -((-x).Floor)
  }

  /** Truncation of a real moves it toward zero, so it never grows in magnitude. */
  lemma TruncBounds(x: real, lo: int, hi: int)
    requires lo as real <= x <= hi as real
    ensures lo <= Trunc(x) <= hi
  {
  }

  /** Truncation is monotone on the non-negative reals. */
  lemma TruncMono(x: real, y: real)
    requires 0.0 <= x <= y
    ensures Trunc(x) <= Trunc(y)
  {
  }

  /** Adding one to a non-negative real adds one to its truncation. */
  lemma TruncSucc(x: real)
    requires x >= 0.0
    ensures Trunc(x + 1.0) == Trunc(x) + 1
  {
  }

  /** Multiplication of reals by a non-negative factor preserves `<=`. */
  lemma MulMonoReal(a: real, b: real, c: real)
    requires a <= b && c >= 0.0
    ensures a * c <= b * c
  {
    assert b * c - a * c == (b - a) * c;
  }

  /** Python's `int(a / d)` on non-negative integers, true division then
      truncation, is the integer quotient. */
  lemma TruncDiv(a: int, d: int)
    requires a >= 0 && d > 0
    ensures Trunc(a as real / d as real) == a / d
  {
    var q, r := a / d, a % d;
    var Q, R, D := q as real, r as real, d as real;
    assert (a as real) == Q * D + R;
    SplitQuotient(Q, R, D);
    FracBelowOne(R, D);
    var x := a as real / D;
    assert x == Q + R / D;
    assert Q <= x < Q + 1.0;
    assert x.Floor == q;
  }

  lemma FracBelowOne(r: real, d: real)
    requires 0.0 <= r < d
    ensures 0.0 <= r / d < 1.0
  {
    var c := r / d;
    assert c * d == r;
    if c >= 1.0 {
      assert false;
    }
    if c < 0.0 {
      assert false;
    }
  }

  lemma SplitQuotient(q: real, r: real, d: real)
    requires d > 0.0
    ensures (q * d + r) / d == q + r / d
  {
  }

  /** The quotient and remainder of Euclidean division are the unique
      pair with `a == q * n + r` and `0 <= r < n`. */
  lemma DivModUnique(a: int, n: int, q: int, r: int)
    requires n > 0 && 0 <= r < n && a == q * n + r
    ensures a / n == q && a % n == r
  {
    var q0, r0 := a / n, a % n;
    assert a == q0 * n + r0 && 0 <= r0 < n;
    assert (q - q0) * n == r0 - r;
    if q > q0 {
      MulAtLeast(q - q0, n);
    } else if q < q0 {
      MulAtLeast(q0 - q, n);
    }
  }

  lemma MulAtLeast(k: int, n: int)
    requires k >= 1 && n > 0
    ensures k * n >= n
  {
  }

  /** Multiplication by a non-negative factor preserves `<=`. */
  lemma MulMono(a: int, b: int, c: int)
    requires a <= b && c >= 0
    ensures a * c <= b * c
  {
  }

  /** Euclidean division by a positive divisor preserves `<=`. */
  lemma DivMono(a: int, b: int, n: int)
    requires 0 <= a <= b && n > 0
    ensures a / n <= b / n
  {
    if a / n > b / n {
      MulMono(b / n + 1, a / n, n);
    }
  }

  /** `q * n` is at most `a` exactly when `q <= a / n`. */
  lemma MulBelowIffDiv(a: int, n: int, q: int)
    requires a >= 0 && n > 0 && q >= 0
    ensures q * n <= a <==> q <= a / n
  {
    if q <= a / n {
      MulMono(q, a / n, n);
    } else {
      MulMono(a / n + 1, q, n);
    }
  }
}
