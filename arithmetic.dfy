/** Integer arithmetic as Java performs it on `int` and `long`: division truncates toward
    zero and the remainder takes the sign of the dividend. Dafny's own `/` and `%` are
    Euclidean (the remainder is never negative), so the Java operators are written out here,
    together with divisibility and the facts about it that Euclid's algorithm and the sieve use. */
module Arithmetic {

  function Abs(x: int): nat {
    if x < 0 then -x else x
  }

  /** Java's `a % b`: magnitude |a| mod |b|, sign of `a`. */
  function JavaRem(a: int, b: int): (r: int)
    requires b != 0
    ensures Abs(r) < Abs(b)
    ensures a >= 0 ==> 0 <= r
    ensures a <= 0 ==> r <= 0
  {
    if a >= 0 then a % Abs(b) else -((-a) % Abs(b))
  }

  /** Java's `a / b`: the exact quotient truncated toward zero. */
  function JavaDiv(a: int, b: int): int
    requires b != 0
  {
    if a >= 0 && b > 0 then a / b
    else if a >= 0 then -(a / -b)
    else if b > 0 then -((-a) / b)
    else (-a) / (-b)
  }

  /** Halving truncates toward zero, so it brings every non-zero value closer to zero,
      and reaches zero only from -1, 0 and 1. */
  lemma HalfShrinks(n: int)
    ensures n != 0 ==> Abs(JavaDiv(n, 2)) < Abs(n)
    ensures JavaDiv(n, 2) == 0 <==> -1 <= n <= 1
    ensures JavaDiv(-n, 2) == -JavaDiv(n, 2)
  {
  }

  /** Java's division identity: `(a / b) * b + a % b == a` for every `a` and non-zero `b`. */
  lemma JavaDivRem(a: int, b: int)
    requires b != 0
    ensures a == b * JavaDiv(a, b) + JavaRem(a, b)
  {
    if a >= 0 && b > 0 {
      EuclidIdentity(a, b);
    } else if a >= 0 {
      assert JavaDiv(a, b) == -(a / -b) && JavaRem(a, b) == a % -b;
      EuclidIdentity(a, -b);
      MulNegate(-b, a / -b);
    } else if b > 0 {
      assert JavaDiv(a, b) == -((-a) / b) && JavaRem(a, b) == -((-a) % b);
      EuclidIdentity(-a, b);
      MulNegate(b, (-a) / b);
    } else {
      assert JavaDiv(a, b) == (-a) / (-b) && JavaRem(a, b) == -((-a) % (-b));
      EuclidIdentity(-a, -b);
      MulNegate(-b, (-a) / (-b));
    }
  }

  lemma EuclidIdentity(x: int, m: int)
    requires m > 0
    ensures x == m * (x / m) + x % m
  {
  }

  lemma MulNegate(m: int, q: int)
    ensures (-m) * -q == m * q && m * -q == -(m * q) && (-m) * q == -(m * q)
  {
  }

  /** A value already smaller in magnitude than the divisor is its own Java remainder. */
  lemma JavaRemSmall(a: int, b: int)
    requires b != 0
    ensures Abs(a) < Abs(b) ==> JavaRem(a, b) == a
  {
    if Abs(a) < Abs(b) {
      if a >= 0 {
        DivModUnique(a, Abs(b), 0, a);
      } else {
        DivModUnique(-a, Abs(b), 0, -a);
      }
    }
  }

  /** `d` divides `x`; 0 divides only 0. */
  predicate Divides(d: int, x: int) {
    if d == 0 then x == 0 else x % d == 0
  }

  /** The Euclidean quotient and remainder are the only ones with the remainder in [0, |m|). */
  lemma DivModUnique(x: int, m: int, q: int, r: int)
    requires m != 0 && x == m * q + r && 0 <= r < Abs(m)
    ensures x / m == q && x % m == r
  {
    var q', r' := x / m, x % m;
    assert m * (q - q') == r' - r;
    if q != q' {
      MulMagnitude(m, q - q');
    }
  }

  lemma MulMagnitude(m: int, k: int)
    requires m != 0 && k != 0
    ensures Abs(m * k) >= Abs(m)
  {
    if m > 0 && k > 0 {
      assert m * k == m + m * (k - 1);
    } else if m > 0 {
      assert m * k == -(m + m * (-k - 1));
    } else if k > 0 {
      assert m * k == m + m * (k - 1);
      assert m * (k - 1) <= 0;
    } else {
      assert m * k == -m + (-m) * (-k - 1);
    }
  }

  lemma MultipleDivides(d: int, q: int)
    ensures Divides(d, d * q)
  {
    if d != 0 {
      DivModUnique(d * q, d, q, 0);
    }
  }

  lemma DividesSelf(d: int)
    ensures Divides(d, d) && Divides(d, 0)
  {
    MultipleDivides(d, 1);
    MultipleDivides(d, 0);
  }

  /** A non-zero multiple of a positive `d` is at least `d` in magnitude. */
  lemma DividesBound(d: int, x: int)
    requires d > 0 && x != 0 && Divides(d, x)
    ensures d <= Abs(x)
  {
    var q := x / d;
    assert x == d * q;
    MulMagnitude(d, q);
  }

  /** Divisibility is preserved by integer combinations. */
  lemma DividesCombination(d: int, x: int, y: int, c: int)
    requires Divides(d, x) && Divides(d, y)
    ensures Divides(d, x + c * y)
  {
    if d != 0 {
      var qx, qy := x / d, y / d;
      assert x + c * y == d * (qx + c * qy);
      MultipleDivides(d, qx + c * qy);
    }
  }

  lemma DividesTransitive(a: int, b: int, c: int)
    requires Divides(a, b) && Divides(b, c)
    ensures Divides(a, c)
  {
    if b != 0 && a != 0 {
      var qb, qc := b / a, c / b;
      assert c == a * (qb * qc);
      MultipleDivides(a, qb * qc);
    }
  }

  /** Every number divides a multiple of itself. */
  lemma DividesProduct(d: int, x: int, c: int)
    requires Divides(d, x)
    ensures Divides(d, x * c)
  {
    DividesCombination(d, 0, x, c);
    MultipleDivides(d, 0);
  }

  /** No multiple of `i` lies strictly between two neighbouring multiples `j` and `j + i`. */
  lemma NoMultipleBetween(i: int, j: int, k: int)
    requires i > 0 && Divides(i, j) && j < k < j + i
    ensures !Divides(i, k)
  {
    DivModUnique(k, i, j / i, k - j);
  }

  /** `JavaRem(a, b)` differs from `a` by a multiple of `b`, so the divisors common to
      `a` and `b` are exactly those common to `b` and `JavaRem(a, b)`. */
  lemma JavaRemCommonDivisors(a: int, b: int, d: int)
    requires b != 0
    ensures Divides(d, a) && Divides(d, b) <==> Divides(d, b) && Divides(d, JavaRem(a, b))
  {
    if Divides(d, b) {
      JavaDivRem(a, b);
      DividesShift(d, a, b, JavaDiv(a, b), JavaRem(a, b));
    }
  }

  lemma DividesShift(d: int, a: int, b: int, q: int, r: int)
    requires a == b * q + r && Divides(d, b)
    ensures Divides(d, a) <==> Divides(d, r)
  {
    if Divides(d, a) {
      DividesCombination(d, a, b, -q);
      assert a + -q * b == r;
    }
    if Divides(d, r) {
      DividesCombination(d, r, b, q);
      assert r + q * b == a;
    }
  }

  /** `a` and `b` leave the same remainder on division by `m`. */
  predicate Congruent(a: int, b: int, m: int) {
    Divides(m, a - b)
  }

  lemma JavaRemCongruent(a: int, m: int)
    requires m != 0
    ensures Congruent(JavaRem(a, m), a, m)
  {
    JavaDivRem(a, m);
    assert JavaRem(a, m) - a == m * -JavaDiv(a, m);
    MultipleDivides(m, -JavaDiv(a, m));
  }

  lemma CongruentTransitive(a: int, b: int, c: int, m: int)
    requires Congruent(a, b, m) && Congruent(b, c, m)
    ensures Congruent(a, c, m)
  {
    DividesCombination(m, a - b, b - c, 1);
  }

  lemma CongruentMul(a: int, b: int, c: int, m: int)
    requires Congruent(a, b, m)
    ensures Congruent(a * c, b * c, m)
  {
    DividesProduct(m, a - b, c);
    assert (a - b) * c == a * c - b * c;
  }

  /** A divisor and its negation divide the same numbers. */
  lemma DividesAbs(d: int, x: int)
    requires Divides(d, x)
    ensures Divides(Abs(d), x)
  {
    if d < 0 {
      var q := x / d;
      assert x == (-d) * -q;
      MultipleDivides(-d, -q);
    }
  }

  lemma CongruentSymmetric(a: int, b: int, m: int)
    requires Congruent(a, b, m)
    ensures Congruent(b, a, m)
  {
    DividesProduct(m, a - b, -1);
    assert (a - b) * -1 == b - a;
  }

  /** Two congruent values of one sign, both smaller than the modulus in magnitude, are equal:
      their difference is a multiple of m smaller than |m|. */
  lemma CongruentSameSign(r: int, s: int, m: int)
    requires m != 0 && Abs(r) < Abs(m) && Abs(s) < Abs(m)
    requires (r >= 0 && s >= 0) || (r <= 0 && s <= 0)
    requires Congruent(r, s, m)
    ensures r == s
  {
    if r != s {
      DividesAbs(m, r - s);
      DividesBound(Abs(m), r - s);
    }
  }
}
