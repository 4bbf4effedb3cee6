/** Division facts the addressing arithmetic rests on, each proved from scratch. */
module Arithmetic {

  lemma {:induction false} MulMonotone(a: nat, b: nat, c: nat)
    requires a <= b
    ensures a * c <= b * c
  {
    if a < b {
      MulMonotone(a, b - 1, c);
      assert b * c == (b - 1) * c + c;
    }
  }

  /** Quotient and remainder are determined by `a == q * d + r` and `r < d`. */
  lemma DivModUnique(a: nat, d: nat, q: nat, r: nat)
    requires d > 0 && r < d
    requires a == q * d + r
    ensures a / d == q && a % d == r
  {
    var q' := a / d;
    assert a == q' * d + a % d;
    assert (q + 1) * d == q * d + d && (q' + 1) * d == q' * d + d;
    if q < q' {
      MulMonotone(q + 1, q', d);
    } else if q' < q {
      MulMonotone(q' + 1, q, d);
    }
  }

  function Min(a: nat, b: nat): nat {
    if a < b then a else b
  }

  function Quotient(n: nat, d: nat): nat
    requires 0 < d
  {
    n / d
  }

  lemma DivModEquation(a: nat, d: nat)
    requires d > 0
    ensures a == (a / d) * d + a % d && a % d < d
  {}

  /** Dividing in two steps is dividing by the product. */
  lemma DivDiv(a: nat, c: nat, d: nat)
    requires c > 0 && d > 0 && c * d > 0
    ensures a / c / d == a / (c * d)
  {
    DivModEquation(a / c, d);
    DivModEquation(a, c);
    NestedQuotient(a, a / c, a / c / d, c, d, a / c % d, a % c);
  }

  lemma NestedQuotient(a: nat, n: nat, q: nat, c: nat, d: nat, r: nat, s: nat)
    requires a == n * c + s && n == q * d + r && r < d && s < c && c * d > 0
    ensures a / (c * d) == q
  {
    assert n * c == q * (c * d) + r * c by {
      assert (q * d + r) * c == (q * d) * c + r * c;
      assert (q * d) * c == q * (d * c);
    }
    assert r * c + s < c * d by {
      MulMonotone(r + 1, d, c);
      assert (r + 1) * c == r * c + c;
      assert d * c == c * d;
    }
    DivModUnique(a, c * d, q, r * c + s);
  }

  /** A remainder modulo a multiple `s * d` of `d` keeps the remainder modulo `d`. */
  lemma ModOfMultiple(a: nat, s: nat, d: nat)
    requires d > 0 && s > 0 && s * d > 0
    ensures a % (s * d) % d == a % d
    ensures a % (s * d) / d < s
    ensures a % (s * d) / d == a / d % s
    ensures a / (s * d) == a / d / s
  {
    var n := a / d;
    DivModEquation(a, d);
    DivModEquation(n, s);
    assert a == (n / s * s + n % s) * d + a % d;
    assert (n / s * s + n % s) * d == (n / s) * (s * d) + (n % s) * d by {
      assert (n / s * s + n % s) * d == (n / s * s) * d + (n % s) * d;
      assert (n / s * s) * d == (n / s) * (s * d);
    }
    var low := (n % s) * d + a % d;
    assert low < s * d by {
      MulMonotone(n % s + 1, s, d);
      assert (n % s + 1) * d == (n % s) * d + d;
    }
    DivModUnique(a, s * d, n / s, low);
    DivModUnique(low, d, n % s, a % d);
  }

  lemma QuotientMonotone(a: nat, b: nat, d: nat)
    requires a <= b && 0 < d
    ensures a / d <= b / d
  {
    DivModEquation(a, d);
    DivModEquation(b, d);
    if b / d < a / d {
      MulMonotone(b / d + 1, a / d, d);
    }
    assert (b / d + 1) * d == b / d * d + d;
  }

  lemma QuotientBound(a: nat, d: nat, q: nat)
    requires 0 < d && a < q * d + d
    ensures a / d <= q
  {
    DivModEquation(a, d);
    assert (q + 1) * d == q * d + d;
    if q < a / d {
      MulMonotone(q + 1, a / d, d);
    }
  }
}
