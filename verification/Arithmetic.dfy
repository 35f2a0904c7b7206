/** Products, quotients and remainders, one step at a time. */
module Arithmetic {
  lemma DivBounds(x: nat, m: nat)
    requires m > 0
    ensures x / m * m <= x < x / m * m + m
  {
  }

  lemma MulLe(a: nat, b: nat, m: nat)
    requires a <= b
    ensures a * m <= b * m
  {
  }

  lemma MulCancel(a: nat, b: nat, m: nat)
    requires a * m < b * m
    ensures a < b
  {
    if b <= a { MulLe(b, a, m); }
  }

  lemma DivUnique(q: nat, r: nat, m: nat)
    requires r < m
    ensures (q * m + r) / m == q
  {
    var d := (q * m + r) / m;
    DivBounds(q * m + r, m);
    assert (d + 1) * m == d * m + m && (q + 1) * m == q * m + m;
    MulCancel(d, q + 1, m);
    MulCancel(q, d + 1, m);
  }

  /** A quotient rounded up, times the divisor, reaches the dividend. */
  lemma CeilReaches(x: nat, m: nat)
    requires m > 0
    ensures x <= (x + m - 1) / m * m < x + m
  {
    DivBounds(x + m - 1, m);
  }

  lemma MulMonotone(a: nat, b: nat, c: nat, d: nat)
    requires a <= b && c <= d
    ensures a * c <= b * d
  {
    MulLe(a, b, c);
    MulLe(c, d, b);
  }

  lemma MultipleMod(q: nat, m: nat)
    requires m > 0
    ensures q * m % m == 0
  {
    DivUnique(q, 0, m);
  }

  lemma Succ(n: nat, f: nat)
    ensures (n + 1) * f == n * f + f
  {
  }

  lemma Remainder(a: nat, b: nat)
    requires b > 0
    ensures a / b * b + a % b == a && a % b < b && (a == 0 ==> a % b == 0)
  {
  }

  /** The quotient is the one number with these bounds. */
  lemma DivIs(a: nat, b: nat, q: nat)
    requires b > 0 && q * b <= a < q * b + b
    ensures a / b == q && a % b == a - q * b
  {
    var d := a / b;
    Remainder(a, b);
    Succ(d, b);
    Succ(q, b);
    MulCancel(d, q + 1, b);
    MulCancel(q, d + 1, b);
  }

  lemma DivMonotone(a: nat, b: nat, c: nat)
    requires c > 0 && a <= b
    ensures a / c <= b / c
  {
    DivBounds(a, c);
    DivBounds(b, c);
    assert (b / c + 1) * c == b / c * c + c;
    MulCancel(a / c, b / c + 1, c);
  }
}
