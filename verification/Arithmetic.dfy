/** Powers, and the few facts about products and quotients the other modules rely on. */
module Arithmetic {

  function Pow(b: nat, e: nat): nat {
    if e == 0 then 1 else b * Pow(b, e - 1)
  }

  lemma {:induction false} PowPositive(b: nat, e: nat)
    requires b > 0
    ensures Pow(b, e) > 0
  {
    if e == 0 {
    } else {
      PowPositive(b, e - 1);
      MulPositive(b, Pow(b, e - 1));
    }
  }

  lemma {:induction false} PowAdd(b: nat, d: nat, e: nat)
    ensures Pow(b, d + e) == Pow(b, d) * Pow(b, e)
  {
    if d == 0 {
    } else {
      PowAdd(b, d - 1, e);
      MulAssoc(b, Pow(b, d - 1), Pow(b, e));
    }
  }

  lemma PowMono(b: nat, d: nat, e: nat)
    requires b > 0 && d <= e
    ensures Pow(b, d) <= Pow(b, e)
  {
    PowAdd(b, d, e - d);
    PowPositive(b, e - d);
    MulLeMul(Pow(b, d), 1, Pow(b, d), Pow(b, e - d));
  }

  lemma MulPositive(a: nat, b: nat)
    requires a > 0 && b > 0
    ensures a * b > 0
  {
  }

  lemma MulAssoc(a: int, b: int, c: int)
    ensures a * (b * c) == (a * b) * c
  {
  }

  lemma MulLeMul(a: nat, b: nat, c: nat, d: nat)
    requires a <= c && b <= d
    ensures a * b <= c * d
  {
    assert a * b <= c * b <= c * d;
  }

  lemma EuclidUnique(m: nat, q: nat, r: nat, q': nat, r': nat)
    requires r < m && r' < m && q * m + r == q' * m + r'
    ensures q == q' && r == r'
  {
    if q < q' {
      MulLeMul(q + 1, m, q', m);
    } else if q' < q {
      MulLeMul(q' + 1, m, q, m);
    }
  }

  /** Quotient and remainder are the only pair that fit. */
  lemma DivModUnique(a: nat, m: nat, q: nat, r: nat)
    requires r < m && a == q * m + r
    ensures a / m == q && a % m == r
  {
    EuclidUnique(m, q, r, a / m, a % m);
  }

  lemma DivModParts(a: nat, m: nat) returns (q: nat, r: nat)
    requires m > 0
    ensures a == q * m + r && r < m
    ensures q == a / m && r == a % m
  {
    q, r := a / m, a % m;
  }

  function Abs(x: real): (r: real)
    ensures r >= 0.0 && (r == x || r == -x)
  {
    if x < 0.0 then -x else x
  }

  lemma ModKeepsSmall(a: nat, m: nat)
    requires m > 0
    ensures a % m < m && (a % m == a <==> a < m)
  {
  }

  /** Dividing by `m` and then by `n` is dividing by `m * n`. */
  lemma ModTwice(a: nat, m: nat, n: nat)
    requires m > 0 && n > 0
    ensures m * n > 0
    ensures a % (m * n) == ((a / m) % n) * m + a % m
  {
    MulPositive(m, n);
    var q, r := DivModParts(a, m);
    var q2, r2 := DivModParts(q, n);
    TwoDigits(m, n, q2, r2, r);
    DivModUnique(a, m * n, q2, r2 * m + r);
  }

  lemma TwoDigits(m: nat, n: nat, q: nat, d: nat, r: nat)
    requires d < n && r < m
    ensures (q * n + d) * m + r == q * (m * n) + (d * m + r)
    ensures d * m + r < m * n
  {
    MulAssoc(q, n, m);
    MulLeMul(d + 1, m, n, m);
  }
}
