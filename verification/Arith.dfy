/** Facts of nonlinear arithmetic, each on its own. */
module Arith {
  lemma SmallMultiple(k: int, m: int)
    requires m >= 1 && -m < k * m < m
    ensures k == 0
  {
  }

  lemma SumTimes(a: int, b: int, p: int)
    ensures (a + b) * p == a * p + b * p
  {
  }

  lemma DoubleProduct(x: int, y: int)
    ensures 2 * (x * y) == (2 * x) * y
  {
  }

  lemma ProductSign(a: int, m: nat)
    requires m >= 1
    ensures a >= 0 ==> a * m >= 0
    ensures a <= 0 ==> a * m <= a
  {
  }

  lemma TimesMonotone(a: int, b: int, p: nat)
    requires p >= 1 && a <= b
    ensures a * p <= b * p
  {
    ProductSign(b - a, p);
    SumTimes(b - a, a, p);
  }

  lemma ProductGrows(q: nat, b: nat)
    requires q > 0 && b > 0
    ensures q * b >= q && (b > 1 ==> q * b > q)
  {
  }

  lemma QuotientBound(a: nat, b: nat, q: int, r: nat)
    requires b != 0 && a == q * b + r && r < b
    ensures 0 <= q <= a
    ensures b > 1 && a > 0 ==> q < a
  {
  }

  lemma AbsQuotient(a: nat, b: nat)
    requires b != 0
    ensures 0 <= a / b <= a
    ensures b > 1 && a > 0 ==> a / b < a
  {
    QuotientBound(a, b, a / b, a % b);
  }

  lemma NegativeBounds(v: int, m: nat, q: int, r: int)
    requires v < 0 && v == q * m + r && 0 <= r < m
    ensures v <= q < 0
  {
    ProductSign(q, m);
    ProductSign(q + 1, m);
    assert (q + 1) * m == q * m + m;
  }

  lemma QuotientSign(v: int, m: nat)
    requires m >= 1
    ensures v < 0 ==> v <= v / m < 0
    ensures v >= 0 ==> 0 <= v / m <= v
  {
    if v < 0 {
      NegativeBounds(v, m, v / m, v % m);
    } else {
      AbsQuotient(v, m);
    }
  }

  lemma UniqueQuotient(v: int, m: nat, q: int, r: int)
    requires m >= 1 && v == q * m + r && 0 <= r < m
    ensures v / m == q
  {
    var q' := v / m;
    assert v == q' * m + v % m;
    assert (q' - q) * m == r - v % m;
    SmallMultiple(q' - q, m);
  }

  /** Dividing twice is dividing by the product. */
  lemma QuotientTwice(v: int, m: nat, n: nat)
    requires m >= 1 && n >= 1
    ensures m * n >= 1 && v / (m * n) == v / m / n
  {
    var q, r := v / m, v % m;
    var q', r' := q / n, q % n;
    ProductGrows(m, n);
    SumTimes(q' * n, r', m);
    Regrouped(q', n, m);
    RestBelow(r', n, r, m);
    UniqueQuotient(v, m * n, q', r' * m + r);
  }

  lemma Regrouped(a: int, b: int, c: int)
    ensures a * b * c == a * (c * b)
  {
  }

  lemma RestBelow(r': nat, n: nat, r: nat, m: nat)
    requires r' < n && r < m
    ensures 0 <= r' * m + r < m * n
  {
    TimesMonotone(r' + 1, n, m);
    assert (r' + 1) * m == r' * m + m;
  }

  lemma LiftedQuotient(v: int, j: nat, m: nat)
    requires m >= 1
    ensures (v + j * m) / m == v / m + j
  {
    var q := (v + j * m) / m;
    assert v + j * m == q * m + (v + j * m) % m;
    assert v == (q - j) * m + (v + j * m) % m;
    UniqueQuotient(v, m, q - j, (v + j * m) % m);
  }

  lemma LiftedRemainder(v: int, j: nat, m: nat)
    requires m >= 1
    ensures (v + j * m) % m == v % m
  {
    LiftedQuotient(v, j, m);
    SumTimes(v / m, j, m);
  }

  /** Moving v up by a multiple of m moves its quotient up by less. */
  lemma LiftedBelow(v: int, j: nat, m: nat)
    requires j >= 1 && m >= 2
    ensures (v + j * m) / m < v / m + j * m
  {
    LiftedQuotient(v, j, m);
    ProductGrows(j, m);
  }

  lemma SmallRemainder(v: nat, m: nat)
    requires v < m
    ensures v % m == v
  {
  }
}
