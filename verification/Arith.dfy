/** Divisibility facts used by the exact encodings. */
module Arith {

  predicate Divides(d: int, x: int)
    requires d > 0
  {
    x % d == 0
  }

  lemma MultipleIsDivisible(q: int, d: int)
    requires d > 0
    ensures (q * d) % d == 0 && (q * d) / d == q
  {
    DivisionIsUnique(q * d, d, q, 0);
  }

  lemma DivisionIsUnique(x: int, d: int, q: int, r: int)
    requires d > 0 && x == q * d + r && 0 <= r < d
    ensures x / d == q && x % d == r
  {
    var q', r' := x / d, x % d;
    assert x == q' * d + r';
    assert (q - q') * d == r' - r;
    assert q - q' >= 1 ==> (q - q') * d >= d;
    assert q - q' <= -1 ==> (q - q') * d <= -d;
  }

  lemma QuotientTimes(d: int, x: int)
    requires d > 0 && Divides(d, x)
    ensures x == (x / d) * d
  {
  }

  lemma QuotientOf(d: int, x: int) returns (q: int)
    requires d > 0 && Divides(d, x)
    ensures x == q * d
  {
    q := x / d;
    QuotientTimes(d, x);
  }

  lemma DividesMultiple(d: int, x: int, k: int)
    requires d > 0 && Divides(d, x)
    ensures Divides(d, k * x) && k * x == (k * (x / d)) * d
  {
    QuotientTimes(d, x);
    assert k * x == (k * (x / d)) * d;
    MultipleIsDivisible(k * (x / d), d);
  }

  lemma DividesDifference(d: int, x: int, y: int)
    requires d > 0 && Divides(d, x) && Divides(d, y)
    ensures Divides(d, x - y) && Divides(d, x + y)
  {
    QuotientTimes(d, x);
    QuotientTimes(d, y);
    assert x - y == (x / d - y / d) * d && x + y == (x / d + y / d) * d;
    MultipleIsDivisible(x / d - y / d, d);
    MultipleIsDivisible(x / d + y / d, d);
  }

  lemma DividesTransitive(a: int, b: int, x: int)
    requires a > 0 && b > 0 && Divides(a, b) && Divides(b, x)
    ensures Divides(a, x)
  {
    QuotientTimes(b, x);
    DividesMultiple(a, b, x / b);
  }

  lemma CancelFactor(a: int, b: int, m: int)
    requires m != 0 && a * m == b * m
    ensures a == b
  {
  }

  /** Positive multiples are no smaller. */
  lemma DividesBounds(d: int, x: int)
    requires d > 0 && x > 0 && Divides(d, x)
    ensures d <= x
  {
    QuotientTimes(d, x);
    var q := x / d;
    assert q <= 0 ==> q * d <= 0;
  }

  lemma ProductIsMonotone(a: int, b: int, c: int)
    requires a <= b && c >= 0
    ensures a * c <= b * c
  {
  }

  lemma Reassociate(a: int, b: int, c: int)
    ensures a * (b * c) == (a * b) * c
  {
  }

  function Pow(b: nat, e: nat): nat {
    if e == 0 then 1 else b * Pow(b, e - 1)
  }

  lemma {:induction false} PowPositive(b: nat, e: nat)
    requires b > 0
    ensures Pow(b, e) > 0
  {
    if e > 0 {
      PowPositive(b, e - 1);
    }
  }

  lemma {:induction false} PowSum(b: nat, e: nat, f: nat)
    ensures Pow(b, e + f) == Pow(b, e) * Pow(b, f)
  {
    if e > 0 {
      PowSum(b, e - 1, f);
      Reassociate(b, Pow(b, e - 1), Pow(b, f));
      assert Pow(b, e + f) == b * Pow(b, e - 1 + f);
    }
  }

  lemma {:induction false} PowTen(e: nat)
    ensures Pow(10, e) == Pow(2, e) * Pow(5, e)
  {
    if e > 0 {
      PowTen(e - 1);
      var a, b := Pow(2, e - 1), Pow(5, e - 1);
      assert 10 * (a * b) == (2 * a) * (5 * b);
    }
  }
}
