/** The decimal text of a fraction in an OPTIMADE filter: exact, shortest, or refused. */
module FractionText {
  import opened Common
  import opened Arith
  import opened Decimals

  /** In lowest terms: no common divisor above 1. */
  ghost predicate Reduced(num: int, den: int) {
    den > 0 && forall k :: k > 1 && Divides(k, num) ==> !Divides(k, den)
  }

  /** `num/den` equals an integer over a power of ten. */
  ghost predicate DecimalWith(num: int, den: int, places: nat, scaled: int) {
    scaled * den == num * Pow(10, places)
  }

  ghost predicate HasPlaces(num: int, den: int, places: nat) {
    exists scaled :: DecimalWith(num, den, places, scaled)
  }

  /** What an unsigned decimal text denotes: its digits as one integer, and how many follow the point. */
  function DenotedUnsigned(text: string): Option<(nat, nat)> {
    var (whole, fraction) := Partition(text, '.');
    if whole == [] || !AllDigits(whole + fraction) then None
    else Some((NatValue(whole + fraction), |fraction|))
  }

  function Denoted(text: string): Option<(int, nat)> {
    if text != [] && text[0] == '-' then
      var v := DenotedUnsigned(text[1..]);
      if v.None? then None else Some((0 - v.value.0, v.value.1))
    else
      var v := DenotedUnsigned(text);
      if v.None? then None else Some((v.value.0, v.value.1))
  }

  // ------------------------------------------------------------- arithmetic

  /** Halving a doubled multiple of an odd number leaves a multiple. */
  lemma CancelTwo(d: int, x: int)
    requires d > 0 && d % 2 == 1 && Divides(d, 2 * x)
    ensures Divides(d, x)
  {
    var q := QuotientOf(d, 2 * x);
    ProductModTwo(q, d);
    CancelPrime(2, q, d, x);
    MultipleIsDivisible(q / 2, d);
  }

  lemma ProductModTwo(q: int, d: int)
    requires d % 2 == 1
    ensures (q * d) % 2 == q % 2
  {
    var k := d / 2;
    assert q * d == 2 * (q * k) + q;
  }

  /** A product divided by a prime that one factor holds. */
  lemma CancelPrime(prime: nat, q: int, d: int, x: int)
    requires prime > 0 && prime * x == q * d && q % prime == 0
    ensures x == (q / prime) * d
  {
    var h := q / prime;
    QuotientTimes(prime, q);
    assert q == prime * h;
    Reassociate(prime, h, d);
    CancelFactor(x, h * d, prime);
  }

  lemma CancelFive(d: int, x: int)
    requires d > 0 && d % 5 != 0 && Divides(d, 5 * x)
    ensures Divides(d, x)
  {
    var q := QuotientOf(d, 5 * x);
    ProductModFive(q, d);
    CancelPrime(5, q, d, x);
    MultipleIsDivisible(q / 5, d);
  }

  lemma ProductModFive(q: int, d: int)
    requires d % 5 != 0 && (q * d) % 5 == 0
    ensures q % 5 == 0
  {
    var a, b, r, s := q / 5, d / 5, q % 5, d % 5;
    assert q * d == 5 * (a * d) + r * d;
    assert r * d == 5 * (r * b) + r * s;
    SmallProduct(r, s);
  }

  lemma SmallProduct(r: int, s: int)
    requires 0 <= r < 5 && 0 < s < 5
    ensures (r * s) % 5 == 0 ==> r == 0
  {
    if s == 1 {} else if s == 2 {} else if s == 3 {} else {}
  }

  /** A number prime to ten that divides `n` times a power of ten divides `n`. */
  lemma {:induction false} CancelTens(d: int, n: int, t: nat)
    requires d > 0 && d % 2 == 1 && d % 5 != 0 && Divides(d, n * Pow(10, t))
    ensures Divides(d, n)
  {
    if t > 0 {
      var y := n * Pow(10, t - 1);
      assert n * Pow(10, t) == 2 * (5 * y);
      CancelTwo(d, 5 * y);
      CancelFive(d, y);
      CancelTens(d, n, t - 1);
    }
  }

  lemma PowSplit(b: nat, k: nat, e: nat)
    requires k <= e
    ensures Pow(b, e) == Pow(b, k) * Pow(b, e - k)
  {
    PowSum(b, k, e - k);
  }

  lemma {:induction false} PowFiveIsOdd(e: nat)
    ensures Pow(5, e) % 2 == 1
  {
    if e > 0 {
      PowFiveIsOdd(e - 1);
    }
  }

  lemma {:induction false} PowTwoNotByFive(e: nat)
    ensures Pow(2, e) % 5 != 0
  {
    if e > 0 {
      PowTwoNotByFive(e - 1);
    }
  }

  lemma Regroup(a: int, b: int, c: int)
    ensures a * (b * c) == (a * b) * c == b * (a * c)
  {
  }

  /** Cancelling the power that both sides share. */
  lemma CancelShared(scaled: int, p: int, rest: int, other: int, num: int, cofactor: int)
    requires p > 0 && scaled * ((p * rest) * other) == num * (p * cofactor)
    ensures rest * (scaled * other) == num * cofactor
  {
    assert scaled * ((p * rest) * other) == (rest * (scaled * other)) * p;
    assert num * (p * cofactor) == (num * cofactor) * p;
    CancelFactor(rest * (scaled * other), num * cofactor, p);
  }

  /** A prime power beyond the places of a decimal leaves a factor of the prime in the numerator. */
  lemma ExcessDivides(prime: nat, other': nat, num: int, power: nat, other: int, places: nat, scaled: int)
    requires prime > 0 && power > places
    requires scaled * (Pow(prime, power) * other) == num * (Pow(prime, places) * Pow(other', places))
    ensures Divides(prime, num * Pow(other', places))
  {
    PowPositive(prime, places);
    PowSplit(prime, places, power);
    ExcessFactor(prime, Pow(prime, places), Pow(prime, power - places - 1), other, num, Pow(other', places), scaled);
  }

  lemma ExcessFactor(prime: nat, p: int, less: int, other: int, num: int, cofactor: int, scaled: int)
    requires prime > 0 && p > 0
    requires scaled * ((p * (prime * less)) * other) == num * (p * cofactor)
    ensures Divides(prime, num * cofactor)
  {
    CancelShared(scaled, p, prime * less, other, num, cofactor);
    Regroup(prime, less, scaled * other);
    MultipleIsDivisible(less * (scaled * other), prime);
  }

  lemma PowDivides(prime: nat, power: nat, other: int)
    requires prime > 0 && power > 0
    ensures Divides(prime, Pow(prime, power) * other)
  {
    var less := Pow(prime, power - 1);
    assert (prime * less) * other == (less * other) * prime;
    MultipleIsDivisible(less * other, prime);
  }

  /** Each factor 2 of a reduced denominator needs a decimal place. */
  lemma TwosNeedPlaces(num: int, den: int, twos: nat, other: int, places: nat, scaled: int)
    requires Reduced(num, den) && den == Pow(2, twos) * other && DecimalWith(num, den, places, scaled)
    ensures twos <= places
  {
    if twos > places {
      PowTen(places);
      ExcessDivides(2, 5, num, twos, other, places, scaled);
      PowFiveIsOdd(places);
      ProductModTwo(num, Pow(5, places));
      PowDivides(2, twos, other);
    }
  }

  /** Each factor 5 of a reduced denominator needs a decimal place. */
  lemma FivesNeedPlaces(num: int, den: int, fives: nat, other: int, places: nat, scaled: int)
    requires Reduced(num, den) && den == Pow(5, fives) * other && DecimalWith(num, den, places, scaled)
    ensures fives <= places
  {
    if fives > places {
      PowTen(places);
      assert Pow(2, places) * Pow(5, places) == Pow(5, places) * Pow(2, places);
      ExcessDivides(5, 2, num, fives, other, places, scaled);
      PowTwoNotByFive(places);
      ProductModFive(num, Pow(2, places));
      PowDivides(5, fives, other);
    }
  }

  /** A reduced denominator with a further factor is no decimal at all. */
  lemma OtherFactorRefuses(num: int, den: int, factor: int, cofactor: int, places: nat, scaled: int)
    requires Reduced(num, den) && den == cofactor * factor && DecimalWith(num, den, places, scaled)
    requires factor > 0 && factor % 2 == 1 && factor % 5 != 0
    ensures factor == 1
  {
    assert num * Pow(10, places) == (scaled * cofactor) * factor;
    MultipleIsDivisible(scaled * cofactor, factor);
    CancelTens(factor, num, places);
    MultipleIsDivisible(cofactor, factor);
  }

  // ------------------------------------------------------------------- text

  function Zeros(n: nat): string { seq(n, i => '0') }

  /** `str(n).rjust(width, "0")`. */
  function Padded(n: nat, width: nat): (digits: string)
    ensures |digits| >= width
  {
    var digits := NatText(n);
    if |digits| >= width then digits else Zeros(width - |digits|) + digits
  }

  lemma {:induction false} LeadingZeros(n: nat, s: string)
    requires AllDigits(s)
    ensures AllDigits(Zeros(n) + s) && NatValue(Zeros(n) + s) == NatValue(s)
  {
    if s == [] {
      if n > 0 {
        LeadingZeros(n - 1, []);
        assert (Zeros(n) + s)[..n - 1] == Zeros(n - 1) + [];
      }
    } else {
      LeadingZeros(n, s[..|s| - 1]);
      assert (Zeros(n) + s)[..n + |s| - 1] == Zeros(n) + s[..|s| - 1];
    }
  }

  /** Digits with the point `scale` places from the right. */
  function Pointed(digits: string, scale: nat): string
    requires |digits| > scale
  {
    if scale == 0 then digits else digits[..|digits| - scale] + ['.'] + digits[|digits| - scale..]
  }

  function PointText(scaled: int, scale: nat): string {
    var magnitude: nat := if scaled < 0 then -scaled else scaled;
    var body := Pointed(Padded(magnitude, scale + 1), scale);
    if scaled < 0 then ['-'] + body else body
  }

  /** The sign is printed exactly for negative numbers. */
  lemma SignIsPrinted(scaled: int, scale: nat)
    ensures PointText(scaled, scale) != [] && (PointText(scaled, scale)[0] == '-' <==> scaled < 0)
  {
    var magnitude: nat := if scaled < 0 then -scaled else scaled;
    PaddedDigits(magnitude, scale + 1);
    var digits := Padded(magnitude, scale + 1);
    assert |digits| >= scale + 1 && Pointed(digits, scale)[0] == digits[0] && digits[0] in digits;
  }

  lemma PaddedDigits(n: nat, width: nat)
    ensures AllDigits(Padded(n, width)) && NatValue(Padded(n, width)) == n
  {
    NatTextParses(n);
    LeadingZeros(Max(0, width - |NatText(n)|), NatText(n));
  }

  /** An unsigned decimal text splits at its point. */
  lemma PointedDenotes(digits: string, scale: nat)
    requires AllDigits(digits) && |digits| > scale
    ensures DenotedUnsigned(Pointed(digits, scale)) == Some((NatValue(digits), scale))
    ensures Pointed(digits, scale)[0] != '-'
  {
    var whole, fraction := digits[..|digits| - scale], digits[|digits| - scale..];
    assert whole + fraction == digits && whole[0] == digits[0];
    if scale == 0 {
      assert whole == digits && fraction == [];
      PartitionWithout(digits, '.');
    } else {
      PartitionAt(whole, '.', fraction);
    }
  }

  /** Reading the text back gives the integer and the number of places. */
  lemma PointTextDenotes(scaled: int, scale: nat)
    ensures Denoted(PointText(scaled, scale)) == Some((scaled, scale))
  {
    var magnitude: nat := if scaled < 0 then -scaled else scaled;
    var digits := Padded(magnitude, scale + 1);
    PaddedDigits(magnitude, scale + 1);
    PointedDenotes(digits, scale);
    if scaled < 0 {
      assert PointText(scaled, scale)[1..] == Pointed(digits, scale);
    }
  }

  /** Prints a reduced fraction as a decimal, or refuses it. It refuses exactly the fractions no decimal
      equals; otherwise the text denotes exactly the fraction, with as few places as any decimal has. */
  method Render(num: int, den: int) returns (text: Option<string>)
    requires Reduced(num, den)
    ensures text.Some? <==> exists places :: HasPlaces(num, den, places)
    ensures text.Some? ==>
      var denoted := Denoted(text.value);
      && denoted.Some? && DecimalWith(num, den, denoted.value.1, denoted.value.0)
      && forall places :: HasPlaces(num, den, places) ==> denoted.value.1 <= places
  {
    var denominator := den;
    var twos, fives := 0, 0;
    while denominator % 2 == 0
      invariant denominator > 0 && den == Pow(2, twos) * denominator
      decreases denominator
    {
      ghost var before := denominator;
      denominator := denominator / 2;
      assert Pow(2, twos) * before == (2 * Pow(2, twos)) * denominator;
      twos := twos + 1;
    }
    ghost var odd := denominator;
    while denominator % 5 == 0
      invariant denominator > 0 && denominator % 2 == 1 && odd == Pow(5, fives) * denominator
      decreases denominator
    {
      ghost var before := denominator;
      denominator := denominator / 5;
      assert Pow(5, fives) * before == (5 * Pow(5, fives)) * denominator;
      ProductModTwo(denominator, 5);
      fives := fives + 1;
    }
    Necessary(num, den, twos, fives, denominator);
    if denominator != 1 {
      return None;
    }
    var scale := Max(twos, fives);
    var scaled := num * Pow(2, scale - twos) * Pow(5, scale - fives);
    ScaledIsExact(num, den, twos, fives, scale);
    PointTextDenotes(scaled, scale);
    assert HasPlaces(num, den, scale);
    text := Some(PointText(scaled, scale));
  }

  /** Any decimal of the fraction uses up all factors of the denominator. */
  lemma Necessary(num: int, den: int, twos: nat, fives: nat, factor: int)
    requires Reduced(num, den) && den == Pow(2, twos) * (Pow(5, fives) * factor)
    requires factor > 0 && factor % 2 == 1 && factor % 5 != 0
    ensures forall places :: HasPlaces(num, den, places) ==> factor == 1 && twos <= places && fives <= places
  {
    Regroup(Pow(2, twos), Pow(5, fives), factor);
    forall places | HasPlaces(num, den, places) ensures factor == 1 && twos <= places && fives <= places {
      var scaled :| DecimalWith(num, den, places, scaled);
      OtherFactorRefuses(num, den, factor, Pow(2, twos) * Pow(5, fives), places, scaled);
      TwosNeedPlaces(num, den, twos, Pow(5, fives) * factor, places, scaled);
      FivesNeedPlaces(num, den, fives, Pow(2, twos) * factor, places, scaled);
    }
  }

  lemma ScaledIsExact(num: int, den: int, twos: nat, fives: nat, scale: nat)
    requires den == Pow(2, twos) * Pow(5, fives) && twos <= scale && fives <= scale
    ensures DecimalWith(num, den, scale, num * Pow(2, scale - twos) * Pow(5, scale - fives))
  {
    PowSplit(2, twos, scale);
    PowSplit(5, fives, scale);
    PowTen(scale);
    Rearrange(num, Pow(2, twos), Pow(5, fives), Pow(2, scale - twos), Pow(5, scale - fives));
  }

  lemma Rearrange(n: int, a: int, b: int, c: int, d: int)
    ensures (n * c * d) * (a * b) == n * ((a * c) * (b * d))
  {
    assert (n * c * d) * (a * b) == n * ((c * d) * (a * b));
    assert (c * d) * (a * b) == (a * c) * (b * d);
  }
}
