/** ClickHouse's test a * b = c * d on four fraction texts, in wrapping 256-bit arithmetic. */
module ScaledFractions {
  import opened Common
  import opened Arith
  import opened Decimals

  const MAX_DIGITS := 19
  const DIGIT_BOUND := 10_000_000_000_000_000_000
  const HALF_RANGE := 0x8000000000000000000000000000000000000000000000000000000000000000

  /** A fraction as it is spelled: a whole number may be written without its denominator. */
  datatype Fraction = Fraction(num: int, den: nat, slash: bool)

  datatype FractionError = OverBudget | ZeroDenominator | NotANumber

  /** The stored text always has the slash; the expression also reads a whole number that stands alone. */
  function Text(f: Fraction): string {
    if f.den == 1 && !f.slash then IntText(f.num) else IntText(f.num) + ['/'] + NatText(f.den)
  }

  /** Two's complement: what a signed 256-bit product keeps. */
  function Wrap(x: int): int {
    (x + HALF_RANGE) % (2 * HALF_RANGE) - HALF_RANGE
  }

  function Numerator(text: string): string {
    if '/' !in text then text else Split(text, '/')[0]
  }

  function Denominator(text: string): string {
    if '/' !in text then "1"
    else
      var parts := Split(text, '/');
      if |parts| > 1 then parts[1] else []
  }

  function Unsigned(text: string): string {
    if text != [] && (text[0] == '-' || text[0] == '+') then text[1..] else text
  }

  predicate Over(text: string) { |Unsigned(text)| > MAX_DIGITS }

  /** The product of four components, wrapped after each multiplication. */
  function Product(wrap: int -> int, w: int, x: int, y: int, z: int): int {
    wrap(wrap(wrap(w * x) * y) * z)
  }

  predicate CompareIn(wrap: int -> int, xs: seq<int>)
    requires |xs| == 8
  {
    Product(wrap, xs[0], xs[1], xs[6], xs[7]) == Product(wrap, xs[2], xs[3], xs[4], xs[5])
  }

  predicate Compare(xs: seq<int>)
    requires |xs| == 8
  {
    CompareIn(Wrap, xs)
  }

  function Num(text: string): int {
    var v := ParseInt(text);
    if v.Some? then v.value else 0
  }

  /** The numerators of the four fractions, then their denominators. */
  function Components(a: string, b: string, c: string, d: string): (texts: seq<string>)
    ensures |texts| == 8
  {
    [Numerator(a), Numerator(b), Numerator(c), Numerator(d),
     Denominator(a), Denominator(b), Denominator(c), Denominator(d)]
  }

  /** The rendered expression: refuses long components, then zero denominators, then compares products. */
  function Decide(texts: seq<string>): Result<bool, FractionError>
    requires |texts| == 8
  {
    if exists i | 0 <= i < 8 :: Over(texts[i]) then Err(OverBudget)
    else if exists i | 4 <= i < 8 :: Unsigned(texts[i]) == "0" then Err(ZeroDenominator)
    else if exists i | 0 <= i < 8 :: ParseInt(texts[i]).None? then Err(NotANumber)
    else
      Ok(Compare(seq(8, i requires 0 <= i < 8 => Num(texts[i]))))
  }

  function ScaledEqual(a: string, b: string, c: string, d: string): Result<bool, FractionError> {
    Decide(Components(a, b, c, d))
  }

  /** A leading sign does not count towards the length, and a text that is short but no number is refused unless
      a denominator is zero. */
  lemma SignsDoNotCount(digits: string, texts: seq<string>)
    requires |texts| == 8 && (forall i | 0 <= i < 8 :: !Over(texts[i]))
    ensures Unsigned(['-'] + digits) == digits && Unsigned(['+'] + digits) == digits
    ensures digits != [] && digits[0] != '-' && digits[0] != '+' ==> Unsigned(digits) == digits
    ensures (forall i | 4 <= i < 8 :: Unsigned(texts[i]) != "0") ==>
              (Decide(texts) == Err(NotANumber) <==> exists i | 0 <= i < 8 :: ParseInt(texts[i]).None?)
  {
  }

  // ------------------------------------------------------------------- lengths

  /** A number has at most `k` digits exactly when it is below ten to the `k`. */
  lemma {:induction false} DigitsBound(n: nat, k: nat)
    requires k >= 1
    ensures |NatText(n)| <= k <==> n < Pow(10, k)
  {
    assert Pow(10, k) == 10 * Pow(10, k - 1);
    PowPositive(10, k - 1);
    if n >= 10 && k > 1 {
      DigitsBound(n / 10, k - 1);
    } else if n >= 10 {
      assert Pow(10, 0) == 1;
    }
  }

  lemma TenToNineteen()
    ensures Pow(10, MAX_DIGITS) == DIGIT_BOUND
  {
    assert Pow(10, 1) == 10 * Pow(10, 0) && Pow(10, 2) == 10 * Pow(10, 1) && Pow(10, 3) == 10 * Pow(10, 2);
    PowSum(10, 2, 2);
    PowSum(10, 4, 4);
    PowSum(10, 8, 8);
    PowSum(10, 16, 3);
  }

  lemma SmallPowersOfTwo()
    ensures Pow(2, 16) == 0x10000 && Pow(2, 15) == 0x8000
  {
    assert Pow(2, 1) == 2 * Pow(2, 0) && Pow(2, 2) == 2 * Pow(2, 1) && Pow(2, 3) == 2 * Pow(2, 2);
    PowSum(2, 2, 2);
    PowSum(2, 4, 4);
    PowSum(2, 4, 3);
    PowSum(2, 8, 8);
    PowSum(2, 8, 7);
  }

  lemma PowersOfTwo()
    ensures Pow(2, 64) == 0x1_0000_0000_0000_0000 && Pow(2, 63) == 0x8000_0000_0000_0000
  {
    SmallPowersOfTwo();
    PowSum(2, 16, 16);
    PowSum(2, 16, 15);
    PowSum(2, 32, 32);
    PowSum(2, 32, 31);
  }

  /** The range is that of signed 256-bit integers. */
  lemma RangeIsSigned256()
    ensures HALF_RANGE == Pow(2, 255)
  {
    PowersOfTwo();
    PowSum(2, 64, 64);
    PowSum(2, 64, 63);
    PowSum(2, 128, 127);
  }

  lemma OverIsLarge(n: int)
    ensures Over(IntText(n)) <==> n <= -DIGIT_BOUND || n >= DIGIT_BOUND
  {
    var size := if n < 0 then -n else n;
    DigitsBound(size, MAX_DIGITS);
    TenToNineteen();
    NatTextParses(size);
    assert Unsigned(IntText(n)) == NatText(size);
  }

  lemma ZeroText(n: nat)
    ensures Unsigned(NatText(n)) == "0" <==> n == 0
  {
    NatTextParses(n);
    NatTextParses(0);
  }

  lemma ComponentsRead(f: Fraction)
    ensures Numerator(Text(f)) == IntText(f.num) && Denominator(Text(f)) == IntText(f.den)
  {
    IntTextParses(f.num);
    IntTextParses(f.den);
    assert IntText(1) == "1";
    if f.den != 1 || f.slash {
      var parts := [IntText(f.num), IntText(f.den)];
      assert Join(parts, '/') == Text(f) by {
        assert parts[..1] == [IntText(f.num)];
      }
      SplitJoin(parts, '/');
      assert Text(f)[|IntText(f.num)|] == '/';
    }
  }

  // -------------------------------------------------------------------- bounds

  lemma ProductBound(x: int, y: int, p: int, q: int)
    requires -p <= x <= p && -q <= y <= q
    ensures -(p * q) <= x * y <= p * q
  {
    var u, v := if x < 0 then -x else x, if y < 0 then -y else y;
    ProductIsMonotone(u, p, v);
    ProductIsMonotone(v, q, p);
  }

  predicate Small(x: int) { -DIGIT_BOUND < x < DIGIT_BOUND }

  /** Numbers of the range are left as they are. */
  ghost predicate KeepsRange(wrap: int -> int) {
    forall x :: -HALF_RANGE <= x < HALF_RANGE ==> wrap(x) == x
  }

  lemma WrapKeepsRange()
    ensures KeepsRange(Wrap)
    ensures forall x :: -HALF_RANGE <= Wrap(x) < HALF_RANGE && (Wrap(x) - x) % (2 * HALF_RANGE) == 0
  {
  }

  /** Every partial product of four short components stays inside the signed 256-bit range. */
  lemma NothingWraps(wrap: int -> int, w: int, x: int, y: int, z: int)
    requires KeepsRange(wrap) && Small(w) && Small(x) && Small(y) && Small(z)
    ensures Product(wrap, w, x, y, z) == w * x * y * z
  {
    var b := DIGIT_BOUND;
    ProductBound(w, x, b, b);
    ProductBound(w * x, y, b * b, b);
    ProductBound(w * x * y, z, b * b * b, b);
    assert b * b * b * b < HALF_RANGE;
  }

  // ------------------------------------------------------------------- theorem

  function Numbers(a: Fraction, b: Fraction, c: Fraction, d: Fraction): (xs: seq<int>)
    ensures |xs| == 8
  {
    [a.num, b.num, c.num, d.num, a.den, b.den, c.den, d.den]
  }

  /** Text surgery finds the numerators and denominators that were printed, in either spelling. */
  lemma ComponentsAreNumbers(a: Fraction, b: Fraction, c: Fraction, d: Fraction)
    ensures var texts, xs := Components(Text(a), Text(b), Text(c), Text(d)), Numbers(a, b, c, d);
            forall i :: 0 <= i < 8 ==> texts[i] == IntText(xs[i])
  {
    ComponentsRead(a);
    ComponentsRead(b);
    ComponentsRead(c);
    ComponentsRead(d);
  }

  /** What is known of a component's text. */
  ghost predicate Reads(text: string, x: int) {
    ParseInt(text) == Some(x) && (Over(text) <==> !Small(x)) && (x >= 0 ==> (Unsigned(text) == "0" <==> x == 0))
  }

  lemma IntTextReads(x: int)
    ensures Reads(IntText(x), x)
  {
    OverIsLarge(x);
    IntTextParses(x);
    if x >= 0 {
      ZeroText(x);
    }
  }

  lemma DecideIsExact(texts: seq<string>, xs: seq<int>)
    requires |texts| == |xs| == 8 && forall i :: 0 <= i < 8 ==> Reads(texts[i], xs[i])
    requires forall i :: 4 <= i < 8 ==> xs[i] >= 0
    ensures Decide(texts) == Exact(xs)
  {
    if i :| 0 <= i < 8 && Over(texts[i]) {
      assert Reads(texts[i], xs[i]);
    } else if i :| 4 <= i < 8 && xs[i] == 0 {
      assert Reads(texts[i], xs[i]);
      assert forall i | 0 <= i < 8 :: Reads(texts[i], xs[i]) && Small(xs[i]);
    } else {
      assert forall i | 0 <= i < 8 :: Reads(texts[i], xs[i]) && Small(xs[i]);
      ProductsDecide(xs);
      assert seq(8, i requires 0 <= i < 8 => Num(texts[i])) == xs;
    }
  }

  /** The comparison on unbounded integers, with the same refusals. */
  function Exact(xs: seq<int>): Result<bool, FractionError>
    requires |xs| == 8
  {
    if exists i | 0 <= i < 8 :: !Small(xs[i]) then Err(OverBudget)
    else if exists i | 4 <= i < 8 :: xs[i] == 0 then Err(ZeroDenominator)
    else Ok(ExactCompare(xs))
  }

  predicate ExactCompare(xs: seq<int>)
    requires |xs| == 8
  {
    xs[0] * xs[1] * xs[6] * xs[7] == xs[2] * xs[3] * xs[4] * xs[5]
  }

  lemma ProductsDecideIn(wrap: int -> int, xs: seq<int>)
    requires KeepsRange(wrap) && |xs| == 8 && forall i | 0 <= i < 8 :: Small(xs[i])
    ensures CompareIn(wrap, xs) == ExactCompare(xs)
  {
    NothingWraps(wrap, xs[0], xs[1], xs[6], xs[7]);
    NothingWraps(wrap, xs[2], xs[3], xs[4], xs[5]);
  }

  lemma ProductsDecide(xs: seq<int>)
    requires |xs| == 8 && forall i | 0 <= i < 8 :: Small(xs[i])
    ensures Compare(xs) == ExactCompare(xs)
  {
    WrapKeepsRange();
    ProductsDecideIn(Wrap, xs);
  }

  function Value(f: Fraction): real
    requires f.den > 0
  {
    f.num as real / f.den as real
  }

  predicate SameProducts(a: Fraction, b: Fraction, c: Fraction, d: Fraction)
    requires a.den > 0 && b.den > 0 && c.den > 0 && d.den > 0
  {
    Value(a) * Value(b) == Value(c) * Value(d)
  }

  /** The cross-multiplied equation is the equation between the rational products. */
  lemma CrossMultiplied(a: Fraction, b: Fraction, c: Fraction, d: Fraction)
    requires a.den > 0 && b.den > 0 && c.den > 0 && d.den > 0
    ensures ExactCompare(Numbers(a, b, c, d)) <==> SameProducts(a, b, c, d)
  {
    RealCrossMultiplied(a.num as real, a.den as real, b.num as real, b.den as real,
                        c.num as real, c.den as real, d.num as real, d.den as real);
    RealProduct(a.num, b.num, c.den, d.den);
    RealProduct(c.num, d.num, a.den, b.den);
  }

  /** Two quotients have equal products exactly when they do after cross-multiplication. */
  lemma RealCrossMultiplied(x: real, p: real, y: real, q: real, u: real, r: real, v: real, s: real)
    requires p > 0.0 && q > 0.0 && r > 0.0 && s > 0.0
    ensures (x / p) * (y / q) == (u / r) * (v / s) <==> (x * y) * (r * s) == (u * v) * (p * q)
  {
    QuotientProduct(x, p, y, q);
    QuotientProduct(u, r, v, s);
    QuotientsEqual(x * y, p * q, u * v, r * s);
  }

  lemma RealProduct(w: int, x: int, y: int, z: int)
    ensures (w as real * x as real) * (y as real * z as real) == (w * x * y * z) as real
  {
    assert w as real * x as real == (w * x) as real;
    assert (w * x) as real * y as real == (w * x * y) as real;
    assert (w * x * y) as real * z as real == (w * x * y * z) as real;
  }

  lemma QuotientProduct(x: real, p: real, y: real, q: real)
    requires p > 0.0 && q > 0.0
    ensures p * q > 0.0 && (x / p) * (y / q) == (x * y) / (p * q)
  {
    var u, v := x / p, y / q;
    assert (u * p) * (v * q) == (u * v) * (p * q);
  }

  lemma QuotientsEqual(x: real, p: real, y: real, q: real)
    requires p > 0.0 && q > 0.0
    ensures x / p == y / q <==> x * q == y * p
  {
    var u, v := x / p, y / q;
    assert x * q == u * (p * q) && y * p == v * (p * q);
  }

  lemma ZeroDenominators(a: Fraction, b: Fraction, c: Fraction, d: Fraction)
    ensures (exists i | 4 <= i < 8 :: Numbers(a, b, c, d)[i] == 0)
       <==> a.den == 0 || b.den == 0 || c.den == 0 || d.den == 0
  {
    var xs := Numbers(a, b, c, d);
    assert xs[4] == a.den && xs[5] == b.den && xs[6] == c.den && xs[7] == d.den;
  }

  lemma TextsDecide(a: Fraction, b: Fraction, c: Fraction, d: Fraction)
    ensures ScaledEqual(Text(a), Text(b), Text(c), Text(d)) == Exact(Numbers(a, b, c, d))
  {
    var texts, xs := Components(Text(a), Text(b), Text(c), Text(d)), Numbers(a, b, c, d);
    forall i | 0 <= i < 8 ensures Reads(texts[i], xs[i]) {
      ComponentsAreNumbers(a, b, c, d);
      IntTextReads(xs[i]);
    }
    DecideIsExact(texts, xs);
  }

  /** Wrapping arithmetic and text surgery together decide the equation between the rational products,
      however each whole number is spelled; long components and zero denominators are refused, in that
      order, and nothing else is. */
  lemma ScaledEqualIsExact(a: Fraction, b: Fraction, c: Fraction, d: Fraction)
    ensures ScaledEqual(Text(a), Text(b), Text(c), Text(d))
         == if exists i | 0 <= i < 8 :: !Small(Numbers(a, b, c, d)[i]) then Err(OverBudget)
            else if a.den == 0 || b.den == 0 || c.den == 0 || d.den == 0 then Err(ZeroDenominator)
            else Ok(SameProducts(a, b, c, d))
  {
    TextsDecide(a, b, c, d);
    ZeroDenominators(a, b, c, d);
    if a.den > 0 && b.den > 0 && c.den > 0 && d.den > 0 {
      CrossMultiplied(a, b, c, d);
    }
  }
}
