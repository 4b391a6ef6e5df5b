/** The exact text of a rational tensor: its least common denominator, then its numerators row by row. */
module Tensors {
  import opened Common
  import opened Arith
  import opened Decimals

  /** A matrix of numerators over one shared denominator, which need not be the least. */
  datatype Tensor = Tensor(noms: seq<seq<int>>, denom: int)

  predicate WellShaped(t: Tensor, rows: nat, cols: nat) {
    t.denom > 0 && |t.noms| == rows && forall i :: 0 <= i < rows ==> |t.noms[i]| == cols
  }

  /** Row-major elements. */
  function Flatten(rows: seq<seq<int>>): seq<int> {
    if rows == [] then [] else Flatten(rows[..|rows| - 1]) + rows[|rows| - 1]
  }

  /** Two tensors hold the same rational numbers. */
  predicate SameValues(a: Tensor, b: Tensor) {
    var x, y := Flatten(a.noms), Flatten(b.noms);
    |x| == |y| && forall i :: 0 <= i < |x| ==> x[i] * b.denom == y[i] * a.denom
  }

  // ------------------------------------------------ reduced elements and lcm

  /** `d` times `n/m` is an integer. */
  predicate Clears(d: int, n: int, m: int)
    requires m > 0
  {
    Divides(m, d * n)
  }

  /** The denominator of `n/m` in lowest terms: the least positive one that clears it. */
  function ReducedDenominator(n: int, m: int): (d: int)
    requires m > 0
    ensures 1 <= d <= m && Clears(d, n, m)
    ensures forall e :: 1 <= e < d ==> !Clears(e, n, m)
  {
    DividesMultiple(m, m, n);
    assert n * m == m * n;
    LeastClearing(n, m, 1)
  }

  function LeastClearing(n: int, m: int, k: int): (d: int)
    requires 1 <= k <= m && Clears(m, n, m)
    ensures k <= d <= m && Clears(d, n, m)
    ensures forall e :: k <= e < d ==> !Clears(e, n, m)
    decreases m - k
  {
    if Clears(k, n, m) then k else LeastClearing(n, m, k + 1)
  }

  /** Whatever clears an element is a multiple of its reduced denominator, and conversely. */
  lemma ClearingIsMultiple(n: int, m: int, e: int)
    requires m > 0 && e > 0
    ensures Clears(e, n, m) <==> Divides(ReducedDenominator(n, m), e)
  {
    var d := ReducedDenominator(n, m);
    if Divides(d, e) {
      QuotientTimes(d, e);
      DividesMultiple(m, d * n, e / d);
      assert (e / d) * (d * n) == e * n;
    }
    if Clears(e, n, m) {
      var q, r := e / d, e % d;
      DividesMultiple(m, d * n, q);
      assert r * n == e * n - q * (d * n);
      DividesDifference(m, e * n, q * (d * n));
      assert r >= 1 ==> !Clears(r, n, m);
    }
  }

  /** The least common multiple of two positive integers. */
  function Lcm(a: int, b: int): (l: int)
    requires a > 0 && b > 0
    ensures l > 0 && Divides(a, l) && Divides(b, l)
    ensures forall k :: 1 <= k < l ==> !(Divides(a, k) && Divides(b, k))
  {
    DividesMultiple(a, a, b);
    DividesMultiple(b, b, a);
    assert b * a == a * b;
    LeastCommon(a, b, 1)
  }

  function LeastCommon(a: int, b: int, k: int): (l: int)
    requires a > 0 && b > 0 && 1 <= k <= a * b && Divides(a, a * b) && Divides(b, a * b)
    ensures k <= l && Divides(a, l) && Divides(b, l)
    ensures forall e :: k <= e < l ==> !(Divides(a, e) && Divides(b, e))
    decreases a * b - k
  {
    if Divides(a, k) && Divides(b, k) then k else LeastCommon(a, b, k + 1)
  }

  lemma CommonMultipleIsMultiple(a: int, b: int, x: int)
    requires a > 0 && b > 0 && x > 0
    ensures Divides(a, x) && Divides(b, x) <==> Divides(Lcm(a, b), x)
  {
    var l := Lcm(a, b);
    if Divides(l, x) {
      DividesTransitive(a, l, x);
      DividesTransitive(b, l, x);
    }
    if Divides(a, x) && Divides(b, x) {
      var q, r := x / l, x % l;
      DividesMultiple(a, l, q);
      DividesMultiple(b, l, q);
      assert r == x - q * l;
      DividesDifference(a, x, q * l);
      DividesDifference(b, x, q * l);
    }
  }

  /** The lcm of the reduced denominators, 1 when there are no elements. */
  function CommonDenominator(flat: seq<int>, m: int): (d: int)
    requires m > 0
    ensures d > 0
  {
    if flat == [] then 1
    else Lcm(CommonDenominator(flat[..|flat| - 1], m), ReducedDenominator(flat[|flat| - 1], m))
  }

  /** The printed denominator is the least positive one that makes every element an integer: a number
      clears all elements exactly when it is a multiple of it. */
  lemma {:induction false} CommonDenominatorIsLeast(flat: seq<int>, m: int, e: int)
    requires m > 0 && e > 0
    ensures (forall i :: 0 <= i < |flat| ==> Clears(e, flat[i], m)) <==> Divides(CommonDenominator(flat, m), e)
    ensures Divides(CommonDenominator(flat, m), e) ==> CommonDenominator(flat, m) <= e
  {
    var d := CommonDenominator(flat, m);
    if flat != [] {
      var k := |flat| - 1;
      CommonDenominatorIsLeast(flat[..k], m, e);
      ClearingIsMultiple(flat[k], m, e);
      CommonMultipleIsMultiple(CommonDenominator(flat[..k], m), ReducedDenominator(flat[k], m), e);
      assert (forall i :: 0 <= i < |flat| ==> Clears(e, flat[i], m)) <==>
             (forall i :: 0 <= i < k ==> Clears(e, flat[..k][i], m)) && Clears(e, flat[k], m);
    }
    if Divides(d, e) {
      DividesBounds(d, e);
    }
  }

  // ----------------------------------------------------------------- encoding

  /** The reduced numerator scaled up from the element's own denominator to the common one. */
  function ScaledNumerator(n: int, m: int, common: int): int
    requires m > 0
  {
    var d := ReducedDenominator(n, m);
    ((d * n) / m) * (common / d)
  }

  /** All numerators over the common denominator. */
  function Numerators(t: Tensor): seq<int>
    requires t.denom > 0
  {
    var flat := Flatten(t.noms);
    var common := CommonDenominator(flat, t.denom);
    seq(|flat|, i requires 0 <= i < |flat| => ScaledNumerator(flat[i], t.denom, common))
  }

  function Texts(numbers: seq<int>): seq<string> {
    seq(|numbers|, i requires 0 <= i < |numbers| => IntText(numbers[i]))
  }

  function Encode(t: Tensor): string
    requires t.denom > 0
  {
    IntText(CommonDenominator(Flatten(t.noms), t.denom)) + [';'] + Join(Texts(Numerators(t)), ',')
  }

  datatype DecodeError = BadShape | BadNumber | BadDenominator | CountMismatch

  function ParseAll(parts: seq<string>): Option<seq<int>> {
    if parts == [] then Some([])
    else
      var init, last := ParseAll(parts[..|parts| - 1]), ParseInt(parts[|parts| - 1]);
      if init.Some? && last.Some? then Some(init.value + [last.value]) else None
  }

  /** Rows of `cols` numerators each. */
  function Layout(flat: seq<int>, rows: nat, cols: nat): seq<seq<int>>
    requires |flat| == rows * cols
  {
    seq(rows, r requires 0 <= r < rows =>
      RowFits(rows, cols, r);
      flat[r * cols..(r + 1) * cols])
  }

  lemma RowFits(rows: nat, cols: nat, r: nat)
    requires r < rows
    ensures r * cols <= (r + 1) * cols <= rows * cols
  {
    ProductIsMonotone(r, r + 1, cols);
    ProductIsMonotone(r + 1, rows, cols);
  }

  function Decode(text: string, rows: int, cols: int): Result<Tensor, DecodeError> {
    if rows < 1 || cols < 1 then Err(BadShape)
    else
      var (denominatorText, numeratorsText) := Partition(text, ';');
      var denominator := ParseInt(denominatorText);
      if denominator.None? then Err(BadNumber)
      else if denominator.value < 1 then Err(BadDenominator)
      else
        var numerators := ParseAll(if numeratorsText == [] then [] else Split(numeratorsText, ','));
        if numerators.None? then Err(BadNumber)
        else if |numerators.value| != rows * cols then Err(CountMismatch)
        else Ok(Tensor(Layout(numerators.value, rows, cols), denominator.value))
  }

  // ----------------------------------------------------- round trip, canonicity

  lemma ScaledNumeratorIs(n: int, m: int, common: int)
    requires m > 0 && common > 0 && Divides(ReducedDenominator(n, m), common)
    ensures ScaledNumerator(n, m, common) * m == common * n
  {
    var d := ReducedDenominator(n, m);
    QuotientTimes(m, d * n);
    QuotientTimes(d, common);
    var p, q := (d * n) / m, common / d;
    assert (p * q) * m == q * (p * m) == q * (d * n) == common * n;
  }

  lemma NumeratorsAre(t: Tensor, i: nat)
    requires t.denom > 0 && i < |Flatten(t.noms)|
    ensures var flat := Flatten(t.noms);
            var common := CommonDenominator(flat, t.denom);
            ScaledNumerator(flat[i], t.denom, common) * t.denom == common * flat[i]
  {
    var flat := Flatten(t.noms);
    var common := CommonDenominator(flat, t.denom);
    assert Divides(common, common) by { MultipleIsDivisible(1, common); }
    CommonDenominatorIsLeast(flat, t.denom, common);
    assert Clears(common, flat[i], t.denom);
    ClearingIsMultiple(flat[i], t.denom, common);
    ScaledNumeratorIs(flat[i], t.denom, common);
  }

  lemma {:induction false} ParseAllTexts(parts: seq<string>, numbers: seq<int>)
    requires |parts| == |numbers| && forall i :: 0 <= i < |parts| ==> parts[i] == IntText(numbers[i])
    ensures ParseAll(parts) == Some(numbers)
  {
    if parts != [] {
      var k := |parts| - 1;
      ParseAllTexts(parts[..k], numbers[..k]);
      IntTextParses(numbers[k]);
      assert numbers == numbers[..k] + [numbers[k]];
    }
  }

  lemma {:induction false} FlattenLayout(flat: seq<int>, rows: nat, cols: nat)
    requires |flat| == rows * cols
    ensures Flatten(Layout(flat, rows, cols)) == flat
  {
    if rows > 0 {
      var k := rows - 1;
      RowFits(rows, cols, k);
      FlattenLayout(flat[..k * cols], k, cols);
      LayoutStep(flat, k, cols);
      assert flat == flat[..k * cols] + flat[k * cols..];
    } else {
      assert Layout(flat, rows, cols) == [];
    }
  }

  /** One more row is the tail of the numbers. */
  lemma LayoutStep(flat: seq<int>, k: nat, cols: nat)
    requires |flat| == (k + 1) * cols && k * cols <= |flat|
    ensures Layout(flat, k + 1, cols) == Layout(flat[..k * cols], k, cols) + [flat[k * cols..]]
  {
    var longer := Layout(flat, k + 1, cols);
    forall r | 0 <= r < k ensures longer[r] == Layout(flat[..k * cols], k, cols)[r] {
      RowFits(k, cols, r);
      RowFits(k + 1, cols, r);
    }
    assert longer[k] == flat[k * cols..];
    assert longer[..k] == Layout(flat[..k * cols], k, cols) && longer == longer[..k] + [longer[k]];
  }

  lemma {:induction false} FlattenLength(noms: seq<seq<int>>, cols: nat)
    requires forall i :: 0 <= i < |noms| ==> |noms[i]| == cols
    ensures |Flatten(noms)| == |noms| * cols
  {
    if noms != [] {
      var k := |noms| - 1;
      FlattenLength(noms[..k], cols);
      assert |noms| * cols == k * cols + cols;
    }
  }

  lemma {:induction false} JoinedTextsNonempty(parts: seq<string>)
    requires parts != [] && forall i :: 0 <= i < |parts| ==> parts[i] != []
    ensures Join(parts, ',') != []
  {
  }

  /** Parsing a denominator and its numerators, as they are printed. */
  lemma DecodeOfText(common: int, numbers: seq<int>, rows: nat, cols: nat)
    requires common > 0 && rows >= 1 && cols >= 1 && |numbers| == rows * cols
    ensures Decode(IntText(common) + [';'] + Join(Texts(numbers), ','), rows, cols)
         == Ok(Tensor(Layout(numbers, rows, cols), common))
  {
    assert |numbers| >= 1 by { RowFits(rows, cols, 0); }
    IntTextParses(common);
    PartitionAt(IntText(common), ';', Join(Texts(numbers), ','));
    TextsParse(numbers);
  }

  /** What any text of a denominator and numerators decodes to: a shape without elements, a denominator that is not
      positive and a wrong number of elements are refused, in that order, and nothing else is. */
  lemma DecodeAnswers(denominator: int, numbers: seq<int>, rows: int, cols: int)
    ensures Decode(IntText(denominator) + [';'] + Join(Texts(numbers), ','), rows, cols)
         == if rows < 1 || cols < 1 then Err(BadShape)
            else if denominator < 1 then Err(BadDenominator)
            else if |numbers| != rows * cols then Err(CountMismatch)
            else Ok(Tensor(Layout(numbers, rows, cols), denominator))
  {
    IntTextParses(denominator);
    PartitionAt(IntText(denominator), ';', Join(Texts(numbers), ','));
    if numbers == [] {
      assert Texts(numbers) == [] && Join([], ',') == [];
    } else {
      TextsParse(numbers);
    }
  }

  /** A text whose denominator is no number is refused as such. */
  lemma DecodeNeedsNumbers(text: string, rows: int, cols: int)
    requires rows >= 1 && cols >= 1 && ParseInt(Partition(text, ';').0).None?
    ensures Decode(text, rows, cols) == Err(BadNumber)
  {
  }

  lemma TextsParse(numbers: seq<int>)
    requires |numbers| >= 1
    ensures var text := Join(Texts(numbers), ',');
            text != [] && ParseAll(Split(text, ',')) == Some(numbers)
  {
    var texts := Texts(numbers);
    forall i | 0 <= i < |texts| ensures ',' !in texts[i] && texts[i] != [] {
      IntTextParses(numbers[i]);
    }
    SplitJoin(texts, ',');
    JoinedTextsNonempty(texts);
    ParseAllTexts(texts, numbers);
  }

  /** The tensor a text decodes to: the scaled numerators laid out over the common denominator. */
  function Normalized(t: Tensor, rows: nat, cols: nat): Tensor
    requires t.denom > 0 && |Flatten(t.noms)| == rows * cols
  {
    Tensor(Layout(Numerators(t), rows, cols), CommonDenominator(Flatten(t.noms), t.denom))
  }

  lemma NormalizedSameValues(t: Tensor, rows: nat, cols: nat)
    requires t.denom > 0 && |Flatten(t.noms)| == rows * cols
    ensures WellShaped(Normalized(t, rows, cols), rows, cols) && SameValues(Normalized(t, rows, cols), t)
  {
    FlattenLayout(Numerators(t), rows, cols);
    LayoutIsShaped(Numerators(t), rows, cols);
    forall i | 0 <= i < |Flatten(t.noms)|
      ensures Numerators(t)[i] * t.denom == Flatten(t.noms)[i] * CommonDenominator(Flatten(t.noms), t.denom)
    {
      NumeratorsAre(t, i);
    }
  }

  /** Decoding the text of a tensor gives back its numbers, over the least common denominator. */
  lemma DecodeInvertsEncode(t: Tensor, rows: nat, cols: nat)
    requires WellShaped(t, rows, cols) && rows >= 1 && cols >= 1
    ensures |Flatten(t.noms)| == rows * cols
    ensures Decode(Encode(t), rows, cols) == Ok(Normalized(t, rows, cols))
    ensures WellShaped(Normalized(t, rows, cols), rows, cols) && SameValues(Normalized(t, rows, cols), t)
  {
    FlattenLength(t.noms, cols);
    DecodeOfText(CommonDenominator(Flatten(t.noms), t.denom), Numerators(t), rows, cols);
    NormalizedSameValues(t, rows, cols);
  }

  lemma LayoutIsShaped(flat: seq<int>, rows: nat, cols: nat)
    requires |flat| == rows * cols
    ensures forall i :: 0 <= i < rows ==> |Layout(flat, rows, cols)[i]| == cols
  {
    forall i | 0 <= i < rows ensures |Layout(flat, rows, cols)[i]| == cols {
      RowFits(rows, cols, i);
      assert (i + 1) * cols - i * cols == cols;
    }
  }

  /** Equal numbers are cleared by the same factors. */
  lemma ClearsSame(e: int, n: int, m: int, n': int, m': int)
    requires m > 0 && m' > 0 && n * m' == n' * m && Clears(e, n, m)
    ensures Clears(e, n', m')
  {
    QuotientTimes(m, e * n);
    var q := (e * n) / m;
    assert (e * n') * m == e * (n' * m) == e * (n * m') == (e * n) * m' == (q * m) * m' == (q * m') * m;
    CancelFactor(e * n', q * m', m);
    MultipleIsDivisible(q, m');
  }

  lemma SameValuesSameDenominator(a: Tensor, b: Tensor)
    requires a.denom > 0 && b.denom > 0 && SameValues(a, b)
    ensures CommonDenominator(Flatten(a.noms), a.denom) == CommonDenominator(Flatten(b.noms), b.denom)
  {
    var x, y := Flatten(a.noms), Flatten(b.noms);
    var d, e := CommonDenominator(x, a.denom), CommonDenominator(y, b.denom);
    MultipleIsDivisible(1, d);
    MultipleIsDivisible(1, e);
    CommonDenominatorIsLeast(x, a.denom, d);
    CommonDenominatorIsLeast(y, b.denom, e);
    forall i | 0 <= i < |x| ensures Clears(d, y[i], b.denom) && Clears(e, x[i], a.denom) {
      assert Clears(d, x[i], a.denom) && Clears(e, y[i], b.denom);
      ClearsSame(d, x[i], a.denom, y[i], b.denom);
      ClearsSame(e, y[i], b.denom, x[i], a.denom);
    }
    CommonDenominatorIsLeast(x, a.denom, e);
    CommonDenominatorIsLeast(y, b.denom, d);
  }

  /** Equal numbers over one denominator have equal numerators. */
  lemma EqualOverEqual(n: int, m: int, n': int, m': int, d: int, p: int, q: int)
    requires m > 0 && m' > 0 && n * m' == n' * m && p * m == d * n && q * m' == d * n'
    ensures p == q
  {
    assert p * (m * m') == (p * m) * m' == (d * n) * m' == d * (n * m');
    assert q * (m * m') == (q * m') * m == (d * n') * m == d * (n' * m);
    CancelFactor(p, q, m * m');
  }

  /** Two numbers equal to a third are equal. */
  lemma EqualThrough(n: int, m: int, n': int, m': int, p: int, d: int)
    requires d != 0 && p * m == n * d && p * m' == n' * d
    ensures n * m' == n' * m
  {
    assert (n * m') * d == (n * d) * m' == (p * m) * m';
    assert (n' * m) * d == (n' * d) * m == (p * m') * m;
    CancelFactor(n * m', n' * m, d);
  }

  lemma SameValuesSameText(a: Tensor, b: Tensor)
    requires a.denom > 0 && b.denom > 0 && SameValues(a, b)
    ensures Encode(a) == Encode(b)
  {
    SameValuesSameDenominator(a, b);
    var x, y := Flatten(a.noms), Flatten(b.noms);
    var d := CommonDenominator(x, a.denom);
    forall i | 0 <= i < |x| ensures ScaledNumerator(x[i], a.denom, d) == ScaledNumerator(y[i], b.denom, d) {
      NumeratorsAre(a, i);
      NumeratorsAre(b, i);
      EqualOverEqual(x[i], a.denom, y[i], b.denom, d,
                     ScaledNumerator(x[i], a.denom, d), ScaledNumerator(y[i], b.denom, d));
    }
    assert Numerators(a) == Numerators(b);
  }

  /** The text is canonical: tensors of one shape have equal texts exactly when their numbers are
      equal, whatever denominators they carried. */
  lemma TextIsCanonical(a: Tensor, b: Tensor, rows: nat, cols: nat)
    requires WellShaped(a, rows, cols) && WellShaped(b, rows, cols) && rows >= 1 && cols >= 1
    ensures Encode(a) == Encode(b) <==> SameValues(a, b)
  {
    if SameValues(a, b) {
      SameValuesSameText(a, b);
    }
    if Encode(a) == Encode(b) {
      DecodeInvertsEncode(a, rows, cols);
      DecodeInvertsEncode(b, rows, cols);
      var c := Decode(Encode(a), rows, cols).value;
      var x, y, z := Flatten(a.noms), Flatten(b.noms), Flatten(c.noms);
      forall i | 0 <= i < |x| ensures x[i] * b.denom == y[i] * a.denom {
        EqualThrough(x[i], a.denom, y[i], b.denom, z[i], c.denom);
      }
    }
  }
}
