/** Offset and limit over a sequence of rows: the arithmetic every result set shares. */
module Slices {
  import opened Common

  /** `rows[offset:offset + limit]`, an absent limit reaching the end. */
  function Page<T>(rows: seq<T>, offset: nat, limit: Option<nat>): seq<T> {
    var rest := if offset <= |rows| then rows[offset..] else [];
    if limit.Some? && limit.value <= |rest| then rest[..limit.value] else rest
  }

  function Concat<T>(parts: seq<seq<T>>): seq<T> {
    if parts == [] then [] else Concat(parts[..|parts| - 1]) + parts[|parts| - 1]
  }

  /** The offset and limit of a slice taken of a page. */
  function Narrow(offset: nat, limit: Option<nat>, start: nat, stop: Option<nat>): (nat, Option<nat>) {
    var remaining: Option<nat> := if limit.None? then None else Some(Max(limit.value - start, 0));
    var span: Option<nat> := if stop.None? then None else Some(Max(stop.value - start, 0));
    (offset + start,
     if span.None? then remaining else if remaining.None? then span else Some(Min(remaining.value, span.value)))
  }

  /** List slicing with nonnegative bounds: out-of-range bounds are clamped. */
  function ListSlice<T>(rows: seq<T>, start: nat, stop: Option<nat>): seq<T> {
    var hi := if stop.None? || stop.value > |rows| then |rows| else stop.value;
    if start < hi then rows[start..hi] else []
  }

  /** The number of rows a page has, from the total alone. */
  function PageLength(total: nat, offset: nat, limit: Option<nat>): nat {
    if limit == Some(0) then 0
    else
      var available := Max(total - offset, 0);
      if limit.None? then available else Min(available, limit.value)
  }

  /** A slice of a page is the page of the narrowed bounds. */
  lemma NarrowIsListSlice<T>(rows: seq<T>, offset: nat, limit: Option<nat>, start: nat, stop: Option<nat>)
    ensures var (o, l) := Narrow(offset, limit, start, stop);
            Page(rows, o, l) == ListSlice(Page(rows, offset, limit), start, stop)
  {
    var (o, l) := Narrow(offset, limit, start, stop);
    var page := Page(rows, offset, limit);
    var cut := ListSlice(page, start, stop);
    assert |Page(rows, o, l)| == |cut|;
    assert forall i :: 0 <= i < |cut| ==> cut[i] == page[start + i] == rows[offset + start + i];
  }

  /** Slices of slices agree with slicing the iterated rows twice. */
  lemma NarrowTwice<T>(rows: seq<T>, offset: nat, limit: Option<nat>, start: nat, stop: Option<nat>,
                       start': nat, stop': Option<nat>)
    ensures var (o, l) := Narrow(offset, limit, start, stop);
            var (o', l') := Narrow(o, l, start', stop');
            Page(rows, o', l') == ListSlice(ListSlice(Page(rows, offset, limit), start, stop), start', stop')
  {
    var (o, l) := Narrow(offset, limit, start, stop);
    NarrowIsListSlice(rows, offset, limit, start, stop);
    NarrowIsListSlice(rows, o, l, start', stop');
  }

  lemma PageHasPageLength<T>(rows: seq<T>, offset: nat, limit: Option<nat>)
    ensures |Page(rows, offset, limit)| == PageLength(|rows|, offset, limit)
  {
  }

  /** Rows beyond a full page do not change it. */
  lemma FullPageIsStable<T>(rows: seq<T>, more: seq<T>, offset: nat, limit: nat)
    requires |rows| >= offset + limit
    ensures Page(rows + more, offset, Some(limit)) == Page(rows, offset, Some(limit))
  {
  }

  /** One more element of `items` behind `before`, and the rest behind that. */
  lemma CutAt<T>(before: seq<T>, items: seq<T>, i: nat)
    requires i < |items|
    ensures before + items[..i + 1] == (before + items[..i]) + [items[i]]
    ensures before + items == (before + items[..i + 1]) + items[i + 1..]
  {
  }

  lemma PageExtends<T>(rows: seq<T>, row: T, offset: nat, limit: Option<nat>)
    ensures Page(rows + [row], offset, limit) ==
            if |rows| >= offset && (limit.None? || |rows| < offset + limit.value) then Page(rows, offset, limit) + [row]
            else Page(rows, offset, limit)
  {
  }

  function Take<T>(rows: seq<T>, n: nat): seq<T> { if n <= |rows| then rows[..n] else rows }

  function TakeEach<T>(parts: seq<seq<T>>, n: nat): seq<seq<T>> {
    seq(|parts|, i requires 0 <= i < |parts| => Take(parts[i], n))
  }

  /** Cutting every part at `n` keeps the first `n` rows of the whole. */
  lemma {:induction false} TakeEachKeepsPrefix<T>(parts: seq<seq<T>>, n: nat)
    ensures Take(Concat(TakeEach(parts, n)), n) == Take(Concat(parts), n)
  {
    if parts != [] {
      var m := |parts| - 1;
      TakeEachKeepsPrefix(parts[..m], n);
      assert TakeEach(parts, n)[..m] == TakeEach(parts[..m], n);
      var a, b := Concat(parts[..m]), Concat(TakeEach(parts[..m], n));
      var last := parts[m];
      TakeOfSum(a, b, last, n);
    }
  }

  lemma TakeOfSum<T>(a: seq<T>, b: seq<T>, last: seq<T>, n: nat)
    requires Take(a, n) == Take(b, n)
    ensures Take(b + Take(last, n), n) == Take(a + last, n)
  {
    if |a| >= n {
      assert |b| >= n;
      assert (a + last)[..n] == a[..n] && (b + Take(last, n))[..n] == b[..n];
    } else {
      assert a == b;
    }
  }

  /** Pushing `offset + limit` down to every part yields the same page. */
  lemma PushdownIsExact<T>(parts: seq<seq<T>>, offset: nat, limit: nat)
    ensures Page(Concat(TakeEach(parts, offset + limit)), offset, Some(limit))
         == Page(Concat(parts), offset, Some(limit))
  {
    TakeEachKeepsPrefix(parts, offset + limit);
    PageOfTake(Concat(TakeEach(parts, offset + limit)), offset, limit);
    PageOfTake(Concat(parts), offset, limit);
  }

  lemma PageOfTake<T>(rows: seq<T>, offset: nat, limit: nat)
    ensures Page(Take(rows, offset + limit), offset, Some(limit)) == Page(rows, offset, Some(limit))
  {
  }
}
