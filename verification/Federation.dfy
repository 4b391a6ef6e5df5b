/** Federated queries: one frozen plan executed over several stores, with global paging and a shared count. */
module Federation {
  import opened Common
  import opened Slices

  type Record = int
  type Value = string

  datatype Atom = Atom(path: seq<string>, operation: string, arguments: seq<Value>)

  /** The backend-neutral condition tree that is replayed against every child store. */
  datatype Ast = Constant(value: bool) | Predicate(atom: Atom) | And(left: Ast, right: Ast) | Or(left: Ast, right: Ast)
    | Not(operand: Ast)

  datatype Output =
    | RecordOutput(name: string) | FieldOutput(name: string, path: seq<string>) | OriginOutput(name: string)

  /** A child store with its own reading of atoms and outputs. `works` is false when building, limiting
      or starting a search on it raises. */
  datatype Child = Child(name: string, records: seq<Record>, atom: (Atom, Record) -> bool,
                         project: (Output, Record) -> Value, works: bool)

  /** What a condition tree says of a record of the child. */
  predicate Satisfies(c: Child, ast: Ast, r: Record) {
    match ast
    case Constant(value) => value
    case Predicate(atom) => c.atom(atom, r)
    case And(left, right) => Satisfies(c, left, r) && Satisfies(c, right, r)
    case Or(left, right) => Satisfies(c, left, r) || Satisfies(c, right, r)
    case Not(operand) => !Satisfies(c, operand, r)
  }

  /** A child store's own search expressions, and which of its records they select. */
  datatype ChildExpression =
    | Everything | Nothing | Test(atom: Atom)
    | Both(left: ChildExpression, right: ChildExpression) | Either(left: ChildExpression, right: ChildExpression)
    | Inverse(operand: ChildExpression)

  predicate Selects(c: Child, e: ChildExpression, r: Record) {
    match e
    case Everything => true
    case Nothing => false
    case Test(atom) => c.atom(atom, r)
    case Both(left, right) => Selects(c, left, r) && Selects(c, right, r)
    case Either(left, right) => Selects(c, left, r) || Selects(c, right, r)
    case Inverse(operand) => !Selects(c, operand, r)
  }

  /** The condition tree rebuilt out of the child's own expressions. */
  function Replay(ast: Ast): ChildExpression {
    match ast
    case Constant(value) => if value then Everything else Nothing
    case Predicate(atom) => Test(atom)
    case And(left, right) => Both(Replay(left), Replay(right))
    case Or(left, right) => Either(Replay(left), Replay(right))
    case Not(operand) => Inverse(Replay(operand))
  }

  /** The rows of one child that its replayed conditions all select, in its own order. */
  function Matching(c: Child, conditions: seq<Ast>): seq<Record> {
    MatchingIn(c, conditions, c.records)
  }

  function MatchingIn(c: Child, conditions: seq<Ast>, records: seq<Record>): seq<Record> {
    if records == [] then []
    else
      var r := records[|records| - 1];
      MatchingIn(c, conditions, records[..|records| - 1]) +
      (if forall ast :: ast in conditions ==> Selects(c, Replay(ast), r) then [r] else [])
  }

  /** A result row: the source name in origin columns, the child's value in the others. */
  function ResultRow(c: Child, outputs: seq<Output>, r: Record): seq<Value> {
    seq(|outputs|, i requires 0 <= i < |outputs| =>
      if outputs[i].OriginOutput? then c.name else c.project(outputs[i], r))
  }

  function ResultRows(c: Child, outputs: seq<Output>, records: seq<Record>): seq<seq<Value>> {
    seq(|records|, i requires 0 <= i < |records| => ResultRow(c, outputs, records[i]))
  }

  function Results(children: seq<Child>, conditions: seq<Ast>, outputs: seq<Output>): seq<seq<seq<Value>>> {
    seq(|children|, i requires 0 <= i < |children| =>
      ResultRows(children[i], outputs, Matching(children[i], conditions)))
  }

  /** How many children come before the first that fails. */
  function Working(children: seq<Child>): (n: nat)
    ensures n <= |children| && forall i :: 0 <= i < n ==> children[i].works
    ensures n < |children| ==> !children[n].works
  {
    if children == [] then 0
    else
      var n := Working(children[..|children| - 1]);
      if n < |children| - 1 then n else if children[|children| - 1].works then n + 1 else n
  }

  /** The source-major union, up to the first child that fails. */
  function Union(children: seq<Child>, conditions: seq<Ast>, outputs: seq<Output>): seq<seq<Value>> {
    Concat(Results(children, conditions, outputs)[..Working(children)])
  }

  // -------------------------------------------------------------- conditions

  /** The replayed expression selects exactly the records of which the condition holds. */
  lemma {:induction false} ReplayIsFaithful(c: Child, ast: Ast, r: Record)
    ensures Selects(c, Replay(ast), r) <==> Satisfies(c, ast, r)
  {
    match ast
    case And(left, right) =>
      ReplayIsFaithful(c, left, r);
      ReplayIsFaithful(c, right, r);
    case Or(left, right) =>
      ReplayIsFaithful(c, left, r);
      ReplayIsFaithful(c, right, r);
    case Not(operand) => ReplayIsFaithful(c, operand, r);
    case _ =>
  }

  predicate SatisfiesAll(c: Child, conditions: seq<Ast>, r: Record) {
    forall ast :: ast in conditions ==> Satisfies(c, ast, r)
  }

  /** The rows are the records at some positions, in ascending order: exactly the positions of the records that
      satisfy every condition. */
  ghost predicate IsSelection(c: Child, conditions: seq<Ast>, records: seq<Record>, rows: seq<Record>,
                              positions: seq<nat>)
  {
    && |positions| == |rows| && (forall k, l :: 0 <= k < l < |positions| ==> positions[k] < positions[l])
    && (forall k :: 0 <= k < |positions| ==> positions[k] < |records| && records[positions[k]] == rows[k])
    && (forall i :: 0 <= i < |records| ==> (i in positions <==> SatisfiesAll(c, conditions, records[i])))
  }

  lemma SelectionSkips(c: Child, conditions: seq<Ast>, records: seq<Record>, r: Record, rows: seq<Record>,
                       positions: seq<nat>)
    requires IsSelection(c, conditions, records, rows, positions) && !SatisfiesAll(c, conditions, r)
    ensures IsSelection(c, conditions, records + [r], rows, positions)
  {
    assert forall i | 0 <= i < |records| :: (records + [r])[i] == records[i];
    assert |records| !in positions;
  }

  lemma SelectionTakes(c: Child, conditions: seq<Ast>, records: seq<Record>, r: Record, rows: seq<Record>,
                       positions: seq<nat>)
    requires IsSelection(c, conditions, records, rows, positions) && SatisfiesAll(c, conditions, r)
    ensures IsSelection(c, conditions, records + [r], rows + [r], positions + [|records|])
  {
    var more := positions + [|records|];
    assert forall i | 0 <= i < |records| :: (records + [r])[i] == records[i];
    assert forall i :: i in more <==> i in positions || i == |records|;
  }

  lemma {:induction false} MatchingSelectsIn(c: Child, conditions: seq<Ast>, records: seq<Record>)
    returns (positions: seq<nat>)
    ensures IsSelection(c, conditions, records, MatchingIn(c, conditions, records), positions)
  {
    positions := [];
    if records != [] {
      var n := |records| - 1;
      SplitLast(records);
      positions := MatchingSelectsIn(c, conditions, records[..n]);
      SelectedIsSatisfied(c, conditions, records[n]);
      if SatisfiesAll(c, conditions, records[n]) {
        SelectionTakes(c, conditions, records[..n], records[n], MatchingIn(c, conditions, records[..n]), positions);
        positions := positions + [n];
      } else {
        SelectionSkips(c, conditions, records[..n], records[n], MatchingIn(c, conditions, records[..n]), positions);
      }
    }
  }

  lemma SelectedIsSatisfied(c: Child, conditions: seq<Ast>, r: Record)
    ensures (forall ast :: ast in conditions ==> Selects(c, Replay(ast), r)) <==> SatisfiesAll(c, conditions, r)
  {
    forall ast ensures Selects(c, Replay(ast), r) <==> Satisfies(c, ast, r) {
      ReplayIsFaithful(c, ast, r);
    }
  }

  /** A child yields exactly its records that satisfy every condition, each as often as it has it, in its order. */
  lemma MatchingSelects(c: Child, conditions: seq<Ast>)
    ensures exists positions :: IsSelection(c, conditions, c.records, Matching(c, conditions), positions)
    ensures forall r :: r in Matching(c, conditions) <==> r in c.records && SatisfiesAll(c, conditions, r)
  {
    var positions := MatchingSelectsIn(c, conditions, c.records);
    var rows := Matching(c, conditions);
    forall r | r in c.records && SatisfiesAll(c, conditions, r) ensures r in rows {
      var i :| 0 <= i < |c.records| && c.records[i] == r;
      assert i in positions;
      var k :| 0 <= k < |positions| && positions[k] == i;
      assert rows[k] == r;
    }
  }

  /** What the connectives do to the rows, whatever the child: several conditions intersect, and so does And; Or
      unites, Not leaves the rest, constants give all or nothing, a test what the child says. */
  lemma ConditionsCombine(c: Child, conditions: seq<Ast>, a: Ast, b: Ast, atom: Atom, r: Record)
    ensures r in Matching(c, conditions) <==>
            r in c.records && forall ast :: ast in conditions ==> r in Matching(c, [ast])
    ensures r in Matching(c, [And(a, b)]) <==> r in Matching(c, [a]) && r in Matching(c, [b])
    ensures r in Matching(c, [Or(a, b)]) <==> r in Matching(c, [a]) || r in Matching(c, [b])
    ensures r in Matching(c, [Not(a)]) <==> r in c.records && r !in Matching(c, [a])
    ensures r in Matching(c, [Constant(true)]) <==> r in c.records
    ensures r !in Matching(c, [Constant(false)])
    ensures r in Matching(c, [Predicate(atom)]) <==> r in c.records && c.atom(atom, r)
  {
    forall ast ensures r in Matching(c, [ast]) <==> r in c.records && Satisfies(c, ast, r) {
      MatchingSelects(c, [ast]);
      assert ast in [ast];
      assert SatisfiesAll(c, [ast], r) <==> Satisfies(c, ast, r);
    }
    MatchingSelects(c, conditions);
  }

  // ------------------------------------------------------------ one child row

  function ChildOutputs(outputs: seq<Output>): seq<Output> {
    if outputs == [] then []
    else
      var last := outputs[|outputs| - 1];
      ChildOutputs(outputs[..|outputs| - 1]) + (if last.OriginOutput? then [] else [last])
  }

  function ChildValues(c: Child, outputs: seq<Output>, r: Record): seq<Value> {
    seq(|outputs|, i requires 0 <= i < |outputs| => c.project(outputs[i], r))
  }

  lemma {:induction false} ChildOutputsGrow(outputs: seq<Output>, i: nat)
    requires i <= |outputs|
    ensures ChildOutputs(outputs[..i]) <= ChildOutputs(outputs)
    decreases |outputs|
  {
    if i < |outputs| {
      assert outputs[..|outputs| - 1][..i] == outputs[..i];
      ChildOutputsGrow(outputs[..|outputs| - 1], i);
    } else {
      assert outputs[..i] == outputs;
    }
  }

  /** Interleaves the child's values with the source name, in output order. */
  method AssembleRow(c: Child, outputs: seq<Output>, r: Record, childValues: seq<Value>) returns (values: seq<Value>)
    requires childValues == ChildValues(c, ChildOutputs(outputs), r)
    ensures values == ResultRow(c, outputs, r)
  {
    values := [];
    var childIndex := 0;
    var i := 0;
    while i < |outputs|
      invariant 0 <= i <= |outputs| && |values| == i && childIndex == |ChildOutputs(outputs[..i])|
      invariant forall j :: 0 <= j < i ==> values[j] == ResultRow(c, outputs, r)[j]
    {
      ChildOutputsGrow(outputs, i + 1);
      assert outputs[..i + 1][..i] == outputs[..i];
      if outputs[i].OriginOutput? {
        values := values + [c.name];
      } else {
        assert ChildOutputs(outputs)[childIndex] == outputs[i];
        values := values + [childValues[childIndex]];
        childIndex := childIndex + 1;
      }
      i := i + 1;
    }
  }

  // ------------------------------------------------------------- execution

  class CountCache {
    var total: Option<nat>

    constructor ()
      ensures total == None
    {
      total := None;
    }
  }

  datatype Plan = Plan(children: seq<Child>, conditions: seq<Ast>, outputs: seq<Output>,
                       offset: nat, limit: Option<nat>, cache: CountCache)

  function EffectiveLimit(limit: Option<nat>, maximum: Option<nat>): Option<nat> {
    if maximum.None? then limit else if limit.None? then maximum else Some(Min(limit.value, maximum.value))
  }

  /** The rows a plan yields, at most `maximum` of them. */
  function PlanRows(plan: Plan, maximum: Option<nat>): seq<seq<Value>> {
    Page(Union(plan.children, plan.conditions, plan.outputs), plan.offset, EffectiveLimit(plan.limit, maximum))
  }

  /** The child that makes the run fail: the first broken one, unless the page is full before it. */
  function Failure(plan: Plan, maximum: Option<nat>): Option<string> {
    var n := Working(plan.children);
    var limit := EffectiveLimit(plan.limit, maximum);
    var reached := |Union(plan.children, plan.conditions, plan.outputs)|;
    if n == |plan.children| || limit == Some(0) || (limit.Some? && reached >= plan.offset + limit.value) then None
    else Some(plan.children[n].name)
  }

  /** Yields one child's rows after `before`, skipping up to the offset and stopping when the page is full. */
  method YieldChild(plan: Plan, limit: Option<nat>, c: Child, rows: seq<Record>, ghost before: seq<seq<Value>>,
                    skippedBefore: nat, outBefore: seq<seq<Value>>)
    returns (skipped: nat, out: seq<seq<Value>>)
    requires skippedBefore == Min(plan.offset, |before|) && outBefore == Page(before, plan.offset, limit)
    requires limit.Some? ==> |outBefore| < limit.value
    ensures out == Page(before + ResultRows(c, plan.outputs, rows), plan.offset, limit)
    ensures limit.None? || |out| < limit.value ==> skipped == Min(plan.offset, |before| + |rows|)
  {
    skipped, out := skippedBefore, outBefore;
    ghost var all := ResultRows(c, plan.outputs, rows);
    assert before + all[..0] == before;
    var j := 0;
    while j < |rows|
      invariant 0 <= j <= |rows|
      invariant skipped == Min(plan.offset, |before| + j)
      invariant out == Page(before + all[..j], plan.offset, limit)
      invariant limit.Some? ==> |out| < limit.value
    {
      var values := AssembleRow(c, plan.outputs, rows[j], ChildValues(c, ChildOutputs(plan.outputs), rows[j]));
      CutAt(before, all, j);
      PageExtends(before + all[..j], values, plan.offset, limit);
      j := j + 1;
      if skipped < plan.offset {
        skipped := skipped + 1;
      } else {
        out := out + [values];
        if limit.Some? && |out| >= limit.value {
          CutAt(before, all, j - 1);
          FullPageIsStable(before + all[..j], all[j..], plan.offset, limit.value);
          return;
        }
      }
    }
    assert all[..j] == all;
  }

  /** Searches the i-th child, with the limit pushed down, and yields its rows. */
  method RunChild(plan: Plan, limit: Option<nat>, childLimit: Option<nat>, i: nat,
                  skippedBefore: nat, outBefore: seq<seq<Value>>)
    returns (skipped: nat, out: seq<seq<Value>>)
    requires i < |plan.children| && childLimit == if limit.None? then None else Some(plan.offset + limit.value)
    requires outBefore == Page(Concat(CutResults(plan, limit)[..i]), plan.offset, limit)
    requires skippedBefore == Min(plan.offset, |Concat(CutResults(plan, limit)[..i])|)
    requires limit.Some? ==> |outBefore| < limit.value
    ensures out == Page(Concat(CutResults(plan, limit)[..i + 1]), plan.offset, limit)
    ensures limit.None? || |out| < limit.value ==>
              skipped == Min(plan.offset, |Concat(CutResults(plan, limit)[..i + 1])|)
  {
    var c := plan.children[i];
    var rows := Matching(c, plan.conditions);
    if childLimit.Some? {
      rows := Take(rows, childLimit.value);
    }
    ghost var cut := CutResults(plan, limit);
    assert ResultRows(c, plan.outputs, rows) == cut[i];
    ConcatStep(cut, i);
    skipped, out := YieldChild(plan, limit, c, rows, Concat(cut[..i]), skippedBefore, outBefore);
  }

  /** Runs the children in order, each cut at offset plus limit, skipping and counting globally. */
  method ExecutePlan(plan: Plan, maximum: Option<nat>) returns (out: seq<seq<Value>>, failed: Option<string>)
    ensures out == PlanRows(plan, maximum)
    ensures failed == Failure(plan, maximum)
  {
    var limit := EffectiveLimit(plan.limit, maximum);
    out := [];
    if limit == Some(0) {
      return [], None;
    }
    var childLimit: Option<nat> := if limit.None? then None else Some(plan.offset + limit.value);
    ghost var cut := CutResults(plan, limit);
    var skipped := 0;
    var i := 0;
    while i < |plan.children|
      invariant 0 <= i <= Working(plan.children)
      invariant out == Page(Concat(cut[..i]), plan.offset, limit)
      invariant limit.None? || |out| < limit.value ==> skipped == Min(plan.offset, |Concat(cut[..i])|)
    {
      if limit.Some? && |out| >= limit.value {
        StopsFull(plan, maximum, i);
        return out, None;
      }
      var c := plan.children[i];
      if !c.works {
        StopsAtBroken(plan, maximum, i);
        return out, Some(c.name);
      }
      skipped, out := RunChild(plan, limit, childLimit, i, skipped, out);
      i := i + 1;
    }
    StopsAtEnd(plan, maximum);
    failed := None;
  }

  /** What the children deliver when each is cut at offset plus limit. */
  function CutResults(plan: Plan, limit: Option<nat>): seq<seq<seq<Value>>> {
    var parts := Results(plan.children, plan.conditions, plan.outputs);
    if limit.None? then parts else TakeEach(parts, plan.offset + limit.value)
  }

  lemma ConcatStep<T>(parts: seq<seq<T>>, i: nat)
    requires i < |parts|
    ensures Concat(parts[..i + 1]) == Concat(parts[..i]) + parts[i]
  {
    assert parts[..i + 1][..i] == parts[..i];
  }

  /** A run fails exactly when a source is broken and the page is not full without it and the later ones. */
  lemma FailsForWantOfRows(plan: Plan, maximum: Option<nat>)
    ensures Failure(plan, maximum).None?
       <==> || (forall i :: 0 <= i < |plan.children| ==> plan.children[i].works)
            || (EffectiveLimit(plan.limit, maximum).Some?
                && |PlanRows(plan, maximum)| == EffectiveLimit(plan.limit, maximum).value)
  {
    if EffectiveLimit(plan.limit, maximum).Some? {
      FullPage(Union(plan.children, plan.conditions, plan.outputs), plan.offset,
               EffectiveLimit(plan.limit, maximum).value);
    }
  }

  lemma FullPage<T>(rows: seq<T>, offset: nat, limit: nat)
    ensures |Page(rows, offset, Some(limit))| == limit <==> limit == 0 || |rows| >= offset + limit
  {
  }

  lemma StopsFull(plan: Plan, maximum: Option<nat>, i: nat)
    requires i <= Working(plan.children) && EffectiveLimit(plan.limit, maximum).Some?
    requires var limit := EffectiveLimit(plan.limit, maximum);
             |Page(Concat(CutResults(plan, limit)[..i]), plan.offset, limit)| >= limit.value > 0
    ensures var limit := EffectiveLimit(plan.limit, maximum);
            Page(Concat(CutResults(plan, limit)[..i]), plan.offset, limit) == PlanRows(plan, maximum)
    ensures Failure(plan, maximum) == None
  {
    var limit := EffectiveLimit(plan.limit, maximum);
    var parts := Results(plan.children, plan.conditions, plan.outputs);
    PageIsFull(parts, CutResults(plan, limit), i, Working(plan.children), plan.offset, limit.value);
  }

  lemma StopsAtBroken(plan: Plan, maximum: Option<nat>, i: nat)
    requires i == Working(plan.children) < |plan.children|
    requires var limit := EffectiveLimit(plan.limit, maximum);
             limit.Some? ==> |Page(Concat(CutResults(plan, limit)[..i]), plan.offset, limit)| < limit.value
    ensures var limit := EffectiveLimit(plan.limit, maximum);
            Page(Concat(CutResults(plan, limit)[..i]), plan.offset, limit) == PlanRows(plan, maximum)
    ensures Failure(plan, maximum) == Some(plan.children[i].name)
  {
    var limit := EffectiveLimit(plan.limit, maximum);
    PageSoFar(Results(plan.children, plan.conditions, plan.outputs), CutResults(plan, limit), i, plan.offset, limit);
    FailsForWantOfRows(plan, maximum);
  }

  lemma StopsAtEnd(plan: Plan, maximum: Option<nat>)
    requires Working(plan.children) == |plan.children|
    ensures var limit := EffectiveLimit(plan.limit, maximum);
            Page(Concat(CutResults(plan, limit)[..|plan.children|]), plan.offset, limit) == PlanRows(plan, maximum)
    ensures Failure(plan, maximum) == None
  {
    var limit := EffectiveLimit(plan.limit, maximum);
    PageSoFar(Results(plan.children, plan.conditions, plan.outputs), CutResults(plan, limit), |plan.children|,
              plan.offset, limit);
  }

  /** The page of the cut parts is the page of the parts. */
  lemma PageSoFar<T>(parts: seq<seq<T>>, cut: seq<seq<T>>, i: nat, offset: nat, limit: Option<nat>)
    requires i <= |parts|
    requires cut == if limit.None? then parts else TakeEach(parts, offset + limit.value)
    ensures Page(Concat(cut[..i]), offset, limit) == Page(Concat(parts[..i]), offset, limit)
  {
    if limit.Some? {
      assert cut[..i] == TakeEach(parts[..i], offset + limit.value);
      PushdownIsExact(parts[..i], offset, limit.value);
    }
  }

  /** Once the page is full, later parts do not matter. */
  lemma PageIsFull<T>(parts: seq<seq<T>>, cut: seq<seq<T>>, i: nat, n: nat, offset: nat, limit: nat)
    requires i <= n <= |parts| && cut == TakeEach(parts, offset + limit)
    requires |Page(Concat(cut[..i]), offset, Some(limit))| >= limit > 0
    ensures Page(Concat(cut[..i]), offset, Some(limit)) == Page(Concat(parts[..n]), offset, Some(limit))
    ensures |Concat(parts[..n])| >= offset + limit
  {
    PageSoFar(parts, cut, i, offset, Some(limit));
    ConcatSplits(parts, i, n);
    FullPageIsStable(Concat(parts[..i]), Concat(parts[i..n]), offset, limit);
  }

  lemma {:induction false} ConcatSplits<T>(parts: seq<seq<T>>, i: nat, n: nat)
    requires i <= n <= |parts|
    ensures Concat(parts[..n]) == Concat(parts[..i]) + Concat(parts[i..n])
  {
    if i < n {
      ConcatSplits(parts, i, n - 1);
      assert parts[..n][..n - 1] == parts[..n - 1] && parts[i..n][..n - i - 1] == parts[i..n - 1];
    }
  }

  // -------------------------------------------------------------- what is run

  /** A row of the i-th source: one of its records that satisfies every condition, with the source's name in the
      origin columns and the record's values in the others. */
  ghost predicate IsSourceRow(plan: Plan, i: nat, r: Record, row: seq<Value>) {
    && i < |plan.children| && r in plan.children[i].records && SatisfiesAll(plan.children[i], plan.conditions, r)
    && |row| == |plan.outputs|
    && forall j :: 0 <= j < |row| ==>
         row[j] == if plan.outputs[j].OriginOutput? then plan.children[i].name
                   else plan.children[i].project(plan.outputs[j], r)
  }

  lemma ResultRowsAreSourceRows(plan: Plan, i: nat, row: seq<Value>)
    requires i < |plan.children|
    ensures row in ResultRows(plan.children[i], plan.outputs, Matching(plan.children[i], plan.conditions))
       <==> exists r :: IsSourceRow(plan, i, r, row)
  {
    var c := plan.children[i];
    var records := Matching(c, plan.conditions);
    MatchingSelects(c, plan.conditions);
    if row in ResultRows(c, plan.outputs, records) {
      var k :| 0 <= k < |records| && row == ResultRow(c, plan.outputs, records[k]);
      assert IsSourceRow(plan, i, records[k], row);
    }
    if r :| IsSourceRow(plan, i, r, row) {
      var k :| 0 <= k < |records| && records[k] == r;
      assert row == ResultRow(c, plan.outputs, r) == ResultRows(c, plan.outputs, records)[k];
    }
  }

  lemma {:induction false} ConcatHolds<T>(parts: seq<seq<T>>, x: T)
    ensures x in Concat(parts) <==> exists i :: 0 <= i < |parts| && x in parts[i]
  {
    if parts != [] {
      var n := |parts| - 1;
      ConcatHolds(parts[..n], x);
      if i :| 0 <= i < |parts| && x in parts[i] {
        assert i < n ==> parts[..n][i] == parts[i];
      }
    }
  }

  /** Without paging, and with every source working, a run yields exactly the rows of the sources. */
  lemma RunYieldsSourceRows(plan: Plan, row: seq<Value>)
    requires plan.offset == 0 && plan.limit.None? && Working(plan.children) == |plan.children|
    ensures row in PlanRows(plan, None) <==> exists i: nat, r :: IsSourceRow(plan, i, r, row)
  {
    var parts := Results(plan.children, plan.conditions, plan.outputs);
    assert parts[..|parts|] == parts && PlanRows(plan, None) == Concat(parts);
    ConcatHolds(parts, row);
    if i :| 0 <= i < |parts| && row in parts[i] {
      ResultRowsAreSourceRows(plan, i, row);
    }
    if i: nat, r :| IsSourceRow(plan, i, r, row) {
      ResultRowsAreSourceRows(plan, i, row);
      assert row in parts[i];
    }
  }

  /** Asking for at most so many rows yields the first so many. */
  lemma MaximumCuts(plan: Plan, maximum: nat)
    ensures PlanRows(plan, Some(maximum)) == Take(PlanRows(plan, None), maximum)
  {
  }

  // ---------------------------------------------------------------- counting

  /** Every row of every child. */
  function Total(plan: Plan): nat {
    |Concat(Results(plan.children, plan.conditions, plan.outputs))|
  }

  /** A cached total is the exact one. */
  ghost predicate CacheOk(plan: Plan)
    reads plan.cache
  {
    plan.cache.total.Some? ==> plan.cache.total.value == Total(plan)
  }

  /** Adds up the children's counts; a failing child leaves the cache empty. */
  method CountPlan(plan: Plan) returns (r: Result<nat, string>)
    requires CacheOk(plan)
    modifies plan.cache
    ensures CacheOk(plan)
    ensures r.Ok? ==> r.value == Total(plan) && plan.cache.total == Some(r.value)
    ensures r.Err? <==> old(plan.cache.total.None?) && Working(plan.children) < |plan.children|
    ensures r.Err? ==> plan.cache.total == None && r.error == plan.children[Working(plan.children)].name
  {
    if plan.cache.total.Some? {
      return Ok(plan.cache.total.value);
    }
    ghost var parts := Results(plan.children, plan.conditions, plan.outputs);
    var total := 0;
    var i := 0;
    while i < |plan.children|
      invariant 0 <= i <= Working(plan.children) && total == |Concat(parts[..i])|
      invariant plan.cache.total == None
    {
      if !plan.children[i].works {
        return Err(plan.children[i].name);
      }
      assert parts[..i + 1][..i] == parts[..i];
      total := total + |Matching(plan.children[i], plan.conditions)|;
      i := i + 1;
    }
    assert parts[..i] == parts;
    plan.cache.total := Some(total);
    r := Ok(total);
  }

  datatype SliceError = UnsupportedStep | NegativeBound

  // --------------------------------------------------------------- result sets

  /** `result[start:stop:step]`: a new plan that shares the count cache. */
  function GetItem(plan: Plan, start: Option<int>, stop: Option<int>, step: Option<int>): Result<Plan, SliceError> {
    if step.Some? && step.value != 1 then Err(UnsupportedStep)
    else if (start.Some? && start.value < 0) || (stop.Some? && stop.value < 0) then Err(NegativeBound)
    else
      var from: nat := if start.None? then 0 else start.value;
      var to: Option<nat> := if stop.None? then None else Some(stop.value);
      var (offset, limit) := Narrow(plan.offset, plan.limit, from, to);
      Ok(plan.(offset := offset, limit := limit))
  }

  /** Slicing a result set and iterating is iterating and slicing the list. */
  lemma GetItemIsListSlice(plan: Plan, start: nat, stop: Option<nat>)
    ensures var to: Option<int> := if stop.None? then None else Some(stop.value);
            var r := GetItem(plan, Some(start), to, None);
            && r.Ok? && r.value.cache == plan.cache && Total(r.value) == Total(plan)
            && PlanRows(r.value, None) == ListSlice(PlanRows(plan, None), start, stop)
  {
    NarrowIsListSlice(Union(plan.children, plan.conditions, plan.outputs), plan.offset, plan.limit, start, stop);
  }

  /** A slice is taken exactly for a unit step and nonnegative bounds; no start is a start at the first row. */
  lemma GetItemIsExact(plan: Plan, start: Option<int>, stop: Option<int>, step: Option<int>)
    ensures GetItem(plan, start, stop, step).Ok? <==>
            (step.None? || step.value == 1) && (start.None? || start.value >= 0) && (stop.None? || stop.value >= 0)
    ensures GetItem(plan, start, stop, step) == Err(UnsupportedStep) <==> step.Some? && step.value != 1
    ensures GetItem(plan, start, stop, step).Ok? ==>
              GetItem(plan, start, stop, step)
              == GetItem(plan, Some(if start.None? then 0 else start.value), stop, None)
  {
  }

  /** The reported length of a result set is the number of rows it yields. */
  method Length(plan: Plan) returns (r: Result<nat, string>)
    requires CacheOk(plan)
    modifies plan.cache
    ensures CacheOk(plan)
    ensures r.Ok? && Working(plan.children) == |plan.children| ==> r.value == |PlanRows(plan, None)|
    ensures r.Ok? ==> r.value == PageLength(Total(plan), plan.offset, plan.limit)
    ensures r.Err? <==>
      Working(plan.children) < |plan.children| && plan.limit != Some(0) && old(plan.cache.total.None?)
  {
    ghost var parts := Results(plan.children, plan.conditions, plan.outputs);
    assert parts[..|parts|] == parts;
    PageHasPageLength(Concat(parts), plan.offset, plan.limit);
    if plan.limit == Some(0) {
      return Ok(0);
    }
    var total := CountPlan(plan);
    if total.Err? {
      return total;
    }
    var available := Max(total.value - plan.offset, 0);
    r := Ok(if plan.limit.None? then available else Min(available, plan.limit.value));
  }

  /** The first row: at most one row is asked of the children. */
  method First(plan: Plan) returns (row: Option<seq<Value>>, failed: Option<string>)
    ensures failed.None? ==>
      row == if PlanRows(plan, None) == [] then None else Some(PlanRows(plan, None)[0])
    ensures failed == Failure(plan, Some(1))
  {
    var out;
    out, failed := ExecutePlan(plan, Some(1));
    var rows := Union(plan.children, plan.conditions, plan.outputs);
    row := if out == [] then None else Some(out[0]);
  }

  datatype OneError = NoResult | MultipleResults

  /** The only row, telling none and several apart. */
  method One(plan: Plan) returns (r: Result<seq<Value>, OneError>, failed: Option<string>)
    ensures failed.None? ==>
      r == match |PlanRows(plan, None)|
           case 0 => Err(NoResult)
           case 1 => Ok(PlanRows(plan, None)[0])
           case _ => Err(MultipleResults)
    ensures failed == Failure(plan, Some(2))
  {
    var out;
    out, failed := ExecutePlan(plan, Some(2));
    r := if |out| == 0 then Err(NoResult) else if |out| > 1 then Err(MultipleResults) else Ok(out[0]);
  }

  // ----------------------------------------------------------------- searcher

  class Searcher {
    const children: seq<Child>
    var conditions: seq<Ast>
    var cache: CountCache
    var limit: Option<nat>
    var offset: nat

    constructor (children: seq<Child>)
      ensures this.children == children && conditions == [] && fresh(cache) && cache.total == None
      ensures limit == None && offset == 0
    {
      this.children := children;
      conditions, limit, offset := [], None, 0;
      cache := new CountCache();
    }

    function MakePlan(outputs: seq<Output>): Plan
      reads this
    {
      Plan(children, conditions, outputs, offset, limit, cache)
    }

    /** The shared cache counts exactly what a plan made now would yield. */
    ghost predicate Valid()
      reads this, cache
    {
      CacheOk(MakePlan([]))
    }

    /** What is searched for by now: the page of everything that satisfies all conditions added so far. */
    method Search(outputs: seq<Output>) returns (out: seq<seq<Value>>, failed: Option<string>)
      ensures out == Page(Union(children, conditions, outputs), offset, limit)
      ensures failed.None? <== Working(children) == |children|
    {
      out, failed := ExecutePlan(MakePlan(outputs), None);
    }

    method Count() returns (r: Result<nat, string>)
      requires Valid()
      modifies cache
      ensures Valid() && (r.Ok? ==> r.value == |Concat(Results(children, conditions, []))|)
      ensures r.Err? <==> old(cache.total.None?) && Working(children) < |children|
    {
      r := CountPlan(MakePlan([]));
    }

    /** Adding a condition starts a fresh count; plans made before keep theirs. */
    method Add(condition: Ast)
      requires Valid()
      modifies this
      ensures Valid() && fresh(cache)
      ensures conditions == old(conditions) + [condition] && limit == old(limit) && offset == old(offset)
      ensures unchanged(old(cache))
    {
      conditions := conditions + [condition];
      cache := new CountCache();
    }

    method SetLimit(n: int)
      requires Valid()
      modifies this`limit
      ensures Valid() && limit == if n < 0 then None else Some(n)
    {
      limit := if n < 0 then None else Some(n);
    }

    method AddOffset(n: int) returns (ok: bool)
      requires Valid()
      modifies this`offset
      ensures Valid() && ok == (n >= 0) && offset == old(offset) + (if ok then n else 0)
    {
      ok := n >= 0;
      if ok {
        offset := offset + n;
      }
    }
  }

  /** The count does not depend on the projection, so one cache serves all plans of a searcher. */
  lemma TotalIgnoresOutputs(plan: Plan, outputs: seq<Output>)
    ensures Total(plan) == Total(plan.(outputs := outputs))
  {
    SameLengths(Results(plan.children, plan.conditions, plan.outputs),
                Results(plan.children, plan.conditions, outputs));
  }

  lemma {:induction false} SameLengths<T>(a: seq<seq<T>>, b: seq<seq<T>>)
    requires |a| == |b| && forall i :: 0 <= i < |a| ==> |a[i]| == |b[i]|
    ensures |Concat(a)| == |Concat(b)|
  {
    if a != [] {
      SameLengths(a[..|a| - 1], b[..|b| - 1]);
    }
  }
}
