/**
 The three-valued evaluator of stored-property predicates over hydrated records. An absent field is
 None; a comparison with a missing value is UNKNOWN.
 */
module Evaluator {
  import opened Common

  /** A scalar; `Other` stands for values that only support equality. */
  datatype Atom = Number(r: real) | Text(s: string) | Other(n: nat)

  datatype Object = Leaf(atom: Atom) | Record(fields: map<string, Slot>)

  datatype Slot = One(target: Object) | Many(items: seq<Object>)

  datatype Truth = True | False | Unknown

  function Truly(b: bool): Truth { if b then True else False }

  datatype CompareOp = Eq | Ne | Lt | Le | Gt | Ge | Contains | Starts | Ends

  datatype Scope =
    | Root(id: nat)
    | Via(id: nat, parent: Scope, field: string, isReference: bool, filter: Option<Predicate>, scalarChild: bool)

  datatype StoreValue = StoreTimestamp | LogicalId | AltKind

  datatype Value =
    | Constant(atom: Atom)
    | NullLiteral
    | FromStore(kind: StoreValue)
    | AlternativeId(scope: Scope, field: string, prefix: string)
    | Present(scope: Scope, field: string)
    | CountOf(scope: Scope)
    | FieldOf(scope: Scope, field: string, codec: Option<nat>)

  datatype Predicate =
    | Fixed(truth: Truth)
    | Compare(left: Value, op: CompareOp, right: Value)
    | IsNull(value: Value)
    | Exists(scope: Scope, nested: Predicate)
    | And(first: Predicate, second: Predicate)
    | Or(first: Predicate, second: Predicate)
    | Not(operand: Predicate)
    | WhenKnown(known: Predicate, body: Predicate)
    | Scaled(a: Value, b: Value, c: Value, d: Value)

  type Environment = map<nat, Object>

  /** The store's own values for the candidate, when it has them, and the value functions of other
      packages: exact codec keys, rational reading, text rendering, text search. */
  datatype Context = Context(
    stored: map<StoreValue, Atom>, exactKey: (nat, Atom) -> Atom, fraction: Atom -> Option<real>,
    render: Atom -> string, textLess: (string, string) -> bool, textMatch: (CompareOp, string, string) -> bool)

  // -------------------------------------------------------------- evaluation

  function Both(a: Truth, b: Truth): Truth {
    if a == False || b == False then False else if a == Unknown || b == Unknown then Unknown else True
  }

  function Either(a: Truth, b: Truth): Truth {
    if a == True || b == True then True else if a == Unknown || b == Unknown then Unknown else False
  }

  function Negate(a: Truth): Truth {
    match a case True => False case False => True case Unknown => Unknown
  }

  function AsAtom(o: Object): Atom {
    if o.Leaf? then o.atom else Other(0)
  }

  /** `getattr(object, field, None)` read as a scalar; a nested record or list is opaque. */
  function Attribute(o: Object, field: string): Option<Atom> {
    if o.Record? && field in o.fields then
      Some(if o.fields[field].One? then AsAtom(o.fields[field].target) else Other(0))
    else None
  }

  function Less(ctx: Context, a: Atom, b: Atom): Truth {
    match (a, b)
    case (Number(x), Number(y)) => Truly(x < y)
    case (Text(s), Text(t)) => Truly(ctx.textLess(s, t))
    case _ => Unknown
  }

  function CodecOf(v: Value): Option<nat> {
    if v.FieldOf? then v.codec else None
  }

  /** Equality of exact keys: the left operand's codec decides, then the right one's. */
  predicate SameKey(ctx: Context, left: Value, a: Atom, right: Value, b: Atom) {
    var codec := if CodecOf(left).Some? then CodecOf(left) else CodecOf(right);
    if codec.None? then a == b else ctx.exactKey(codec.value, a) == ctx.exactKey(codec.value, b)
  }

  function Compared(ctx: Context, left: Value, a: Option<Atom>, op: CompareOp, right: Value, b: Option<Atom>): Truth {
    if (op == Eq || op == Ne) && (left.NullLiteral? || right.NullLiteral?) then
      var isNull := (if left.NullLiteral? then b else a).None?;
      Truly(if op == Eq then isNull else !isNull)
    else if a.None? || b.None? then Unknown
    else match op
      case Eq => Truly(SameKey(ctx, left, a.value, right, b.value))
      case Ne => Truly(!SameKey(ctx, left, a.value, right, b.value))
      case Lt => Less(ctx, a.value, b.value)
      case Gt => Less(ctx, b.value, a.value)
      case Le => if a.value == b.value && !a.value.Other? then True else Less(ctx, a.value, b.value)
      case Ge => if a.value == b.value && !a.value.Other? then True else Less(ctx, b.value, a.value)
      case _ =>
        if a.value.Text? && b.value.Text? then Truly(ctx.textMatch(op, a.value.s, b.value.s)) else Unknown
  }

  function EvalPredicate(p: Predicate, env: Environment, ctx: Context): Truth
    decreases p, 0
  {
    match p
    case Fixed(truth) => truth
    case Compare(left, op, right) =>
      Compared(ctx, left, EvalValue(left, env, ctx), op, right, EvalValue(right, env, ctx))
    case IsNull(v) => Truly(EvalValue(v, env, ctx).None?)
    case Exists(scope, nested) =>
      var items := Items(scope, env, ctx);
      Truly(exists i :: 0 <= i < |items| && EvalPredicate(nested, env[scope.id := items[i]], ctx) == True)
    case And(l, r) => Both(EvalPredicate(l, env, ctx), EvalPredicate(r, env, ctx))
    case Or(l, r) => Either(EvalPredicate(l, env, ctx), EvalPredicate(r, env, ctx))
    case Not(x) => Negate(EvalPredicate(x, env, ctx))
    case WhenKnown(known, body) =>
      if EvalPredicate(known, env, ctx) == True then EvalPredicate(body, env, ctx) else Unknown
    case Scaled(a, b, c, d) =>
      ScaledEqual(ctx, EvalValue(a, env, ctx), EvalValue(b, env, ctx), EvalValue(c, env, ctx), EvalValue(d, env, ctx))
  }

  function ScaledEqual(ctx: Context, a: Option<Atom>, b: Option<Atom>, c: Option<Atom>, d: Option<Atom>): Truth {
    if a.None? || b.None? || c.None? || d.None? then Unknown
    else
      var x, y, z, w := ctx.fraction(a.value), ctx.fraction(b.value), ctx.fraction(c.value), ctx.fraction(d.value);
      if x.None? || y.None? || z.None? || w.None? then Unknown else Truly(x.value * y.value == z.value * w.value)
  }

  /** What one parent contributes to a scope. */
  function Reached(o: Object, field: string, isReference: bool): seq<Object> {
    if !o.Record? || field !in o.fields then []
    else match o.fields[field]
      case One(target) => [target]
      case Many(items) => if isReference then [Leaf(Other(0))] else items
  }

  function ReachedFrom(parents: seq<Object>, field: string, isReference: bool): seq<Object> {
    if parents == [] then []
    else ReachedFrom(parents[..|parents| - 1], field, isReference) + Reached(parents[|parents| - 1], field, isReference)
  }

  /** The objects a scope ranges over: its binding, or what its relationship leads to and its filter keeps. */
  function Items(scope: Scope, env: Environment, ctx: Context): seq<Object>
    decreases scope
  {
    if scope.id in env then [env[scope.id]]
    else match scope
      case Root(_) => []
      case Via(id, parent, field, isReference, filter, _) =>
        var values := ReachedFrom(Items(parent, env, ctx), field, isReference);
        if filter.None? then values else Kept(filter.value, id, values, env, ctx)
  }

  function Kept(filter: Predicate, id: nat, values: seq<Object>, env: Environment, ctx: Context): seq<Object>
    decreases filter, 1 + |values|
  {
    if values == [] then []
    else
      var last := values[|values| - 1];
      Kept(filter, id, values[..|values| - 1], env, ctx) +
      (if EvalPredicate(filter, env[id := last], ctx) == True then [last] else [])
  }

  function EvalValue(v: Value, env: Environment, ctx: Context): Option<Atom>
    decreases v
  {
    match v
    case Constant(a) => Some(a)
    case NullLiteral => None
    case FromStore(kind) => if kind in ctx.stored then Some(ctx.stored[kind]) else None
    case AlternativeId(scope, field, prefix) =>
      var items := Items(scope, env, ctx);
      if |items| != 1 then None
      else
        var id := Attribute(items[0], field);
        if id.None? || AltKind !in ctx.stored then None
        else Some(Text(prefix + ctx.render(id.value) + "~" + ctx.render(ctx.stored[AltKind])))
    case Present(scope, field) =>
      var items := Items(scope, env, ctx);
      Some(Number(if |items| == 1 && Attribute(items[0], field).Some? then 1.0 else 0.0))
    case CountOf(scope) => Some(Number(|Items(scope, env, ctx)| as real))
    case FieldOf(scope, field, _) =>
      var items := Items(scope, env, ctx);
      if |items| != 1 then None
      else if scope.Via? && scope.scalarChild then Some(AsAtom(items[0]))
      else Attribute(items[0], field)
  }

  lemma ReachedStep(parents: seq<Object>, i: nat, field: string, isReference: bool)
    requires i < |parents|
    ensures ReachedFrom(parents[..i + 1], field, isReference)
         == ReachedFrom(parents[..i], field, isReference) + Reached(parents[i], field, isReference)
  {
    assert parents[..i + 1][..i] == parents[..i];
  }

  lemma KeptStep(filter: Predicate, id: nat, all: seq<Object>, i: nat, env: Environment, ctx: Context)
    requires i < |all|
    ensures Kept(filter, id, all[..i + 1], env, ctx)
         == Kept(filter, id, all[..i], env, ctx)
            + (if EvalPredicate(filter, env[id := all[i]], ctx) == True then [all[i]] else [])
  {
    assert all[..i + 1][..i] == all[..i];
  }

  /** The scope walk as it runs: gather from each parent, then filter. */
  method ScopeItems(scope: Scope, env: Environment, ctx: Context) returns (values: seq<Object>)
    ensures values == Items(scope, env, ctx)
    decreases scope
  {
    if scope.id in env {
      return [env[scope.id]];
    }
    match scope {
      case Root(_) =>
        values := [];
      case Via(id, parent, field, isReference, filter, _) =>
        var parents := ScopeItems(parent, env, ctx);
        values := [];
        var i := 0;
        while i < |parents|
          invariant 0 <= i <= |parents| && values == ReachedFrom(parents[..i], field, isReference)
        {
          ReachedStep(parents, i, field, isReference);
          values := values + Reached(parents[i], field, isReference);
          i := i + 1;
        }
        assert parents[..i] == parents;
        if filter.Some? {
          var all := values;
          values := [];
          i := 0;
          while i < |all|
            invariant 0 <= i <= |all| && values == Kept(filter.value, id, all[..i], env, ctx)
          {
            KeptStep(filter.value, id, all, i, env, ctx);
            if EvalPredicate(filter.value, env[id := all[i]], ctx) == True {
              values := values + [all[i]];
            }
            i := i + 1;
          }
          assert all[..i] == all;
        }
    }
  }

  // ----------------------------------------------------- more is known later

  /** `fuller` is `o` with some missing fields, at any depth, filled in. */
  predicate Fills(o: Object, fuller: Object)
    decreases o
  {
    match o
    case Leaf(_) => fuller == o
    case Record(fields) =>
      && fuller.Record?
      && forall f :: f in fields ==> f in fuller.fields && FillsSlot(fields[f], fuller.fields[f])
  }

  predicate FillsSlot(s: Slot, fuller: Slot)
    decreases s
  {
    match s
    case One(o) => fuller.One? && Fills(o, fuller.target)
    case Many(items) => fuller.Many? && |fuller.items| == |items|
                        && forall i :: 0 <= i < |items| ==> Fills(items[i], fuller.items[i])
  }

  predicate FillsEnvironment(env: Environment, fuller: Environment) {
    env.Keys == fuller.Keys && forall id :: id in env ==> Fills(env[id], fuller[id])
  }

  ghost predicate FillsContext(ctx: Context, fuller: Context) {
    && fuller == ctx.(stored := fuller.stored)
    && forall k :: k in ctx.stored ==> k in fuller.stored && fuller.stored[k] == ctx.stored[k]
  }

  /** The root, or references from it without filters. */
  predicate IsPlain(scope: Scope) {
    match scope
    case Root(_) => true
    case Via(_, parent, _, isReference, filter, scalarChild) =>
      isReference && filter.None? && !scalarChild && IsPlain(parent)
  }

  predicate IsStableValue(v: Value) {
    match v
    case Constant(_) => true
    case FromStore(_) => true
    case AlternativeId(scope, _, _) => IsPlain(scope)
    case FieldOf(scope, _, _) => IsPlain(scope)
    case _ => false
  }

  /** Comparisons of plain values and their combinations: no null test, count, presence or exists. */
  predicate IsStable(p: Predicate) {
    match p
    case Fixed(_) => true
    case Compare(left, _, right) => IsStableValue(left) && IsStableValue(right)
    case And(l, r) => IsStable(l) && IsStable(r)
    case Or(l, r) => IsStable(l) && IsStable(r)
    case Not(x) => IsStable(x)
    case WhenKnown(known, body) => IsStable(known) && IsStable(body)
    case Scaled(a, b, c, d) => IsStableValue(a) && IsStableValue(b) && IsStableValue(c) && IsStableValue(d)
    case _ => false
  }

  lemma FillsAttribute(o: Object, fuller: Object, field: string)
    requires Fills(o, fuller) && Attribute(o, field).Some?
    ensures Attribute(fuller, field) == Attribute(o, field)
  {
    assert FillsSlot(o.fields[field], fuller.fields[field]);
  }

  lemma ReachedFromOne(parents: seq<Object>, field: string, isReference: bool)
    requires |parents| == 1
    ensures ReachedFrom(parents, field, isReference) == Reached(parents[0], field, isReference)
  {
    assert parents[..0] == [];
  }

  /** A plain scope has at most one object, and filling in fields never takes it away. */
  lemma {:induction false} PlainItems(scope: Scope, env: Environment, fuller: Environment, ctx: Context, ctx': Context)
    requires IsPlain(scope) && FillsEnvironment(env, fuller)
    ensures |Items(scope, env, ctx)| <= 1
    ensures |Items(scope, env, ctx)| == 1 ==>
              |Items(scope, fuller, ctx')| == 1 && Fills(Items(scope, env, ctx)[0], Items(scope, fuller, ctx')[0])
    decreases scope
  {
    if scope.id !in env && scope.Via? {
      PlainItems(scope.parent, env, fuller, ctx, ctx');
      var parents, parents' := Items(scope.parent, env, ctx), Items(scope.parent, fuller, ctx');
      if |parents| == 1 {
        ReachedFromOne(parents, scope.field, true);
        ReachedFromOne(parents', scope.field, true);
        var o, o' := parents[0], parents'[0];
        if o.Record? && scope.field in o.fields {
          assert FillsSlot(o.fields[scope.field], o'.fields[scope.field]);
        }
      }
    }
  }

  lemma StableValueStays(v: Value, env: Environment, fuller: Environment, ctx: Context, ctx': Context)
    requires IsStableValue(v) && FillsEnvironment(env, fuller) && FillsContext(ctx, ctx')
    requires EvalValue(v, env, ctx).Some?
    ensures EvalValue(v, fuller, ctx') == EvalValue(v, env, ctx)
  {
    if v.FieldOf? || v.AlternativeId? {
      PlainItems(v.scope, env, fuller, ctx, ctx');
      FillsAttribute(Items(v.scope, env, ctx)[0], Items(v.scope, fuller, ctx')[0], v.field);
    }
  }

  lemma CompareStays(left: Value, op: CompareOp, right: Value, env: Environment, fuller: Environment,
                     ctx: Context, ctx': Context)
    requires IsStable(Compare(left, op, right)) && FillsEnvironment(env, fuller) && FillsContext(ctx, ctx')
    requires EvalPredicate(Compare(left, op, right), env, ctx) != Unknown
    ensures EvalPredicate(Compare(left, op, right), fuller, ctx') == EvalPredicate(Compare(left, op, right), env, ctx)
  {
    StableValueStays(left, env, fuller, ctx, ctx');
    StableValueStays(right, env, fuller, ctx, ctx');
  }

  lemma ScaledStays(a: Value, b: Value, c: Value, d: Value, env: Environment, fuller: Environment,
                    ctx: Context, ctx': Context)
    requires IsStable(Scaled(a, b, c, d)) && FillsEnvironment(env, fuller) && FillsContext(ctx, ctx')
    requires EvalPredicate(Scaled(a, b, c, d), env, ctx) != Unknown
    ensures EvalPredicate(Scaled(a, b, c, d), fuller, ctx') == EvalPredicate(Scaled(a, b, c, d), env, ctx)
  {
    StableValueStays(a, env, fuller, ctx, ctx');
    StableValueStays(b, env, fuller, ctx, ctx');
    StableValueStays(c, env, fuller, ctx, ctx');
    StableValueStays(d, env, fuller, ctx, ctx');
  }

  /** Evaluation is monotone in knowledge: a True or False result with some fields missing stays the
      same however those fields are filled in. */
  lemma {:induction false} DecidedStaysDecided(p: Predicate, env: Environment, fuller: Environment,
                                               ctx: Context, ctx': Context)
    requires IsStable(p) && FillsEnvironment(env, fuller) && FillsContext(ctx, ctx')
    requires EvalPredicate(p, env, ctx) != Unknown
    ensures EvalPredicate(p, fuller, ctx') == EvalPredicate(p, env, ctx)
    decreases p
  {
    match p
    case Fixed(_) =>
    case Compare(left, op, right) => CompareStays(left, op, right, env, fuller, ctx, ctx');
    case And(l, r) =>
      if EvalPredicate(l, env, ctx) != Unknown { DecidedStaysDecided(l, env, fuller, ctx, ctx'); }
      if EvalPredicate(r, env, ctx) != Unknown { DecidedStaysDecided(r, env, fuller, ctx, ctx'); }
    case Or(l, r) =>
      if EvalPredicate(l, env, ctx) != Unknown { DecidedStaysDecided(l, env, fuller, ctx, ctx'); }
      if EvalPredicate(r, env, ctx) != Unknown { DecidedStaysDecided(r, env, fuller, ctx, ctx'); }
    case Not(x) =>
      DecidedStaysDecided(x, env, fuller, ctx, ctx');
    case WhenKnown(known, body) =>
      DecidedStaysDecided(known, env, fuller, ctx, ctx');
      DecidedStaysDecided(body, env, fuller, ctx, ctx');
    case Scaled(a, b, c, d) => ScaledStays(a, b, c, d, env, fuller, ctx, ctx');
  }

  lemma NullTestsDecide(o: Object, value: Option<Atom>, ctx: Context)
    requires o == Record(if value.None? then map[] else map["x" := One(Leaf(value.value))])
    ensures var env, x := map[0 := o], FieldOf(Root(0), "x", None);
            && EvalPredicate(IsNull(x), env, ctx) == Truly(value.None?)
            && EvalPredicate(Compare(x, Eq, NullLiteral), env, ctx) == Truly(value.None?)
            && EvalPredicate(Compare(Present(Root(0), "x"), Eq, Constant(Number(1.0))), env, ctx) == Truly(value.Some?)
  {
    var env := map[0 := o];
    assert Items(Root(0), env, ctx) == [env[0]];
    assert EvalValue(FieldOf(Root(0), "x", None), env, ctx) == value;
  }

  /** The excluded forms do change their mind: a null test and a presence test decide on the absence
      of a field, and flip once it is filled in. */
  lemma NullTestsChangeTheirMind(ctx: Context)
    ensures var env, fuller := map[0 := Record(map[])], map[0 := Record(map["x" := One(Leaf(Number(1.0)))])];
            var x := FieldOf(Root(0), "x", None);
            var isNull, equalsNull := IsNull(x), Compare(x, Eq, NullLiteral);
            var isPresent := Compare(Present(Root(0), "x"), Eq, Constant(Number(1.0)));
            && FillsEnvironment(env, fuller)
            && EvalPredicate(isNull, env, ctx) == True && EvalPredicate(isNull, fuller, ctx) == False
            && EvalPredicate(equalsNull, env, ctx) == True && EvalPredicate(equalsNull, fuller, ctx) == False
            && EvalPredicate(isPresent, env, ctx) == False && EvalPredicate(isPresent, fuller, ctx) == True
  {
    NullTestsDecide(Record(map[]), None, ctx);
    NullTestsDecide(Record(map["x" := One(Leaf(Number(1.0)))]), Some(Number(1.0)), ctx);
  }
}
