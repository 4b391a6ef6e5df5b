/** What each stored-property test says, told from the objects and scalars it looks at. */
module EvaluatorLaws {
  import opened Common
  import opened Evaluator

  // -------------------------------------------------------------- connectives

  /** A conjunction is true when both parts are, false when one is, whatever the other; dually for a disjunction; a
      negation swaps true and false. */
  lemma ConnectivesDecide(l: Predicate, r: Predicate, env: Environment, ctx: Context)
    ensures EvalPredicate(And(l, r), env, ctx) == True
       <==> EvalPredicate(l, env, ctx) == True && EvalPredicate(r, env, ctx) == True
    ensures EvalPredicate(And(l, r), env, ctx) == False
       <==> EvalPredicate(l, env, ctx) == False || EvalPredicate(r, env, ctx) == False
    ensures EvalPredicate(Or(l, r), env, ctx) == True
       <==> EvalPredicate(l, env, ctx) == True || EvalPredicate(r, env, ctx) == True
    ensures EvalPredicate(Or(l, r), env, ctx) == False
       <==> EvalPredicate(l, env, ctx) == False && EvalPredicate(r, env, ctx) == False
    ensures EvalPredicate(Not(l), env, ctx) == True <==> EvalPredicate(l, env, ctx) == False
    ensures EvalPredicate(Not(l), env, ctx) == False <==> EvalPredicate(l, env, ctx) == True
  {
  }

  /** A test under a condition is the test where the condition is true and unknown elsewhere. */
  lemma ConditionDecides(known: Predicate, body: Predicate, env: Environment, ctx: Context)
    ensures EvalPredicate(WhenKnown(known, body), env, ctx) == True
       <==> EvalPredicate(known, env, ctx) == True && EvalPredicate(body, env, ctx) == True
    ensures EvalPredicate(WhenKnown(known, body), env, ctx) == False
       <==> EvalPredicate(known, env, ctx) == True && EvalPredicate(body, env, ctx) == False
  {
  }

  // -------------------------------------------------------------- comparisons

  /** The codec that decides equality: the left field's own, else the right one's. */
  predicate HasCodec(left: Value, right: Value, codec: nat) {
    || (left.FieldOf? && left.codec == Some(codec))
    || (!(left.FieldOf? && left.codec.Some?) && right.FieldOf? && right.codec == Some(codec))
  }

  ghost predicate SameValue(ctx: Context, left: Value, a: Atom, right: Value, b: Atom) {
    if codec :| HasCodec(left, right, codec) then ctx.exactKey(codec, a) == ctx.exactKey(codec, b) else a == b
  }

  predicate InOrder(ctx: Context, a: Atom, b: Atom) {
    (a.Number? && b.Number? && a.r < b.r) || (a.Text? && b.Text? && ctx.textLess(a.s, b.s))
  }

  /** Two scalars that are present can be compared for equality; by order only if both are numbers or both texts;
      by content only if both are texts. */
  predicate IsComparable(op: CompareOp, a: Atom, b: Atom) {
    match op
    case Eq => true
    case Ne => true
    case Lt => (a.Number? && b.Number?) || (a.Text? && b.Text?)
    case Gt => (a.Number? && b.Number?) || (a.Text? && b.Text?)
    case Le => (a.Number? && b.Number?) || (a.Text? && b.Text?)
    case Ge => (a.Number? && b.Number?) || (a.Text? && b.Text?)
    case _ => a.Text? && b.Text?
  }

  ghost predicate Relates(ctx: Context, left: Value, a: Atom, op: CompareOp, right: Value, b: Atom)
    requires IsComparable(op, a, b)
  {
    match op
    case Eq => SameValue(ctx, left, a, right, b)
    case Ne => !SameValue(ctx, left, a, right, b)
    case Lt => InOrder(ctx, a, b)
    case Gt => InOrder(ctx, b, a)
    case Le => InOrder(ctx, a, b) || a == b
    case Ge => InOrder(ctx, b, a) || a == b
    case _ => ctx.textMatch(op, a.s, b.s)
  }

  lemma SameKeyIsSameValue(ctx: Context, left: Value, a: Atom, right: Value, b: Atom)
    ensures SameKey(ctx, left, a, right, b) <==> SameValue(ctx, left, a, right, b)
  {
    if left.FieldOf? && left.codec.Some? {
      assert HasCodec(left, right, left.codec.value);
    } else if right.FieldOf? && right.codec.Some? {
      assert HasCodec(left, right, right.codec.value);
    }
  }

  /** A comparison other than with null is unknown exactly when a value is missing or the two cannot be compared,
      and otherwise true exactly when they relate as it says. */
  lemma ComparisonDecides(left: Value, op: CompareOp, right: Value, env: Environment, ctx: Context)
    requires op in {Eq, Ne} ==> !left.NullLiteral? && !right.NullLiteral?
    ensures var a, b, t := EvalValue(left, env, ctx), EvalValue(right, env, ctx),
                           EvalPredicate(Compare(left, op, right), env, ctx);
            && (t == Unknown <==> !(a.Some? && b.Some? && IsComparable(op, a.value, b.value)))
            && (t != Unknown ==> (t == True <==> Relates(ctx, left, a.value, op, right, b.value)))
  {
    var a, b := EvalValue(left, env, ctx), EvalValue(right, env, ctx);
    if a.Some? && b.Some? {
      SameKeyIsSameValue(ctx, left, a.value, right, b.value);
    }
  }

  /** Equality with null, and the null test, ask whether the value is missing, and are never unknown. */
  lemma NullIsDecided(v: Value, env: Environment, ctx: Context)
    ensures var missing := EvalValue(v, env, ctx).None?;
            && (forall p :: p in {Compare(v, Eq, NullLiteral), Compare(NullLiteral, Eq, v), IsNull(v)} ==>
                  EvalPredicate(p, env, ctx) == if missing then True else False)
            && (forall p :: p in {Compare(v, Ne, NullLiteral), Compare(NullLiteral, Ne, v)} ==>
                  EvalPredicate(p, env, ctx) == if missing then False else True)
  {
  }

  /** The scaled test is unknown exactly when a value is missing or no number, and otherwise compares the two
      products exactly. */
  lemma ScaledDecides(a: Value, b: Value, c: Value, d: Value, env: Environment, ctx: Context)
    ensures EvalPredicate(Scaled(a, b, c, d), env, ctx)
         == ProductsAgree(AsFraction(ctx, EvalValue(a, env, ctx)), AsFraction(ctx, EvalValue(b, env, ctx)),
                          AsFraction(ctx, EvalValue(c, env, ctx)), AsFraction(ctx, EvalValue(d, env, ctx)))
  {
    ScaledAgrees(ctx, EvalValue(a, env, ctx), EvalValue(b, env, ctx), EvalValue(c, env, ctx), EvalValue(d, env, ctx));
  }

  lemma ScaledAgrees(ctx: Context, a: Option<Atom>, b: Option<Atom>, c: Option<Atom>, d: Option<Atom>)
    ensures ScaledEqual(ctx, a, b, c, d)
         == ProductsAgree(AsFraction(ctx, a), AsFraction(ctx, b), AsFraction(ctx, c), AsFraction(ctx, d))
  {
  }

  function ProductsAgree(a: Option<real>, b: Option<real>, c: Option<real>, d: Option<real>): Truth {
    if a.Some? && b.Some? && c.Some? && d.Some? then
      if a.value * b.value == c.value * d.value then True else False
    else Unknown
  }

  /** The value as a rational number, when it is there and is one. */
  function AsFraction(ctx: Context, atom: Option<Atom>): Option<real> {
    if atom.Some? then ctx.fraction(atom.value) else None
  }

  // ------------------------------------------------------------------- scopes

  /** The object is reached from the parent through its field: the object referred to, or a member of the list. */
  predicate IsReached(parent: Object, field: string, isReference: bool, o: Object) {
    && parent.Record? && field in parent.fields
    && match parent.fields[field]
       case One(target) => o == target
       case Many(items) => if isReference then o == Leaf(Other(0)) else o in items
  }

  /** The object lies in the scope: it is what the scope is bound to, or is reached from an object of the parent
      scope and passes the filter. */
  ghost predicate InScope(scope: Scope, o: Object, env: Environment, ctx: Context)
    decreases scope
  {
    if scope.id in env then o == env[scope.id]
    else
      scope.Via? && (exists parent :: InScope(scope.parent, parent, env, ctx)
                                      && IsReached(parent, scope.field, scope.isReference, o))
      && (scope.filter.Some? ==> EvalPredicate(scope.filter.value, env[scope.id := o], ctx) == True)
  }

  lemma {:induction false} ReachedFromHolds(parents: seq<Object>, field: string, isReference: bool, o: Object)
    ensures o in ReachedFrom(parents, field, isReference)
       <==> exists parent :: parent in parents && IsReached(parent, field, isReference, o)
  {
    if parents != [] {
      var n := |parents| - 1;
      ReachedFromHolds(parents[..n], field, isReference, o);
      SplitLast(parents);
      assert o in Reached(parents[n], field, isReference) <==> IsReached(parents[n], field, isReference, o);
    }
  }

  /** The filter keeps each object as often as it is there, or not at all. */
  lemma {:induction false} FilterKeeps(filter: Predicate, id: nat, values: seq<Object>, env: Environment, ctx: Context,
                                       o: Object)
    ensures multiset(Kept(filter, id, values, env, ctx))[o]
         == if EvalPredicate(filter, env[id := o], ctx) == True then multiset(values)[o] else 0
  {
    if values != [] {
      var n := |values| - 1;
      FilterKeeps(filter, id, values[..n], env, ctx, o);
      SplitLast(values);
      assert multiset(values) == multiset(values[..n]) + multiset{values[n]};
    }
  }

  lemma {:induction false} ItemsAreInScope(scope: Scope, o: Object, env: Environment, ctx: Context)
    ensures o in Items(scope, env, ctx) <==> InScope(scope, o, env, ctx)
    decreases scope
  {
    if scope.id !in env && scope.Via? {
      var parents := Items(scope.parent, env, ctx);
      forall parent ensures parent in parents <==> InScope(scope.parent, parent, env, ctx) {
        ItemsAreInScope(scope.parent, parent, env, ctx);
      }
      var values := ReachedFrom(parents, scope.field, scope.isReference);
      ReachedFromHolds(parents, scope.field, scope.isReference, o);
      if scope.filter.Some? {
        FilterKeeps(scope.filter.value, scope.id, values, env, ctx, o);
        assert o in Items(scope, env, ctx) <==> multiset(Items(scope, env, ctx))[o] > 0;
        assert o in values <==> multiset(values)[o] > 0;
      }
    }
  }

  /** A scope test is true exactly when some object of the scope passes, and otherwise false: never unknown. */
  lemma ExistsDecides(scope: Scope, nested: Predicate, env: Environment, ctx: Context)
    ensures EvalPredicate(Exists(scope, nested), env, ctx) == True
       <==> exists o :: InScope(scope, o, env, ctx) && EvalPredicate(nested, env[scope.id := o], ctx) == True
    ensures EvalPredicate(Exists(scope, nested), env, ctx) != Unknown
  {
    var items := Items(scope, env, ctx);
    forall o ensures o in items <==> InScope(scope, o, env, ctx) {
      ItemsAreInScope(scope, o, env, ctx);
    }
    if i :| 0 <= i < |items| && EvalPredicate(nested, env[scope.id := items[i]], ctx) == True {
      assert items[i] in items && InScope(scope, items[i], env, ctx);
    }
  }

  // ------------------------------------------------------------------- values

  /** The value is read off the one object of the scope; of none or several nothing is read. */
  lemma FieldsAreRead(scope: Scope, field: string, codec: Option<nat>, env: Environment, ctx: Context, o: Object)
    requires Items(scope, env, ctx) == [o]
    ensures EvalValue(FieldOf(scope, field, codec), env, ctx)
         == if scope.Via? && scope.scalarChild then Some(if o.Leaf? then o.atom else Other(0))
            else if !(o.Record? && field in o.fields) then None
            else if o.fields[field].One? && o.fields[field].target.Leaf? then Some(o.fields[field].target.atom)
            else Some(Other(0))
    ensures EvalValue(Present(scope, field), env, ctx)
         == Some(Number(if o.Record? && field in o.fields then 1.0 else 0.0))
  {
  }

  lemma NoSingleObject(scope: Scope, field: string, codec: Option<nat>, prefix: string, env: Environment, ctx: Context)
    ensures EvalValue(CountOf(scope), env, ctx) == Some(Number(|Items(scope, env, ctx)| as real))
    ensures |Items(scope, env, ctx)| != 1 ==>
              && EvalValue(FieldOf(scope, field, codec), env, ctx) == None
              && EvalValue(AlternativeId(scope, field, prefix), env, ctx) == None
              && EvalValue(Present(scope, field), env, ctx) == Some(Number(0.0))
  {
  }

  /** Literals are themselves, the store's values are there when it has them, and the public id of an alternative
      joins the plain id and the kind with a tilde under the prefix when both are there. */
  lemma OtherValues(atom: Atom, kind: StoreValue, scope: Scope, field: string, prefix: string, env: Environment,
                    ctx: Context, o: Object)
    requires Items(scope, env, ctx) == [o]
    ensures EvalValue(Constant(atom), env, ctx) == Some(atom) && EvalValue(NullLiteral, env, ctx) == None
    ensures EvalValue(FromStore(kind), env, ctx).Some? <==> kind in ctx.stored
    ensures kind in ctx.stored ==> EvalValue(FromStore(kind), env, ctx) == Some(ctx.stored[kind])
    ensures EvalValue(AlternativeId(scope, field, prefix), env, ctx).Some?
       <==> o.Record? && field in o.fields && AltKind in ctx.stored
    ensures o.Record? && field in o.fields && AltKind in ctx.stored && o.fields[field].One?
            && o.fields[field].target.Leaf? ==>
              EvalValue(AlternativeId(scope, field, prefix), env, ctx)
              == Some(Text(prefix + ctx.render(o.fields[field].target.atom) + "~" + ctx.render(ctx.stored[AltKind])))
  {
  }
}
