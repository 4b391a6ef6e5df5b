/** The translation of filter trees into search expressions, and its faithfulness. */
module FilterTranslation {
  import opened Common
  import opened FilterModel

  type Resolver = (string, Filter) -> seq<string>

  // ---------------------------------------------------------- handler tables

  /** The operator after swapping a literal from left to right. */
  function InvertOp(op: CompareOp): CompareOp {
    match op
    case Ne => Ne case Eq => Eq
    case Gt => Lt case Lt => Gt
    case Le => Ge case Ge => Le
  }

  /** What the table builders guarantee: HAS handlers serve list types only, a nullity test looks at
      the property's own field, and the entry type is text. */
  predicate ConfigOk(cfg: Config) {
    && (forall name :: name in cfg.handlers && name in cfg.fulltypes ==>
          && (cfg.handlers[name].handler.ListHandler? ==> cfg.fulltypes[name].TList?)
          && (cfg.handlers[name].handler.TimestampHandler? ==> cfg.fulltypes[name].TTimestamp?))
    && (forall name :: name in cfg.handlers && cfg.handlers[name].known.FieldTest? ==>
          match cfg.handlers[name].handler
          case NumberHandler(field) => cfg.handlers[name].known.field == field
          case TimestampHandler(field) => cfg.handlers[name].known.field == field
          case StringHandler(field) => cfg.handlers[name].known.field == field
          case _ => false)
  }

  function SimpleEntry(key: string, t: FullType): Entry {
    Entry(if t.TList? then ListHandler(key)
          else if t.TInteger? || t.TFloat? then NumberHandler(key)
          else if t.TTimestamp? then TimestampHandler(key)
          else StringHandler(key), AlwaysKnown)
  }

  /** The generated table: defaults for id and type, then one entry per mapped property. */
  function SimpleHandlers(entryType: string, keys: map<string, string>, fulltypes: map<string, FullType>)
    : map<string, Entry>
  {
    map["id" := Entry(IdHandler, AlwaysKnown), "type" := Entry(TypeHandler(entryType), AlwaysKnown)]
    + map name <- keys :: SimpleEntry(keys[name], if name in fulltypes then fulltypes[name] else TString)
  }

  lemma SimpleHandlersAreOk(entryType: string, keys: map<string, string>, cfg: Config)
    requires cfg.handlers == SimpleHandlers(entryType, keys, cfg.fulltypes)
    ensures ConfigOk(cfg)
  {
  }

  // ------------------------------------------------------------- set filters

  /** HAS ALL is a conjunction of one-value tests. */
  function AllOf(field: string, values: seq<Value>): Expr
    requires values != []
  {
    var last := FieldHasAny(field, [values[|values| - 1]]);
    if |values| == 1 then last else ExprAnd(AllOf(field, values[..|values| - 1]), last)
  }

  function SetExpr(kind: HasKind, field: string, values: seq<Value>): Expr
    requires values != []
  {
    match kind
    case HasAll => AllOf(field, values)
    case HasAny => FieldHasAny(field, values)
    case HasOnly => FieldHasOnly(field, values)
  }

  lemma OneValueMeans(field: string, v: Value, row: Row)
    ensures Eval(FieldHasAny(field, [v]), row) == Truly(v in ListOf(row, field))
  {
    assert forall x :: x in [v] <==> x == v;
  }

  lemma ContainedStep(held: seq<Value>, wanted: seq<Value>, v: Value)
    ensures Contained(HasAll, held, wanted + [v]) <==> Contained(HasAll, held, wanted) && v in held
  {
    assert forall x :: x in wanted + [v] <==> x in wanted || x == v;
  }

  lemma {:induction false} AllOfMeans(field: string, values: seq<Value>, row: Row)
    requires values != []
    ensures Eval(AllOf(field, values), row) == Truly(Contained(HasAll, ListOf(row, field), values))
  {
    var init, last := values[..|values| - 1], values[|values| - 1];
    SplitLast(values);
    OneValueMeans(field, last, row);
    ContainedStep(ListOf(row, field), init, last);
    if init != [] {
      AllOfMeans(field, init, row);
    }
  }

  lemma SetExprMeans(kind: HasKind, field: string, values: seq<Value>, row: Row)
    requires values != []
    ensures Eval(SetExpr(kind, field, values), row) == Truly(Contained(kind, ListOf(row, field), values))
  {
    if kind == HasAll {
      AllOfMeans(field, values, row);
    }
  }

  /** The set handler: it accumulates one `has_any` per value for HAS ALL. */
  method SetHandler(kind: HasKind, field: string, values: seq<Value>) returns (search: Expr)
    requires values != []
    ensures search == SetExpr(kind, field, values)
    ensures forall row :: Eval(search, row) == Truly(Contained(kind, ListOf(row, field), values))
  {
    forall row ensures Eval(SetExpr(kind, field, values), row) == Truly(Contained(kind, ListOf(row, field), values)) {
      SetExprMeans(kind, field, values, row);
    }
    match kind {
      case HasAll =>
        search := FieldHasAny(field, [values[0]]);
        var i := 1;
        assert values[..1] == [values[0]];
        while i < |values|
          invariant 1 <= i <= |values| && search == AllOf(field, values[..i])
        {
          assert values[..i + 1][..i] == values[..i];
          search := ExprAnd(search, FieldHasAny(field, [values[i]]));
          i := i + 1;
        }
        assert values[..i] == values;
      case HasAny => search := FieldHasAny(field, values);
      case HasOnly => search := FieldHasOnly(field, values);
    }
  }

  /** The list branch of constant conversion: it stops at the first constant that does not fit. */
  method FormatValues(t: FullType, cs: seq<Const>) returns (r: Result<seq<Value>, FilterError>)
    ensures r == FormatEach(t, cs)
  {
    var out := [];
    var i := 0;
    while i < |cs|
      invariant 0 <= i <= |cs| && FormatEach(t, cs[..i]) == Ok(out)
    {
      assert cs[..i + 1][..i] == cs[..i];
      var v := FormatValue(t, cs[i]);
      if v.Err? {
        StopsAt(t, cs, i + 1, v.error);
        return Err(v.error);
      }
      out := out + [v.value];
      i := i + 1;
    }
    assert cs[..i] == cs;
    r := Ok(out);
  }

  lemma {:induction false} StopsAt(t: FullType, cs: seq<Const>, i: nat, e: FilterError)
    requires i <= |cs| && FormatEach(t, cs[..i]) == Err(e)
    ensures FormatEach(t, cs) == Err(e)
    decreases |cs|
  {
    if i < |cs| {
      var init := cs[..|cs| - 1];
      assert init[..i] == cs[..i];
      StopsAt(t, init, i, e);
    } else {
      assert cs[..i] == cs;
    }
  }

  // ------------------------------------------------------------- translation

  /** Larger than the weight of the node a semi-join rewrites it to. */
  function Weight(f: Filter): nat {
    match f
    case And(l, r) => 1 + Weight(l) + Weight(r)
    case Or(l, r) => 1 + Weight(l) + Weight(r)
    case Not(x) => 1 + Weight(x)
    case Has(_, _, p, _) => if p.rest == ["id"] then 0 else 1
    case _ => 1
  }

  predicate AllEqual(ops: seq<CompareOp>, n: nat) {
    ops == seq(n, i => Eq)
  }

  function Repeat(n: nat): seq<CompareOp> { seq(n, i => Eq) }

  function Translate(cfg: Config, resolver: Option<Resolver>, f: Filter): Result<Expr, FilterError>
    decreases Weight(f), 2
  {
    match f
    case And(l, r) =>
      var a := Translate(cfg, resolver, l);
      if a.Err? then a
      else
        var b := Translate(cfg, resolver, r);
        if b.Err? then b else Ok(ExprAnd(a.value, b.value))
    case Or(l, r) =>
      var a := Translate(cfg, resolver, l);
      if a.Err? then a
      else
        var b := Translate(cfg, resolver, r);
        if b.Err? then b else Ok(ExprOr(a.value, b.value))
    case Not(x) =>
      var a := Translate(cfg, resolver, x);
      if a.Err? then a else Ok(ExprNot(a.value))
    case Has(_, _, _, _) => TranslateHas(cfg, resolver, f)
    case Length(p, _, size) =>
      if p.rest != [] && p.root in cfg.targets then Err(NotImplemented)
      else if size.Ident? || !size.literal.Number? then Err(NotImplemented)
      else if p.root !in cfg.fulltypes then Absent(cfg, p, Never)
      else Err(NotImplemented)
    case Compare(_, _, _) => TranslateCompare(cfg, resolver, f)
    case Match(kind, p, text) =>
      if p.rest != [] && p.root in cfg.targets then SemiJoin(cfg, resolver, f)
      else if text.Ident? then Err(NotImplemented)
      else if p.root !in cfg.fulltypes then Absent(cfg, p, Never)
      else MatchExpr(cfg, p.root, kind, text.literal)
    case Known(isKnown, p) =>
      if p.rest != [] && p.root in cfg.targets then SemiJoin(cfg, resolver, f)
      else if p.root !in cfg.fulltypes then Absent(cfg, p, if isKnown then Never else Always)
      else if p.root !in cfg.handlers then Err(NotImplemented)
      else match cfg.handlers[p.root].known
        case AlwaysKnown => Ok(if isKnown then Always else Never)
        case FieldTest(field) => Ok(if isKnown then ExprNot(FieldIsNull(field)) else FieldIsNull(field))
  }

  /** A property the server does not know: an error under a claimed prefix, otherwise without value. */
  function Absent(cfg: Config, p: Path, otherwise: Expr): Result<Expr, FilterError> {
    if Claimed(cfg, p.root) then Err(UnrecognizedProperty) else Ok(otherwise)
  }

  /** Values checked against the operators, then handed to the set handler. */
  function SetFilter(f: Filter, field: string, t: FullType): Result<Expr, FilterError>
    requires f.Has?
  {
    if f.values == [] then Err(Crash)
    else
      var values := FormatEach(t, f.values);
      if values.Err? then Err(values.error)
      else if !AllEqual(f.ops, |values.value|) then Err(NotImplemented)
      else FormatEachKeepsLength(t, f.values); Ok(SetExpr(f.kind, field, values.value))
  }

  lemma {:induction false} FormatEachKeepsLength(t: FullType, cs: seq<Const>)
    ensures FormatEach(t, cs).Ok? ==> |FormatEach(t, cs).value| == |cs|
  {
    if cs != [] {
      FormatEachKeepsLength(t, cs[..|cs| - 1]);
    }
  }

  function TranslateHas(cfg: Config, resolver: Option<Resolver>, f: Filter): Result<Expr, FilterError>
    requires f.Has?
    decreases Weight(f), 1
  {
    var p := f.path;
    var deep := ListHandlerField(cfg, Dotted(p));
    if |p.rest| >= 2 && deep.Some? then SetFilter(f, deep.value, TString)
    else if |p.rest| >= 2 && Claimed(cfg, p.root) then Err(UnrecognizedProperty)
    else if p.rest != [] && p.root in cfg.targets then
      if p.rest == ["id"] then
        var ids := ListHandlerField(cfg, p.root + ".id");
        if ids.None? then Err(NotImplemented) else SetFilter(f, ids.value, TString)
      else SemiJoin(cfg, resolver, f)
    else if p.root !in cfg.fulltypes then
      if Claimed(cfg, p.root) then Err(UnrecognizedProperty)
      else if f.values == [] then Err(Crash)
      else if !AllEqual(f.ops, |f.values|) then Err(NotImplemented)
      else Ok(Never)
    else match cfg.fulltypes[p.root]
      case TList(t) =>
        if FormatEach(t, f.values).Err? then Err(FormatEach(t, f.values).error)
        else
          var own := ListHandlerField(cfg, p.root);
          if own.None? then Err(NotImplemented) else SetFilter(f, own.value, t)
      case TDict => Err(NotImplemented)
      case TUnknown => Err(NotImplemented)
      case _ => Err(Crash)
  }

  function TranslateCompare(cfg: Config, resolver: Option<Resolver>, f: Filter): Result<Expr, FilterError>
    requires f.Compare?
    decreases Weight(f), 1
  {
    var isFlag := (f.lhs.Lit? && f.lhs.literal.Boolean?) || (f.rhs.Lit? && f.rhs.literal.Boolean?);
    if isFlag && f.op != Eq && f.op != Ne then Err(NotImplemented)
    else if f.lhs.Lit? && f.rhs.Lit? then Err(NotImplemented)
    else if f.lhs.Ident? && f.rhs.Ident? then Err(NotImplemented)
    else
      var (op, p, c) := if f.lhs.Ident? then (f.op, f.lhs.path, f.rhs.literal)
                        else (InvertOp(f.op), f.rhs.path, f.lhs.literal);
      if p.rest != [] && p.root in cfg.targets then SemiJoin(cfg, resolver, Compare(op, Ident(p), Lit(c)))
      else if p.root !in cfg.fulltypes then Absent(cfg, p, Never)
      else CompareExpr(cfg, p.root, op, c)
  }

  function CompareExpr(cfg: Config, name: string, op: CompareOp, c: Const): Result<Expr, FilterError>
    requires name in cfg.fulltypes
  {
    if name !in cfg.handlers || cfg.handlers[name].handler.ListHandler? then Err(NotImplemented)
    else
      var v := FormatValue(cfg.fulltypes[name], c);
      if v.Err? then Err(v.error)
      else match cfg.handlers[name].handler
        case IdHandler => Ok(FieldCompare(ID_FIELD, op, v.value))
        case TypeHandler(entryType) => Ok(if Compares(op, Str(entryType), v.value) then Always else Never)
        case ListHandler(_) => Err(NotImplemented)
        case NumberHandler(field) => Ok(FieldCompare(field, op, v.value))
        case TimestampHandler(field) =>
          if !v.value.Str? || cfg.normalize(v.value.s).None? then Err(TypeMismatch)
          else Ok(FieldCompare(field, op, Str(cfg.normalize(v.value.s).value)))
        case StringHandler(field) => Ok(FieldCompare(field, op, v.value))
  }

  function MatchExpr(cfg: Config, name: string, kind: MatchKind, c: Const): Result<Expr, FilterError>
    requires name in cfg.fulltypes
  {
    if name !in cfg.handlers then Err(NotImplemented)
    else match cfg.handlers[name].handler
      case IdHandler => MatchField(ID_FIELD, kind, FormatValue(cfg.fulltypes[name], c))
      case StringHandler(field) => MatchField(field, kind, FormatValue(cfg.fulltypes[name], c))
      case TypeHandler(entryType) =>
        var v := FormatValue(cfg.fulltypes[name], c);
        if v.Err? then Err(v.error)
        else if !v.value.Str? then Err(Crash)
        else Ok(if TextMatches(kind, entryType, v.value.s) then Always else Never)
      case _ => Err(NotImplemented)
  }

  function MatchField(field: string, kind: MatchKind, v: Result<Value, FilterError>): Result<Expr, FilterError> {
    if v.Err? then Err(v.error) else Ok(FieldMatch(field, kind, v.value))
  }

  /** Two phases: ask which related entries satisfy the stripped node, then translate the filter that
      the related ids hold any of them. */
  function SemiJoin(cfg: Config, resolver: Option<Resolver>, f: Filter): Result<Expr, FilterError>
    requires IsLeaf(f) && PathOf(f).rest != [] && Weight(f) == 1
    decreases Weight(f), 0
  {
    var p := PathOf(f);
    if resolver.None? || |p.rest| != 1 then Err(NotImplemented)
    else
      var ids := resolver.value(p.root, Stripped(f));
      if ids == [] then Ok(Never) else Translate(cfg, resolver, Rewritten(p.root, ids))
  }

  function Rewritten(related: string, ids: seq<string>): Filter {
    Has(HasAny, Repeat(|ids|), Path(related, ["id"]), seq(|ids|, i requires 0 <= i < |ids| => Text(ids[i])))
  }

  // ------------------------------------------------------------ faithfulness

  lemma InversionIsFaithful(op: CompareOp, a: Value, b: Value)
    ensures Compares(op, a, b) <==> Compares(InvertOp(op), b, a)
    ensures InvertOp(InvertOp(op)) == op
  {
  }

  /** The resolver returns exactly the ids of the entries that satisfy a leaf. */
  ghost predicate Exact(w: World, resolver: Option<Resolver>) {
    resolver.Some? ==>
      forall t, f, id :: IsLeaf(f) ==> (id in resolver.value(t, f) <==> EntrySatisfies(w, t, id, f))
  }

  /** Every property of this row that an IS KNOWN or IS UNKNOWN filter tests by a constant has a value. */
  predicate KnownTestsApply(cfg: Config, row: Row, f: Filter) {
    match f
    case And(l, r) => KnownTestsApply(cfg, row, l) && KnownTestsApply(cfg, row, r)
    case Or(l, r) => KnownTestsApply(cfg, row, l) && KnownTestsApply(cfg, row, r)
    case Not(x) => KnownTestsApply(cfg, row, x)
    case Known(_, p) =>
      IsRelated(cfg, f) || p.root !in cfg.fulltypes || p.root !in cfg.handlers
      || cfg.handlers[p.root].known.FieldTest? || HasProperty(cfg, row, p.root)
    case _ => true
  }

  lemma SetFilterMeans(f: Filter, field: string, t: FullType, row: Row)
    requires f.Has? && SetFilter(f, field, t).Ok?
    ensures FormatEach(t, f.values).Ok?
    ensures Eval(SetFilter(f, field, t).value, row) ==
            Truly(Contained(f.kind, ListOf(row, field), FormatEach(t, f.values).value))
  {
    FormatEachKeepsLength(t, f.values);
    SetExprMeans(f.kind, field, FormatEach(t, f.values).value, row);
  }

  lemma CompareExprMeans(cfg: Config, row: Row, name: string, op: CompareOp, c: Const)
    requires ConfigOk(cfg) && name in cfg.fulltypes && CompareExpr(cfg, name, op, c).Ok?
    ensures var v, k := ScalarProperty(cfg, row, name), Constant(cfg, name, c);
            Eval(CompareExpr(cfg, name, op, c).value, row) ==
            if v.None? || k.None? then Unknown else Truly(Compares(op, v.value, k.value))
  {
  }

  lemma MatchExprMeans(cfg: Config, row: Row, name: string, kind: MatchKind, c: Const)
    requires ConfigOk(cfg) && name in cfg.fulltypes && MatchExpr(cfg, name, kind, c).Ok?
    ensures var v, k := ScalarProperty(cfg, row, name), Constant(cfg, name, c);
            Eval(MatchExpr(cfg, name, kind, c).value, row) ==
            if v.None? || k.None? then Unknown else Matches(kind, v.value, k.value)
  {
  }

  /** A test of a property the server does not know, other than IS KNOWN and IS UNKNOWN. */
  predicate IsAbsentTest(cfg: Config, f: Filter)
    requires IsLeaf(f)
  {
    && !f.Known? && !IsRelated(cfg, f) && PathOf(f).root !in cfg.fulltypes
    && (f.Has? ==> ListProperty(cfg, f.path).None?)
  }

  /** A test of an unknown property is unknown by its meaning and translates to a filter that never holds. */
  lemma AbsentTestNeverHolds(cfg: Config, resolver: Option<Resolver>, row: Row, f: Filter)
    requires IsLeaf(f) && IsAbsentTest(cfg, f) && Translate(cfg, resolver, f).Ok?
    ensures Translate(cfg, resolver, f).value == Never && LeafHolds(cfg, row, f) == Unknown
  {
  }

  /** Any other leaf over the entry's own properties translates to what it means. */
  lemma RecognizedLeafIsFaithful(cfg: Config, resolver: Option<Resolver>, row: Row, f: Filter)
    requires ConfigOk(cfg) && IsLeaf(f) && !IsRelated(cfg, f) && !IsAbsentTest(cfg, f) && KnownTestsApply(cfg, row, f)
    requires Translate(cfg, resolver, f).Ok?
    ensures Eval(Translate(cfg, resolver, f).value, row) == LeafHolds(cfg, row, f)
  {
    match f
    case Has(_, _, p, _) =>
      var list := ListProperty(cfg, p);
      if list.Some? {
        SetFilterMeans(f, list.value.0, list.value.1, row);
      }
    case Length(_, _, _) =>
    case Compare(op, lhs, rhs) =>
      if lhs.Ident? {
        CompareExprMeans(cfg, row, lhs.path.root, op, rhs.literal);
      } else {
        CompareExprMeans(cfg, row, rhs.path.root, InvertOp(op), lhs.literal);
        var v, k := ScalarProperty(cfg, row, rhs.path.root), Constant(cfg, rhs.path.root, lhs.literal);
        if v.Some? && k.Some? {
          InversionIsFaithful(op, k.value, v.value);
        }
      }
    case Match(kind, p, text) =>
      MatchExprMeans(cfg, row, p.root, kind, text.literal);
    case Known(_, p) =>
  }

  /** A leaf over the entry's own properties translates to what it means exactly when it tests a property
      that the server knows, and a test of nullity by a constant is made where the property has a value. */
  lemma LeafIsFaithful(cfg: Config, resolver: Option<Resolver>, row: Row, f: Filter)
    requires ConfigOk(cfg) && IsLeaf(f) && !IsRelated(cfg, f) && Translate(cfg, resolver, f).Ok?
    ensures Eval(Translate(cfg, resolver, f).value, row) == LeafHolds(cfg, row, f)
       <==> !IsAbsentTest(cfg, f) && KnownTestsApply(cfg, row, f)
  {
    if IsAbsentTest(cfg, f) {
      AbsentTestNeverHolds(cfg, resolver, row, f);
    } else if KnownTestsApply(cfg, row, f) {
      RecognizedLeafIsFaithful(cfg, resolver, row, f);
    } else {
      ConstantTestIsWrong(cfg, resolver, row, f);
    }
  }

  lemma ConstantTestIsWrong(cfg: Config, resolver: Option<Resolver>, row: Row, f: Filter)
    requires IsLeaf(f) && !IsRelated(cfg, f) && !KnownTestsApply(cfg, row, f) && Translate(cfg, resolver, f).Ok?
    ensures Eval(Translate(cfg, resolver, f).value, row) != LeafHolds(cfg, row, f)
  {
  }

  /** The node handed to the resolver asks the same of an entry as the node as written. */
  lemma SwappedLeafIsSame(cfg: Config, row: Row, op: CompareOp, p: Path, c: Const)
    ensures LeafHolds(cfg, row, Compare(InvertOp(op), Ident(p), Lit(c)))
         == LeafHolds(cfg, row, Compare(op, Lit(c), Ident(p)))
  {
    var v, k := ScalarProperty(cfg, row, p.root), Constant(cfg, p.root, c);
    if v.Some? && k.Some? {
      InversionIsFaithful(op, k.value, v.value);
    }
  }

  /** The rewritten node says that some related id is one the resolver returned. */
  lemma SemiJoinMeans(w: World, cfg: Config, resolver: Option<Resolver>, row: Row, f: Filter)
    requires ConfigOk(cfg) && Exact(w, resolver) && IsLeaf(f) && Weight(f) == 1
    requires PathOf(f).rest != [] && PathOf(f).root in cfg.targets
    requires SemiJoin(cfg, resolver, f).Ok?
    ensures Eval(SemiJoin(cfg, resolver, f).value, row) ==
            Truly(SomeRelated(w, cfg, row, PathOf(f).root, Stripped(f)))
  {
    var t, sub := PathOf(f).root, Stripped(f);
    var ids := resolver.value(t, sub);
    assert IsLeaf(sub);
    if ids != [] {
      var g := Rewritten(t, ids);
      var field := ListHandlerField(cfg, t + ".id");
      assert Translate(cfg, resolver, g) == TranslateHas(cfg, resolver, g);
      SetFilterMeans(g, field.value, TString, row);
      TextsFormat(ids);
      var wanted := FormatEach(TString, g.values).value;
      if SomeRelated(w, cfg, row, t, sub) {
        var id :| Str(id) in ListOf(row, field.value) && EntrySatisfies(w, t, id, sub);
        assert id in ids && Str(id) in wanted;
      }
      if Contained(HasAny, ListOf(row, field.value), wanted) {
        var v :| v in wanted && v in ListOf(row, field.value);
        assert v.s in ids && Str(v.s) in ListOf(row, field.value) && EntrySatisfies(w, t, v.s, sub);
      }
    }
  }

  lemma {:induction false} TextsFormat(ids: seq<string>)
    ensures var texts := seq(|ids|, i requires 0 <= i < |ids| => Text(ids[i]));
            && FormatEach(TString, texts).Ok?
            && |FormatEach(TString, texts).value| == |ids|
            && forall i :: 0 <= i < |ids| ==> FormatEach(TString, texts).value[i] == Str(ids[i])
    ensures var texts := seq(|ids|, i requires 0 <= i < |ids| => Text(ids[i]));
            forall v :: v in FormatEach(TString, texts).value <==> v.Str? && v.s in ids
  {
    if ids != [] {
      var n := |ids| - 1;
      TextsFormat(ids[..n]);
      assert seq(|ids|, i requires 0 <= i < |ids| => Text(ids[i]))[..n]
          == seq(n, i requires 0 <= i < n => Text(ids[..n][i]));
    }
  }

  /** A dotted node translates to "some related entry satisfies the stripped node". */
  lemma RelatedIsFaithful(w: World, cfg: Config, resolver: Option<Resolver>, row: Row, f: Filter)
    requires ConfigOk(cfg) && Exact(w, resolver) && IsLeaf(f) && IsRelated(cfg, f)
    requires Translate(cfg, resolver, f).Ok?
    ensures Eval(Translate(cfg, resolver, f).value, row) ==
            Truly(SomeRelated(w, cfg, row, PathOf(f).root, Stripped(f)))
  {
    if f.Compare? && f.lhs.Lit? {
      var g := Compare(InvertOp(f.op), f.rhs, f.lhs);
      SemiJoinMeans(w, cfg, resolver, row, g);
      var t := PathOf(f).root;
      forall id ensures EntrySatisfies(w, t, id, Stripped(g)) <==> EntrySatisfies(w, t, id, Stripped(f)) {
        if t in w.configs && t in w.entries && id in w.entries[t] {
          SwappedLeafIsSame(w.configs[t], w.entries[t][id], f.op, Path(f.rhs.path.rest[0], f.rhs.path.rest[1..]),
                            f.lhs.literal);
        }
      }
    } else {
      SemiJoinMeans(w, cfg, resolver, row, f);
    }
  }

  // ------------------------------------------------ properties without value

  /** The value of a filter in which tests of unknown properties count as false, and nullity tests made by
      a constant where the property has no value are turned round. */
  ghost function Valued(w: World, cfg: Config, row: Row, f: Filter): Truth {
    match f
    case And(l, r) => Both(Valued(w, cfg, row, l), Valued(w, cfg, row, r))
    case Or(l, r) => Either(Valued(w, cfg, row, l), Valued(w, cfg, row, r))
    case Not(x) => Negate(Valued(w, cfg, row, x))
    case _ =>
      if IsAbsentTest(cfg, f) then False
      else if !KnownTestsApply(cfg, row, f) then Negate(Holds(w, cfg, row, f))
      else Holds(w, cfg, row, f)
  }

  lemma LeafMeans(w: World, cfg: Config, resolver: Option<Resolver>, row: Row, f: Filter)
    requires ConfigOk(cfg) && Exact(w, resolver) && IsLeaf(f) && Translate(cfg, resolver, f).Ok?
    ensures Eval(Translate(cfg, resolver, f).value, row) == Valued(w, cfg, row, f)
  {
    if IsRelated(cfg, f) {
      RelatedIsFaithful(w, cfg, resolver, row, f);
    } else if IsAbsentTest(cfg, f) {
      AbsentTestNeverHolds(cfg, resolver, row, f);
    } else if KnownTestsApply(cfg, row, f) {
      RecognizedLeafIsFaithful(cfg, resolver, row, f);
    }
  }

  /** Whenever translation succeeds, the search expression has on every row the value of the filter with
      its tests of unknown properties and its constant nullity tests read this way, and no other change. */
  lemma {:induction false} TranslationMeans(w: World, cfg: Config, resolver: Option<Resolver>, row: Row, f: Filter)
    requires ConfigOk(cfg) && Exact(w, resolver) && Translate(cfg, resolver, f).Ok?
    ensures Eval(Translate(cfg, resolver, f).value, row) == Valued(w, cfg, row, f)
    decreases f
  {
    match f
    case And(l, r) =>
      TranslationMeans(w, cfg, resolver, row, l);
      TranslationMeans(w, cfg, resolver, row, r);
    case Or(l, r) =>
      TranslationMeans(w, cfg, resolver, row, l);
      TranslationMeans(w, cfg, resolver, row, r);
    case Not(x) =>
      TranslationMeans(w, cfg, resolver, row, x);
    case _ =>
      LeafMeans(w, cfg, resolver, row, f);
  }

  /** Two questions about a truth value: is it surely true, or is it just not false. */
  predicate Passes(v: Truth, surely: bool) { if surely then v == True else v != False }

  /** The translation passes where the meaning does not. */
  ghost predicate Gains(w: World, cfg: Config, row: Row, f: Filter, surely: bool) {
    match f
    case And(l, r) =>
      && (Gains(w, cfg, row, l, surely) || Gains(w, cfg, row, r, surely))
      && (Gains(w, cfg, row, l, surely) || (Passes(Holds(w, cfg, row, l), surely) && !Loses(w, cfg, row, l, surely)))
      && (Gains(w, cfg, row, r, surely) || (Passes(Holds(w, cfg, row, r), surely) && !Loses(w, cfg, row, r, surely)))
    case Or(l, r) =>
      && (Gains(w, cfg, row, l, surely) || Gains(w, cfg, row, r, surely))
      && !Passes(Holds(w, cfg, row, l), surely) && !Passes(Holds(w, cfg, row, r), surely)
    case Not(x) => Loses(w, cfg, row, x, !surely)
    case _ => f.Known? && f.isKnown && !KnownTestsApply(cfg, row, f)
  }

  /** The meaning passes where the translation does not. A test of an unknown property is not false, and
      its translation is; an odd number of negations on the way up turns that into a gain. */
  ghost predicate Loses(w: World, cfg: Config, row: Row, f: Filter, surely: bool) {
    match f
    case And(l, r) =>
      && (Loses(w, cfg, row, l, surely) || Loses(w, cfg, row, r, surely))
      && Passes(Holds(w, cfg, row, l), surely) && Passes(Holds(w, cfg, row, r), surely)
    case Or(l, r) =>
      && (Loses(w, cfg, row, l, surely) || Loses(w, cfg, row, r, surely))
      && (Loses(w, cfg, row, l, surely) || (!Passes(Holds(w, cfg, row, l), surely) && !Gains(w, cfg, row, l, surely)))
      && (Loses(w, cfg, row, r, surely) || (!Passes(Holds(w, cfg, row, r), surely) && !Gains(w, cfg, row, r, surely)))
    case Not(x) => Gains(w, cfg, row, x, !surely)
    case _ => (IsAbsentTest(cfg, f) && !surely) || (f.Known? && !f.isKnown && !KnownTestsApply(cfg, row, f))
  }

  /** A filter's value differs from its meaning exactly where it gains or loses. */
  lemma {:induction false} ErrorsAreExact(w: World, cfg: Config, row: Row, f: Filter, surely: bool)
    ensures Gains(w, cfg, row, f, surely)
       <==> Passes(Valued(w, cfg, row, f), surely) && !Passes(Holds(w, cfg, row, f), surely)
    ensures Loses(w, cfg, row, f, surely)
       <==> !Passes(Valued(w, cfg, row, f), surely) && Passes(Holds(w, cfg, row, f), surely)
  {
    match f
    case And(l, r) =>
      ErrorsAreExact(w, cfg, row, l, surely);
      ErrorsAreExact(w, cfg, row, r, surely);
    case Or(l, r) =>
      ErrorsAreExact(w, cfg, row, l, surely);
      ErrorsAreExact(w, cfg, row, r, surely);
    case Not(x) =>
      ErrorsAreExact(w, cfg, row, x, !surely);
    case _ =>
  }

  /** Tests of unknown properties stand under even numbers of negations only, or under odd numbers only. */
  predicate AbsentOnlyUnder(cfg: Config, f: Filter, even: bool) {
    match f
    case And(l, r) => AbsentOnlyUnder(cfg, l, even) && AbsentOnlyUnder(cfg, r, even)
    case Or(l, r) => AbsentOnlyUnder(cfg, l, even) && AbsentOnlyUnder(cfg, r, even)
    case Not(x) => AbsentOnlyUnder(cfg, x, !even)
    case _ => even || !IsAbsentTest(cfg, f)
  }

  /** No test of an unknown property at all. */
  predicate NoneAbsent(cfg: Config, f: Filter) {
    AbsentOnlyUnder(cfg, f, true) && AbsentOnlyUnder(cfg, f, false)
  }

  /** Where its constant nullity tests are right, a filter neither loses a surely true row nor gains one that
      is false; what it can still do depends on the negations above its tests of unknown properties. */
  lemma {:induction false} PolarityBounds(w: World, cfg: Config, row: Row, f: Filter)
    requires KnownTestsApply(cfg, row, f)
    ensures !Loses(w, cfg, row, f, true) && !Gains(w, cfg, row, f, false)
    ensures AbsentOnlyUnder(cfg, f, true) ==> !Gains(w, cfg, row, f, true)
    ensures AbsentOnlyUnder(cfg, f, false) ==> !Loses(w, cfg, row, f, false)
  {
    match f
    case And(l, r) =>
      PolarityBounds(w, cfg, row, l);
      PolarityBounds(w, cfg, row, r);
    case Or(l, r) =>
      PolarityBounds(w, cfg, row, l);
      PolarityBounds(w, cfg, row, r);
    case Not(x) =>
      PolarityBounds(w, cfg, row, x);
    case _ =>
  }

  /** On every row: the translation selects what does not hold exactly where the filter gains, leaves out
      what holds exactly where it loses, and has the same truth value exactly where it does neither. */
  lemma TranslationIsFaithful(w: World, cfg: Config, resolver: Option<Resolver>, row: Row, f: Filter)
    requires ConfigOk(cfg) && Exact(w, resolver) && Translate(cfg, resolver, f).Ok?
    ensures Eval(Translate(cfg, resolver, f).value, row) == True && Holds(w, cfg, row, f) != True
       <==> Gains(w, cfg, row, f, true)
    ensures Eval(Translate(cfg, resolver, f).value, row) != True && Holds(w, cfg, row, f) == True
       <==> Loses(w, cfg, row, f, true)
    ensures Eval(Translate(cfg, resolver, f).value, row) == Holds(w, cfg, row, f)
       <==> forall surely :: !Gains(w, cfg, row, f, surely) && !Loses(w, cfg, row, f, surely)
  {
    TranslationMeans(w, cfg, resolver, row, f);
    ErrorsAreExact(w, cfg, row, f, true);
    ErrorsAreExact(w, cfg, row, f, false);
  }

  /** Where its constant nullity tests are right, a filter that is decided keeps its value, and only tests
      of unknown properties under odd numbers of negations can make the translation select a wrong row. */
  lemma DecidedIsKept(w: World, cfg: Config, resolver: Option<Resolver>, row: Row, f: Filter)
    requires ConfigOk(cfg) && Exact(w, resolver) && Translate(cfg, resolver, f).Ok?
    requires KnownTestsApply(cfg, row, f)
    ensures Holds(w, cfg, row, f) != Unknown ==> Eval(Translate(cfg, resolver, f).value, row) == Holds(w, cfg, row, f)
    ensures (Eval(Translate(cfg, resolver, f).value, row) == True <==> Holds(w, cfg, row, f) == True)
       <==> !Gains(w, cfg, row, f, true)
    ensures AbsentOnlyUnder(cfg, f, true) ==>
              (Eval(Translate(cfg, resolver, f).value, row) == True <==> Holds(w, cfg, row, f) == True)
    ensures NoneAbsent(cfg, f) ==> Eval(Translate(cfg, resolver, f).value, row) == Holds(w, cfg, row, f)
  {
    TranslationMeans(w, cfg, resolver, row, f);
    ErrorsAreExact(w, cfg, row, f, true);
    ErrorsAreExact(w, cfg, row, f, false);
    PolarityBounds(w, cfg, row, f);
  }

  function Negated(f: Filter, times: nat): Filter {
    if times == 0 then f else Not(Negated(f, times - 1))
  }

  /** A test of an unknown property under negations: its truth value is never the right one, and it selects
      the right rows, none, exactly under an even number of them. */
  lemma {:induction false} NegatedAbsentTest(w: World, cfg: Config, resolver: Option<Resolver>, row: Row, f: Filter,
                                             times: nat)
    requires IsLeaf(f) && IsAbsentTest(cfg, f) && Translate(cfg, resolver, f).Ok?
    ensures Translate(cfg, resolver, Negated(f, times)).Ok? && Holds(w, cfg, row, Negated(f, times)) == Unknown
    ensures Eval(Translate(cfg, resolver, Negated(f, times)).value, row) == Truly(times % 2 == 1)
  {
    if times == 0 {
      AbsentTestNeverHolds(cfg, resolver, row, f);
    } else {
      NegatedAbsentTest(w, cfg, resolver, row, f, times - 1);
    }
  }

  /** `NOT _other_x = 1` on a server that knows no such property: it matches every row and holds on none. */
  lemma NegatedUnknownMatchesAll(w: World, cfg: Config, resolver: Option<Resolver>, row: Row)
    requires "_other_x" !in cfg.fulltypes && !Claimed(cfg, "_other_x")
    ensures var f := Not(Compare(Eq, Ident(Path("_other_x", [])), Lit(Number("1", 1.0))));
            && Translate(cfg, resolver, f) == Ok(ExprNot(Never))
            && Eval(ExprNot(Never), row) == True && Holds(w, cfg, row, f) == Unknown
  {
  }

  /** A generated table tests nullity by a constant, which is right exactly where the property has a
      value: on a null property, IS UNKNOWN is translated to a filter that never holds. */
  lemma ConstantKnownTest(w: World, cfg: Config, resolver: Option<Resolver>, row: Row, name: string, isKnown: bool)
    requires name in cfg.fulltypes && name in cfg.handlers && cfg.handlers[name].known.AlwaysKnown?
    ensures var f := Known(isKnown, Path(name, []));
            && Translate(cfg, resolver, f).Ok?
            && (Eval(Translate(cfg, resolver, f).value, row) == Holds(w, cfg, row, f) <==> HasProperty(cfg, row, name))
  {
  }
}
