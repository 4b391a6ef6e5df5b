/** What translated filters ask of stored rows, told from the literals as they are written. */
module FilterLiterals {
  import opened Common
  import opened FilterModel
  import opened FilterTranslation

  // ---------------------------------------------------------------- literals

  /** A literal stands for a value of a declared type: TRUE and FALSE for booleans, numbers for numbers, whole
      ones for integers, quoted text for strings and timestamps, the bare spelling where the type is unknown. */
  ghost predicate StandsFor(t: FullType, c: Const, v: Value) {
    || (t == TBoolean && c.Boolean? && v == Flag(c.b))
    || (t == TInteger && c.Number? && IsWhole(c.value) && v == Num(c.value))
    || (t == TFloat && c.Number? && v == Num(c.value))
    || ((t == TString || t == TTimestamp) && c.Text? && v == Str(c.s))
    || (t == TUnknown && v == Str(Spelling(c)))
  }

  ghost predicate IsWhole(r: real) { r == r.Floor as real }

  function Spelling(c: Const): string {
    match c case Text(s) => s case Number(lexeme, _) => lexeme case Boolean(b) => if b then "TRUE" else "FALSE"
  }

  /** The literal is of another kind than the type asks for, or a fraction where an integer is asked for. */
  ghost predicate IsMisfit(t: FullType, c: Const) {
    match t
    case TBoolean => !c.Boolean?
    case TInteger => !c.Number? || !IsWhole(c.value)
    case TFloat => !c.Number?
    case TString => !c.Text?
    case TTimestamp => !c.Text?
    case TList(_) => true
    case TDict => false
    case TUnknown => false
  }

  lemma LiteralsStand(t: FullType, c: Const)
    ensures forall v :: FormatValue(t, c) == Ok(v) <==> StandsFor(t, c, v)
    ensures FormatValue(t, c) == Err(TypeMismatch) <==> IsMisfit(t, c)
    ensures FormatValue(t, c).Err? ==> IsMisfit(t, c) || t == TDict
  {
  }

  /** The stored field that serves a property. */
  function FieldOf(h: Handler): Option<string> {
    match h
    case IdHandler => Some(ID_FIELD)
    case NumberHandler(field) => Some(field)
    case TimestampHandler(field) => Some(field)
    case StringHandler(field) => Some(field)
    case _ => None
  }

  /** How a value in the database relates to the one asked for. */
  ghost predicate Relates(op: CompareOp, a: Value, b: Value) {
    match op
    case Eq => a == b
    case Ne => a != b
    case Lt => Precedes(a, b)
    case Gt => Precedes(b, a)
    case Le => Precedes(a, b) || a == b
    case Ge => Precedes(b, a) || a == b
  }

  /** Numbers by size, texts by their first difference, false before true; values of other kinds not at all. */
  ghost predicate Precedes(a: Value, b: Value) {
    || (a.Num? && b.Num? && a.r < b.r)
    || (a.Flag? && b.Flag? && !a.b && b.b)
    || (a.Str? && b.Str? && exists k: nat :: FirstDifference(a.s, b.s, k))
  }

  /** The texts agree before position `k`, where the first one ends or has the smaller character. */
  predicate FirstDifference(a: string, b: string, k: nat) {
    k <= |a| && k < |b| && a[..k] == b[..k] && (k == |a| || a[k] < b[k])
  }

  lemma DifferenceShifts(a: string, b: string, k: nat)
    requires a != [] && b != [] && a[0] == b[0]
    ensures FirstDifference(a, b, k + 1) <==> FirstDifference(a[1..], b[1..], k)
  {
    if k + 1 <= |a| && k + 1 < |b| {
      assert a[..k + 1] == [a[0]] + a[1..][..k] && b[..k + 1] == [b[0]] + b[1..][..k];
      assert a[..k + 1][1..] == a[1..][..k] && b[..k + 1][1..] == b[1..][..k];
    }
  }

  lemma AgreesBefore(a: string, b: string, k: nat)
    requires k > 0 && FirstDifference(a, b, k)
    ensures a[0] == b[0]
  {
    assert a[..k][0] == a[0] && b[..k][0] == b[0];
  }

  lemma {:induction false} TextOrder(a: string, b: string)
    ensures TextLess(a, b) <==> exists k: nat :: FirstDifference(a, b, k)
  {
    if b == [] || a == [] || a[0] != b[0] {
      if b != [] && (a == [] || a[0] < b[0]) {
        assert FirstDifference(a, b, 0);
      }
      forall k: nat | FirstDifference(a, b, k) ensures b != [] && (a == [] || a[0] < b[0]) {
        if k > 0 {
          AgreesBefore(a, b, k);
        }
      }
    } else {
      TextOrder(a[1..], b[1..]);
      if k: nat :| FirstDifference(a[1..], b[1..], k) {
        DifferenceShifts(a, b, k);
      }
      if k: nat :| FirstDifference(a, b, k) {
        assert k > 0;
        DifferenceShifts(a, b, k - 1);
      }
    }
  }

  lemma ComparesRelates(op: CompareOp, a: Value, b: Value)
    ensures Compares(op, a, b) <==> Relates(op, a, b)
  {
    if a.Str? && b.Str? {
      TextOrder(a.s, b.s);
      TextOrder(b.s, a.s);
    }
  }

  // ---------------------------------------------------------------- refusals

  /** The tests of a filter, in the order they are written. */
  function Leaves(f: Filter): seq<Filter> {
    match f
    case And(l, r) => Leaves(l) + Leaves(r)
    case Or(l, r) => Leaves(l) + Leaves(r)
    case Not(x) => Leaves(x)
    case _ => [f]
  }

  predicate AllServed(cfg: Config, resolver: Option<Resolver>, leaves: seq<Filter>) {
    forall i :: 0 <= i < |leaves| ==> Translate(cfg, resolver, leaves[i]).Ok?
  }

  lemma ServedInParts(cfg: Config, resolver: Option<Resolver>, a: seq<Filter>, b: seq<Filter>)
    ensures AllServed(cfg, resolver, a + b) <==> AllServed(cfg, resolver, a) && AllServed(cfg, resolver, b)
  {
    assert forall i :: 0 <= i < |a| ==> (a + b)[i] == a[i];
    forall i | 0 <= i < |b| && AllServed(cfg, resolver, a + b) ensures Translate(cfg, resolver, b[i]).Ok? {
      assert (a + b)[|a| + i] == b[i];
    }
  }

  /** The first test that is refused, if one is, refuses for this reason. */
  ghost predicate RefusedFirst(cfg: Config, resolver: Option<Resolver>, leaves: seq<Filter>, error: FilterError) {
    exists i :: 0 <= i < |leaves| && Translate(cfg, resolver, leaves[i]) == Err(error)
                && forall j :: 0 <= j < i ==> Translate(cfg, resolver, leaves[j]).Ok?
  }

  lemma RefusedInFirstPart(cfg: Config, resolver: Option<Resolver>, a: seq<Filter>, b: seq<Filter>, error: FilterError)
    requires RefusedFirst(cfg, resolver, a, error)
    ensures RefusedFirst(cfg, resolver, a + b, error)
  {
    var i :| 0 <= i < |a| && Translate(cfg, resolver, a[i]) == Err(error)
      && forall j :: 0 <= j < i ==> Translate(cfg, resolver, a[j]).Ok?;
    assert (a + b)[i] == a[i] && forall j :: 0 <= j < i ==> (a + b)[j] == a[j];
  }

  lemma RefusedInSecondPart(cfg: Config, resolver: Option<Resolver>, a: seq<Filter>, b: seq<Filter>,
                            error: FilterError)
    requires RefusedFirst(cfg, resolver, b, error) && AllServed(cfg, resolver, a)
    ensures RefusedFirst(cfg, resolver, a + b, error)
  {
    var i :| 0 <= i < |b| && Translate(cfg, resolver, b[i]) == Err(error)
      && forall j :: 0 <= j < i ==> Translate(cfg, resolver, b[j]).Ok?;
    assert (a + b)[|a| + i] == b[i];
    forall j | 0 <= j < |a| + i ensures Translate(cfg, resolver, (a + b)[j]).Ok? {
      assert (a + b)[j] == if j < |a| then a[j] else b[j - |a|];
    }
  }

  /** A filter is refused exactly when one of its tests is, and for the reason of the first of these. */
  lemma {:induction false} RefusedByItsTests(cfg: Config, resolver: Option<Resolver>, f: Filter)
    ensures Translate(cfg, resolver, f).Ok? <==> AllServed(cfg, resolver, Leaves(f))
    ensures Translate(cfg, resolver, f).Err? ==>
              RefusedFirst(cfg, resolver, Leaves(f), Translate(cfg, resolver, f).error)
    decreases f
  {
    match f
    case And(l, r) => RefusedByEither(cfg, resolver, f, l, r);
    case Or(l, r) => RefusedByEither(cfg, resolver, f, l, r);
    case Not(x) => RefusedByItsTests(cfg, resolver, x);
    case _ => assert Leaves(f) == [f] && Leaves(f)[0] == f;
  }

  lemma {:induction false} RefusedByEither(cfg: Config, resolver: Option<Resolver>, f: Filter, l: Filter, r: Filter)
    requires f == And(l, r) || f == Or(l, r)
    ensures Translate(cfg, resolver, f).Ok? <==> AllServed(cfg, resolver, Leaves(f))
    ensures Translate(cfg, resolver, f).Err? ==>
              RefusedFirst(cfg, resolver, Leaves(f), Translate(cfg, resolver, f).error)
    decreases f, 0
  {
    RefusedByItsTests(cfg, resolver, l);
    RefusedByItsTests(cfg, resolver, r);
    var a, b := Leaves(l), Leaves(r);
    assert Leaves(f) == a + b;
    ServedInParts(cfg, resolver, a, b);
    if Translate(cfg, resolver, l).Err? {
      RefusedInFirstPart(cfg, resolver, a, b, Translate(cfg, resolver, l).error);
    } else if Translate(cfg, resolver, r).Err? {
      RefusedInSecondPart(cfg, resolver, a, b, Translate(cfg, resolver, r).error);
    }
  }

  // ------------------------------------------------------------- comparisons

  /** A comparison with the property on the left. */
  function Compared(name: string, op: CompareOp, c: Const): Filter { Compare(op, Ident(Path(name, [])), Lit(c)) }

  lemma ComparisonIsFieldTest(cfg: Config, resolver: Option<Resolver>, name: string, op: CompareOp, c: Const,
                              v: Value)
    requires name in cfg.fulltypes && name in cfg.handlers && StandsFor(cfg.fulltypes[name], c, v)
    requires !cfg.handlers[name].handler.TimestampHandler? && FieldOf(cfg.handlers[name].handler).Some?
    requires c.Boolean? ==> op in {Eq, Ne}
    ensures Translate(cfg, resolver, Compared(name, op, c))
         == Ok(FieldCompare(FieldOf(cfg.handlers[name].handler).value, op, v))
  {
    LiteralsStand(cfg.fulltypes[name], c);
    assert FormatValue(cfg.fulltypes[name], c) == Ok(v);
  }

  lemma FieldTestRelates(row: Row, field: string, op: CompareOp, v: Value)
    ensures Eval(FieldCompare(field, op, v), row) == True
       <==> field in row.scalars && Relates(op, row.scalars[field], v)
    ensures Eval(FieldCompare(field, op, v), row) == Unknown <==> field !in row.scalars
  {
    if field in row.scalars {
      ComparesRelates(op, row.scalars[field], v);
    }
  }

  /** On a row whose stored value relates to the literal's as the operator says, and on no other, the translated
      comparison is true. */
  lemma ComparisonAsks(cfg: Config, resolver: Option<Resolver>, row: Row, name: string, op: CompareOp, c: Const,
                       v: Value)
    requires name in cfg.fulltypes && name in cfg.handlers && StandsFor(cfg.fulltypes[name], c, v)
    requires !cfg.handlers[name].handler.TimestampHandler? && FieldOf(cfg.handlers[name].handler).Some?
    requires c.Boolean? ==> op in {Eq, Ne}
    ensures var e, field := Translate(cfg, resolver, Compared(name, op, c)), FieldOf(cfg.handlers[name].handler).value;
            && e.Ok?
            && (Eval(e.value, row) == True <==> field in row.scalars && Relates(op, row.scalars[field], v))
            && (Eval(e.value, row) == Unknown <==> field !in row.scalars)
  {
    ComparisonIsFieldTest(cfg, resolver, name, op, c, v);
    FieldTestRelates(row, FieldOf(cfg.handlers[name].handler).value, op, v);
  }

  /** Timestamps are compared by their UTC spelling. */
  lemma TimestampAsks(cfg: Config, resolver: Option<Resolver>, row: Row, name: string, op: CompareOp, text: string)
    requires name in cfg.fulltypes && name in cfg.handlers && cfg.handlers[name].handler.TimestampHandler?
    requires cfg.fulltypes[name] == TTimestamp
    ensures var e, field := Translate(cfg, resolver, Compared(name, op, Text(text))), cfg.handlers[name].handler.field;
            && (e.Ok? <==> cfg.normalize(text).Some?) && (e.Err? ==> e.error == TypeMismatch)
            && (e.Ok? ==> (Eval(e.value, row) == True <==>
                             field in row.scalars && Relates(op, row.scalars[field], Str(cfg.normalize(text).value))))
  {
    if cfg.normalize(text).Some? {
      FieldTestRelates(row, cfg.handlers[name].handler.field, op, Str(cfg.normalize(text).value));
    }
  }

  /** A comparison with an own property is refused as a type mismatch exactly when the literal does not fit the
      declared type, or is no timestamp where one is compared. */
  lemma MisfitsAreRefused(cfg: Config, resolver: Option<Resolver>, name: string, op: CompareOp, c: Const)
    requires name in cfg.fulltypes && ConfigOk(cfg)
    ensures Translate(cfg, resolver, Compared(name, op, c)) == Err(TypeMismatch)
       <==> && (c.Boolean? ==> op in {Eq, Ne}) && name in cfg.handlers && !cfg.handlers[name].handler.ListHandler?
            && (IsMisfit(cfg.fulltypes[name], c)
                || (cfg.handlers[name].handler.TimestampHandler? && c.Text? && cfg.normalize(c.s).None?))
  {
    LiteralsStand(cfg.fulltypes[name], c);
  }

  /** A literal on the left asks the same of the values the other way round. */
  lemma LiteralOnTheLeft(cfg: Config, resolver: Option<Resolver>, name: string, op: CompareOp, c: Const)
    ensures Translate(cfg, resolver, Compare(op, Lit(c), Ident(Path(name, []))))
         == Translate(cfg, resolver, Compared(name, InvertOp(op), c))
    ensures forall a, b :: Relates(InvertOp(op), a, b) <==> Relates(op, b, a)
  {
  }

  // ------------------------------------------------------- text and nullity

  ghost predicate TextStands(kind: MatchKind, value: string, text: string) {
    match kind
    case Starts => exists after :: value == text + after
    case Ends => exists before :: value == before + text
    case Contains => exists before, after :: value == before + text + after
  }

  lemma MatchingIsSplitting(kind: MatchKind, value: string, text: string)
    ensures TextMatches(kind, value, text) <==> TextStands(kind, value, text)
  {
    match kind
    case Starts =>
      if TextMatches(kind, value, text) {
        assert value == text + value[|text|..];
      }
    case Ends =>
      if TextMatches(kind, value, text) {
        assert value == value[..|value| - |text|] + text;
      }
    case Contains =>
      if i :| 0 <= i <= |value| - |text| && OccursAt(value, text, i) {
        assert value == value[..i] + text + value[i + |text|..];
      }
      if before, after :| value == before + text + after {
        assert OccursAt(value, text, |before|);
      }
  }

  lemma FieldMatchStands(row: Row, field: string, kind: MatchKind, text: string)
    ensures Eval(FieldMatch(field, kind, Str(text)), row) == True <==>
            field in row.scalars && row.scalars[field].Str? && TextStands(kind, row.scalars[field].s, text)
  {
    if field in row.scalars && row.scalars[field].Str? {
      MatchingIsSplitting(kind, row.scalars[field].s, text);
    }
  }

  /** Matching a text property by a text literal. */
  lemma MatchAsks(cfg: Config, resolver: Option<Resolver>, row: Row, name: string, kind: MatchKind, text: string)
    requires name in cfg.fulltypes && name in cfg.handlers && cfg.fulltypes[name] in {TString, TTimestamp, TUnknown}
    requires cfg.handlers[name].handler.StringHandler? || cfg.handlers[name].handler.IdHandler?
    ensures var e := Translate(cfg, resolver, Match(kind, Path(name, []), Lit(Text(text))));
            var field := FieldOf(cfg.handlers[name].handler).value;
            && e.Ok?
            && (Eval(e.value, row) == True <==>
                  field in row.scalars && row.scalars[field].Str? && TextStands(kind, row.scalars[field].s, text))
  {
    FieldMatchStands(row, FieldOf(cfg.handlers[name].handler).value, kind, text);
  }

  /** The entry type is a constant: it is compared and matched when the filter is translated. */
  lemma TypeAsks(cfg: Config, resolver: Option<Resolver>, row: Row, name: string, op: CompareOp, kind: MatchKind,
                 text: string)
    requires name in cfg.fulltypes && name in cfg.handlers && cfg.handlers[name].handler.TypeHandler?
    requires cfg.fulltypes[name] == TString
    ensures var e := Translate(cfg, resolver, Compared(name, op, Text(text)));
            && e.Ok? && Eval(e.value, row) != Unknown
            && (Eval(e.value, row) == True <==> Relates(op, Str(cfg.handlers[name].handler.entryType), Str(text)))
    ensures var e := Translate(cfg, resolver, Match(kind, Path(name, []), Lit(Text(text))));
            && e.Ok? && Eval(e.value, row) != Unknown
            && (Eval(e.value, row) == True <==> TextStands(kind, cfg.handlers[name].handler.entryType, text))
  {
    ComparesRelates(op, Str(cfg.handlers[name].handler.entryType), Str(text));
    MatchingIsSplitting(kind, cfg.handlers[name].handler.entryType, text);
  }

  /** A test of nullity made on the field is true exactly where the field has a value, or has none. */
  lemma NullityAsks(cfg: Config, resolver: Option<Resolver>, row: Row, name: string, isKnown: bool)
    requires name in cfg.fulltypes && name in cfg.handlers && cfg.handlers[name].known.FieldTest?
    ensures var e := Translate(cfg, resolver, Known(isKnown, Path(name, [])));
            && e.Ok? && Eval(e.value, row) != Unknown
            && (Eval(e.value, row) == True <==> isKnown == (cfg.handlers[name].known.field in row.scalars))
  {
  }

  // -------------------------------------------------------------- lists

  /** Every literal stands for a value; the sets of held and of named values are compared as the filter says. */
  ghost predicate HeldStands(kind: HasKind, held: seq<Value>, t: FullType, cs: seq<Const>) {
    match kind
    case HasAll => forall i :: 0 <= i < |cs| ==> exists v :: StandsFor(t, cs[i], v) && v in held
    case HasAny => exists i, v :: 0 <= i < |cs| && StandsFor(t, cs[i], v) && v in held
    case HasOnly => forall v :: v in held ==> exists i :: 0 <= i < |cs| && StandsFor(t, cs[i], v)
  }

  lemma {:induction false} FormattedStand(t: FullType, cs: seq<Const>)
    ensures FormatEach(t, cs).Ok? <==> cs == [] || (t != TDict && forall i :: 0 <= i < |cs| ==> !IsMisfit(t, cs[i]))
    ensures FormatEach(t, cs).Ok? ==>
              && |FormatEach(t, cs).value| == |cs|
              && forall i :: 0 <= i < |cs| ==> StandsFor(t, cs[i], FormatEach(t, cs).value[i])
  {
    if cs != [] {
      var n := |cs| - 1;
      FormattedStand(t, cs[..n]);
      LiteralsStand(t, cs[n]);
    }
  }

  /** The values of a list field; an absent list is empty. */
  function Stored(row: Row, field: string): seq<Value> {
    if field in row.lists then row.lists[field] else []
  }

  lemma ListIsSetTest(cfg: Config, resolver: Option<Resolver>, name: string, kind: HasKind, cs: seq<Const>)
    requires name in cfg.fulltypes && cfg.fulltypes[name].TList?
    requires name in cfg.handlers && cfg.handlers[name].handler.ListHandler? && cs != []
    ensures var f := Has(kind, seq(|cs|, i => Eq), Path(name, []), cs);
            var e, t := Translate(cfg, resolver, f), cfg.fulltypes[name].element;
            && (e.Ok? <==> FormatEach(t, cs).Ok?)
            && (e.Ok? ==> e == SetFilter(f, cfg.handlers[name].handler.field, t))
  {
    FormatEachKeepsLength(cfg.fulltypes[name].element, cs);
  }

  /** A list property with literals that all fit: the filter holds exactly as the held and named values say. */
  lemma ListAsks(cfg: Config, resolver: Option<Resolver>, row: Row, name: string, kind: HasKind, cs: seq<Const>)
    requires name in cfg.fulltypes && cfg.fulltypes[name].TList? && cfg.fulltypes[name].element != TDict
    requires name in cfg.handlers && cfg.handlers[name].handler.ListHandler? && cs != []
    ensures var e := Translate(cfg, resolver, Has(kind, seq(|cs|, i => Eq), Path(name, []), cs));
            && (e.Ok? <==> forall i :: 0 <= i < |cs| ==> !IsMisfit(cfg.fulltypes[name].element, cs[i]))
            && (e.Ok? ==> Eval(e.value, row) != Unknown)
            && (e.Ok? ==> (Eval(e.value, row) == True <==>
                             HeldStands(kind, Stored(row, cfg.handlers[name].handler.field),
                                        cfg.fulltypes[name].element, cs)))
  {
    var t, field := cfg.fulltypes[name].element, cfg.handlers[name].handler.field;
    var f := Has(kind, seq(|cs|, i => Eq), Path(name, []), cs);
    FormattedStand(t, cs);
    ListIsSetTest(cfg, resolver, name, kind, cs);
    if FormatEach(t, cs).Ok? {
      SetFilterMeans(f, field, t, row);
      ContainedStands(kind, ListOf(row, field), t, cs);
    }
  }

  lemma ContainedStands(kind: HasKind, held: seq<Value>, t: FullType, cs: seq<Const>)
    requires FormatEach(t, cs).Ok?
    ensures Contained(kind, held, FormatEach(t, cs).value) <==> HeldStands(kind, held, t, cs)
  {
    FormattedStand(t, cs);
    var wanted := FormatEach(t, cs).value;
    forall i, v | 0 <= i < |cs| && StandsFor(t, cs[i], v) ensures v == wanted[i] {
      assert StandsFor(t, cs[i], wanted[i]);
    }
  }

  // ---------------------------------------------------------- related entries

  /** An id in the row's list of related ids belongs to a stored entry of the type on which the leaf is true. */
  ghost predicate SomeEntryHolds(w: World, related: seq<Value>, t: string, f: Filter)
    requires IsLeaf(f)
  {
    exists id: string :: Str(id) in related && t in w.configs && t in w.entries && id in w.entries[t]
                         && LeafHolds(w.configs[t], w.entries[t][id], f) == True
  }

  /** A test of related entries asks the resolver once, for the test as it stands after the relationship's name, and
      is true exactly where the row names an id of the answer: with an exact resolver, where it names an entry
      that passes. */
  lemma RelatedAsks(w: World, cfg: Config, resolver: Option<Resolver>, row: Row, f: Filter)
    requires ConfigOk(cfg) && Exact(w, resolver) && IsLeaf(f) && IsRelated(cfg, f)
    requires Translate(cfg, resolver, f).Ok?
    ensures var t := PathOf(f).root;
            var handler := t + ".id";
            var e := Eval(Translate(cfg, resolver, f).value, row);
            && e != Unknown
            && (e == True <==>
                  && handler in cfg.handlers && cfg.handlers[handler].handler.ListHandler?
                  && SomeEntryHolds(w, Stored(row, cfg.handlers[handler].handler.field), t, Stripped(f)))
  {
    RelatedIsFaithful(w, cfg, resolver, row, f);
    var t := PathOf(f).root;
    forall id: string ensures EntrySatisfies(w, t, id, Stripped(f)) <==>
                      t in w.configs && t in w.entries && id in w.entries[t]
                      && LeafHolds(w.configs[t], w.entries[t][id], Stripped(f)) == True
    {
    }
  }

  // ------------------------------------------------------ unknown properties

  /** The name begins with a prefix that the server has claimed for properties of its own. */
  ghost predicate BearsPrefix(cfg: Config, name: string) {
    exists prefix, rest: string :: prefix in cfg.prefixes && name == prefix + rest
  }

  lemma ClaimedBearsPrefix(cfg: Config, name: string)
    ensures Claimed(cfg, name) <==> BearsPrefix(cfg, name)
  {
    if prefix :| prefix in cfg.prefixes && IsPrefix(prefix, name) {
      assert name == prefix + name[|prefix|..];
    }
    if prefix, rest: string :| prefix in cfg.prefixes && name == prefix + rest {
      assert IsPrefix(prefix, name);
    }
  }

  /** A test of a property the server does not know is refused exactly when the name bears a claimed prefix.
      Otherwise it is false, but for IS UNKNOWN, which is true. */
  lemma UnknownPropertyAsks(cfg: Config, resolver: Option<Resolver>, name: string, op: CompareOp, kind: MatchKind,
                            text: string, c: Const, isKnown: bool)
    requires name !in cfg.fulltypes && (c.Boolean? ==> op in {Eq, Ne})
    ensures Translate(cfg, resolver, Compared(name, op, c))
         == if BearsPrefix(cfg, name) then Err(UnrecognizedProperty) else Ok(Never)
    ensures Translate(cfg, resolver, Match(kind, Path(name, []), Lit(Text(text))))
         == if BearsPrefix(cfg, name) then Err(UnrecognizedProperty) else Ok(Never)
    ensures Translate(cfg, resolver, Known(isKnown, Path(name, [])))
         == if BearsPrefix(cfg, name) then Err(UnrecognizedProperty) else Ok(if isKnown then Never else Always)
  {
    ClaimedBearsPrefix(cfg, name);
  }

  /** So is a HAS or LENGTH filter on such a property; a HAS filter must name values and compare them for
      equality besides. */
  lemma UnknownListAsks(cfg: Config, resolver: Option<Resolver>, name: string, kind: HasKind, ops: seq<CompareOp>,
                        values: seq<Const>, op: CompareOp, lexeme: string, size: real)
    requires name !in cfg.fulltypes
    ensures Translate(cfg, resolver, Length(Path(name, []), op, Lit(Number(lexeme, size))))
         == if BearsPrefix(cfg, name) then Err(UnrecognizedProperty) else Ok(Never)
    ensures Translate(cfg, resolver, Has(kind, ops, Path(name, []), values))
         == if BearsPrefix(cfg, name) then Err(UnrecognizedProperty)
            else if values == [] then Err(Crash)
            else if ops == seq(|values|, i => Eq) then Ok(Never) else Err(NotImplemented)
  {
    ClaimedBearsPrefix(cfg, name);
  }

  /** The generated table serves every mapped property by the stored key it is mapped to: lists by set tests, text
      by matching, timestamps by their UTC spelling. */
  lemma GeneratedTableServes(entryType: string, keys: map<string, string>, cfg: Config, name: string)
    requires cfg.handlers == SimpleHandlers(entryType, keys, cfg.fulltypes) && name in cfg.fulltypes
    ensures name in keys ==>
              var h := cfg.handlers[name].handler;
              && h == (if cfg.fulltypes[name].TList? then ListHandler(keys[name])
                       else match cfg.fulltypes[name]
                            case TInteger => NumberHandler(keys[name])
                            case TFloat => NumberHandler(keys[name])
                            case TTimestamp => TimestampHandler(keys[name])
                            case _ => StringHandler(keys[name]))
    ensures name in cfg.handlers <==> name in keys || name == "id" || name == "type"
    ensures name in cfg.handlers && name !in keys ==>
              cfg.handlers[name].handler == if name == "id" then IdHandler else TypeHandler(entryType)
  {
  }

  function Flat(parts: seq<string>): string {
    if parts == [] then "" else "." + parts[0] + Flat(parts[1..])
  }

  lemma {:induction false} FlatStep(parts: seq<string>, last: string)
    ensures Flat(parts + [last]) == Flat(parts) + "." + last
  {
    if parts == [] {
      assert [last][1..] == [];
    } else {
      assert (parts + [last])[1..] == parts[1..] + [last];
      FlatStep(parts[1..], last);
    }
  }

  /** The handler key of a deep path spells all its parts with dots between them. */
  lemma {:induction false} DottedIsFlat(p: Path)
    ensures Dotted(p) == p.root + Flat(p.rest)
    decreases |p.rest|
  {
    if p.rest != [] {
      var n := |p.rest| - 1;
      DottedIsFlat(Path(p.root, p.rest[..n]));
      FlatStep(p.rest[..n], p.rest[n]);
      SplitLast(p.rest);
    }
  }
}
