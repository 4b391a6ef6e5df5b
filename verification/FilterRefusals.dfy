/** Which single tests the translation serves, and why it refuses the others. */
module FilterRefusals {
  import opened Common
  import opened FilterModel
  import opened FilterTranslation
  import opened FilterLiterals

  /** The literal stands for some value that the property's handler can take. */
  ghost predicate CanTake(cfg: Config, name: string, c: Const)
    requires name in cfg.fulltypes && name in cfg.handlers
  {
    exists v :: StandsFor(cfg.fulltypes[name], c, v)
                && (cfg.handlers[name].handler.TimestampHandler? ==> v.Str? && cfg.normalize(v.s).Some?)
  }

  /** The texts or numbers of a set filter: at least one, each compared for equality, each fitting the type. */
  ghost predicate ListFits(t: FullType, ops: seq<CompareOp>, values: seq<Const>) {
    && values != [] && |ops| == |values| && (forall i :: 0 <= i < |ops| ==> ops[i] == Eq)
    && forall i :: 0 <= i < |values| ==> IsReadable(t, values[i])
  }

  /** The literal stands for some value of the type. */
  ghost predicate IsReadable(t: FullType, c: Const) { exists v :: StandsFor(t, c, v) }

  /** What the resolver is asked: the test behind the relationship's name, with the property on the left. */
  function Asked(f: Filter): Filter
    requires IsLeaf(f) && PathOf(f).rest != []
  {
    if f.Compare? && f.lhs.Lit? then Stripped(Compare(InvertOp(f.op), f.rhs, f.lhs)) else Stripped(f)
  }

  /** A test of related entries is served when the relationship is followed by one name, a resolver is at hand, and
      the row stores the related ids if there are any to look for. */
  ghost predicate RelatedServed(cfg: Config, resolver: Option<Resolver>, f: Filter)
    requires IsLeaf(f) && PathOf(f).rest != []
  {
    var p := PathOf(f);
    && resolver.Some? && |p.rest| == 1
    && (resolver.value(p.root, Asked(f)) == [] || ListHandlerField(cfg, p.root + ".id").Some?)
  }

  predicate IsRelationship(cfg: Config, p: Path) { p.rest != [] && p.root in cfg.targets }

  // -------------------------------------------------------------- comparisons

  ghost predicate CompareServed(cfg: Config, resolver: Option<Resolver>, f: Filter)
    requires f.Compare?
  {
    && f.lhs.Ident? != f.rhs.Ident?
    && var c := if f.lhs.Lit? then f.lhs.literal else f.rhs.literal;
       var p := Subject(f);
       && (c.Boolean? ==> f.op in {Eq, Ne})
       && if IsRelationship(cfg, p) then RelatedServed(cfg, resolver, f)
          else if p.root !in cfg.fulltypes then !BearsPrefix(cfg, p.root)
          else p.root in cfg.handlers && !cfg.handlers[p.root].handler.ListHandler? && CanTake(cfg, p.root, c)
  }

  lemma OwnCompareIsServed(cfg: Config, name: string, op: CompareOp, c: Const)
    requires name in cfg.fulltypes
    ensures CompareExpr(cfg, name, op, c).Ok? <==>
            name in cfg.handlers && !cfg.handlers[name].handler.ListHandler? && CanTake(cfg, name, c)
  {
    LiteralsStand(cfg.fulltypes[name], c);
    if name in cfg.handlers && FormatValue(cfg.fulltypes[name], c).Ok? {
      assert StandsFor(cfg.fulltypes[name], c, FormatValue(cfg.fulltypes[name], c).value);
    }
  }

  lemma RelatedIsServed(cfg: Config, resolver: Option<Resolver>, f: Filter)
    requires IsLeaf(f) && Weight(f) == 1 && IsRelationship(cfg, PathOf(f)) && (f.Compare? ==> f.lhs.Ident?)
    ensures SemiJoin(cfg, resolver, f).Ok? <==> RelatedServed(cfg, resolver, f)
  {
    var p := PathOf(f);
    if resolver.Some? && |p.rest| == 1 && resolver.value(p.root, Stripped(f)) != [] {
      var ids := resolver.value(p.root, Stripped(f));
      var g := Rewritten(p.root, ids);
      TextsFormat(ids);
      assert Translate(cfg, resolver, g) == TranslateHas(cfg, resolver, g);
    }
  }

  lemma CompareIsServed(cfg: Config, resolver: Option<Resolver>, f: Filter)
    requires f.Compare?
    ensures Translate(cfg, resolver, f).Ok? <==> CompareServed(cfg, resolver, f)
  {
    if f.lhs.Ident? != f.rhs.Ident? {
      var p := Subject(f);
      var (op, c) := if f.lhs.Ident? then (f.op, f.rhs.literal) else (InvertOp(f.op), f.lhs.literal);
      var g := Compare(op, Ident(p), Lit(c));
      ClaimedBearsPrefix(cfg, p.root);
      if IsRelationship(cfg, p) {
        RelatedIsServed(cfg, resolver, g);
      } else if p.root in cfg.fulltypes {
        OwnCompareIsServed(cfg, p.root, op, c);
      }
    }
  }

  // ------------------------------------------------------ matches and nullity

  ghost predicate MatchServed(cfg: Config, resolver: Option<Resolver>, f: Filter)
    requires f.Match?
  {
    var p := f.path;
    if IsRelationship(cfg, p) then RelatedServed(cfg, resolver, f)
    else
      && f.text.Lit?
      && if p.root !in cfg.fulltypes then !BearsPrefix(cfg, p.root)
         else
           && p.root in cfg.handlers
           && match cfg.handlers[p.root].handler
              case IdHandler => IsReadable(cfg.fulltypes[p.root], f.text.literal)
              case StringHandler(_) => IsReadable(cfg.fulltypes[p.root], f.text.literal)
              case TypeHandler(_) => exists v: Value :: v.Str? && StandsFor(cfg.fulltypes[p.root], f.text.literal, v)
              case _ => false
  }

  lemma MatchIsServed(cfg: Config, resolver: Option<Resolver>, f: Filter)
    requires f.Match?
    ensures Translate(cfg, resolver, f).Ok? <==> MatchServed(cfg, resolver, f)
  {
    ClaimedBearsPrefix(cfg, f.path.root);
    if IsRelationship(cfg, f.path) {
      RelatedIsServed(cfg, resolver, f);
    } else if f.text.Lit? && f.path.root in cfg.fulltypes {
      LiteralsStand(cfg.fulltypes[f.path.root], f.text.literal);
    }
  }

  ghost predicate KnownServed(cfg: Config, resolver: Option<Resolver>, f: Filter)
    requires f.Known?
  {
    if IsRelationship(cfg, f.path) then RelatedServed(cfg, resolver, f)
    else if f.path.root !in cfg.fulltypes then !BearsPrefix(cfg, f.path.root)
    else f.path.root in cfg.handlers
  }

  lemma KnownIsServed(cfg: Config, resolver: Option<Resolver>, f: Filter)
    requires f.Known?
    ensures Translate(cfg, resolver, f).Ok? <==> KnownServed(cfg, resolver, f)
  {
    ClaimedBearsPrefix(cfg, f.path.root);
    if IsRelationship(cfg, f.path) {
      RelatedIsServed(cfg, resolver, f);
    }
  }

  // -------------------------------------------------------- lists and lengths

  /** LENGTH is served for properties the server does not know, and for no others. */
  lemma LengthIsServed(cfg: Config, resolver: Option<Resolver>, f: Filter)
    requires f.Length?
    ensures Translate(cfg, resolver, f).Ok? <==>
            && !IsRelationship(cfg, f.path) && f.size.Lit? && f.size.literal.Number?
            && f.path.root !in cfg.fulltypes && !BearsPrefix(cfg, f.path.root)
  {
    ClaimedBearsPrefix(cfg, f.path.root);
  }

  ghost predicate HasServed(cfg: Config, resolver: Option<Resolver>, f: Filter)
    requires f.Has?
  {
    var p := f.path;
    if |p.rest| >= 2 && ListHandlerField(cfg, p.root + Flat(p.rest)).Some? then ListFits(TString, f.ops, f.values)
    else if |p.rest| >= 2 && BearsPrefix(cfg, p.root) then false
    else if IsRelationship(cfg, p) then
      if p.rest == ["id"] then ListHandlerField(cfg, p.root + ".id").Some? && ListFits(TString, f.ops, f.values)
      else RelatedServed(cfg, resolver, f)
    else if p.root !in cfg.fulltypes then !BearsPrefix(cfg, p.root) && ListFits(TUnknown, f.ops, f.values)
    else
      && cfg.fulltypes[p.root].TList? && ListHandlerField(cfg, p.root).Some?
      && ListFits(cfg.fulltypes[p.root].element, f.ops, f.values)
  }

  lemma ReadableFits(t: FullType, c: Const)
    ensures IsReadable(t, c) <==> t != TDict && !IsMisfit(t, c)
  {
    LiteralsStand(t, c);
    if t != TDict && !IsMisfit(t, c) {
      assert StandsFor(t, c, FormatValue(t, c).value);
    }
  }

  lemma FormatIsServed(t: FullType, values: seq<Const>)
    requires values != []
    ensures FormatEach(t, values).Ok? <==> forall i :: 0 <= i < |values| ==> IsReadable(t, values[i])
    ensures FormatEach(t, values).Ok? ==> |FormatEach(t, values).value| == |values|
  {
    FormattedStand(t, values);
    forall i | 0 <= i < |values| ensures IsReadable(t, values[i]) <==> t != TDict && !IsMisfit(t, values[i]) {
      ReadableFits(t, values[i]);
    }
    assert 0 <= 0 < |values|;
    ReadableFits(t, values[0]);
  }

  lemma SetFilterIsServed(f: Filter, field: string, t: FullType)
    requires f.Has?
    ensures SetFilter(f, field, t).Ok? <==> ListFits(t, f.ops, f.values)
  {
    if f.values != [] {
      FormatIsServed(t, f.values);
      AllEqualIsEach(f.ops, |f.values|);
    }
  }

  lemma AllEqualIsEach(ops: seq<CompareOp>, n: nat)
    ensures AllEqual(ops, n) <==> |ops| == n && forall i :: 0 <= i < |ops| ==> ops[i] == Eq
  {
    if |ops| == n && forall i :: 0 <= i < |ops| ==> ops[i] == Eq {
      assert ops == seq(n, i => Eq);
    }
  }

  lemma HasIsServed(cfg: Config, resolver: Option<Resolver>, f: Filter)
    requires f.Has?
    ensures Translate(cfg, resolver, f).Ok? <==> HasServed(cfg, resolver, f)
  {
    var p := f.path;
    assert Translate(cfg, resolver, f) == TranslateHas(cfg, resolver, f);
    ClaimedBearsPrefix(cfg, p.root);
    DottedIsFlat(p);
    if |p.rest| >= 2 && ListHandlerField(cfg, Dotted(p)).Some? {
      SetFilterIsServed(f, ListHandlerField(cfg, Dotted(p)).value, TString);
    } else if |p.rest| >= 2 && Claimed(cfg, p.root) {
      assert !HasServed(cfg, resolver, f);
    } else if IsRelationship(cfg, p) {
      if p.rest != ["id"] {
        RelatedIsServed(cfg, resolver, f);
      } else if ListHandlerField(cfg, p.root + ".id").Some? {
        SetFilterIsServed(f, ListHandlerField(cfg, p.root + ".id").value, TString);
      }
    } else if p.root in cfg.fulltypes {
      OwnHasIsServed(cfg, resolver, f);
    } else {
      AllEqualIsEach(f.ops, |f.values|);
      forall c ensures IsReadable(TUnknown, c) {
        assert StandsFor(TUnknown, c, Str(Spelling(c)));
      }
    }
  }

  lemma OwnHasIsServed(cfg: Config, resolver: Option<Resolver>, f: Filter)
    requires f.Has? && !IsRelationship(cfg, f.path) && f.path.root in cfg.fulltypes
    requires |f.path.rest| >= 2 ==> ListHandlerField(cfg, Dotted(f.path)).None? && !Claimed(cfg, f.path.root)
    ensures TranslateHas(cfg, resolver, f).Ok? <==>
            && cfg.fulltypes[f.path.root].TList? && ListHandlerField(cfg, f.path.root).Some?
            && ListFits(cfg.fulltypes[f.path.root].element, f.ops, f.values)
  {
    var own := ListHandlerField(cfg, f.path.root);
    if cfg.fulltypes[f.path.root].TList? && own.Some? {
      var t := cfg.fulltypes[f.path.root].element;
      SetFilterIsServed(f, own.value, t);
      if f.values != [] {
        FormatIsServed(t, f.values);
      }
    }
  }

  /** A set filter on an own property that is no list is not implemented for dictionaries and unknown types; the
      translator fails on any other, as it expects a list type. A list that does not fit is a type mismatch. */
  lemma WrongListsAreRefused(cfg: Config, resolver: Option<Resolver>, name: string, kind: HasKind,
                             ops: seq<CompareOp>, values: seq<Const>)
    requires name in cfg.fulltypes
    ensures var r := Translate(cfg, resolver, Has(kind, ops, Path(name, []), values));
            match cfg.fulltypes[name]
            case TDict => r == Err(NotImplemented)
            case TUnknown => r == Err(NotImplemented)
            case TList(t) => (exists c :: c in values && IsMisfit(t, c)) && t != TDict ==> r == Err(TypeMismatch)
            case _ => r == Err(Crash)
  {
    if cfg.fulltypes[name].TList? && exists c :: c in values && IsMisfit(cfg.fulltypes[name].element, c) {
      MisfitInList(cfg.fulltypes[name].element, values);
    }
  }

  lemma {:induction false} MisfitInList(t: FullType, values: seq<Const>)
    requires t != TDict && exists c :: c in values && IsMisfit(t, c)
    ensures FormatEach(t, values) == Err(TypeMismatch)
  {
    var n := |values| - 1;
    LiteralsStand(t, values[n]);
    SplitLast(values);
    if exists c :: c in values[..n] && IsMisfit(t, c) {
      MisfitInList(t, values[..n]);
    } else {
      assert IsMisfit(t, values[n]);
      FormattedStand(t, values[..n]);
    }
  }

  /** A filter is without tests of unknown properties exactly when none of its leaves is one. */
  lemma {:induction false} NoneAbsentInLeaves(cfg: Config, f: Filter)
    ensures NoneAbsent(cfg, f) <==> forall leaf :: leaf in Leaves(f) && IsLeaf(leaf) ==> !IsAbsentTest(cfg, leaf)
  {
    match f
    case And(l, r) =>
      NoneAbsentInLeaves(cfg, l);
      NoneAbsentInLeaves(cfg, r);
    case Or(l, r) =>
      NoneAbsentInLeaves(cfg, l);
      NoneAbsentInLeaves(cfg, r);
    case Not(x) =>
      NoneAbsentInLeaves(cfg, x);
    case _ =>
  }

  // ------------------------------------------------------------------ theorem

  ghost predicate IsServed(cfg: Config, resolver: Option<Resolver>, f: Filter)
    requires IsLeaf(f)
  {
    match f
    case Compare(_, _, _) => CompareServed(cfg, resolver, f)
    case Match(_, _, _) => MatchServed(cfg, resolver, f)
    case Known(_, _) => KnownServed(cfg, resolver, f)
    case Has(_, _, _, _) => HasServed(cfg, resolver, f)
    case Length(p, _, size) =>
      && !IsRelationship(cfg, p) && size.Lit? && size.literal.Number?
      && p.root !in cfg.fulltypes && !BearsPrefix(cfg, p.root)
  }

  lemma LeafIsServed(cfg: Config, resolver: Option<Resolver>, f: Filter)
    requires IsLeaf(f)
    ensures Translate(cfg, resolver, f).Ok? <==> IsServed(cfg, resolver, f)
  {
    match f
    case Compare(_, _, _) => CompareIsServed(cfg, resolver, f);
    case Match(_, _, _) => MatchIsServed(cfg, resolver, f);
    case Known(_, _) => KnownIsServed(cfg, resolver, f);
    case Has(_, _, _, _) => HasIsServed(cfg, resolver, f);
    case Length(_, _, _) => LengthIsServed(cfg, resolver, f);
  }

  /** A filter is translated exactly when each of its tests is of a kind that the server serves. */
  lemma FilterIsServed(cfg: Config, resolver: Option<Resolver>, f: Filter)
    ensures Translate(cfg, resolver, f).Ok?
       <==> forall leaf :: leaf in Leaves(f) ==> IsLeaf(leaf) && IsServed(cfg, resolver, leaf)
  {
    RefusedByItsTests(cfg, resolver, f);
    LeavesAreLeaves(f);
    forall leaf | leaf in Leaves(f) ensures Translate(cfg, resolver, leaf).Ok? <==> IsServed(cfg, resolver, leaf) {
      LeafIsServed(cfg, resolver, leaf);
    }
  }

  lemma {:induction false} LeavesAreLeaves(f: Filter)
    ensures forall leaf :: leaf in Leaves(f) ==> IsLeaf(leaf)
  {
    match f
    case And(l, r) =>
      LeavesAreLeaves(l);
      LeavesAreLeaves(r);
    case Or(l, r) =>
      LeavesAreLeaves(l);
      LeavesAreLeaves(r);
    case Not(x) => LeavesAreLeaves(x);
    case _ =>
  }
}
