/** Telling an additive schema change, which old rows survive, from one that needs a rebuild. */
module SchemaUpgrade {
  import opened Common

  datatype Column = Column(name: string, kind: string, nullable: bool, indexed: bool, unique: bool)

  /** `layout` stands for the attributes that are only ever compared for equality. */
  datatype FieldDoc = FieldDoc(role: string, derived: bool, identitySkipped: bool, columns: seq<Column>, layout: string)

  /** `invariants` holds the identity name, dedup mode, composite indexes and links that are present;
      `unknownKeys` any other top-level key besides the fields. */
  datatype TableDoc = TableDoc(invariants: map<string, string>, unknownKeys: set<string>, fields: map<string, FieldDoc>)

  datatype Fingerprint = Fingerprint(tables: map<string, TableDoc>, entryIdTables: set<string>)

  datatype Rejection =
    | Unparseable | TableRemoved(table: string) | UnrecognizedKey(table: string) | InvariantChanged(table: string)
    | FieldDropped(table: string, field: string) | FieldChanged(table: string, field: string)
    | EntryIdField(table: string, field: string) | ChildField(table: string, field: string)
    | DerivedField(table: string, field: string) | IdentityField(table: string, field: string)
    | NonNullableColumn(table: string, field: string)

  type Plan = map<string, set<Column>>

  // ---------------------------------------------------------- what is additive

  predicate AddedOk(table: string, field: string, doc: FieldDoc, entryIdTables: set<string>) {
    && !(table in entryIdTables && (field == "id" || field == "immutable_id"))
    && doc.role != "child" && !doc.derived && doc.identitySkipped
    && forall c :: c in doc.columns ==> c.nullable
  }

  predicate TableAdditive(table: string, s: TableDoc, c: TableDoc, entryIdTables: set<string>) {
    s == c ||
    (&& s.unknownKeys == {} && c.unknownKeys == {} && s.invariants == c.invariants
     && (forall f :: f in s.fields ==> f in c.fields && c.fields[f] == s.fields[f])
     && (forall f :: f in c.fields && f !in s.fields ==> AddedOk(table, f, c.fields[f], entryIdTables)))
  }

  predicate Additive(stored: Fingerprint, current: Fingerprint) {
    forall t :: t in stored.tables ==> TableAccepted(stored, current, t)
  }

  /** The field is in the current table only. */
  predicate IsAdded(s: TableDoc, c: TableDoc, field: string) { field !in s.fields && field in c.fields }

  /** A reason to refuse an upgrade of a stored table of this name to the current one. */
  predicate Speaks(r: Rejection, table: string, s: TableDoc, c: TableDoc, entryIdTables: set<string>) {
    match r
    case UnrecognizedKey(t) => t == table && (s.unknownKeys != {} || c.unknownKeys != {})
    case InvariantChanged(t) => t == table && s.invariants != c.invariants
    case FieldDropped(t, f) => t == table && f in s.fields && f !in c.fields
    case FieldChanged(t, f) => t == table && f in s.fields && f in c.fields && c.fields[f] != s.fields[f]
    case EntryIdField(t, f) => t == table && IsAdded(s, c, f) && t in entryIdTables && f in {"id", "immutable_id"}
    case ChildField(t, f) => t == table && IsAdded(s, c, f) && c.fields[f].role == "child"
    case DerivedField(t, f) => t == table && IsAdded(s, c, f) && c.fields[f].derived
    case IdentityField(t, f) => t == table && IsAdded(s, c, f) && !c.fields[f].identitySkipped
    case NonNullableColumn(t, f) =>
      t == table && IsAdded(s, c, f) && exists col :: col in c.fields[f].columns && !col.nullable
    case _ => false
  }

  /** A reason to refuse an upgrade: a removed table, or a flaw of a table that changed. */
  ghost predicate IsReason(r: Rejection, stored: Fingerprint, current: Fingerprint) {
    exists t :: t in stored.tables &&
      if t !in current.tables then r == TableRemoved(t)
      else stored.tables[t] != current.tables[t]
           && Speaks(r, t, stored.tables[t], current.tables[t], current.entryIdTables)
  }

  lemma TableIsRefusedForReasons(table: string, s: TableDoc, c: TableDoc, entryIdTables: set<string>)
    requires s != c
    ensures TableAdditive(table, s, c, entryIdTables) <==> forall r :: !Speaks(r, table, s, c, entryIdTables)
  {
    if !TableAdditive(table, s, c, entryIdTables) {
      if s.unknownKeys != {} || c.unknownKeys != {} {
        assert Speaks(UnrecognizedKey(table), table, s, c, entryIdTables);
      } else if s.invariants != c.invariants {
        assert Speaks(InvariantChanged(table), table, s, c, entryIdTables);
      } else if f :| f in s.fields && !(f in c.fields && c.fields[f] == s.fields[f]) {
        assert Speaks(if f in c.fields then FieldChanged(table, f) else FieldDropped(table, f), table, s, c,
                      entryIdTables);
      } else {
        var f :| f in c.fields && f !in s.fields && !AddedOk(table, f, c.fields[f], entryIdTables);
        var doc := c.fields[f];
        var r := if table in entryIdTables && (f == "id" || f == "immutable_id") then EntryIdField(table, f)
                 else if doc.role == "child" then ChildField(table, f)
                 else if doc.derived then DerivedField(table, f)
                 else if !doc.identitySkipped then IdentityField(table, f) else NonNullableColumn(table, f);
        assert Speaks(r, table, s, c, entryIdTables);
      }
    }
  }

  /** An upgrade is additive exactly when there is no reason to refuse it. */
  lemma RefusedForReasons(stored: Fingerprint, current: Fingerprint)
    ensures Additive(stored, current) <==> forall r :: !IsReason(r, stored, current)
  {
    forall t | t in stored.tables && t in current.tables && stored.tables[t] != current.tables[t]
      ensures TableAccepted(stored, current, t) <==>
              forall r :: !Speaks(r, t, stored.tables[t], current.tables[t], current.entryIdTables)
    {
      TableIsRefusedForReasons(t, stored.tables[t], current.tables[t], current.entryIdTables);
    }
    if t :| t in stored.tables && !TableAccepted(stored, current, t) {
      if t !in current.tables {
        assert IsReason(TableRemoved(t), stored, current);
      } else {
        var r :| Speaks(r, t, stored.tables[t], current.tables[t], current.entryIdTables);
        assert IsReason(r, stored, current);
      }
    }
  }

  /** The plan names the stored tables that gain columns, with exactly the columns of their added fields. */
  lemma PlanIsExact(stored: Fingerprint, current: Fingerprint, t: string, col: Column)
    ensures t in PlanFor(stored, current) && col in PlanFor(stored, current)[t]
       <==> t in stored.tables && t in current.tables
            && exists f :: IsAdded(stored.tables[t], current.tables[t], f) && col in current.tables[t].fields[f].columns
    ensures t in PlanFor(stored, current) ==> exists c :: c in PlanFor(stored, current)[t]
  {
    if t in stored.tables && t in current.tables {
      var s, c := stored.tables[t], current.tables[t];
      if f :| IsAdded(s, c, f) && col in c.fields[f].columns {
        assert col in NewColumns(s, c) && s != c;
      }
    }
  }

  function ColumnsOf(d: TableDoc): set<Column> {
    set f <- d.fields, c <- d.fields[f].columns :: c
  }

  /** The columns of the fields only the current table has. */
  function NewColumns(s: TableDoc, c: TableDoc): set<Column> {
    set f <- c.fields, col <- c.fields[f].columns | f !in s.fields :: col
  }

  /** The table exists on both sides and gained columns. */
  predicate Gains(stored: Fingerprint, current: Fingerprint, t: string) {
    t in stored.tables && t in current.tables && stored.tables[t] != current.tables[t]
    && NewColumns(stored.tables[t], current.tables[t]) != {}
  }

  function PlanOver(stored: Fingerprint, current: Fingerprint, tables: set<string>): Plan {
    map t <- tables | Gains(stored, current, t) :: NewColumns(stored.tables[t], current.tables[t])
  }

  /** Columns to add per stored table that gained any; a new table is created whole. */
  function PlanFor(stored: Fingerprint, current: Fingerprint): Plan {
    PlanOver(stored, current, stored.tables.Keys)
  }

  function AddedTo(plan: Plan, table: string): set<Column> {
    if table in plan then plan[table] else {}
  }

  // ------------------------------------------------------------ the classifier

  method ClassifyTable(table: string, s: TableDoc, c: TableDoc, entryIdTables: set<string>)
    returns (r: Result<set<Column>, Rejection>)
    requires s != c
    ensures r.Ok? <==> TableAdditive(table, s, c, entryIdTables)
    ensures r.Ok? ==> r.value == NewColumns(s, c)
    ensures r.Err? ==> Speaks(r.error, table, s, c, entryIdTables)
  {
    if s.unknownKeys != {} || c.unknownKeys != {} {
      return Err(UnrecognizedKey(table));
    }
    if s.invariants != c.invariants {
      return Err(InvariantChanged(table));
    }
    var rest := s.fields.Keys;
    while rest != {}
      invariant rest <= s.fields.Keys
      invariant forall f :: f in s.fields && f !in rest ==> f in c.fields && c.fields[f] == s.fields[f]
      decreases rest
    {
      var f := Pick(rest);
      if f !in c.fields {
        return Err(FieldDropped(table, f));
      }
      if c.fields[f] != s.fields[f] {
        return Err(FieldChanged(table, f));
      }
      rest := rest - {f};
    }
    var columns: set<Column> := {};
    rest := c.fields.Keys;
    while rest != {}
      invariant rest <= c.fields.Keys
      invariant forall f :: f in c.fields && f !in s.fields && f !in rest ==>
                  AddedOk(table, f, c.fields[f], entryIdTables)
      invariant columns == set f <- c.fields, col <- c.fields[f].columns | f !in s.fields && f !in rest :: col
      decreases rest
    {
      var f := Pick(rest);
      if f !in s.fields {
        var rejection := AddedParentColumns(table, f, s, c, entryIdTables);
        if rejection.Some? {
          return Err(rejection.value);
        }
        columns := columns + set col <- c.fields[f].columns;
      }
      rest := rest - {f};
    }
    r := Ok(columns);
  }

  /** Why an added field cannot be backfilled, if it cannot. */
  method AddedParentColumns(table: string, field: string, ghost s: TableDoc, c: TableDoc, entryIdTables: set<string>)
    returns (rejection: Option<Rejection>)
    requires IsAdded(s, c, field)
    ensures rejection.None? <==> AddedOk(table, field, c.fields[field], entryIdTables)
    ensures rejection.Some? ==> Speaks(rejection.value, table, s, c, entryIdTables)
  {
    var doc := c.fields[field];
    if table in entryIdTables && (field == "id" || field == "immutable_id") {
      return Some(EntryIdField(table, field));
    }
    if doc.role == "child" {
      return Some(ChildField(table, field));
    }
    if doc.derived {
      return Some(DerivedField(table, field));
    }
    if !doc.identitySkipped {
      return Some(IdentityField(table, field));
    }
    var i := 0;
    while i < |doc.columns|
      invariant 0 <= i <= |doc.columns| && forall j :: 0 <= j < i ==> doc.columns[j].nullable
    {
      if !doc.columns[i].nullable {
        return Some(NonNullableColumn(table, field));
      }
      i := i + 1;
    }
    rejection := None;
  }

  /** Accepts exactly the additive changes, with the columns each stored table gains. */
  method Classify(stored: Option<Fingerprint>, current: Fingerprint) returns (r: Result<Plan, Rejection>)
    ensures r.Ok? <==> stored.Some? && Additive(stored.value, current)
    ensures r.Ok? ==> r.value == PlanFor(stored.value, current)
    ensures r.Err? ==> if stored.None? then r.error == Unparseable else IsReason(r.error, stored.value, current)
  {
    if stored.None? {
      return Err(Unparseable);
    }
    var prior := stored.value;
    var added: Plan := map[];
    var rest := prior.tables.Keys + current.tables.Keys;
    ghost var done: set<string> := {};
    while rest != {}
      invariant rest + done == prior.tables.Keys + current.tables.Keys
      invariant forall t :: t in done ==> TableAccepted(prior, current, t)
      invariant added == PlanOver(prior, current, done)
      decreases rest
    {
      var t := Pick(rest);
      PlanExtends(prior, current, done, t);
      rest, done := rest - {t}, done + {t};
      if t in prior.tables {
        if t !in current.tables {
          return Err(TableRemoved(t));
        }
        if prior.tables[t] != current.tables[t] {
          var columns := ClassifyTable(t, prior.tables[t], current.tables[t], current.entryIdTables);
          if columns.Err? {
            return Err(columns.error);
          }
          if columns.value != {} {
            added := added[t := columns.value];
          }
        }
      }
    }
    assert PlanOver(prior, current, done) == PlanFor(prior, current);
    assert forall t :: t in prior.tables ==> t in done;
    r := Ok(added);
  }

  /** Looking at one more table adds its columns to the plan, when it gains any. */
  lemma PlanExtends(stored: Fingerprint, current: Fingerprint, done: set<string>, t: string)
    ensures PlanOver(stored, current, done + {t})
         == if Gains(stored, current, t)
            then PlanOver(stored, current, done)[t := NewColumns(stored.tables[t], current.tables[t])]
            else PlanOver(stored, current, done)
  {
  }

  predicate TableAccepted(stored: Fingerprint, current: Fingerprint, t: string) {
    t in stored.tables ==>
      t in current.tables && TableAdditive(t, stored.tables[t], current.tables[t], current.entryIdTables)
  }

  // --------------------------------------------------------- what is preserved

  /** Stored columns plus added columns are exactly the current columns, and only nullable ones are added. */
  lemma AcceptedAddsExactly(stored: Fingerprint, current: Fingerprint, t: string)
    requires Additive(stored, current) && t in stored.tables
    ensures var s, c := stored.tables[t], current.tables[t];
            var added := AddedTo(PlanFor(stored, current), t);
            && ColumnsOf(s) + added == ColumnsOf(c)
            && forall col :: col in added ==> col.nullable
  {
    var s, c := stored.tables[t], current.tables[t];
    assert TableAdditive(t, s, c, current.entryIdTables);
    var added := AddedTo(PlanFor(stored, current), t);
    assert added == NewColumns(s, c);
    forall col | col in ColumnsOf(c) ensures col in ColumnsOf(s) + added {
      var f :| f in c.fields && col in c.fields[f].columns;
      if f in s.fields {
        assert s.fields[f] == c.fields[f];
      }
    }
    forall col | col in ColumnsOf(s) ensures col in ColumnsOf(c) {
      var f :| f in s.fields && col in s.fields[f].columns;
      assert c.fields[f] == s.fields[f];
    }
    forall col | col in added ensures col.nullable && col in ColumnsOf(c) {
      var f :| f in c.fields && col in c.fields[f].columns && f !in s.fields;
      assert AddedOk(t, f, c.fields[f], current.entryIdTables);
    }
  }

  /** A row: the values of its columns by field; a field the row was stored without reads as nulls. */
  type Row = map<string, seq<Option<string>>>

  /** What the content identity of a row is computed from: its fields not excluded from identity. */
  function IdentityPart(d: TableDoc, row: Row): Row {
    map f <- row | f in d.fields && !d.fields[f].identitySkipped :: row[f]
  }

  /** An old row read under the current schema: nulls in every added field. */
  function Backfilled(s: TableDoc, c: TableDoc, row: Row): Row {
    row + map f <- c.fields | f !in s.fields :: seq(|c.fields[f].columns|, i => None)
  }

  /** Every stored row keeps its values and its content identity. */
  lemma AcceptedKeepsIdentity(stored: Fingerprint, current: Fingerprint, t: string, row: Row)
    requires Additive(stored, current) && t in stored.tables && row.Keys == stored.tables[t].fields.Keys
    ensures var s, c := stored.tables[t], current.tables[t];
            && Backfilled(s, c, row).Keys == c.fields.Keys
            && (forall f :: f in row ==> Backfilled(s, c, row)[f] == row[f])
            && IdentityPart(c, Backfilled(s, c, row)) == IdentityPart(s, row)
  {
    var s, c := stored.tables[t], current.tables[t];
    assert TableAdditive(t, s, c, current.entryIdTables);
    forall f | f in c.fields && f !in s.fields ensures c.fields[f].identitySkipped {
      assert AddedOk(t, f, c.fields[f], current.entryIdTables);
    }
  }

  /** Upgrades compose: two accepted steps are one accepted step, and the added columns unite. */
  lemma UpgradesCompose(a: Fingerprint, b: Fingerprint, c: Fingerprint, t: string)
    requires Additive(a, b) && Additive(b, c) && b.entryIdTables == c.entryIdTables && t in a.tables
    ensures Additive(a, c)
    ensures AddedTo(PlanFor(a, c), t) == AddedTo(PlanFor(a, b), t) + AddedTo(PlanFor(b, c), t)
  {
    forall u | u in a.tables
      ensures u in c.tables && TableAdditive(u, a.tables[u], c.tables[u], c.entryIdTables)
      ensures NewColumns(a.tables[u], c.tables[u]) ==
              NewColumns(a.tables[u], b.tables[u]) + NewColumns(b.tables[u], c.tables[u])
    {
      TablesCompose(u, a.tables[u], b.tables[u], c.tables[u], c.entryIdTables);
    }
  }

  /** The columns that a table gains along a chain of versions. */
  function AddedAlong(chain: seq<Fingerprint>, t: string): set<Column> {
    if |chain| <= 1 then {}
    else
      var n := |chain| - 1;
      AddedAlong(chain[..n], t) + AddedTo(PlanFor(chain[n - 1], chain[n]), t)
  }

  /** Each version is accepted after the one before, and the entry-id tables of all but the first agree. */
  predicate IsUpgradeChain(chain: seq<Fingerprint>) {
    && (forall i :: 0 < i < |chain| ==> Additive(chain[i - 1], chain[i]))
    && (forall i, j | 0 < i < |chain| && 0 < j < |chain| :: chain[i].entryIdTables == chain[j].entryIdTables)
  }

  /** Any chain of accepted upgrades is one accepted upgrade, and what it adds is the union of what its
      steps add. */
  lemma {:induction false} ChainsCompose(chain: seq<Fingerprint>, t: string)
    requires chain != [] && t in chain[0].tables && IsUpgradeChain(chain)
    ensures Additive(chain[0], chain[|chain| - 1])
    ensures AddedTo(PlanFor(chain[0], chain[|chain| - 1]), t) == AddedAlong(chain, t)
  {
    var n := |chain| - 1;
    if n == 0 {
      NoUpgrade(chain[0], t);
    } else {
      assert Additive(chain[n - 1], chain[n]);
      AddedAlongStep(chain, t);
      if n > 1 {
        ShorterChain(chain);
        ChainsCompose(chain[..n], t);
        UpgradesCompose(chain[0], chain[n - 1], chain[n], t);
      }
    }
  }

  lemma NoUpgrade(a: Fingerprint, t: string)
    ensures Additive(a, a) && AddedTo(PlanFor(a, a), t) == {}
  {
  }

  lemma AddedAlongStep(chain: seq<Fingerprint>, t: string)
    requires |chain| > 1
    ensures var n := |chain| - 1;
            AddedAlong(chain, t) == AddedAlong(chain[..n], t) + AddedTo(PlanFor(chain[n - 1], chain[n]), t)
    ensures |chain| == 2 ==> AddedAlong(chain, t) == AddedTo(PlanFor(chain[0], chain[1]), t)
  {
  }

  lemma ShorterChain(chain: seq<Fingerprint>)
    requires |chain| > 1 && IsUpgradeChain(chain)
    ensures IsUpgradeChain(chain[..|chain| - 1])
  {
  }

  lemma TablesCompose(t: string, a: TableDoc, b: TableDoc, c: TableDoc, entryIdTables: set<string>)
    requires TableAdditive(t, a, b, entryIdTables) && TableAdditive(t, b, c, entryIdTables)
    ensures TableAdditive(t, a, c, entryIdTables)
    ensures NewColumns(a, c) == NewColumns(a, b) + NewColumns(b, c)
  {
    assert forall f :: f in a.fields ==> f in b.fields && b.fields[f] == a.fields[f];
    assert forall f :: f in b.fields ==> f in c.fields && c.fields[f] == b.fields[f];
    forall f | f in c.fields && f !in a.fields && a != c ensures AddedOk(t, f, c.fields[f], entryIdTables) {
      if f in b.fields {
        assert AddedOk(t, f, b.fields[f], entryIdTables);
      }
    }
    forall col ensures col in NewColumns(a, c) <==> col in NewColumns(a, b) + NewColumns(b, c) {
      if col in NewColumns(a, c) {
        var f :| f in c.fields && col in c.fields[f].columns && f !in a.fields;
        assert f in b.fields ==> col in b.fields[f].columns;
      }
      if col in NewColumns(a, b) {
        var f :| f in b.fields && col in b.fields[f].columns && f !in a.fields;
        assert f in c.fields && col in c.fields[f].columns;
      }
      if col in NewColumns(b, c) {
        var f :| f in c.fields && col in c.fields[f].columns && f !in b.fields;
        assert f !in a.fields;
      }
    }
  }
}
