/**
 The MongoDB collections an fsck sees, and what its three passes mean: which documents are reachable,
 which dispatch rows are sound, what a sweep removes.
 */
module FsckModel {
  import opened Common

  /** A stored value where a sid is expected. */
  datatype Cell = Sid(n: int) | NotSid

  datatype Element = Columns(cells: map<string, Cell>) | NotMapping

  datatype FieldValue = Scalar(cell: Cell) | List(elements: seq<Element>)

  datatype Role = Main | Dep | NoRole

  datatype ContentId = Absent | Text(text: string) | NotText

  /** `fields` is None when the embedded field document is not a mapping. */
  datatype Document = Document(role: Role, contentId: ContentId, fields: Option<map<string, FieldValue>>)

  /** How a schema field leads to other documents, if it does. */
  datatype Link =
    | NoLink
    | Reference(key: string, target: string)
    | Child(field: string, column: Option<string>, target: string)

  datatype DispatchKey = TextKey(text: string) | OtherKey(n: int)

  datatype DispatchRow = DispatchRow(record: string, sid: Cell)

  /** A family's record names with the collections that back them. */
  datatype Family = Family(name: string, records: seq<(string, string)>)

  type Schemas = map<string, seq<Link>>

  type Node = (string, int)

  datatype Database = Database(
    collections: map<string, map<int, Document>>,
    dispatch: map<string, map<DispatchKey, DispatchRow>>)

  function Docs(db: Database, collection: string): map<int, Document> {
    if collection in db.collections then db.collections[collection] else map[]
  }

  function Rows(db: Database, family: string): map<DispatchKey, DispatchRow> {
    if family in db.dispatch then db.dispatch[family] else map[]
  }

  /** Record names and family names are unique in a layout. */
  predicate LayoutOk(layout: seq<Family>) {
    && (forall i, j | 0 <= i < |layout| && 0 <= j < |layout| && layout[i].name == layout[j].name :: i == j)
    && forall f :: f in layout ==>
         forall i, j | 0 <= i < |f.records| && 0 <= j < |f.records| && f.records[i].0 == f.records[j].0 :: i == j
  }

  /** The collection behind a record name; a repeated name means its last entry. */
  function Backing(f: Family, record: string): Option<string> {
    BackingIn(f.records, record)
  }

  function BackingIn(records: seq<(string, string)>, record: string): Option<string> {
    if records == [] then None
    else if records[|records| - 1].0 == record then Some(records[|records| - 1].1)
    else BackingIn(records[..|records| - 1], record)
  }

  // ------------------------------------------------------------ reachability

  /** The sids one schema field holds. */
  function Held(link: Link, fields: map<string, FieldValue>): set<Node> {
    match link
    case NoLink => {}
    case Reference(key, target) =>
      if key in fields && fields[key].Scalar? && fields[key].cell.Sid? then {(target, fields[key].cell.n)} else {}
    case Child(field, column, target) =>
      if field in fields && fields[field].List? && column.Some? then
        set e <- fields[field].elements | e.Columns? && column.value in e.cells && e.cells[column.value].Sid?
          :: (target, e.cells[column.value].n)
      else {}
  }

  /** What a document of a known role refers to, within the known collections. */
  function Edges(db: Database, schemas: Schemas, node: Node): set<Node> {
    if node.0 in schemas && node.1 in Docs(db, node.0) && Docs(db, node.0)[node.1].role != NoRole
       && Docs(db, node.0)[node.1].fields.Some?
    then
      set link <- schemas[node.0], to <- Held(link, Docs(db, node.0)[node.1].fields.value) | to.0 in schemas :: to
    else {}
  }

  predicate IsMain(db: Database, schemas: Schemas, node: Node) {
    node.0 in schemas && node.1 in Docs(db, node.0) && Docs(db, node.0)[node.1].role == Main
  }

  /** The node a dispatch row names, when it names one in a known collection. */
  function RowTarget(schemas: Schemas, f: Family, row: DispatchRow): set<Node> {
    var backing := Backing(f, row.record);
    if backing.Some? && backing.value in schemas && row.sid.Sid? then {(backing.value, row.sid.n)} else {}
  }

  ghost predicate IsDispatched(db: Database, schemas: Schemas, layout: seq<Family>, node: Node) {
    exists f, key :: f in layout && |f.records| >= 2 && key in Rows(db, f.name)
                     && node in RowTarget(schemas, f, Rows(db, f.name)[key])
  }

  ghost predicate IsRoot(db: Database, schemas: Schemas, layout: seq<Family>, node: Node) {
    IsMain(db, schemas, node) || IsDispatched(db, schemas, layout, node)
  }

  ghost predicate IsPath(db: Database, schemas: Schemas, layout: seq<Family>, path: seq<Node>) {
    && path != [] && IsRoot(db, schemas, layout, path[0])
    && forall i :: 0 < i < |path| ==> path[i] in Edges(db, schemas, path[i - 1])
  }

  /** A path of references leads here from a main-role document or a dispatch row. */
  ghost predicate Reachable(db: Database, schemas: Schemas, layout: seq<Family>, node: Node) {
    exists path :: IsPath(db, schemas, layout, path) && path[|path| - 1] == node
  }

  /** Holds the roots and whatever its members refer to. */
  ghost predicate IsClosed(db: Database, schemas: Schemas, layout: seq<Family>, closed: set<Node>) {
    && (forall n :: IsRoot(db, schemas, layout, n) ==> n in closed)
    && (forall n :: n in closed ==> Edges(db, schemas, n) <= closed)
  }

  ghost predicate IsMarkOf(db: Database, schemas: Schemas, layout: seq<Family>, marked: set<Node>) {
    forall n :: n in marked <==> Reachable(db, schemas, layout, n)
  }

  lemma RootIsReachable(db: Database, schemas: Schemas, layout: seq<Family>, node: Node)
    requires IsRoot(db, schemas, layout, node)
    ensures Reachable(db, schemas, layout, node)
  {
    assert IsPath(db, schemas, layout, [node]);
  }

  lemma EdgeKeepsReachable(db: Database, schemas: Schemas, layout: seq<Family>, node: Node, next: Node)
    requires Reachable(db, schemas, layout, node) && next in Edges(db, schemas, node)
    ensures Reachable(db, schemas, layout, next)
  {
    var path :| IsPath(db, schemas, layout, path) && path[|path| - 1] == node;
    var longer := path + [next];
    assert forall i :: 0 < i < |longer| ==> longer[i] in Edges(db, schemas, longer[i - 1]);
    assert IsPath(db, schemas, layout, longer) && longer[|longer| - 1] == next;
  }

  /** Anything that contains the roots and is closed under references contains every path. */
  lemma {:induction false} ClosedContainsPaths(db: Database, schemas: Schemas, layout: seq<Family>,
                                               closed: set<Node>, path: seq<Node>)
    requires IsClosed(db, schemas, layout, closed)
    requires IsPath(db, schemas, layout, path)
    ensures path[|path| - 1] in closed
  {
    if |path| > 1 {
      ClosedContainsPaths(db, schemas, layout, closed, path[..|path| - 1]);
    }
  }

  /** The marked set is the least one that holds the roots and is closed under references. */
  lemma MarkIsLeast(db: Database, schemas: Schemas, layout: seq<Family>, marked: set<Node>, closed: set<Node>)
    requires IsMarkOf(db, schemas, layout, marked)
    ensures IsClosed(db, schemas, layout, marked)
    ensures IsClosed(db, schemas, layout, closed) ==> marked <= closed
  {
    forall n | IsRoot(db, schemas, layout, n) ensures n in marked {
      RootIsReachable(db, schemas, layout, n);
    }
    forall n, m | n in marked && m in Edges(db, schemas, n) ensures m in marked {
      EdgeKeepsReachable(db, schemas, layout, n, m);
    }
    if IsClosed(db, schemas, layout, closed) {
      forall n | n in marked ensures n in closed {
        var path :| IsPath(db, schemas, layout, path) && path[|path| - 1] == n;
        ClosedContainsPaths(db, schemas, layout, closed, path);
      }
    }
  }

  // ------------------------------------------------------------------- sweep

  predicate Garbage(schemas: Schemas, marked: set<Node>, collection: string, sid: int, d: Document) {
    collection in schemas && d.role == Dep && (collection, sid) !in marked
  }

  /** One collection without its unmarked dependency documents. */
  function SweptCollection(schemas: Schemas, marked: set<Node>, collection: string, docs: map<int, Document>)
    : map<int, Document>
  {
    map sid <- docs | !Garbage(schemas, marked, collection, sid, docs[sid]) :: docs[sid]
  }

  function Swept(db: Database, schemas: Schemas, marked: set<Node>): Database {
    db.(collections := map c <- db.collections :: SweptCollection(schemas, marked, c, db.collections[c]))
  }

  lemma SweptDocs(db: Database, schemas: Schemas, marked: set<Node>, collection: string)
    ensures Docs(Swept(db, schemas, marked), collection)
         == SweptCollection(schemas, marked, collection, Docs(db, collection))
  {
  }

  lemma SweepKeepsMarkedEdges(db: Database, schemas: Schemas, marked: set<Node>, n: Node)
    requires n in marked || (n.1 in Docs(db, n.0) && Docs(db, n.0)[n.1].role != Dep) || n.1 !in Docs(db, n.0)
    ensures Edges(Swept(db, schemas, marked), schemas, n) == Edges(db, schemas, n)
  {
    SweptDocs(db, schemas, marked, n.0);
  }

  lemma SweepKeepsRoots(db: Database, schemas: Schemas, layout: seq<Family>, marked: set<Node>, n: Node)
    ensures IsRoot(Swept(db, schemas, marked), schemas, layout, n) <==> IsRoot(db, schemas, layout, n)
  {
    SweptDocs(db, schemas, marked, n.0);
    var after := Swept(db, schemas, marked);
    assert forall f :: Rows(after, f) == Rows(db, f);
    if IsDispatched(db, schemas, layout, n) {
      var f, key :| f in layout && |f.records| >= 2 && key in Rows(db, f.name)
                    && n in RowTarget(schemas, f, Rows(db, f.name)[key]);
      assert key in Rows(after, f.name);
    }
    if IsDispatched(after, schemas, layout, n) {
      var f, key :| f in layout && |f.records| >= 2 && key in Rows(after, f.name)
                    && n in RowTarget(schemas, f, Rows(after, f.name)[key]);
      assert key in Rows(db, f.name);
    }
  }

  /** Sweeping leaves reachability as it was. */
  lemma SweepKeepsMark(db: Database, schemas: Schemas, layout: seq<Family>, marked: set<Node>)
    requires IsMarkOf(db, schemas, layout, marked)
    ensures IsMarkOf(Swept(db, schemas, marked), schemas, layout, marked)
  {
    var after := Swept(db, schemas, marked);
    MarkIsLeast(db, schemas, layout, marked, marked);
    forall n | n in marked ensures Edges(after, schemas, n) == Edges(db, schemas, n) {
      SweepKeepsMarkedEdges(db, schemas, marked, n);
    }
    forall n ensures IsRoot(after, schemas, layout, n) <==> IsRoot(db, schemas, layout, n) {
      SweepKeepsRoots(db, schemas, layout, marked, n);
    }
    forall n ensures n in marked <==> Reachable(after, schemas, layout, n) {
      if n in marked {
        var path :| IsPath(db, schemas, layout, path) && path[|path| - 1] == n;
        PathStays(db, after, schemas, layout, marked, path);
      }
      if Reachable(after, schemas, layout, n) {
        var path :| IsPath(after, schemas, layout, path) && path[|path| - 1] == n;
        ClosedContainsPaths(after, schemas, layout, marked, path);
      }
    }
  }

  lemma PathStays(db: Database, after: Database, schemas: Schemas, layout: seq<Family>, marked: set<Node>,
                  path: seq<Node>)
    requires IsMarkOf(db, schemas, layout, marked)
    requires forall n :: n in marked ==> Edges(after, schemas, n) == Edges(db, schemas, n)
    requires forall n :: IsRoot(after, schemas, layout, n) <==> IsRoot(db, schemas, layout, n)
    requires IsPath(db, schemas, layout, path)
    ensures IsPath(after, schemas, layout, path)
  {
    forall i | 0 < i < |path| ensures path[i] in Edges(after, schemas, path[i - 1]) {
      assert IsPath(db, schemas, layout, path[..i]) && path[..i][|path[..i]| - 1] == path[i - 1];
      assert path[i - 1] in marked;
    }
  }

  /** A second sweep finds nothing to delete. */
  lemma SweepIsIdempotent(db: Database, schemas: Schemas, layout: seq<Family>, marked: set<Node>, again: set<Node>)
    requires IsMarkOf(db, schemas, layout, marked)
    requires IsMarkOf(Swept(db, schemas, marked), schemas, layout, again)
    ensures Swept(Swept(db, schemas, marked), schemas, again) == Swept(db, schemas, marked)
  {
    SweepKeepsMark(db, schemas, layout, marked);
    assert again == marked by {
      forall n ensures n in again <==> n in marked {
        assert n in again <==> Reachable(Swept(db, schemas, marked), schemas, layout, n);
      }
    }
    var once := Swept(db, schemas, marked);
    forall c | c in once.collections
      ensures SweptCollection(schemas, marked, c, once.collections[c]) == once.collections[c]
    {
    }
  }

  /** No reference of a surviving document that resolved before the sweep dangles after it. */
  lemma SweepLeavesNoDangling(db: Database, schemas: Schemas, layout: seq<Family>, marked: set<Node>, n: Node, m: Node)
    requires IsMarkOf(db, schemas, layout, marked)
    requires n.1 in Docs(Swept(db, schemas, marked), n.0)
    requires m in Edges(db, schemas, n) && m.1 in Docs(db, m.0)
    ensures m in Edges(Swept(db, schemas, marked), schemas, n)
    ensures m.1 in Docs(Swept(db, schemas, marked), m.0)
    ensures Docs(Swept(db, schemas, marked), m.0)[m.1] == Docs(db, m.0)[m.1]
  {
    MarkIsLeast(db, schemas, layout, marked, marked);
    SweptDocs(db, schemas, marked, n.0);
    SweptDocs(db, schemas, marked, m.0);
    assert n in marked by {
      if Docs(db, n.0)[n.1].role == Main {
        assert IsRoot(db, schemas, layout, n);
      }
    }
    SweepKeepsMarkedEdges(db, schemas, marked, n);
  }

  /** The sweep deletes exactly the unreachable dependency documents of the known collections. */
  lemma SweepDeletesExactlyGarbage(db: Database, schemas: Schemas, layout: seq<Family>, marked: set<Node>,
                                   collection: string, sid: int)
    requires IsMarkOf(db, schemas, layout, marked) && sid in Docs(db, collection)
    ensures sid !in Docs(Swept(db, schemas, marked), collection) <==>
            collection in schemas && Docs(db, collection)[sid].role == Dep
            && !Reachable(db, schemas, layout, (collection, sid))
  {
    SweptDocs(db, schemas, marked, collection);
  }

  // ------------------------------------------------------ what a role is for

  /** What a document's fields hold, whether or not its role is known. */
  function Mentions(db: Database, schemas: Schemas, node: Node): set<Node> {
    if node.0 in schemas && node.1 in Docs(db, node.0) && Docs(db, node.0)[node.1].fields.Some?
    then
      set link <- schemas[node.0], to <- Held(link, Docs(db, node.0)[node.1].fields.value) | to.0 in schemas :: to
    else {}
  }

  /** A document without a valid role survives the sweep, but what it alone refers to does not. */
  lemma RolelessReferenceDangles()
    ensures var schemas := map["a" := [Reference("x", "a")]];
            var db := Database(map["a" := map[1 := Document(NoRole, Absent, Some(map["x" := Scalar(Sid(2))])),
                                              2 := Document(Dep, Absent, Some(map[]))]], map[]);
            && IsMarkOf(db, schemas, [], {})
            && ("a", 2) in Mentions(db, schemas, ("a", 1)) && 2 in Docs(db, "a")
            && 1 in Docs(Swept(db, schemas, {}), "a") && 2 !in Docs(Swept(db, schemas, {}), "a")
  {
    var schemas := map["a" := [Reference("x", "a")]];
    var fields := map["x" := Scalar(Sid(2))];
    var db := Database(map["a" := map[1 := Document(NoRole, Absent, Some(fields)),
                                      2 := Document(Dep, Absent, Some(map[]))]], map[]);
    assert forall path :: IsPath(db, schemas, [], path) ==> IsRoot(db, schemas, [], path[0]);
    assert Reference("x", "a") in schemas["a"] && ("a", 2) in Held(Reference("x", "a"), fields);
  }

  predicate Resolves(db: Database, schemas: Schemas, n: Node, m: Node) {
    m in Mentions(db, schemas, n) && m.1 in Docs(db, m.0)
  }

  /** Every reference that a document left by the sweep holds, and that resolved before, resolves after. */
  ghost predicate NothingDangles(before: Database, after: Database, schemas: Schemas) {
    forall n: Node, m: Node ::
      n.1 in Docs(after, n.0) && Resolves(before, schemas, n, m) ==> Resolves(after, schemas, n, m)
  }

  /** A document of a known collection without a valid role holds a reference to a dependency document. */
  predicate IsRolelessReference(db: Database, schemas: Schemas, n: Node, m: Node) {
    && n.0 in schemas && n.1 in Docs(db, n.0) && Docs(db, n.0)[n.1].role == NoRole
    && Resolves(db, schemas, n, m) && Docs(db, m.0)[m.1].role == Dep
  }

  lemma MentionsOfSurvivor(db: Database, schemas: Schemas, marked: set<Node>, n: Node)
    requires n.1 in Docs(Swept(db, schemas, marked), n.0)
    ensures Mentions(Swept(db, schemas, marked), schemas, n) == Mentions(db, schemas, n)
  {
    SweptDocs(db, schemas, marked, n.0);
  }

  /** The sweep leaves no reference dangling that resolved before, exactly when documents without a valid
      role hold no reference to a dependency document that nothing else reaches. */
  lemma SweepDanglesExactly(db: Database, schemas: Schemas, layout: seq<Family>, marked: set<Node>)
    requires IsMarkOf(db, schemas, layout, marked)
    ensures NothingDangles(db, Swept(db, schemas, marked), schemas)
       <==> forall n: Node, m: Node :: IsRolelessReference(db, schemas, n, m) ==> Reachable(db, schemas, layout, m)
  {
    var after := Swept(db, schemas, marked);
    if NothingDangles(db, after, schemas) {
      forall n: Node, m: Node | IsRolelessReference(db, schemas, n, m) ensures Reachable(db, schemas, layout, m) {
        SweptDocs(db, schemas, marked, n.0);
        SweptDocs(db, schemas, marked, m.0);
        assert Resolves(after, schemas, n, m);
      }
    }
    if forall n: Node, m: Node :: IsRolelessReference(db, schemas, n, m) ==> Reachable(db, schemas, layout, m) {
      forall n: Node, m: Node | n.1 in Docs(after, n.0) && Resolves(db, schemas, n, m)
        ensures Resolves(after, schemas, n, m)
      {
        SurvivorsResolve(db, schemas, layout, marked, n, m);
      }
    }
  }

  lemma SurvivorsResolve(db: Database, schemas: Schemas, layout: seq<Family>, marked: set<Node>, n: Node, m: Node)
    requires IsMarkOf(db, schemas, layout, marked)
    requires n.1 in Docs(Swept(db, schemas, marked), n.0) && Resolves(db, schemas, n, m)
    requires IsRolelessReference(db, schemas, n, m) ==> Reachable(db, schemas, layout, m)
    ensures Resolves(Swept(db, schemas, marked), schemas, n, m)
  {
    MentionsOfSurvivor(db, schemas, marked, n);
    SweptDocs(db, schemas, marked, n.0);
    SweptDocs(db, schemas, marked, m.0);
    if Docs(db, n.0)[n.1].role != NoRole {
      SweepLeavesNoDangling(db, schemas, layout, marked, n, m);
    }
  }

  /** With a valid role on every document of the known collections, references are all followed. */
  lemma RolesMakeMentionsEdges(db: Database, schemas: Schemas, n: Node)
    requires forall m: Node :: m.0 in schemas && m.1 in Docs(db, m.0) ==> Docs(db, m.0)[m.1].role != NoRole
    ensures Mentions(db, schemas, n) == Edges(db, schemas, n)
  {
  }

  // -------------------------------------------------------------- dispatches

  predicate IsTextOf(d: Document, key: DispatchKey) {
    key.TextKey? && d.contentId == Text(key.text)
  }

  /** A dispatch row names a registered backing document with the row's own content id. */
  predicate RowOk(db: Database, f: Family, key: DispatchKey, row: DispatchRow) {
    var backing := Backing(f, row.record);
    && backing.Some? && row.sid.Sid?
    && row.sid.n in Docs(db, backing.value)
    && IsTextOf(Docs(db, backing.value)[row.sid.n], key)
  }

  /** The unique index over (record, sid) refuses a second row for the same document. */
  predicate Taken(rows: map<DispatchKey, DispatchRow>, record: string, sid: int) {
    exists key :: key in rows && rows[key] == DispatchRow(record, Sid(sid))
  }

  predicate IsMainBacking(db: Database, f: Family, i: nat, sid: int)
    requires i < |f.records|
  {
    sid in Docs(db, f.records[i].1) && Docs(db, f.records[i].1)[sid].role == Main
    && Docs(db, f.records[i].1)[sid].contentId.Text?
  }

  /** A main document has its dispatch row, or the index has no room for one. */
  predicate Covered(db: Database, f: Family, rows: map<DispatchKey, DispatchRow>, i: nat, sid: int)
    requires i < |f.records| && IsMainBacking(db, f, i, sid)
  {
    TextKey(Docs(db, f.records[i].1)[sid].contentId.text) in rows || Taken(rows, f.records[i].0, sid)
  }

  /** A row the pass inserted: it names a main document of the family by its content id. */
  ghost predicate Inserted(db: Database, f: Family, key: DispatchKey, row: DispatchRow) {
    exists i, sid :: 0 <= i < |f.records| && IsMainBacking(db, f, i, sid)
                     && row == DispatchRow(f.records[i].0, Sid(sid)) && IsTextOf(Docs(db, f.records[i].1)[sid], key)
  }

  /** The rows the first half of the pass leaves in place. */
  function Kept(db: Database, f: Family, rows: map<DispatchKey, DispatchRow>, repairConflicts: bool)
    : map<DispatchKey, DispatchRow>
  {
    map key <- rows | !repairConflicts || RowOk(db, f, key, rows[key]) :: rows[key]
  }

  /** What the integrity pass makes of one family's dispatch rows. */
  ghost predicate Repaired(db: Database, f: Family, before: map<DispatchKey, DispatchRow>,
                           after: map<DispatchKey, DispatchRow>, repairConflicts: bool)
  {
    var kept := Kept(db, f, before, repairConflicts);
    && (forall key :: key in kept ==> key in after && after[key] == kept[key])
    && (forall key :: key in after && key !in kept ==> Inserted(db, f, key, after[key]))
    && (forall i, sid :: 0 <= i < |f.records| && IsMainBacking(db, f, i, sid) ==> Covered(db, f, after, i, sid))
  }

  /** Every row is sound and every main document with a text content id is dispatched. */
  ghost predicate Clean(db: Database, f: Family, rows: map<DispatchKey, DispatchRow>) {
    && (forall key :: key in rows ==> RowOk(db, f, key, rows[key]))
    && (forall i, sid :: 0 <= i < |f.records| && IsMainBacking(db, f, i, sid) ==>
          TextKey(Docs(db, f.records[i].1)[sid].contentId.text) in rows)
  }

  lemma {:induction false} BackingOfEntry(records: seq<(string, string)>, i: nat)
    requires i < |records|
    requires forall j, k | 0 <= j < |records| && 0 <= k < |records| && records[j].0 == records[k].0 :: j == k
    ensures BackingIn(records, records[i].0) == Some(records[i].1)
  {
    var n := |records| - 1;
    if i < n {
      BackingOfEntry(records[..n], i);
    }
  }

  /** When conflicts may be removed, the pass leaves the family clean. */
  lemma RepairCleans(db: Database, f: Family, before: map<DispatchKey, DispatchRow>,
                     after: map<DispatchKey, DispatchRow>)
    requires LayoutOk([f]) && Repaired(db, f, before, after, true)
    ensures Clean(db, f, after)
  {
    assert f in [f];
    forall key | key in after ensures RowOk(db, f, key, after[key]) {
      if key !in Kept(db, f, before, true) {
        var i, sid :| 0 <= i < |f.records| && IsMainBacking(db, f, i, sid)
          && after[key] == DispatchRow(f.records[i].0, Sid(sid)) && IsTextOf(Docs(db, f.records[i].1)[sid], key);
        BackingOfEntry(f.records, i);
      }
    }
    forall i, sid | 0 <= i < |f.records| && IsMainBacking(db, f, i, sid)
      ensures TextKey(Docs(db, f.records[i].1)[sid].contentId.text) in after
    {
      assert Covered(db, f, after, i, sid);
      BackingOfEntry(f.records, i);
      if Taken(after, f.records[i].0, sid) {
        var key :| key in after && after[key] == DispatchRow(f.records[i].0, Sid(sid));
        assert RowOk(db, f, key, after[key]);
      }
    }
  }

  /** On a clean family the pass changes nothing, so it reports no repair either. */
  lemma CleanIsFixed(db: Database, f: Family, rows: map<DispatchKey, DispatchRow>, after: map<DispatchKey, DispatchRow>,
                     repairConflicts: bool)
    requires Clean(db, f, rows) && Repaired(db, f, rows, after, repairConflicts)
    ensures after == rows
  {
    assert Kept(db, f, rows, repairConflicts) == rows;
    forall key | key in after && Inserted(db, f, key, after[key]) ensures key in rows {
      InsertedWasCovered(db, f, rows, key, after[key]);
    }
  }

  lemma InsertedWasCovered(db: Database, f: Family, rows: map<DispatchKey, DispatchRow>, key: DispatchKey,
                           row: DispatchRow)
    requires Clean(db, f, rows) && Inserted(db, f, key, row)
    ensures key in rows
  {
    var i, sid :| 0 <= i < |f.records| && IsMainBacking(db, f, i, sid)
      && row == DispatchRow(f.records[i].0, Sid(sid)) && IsTextOf(Docs(db, f.records[i].1)[sid], key);
  }

  /** The sweep never undoes the repair: dispatch targets and main documents are roots. */
  lemma SweepKeepsClean(db: Database, schemas: Schemas, layout: seq<Family>, marked: set<Node>, f: Family)
    requires IsMarkOf(db, schemas, layout, marked) && f in layout && |f.records| >= 2
    requires Clean(db, f, Rows(db, f.name))
    ensures Clean(Swept(db, schemas, marked), f, Rows(Swept(db, schemas, marked), f.name))
  {
    var after := Swept(db, schemas, marked);
    var rows := Rows(db, f.name);
    assert Rows(after, f.name) == rows;
    forall key | key in rows ensures RowOk(after, f, key, rows[key]) {
      assert RowOk(db, f, key, rows[key]);
      var backing := Backing(f, rows[key].record).value;
      SweptDocs(db, schemas, marked, backing);
      var node := (backing, rows[key].sid.n);
      if backing in schemas {
        assert node in RowTarget(schemas, f, Rows(db, f.name)[key]);
        assert IsDispatched(db, schemas, layout, node);
        RootIsReachable(db, schemas, layout, node);
      }
    }
    forall i, sid | 0 <= i < |f.records| && IsMainBacking(after, f, i, sid)
      ensures TextKey(Docs(after, f.records[i].1)[sid].contentId.text) in rows
    {
      SweptDocs(db, schemas, marked, f.records[i].1);
      assert IsMainBacking(db, f, i, sid);
    }
  }

  // ------------------------------------------------------------ a whole run

  /** The integrity pass repaired every multi-record family and touched nothing else. */
  ghost predicate Passed(before: Database, after: Database, layout: seq<Family>, repairConflicts: bool) {
    && after.collections == before.collections
    && (forall f :: f in layout && |f.records| >= 2 ==>
          Repaired(before, f, Rows(before, f.name), Rows(after, f.name), repairConflicts))
    && (forall name :: (forall f :: f in layout && |f.records| >= 2 ==> f.name != name) ==>
          Rows(after, name) == Rows(before, name))
  }

  ghost predicate AllClean(db: Database, layout: seq<Family>) {
    forall f :: f in layout && |f.records| >= 2 ==> Clean(db, f, Rows(db, f.name))
  }

  lemma CleanDependsOnDocs(db: Database, other: Database, f: Family, rows: map<DispatchKey, DispatchRow>)
    requires db.collections == other.collections && Clean(db, f, rows)
    ensures Clean(other, f, rows)
  {
    forall key | key in rows ensures RowOk(other, f, key, rows[key]) {
      assert RowOk(db, f, key, rows[key]);
    }
    forall i, sid | 0 <= i < |f.records| && IsMainBacking(other, f, i, sid)
      ensures TextKey(Docs(other, f.records[i].1)[sid].contentId.text) in rows
    {
      assert IsMainBacking(db, f, i, sid);
    }
  }

  /** One fsck that repairs and removes conflicts leaves every dispatch row naming a backing document
      with the same content id and every main document with a text content id dispatched, and its
      sweep keeps that so. */
  lemma FsckLeavesClean(before: Database, repaired: Database, schemas: Schemas, layout: seq<Family>, marked: set<Node>)
    requires LayoutOk(layout) && Passed(before, repaired, layout, true)
    requires IsMarkOf(repaired, schemas, layout, marked)
    ensures AllClean(repaired, layout) && AllClean(Swept(repaired, schemas, marked), layout)
  {
    forall f | f in layout && |f.records| >= 2
      ensures Clean(repaired, f, Rows(repaired, f.name))
      ensures Clean(Swept(repaired, schemas, marked), f, Rows(Swept(repaired, schemas, marked), f.name))
    {
      RepairCleans(before, f, Rows(before, f.name), Rows(repaired, f.name));
      CleanDependsOnDocs(before, repaired, f, Rows(repaired, f.name));
      SweepKeepsClean(repaired, schemas, layout, marked, f);
    }
  }

  /** Equal up to dispatch collections that are empty or absent. */
  predicate SameContents(a: Database, b: Database) {
    && a.collections == b.collections
    && forall name :: name in a.dispatch.Keys + b.dispatch.Keys ==> Rows(a, name) == Rows(b, name)
  }

  lemma SameContentsSameMark(a: Database, b: Database, schemas: Schemas, layout: seq<Family>, marked: set<Node>)
    requires SameContents(a, b) && IsMarkOf(a, schemas, layout, marked)
    ensures IsMarkOf(b, schemas, layout, marked)
  {
    forall name ensures Rows(a, name) == Rows(b, name) {
      if name !in a.dispatch.Keys + b.dispatch.Keys {
        assert Rows(a, name) == map[] == Rows(b, name);
      }
    }
    forall n ensures Edges(a, schemas, n) == Edges(b, schemas, n) {
      assert Docs(a, n.0) == Docs(b, n.0);
    }
    forall n ensures IsRoot(a, schemas, layout, n) <==> IsRoot(b, schemas, layout, n) {
      assert Docs(a, n.0) == Docs(b, n.0);
      SameDispatched(a, b, schemas, layout, n);
      SameDispatched(b, a, schemas, layout, n);
    }
    forall path ensures IsPath(a, schemas, layout, path) <==> IsPath(b, schemas, layout, path) {
    }
    forall n ensures Reachable(a, schemas, layout, n) <==> Reachable(b, schemas, layout, n) {
      if Reachable(b, schemas, layout, n) {
        var path :| IsPath(b, schemas, layout, path) && path[|path| - 1] == n;
        assert IsPath(a, schemas, layout, path);
      }
      if Reachable(a, schemas, layout, n) {
        var path :| IsPath(a, schemas, layout, path) && path[|path| - 1] == n;
        assert IsPath(b, schemas, layout, path);
      }
    }
  }

  lemma SameDispatched(a: Database, b: Database, schemas: Schemas, layout: seq<Family>, n: Node)
    requires forall name :: Rows(a, name) == Rows(b, name)
    ensures IsDispatched(a, schemas, layout, n) ==> IsDispatched(b, schemas, layout, n)
  {
    if IsDispatched(a, schemas, layout, n) {
      var f, key :| f in layout && |f.records| >= 2 && key in Rows(a, f.name)
                    && n in RowTarget(schemas, f, Rows(a, f.name)[key]);
      assert key in Rows(b, f.name);
    }
  }

  /** A second run repairs nothing, removes no row and sweeps no document. */
  lemma SecondFsckChangesNothing(before: Database, repaired: Database, schemas: Schemas, layout: seq<Family>,
                                 marked: set<Node>, repairedAgain: Database, markedAgain: set<Node>,
                                 repairConflicts: bool)
    requires LayoutOk(layout) && Passed(before, repaired, layout, true)
    requires IsMarkOf(repaired, schemas, layout, marked)
    requires Passed(Swept(repaired, schemas, marked), repairedAgain, layout, repairConflicts)
    requires IsMarkOf(repairedAgain, schemas, layout, markedAgain)
    ensures SameContents(repairedAgain, Swept(repaired, schemas, marked))
    ensures SameContents(Swept(repairedAgain, schemas, markedAgain), Swept(repaired, schemas, marked))
  {
    var once := Swept(repaired, schemas, marked);
    FsckLeavesClean(before, repaired, schemas, layout, marked);
    forall name ensures Rows(repairedAgain, name) == Rows(once, name) {
      if exists f :: f in layout && |f.records| >= 2 && f.name == name {
        var f :| f in layout && |f.records| >= 2 && f.name == name;
        CleanIsFixed(once, f, Rows(once, name), Rows(repairedAgain, name), repairConflicts);
      }
    }
    SameContentsSameMark(repairedAgain, once, schemas, layout, markedAgain);
    SweepIsIdempotent(repaired, schemas, layout, marked, markedAgain);
    assert Swept(repairedAgain, schemas, markedAgain).collections == Swept(once, schemas, markedAgain).collections;
  }
}
