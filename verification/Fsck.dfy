/** The fsck passes as they run: a batched worklist, the dispatch repair and the sweep, in place. */
module Fsck {
  import opened Common
  import opened FsckModel

  const BATCH_SIZE := 500

  /** The marks so far and, per collection, the sids still to be visited. */
  class Worklist {
    const db: Database
    const schemas: Schemas
    var marked: set<Node>
    var pending: map<string, seq<int>>
    ghost var visited: set<Node>

    predicate Queued(collection: string, n: int)
      reads this
    {
      collection in pending && n in pending[collection]
    }

    /** Every marked node is visited or pending once, and visited nodes have their edges marked. */
    ghost predicate Valid()
      reads this
    {
      && visited <= marked
      && (forall c, n :: Queued(c, n) <==> (c, n) in marked && (c, n) !in visited)
      && (forall c :: c in pending ==> c in schemas)
      && (forall c, i, j | c in pending && 0 <= i < |pending[c]| && 0 <= j < |pending[c]|
                           && pending[c][i] == pending[c][j] :: i == j)
    }

    constructor (db: Database, schemas: Schemas)
      ensures Valid() && this.db == db && this.schemas == schemas && marked == {} && visited == {}
    {
      this.db, this.schemas := db, schemas;
      marked, pending, visited := {}, map[], {};
    }

    method Enqueue(collection: string, cell: Cell)
      requires Valid()
      modifies this`marked, this`pending
      ensures Valid()
      ensures marked == old(marked) + (if collection in schemas && cell.Sid? then {(collection, cell.n)} else {})
    {
      if collection in schemas && cell.Sid? && (collection, cell.n) !in marked {
        var queue := if collection in pending then pending[collection] else [];
        forall i | 0 <= i < |queue| ensures (collection, queue[i]) in marked {
          assert Queued(collection, queue[i]);
        }
        marked := marked + {(collection, cell.n)};
        pending := pending[collection := queue + [cell.n]];
      }
    }

    /** Enqueues everything one document refers to. */
    method VisitDocument(links: seq<Link>, fields: map<string, FieldValue>)
      requires Valid()
      modifies this`marked, this`pending
      ensures Valid()
      ensures marked == old(marked) + (set link <- links, to <- Held(link, fields) | to.0 in schemas :: to)
    {
      var i := 0;
      while i < |links|
        invariant 0 <= i <= |links| && Valid()
        invariant marked == old(marked) + (set link <- links[..i], to <- Held(link, fields) | to.0 in schemas :: to)
      {
        assert links[..i + 1] == links[..i] + [links[i]];
        VisitLink(links[i], fields);
        i := i + 1;
      }
      assert links[..i] == links;
    }

    method VisitLink(link: Link, fields: map<string, FieldValue>)
      requires Valid()
      modifies this`marked, this`pending
      ensures Valid()
      ensures marked == old(marked) + (set to <- Held(link, fields) | to.0 in schemas)
    {
      match link
      case NoLink =>
      case Reference(key, target) =>
        if key in fields && fields[key].Scalar? {
          Enqueue(target, fields[key].cell);
        }
      case Child(field, column, target) =>
        if field in fields && fields[field].List? && column.Some? {
          VisitElements(fields[field].elements, column.value, target);
        }
    }

    method VisitElements(elements: seq<Element>, column: string, target: string)
      requires Valid()
      modifies this`marked, this`pending
      ensures Valid()
      ensures marked == old(marked) + (if target in schemas then ElementTargets(elements, column, target) else {})
    {
      var i := 0;
      while i < |elements|
        invariant 0 <= i <= |elements| && Valid()
        invariant marked == old(marked)
                         + (if target in schemas then ElementTargets(elements[..i], column, target) else {})
      {
        ElementStep(elements, i, column, target);
        if elements[i].Columns? && column in elements[i].cells {
          Enqueue(target, elements[i].cells[column]);
        }
        i := i + 1;
      }
      assert elements[..i] == elements;
    }

    /** Takes up to one batch off a collection's queue; the nodes count as visited from here on. */
    method PopBatch(collection: string) returns (batch: seq<int>)
      requires Valid() && collection in pending && pending[collection] != []
      modifies this`pending, this`visited
      ensures Valid() && batch != [] && |batch| == Min(BATCH_SIZE, |old(pending[collection])|)
      ensures visited == old(visited) + NodesOf(collection, batch) && visited > old(visited)
    {
      var queue := pending[collection];
      var k := Min(BATCH_SIZE, |queue|);
      batch := queue[..k];
      ghost var popped := NodesOf(collection, batch);
      assert forall n :: n in popped ==> n in marked - visited by {
        assert forall n :: n in batch ==> Queued(collection, n);
      }
      assert (collection, batch[0]) in popped;
      pending := pending[collection := queue[k..]];
      visited := visited + popped;
      assert Valid() by {
        QueueSplit(queue, k);
      }
    }

    /** Pops up to one batch of a collection's queue and visits the documents found. */
    method VisitBatch(collection: string)
      requires Valid() && collection in pending && pending[collection] != []
      requires forall n :: n in visited ==> Edges(db, schemas, n) <= marked
      modifies this
      ensures Valid() && visited > old(visited) && marked >= old(marked)
      ensures forall n :: n in visited ==> Edges(db, schemas, n) <= marked
      ensures AddsEdges(db, schemas, old(marked), marked)
    {
      var batch := PopBatch(collection);
      ghost var popped := NodesOf(collection, batch);
      assert popped <= old(marked);
      var found := Docs(db, collection);
      var i := 0;
      while i < |batch|
        invariant 0 <= i <= |batch| && Valid()
        invariant visited == old(visited) + popped && marked >= old(marked)
        invariant forall j :: 0 <= j < i ==> Edges(db, schemas, (collection, batch[j])) <= marked
        invariant AddsEdges(db, schemas, old(marked), marked)
      {
        assert batch[i] in batch && (collection, batch[i]) in popped;
        if batch[i] in found && found[batch[i]].role != NoRole && found[batch[i]].fields.Some? {
          VisitDocument(schemas[collection], found[batch[i]].fields.value);
        }
        i := i + 1;
      }
    }
  }

  ghost function NodesOf(collection: string, batch: seq<int>): (nodes: set<Node>)
    ensures forall n :: n in batch ==> (collection, n) in nodes
    ensures forall node :: node in nodes ==> node.0 == collection && node.1 in batch
  {
    set n <- batch :: (collection, n)
  }

  /** Nothing is marked but edges of nodes marked before. */
  ghost predicate AddsEdges(db: Database, schemas: Schemas, before: set<Node>, after: set<Node>) {
    forall n :: n in after ==> n in before || exists m :: m in before && n in Edges(db, schemas, m)
  }

  ghost function ElementTargets(elements: seq<Element>, column: string, target: string): set<Node> {
    set e <- elements | e.Columns? && column in e.cells && e.cells[column].Sid? :: (target, e.cells[column].n)
  }

  lemma ElementStep(elements: seq<Element>, i: nat, column: string, target: string)
    requires i < |elements|
    ensures ElementTargets(elements[..i + 1], column, target) ==
            ElementTargets(elements[..i], column, target) + ElementTargets([elements[i]], column, target)
    ensures ElementTargets([elements[i]], column, target) ==
            if elements[i].Columns? && column in elements[i].cells && elements[i].cells[column].Sid?
            then {(target, elements[i].cells[column].n)} else {}
  {
    assert elements[..i + 1] == elements[..i] + [elements[i]];
    assert elements[i] in [elements[i]];
  }

  lemma QueueSplit(queue: seq<int>, k: nat)
    requires k <= |queue|
    requires forall i, j | 0 <= i < |queue| && 0 <= j < |queue| && queue[i] == queue[j] :: i == j
    ensures forall n :: n in queue[k..] <==> n in queue && n !in queue[..k]
  {
    assert queue == queue[..k] + queue[k..];
  }

  ghost function Documents(db: Database): set<Node> {
    set c <- db.collections, sid <- db.collections[c] :: (c, sid)
  }

  /** Every node that can ever be marked. */
  ghost function Universe(db: Database, schemas: Schemas, roots: set<Node>): set<Node> {
    roots + set n <- Documents(db), to <- Edges(db, schemas, n) :: to
  }

  lemma EdgesInUniverse(db: Database, schemas: Schemas, roots: set<Node>, n: Node)
    ensures Edges(db, schemas, n) <= Universe(db, schemas, roots)
  {
    if Edges(db, schemas, n) != {} {
      var (c, sid) := n;
      assert c in db.collections && sid in db.collections[c];
      assert n in Documents(db);
    }
  }

  /** Seeds the worklist with the main-role documents. */
  method SeedMains(w: Worklist)
    requires w.Valid() && w.visited == {} && w.marked == {}
    modifies w
    ensures w.Valid() && w.visited == {}
    ensures forall n :: n in w.marked <==> IsMain(w.db, w.schemas, n)
  {
    var rest := w.schemas.Keys;
    while rest != {}
      invariant w.Valid() && w.visited == {} && rest <= w.schemas.Keys
      invariant forall n :: n in w.marked <==> IsMain(w.db, w.schemas, n) && n.0 !in rest
      decreases rest
    {
      var collection :| collection in rest;
      var docs := Docs(w.db, collection);
      var sids := docs.Keys;
      ghost var others := rest - {collection};
      while sids != {}
        invariant w.Valid() && w.visited == {} && sids <= docs.Keys
        invariant forall n :: n in w.marked <==>
          IsMain(w.db, w.schemas, n) && (n.0 !in rest || (n.0 == collection && n.1 !in sids))
        decreases sids
      {
        var sid := Pick(sids);
        if docs[sid].role == Main {
          w.Enqueue(collection, Sid(sid));
        }
        sids := sids - {sid};
      }
      rest := rest - {collection};
    }
  }

  /** Seeds the worklist with what one family's dispatch rows name. */
  method SeedDispatches(w: Worklist, f: Family)
    requires w.Valid() && w.visited == {}
    modifies w
    ensures w.Valid() && w.visited == {}
    ensures forall n :: n in w.marked <==> n in old(w.marked) || DispatchedBy(w.db, w.schemas, f, n)
  {
    if |f.records| < 2 {
      return;
    }
    var rows := Rows(w.db, f.name);
    var rest := rows.Keys;
    while rest != {}
      invariant w.Valid() && w.visited == {} && rest <= rows.Keys
      invariant forall n :: n in w.marked <==>
        n in old(w.marked) || exists key :: key in rows && key !in rest && n in RowTarget(w.schemas, f, rows[key])
      decreases rest
    {
      var key :| key in rest;
      var backing := Backing(f, rows[key].record);
      ghost var before := w.marked;
      if backing.Some? {
        w.Enqueue(backing.value, rows[key].sid);
      }
      assert w.marked == before + RowTarget(w.schemas, f, rows[key]);
      rest := rest - {key};
    }
  }

  ghost predicate DispatchedBy(db: Database, schemas: Schemas, f: Family, n: Node) {
    |f.records| >= 2 && exists key :: key in Rows(db, f.name) && n in RowTarget(schemas, f, Rows(db, f.name)[key])
  }

  /** Marks by batches until nothing is pending: exactly the reachable nodes. */
  method Mark(db: Database, schemas: Schemas, layout: seq<Family>) returns (marked: set<Node>)
    ensures IsMarkOf(db, schemas, layout, marked)
  {
    var w := new Worklist(db, schemas);
    SeedMains(w);
    var i := 0;
    while i < |layout|
      invariant 0 <= i <= |layout| && w.Valid() && w.visited == {} && w.db == db && w.schemas == schemas
      invariant fresh(w)
      invariant forall n :: n in w.marked <==>
        IsMain(db, schemas, n) || exists j :: 0 <= j < i && DispatchedBy(db, schemas, layout[j], n)
      modifies w
    {
      SeedDispatches(w, layout[i]);
      i := i + 1;
    }
    forall n ensures n in w.marked <==> IsRoot(db, schemas, layout, n) {
      RootsAreSeeds(db, schemas, layout, n);
    }
    forall n | n in w.marked ensures Reachable(db, schemas, layout, n) {
      RootIsReachable(db, schemas, layout, n);
    }
    Drain(w, layout);
    marked := w.marked;
    forall n | Reachable(db, schemas, layout, n) ensures n in marked {
      var path :| IsPath(db, schemas, layout, path) && path[|path| - 1] == n;
      ClosedContainsPaths(db, schemas, layout, marked, path);
    }
  }

  lemma RootsAreSeeds(db: Database, schemas: Schemas, layout: seq<Family>, n: Node)
    ensures IsRoot(db, schemas, layout, n) <==>
            IsMain(db, schemas, n) || exists j :: 0 <= j < |layout| && DispatchedBy(db, schemas, layout[j], n)
  {
    if IsDispatched(db, schemas, layout, n) {
      var f, key :| f in layout && |f.records| >= 2 && key in Rows(db, f.name)
                    && n in RowTarget(schemas, f, Rows(db, f.name)[key]);
      var j :| 0 <= j < |layout| && layout[j] == f;
      assert DispatchedBy(db, schemas, layout[j], n);
    }
  }

  /** Visits batches, one collection after another, until every queue is empty. */
  method Drain(w: Worklist, layout: seq<Family>)
    requires w.Valid() && w.visited == {}
    requires forall n :: n in w.marked ==> Reachable(w.db, w.schemas, layout, n)
    modifies w
    ensures w.marked >= old(w.marked)
    ensures forall n :: n in w.marked ==> Edges(w.db, w.schemas, n) <= w.marked
    ensures forall n :: n in w.marked ==> Reachable(w.db, w.schemas, layout, n)
  {
    ghost var all := Universe(w.db, w.schemas, w.marked);
    forall n ensures Edges(w.db, w.schemas, n) <= all {
      EdgesInUniverse(w.db, w.schemas, w.marked, n);
    }
    while exists c :: c in w.pending && w.pending[c] != []
      invariant w.Valid() && old(w.marked) <= w.marked <= all
      invariant forall n :: n in w.visited ==> Edges(w.db, w.schemas, n) <= w.marked
      invariant forall n :: n in w.marked ==> Reachable(w.db, w.schemas, layout, n)
      decreases all - w.visited
    {
      var names := w.pending.Keys;
      ghost var before := w.visited;
      var c0 :| c0 in w.pending && w.pending[c0] != [];
      VisitOnce(w, c0, layout, all);
      names := names - {c0};
      while names != {}
        invariant w.Valid() && old(w.marked) <= w.marked <= all && w.visited > before
        invariant forall n :: n in w.visited ==> Edges(w.db, w.schemas, n) <= w.marked
        invariant forall n :: n in w.marked ==> Reachable(w.db, w.schemas, layout, n)
        decreases names
      {
        var c :| c in names;
        if c in w.pending && w.pending[c] != [] {
          VisitOnce(w, c, layout, all);
        }
        names := names - {c};
      }
    }
    forall n | n in w.marked ensures n in w.visited {
      assert !w.Queued(n.0, n.1) && n == (n.0, n.1);
    }
  }

  method VisitOnce(w: Worklist, collection: string, layout: seq<Family>, ghost all: set<Node>)
    requires w.Valid() && collection in w.pending && w.pending[collection] != []
    requires w.marked <= all && forall n :: Edges(w.db, w.schemas, n) <= all
    requires forall n :: n in w.visited ==> Edges(w.db, w.schemas, n) <= w.marked
    requires forall n :: n in w.marked ==> Reachable(w.db, w.schemas, layout, n)
    modifies w
    ensures w.Valid() && w.visited > old(w.visited) && old(w.marked) <= w.marked <= all
    ensures forall n :: n in w.visited ==> Edges(w.db, w.schemas, n) <= w.marked
    ensures forall n :: n in w.marked ==> Reachable(w.db, w.schemas, layout, n)
  {
    w.VisitBatch(collection);
    forall n | n in w.marked ensures n in all && Reachable(w.db, w.schemas, layout, n) {
      if n !in old(w.marked) {
        var m :| m in old(w.marked) && n in Edges(w.db, w.schemas, m);
        EdgeKeepsReachable(w.db, w.schemas, layout, m, n);
      }
    }
  }

  lemma CoveredStays(db: Database, f: Family, rows: map<DispatchKey, DispatchRow>, more: map<DispatchKey, DispatchRow>,
                     i: nat, sid: int)
    requires i < |f.records| && IsMainBacking(db, f, i, sid) && Covered(db, f, rows, i, sid)
    requires forall key :: key in rows ==> key in more && more[key] == rows[key]
    ensures Covered(db, f, more, i, sid)
  {
    if Taken(rows, f.records[i].0, sid) {
      var key :| key in rows && rows[key] == DispatchRow(f.records[i].0, Sid(sid));
      assert key in more && more[key] == rows[key];
    }
  }

  // --------------------------------------------------------------- the store

  class Store {
    var collections: map<string, map<int, Document>>
    var dispatch: map<string, map<DispatchKey, DispatchRow>>

    function Abs(): Database
      reads this
    {
      Database(collections, dispatch)
    }

    /** Removes unsound dispatch rows of one family when told to, then inserts the missing ones. */
    method RepairFamily(f: Family, repairConflicts: bool)
      modifies this`dispatch
      ensures Repaired(old(Abs()), f, Rows(old(Abs()), f.name), Rows(Abs(), f.name), repairConflicts)
      ensures forall other :: other != f.name ==> Rows(Abs(), other) == Rows(old(Abs()), other)
    {
      ghost var db := Abs();
      var rows := RemoveUnsound(f, Rows(Abs(), f.name), repairConflicts);
      ghost var kept := rows;
      var i := 0;
      while i < |f.records|
        invariant 0 <= i <= |f.records| && Abs() == db
        invariant forall key :: key in kept ==> key in rows && rows[key] == kept[key]
        invariant forall key :: key in rows && key !in kept ==> Inserted(db, f, key, rows[key])
        invariant forall j, sid :: 0 <= j < i && IsMainBacking(db, f, j, sid) ==> Covered(db, f, rows, j, sid)
      {
        ghost var fewer := rows;
        rows := InsertMissing(f, i, rows, kept);
        forall j, sid | 0 <= j < i && IsMainBacking(db, f, j, sid) ensures Covered(db, f, rows, j, sid) {
          CoveredStays(db, f, fewer, rows, j, sid);
        }
        i := i + 1;
      }
      dispatch := dispatch[f.name := rows];
    }

    /** Removes the unsound rows of one family when told to. */
    method RemoveUnsound(f: Family, before: map<DispatchKey, DispatchRow>, repairConflicts: bool)
      returns (rows: map<DispatchKey, DispatchRow>)
      ensures rows == Kept(Abs(), f, before, repairConflicts)
    {
      rows := before;
      var rest := rows.Keys;
      while rest != {}
        invariant rest <= before.Keys
        invariant rows == map key <- before | !repairConflicts || key in rest || RowOk(Abs(), f, key, before[key]) ::
                            before[key]
        decreases rest
      {
        var key :| key in rest;
        if !RowOk(Abs(), f, key, rows[key]) && repairConflicts {
          rows := rows - {key};
        }
        rest := rest - {key};
      }
    }

    /** Inserts a row for each main document of one backing that has none. */
    method InsertMissing(f: Family, i: nat, rows: map<DispatchKey, DispatchRow>,
                         ghost kept: map<DispatchKey, DispatchRow>)
      returns (more: map<DispatchKey, DispatchRow>)
      requires i < |f.records|
      requires forall key :: key in rows && key !in kept ==> Inserted(Abs(), f, key, rows[key])
      ensures forall key :: key in rows ==> key in more && more[key] == rows[key]
      ensures forall key :: key in more && key !in kept ==> Inserted(Abs(), f, key, more[key])
      ensures forall sid :: IsMainBacking(Abs(), f, i, sid) ==> Covered(Abs(), f, more, i, sid)
    {
      more := rows;
      var (name, collection) := f.records[i];
      var docs := Docs(Abs(), collection);
      var rest := docs.Keys;
      while rest != {}
        invariant rest <= docs.Keys
        invariant forall key :: key in rows ==> key in more && more[key] == rows[key]
        invariant forall key :: key in more && key !in kept ==> Inserted(Abs(), f, key, more[key])
        invariant forall sid :: IsMainBacking(Abs(), f, i, sid) && sid !in rest ==> Covered(Abs(), f, more, i, sid)
        decreases rest
      {
        var sid := Pick(rest);
        rest := rest - {sid};
        if docs[sid].role == Main && docs[sid].contentId.Text? {
          var key := TextKey(docs[sid].contentId.text);
          if key !in more && !Taken(more, name, sid) {
            ghost var before := more;
            more := more[key := DispatchRow(name, Sid(sid))];
            assert IsMainBacking(Abs(), f, i, sid) && Inserted(Abs(), f, key, more[key]);
            forall s | IsMainBacking(Abs(), f, i, s) && s !in rest && s != sid ensures Covered(Abs(), f, more, i, s) {
              CoveredStays(Abs(), f, before, more, i, s);
            }
          }
        }
      }
    }

    method IntegrityPass(layout: seq<Family>, repairConflicts: bool)
      requires LayoutOk(layout)
      modifies this`dispatch
      ensures Passed(old(Abs()), Abs(), layout, repairConflicts)
    {
      ghost var before := Abs();
      var i := 0;
      while i < |layout|
        invariant 0 <= i <= |layout| && collections == before.collections
        invariant forall f :: f in layout[..i] && |f.records| >= 2 ==>
          Repaired(before, f, Rows(before, f.name), Rows(Abs(), f.name), repairConflicts)
        invariant forall name :: (forall f :: f in layout[..i] && |f.records| >= 2 ==> f.name != name) ==>
          Rows(Abs(), name) == Rows(before, name)
      {
        var f := layout[i];
        assert layout[..i + 1] == layout[..i] + [f];
        assert forall g :: g in layout[..i] ==> g.name != f.name;
        if |f.records| >= 2 {
          ghost var now := Abs();
          RepairFamily(f, repairConflicts);
          RepairedDependsOnDocs(now, before, f, Rows(before, f.name), Rows(Abs(), f.name), repairConflicts);
        }
        i := i + 1;
      }
      assert layout[..i] == layout;
    }

    /** Deletes the unmarked dependency documents of every known collection. */
    method Sweep(schemas: Schemas, marked: set<Node>)
      modifies this`collections
      ensures Abs() == Swept(old(Abs()), schemas, marked)
    {
      ghost var before := collections;
      assert forall c :: c in before && c !in schemas ==> SweptCollection(schemas, marked, c, before[c]) == before[c];
      var rest := schemas.Keys;
      while rest != {}
        invariant rest <= schemas.Keys
        invariant collections == map c <- before ::
          if c in rest then before[c] else SweptCollection(schemas, marked, c, before[c])
        decreases rest
      {
        var c :| c in rest;
        if c in collections {
          collections := collections[c := SweptCollection(schemas, marked, c, collections[c])];
        }
        rest := rest - {c};
      }
    }

    /** Repair, then mark, then sweep; the sweep is skipped when some collection is unknown. */
    method RunFsck(layout: seq<Family>, schemas: Schemas, repair: bool, collectGarbage: bool, repairConflicts: bool,
                   unattributed: bool) returns (ghost repaired: Database, ghost marked: set<Node>)
      requires LayoutOk(layout)
      modifies this
      ensures if repair then Passed(old(Abs()), repaired, layout, repairConflicts) else repaired == old(Abs())
      ensures IsMarkOf(repaired, schemas, layout, marked)
      ensures Abs() == if collectGarbage && !unattributed then Swept(repaired, schemas, marked) else repaired
    {
      if repair {
        IntegrityPass(layout, repairConflicts);
      }
      repaired := Abs();
      var marks := Mark(Abs(), schemas, layout);
      marked := marks;
      if collectGarbage && !unattributed {
        Sweep(schemas, marks);
      }
    }
  }

  lemma RepairedDependsOnDocs(db: Database, other: Database, f: Family, before: map<DispatchKey, DispatchRow>,
                              after: map<DispatchKey, DispatchRow>, repairConflicts: bool)
    requires db.collections == other.collections && Repaired(db, f, before, after, repairConflicts)
    ensures Repaired(other, f, before, after, repairConflicts)
  {
    assert Kept(db, f, before, repairConflicts) == Kept(other, f, before, repairConflicts);
    forall key | key in after && Inserted(db, f, key, after[key]) ensures Inserted(other, f, key, after[key]) {
      var i, sid :| 0 <= i < |f.records| && IsMainBacking(db, f, i, sid)
        && after[key] == DispatchRow(f.records[i].0, Sid(sid)) && IsTextOf(Docs(db, f.records[i].1)[sid], key);
      assert IsMainBacking(other, f, i, sid);
    }
    forall i, sid | 0 <= i < |f.records| && IsMainBacking(other, f, i, sid) ensures Covered(other, f, after, i, sid) {
      assert IsMainBacking(db, f, i, sid) && Covered(db, f, after, i, sid);
    }
  }
}
