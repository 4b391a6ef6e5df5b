/** What an fsck follows, keeps and repairs, told from the stored cells and rows themselves. */
module FsckTheorems {
  import opened Common
  import opened FsckModel

  // --------------------------------------------------------------- references

  /** A cell of the document names the node under one of the links: a reference field's own sid, or the named
      column of an element of a child list. */
  ghost predicate CellNames(links: seq<Link>, fields: map<string, FieldValue>, to: Node) {
    || (exists key :: Reference(key, to.0) in links && key in fields && fields[key] == Scalar(Sid(to.1)))
    || (exists field, column, i: nat :: Child(field, Some(column), to.0) in links && field in fields
          && fields[field].List? && ElementNames(fields[field].elements, i, column, to.1))
  }

  predicate ElementNames(elements: seq<Element>, i: nat, column: string, sid: int) {
    i < |elements| && elements[i].Columns? && column in elements[i].cells && elements[i].cells[column] == Sid(sid)
  }

  lemma HeldIsNamed(link: Link, fields: map<string, FieldValue>, to: Node)
    ensures to in Held(link, fields) <==> CellNames([link], fields, to)
  {
    assert forall l :: l in [link] <==> l == link;
    if link.Child? && to in Held(link, fields) {
      var e :| e in fields[link.field].elements && e.Columns? && link.column.value in e.cells
               && e.cells[link.column.value] == Sid(to.1);
      var i :| 0 <= i < |fields[link.field].elements| && fields[link.field].elements[i] == e;
      assert ElementNames(fields[link.field].elements, i, link.column.value, to.1);
    }
    if CellNames([link], fields, to) && link.Child? {
      var field, column, i: nat :| Child(field, Some(column), to.0) in [link] && field in fields
        && fields[field].List? && ElementNames(fields[field].elements, i, column, to.1);
      assert fields[field].elements[i] in fields[field].elements;
    }
  }

  lemma NamedByOneLink(links: seq<Link>, fields: map<string, FieldValue>, to: Node)
    ensures CellNames(links, fields, to) <==> exists link :: link in links && CellNames([link], fields, to)
  {
    forall link | link in links && CellNames([link], fields, to) ensures CellNames(links, fields, to) {
      assert forall l :: l in [link] <==> l == link;
    }
    if key :| Reference(key, to.0) in links && key in fields && fields[key] == Scalar(Sid(to.1)) {
      assert Reference(key, to.0) in [Reference(key, to.0)] && CellNames([Reference(key, to.0)], fields, to);
    }
    if field, column, i: nat :| Child(field, Some(column), to.0) in links && field in fields
                                && fields[field].List? && ElementNames(fields[field].elements, i, column, to.1) {
      var link := Child(field, Some(column), to.0);
      assert link in [link] && CellNames([link], fields, to);
    }
  }

  /** The stored document names the node in a collection the fsck knows. */
  ghost predicate Names(db: Database, schemas: Schemas, n: Node, to: Node) {
    && n.0 in schemas && to.0 in schemas && n.1 in Docs(db, n.0) && Docs(db, n.0)[n.1].fields.Some?
    && CellNames(schemas[n.0], Docs(db, n.0)[n.1].fields.value, to)
  }

  /** Edges are exactly the sids that the cells of a document with a valid role name. */
  lemma EdgesAreCells(db: Database, schemas: Schemas, n: Node, to: Node)
    ensures to in Edges(db, schemas, n) <==> Names(db, schemas, n, to) && Docs(db, n.0)[n.1].role in {Main, Dep}
    ensures to in Mentions(db, schemas, n) <==> Names(db, schemas, n, to)
  {
    if n.0 in schemas && n.1 in Docs(db, n.0) && Docs(db, n.0)[n.1].fields.Some? {
      var links, fields := schemas[n.0], Docs(db, n.0)[n.1].fields.value;
      NamedByOneLink(links, fields, to);
      forall link ensures to in Held(link, fields) <==> CellNames([link], fields, to) {
        HeldIsNamed(link, fields, to);
      }
    }
  }

  /** A dispatch row of a family with several records, or a main-role document: what marking starts from. */
  ghost predicate IsStart(db: Database, schemas: Schemas, layout: seq<Family>, n: Node) {
    n.0 in schemas && ((n.1 in Docs(db, n.0) && Docs(db, n.0)[n.1].role == Main) || RowNames(db, layout, n))
  }

  ghost predicate RowNames(db: Database, layout: seq<Family>, n: Node) {
    exists f, i: nat, key :: f in layout && |f.records| >= 2 && i < |f.records| && f.records[i].1 == n.0
                             && HasRow(db, f.name, key, DispatchRow(f.records[i].0, Sid(n.1)))
  }

  predicate HasRow(db: Database, family: string, key: DispatchKey, row: DispatchRow) {
    family in db.dispatch && key in db.dispatch[family] && db.dispatch[family][key] == row
  }

  lemma RootsAreStarts(db: Database, schemas: Schemas, layout: seq<Family>, n: Node)
    requires LayoutOk(layout)
    ensures IsRoot(db, schemas, layout, n) <==> IsStart(db, schemas, layout, n)
  {
    if f, key :| f in layout && |f.records| >= 2 && key in Rows(db, f.name)
                 && n in RowTarget(schemas, f, Rows(db, f.name)[key]) {
      var row := Rows(db, f.name)[key];
      var i := BackingIsEntry(f.records, row.record);
      assert f.records[i].1 == n.0 && HasRow(db, f.name, key, DispatchRow(f.records[i].0, Sid(n.1)));
    }
    if f, i: nat, key :| f in layout && |f.records| >= 2 && i < |f.records| && f.records[i].1 == n.0
                         && HasRow(db, f.name, key, DispatchRow(f.records[i].0, Sid(n.1))) {
      BackingOfEntry(f.records, i);
      if n.0 in schemas {
        assert n in RowTarget(schemas, f, Rows(db, f.name)[key]);
      }
    }
  }

  lemma {:induction false} BackingIsEntry(records: seq<(string, string)>, record: string) returns (i: nat)
    requires BackingIn(records, record).Some?
    ensures i < |records| && records[i] == (record, BackingIn(records, record).value)
  {
    i := |records| - 1;
    if records[i].0 != record {
      i := BackingIsEntry(records[..i], record);
    }
  }

  /** Main documents and what dispatch rows name are marked, and so is whatever a cell of a marked document
      with a valid role names. Of all these, what is stored stays as it is through the sweep. */
  lemma MarkedStays(db: Database, schemas: Schemas, layout: seq<Family>, marked: set<Node>, n: Node, to: Node)
    requires LayoutOk(layout) && IsMarkOf(db, schemas, layout, marked)
    ensures IsStart(db, schemas, layout, n) ==> n in marked
    ensures n in marked && Names(db, schemas, n, to) && Docs(db, n.0)[n.1].role in {Main, Dep} ==> to in marked
    ensures to in marked && to.1 in Docs(db, to.0) ==>
              to.1 in Docs(Swept(db, schemas, marked), to.0)
              && Docs(Swept(db, schemas, marked), to.0)[to.1] == Docs(db, to.0)[to.1]
  {
    MarkIsLeast(db, schemas, layout, marked, marked);
    RootsAreStarts(db, schemas, layout, n);
    EdgesAreCells(db, schemas, n, to);
    SweptDocs(db, schemas, marked, to.0);
  }

  /** Nothing else is marked: each marked node is a start or named by a marked document with a valid role. */
  lemma MarkedForAReason(db: Database, schemas: Schemas, layout: seq<Family>, marked: set<Node>, n: Node)
    requires LayoutOk(layout) && IsMarkOf(db, schemas, layout, marked) && n in marked
    ensures IsStart(db, schemas, layout, n)
         || exists m :: m in marked && Names(db, schemas, m, n) && Docs(db, m.0)[m.1].role in {Main, Dep}
  {
    var path :| IsPath(db, schemas, layout, path) && path[|path| - 1] == n;
    RootsAreStarts(db, schemas, layout, path[0]);
    if |path| > 1 {
      var m := path[|path| - 2];
      assert IsPath(db, schemas, layout, path[..|path| - 1]) && path[..|path| - 1][|path| - 2] == m;
      EdgesAreCells(db, schemas, m, n);
    }
  }

  /** The sweep touches neither dispatch rows nor other collections than those it knows, nor any document whose
      role is not that of a dependency. */
  lemma SweepTouchesDependenciesOnly(db: Database, schemas: Schemas, marked: set<Node>, c: string, sid: int)
    ensures Swept(db, schemas, marked).dispatch == db.dispatch
    ensures sid in Docs(db, c) && (c !in schemas || Docs(db, c)[sid].role != Dep) ==>
              sid in Docs(Swept(db, schemas, marked), c)
    ensures sid in Docs(Swept(db, schemas, marked), c) ==>
              sid in Docs(db, c) && Docs(Swept(db, schemas, marked), c)[sid] == Docs(db, c)[sid]
  {
    SweptDocs(db, schemas, marked, c);
  }

  // ------------------------------------------------------------------ repair

  /** The row's record is one of the family's, and the document it names there has the row's content id. */
  ghost predicate IsSound(db: Database, f: Family, key: DispatchKey, row: DispatchRow) {
    exists i: nat, n :: i < |f.records| && row == DispatchRow(f.records[i].0, Sid(n)) && n in Docs(db, f.records[i].1)
                        && key.TextKey? && Docs(db, f.records[i].1)[n].contentId == Text(key.text)
  }

  lemma SoundRows(db: Database, f: Family, key: DispatchKey, row: DispatchRow)
    requires LayoutOk([f])
    ensures RowOk(db, f, key, row) <==> IsSound(db, f, key, row)
  {
    assert f in [f];
    if RowOk(db, f, key, row) {
      var i := BackingIsEntry(f.records, row.record);
      assert row == DispatchRow(f.records[i].0, Sid(row.sid.n));
    }
    if i: nat, n :| i < |f.records| && row == DispatchRow(f.records[i].0, Sid(n)) && n in Docs(db, f.records[i].1)
                    && key.TextKey? && Docs(db, f.records[i].1)[n].contentId == Text(key.text) {
      BackingOfEntry(f.records, i);
    }
  }

  /** A row as the pass writes it: for a main document of the family, under its text content id. */
  ghost predicate IsWritten(db: Database, f: Family, key: DispatchKey, row: DispatchRow) {
    exists i: nat, n :: i < |f.records| && row == DispatchRow(f.records[i].0, Sid(n)) && n in Docs(db, f.records[i].1)
                        && Docs(db, f.records[i].1)[n].role == Main
                        && key.TextKey? && Docs(db, f.records[i].1)[n].contentId == Text(key.text)
  }

  /** The pass leaves every row in place when it may not remove conflicts, and otherwise exactly the sound
      ones; besides those there are only rows it wrote. */
  lemma RepairKeepsRows(db: Database, f: Family, before: map<DispatchKey, DispatchRow>,
                        after: map<DispatchKey, DispatchRow>, repairConflicts: bool, key: DispatchKey)
    requires LayoutOk([f]) && Repaired(db, f, before, after, repairConflicts)
    ensures key in before && (!repairConflicts || IsSound(db, f, key, before[key])) ==>
              key in after && after[key] == before[key]
    ensures key in after ==> (key in before && after[key] == before[key]) || IsWritten(db, f, key, after[key])
    ensures key in after && repairConflicts ==> IsSound(db, f, key, after[key])
  {
    if key in before {
      SoundRows(db, f, key, before[key]);
    }
    if key in after && key !in Kept(db, f, before, repairConflicts) {
      var i, sid :| 0 <= i < |f.records| && IsMainBacking(db, f, i, sid)
        && after[key] == DispatchRow(f.records[i].0, Sid(sid)) && IsTextOf(Docs(db, f.records[i].1)[sid], key);
      assert IsWritten(db, f, key, after[key]);
      assert IsSound(db, f, key, after[key]);
    }
  }

  /** After the pass a main document with a text content id has a row under it, or a row names the document
      already; the latter is ruled out when conflicts were removed. */
  lemma RepairCoversMains(db: Database, f: Family, before: map<DispatchKey, DispatchRow>,
                          after: map<DispatchKey, DispatchRow>, repairConflicts: bool, i: nat, n: int, text: string)
    requires LayoutOk([f]) && Repaired(db, f, before, after, repairConflicts) && i < |f.records|
    requires n in Docs(db, f.records[i].1) && Docs(db, f.records[i].1)[n].role == Main
    requires Docs(db, f.records[i].1)[n].contentId == Text(text)
    ensures TextKey(text) in after
         || (!repairConflicts && exists key :: key in after && after[key] == DispatchRow(f.records[i].0, Sid(n)))
  {
    assert IsMainBacking(db, f, i, n) && Covered(db, f, after, i, n);
    if repairConflicts {
      RepairCleans(db, f, before, after);
    }
  }

  /** The pass edits no document, and no dispatch rows but those of families with several records. */
  lemma PassTouchesRowsOnly(before: Database, after: Database, layout: seq<Family>, repairConflicts: bool, name: string,
                            key: DispatchKey, row: DispatchRow)
    requires Passed(before, after, layout, repairConflicts)
    ensures after.collections == before.collections
    ensures (forall f :: f in layout && f.name == name ==> |f.records| < 2) ==>
              (HasRow(after, name, key, row) <==> HasRow(before, name, key, row))
  {
    if forall f :: f in layout && f.name == name ==> |f.records| < 2 {
      assert Rows(after, name) == Rows(before, name);
    }
  }
}
