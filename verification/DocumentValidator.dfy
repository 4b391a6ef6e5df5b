/** What the collection validator refuses, and what it guarantees to decoding. */
module DocumentValidator {
  import opened Common
  import opened Documents

  /** The column is the field's exact channel: the first one whose name ends like one. */
  ghost predicate IsExactChannel(columns: seq<Column>, e: nat) {
    e < |columns| && EndsExact(columns[e].name) && forall k :: 0 <= k < e ==> !EndsExact(columns[k].name)
  }

  ghost predicate EndsExact(name: string) { exists base: string :: name == base + "_exact" }

  lemma ExactEnds(name: string)
    ensures IsExact(name) <==> EndsExact(name)
  {
    if IsExact(name) {
      assert name == name[..|name| - 6] + "_exact";
    }
    if base: string :| name == base + "_exact" {
      assert name[|name| - 6..] == "_exact";
    }
  }

  /** A channel is stored without the exact one that goes with it. */
  ghost predicate LacksExact(columns: seq<Column>, doc: Document) {
    exists e: nat, i: nat :: IsExactChannel(columns, e) && i < |columns| && i != e
                        && columns[i].name in doc && columns[e].name !in doc
  }

  lemma DependenciesAre(columns: seq<Column>, doc: Document)
    ensures DependenciesHold(columns, doc) <==> !LacksExact(columns, doc)
  {
    forall name ensures IsExact(name) <==> EndsExact(name) {
      ExactEnds(name);
    }
    if !DependenciesHold(columns, doc) {
      var e, i :| 0 <= e < |columns| && 0 <= i < |columns| && IsExact(columns[e].name)
        && (forall k :: 0 <= k < e ==> !IsExact(columns[k].name)) && i != e
        && columns[i].name in doc && columns[e].name !in doc;
      assert IsExactChannel(columns, e);
    }
    if e: nat, i: nat :| IsExactChannel(columns, e) && i < |columns| && i != e && columns[i].name in doc
                         && columns[e].name !in doc {
      assert 0 <= e < |columns| && 0 <= i < |columns| && IsExact(columns[e].name);
      assert forall k :: 0 <= k < e ==> !IsExact(columns[k].name);
    }
  }

  predicate IsMistyped(columns: seq<Column>, doc: Document) {
    exists i :: 0 <= i < |columns| && columns[i].name in doc && !HasKind(doc[columns[i].name], columns[i].kind)
  }

  predicate IsIncomplete(columns: seq<Column>, doc: Document) {
    exists i :: 0 <= i < |columns| && columns[i].name !in doc
  }

  /** An element of a child list is refused for a missing, foreign or mistyped column. */
  predicate IsFlawedElement(spec: FieldSpec, e: Document) {
    || IsIncomplete(spec.columns, e) || IsMistyped(spec.columns, e)
    || exists k :: k in e && forall i :: 0 <= i < |spec.columns| ==> spec.columns[i].name != k
  }

  /** What a field is refused for: a required child that is missing, a child that is no list or has a flawed
      element; a mistyped column, a missing one where the field is required, and in encoded and tensor fields a
      channel without its exact one. */
  ghost predicate IsFlawed(spec: FieldSpec, doc: Document) {
    if spec.isChild then
      || (spec.field !in doc && !spec.optional)
      || (spec.field in doc && !doc[spec.field].BList?)
      || (spec.field in doc && doc[spec.field].BList?
          && exists i :: 0 <= i < |doc[spec.field].elements| && IsFlawedElement(spec, doc[spec.field].elements[i]))
    else
      || IsMistyped(spec.columns, doc) || (!spec.optional && IsIncomplete(spec.columns, doc))
      || ((spec.element.Coded? || spec.element.Tensor?) && LacksExact(spec.columns, doc))
  }

  lemma TypedIs(columns: seq<Column>, doc: Document)
    ensures ColumnsTyped(columns, doc) <==> !IsMistyped(columns, doc)
  {
    if !ColumnsTyped(columns, doc) {
      var c :| c in columns && c.name in doc && !HasKind(doc[c.name], c.kind);
      var i :| 0 <= i < |columns| && columns[i] == c;
      assert IsMistyped(columns, doc);
    }
  }

  lemma NamesAre(spec: FieldSpec, k: string)
    ensures k in Names(spec) <==> exists i :: 0 <= i < |spec.columns| && spec.columns[i].name == k
  {
    if i :| 0 <= i < |spec.columns| && spec.columns[i].name == k {
      assert Names(spec)[i] == k;
    }
  }

  lemma CompleteIs(spec: FieldSpec, doc: Document)
    ensures (forall n :: n in Names(spec) ==> n in doc) <==> !IsIncomplete(spec.columns, doc)
  {
    forall n ensures n in Names(spec) <==> exists i :: 0 <= i < |spec.columns| && spec.columns[i].name == n {
      NamesAre(spec, n);
    }
  }

  lemma ElementsAreJudged(spec: FieldSpec, e: Document)
    ensures ElementValid(spec, e) <==> !IsFlawedElement(spec, e)
  {
    TypedIs(spec.columns, e);
    CompleteIs(spec, e);
    DependenciesAre(spec.columns, e);
    forall k ensures k in Names(spec) <==> exists i :: 0 <= i < |spec.columns| && spec.columns[i].name == k {
      NamesAre(spec, k);
    }
  }

  /** The validator refuses a document for a field exactly when the field is flawed. */
  lemma FieldsAreJudged(spec: FieldSpec, doc: Document)
    ensures FieldValid(spec, doc) <==> !IsFlawed(spec, doc)
  {
    if spec.isChild {
      forall e ensures ElementValid(spec, e) <==> !IsFlawedElement(spec, e) {
        ElementsAreJudged(spec, e);
      }
      if spec.field in doc && doc[spec.field].BList? {
        var elements := doc[spec.field].elements;
        assert (forall e :: e in elements ==> ElementValid(spec, e)) <==>
               (forall i :: 0 <= i < |elements| ==> !IsFlawedElement(spec, elements[i]));
      }
    } else {
      TypedIs(spec.columns, doc);
      CompleteIs(spec, doc);
      DependenciesAre(spec.columns, doc);
    }
  }

  // ----------------------------------------------------------------- decoding

  lemma CompleteItemsDecode(refs: References, spec: FieldSpec, doc: Document)
    requires SpecOk(refs, spec) && !IsIncomplete(spec.columns, doc) && !IsMistyped(spec.columns, doc)
    ensures DecodeItem(refs, spec, doc).Some? && ItemFits(spec, DecodeItem(refs, spec, doc).value)
  {
    CompleteIs(spec, doc);
    var n := |spec.columns|;
    forall i | 0 <= i < n ensures Names(spec)[i] in doc && HasKind(doc[Names(spec)[i]], spec.columns[i].kind) {
      assert spec.columns[i].name in doc;
    }
  }

  lemma {:induction false} ValidElementsDecode(refs: References, spec: FieldSpec, elements: seq<Document>)
    requires SpecOk(refs, spec) && forall i :: 0 <= i < |elements| ==> !IsFlawedElement(spec, elements[i])
    ensures var items := DecodeItems(refs, spec, elements);
            && items.Some? && |items.value| == |elements|
            && forall i :: 0 <= i < |elements| ==> ItemFits(spec, items.value[i])
  {
    if elements != [] {
      var n := |elements| - 1;
      ValidElementsDecode(refs, spec, elements[..n]);
      CompleteItemsDecode(refs, spec, elements[n]);
    }
  }

  /** Whatever the validator lets through decodes to a value of the field's declared type; what it does not see to
      is that the columns of an optional field are stored together. */
  lemma ValidFieldsDecode(refs: References, spec: FieldSpec, doc: Document)
    requires SpecOk(refs, spec) && FieldValid(spec, doc)
    requires !spec.isChild && IsTouched(spec.columns, doc) ==> !IsIncomplete(spec.columns, doc)
    ensures DecodeField(refs, spec, doc).Some? && WellTyped(spec, DecodeField(refs, spec, doc).value)
  {
    FieldsAreJudged(spec, doc);
    if spec.isChild {
      if spec.field in doc {
        ValidElementsDecode(refs, spec, doc[spec.field].elements);
      }
    } else {
      CompleteIs(spec, doc);
      TouchedIs(spec, doc);
      if !IsIncomplete(spec.columns, doc) {
        CompleteItemsDecode(refs, spec, doc);
        assert spec.columns[0].name in doc;
      }
    }
  }

  /** Some column of the field is stored. */
  predicate IsTouched(columns: seq<Column>, doc: Document) {
    exists i :: 0 <= i < |columns| && columns[i].name in doc
  }

  lemma TouchedIs(spec: FieldSpec, doc: Document)
    ensures (exists n :: n in Names(spec) && n in doc) <==> IsTouched(spec.columns, doc)
  {
    if i :| 0 <= i < |spec.columns| && spec.columns[i].name in doc {
      assert Names(spec)[i] in Names(spec);
    }
  }
}
