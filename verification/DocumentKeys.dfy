/** When record documents keep all records apart: what becomes of fields that share a document key. */
module DocumentKeys {
  import opened Common
  import opened Documents

  /** A record of the schema: one value of the declared type per field. */
  ghost predicate Fits(refs: References, specs: seq<FieldSpec>, values: seq<FieldValue>) {
    |specs| == |values| && forall j :: 0 <= j < |specs| ==> SpecOk(refs, specs[j]) && WellTyped(specs[j], values[j])
  }

  /** Every field that decoding reads gets its value back; derived ones are written but never read. */
  ghost predicate ComesBack(refs: References, specs: seq<FieldSpec>, values: seq<FieldValue>)
    requires Fits(refs, specs, values)
  {
    var doc := EncodeAll(refs, specs, values);
    doc.Some? && forall i | 0 <= i < |specs| && !specs[i].derived ::
      DecodeField(refs, specs[i], doc.value) == Some(values[i])
  }

  /** For all values, those of derived fields included, which are free here. */
  ghost predicate AllComeBack(refs: References, specs: seq<FieldSpec>) {
    forall values: seq<FieldValue> :: Fits(refs, specs, values) ==> ComesBack(refs, specs, values)
  }

  /** The field is kept under one key: scalars, one-column codecs, references and children. */
  predicate OneKey(spec: FieldSpec) { spec.isChild || |spec.columns| == 1 }

  // ----------------------------------------------------------- sample values

  function SampleScalar(kind: Kind, second: bool): Bson {
    match kind
    case KInt => BInt(if second then 1 else 0)
    case KFloat => BFloat(if second then 1.0 else 0.0)
    case KStr => BStr(if second then "a" else "")
    case KBool => BBool(second)
    case KBytes => BBytes(if second then [0] else [])
  }

  /** Two values that every field can hold. */
  function Sample(spec: FieldSpec, second: bool): FieldValue
    requires spec.columns != []
  {
    if spec.isChild then Several(if second then [SampleItem(spec, false)] else [], spec.isTuple)
    else One(SampleItem(spec, second))
  }

  function SampleItem(spec: FieldSpec, second: bool): Item
    requires spec.columns != []
  {
    if spec.element.Scalar? then Plain(SampleScalar(spec.columns[0].kind, second)) else Opaque(if second then 1 else 0)
  }

  lemma SamplesFit(refs: References, spec: FieldSpec, second: bool)
    requires SpecOk(refs, spec)
    ensures WellTyped(spec, Sample(spec, second)) && Sample(spec, false) != Sample(spec, true)
  {
  }

  lemma SamplesAreWritten(refs: References, spec: FieldSpec, second: bool, k: string)
    requires SpecOk(refs, spec) && KeyOf(spec, k)
    ensures WellTyped(spec, Sample(spec, second))
    ensures EncodeField(refs, spec, Sample(spec, second)).Some?
    ensures k in EncodeField(refs, spec, Sample(spec, second)).value
  {
    SamplesFit(refs, spec, second);
    ValuesFillKeys(refs, spec, Sample(spec, second));
  }

  // -------------------------------------------------------------- shared keys

  /** What a field decodes to depends on its own keys alone. */
  lemma OwnKeysDecide(refs: References, spec: FieldSpec, a: Document, b: Document)
    requires spec.columns != [] && forall k :: KeyOf(spec, k) ==> SameAt(a, b, k)
    ensures DecodeField(refs, spec, a) == DecodeField(refs, spec, b)
  {
    if spec.isChild {
      assert KeyOf(spec, spec.field);
    } else {
      var names := Names(spec);
      assert forall k :: k in names ==> SameAt(a, b, k);
      if forall n :: n in names ==> n in a {
        forall i | 0 <= i < |names| ensures names[i] in a && names[i] in b && a[names[i]] == b[names[i]] {
          assert names[i] in names && SameAt(a, b, names[i]);
        }
        assert PartsIn(names, a) == PartsIn(names, b);
      }
    }
  }

  predicate SameAt(a: Document, b: Document, k: string) {
    (k in a <==> k in b) && (k in a && k in b ==> a[k] == b[k])
  }

  predicate Writes(refs: References, spec: FieldSpec, v: FieldValue, k: string)
    requires v.Null? || WellTyped(spec, v)
  {
    EncodeField(refs, spec, v).Some? && k in EncodeField(refs, spec, v).value
  }

  /** Two values of a field leave the same under a key. */
  predicate WritesSame(refs: References, spec: FieldSpec, v: FieldValue, w: FieldValue, k: string)
    requires (v.Null? || WellTyped(spec, v)) && (w.Null? || WellTyped(spec, w))
  {
    var a, b := EncodeField(refs, spec, v), EncodeField(refs, spec, w);
    a.Some? && b.Some? && SameAt(a.value, b.value, k)
  }

  function Merged(parts: seq<Document>): Document {
    if parts == [] then map[] else Merged(parts[..|parts| - 1]) + parts[|parts| - 1]
  }

  /** What each field contributes. */
  ghost function Contributions(refs: References, specs: seq<FieldSpec>, values: seq<FieldValue>): (parts: seq<Document>)
    requires Fits(refs, specs, values)
    ensures |parts| == |specs|
  {
    seq(|specs|, m requires 0 <= m < |specs| => Contribution(refs, specs[m], values[m]))
  }

  ghost function Contribution(refs: References, spec: FieldSpec, v: FieldValue): Document
    requires SpecOk(refs, spec) && WellTyped(spec, v)
  {
    EncodeFieldKeys(refs, spec, v);
    EncodeField(refs, spec, v).value
  }

  lemma {:induction false} EncodingMerges(refs: References, specs: seq<FieldSpec>, values: seq<FieldValue>)
    requires Fits(refs, specs, values)
    ensures EncodeAll(refs, specs, values) == Some(Merged(Contributions(refs, specs, values)))
  {
    if specs != [] {
      var n := |specs| - 1;
      EncodingMerges(refs, specs[..n], values[..n]);
      EncodeFieldKeys(refs, specs[n], values[n]);
      assert Contributions(refs, specs, values)[..n] == Contributions(refs, specs[..n], values[..n]);
    }
  }

  lemma {:induction false} MergedKeep(parts: seq<Document>, i: nat, k: string)
    requires i < |parts| && k in parts[i]
    ensures k in Merged(parts)
  {
    if i < |parts| - 1 {
      MergedKeep(parts[..|parts| - 1], i, k);
    }
  }

  /** Merges that differ in one part agree under a key on which the parts agree, or which a later part has. */
  lemma {:induction false} MergedAgree(a: seq<Document>, b: seq<Document>, i: nat, j: nat, k: string)
    requires |a| == |b| && i <= j < |a| && forall m :: 0 <= m < |a| && m != i ==> a[m] == b[m]
    requires SameAt(a[i], b[i], k) || (i < j && k in a[j])
    ensures SameAt(Merged(a), Merged(b), k)
  {
    var n := |a| - 1;
    if i == n {
      assert a[..n] == b[..n];
    } else if j < n {
      MergedAgree(a[..n], b[..n], i, j, k);
    } else if k !in a[n] {
      MergedAgree(a[..n], b[..n], i, n - 1, k);
    }
  }

  /** Documents of records that differ in one field agree under a key which that field leaves the same, or
      which a later field writes. */
  lemma DocumentsAgree(refs: References, specs: seq<FieldSpec>, a: seq<FieldValue>, b: seq<FieldValue>,
                       i: nat, j: nat, k: string)
    requires Fits(refs, specs, a) && Fits(refs, specs, b) && i < j < |specs|
    requires forall m :: 0 <= m < |specs| && m != i ==> a[m] == b[m]
    requires WritesSame(refs, specs[i], a[i], b[i], k) || Writes(refs, specs[j], a[j], k)
    ensures EncodeAll(refs, specs, a).Some? && EncodeAll(refs, specs, b).Some?
    ensures SameAt(EncodeAll(refs, specs, a).value, EncodeAll(refs, specs, b).value, k)
  {
    EncodingMerges(refs, specs, a);
    EncodingMerges(refs, specs, b);
    MergedAgree(Contributions(refs, specs, a), Contributions(refs, specs, b), i, j, k);
  }

  /** Of two records that differ in one field, which decoding reads, and there only under keys that a later
      field writes over, one does not come back: whatever the codec, if it tells values apart there alone. */
  lemma OverwrittenFieldIsLost(refs: References, specs: seq<FieldSpec>, a: seq<FieldValue>, b: seq<FieldValue>,
                               i: nat, j: nat)
    requires Fits(refs, specs, a) && Fits(refs, specs, b) && i < j < |specs| && !specs[i].derived
    requires a[i] != b[i] && forall m :: 0 <= m < |specs| && m != i ==> a[m] == b[m]
    requires forall k :: KeyOf(specs[i], k) ==>
               WritesSame(refs, specs[i], a[i], b[i], k) || Writes(refs, specs[j], a[j], k)
    ensures !ComesBack(refs, specs, a) || !ComesBack(refs, specs, b)
  {
    EncodeIsTotal(refs, specs, a);
    EncodeIsTotal(refs, specs, b);
    var docA, docB := EncodeAll(refs, specs, a).value, EncodeAll(refs, specs, b).value;
    forall k | KeyOf(specs[i], k) ensures SameAt(docA, docB, k) {
      DocumentsAgree(refs, specs, a, b, i, j, k);
    }
    OwnKeysDecide(refs, specs[i], docA, docB);
  }

  lemma OneKeyOnly(spec: FieldSpec, k: string, l: string)
    requires OneKey(spec) && KeyOf(spec, k) && KeyOf(spec, l)
    ensures k == l
  {
  }

  function Samples(specs: seq<FieldSpec>): seq<FieldValue>
    requires forall spec :: spec in specs ==> spec.columns != []
  {
    seq(|specs|, m requires 0 <= m < |specs| => Sample(specs[m], false))
  }

  lemma SamplesAreRecords(refs: References, specs: seq<FieldSpec>)
    requires forall spec :: spec in specs ==> SpecOk(refs, spec)
    ensures (forall spec :: spec in specs ==> spec.columns != []) && Fits(refs, specs, Samples(specs))
  {
    forall m | 0 <= m < |specs| ensures WellTyped(specs[m], Samples(specs)[m]) && SpecOk(refs, specs[m]) {
      SamplesFit(refs, specs[m], false);
    }
  }

  lemma SharedKeyLosesARecord(refs: References, specs: seq<FieldSpec>, i: nat, j: nat, k: string)
    requires forall spec :: spec in specs ==> SpecOk(refs, spec) && OneKey(spec)
    requires i < j < |specs| && KeyOf(specs[i], k) && KeyOf(specs[j], k) && !specs[i].derived
    ensures !AllComeBack(refs, specs)
  {
    var a := Samples(specs);
    SamplesAreRecords(refs, specs);
    var b := a[i := Sample(specs[i], true)];
    SamplesFit(refs, specs[i], true);
    assert Fits(refs, specs, a) && Fits(refs, specs, b);
    SamplesAreWritten(refs, specs[j], false, k);
    forall l | KeyOf(specs[i], l) ensures Writes(refs, specs[j], a[j], l) {
      OneKeyOnly(specs[i], k, l);
    }
    OverwrittenFieldIsLost(refs, specs, a, b, i, j);
  }

  lemma WrittenKeysStay(refs: References, specs: seq<FieldSpec>, values: seq<FieldValue>, i: nat, k: string)
    requires Fits(refs, specs, values) && i < |specs| && Writes(refs, specs[i], values[i], k)
    ensures EncodeAll(refs, specs, values).Some? && k in EncodeAll(refs, specs, values).value
  {
    EncodingMerges(refs, specs, values);
    MergedKeep(Contributions(refs, specs, values), i, k);
  }

  lemma FilledIsNotNull(refs: References, spec: FieldSpec, doc: Document, k: string)
    requires spec.columns != [] && KeyOf(spec, k) && k in doc
    ensures DecodeField(refs, spec, doc) != Some(Null)
  {
  }

  /** A null field reads as something else when another field fills one of its keys. */
  lemma FilledNullIsLost(refs: References, specs: seq<FieldSpec>, i: nat, j: nat, k: string)
    requires forall spec :: spec in specs ==> SpecOk(refs, spec)
    requires i < |specs| && j < |specs| && i != j && KeyOf(specs[i], k) && KeyOf(specs[j], k)
    requires specs[j].optional && !specs[j].derived
    ensures !AllComeBack(refs, specs)
  {
    var values := Samples(specs)[j := Null];
    SamplesAreRecords(refs, specs);
    assert Fits(refs, specs, values);
    SamplesAreWritten(refs, specs[i], false, k);
    WrittenKeysStay(refs, specs, values, i, k);
    FilledIsNotNull(refs, specs[j], EncodeAll(refs, specs, values).value, k);
  }

  /** Two fields with a key in common do no harm when the earlier one is derived, so that it is not read,
      and the later one is either not read or always writes over it. */
  predicate MayShare(earlier: FieldSpec, later: FieldSpec) {
    earlier.derived && (later.derived || !later.optional)
  }

  ghost predicate SharingIsHarmless(specs: seq<FieldSpec>) {
    forall i, j | 0 <= i < j < |specs| && ShareKey(specs[i], specs[j]) :: MayShare(specs[i], specs[j])
  }

  /** Whatever the number of columns, such sharing loses no record. */
  lemma HarmlessSharingKeepsRecords(refs: References, specs: seq<FieldSpec>)
    requires SharingIsHarmless(specs)
    ensures AllComeBack(refs, specs)
  {
    forall values: seq<FieldValue> | Fits(refs, specs, values) ensures ComesBack(refs, specs, values) {
      RecordRoundTrip(refs, specs, values);
      forall i | 0 <= i < |specs| && !specs[i].derived ensures Undisturbed(specs, values, i) {
        forall j | 0 <= j < i && values[i].Null? ensures !ShareKey(specs[i], specs[j]) {
          assert ShareKey(specs[i], specs[j]) == ShareKey(specs[j], specs[i]);
        }
      }
    }
  }

  /** The schema resolver lists the fields of the class before its stored properties. */
  predicate DerivedLast(specs: seq<FieldSpec>) {
    forall i, j | 0 <= i < j < |specs| :: specs[i].derived ==> specs[j].derived
  }

  /** In schemas whose fields are kept under one key each, every record comes back from its document exactly
      when keys are shared harmlessly; in the resolver's order, when only derived fields share theirs. */
  lemma RecordsComeBackExactly(refs: References, specs: seq<FieldSpec>)
    requires forall spec :: spec in specs ==> SpecOk(refs, spec) && OneKey(spec)
    ensures AllComeBack(refs, specs) <==> SharingIsHarmless(specs)
    ensures DerivedLast(specs) ==>
              (AllComeBack(refs, specs) <==>
               forall i, j | 0 <= i < j < |specs| && ShareKey(specs[i], specs[j]) :: specs[i].derived)
  {
    if SharingIsHarmless(specs) {
      HarmlessSharingKeepsRecords(refs, specs);
    } else {
      var i, j :| 0 <= i < j < |specs| && ShareKey(specs[i], specs[j]) && !MayShare(specs[i], specs[j]);
      var k :| KeyOf(specs[i], k) && KeyOf(specs[j], k);
      if specs[i].derived {
        FilledNullIsLost(refs, specs, i, j, k);
      } else {
        SharedKeyLosesARecord(refs, specs, i, j, k);
      }
    }
  }

  // ------------------------------------------------- a channel nobody reads

  /** A float field over the float channel of `x`, which decoding `x` from its exact text never reads. */
  function Shadow(): FieldSpec {
    FieldSpec("x", false, Scalar, [Column("x", KFloat)], false, false, false)
  }

  /** With several columns to a field a shared key can be harmless although both are read: no record is lost here. */
  lemma SharedChannelMayBeHarmless(refs: References)
    ensures !SharingIsHarmless([Exact(), Shadow()]) && AllComeBack(refs, [Exact(), Shadow()])
  {
    var specs := [Exact(), Shadow()];
    ShadowNames();
    assert KeyOf(specs[0], "x") && KeyOf(specs[1], "x") && ShareKey(specs[0], specs[1]);
    forall values: seq<FieldValue> | Fits(refs, specs, values) ensures ComesBack(refs, specs, values) {
      assert values == [values[0], values[1]] && values[0].One? && values[1].One?;
      ShadowedComesBack(refs, values[0].item, values[1].item);
    }
  }

  lemma ShadowNames()
    ensures Names(Exact()) == ["x", "x_exact"] && Names(Shadow()) == ["x"]
    ensures "x" in Names(Exact()) && "x_exact" in Names(Exact()) && "x" in Names(Shadow())
  {
  }

  function ShadowDocument(text: string, cell: Bson): Document { map["x" := cell, "x_exact" := BStr(text)] }

  lemma ShadowedEncodes(refs: References, x: Item, y: Item)
    requires ItemFits(Exact(), x) && ItemFits(Shadow(), y)
    ensures EncodeAll(refs, [Exact(), Shadow()], [One(x), One(y)])
         == Some(ShadowDocument(seq(x.id, i => 'a'), y.b))
  {
    var text := BStr(seq(x.id, i => 'a'));
    ShadowNames();
    assert Parts(refs, Exact(), x) == [BFloat(0.0), text] && Parts(refs, Shadow(), y) == [y.b];
    ZipTwo("x", "x_exact", BFloat(0.0), text);
    ZipOne("x", y.b);
    EncodeTwo(refs, Exact(), Shadow(), One(x), One(y));
    assert map["x" := BFloat(0.0), "x_exact" := text] + map["x" := y.b] == map["x" := y.b, "x_exact" := text];
  }

  lemma ShadowedDecodes(refs: References, text: string, cell: Bson)
    ensures DecodeField(refs, Exact(), ShadowDocument(text, cell)) == Some(One(Opaque(|text|)))
    ensures DecodeField(refs, Shadow(), ShadowDocument(text, cell)) == Some(One(Plain(cell)))
  {
    ShadowNames();
    var doc := ShadowDocument(text, cell);
    assert PartsIn(Names(Exact()), doc) == [cell, BStr(text)] && PartsIn(Names(Shadow()), doc) == [cell];
  }

  lemma ShadowedComesBack(refs: References, x: Item, y: Item)
    requires ItemFits(Exact(), x) && ItemFits(Shadow(), y)
    ensures var doc := EncodeAll(refs, [Exact(), Shadow()], [One(x), One(y)]);
            && doc.Some? && DecodeField(refs, Exact(), doc.value) == Some(One(x))
            && DecodeField(refs, Shadow(), doc.value) == Some(One(y))
  {
    ShadowedEncodes(refs, x, y);
    ShadowedDecodes(refs, seq(x.id, i => 'a'), y.b);
  }
}
