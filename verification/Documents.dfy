/** Record documents: encoding field by field into one mapping, decoding back, and the collection validator. */
module Documents {
  import opened Common

  datatype Bson = BInt(n: int) | BFloat(r: real) | BStr(s: string) | BBool(b: bool) | BBytes(bytes: seq<int>)
    | BList(elements: seq<map<string, Bson>>)

  type Document = map<string, Bson>

  datatype Kind = KInt | KFloat | KStr | KBool | KBytes

  predicate HasKind(v: Bson, kind: Kind) {
    match kind
    case KInt => v.BInt?
    case KFloat => v.BFloat?
    case KStr => v.BStr?
    case KBool => v.BBool?
    case KBytes => v.BBytes?
  }

  datatype Column = Column(name: string, kind: Kind)

  /** A scalar, or a value known only by identity: a codec's value, a tensor, a referenced record. */
  datatype Item = Plain(b: Bson) | Opaque(id: nat)

  /** What a record holds in a field. */
  datatype FieldValue = Null | One(item: Item) | Several(items: seq<Item>, isTuple: bool)

  /** How one value becomes column values: as itself, through a codec, as float cells beside an exact
      text, or as the sid of a saved record. */
  datatype Element =
    | Scalar
    | Coded(encode: nat -> seq<Bson>, decode: seq<Bson> -> nat)
    | Tensor(floats: nat -> seq<Bson>, exact: nat -> string, fromExact: string -> nat)
    | Stored(target: string)

  datatype FieldSpec = FieldSpec(field: string, isChild: bool, element: Element, columns: seq<Column>,
                                 optional: bool, derived: bool, isTuple: bool)

  /** Saving a referenced record yields its sid; loading the sid yields the record. */
  datatype References = References(save: (string, nat) -> int, load: (string, int) -> nat)

  function Names(spec: FieldSpec): seq<string> {
    seq(|spec.columns|, i requires 0 <= i < |spec.columns| => spec.columns[i].name)
  }

  predicate Distinct(names: seq<string>) {
    forall i, j | 0 <= i < |names| && 0 <= j < |names| && names[i] == names[j] :: i == j
  }

  /** A spec as the schema resolver builds them, with codecs that undo themselves. */
  ghost predicate SpecOk(refs: References, spec: FieldSpec) {
    && spec.columns != [] && Distinct(Names(spec))
    && match spec.element
       case Scalar => |spec.columns| == 1
       case Coded(encode, decode) => forall v :: PartsFit(encode(v), spec.columns) && decode(encode(v)) == v
       case Tensor(floats, exact, fromExact) =>
         && spec.columns[|spec.columns| - 1].kind == KStr
         && forall v :: PartsFit(floats(v), spec.columns[..|spec.columns| - 1]) && fromExact(exact(v)) == v
       case Stored(target) =>
         |spec.columns| == 1 && spec.columns[0].kind == KInt && forall v :: refs.load(target, refs.save(target, v)) == v
  }

  predicate PartsFit(parts: seq<Bson>, columns: seq<Column>) {
    |parts| == |columns| && forall i :: 0 <= i < |parts| ==> HasKind(parts[i], columns[i].kind)
  }

  predicate ItemFits(spec: FieldSpec, item: Item) {
    if spec.element.Scalar? then item.Plain? && |spec.columns| == 1 && HasKind(item.b, spec.columns[0].kind)
    else item.Opaque?
  }

  /** A value of the field's declared type: None only where allowed, the declared container for children. */
  predicate WellTyped(spec: FieldSpec, v: FieldValue) {
    match v
    case Null => spec.optional
    case One(item) => !spec.isChild && ItemFits(spec, item)
    case Several(items, isTuple) =>
      spec.isChild && isTuple == spec.isTuple && forall i :: 0 <= i < |items| ==> ItemFits(spec, items[i])
  }

  // ---------------------------------------------------------------- encoding

  function Parts(refs: References, spec: FieldSpec, item: Item): seq<Bson>
    requires ItemFits(spec, item)
  {
    match spec.element
    case Scalar => [item.b]
    case Coded(encode, _) => encode(item.id)
    case Tensor(floats, exact, _) => floats(item.id) + [BStr(exact(item.id))]
    case Stored(target) => [BInt(refs.save(target, item.id))]
  }

  function Zip(names: seq<string>, parts: seq<Bson>): Document {
    if names == [] || parts == [] then map[]
    else Zip(names[1..], parts[1..])[names[0] := parts[0]]
  }

  function Elements(refs: References, spec: FieldSpec, items: seq<Item>): seq<Document>
    requires forall i :: 0 <= i < |items| ==> ItemFits(spec, items[i])
  {
    seq(|items|, i requires 0 <= i < |items| => Zip(Names(spec), Parts(refs, spec, items[i])))
  }

  /** What one field contributes to the document; None where the value must not be None. */
  function EncodeField(refs: References, spec: FieldSpec, v: FieldValue): Option<Document>
    requires v.Null? || WellTyped(spec, v)
  {
    match v
    case Null =>
      if spec.isChild && !spec.optional then Some(map[spec.field := BList([])])
      else if !spec.optional then None
      else Some(map[])
    case One(item) => Some(Zip(Names(spec), Parts(refs, spec, item)))
    case Several(items, _) => Some(map[spec.field := BList(Elements(refs, spec, items))])
  }

  /** The whole field document: later fields overwrite equal keys of earlier ones. */
  function EncodeAll(refs: References, specs: seq<FieldSpec>, values: seq<FieldValue>): Option<Document>
    requires |specs| == |values| && forall i :: 0 <= i < |specs| ==> values[i].Null? || WellTyped(specs[i], values[i])
  {
    if specs == [] then Some(map[])
    else
      var n := |specs| - 1;
      var before, last := EncodeAll(refs, specs[..n], values[..n]), EncodeField(refs, specs[n], values[n]);
      if before.None? || last.None? then None else Some(before.value + last.value)
  }

  method EncodeRecord(refs: References, specs: seq<FieldSpec>, values: seq<FieldValue>)
    returns (result: Option<Document>)
    requires |specs| == |values| && forall i :: 0 <= i < |specs| ==> values[i].Null? || WellTyped(specs[i], values[i])
    ensures result == EncodeAll(refs, specs, values)
  {
    var doc: Document := map[];
    var i := 0;
    while i < |specs|
      invariant 0 <= i <= |specs| && EncodeAll(refs, specs[..i], values[..i]) == Some(doc)
    {
      assert specs[..i + 1][..i] == specs[..i] && values[..i + 1][..i] == values[..i];
      var part := EncodeField(refs, specs[i], values[i]);
      if part.None? {
        RefusalStands(refs, specs, values, i + 1);
        return None;
      }
      doc := doc + part.value;
      i := i + 1;
    }
    assert specs[..i] == specs && values[..i] == values;
    result := Some(doc);
  }

  lemma {:induction false} RefusalStands(refs: References, specs: seq<FieldSpec>, values: seq<FieldValue>, i: nat)
    requires |specs| == |values| && forall j :: 0 <= j < |specs| ==> values[j].Null? || WellTyped(specs[j], values[j])
    requires i <= |specs| && EncodeAll(refs, specs[..i], values[..i]) == None
    ensures EncodeAll(refs, specs, values) == None
    decreases |specs|
  {
    if i < |specs| {
      var n := |specs| - 1;
      assert specs[..n][..i] == specs[..i] && values[..n][..i] == values[..i];
      RefusalStands(refs, specs[..n], values[..n], i);
    } else {
      assert specs[..i] == specs && values[..i] == values;
    }
  }

  /** A missing value is left out where it may be missing, an empty list for a required child, and refused where
      anything else is required. */
  lemma MissingValues(refs: References, spec: FieldSpec)
    ensures spec.optional ==> EncodeField(refs, spec, Null) == Some(map[])
    ensures !spec.optional && spec.isChild ==> EncodeField(refs, spec, Null) == Some(map[spec.field := BList([])])
    ensures !spec.optional && !spec.isChild ==> EncodeField(refs, spec, Null) == None
  {
  }

  // ---------------------------------------------------------------- decoding

  function PartsIn(names: seq<string>, doc: Document): seq<Bson>
    requires forall n :: n in names ==> n in doc
  {
    seq(|names|, i requires 0 <= i < |names| => doc[names[i]])
  }

  /** One value from its columns; None when the stored document is not shaped as written. */
  function DecodeItem(refs: References, spec: FieldSpec, doc: Document): Option<Item>
    requires spec.columns != []
  {
    var names := Names(spec);
    if exists n :: n in names && n !in doc then None
    else
      var parts := PartsIn(names, doc);
      match spec.element
      case Scalar => Some(Plain(parts[0]))
      case Coded(_, decode) => Some(Opaque(decode(parts)))
      case Tensor(_, _, fromExact) =>
        var exact := parts[|parts| - 1];
        if exact.BStr? then Some(Opaque(fromExact(exact.s))) else None
      case Stored(target) => if parts[0].BInt? then Some(Opaque(refs.load(target, parts[0].n))) else None
  }

  function DecodeItems(refs: References, spec: FieldSpec, elements: seq<Document>): Option<seq<Item>>
    requires spec.columns != []
  {
    if elements == [] then Some([])
    else
      var n := |elements| - 1;
      var before, last := DecodeItems(refs, spec, elements[..n]), DecodeItem(refs, spec, elements[n]);
      if before.None? || last.None? then None else Some(before.value + [last.value])
  }

  /** A field none of whose keys is present reads as None. */
  function DecodeField(refs: References, spec: FieldSpec, doc: Document): Option<FieldValue>
    requires spec.columns != []
  {
    if spec.isChild then
      if spec.field !in doc then Some(Null)
      else if !doc[spec.field].BList? then None
      else
        var items := DecodeItems(refs, spec, doc[spec.field].elements);
        if items.None? then None else Some(Several(items.value, spec.isTuple))
    else if forall n :: n in Names(spec) ==> n !in doc then Some(Null)
    else
      var item := DecodeItem(refs, spec, doc);
      if item.None? then None else Some(One(item.value))
  }

  predicate FieldNamesDistinct(specs: seq<FieldSpec>) {
    forall i, j | 0 <= i < |specs| && 0 <= j < |specs| && specs[i].field == specs[j].field :: i == j
  }

  /** Decodes every field but the derived ones, by name; fails when one of them was not stored as written. */
  method DecodeRecord(refs: References, specs: seq<FieldSpec>, doc: Document)
    returns (values: Option<map<string, FieldValue>>)
    requires FieldNamesDistinct(specs) && forall spec :: spec in specs ==> spec.columns != []
    ensures values.None? <==> exists spec :: spec in specs && !spec.derived && DecodeField(refs, spec, doc) == None
    ensures values.Some? ==>
      && (forall f :: f in values.value <==> exists spec :: spec in specs && !spec.derived && spec.field == f)
      && forall spec :: spec in specs && !spec.derived ==>
           spec.field in values.value && DecodeField(refs, spec, doc) == Some(values.value[spec.field])
  {
    var found: map<string, FieldValue> := map[];
    var i := 0;
    while i < |specs|
      invariant 0 <= i <= |specs|
      invariant forall f :: f in found <==> exists j :: 0 <= j < i && !specs[j].derived && specs[j].field == f
      invariant forall j | 0 <= j < i && !specs[j].derived ::
        specs[j].field in found && DecodeField(refs, specs[j], doc) == Some(found[specs[j].field])
    {
      if !specs[i].derived {
        var v := DecodeField(refs, specs[i], doc);
        if v.None? {
          assert specs[i] in specs;
          return None;
        }
        found := found[specs[i].field := v.value];
      }
      i := i + 1;
    }
    values := Some(found);
  }

  // --------------------------------------------------------------- validator

  predicate IsExact(name: string) {
    |name| >= 6 && name[|name| - 6..] == "_exact"
  }

  /** Channels beside an exact text require it: each other column depends on the first exact one. */
  predicate DependenciesHold(columns: seq<Column>, doc: Document) {
    forall e, i | 0 <= e < |columns| && 0 <= i < |columns| && IsExact(columns[e].name)
                  && (forall k :: 0 <= k < e ==> !IsExact(columns[k].name)) && i != e ::
      columns[i].name in doc ==> columns[e].name in doc
  }

  predicate ColumnsTyped(columns: seq<Column>, doc: Document) {
    forall c :: c in columns && c.name in doc ==> HasKind(doc[c.name], c.kind)
  }

  predicate ElementValid(spec: FieldSpec, e: Document) {
    && (forall k :: k in e ==> k in Names(spec)) && (forall k :: k in Names(spec) ==> k in e)
    && ColumnsTyped(spec.columns, e) && DependenciesHold(spec.columns, e)
  }

  /** What the collection validator demands of one field. */
  predicate FieldValid(spec: FieldSpec, doc: Document) {
    if spec.isChild then
      && (spec.field in doc ==>
            doc[spec.field].BList? && forall e :: e in doc[spec.field].elements ==> ElementValid(spec, e))
      && (!spec.optional ==> spec.field in doc)
    else
      && ColumnsTyped(spec.columns, doc)
      && (!spec.optional ==> forall n :: n in Names(spec) ==> n in doc)
      && (spec.element.Coded? || spec.element.Tensor? ==> DependenciesHold(spec.columns, doc))
  }

  // -------------------------------------------------------------- one field

  predicate KeyOf(spec: FieldSpec, k: string) {
    if spec.isChild then k == spec.field else k in Names(spec)
  }

  lemma {:induction false} ZipIs(names: seq<string>, parts: seq<Bson>)
    requires |names| == |parts| && Distinct(names)
    ensures forall k :: k in Zip(names, parts) <==> k in names
    ensures forall i :: 0 <= i < |names| ==> names[i] in Zip(names, parts) && Zip(names, parts)[names[i]] == parts[i]
  {
    if names != [] {
      assert names == [names[0]] + names[1..];
      assert forall i :: 0 <= i < |names[1..]| ==> names[1..][i] == names[i + 1];
      ZipIs(names[1..], parts[1..]);
    }
  }

  lemma PartsAre(refs: References, spec: FieldSpec, item: Item)
    requires SpecOk(refs, spec) && ItemFits(spec, item)
    ensures PartsFit(Parts(refs, spec, item), spec.columns)
  {
    if spec.element.Tensor? {
      assert PartsFit(spec.element.floats(item.id), spec.columns[..|spec.columns| - 1]);
    } else if spec.element.Coded? {
      assert PartsFit(spec.element.encode(item.id), spec.columns);
    }
  }

  /** One value written to its columns reads back, and the columns satisfy the validator. */
  lemma ItemRoundTrip(refs: References, spec: FieldSpec, item: Item)
    requires SpecOk(refs, spec) && ItemFits(spec, item)
    ensures var doc := Zip(Names(spec), Parts(refs, spec, item));
            DecodeItem(refs, spec, doc) == Some(item) && ElementValid(spec, doc)
  {
    var names, parts := Names(spec), Parts(refs, spec, item);
    PartsAre(refs, spec, item);
    ZipIs(names, parts);
    var doc := Zip(names, parts);
    assert PartsIn(names, doc) == parts;
    forall c | c in spec.columns ensures c.name in doc && HasKind(doc[c.name], c.kind) {
      var i :| 0 <= i < |spec.columns| && spec.columns[i] == c;
      assert names[i] == c.name;
    }
    if spec.element.Coded? {
      assert spec.element.decode(spec.element.encode(item.id)) == item.id;
    }
  }

  /** Decoding goes element by element. */
  lemma {:induction false} ItemsDecode(refs: References, spec: FieldSpec, elements: seq<Document>, items: seq<Item>)
    requires spec.columns != [] && |elements| == |items|
    requires forall i :: 0 <= i < |items| ==> DecodeItem(refs, spec, elements[i]) == Some(items[i])
    ensures DecodeItems(refs, spec, elements) == Some(items)
  {
    if items != [] {
      var n := |items| - 1;
      ItemsDecode(refs, spec, elements[..n], items[..n]);
      assert items == items[..n] + [items[n]];
    }
  }

  lemma ItemsRoundTrip(refs: References, spec: FieldSpec, items: seq<Item>)
    requires SpecOk(refs, spec) && forall i :: 0 <= i < |items| ==> ItemFits(spec, items[i])
    ensures DecodeItems(refs, spec, Elements(refs, spec, items)) == Some(items)
  {
    forall i | 0 <= i < |items| ensures DecodeItem(refs, spec, Elements(refs, spec, items)[i]) == Some(items[i]) {
      ItemRoundTrip(refs, spec, items[i]);
    }
    ItemsDecode(refs, spec, Elements(refs, spec, items), items);
  }

  lemma ElementsAreValid(refs: References, spec: FieldSpec, items: seq<Item>)
    requires SpecOk(refs, spec) && forall i :: 0 <= i < |items| ==> ItemFits(spec, items[i])
    ensures forall e :: e in Elements(refs, spec, items) ==> ElementValid(spec, e)
  {
    forall i | 0 <= i < |items| ensures ElementValid(spec, Elements(refs, spec, items)[i]) {
      ItemRoundTrip(refs, spec, items[i]);
    }
  }

  /** Agreement of two documents on one field's keys. */
  ghost predicate Agree(spec: FieldSpec, a: Document, b: Document) {
    forall k :: KeyOf(spec, k) ==> (k in a <==> k in b) && (k in a && k in b ==> a[k] == b[k])
  }

  lemma FieldRoundTrip(refs: References, spec: FieldSpec, v: FieldValue, doc: Document)
    requires SpecOk(refs, spec) && WellTyped(spec, v)
    requires EncodeField(refs, spec, v).Some? && Agree(spec, EncodeField(refs, spec, v).value, doc)
    ensures DecodeField(refs, spec, doc) == Some(v) && FieldValid(spec, doc)
  {
    match v
    case Null =>
      if spec.isChild { assert KeyOf(spec, spec.field); } else {
        assert forall n :: n in Names(spec) ==> KeyOf(spec, n) && n !in doc;
        forall c | c in spec.columns ensures c.name !in doc {
          var i :| 0 <= i < |spec.columns| && spec.columns[i] == c;
          assert Names(spec)[i] == c.name;
        }
      }
    case One(item) =>
      ItemRoundTrip(refs, spec, item);
      ZipIs(Names(spec), Parts(refs, spec, item)) by { PartsAre(refs, spec, item); }
      AgreeingItems(refs, spec, EncodeField(refs, spec, v).value, doc);
    case Several(items, _) =>
      assert KeyOf(spec, spec.field);
      ItemsRoundTrip(refs, spec, items);
      ElementsAreValid(refs, spec, items);
  }

  lemma AgreeingItems(refs: References, spec: FieldSpec, a: Document, b: Document)
    requires SpecOk(refs, spec) && !spec.isChild && Agree(spec, a, b) && ElementValid(spec, a)
    ensures DecodeItem(refs, spec, b) == DecodeItem(refs, spec, a)
    ensures FieldValid(spec, b) && exists n :: n in Names(spec) && n in b
  {
    var names := Names(spec);
    assert forall n :: n in names ==> KeyOf(spec, n) && n in a && n in b && b[n] == a[n];
    assert PartsIn(names, a) == PartsIn(names, b);
    forall c | c in spec.columns ensures c.name in names {
      var i :| 0 <= i < |spec.columns| && spec.columns[i] == c;
      assert names[i] == c.name;
    }
    assert names[0] in names;
  }

  // ---------------------------------------------------------- the whole record

  /** No two fields share a document key. */
  ghost predicate KeysDistinct(specs: seq<FieldSpec>) {
    forall i, j, k :: 0 <= i < |specs| && 0 <= j < |specs| && KeyOf(specs[i], k) && KeyOf(specs[j], k) ==> i == j
  }

  lemma EncodeFieldKeys(refs: References, spec: FieldSpec, v: FieldValue)
    requires SpecOk(refs, spec) && WellTyped(spec, v)
    ensures EncodeField(refs, spec, v).Some?
    ensures forall k :: k in EncodeField(refs, spec, v).value ==> KeyOf(spec, k)
  {
    if v.One? {
      PartsAre(refs, spec, v.item);
      ZipIs(Names(spec), Parts(refs, spec, v.item));
    }
  }

  /** A value other than null is written under every key of its field. */
  lemma ValuesFillKeys(refs: References, spec: FieldSpec, v: FieldValue)
    requires SpecOk(refs, spec) && WellTyped(spec, v) && !v.Null?
    ensures EncodeField(refs, spec, v).Some?
    ensures forall k :: KeyOf(spec, k) ==> k in EncodeField(refs, spec, v).value
  {
    if v.One? {
      PartsAre(refs, spec, v.item);
      ZipIs(Names(spec), Parts(refs, spec, v.item));
    }
  }

  ghost predicate ShareKey(a: FieldSpec, b: FieldSpec) { exists k :: KeyOf(a, k) && KeyOf(b, k) }

  /** No later field writes over this one, and where it writes nothing no earlier one has filled its keys. */
  ghost predicate Undisturbed(specs: seq<FieldSpec>, values: seq<FieldValue>, i: nat)
    requires |specs| == |values| && i < |specs|
  {
    && (forall j :: i < j < |specs| ==> !ShareKey(specs[i], specs[j]))
    && (values[i].Null? ==> forall j :: 0 <= j < i ==> !ShareKey(specs[i], specs[j]))
  }

  /** The contribution of an undisturbed field survives in the whole document. */
  lemma {:induction false} FieldsSurvive(refs: References, specs: seq<FieldSpec>, values: seq<FieldValue>, i: nat)
    requires |specs| == |values| && i < |specs| && Undisturbed(specs, values, i)
    requires forall j :: 0 <= j < |specs| ==> SpecOk(refs, specs[j]) && WellTyped(specs[j], values[j])
    ensures EncodeAll(refs, specs, values).Some?
    ensures EncodeField(refs, specs[i], values[i]).Some?
    ensures Agree(specs[i], EncodeField(refs, specs[i], values[i]).value, EncodeAll(refs, specs, values).value)
  {
    EncodeIsTotal(refs, specs, values);
    var n := |specs| - 1;
    EncodeFieldKeys(refs, specs[n], values[n]);
    if i < n {
      assert forall j :: i < j < n ==> specs[..n][j] == specs[j];
      FieldsSurvive(refs, specs[..n], values[..n], i);
      assert !ShareKey(specs[i], specs[n]);
    } else if values[n].Null? {
      KeysComeFromFields(refs, specs[..n], values[..n]);
      assert forall j :: 0 <= j < n ==> specs[..n][j] == specs[j] && !ShareKey(specs[n], specs[j]);
    } else {
      ValuesFillKeys(refs, specs[n], values[n]);
    }
  }

  lemma {:induction false} EncodeIsTotal(refs: References, specs: seq<FieldSpec>, values: seq<FieldValue>)
    requires |specs| == |values|
    requires forall j :: 0 <= j < |specs| ==> SpecOk(refs, specs[j]) && WellTyped(specs[j], values[j])
    ensures EncodeAll(refs, specs, values).Some?
  {
    if specs != [] {
      var n := |specs| - 1;
      EncodeIsTotal(refs, specs[..n], values[..n]);
      EncodeFieldKeys(refs, specs[n], values[n]);
    }
  }

  /** A document has no keys but those of its fields. */
  lemma {:induction false} KeysComeFromFields(refs: References, specs: seq<FieldSpec>, values: seq<FieldValue>)
    requires |specs| == |values|
    requires forall j :: 0 <= j < |specs| ==> SpecOk(refs, specs[j]) && WellTyped(specs[j], values[j])
    ensures EncodeAll(refs, specs, values).Some?
    ensures forall k :: k in EncodeAll(refs, specs, values).value ==> exists j :: 0 <= j < |specs| && KeyOf(specs[j], k)
  {
    if specs != [] {
      var n := |specs| - 1;
      KeysComeFromFields(refs, specs[..n], values[..n]);
      EncodeFieldKeys(refs, specs[n], values[n]);
      var doc := EncodeAll(refs, specs, values).value;
      forall k | k in doc ensures exists j :: 0 <= j < |specs| && KeyOf(specs[j], k) {
        if k in EncodeField(refs, specs[n], values[n]).value {
          assert KeyOf(specs[n], k);
        } else {
          var j :| 0 <= j < n && KeyOf(specs[..n][j], k);
          assert KeyOf(specs[j], k);
        }
      }
    }
  }

  /** A well-typed record encodes to a document from which every undisturbed field decodes to its value and
      satisfies the validator: None and an empty child stay apart, and so do lists and tuples. */
  lemma RecordRoundTrip(refs: References, specs: seq<FieldSpec>, values: seq<FieldValue>)
    requires |specs| == |values|
    requires forall j :: 0 <= j < |specs| ==> SpecOk(refs, specs[j]) && WellTyped(specs[j], values[j])
    ensures EncodeAll(refs, specs, values).Some?
    ensures forall i | 0 <= i < |specs| && Undisturbed(specs, values, i) ::
              SpecOk(refs, specs[i]) && ReadsBack(refs, specs[i], values[i], EncodeAll(refs, specs, values).value)
  {
    EncodeIsTotal(refs, specs, values);
    var doc := EncodeAll(refs, specs, values).value;
    forall i | 0 <= i < |specs| && Undisturbed(specs, values, i) ensures ReadsBack(refs, specs[i], values[i], doc) {
      FieldsSurvive(refs, specs, values, i);
      FieldRoundTrip(refs, specs[i], values[i], doc);
    }
  }

  lemma DistinctKeysDisturbNothing(specs: seq<FieldSpec>, values: seq<FieldValue>)
    requires |specs| == |values| && KeysDistinct(specs)
    ensures forall i | 0 <= i < |specs| :: Undisturbed(specs, values, i)
  {
  }

  predicate ReadsBack(refs: References, spec: FieldSpec, v: FieldValue, doc: Document)
    requires spec.columns != []
  {
    FieldValid(spec, doc) && DecodeField(refs, spec, doc) == Some(v)
  }

  /** A float with an exact text channel: here a number told apart by the length of its text. */
  function LengthCodec(): Element {
    Coded((v: nat) => [BFloat(0.0), BStr(seq(v, i => 'a'))],
          (parts: seq<Bson>) => if |parts| == 2 && parts[1].BStr? then |parts[1].s| else 0)
  }

  function Exact(): FieldSpec {
    FieldSpec("x", false, LengthCodec(), [Column("x", KFloat), Column("x_exact", KStr)], false, false, false)
  }

  function Namesake(): FieldSpec {
    FieldSpec("x_exact", false, Scalar, [Column("x_exact", KStr)], false, false, false)
  }

  lemma CollidingSpecs(refs: References)
    ensures SpecOk(refs, Exact()) && SpecOk(refs, Namesake())
    ensures Names(Exact()) == ["x", "x_exact"] && Names(Namesake()) == ["x_exact"]
  {
    assert Names(Exact()) == ["x", "x_exact"] && Names(Namesake()) == ["x_exact"];
  }

  lemma CollidingParts(refs: References)
    ensures EncodeField(refs, Exact(), One(Opaque(1))) == Some(map["x" := BFloat(0.0), "x_exact" := BStr("a")])
    ensures EncodeField(refs, Namesake(), One(Plain(BStr("")))) == Some(map["x_exact" := BStr("")])
  {
    CollidingSpecs(refs);
    assert seq(1, i => 'a') == "a";
    assert Parts(refs, Exact(), Opaque(1)) == [BFloat(0.0), BStr("a")];
    assert Parts(refs, Namesake(), Plain(BStr(""))) == [BStr("")];
    ZipTwo("x", "x_exact", BFloat(0.0), BStr("a"));
    ZipOne("x_exact", BStr(""));
  }

  lemma ZipOne(name: string, part: Bson)
    ensures Zip([name], [part]) == map[name := part]
  {
    assert [name][1..] == [] && [part][1..] == [];
  }

  lemma ZipTwo(first: string, second: string, a: Bson, b: Bson)
    requires first != second
    ensures Zip([first, second], [a, b]) == map[first := a, second := b]
  {
    ZipOne(second, b);
    assert [first, second][1..] == [second] && [a, b][1..] == [b];
  }

  lemma EncodeTwo(refs: References, s: FieldSpec, t: FieldSpec, v: FieldValue, w: FieldValue)
    requires WellTyped(s, v) && WellTyped(t, w)
    requires EncodeField(refs, s, v).Some? && EncodeField(refs, t, w).Some?
    ensures EncodeAll(refs, [s, t], [v, w]) == Some(EncodeField(refs, s, v).value + EncodeField(refs, t, w).value)
  {
    assert [s, t][..1] == [s] && [v, w][..1] == [v] && [s][..0] == [] && [v][..0] == [];
    var first := EncodeField(refs, s, v).value;
    assert map[] + first == first;
    assert EncodeAll(refs, [s], [v]) == Some(first);
  }

  function CollisionDocument(): Document { map["x" := BFloat(0.0), "x_exact" := BStr("")] }

  lemma CollisionDecodes(refs: References)
    ensures DecodeField(refs, Exact(), CollisionDocument()) == Some(One(Opaque(0)))
  {
    var names := Names(Exact());
    assert names == ["x", "x_exact"];
    assert "x" in names;
    assert PartsIn(names, CollisionDocument()) == [BFloat(0.0), BStr("")];
  }

  lemma CollisionIsValid()
    ensures FieldValid(Exact(), CollisionDocument()) && FieldValid(Namesake(), CollisionDocument())
  {
    assert Names(Exact()) == ["x", "x_exact"] && Names(Namesake()) == ["x_exact"];
  }

  /** A field `x` with an exact channel beside a text field named `x_exact`: the second overwrites the
      exact channel of the first, the validator accepts the document, and `x` decodes to another value. */
  lemma CollidingNamesLoseAValue(refs: References)
    ensures SpecOk(refs, Exact()) && SpecOk(refs, Namesake())
    ensures EncodeAll(refs, [Exact(), Namesake()], [One(Opaque(1)), One(Plain(BStr("")))]) == Some(CollisionDocument())
    ensures FieldValid(Exact(), CollisionDocument()) && FieldValid(Namesake(), CollisionDocument())
    ensures DecodeField(refs, Exact(), CollisionDocument()) == Some(One(Opaque(0)))
  {
    CollidingSpecs(refs);
    CollidingParts(refs);
    EncodeTwo(refs, Exact(), Namesake(), One(Opaque(1)), One(Plain(BStr(""))));
    assert map["x" := BFloat(0.0), "x_exact" := BStr("a")] + map["x_exact" := BStr("")] == CollisionDocument();
    CollisionDecodes(refs);
    CollisionIsValid();
  }
}
