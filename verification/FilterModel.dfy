/**
 OPTIMADE filter trees and search expressions, each with its own meaning over rows.

 `Holds` reads a filter as the filter language defines it: operands in the order they are written, a
 dotted path as "some related entry". `Eval` is the backend's reading of a search expression. Both are
 three-valued, because a stored property may be null.
 */
module FilterModel {
  import opened Common

  datatype Value = Str(s: string) | Num(r: real) | Flag(b: bool)

  datatype Truth = True | False | Unknown

  function Truly(b: bool): Truth { if b then True else False }

  function Both(a: Truth, b: Truth): Truth {
    if a == False || b == False then False else if a == True && b == True then True else Unknown
  }

  function Either(a: Truth, b: Truth): Truth {
    if a == True || b == True then True else if a == False && b == False then False else Unknown
  }

  function Negate(a: Truth): Truth {
    match a case True => False case False => True case Unknown => Unknown
  }

  // ------------------------------------------------------------- comparisons

  datatype CompareOp = Ne | Gt | Lt | Eq | Le | Ge

  datatype MatchKind = Contains | Starts | Ends

  datatype HasKind = HasAll | HasAny | HasOnly

  predicate TextLess(a: string, b: string) {
    if b == [] then false else if a == [] then true else a[0] < b[0] || (a[0] == b[0] && TextLess(a[1..], b[1..]))
  }

  predicate Less(a: Value, b: Value) {
    match (a, b)
    case (Str(s), Str(t)) => TextLess(s, t)
    case (Num(x), Num(y)) => x < y
    case (Flag(p), Flag(q)) => !p && q
    case _ => false
  }

  predicate Compares(op: CompareOp, a: Value, b: Value) {
    match op
    case Eq => a == b
    case Ne => a != b
    case Lt => Less(a, b)
    case Gt => Less(b, a)
    case Le => Less(a, b) || a == b
    case Ge => Less(b, a) || a == b
  }

  predicate OccursAt(value: string, text: string, i: int) {
    0 <= i <= |value| - |text| && value[i..i + |text|] == text
  }

  predicate TextMatches(kind: MatchKind, value: string, text: string) {
    match kind
    case Starts => |text| <= |value| && value[..|text|] == text
    case Ends => |text| <= |value| && value[|value| - |text|..] == text
    case Contains => exists i :: 0 <= i <= |value| - |text| && OccursAt(value, text, i)
  }

  function Matches(kind: MatchKind, value: Value, text: Value): Truth {
    if value.Str? && text.Str? then Truly(TextMatches(kind, value.s, text.s)) else Unknown
  }

  /** What the set operators say about the values a list holds. */
  predicate Contained(kind: HasKind, held: seq<Value>, wanted: seq<Value>) {
    match kind
    case HasAll => forall v :: v in wanted ==> v in held
    case HasAny => exists v :: v in wanted && v in held
    case HasOnly => forall v :: v in held ==> v in wanted
  }

  // -------------------------------------------------------------------- rows

  /** A stored entry; an absent scalar is null, an absent list is empty. */
  datatype Row = Row(scalars: map<string, Value>, lists: map<string, seq<Value>>)

  function Scalar(row: Row, field: string): Option<Value> {
    if field in row.scalars then Some(row.scalars[field]) else None
  }

  function ListOf(row: Row, field: string): seq<Value> {
    if field in row.lists then row.lists[field] else []
  }

  // ------------------------------------------------------ search expressions

  datatype Expr =
    | Always | Never
    | ExprAnd(left: Expr, right: Expr) | ExprOr(left: Expr, right: Expr) | ExprNot(operand: Expr)
    | FieldCompare(field: string, op: CompareOp, value: Value)
    | FieldMatch(field: string, kind: MatchKind, value: Value)
    | FieldHasAny(field: string, values: seq<Value>)
    | FieldHasOnly(field: string, values: seq<Value>)
    | FieldIsNull(field: string)

  function Eval(e: Expr, row: Row): Truth {
    match e
    case Always => True
    case Never => False
    case ExprAnd(l, r) => Both(Eval(l, row), Eval(r, row))
    case ExprOr(l, r) => Either(Eval(l, row), Eval(r, row))
    case ExprNot(x) => Negate(Eval(x, row))
    case FieldCompare(field, op, value) =>
      var v := Scalar(row, field);
      if v.None? then Unknown else Truly(Compares(op, v.value, value))
    case FieldMatch(field, kind, value) =>
      var v := Scalar(row, field);
      if v.None? then Unknown else Matches(kind, v.value, value)
    case FieldHasAny(field, values) => Truly(exists v :: v in ListOf(row, field) && v in values)
    case FieldHasOnly(field, values) => Truly(forall v :: v in ListOf(row, field) ==> v in values)
    case FieldIsNull(field) => Truly(Scalar(row, field).None?)
  }

  // ----------------------------------------------------------------- filters

  /** A literal as written; a number keeps its spelling beside its value. */
  datatype Const = Text(s: string) | Number(lexeme: string, value: real) | Boolean(b: bool)

  /** `references.doi` is root `references`, rest `["doi"]`. */
  datatype Path = Path(root: string, rest: seq<string>)

  datatype Operand = Ident(path: Path) | Lit(literal: Const)

  datatype Filter =
    | And(left: Filter, right: Filter) | Or(left: Filter, right: Filter) | Not(operand: Filter)
    | Has(kind: HasKind, ops: seq<CompareOp>, path: Path, values: seq<Const>)
    | Length(path: Path, op: CompareOp, size: Operand)
    | Compare(op: CompareOp, lhs: Operand, rhs: Operand)
    | Match(matchKind: MatchKind, path: Path, text: Operand)
    | Known(isKnown: bool, path: Path)

  predicate IsLeaf(f: Filter) { !f.And? && !f.Or? && !f.Not? }

  datatype FullType =
    | TString | TInteger | TFloat | TBoolean | TTimestamp | TDict | TUnknown | TList(element: FullType)

  /** How a property is stored; `TypeHandler` is the constant entry type. */
  datatype Handler =
    | IdHandler | TypeHandler(entryType: string)
    | ListHandler(field: string) | NumberHandler(field: string)
    | TimestampHandler(field: string) | StringHandler(field: string)

  /** Which test serves IS KNOWN and IS UNKNOWN: a constant, or the field's own nullity. */
  datatype KnownTest = AlwaysKnown | FieldTest(field: string)

  datatype Entry = Entry(handler: Handler, known: KnownTest)

  /** `normalize` is the UTC spelling of an RFC 3339 timestamp, None when the text is not one. */
  datatype Config = Config(
    fulltypes: map<string, FullType>, handlers: map<string, Entry>, prefixes: seq<string>,
    targets: set<string>, normalize: string -> Option<string>)

  const ID_FIELD := "__id"

  datatype FilterError = UnrecognizedProperty | NotImplemented | TypeMismatch | Crash

  // ------------------------------------------------------- typed constants

  /** The text of a literal as the parser hands it over. */
  function Raw(c: Const): Value {
    match c
    case Text(s) => Str(s)
    case Number(lexeme, _) => Str(lexeme)
    case Boolean(b) => Str(if b then "TRUE" else "FALSE")
  }

  /** A literal as a value of a property's declared type. */
  function FormatValue(t: FullType, c: Const): Result<Value, FilterError> {
    match t
    case TList(_) => Err(TypeMismatch)
    case TBoolean => if c.Boolean? then Ok(Flag(c.b)) else Err(TypeMismatch)
    case TInteger =>
      if c.Number? && c.value.Floor as real == c.value then Ok(Num(c.value)) else Err(TypeMismatch)
    case TFloat => if c.Number? then Ok(Num(c.value)) else Err(TypeMismatch)
    case TString => if c.Text? then Ok(Str(c.s)) else Err(TypeMismatch)
    case TTimestamp => if c.Text? then Ok(Str(c.s)) else Err(TypeMismatch)
    case TDict => Err(NotImplemented)
    case TUnknown => Ok(Raw(c))
  }

  function FormatEach(t: FullType, cs: seq<Const>): Result<seq<Value>, FilterError> {
    if cs == [] then Ok([])
    else
      var init := FormatEach(t, cs[..|cs| - 1]);
      if init.Err? then init
      else
        var last := FormatValue(t, cs[|cs| - 1]);
        if last.Err? then Err(last.error) else Ok(init.value + [last.value])
  }

  // ----------------------------------------------------- what a filter means

  function Dotted(p: Path): string
    decreases |p.rest|
  {
    if p.rest == [] then p.root else Dotted(Path(p.root, p.rest[..|p.rest| - 1])) + "." + p.rest[|p.rest| - 1]
  }

  predicate IsPrefix(prefix: string, name: string) {
    |prefix| <= |name| && name[..|prefix|] == prefix
  }

  predicate Claimed(cfg: Config, name: string) {
    exists p :: p in cfg.prefixes && IsPrefix(p, name)
  }

  function ListHandlerField(cfg: Config, name: string): Option<string> {
    if name in cfg.handlers && cfg.handlers[name].handler.ListHandler? then Some(cfg.handlers[name].handler.field)
    else None
  }

  /** The list a HAS filter names directly, with its element type: a deep dotted entry, the ids of a
      relationship, or an own list property. */
  function ListProperty(cfg: Config, p: Path): Option<(string, FullType)> {
    if |p.rest| >= 2 && ListHandlerField(cfg, Dotted(p)).Some? then
      Some((ListHandlerField(cfg, Dotted(p)).value, TString))
    else if p.rest == ["id"] && p.root in cfg.targets then
      if ListHandlerField(cfg, p.root + ".id").Some? then Some((ListHandlerField(cfg, p.root + ".id").value, TString))
      else None
    else if p.root in cfg.fulltypes && cfg.fulltypes[p.root].TList? && ListHandlerField(cfg, p.root).Some? then
      Some((ListHandlerField(cfg, p.root).value, cfg.fulltypes[p.root].element))
    else None
  }

  function ScalarProperty(cfg: Config, row: Row, name: string): Option<Value> {
    if name !in cfg.handlers then None
    else match cfg.handlers[name].handler
      case IdHandler => Scalar(row, ID_FIELD)
      case TypeHandler(entryType) => Some(Str(entryType))
      case ListHandler(_) => None
      case NumberHandler(field) => Scalar(row, field)
      case TimestampHandler(field) => Scalar(row, field)
      case StringHandler(field) => Scalar(row, field)
  }

  /** Whether a recognized property has a value on this row; a list always has one. */
  predicate HasProperty(cfg: Config, row: Row, name: string) {
    name in cfg.handlers && (cfg.handlers[name].handler.ListHandler? || ScalarProperty(cfg, row, name).Some?)
  }

  /** A literal as the named property understands it; timestamps compare by their UTC spelling. */
  function Constant(cfg: Config, name: string, c: Const): Option<Value> {
    var v := if name in cfg.fulltypes then FormatValue(cfg.fulltypes[name], c) else Ok(Raw(c));
    if v.Err? then None
    else if name in cfg.handlers && cfg.handlers[name].handler.TimestampHandler? then
      if v.value.Str? && cfg.normalize(v.value.s).Some? then Some(Str(cfg.normalize(v.value.s).value)) else None
    else Some(v.value)
  }

  /** What an operand denotes beside property `name`; null is None. */
  function Denotes(cfg: Config, row: Row, name: string, o: Operand): Option<Value> {
    match o
    case Ident(p) => ScalarProperty(cfg, row, p.root)
    case Lit(c) => Constant(cfg, name, c)
  }

  /** The property a comparison is about. */
  function Subject(f: Filter): Path
    requires f.Compare?
  {
    if f.lhs.Ident? then f.lhs.path else if f.rhs.Ident? then f.rhs.path else Path("", [])
  }

  function PathOf(f: Filter): Path
    requires IsLeaf(f)
  {
    match f
    case Has(_, _, p, _) => p
    case Length(p, _, _) => p
    case Compare(_, _, _) => Subject(f)
    case Match(_, p, _) => p
    case Known(_, p) => p
  }

  /** The filter node with the relationship name taken off its path. */
  function Stripped(f: Filter): Filter
    requires IsLeaf(f) && PathOf(f).rest != []
  {
    var p := PathOf(f);
    var shorter := Path(p.rest[0], p.rest[1..]);
    match f
    case Has(kind, ops, _, values) => Has(kind, ops, shorter, values)
    case Length(_, op, size) => Length(shorter, op, size)
    case Compare(op, lhs, rhs) =>
      if lhs.Ident? then Compare(op, Ident(shorter), rhs) else Compare(op, lhs, Ident(shorter))
    case Match(kind, _, text) => Match(kind, shorter, text)
    case Known(isKnown, _) => Known(isKnown, shorter)
  }

  /** A filter on the properties of related entries, other than `<type>.id HAS ...`. */
  predicate IsRelated(cfg: Config, f: Filter)
    requires IsLeaf(f)
  {
    var p := PathOf(f);
    p.rest != [] && p.root in cfg.targets
    && !(f.Has? && (p.rest == ["id"] || (|p.rest| >= 2 && ListHandlerField(cfg, Dotted(p)).Some?)))
  }

  /** A leaf over the entry's own properties. A property the server does not know is a property with
      unknown value: like a null one, nothing about it is true or false except that it is unknown. */
  function LeafHolds(cfg: Config, row: Row, f: Filter): Truth
    requires IsLeaf(f)
  {
    var name := PathOf(f).root;
    match f
    case Has(kind, _, p, values) =>
      var list := ListProperty(cfg, p);
      if list.None? then Unknown
      else
        var wanted := FormatEach(list.value.1, values);
        if wanted.Err? then Unknown else Truly(Contained(kind, ListOf(row, list.value.0), wanted.value))
    case Length(_, op, size) =>
      var list := ListProperty(cfg, Path(name, []));
      if list.None? || size.Ident? || !size.literal.Number? then Unknown
      else Truly(Compares(op, Num(|ListOf(row, list.value.0)| as real), Num(size.literal.value)))
    case Compare(op, lhs, rhs) =>
      if name !in cfg.fulltypes then Unknown
      else
        var l, r := Denotes(cfg, row, name, lhs), Denotes(cfg, row, name, rhs);
        if l.None? || r.None? then Unknown else Truly(Compares(op, l.value, r.value))
    case Match(kind, _, text) =>
      if name !in cfg.fulltypes then Unknown
      else
        var v, t := ScalarProperty(cfg, row, name), Denotes(cfg, row, name, text);
        if v.None? || t.None? then Unknown else Matches(kind, v.value, t.value)
    case Known(isKnown, _) =>
      Truly(isKnown == (name in cfg.fulltypes && HasProperty(cfg, row, name)))
  }

  /** All entries of every type, with how each type stores its properties. */
  datatype World = World(configs: map<string, Config>, entries: map<string, map<string, Row>>)

  /** An entry of type `t` with this id exists and the leaf holds on it. */
  ghost predicate EntrySatisfies(w: World, t: string, id: string, f: Filter)
    requires IsLeaf(f)
  {
    t in w.configs && t in w.entries && id in w.entries[t] && LeafHolds(w.configs[t], w.entries[t][id], f) == True
  }

  /** Some entry related to this row satisfies the leaf. */
  ghost predicate SomeRelated(w: World, cfg: Config, row: Row, t: string, f: Filter)
    requires IsLeaf(f)
  {
    var ids := ListHandlerField(cfg, t + ".id");
    ids.Some? && exists id :: Str(id) in ListOf(row, ids.value) && EntrySatisfies(w, t, id, f)
  }

  ghost function Holds(w: World, cfg: Config, row: Row, f: Filter): Truth {
    match f
    case And(l, r) => Both(Holds(w, cfg, row, l), Holds(w, cfg, row, r))
    case Or(l, r) => Either(Holds(w, cfg, row, l), Holds(w, cfg, row, r))
    case Not(x) => Negate(Holds(w, cfg, row, x))
    case _ =>
      if IsRelated(cfg, f) then Truly(SomeRelated(w, cfg, row, PathOf(f).root, Stripped(f)))
      else LeafHolds(cfg, row, f)
  }
}
