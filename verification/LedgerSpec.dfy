/**
 What each ledger operation does, as functions on values: a `Session` is an open ledger in memory, a
 `Disk` is the ledger file with its lock file.
 */
module LedgerSpec {
  import opened Common
  import opened LedgerFormat

  datatype Env = Env(ids: IdScheme, sealing: Sealing)

  datatype LedgerError =
    | LockHeld | Exists | Missing | Rejected | NoSigningKey
    | SeriesMismatch | StoredFamilyDisagrees | ReadOnlyGrowth | InvalidBases
    | Closed | ReadOnly
    | SupersedeNewKey | SupersedeWrongKind | SupersedeItself
    | OtherFamily | KeyIsAliased | KeyIsAssigned | OtherTarget | UnknownTarget | NoBase | MalformedId

  datatype Session = Session(
    bases: map<string, string>, series: string, ledger: string, keys: seq<string>,
    records: seq<Record>, live: map<string, Record>, persisted: nat, segments: nat,
    readOnly: bool, dirty: bool, closed: bool)

  datatype Disk = Disk(container: Option<Container>, locked: bool)

  // --------------------------------------------------------------- base maps

  predicate BasesOk(ids: IdScheme, bases: map<string, string>, series: string) {
    && bases != map[]
    && (forall f :: f in bases ==> ids.format(bases[f], series, 1).Some?)
    && DistinctBases(bases)
  }

  /** The stored base map reconciled with an expected one, and whether that adds a family. */
  function ExtendBases(ids: IdScheme, stored: map<string, string>, expected: map<string, string>, series: string)
    : Result<(map<string, string>, bool), LedgerError>
  {
    if !Grows(stored, expected) then Err(StoredFamilyDisagrees)
    else if expected.Keys <= stored.Keys then Ok((stored, false))
    else if !BasesOk(ids, stored + expected, series) then Err(InvalidBases)
    else Ok((stored + expected, true))
  }

  // -------------------------------------------------------------- allocation

  /** The largest number assigned in a family, 0 when there is none. */
  function HighestNumber(ids: IdScheme, records: seq<Record>, family: string): nat {
    if records == [] then 0
    else
      var r := records[|records| - 1];
      var before := HighestNumber(ids, records[..|records| - 1], family);
      if r.binding.Assigned? && r.binding.family == family && ids.parse(r.binding.id).Some? then
        Max(before, ids.parse(r.binding.id).value.number)
      else before
  }

  function Append(s: Session, r: Record): Session {
    s.(records := s.records + [r], live := s.live[r.key := r], dirty := true)
  }

  function Mint(ids: IdScheme, s: Session, key: string, family: string, supersedes: Option<string>)
    : (Session, Result<string, LedgerError>)
  {
    if family !in s.bases then (s, Err(NoBase))
    else
      var id := ids.format(s.bases[family], s.series, HighestNumber(ids, s.records, family) + 1);
      if id.None? then (s, Err(MalformedId))
      else (Append(s, Record(key, Assigned(family, id.value), supersedes)), Ok(id.value))
  }

  function Assign(ids: IdScheme, s: Session, key: string, family: string, supersede: bool)
    : (Session, Result<string, LedgerError>)
  {
    if s.closed then (s, Err(Closed))
    else if s.readOnly then (s, Err(ReadOnly))
    else if key !in s.live then
      if supersede then (s, Err(SupersedeNewKey)) else Mint(ids, s, key, family, None)
    else match s.live[key].binding
      case Assigned(f, id) =>
        if supersede then (s, Err(SupersedeWrongKind))
        else if f != family then (s, Err(OtherFamily))
        else (s, Ok(id))
      case AliasOf(target) =>
        if !supersede then (s, Err(KeyIsAliased)) else Mint(ids, s, key, family, Some(target))
  }

  function Alias(s: Session, key: string, existing: string, supersede: bool): (Session, Result<(), LedgerError>) {
    if s.closed then (s, Err(Closed))
    else if s.readOnly then (s, Err(ReadOnly))
    else if key !in s.live then
      if supersede then (s, Err(SupersedeNewKey))
      else if existing !in AssignedIds(s.records) then (s, Err(UnknownTarget))
      else (Append(s, Record(key, AliasOf(existing), None)), Ok(()))
    else match s.live[key].binding
      case Assigned(_, id) =>
        if !supersede then (s, Err(KeyIsAssigned))
        else if existing == id then (s, Err(SupersedeItself))
        else if existing !in AssignedIds(s.records) then (s, Err(UnknownTarget))
        else (Append(s, Record(key, AliasOf(existing), Some(id))), Ok(()))
      case AliasOf(target) =>
        if supersede then (s, Err(SupersedeWrongKind))
        else if target != existing then (s, Err(OtherTarget))
        else (s, Ok(()))
  }

  // --------------------------------------------------------------- lifecycle

  function StandardMeta(series: string, ledger: string): map<string, string> {
    map["format" := LEDGER_FORMAT, "ledger_format_version" := "1", "ledger" := ledger, "series" := series]
  }

  function NewRows(s: Session): (rows: seq<RecordRow>)
    requires s.persisted <= |s.records|
    ensures |rows| == |s.records| - s.persisted
  {
    seq(|s.records| - s.persisted, k requires 0 <= k < |s.records| - s.persisted =>
      RecordRow(s.persisted + 1 + k, s.records[s.persisted + k]))
  }

  /** The segment that signs the records not yet on disk. */
  function NewSegment(env: Env, s: Session, now: string): SegmentRow
    requires s.persisted <= |s.records|
  {
    var count := |s.records| - s.persisted;
    var subject := Subject(LEDGER_FORMAT_VERSION, s.ledger, s.series, s.bases, s.segments + 1, s.persisted + 1, count);
    var body := SealBody(subject, s.records[s.persisted..], now);
    SegmentRow(s.segments + 1, s.persisted + 1, count, now, Some(subject), env.sealing.sign(body, s.keys))
  }

  /** One atomic append: the new records with the one segment that covers them. A first write
      starts from an empty container. */
  function Write(env: Env, s: Session, c: Option<Container>, now: string): (Session, Container)
    requires s.persisted <= |s.records|
  {
    var start := if c.Some? then c.value else Container(StandardMeta(s.series, s.ledger), [], []);
    (s.(persisted := |s.records|, segments := s.segments + 1, dirty := false),
     Container(start.meta, start.records + NewRows(s), start.segments + [NewSegment(env, s, now)]))
  }

  function Create(env: Env, disk: Disk, bases: map<string, string>, series: string, ledger: string,
                  keys: seq<string>, now: string): (Disk, Result<Session, LedgerError>)
  {
    if !BasesOk(env.ids, bases, series) then (disk, Err(InvalidBases))
    else if disk.locked then (disk, Err(LockHeld))
    else if disk.container.Some? then (disk, Err(Exists))
    else if keys == [] then (disk, Err(NoSigningKey))
    else
      var (s, c) := Write(env, Session(bases, series, ledger, keys, [], map[], 0, 0, false, false, false), None, now);
      (Disk(Some(c), true), Ok(s))
  }

  /** The session a container opens as, before any base map is expected of it. */
  function Loaded(c: Container, keys: seq<string>, readOnly: bool): Session
    requires c.segments != [] && MetaOk(c.meta)
  {
    var records := RecordsOf(c.records);
    Session(LastBases(c), c.meta["series"], c.meta["ledger"], keys, records, LiveMap(records),
            |records|, |c.segments|, readOnly, false, false)
  }

  function Open(env: Env, disk: Disk, keys: seq<string>, policy: Policy, bases: Option<map<string, string>>,
                series: Option<string>, readOnly: bool): (Disk, Result<Session, LedgerError>)
  {
    if !readOnly && disk.locked then (disk, Err(LockHeld))
    else if disk.container.None? then (disk, Err(Missing))
    else if !Accepts(env.ids, env.sealing, policy, disk.container.value) then (disk, Err(Rejected))
    else
      var s := Loaded(disk.container.value, keys, readOnly);
      if series.Some? && series.value != s.series then (disk, Err(SeriesMismatch))
      else if bases.None? then (disk.(locked := disk.locked || !readOnly), Ok(s))
      else
        var extended := ExtendBases(env.ids, s.bases, bases.value, s.series);
        if extended.Err? then (disk, Err(extended.error))
        else if extended.value.1 && readOnly then (disk, Err(ReadOnlyGrowth))
        else (disk.(locked := disk.locked || !readOnly), Ok(s.(bases := extended.value.0, dirty := extended.value.1)))
  }

  /** Closing a changed ledger appends one segment; without a signing key it fails and keeps the lock. */
  function Close(env: Env, s: Session, disk: Disk, now: string): (Session, Disk, Result<(), LedgerError>)
    requires s.persisted <= |s.records|
  {
    if s.closed then (s, disk, Ok(()))
    else if s.readOnly then (s.(closed := true), disk, Ok(()))
    else if !s.dirty then (s.(closed := true), disk.(locked := false), Ok(()))
    else if s.keys == [] then (s, disk, Err(NoSigningKey))
    else
      var (written, c) := Write(env, s, disk.container, now);
      (written.(closed := true), Disk(Some(c), false), Ok(()))
  }

  // ------------------------------------------------------------ what is kept

  /** The in-memory state of any session, however it was opened. */
  ghost predicate SessionOk(ids: IdScheme, s: Session) {
    && Lawful(ids)
    && EntriesOk(ids, s.records, s.bases, s.series)
    && DistinctBases(s.bases)
    && s.live == LiveMap(s.records)
    && s.persisted <= |s.records|
  }

  /** No id in a family carries a number above the high-water mark. */
  lemma {:induction false} HighestBounds(ids: IdScheme, records: seq<Record>, family: string, r: Record)
    requires r in records && r.binding.Assigned? && r.binding.family == family && ids.parse(r.binding.id).Some?
    ensures ids.parse(r.binding.id).value.number <= HighestNumber(ids, records, family)
  {
    var n := |records|;
    assert records == records[..n - 1] + [records[n - 1]];
    if r != records[n - 1] {
      HighestBounds(ids, records[..n - 1], family, r);
    }
  }

  /** A freshly printed number is an id no record of any family has. */
  lemma FreshIdIsNew(ids: IdScheme, s: Session, family: string)
    requires SessionOk(ids, s) && family in s.bases
    requires ids.format(s.bases[family], s.series, HighestNumber(ids, s.records, family) + 1).Some?
    ensures ids.format(s.bases[family], s.series, HighestNumber(ids, s.records, family) + 1).value
              !in AssignedIds(s.records)
  {
    var n := HighestNumber(ids, s.records, family) + 1;
    var id := ids.format(s.bases[family], s.series, n).value;
    assert ids.parse(id) == Some(ParsedId(s.bases[family], s.series, n));
    if id in AssignedIds(s.records) {
      var i :| 0 <= i < |s.records| && s.records[i].binding.Assigned? && s.records[i].binding.id == id;
      assert HeadOk(ids, s.records, s.bases, s.series, i);
      assert s.records[i].binding.family == family;
      HighestBounds(ids, s.records, family, s.records[i]);
    }
  }

  /** Appending a sound record keeps every record sound. */
  lemma AppendKeepsEntries(ids: IdScheme, records: seq<Record>, r: Record, bases: map<string, string>, series: string)
    requires EntriesOk(ids, records, bases, series)
    requires r.supersedes == Lookup(records, r.key)
    requires match r.binding
             case Assigned(family, id) => IdConforms(ids, id, family, bases, series) && id !in AssignedIds(records)
             case AliasOf(target) => target in AssignedIds(records)
    ensures EntriesOk(ids, records + [r], bases, series)
  {
    AppendKeepsPrefixes(records, r);
    var longer := records + [r];
    forall i | 0 <= i < |longer| ensures HeadOk(ids, longer, bases, series, i) && TargetOk(longer, longer[i]) {
      if i < |records| {
        assert HeadOk(ids, records, bases, series, i) && TargetOk(records, records[i]);
        assert longer[..i] == records[..i];
      } else {
        assert longer[..i] == records;
      }
    }
  }

  lemma AssignKeeps(ids: IdScheme, s: Session, key: string, family: string, supersede: bool)
    requires SessionOk(ids, s)
    ensures SessionOk(ids, Assign(ids, s, key, family, supersede).0)
  {
    var t := Assign(ids, s, key, family, supersede).0;
    if t != s {
      FreshIdIsNew(ids, s, family);
      var r := t.records[|s.records|];
      AppendKeepsEntries(ids, s.records, r, s.bases, s.series);
      AppendKeepsPrefixes(s.records, r);
    }
  }

  lemma AliasKeeps(ids: IdScheme, s: Session, key: string, existing: string, supersede: bool)
    requires SessionOk(ids, s)
    ensures SessionOk(ids, Alias(s, key, existing, supersede).0)
  {
    var t := Alias(s, key, existing, supersede).0;
    if t != s {
      var r := t.records[|s.records|];
      AppendKeepsEntries(ids, s.records, r, s.bases, s.series);
      AppendKeepsPrefixes(s.records, r);
    }
  }

  /** Growing the base map keeps every record sound. */
  lemma GrowthKeepsEntries(ids: IdScheme, records: seq<Record>, before: map<string, string>, bases: map<string, string>,
                           series: string)
    requires EntriesOk(ids, records, before, series) && Grows(before, bases)
    ensures EntriesOk(ids, records, bases, series)
  {
    forall i | 0 <= i < |records| ensures HeadOk(ids, records, bases, series, i) {
      assert HeadOk(ids, records, before, series, i);
    }
  }

  lemma OpenKeeps(env: Env, disk: Disk, keys: seq<string>, policy: Policy, bases: Option<map<string, string>>,
                  series: Option<string>, readOnly: bool)
    requires Lawful(env.ids)
    ensures var outcome := Open(env, disk, keys, policy, bases, series, readOnly).1;
            outcome.Ok? ==> SessionOk(env.ids, outcome.value)
  {
    var outcome := Open(env, disk, keys, policy, bases, series, readOnly).1;
    if outcome.Ok? && bases.Some? {
      var c := disk.container.value;
      GrowthKeepsEntries(env.ids, RecordsOf(c.records), LastBases(c), outcome.value.bases, outcome.value.series);
    }
  }
}
