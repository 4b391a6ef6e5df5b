/**
 The on-disk container of an id ledger and what its validator demands of it.

 `SegmentsOk` and `EntriesOk` say which containers are sound; `ValidateSegments` and
 `ValidateEntries` are the loops that decide it.
 */
module LedgerFormat {
  import opened Common

  const LEDGER_FORMAT := "httk-idledger-sqlite"
  const LEDGER_FORMAT_VERSION := 1

  // ---------------------------------------------------------------- entry ids

  datatype ParsedId = ParsedId(base: string, series: string, number: nat)

  /** The entry-id printer and parser, which live in another package. Printing fails on a
      malformed base or series. */
  datatype IdScheme = IdScheme(
    format: (string, string, nat) -> Option<string>,
    parse: string -> Option<ParsedId>)

  /** Parsing undoes printing, and no id is printed for an empty series. */
  ghost predicate Lawful(ids: IdScheme) {
    forall base: string, series: string, n: nat :: ids.format(base, series, n).Some? ==>
      series != "" && ids.parse(ids.format(base, series, n).value) == Some(ParsedId(base, series, n))
  }

  // ------------------------------------------------------------------ records

  datatype Binding = Assigned(family: string, id: string) | AliasOf(target: string)

  datatype Record = Record(key: string, binding: Binding, supersedes: Option<string>)

  function LiveId(r: Record): string {
    match r.binding
    case Assigned(_, id) => id
    case AliasOf(target) => target
  }

  /** The newest record per key. */
  function LiveMap(records: seq<Record>): map<string, Record> {
    if records == [] then map[]
    else
      var last := records[|records| - 1];
      LiveMap(records[..|records| - 1])[last.key := last]
  }

  /** The id a key resolves to after `records`, aliases followed. */
  function Lookup(records: seq<Record>, key: string): Option<string> {
    var live := LiveMap(records);
    if key in live then Some(LiveId(live[key])) else None
  }

  /** Every id ever assigned, superseded ones included. */
  function AssignedIds(records: seq<Record>): set<string> {
    set r <- records | r.binding.Assigned? :: r.binding.id
  }

  /** One record is sound at its place: it supersedes exactly its key's prior id, and a fresh id is
      new and carries the declared base and series. */
  predicate HeadOk(ids: IdScheme, records: seq<Record>, bases: map<string, string>, series: string, i: nat)
    requires i < |records|
  {
    var r := records[i];
    && r.supersedes == Lookup(records[..i], r.key)
    && (r.binding.Assigned? ==>
          && IdConforms(ids, r.binding.id, r.binding.family, bases, series)
          && r.binding.id !in AssignedIds(records[..i]))
  }

  /** An alias names an id assigned somewhere in the ledger. */
  predicate TargetOk(records: seq<Record>, r: Record) {
    r.binding.AliasOf? ==> r.binding.target in AssignedIds(records)
  }

  predicate IdConforms(ids: IdScheme, id: string, family: string, bases: map<string, string>, series: string) {
    var parsed := ids.parse(id);
    parsed.Some? && family in bases && parsed.value.base == bases[family] && parsed.value.series == series
  }

  predicate EntriesOk(ids: IdScheme, records: seq<Record>, bases: map<string, string>, series: string) {
    && (forall i :: 0 <= i < |records| ==> HeadOk(ids, records, bases, series, i))
    && (forall i :: 0 <= i < |records| ==> TargetOk(records, records[i]))
  }

  // ----------------------------------------------------------------- segments

  datatype Subject = Subject(version: int, ledger: string, series: string, bases: map<string, string>,
                             segment: int, firstRecord: int, recordCount: int)

  datatype SealBody = SealBody(subject: Subject, records: seq<Record>, createdAt: string)

  datatype Seal = Seal(bodySha256: string, signatures: string)

  datatype Verdict = Invalid | Valid | ValidTrusted

  /** Signing and verifying, both uninterpreted. */
  datatype Sealing = Sealing(
    sign: (SealBody, seq<string>) -> Seal,
    verify: (SealBody, Seal, seq<string>) -> Verdict)

  /** How an opener treats signatures. */
  datatype Policy = Policy(verify: bool, trusted: seq<string>)

  predicate SealAccepted(sealing: Sealing, policy: Policy, body: SealBody, seal: Seal) {
    var verdict := sealing.verify(body, seal, policy.trusted);
    verdict != Invalid && (policy.trusted != [] ==> verdict == ValidTrusted)
  }

  /** The signing keys `keys` satisfy `policy`, whatever they sign. */
  ghost predicate KeysPass(sealing: Sealing, policy: Policy, keys: seq<string>) {
    policy.verify ==> forall body :: SealAccepted(sealing, policy, body, sealing.sign(body, keys))
  }

  datatype RecordRow = RecordRow(seqNo: int, record: Record)

  /** `subject` is None when the stored text is not a well-formed subject object. */
  datatype SegmentRow = SegmentRow(segment: int, firstSeq: int, count: int, createdAt: string,
                                   subject: Option<Subject>, seal: Seal)

  datatype Container = Container(meta: map<string, string>, records: seq<RecordRow>, segments: seq<SegmentRow>)

  /** The base map a segment stamps. */
  function SegmentBases(s: SegmentRow): map<string, string> {
    if s.subject.Some? then s.subject.value.bases else map[]
  }

  function RecordsOf(rows: seq<RecordRow>): (records: seq<Record>)
    ensures |records| == |rows|
  {
    seq(|rows|, i requires 0 <= i < |rows| => rows[i].record)
  }

  /** How far the segments reach: one less than the record number expected next. */
  function Covered(segments: seq<SegmentRow>): int {
    if segments == [] then 0
    else Covered(segments[..|segments| - 1]) + segments[|segments| - 1].count
  }

  /** The records a segment covers. A start below record 1 indexes from the end, and fails when it
      reaches past the front. */
  function SegmentRecords(rows: seq<RecordRow>, firstSeq: int, count: int): Option<seq<Record>>
    requires firstSeq - 1 + count <= |rows|
  {
    if count <= 0 then Some([])
    else if firstSeq - 1 < -|rows| then None
    else Some(seq(count, k requires 0 <= k < count =>
      var at := firstSeq - 1 + k;
      rows[if at < 0 then at + |rows| else at].record))
  }

  predicate SubjectOk(s: Subject, row: SegmentRow, series: string, ledger: string) {
    && s.version == LEDGER_FORMAT_VERSION
    && s.ledger == ledger
    && s.series == series
    && s.segment == row.segment && s.firstRecord == row.firstSeq && s.recordCount == row.count
    && s.bases != map[]
  }

  /** No family of `old` is removed, renamed or re-based. */
  predicate Grows(prior: map<string, string>, bases: map<string, string>) {
    forall family :: family in prior ==> family in bases && bases[family] == prior[family]
  }

  predicate DistinctBases(bases: map<string, string>) {
    forall f, g :: f in bases && g in bases && bases[f] == bases[g] ==> f == g
  }

  predicate SegmentOk(sealing: Sealing, policy: Policy, series: string, ledger: string,
                      segments: seq<SegmentRow>, rows: seq<RecordRow>, i: nat)
    requires i < |segments|
  {
    var s := segments[i];
    && s.segment == i + 1
    && s.firstSeq == 1 + Covered(segments[..i])
    && s.subject.Some? && SubjectOk(s.subject.value, s, series, ledger)
    && (i > 0 ==> Grows(SegmentBases(segments[i - 1]), SegmentBases(s)))
    && s.firstSeq - 1 + s.count <= |rows|
    && (policy.verify ==>
          var covered := SegmentRecords(rows, s.firstSeq, s.count);
          covered.Some? &&
          SealAccepted(sealing, policy, SealBody(s.subject.value, covered.value, s.createdAt), s.seal))
  }

  /** Records are numbered 1..n without gaps. */
  predicate NumberedTo(rows: seq<RecordRow>, n: int) {
    |rows| == Max(0, n) && forall j :: 0 <= j < |rows| ==> rows[j].seqNo == j + 1
  }

  predicate SegmentsOk(sealing: Sealing, policy: Policy, series: string, ledger: string,
                       segments: seq<SegmentRow>, rows: seq<RecordRow>)
  {
    && segments != []
    && (forall i :: 0 <= i < |segments| ==> SegmentOk(sealing, policy, series, ledger, segments, rows, i))
    && NumberedTo(rows, Covered(segments))
    && DistinctBases(SegmentBases(segments[|segments| - 1]))
  }

  predicate MetaOk(meta: map<string, string>) {
    && "format" in meta && meta["format"] == LEDGER_FORMAT
    && "ledger_format_version" in meta && meta["ledger_format_version"] == "1"
    && "series" in meta && meta["series"] != ""
    && "ledger" in meta && meta["ledger"] != ""
  }

  /** The base map the last segment stamps. */
  function LastBases(c: Container): map<string, string>
    requires c.segments != []
  {
    SegmentBases(c.segments[|c.segments| - 1])
  }

  /** Opening accepts the container under the given signature policy. */
  predicate Accepts(ids: IdScheme, sealing: Sealing, policy: Policy, c: Container) {
    && MetaOk(c.meta)
    && SegmentsOk(sealing, policy, c.meta["series"], c.meta["ledger"], c.segments, c.records)
    && EntriesOk(ids, RecordsOf(c.records), LastBases(c), c.meta["series"])
  }

  // ---------------------------------------------------- facts about prefixes

  lemma AppendKeepsPrefixes(records: seq<Record>, r: Record)
    ensures forall i :: 0 <= i <= |records| ==> (records + [r])[..i] == records[..i]
    ensures LiveMap(records + [r]) == LiveMap(records)[r.key := r]
    ensures AssignedIds(records + [r]) ==
            AssignedIds(records) + (if r.binding.Assigned? then {r.binding.id} else {})
  {
    var longer := records + [r];
    assert longer[..|records|] == records;
    forall id
      ensures id in AssignedIds(longer) <==>
              id in AssignedIds(records) + (if r.binding.Assigned? then {r.binding.id} else {})
    {
      if id in AssignedIds(records) {
        var q :| q in records && q.binding.Assigned? && q.binding.id == id;
        assert q in longer;
      }
      if r.binding.Assigned? && r.binding.id == id {
        assert longer[|records|] == r;
      }
    }
  }

  /** Prefixes of the segment table reach no differently inside a longer table. */
  lemma CoveredStep(segments: seq<SegmentRow>, i: nat)
    requires i < |segments|
    ensures Covered(segments[..i + 1]) == Covered(segments[..i]) + segments[i].count
  {
    assert segments[..i + 1][..i] == segments[..i];
  }

  /** A live binding is one of the records, under its own key. */
  lemma {:induction false} LiveIsRecord(records: seq<Record>, key: string)
    requires key in LiveMap(records)
    ensures LiveMap(records)[key] in records && LiveMap(records)[key].key == key
  {
    var n := |records|;
    if records[n - 1].key != key {
      LiveIsRecord(records[..n - 1], key);
    }
  }

  /** The alias targets named by `records`, in order. */
  function AliasTargets(records: seq<Record>): seq<string> {
    if records == [] then []
    else
      var last := records[|records| - 1];
      AliasTargets(records[..|records| - 1]) + (if last.binding.AliasOf? then [last.binding.target] else [])
  }

  lemma {:induction false} AliasTargetsAre(records: seq<Record>, t: string)
    ensures t in AliasTargets(records) <==> exists r :: r in records && r.binding == AliasOf(t)
  {
    var n := |records|;
    if n > 0 {
      AliasTargetsAre(records[..n - 1], t);
      assert records == records[..n - 1] + [records[n - 1]];
    }
  }

  lemma TargetsDecide(records: seq<Record>)
    ensures (forall t :: t in AliasTargets(records) ==> t in AssignedIds(records)) <==>
            (forall i :: 0 <= i < |records| ==> TargetOk(records, records[i]))
  {
    forall t ensures t in AliasTargets(records) <==> exists r :: r in records && r.binding == AliasOf(t) {
      AliasTargetsAre(records, t);
    }
    if forall t :: t in AliasTargets(records) ==> t in AssignedIds(records) {
      forall i | 0 <= i < |records| ensures TargetOk(records, records[i]) {
        if records[i].binding.AliasOf? {
          assert records[i] in records && records[i].binding == AliasOf(records[i].binding.target);
        }
      }
    }
  }

  lemma PrefixStep(records: seq<Record>, i: nat)
    requires i < |records|
    ensures LiveMap(records[..i + 1]) == LiveMap(records[..i])[records[i].key := records[i]]
    ensures AssignedIds(records[..i + 1]) == AssignedIds(records[..i]) +
              (if records[i].binding.Assigned? then {records[i].binding.id} else {})
    ensures AliasTargets(records[..i + 1]) == AliasTargets(records[..i]) +
              (if records[i].binding.AliasOf? then [records[i].binding.target] else [])
  {
    AppendKeepsPrefixes(records[..i], records[i]);
    assert records[..i] + [records[i]] == records[..i + 1];
    assert records[..i + 1][..i] == records[..i];
  }

  lemma LookupStep(records: seq<Record>, i: nat, key: string)
    requires i < |records|
    ensures Lookup(records[..i + 1], key) ==
            if records[i].key == key then Some(LiveId(records[i])) else Lookup(records[..i], key)
  {
    PrefixStep(records, i);
  }

  // ------------------------------------------------------------- the checkers

  method ValidateSegments(sealing: Sealing, policy: Policy, series: string, ledger: string,
                          segments: seq<SegmentRow>, rows: seq<RecordRow>) returns (ok: bool)
    ensures ok == SegmentsOk(sealing, policy, series, ledger, segments, rows)
  {
    if segments == [] {
      return false;
    }
    var prevBases: Option<map<string, string>> := None;
    var expectedNext := 1;
    var index := 0;
    while index < |segments|
      invariant 0 <= index <= |segments|
      invariant expectedNext == 1 + Covered(segments[..index])
      invariant forall i :: 0 <= i < index ==> SegmentOk(sealing, policy, series, ledger, segments, rows, i)
      invariant prevBases == if index == 0 then None else Some(SegmentBases(segments[index - 1]))
    {
      var row := segments[index];
      if row.segment != index + 1 || row.firstSeq != expectedNext {
        assert !SegmentOk(sealing, policy, series, ledger, segments, rows, index);
        return false;
      }
      if row.subject.None? || !SubjectOk(row.subject.value, row, series, ledger) {
        assert !SegmentOk(sealing, policy, series, ledger, segments, rows, index);
        return false;
      }
      var bases := row.subject.value.bases;
      if prevBases.Some? && !Grows(prevBases.value, bases) {
        assert !SegmentOk(sealing, policy, series, ledger, segments, rows, index);
        return false;
      }
      prevBases := Some(bases);
      if row.firstSeq - 1 + row.count > |rows| {
        assert !SegmentOk(sealing, policy, series, ledger, segments, rows, index);
        return false;
      }
      if policy.verify {
        var covered := SegmentRecords(rows, row.firstSeq, row.count);
        if covered.None? ||
           !SealAccepted(sealing, policy, SealBody(row.subject.value, covered.value, row.createdAt), row.seal)
        {
          assert !SegmentOk(sealing, policy, series, ledger, segments, rows, index);
          return false;
        }
      }
      CoveredStep(segments, index);
      expectedNext := expectedNext + row.count;
      index := index + 1;
    }
    assert segments[..index] == segments;
    ok := NumberedTo(rows, expectedNext - 1) && DistinctBases(prevBases.value);
  }

  /** One record against what came before it: its id conforms and is new, and it supersedes its key's prior id. */
  method CheckRecord(ids: IdScheme, r: Record, assignedIds: set<string>, prior: Option<string>,
                     bases: map<string, string>, series: string) returns (ok: bool)
    ensures ok <==> r.supersedes == prior
                    && (r.binding.Assigned? ==>
                          && IdConforms(ids, r.binding.id, r.binding.family, bases, series)
                          && r.binding.id !in assignedIds)
  {
    if r.binding.Assigned? {
      if !IdConforms(ids, r.binding.id, r.binding.family, bases, series) || r.binding.id in assignedIds {
        return false;
      }
    }
    ok := r.supersedes == prior;
  }

  /** What the entry loop has gathered from the records before it. */
  predicate Scanned(records: seq<Record>, live: map<string, Record>, assignedIds: set<string>,
                    priorId: map<string, string>, pendingTargets: seq<string>)
  {
    && live == LiveMap(records) && assignedIds == AssignedIds(records) && pendingTargets == AliasTargets(records)
    && priorId.Keys == live.Keys && forall k :: k in live ==> priorId[k] == LiveId(live[k])
  }

  lemma ScanStep(records: seq<Record>, i: nat, live: map<string, Record>, assignedIds: set<string>,
                 priorId: map<string, string>, pendingTargets: seq<string>)
    requires i < |records| && Scanned(records[..i], live, assignedIds, priorId, pendingTargets)
    ensures var r := records[i];
            Scanned(records[..i + 1], live[r.key := r],
                    assignedIds + (if r.binding.Assigned? then {r.binding.id} else {}), priorId[r.key := LiveId(r)],
                    pendingTargets + (if r.binding.AliasOf? then [r.binding.target] else []))
  {
    PrefixStep(records, i);
  }

  method ValidateEntries(ids: IdScheme, records: seq<Record>, bases: map<string, string>, series: string)
    returns (ok: bool, live: map<string, Record>)
    ensures ok == EntriesOk(ids, records, bases, series)
    ensures ok ==> live == LiveMap(records)
  {
    live := map[];
    var assignedIds: set<string> := {};
    var priorId: map<string, string> := map[];
    var pendingTargets: seq<string> := [];
    var i := 0;
    while i < |records|
      invariant 0 <= i <= |records| && Scanned(records[..i], live, assignedIds, priorId, pendingTargets)
      invariant forall j :: 0 <= j < i ==> HeadOk(ids, records, bases, series, j)
    {
      var r := records[i];
      var prior := if r.key in priorId then Some(priorId[r.key]) else None;
      var sound := CheckRecord(ids, r, assignedIds, prior, bases, series);
      assert sound == HeadOk(ids, records, bases, series, i);
      if !sound {
        return false, live;
      }
      ScanStep(records, i, live, assignedIds, priorId, pendingTargets);
      match r.binding {
        case AliasOf(target) => pendingTargets := pendingTargets + [target];
        case Assigned(_, id) => assignedIds := assignedIds + {id};
      }
      priorId := priorId[r.key := LiveId(r)];
      live := live[r.key := r];
      i := i + 1;
    }
    assert records[..i] == records;
    TargetsDecide(records);
    ok := ResolveTargets(pendingTargets, assignedIds);
  }

  /** Alias targets may be assigned later than the alias, so they are looked up last. */
  method ResolveTargets(pendingTargets: seq<string>, assignedIds: set<string>) returns (ok: bool)
    ensures ok <==> forall t :: t in pendingTargets ==> t in assignedIds
  {
    var i := 0;
    while i < |pendingTargets|
      invariant 0 <= i <= |pendingTargets|
      invariant forall j :: 0 <= j < i ==> pendingTargets[j] in assignedIds
    {
      if pendingTargets[i] !in assignedIds {
        return false;
      }
      i := i + 1;
    }
    ok := true;
  }
}
