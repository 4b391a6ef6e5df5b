/** What an id ledger promises over whole runs. */
module LedgerTheorems {
  import opened Common
  import opened LedgerFormat
  import opened LedgerSpec
  import opened LedgerRuns

  ghost predicate RunPasses(env: Env, policy: Policy, es: seq<Event>) {
    Lawful(env.ids) && forall e :: e in es ==> EventPasses(env, policy, e)
  }

  /** The container on disk after any run passes the validator, under every signature policy the
      signing keys of the run satisfy. */
  lemma EveryRunIsAccepted(env: Env, policy: Policy, es: seq<Event>)
    requires RunPasses(env, policy, es)
    ensures var c := Run(env, EMPTY_WORLD, es).disk.container;
            c.Some? ==> Accepts(env.ids, env.sealing, policy, c.value)
  {
    RunKeepsInv(env, policy, es);
    var w := Run(env, EMPTY_WORLD, es);
    if w.disk.container.Some? {
      SoundIsAccepted(env, policy, w.disk.container.value);
    }
  }

  /** What a writer leaves behind on closing is sound and holds exactly what it had in memory. */
  lemma CloseLeaves(env: Env, policy: Policy, w: World, who: nat, now: string)
    requires Inv(env, policy, w) && who < |w.sessions| && IsWriter(w.sessions[who])
    requires w.sessions[who].dirty ==> w.sessions[who].keys != []
    ensures var s := w.sessions[who];
            var disk := Step(env, w, EClose(who, now)).disk;
            && disk.container.Some? && !disk.locked && DiskSound(env, policy, disk.container.value)
            && var c := disk.container.value;
               && c.meta["series"] == s.series && c.meta["ledger"] == s.ledger
               && RecordsOf(c.records) == s.records && LastBases(c) == s.bases
               && |c.segments| == s.segments + (if s.dirty then 1 else 0)
  {
    var s := w.sessions[who];
    var c := w.disk.container.value;
    assert Attached(env, policy, s, c);
    if s.dirty {
      WriteKeepsDisk(env, policy, s, c, now);
    } else {
      assert s.records[..s.persisted] == s.records;
    }
  }

  lemma OpenOfSound(env: Env, policy: Policy, c: Container, keys: seq<string>, readOnly: bool)
    requires Lawful(env.ids) && DiskSound(env, policy, c)
    ensures Open(env, Disk(Some(c), false), keys, policy, None, None, readOnly).1 == Ok(Loaded(c, keys, readOnly))
  {
    SoundIsAccepted(env, policy, c);
  }

  /** Closing a writer and opening the file again gives back exactly its records, live bindings and
      bases, one segment later when there was something to write. */
  lemma ReopenIsExact(env: Env, policy: Policy, es: seq<Event>, who: nat, now: string,
                      keys: seq<string>, readOnly: bool)
    requires RunPasses(env, policy, es)
    requires who < |Run(env, EMPTY_WORLD, es).sessions|
    requires var s := Run(env, EMPTY_WORLD, es).sessions[who]; IsWriter(s) && (s.dirty ==> s.keys != [])
    ensures var w := Run(env, EMPTY_WORLD, es);
            var s := w.sessions[who];
            var closed := Step(env, w, EClose(who, now));
            var reopened := Open(env, closed.disk, keys, policy, None, None, readOnly).1;
            reopened == Ok(Session(s.bases, s.series, s.ledger, keys, s.records, s.live, |s.records|,
                                   s.segments + (if s.dirty then 1 else 0), readOnly, false, false))
  {
    RunKeepsInv(env, policy, es);
    var w := Run(env, EMPTY_WORLD, es);
    var c := Step(env, w, EClose(who, now)).disk.container;
    CloseLeaves(env, policy, w, who, now);
    OpenOfSound(env, policy, c.value, keys, readOnly);
    assert Attached(env, policy, w.sessions[who], w.disk.container.value);
  }

  /** No two sessions ever hold the ledger for writing at once. */
  lemma WritersExclude(env: Env, policy: Policy, es: seq<Event>, i: nat, j: nat)
    requires RunPasses(env, policy, es)
    requires i < |Run(env, EMPTY_WORLD, es).sessions| && j < |Run(env, EMPTY_WORLD, es).sessions|
    requires IsWriter(Run(env, EMPTY_WORLD, es).sessions[i]) && IsWriter(Run(env, EMPTY_WORLD, es).sessions[j])
    ensures i == j && Run(env, EMPTY_WORLD, es).disk.locked
  {
    RunKeepsInv(env, policy, es);
  }

  /** No id is ever bound twice, within or across families, and a family's numbers only grow;
      superseded ids count. */
  ghost predicate IdsUnique(ids: IdScheme, records: seq<Record>) {
    && NumbersIncrease(ids, records)
    && forall i, j | 0 <= i < j < |records| && records[i].binding.Assigned? && records[j].binding.Assigned? ::
         records[i].binding.id != records[j].binding.id
  }

  lemma SoundIdsAreUnique(ids: IdScheme, records: seq<Record>, bases: map<string, string>, series: string)
    requires EntriesOk(ids, records, bases, series) && NumbersIncrease(ids, records)
    ensures IdsUnique(ids, records)
  {
    forall i, j | 0 <= i < j < |records| && records[i].binding.Assigned? && records[j].binding.Assigned?
      ensures records[i].binding.id != records[j].binding.id
    {
      assert HeadOk(ids, records, bases, series, j);
      assert records[..j][i] == records[i] && records[i] in records[..j];
    }
  }

  lemma IdsAreNeverReused(env: Env, policy: Policy, es: seq<Event>)
    requires RunPasses(env, policy, es)
    ensures var w := Run(env, EMPTY_WORLD, es);
            && (w.disk.container.Some? ==> IdsUnique(env.ids, RecordsOf(w.disk.container.value.records)))
            && forall i :: 0 <= i < |w.sessions| && IsWriter(w.sessions[i]) ==>
                 IdsUnique(env.ids, w.sessions[i].records)
  {
    RunKeepsInv(env, policy, es);
    var w := Run(env, EMPTY_WORLD, es);
    if w.disk.container.Some? {
      var c := w.disk.container.value;
      SoundIsAccepted(env, policy, c);
      SoundIdsAreUnique(env.ids, RecordsOf(c.records), LastBases(c), c.meta["series"]);
      forall i | 0 <= i < |w.sessions| && IsWriter(w.sessions[i]) ensures IdsUnique(env.ids, w.sessions[i].records) {
        assert Attached(env, policy, w.sessions[i], c);
        SoundIdsAreUnique(env.ids, w.sessions[i].records, w.sessions[i].bases, w.sessions[i].series);
      }
    }
  }

  /** Of two assignments in the container of any run, the later one has another id, and a higher number when both
      are of one family. */
  lemma NumbersAscend(env: Env, policy: Policy, es: seq<Event>, i: nat, j: nat)
    requires RunPasses(env, policy, es) && Run(env, EMPTY_WORLD, es).disk.container.Some?
    requires i < j < |Run(env, EMPTY_WORLD, es).disk.container.value.records|
    ensures var rows := Run(env, EMPTY_WORLD, es).disk.container.value.records;
            var a, b := rows[i].record.binding, rows[j].record.binding;
            a.Assigned? && b.Assigned? ==>
              && a.id != b.id && env.ids.parse(a.id).Some? && env.ids.parse(b.id).Some?
              && (a.family == b.family ==> env.ids.parse(a.id).value.number < env.ids.parse(b.id).value.number)
  {
    RunKeepsInv(env, policy, es);
    var c := Run(env, EMPTY_WORLD, es).disk.container.value;
    SoundIsAccepted(env, policy, c);
    var records := RecordsOf(c.records);
    assert HeadOk(env.ids, records, LastBases(c), c.meta["series"], i);
    assert HeadOk(env.ids, records, LastBases(c), c.meta["series"], j);
    if records[i].binding.Assigned? {
      assert records[..j][i] == records[i] && records[i] in records[..j];
    }
  }

  /** A later container only adds records and segments. */
  predicate Extends(c: Container, d: Container) {
    c.meta == d.meta && RecordsOf(c.records) <= RecordsOf(d.records) && c.segments <= d.segments
  }

  lemma StepExtends(env: Env, policy: Policy, w: World, e: Event)
    requires Inv(env, policy, w) && EventPasses(env, policy, e) && w.disk.container.Some?
    ensures var next := Step(env, w, e).disk.container;
            next.Some? && Extends(w.disk.container.value, next.value)
  {
    if e.EClose? && e.who < |w.sessions| {
      var s := w.sessions[e.who];
      var c := w.disk.container.value;
      assert Attached(env, policy, s, c);
      if IsWriter(s) && s.dirty && s.keys != [] {
        WriteExtends(env, policy, s, c, e.now);
      }
    }
  }

  lemma WriteExtends(env: Env, policy: Policy, s: Session, c: Container, now: string)
    requires DiskSound(env, policy, c) && WriterOn(env, policy, s, c) && SessionOk(env.ids, s) && s.keys != []
    ensures Extends(c, Write(env, s, Some(c), now).1)
  {
    WriteKeepsDisk(env, policy, s, c, now);
    assert RecordsOf(c.records) == s.records[..s.persisted];
  }

  /** No record or segment is ever edited or removed, whatever happens later. */
  lemma {:induction false} HistoryIsKept(env: Env, policy: Policy, es: seq<Event>, more: seq<Event>)
    requires RunPasses(env, policy, es + more) && Run(env, EMPTY_WORLD, es).disk.container.Some?
    ensures var later := Run(env, EMPTY_WORLD, es + more).disk.container;
            later.Some? && Extends(Run(env, EMPTY_WORLD, es).disk.container.value, later.value)
  {
    if more == [] {
      assert es + more == es;
    } else {
      var most := more[..|more| - 1];
      assert (es + more)[..|es + more| - 1] == es + most;
      HistoryIsKept(env, policy, es, most);
      RunKeepsInv(env, policy, es + most);
      StepExtends(env, policy, Run(env, EMPTY_WORLD, es + most), more[|more| - 1]);
    }
  }

  ghost predicate ChainOk(records: seq<Record>) {
    forall i :: 0 <= i < |records| ==> records[i].supersedes == Lookup(records[..i], records[i].key)
  }

  lemma {:induction false} ChainMoves(records: seq<Record>, n: nat, key: string)
    requires ChainOk(records) && n <= |records|
    requires Lookup(records[..n], key).Some? && Lookup(records, key) != Lookup(records[..n], key)
    ensures exists i ::
      n <= i < |records| && records[i].key == key && records[i].supersedes == Lookup(records[..n], key)
  {
    assert records[..|records|] == records;
    var m := |records| - 1;
    var before := records[..m];
    assert n <= m;
    assert before[..n] == records[..n];
    LookupStep(records, m, key);
    if Lookup(before, key) == Lookup(records[..n], key) {
      assert records[m].key == key;
    } else {
      assert forall i :: 0 <= i < m ==> before[i] == records[i] && before[..i] == records[..i];
      ChainMoves(before, n, key);
      var i :| n <= i < m && before[i].key == key && before[i].supersedes == Lookup(before[..n], key);
      assert records[i] == before[i];
    }
  }

  /** When a key resolves to another id later, some later record of that key superseded the id. */
  lemma LookupMovesOnlyBySupersession(ids: IdScheme, records: seq<Record>, n: nat, key: string,
                                      bases: map<string, string>, series: string)
    requires EntriesOk(ids, records, bases, series) && n <= |records|
    requires Lookup(records[..n], key).Some? && Lookup(records, key) != Lookup(records[..n], key)
    ensures exists i ::
      n <= i < |records| && records[i].key == key && records[i].supersedes == Lookup(records[..n], key)
  {
    forall i | 0 <= i < |records| ensures records[i].supersedes == Lookup(records[..i], records[i].key) {
      assert HeadOk(ids, records, bases, series, i);
    }
    ChainMoves(records, n, key);
  }

  /** One call re-binds no key but its own, and re-binds a known key only when told to supersede. */
  lemma CallMovesOnlyItsKey(env: Env, s: Session, e: Event, key: string)
    requires SessionOk(env.ids, s) && (e.EAssign? || e.EAlias?)
    ensures var t := if e.EAssign? then Assign(env.ids, s, e.key, e.family, e.supersede).0
                     else Alias(s, e.key, e.target, e.supersede).0;
            Lookup(t.records, key) != Lookup(s.records, key) ==>
              key == e.key && (e.supersede <==> Lookup(s.records, key).Some?)
  {
    var t := CallAppends(env, s, e);
    if t != s {
      var n := |s.records|;
      SoundRecordMoves(env.ids, s.records, t.records[n], t.bases, t.series, key);
    }
  }

  lemma SoundRecordMoves(ids: IdScheme, records: seq<Record>, r: Record, bases: map<string, string>, series: string,
                         key: string)
    requires HeadOk(ids, records + [r], bases, series, |records|)
    ensures Lookup(records + [r], key) != Lookup(records, key) ==> key == r.key
    ensures r.supersedes == Lookup(records, r.key)
  {
    LookupStep(records + [r], |records|, key);
    assert (records + [r])[..|records| + 1] == records + [r] && (records + [r])[..|records|] == records;
  }

  /** An assigned id is what the key resolves to, and asking again gives it back and changes nothing. */
  lemma AssignIsIdempotent(env: Env, s: Session, key: string, family: string, supersede: bool)
    requires SessionOk(env.ids, s) && Assign(env.ids, s, key, family, supersede).1.Ok?
    ensures var (t, r) := Assign(env.ids, s, key, family, supersede);
            && Lookup(t.records, key) == Some(r.value)
            && r.value in AssignedIds(t.records)
            && Assign(env.ids, t, key, family, false) == (t, r)
  {
    var (t, r) := Assign(env.ids, s, key, family, supersede);
    if t == s {
      LiveIsRecord(s.records, key);
      assert s.live[key] in s.records && s.live[key].binding.id in AssignedIds(s.records);
    } else {
      AppendKeepsPrefixes(s.records, t.records[|s.records|]);
    }
  }

  /** Rolling the file back to its first segments and exactly their records gives an older ledger the
      validator accepts. */
  lemma TruncationIsAccepted(env: Env, policy: Policy, es: seq<Event>, k: nat)
    requires RunPasses(env, policy, es) && Run(env, EMPTY_WORLD, es).disk.container.Some?
    requires 1 <= k <= |Run(env, EMPTY_WORLD, es).disk.container.value.segments|
    ensures var c := Run(env, EMPTY_WORLD, es).disk.container.value;
            && 0 <= Covered(c.segments[..k]) <= |c.records|
            && Accepts(env.ids, env.sealing, policy, Truncate(c, k))
  {
    RunKeepsInv(env, policy, es);
    var c := Run(env, EMPTY_WORLD, es).disk.container.value;
    TruncationIsSound(env, policy, c, k);
    SoundIsAccepted(env, policy, Truncate(c, k));
  }

  /** Any other way to remove, add or renumber records is refused, verified or not. */
  lemma RenumberingIsRejected(ids: IdScheme, sealing: Sealing, policy: Policy, policy': Policy,
                              c: Container, rows: seq<RecordRow>)
    requires Accepts(ids, sealing, policy, c)
    requires |rows| != |c.records| || exists i :: 0 <= i < |rows| && rows[i].seqNo != c.records[i].seqNo
    ensures !Accepts(ids, sealing, policy', c.(records := rows))
  {
    assert NumberedTo(c.records, Covered(c.segments));
    assert !NumberedTo(rows, Covered(c.segments));
  }

  // ------------------------------------------------------ the partition claim

  /** In how many segments' ranges record number `q` lies. */
  function CoverCount(segments: seq<SegmentRow>, q: int): nat {
    if segments == [] then 0
    else
      var s := segments[|segments| - 1];
      CoverCount(segments[..|segments| - 1], q) + (if s.firstSeq <= q < s.firstSeq + s.count then 1 else 0)
  }

  /** How many segments with a negative count step back over record number `q`. */
  function BackCount(segments: seq<SegmentRow>, q: int): nat {
    if segments == [] then 0
    else
      var s := segments[|segments| - 1];
      BackCount(segments[..|segments| - 1], q) + (if s.firstSeq + s.count <= q < s.firstSeq then 1 else 0)
  }

  predicate Chained(segments: seq<SegmentRow>) {
    forall i :: 0 <= i < |segments| ==> segments[i].firstSeq == 1 + Covered(segments[..i])
  }

  /** Steps forward over a record, less steps back, leave exactly the net distance travelled. */
  lemma {:induction false} CoverBalance(segments: seq<SegmentRow>, q: int)
    requires Chained(segments)
    ensures CoverCount(segments, q) + (if 1 + Covered(segments) <= q < 1 then 1 else 0)
         == BackCount(segments, q) + (if 1 <= q < 1 + Covered(segments) then 1 else 0)
  {
    if segments != [] {
      var shorter := segments[..|segments| - 1];
      assert forall i :: 0 <= i < |shorter| ==> shorter[i] == segments[i] && shorter[..i] == segments[..i];
      CoverBalance(shorter, q);
    }
  }

  lemma {:induction false} BackCountIsZero(segments: seq<SegmentRow>, q: int)
    requires forall s :: s in segments ==> s.count >= 0
    ensures BackCount(segments, q) == 0
  {
    if segments != [] {
      BackCountIsZero(segments[..|segments| - 1], q);
    }
  }

  lemma {:induction false} CoverCountIsZero(segments: seq<SegmentRow>, q: int)
    requires forall s :: s in segments ==> s.count <= 0
    ensures CoverCount(segments, q) == 0
  {
    if segments != [] {
      CoverCountIsZero(segments[..|segments| - 1], q);
    }
  }

  lemma {:induction false} CountedOnce(segments: seq<SegmentRow>, s: SegmentRow, q: int)
    requires s in segments
    ensures s.firstSeq <= q < s.firstSeq + s.count ==> CoverCount(segments, q) >= 1
    ensures s.firstSeq + s.count <= q < s.firstSeq ==> BackCount(segments, q) >= 1
  {
    var n := |segments| - 1;
    if s != segments[n] {
      assert segments == segments[..n] + [segments[n]];
      CountedOnce(segments[..n], s, q);
    }
  }

  /** The segments partition the records: each record lies in one range and the ranges hold nothing else. */
  ghost predicate Partition(segments: seq<SegmentRow>, n: nat) {
    forall q :: CoverCount(segments, q) == if 1 <= q <= n then 1 else 0
  }

  lemma CoverBalanceOf(ids: IdScheme, sealing: Sealing, policy: Policy, c: Container)
    requires Accepts(ids, sealing, policy, c)
    ensures var n := Covered(c.segments);
            && |c.records| == Max(0, n)
            && forall q :: CoverCount(c.segments, q) + (if 1 + n <= q < 1 then 1 else 0)
                        == BackCount(c.segments, q) + (if 1 <= q < 1 + n then 1 else 0)
  {
    var segments := c.segments;
    forall i | 0 <= i < |segments| ensures segments[i].firstSeq == 1 + Covered(segments[..i]) {
      assert SegmentOk(sealing, policy, c.meta["series"], c.meta["ledger"], segments, c.records, i);
    }
    forall q
      ensures CoverCount(segments, q) + (if 1 + Covered(segments) <= q < 1 then 1 else 0)
           == BackCount(segments, q) + (if 1 <= q < 1 + Covered(segments) then 1 else 0)
    {
      CoverBalance(segments, q);
    }
  }

  /** Segments that all go one way partition the records. */
  lemma OneWayPartitions(ids: IdScheme, sealing: Sealing, policy: Policy, c: Container)
    requires Accepts(ids, sealing, policy, c)
    requires (forall s :: s in c.segments ==> s.count >= 0) || (forall s :: s in c.segments ==> s.count <= 0)
    ensures Partition(c.segments, |c.records|)
  {
    CoverBalanceOf(ids, sealing, policy, c);
    if forall s :: s in c.segments ==> s.count >= 0 {
      CoveredSign(c.segments, 1);
      forall q ensures BackCount(c.segments, q) == 0 { BackCountIsZero(c.segments, q); }
    } else {
      CoveredSign(c.segments, -1);
      forall q ensures CoverCount(c.segments, q) == 0 { CoverCountIsZero(c.segments, q); }
    }
  }

  /** An accepted container's segments partition its records exactly when no segment steps backwards,
      or none steps forwards. The validator itself does not look at the sign of a count. */
  lemma AcceptedSegmentsPartition(ids: IdScheme, sealing: Sealing, policy: Policy, c: Container)
    requires Accepts(ids, sealing, policy, c)
    ensures Partition(c.segments, |c.records|) <==>
            (forall s :: s in c.segments ==> s.count >= 0) || (forall s :: s in c.segments ==> s.count <= 0)
  {
    var segments := c.segments;
    if (forall s :: s in segments ==> s.count >= 0) || (forall s :: s in segments ==> s.count <= 0) {
      OneWayPartitions(ids, sealing, policy, c);
    } else {
      var back :| back in segments && back.count < 0;
      var forth :| forth in segments && forth.count > 0;
      CountedOnce(segments, back, back.firstSeq - 1);
      CountedOnce(segments, forth, forth.firstSeq);
      CoverBalanceOf(ids, sealing, policy, c);
      var q := if Covered(segments) >= 1 then back.firstSeq - 1 else forth.firstSeq;
      assert CoverCount(segments, q) != if 1 <= q <= |c.records| then 1 else 0;
    }
  }

  lemma {:induction false} CoveredSign(segments: seq<SegmentRow>, sign: int)
    requires sign == 1 || sign == -1
    requires forall s :: s in segments ==> sign * s.count >= 0
    ensures sign * Covered(segments) >= 0
  {
    if segments != [] {
      CoveredSign(segments[..|segments| - 1], sign);
    }
  }

  /** A segment as a writer seals it, over the records that a verifier takes it to cover. */
  function SignedRow(sealing: Sealing, keys: seq<string>, subject: Subject, records: seq<Record>): SegmentRow {
    SegmentRow(subject.segment, subject.firstRecord, subject.recordCount, "", Some(subject),
               sealing.sign(SealBody(subject, records, ""), keys))
  }

  /** Three sealed segments: record 1, a step back over it, and record 1 again. */
  function BackwardSegments(sealing: Sealing, keys: seq<string>, bases: map<string, string>, series: string,
                            ledger: string, r: Record): seq<SegmentRow>
  {
    [SignedRow(sealing, keys, Subject(LEDGER_FORMAT_VERSION, ledger, series, bases, 1, 1, 1), [r]),
     SignedRow(sealing, keys, Subject(LEDGER_FORMAT_VERSION, ledger, series, bases, 2, 2, -1), []),
     SignedRow(sealing, keys, Subject(LEDGER_FORMAT_VERSION, ledger, series, bases, 3, 1, 1), [r])]
  }

  lemma OneRecordCovered(rows: seq<RecordRow>, r: Record)
    requires rows == [RecordRow(1, r)]
    ensures SegmentRecords(rows, 1, 1).Some? && SegmentRecords(rows, 1, 1).value == [r]
    ensures SegmentRecords(rows, 2, -1).Some? && SegmentRecords(rows, 2, -1).value == []
  {
  }

  /** They are accepted under every policy that the signing keys satisfy, and cover record 1 twice. */
  lemma BackwardSegmentIsAccepted(ids: IdScheme, sealing: Sealing, policy: Policy, keys: seq<string>,
                                  bases: map<string, string>, series: string, ledger: string, r: Record)
    requires bases != map[] && DistinctBases(bases) && series != "" && ledger != ""
    requires EntriesOk(ids, [r], bases, series) && KeysPass(sealing, policy, keys)
    ensures var c := Container(StandardMeta(series, ledger), [RecordRow(1, r)],
                               BackwardSegments(sealing, keys, bases, series, ledger, r));
            Accepts(ids, sealing, policy, c) && !Partition(c.segments, |c.records|)
  {
    var segments := BackwardSegments(sealing, keys, bases, series, ledger, r);
    var c := Container(StandardMeta(series, ledger), [RecordRow(1, r)], segments);
    assert segments[..0] == [] && segments[..1][..0] == [] && segments[..2][..1] == segments[..1];
    CoveredStep(segments, 0);
    CoveredStep(segments, 1);
    CoveredStep(segments, 2);
    assert segments[..3] == segments;
    assert RecordsOf(c.records) == [r];
    OneRecordCovered(c.records, r);
    forall i | 0 <= i < 3 ensures SegmentOk(sealing, policy, series, ledger, segments, c.records, i) {
    }
    assert segments[1] in segments && segments[1].count < 0;
    assert segments[0] in segments && segments[0].count > 0;
    AcceptedSegmentsPartition(ids, sealing, policy, c);
  }
}
