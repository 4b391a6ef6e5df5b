/** What creating, opening and closing a ledger demand and leave behind, and what an accepted container is. */
module LedgerLifecycle {
  import opened Common
  import opened LedgerFormat
  import opened LedgerSpec
  import opened LedgerRuns
  import opened LedgerCalls

  // --------------------------------------------------------------- base maps

  /** The map names a family, every base prints in the series, and no two families share one. */
  predicate UsableBases(ids: IdScheme, bases: map<string, string>, series: string) {
    && (exists f :: f in bases) && (forall f :: f in bases ==> ids.format(bases[f], series, 1).Some?)
    && forall f, g :: f in bases && g in bases && f != g ==> bases[f] != bases[g]
  }

  /** The expected map holds every stored family under its stored base. */
  predicate HoldsAll(stored: map<string, string>, expected: map<string, string>) {
    forall f :: f in stored ==> f in expected && expected[f] == stored[f]
  }

  // ------------------------------------------------------------------ create

  /** Creating succeeds exactly with usable bases, a free lock, no file and a signing key. It leaves the lock held
      and a file with no record and the one segment that stamps the bases; a failure leaves all as it was. */
  lemma CreateIsExact(env: Env, disk: Disk, bases: map<string, string>, series: string, ledger: string,
                      keys: seq<string>, now: string)
    ensures var (after, r) := Create(env, disk, bases, series, ledger, keys, now);
            && (r.Ok? <==> UsableBases(env.ids, bases, series) && !disk.locked && disk.container.None? && keys != [])
            && (r.Err? ==> after == disk)
            && (r.Ok? ==> IsFresh(env, after, r.value, bases, series, ledger, keys, now))
  {
    if bases != map[] {
      assert exists f :: f in bases;
    }
  }

  predicate IsFresh(env: Env, disk: Disk, s: Session, bases: map<string, string>, series: string, ledger: string,
                    keys: seq<string>, now: string)
  {
    var subject := Subject(1, ledger, series, bases, 1, 1, 0);
    && disk.locked && disk.container.Some? && disk.container.value.records == []
    && disk.container.value.segments
       == [SegmentRow(1, 1, 0, now, Some(subject), env.sealing.sign(SealBody(subject, [], now), keys))]
    && disk.container.value.meta == map["format" := "httk-idledger-sqlite", "ledger_format_version" := "1",
                                        "ledger" := ledger, "series" := series]
    && s.bases == bases && s.series == series && s.ledger == ledger && s.keys == keys
    && s.records == [] && s.live == map[] && s.persisted == 0 && s.segments == 1
    && !s.readOnly && !s.dirty && !s.closed
  }

  // -------------------------------------------------------------------- open

  /** What an opener asks for fits what is stored: the series, and the families with room for new ones only when
      the opener may write and the united map is usable. */
  predicate Fits(env: Env, c: Container, bases: Option<map<string, string>>, series: Option<string>, readOnly: bool)
    requires MetaOk(c.meta) && c.segments != []
  {
    && (series.Some? ==> series.value == c.meta["series"])
    && (bases.Some? ==>
          && HoldsAll(LastBases(c), bases.value)
          && ((exists f :: f in bases.value && f !in LastBases(c)) ==>
                !readOnly && UsableBases(env.ids, bases.value, c.meta["series"])))
  }

  /** Opening succeeds exactly when a writer finds the lock free, the validator accepts the file and it fits what
      is asked for. It takes the lock for a writer and touches nothing else. The session holds what the file
      records, under the base map asked for, and is dirty exactly when that adds a family. */
  lemma OpenIsExact(env: Env, disk: Disk, keys: seq<string>, policy: Policy, bases: Option<map<string, string>>,
                    series: Option<string>, readOnly: bool)
    ensures var (after, r) := Open(env, disk, keys, policy, bases, series, readOnly);
            && (r.Ok? <==> && (readOnly || !disk.locked) && disk.container.Some?
                           && Accepts(env.ids, env.sealing, policy, disk.container.value)
                           && Fits(env, disk.container.value, bases, series, readOnly))
            && (r.Err? ==> after == disk) && after.container == disk.container
            && (r.Ok? ==> after.locked == (disk.locked || !readOnly))
            && (r.Ok? ==> Reads(disk.container.value, r.value, keys, bases, readOnly))
  {
    if disk.container.Some? && Accepts(env.ids, env.sealing, policy, disk.container.value) && bases.Some? {
      UnitedBases(env.ids, LastBases(disk.container.value), bases.value, disk.container.value.meta["series"]);
    }
  }

  lemma UnitedBases(ids: IdScheme, stored: map<string, string>, expected: map<string, string>, series: string)
    ensures var r := ExtendBases(ids, stored, expected, series);
            && (r.Ok? <==> HoldsAll(stored, expected)
                           && ((exists f :: f in expected && f !in stored) ==> UsableBases(ids, expected, series)))
            && (r.Ok? ==> r.value == (expected, exists f :: f in expected && f !in stored))
  {
    if HoldsAll(stored, expected) {
      assert stored + expected == expected;
      if expected.Keys <= stored.Keys {
        assert expected == stored;
      } else {
        assert exists f :: f in expected && f !in stored;
      }
    }
  }

  predicate Reads(c: Container, s: Session, keys: seq<string>, bases: Option<map<string, string>>, readOnly: bool)
    requires MetaOk(c.meta) && c.segments != []
  {
    && s.series == c.meta["series"] && s.ledger == c.meta["ledger"] && s.keys == keys
    && s.records == RecordsOf(c.records) && s.live == LiveMap(s.records)
    && s.persisted == |c.records| && s.segments == |c.segments|
    && s.bases == (if bases.Some? then bases.value else LastBases(c))
    && (s.dirty <==> bases.Some? && exists f :: f in bases.value && f !in LastBases(c))
    && s.readOnly == readOnly && !s.closed
  }

  // ------------------------------------------------------------------- close

  /** Closing fails, and changes nothing, exactly for an open writer with something to write and no signing key.
      Otherwise the session is closed; the lock goes exactly when an open writer held it, and the file gains the new
      records with one segment over exactly them exactly when there was something to write. */
  lemma CloseIsExact(env: Env, s: Session, disk: Disk, now: string)
    requires s.persisted <= |s.records|
    ensures var (t, after, r) := Close(env, s, disk, now);
            var writes := !s.closed && !s.readOnly && s.dirty;
            && (r.Err? <==> writes && s.keys == []) && (r.Err? ==> t == s && after == disk)
            && (r.Ok? ==> t.closed && t.records == s.records && t.bases == s.bases)
            && (r.Ok? ==> after.locked == (if s.closed || s.readOnly then disk.locked else false))
            && (!writes ==> after.container == disk.container)
            && (r.Ok? && writes && disk.container.Some? ==> Gains(env, s, disk.container.value, after, now))
  {
  }

  predicate Gains(env: Env, s: Session, before: Container, after: Disk, now: string)
    requires s.persisted <= |s.records|
  {
    var count := |s.records| - s.persisted;
    var subject := Subject(1, s.ledger, s.series, s.bases, s.segments + 1, s.persisted + 1, count);
    var body := SealBody(subject, s.records[s.persisted..], now);
    && after.container.Some? && after.container.value.meta == before.meta
    && after.container.value.segments
       == before.segments
          + [SegmentRow(s.segments + 1, s.persisted + 1, count, now, Some(subject), env.sealing.sign(body, s.keys))]
    && |after.container.value.records| == |before.records| + count
    && after.container.value.records[..|before.records|] == before.records
    && forall j | |before.records| <= j < |before.records| + count ::
         var k := s.persisted + j - |before.records|;
         after.container.value.records[j] == RecordRow(k + 1, s.records[k])
  }

  // ------------------------------------------------------- accepted containers

  /** A record stands in an accepted ledger: an assignment conforms to the live base of its family and repeats no
      earlier id, an alias names an assigned id, and either supersedes exactly what the newest earlier record of
      its key was bound to. */
  ghost predicate Stands(ids: IdScheme, records: seq<Record>, i: nat, bases: map<string, string>, series: string)
    requires i < |records|
  {
    var r := records[i];
    && (r.supersedes.None? <==> IsUnknown(records[..i], r.key))
    && (forall j: nat :: Newest(records[..i], j, r.key) ==> r.supersedes == Some(LiveId(records[j])))
    && match r.binding
       case Assigned(family, id) =>
         && family in bases && ids.parse(id).Some?
         && ids.parse(id).value.base == bases[family] && ids.parse(id).value.series == series
         && forall j :: 0 <= j < i && records[j].binding.Assigned? ==> records[j].binding.id != id
       case AliasOf(target) =>
         exists j :: 0 <= j < |records| && records[j].binding.Assigned? && records[j].binding.id == target
  }

  lemma AcceptedRecordsStand(ids: IdScheme, sealing: Sealing, policy: Policy, c: Container, i: nat)
    requires Accepts(ids, sealing, policy, c) && i < |c.records|
    ensures c.records[i].seqNo == i + 1
    ensures Stands(ids, RecordsOf(c.records), i, LastBases(c), c.meta["series"])
  {
    var records := RecordsOf(c.records);
    assert HeadOk(ids, records, LastBases(c), c.meta["series"], i) && TargetOk(records, records[i]);
    LookupIsNewest(records[..i], records[i].key);
    if records[i].binding.Assigned? {
      forall j | 0 <= j < i && records[j].binding.Assigned? ensures records[j].binding.id != records[i].binding.id {
        assert records[..i][j] == records[j] && records[j] in records[..i];
      }
    } else {
      var r :| r in records && r.binding.Assigned? && r.binding.id == records[i].binding.target;
      var j :| 0 <= j < |records| && records[j] == r;
    }
  }

  /** Every segment of an accepted container is stamped for this ledger, its series and its own place, keeps every
      earlier base, and its seal over its own records verifies, by a trusted key where any is named. */
  lemma AcceptedSegmentsAreSealed(ids: IdScheme, sealing: Sealing, policy: Policy, c: Container, i: nat)
    requires Accepts(ids, sealing, policy, c) && i < |c.segments|
    ensures var s := c.segments[i];
            && s.segment == i + 1 && s.subject.Some? && s.subject.value.bases != map[]
            && s.subject.value == Subject(1, c.meta["ledger"], c.meta["series"], s.subject.value.bases, i + 1,
                                          s.firstSeq, s.count)
            && (i > 0 ==> HoldsAll(SegmentBases(c.segments[i - 1]), s.subject.value.bases))
    ensures var s := c.segments[i];
            policy.verify && 0 <= s.firstSeq - 1 && 0 <= s.count ==>
              && s.firstSeq - 1 + s.count <= |c.records|
              && var body := SealBody(s.subject.value,
                                      RecordsOf(c.records)[s.firstSeq - 1..s.firstSeq - 1 + s.count], s.createdAt);
                 sealing.verify(body, s.seal, policy.trusted) == ValidTrusted
                 || (policy.trusted == [] && sealing.verify(body, s.seal, policy.trusted) == Valid)
  {
    var s := c.segments[i];
    assert SegmentOk(sealing, policy, c.meta["series"], c.meta["ledger"], c.segments, c.records, i);
    if policy.verify && 0 <= s.firstSeq - 1 && 0 <= s.count {
      var covered := SegmentRecords(c.records, s.firstSeq, s.count);
      assert covered.value == RecordsOf(c.records)[s.firstSeq - 1..s.firstSeq - 1 + s.count];
    }
  }

  /** The container says what it is, and its last base map gives every family its own base. */
  lemma AcceptedIsALedger(ids: IdScheme, sealing: Sealing, policy: Policy, c: Container)
    requires Accepts(ids, sealing, policy, c)
    ensures "format" in c.meta && c.meta["format"] == "httk-idledger-sqlite"
    ensures "ledger_format_version" in c.meta && c.meta["ledger_format_version"] == "1"
    ensures "series" in c.meta && c.meta["series"] != "" && "ledger" in c.meta && c.meta["ledger"] != ""
    ensures c.segments != [] && c.segments[0].firstSeq == 1
    ensures forall i :: 0 < i < |c.segments| ==>
              c.segments[i].firstSeq == c.segments[i - 1].firstSeq + c.segments[i - 1].count
    ensures forall f, g :: f in LastBases(c) && g in LastBases(c) && f != g ==> LastBases(c)[f] != LastBases(c)[g]
  {
    assert SegmentOk(sealing, policy, c.meta["series"], c.meta["ledger"], c.segments, c.records, 0);
    forall i | 0 < i < |c.segments|
      ensures c.segments[i].firstSeq == c.segments[i - 1].firstSeq + c.segments[i - 1].count
    {
      assert SegmentOk(sealing, policy, c.meta["series"], c.meta["ledger"], c.segments, c.records, i);
      assert SegmentOk(sealing, policy, c.meta["series"], c.meta["ledger"], c.segments, c.records, i - 1);
      CoveredStep(c.segments, i - 1);
    }
  }

  /** The records a segment row covers, negative positions counting from the end as they do in the reader: none for
      a count that is not positive, and a failure exactly when the first position lies before the front. */
  lemma CoveredRecords(rows: seq<RecordRow>, firstSeq: int, count: int, k: int)
    requires firstSeq - 1 + count <= |rows|
    ensures SegmentRecords(rows, firstSeq, count).None? <==> count > 0 && |rows| + firstSeq - 1 < 0
    ensures count <= 0 ==> SegmentRecords(rows, firstSeq, count) == Some([])
    ensures 0 <= k < count && SegmentRecords(rows, firstSeq, count).Some? ==>
              var covered := SegmentRecords(rows, firstSeq, count).value;
              && |covered| == count
              && (firstSeq - 1 + k >= 0 ==> covered[k] == rows[firstSeq - 1 + k].record)
              && (firstSeq - 1 + k < 0 ==> covered[k] == rows[|rows| + (firstSeq - 1 + k)].record)
  {
  }

  // --------------------------------------------------------------------- runs

  /** A run makes its calls one after the other. */
  lemma RunsAreStepByStep(env: Env, w: World, es: seq<Event>, e: Event)
    ensures Run(env, w, []) == w && Run(env, w, es + [e]) == Step(env, Run(env, w, es), e)
  {
    assert (es + [e])[..|es|] == es;
  }

  /** A call on a session changes that session as the call does, no other session, and the disk only by closing; a
      session joins when its creation or opening succeeds. */
  lemma StepsAreCalls(env: Env, w: World, e: Event)
    ensures e.EAssign? && e.who < |w.sessions| ==>
              Step(env, w, e) == World(w.disk, w.sessions[e.who := Assign(env.ids, w.sessions[e.who], e.key, e.family,
                                                                           e.supersede).0])
    ensures e.EAlias? && e.who < |w.sessions| ==>
              Step(env, w, e) == World(w.disk, w.sessions[e.who := Alias(w.sessions[e.who], e.key, e.target,
                                                                          e.supersede).0])
    ensures e.EClose? && e.who < |w.sessions| && w.sessions[e.who].persisted <= |w.sessions[e.who].records| ==>
              var (s, disk, _) := Close(env, w.sessions[e.who], w.disk, e.now);
              Step(env, w, e) == World(disk, w.sessions[e.who := s])
    ensures e.ECreate? ==>
              var (disk, r) := Create(env, w.disk, e.bases, e.series, e.ledger, e.keys, e.now);
              Step(env, w, e) == World(disk, if r.Ok? then w.sessions + [r.value] else w.sessions)
    ensures e.EOpen? ==>
              var (disk, r) := Open(env, w.disk, e.keys, e.policy, e.expected, e.expectedSeries, e.readOnly);
              Step(env, w, e) == World(disk, if r.Ok? then w.sessions + [r.value] else w.sessions)
  {
    assert w.sessions + [] == w.sessions;
  }
}
