/**
 Whole runs of a ledger: any number of sessions creating, opening, assigning, aliasing and closing
 over one file, in any interleaving.
 */
module LedgerRuns {
  import opened Common
  import opened LedgerFormat
  import opened LedgerSpec

  datatype Event =
    | ECreate(bases: map<string, string>, series: string, ledger: string, keys: seq<string>, now: string)
    | EOpen(keys: seq<string>, policy: Policy, expected: Option<map<string, string>>,
            expectedSeries: Option<string>, readOnly: bool)
    | EAssign(who: nat, key: string, family: string, supersede: bool)
    | EAlias(who: nat, key: string, target: string, supersede: bool)
    | EClose(who: nat, now: string)

  datatype World = World(disk: Disk, sessions: seq<Session>)

  const EMPTY_WORLD := World(Disk(None, false), [])

  /** One call. A session that could not be created or opened never appears. */
  function Step(env: Env, w: World, e: Event): World
  {
    match e
    case ECreate(bases, series, ledger, keys, now) =>
      var (disk, r) := Create(env, w.disk, bases, series, ledger, keys, now);
      World(disk, w.sessions + (if r.Ok? then [r.value] else []))
    case EOpen(keys, policy, expected, expectedSeries, readOnly) =>
      var (disk, r) := Open(env, w.disk, keys, policy, expected, expectedSeries, readOnly);
      World(disk, w.sessions + (if r.Ok? then [r.value] else []))
    case EAssign(who, key, family, supersede) =>
      if who >= |w.sessions| then w
      else w.(sessions := w.sessions[who := Assign(env.ids, w.sessions[who], key, family, supersede).0])
    case EAlias(who, key, target, supersede) =>
      if who >= |w.sessions| then w
      else w.(sessions := w.sessions[who := Alias(w.sessions[who], key, target, supersede).0])
    case EClose(who, now) =>
      if who >= |w.sessions| || w.sessions[who].persisted > |w.sessions[who].records| then w
      else
        var (s, disk, _) := Close(env, w.sessions[who], w.disk, now);
        World(disk, w.sessions[who := s])
  }

  function Run(env: Env, w: World, es: seq<Event>): World {
    if es == [] then w else Step(env, Run(env, w, es[..|es| - 1]), es[|es| - 1])
  }

  // --------------------------------------------------------------- invariant

  /** Within a family the numbers strictly increase in append order. */
  ghost predicate NumbersIncrease(ids: IdScheme, records: seq<Record>) {
    forall i, j | 0 <= i < j < |records| && records[i].binding.Assigned? && records[j].binding.Assigned?
                  && records[i].binding.family == records[j].binding.family ::
      && ids.parse(records[i].binding.id).Some? && ids.parse(records[j].binding.id).Some?
      && ids.parse(records[i].binding.id).value.number < ids.parse(records[j].binding.id).value.number
  }

  /** One stored segment: in order, signed over exactly its records, with every record up to its end
      sound under the bases it stamps. */
  ghost predicate SegmentSound(env: Env, policy: Policy, series: string, ledger: string,
                               segments: seq<SegmentRow>, records: seq<Record>, i: nat)
    requires i < |segments|
  {
    var s := segments[i];
    && s.segment == i + 1 && s.firstSeq == 1 + Covered(segments[..i]) && s.count >= 0
    && 0 <= Covered(segments[..i]) && Covered(segments[..i]) + s.count <= |records|
    && s.subject == Some(Subject(LEDGER_FORMAT_VERSION, ledger, series, SegmentBases(s), i + 1, s.firstSeq, s.count))
    && SegmentBases(s) != map[] && DistinctBases(SegmentBases(s))
    && (i > 0 ==> Grows(SegmentBases(segments[i - 1]), SegmentBases(s)))
    && (policy.verify ==>
          SealAccepted(env.sealing, policy,
                       SealBody(s.subject.value, records[s.firstSeq - 1..s.firstSeq - 1 + s.count], s.createdAt),
                       s.seal))
    && EntriesOk(env.ids, records[..Covered(segments[..i]) + s.count], SegmentBases(s), series)
  }

  ghost predicate DiskSound(env: Env, policy: Policy, c: Container) {
    && MetaOk(c.meta)
    && c.segments != []
    && (forall i :: 0 <= i < |c.segments| ==>
          SegmentSound(env, policy, c.meta["series"], c.meta["ledger"], c.segments, RecordsOf(c.records), i))
    && NumberedTo(c.records, Covered(c.segments))
    && NumbersIncrease(env.ids, RecordsOf(c.records))
  }

  predicate IsWriter(s: Session) { !s.readOnly && !s.closed }

  /** An open writer extends exactly what is on disk. */
  ghost predicate WriterOn(env: Env, policy: Policy, s: Session, c: Container)
    requires c.segments != [] && MetaOk(c.meta)
  {
    && s.series == c.meta["series"] && s.ledger == c.meta["ledger"]
    && s.persisted == |c.records| <= |s.records|
    && s.records[..s.persisted] == RecordsOf(c.records)
    && s.segments == |c.segments|
    && s.bases != map[] && Grows(LastBases(c), s.bases)
    && (!s.dirty ==> s.persisted == |s.records| && s.bases == LastBases(c))
    && NumbersIncrease(env.ids, s.records)
    && (s.keys != [] ==> KeysPass(env.sealing, policy, s.keys))
  }

  ghost predicate Attached(env: Env, policy: Policy, s: Session, c: Container)
    requires c.segments != [] && MetaOk(c.meta)
  {
    SessionOk(env.ids, s) && (IsWriter(s) ==> WriterOn(env, policy, s, c))
  }

  /** At most one session may write, and the lock is held exactly while one does. */
  predicate OneWriter(sessions: seq<Session>, locked: bool) {
    && (forall i, j | 0 <= i < |sessions| && 0 <= j < |sessions| && IsWriter(sessions[i]) && IsWriter(sessions[j]) ::
          i == j)
    && (locked <==> exists i :: 0 <= i < |sessions| && IsWriter(sessions[i]))
  }

  ghost predicate Inv(env: Env, policy: Policy, w: World) {
    && Lawful(env.ids)
    && OneWriter(w.sessions, w.disk.locked)
    && match w.disk.container
       case None => w.sessions == []
       case Some(c) =>
         && DiskSound(env, policy, c)
         && forall i :: 0 <= i < |w.sessions| ==> Attached(env, policy, w.sessions[i], c)
  }

  lemma OneWriterJoined(sessions: seq<Session>, locked: bool, s: Session)
    requires OneWriter(sessions, locked) && (IsWriter(s) ==> !locked)
    ensures OneWriter(sessions + [s], locked || IsWriter(s))
  {
    var more := sessions + [s];
    assert more[|sessions|] == s && more[..|sessions|] == sessions;
    if locked {
      var i :| 0 <= i < |sessions| && IsWriter(sessions[i]);
      assert IsWriter(more[i]);
    }
  }

  lemma OneWriterUpdated(sessions: seq<Session>, locked: bool, who: nat, t: Session)
    requires OneWriter(sessions, locked) && who < |sessions| && (IsWriter(t) ==> IsWriter(sessions[who]))
    ensures OneWriter(sessions[who := t], if IsWriter(t) == IsWriter(sessions[who]) then locked else false)
  {
    var next := sessions[who := t];
    assert forall i :: 0 <= i < |sessions| && i != who ==> next[i] == sessions[i];
    if IsWriter(t) == IsWriter(sessions[who]) && locked {
      var i :| 0 <= i < |sessions| && IsWriter(sessions[i]);
      assert IsWriter(next[i]);
    }
  }

  /** The keys an event brings along satisfy the policy; a ledger identity is never empty. */
  ghost predicate EventPasses(env: Env, policy: Policy, e: Event) {
    match e
    case ECreate(_, _, ledger, keys, _) => ledger != "" && (keys != [] ==> KeysPass(env.sealing, policy, keys))
    case EOpen(keys, _, _, _, _) => keys != [] ==> KeysPass(env.sealing, policy, keys)
    case _ => true
  }

  // ------------------------------------------------------- the disk is sound

  lemma {:induction false} CoveredIsMonotone(env: Env, policy: Policy, c: Container, i: nat, j: nat)
    requires DiskSound(env, policy, c) && i <= j <= |c.segments|
    ensures 0 <= Covered(c.segments[..i]) <= Covered(c.segments[..j]) <= |c.records|
    decreases |c.segments| - i
  {
    assert c.segments[..|c.segments|] == c.segments;
    if i == |c.segments| {
      assert SegmentSound(env, policy, c.meta["series"], c.meta["ledger"], c.segments, RecordsOf(c.records), i - 1);
      CoveredStep(c.segments, i - 1);
    } else {
      assert SegmentSound(env, policy, c.meta["series"], c.meta["ledger"], c.segments, RecordsOf(c.records), i);
      CoveredStep(c.segments, i);
      CoveredIsMonotone(env, policy, c, i + 1, Max(i + 1, j));
      if i + 1 <= j {
        CoveredIsMonotone(env, policy, c, i + 1, j);
      }
    }
  }

  lemma SoundSegmentIsOk(env: Env, policy: Policy, c: Container, i: nat)
    requires DiskSound(env, policy, c) && i < |c.segments|
    ensures SegmentOk(env.sealing, policy, c.meta["series"], c.meta["ledger"], c.segments, c.records, i)
  {
    assert SegmentSound(env, policy, c.meta["series"], c.meta["ledger"], c.segments, RecordsOf(c.records), i);
    var s := c.segments[i];
    var covered := SegmentRecords(c.records, s.firstSeq, s.count);
    assert covered.value == RecordsOf(c.records)[s.firstSeq - 1..s.firstSeq - 1 + s.count];
  }

  /** What writers leave on disk is what the independent validator demands. */
  lemma SoundIsAccepted(env: Env, policy: Policy, c: Container)
    requires DiskSound(env, policy, c)
    ensures Accepts(env.ids, env.sealing, policy, c)
  {
    var last := |c.segments| - 1;
    forall i | 0 <= i < |c.segments|
      ensures SegmentOk(env.sealing, policy, c.meta["series"], c.meta["ledger"], c.segments, c.records, i)
    {
      SoundSegmentIsOk(env, policy, c, i);
    }
    assert SegmentSound(env, policy, c.meta["series"], c.meta["ledger"], c.segments, RecordsOf(c.records), last);
    CoveredStep(c.segments, last);
    assert c.segments[..last + 1] == c.segments;
    assert RecordsOf(c.records)[..|c.records|] == RecordsOf(c.records);
  }

  /** The first `k` segments with exactly the records they cover. */
  function Truncate(c: Container, k: nat): Container
    requires k <= |c.segments| && 0 <= Covered(c.segments[..k]) <= |c.records|
  {
    Container(c.meta, c.records[..Covered(c.segments[..k])], c.segments[..k])
  }

  /** A segment stays sound when both tables are cut or extended beyond it. */
  lemma SoundSegmentIsLocal(env: Env, policy: Policy, series: string, ledger: string,
                            segments: seq<SegmentRow>, records: seq<Record>,
                            segments': seq<SegmentRow>, records': seq<Record>, i: nat)
    requires i < |segments| && SegmentSound(env, policy, series, ledger, segments, records, i)
    requires i < |segments'| && segments[..i + 1] == segments'[..i + 1]
    requires 0 <= Covered(segments[..i + 1]) <= |records| && Covered(segments[..i + 1]) <= |records'|
    requires records[..Covered(segments[..i + 1])] == records'[..Covered(segments[..i + 1])]
    ensures SegmentSound(env, policy, series, ledger, segments', records', i)
  {
    CoveredStep(segments, i);
    var n := Covered(segments[..i + 1]);
    var s := segments[i];
    assert segments'[i] == segments'[..i + 1][i] == segments[..i + 1][i] == s;
    assert segments'[..i] == segments'[..i + 1][..i] == segments[..i + 1][..i] == segments[..i];
    assert records[s.firstSeq - 1..n] == records[..n][s.firstSeq - 1..] == records'[..n][s.firstSeq - 1..]
        == records'[s.firstSeq - 1..n];
    if i > 0 {
      assert segments'[i - 1] == segments'[..i][i - 1] == segments[..i][i - 1] == segments[i - 1];
    }
  }

  /** Dropping the newest segments together with exactly their records leaves an older sound ledger. */
  lemma TruncationIsSound(env: Env, policy: Policy, c: Container, k: nat)
    requires DiskSound(env, policy, c) && 1 <= k <= |c.segments|
    ensures 0 <= Covered(c.segments[..k]) <= |c.records|
    ensures DiskSound(env, policy, Truncate(c, k))
  {
    CoveredIsMonotone(env, policy, c, k, k);
    var d := Truncate(c, k);
    assert RecordsOf(d.records) == RecordsOf(c.records)[..Covered(c.segments[..k])];
    forall i | 0 <= i < k
      ensures SegmentSound(env, policy, c.meta["series"], c.meta["ledger"], d.segments, RecordsOf(d.records), i)
    {
      CoveredIsMonotone(env, policy, c, i + 1, k);
      assert d.segments[..i + 1] == c.segments[..i + 1];
      SoundSegmentIsLocal(env, policy, c.meta["series"], c.meta["ledger"], c.segments, RecordsOf(c.records),
                          d.segments, RecordsOf(d.records), i);
    }
  }

  // ----------------------------------------------------- writing keeps it so

  lemma NewRowsHoldNewRecords(s: Session, before: seq<RecordRow>)
    requires s.persisted == |before| <= |s.records| && s.records[..s.persisted] == RecordsOf(before)
    ensures RecordsOf(before + NewRows(s)) == s.records
  {
    forall k | 0 <= k < |s.records| ensures RecordsOf(before + NewRows(s))[k] == s.records[k] {
      if k < s.persisted {
        assert s.records[..s.persisted][k] == RecordsOf(before)[k];
      }
    }
  }

  lemma NewSegmentIsSound(env: Env, policy: Policy, s: Session, segments: seq<SegmentRow>, now: string)
    requires SessionOk(env.ids, s) && s.bases != map[]
    requires KeysPass(env.sealing, policy, s.keys)
    requires |segments| == s.segments > 0 && Covered(segments) == s.persisted
    requires Grows(SegmentBases(segments[s.segments - 1]), s.bases)
    ensures SegmentSound(env, policy, s.series, s.ledger, segments + [NewSegment(env, s, now)], s.records, s.segments)
  {
    assert (segments + [NewSegment(env, s, now)])[..s.segments] == segments;
    assert s.records[..|s.records|] == s.records;
    assert s.records[s.persisted..] == s.records[s.persisted..|s.records|];
  }

  lemma OldSegmentsStaySound(env: Env, policy: Policy, c: Container, segments: seq<SegmentRow>, records: seq<Record>)
    requires DiskSound(env, policy, c)
    requires |c.segments| <= |segments| && segments[..|c.segments|] == c.segments
    requires |c.records| <= |records| && records[..|c.records|] == RecordsOf(c.records)
    ensures forall i :: 0 <= i < |c.segments| ==>
              SegmentSound(env, policy, c.meta["series"], c.meta["ledger"], segments, records, i)
  {
    forall i | 0 <= i < |c.segments|
      ensures SegmentSound(env, policy, c.meta["series"], c.meta["ledger"], segments, records, i)
    {
      CoveredIsMonotone(env, policy, c, i + 1, i + 1);
      var n := Covered(c.segments[..i + 1]);
      assert records[..n] == records[..|c.records|][..n];
      assert segments[..i + 1] == segments[..|c.segments|][..i + 1];
      SoundSegmentIsLocal(env, policy, c.meta["series"], c.meta["ledger"], c.segments, RecordsOf(c.records),
                          segments, records, i);
    }
  }

  /** A write appends the unwritten records, numbered on, and the one segment covering them. */
  lemma WriteShape(env: Env, s: Session, c: Container, now: string)
    requires s.persisted == |c.records| <= |s.records| && s.records[..s.persisted] == RecordsOf(c.records)
    requires NumberedTo(c.records, Covered(c.segments)) && Covered(c.segments) == |c.records|
    ensures var d := Write(env, s, Some(c), now).1;
            && d.meta == c.meta && d.segments == c.segments + [NewSegment(env, s, now)]
            && RecordsOf(d.records) == s.records && NumberedTo(d.records, Covered(d.segments))
  {
    var d := Write(env, s, Some(c), now).1;
    NewRowsHoldNewRecords(s, c.records);
    CoveredStep(d.segments, |c.segments|);
    assert d.segments[..|c.segments|] == c.segments && d.segments[..|c.segments| + 1] == d.segments;
  }

  lemma WriteKeepsDisk(env: Env, policy: Policy, s: Session, c: Container, now: string)
    requires DiskSound(env, policy, c) && WriterOn(env, policy, s, c) && SessionOk(env.ids, s)
    requires s.keys != []
    ensures var d := Write(env, s, Some(c), now).1;
            DiskSound(env, policy, d) && RecordsOf(d.records) == s.records && LastBases(d) == s.bases
  {
    var d := Write(env, s, Some(c), now).1;
    var m := |c.segments|;
    CoveredIsMonotone(env, policy, c, m, m);
    assert c.segments[..m] == c.segments;
    WriteShape(env, s, c, now);
    NewSegmentIsSound(env, policy, s, c.segments, now);
    assert d.segments[..m] == c.segments;
    OldSegmentsStaySound(env, policy, c, d.segments, s.records);
  }

  /** A created container is sound and its session is in step with it. */
  lemma CreatedIsSound(env: Env, policy: Policy, disk: Disk, e: Event)
    requires Lawful(env.ids) && e.ECreate? && EventPasses(env, policy, e)
    ensures var (after, r) := Create(env, disk, e.bases, e.series, e.ledger, e.keys, e.now);
            r.Ok? ==> after.container.Some? && DiskSound(env, policy, after.container.value)
                      && Attached(env, policy, r.value, after.container.value)
  {
    var (after, r) := Create(env, disk, e.bases, e.series, e.ledger, e.keys, e.now);
    if r.Ok? {
      var c := after.container.value;
      assert e.series != "" by {
        var f :| f in e.bases;
        assert env.ids.format(e.bases[f], e.series, 1).Some?;
      }
      assert Covered(c.segments[..0]) == 0;
      assert RecordsOf(c.records)[0..0] == [] == RecordsOf(c.records)[..0];
      assert SegmentSound(env, policy, e.series, e.ledger, c.segments, RecordsOf(c.records), 0);
      assert WriterOn(env, policy, r.value, c);
    }
  }

  lemma CreateKeepsInv(env: Env, policy: Policy, w: World, e: Event)
    requires Inv(env, policy, w) && e.ECreate? && EventPasses(env, policy, e)
    ensures Inv(env, policy, Step(env, w, e))
  {
    var (disk, r) := Create(env, w.disk, e.bases, e.series, e.ledger, e.keys, e.now);
    if r.Err? {
      assert Step(env, w, e) == w by { assert w.sessions + [] == w.sessions; }
    } else {
      CreatedIsSound(env, policy, w.disk, e);
      OneWriterJoined(w.sessions, false, r.value);
      assert w.sessions == [];
    }
  }

  /** A session loaded from a sound container is in step with it. */
  lemma LoadedIsWriterOn(env: Env, policy: Policy, c: Container, keys: seq<string>, readOnly: bool)
    requires DiskSound(env, policy, c) && (keys != [] ==> KeysPass(env.sealing, policy, keys))
    ensures WriterOn(env, policy, Loaded(c, keys, readOnly), c)
  {
    assert RecordsOf(c.records)[..|c.records|] == RecordsOf(c.records);
    assert SegmentSound(env, policy, c.meta["series"], c.meta["ledger"], c.segments, RecordsOf(c.records),
                        |c.segments| - 1);
  }

  /** Opening yields what is on disk, with or without new families. */
  lemma OpenLoads(env: Env, disk: Disk, e: Event)
    requires e.EOpen?
    ensures var r := Open(env, disk, e.keys, e.policy, e.expected, e.expectedSeries, e.readOnly).1;
            r.Ok? ==>
              && disk.container.Some? && disk.container.value.segments != [] && MetaOk(disk.container.value.meta)
              && var (c, s) := (disk.container.value, r.value);
                 && s == Loaded(c, e.keys, e.readOnly).(bases := s.bases, dirty := s.dirty)
                 && Grows(LastBases(c), s.bases) && (!s.dirty ==> s.bases == LastBases(c))
  {
  }

  lemma LoadedIsAttached(env: Env, policy: Policy, disk: Disk, e: Event)
    requires Lawful(env.ids) && e.EOpen? && EventPasses(env, policy, e)
    requires disk.container.Some? && DiskSound(env, policy, disk.container.value)
    ensures var r := Open(env, disk, e.keys, e.policy, e.expected, e.expectedSeries, e.readOnly).1;
            r.Ok? ==> Attached(env, policy, r.value, disk.container.value)
  {
    var r := Open(env, disk, e.keys, e.policy, e.expected, e.expectedSeries, e.readOnly).1;
    OpenKeeps(env, disk, e.keys, e.policy, e.expected, e.expectedSeries, e.readOnly);
    OpenLoads(env, disk, e);
    if r.Ok? {
      LoadedIsWriterOn(env, policy, disk.container.value, e.keys, e.readOnly);
      GrownIsWriterOn(env, policy, disk.container.value, Loaded(disk.container.value, e.keys, e.readOnly), r.value);
    }
  }

  lemma GrownIsWriterOn(env: Env, policy: Policy, c: Container, s: Session, t: Session)
    requires c.segments != [] && MetaOk(c.meta) && WriterOn(env, policy, s, c)
    requires t == s.(bases := t.bases, dirty := t.dirty) && s.persisted == |s.records| && s.bases == LastBases(c)
    requires Grows(LastBases(c), t.bases) && (!t.dirty ==> t.bases == LastBases(c))
    ensures WriterOn(env, policy, t, c)
  {
    var family :| family in s.bases;
    assert family in t.bases;
  }

  /** Opening takes the lock exactly for a writer, and touches nothing else on disk. */
  lemma OpenLocks(env: Env, disk: Disk, e: Event)
    requires e.EOpen?
    ensures var (after, r) := Open(env, disk, e.keys, e.policy, e.expected, e.expectedSeries, e.readOnly);
            && (r.Err? ==> after == disk)
            && (r.Ok? ==> disk.container.Some? && (IsWriter(r.value) ==> !disk.locked)
                          && after == disk.(locked := disk.locked || IsWriter(r.value)))
  {
  }

  lemma OpenKeepsInv(env: Env, policy: Policy, w: World, e: Event)
    requires Inv(env, policy, w) && e.EOpen? && EventPasses(env, policy, e)
    ensures Inv(env, policy, Step(env, w, e))
  {
    var (disk, r) := Open(env, w.disk, e.keys, e.policy, e.expected, e.expectedSeries, e.readOnly);
    OpenLocks(env, w.disk, e);
    if r.Err? {
      assert Step(env, w, e) == w by { assert w.sessions + [] == w.sessions; }
    } else {
      LoadedIsAttached(env, policy, w.disk, e);
      OneWriterJoined(w.sessions, w.disk.locked, r.value);
      assert Step(env, w, e) == World(disk, w.sessions + [r.value]);
    }
  }

  lemma MintKeepsIncrease(ids: IdScheme, s: Session, key: string, family: string, supersedes: Option<string>)
    requires SessionOk(ids, s) && NumbersIncrease(ids, s.records)
    ensures NumbersIncrease(ids, Mint(ids, s, key, family, supersedes).0.records)
  {
    var t := Mint(ids, s, key, family, supersedes).0;
    if t != s {
      forall i | 0 <= i < |s.records| && s.records[i].binding.Assigned? && s.records[i].binding.family == family
        ensures ids.parse(s.records[i].binding.id).Some?
        ensures ids.parse(s.records[i].binding.id).value.number <= HighestNumber(ids, s.records, family)
      {
        assert HeadOk(ids, s.records, s.bases, s.series, i);
        HighestBounds(ids, s.records, family, s.records[i]);
      }
    }
  }

  /** A call either changes nothing or appends one record in an open writer. */
  lemma CallAppends(env: Env, s: Session, e: Event) returns (t: Session)
    requires SessionOk(env.ids, s) && (e.EAssign? || e.EAlias?)
    ensures t == if e.EAssign? then Assign(env.ids, s, e.key, e.family, e.supersede).0
                 else Alias(s, e.key, e.target, e.supersede).0
    ensures SessionOk(env.ids, t)
    ensures t == s || (IsWriter(s) && |t.records| == |s.records| + 1 && t == Append(s, t.records[|s.records|])
                      && t.records[|s.records|].key == e.key
                      && t.records[|s.records|].supersedes.Some? == e.supersede)
    ensures NumbersIncrease(env.ids, s.records) ==> NumbersIncrease(env.ids, t.records)
  {
    if e.EAssign? {
      t := Assign(env.ids, s, e.key, e.family, e.supersede).0;
      AssignKeeps(env.ids, s, e.key, e.family, e.supersede);
      if NumbersIncrease(env.ids, s.records) && t != s {
        MintKeepsIncrease(env.ids, s, e.key, e.family, t.records[|s.records|].supersedes);
      }
    } else {
      t := Alias(s, e.key, e.target, e.supersede).0;
      AliasKeeps(env.ids, s, e.key, e.target, e.supersede);
    }
  }

  lemma AppendedIsWriterOn(env: Env, policy: Policy, s: Session, r: Record, c: Container)
    requires c.segments != [] && MetaOk(c.meta) && WriterOn(env, policy, s, c)
    requires NumbersIncrease(env.ids, Append(s, r).records)
    ensures WriterOn(env, policy, Append(s, r), c)
  {
    assert Append(s, r).records[..s.persisted] == s.records[..s.persisted];
  }

  lemma CallKeepsInv(env: Env, policy: Policy, w: World, e: Event)
    requires Inv(env, policy, w) && (e.EAssign? || e.EAlias?)
    ensures Inv(env, policy, Step(env, w, e))
  {
    if e.who < |w.sessions| {
      var s := w.sessions[e.who];
      var c := w.disk.container.value;
      assert Attached(env, policy, s, c);
      var t := CallAppends(env, s, e);
      OneWriterUpdated(w.sessions, w.disk.locked, e.who, t);
      if t != s {
        AppendedIsWriterOn(env, policy, s, t.records[|s.records|], c);
      }
      assert Attached(env, policy, t, c);
      assert Step(env, w, e) == w.(sessions := w.sessions[e.who := t]);
    }
  }

  lemma CloseKeepsInv(env: Env, policy: Policy, w: World, e: Event)
    requires Inv(env, policy, w) && e.EClose?
    ensures Inv(env, policy, Step(env, w, e))
  {
    if e.who < |w.sessions| {
      var s := w.sessions[e.who];
      var c := w.disk.container.value;
      assert Attached(env, policy, s, c);
      var (t, disk, _) := Close(env, s, w.disk, e.now);
      OneWriterUpdated(w.sessions, w.disk.locked, e.who, t);
      if IsWriter(s) && s.dirty && s.keys != [] {
        WriteKeepsDisk(env, policy, s, c, e.now);
        assert forall i :: 0 <= i < |w.sessions| && i != e.who ==> Attached(env, policy, w.sessions[i], c);
        assert forall i :: 0 <= i < |w.sessions| && i != e.who ==> !IsWriter(w.sessions[i]);
      }
    }
  }

  lemma StepKeepsInv(env: Env, policy: Policy, w: World, e: Event)
    requires Inv(env, policy, w) && EventPasses(env, policy, e)
    ensures Inv(env, policy, Step(env, w, e))
  {
    match e
    case ECreate(_, _, _, _, _) => CreateKeepsInv(env, policy, w, e);
    case EOpen(_, _, _, _, _) => OpenKeepsInv(env, policy, w, e);
    case EAssign(_, _, _, _) => CallKeepsInv(env, policy, w, e);
    case EAlias(_, _, _, _) => CallKeepsInv(env, policy, w, e);
    case EClose(_, _) => CloseKeepsInv(env, policy, w, e);
  }

  lemma {:induction false} RunKeepsInv(env: Env, policy: Policy, es: seq<Event>)
    requires Lawful(env.ids) && forall e :: e in es ==> EventPasses(env, policy, e)
    ensures Inv(env, policy, Run(env, EMPTY_WORLD, es))
  {
    if es != [] {
      RunKeepsInv(env, policy, es[..|es| - 1]);
      StepKeepsInv(env, policy, Run(env, EMPTY_WORLD, es[..|es| - 1]), es[|es| - 1]);
    }
  }
}
