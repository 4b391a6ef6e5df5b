/** The ledger object and its file, updated in place; every method is proved against `LedgerSpec`. */
module IdLedgers {
  import opened Common
  import opened LedgerFormat
  import Spec = LedgerSpec

  type LedgerError = Spec.LedgerError

  datatype LedgerBinding = LedgerBinding(id: string, family: string, isAlias: bool)

  /** The database file and the lock file beside it. */
  class LedgerFile {
    var container: Option<Container>
    var locked: bool

    function Abs(): Spec.Disk
      reads this
    {
      Spec.Disk(container, locked)
    }

    constructor ()
      ensures Abs() == Spec.Disk(None, false)
    {
      container := None;
      locked := false;
    }

    /** Creates the lock file exclusively. */
    method AcquireLock() returns (ok: bool)
      modifies this`locked
      ensures ok == !old(locked) && locked
    {
      if locked {
        return false;
      }
      locked := true;
      ok := true;
    }
  }

  class IdLedger {
    const env: Spec.Env
    const file: LedgerFile
    const series: string
    const ledger: string
    const keys: seq<string>
    const readOnly: bool
    const bases: map<string, string>
    var records: seq<Record>
    var live: map<string, Record>
    var persisted: nat
    var segments: nat
    var dirty: bool
    var closed: bool

    function Abs(): Spec.Session
      reads this
    {
      Spec.Session(bases, series, ledger, keys, records, live, persisted, segments, readOnly, dirty, closed)
    }

    ghost predicate Valid()
      reads this
    {
      Spec.SessionOk(env.ids, Abs())
    }

    /** Binds an already validated state to its file. */
    constructor (env: Spec.Env, file: LedgerFile, s: Spec.Session)
      ensures this.env == env && this.file == file && Abs() == s
    {
      this.env, this.file := env, file;
      bases, series, ledger, keys, readOnly := s.bases, s.series, s.ledger, s.keys, s.readOnly;
      records, live, persisted, segments := s.records, s.live, s.persisted, s.segments;
      dirty, closed := s.dirty, s.closed;
    }

    static method Create(env: Spec.Env, file: LedgerFile, bases: map<string, string>, series: string, ledger: string,
                         keys: seq<string>, now: string) returns (created: IdLedger?, error: Option<LedgerError>)
      requires Lawful(env.ids)
      modifies file
      ensures var (disk, outcome) := Spec.Create(env, old(file.Abs()), bases, series, ledger, keys, now);
              && file.Abs() == disk
              && match outcome
                 case Ok(s) => created != null && fresh(created) && created.Valid() && created.Abs() == s
                               && created.env == env && created.file == file && error == None
                 case Err(e) => created == null && error == Some(e)
    {
      created := null;
      if !Spec.BasesOk(env.ids, bases, series) {
        return null, Some(Spec.InvalidBases);
      }
      var acquired := file.AcquireLock();
      if !acquired {
        return null, Some(Spec.LockHeld);
      }
      if file.container.Some? {
        file.locked := false;
        return null, Some(Spec.Exists);
      }
      created := new IdLedger(env, file,
                              Spec.Session(bases, series, ledger, keys, [], map[], 0, 0, false, false, false));
      error := created.Write(now);
      if error.Some? {
        file.locked := false;
        created := null;
      }
    }

    static method Open(env: Spec.Env, file: LedgerFile, keys: seq<string>, policy: Policy,
                       expectedBases: Option<map<string, string>>, expectedSeries: Option<string>, readOnly: bool)
      returns (session: IdLedger?, error: Option<LedgerError>)
      requires Lawful(env.ids)
      modifies file
      ensures var (disk, outcome) :=
                Spec.Open(env, old(file.Abs()), keys, policy, expectedBases, expectedSeries, readOnly);
              && file.Abs() == disk
              && match outcome
                 case Ok(s) => session != null && fresh(session) && session.Valid() && session.Abs() == s
                               && session.env == env && session.file == file && error == None
                 case Err(e) => session == null && error == Some(e)
    {
      session := null;
      if !readOnly {
        var acquired := file.AcquireLock();
        if !acquired {
          return null, Some(Spec.LockHeld);
        }
      }
      session, error := OpenLocked(env, file, keys, policy, expectedBases, expectedSeries, readOnly);
      Spec.OpenKeeps(env, old(file.Abs()), keys, policy, expectedBases, expectedSeries, readOnly);
      if session == null && !readOnly {
        file.locked := false;
      }
    }

    /** The part of opening that runs under the lock. */
    static method OpenLocked(env: Spec.Env, file: LedgerFile, keys: seq<string>, policy: Policy,
                             expectedBases: Option<map<string, string>>, expectedSeries: Option<string>,
                             readOnly: bool)
      returns (session: IdLedger?, error: Option<LedgerError>)
      ensures var outcome :=
                Spec.Open(env, Spec.Disk(file.container, false), keys, policy, expectedBases, expectedSeries,
                          readOnly).1;
              match outcome
              case Ok(s) => session != null && fresh(session) && session.Abs() == s
                            && session.env == env && session.file == file && error == None
              case Err(e) => session == null && error == Some(e)
    {
      session := null;
      if file.container.None? {
        return null, Some(Spec.Missing);
      }
      var c := file.container.value;
      if !MetaOk(c.meta) {
        return null, Some(Spec.Rejected);
      }
      var ok := ValidateSegments(env.sealing, policy, c.meta["series"], c.meta["ledger"], c.segments, c.records);
      if !ok {
        return null, Some(Spec.Rejected);
      }
      var valid, live := ValidateEntries(env.ids, RecordsOf(c.records), LastBases(c), c.meta["series"]);
      if !valid {
        return null, Some(Spec.Rejected);
      }
      var s := Spec.Loaded(c, keys, readOnly).(live := live);
      if expectedSeries.Some? && expectedSeries.value != s.series {
        return null, Some(Spec.SeriesMismatch);
      }
      if expectedBases.Some? {
        var extended := Spec.ExtendBases(env.ids, s.bases, expectedBases.value, s.series);
        if extended.Err? {
          return null, Some(extended.error);
        }
        if extended.value.1 && readOnly {
          return null, Some(Spec.ReadOnlyGrowth);
        }
        s := s.(bases := extended.value.0, dirty := extended.value.1);
      }
      session := new IdLedger(env, file, s);
      error := None;
    }

    method Assign(key: string, family: string, supersede: bool) returns (r: Result<string, LedgerError>)
      requires Valid()
      modifies this
      ensures Valid()
      ensures (Abs(), r) == Spec.Assign(env.ids, old(Abs()), key, family, supersede)
    {
      Spec.AssignKeeps(env.ids, Abs(), key, family, supersede);
      if closed {
        return Err(Spec.Closed);
      }
      if readOnly {
        return Err(Spec.ReadOnly);
      }
      if key !in live {
        if supersede {
          return Err(Spec.SupersedeNewKey);
        }
        r := Mint(key, family, None);
        return;
      }
      match live[key].binding {
        case Assigned(f, id) =>
          if supersede {
            return Err(Spec.SupersedeWrongKind);
          }
          if f != family {
            return Err(Spec.OtherFamily);
          }
          return Ok(id);
        case AliasOf(target) =>
          if !supersede {
            return Err(Spec.KeyIsAliased);
          }
          r := Mint(key, family, Some(target));
      }
    }

    method Alias(key: string, existing: string, supersede: bool) returns (r: Result<(), LedgerError>)
      requires Valid()
      modifies this
      ensures Valid()
      ensures (Abs(), r) == Spec.Alias(old(Abs()), key, existing, supersede)
    {
      Spec.AliasKeeps(env.ids, Abs(), key, existing, supersede);
      if closed {
        return Err(Spec.Closed);
      }
      if readOnly {
        return Err(Spec.ReadOnly);
      }
      if key in live && live[key].binding.Assigned? {
        if !supersede {
          return Err(Spec.KeyIsAssigned);
        }
        if existing == live[key].binding.id {
          return Err(Spec.SupersedeItself);
        }
        if existing !in AssignedIds(records) {
          return Err(Spec.UnknownTarget);
        }
        AppendRecord(Record(key, AliasOf(existing), Some(live[key].binding.id)));
        return Ok(());
      }
      if key in live {
        if supersede {
          return Err(Spec.SupersedeWrongKind);
        }
        if live[key].binding.target != existing {
          return Err(Spec.OtherTarget);
        }
        return Ok(());
      }
      if supersede {
        return Err(Spec.SupersedeNewKey);
      }
      if existing !in AssignedIds(records) {
        return Err(Spec.UnknownTarget);
      }
      AppendRecord(Record(key, AliasOf(existing), None));
      r := Ok(());
    }

    method LookupId(key: string) returns (id: Option<string>)
      requires Valid()
      ensures id == Lookup(records, key)
    {
      id := if key in live then Some(LiveId(live[key])) else None;
    }

    /** Every live key with the id it resolves to and the family that id was assigned in. */
    method Bindings() returns (out: map<string, LedgerBinding>)
      requires Valid()
      ensures out.Keys == live.Keys
      ensures forall key :: key in out ==>
        && Lookup(records, key) == Some(out[key].id)
        && out[key].isAlias == live[key].binding.AliasOf?
        && exists r :: r in records && r.binding == Assigned(out[key].family, out[key].id)
    {
      var families: map<string, string> := map[];
      var i := 0;
      while i < |records|
        invariant 0 <= i <= |records|
        invariant families.Keys == AssignedIds(records[..i])
        invariant forall id :: id in families ==> exists r :: r in records && r.binding == Assigned(families[id], id)
      {
        PrefixStep(records, i);
        assert records[i] in records;
        if records[i].binding.Assigned? {
          families := families[records[i].binding.id := records[i].binding.family];
        }
        i := i + 1;
      }
      assert records[..i] == records;
      forall key | key in live ensures live[key] in records && TargetOk(records, live[key]) {
        LiveIsRecord(records, key);
        var j :| 0 <= j < |records| && records[j] == live[key];
        assert TargetOk(records, records[j]);
      }
      out := map[];
      var pending := live.Keys;
      while pending != {}
        invariant pending <= live.Keys && out.Keys == live.Keys - pending
        invariant forall key :: key in out ==>
          && out[key].id == LiveId(live[key])
          && out[key].isAlias == live[key].binding.AliasOf?
          && exists r :: r in records && r.binding == Assigned(out[key].family, out[key].id)
        decreases pending
      {
        var key :| key in pending;
        var id := LiveId(live[key]);
        var isAlias := live[key].binding.AliasOf?;
        var family := if isAlias then families[id] else live[key].binding.family;
        out := out[key := LedgerBinding(id, family, isAlias)];
        pending := pending - {key};
      }
    }

    method Close(now: string) returns (error: Option<LedgerError>)
      requires Valid()
      modifies this, file
      ensures Valid()
      ensures var (s, disk, outcome) := Spec.Close(env, old(Abs()), old(file.Abs()), now);
              Abs() == s && file.Abs() == disk && error == (if outcome.Ok? then None else Some(outcome.error))
    {
      if closed {
        return None;
      }
      if readOnly {
        closed := true;
        return None;
      }
      if dirty {
        error := Write(now);
        if error.Some? {
          return;
        }
      }
      closed := true;
      file.locked := false;
      error := None;
    }

    // -- internals

    method Mint(key: string, family: string, supersedes: Option<string>) returns (r: Result<string, LedgerError>)
      requires Valid()
      modifies this
      ensures (Abs(), r) == Spec.Mint(env.ids, old(Abs()), key, family, supersedes)
    {
      if family !in bases {
        return Err(Spec.NoBase);
      }
      var highest := NextNumber(family);
      var id := env.ids.format(bases[family], series, highest + 1);
      if id.None? {
        return Err(Spec.MalformedId);
      }
      AppendRecord(Record(key, Assigned(family, id.value), supersedes));
      r := Ok(id.value);
    }

    method AppendRecord(r: Record)
      modifies this
      ensures Abs() == Spec.Append(old(Abs()), r)
    {
      records := records + [r];
      live := live[r.key := r];
      dirty := true;
    }

    method NextNumber(family: string) returns (highest: nat)
      ensures highest == Spec.HighestNumber(env.ids, records, family)
    {
      highest := 0;
      var i := 0;
      while i < |records|
        invariant 0 <= i <= |records|
        invariant highest == Spec.HighestNumber(env.ids, records[..i], family)
      {
        assert records[..i + 1][..i] == records[..i];
        var r := records[i];
        if r.binding.Assigned? && r.binding.family == family {
          var parsed := env.ids.parse(r.binding.id);
          if parsed.Some? && parsed.value.number > highest {
            highest := parsed.value.number;
          }
        }
        i := i + 1;
      }
      assert records[..i] == records;
    }

    /** Inserts the new rows and the segment that signs them, then commits. */
    method Write(now: string) returns (error: Option<LedgerError>)
      requires persisted <= |records|
      modifies this, file
      ensures file.locked == old(file.locked)
      ensures keys == [] ==> error == Some(Spec.NoSigningKey) && Abs() == old(Abs()) && file.Abs() == old(file.Abs())
      ensures keys != [] ==>
        var (s, c) := Spec.Write(env, old(Abs()), old(file.container), now);
        error == None && Abs() == s && file.container == Some(c)
    {
      if keys == [] {
        return Some(Spec.NoSigningKey);
      }
      var segment := Spec.NewSegment(env, Abs(), now);
      var c := if file.container.Some? then file.container.value
               else Container(Spec.StandardMeta(series, ledger), [], []);
      ghost var before := c.records;
      var offset := 0;
      while offset < |records| - persisted
        invariant 0 <= offset <= |records| - persisted
        invariant c.meta == (if file.container.Some? then file.container.value.meta
                             else Spec.StandardMeta(series, ledger))
        invariant c.segments == if file.container.Some? then file.container.value.segments else []
        invariant c.records == before + Spec.NewRows(Abs())[..offset]
      {
        c := c.(records := c.records + [RecordRow(persisted + 1 + offset, records[persisted + offset])]);
        offset := offset + 1;
      }
      assert Spec.NewRows(Abs())[..offset] == Spec.NewRows(Abs());
      c := c.(segments := c.segments + [segment]);
      file.container := Some(c);
      persisted := |records|;
      segments := segments + 1;
      dirty := false;
      error := None;
    }
  }
}
