/** What the ledger's calls answer and leave behind, told from the records alone. */
module LedgerCalls {
  import opened Common
  import opened LedgerFormat
  import opened LedgerSpec

  /** Record `i` is the newest one of its key. */
  predicate Newest(records: seq<Record>, i: nat, key: string) {
    i < |records| && records[i].key == key && forall j :: i < j < |records| ==> records[j].key != key
  }

  predicate IsUnknown(records: seq<Record>, key: string) {
    forall i :: 0 <= i < |records| ==> records[i].key != key
  }

  ghost predicate IsAlias(records: seq<Record>, key: string, target: string) {
    exists i: nat :: Newest(records, i, key) && records[i].binding == AliasOf(target)
  }

  ghost predicate IsAssigned(records: seq<Record>, key: string, family: string, id: string) {
    exists i: nat :: Newest(records, i, key) && records[i].binding == Assigned(family, id)
  }

  /** A lookup goes by the newest record of the key, whatever came before it. */
  lemma {:induction false} LookupIsNewest(records: seq<Record>, key: string)
    ensures Lookup(records, key).None? <==> IsUnknown(records, key)
    ensures key in LiveMap(records) <==> !IsUnknown(records, key)
    ensures forall i: nat :: Newest(records, i, key) ==>
              LiveMap(records)[key] == records[i] && Lookup(records, key) == Some(LiveId(records[i]))
    ensures !IsUnknown(records, key) ==> exists i: nat :: Newest(records, i, key)
  {
    if records != [] {
      var n := |records| - 1;
      LookupIsNewest(records[..n], key);
      if records[n].key == key {
        assert Newest(records, n, key);
      } else {
        forall i: nat | Newest(records, i, key) ensures Newest(records[..n], i, key) {
        }
        if !IsUnknown(records, key) {
          var i: nat :| Newest(records[..n], i, key);
          assert Newest(records, i, key);
        }
      }
    }
  }

  /** The high-water mark is zero or the number of an id of the family. */
  lemma {:induction false} HighestIsHeld(ids: IdScheme, records: seq<Record>, family: string)
    ensures HighestNumber(ids, records, family) == 0
         || exists r :: r in records && r.binding.Assigned? && r.binding.family == family
                        && ids.parse(r.binding.id).Some?
                        && ids.parse(r.binding.id).value.number == HighestNumber(ids, records, family)
  {
    if records != [] {
      SplitLast(records);
      HighestIsHeld(ids, records[..|records| - 1], family);
    }
  }

  /** The newest record of a key is what the live map holds. */
  lemma LiveBinding(records: seq<Record>, key: string)
    ensures forall t :: IsAlias(records, key, t) <==>
              key in LiveMap(records) && LiveMap(records)[key].binding == AliasOf(t)
    ensures forall f, id :: IsAssigned(records, key, f, id) <==>
              key in LiveMap(records) && LiveMap(records)[key].binding == Assigned(f, id)
  {
    LookupIsNewest(records, key);
  }

  lemma BoundIdIsAssigned(ids: IdScheme, s: Session, key: string)
    requires SessionOk(ids, s) && key in s.live
    ensures LiveId(s.live[key]) in AssignedIds(s.records)
  {
    LiveIsRecord(s.records, key);
    var i :| 0 <= i < |s.records| && s.records[i] == s.live[key];
    assert TargetOk(s.records, s.records[i]);
  }

  /** The newest record of a ledger is what its key is bound to. */
  lemma AppendBinds(s: Session, t: Session, r: Record)
    requires t.records == s.records + [r]
    ensures r.binding.AliasOf? ==> IsAlias(t.records, r.key, r.binding.target)
    ensures r.binding.Assigned? ==> IsAssigned(t.records, r.key, r.binding.family, r.binding.id)
    ensures Lookup(t.records, r.key) == Some(LiveId(r))
    ensures AssignedIds(t.records) == AssignedIds(s.records) + (if r.binding.Assigned? then {r.binding.id} else {})
  {
    AppendKeepsPrefixes(s.records, r);
    assert Newest(t.records, |s.records|, r.key) && t.records[|s.records|] == r;
  }

  // ------------------------------------------------------------------- alias

  /** When a key may be aliased to an id. */
  ghost predicate MayAlias(s: Session, key: string, existing: string, supersede: bool) {
    && !s.closed && !s.readOnly
    && if IsUnknown(s.records, key) then !supersede && existing in AssignedIds(s.records)
       else if IsAlias(s.records, key, existing) then !supersede
       else supersede && existing in AssignedIds(s.records)
            && exists family, id :: IsAssigned(s.records, key, family, id) && id != existing
  }

  /** Aliasing succeeds for an open, writable ledger in three cases: a new key and an assigned id, an alias
      asked for again, and an assignment told to give way to another assigned id. The key then is an alias
      of exactly that id and resolves to it; no id is assigned by the call, and a refusal changes nothing. */
  lemma AliasIsExact(ids: IdScheme, s: Session, key: string, existing: string, supersede: bool)
    requires SessionOk(ids, s)
    ensures var (t, r) := Alias(s, key, existing, supersede);
            && (r.Ok? <==> MayAlias(s, key, existing, supersede))
            && (r.Ok? ==> IsAlias(t.records, key, existing) && Lookup(t.records, key) == Some(existing)
                          && existing in AssignedIds(t.records))
            && AssignedIds(t.records) == AssignedIds(s.records) && (r.Err? ==> t == s)
  {
    LookupIsNewest(s.records, key);
    LiveBinding(s.records, key);
    if key in s.live {
      BoundIdIsAssigned(ids, s, key);
    }
    var t := Alias(s, key, existing, supersede).0;
    if t != s {
      AppendBinds(s, t, t.records[|s.records|]);
    }
  }

  // ------------------------------------------------------------------ assign

  /** A new id of the family can be printed. */
  predicate CanMint(ids: IdScheme, s: Session, family: string) {
    family in s.bases && ids.format(s.bases[family], s.series, HighestNumber(ids, s.records, family) + 1).Some?
  }

  /** When a key may be assigned in a family. */
  ghost predicate MayAssign(ids: IdScheme, s: Session, key: string, family: string, supersede: bool) {
    && !s.closed && !s.readOnly
    && if IsUnknown(s.records, key) then !supersede && CanMint(ids, s, family)
       else if supersede then CanMint(ids, s, family) && exists target :: IsAlias(s.records, key, target)
       else exists id :: IsAssigned(s.records, key, family, id)
  }

  /** Minting, where it is possible, binds the key to a new id of the family. */
  lemma MintBinds(ids: IdScheme, s: Session, key: string, family: string, supersedes: Option<string>)
    requires SessionOk(ids, s)
    ensures var (t, r) := Mint(ids, s, key, family, supersedes);
            && (r.Ok? <==> CanMint(ids, s, family)) && (r.Err? ==> t == s)
            && (r.Ok? ==> IsAssigned(t.records, key, family, r.value) && Lookup(t.records, key) == Some(r.value)
                          && IsMinted(ids, s, family, r.value))
  {
    if CanMint(ids, s, family) {
      var (t, r) := Mint(ids, s, key, family, supersedes);
      AppendBinds(s, t, Record(key, Assigned(family, r.value), supersedes));
      FreshIdIsNew(ids, s, family);
    }
  }

  /** Assigning succeeds for an open, writable ledger in three cases: a new key, an alias told to give way,
      and an assignment asked for again in its own family. The key then is assigned the returned id in that
      family: the one it had, or the family's next number under the family's base, which no record had. */
  lemma AssignIsExact(ids: IdScheme, s: Session, key: string, family: string, supersede: bool)
    requires SessionOk(ids, s)
    ensures var (t, r) := Assign(ids, s, key, family, supersede);
            && (r.Ok? <==> MayAssign(ids, s, key, family, supersede))
            && (r.Ok? ==> IsAssigned(t.records, key, family, r.value) && Lookup(t.records, key) == Some(r.value))
            && (r.Ok? && !IsAssigned(s.records, key, family, r.value) ==> IsMinted(ids, s, family, r.value))
            && (r.Err? || IsAssigned(s.records, key, family, r.value) ==> t == s)
  {
    LookupIsNewest(s.records, key);
    LiveBinding(s.records, key);
    if key in s.live {
      BoundIdIsAssigned(ids, s, key);
    }
    MintBinds(ids, s, key, family, Lookup(s.records, key));
  }

  /** An id that no record has, with the number after the family's highest. */
  predicate IsMinted(ids: IdScheme, s: Session, family: string, id: string) {
    && id !in AssignedIds(s.records) && family in s.bases
    && ids.parse(id) == Some(ParsedId(s.bases[family], s.series, HighestNumber(ids, s.records, family) + 1))
  }
}
