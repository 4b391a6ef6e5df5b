/** When a lease is granted, taken over and given back, told from the documents that a run passes through. */
module LeaseGrants {
  import opened Common
  import opened Leases

  /** The writer has a heartbeat younger than the cutoff. */
  predicate IsYoung(cutoff: nat, s: State, w: nat) { w in s.writers && s.now - s.writers[w] < cutoff }

  /** The fsck document has no heartbeat younger than the cutoff. */
  predicate IsExpired(cutoff: nat, s: State) {
    s.fsck.Some? && (s.fsck.value.heartbeat.None? || s.now - s.fsck.value.heartbeat.value >= cutoff)
  }

  // ------------------------------------------------------------------ grants

  /** Before step `n` the fsck last listed the fresh writers at step `m`. */
  predicate LastListing(states: seq<State>, steps: seq<Step>, m: nat, n: nat, p: nat)
    requires |states| == |steps| + 1
  {
    && m < n <= |steps| && steps[m] == ListFresh(p) && At(states[m], p) == FsckListing
    && forall i :: m < i < n ==> steps[i] != ListFresh(p) || At(states[i], p) != FsckListing
  }

  lemma {:induction false} ListingIsRemembered(cutoff: nat, states: seq<State>, steps: seq<Step>, n: nat, p: nat)
    requires Execution(cutoff, states, steps) && n <= |steps| && At(states[n], p).FsckJudging?
    ensures exists m: nat :: LastListing(states, steps, m, n, p)
                             && At(states[n], p).seen == FreshWriters(cutoff, states[m])
  {
    assert n > 0;
    var s, step := states[n - 1], steps[n - 1];
    if At(s, p).FsckJudging? {
      ListingIsRemembered(cutoff, states, steps, n - 1, p);
      var m: nat :| LastListing(states, steps, m, n - 1, p) && At(s, p).seen == FreshWriters(cutoff, states[m]);
      OthersStay(cutoff, s, step, p);
      assert LastListing(states, steps, m, n, p);
    } else {
      OthersStay(cutoff, s, step, p);
      assert LastListing(states, steps, n - 1, n, p);
    }
  }

  predicate AllYoung(cutoff: nat, s: State, writers: set<nat>) {
    forall w :: w in writers ==> IsYoung(cutoff, s, w)
  }

  /** An fsck that judges is granted exactly when it is forced or every writer document still there was young
      when it last listed them; otherwise it leaves. */
  lemma JudgmentIsExact(cutoff: nat, states: seq<State>, steps: seq<Step>, n: nat, p: nat)
    requires Execution(cutoff, states, steps) && n < |steps|
    requires steps[n] == Judge(p) && At(states[n], p).FsckJudging?
    ensures exists m: nat :: LastListing(states, steps, m, n, p)
              && At(states[n + 1], p)
                 == if states[n].processes[p].force || AllYoung(cutoff, states[m], states[n].writers.Keys)
                    then FsckGranted else FsckLeaving
  {
    ListingIsRemembered(cutoff, states, steps, n, p);
    var m: nat :| LastListing(states, steps, m, n, p) && At(states[n], p).seen == FreshWriters(cutoff, states[m]);
    assert forall w :: w in FreshWriters(cutoff, states[m]) <==> IsYoung(cutoff, states[m], w);
    if w :| w in states[n].writers && !IsYoung(cutoff, states[m], w) {
      assert w in states[n].writers.Keys - At(states[n], p).seen;
    } else {
      assert states[n].writers.Keys - At(states[n], p).seen == {};
    }
  }

  /** Nothing else grants an fsck: it waits until no writer is young, lists the writers and judges. */
  lemma FsckGrantsAreJudged(cutoff: nat, s: State, step: Step, p: nat)
    ensures At(s, p) != FsckGranted && At(Next(cutoff, s, step), p) == FsckGranted ==>
              step == Judge(p) && At(s, p).FsckJudging?
    ensures !At(s, p).FsckJudging? && At(Next(cutoff, s, step), p).FsckJudging? ==>
              step == ListFresh(p) && At(s, p) == FsckListing
    ensures At(s, p) != FsckListing && At(Next(cutoff, s, step), p) == FsckListing <==>
              step == PollFresh(p) && At(s, p) == FsckPolling && forall w :: w in s.writers ==> !IsYoung(cutoff, s, w)
  {
    OthersStay(cutoff, s, step, p);
    assert forall w :: w in FreshWriters(cutoff, s) <==> IsYoung(cutoff, s, w);
    assert FreshWriters(cutoff, s) == {} <==> forall w :: w in s.writers ==> !IsYoung(cutoff, s, w);
  }

  /** A writer is granted exactly when it finds a layout and no fsck document after its insert, and leaves when
      it finds otherwise. */
  lemma WriterGrantIsExact(cutoff: nat, s: State, step: Step, p: nat)
    ensures At(s, p) != WriterGranted && At(Next(cutoff, s, step), p) == WriterGranted <==>
              step == WriterCheck(p, true) && At(s, p) == WriterInserted && s.fsck.None?
    ensures step.WriterCheck? && step.p == p && At(s, p) == WriterInserted ==>
              At(Next(cutoff, s, step), p) in {WriterGranted, WriterLeaving}
  {
    OthersStay(cutoff, s, step, p);
  }

  // --------------------------------------------------------------- documents

  /** Only forced fscks try to replace a document. */
  lemma {:induction false} ReplacersAreForced(cutoff: nat, states: seq<State>, steps: seq<Step>, n: nat, p: nat)
    requires Execution(cutoff, states, steps) && n <= |steps| && At(states[n], p) == FsckReplacing
    ensures states[n].processes[p].force
  {
    assert n > 0;
    OthersStay(cutoff, states[n - 1], steps[n - 1], p);
    if At(states[n - 1], p) == FsckReplacing {
      ReplacersAreForced(cutoff, states, steps, n - 1, p);
    }
  }

  function Owner(s: State): Option<nat> {
    if s.fsck.None? then None else Some(s.fsck.value.owner)
  }

  /** How the lock document changes hands, and in no other way: inserted where there is none, taken over from
      an expired owner by a forced fsck, given back by its owner, or cleared when expired. */
  lemma DocumentChangesHands(cutoff: nat, states: seq<State>, steps: seq<Step>, n: nat)
    requires Execution(cutoff, states, steps) && n < |steps| && Owner(states[n + 1]) != Owner(states[n])
    ensures Owner(states[n + 1]).None? ==>
              steps[n] == Release(states[n].fsck.value.owner)
              || (steps[n] == ClearStaleLock && IsExpired(cutoff, states[n]))
    ensures Owner(states[n + 1]).Some? ==>
              var p := Owner(states[n + 1]).value;
              || (steps[n] == FsckInsert(p) && At(states[n], p) == FsckStart && states[n].fsck.None?)
              || (steps[n] == ForceReplace(p) && At(states[n], p) == FsckReplacing
                  && states[n].processes[p].force && IsExpired(cutoff, states[n]))
  {
    if steps[n].ForceReplace? && At(states[n], steps[n].p) == FsckReplacing {
      ReplacersAreForced(cutoff, states, steps, n, steps[n].p);
    }
  }

  /** An fsck that asks for the document has it afterwards, or is gone unless a forced one may yet replace it:
      an insert gets it exactly when there is none, a replacement exactly when it has expired. */
  lemma AskingIsAnswered(cutoff: nat, s: State, step: Step, p: nat)
    requires (step == FsckInsert(p) && At(s, p) == FsckStart) || (step == ForceReplace(p) && At(s, p) == FsckReplacing)
    ensures var t := Next(cutoff, s, step);
            && (At(t, p) == FsckInstalled <==> if step.FsckInsert? then s.fsck.None? else IsExpired(cutoff, s))
            && (At(t, p) == FsckInstalled ==> Owns(t, p))
            && (At(t, p) == FsckReplacing <==> step.FsckInsert? && s.fsck.Some? && s.processes[p].force)
            && (At(t, p) in {FsckInstalled, FsckReplacing, Gone}) && (At(t, p) != FsckInstalled ==> t.fsck == s.fsck)
  {
  }

  /** Heartbeats are their owners' own: a lasting document's heartbeat moves only when its owner refreshes it,
      to the present, and a refresh by its owner always does that. */
  lemma HeartbeatsAreOwn(cutoff: nat, s: State, step: Step)
    ensures var t := Next(cutoff, s, step);
            Owner(t) == Owner(s) && t.fsck != s.fsck ==> step.Refresh? || step.ForceReplace?
    ensures var t := Next(cutoff, s, step);
            Owner(t).Some? && t.fsck != s.fsck && !step.FsckInsert? ==> t.fsck.value.heartbeat == Some(s.now)
    ensures step.Refresh? && At(s, step.p) in {FsckInstalled, FsckPolling, FsckGranted} && Owns(s, step.p) ==>
              Next(cutoff, s, step).fsck == Some(FsckDoc(step.p, Some(s.now)))
    ensures var t := Next(cutoff, s, step);
            forall w :: w in t.writers && (w in s.writers ==> t.writers[w] != s.writers[w]) ==>
              step in {WriterInsert(w), Refresh(w)} && t.writers[w] == s.now
    ensures step.Refresh? && At(s, step.p) == WriterGranted && step.p in s.writers ==>
              Next(cutoff, s, step).writers == s.writers[step.p := s.now]
  {
  }

  /** A writer whose document is missing at a refresh leaves instead of writing a new one, and a refresh is
      nothing to a process that holds no lease. */
  lemma RefreshNeedsADocument(cutoff: nat, s: State, p: nat)
    ensures At(s, p) == WriterGranted && p !in s.writers ==>
              At(Next(cutoff, s, Refresh(p)), p) == WriterLeaving && Next(cutoff, s, Refresh(p)).writers == s.writers
    ensures At(s, p) !in {WriterGranted, FsckInstalled, FsckPolling, FsckGranted} ==> Next(cutoff, s, Refresh(p)) == s
  {
  }

  // ---------------------------------------------------------------- leaving

  /** A process that is gone has left nothing behind: no writer document and no lock document. */
  lemma {:induction false} GoneLeavesNothing(cutoff: nat, states: seq<State>, steps: seq<Step>, n: nat, p: nat)
    requires Execution(cutoff, states, steps) && n <= |steps|
    ensures At(states[n], p) == Gone ==> p !in states[n].writers && !Owns(states[n], p)
    ensures Owns(states[n], p) ==> Holds(states[n], p) || At(states[n], p) in {FsckInstalled, FsckLeaving}
  {
    ExecutionKeepsAccounted(cutoff, states, steps, n);
    if n > 0 {
      GoneLeavesNothing(cutoff, states, steps, n - 1, p);
      OthersStay(cutoff, states[n - 1], steps[n - 1], p);
    }
  }

  /** A failed acquisition leaves, a granted or leaving process is gone after its release, and a writer's
      document goes in no other way. */
  lemma ReleaseLeaves(cutoff: nat, s: State, step: Step)
    ensures step.Fault? && At(s, step.p) == WriterInserted ==> At(Next(cutoff, s, step), step.p) == WriterLeaving
    ensures step.Fault? && (Holds(s, step.p) || At(s, step.p) == FsckInstalled) && At(s, step.p) != FsckGranted ==>
              At(Next(cutoff, s, step), step.p) == FsckLeaving
    ensures step.Release? && At(s, step.p) in {WriterGranted, WriterLeaving, FsckGranted, FsckLeaving} ==>
              At(Next(cutoff, s, step), step.p) == Gone
    ensures forall w :: w in s.writers && w !in Next(cutoff, s, step).writers ==>
              step == Release(w) && At(s, w) in {WriterGranted, WriterLeaving}
  {
  }
}
