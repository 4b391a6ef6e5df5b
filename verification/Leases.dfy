/**
 The writer/fsck lease handshake over shared MongoDB documents, as a transition system with one step
 per database operation and a server clock. A writer inserts its document and then looks for the
 fsck document; an fsck installs its document and then waits for fresh writers to drain.

 A process is named by a number that stands for its unique owner token. Refreshing may happen at any
 time a lease is held: the client-side throttle only decides when.
 */
module Leases {
  import opened Common

  datatype FsckDoc = FsckDoc(owner: nat, heartbeat: Option<int>)

  /** Where a process stands between two operations. */
  datatype Pc =
    | WriterStart | WriterInserted | WriterGranted | WriterLeaving
    | FsckStart | FsckReplacing | FsckInstalled | FsckPolling | FsckListing | FsckJudging(seen: set<nat>)
    | FsckGranted | FsckLeaving
    | Gone

  datatype Process = Process(pc: Pc, force: bool)

  datatype State = State(now: int, fsck: Option<FsckDoc>, writers: map<nat, int>, processes: map<nat, Process>)

  datatype Step =
    | Tick(ms: nat)
    | WriterInsert(p: nat)
    | WriterCheck(p: nat, hasLayout: bool)
    | FsckInsert(p: nat)
    | ForceReplace(p: nat)
    | PollFresh(p: nat)
    | ListFresh(p: nat)
    | Judge(p: nat)
    | Refresh(p: nat)
    | Fault(p: nat)
    | Release(p: nat)
    | ClearStaleLock

  predicate Fresh(cutoff: nat, now: int, heartbeat: int) { heartbeat > now - cutoff }

  /** The server orders a null heartbeat below every date, so a null heartbeat counts as stale. */
  predicate StaleDoc(cutoff: nat, s: State) {
    s.fsck.Some? && (s.fsck.value.heartbeat.Some? ==> !Fresh(cutoff, s.now, s.fsck.value.heartbeat.value))
  }

  function FreshWriters(cutoff: nat, s: State): set<nat> {
    set w | w in s.writers && Fresh(cutoff, s.now, s.writers[w])
  }

  predicate Owns(s: State, p: nat) { s.fsck.Some? && s.fsck.value.owner == p }

  function At(s: State, p: nat): Pc {
    if p in s.processes then s.processes[p].pc else Gone
  }

  function Goto(s: State, p: nat, pc: Pc): State
    requires p in s.processes
  {
    s.(processes := s.processes[p := s.processes[p].(pc := pc)])
  }

  /** One operation; a step that its process is not ready for changes nothing. */
  function Next(cutoff: nat, s: State, step: Step): State {
    match step
    case Tick(ms) => s.(now := s.now + ms)
    case WriterInsert(p) =>
      if At(s, p) != WriterStart then s else Goto(s.(writers := s.writers[p := s.now]), p, WriterInserted)
    case WriterCheck(p, hasLayout) =>
      if At(s, p) != WriterInserted then s
      else Goto(s, p, if s.fsck.Some? || !hasLayout then WriterLeaving else WriterGranted)
    case FsckInsert(p) =>
      if At(s, p) != FsckStart then s
      else if s.fsck.None? then Goto(s.(fsck := Some(FsckDoc(p, None))), p, FsckInstalled)
      else Goto(s, p, if s.processes[p].force then FsckReplacing else Gone)
    case ForceReplace(p) =>
      if At(s, p) != FsckReplacing then s
      else if StaleDoc(cutoff, s) then Goto(s.(fsck := Some(FsckDoc(p, Some(s.now)))), p, FsckInstalled)
      else Goto(s, p, Gone)
    case PollFresh(p) =>
      if At(s, p) != FsckPolling || FreshWriters(cutoff, s) != {} then s else Goto(s, p, FsckListing)
    case ListFresh(p) =>
      if At(s, p) != FsckListing then s else Goto(s, p, FsckJudging(FreshWriters(cutoff, s)))
    case Judge(p) =>
      if !At(s, p).FsckJudging? then s
      else if s.writers.Keys - At(s, p).seen != {} && !s.processes[p].force then Goto(s, p, FsckLeaving)
      else Goto(s, p, FsckGranted)
    case Refresh(p) =>
      (match At(s, p)
       case WriterGranted =>
         if p in s.writers then s.(writers := s.writers[p := s.now]) else Goto(s, p, WriterLeaving)
       case FsckInstalled => if Owns(s, p) then Goto(Beat(s, p), p, FsckPolling) else Goto(s, p, FsckLeaving)
       case FsckPolling => if Owns(s, p) then Beat(s, p) else Goto(s, p, FsckLeaving)
       case FsckGranted => if Owns(s, p) then Beat(s, p) else Goto(s, p, FsckLeaving)
       case _ => s)
    case Fault(p) =>
      (match At(s, p)
       case WriterInserted => Goto(s, p, WriterLeaving)
       case FsckInstalled => Goto(s, p, FsckLeaving)
       case FsckPolling => Goto(s, p, FsckLeaving)
       case FsckListing => Goto(s, p, FsckLeaving)
       case FsckJudging(_) => Goto(s, p, FsckLeaving)
       case _ => s)
    case Release(p) =>
      (match At(s, p)
       case WriterGranted => Goto(s.(writers := s.writers - {p}), p, Gone)
       case WriterLeaving => Goto(s.(writers := s.writers - {p}), p, Gone)
       case FsckGranted => Goto(if Owns(s, p) then s.(fsck := None) else s, p, Gone)
       case FsckLeaving => Goto(if Owns(s, p) then s.(fsck := None) else s, p, Gone)
       case _ => s)
    case ClearStaleLock => if StaleDoc(cutoff, s) then s.(fsck := None) else s
  }

  function Beat(s: State, p: nat): State {
    s.(fsck := Some(FsckDoc(p, Some(s.now))))
  }

  /** Any interleaving of steps, with the states it passes through. */
  ghost predicate Execution(cutoff: nat, states: seq<State>, steps: seq<Step>) {
    && |states| == |steps| + 1 && Initial(states[0])
    && forall i :: 0 <= i < |steps| ==> states[i + 1] == Next(cutoff, states[i], steps[i])
  }

  /** No leases yet; any number of writers and fscks about to start. */
  ghost predicate Initial(s: State) {
    s.fsck.None? && s.writers == map[] && forall p :: p in s.processes ==> At(s, p) in {WriterStart, FsckStart, Gone}
  }

  // ------------------------------------------------------------ assumptions

  /** An fsck that has refreshed its document and not given up. */
  predicate Holds(s: State, p: nat) {
    At(s, p) in {FsckPolling, FsckListing, FsckGranted} || At(s, p).FsckJudging?
  }

  /** Nobody's lock document goes stale under it: whenever a document may be taken away for being
      stale, its owner is not an fsck that still relies on it. */
  predicate HolderFresh(cutoff: nat, s: State, step: Step) {
    (step.ForceReplace? && At(s, step.p) == FsckReplacing) || step.ClearStaleLock? ==>
      !(StaleDoc(cutoff, s) && Holds(s, s.fsck.value.owner))
  }

  /** Every granted writer has a fresh heartbeat whenever an fsck polls for fresh ones. */
  ghost predicate WritersFresh(cutoff: nat, s: State, step: Step) {
    step.PollFresh? && At(s, step.p) == FsckPolling ==>
      forall w :: At(s, w) == WriterGranted && w in s.writers ==> Fresh(cutoff, s.now, s.writers[w])
  }

  ghost predicate Fair(cutoff: nat, states: seq<State>, steps: seq<Step>)
    requires |states| == |steps| + 1
  {
    forall i :: 0 <= i < |steps| ==>
      HolderFresh(cutoff, states[i], steps[i]) && WritersFresh(cutoff, states[i], steps[i])
  }

  // --------------------------------------------------------------- exclusion

  ghost predicate Inv(s: State) {
    && (forall w :: At(s, w) in {WriterInserted, WriterGranted} ==> w in s.writers)
    && (forall f :: Holds(s, f) ==> Owns(s, f) && s.fsck.value.heartbeat.Some?)
    && (forall f, w :: Holds(s, f) && At(s, f) != FsckPolling ==> At(s, w) != WriterGranted)
  }

  /** A step moves only its own process. */
  lemma OthersStay(cutoff: nat, s: State, step: Step, q: nat)
    ensures step.Tick? || step.ClearStaleLock? || step.p != q ==> At(Next(cutoff, s, step), q) == At(s, q)
  {
  }

  lemma WritersStayRegistered(cutoff: nat, s: State, step: Step, w: nat)
    requires Inv(s) && At(Next(cutoff, s, step), w) in {WriterInserted, WriterGranted}
    ensures w in Next(cutoff, s, step).writers
  {
    OthersStay(cutoff, s, step, w);
  }

  lemma HoldersStayOwners(cutoff: nat, s: State, step: Step, f: nat)
    requires Inv(s) && HolderFresh(cutoff, s, step) && Holds(Next(cutoff, s, step), f)
    ensures Owns(Next(cutoff, s, step), f) && Next(cutoff, s, step).fsck.value.heartbeat.Some?
    ensures At(Next(cutoff, s, step), f) != FsckPolling ==> Holds(s, f)
  {
    OthersStay(cutoff, s, step, f);
    if Holds(s, f) {
      assert Owns(s, f);
    }
  }

  /** Past its freshness read an fsck shares no state with a granted writer. */
  lemma GrantsStayApart(cutoff: nat, s: State, step: Step, f: nat, w: nat)
    requires Inv(s) && HolderFresh(cutoff, s, step) && WritersFresh(cutoff, s, step)
    requires Holds(Next(cutoff, s, step), f) && At(Next(cutoff, s, step), f) != FsckPolling
    ensures At(Next(cutoff, s, step), w) != WriterGranted
  {
    OthersStay(cutoff, s, step, f);
    OthersStay(cutoff, s, step, w);
    HoldersStayOwners(cutoff, s, step, f);
    assert Owns(s, f);
    assert step == PollFresh(f) && At(s, w) == WriterGranted && w in s.writers ==> w in FreshWriters(cutoff, s);
  }

  lemma NextKeepsInv(cutoff: nat, s: State, step: Step)
    requires Inv(s) && HolderFresh(cutoff, s, step) && WritersFresh(cutoff, s, step)
    ensures Inv(Next(cutoff, s, step))
  {
    var t := Next(cutoff, s, step);
    forall w | At(t, w) in {WriterInserted, WriterGranted} ensures w in t.writers {
      WritersStayRegistered(cutoff, s, step, w);
    }
    forall f | Holds(t, f) ensures Owns(t, f) && t.fsck.value.heartbeat.Some? {
      HoldersStayOwners(cutoff, s, step, f);
    }
    forall f, w | Holds(t, f) && At(t, f) != FsckPolling ensures At(t, w) != WriterGranted {
      GrantsStayApart(cutoff, s, step, f, w);
    }
  }

  lemma {:induction false} ExecutionKeepsInv(cutoff: nat, states: seq<State>, steps: seq<Step>, n: nat)
    requires Execution(cutoff, states, steps) && Fair(cutoff, states, steps) && n <= |steps|
    ensures Inv(states[n])
  {
    if n > 0 {
      ExecutionKeepsInv(cutoff, states, steps, n - 1);
      NextKeepsInv(cutoff, states[n - 1], steps[n - 1]);
    }
  }

  /** While heartbeats stay fresh, a granted fsck is alone: no granted writer, no second granted fsck. */
  lemma Exclusion(cutoff: nat, states: seq<State>, steps: seq<Step>, n: nat, p: nat, q: nat)
    requires Execution(cutoff, states, steps) && Fair(cutoff, states, steps) && n <= |steps|
    requires At(states[n], p) == FsckGranted
    ensures At(states[n], q) != WriterGranted
    ensures At(states[n], q) == FsckGranted ==> p == q
    ensures Owns(states[n], p)
  {
    ExecutionKeepsInv(cutoff, states, steps, n);
    GrantedIsAlone(states[n], p, q);
  }

  lemma GrantedIsAlone(t: State, p: nat, q: nat)
    requires Inv(t) && At(t, p) == FsckGranted
    ensures At(t, q) != WriterGranted && (At(t, q) == FsckGranted ==> p == q) && Owns(t, p)
  {
    assert Holds(t, p);
    if At(t, q) == FsckGranted {
      assert Holds(t, q);
    }
  }

  // --------------------------------------------- when an assumption is broken

  /** The state after some steps. */
  function Run(cutoff: nat, s: State, steps: seq<Step>): State {
    if steps == [] then s else Next(cutoff, Run(cutoff, s, steps[..|steps| - 1]), steps[|steps| - 1])
  }

  ghost predicate CanReach(cutoff: nat, s: State, t: State) {
    exists steps: seq<Step> :: Run(cutoff, s, steps) == t
  }

  lemma ReachStep(cutoff: nat, s: State, t: State, step: Step)
    requires CanReach(cutoff, s, t)
    ensures CanReach(cutoff, s, Next(cutoff, t, step))
  {
    var steps :| Run(cutoff, s, steps) == t;
    assert (steps + [step])[..|steps|] == steps;
    assert Run(cutoff, s, steps + [step]) == Next(cutoff, t, step);
  }

  /** Every writer document belongs to a writer that can still leave. */
  predicate Accounted(s: State) {
    forall w :: w in s.writers ==> At(s, w) in {WriterInserted, WriterGranted, WriterLeaving}
  }

  lemma {:induction false} ExecutionKeepsAccounted(cutoff: nat, states: seq<State>, steps: seq<Step>, n: nat)
    requires Execution(cutoff, states, steps) && n <= |steps|
    ensures Accounted(states[n])
  {
    if n > 0 {
      ExecutionKeepsAccounted(cutoff, states, steps, n - 1);
      var s, step := states[n - 1], steps[n - 1];
      forall w | w in states[n].writers ensures At(states[n], w) in {WriterInserted, WriterGranted, WriterLeaving} {
        OthersStay(cutoff, s, step, w);
      }
    }
  }

  lemma WriterLeaves(cutoff: nat, start: State, s: State, w: nat) returns (t: State)
    requires CanReach(cutoff, start, s) && Accounted(s) && w in s.writers
    ensures CanReach(cutoff, start, t) && Accounted(t) && t.now == s.now && t.writers == s.writers - {w}
    ensures forall q :: q != w ==> At(t, q) == At(s, q)
  {
    var leaving := Next(cutoff, s, Fault(w));
    ReachStep(cutoff, start, s, Fault(w));
    ReachStep(cutoff, start, leaving, Release(w));
    t := Next(cutoff, leaving, Release(w));
    forall q | q != w ensures At(t, q) == At(s, q) {
      OthersStay(cutoff, s, Fault(w), q);
      OthersStay(cutoff, leaving, Release(w), q);
    }
  }

  lemma OneFewer(all: set<nat>, keep: set<nat>, w: nat)
    requires w in all && w !in keep
    ensures |all - {w} - keep| < |all - keep|
  {
    assert all - {w} - keep == (all - keep) - {w};
  }

  /** All writers but some can leave, and nobody else moves. */
  lemma {:induction false} WritersCanLeave(cutoff: nat, start: State, s: State, keep: set<nat>) returns (t: State)
    requires CanReach(cutoff, start, s) && Accounted(s)
    ensures CanReach(cutoff, start, t) && t.now == s.now
    ensures t.writers.Keys == s.writers.Keys * keep && forall w :: w in t.writers ==> t.writers[w] == s.writers[w]
    ensures forall q :: q !in s.writers || q in keep ==> At(t, q) == At(s, q)
    decreases |s.writers.Keys - keep|
  {
    t := s;
    if exists w :: w in s.writers && w !in keep {
      var w :| w in s.writers && w !in keep;
      OneFewer(s.writers.Keys, keep, w);
      t := WriterLeaves(cutoff, start, s, w);
      assert t.writers.Keys == s.writers.Keys - {w};
      t := WritersCanLeave(cutoff, start, t, keep);
    }
  }

  /** All writers that could delay the fsck are gone, or fresh when it lists the fresh ones. */
  predicate Unopposed(cutoff: nat, s: State, p: nat) {
    || s.writers == map[] || At(s, p) == FsckGranted
    || (At(s, p) == FsckListing && FreshWriters(cutoff, s) == s.writers.Keys)
    || (At(s, p).FsckJudging? && At(s, p).seen == s.writers.Keys)
  }

  function StepsLeft(pc: Pc): nat {
    match pc
    case FsckPolling => 3
    case FsckListing => 2
    case FsckJudging(_) => 1
    case _ => 0
  }

  lemma HolderAdvances(cutoff: nat, start: State, s: State, p: nat) returns (t: State)
    requires CanReach(cutoff, start, s) && Holds(s, p) && At(s, p) != FsckGranted && Unopposed(cutoff, s, p)
    ensures CanReach(cutoff, start, t) && t.writers == s.writers && (forall q :: q != p ==> At(t, q) == At(s, q))
    ensures Holds(t, p) && Unopposed(cutoff, t, p) && StepsLeft(At(t, p)) < StepsLeft(At(s, p))
  {
    assert s.writers == map[] ==> FreshWriters(cutoff, s) == {};
    var pc := At(s, p);
    var step := if pc == FsckPolling then PollFresh(p) else if pc == FsckListing then ListFresh(p) else Judge(p);
    ReachStep(cutoff, start, s, step);
    t := Next(cutoff, s, step);
  }

  /** An fsck that has refreshed its document is granted then, whoever owns the document by now. */
  lemma {:induction false} HolderIsGranted(cutoff: nat, start: State, s: State, p: nat) returns (t: State)
    requires CanReach(cutoff, start, s) && Holds(s, p) && Unopposed(cutoff, s, p)
    ensures CanReach(cutoff, start, t) && t.writers == s.writers && At(t, p) == FsckGranted
    ensures forall q :: q != p ==> At(t, q) == At(s, q)
    decreases StepsLeft(At(s, p))
  {
    t := s;
    if At(s, p) != FsckGranted {
      t := HolderAdvances(cutoff, start, s, p);
      t := HolderIsGranted(cutoff, start, t, p);
    }
  }

  /** The step takes a stale document from an fsck that relies on it, for another fsck or before one starts. */
  predicate TakesOver(cutoff: nat, s: State, step: Step, p: nat) {
    && !HolderFresh(cutoff, s, step)
    && (step == ForceReplace(p) || (step == ClearStaleLock && At(s, p) == FsckStart))
  }

  /** An fsck step that leaves the writers alone. */
  lemma FsckMoves(cutoff: nat, start: State, s: State, step: Step, p: nat)
    requires CanReach(cutoff, start, s) && Accounted(s) && At(s, p) in {FsckStart, FsckReplacing, FsckInstalled}
    requires step in {ForceReplace(p), FsckInsert(p), Refresh(p), ClearStaleLock}
    ensures CanReach(cutoff, start, Next(cutoff, s, step)) && Accounted(Next(cutoff, s, step))
    ensures forall q :: q != p ==> At(Next(cutoff, s, step), q) == At(s, q)
  {
    ReachStep(cutoff, start, s, step);
    forall q | q != p ensures At(Next(cutoff, s, step), q) == At(s, q) {
      OthersStay(cutoff, s, step, q);
    }
  }

  lemma Clears(cutoff: nat, start: State, s: State, p: nat) returns (t: State)
    requires CanReach(cutoff, start, s) && Accounted(s) && At(s, p) == FsckStart && StaleDoc(cutoff, s)
    ensures CanReach(cutoff, start, t) && Accounted(t) && At(t, p) == FsckStart && t.fsck.None?
    ensures forall q :: q != p ==> At(t, q) == At(s, q)
  {
    FsckMoves(cutoff, start, s, ClearStaleLock, p);
    t := Next(cutoff, s, ClearStaleLock);
  }

  lemma Installs(cutoff: nat, start: State, s: State, step: Step, p: nat) returns (t: State)
    requires CanReach(cutoff, start, s) && Accounted(s)
    requires (step == ForceReplace(p) && At(s, p) == FsckReplacing && StaleDoc(cutoff, s))
             || (step == FsckInsert(p) && At(s, p) == FsckStart && s.fsck.None?)
    ensures CanReach(cutoff, start, t) && Accounted(t) && At(t, p) == FsckInstalled && Owns(t, p)
    ensures forall q :: q != p ==> At(t, q) == At(s, q)
  {
    FsckMoves(cutoff, start, s, step, p);
    t := Next(cutoff, s, step);
  }

  lemma StartsPolling(cutoff: nat, start: State, s: State, p: nat) returns (t: State)
    requires CanReach(cutoff, start, s) && Accounted(s) && At(s, p) == FsckInstalled && Owns(s, p)
    ensures CanReach(cutoff, start, t) && Accounted(t) && At(t, p) == FsckPolling
    ensures forall q :: q != p ==> At(t, q) == At(s, q)
  {
    FsckMoves(cutoff, start, s, Refresh(p), p);
    t := Next(cutoff, s, Refresh(p));
  }

  /** The successor installs its own document and starts to poll. */
  lemma SuccessorPolls(cutoff: nat, s: State, step: Step, p: nat) returns (t: State)
    requires Accounted(s) && TakesOver(cutoff, s, step, p)
    ensures CanReach(cutoff, s, t) && Accounted(t) && At(t, p) == FsckPolling
    ensures forall q :: q != p ==> At(t, q) == At(s, q)
  {
    assert Run(cutoff, s, []) == s;
    if step == ClearStaleLock {
      t := Clears(cutoff, s, s, p);
      t := Installs(cutoff, s, t, FsckInsert(p), p);
    } else {
      t := Installs(cutoff, s, s, step, p);
    }
    t := StartsPolling(cutoff, s, t, p);
  }

  /** Wherever an fsck loses its document this way, two fscks can be granted at once. */
  lemma LostDocumentGrantsTwo(cutoff: nat, states: seq<State>, steps: seq<Step>, step: Step, p: nat)
    requires Execution(cutoff, states, steps) && TakesOver(cutoff, states[|steps|], step, p)
    ensures var f := states[|steps|].fsck.value.owner;
            f != p && exists t :: CanReach(cutoff, states[|steps|], t)
                                  && At(t, f) == FsckGranted && At(t, p) == FsckGranted
  {
    var s := states[|steps|];
    ExecutionKeepsAccounted(cutoff, states, steps, |steps|);
    var t := SuccessorPolls(cutoff, s, step, p);
    t := WritersCanLeave(cutoff, s, t, {});
    t := HolderIsGranted(cutoff, s, t, p);
    t := HolderIsGranted(cutoff, s, t, s.fsck.value.owner);
  }

  /** Wherever a poll misses a granted writer, an fsck can be granted beside it. */
  lemma MissedWriterStaysGranted(cutoff: nat, states: seq<State>, steps: seq<Step>, p: nat)
    requires Execution(cutoff, states, steps) && cutoff > 0
    requires FreshWriters(cutoff, states[|steps|]) == {}
    requires !WritersFresh(cutoff, states[|steps|], PollFresh(p))
    ensures exists t, w :: CanReach(cutoff, states[|steps|], t)
                           && At(t, w) == WriterGranted && At(t, p) == FsckGranted
  {
    var s := states[|steps|];
    var w :| At(s, w) == WriterGranted && w in s.writers;
    ExecutionKeepsAccounted(cutoff, states, steps, |steps|);
    assert Run(cutoff, s, []) == s;
    var t := PollMisses(cutoff, s, s, p, w);
    t := WriterRefreshes(cutoff, s, t, w);
    t := WritersCanLeave(cutoff, s, t, {w});
    assert FreshWriters(cutoff, t) == t.writers.Keys;
    t := HolderIsGranted(cutoff, s, t, p);
  }

  lemma PollMisses(cutoff: nat, start: State, s: State, p: nat, w: nat) returns (t: State)
    requires CanReach(cutoff, start, s) && Accounted(s) && At(s, p) == FsckPolling && FreshWriters(cutoff, s) == {}
    requires At(s, w) == WriterGranted
    ensures CanReach(cutoff, start, t) && Accounted(t) && t.writers == s.writers
    ensures At(t, p) == FsckListing && At(t, w) == WriterGranted
  {
    t := Next(cutoff, s, PollFresh(p));
    ReachStep(cutoff, start, s, PollFresh(p));
    assert forall q :: q != p ==> At(t, q) == At(s, q);
  }

  lemma WriterRefreshes(cutoff: nat, start: State, s: State, w: nat) returns (t: State)
    requires CanReach(cutoff, start, s) && Accounted(s) && At(s, w) == WriterGranted && w in s.writers
    ensures CanReach(cutoff, start, t) && Accounted(t) && t.writers == s.writers[w := s.now] && t.now == s.now
    ensures forall q :: At(t, q) == At(s, q)
  {
    t := Next(cutoff, s, Refresh(w));
    ReachStep(cutoff, start, s, Refresh(w));
  }

  // ------------------------------------------------------------ displacement

  /** An fsck whose document was taken over or cleared, and which has not left yet. */
  predicate Displaced(s: State, p: nat) {
    && (Holds(s, p) || At(s, p) in {FsckInstalled, FsckLeaving})
    && !Owns(s, p)
  }

  lemma NextKeepsDisplaced(cutoff: nat, s: State, step: Step, p: nat)
    requires Displaced(s, p)
    ensures Displaced(Next(cutoff, s, step), p) || At(Next(cutoff, s, step), p) == Gone
    ensures step == Refresh(p) && At(s, p) in {FsckInstalled, FsckPolling, FsckGranted} ==>
              At(Next(cutoff, s, step), p) == FsckLeaving
    ensures step == Release(p) || step == Refresh(p) ==> Next(cutoff, s, step).fsck == s.fsck
  {
    var t := Next(cutoff, s, step);
    if !step.Tick? && !step.ClearStaleLock? && step.p != p {
      assert At(t, p) == At(s, p);
    }
  }

  lemma GoneIsFinal(cutoff: nat, s: State, step: Step, p: nat)
    requires At(s, p) == Gone
    ensures At(Next(cutoff, s, step), p) == Gone
  {
    if !step.Tick? && !step.ClearStaleLock? && step.p != p {
      assert At(Next(cutoff, s, step), p) == At(s, p);
    }
  }

  lemma {:induction false} DisplacedForGood(cutoff: nat, states: seq<State>, steps: seq<Step>, m: nat, n: nat, p: nat)
    requires Execution(cutoff, states, steps) && m <= n <= |steps| && Displaced(states[m], p)
    ensures Displaced(states[n], p) || At(states[n], p) == Gone
    decreases n
  {
    if m < n {
      DisplacedForGood(cutoff, states, steps, m, n - 1, p);
      if Displaced(states[n - 1], p) {
        NextKeepsDisplaced(cutoff, states[n - 1], steps[n - 1], p);
      } else {
        GoneIsFinal(cutoff, states[n - 1], steps[n - 1], p);
      }
    }
  }

  /** A displaced fsck never gets the lock document back, with or without the freshness assumptions:
      its next refresh makes it leave, and none of its own steps touches another owner's document. */
  lemma DisplacedIsHarmless(cutoff: nat, states: seq<State>, steps: seq<Step>, m: nat, n: nat, p: nat)
    requires Execution(cutoff, states, steps) && m <= n < |steps| && Displaced(states[m], p)
    ensures !Owns(states[n], p) || At(states[n], p) == Gone
    ensures steps[n] == Refresh(p) ==>
              At(states[n + 1], p) !in {FsckPolling, FsckGranted} && states[n + 1].fsck == states[n].fsck
    ensures steps[n] == Release(p) ==> states[n + 1].fsck == states[n].fsck
  {
    DisplacedForGood(cutoff, states, steps, m, n, p);
    if Displaced(states[n], p) {
      NextKeepsDisplaced(cutoff, states[n], steps[n], p);
    }
  }

  // ------------------------------------------- why the assumptions are needed

  /** Freshness asked only of granted fscks. */
  predicate GrantedHolderFresh(cutoff: nat, s: State, step: Step) {
    step.ForceReplace? || step.ClearStaleLock? ==>
      !(StaleDoc(cutoff, s) && At(s, s.fsck.value.owner) == FsckGranted)
  }

  /** The first fsck pauses between a refresh and a poll for as long as a lease takes to go stale. */
  const PAUSED_POLLER := [
    FsckInsert(1), Refresh(1), Tick(8000), FsckInsert(2), ForceReplace(2), Refresh(2),
    PollFresh(2), ListFresh(2), Judge(2), PollFresh(1), ListFresh(1), Judge(1)]

  function TwoFscks(now: int, doc: Option<FsckDoc>, first: Pc, second: Pc): State {
    State(now, doc, map[], map[1 := Process(first, false), 2 := Process(second, true)])
  }

  function PausedStates(): seq<State> {
    var first, second := Some(FsckDoc(1, Some(0))), Some(FsckDoc(2, Some(8000)));
    [ TwoFscks(0, None, FsckStart, FsckStart),
      TwoFscks(0, Some(FsckDoc(1, None)), FsckInstalled, FsckStart),
      TwoFscks(0, first, FsckPolling, FsckStart),
      TwoFscks(8000, first, FsckPolling, FsckStart),
      TwoFscks(8000, first, FsckPolling, FsckReplacing),
      TwoFscks(8000, second, FsckPolling, FsckInstalled),
      TwoFscks(8000, second, FsckPolling, FsckPolling),
      TwoFscks(8000, second, FsckPolling, FsckListing),
      TwoFscks(8000, second, FsckPolling, FsckJudging({})),
      TwoFscks(8000, second, FsckPolling, FsckGranted),
      TwoFscks(8000, second, FsckListing, FsckGranted),
      TwoFscks(8000, second, FsckJudging({}), FsckGranted),
      TwoFscks(8000, second, FsckGranted, FsckGranted) ]
  }

  /** Two processes, one of which moves. */
  lemma TwoMove(now: int, doc: Option<FsckDoc>, first: Pc, second: Pc, pc: Pc)
    ensures Goto(TwoFscks(now, doc, first, second), 1, pc) == TwoFscks(now, doc, pc, second)
    ensures Goto(TwoFscks(now, doc, first, second), 2, pc) == TwoFscks(now, doc, first, pc)
    ensures FreshWriters(8000, TwoFscks(now, doc, first, second)) == {}
  {
  }

  lemma PausedStep(i: nat)
    requires i < 12
    ensures PausedStates()[i + 1] == Next(8000, PausedStates()[i], PAUSED_POLLER[i])
  {
    if i < 3 {
      PausedEarly(i);
    } else if i < 5 {
      PausedReplace(i);
    } else if i == 5 {
      PausedTakeover();
    } else if i < 9 {
      PausedSecond(i);
    } else {
      PausedFirst(i);
    }
  }

  lemma PausedEarly(i: nat)
    requires i < 3
    ensures PausedStates()[i + 1] == Next(8000, PausedStates()[i], PAUSED_POLLER[i])
  {
    TwoMove(0, Some(FsckDoc(1, None)), FsckStart, FsckStart, FsckInstalled);
    TwoMove(0, Some(FsckDoc(1, Some(0))), FsckInstalled, FsckStart, FsckPolling);
  }

  lemma PausedReplace(i: nat)
    requires 3 <= i < 5
    ensures PausedStates()[i + 1] == Next(8000, PausedStates()[i], PAUSED_POLLER[i])
  {
    if i == 3 {
      assert PausedStates()[4] == Next(8000, PausedStates()[3], PAUSED_POLLER[3]);
    } else {
      assert PausedStates()[5] == Next(8000, PausedStates()[4], PAUSED_POLLER[4]);
    }
  }

  lemma PausedTakeover()
    ensures PausedStates()[6] == Next(8000, PausedStates()[5], PAUSED_POLLER[5])
  {
    TwoMove(8000, Some(FsckDoc(2, Some(8000))), FsckPolling, FsckInstalled, FsckPolling);
  }

  lemma PausedSecond(i: nat)
    requires 6 <= i < 9
    ensures PausedStates()[i + 1] == Next(8000, PausedStates()[i], PAUSED_POLLER[i])
  {
    var doc := Some(FsckDoc(2, Some(8000)));
    TwoMove(8000, doc, FsckPolling, FsckPolling, FsckListing);
    TwoMove(8000, doc, FsckPolling, FsckListing, FsckJudging({}));
    TwoMove(8000, doc, FsckPolling, FsckJudging({}), FsckGranted);
  }

  lemma PausedFirst(i: nat)
    requires 9 <= i < 12
    ensures PausedStates()[i + 1] == Next(8000, PausedStates()[i], PAUSED_POLLER[i])
  {
    var doc := Some(FsckDoc(2, Some(8000)));
    TwoMove(8000, doc, FsckPolling, FsckGranted, FsckListing);
    TwoMove(8000, doc, FsckListing, FsckGranted, FsckJudging({}));
    TwoMove(8000, doc, FsckJudging({}), FsckGranted, FsckGranted);
  }

  /** Keeping only granted fscks fresh is not enough: one that pauses while still polling is displaced
      and then granted without noticing, beside its successor. */
  lemma PollingFsckMustStayFresh()
    ensures Execution(8000, PausedStates(), PAUSED_POLLER)
    ensures forall i :: 0 <= i < |PAUSED_POLLER| ==>
              GrantedHolderFresh(8000, PausedStates()[i], PAUSED_POLLER[i])
              && WritersFresh(8000, PausedStates()[i], PAUSED_POLLER[i])
    ensures At(PausedStates()[12], 1) == FsckGranted && At(PausedStates()[12], 2) == FsckGranted
  {
    forall i | 0 <= i < |PAUSED_POLLER|
      ensures PausedStates()[i + 1] == Next(8000, PausedStates()[i], PAUSED_POLLER[i])
    {
      PausedStep(i);
    }
  }

  /** The writer's heartbeat is stale at the first freshness read and fresh at the second. */
  const LATE_HEARTBEAT := [
    WriterInsert(1), WriterCheck(1, true), Tick(8000), FsckInsert(2), Refresh(2),
    PollFresh(2), Refresh(1), ListFresh(2), Judge(2)]

  function WriterAndFsck(now: int, doc: Option<FsckDoc>, writers: map<nat, int>, first: Pc, second: Pc): State {
    State(now, doc, writers, map[1 := Process(first, false), 2 := Process(second, false)])
  }

  function LateStates(): seq<State> {
    var doc := Some(FsckDoc(2, Some(8000)));
    [ WriterAndFsck(0, None, map[], WriterStart, FsckStart),
      WriterAndFsck(0, None, map[1 := 0], WriterInserted, FsckStart),
      WriterAndFsck(0, None, map[1 := 0], WriterGranted, FsckStart),
      WriterAndFsck(8000, None, map[1 := 0], WriterGranted, FsckStart),
      WriterAndFsck(8000, Some(FsckDoc(2, None)), map[1 := 0], WriterGranted, FsckInstalled),
      WriterAndFsck(8000, doc, map[1 := 0], WriterGranted, FsckPolling),
      WriterAndFsck(8000, doc, map[1 := 0], WriterGranted, FsckListing),
      WriterAndFsck(8000, doc, map[1 := 8000], WriterGranted, FsckListing),
      WriterAndFsck(8000, doc, map[1 := 8000], WriterGranted, FsckJudging({1})),
      WriterAndFsck(8000, doc, map[1 := 8000], WriterGranted, FsckGranted) ]
  }

  lemma LateMove(now: int, doc: Option<FsckDoc>, writers: map<nat, int>, first: Pc, second: Pc, pc: Pc)
    ensures Goto(WriterAndFsck(now, doc, writers, first, second), 1, pc) == WriterAndFsck(now, doc, writers, pc, second)
    ensures Goto(WriterAndFsck(now, doc, writers, first, second), 2, pc) == WriterAndFsck(now, doc, writers, first, pc)
    ensures writers == map[1 := 0] ==> FreshWriters(8000, WriterAndFsck(8000, doc, writers, first, second)) == {}
    ensures writers == map[1 := 8000] ==> FreshWriters(8000, WriterAndFsck(8000, doc, writers, first, second)) == {1}
  {
  }

  lemma LateWriter(i: nat)
    requires i < 3
    ensures LateStates()[i + 1] == Next(8000, LateStates()[i], LATE_HEARTBEAT[i])
  {
    LateMove(0, None, map[1 := 0], WriterStart, FsckStart, WriterInserted);
    LateMove(0, None, map[1 := 0], WriterInserted, FsckStart, WriterGranted);
  }

  lemma LateFsck(i: nat)
    requires 3 <= i < 5
    ensures LateStates()[i + 1] == Next(8000, LateStates()[i], LATE_HEARTBEAT[i])
  {
    LateMove(8000, Some(FsckDoc(2, None)), map[1 := 0], WriterGranted, FsckStart, FsckInstalled);
    LateMove(8000, Some(FsckDoc(2, Some(8000))), map[1 := 0], WriterGranted, FsckInstalled, FsckPolling);
  }

  lemma LatePoll()
    ensures LateStates()[6] == Next(8000, LateStates()[5], LATE_HEARTBEAT[5])
  {
    LateMove(8000, Some(FsckDoc(2, Some(8000))), map[1 := 0], WriterGranted, FsckPolling, FsckListing);
  }

  lemma LateGrant(i: nat)
    requires 6 <= i < 9
    ensures LateStates()[i + 1] == Next(8000, LateStates()[i], LATE_HEARTBEAT[i])
  {
    var doc := Some(FsckDoc(2, Some(8000)));
    assert map[1 := 0][1 := 8000] == map[1 := 8000];
    LateMove(8000, doc, map[1 := 8000], WriterGranted, FsckListing, FsckJudging({1}));
    LateMove(8000, doc, map[1 := 8000], WriterGranted, FsckJudging({1}), FsckGranted);
  }

  /** Without the assumption on writers, one that goes stale and refreshes between the two freshness
      reads is missed by both: an unforced fsck is granted beside it. */
  lemma WriterMustStayFresh()
    ensures Execution(8000, LateStates(), LATE_HEARTBEAT)
    ensures forall i :: 0 <= i < |LATE_HEARTBEAT| ==> HolderFresh(8000, LateStates()[i], LATE_HEARTBEAT[i])
    ensures At(LateStates()[9], 1) == WriterGranted && At(LateStates()[9], 2) == FsckGranted
  {
    forall i | 0 <= i < |LATE_HEARTBEAT|
      ensures LateStates()[i + 1] == Next(8000, LateStates()[i], LATE_HEARTBEAT[i])
    {
      if i < 3 { LateWriter(i); } else if i < 5 { LateFsck(i); } else if i == 5 { LatePoll(); } else { LateGrant(i); }
    }
  }
}
