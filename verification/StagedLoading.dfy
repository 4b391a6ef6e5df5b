/**
 Loading Parquet shards into ClickHouse stages, where an acknowledgement may be lost, a count may stay
 unanswered and rows may land late.
 */
module StagedLoading {
  import opened Common

  type Row = int

  type Shard = seq<Row>

  /** What an insert does with its block: the rows in the stage when it returns, those still on their way,
      and whether the client hears that it succeeded. Other rows of the block are lost. */
  datatype Outcome = Outcome(landed: multiset<Row>, late: multiset<Row>, acknowledged: bool)

  /** A server, by the number of the operation: what an insert does, whether a count is answered, and
      which rows on their way land just before it. Rows that land between two operations on a stage land
      before the second one. */
  datatype Service = Service(insert: (nat, Shard) -> Outcome, answers: nat -> bool, arrives: nat -> multiset<Row>)

  /** An insert puts nothing into a stage but rows of its block, each at most once. */
  ghost predicate ServiceOk(svc: Service) {
    forall n: nat, rows: Shard :: FromBlock(svc.insert(n, rows), rows)
  }

  predicate FromBlock(o: Outcome, rows: Shard) { o.landed + o.late <= multiset(rows) }

  /** The rows in a stage, and the rows on their way to it. */
  datatype Stage = Stage(rows: multiset<Row>, pending: multiset<Row>)

  const EMPTY := Stage(multiset{}, multiset{})

  /** All rows a stage has received or may still receive. */
  function Sent(s: Stage): multiset<Row> { s.rows + s.pending }

  datatype LoadError = StageExists | Uncertain | FailedCleanly

  datatype Verdict = Done | Failed(error: LoadError)

  // ------------------------------------------------------------ what runs do

  function Arrive(svc: Service, s: Stage, n: nat): Stage {
    var now := svc.arrives(n) * s.pending;
    Stage(s.rows + now, s.pending - now)
  }

  function Inserted(svc: Service, s: Stage, n: nat, rows: Shard): Stage {
    var t, o := Arrive(svc, s, n), svc.insert(n, rows);
    Stage(t.rows + o.landed, t.pending + o.late)
  }

  /** The stage after an insert and the count that follows it. */
  function Tried(svc: Service, s: Stage, n: nat, rows: Shard): Stage {
    Arrive(svc, Inserted(svc, s, n, rows), n + 1)
  }

  /** What the counts lead to: the stage and the operations made at the point where the run ends. */
  function Judged(svc: Service, n: nat, acknowledged: bool, size: nat, before: Stage, after: Stage, again: Stage)
    : (Stage, nat, Verdict)
  {
    if !svc.answers(n) then (before, n + 1, Failed(FailedCleanly))
    else if !svc.answers(n + 2) then (after, n + 3, Failed(FailedCleanly))
    else if |after.rows| == |before.rows| + size then (after, n + 3, Done)
    else if acknowledged || |after.rows| != |before.rows| then (after, n + 3, Failed(Uncertain))
    else if !svc.answers(n + 4) then (again, n + 5, Failed(FailedCleanly))
    else (again, n + 5, if |again.rows| == |before.rows| + size then Done else Failed(Uncertain))
  }

  /** A count before, an insert and a count; after a refused insert that left nothing, both once more. */
  function ShardRun(svc: Service, s: Stage, n: nat, rows: Shard): (Stage, nat, Verdict) {
    var before := Arrive(svc, s, n);
    var after := Tried(svc, before, n + 1, rows);
    Judged(svc, n, svc.insert(n + 1, rows).acknowledged, |rows|, before, after, Tried(svc, after, n + 3, rows))
  }

  /** Step by step, up to the first step that fails. */
  function InTurn(step: (Stage, nat, Shard) -> (Stage, nat, Verdict), s: Stage, n: nat, shards: seq<Shard>)
    : (Stage, nat, Verdict)
  {
    if shards == [] then (s, n, Done)
    else
      var before := InTurn(step, s, n, shards[..|shards| - 1]);
      if before.2.Failed? then before else step(before.0, before.1, shards[|shards| - 1])
  }

  function Runs(svc: Service): (Stage, nat, Shard) -> (Stage, nat, Verdict) {
    (s: Stage, n: nat, rows: Shard) => ShardRun(svc, s, n, rows)
  }

  /** The shards of one table, up to the first that fails. */
  function TableRun(svc: Service, s: Stage, n: nat, shards: seq<Shard>): (Stage, nat, Verdict) {
    InTurn(Runs(svc), s, n, shards)
  }

  /** Table by table, up to the first that fails; the stages of the others stay empty. */
  function AllInTurn(load: (nat, seq<Shard>) -> (Stage, nat, Verdict), n: nat, tables: seq<seq<Shard>>)
    : (r: (seq<Stage>, nat, Verdict))
    ensures |r.0| == |tables|
  {
    if tables == [] then ([], n, Done)
    else
      var before := AllInTurn(load, n, tables[..|tables| - 1]);
      if before.2.Failed? then (before.0 + [EMPTY], before.1, before.2)
      else
        var last := load(before.1, tables[|tables| - 1]);
        (before.0 + [last.0], last.1, last.2)
  }

  function Loads(svc: Service): (nat, seq<Shard>) -> (Stage, nat, Verdict) {
    (n: nat, shards: seq<Shard>) => TableRun(svc, EMPTY, n, shards)
  }

  /** The tables in order, each into an empty stage, up to the first that fails. */
  function TablesRun(svc: Service, n: nat, tables: seq<seq<Shard>>): (r: (seq<Stage>, nat, Verdict))
    ensures |r.0| == |tables|
  {
    AllInTurn(Loads(svc), n, tables)
  }

  // --------------------------------------------------------------- one shard

  /** The shard is inserted a second time: the first insert was refused and its count found nothing new. */
  predicate Retries(svc: Service, s: Stage, n: nat, rows: Shard) {
    var before := Arrive(svc, s, n);
    && svc.answers(n) && svc.answers(n + 2) && rows != [] && !svc.insert(n + 1, rows).acknowledged
    && |Tried(svc, before, n + 1, rows).rows| == |before.rows|
  }

  /** The insert that is repeated has no rows left on their way. */
  predicate RetryIsSafe(svc: Service, s: Stage, n: nat, rows: Shard) {
    Retries(svc, s, n, rows) ==> svc.insert(n + 1, rows).late == multiset{}
  }

  /** All that an insert has put, or will put, into its stage. */
  function Effect(svc: Service, n: nat, rows: Shard): multiset<Row> {
    svc.insert(n, rows).landed + svc.insert(n, rows).late
  }

  lemma ArriveKeepsSent(svc: Service, s: Stage, n: nat)
    ensures Sent(Arrive(svc, s, n)) == Sent(s) && s.rows <= Arrive(svc, s, n).rows
  {
    var now := svc.arrives(n) * s.pending;
    assert now + (s.pending - now) == s.pending;
  }

  lemma TriedSends(svc: Service, s: Stage, n: nat, rows: Shard)
    ensures Sent(Tried(svc, s, n, rows)) == Sent(s) + Effect(svc, n, rows)
    ensures s.rows + svc.insert(n, rows).landed <= Tried(svc, s, n, rows).rows
  {
    ArriveKeepsSent(svc, s, n);
    ArriveKeepsSent(svc, Inserted(svc, s, n, rows), n + 1);
  }

  lemma SameSize(a: multiset<Row>, b: multiset<Row>)
    requires a <= b && |a| == |b|
    ensures a == b
  {
    assert a + (b - a) == b && |a + (b - a)| == |a| + |b - a|;
  }

  /** Before a retry the first insert has left nothing in the stage. */
  lemma RetryAfterNothing(svc: Service, s: Stage, n: nat, rows: Shard)
    requires Retries(svc, s, n, rows)
    ensures svc.insert(n + 1, rows).landed == multiset{}
  {
    var before, landed := Arrive(svc, s, n), svc.insert(n + 1, rows).landed;
    var after := Tried(svc, before, n + 1, rows);
    TriedSends(svc, before, n + 1, rows);
    assert |before.rows + landed| == |before.rows| + |landed|;
    assert after.rows == (before.rows + landed) + (after.rows - (before.rows + landed));
    assert |landed| == 0;
  }

  /** Which stage a run ends with. */
  lemma JudgedStage(svc: Service, n: nat, acknowledged: bool, size: nat, before: Stage, after: Stage, again: Stage)
    ensures var retries := svc.answers(n + 2) && size > 0 && !acknowledged && |after.rows| == |before.rows|;
            Judged(svc, n, acknowledged, size, before, after, again).0
            == if !svc.answers(n) then before else if retries then again else after
  {
  }

  /** What a run has sent in all: the first block when the first count is answered, and the second on a retry. */
  lemma ShardSends(svc: Service, s: Stage, n: nat, rows: Shard)
    ensures Sent(ShardRun(svc, s, n, rows).0)
         == if !svc.answers(n) then Sent(s)
            else if Retries(svc, s, n, rows) then Sent(s) + Effect(svc, n + 1, rows) + Effect(svc, n + 3, rows)
            else Sent(s) + Effect(svc, n + 1, rows)
  {
    var before := Arrive(svc, s, n);
    var after := Tried(svc, before, n + 1, rows);
    var again := Tried(svc, after, n + 3, rows);
    JudgedStage(svc, n, svc.insert(n + 1, rows).acknowledged, |rows|, before, after, again);
    ArriveKeepsSent(svc, s, n);
    TriedSends(svc, before, n + 1, rows);
    TriedSends(svc, after, n + 3, rows);
  }

  /** No row is ever received twice exactly when there is no retry, or what is left of the first insert
      and what becomes of the second make up at most one block. */
  lemma ShardAtMostOnce(svc: Service, s: Stage, n: nat, rows: Shard)
    requires ServiceOk(svc)
    ensures Sent(ShardRun(svc, s, n, rows).0) <= Sent(s) + multiset(rows)
       <==> (Retries(svc, s, n, rows) ==>
               svc.insert(n + 1, rows).late + Effect(svc, n + 3, rows) <= multiset(rows))
  {
    var first := svc.insert(n + 1, rows);
    ShardSends(svc, s, n, rows);
    assert FromBlock(first, rows);
    if Retries(svc, s, n, rows) {
      RetryAfterNothing(svc, s, n, rows);
      assert Sent(ShardRun(svc, s, n, rows).0) == Sent(s) + (first.late + Effect(svc, n + 3, rows));
      CancelSum(Sent(s), first.late + Effect(svc, n + 3, rows), multiset(rows));
    }
  }

  lemma CancelSum(a: multiset<Row>, b: multiset<Row>, c: multiset<Row>)
    ensures a + b <= a + c <==> b <= c
  {
    if a + b <= a + c {
      forall r ensures b[r] <= c[r] {
        assert (a + b)[r] == a[r] + b[r] && (a + c)[r] == a[r] + c[r];
      }
    }
  }

  /** The same server with another fate for the second insert of a shard. */
  function WithRetry(svc: Service, n: nat, o: Outcome): Service {
    svc.(insert := (k: nat, rows: Shard) => if k == n + 3 then o else svc.insert(k, rows))
  }

  /** Whatever becomes of the second insert, no row is received twice: that is so exactly when no row of
      the refused first insert lands after the count that follows it. */
  lemma RetryIsSafeExactly(svc: Service, s: Stage, n: nat, rows: Shard)
    requires ServiceOk(svc) && Retries(svc, s, n, rows)
    ensures (forall o: Outcome :: FromBlock(o, rows) ==>
               Sent(ShardRun(WithRetry(svc, n, o), s, n, rows).0) <= Sent(s) + multiset(rows))
       <==> svc.insert(n + 1, rows).late == multiset{}
  {
    var late := svc.insert(n + 1, rows).late;
    forall o: Outcome | FromBlock(o, rows)
      ensures Sent(ShardRun(WithRetry(svc, n, o), s, n, rows).0) <= Sent(s) + multiset(rows)
         <==> late + (o.landed + o.late) <= multiset(rows)
    {
      SentWithRetry(svc, s, n, rows, o);
      CancelSum(Sent(s), late + (o.landed + o.late), multiset(rows));
    }
    var whole := Outcome(multiset(rows), multiset{}, true);
    assert FromBlock(whole, rows);
    if late + (whole.landed + whole.late) <= multiset(rows) {
      CancelSum(multiset(rows), late, multiset{});
      assert multiset(rows) + late <= multiset(rows) + multiset{};
    }
  }

  lemma SentWithRetry(svc: Service, s: Stage, n: nat, rows: Shard, o: Outcome)
    requires Retries(svc, s, n, rows)
    ensures Sent(ShardRun(WithRetry(svc, n, o), s, n, rows).0)
         == Sent(s) + (svc.insert(n + 1, rows).late + (o.landed + o.late))
  {
    var other := WithRetry(svc, n, o);
    assert Arrive(other, s, n) == Arrive(svc, s, n);
    assert Tried(other, Arrive(svc, s, n), n + 1, rows) == Tried(svc, Arrive(svc, s, n), n + 1, rows);
    assert Retries(other, s, n, rows);
    ShardSends(other, s, n, rows);
    RetryAfterNothing(other, s, n, rows);
  }

  /** A stage of the expected size that was sent no more than expected holds exactly that. */
  lemma FullStage(t: Stage, wanted: multiset<Row>)
    requires Sent(t) <= wanted && |t.rows| == |wanted|
    ensures t == Stage(wanted, multiset{})
  {
    assert t.rows <= Sent(t);
    SameSize(t.rows, wanted);
    forall r ensures t.pending[r] == 0 {
      assert Sent(t)[r] == t.rows[r] + t.pending[r];
    }
  }

  lemma SafeAtMostOnce(svc: Service, s: Stage, n: nat, rows: Shard)
    requires ServiceOk(svc) && RetryIsSafe(svc, s, n, rows)
    ensures Sent(ShardRun(svc, s, n, rows).0) <= Sent(s) + multiset(rows)
  {
    ShardAtMostOnce(svc, s, n, rows);
    assert FromBlock(svc.insert(n + 3, rows), rows);
    assert multiset{} + Effect(svc, n + 3, rows) == Effect(svc, n + 3, rows);
  }

  /** The verdict goes by the size of the stage alone. */
  lemma JudgedBySize(svc: Service, n: nat, acknowledged: bool, size: nat, before: Stage, after: Stage, again: Stage)
    ensures var (t, _, r) := Judged(svc, n, acknowledged, size, before, after, again);
            && (r.Done? ==> |t.rows| == |before.rows| + size)
            && (r == Failed(Uncertain) ==> |t.rows| != |before.rows| + size)
            && (r.Failed? ==> r.error != StageExists)
  {
  }

  lemma VerdictBySize(svc: Service, s: Stage, n: nat, rows: Shard)
    ensures var (t, _, r) := ShardRun(svc, s, n, rows);
            && (r.Done? ==> |t.rows| == |Arrive(svc, s, n).rows| + |rows|)
            && (r == Failed(Uncertain) ==> |t.rows| != |Arrive(svc, s, n).rows| + |rows|)
            && (r.Failed? ==> r.error != StageExists)
  {
    var before := Arrive(svc, s, n);
    var after := Tried(svc, before, n + 1, rows);
    JudgedBySize(svc, n, svc.insert(n + 1, rows).acknowledged, |rows|, before, after, Tried(svc, after, n + 3, rows));
  }

  /** Into a settled stage, with a safe retry: success means exactly the block, an uncertain outcome that
      the stage holds something else, and nothing is ever received twice. */
  lemma ShardIsExact(svc: Service, s: Stage, n: nat, rows: Shard)
    requires ServiceOk(svc) && s.pending == multiset{} && RetryIsSafe(svc, s, n, rows)
    ensures var (t, _, r) := ShardRun(svc, s, n, rows);
            && Sent(t) <= s.rows + multiset(rows)
            && (r.Done? ==> t == Stage(s.rows + multiset(rows), multiset{}))
            && (r == Failed(Uncertain) ==> t.rows != s.rows + multiset(rows))
            && (r.Failed? ==> r.error != StageExists)
  {
    var t := ShardRun(svc, s, n, rows).0;
    SafeAtMostOnce(svc, s, n, rows);
    VerdictBySize(svc, s, n, rows);
    assert Arrive(svc, s, n).rows == s.rows && Sent(s) == s.rows;
    assert |s.rows + multiset(rows)| == |s.rows| + |rows|;
    if ShardRun(svc, s, n, rows).2.Done? {
      FullStage(t, s.rows + multiset(rows));
    }
  }

  lemma JudgedCleanly(svc: Service, n: nat, acknowledged: bool, size: nat, before: Stage, after: Stage, again: Stage)
    ensures Judged(svc, n, acknowledged, size, before, after, again).2 == Failed(FailedCleanly)
       <==> !svc.answers(n) || !svc.answers(n + 2)
            || (size > 0 && !acknowledged && |after.rows| == |before.rows| && !svc.answers(n + 4))
  {
  }

  /** A clean failure is reported exactly when a count that the call makes stays unanswered. */
  lemma FailsCleanlyExactly(svc: Service, s: Stage, n: nat, rows: Shard)
    ensures ShardRun(svc, s, n, rows).2 == Failed(FailedCleanly)
       <==> !svc.answers(n) || !svc.answers(n + 2) || (Retries(svc, s, n, rows) && !svc.answers(n + 4))
  {
    var before := Arrive(svc, s, n);
    var after := Tried(svc, before, n + 1, rows);
    JudgedCleanly(svc, n, svc.insert(n + 1, rows).acknowledged, |rows|, before, after,
                  Tried(svc, after, n + 3, rows));
  }

  /** After a clean failure the stage has received nothing exactly when the count before the first insert
      was the unanswered one, or no insert of the call had any effect. */
  lemma CleanFailureIsClean(svc: Service, s: Stage, n: nat, rows: Shard)
    requires ShardRun(svc, s, n, rows).2 == Failed(FailedCleanly)
    ensures Sent(ShardRun(svc, s, n, rows).0) == Sent(s)
       <==> !svc.answers(n) || (Effect(svc, n + 1, rows) == multiset{}
                                && (Retries(svc, s, n, rows) ==> Effect(svc, n + 3, rows) == multiset{}))
  {
    var first, second := Effect(svc, n + 1, rows), Effect(svc, n + 3, rows);
    ShardSends(svc, s, n, rows);
    AddsNothing(Sent(s), first);
    AddsNothing(Sent(s), first + second);
    assert Sent(s) + first + second == Sent(s) + (first + second);
    assert |first + second| == |first| + |second|;
  }

  lemma AddsNothing(a: multiset<Row>, b: multiset<Row>)
    ensures a + b == a <==> b == multiset{}
  {
    assert |a + b| == |a| + |b|;
  }

  /** Every insert lands at once; only the operation numbered 2 stays unanswered. */
  function LosesOneCount(): Service {
    Service((n: nat, block: Shard) => Outcome(multiset(block), multiset{}, true), (n: nat) => n != 2,
            (n: nat) => multiset{})
  }

  /** The whole block lands, the count after it stays unanswered: a failure reported as clean. */
  lemma CleanFailureLeavesRows(rows: Shard)
    ensures ServiceOk(LosesOneCount())
    ensures ShardRun(LosesOneCount(), EMPTY, 0, rows) == (Stage(multiset(rows), multiset{}), 3, Failed(FailedCleanly))
  {
    var svc := LosesOneCount();
    var full := Stage(multiset(rows), multiset{});
    assert Arrive(svc, EMPTY, 0) == EMPTY && Arrive(svc, EMPTY, 1) == EMPTY && Arrive(svc, full, 2) == full;
    assert Inserted(svc, EMPTY, 1, rows) == full;
  }

  /** The first insert is refused and its rows land only after the retry. */
  function LandsLate(rows: Shard): Service {
    Service((n: nat, block: Shard) => if n == 1 then Outcome(multiset{}, multiset(block), false)
                                      else Outcome(multiset(block), multiset{}, true),
            (n: nat) => true, (n: nat) => if n < 5 then multiset{} else multiset(rows))
  }

  /** The load of the shard succeeds, and then every row is in the stage twice. */
  lemma LateRowsLandTwice(rows: Shard)
    requires rows != []
    ensures ServiceOk(LandsLate(rows))
    ensures Retries(LandsLate(rows), EMPTY, 0, rows)
    ensures var (t, n, r) := ShardRun(LandsLate(rows), EMPTY, 0, rows);
            r == Done && Arrive(LandsLate(rows), t, n).rows == multiset(rows) + multiset(rows)
  {
    var svc := LandsLate(rows);
    var waiting, both := Stage(multiset{}, multiset(rows)), Stage(multiset(rows), multiset(rows));
    NothingArrives(svc, EMPTY, 0);
    LateTry(rows);
    assert ShardRun(svc, EMPTY, 0, rows) == Judged(svc, 0, false, |rows|, EMPTY, waiting, both);
    LateVerdict(rows);
    assert multiset(rows) * multiset(rows) == multiset(rows);
  }

  lemma LateTry(rows: Shard)
    ensures var svc := LandsLate(rows);
            var waiting := Stage(multiset{}, multiset(rows));
            && Tried(svc, EMPTY, 1, rows) == waiting
            && Tried(svc, waiting, 3, rows) == Stage(multiset(rows), multiset(rows))
  {
    var svc := LandsLate(rows);
    var waiting, both := Stage(multiset{}, multiset(rows)), Stage(multiset(rows), multiset(rows));
    NothingArrives(svc, EMPTY, 1);
    assert Inserted(svc, EMPTY, 1, rows) == waiting;
    NothingArrives(svc, waiting, 2);
    NothingArrives(svc, waiting, 3);
    assert Inserted(svc, waiting, 3, rows) == both;
    NothingArrives(svc, both, 4);
  }

  lemma LateVerdict(rows: Shard)
    requires rows != []
    ensures Judged(LandsLate(rows), 0, false, |rows|, EMPTY, Stage(multiset{}, multiset(rows)),
                   Stage(multiset(rows), multiset(rows)))
         == (Stage(multiset(rows), multiset(rows)), 5, Done)
  {
    assert |multiset(rows)| == |rows| > 0;
  }

  lemma NothingArrives(svc: Service, s: Stage, n: nat)
    requires svc.arrives(n) == multiset{}
    ensures Arrive(svc, s, n) == s
  {
    assert multiset{} * s.pending == multiset{};
  }

  // ------------------------------------------------------- tables and loads

  /** Every retry made while loading a table is safe. */
  predicate TableIsSafe(svc: Service, s: Stage, n: nat, shards: seq<Shard>) {
    shards == [] ||
    (var before := TableRun(svc, s, n, shards[..|shards| - 1]);
     && TableIsSafe(svc, s, n, shards[..|shards| - 1])
     && (before.2.Done? ==> RetryIsSafe(svc, before.0, before.1, shards[|shards| - 1])))
  }

  /** Every retry made while loading the tables is safe. */
  predicate LoadIsSafe(svc: Service, n: nat, tables: seq<seq<Shard>>) {
    tables == [] ||
    (var before := TablesRun(svc, n, tables[..|tables| - 1]);
     && LoadIsSafe(svc, n, tables[..|tables| - 1])
     && (before.2.Done? ==> TableIsSafe(svc, EMPTY, before.1, tables[|tables| - 1])))
  }

  function AllRows(shards: seq<Shard>): multiset<Row> {
    if shards == [] then multiset{} else AllRows(shards[..|shards| - 1]) + multiset(shards[|shards| - 1])
  }

  /** With safe retries a stage receives each row of its shards at most once, and on success exactly once. */
  lemma {:induction false} TableIsExact(svc: Service, n: nat, shards: seq<Shard>)
    requires ServiceOk(svc) && TableIsSafe(svc, EMPTY, n, shards)
    ensures var (t, _, r) := TableRun(svc, EMPTY, n, shards);
            && Sent(t) <= AllRows(shards) && (r.Done? ==> t == Stage(AllRows(shards), multiset{}))
            && (r.Failed? ==> r.error != StageExists)
  {
    if shards != [] {
      var k := |shards| - 1;
      var before := TableRun(svc, EMPTY, n, shards[..k]);
      TableIsExact(svc, n, shards[..k]);
      if before.2.Done? {
        ShardIsExact(svc, before.0, before.1, shards[k]);
      }
    }
  }

  /** Nothing twice in any stage, and on success everything in each. */
  ghost predicate AllExact(tables: seq<seq<Shard>>, run: (seq<Stage>, nat, Verdict))
    requires |run.0| == |tables|
  {
    && (forall j :: 0 <= j < |tables| ==> Sent(run.0[j]) <= AllRows(tables[j]))
    && (run.2.Done? ==> forall j :: 0 <= j < |tables| ==> run.0[j] == Stage(AllRows(tables[j]), multiset{}))
    && (run.2.Failed? ==> run.2.error != StageExists)
  }

  lemma AllExactStep(tables: seq<seq<Shard>>, table: seq<Shard>, before: (seq<Stage>, nat, Verdict),
                     t: Stage, n: nat, r: Verdict)
    requires |before.0| == |tables| && AllExact(tables, before) && Sent(t) <= AllRows(table)
    requires r.Done? ==> before.2.Done? && t == Stage(AllRows(table), multiset{})
    requires r.Failed? ==> r.error != StageExists
    ensures AllExact(tables + [table], (before.0 + [t], n, r))
  {
  }

  /** So do all stages of a load, each from its own shards. */
  lemma {:induction false} LoadIsExact(svc: Service, n: nat, tables: seq<seq<Shard>>)
    requires ServiceOk(svc) && LoadIsSafe(svc, n, tables)
    ensures AllExact(tables, TablesRun(svc, n, tables))
  {
    if tables != [] {
      var init, last := tables[..|tables| - 1], tables[|tables| - 1];
      SafeBefore(svc, n, tables);
      LoadIsExact(svc, n, init);
      OneMoreTable(svc, n, init, last);
      SplitLast(tables);
    }
  }

  lemma SafeBefore(svc: Service, n: nat, tables: seq<seq<Shard>>)
    requires tables != [] && LoadIsSafe(svc, n, tables)
    ensures var before := TablesRun(svc, n, tables[..|tables| - 1]);
            && LoadIsSafe(svc, n, tables[..|tables| - 1])
            && (before.2.Done? ==> TableIsSafe(svc, EMPTY, before.1, tables[|tables| - 1]))
  {
  }

  lemma OneMoreTable(svc: Service, n: nat, tables: seq<seq<Shard>>, table: seq<Shard>)
    requires ServiceOk(svc) && AllExact(tables, TablesRun(svc, n, tables))
    requires var before := TablesRun(svc, n, tables); before.2.Done? ==> TableIsSafe(svc, EMPTY, before.1, table)
    ensures AllExact(tables + [table], TablesRun(svc, n, tables + [table]))
  {
    var before := TablesRun(svc, n, tables);
    LoadStep(Loads(svc), n, tables, table);
    if before.2.Done? {
      var last := TableRun(svc, EMPTY, before.1, table);
      TableIsExact(svc, before.1, table);
      AllExactStep(tables, table, before, last.0, last.1, last.2);
    } else {
      AllExactStep(tables, table, before, EMPTY, before.1, before.2);
    }
  }

  /** No refused insert has rows on their way. */
  ghost predicate RefusalsAreFinal(svc: Service) {
    forall n: nat, rows: Shard :: !svc.insert(n, rows).acknowledged ==> svc.insert(n, rows).late == multiset{}
  }

  lemma {:induction false} FinalRefusalsAreSafe(svc: Service, s: Stage, n: nat, shards: seq<Shard>)
    requires RefusalsAreFinal(svc)
    ensures TableIsSafe(svc, s, n, shards)
  {
    if shards != [] {
      FinalRefusalsAreSafe(svc, s, n, shards[..|shards| - 1]);
    }
  }

  /** When every refusal is final, every load is safe. */
  lemma {:induction false} FinalRefusalsLoadSafely(svc: Service, n: nat, tables: seq<seq<Shard>>)
    requires RefusalsAreFinal(svc)
    ensures LoadIsSafe(svc, n, tables)
  {
    if tables != [] {
      var init := tables[..|tables| - 1];
      FinalRefusalsLoadSafely(svc, n, init);
      FinalRefusalsAreSafe(svc, EMPTY, TablesRun(svc, n, init).1, tables[|tables| - 1]);
    }
  }

  // ------------------------------------------------------------- the loader

  /** The stages of one server and the number of its next operation. */
  class Server {
    const service: Service
    var stages: map<string, Stage>
    var clock: nat

    constructor (service: Service, stages: map<string, Stage>)
      ensures this.service == service && this.stages == stages && clock == 0
    {
      this.service, this.stages, clock := service, stages, 0;
    }

    method Insert(stage: string, rows: Shard) returns (acknowledged: bool)
      requires stage in stages
      modifies this
      ensures clock == old(clock) + 1 && OthersSame(stage, old(stages), stages)
      ensures stages[stage] == Inserted(service, old(stages[stage]), old(clock), rows)
      ensures acknowledged == service.insert(old(clock), rows).acknowledged
    {
      stages := stages[stage := Inserted(service, stages[stage], clock, rows)];
      acknowledged := service.insert(clock, rows).acknowledged;
      clock := clock + 1;
    }

    method Count(stage: string) returns (r: Option<nat>)
      requires stage in stages
      modifies this
      ensures clock == old(clock) + 1 && OthersSame(stage, old(stages), stages)
      ensures stages[stage] == Arrive(service, old(stages[stage]), old(clock))
      ensures r == if service.answers(old(clock)) then Some(|stages[stage].rows|) else None
    {
      stages := stages[stage := Arrive(service, stages[stage], clock)];
      r := if service.answers(clock) then Some(|stages[stage].rows|) else None;
      clock := clock + 1;
    }

    /** One insert and the count that follows it. */
    method Attempt(stage: string, rows: Shard) returns (acknowledged: bool, after: Option<nat>)
      requires stage in stages
      modifies this
      ensures clock == old(clock) + 2 && OthersSame(stage, old(stages), stages)
      ensures stages[stage] == Tried(service, old(stages[stage]), old(clock), rows)
      ensures acknowledged == service.insert(old(clock), rows).acknowledged
      ensures after == if service.answers(old(clock) + 1) then Some(|stages[stage].rows|) else None
    {
      acknowledged := Insert(stage, rows);
      after := Count(stage);
    }

    /** Loads one shard: a refused insert is tried once more when the count shows that nothing landed. */
    method LoadShard(stage: string, rows: Shard) returns (r: Verdict)
      requires stage in stages
      modifies this
      ensures OthersSame(stage, old(stages), stages)
      ensures (stages[stage], clock, r) == ShardRun(service, old(stages[stage]), old(clock), rows)
    {
      var before := Count(stage);
      if before.None? {
        return Failed(FailedCleanly);
      }
      var acknowledged, after := Attempt(stage, rows);
      if after.None? {
        return Failed(FailedCleanly);
      }
      if acknowledged || after.value == before.value + |rows| {
        return if after.value == before.value + |rows| then Done else Failed(Uncertain);
      }
      if after.value != before.value {
        return Failed(Uncertain);
      }
      acknowledged, after := Attempt(stage, rows);
      if after.None? {
        return Failed(FailedCleanly);
      }
      r := if after.value == before.value + |rows| then Done else Failed(Uncertain);
    }

    /** Loads the shards of one table into its stage, one after the other. */
    method LoadTable(stage: string, shards: seq<Shard>) returns (r: Verdict)
      requires stage in stages
      modifies this
      ensures OthersSame(stage, old(stages), stages)
      ensures (stages[stage], clock, r) == TableRun(service, old(stages[stage]), old(clock), shards)
    {
      var i := 0;
      while i < |shards|
        invariant 0 <= i <= |shards| && OthersSame(stage, old(stages), stages)
        invariant var run := TableRun(service, old(stages[stage]), old(clock), shards[..i]);
                  run.0 == stages[stage] && run.1 == clock && run.2.Done?
      {
        TableStep(Runs(service), old(stages[stage]), old(clock), shards, i);
        var loaded := LoadShard(stage, shards[i]);
        i := i + 1;
        if loaded.Failed? {
          TableStopsAt(Runs(service), old(stages[stage]), old(clock), shards, i);
          return loaded;
        }
      }
      assert shards[..i] == shards;
      r := Done;
    }

    method CreateStages(files: seq<(string, seq<Shard>)>) returns (ok: bool)
      requires DistinctTables(files)
      modifies this`stages
      ensures ok <==> forall f :: f in files ==> f.0 !in old(stages)
      ensures ok ==> stages.Keys == old(stages).Keys + set f <- files :: f.0
      ensures ok ==> forall f :: f in files ==> stages[f.0] == EMPTY
      ensures forall t :: t in old(stages) ==> t in stages && stages[t] == old(stages)[t]
    {
      var i := 0;
      while i < |files|
        invariant 0 <= i <= |files|
        invariant stages.Keys == old(stages).Keys + set f <- files[..i] :: f.0
        invariant forall f :: f in files[..i] ==> f.0 !in old(stages) && stages[f.0] == EMPTY
        invariant forall t :: t in old(stages) ==> stages[t] == old(stages)[t]
      {
        assert files[..i + 1] == files[..i] + [files[i]];
        assert forall f :: f in files[..i] ==> f.0 != files[i].0;
        if files[i].0 in stages {
          assert files[i] in files;
          return false;
        }
        stages := stages[files[i].0 := EMPTY];
        i := i + 1;
      }
      assert files[..i] == files;
      ok := true;
    }

    /** Creates the stages and loads every table; stages that were there before are not touched. */
    method LoadStages(files: seq<(string, seq<Shard>)>) returns (r: Verdict)
      requires DistinctTables(files)
      modifies this
      ensures forall t :: t in old(stages) ==> t in stages && stages[t] == old(stages)[t]
      ensures if exists f :: f in files && f.0 in old(stages) then r == Failed(StageExists)
              else Loaded(files, TablesRun(service, old(clock), Shards(files)).0, stages)
                   && (clock, r) == (TablesRun(service, old(clock), Shards(files)).1,
                                     TablesRun(service, old(clock), Shards(files)).2)
    {
      var created := CreateStages(files);
      if !created {
        return Failed(StageExists);
      }
      assert forall j | 0 <= j < |files| :: files[j] in files;
      r := LoadEach(files);
    }

    method LoadEach(files: seq<(string, seq<Shard>)>) returns (r: Verdict)
      requires DistinctTables(files)
      requires forall j | 0 <= j < |files| :: files[j].0 in stages && stages[files[j].0] == EMPTY
      modifies this
      ensures SameOutside(files, old(stages), stages)
      ensures Loaded(files, TablesRun(service, old(clock), Shards(files)).0, stages)
      ensures (clock, r) == (TablesRun(service, old(clock), Shards(files)).1,
                             TablesRun(service, old(clock), Shards(files)).2)
    {
      ghost var run: (seq<Stage>, nat, Verdict) := ([], clock, Done);
      var i := 0;
      while i < |files|
        invariant 0 <= i <= |files| && SameOutside(files, old(stages), stages)
        invariant run == TablesRun(service, old(clock), Shards(files[..i])) && run.1 == clock && run.2.Done?
        invariant LoadedSoFar(files, i, run.0, stages)
      {
        ghost var before := stages;
        ShardsStep(files, i);
        LoadStep(Loads(service), old(clock), Shards(files[..i]), files[i].1);
        var loaded := LoadTable(files[i].0, files[i].1);
        LoadedStep(files, i, run.0, before, stages);
        SameOutsideStep(files, i, old(stages), before, stages);
        run := (run.0 + [stages[files[i].0]], clock, loaded);
        i := i + 1;
        if loaded.Failed? {
          EarlyStop(Loads(service), old(clock), files, i, stages);
          return loaded;
        }
      }
      assert files[..i] == files;
      r := Done;
    }
  }

  /** The stages of the first `i` tables are the ones given, the others empty. */
  predicate LoadedSoFar(files: seq<(string, seq<Shard>)>, i: nat, loaded: seq<Stage>, stages: map<string, Stage>)
    requires |loaded| == i <= |files|
  {
    forall j | 0 <= j < |files| ::
      files[j].0 in stages && stages[files[j].0] == if j < i then loaded[j] else EMPTY
  }

  /** Only the one stage may have changed. */
  predicate OthersSame(stage: string, before: map<string, Stage>, after: map<string, Stage>) {
    after.Keys == before.Keys && forall t | t in before && t != stage :: after[t] == before[t]
  }

  /** A load that stops after its `i`-th table has loaded what a whole run would have. */
  lemma EarlyStop(load: (nat, seq<Shard>) -> (Stage, nat, Verdict), n: nat, files: seq<(string, seq<Shard>)>, i: nat,
                  stages: map<string, Stage>)
    requires i <= |files| && AllInTurn(load, n, Shards(files[..i])).2.Failed?
    requires LoadedSoFar(files, i, AllInTurn(load, n, Shards(files[..i])).0, stages)
    ensures Loaded(files, AllInTurn(load, n, Shards(files)).0, stages)
    ensures AllInTurn(load, n, Shards(files)).1 == AllInTurn(load, n, Shards(files[..i])).1
    ensures AllInTurn(load, n, Shards(files)).2 == AllInTurn(load, n, Shards(files[..i])).2
  {
    assert Shards(files)[..i] == Shards(files[..i]);
    LoadStopsAt(load, n, Shards(files), i);
  }

  lemma {:induction false} LoadStopsAt(load: (nat, seq<Shard>) -> (Stage, nat, Verdict), n: nat,
                                       tables: seq<seq<Shard>>, i: nat)
    requires i <= |tables| && AllInTurn(load, n, tables[..i]).2.Failed?
    ensures var stopped, whole := AllInTurn(load, n, tables[..i]), AllInTurn(load, n, tables);
            && whole.1 == stopped.1 && whole.2 == stopped.2
            && forall j :: 0 <= j < |tables| ==> whole.0[j] == if j < i then stopped.0[j] else EMPTY
    decreases |tables|
  {
    if i < |tables| {
      assert tables[..|tables| - 1][..i] == tables[..i];
      LoadStopsAt(load, n, tables[..|tables| - 1], i);
    } else {
      assert tables[..i] == tables;
    }
  }

  function Shards(files: seq<(string, seq<Shard>)>): (tables: seq<seq<Shard>>)
    ensures |tables| == |files|
  {
    seq(|files|, j requires 0 <= j < |files| => files[j].1)
  }

  lemma ShardsStep(files: seq<(string, seq<Shard>)>, i: nat)
    requires i < |files|
    ensures Shards(files[..i + 1]) == Shards(files[..i]) + [files[i].1]
  {
  }

  /** Each table's stage is the one given. */
  predicate Loaded(files: seq<(string, seq<Shard>)>, loaded: seq<Stage>, stages: map<string, Stage>)
    requires |loaded| == |files|
  {
    forall j | 0 <= j < |files| :: files[j].0 in stages && stages[files[j].0] == loaded[j]
  }

  predicate SameOutside(files: seq<(string, seq<Shard>)>, before: map<string, Stage>, after: map<string, Stage>) {
    after.Keys == before.Keys
    && forall t | t in before && (forall j :: 0 <= j < |files| ==> files[j].0 != t) :: after[t] == before[t]
  }

  lemma SameOutsideStep(files: seq<(string, seq<Shard>)>, i: nat, start: map<string, Stage>,
                        before: map<string, Stage>, after: map<string, Stage>)
    requires i < |files| && SameOutside(files, start, before) && OthersSame(files[i].0, before, after)
    ensures SameOutside(files, start, after)
  {
  }

  lemma LoadedStep(files: seq<(string, seq<Shard>)>, i: nat, loaded: seq<Stage>,
                   before: map<string, Stage>, after: map<string, Stage>)
    requires |loaded| == i < |files| && DistinctTables(files)
    requires LoadedSoFar(files, i, loaded, before) && OthersSame(files[i].0, before, after)
    ensures LoadedSoFar(files, i + 1, loaded + [after[files[i].0]], after)
  {
    forall j | 0 <= j < |files| && j != i ensures after[files[j].0] == before[files[j].0] {
      assert files[j].0 != files[i].0 && files[j].0 in before;
    }
  }

  predicate DistinctTables(files: seq<(string, seq<Shard>)>) {
    forall i, j | 0 <= i < |files| && 0 <= j < |files| && files[i].0 == files[j].0 :: i == j
  }

  lemma TableStep(step: (Stage, nat, Shard) -> (Stage, nat, Verdict), s: Stage, n: nat, shards: seq<Shard>, i: nat)
    requires i < |shards| && InTurn(step, s, n, shards[..i]).2.Done?
    ensures var before := InTurn(step, s, n, shards[..i]);
            InTurn(step, s, n, shards[..i + 1]) == step(before.0, before.1, shards[i])
  {
    assert shards[..i + 1][..i] == shards[..i];
  }

  lemma LoadStep(load: (nat, seq<Shard>) -> (Stage, nat, Verdict), n: nat, tables: seq<seq<Shard>>,
                 table: seq<Shard>)
    ensures var before := AllInTurn(load, n, tables);
            var last := load(before.1, table);
            AllInTurn(load, n, tables + [table])
            == if before.2.Failed? then (before.0 + [EMPTY], before.1, before.2)
               else (before.0 + [last.0], last.1, last.2)
  {
    assert (tables + [table])[..|tables|] == tables;
  }

  lemma {:induction false} TableStopsAt(step: (Stage, nat, Shard) -> (Stage, nat, Verdict), s: Stage, n: nat,
                                        shards: seq<Shard>, i: nat)
    requires i <= |shards| && InTurn(step, s, n, shards[..i]).2.Failed?
    ensures InTurn(step, s, n, shards) == InTurn(step, s, n, shards[..i])
    decreases |shards|
  {
    if i == |shards| {
      assert shards[..i] == shards;
    } else {
      var init := shards[..|shards| - 1];
      assert init[..i] == shards[..i];
      TableStopsAt(step, s, n, init, i);
    }
  }
}
