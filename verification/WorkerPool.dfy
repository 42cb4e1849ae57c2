/** WorkerCoordinator: the concurrency-limited batch, step by step, over the campaign state. */
module WorkerPool {
  import opened CampaignState
  import opened Sequences

  // ---------- Task ids ----------

  function Digit(d: nat): char
    requires d < 10
  {
    "0123456789"[d]
  }

  function Decimal(n: nat): (s: string)
    ensures s != "" && forall k :: 0 <= k < |s| ==> s[k] != '_'
  {
    if n < 10 then [Digit(n)] else Decimal(n / 10) + [Digit(n % 10)]
  }

  /** `String(i).padStart(4, '0')` */
  function Padded(n: nat): (s: string)
    ensures forall k :: 0 <= k < |s| ==> s[k] != '_'
  {
    var s := Decimal(n);
    if |s| < 4 then seq(4 - |s|, _ => '0') + s else s
  }

  function TaskIdOf(workerId: string, i: nat, pointId: string): TaskId {
    workerId + "_" + Padded(i) + "_" + Shortened(pointId)
  }

  /** `pt.id.slice(0, 8)` */
  function Shortened(p: string): string { if |p| > 8 then p[..8] else p }

  /** The number a string of digits spells. */
  ghost function Spelled(s: string): int {
    if s == "" then 0 else 10 * Spelled(s[..|s| - 1]) + (s[|s| - 1] as int - '0' as int)
  }

  lemma {:induction false} DecimalSpells(n: nat)
    ensures Spelled(Decimal(n)) == n
  {
    if n >= 10 {
      DecimalSpells(n / 10);
      var s := Decimal(n);
      assert s[..|s| - 1] == Decimal(n / 10);
    } else {
      assert Decimal(n)[..0] == "";
    }
  }

  lemma {:induction false} LeadingZeros(k: nat, s: string)
    ensures Spelled(seq(k, _ => '0') + s) == Spelled(s)
    decreases |s|, k
  {
    var zeros := seq(k, _ => '0');
    var t := zeros + s;
    if s == "" {
      if k > 0 {
        assert t[..|t| - 1] == seq(k - 1, _ => '0') + "";
        LeadingZeros(k - 1, "");
      }
    } else {
      assert t[..|t| - 1] == zeros + s[..|s| - 1];
      LeadingZeros(k, s[..|s| - 1]);
    }
  }

  lemma PaddedSpells(n: nat)
    ensures Spelled(Padded(n)) == n
  {
    DecimalSpells(n);
    if |Decimal(n)| < 4 { LeadingZeros(4 - |Decimal(n)|, Decimal(n)); }
  }

  ghost function UnderscoreAt(s: string): (k: nat)
    ensures k <= |s|
  {
    if s == "" || s[0] == '_' then 0 else 1 + UnderscoreAt(s[1..])
  }

  lemma {:induction false} UnderscoreAfter(a: string, x: string)
    requires forall k :: 0 <= k < |a| ==> a[k] != '_'
    ensures UnderscoreAt(a + "_" + x) == |a|
  {
    var s := a + "_" + x;
    if a != "" {
      UnderscoreAfter(a[1..], x);
      assert s[1..] == a[1..] + "_" + x;
      assert s[0] == a[0];
    } else {
      assert s[0] == '_';
    }
  }

  lemma FirstUnderscore(a: string, b: string, x: string, y: string)
    requires forall k :: 0 <= k < |a| ==> a[k] != '_'
    requires forall k :: 0 <= k < |b| ==> b[k] != '_'
    requires a + "_" + x == b + "_" + y
    ensures a == b
  {
    UnderscoreAfter(a, x);
    UnderscoreAfter(b, y);
    assert (a + "_" + x)[..|a|] == a && (b + "_" + y)[..|b|] == b;
  }

  lemma AfterWorkerId(workerId: string, i: nat, p: string)
    ensures |workerId| + 1 <= |TaskIdOf(workerId, i, p)|
    ensures TaskIdOf(workerId, i, p)[|workerId| + 1..] == Padded(i) + "_" + Shortened(p)
  {
    hide Padded;
  }

  /** Different positions in a batch get different task ids, whatever the points are. */
  lemma TaskIdsDiffer(workerId: string, i: nat, j: nat, p: string, q: string)
    requires TaskIdOf(workerId, i, p) == TaskIdOf(workerId, j, q)
    ensures i == j
  {
    hide TaskIdOf, Padded;
    AfterWorkerId(workerId, i, p);
    AfterWorkerId(workerId, j, q);
    FirstUnderscore(Padded(i), Padded(j), Shortened(p), Shortened(q));
    PaddedSpells(i);
    PaddedSpells(j);
  }

  /**
   * The shape of a task id: the worker's id, the position in decimal digits, at least four of them, and the first
   * eight characters of the point's id.
   */
  lemma TaskIdTells(workerId: string, i: nat, pointId: string) returns (digits: string)
    ensures TaskIdOf(workerId, i, pointId) ==
              workerId + "_" + digits + "_" + pointId[..if |pointId| < 8 then |pointId| else 8]
    ensures |digits| >= 4 && Spelled(digits) == i && forall k :: 0 <= k < |digits| ==> '0' <= digits[k] <= '9'
    ensures |digits| > 4 ==> digits[0] != '0'
  {
    digits := Padded(i);
    PaddedSpells(i);
    DecimalDigits(i);
    assert pointId[..|pointId|] == pointId;
    hide Spelled, Decimal;
  }

  lemma {:induction false} DecimalDigits(n: nat)
    ensures forall k :: 0 <= k < |Decimal(n)| ==> '0' <= Decimal(n)[k] <= '9'
    ensures n > 0 ==> Decimal(n)[0] != '0'
    ensures |Decimal(n)| > 1 ==> n > 0
  {
    if n >= 10 { DecimalDigits(n / 10); }
  }

  /** The task ids of a batch: the points' ids, each with its position. */
  function BatchIds(workerId: string, pointIds: seq<string>): seq<TaskId> {
    seq(|pointIds|, i requires 0 <= i < |pointIds| => TaskIdOf(workerId, i, pointIds[i]))
  }

  /** No id occurs twice in a batch, even if a point does. */
  lemma BatchIdsDiffer(workerId: string, pointIds: seq<string>)
    ensures NoRepeats(BatchIds(workerId, pointIds))
  {
    hide TaskIdOf;
    forall i, j | 0 <= i < j < |pointIds|
      ensures TaskIdOf(workerId, i, pointIds[i]) != TaskIdOf(workerId, j, pointIds[j])
    {
      if TaskIdOf(workerId, i, pointIds[i]) == TaskIdOf(workerId, j, pointIds[j]) {
        TaskIdsDiffer(workerId, i, j, pointIds[i], pointIds[j]);
      }
    }
  }

  // ---------- The batch ----------

  /** Where a worker is: at its loop test, inside job i, or finished. */
  datatype Worker =
    | AtLoop
    | Evaluating(i: nat)
    | Submitting(i: nat)
    | Completing(i: nat)
    | LoggingSuccess(i: nat)
    | Failing(i: nat, completed: bool)        // in the catch block; had the job been completed already?
    | LoggingFailure(i: nat, completed: bool)
    | Finished

  /** How a job ended: what it managed to record. */
  datatype Outcome =
    | OnlyCompleted
    | OnlyFailed
    | Both       // completed, then a log write threw and it was failed as well
    | Unlogged   // completed, then the log write and failTask threw
    | Stuck      // failTask threw: still pending

  datatype State = State(
    index: nat,                     // the shared `index++`
    workers: seq<Worker>,
    store: Persisted,
    results: set<nat>,              // jobs whose result is in evaluations.jsonl
    started: seq<nat>,              // ghost history: jobs taken, in order
    outcomes: map<nat, Outcome>)    // ghost history: jobs ended

  datatype Step =
    // worker w performs its next call, which succeeds or throws; one that changes the store works from `mine`
    | Work(w: nat, ok: bool, mine: Persisted)
    // somebody else's mutation of the campaign, working from its own state in memory
    | Other(m: Mutation, mine: Persisted)

  /**
   * Somebody else's mutation names no job of the batch, and what it works from lags behind the store only
   * harmlessly: a freshly reloaded state always does, a transition from an old one may not.
   */
  ghost predicate Foreign(ids: seq<TaskId>, m: Mutation, mine: Persisted, store: Persisted) {
    && (forall id :: id in ids ==> !Registers(m, id) && !Settles(m, id))
    && Harmless(m, mine, store)
  }

  /** The worker is inside a job. */
  ghost predicate OnJob(v: Worker) { v != AtLoop && v != Finished }

  ghost predicate CanWork(ids: seq<TaskId>, s: State, w: nat) {
    && w < |s.workers| && s.workers[w] != Finished
    && (OnJob(s.workers[w]) ==> s.workers[w].i < |ids|)
  }

  /** The batch's own calls too may work from a state kept in memory, after a busy read, if it lags harmlessly. */
  ghost predicate HarmlessCall(ids: seq<TaskId>, s: State, w: nat, mine: Persisted)
    requires CanWork(ids, s, w)
  {
    match s.workers[w]
    case Completing(i) => Harmless(CompleteTask(ids[i]), mine, s.store)
    case Failing(i, _) => Harmless(FailTask(ids[i], "error"), mine, s.store)
    case _ => true
  }

  ghost predicate Enabled(ids: seq<TaskId>, s: State, step: Step) {
    match step
    case Work(w, ok, mine) => CanWork(ids, s, w) && (ok ==> HarmlessCall(ids, s, w, mine))
    case Other(m, mine) => Foreign(ids, m, mine, s.store)
  }

  ghost function WorkFrom(ids: seq<TaskId>, s: State, w: nat, ok: bool, mine: Persisted): State
    requires CanWork(ids, s, w)
  {
    var at := (v: Worker) => s.(workers := s.workers[w := v]);
    match s.workers[w]
    case AtLoop =>
      if s.index < |ids| then at(Evaluating(s.index)).(index := s.index + 1, started := s.started + [s.index])
      else at(Finished)
    case Evaluating(i) => at(if ok then Submitting(i) else Failing(i, false))
    case Submitting(i) =>
      if ok then at(Completing(i)).(results := s.results + {i}) else at(Failing(i, false))
    case Completing(i) =>
      if ok then at(LoggingSuccess(i)).(store := Written(CompleteTask(ids[i]), mine, s.store))
      else at(Failing(i, false))
    case LoggingSuccess(i) =>
      if ok then at(AtLoop).(outcomes := s.outcomes[i := OnlyCompleted]) else at(Failing(i, true))
    case Failing(i, completed) =>
      if ok then at(LoggingFailure(i, completed)).(store := Written(FailTask(ids[i], "error"), mine, s.store))
      else at(AtLoop).(outcomes := s.outcomes[i := if completed then Unlogged else Stuck])
    case LoggingFailure(i, completed) =>
      at(AtLoop).(outcomes := s.outcomes[i := if completed then Both else OnlyFailed])
  }

  /** A worker's call that works from what it has just read. */
  ghost function WorkNext(ids: seq<TaskId>, s: State, w: nat, ok: bool): State
    requires CanWork(ids, s, w)
  {
    WorkFrom(ids, s, w, ok, s.store)
  }

  /** It makes no difference if a call works from a state that lags harmlessly. */
  lemma OwnCallIsExact(ids: seq<TaskId>, s: State, w: nat, ok: bool, mine: Persisted)
    requires Enabled(ids, s, Work(w, ok, mine))
    ensures WorkFrom(ids, s, w, ok, mine) == WorkNext(ids, s, w, ok)
  {
    hide Harmless, Apply;
    match s.workers[w] {
      case Completing(i) => StaleEffect(CompleteTask(ids[i]), mine, s.store);
      case Failing(i, _) => StaleEffect(FailTask(ids[i], "error"), mine, s.store);
      case _ =>
    }
  }

  ghost function Next(ids: seq<TaskId>, s: State, step: Step): State
    requires Enabled(ids, s, step)
  {
    match step
    case Work(w, ok, mine) => WorkFrom(ids, s, w, ok, mine)
    case Other(m, mine) => s.(store := Written(m, mine, s.store))
  }

  /** `Math.min(maxConcurrent, tasks.length)` workers, none when that is not positive. */
  function Slots(maxConcurrent: int, n: nat): nat {
    if maxConcurrent <= 0 then 0 else if maxConcurrent < n then maxConcurrent else n
  }

  ghost predicate Initial(ids: seq<TaskId>, maxConcurrent: int, before: Persisted, s: State) {
    && s.index == 0 && s.workers == seq(Slots(maxConcurrent, |ids|), _ => AtLoop)
    && s.store == Apply(RegisterPending(ids), before)
    && s.results == {} && s.started == [] && s.outcomes == map[]
  }

  ghost predicate Run(ids: seq<TaskId>, maxConcurrent: int, before: Persisted, steps: seq<Step>, s: State) {
    if steps == [] then Initial(ids, maxConcurrent, before, s)
    else
      var k := |steps| - 1;
      exists r :: Run(ids, maxConcurrent, before, steps[..k], r) && Enabled(ids, r, steps[k]) &&
          s == Next(ids, r, steps[k])
  }

  // ---------- The invariant ----------

  ghost predicate Busy(v: Worker, i: nat) {
    v != AtLoop && v != Finished && v.i == i
  }

  /** What the store must say about job i, given where it stands. */
  datatype Standing = Open | Complete | FailedToo | FailedOnly

  ghost function StandingOfWorker(v: Worker): Standing
    requires v != AtLoop && v != Finished
  {
    match v
    case LoggingSuccess(_) => Complete
    case Failing(_, completed) => if completed then Complete else Open
    case LoggingFailure(_, completed) => if completed then FailedToo else FailedOnly
    case _ => Open
  }

  function StandingOfOutcome(o: Outcome): Standing {
    match o
    case OnlyCompleted => Complete
    case OnlyFailed => FailedOnly
    case Both => FailedToo
    case Unlogged => Complete
    case Stuck => Open
  }

  ghost predicate Stands(store: Persisted, before: Persisted, id: TaskId, st: Standing) {
    && (id in store.pending <==> st == Open)
    && (id in store.completed <==> id in before.completed || st == Complete || st == FailedToo)
    && (id in store.failed <==> id in before.failed || st == FailedToo || st == FailedOnly)
  }

  /** A job recorded as completed, or about to be, has its result in the log. */
  ghost predicate HasResult(results: set<nat>, i: nat, v: Worker) {
    v.Completing? || v.LoggingSuccess? || (v.Failing? && v.completed) || (v.LoggingFailure? && v.completed) ==>
        i in results
  }

  ghost predicate JobAt(ids: seq<TaskId>, before: Persisted, s: State, i: nat)
    requires i < |ids|
  {
    && (i >= s.index ==> i !in s.outcomes && Stands(s.store, before, ids[i], Open)
                         && forall w :: 0 <= w < |s.workers| ==> !Busy(s.workers[w], i))
    && (i in s.outcomes ==> Stands(s.store, before, ids[i], StandingOfOutcome(s.outcomes[i]))
                            && (StandingOfOutcome(s.outcomes[i]) in {Complete, FailedToo} ==> i in s.results)
                            && forall w :: 0 <= w < |s.workers| ==> !Busy(s.workers[w], i))
    && (i < s.index && i !in s.outcomes ==> exists w :: 0 <= w < |s.workers| && Busy(s.workers[w], i))
    && (forall w :: 0 <= w < |s.workers| && Busy(s.workers[w], i) ==>
          Stands(s.store, before, ids[i], StandingOfWorker(s.workers[w])) && HasResult(s.results, i, s.workers[w]))
    && (forall w, x :: 0 <= w < x < |s.workers| ==> !(Busy(s.workers[w], i) && Busy(s.workers[x], i)))
  }

  ghost predicate Sane(ids: seq<TaskId>, maxConcurrent: int, before: Persisted, s: State) {
    && s.index <= |ids| && |s.workers| == Slots(maxConcurrent, |ids|)
    && (forall i :: 0 <= i < |ids| ==> JobAt(ids, before, s, i))
    && (forall i :: i in s.outcomes ==> i < |ids|)
    && (forall w :: 0 <= w < |s.workers| && s.workers[w] != AtLoop && s.workers[w] != Finished ==>
        s.workers[w].i < |ids|)
    && (forall w :: 0 <= w < |s.workers| && s.workers[w] == Finished ==> s.index == |ids|)
    && |s.started| == s.index && (forall k :: 0 <= k < s.index ==> s.started[k] == k)
  }

  lemma StandsElsewhere(store: Persisted, before: Persisted, id: TaskId, st: Standing, m: Mutation)
    requires Stands(store, before, id, st)
    requires !Registers(m, id) && !Settles(m, id)
    ensures Stands(Apply(m, store), before, id, st)
  {}

  lemma StandsCompleted(store: Persisted, before: Persisted, id: TaskId)
    requires Stands(store, before, id, Open)
    ensures Stands(Apply(CompleteTask(id), store), before, id, Complete)
  {}

  lemma StandsFailed(store: Persisted, before: Persisted, id: TaskId, st: Standing)
    requires Stands(store, before, id, st) && (st == Open || st == Complete)
    ensures Stands(Apply(FailTask(id, "error"), store), before, id, if st == Open then FailedOnly else FailedToo)
  {}

  /** The store as job j sees it is untouched by a step on another job. */
  lemma OtherJobUntouched(ids: seq<TaskId>, before: Persisted, s: State, w: nat, ok: bool, j: nat, st: Standing)
    requires NoRepeats(ids) && CanWork(ids, s, w) && j < |ids|
    requires !Busy(s.workers[w], j) && Stands(s.store, before, ids[j], st)
    ensures Stands(WorkNext(ids, s, w, ok).store, before, ids[j], st)
  {
    hide Stands, Apply;
    match s.workers[w] {
      case Completing(i) =>
        assert ids[i] != ids[j];
        StandsElsewhere(s.store, before, ids[j], st, CompleteTask(ids[i]));
      case Failing(i, _) =>
        assert ids[i] != ids[j];
        StandsElsewhere(s.store, before, ids[j], st, FailTask(ids[i], "error"));
      case _ =>
    }
  }

  /** The standing and result of the job worker w is on, after its step. */
  lemma OwnJobAdvances(ids: seq<TaskId>, before: Persisted, s: State, w: nat, ok: bool)
    requires CanWork(ids, s, w) && OnJob(s.workers[w])
    requires Stands(s.store, before, ids[s.workers[w].i], StandingOfWorker(s.workers[w]))
    requires HasResult(s.results, s.workers[w].i, s.workers[w])
    ensures var i, t := s.workers[w].i, WorkNext(ids, s, w, ok);
            var v := t.workers[w];
            && s.results <= t.results <= s.results + {i}
            && (if v == AtLoop then
                  && t.outcomes.Keys == s.outcomes.Keys + {i} && t.outcomes == s.outcomes[i := t.outcomes[i]]
                  && Stands(t.store, before, ids[i], StandingOfOutcome(t.outcomes[i]))
                  && (StandingOfOutcome(t.outcomes[i]) in {Complete, FailedToo} ==> i in t.results)
                else
                  && t.outcomes == s.outcomes && Busy(v, i)
                  && Stands(t.store, before, ids[i], StandingOfWorker(v)) && HasResult(t.results, i, v))
  {
    hide Stands, Apply;
    match s.workers[w] {
      case Completing(i) =>
        StandsCompleted(s.store, before, ids[i]);
      case Failing(i, completed) =>
        StandsFailed(s.store, before, ids[i], if completed then Complete else Open);
      case _ =>
    }
  }

  lemma WorkFrame(ids: seq<TaskId>, s: State, w: nat, ok: bool)
    requires CanWork(ids, s, w)
    ensures var t := WorkNext(ids, s, w, ok);
            && |t.workers| == |s.workers| && t.workers == s.workers[w := t.workers[w]]
            && (s.workers[w] != AtLoop ==> t.index == s.index && t.started == s.started)
  {
    hide Apply;
  }

  lemma WorkKeepsOtherJob(ids: seq<TaskId>, before: Persisted, s: State, w: nat, ok: bool, j: nat)
    requires NoRepeats(ids) && CanWork(ids, s, w) && OnJob(s.workers[w])
    requires j < |ids| && s.workers[w].i != j
    requires JobAt(ids, before, s, j) && JobAt(ids, before, s, s.workers[w].i)
    ensures JobAt(ids, before, WorkNext(ids, s, w, ok), j)
  {
    var t := WorkNext(ids, s, w, ok);
    WorkFrame(ids, s, w, ok);
    var i := s.workers[w].i;
    assert Busy(s.workers[w], i);
    OwnJobAdvances(ids, before, s, w, ok);
    hide WorkNext, Stands, StandingOfWorker, StandingOfOutcome, HasResult, NoRepeats;
    forall st | Stands(s.store, before, ids[j], st) ensures Stands(t.store, before, ids[j], st) {
      OtherJobUntouched(ids, before, s, w, ok, j, st);
    }
    assert !Busy(t.workers[w], j);
    assert forall x :: 0 <= x < |s.workers| ==> (Busy(t.workers[x], j) <==> Busy(s.workers[x], j));
    assert j in t.outcomes <==> j in s.outcomes;
    forall x | 0 <= x < |t.workers| && Busy(t.workers[x], j)
      ensures Stands(t.store, before, ids[j], StandingOfWorker(t.workers[x])) && HasResult(t.results, j, t.workers[x])
    {
      ResultsGrow(s.results, t.results, j, t.workers[x]);
    }
  }

  lemma ResultsGrow(results: set<nat>, more: set<nat>, i: nat, v: Worker)
    requires HasResult(results, i, v) && results <= more
    ensures HasResult(more, i, v)
  {}

  lemma WorkKeepsOwnJob(ids: seq<TaskId>, maxConcurrent: int, before: Persisted, s: State, w: nat, ok: bool)
    requires Sane(ids, maxConcurrent, before, s) && CanWork(ids, s, w) && OnJob(s.workers[w])
    ensures JobAt(ids, before, WorkNext(ids, s, w, ok), s.workers[w].i)
  {
    var t, i := WorkNext(ids, s, w, ok), s.workers[w].i;
    assert JobAt(ids, before, s, i);
    WorkFrame(ids, s, w, ok);
    assert Busy(s.workers[w], i);
    OwnJobAdvances(ids, before, s, w, ok);
    hide WorkNext, Stands, StandingOfWorker, StandingOfOutcome, HasResult;
    assert forall x :: 0 <= x < |s.workers| && x != w ==> !Busy(s.workers[x], i) && !Busy(t.workers[x], i);
  }

  lemma LoopKeepsSane(ids: seq<TaskId>, maxConcurrent: int, before: Persisted, s: State, w: nat, ok: bool)
    requires Sane(ids, maxConcurrent, before, s) && w < |s.workers| && s.workers[w] == AtLoop
    ensures Sane(ids, maxConcurrent, before, WorkNext(ids, s, w, ok))
  {
    LoopKeepsJobs(ids, maxConcurrent, before, s, w, ok);
    hide JobAt;
  }

  lemma JobKeepsSane(ids: seq<TaskId>, maxConcurrent: int, before: Persisted, s: State, w: nat, ok: bool)
    requires NoRepeats(ids) && Sane(ids, maxConcurrent, before, s) && CanWork(ids, s, w) && OnJob(s.workers[w])
    ensures Sane(ids, maxConcurrent, before, WorkNext(ids, s, w, ok))
  {
    var i, t := s.workers[w].i, WorkNext(ids, s, w, ok);
    forall j | 0 <= j < |ids| ensures JobAt(ids, before, t, j) {
      if j == i { WorkKeepsOwnJob(ids, maxConcurrent, before, s, w, ok); }
      else { WorkKeepsOtherJob(ids, before, s, w, ok, j); }
    }
    WorkFrame(ids, s, w, ok);
    OwnJobAdvances(ids, before, s, w, ok) by {
      assert JobAt(ids, before, s, i) && Busy(s.workers[w], i);
    }
    hide JobAt, WorkNext, Stands;
  }

  lemma WorkKeepsSane(ids: seq<TaskId>, maxConcurrent: int, before: Persisted, s: State, w: nat, ok: bool)
    requires NoRepeats(ids) && Sane(ids, maxConcurrent, before, s) && CanWork(ids, s, w)
    ensures Sane(ids, maxConcurrent, before, WorkNext(ids, s, w, ok))
  {
    hide Sane, WorkNext;
    if s.workers[w] == AtLoop {
      LoopKeepsSane(ids, maxConcurrent, before, s, w, ok);
    } else {
      JobKeepsSane(ids, maxConcurrent, before, s, w, ok);
    }
  }

  /** Taking the next job, or leaving the loop when there is none. */
  lemma LoopKeepsJobs(ids: seq<TaskId>, maxConcurrent: int, before: Persisted, s: State, w: nat, ok: bool)
    requires Sane(ids, maxConcurrent, before, s) && w < |s.workers| && s.workers[w] == AtLoop
    ensures forall j :: 0 <= j < |ids| ==> JobAt(ids, before, WorkNext(ids, s, w, ok), j)
  {
    var t := WorkNext(ids, s, w, ok);
    hide Stands;
    forall j | 0 <= j < |ids| ensures JobAt(ids, before, t, j) {
      assert JobAt(ids, before, s, j);
      assert forall x :: 0 <= x < |s.workers| && x != w ==> t.workers[x] == s.workers[x];
      if j == s.index { assert Busy(t.workers[w], j); }
      if j < s.index && j !in s.outcomes {
        var x :| 0 <= x < |s.workers| && Busy(s.workers[x], j);
        assert Busy(t.workers[x], j);
      }
    }
  }

  lemma OtherKeepsSane(ids: seq<TaskId>, maxConcurrent: int, before: Persisted, s: State, m: Mutation, mine: Persisted)
    requires Sane(ids, maxConcurrent, before, s) && Foreign(ids, m, mine, s.store)
    ensures Sane(ids, maxConcurrent, before, s.(store := Written(m, mine, s.store)))
  {
    hide Apply, Written, Harmless;
    StaleEffect(m, mine, s.store);
    var t := s.(store := Apply(m, s.store));
    forall j | 0 <= j < |ids| ensures JobAt(ids, before, t, j) {
      assert JobAt(ids, before, s, j);
      assert ids[j] in ids;
      forall st | Stands(s.store, before, ids[j], st) ensures Stands(t.store, before, ids[j], st) {
        StandsElsewhere(s.store, before, ids[j], st, m);
      }
      hide Stands;
    }
  }

  lemma InitialIsSane(ids: seq<TaskId>, maxConcurrent: int, before: Persisted, s: State)
    requires Initial(ids, maxConcurrent, before, s)
    ensures Sane(ids, maxConcurrent, before, s)
  {
    forall j | 0 <= j < |ids| ensures Stands(s.store, before, ids[j], Open) {
      assert ids[j] in before.pending + ids;
    }
  }

  lemma {:induction false} RunsAreSane(ids: seq<TaskId>, maxConcurrent: int, before: Persisted, steps: seq<Step>,
                                       s: State)
    requires NoRepeats(ids) && Run(ids, maxConcurrent, before, steps, s)
    ensures Sane(ids, maxConcurrent, before, s)
  {
    hide Sane;
    if steps == [] {
      InitialIsSane(ids, maxConcurrent, before, s);
    } else {
      var k := |steps| - 1;
      var r :| Run(ids, maxConcurrent, before, steps[..k], r) && Enabled(ids, r, steps[k]) &&
          s == Next(ids, r, steps[k]);
      RunsAreSane(ids, maxConcurrent, before, steps[..k], r);
      match steps[k] {
        case Work(w, ok, mine) =>
          OwnCallIsExact(ids, r, w, ok, mine);
          WorkKeepsSane(ids, maxConcurrent, before, r, w, ok);
        case Other(m, mine) => OtherKeepsSane(ids, maxConcurrent, before, r, m, mine);
      }
    }
  }

  // ---------- What a batch guarantees ----------

  ghost predicate AllFinished(s: State) {
    forall w :: 0 <= w < |s.workers| ==> s.workers[w] == Finished
  }

  /** Never more than maxConcurrent workers; jobs are taken once each, in order; no two workers share one. */
  lemma ConcurrencyBounded(ids: seq<TaskId>, maxConcurrent: nat, before: Persisted, steps: seq<Step>, s: State)
    requires NoRepeats(ids) && Run(ids, maxConcurrent, before, steps, s)
    ensures |s.workers| == if maxConcurrent < |ids| then maxConcurrent else |ids|
    ensures |s.started| == s.index <= |ids| && forall k :: 0 <= k < s.index ==> s.started[k] == k
    ensures forall w, x :: 0 <= w < x < |s.workers| && OnJob(s.workers[w]) && OnJob(s.workers[x]) ==>
              s.workers[w].i != s.workers[x].i
  {
    RunsAreSane(ids, maxConcurrent, before, steps, s);
    forall w, x | 0 <= w < x < |s.workers| && OnJob(s.workers[w]) && OnJob(s.workers[x])
      ensures s.workers[w].i != s.workers[x].i
    {
      assert JobAt(ids, before, s, s.workers[w].i);
      assert Busy(s.workers[w], s.workers[w].i);
    }
  }

  /** At every moment, a task this batch has recorded as completed already has its result in the log. */
  lemma ResultBeforeCompletion(ids: seq<TaskId>, maxConcurrent: int, before: Persisted, steps: seq<Step>, s: State,
                               i: nat)
    requires NoRepeats(ids) && Run(ids, maxConcurrent, before, steps, s) && i < |ids|
    requires ids[i] in s.store.completed && ids[i] !in before.completed
    ensures i in s.results
  {
    RunsAreSane(ids, maxConcurrent, before, steps, s);
    assert JobAt(ids, before, s, i);
    if i < s.index && i !in s.outcomes {
      var w :| 0 <= w < |s.workers| && Busy(s.workers[w], i);
      assert Stands(s.store, before, ids[i], StandingOfWorker(s.workers[w]));
    }
  }

  /** With at least one slot, a finished batch has run every job, and the store says of each task how it ended. */
  lemma FinishedBatch(ids: seq<TaskId>, maxConcurrent: int, before: Persisted, steps: seq<Step>, s: State, i: nat)
    requires NoRepeats(ids) && Run(ids, maxConcurrent, before, steps, s) && AllFinished(s)
    requires maxConcurrent >= 1 && i < |ids|
    ensures i in s.outcomes && Stands(s.store, before, ids[i], StandingOfOutcome(s.outcomes[i]))
    ensures ids[i] in s.store.pending <==> s.outcomes[i] == Stuck
  {
    RunsAreSane(ids, maxConcurrent, before, steps, s);
    assert s.workers[0] == Finished;
    assert JobAt(ids, before, s, i);
    hide Stands;
    assert forall w :: 0 <= w < |s.workers| ==> !Busy(s.workers[w], i);
    assert Stands(s.store, before, ids[i], StandingOfOutcome(s.outcomes[i]));
    PendingWhenOpen(s.store, before, ids[i], StandingOfOutcome(s.outcomes[i]));
  }

  lemma PendingWhenOpen(store: Persisted, before: Persisted, id: TaskId, st: Standing)
    requires Stands(store, before, id, st)
    ensures id in store.pending <==> st == Open
  {}

  /** Only the handler may throw: every call on the store succeeds. */
  ghost predicate Reliable(s: State, step: Step) {
    match step
    case Work(w, ok, _) => w < |s.workers| && (ok || s.workers[w].Evaluating? || s.workers[w].AtLoop?)
    case Other(_, _) => true
  }

  ghost predicate ReliableRun(ids: seq<TaskId>, maxConcurrent: int, before: Persisted, steps: seq<Step>, s: State) {
    if steps == [] then Initial(ids, maxConcurrent, before, s)
    else
      var k := |steps| - 1;
      exists r :: ReliableRun(ids, maxConcurrent, before, steps[..k], r) && Enabled(ids, r, steps[k])
                  && Reliable(r, steps[k]) && s == Next(ids, r, steps[k])
  }

  ghost predicate CleanlyEnded(ids: seq<TaskId>, s: State) {
    && (forall i :: i in s.outcomes ==> s.outcomes[i] == OnlyCompleted || s.outcomes[i] == OnlyFailed)
    && (forall w :: 0 <= w < |s.workers| ==>
          match s.workers[w]
          case Failing(_, completed) => !completed
          case LoggingFailure(_, completed) => !completed
          case _ => true)
    && (forall w :: 0 <= w < |s.workers| && s.workers[w] != AtLoop && s.workers[w] != Finished ==>
        s.workers[w].i < |ids|)
  }

  lemma ReliableStepEndsCleanly(ids: seq<TaskId>, s: State, step: Step)
    requires CleanlyEnded(ids, s) && Enabled(ids, s, step) && Reliable(s, step) && s.index <= |ids|
    ensures CleanlyEnded(ids, Next(ids, s, step)) && Next(ids, s, step).index <= |ids|
  {
    hide Apply;
  }

  lemma {:induction false} ReliableRunsEndCleanly(ids: seq<TaskId>, maxConcurrent: int, before: Persisted,
                                                  steps: seq<Step>, s: State)
    requires NoRepeats(ids) && ReliableRun(ids, maxConcurrent, before, steps, s)
    ensures Run(ids, maxConcurrent, before, steps, s) && CleanlyEnded(ids, s) && s.index <= |ids|
  {
    hide CleanlyEnded, Apply, Reliable;
    if steps != [] {
      var k := |steps| - 1;
      var r :| ReliableRun(ids, maxConcurrent, before, steps[..k], r) && Enabled(ids, r, steps[k])
        && Reliable(r, steps[k]) && s == Next(ids, r, steps[k]);
      ReliableRunsEndCleanly(ids, maxConcurrent, before, steps[..k], r);
      ReliableStepEndsCleanly(ids, r, steps[k]);
    } else {
      InitialEndsCleanly(ids, maxConcurrent, before, s);
    }
  }

  lemma InitialEndsCleanly(ids: seq<TaskId>, maxConcurrent: int, before: Persisted, s: State)
    requires Initial(ids, maxConcurrent, before, s)
    ensures CleanlyEnded(ids, s)
  {}

  /**
   * When the store never fails, a finished batch leaves each new task settled in exactly one list;
   * and it leaves none of them pending exactly when there was a slot to run them in.
   */
  lemma ReliableBatchSettles(ids: seq<TaskId>, maxConcurrent: int, before: Persisted, steps: seq<Step>, s: State,
                             i: nat)
    requires NoRepeats(ids) && ReliableRun(ids, maxConcurrent, before, steps, s) && AllFinished(s) && i < |ids|
    requires ids[i] !in before.completed && ids[i] !in before.failed
    ensures ids[i] !in s.store.pending <==> maxConcurrent >= 1
    ensures maxConcurrent >= 1 ==>
              && i in s.outcomes
              && (ids[i] in s.store.completed <==> s.outcomes[i] == OnlyCompleted)
              && (ids[i] in s.store.failed <==> s.outcomes[i] == OnlyFailed)
              && (ids[i] in s.store.completed <==> ids[i] !in s.store.failed)
              && (ids[i] in s.store.completed ==> i in s.results)
  {
    ReliableRunsEndCleanly(ids, maxConcurrent, before, steps, s);
    if maxConcurrent >= 1 {
      FinishedBatch(ids, maxConcurrent, before, steps, s, i);
      if ids[i] in s.store.completed { ResultBeforeCompletion(ids, maxConcurrent, before, steps, s, i); }
    } else {
      NoSlotsNoWork(ids, maxConcurrent, before, steps, s);
      RunsAreSane(ids, maxConcurrent, before, steps, s);
      assert JobAt(ids, before, s, i);
    }
  }

  lemma {:induction false} NoSlotsNoWork(ids: seq<TaskId>, maxConcurrent: int, before: Persisted, steps: seq<Step>,
                                         s: State)
    requires Run(ids, maxConcurrent, before, steps, s) && maxConcurrent <= 0
    ensures s.index == 0 && s.workers == []
  {
    if steps != [] {
      var k := |steps| - 1;
      var r :| Run(ids, maxConcurrent, before, steps[..k], r) && Enabled(ids, r, steps[k]) &&
          s == Next(ids, r, steps[k]);
      NoSlotsNoWork(ids, maxConcurrent, before, steps[..k], r);
    }
  }

  // ---------- Ids in both lists ----------

  ghost predicate IsWork(step: Step, w: nat, ok: bool) { step.Work? && step.w == w && step.ok == ok }

  /** Some step of the run was a worker's call from the position `at`, with the given outcome. */
  ghost predicate Happened(ids: seq<TaskId>, maxConcurrent: int, before: Persisted, steps: seq<Step>,
                           at: Worker, ok: bool) {
    && steps != []
    && var k := |steps| - 1;
       || Happened(ids, maxConcurrent, before, steps[..k], at, ok)
       || exists r, w: nat :: Run(ids, maxConcurrent, before, steps[..k], r) && w < |r.workers| &&
            r.workers[w] == at && IsWork(steps[k], w, ok)
  }

  lemma {:induction false} RunsAreDetermined(ids: seq<TaskId>, maxConcurrent: int, before: Persisted,
                                             steps: seq<Step>, s: State, t: State)
    requires Run(ids, maxConcurrent, before, steps, s) && Run(ids, maxConcurrent, before, steps, t)
    ensures s == t
  {
    hide Next, Enabled;
    if steps != [] {
      var k := |steps| - 1;
      var r :| Run(ids, maxConcurrent, before, steps[..k], r) && Enabled(ids, r, steps[k]) &&
          s == Next(ids, r, steps[k]);
      var u :| Run(ids, maxConcurrent, before, steps[..k], u) && Enabled(ids, u, steps[k]) &&
          t == Next(ids, u, steps[k]);
      RunsAreDetermined(ids, maxConcurrent, before, steps[..k], r, u);
    }
  }

  ghost predicate SomeoneAt(s: State, at: Worker) {
    exists w :: 0 <= w < |s.workers| && s.workers[w] == at
  }

  /** Where job i stands, and what must have happened before. */
  ghost predicate Told(s: State, i: nat, logThrew: bool, failedToo: bool) {
    && (SomeoneAt(s, Failing(i, true)) ==> logThrew)
    && (failedToo <==> SomeoneAt(s, LoggingFailure(i, true)) || (i in s.outcomes && s.outcomes[i] == Both))
    && (failedToo ==> logThrew)
  }

  lemma StepTells(ids: seq<TaskId>, before: Persisted, s: State, w: nat, ok: bool, i: nat,
                  logThrew: bool, failedToo: bool)
    requires Told(s, i, logThrew, failedToo) && CanWork(ids, s, w)
    requires Busy(s.workers[w], i) ==> i !in s.outcomes && forall x :: 0 <= x < |s.workers| && x != w ==>
               !Busy(s.workers[x], i)
    ensures Told(WorkNext(ids, s, w, ok), i,
                 logThrew || (s.workers[w] == LoggingSuccess(i) && !ok),
                 failedToo || (s.workers[w] == Failing(i, true) && ok))
  {
    hide Apply;
    var t := WorkNext(ids, s, w, ok);
    assert forall x :: 0 <= x < |s.workers| && x != w ==> t.workers[x] == s.workers[x];
    forall at | SomeoneAt(s, at) && s.workers[w] != at ensures SomeoneAt(t, at) {
      var x :| 0 <= x < |s.workers| && s.workers[x] == at;
      assert t.workers[x] == at;
    }
    assert t.workers[w] == LoggingFailure(i, true) ==> SomeoneAt(t, LoggingFailure(i, true));
  }

  lemma {:induction false} RunsTell(ids: seq<TaskId>, maxConcurrent: int, before: Persisted, steps: seq<Step>,
                                    s: State, i: nat)
    requires NoRepeats(ids) && Run(ids, maxConcurrent, before, steps, s) && i < |ids|
    ensures Told(s, i, Happened(ids, maxConcurrent, before, steps, LoggingSuccess(i), false),
                 Happened(ids, maxConcurrent, before, steps, Failing(i, true), true))
  {
    if steps != [] {
      var k := |steps| - 1;
      var prefix := steps[..k];
      var r :| Run(ids, maxConcurrent, before, prefix, r) && Enabled(ids, r, steps[k]) && s == Next(ids, r, steps[k]);
      RunsTell(ids, maxConcurrent, before, prefix, r, i);
      RunsAreSane(ids, maxConcurrent, before, prefix, r);
      hide Run, Sane, Told, Written, WorkNext;
      forall at, ok
        ensures Happened(ids, maxConcurrent, before, steps, at, ok) <==>
                  || Happened(ids, maxConcurrent, before, prefix, at, ok)
                  || exists w: nat :: w < |r.workers| && r.workers[w] == at && IsWork(steps[k], w, ok)
      {
        LastHappened(ids, maxConcurrent, before, steps, r, at, ok);
      }
      match steps[k] {
        case Work(w, ok, mine) =>
          OwnCallIsExact(ids, r, w, ok, mine);
          OneOnAJob(ids, maxConcurrent, before, r, w, i);
          StepTells(ids, before, r, w, ok, i,
                    Happened(ids, maxConcurrent, before, prefix, LoggingSuccess(i), false),
                    Happened(ids, maxConcurrent, before, prefix, Failing(i, true), true));
        case Other(m, mine) =>
          SameWorkersTell(r, s, i, Happened(ids, maxConcurrent, before, prefix, LoggingSuccess(i), false),
                          Happened(ids, maxConcurrent, before, prefix, Failing(i, true), true));
      }
    }
  }

  lemma SameWorkersTell(r: State, s: State, i: nat, logThrew: bool, failedToo: bool)
    requires Told(r, i, logThrew, failedToo) && s.workers == r.workers && s.outcomes == r.outcomes
    ensures Told(s, i, logThrew, failedToo)
  {}

  lemma OneOnAJob(ids: seq<TaskId>, maxConcurrent: int, before: Persisted, s: State, w: nat, i: nat)
    requires Sane(ids, maxConcurrent, before, s) && w < |s.workers| && i < |ids|
    ensures Busy(s.workers[w], i) ==> i !in s.outcomes && forall x :: 0 <= x < |s.workers| && x != w ==>
              !Busy(s.workers[x], i)
  {
    assert JobAt(ids, before, s, i);
    hide Stands, HasResult;
  }

  lemma LastHappened(ids: seq<TaskId>, maxConcurrent: int, before: Persisted, steps: seq<Step>, r: State,
                     at: Worker, ok: bool)
    requires steps != [] && Run(ids, maxConcurrent, before, steps[..|steps| - 1], r)
    ensures var k := |steps| - 1;
            Happened(ids, maxConcurrent, before, steps, at, ok) <==>
              || Happened(ids, maxConcurrent, before, steps[..k], at, ok)
              || exists w: nat :: w < |r.workers| && r.workers[w] == at && IsWork(steps[k], w, ok)
  {
    hide Run;
    var k := |steps| - 1;
    forall u | Run(ids, maxConcurrent, before, steps[..k], u) ensures u == r {
      RunsAreDetermined(ids, maxConcurrent, before, steps[..k], u, r);
    }
  }

  /**
   * At every moment of every run a new id is in both lists exactly when its log write after completeTask
   * threw and the failTask of the catch block went through: no other failing call brings it there.
   */
  lemma RecordedTwiceExactly(ids: seq<TaskId>, maxConcurrent: int, before: Persisted, steps: seq<Step>,
                             s: State, i: nat)
    requires NoRepeats(ids) && Run(ids, maxConcurrent, before, steps, s) && i < |ids|
    requires ids[i] !in before.completed && ids[i] !in before.failed
    ensures ids[i] in s.store.completed && ids[i] in s.store.failed <==>
              && Happened(ids, maxConcurrent, before, steps, LoggingSuccess(i), false)
              && Happened(ids, maxConcurrent, before, steps, Failing(i, true), true)
  {
    RunsAreSane(ids, maxConcurrent, before, steps, s);
    RunsTell(ids, maxConcurrent, before, steps, s, i);
    assert JobAt(ids, before, s, i);
    hide Run, Happened, Stands, HasResult;
    forall st | Stands(s.store, before, ids[i], st)
      ensures ids[i] in s.store.completed && ids[i] in s.store.failed <==> st == FailedToo
    {
      BothListsWhen(s.store, before, ids[i], st);
    }
    if i < s.index && i !in s.outcomes {
      var w :| 0 <= w < |s.workers| && Busy(s.workers[w], i);
      assert SomeoneAt(s, s.workers[w]);
      OneOnAJob(ids, maxConcurrent, before, s, w, i);
    }
  }

  lemma BothListsWhen(store: Persisted, before: Persisted, id: TaskId, st: Standing)
    requires Stands(store, before, id, st) && id !in before.completed && id !in before.failed
    ensures id in store.completed && id in store.failed <==> st == FailedToo
  {}

  lemma OneMoreStep(ids: seq<TaskId>, maxConcurrent: int, before: Persisted, steps: seq<Step>, s: State, step: Step)
    returns (steps': seq<Step>, t: State)
    requires Run(ids, maxConcurrent, before, steps, s) && Enabled(ids, s, step)
    ensures steps' == steps + [step] && t == Next(ids, s, step) && Run(ids, maxConcurrent, before, steps', t)
  {
    steps', t := steps + [step], Next(ids, s, step);
    assert steps'[..|steps|] == steps;
  }

  lemma SoloStart(id: TaskId, before: Persisted) returns (s: State)
    ensures s == State(0, [AtLoop], Apply(RegisterPending([id]), before), {}, [], map[])
    ensures Run([id], 1, before, [], s)
  {
    hide Apply;
    s := State(0, [AtLoop], Apply(RegisterPending([id]), before), {}, [], map[]);
    var workers := seq(Slots(1, 1), _ => AtLoop);
    assert |workers| == 1 && workers[0] == AtLoop;
    assert workers == [AtLoop];
  }

  /** A batch of one job and one worker, from its start to its completeTask call. */
  lemma RunToCompleting(id: TaskId, before: Persisted) returns (steps: seq<Step>, s: State)
    ensures Run([id], 1, before, steps, s)
    ensures s.index == 1 && s.workers == [Completing(0)] && s.store == Apply(RegisterPending([id]), before)
  {
    hide Run, Apply, Foreign, Written, Initial;
    steps := [];
    s := SoloStart(id, before);
    steps, s := OneMoreStep([id], 1, before, steps, s, Work(0, true, s.store));
    assert s.index == 1 && s.workers == [Evaluating(0)];
    steps, s := OneMoreStep([id], 1, before, steps, s, Work(0, true, s.store));
    assert s.index == 1 && s.workers == [Submitting(0)];
    steps, s := OneMoreStep([id], 1, before, steps, s, Work(0, true, s.store));
  }

  /** From there, with the log write throwing and all other calls going through. */
  lemma RunThroughCatch(id: TaskId, before: Persisted, begun: seq<Step>, at: State)
    returns (steps: seq<Step>, s: State)
    requires Run([id], 1, before, begun, at)
    requires at.index == 1 && at.workers == [Completing(0)]
    ensures Run([id], 1, before, steps, s) && AllFinished(s)
    ensures s.store == Apply(FailTask(id, "error"), Apply(CompleteTask(id), at.store))
  {
    hide Run, Apply, Foreign;
    steps, s := OneMoreStep([id], 1, before, begun, at, Work(0, true, at.store));
    assert s.index == 1 && s.workers == [LoggingSuccess(0)];
    steps, s := OneMoreStep([id], 1, before, steps, s, Work(0, false, s.store));
    assert s.index == 1 && s.workers == [Failing(0, true)];
    steps, s := OneMoreStep([id], 1, before, steps, s, Work(0, true, s.store));
    assert s.index == 1 && s.workers == [LoggingFailure(0, true)];
    steps, s := OneMoreStep([id], 1, before, steps, s, Work(0, true, s.store));
    assert s.index == 1 && s.workers == [AtLoop];
    steps, s := OneMoreStep([id], 1, before, steps, s, Work(0, true, s.store));
  }

  /**
   * And such runs exist: a log write that throws right after completeTask makes the catch block fail the
   * same job too, and its id ends in both lists.
   */
  lemma LogFailureRecordsBoth(id: TaskId, before: Persisted) returns (steps: seq<Step>, s: State)
    ensures Run([id], 1, before, steps, s) && AllFinished(s)
    ensures id in s.store.completed && id in s.store.failed
  {
    hide *;
    var begun, at := RunToCompleting(id, before);
    steps, s := RunThroughCatch(id, before, begun, at);
    BothLists(id, Apply(RegisterPending([id]), before));
  }

  lemma BothLists(id: TaskId, d: Persisted)
    ensures var e := Apply(FailTask(id, "error"), Apply(CompleteTask(id), d));
            id in e.completed && id in e.failed
  {}

  // ---------- What a task's calls make of it ----------

  /** A worker is at one of the given positions, or job i has ended in one of the given ways. */
  ghost predicate Reached(s: State, i: nat, at: set<Worker>, ends: set<Outcome>) {
    (exists w :: 0 <= w < |s.workers| && s.workers[w] in at) || (i in s.outcomes && s.outcomes[i] in ends)
  }

  ghost predicate OfJob(at: set<Worker>, i: nat) {
    forall v :: v in at ==> Busy(v, i) && !v.Evaluating?
  }

  /** A step moves job i only if it is that of the worker on it. */
  lemma ReachedAfter(ids: seq<TaskId>, s: State, w: nat, ok: bool, i: nat, at: set<Worker>, ends: set<Outcome>)
    requires CanWork(ids, s, w) && OfJob(at, i)
    requires Busy(s.workers[w], i) ==> i !in s.outcomes && forall x :: 0 <= x < |s.workers| && x != w ==>
               !Busy(s.workers[x], i)
    ensures var t := WorkNext(ids, s, w, ok);
            Reached(t, i, at, ends) <==>
              if Busy(s.workers[w], i) then t.workers[w] in at || (i in t.outcomes && t.outcomes[i] in ends)
              else Reached(s, i, at, ends)
  {
    hide Apply;
    var t := WorkNext(ids, s, w, ok);
    WorkFrame(ids, s, w, ok);
    assert forall x :: 0 <= x < |s.workers| && x != w ==> t.workers[x] == s.workers[x];
    if !Busy(s.workers[w], i) {
      assert t.workers[w] !in at && s.workers[w] !in at;
      assert i in t.outcomes <==> i in s.outcomes;
      hide WorkNext, OfJob, Busy;
    } else {
      assert forall x :: 0 <= x < |s.workers| && x != w ==> t.workers[x] !in at;
      hide WorkNext, OfJob, Busy;
    }
  }

  ghost function Completed(i: nat): set<Worker> { {LoggingSuccess(i), Failing(i, true), LoggingFailure(i, true)} }

  ghost function Caught(i: nat): set<Worker> { {Failing(i, false), LoggingFailure(i, false)} }

  /** What calls of job i have happened, told by where it stands. */
  datatype Calls = Calls(completed: bool, threw: bool, failedToo: bool, failed: bool, failThrew: bool)

  ghost predicate Accounted(s: State, i: nat, c: Calls) {
    && (c.completed <==> Reached(s, i, Completed(i), {OnlyCompleted, Both, Unlogged}))
    && (c.threw <==> Reached(s, i, Caught(i), {OnlyFailed, Stuck}))
    && (c.failedToo <==> Reached(s, i, {LoggingFailure(i, true)}, {Both}))
    && (c.failed <==> Reached(s, i, {LoggingFailure(i, false)}, {OnlyFailed}))
    && (c.failThrew <==> Reached(s, i, {}, {Stuck}))
  }

  ghost predicate Before(v: Worker, i: nat) { v in {Evaluating(i), Submitting(i), Completing(i)} }

  /** The calls of job i after one more of a worker at position v. */
  ghost function OneMoreCall(c: Calls, v: Worker, i: nat, ok: bool): Calls {
    Calls(c.completed || (v == Completing(i) && ok), c.threw || (Before(v, i) && !ok),
          c.failedToo || (v == Failing(i, true) && ok), c.failed || (v == Failing(i, false) && ok),
          c.failThrew || (v == Failing(i, false) && !ok))
  }

  lemma StepAccounts(ids: seq<TaskId>, s: State, w: nat, ok: bool, i: nat, c: Calls)
    requires Accounted(s, i, c) && CanWork(ids, s, w)
    requires Busy(s.workers[w], i) ==> i !in s.outcomes && forall x :: 0 <= x < |s.workers| && x != w ==>
               !Busy(s.workers[x], i)
    ensures Accounted(WorkNext(ids, s, w, ok), i, OneMoreCall(c, s.workers[w], i, ok))
  {
    ReachedAfter(ids, s, w, ok, i, Completed(i), {OnlyCompleted, Both, Unlogged});
    ReachedAfter(ids, s, w, ok, i, Caught(i), {OnlyFailed, Stuck});
    ReachedAfter(ids, s, w, ok, i, {LoggingFailure(i, true)}, {Both});
    ReachedAfter(ids, s, w, ok, i, {LoggingFailure(i, false)}, {OnlyFailed});
    ReachedAfter(ids, s, w, ok, i, {}, {Stuck});
    if Busy(s.workers[w], i) {
      OnlyItsWorker(s, w, i, Completed(i), {OnlyCompleted, Both, Unlogged});
      OnlyItsWorker(s, w, i, Caught(i), {OnlyFailed, Stuck});
      OnlyItsWorker(s, w, i, {LoggingFailure(i, true)}, {Both});
      OnlyItsWorker(s, w, i, {LoggingFailure(i, false)}, {OnlyFailed});
      OnlyItsWorker(s, w, i, {}, {Stuck});
    }
    hide Apply, Reached;
  }

  lemma OnlyItsWorker(s: State, w: nat, i: nat, at: set<Worker>, ends: set<Outcome>)
    requires w < |s.workers| && OfJob(at, i) && i !in s.outcomes
    requires forall x :: 0 <= x < |s.workers| && x != w ==> !Busy(s.workers[x], i)
    ensures Reached(s, i, at, ends) <==> s.workers[w] in at
  {}

  /** The calls of job i that happened in a run. */
  ghost function CallsOf(ids: seq<TaskId>, maxConcurrent: int, before: Persisted, steps: seq<Step>, i: nat): Calls {
    var h := (at: Worker, ok: bool) => Happened(ids, maxConcurrent, before, steps, at, ok);
    Calls(h(Completing(i), true),
          h(Evaluating(i), false) || h(Submitting(i), false) || h(Completing(i), false),
          h(Failing(i, true), true), h(Failing(i, false), true), h(Failing(i, false), false))
  }

  lemma CallsGrow(ids: seq<TaskId>, maxConcurrent: int, before: Persisted, steps: seq<Step>, r: State, i: nat)
    requires steps != [] && Run(ids, maxConcurrent, before, steps[..|steps| - 1], r)
    requires Enabled(ids, r, steps[|steps| - 1])
    ensures var k := |steps| - 1;
            CallsOf(ids, maxConcurrent, before, steps, i) ==
              var c := CallsOf(ids, maxConcurrent, before, steps[..k], i);
              if steps[k].Work? then OneMoreCall(c, r.workers[steps[k].w], i, steps[k].ok) else c
  {
    hide Run, Happened;
    LastHappened(ids, maxConcurrent, before, steps, r, Completing(i), true);
    LastHappened(ids, maxConcurrent, before, steps, r, Evaluating(i), false);
    LastHappened(ids, maxConcurrent, before, steps, r, Submitting(i), false);
    LastHappened(ids, maxConcurrent, before, steps, r, Completing(i), false);
    LastHappened(ids, maxConcurrent, before, steps, r, Failing(i, true), true);
    LastHappened(ids, maxConcurrent, before, steps, r, Failing(i, false), true);
    LastHappened(ids, maxConcurrent, before, steps, r, Failing(i, false), false);
  }

  lemma {:induction false} RunsAccount(ids: seq<TaskId>, maxConcurrent: int, before: Persisted, steps: seq<Step>,
                                       s: State, i: nat)
    requires NoRepeats(ids) && Run(ids, maxConcurrent, before, steps, s) && i < |ids|
    ensures Accounted(s, i, CallsOf(ids, maxConcurrent, before, steps, i))
  {
    if steps != [] {
      var k := |steps| - 1;
      var r :| Run(ids, maxConcurrent, before, steps[..k], r) && Enabled(ids, r, steps[k]) &&
          s == Next(ids, r, steps[k]);
      RunsAccount(ids, maxConcurrent, before, steps[..k], r, i);
      RunsAreSane(ids, maxConcurrent, before, steps[..k], r);
      CallsGrow(ids, maxConcurrent, before, steps, r, i);
      hide Run, Sane, Accounted, Written, WorkFrom, WorkNext, CallsOf, OneMoreCall;
      var c := CallsOf(ids, maxConcurrent, before, steps[..k], i);
      match steps[k] {
        case Work(w, ok, mine) =>
          OwnCallIsExact(ids, r, w, ok, mine);
          OneOnAJob(ids, maxConcurrent, before, r, w, i);
          StepAccounts(ids, r, w, ok, i, c);
        case Other(m, mine) =>
          SameWorkersAccount(r, s, i, c);
      }
    }
  }

  lemma SameWorkersAccount(r: State, s: State, i: nat, c: Calls)
    requires Accounted(r, i, c) && s.workers == r.workers && s.outcomes == r.outcomes
    ensures Accounted(s, i, c)
  {}

  /**
   * In any finished batch, whatever threw, a new task is completed exactly if its completeTask went through,
   * failed exactly if a failTask of its catch block did, and still pending exactly if a call before completion
   * threw and that failTask threw too: nothing else is lost.
   */
  lemma CallsDecide(ids: seq<TaskId>, maxConcurrent: int, before: Persisted, steps: seq<Step>, s: State, i: nat)
    requires NoRepeats(ids) && Run(ids, maxConcurrent, before, steps, s) && AllFinished(s)
    requires maxConcurrent >= 1 && i < |ids| && ids[i] !in before.completed && ids[i] !in before.failed
    ensures var c := CallsOf(ids, maxConcurrent, before, steps, i);
            && (ids[i] in s.store.completed <==> c.completed)
            && (ids[i] in s.store.failed <==> c.failed || c.failedToo)
            && (ids[i] in s.store.pending <==> c.failThrew)
            && (c.completed <==> !c.threw)
            && (c.threw <==> c.failed || c.failThrew)
  {
    FinishedBatch(ids, maxConcurrent, before, steps, s, i);
    RunsAccount(ids, maxConcurrent, before, steps, s, i);
    hide Run, CallsOf;
    var c := CallsOf(ids, maxConcurrent, before, steps, i);
    assert forall w :: 0 <= w < |s.workers| ==> s.workers[w] == Finished;
  }

  lemma {:induction false} ReliableCallsSucceed(ids: seq<TaskId>, maxConcurrent: int, before: Persisted,
                                                steps: seq<Step>, s: State, at: Worker)
    requires NoRepeats(ids) && ReliableRun(ids, maxConcurrent, before, steps, s) && OnJob(at) && !at.Evaluating?
    ensures !Happened(ids, maxConcurrent, before, steps, at, false)
  {
    if steps != [] {
      var k := |steps| - 1;
      var r :| ReliableRun(ids, maxConcurrent, before, steps[..k], r) && Enabled(ids, r, steps[k])
        && Reliable(r, steps[k]) && s == Next(ids, r, steps[k]);
      ReliableCallsSucceed(ids, maxConcurrent, before, steps[..k], r, at);
      ReliableRunsEndCleanly(ids, maxConcurrent, before, steps[..k], r);
      LastHappened(ids, maxConcurrent, before, steps, r, at, false);
    }
  }

  /** When the store never fails, the handler decides: a task has failed if it threw, and else is completed. */
  lemma HandlerDecides(ids: seq<TaskId>, maxConcurrent: int, before: Persisted, steps: seq<Step>, s: State, i: nat)
    requires NoRepeats(ids) && ReliableRun(ids, maxConcurrent, before, steps, s) && AllFinished(s) && i < |ids|
    requires ids[i] !in before.completed && ids[i] !in before.failed && maxConcurrent >= 1
    ensures ids[i] in s.store.failed <==> Happened(ids, maxConcurrent, before, steps, Evaluating(i), false)
    ensures ids[i] in s.store.completed <==> !Happened(ids, maxConcurrent, before, steps, Evaluating(i), false)
  {
    ReliableRunsEndCleanly(ids, maxConcurrent, before, steps, s);
    ReliableBatchSettles(ids, maxConcurrent, before, steps, s, i);
    CallsDecide(ids, maxConcurrent, before, steps, s, i);
    ReliableCallsSucceed(ids, maxConcurrent, before, steps, s, Submitting(i));
    ReliableCallsSucceed(ids, maxConcurrent, before, steps, s, Completing(i));
    hide Run, ReliableRun, Happened;
  }

  // ---------- Progress ----------

  function Rank(v: Worker): nat {
    match v
    case Evaluating(_) => 7
    case Submitting(_) => 6
    case Completing(_) => 5
    case LoggingSuccess(_) => 4
    case Failing(_, _) => 3
    case LoggingFailure(_, _) => 2
    case AtLoop => 1
    case Finished => 0
  }

  ghost function RankSum(workers: seq<Worker>): nat {
    if workers == [] then 0 else RankSum(workers[..|workers| - 1]) + Rank(workers[|workers| - 1])
  }

  lemma {:induction false} RankSumUpdate(workers: seq<Worker>, w: nat, v: Worker)
    requires w < |workers|
    ensures RankSum(workers[w := v]) == RankSum(workers) - Rank(workers[w]) + Rank(v)
  {
    var n := |workers| - 1;
    if w == n {
      assert workers[w := v][..n] == workers[..n];
    } else {
      assert workers[w := v][..n] == workers[..n][w := v];
      RankSumUpdate(workers[..n], w, v);
    }
  }

  ghost function Remaining(ids: seq<TaskId>, s: State): int {
    8 * (|ids| - s.index) + RankSum(s.workers)
  }

  /** A batch that has not finished can move, and every move of a worker brings it closer to its end. */
  lemma BatchTerminates(ids: seq<TaskId>, maxConcurrent: int, before: Persisted, steps: seq<Step>, s: State)
    requires NoRepeats(ids) && Run(ids, maxConcurrent, before, steps, s)
    ensures Remaining(ids, s) >= 0
    ensures !AllFinished(s) ==> exists w ::
              Enabled(ids, s, Work(w, true, s.store)) && Enabled(ids, s, Work(w, false, s.store))
    ensures forall w, ok, mine :: Enabled(ids, s, Work(w, ok, mine)) ==>
              Remaining(ids, Next(ids, s, Work(w, ok, mine))) < Remaining(ids, s)
  {
    RunsAreSane(ids, maxConcurrent, before, steps, s);
    if !AllFinished(s) {
      var w :| 0 <= w < |s.workers| && s.workers[w] != Finished;
      FreshCallsAreHarmless(ids, s, w);
      assert Enabled(ids, s, Work(w, true, s.store)) && Enabled(ids, s, Work(w, false, s.store));
    }
    forall w: nat, ok, mine | Enabled(ids, s, Work(w, ok, mine))
      ensures Remaining(ids, Next(ids, s, Work(w, ok, mine))) < Remaining(ids, s)
    {
      OwnCallIsExact(ids, s, w, ok, mine);
      WorkDecreases(ids, s, w, ok);
    }
  }

  lemma FreshCallsAreHarmless(ids: seq<TaskId>, s: State, w: nat)
    requires CanWork(ids, s, w)
    ensures HarmlessCall(ids, s, w, s.store)
  {
    hide Harmless;
    match s.workers[w] {
      case Completing(i) => FreshIsHarmless(CompleteTask(ids[i]), s.store);
      case Failing(i, _) => FreshIsHarmless(FailTask(ids[i], "error"), s.store);
      case _ =>
    }
  }

  lemma WorkDecreases(ids: seq<TaskId>, s: State, w: nat, ok: bool)
    requires CanWork(ids, s, w) && s.index <= |ids|
    ensures Remaining(ids, WorkNext(ids, s, w, ok)) < Remaining(ids, s)
  {
    var t := WorkNext(ids, s, w, ok);
    WorkFrame(ids, s, w, ok);
    RankSumUpdate(s.workers, w, t.workers[w]);
    hide Apply, RankSum;
  }
}
