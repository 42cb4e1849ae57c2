/**
 * Several store instances of one campaign, sharing a disk through the mutation lock.
 * Each step is one uninterrupted stretch of some asynchronous operation.
 */
module StoreProtocol {
  import opened CampaignTypes
  import opened CampaignState

  datatype Call = Call(instance: nat, mutation: Mutation)

  /** Where the operation holding the lock is. */
  datatype Progress =
    | Free
    | Saving(call: Call)                     // checked; awaiting the snapshot of the phase being left
    | Writing(call: Call, data: Persisted)   // mutated in memory; the write is on its way

  /** A reload() outside the lock: the instance that called it, and what its read found. */
  datatype Outside = Outside(instance: nat, found: Persisted)

  datatype State = State(
    disk: Persisted,
    instances: seq<Persisted>,          // each instance's state in memory
    queue: seq<Call>,                   // waiting for the lock, first in line first
    progress: Progress,
    reading: map<nat, Outside>,         // reload() calls outside the lock that have read and not yet delivered
    settled: seq<Mutation>)             // ghost history: mutations that ended successfully, in order

  datatype Step =
    | Load
    | Enqueue(call: Call)
    | Grant(read: Read)
    | LeaveSnapshot
    | Write(ok: bool)
    | BeginReload(id: nat, instance: nat)
    | EndReload(id: nat)

  ghost predicate Enabled(s: State, step: Step) {
    match step
    case Load => true
    case Enqueue(call) => call.instance < |s.instances|
    case Grant(_) => s.progress.Free? && s.queue != [] && s.queue[0].instance < |s.instances|
    case LeaveSnapshot => s.progress.Saving? && s.progress.call.instance < |s.instances|
    case Write(_) => s.progress.Writing?
    case BeginReload(id, i) => id !in s.reading && i < |s.instances|
    case EndReload(id) => id in s.reading && s.reading[id].instance < |s.instances|
  }

  /** The state in memory the operation works on: reloaded first, except by transitionPhase. */
  ghost function Base(s: State, read: Read): Persisted
    requires Enabled(s, Grant(read))
  {
    if s.queue[0].mutation.TransitionPhase? || read != Readable then s.instances[s.queue[0].instance] else s.disk
  }

  ghost function Next(s: State, step: Step): State
    requires Enabled(s, step)
  {
    match step
    case Load => s.(instances := s.instances + [s.disk])
    case Enqueue(call) => s.(queue := s.queue + [call])
    case Grant(read) =>
      var call := s.queue[0];
      var m, base := call.mutation, Base(s, read);
      var s' := s.(queue := s.queue[1..], instances := s.instances[call.instance := base]);
      if m.TransitionPhase? then
        if m.to in ValidTransitions(base.phase) then s'.(progress := Saving(call)) else s'
      else if read == Broken then s'
      else if m.MarkFailed? then
        if Terminal(base.phase) then s'.(settled := s.settled + [m]) else s'.(progress := Saving(call))
      else
        s'.(instances := s.instances[call.instance := Apply(m, base)], progress := Writing(call, Apply(m, base)))
    case LeaveSnapshot =>
      var call := s.progress.call;
      var data := Leave(call.mutation, s.instances[call.instance]);
      s.(instances := s.instances[call.instance := data], progress := Writing(call, data))
    case Write(ok) =>
      if ok then s.(disk := s.progress.data, progress := Free, settled := s.settled + [s.progress.call.mutation])
      else s.(progress := Free)
    case BeginReload(id, i) => s.(reading := s.reading[id := Outside(i, s.disk)])
    case EndReload(id) =>
      var r := s.reading[id];
      s.(instances := s.instances[r.instance := r.found], reading := s.reading - {id})
  }

  // ---------- Runs ----------

  ghost predicate Run(s: State, steps: seq<Step>, t: State) {
    if steps == [] then s == t
    else
      var k := |steps| - 1;
      exists u :: Run(s, steps[..k], u) && Enabled(u, steps[k]) && t == Next(u, steps[k])
  }

  ghost predicate Initial(s: State) {
    s.queue == [] && s.progress.Free? && s.reading == map[] && s.settled == []
  }

  /**
   * What a step must satisfy for no update to be lost. A lock holder that does not read the disk works from
   * a state whose lag is harmless to its mutation; and when a phase change resumes after its snapshot, its
   * state in memory, which a reload may have replaced meanwhile, agrees with the disk elsewhere.
   */
  ghost predicate Careful(s: State, step: Step)
    requires Enabled(s, step)
  {
    match step
    case Grant(Busy) =>
      var m, mine := s.queue[0].mutation, s.instances[s.queue[0].instance];
      if ChangesPhase(m) then m.MarkFailed? && Terminal(mine.phase) ==> Terminal(s.disk.phase)
      else Harmless(m, mine, s.disk)
    case LeaveSnapshot =>
      ChangesPhase(s.progress.call.mutation) ==>
        && AgreeElsewhere(s.progress.call.mutation, s.instances[s.progress.call.instance], s.disk)
        && Suits(s.progress.call.mutation, s.disk)
    case _ => true
  }

  ghost predicate CarefulRun(s: State, steps: seq<Step>, t: State) {
    if steps == [] then s == t
    else
      var k := |steps| - 1;
      exists u :: CarefulRun(s, steps[..k], u) && Enabled(u, steps[k]) && Careful(u, steps[k]) && t == Next(u, steps[k])
  }

  /** The disk is the serial outcome so far, and the lock holder is about to write the next serial state. */
  ghost predicate Serial(initial: Persisted, s: State) {
    && s.disk == ApplyAll(s.settled, initial)
    && (s.progress.Saving? ==> ChangesPhase(s.progress.call.mutation))
    && (s.progress.Writing? ==> s.progress.data == Apply(s.progress.call.mutation, s.disk))
  }

  lemma SettleOne(initial: Persisted, ms: seq<Mutation>, m: Mutation)
    ensures ApplyAll(ms + [m], initial) == Apply(m, ApplyAll(ms, initial))
  {
    assert (ms + [m])[..|ms|] == ms;
  }

  /** A step keeps the disk serial exactly when it is careful: no weaker care would do. */
  lemma StepKeepsSerial(initial: Persisted, s: State, step: Step)
    requires Serial(initial, s) && Enabled(s, step)
    ensures Serial(initial, Next(s, step)) <==> Careful(s, step)
  {
    hide ApplyAll, Apply, Leave, Harmless, AgreeElsewhere, Suits;
    match step {
      case Grant(read) =>
        GrantKeepsSerial(initial, s, read);
      case LeaveSnapshot =>
        LeaveEffect(s.progress.call.mutation, s.instances[s.progress.call.instance], s.disk);
      case Write(ok) =>
        SettleOne(initial, s.settled, s.progress.call.mutation);
      case _ =>
    }
  }

  lemma GrantKeepsSerial(initial: Persisted, s: State, read: Read)
    requires Serial(initial, s) && Enabled(s, Grant(read))
    ensures Serial(initial, Next(s, Grant(read))) <==> Careful(s, Grant(read))
  {
    hide ApplyAll, Harmless, AgreeElsewhere, Suits, Dedup, Without, Including, ValidTransitions;
    var m, base := s.queue[0].mutation, Base(s, read);
    SettleOne(initial, s.settled, m);
    StaleEffect(m, base, s.disk);
  }

  lemma InitialIsSerial(s: State)
    requires Initial(s)
    ensures Serial(s.disk, s)
  {}

  /**
   * Over every careful interleaving the disk equals the settled mutations applied one after another,
   * in the order the lock was granted: no update is lost, however stale an instance was.
   */
  lemma {:induction false} NoLostUpdates(s: State, steps: seq<Step>, t: State)
    requires Initial(s) && CarefulRun(s, steps, t)
    ensures Serial(s.disk, t)
  {
    hide Serial, Careful;
    InitialIsSerial(s);
    if steps != [] {
      var k := |steps| - 1;
      var u :| CarefulRun(s, steps[..k], u) && Enabled(u, steps[k]) && Careful(u, steps[k]) && t == Next(u, steps[k]);
      NoLostUpdates(s, steps[..k], u);
      StepKeepsSerial(s.disk, u, steps[k]);
    }
  }

  /** A run that is serial in every state it passes through. */
  ghost predicate SerialRun(s: State, steps: seq<Step>, t: State) {
    if steps == [] then s == t
    else
      var k := |steps| - 1;
      exists u :: SerialRun(s, steps[..k], u) && Enabled(u, steps[k]) && t == Next(u, steps[k]) && Serial(s.disk, t)
  }

  /** The careful runs are exactly the runs that never lose an update nor are about to. */
  lemma {:induction false} CarefulMeansSerial(s: State, steps: seq<Step>, t: State)
    requires Initial(s)
    ensures CarefulRun(s, steps, t) <==> SerialRun(s, steps, t)
    ensures CarefulRun(s, steps, t) ==> Serial(s.disk, t)
  {
    hide Serial, Next, Enabled, Careful;
    if steps == [] {
      InitialIsSerial(s);
    } else {
      var k := |steps| - 1;
      forall u ensures CarefulRun(s, steps[..k], u) <==> SerialRun(s, steps[..k], u) {
        CarefulMeansSerial(s, steps[..k], u);
      }
      forall u | CarefulRun(s, steps[..k], u) && Enabled(u, steps[k])
        ensures Serial(s.disk, Next(u, steps[k])) <==> Careful(u, steps[k])
      {
        CarefulMeansSerial(s, steps[..k], u);
        StepKeepsSerial(s.disk, u, steps[k]);
      }
    }
  }

  /** In particular a task reported complete stays complete on disk. */
  lemma CompletionsPersist(s: State, steps: seq<Step>, t: State, id: TaskId)
    requires Initial(s) && CarefulRun(s, steps, t) && CompleteTask(id) in t.settled
    ensures id in t.disk.completed
  {
    NoLostUpdates(s, steps, t);
    CompletedExactly(t.settled, s.disk, id);
  }

  /** A reload-first mutation; markFailed, which yields before it writes, only if reloads are all under the lock. */
  ghost predicate ReloadsFirst(m: Mutation, locked: bool) {
    !m.TransitionPhase? && (m.MarkFailed? ==> locked)
  }

  ghost predicate ReloadFirst(step: Step, locked: bool) {
    match step
    case Enqueue(call) => ReloadsFirst(call.mutation, locked)
    case Grant(read) => read != Busy
    case EndReload(_) => !locked
    case _ => true
  }

  ghost predicate OnlyReloadFirst(s: State, locked: bool) {
    && (s.progress.Saving? ==> locked && s.progress.call.mutation.MarkFailed? && !Terminal(s.disk.phase)
                               && s.progress.call.instance < |s.instances|
                               && s.instances[s.progress.call.instance] == s.disk)
    && forall c :: c in s.queue ==> ReloadsFirst(c.mutation, locked)
  }

  lemma ReloadFirstIsCareful(s: State, step: Step, locked: bool)
    requires OnlyReloadFirst(s, locked) && Enabled(s, step) && ReloadFirst(step, locked)
    ensures Careful(s, step) && OnlyReloadFirst(Next(s, step), locked)
  {
    if step.Grant? { assert s.queue[0] in s.queue; }
  }

  /** Reload-first operations with readable files need no further care: every run of them is careful. */
  lemma {:induction false} ReloadFirstRuns(s: State, steps: seq<Step>, t: State, locked: bool)
    requires Initial(s) && Run(s, steps, t) && forall k :: 0 <= k < |steps| ==> ReloadFirst(steps[k], locked)
    ensures CarefulRun(s, steps, t) && OnlyReloadFirst(t, locked)
  {
    if steps != [] {
      var k := |steps| - 1;
      var u :| Run(s, steps[..k], u) && Enabled(u, steps[k]) && t == Next(u, steps[k]);
      ReloadFirstRuns(s, steps[..k], u, locked);
      ReloadFirstIsCareful(u, steps[k], locked);
    }
  }

  // ---------- Lists without repeats ----------

  /** No list on disk, in memory or on its way between them repeats an id. */
  ghost predicate AllProper(s: State) {
    && Proper(s.disk)
    && (forall i :: 0 <= i < |s.instances| ==> Proper(s.instances[i]))
    && (forall id :: id in s.reading ==> Proper(s.reading[id].found))
    && (s.progress.Writing? ==> Proper(s.progress.data))
  }

  lemma StepKeepsProper(s: State, step: Step)
    requires AllProper(s) && Enabled(s, step)
    ensures AllProper(Next(s, step))
  {
    match step {
      case Grant(read) => GrantKeepsProper(s, read);
      case _ => hide Apply;
    }
  }

  lemma GrantKeepsProper(s: State, read: Read)
    requires AllProper(s) && Enabled(s, Grant(read))
    ensures AllProper(Next(s, Grant(read)))
  {
    hide Apply, ValidTransitions, Proper, Base;
    BaseIsProper(s, read);
    ApplyProper(s.queue[0].mutation, Base(s, read));
  }

  lemma BaseIsProper(s: State, read: Read)
    requires AllProper(s) && Enabled(s, Grant(read))
    ensures Proper(Base(s, read))
  {}

  /** Whatever goes wrong, no run makes an id appear twice in a list. */
  lemma {:induction false} RunsStayProper(s: State, steps: seq<Step>, t: State)
    requires AllProper(s) && Run(s, steps, t)
    ensures AllProper(t)
  {
    hide AllProper;
    if steps != [] {
      var k := |steps| - 1;
      var u :| Run(s, steps[..k], u) && Enabled(u, steps[k]) && t == Next(u, steps[k]);
      RunsStayProper(s, steps[..k], u);
      StepKeepsProper(u, steps[k]);
    }
  }

  // ---------- What happens without care ----------

  /**
   * A transition granted to an instance with state `mine` does to the disk what it should exactly when
   * `mine` allows it and differs from the disk in the phase at most, or refuses it, and the disk agrees
   * or is in the wanted phase already.
   */
  lemma TransitionEffect(s: State, disk: Persisted)
    requires Enabled(s, Grant(Readable)) && s.disk == disk && s.queue[0].mutation.TransitionPhase?
    ensures var call := s.queue[0];
            var mine, to := s.instances[call.instance], call.mutation.to;
            var s1 := Next(s, Grant(Readable));
            var s3 := if s1.progress.Saving? then Next(Next(s1, LeaveSnapshot), Write(true)) else s1;
            s3.disk == Apply(call.mutation, disk) <==>
              if to in ValidTransitions(mine.phase)
              then mine.(phase := disk.phase) == disk && (to in ValidTransitions(disk.phase) || to == disk.phase)
              else to !in ValidTransitions(disk.phase) || to == disk.phase
  {}

  /**
   * A reload delivered while markFailed awaits its snapshot: the disk still ends as it should exactly when
   * what was read differs from it at most in the two fields markFailed overwrites.
   */
  lemma MarkFailedEffect(s: State, id: nat)
    requires s.progress.Saving? && s.progress.call.mutation.MarkFailed?
    requires Enabled(s, EndReload(id)) && s.reading[id].instance == s.progress.call.instance && !Terminal(s.disk.phase)
    ensures var final := Next(Next(Next(s, EndReload(id)), LeaveSnapshot), Write(true));
            final.disk == Apply(s.progress.call.mutation, s.disk) <==>
              s.reading[id].found.(phase := s.disk.phase, failureReason := s.disk.failureReason) == s.disk
  {}

  /**
   * A reload-first operation whose read finds the file busy goes on from the state in memory: the disk ends
   * as it should exactly when that state lags only harmlessly.
   */
  lemma BusyEffect(s: State)
    requires Enabled(s, Grant(Busy)) && !ChangesPhase(s.queue[0].mutation)
    ensures var call := s.queue[0];
            Next(Next(s, Grant(Busy)), Write(true)).disk == Apply(call.mutation, s.disk) <==>
              Harmless(call.mutation, s.instances[call.instance], s.disk)
  {
    hide Apply, Harmless;
    StaleEffect(s.queue[0].mutation, s.instances[s.queue[0].instance], s.disk);
  }

  function Fresh(phase: CampaignPhase, pending: seq<TaskId>): Persisted {
    Persisted(phase, [], pending, [], [], None)
  }

  /** Runs the steps from s, as far as they are enabled. */
  ghost function Play(s: State, steps: seq<Step>): State {
    if steps == [] then s
    else
      var k := |steps| - 1;
      var u := Play(s, steps[..k]);
      if Enabled(u, steps[k]) then Next(u, steps[k]) else u
  }

  ghost predicate Playable(s: State, steps: seq<Step>) {
    forall k :: 0 <= k < |steps| ==> Enabled(Play(s, steps[..k]), steps[k])
  }

  lemma {:induction false} PlayIsRun(s: State, steps: seq<Step>)
    requires Playable(s, steps)
    ensures Run(s, steps, Play(s, steps))
  {
    if steps != [] {
      var k := |steps| - 1;
      forall j | 0 <= j < k ensures Enabled(Play(s, steps[..k][..j]), steps[..k][j]) {
        assert steps[..k][..j] == steps[..j];
      }
      PlayIsRun(s, steps[..k]);
    }
  }

  lemma PlayStep(s: State, steps: seq<Step>, step: Step)
    requires Playable(s, steps) && Enabled(Play(s, steps), step)
    ensures Playable(s, steps + [step]) && Play(s, steps + [step]) == Next(Play(s, steps), step)
  {
    var all := steps + [step];
    forall k | 0 <= k < |all| ensures Enabled(Play(s, all[..k]), all[k]) {
      if k < |steps| { assert all[..k] == steps[..k]; } else { assert all[..k] == steps; }
    }
    assert all[..|steps|] == steps;
  }

  /** No call of transitionPhase and no busy file: what reloading first is about. */
  ghost predicate ReloadsAlways(step: Step) {
    !(step.Enqueue? && step.call.mutation.TransitionPhase?) && step != Grant(Busy)
  }

  ghost predicate AllReload(steps: seq<Step>) {
    forall step :: step in steps ==> ReloadsAlways(step)
  }

  /** One more step of a run being played, from the state `now` it has reached. */
  lemma PlayOn(s: State, steps: seq<Step>, now: State, step: Step) returns (steps': seq<Step>, next: State)
    requires Playable(s, steps) && now == Play(s, steps) && Enabled(now, step)
    ensures steps' == steps + [step] && next == Next(now, step)
    ensures Playable(s, steps') && next == Play(s, steps')
    ensures AllReload(steps) && ReloadsAlways(step) ==> AllReload(steps')
  {
    PlayStep(s, steps, step);
    steps', next := steps + [step], Next(now, step);
  }

  /** Instance 1 completes t while nothing else holds or awaits the lock. */
  lemma CompleteElsewhere(s: State, steps: seq<Step>, now: State, t: TaskId) returns (steps': seq<Step>, final: State)
    requires Playable(s, steps) && now == Play(s, steps)
    requires |now.instances| == 2 && now.queue == [] && now.progress.Free?
    ensures Playable(s, steps') && final == Play(s, steps')
    ensures steps' == steps + [Enqueue(Call(1, CompleteTask(t))), Grant(Readable), Write(true)]
    ensures AllReload(steps) ==> AllReload(steps')
    ensures var done := Apply(CompleteTask(t), now.disk);
            final == now.(disk := done, instances := [now.instances[0], done],
                settled := now.settled + [CompleteTask(t)])
  {
    hide Play, Playable, Without, Including, AllReload;
    steps', final := PlayOn(s, steps, now, Enqueue(Call(1, CompleteTask(t))));
    steps', final := PlayOn(s, steps', final, Grant(Readable));
    steps', final := PlayOn(s, steps', final, Write(true));
  }

  /** Instance 0 is marked failed while a reload of it, begun earlier, delivers its state before the write. */
  lemma MarkFailedUnderReload(s: State, steps: seq<Step>, now: State, reason: string)
    returns (steps': seq<Step>, final: State)
    requires Playable(s, steps) && now == Play(s, steps)
    requires |now.instances| == 2 && now.queue == [] && now.progress.Free?
    requires 0 in now.reading && now.reading[0].instance == 0 && !Terminal(now.disk.phase)
    ensures Playable(s, steps') && final == Play(s, steps')
    ensures AllReload(steps) ==> AllReload(steps')
    ensures final.disk == now.reading[0].found.(phase := Failed, failureReason := Some(reason))
    ensures final.settled == now.settled + [MarkFailed(reason)]
  {
    hide Play, Playable, AllReload;
    steps', final := PlayOn(s, steps, now, Enqueue(Call(0, MarkFailed(reason))));
    steps', final := PlayOn(s, steps', final, Grant(Readable));
    steps', final := PlayOn(s, steps', final, EndReload(0));
    steps', final := PlayOn(s, steps', final, LeaveSnapshot);
    steps', final := PlayOn(s, steps', final, Write(true));
  }

  /** Instance 0 moves on from its state in memory while nothing else holds or awaits the lock. */
  lemma TransitionFromMemory(s: State, steps: seq<Step>, now: State, to: CampaignPhase)
    returns (steps': seq<Step>, final: State)
    requires Playable(s, steps) && now == Play(s, steps)
    requires |now.instances| == 2 && now.queue == [] && now.progress.Free?
    requires to in ValidTransitions(now.instances[0].phase)
    ensures Playable(s, steps') && final == Play(s, steps')
    ensures final.disk == now.instances[0].(phase := to)
    ensures final.settled == now.settled + [TransitionPhase(to)]
  {
    hide Play, Playable, AllReload, ValidTransitions;
    steps', final := PlayOn(s, steps, now, Enqueue(Call(0, TransitionPhase(to))));
    steps', final := PlayOn(s, steps', final, Grant(Readable));
    steps', final := PlayOn(s, steps', final, LeaveSnapshot);
    steps', final := PlayOn(s, steps', final, Write(true));
  }

  /**
   * transitionPhase does not reload: the monitor (instance 0) loaded before the worker (instance 1)
   * completed task t, then moves the campaign on, and the completion is gone from the disk.
   */
  lemma StaleTransitionLosesCompletion(t: TaskId) returns (s: State, steps: seq<Step>, final: State)
    ensures Initial(s) && Run(s, steps, final)
    ensures CompleteTask(t) in final.settled && t !in final.disk.completed && t in final.disk.pending
  {
    var d := Fresh(EvaluatingL0, [t]);
    s := State(d, [d, d], [], Free, map[], []);
    assert Playable(s, []) && Play(s, []) == s && ParetoReadyL0 in ValidTransitions(d.phase);
    hide *;
    steps, final := CompleteElsewhere(s, [], s, t);
    steps, final := TransitionFromMemory(s, steps, final, ParetoReadyL0);
    PlayIsRun(s, steps);
  }

  /** Instance 0 completes u on a busy file while nothing else holds or awaits the lock. */
  lemma CompleteWhileBusy(s: State, steps: seq<Step>, now: State, u: TaskId) returns (steps': seq<Step>, final: State)
    requires Playable(s, steps) && now == Play(s, steps)
    requires |now.instances| == 2 && now.queue == [] && now.progress.Free?
    ensures Playable(s, steps') && final == Play(s, steps')
    ensures steps' == steps + [Enqueue(Call(0, CompleteTask(u))), Grant(Busy), Write(true)]
    ensures final.disk == Apply(CompleteTask(u), now.instances[0])
    ensures final.settled == now.settled + [CompleteTask(u)]
  {
    hide Play, Playable, Without, Including, AllReload;
    steps', final := PlayOn(s, steps, now, Enqueue(Call(0, CompleteTask(u))));
    steps', final := PlayOn(s, steps', final, Grant(Busy));
    steps', final := PlayOn(s, steps', final, Write(true));
  }

  /**
   * Reloading first is not enough when the file is busy: instance 0 loaded before instance 1 completed t,
   * keeps that state when its own read fails, and its completion of u erases the one of t.
   */
  lemma BusyReadLosesCompletion(t: TaskId, u: TaskId) returns (s: State, steps: seq<Step>, final: State)
    requires t != u
    ensures Initial(s) && Run(s, steps, final)
    ensures steps == [Enqueue(Call(1, CompleteTask(t))), Grant(Readable), Write(true),
                      Enqueue(Call(0, CompleteTask(u))), Grant(Busy), Write(true)]
    ensures CompleteTask(t) in final.settled && t !in final.disk.completed && t in final.disk.pending
  {
    var d := Fresh(EvaluatingL0, [t, u]);
    s := State(d, [d, d], [], Free, map[], []);
    assert Playable(s, []) && Play(s, []) == s && Initial(s);
    StillOpen(t, u, d);
    hide *;
    var begun, now := CompleteElsewhere(s, [], s, t);
    assert now.settled == [CompleteTask(t)];
    steps, final := CompleteWhileBusy(s, begun, now, u);
    assert final.settled == [CompleteTask(t), CompleteTask(u)];
    PlayIsRun(s, steps);
  }

  lemma StillOpen(t: TaskId, u: TaskId, d: Persisted)
    requires t != u && t in d.pending && t !in d.completed
    ensures var e := Apply(CompleteTask(u), d); t in e.pending && t !in e.completed
  {}

  lemma CompletedPhase(t: TaskId, d: Persisted)
    ensures Apply(CompleteTask(t), d).phase == d.phase
  {
  }

  /**
   * Reloading first is not enough for markFailed when its instance is shared: a reload begun earlier,
   * outside the lock, may deliver the old state while markFailed awaits its snapshot.
   */
  lemma LateReloadLosesCompletion(t: TaskId) returns (s: State, steps: seq<Step>, final: State)
    ensures Initial(s) && Run(s, steps, final)
    ensures AllReload(steps)
    ensures CompleteTask(t) in final.settled && t !in final.disk.completed
  {
    var d := Fresh(EvaluatingL0, [t]);
    s := State(d, [d, d], [], Free, map[], []);
    assert Playable(s, []) && Play(s, []) == s && !Terminal(EvaluatingL0);
    steps, final := PlayOn(s, [], s, BeginReload(0, 0));
    assert final == s.(reading := map[0 := Outside(0, d)]);
    hide *;
    CompletedPhase(t, d);
    steps, final := CompleteElsewhere(s, steps, final, t);
    steps, final := MarkFailedUnderReload(s, steps, final, "expired");
    PlayIsRun(s, steps);
  }
}
