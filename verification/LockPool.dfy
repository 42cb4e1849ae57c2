/** CampaignStateStore's reference-counted lock pool: _withLock, _releaseLock and cleanup. */
module LockPool {

  datatype Stage = Waiting | Running | Settled | Released

  /** One _withLock call, on the chain of the pool entry it found or created. */
  datatype Op = Op(campaign: string, entry: nat, stage: Stage)

  /** The pool maps a campaign to an entry; entries outlive their place in the pool, as objects do. */
  datatype Pool = Pool(entries: map<string, nat>, counts: seq<int>, ops: seq<Op>)

  datatype Step =
    | WithLock(campaign: string)
    | Start(op: nat)     // the chain reaches the operation
    | Settle(op: nat)    // it fulfils or rejects
    | Release(op: nat)   // its _releaseLock callback runs
    | Cleanup(campaign: string)

  ghost predicate Over(op: Op) { op.stage == Settled || op.stage == Released }

  /** The pool's entry for a campaign, if it has one, is one that was created. */
  predicate EntryExists(p: Pool, c: string) { c in p.entries ==> p.entries[c] < |p.counts| }

  /** An operation starts once everything chained before it on its own entry has settled. */
  ghost predicate Enabled(p: Pool, step: Step) {
    match step
    case WithLock(c) => EntryExists(p, c)
    case Start(j) => j < |p.ops| && p.ops[j].stage == Waiting
                     && forall i :: 0 <= i < j && p.ops[i].entry == p.ops[j].entry ==> Over(p.ops[i])
    case Settle(j) => j < |p.ops| && p.ops[j].stage == Running
    case Release(j) => j < |p.ops| && p.ops[j].stage == Settled && EntryExists(p, p.ops[j].campaign)
    case Cleanup(c) => EntryExists(p, c)
  }

  ghost function SetStage(p: Pool, j: nat, stage: Stage): Pool
    requires j < |p.ops|
  {
    p.(ops := p.ops[j := p.ops[j].(stage := stage)])
  }

  ghost function Next(p: Pool, step: Step): Pool
    requires Enabled(p, step)
  {
    match step
    case WithLock(c) =>
      var e := if c in p.entries then p.entries[c] else |p.counts|;
      var counts := if c in p.entries then p.counts else p.counts + [0];
      Pool(p.entries[c := e], counts[e := counts[e] + 1], p.ops + [Op(c, e, Waiting)])
    case Start(j) => SetStage(p, j, Running)
    case Settle(j) => SetStage(p, j, Settled)
    case Release(j) =>
      var q := SetStage(p, j, Released);
      var c := p.ops[j].campaign;
      if c !in p.entries then q
      else
        var e := p.entries[c];
        q.(counts := p.counts[e := p.counts[e] - 1],
           entries := if p.counts[e] - 1 == 0 then p.entries - {c} else p.entries)
    case Cleanup(c) =>
      if c in p.entries && p.counts[p.entries[c]] == 0 then p.(entries := p.entries - {c}) else p
  }

  // ---------- The invariant ----------

  ghost predicate Outstanding(p: Pool, c: string, i: nat) {
    i < |p.ops| && p.ops[i].campaign == c && p.ops[i].stage != Released
  }

  /** Outstanding operations among the first n. */
  ghost function CountOutstanding(ops: seq<Op>, c: string): nat {
    if ops == [] then 0
    else
      var n := |ops| - 1;
      CountOutstanding(ops[..n], c) + if ops[n].campaign == c && ops[n].stage != Released then 1 else 0
  }

  lemma {:induction false} CountZeroMeansNone(ops: seq<Op>, c: string)
    ensures CountOutstanding(ops, c) == 0 <==>
            forall i :: 0 <= i < |ops| ==> !(ops[i].campaign == c && ops[i].stage != Released)
  {
    if ops != [] {
      var n := |ops| - 1;
      CountZeroMeansNone(ops[..n], c);
      assert forall i :: 0 <= i < n ==> ops[..n][i] == ops[i];
    }
  }

  lemma {:induction false} CountAfterStage(ops: seq<Op>, c: string, j: nat, stage: Stage)
    requires j < |ops| && ops[j].stage != Released
    ensures CountOutstanding(ops[j := ops[j].(stage := stage)], c)
            == CountOutstanding(ops, c) - if ops[j].campaign == c && stage == Released then 1 else 0
  {
    var n := |ops| - 1;
    var ops' := ops[j := ops[j].(stage := stage)];
    if j == n {
      assert ops'[..n] == ops[..n];
    } else {
      assert ops'[..n] == ops[..n][j := ops[j].(stage := stage)];
      CountAfterStage(ops[..n], c, j, stage);
    }
  }

  /** An entry is in the pool exactly while its campaign has operations outstanding, and counts them. */
  ghost predicate Counted(p: Pool) {
    && (forall c :: c in p.entries ==>
          p.entries[c] < |p.counts| && p.counts[p.entries[c]] == CountOutstanding(p.ops, c) > 0)
    && (forall c :: c !in p.entries ==> CountOutstanding(p.ops, c) == 0)
    && (forall c, d :: c in p.entries && d in p.entries && p.entries[c] == p.entries[d] ==> c == d)
  }

  /** Outstanding operations all hang on the pool entry of their campaign, and so did everything called after them. */
  ghost predicate Chained(p: Pool) {
    && (forall i :: 0 <= i < |p.ops| && p.ops[i].stage != Released ==>
          p.ops[i].campaign in p.entries && p.entries[p.ops[i].campaign] == p.ops[i].entry)
    && (forall i, j :: 0 <= i < j < |p.ops| && p.ops[i].campaign == p.ops[j].campaign && p.ops[i].stage != Released ==>
          p.ops[i].entry == p.ops[j].entry)
  }

  /** Nothing has started before all earlier calls for the same campaign were over. */
  ghost predicate InCallOrder(p: Pool) {
    forall i, j :: 0 <= i < j < |p.ops| && p.ops[i].campaign == p.ops[j].campaign && p.ops[j].stage != Waiting ==>
      Over(p.ops[i])
  }

  ghost predicate Valid(p: Pool) { Counted(p) && Chained(p) && InCallOrder(p) }

  lemma CallCounts(p: Pool, op: Op, d: string)
    requires op.stage != Released
    ensures CountOutstanding(p.ops + [op], d) == CountOutstanding(p.ops, d) + if d == op.campaign then 1 else 0
  {
    assert (p.ops + [op])[..|p.ops|] == p.ops;
  }

  lemma JoinKeepsCounted(p: Pool, c: string)
    requires Counted(p) && c in p.entries
    ensures Counted(Next(p, WithLock(c)))
  {
    var q := Next(p, WithLock(c));
    forall d: string ensures CountOutstanding(q.ops, d) == CountOutstanding(p.ops, d) + if d == c then 1 else 0 {
      CallCounts(p, Op(c, p.entries[c], Waiting), d);
    }
    hide CountOutstanding;
    assert q.entries == p.entries;
  }

  lemma NewEntryKeepsCounted(p: Pool, c: string)
    requires Counted(p) && c !in p.entries
    ensures Counted(Next(p, WithLock(c)))
  {
    var q := Next(p, WithLock(c));
    forall d: string ensures CountOutstanding(q.ops, d) == CountOutstanding(p.ops, d) + if d == c then 1 else 0 {
      CallCounts(p, Op(c, |p.counts|, Waiting), d);
    }
    hide CountOutstanding;
    assert forall d :: d in p.entries ==> p.entries[d] < |p.counts|;
  }

  lemma CallKeepsCounted(p: Pool, c: string)
    requires Counted(p)
    ensures Counted(Next(p, WithLock(c)))
  {
    if c in p.entries { JoinKeepsCounted(p, c); } else { NewEntryKeepsCounted(p, c); }
  }

  lemma CallKeepsValid(p: Pool, c: string)
    requires Valid(p)
    ensures Valid(Next(p, WithLock(c)))
  {
    CallKeepsCounted(p, c);
    CallKeepsChained(p, c);
    CallKeepsOrder(p, c);
    hide *;
    ValidInParts(Next(p, WithLock(c)));
  }

  lemma ValidInParts(p: Pool)
    ensures Valid(p) <==> Counted(p) && Chained(p) && InCallOrder(p)
  {
    hide Counted, Chained, InCallOrder;
  }

  lemma CallKeepsChained(p: Pool, c: string)
    requires Valid(p)
    ensures Chained(Next(p, WithLock(c)))
  {
    if c !in p.entries { CountZeroMeansNone(p.ops, c); }
    hide CountOutstanding, InCallOrder;
  }

  lemma CallKeepsOrder(p: Pool, c: string)
    requires Valid(p)
    ensures InCallOrder(Next(p, WithLock(c)))
  {
    hide CountOutstanding, Chained;
  }

  lemma StartKeepsValid(p: Pool, j: nat)
    requires Valid(p) && Enabled(p, Start(j))
    ensures Valid(Next(p, Start(j)))
  {
    var q := Next(p, Start(j));
    forall c: string ensures CountOutstanding(q.ops, c) == CountOutstanding(p.ops, c) {
      CountAfterStage(p.ops, c, j, Running);
    }
    forall i | 0 <= i < j && p.ops[i].campaign == p.ops[j].campaign ensures Over(p.ops[i]) {
      if p.ops[i].stage != Released { assert p.ops[i].entry == p.ops[j].entry; }
    }
  }

  lemma SettleKeepsValid(p: Pool, j: nat)
    requires Valid(p) && Enabled(p, Settle(j))
    ensures Valid(Next(p, Settle(j)))
  {
    var q := Next(p, Settle(j));
    forall c: string ensures CountOutstanding(q.ops, c) == CountOutstanding(p.ops, c) {
      CountAfterStage(p.ops, c, j, Settled);
    }
  }

  lemma ReleaseKeepsCounted(p: Pool, j: nat)
    requires Valid(p) && Enabled(p, Release(j))
    ensures Counted(Next(p, Release(j)))
  {
    var q := Next(p, Release(j));
    var c := p.ops[j].campaign;
    forall d: string ensures CountOutstanding(q.ops, d) == CountOutstanding(p.ops, d) - if d == c then 1 else 0 {
      CountAfterStage(p.ops, d, j, Released);
    }
    hide CountOutstanding, InCallOrder;
  }

  lemma ReleaseKeepsValid(p: Pool, j: nat)
    requires Valid(p) && Enabled(p, Release(j))
    ensures Valid(Next(p, Release(j)))
  {
    ReleaseKeepsCounted(p, j);
    ReleaseKeepsChained(p, j);
    ReleaseKeepsOrder(p, j);
    hide *;
    ValidInParts(Next(p, Release(j)));
  }

  lemma ReleaseKeepsChained(p: Pool, j: nat)
    requires Valid(p) && Enabled(p, Release(j))
    ensures Chained(Next(p, Release(j)))
  {
    ReleaseKeepsCounted(p, j);
    var q := Next(p, Release(j));
    var c := p.ops[j].campaign;
    if c !in q.entries { CountZeroMeansNone(q.ops, c); }
    hide CountOutstanding, InCallOrder;
  }

  lemma ReleaseKeepsOrder(p: Pool, j: nat)
    requires Valid(p) && Enabled(p, Release(j))
    ensures InCallOrder(Next(p, Release(j)))
  {
    hide CountOutstanding, Chained, Counted;
  }

  /** cleanup at any moment leaves the pool as it is: an entry in the pool never has count 0. */
  lemma CleanupIsHarmless(p: Pool, c: string)
    requires Valid(p)
    ensures Enabled(p, Cleanup(c)) && Next(p, Cleanup(c)) == p
  {}

  // ---------- Every run ----------

  const EMPTY: Pool := Pool(map[], [], [])

  ghost predicate Run(steps: seq<Step>, p: Pool) {
    if steps == [] then p == EMPTY
    else
      var k := |steps| - 1;
      exists q :: Run(steps[..k], q) && Enabled(q, steps[k]) && p == Next(q, steps[k])
  }

  lemma StepKeepsValid(p: Pool, step: Step)
    requires Valid(p) && Enabled(p, step)
    ensures Valid(Next(p, step))
  {
    match step {
      case WithLock(c) => CallKeepsValid(p, c);
      case Start(j) => StartKeepsValid(p, j);
      case Settle(j) => SettleKeepsValid(p, j);
      case Release(j) => ReleaseKeepsValid(p, j);
      case Cleanup(c) => CleanupIsHarmless(p, c);
    }
  }

  lemma {:induction false} RunsAreValid(steps: seq<Step>, p: Pool)
    requires Run(steps, p)
    ensures Valid(p)
  {
    if steps != [] {
      var k := |steps| - 1;
      var q :| Run(steps[..k], q) && Enabled(q, steps[k]) && p == Next(q, steps[k]);
      RunsAreValid(steps[..k], q);
      StepKeepsValid(q, steps[k]);
    }
  }

  /** At most one operation per campaign runs at a time, and operations run in call order. */
  lemma MutualExclusion(steps: seq<Step>, p: Pool, i: nat, j: nat)
    requires Run(steps, p) && i < j < |p.ops| && p.ops[i].campaign == p.ops[j].campaign
    ensures !(p.ops[i].stage == Running && p.ops[j].stage == Running)
    ensures p.ops[j].stage != Waiting ==> Over(p.ops[i])
  {
    RunsAreValid(steps, p);
  }

  /** A pool entry exists exactly while its campaign has an operation outstanding. */
  lemma EntryWhileOutstanding(steps: seq<Step>, p: Pool, c: string)
    requires Run(steps, p)
    ensures c in p.entries <==> exists i :: Outstanding(p, c, i)
    ensures Enabled(p, WithLock(c))
    ensures Enabled(p, Cleanup(c)) && Next(p, Cleanup(c)) == p
  {
    RunsAreValid(steps, p);
    CleanupIsHarmless(p, c);
    CountZeroMeansNone(p.ops, c);
    if c in p.entries {
      var i :| 0 <= i < |p.ops| && p.ops[i].campaign == c && p.ops[i].stage != Released;
      assert Outstanding(p, c, i);
    } else {
      assert forall i: nat :: !Outstanding(p, c, i);
    }
  }

  /** The queue never stalls: while a campaign has operations outstanding, the first of them can move. */
  lemma FirstOutstandingCanMove(steps: seq<Step>, p: Pool, i: nat)
    requires Run(steps, p) && i < |p.ops| && p.ops[i].stage != Released
    requires forall h :: 0 <= h < i && p.ops[h].campaign == p.ops[i].campaign ==> Over(p.ops[h])
    ensures Enabled(p, Start(i)) || Enabled(p, Settle(i)) || Enabled(p, Release(i))
  {
    RunsAreValid(steps, p);
    EntriesBelongToOneCampaign(steps, p);
  }

  ghost predicate EntriesSeparate(p: Pool) {
    && (forall i :: 0 <= i < |p.ops| ==> p.ops[i].entry < |p.counts|)
    && (forall i, j :: 0 <= i < j < |p.ops| && p.ops[i].entry == p.ops[j].entry ==>
        p.ops[i].campaign == p.ops[j].campaign)
    && (forall i, c :: 0 <= i < |p.ops| && c in p.entries && p.entries[c] == p.ops[i].entry ==> p.ops[i].campaign == c)
  }

  lemma {:induction false} EntriesBelongToOneCampaign(steps: seq<Step>, p: Pool)
    requires Run(steps, p)
    ensures EntriesSeparate(p)
  {
    if steps != [] {
      var k := |steps| - 1;
      var q :| Run(steps[..k], q) && Enabled(q, steps[k]) && p == Next(q, steps[k]);
      EntriesBelongToOneCampaign(steps[..k], q);
      RunsAreValid(steps[..k], q);
      StepKeepsSeparate(q, steps[k]);
    }
  }

  lemma CallKeepsSeparate(p: Pool, c: string)
    requires Counted(p) && EntriesSeparate(p)
    ensures EntriesSeparate(Next(p, WithLock(c)))
  {
    hide CountOutstanding;
    if c in p.entries {
      assert Next(p, WithLock(c)).entries == p.entries;
    } else {
      assert forall d :: d in p.entries ==> p.entries[d] < |p.counts|;
    }
  }

  /** Stages and entries removed do not matter. */
  lemma FewerEntriesSeparate(p: Pool, q: Pool)
    requires EntriesSeparate(p) && |q.ops| == |p.ops| && |q.counts| == |p.counts|
    requires forall i :: 0 <= i < |p.ops| ==> q.ops[i].campaign == p.ops[i].campaign && q.ops[i].entry == p.ops[i].entry
    requires forall c :: c in q.entries ==> c in p.entries && q.entries[c] == p.entries[c]
    ensures EntriesSeparate(q)
  {}

  lemma StepKeepsSeparate(p: Pool, step: Step)
    requires Counted(p) && EntriesSeparate(p) && Enabled(p, step)
    ensures EntriesSeparate(Next(p, step))
  {
    if step.WithLock? {
      CallKeepsSeparate(p, step.campaign);
    } else {
      hide EntriesSeparate, Counted;
      FewerEntriesSeparate(p, Next(p, step));
    }
  }

  // ---------- The static maps, updated in place ----------

  class LockTable {
    var entries: map<string, nat>
    var counts: seq<int>
    var ops: seq<Op>

    ghost function View(): Pool reads this { Pool(entries, counts, ops) }

    constructor ()
      ensures View() == EMPTY
    {
      entries, counts, ops := map[], [], [];
    }

    method Enter(campaign: string) returns (op: nat)
      requires Valid(View())
      modifies this
      ensures View() == Next(old(View()), WithLock(campaign)) && Valid(View())
      ensures op == |old(ops)| && ops[op].stage == Waiting
    {
      CallKeepsValid(View(), campaign);
      if campaign !in entries {
        entries := entries[campaign := |counts|];
        counts := counts + [0];
      }
      var e := entries[campaign];
      counts := counts[e := counts[e] + 1];
      op := |ops|;
      ops := ops + [Op(campaign, e, Waiting)];
      assert entries == old(entries)[campaign := e];
    }

    /** The callback that runs when an operation has settled. */
    method ReleaseLock(op: nat)
      requires Valid(View()) && Enabled(View(), Release(op))
      modifies this
      ensures View() == Next(old(View()), Release(op)) && Valid(View())
    {
      ReleaseKeepsValid(View(), op);
      var campaign := ops[op].campaign;
      ops := ops[op := ops[op].(stage := Released)];
      if campaign !in entries { return; }
      var e := entries[campaign];
      counts := counts[e := counts[e] - 1];
      if counts[e] == 0 { entries := entries - {campaign}; }
    }

    method CleanUp(campaign: string)
      requires Enabled(View(), Cleanup(campaign))
      modifies this
      ensures View() == Next(old(View()), Cleanup(campaign))
    {
      if campaign in entries && counts[entries[campaign]] == 0 {
        entries := entries - {campaign};
      }
    }
  }
}
