/** CampaignMonitor's way from evaluations to an escalation plan: best fidelity, ranking, selection. */
module Escalation {
  import opened CampaignTypes
  import opened BestFidelity
  import opened Crowding
  import opened CrowdingBounds
  import opened FidelityLadder
  import opened Pareto
  import opened Sequences

  /** Part of a list with unique ids has unique ids. */
  lemma PartIsUnique(rs: seq<EvaluationResult>, part: seq<EvaluationResult>)
    requires UniqueIds(rs) && multiset(part) <= multiset(rs)
    ensures UniqueIds(part)
  {
    forall i, j | 0 <= i < j < |part| ensures part[i].designPoint.id != part[j].designPoint.id {
      UniqueMembers(rs, part, i, j);
    }
  }

  lemma RankIsPart(ranks: seq<seq<EvaluationResult>>, k: nat)
    requires k < |ranks|
    ensures multiset(ranks[k]) <= multiset(Flatten(ranks))
  {
    hide Flatten;
    FlattenAt(ranks, k);
  }

  /** The ranks of results with unique ids have unique ids each. */
  lemma RanksHaveUniqueIds(objectives: seq<Objective>, rs: seq<EvaluationResult>,
                           ranks: seq<seq<EvaluationResult>>, k: nat)
    requires UniqueIds(rs) && Ranked(objectives, rs, ranks) && k < |ranks|
    ensures UniqueIds(ranks[k])
  {
    hide *;
    RanksPartition(objectives, rs, ranks);
    RankIsPart(ranks, k);
    PartIsUnique(rs, ranks[k]);
  }

  lemma SelectionIsPart(objectives: seq<Objective>, ranks: seq<seq<EvaluationResult>>, count: nat,
                        selected: seq<EvaluationResult>)
    requires Selection(objectives, ranks, count, selected)
    ensures multiset(selected) <= multiset(Flatten(ranks))
  {
    hide Flatten, CrowdingOf;
    var whole: nat, taken, left :| BestRanks(objectives, ranks, selected, whole, taken, left);
    if whole < |ranks| {
      FlattenAt(ranks, whole);
    } else {
      assert ranks[..whole] == ranks && selected + [] == selected;
    }
  }

  /** No design point is promoted twice. */
  lemma SelectionHasUniqueIds(objectives: seq<Objective>, rs: seq<EvaluationResult>,
                              ranks: seq<seq<EvaluationResult>>, count: nat, selected: seq<EvaluationResult>)
    requires UniqueIds(rs) && Ranked(objectives, rs, ranks) && Selection(objectives, ranks, count, selected)
    ensures UniqueIds(selected)
  {
    hide *;
    RanksPartition(objectives, rs, ranks);
    SelectionIsPart(objectives, ranks, count, selected);
    PartIsUnique(rs, selected);
  }

  ghost predicate DistinctPoints(points: seq<DesignPoint>) {
    forall i, j :: 0 <= i < j < |points| ==> points[i].id != points[j].id
  }

  /** The candidates come from the best feasible result of each point, ranked, and from nothing else. */
  ghost predicate Promotes(evaluations: seq<EvaluationResult>, objectives: seq<Objective>, count: nat,
                           candidates: seq<DesignPoint>) {
    exists best, ranks, selected ::
      && BestOfEach(Queried(evaluations, true), best) && UniqueIds(best)
      && Ranked(objectives, best, ranks)
      && Selection(objectives, ranks, count, selected)
      && candidates == DesignPoints(selected)
  }

  /** The ranks of a plan have unique ids, so finite crowding distances are within the number of objectives. */
  lemma PlanDistancesAreBounded(objectives: seq<Objective>, best: seq<EvaluationResult>,
                                ranks: seq<seq<EvaluationResult>>, k: nat, id: string)
    requires UniqueIds(best) && Ranked(objectives, best, ranks) && k < |ranks|
    ensures Bounded(CrowdingOf(objectives, ranks[k], id), |objectives| as real)
    ensures SumBy(ranks[k], CrowdShare(objectives, ranks[k])) <= 2.0 * |objectives| as real
  {
    hide Ranked, UniqueIds, Crowd, SumBy, CrowdShare;
    RanksHaveUniqueIds(objectives, best, ranks, k);
    CrowdWithinObjectiveCount(objectives, ranks[k], id);
    FiniteCrowdingAtMostTwicePerObjective(objectives, ranks[k]);
  }

  lemma {:induction false} AllFeasible(rs: seq<EvaluationResult>)
    requires forall r :: r in rs ==> r.feasible
    ensures Feasible(rs) == rs
  {
    if rs != [] {
      assert rs == rs[..|rs| - 1] + [rs[|rs| - 1]];
      AllFeasible(rs[..|rs| - 1]);
    }
  }

  /** The number of candidates asked for at a checkpoint; none elsewhere. */
  function Wanted(cfg: Config, phase: CampaignPhase): nat {
    var count := match phase
      case ParetoReadyL0 => cfg.l1CandidateCount
      case ParetoReadyL1 => cfg.l2CandidateCount
      case _ => 0;
    if count < 0 then 0 else count
  }

  /**
   * _autoEscalate up to its dispatch, on all results logged. Work is dispatched exactly when there is a
   * feasible result and the phase asks for candidates; then to the points Promotes tells, none of them twice.
   */
  method PlanFromEvaluations(cfg: Config, phase: CampaignPhase, evaluations: seq<EvaluationResult>,
                             objectives: seq<Objective>) returns (plan: Option<Plan>)
    ensures plan.Some? <==> Wanted(cfg, phase) > 0 && exists r :: r in evaluations && r.feasible
    ensures plan.Some? ==>
              && plan.value.candidates != [] && DistinctPoints(plan.value.candidates)
              && Promotes(evaluations, objectives, Wanted(cfg, phase), plan.value.candidates)
  {
    hide Ranked, Selection, UniqueIds, BestOfEach, Feasible, SamePoint;
    var best := BestFidelityEvaluations(evaluations);
    AllFeasible(best);
    if |best| == 0 { return None; }
    assert best[0] in best;
    var front := Analyze(objectives, best);
    plan := PlanEscalation(cfg, phase, front, objectives);
    if plan.Some? {
      ghost var selected :|
        Selection(objectives, front.allRanks, Wanted(cfg, phase), selected) &&
        plan.value.candidates == DesignPoints(selected);
      CandidatesDiffer(objectives, best, front.allRanks, Wanted(cfg, phase), selected);
      if |plan.value.candidates| == 0 { plan := None; }
    }
  }

  lemma CandidatesDiffer(objectives: seq<Objective>, best: seq<EvaluationResult>,
                         ranks: seq<seq<EvaluationResult>>, count: nat, selected: seq<EvaluationResult>)
    requires UniqueIds(best) && Ranked(objectives, best, ranks)
    requires Selection(objectives, ranks, count, selected)
    ensures DistinctPoints(DesignPoints(selected))
    ensures |DesignPoints(selected)| == if count < |best| then count else |best|
  {
    SelectionHasUniqueIds(objectives, best, ranks, count, selected);
    RanksPartition(objectives, best, ranks);
    assert |Flatten(ranks)| == |multiset(Flatten(ranks))| == |multiset(best)| == |best|;
  }
}
