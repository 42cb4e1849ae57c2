/** FidelityLadder: which design points are promoted to the next fidelity level. */
module FidelityLadder {
  import opened CampaignTypes
  import opened Dominance
  import opened Sequences
  import opened Sorting
  import opened Crowding
  import opened Pareto

  // ---------- Candidate selection ----------

  function DistanceOf(dist: Distances, r: EvaluationResult): Num {
    if r.designPoint.id in dist then dist[r.designPoint.id] else Fin(0.0)
  }

  /** Descending by crowding distance; two infinities compare as equal. */
  function MostIsolatedFirst(dist: Distances): (EvaluationResult, EvaluationResult) -> bool {
    (a: EvaluationResult, b: EvaluationResult) => !Less(DistanceOf(dist, a), DistanceOf(dist, b))
  }

  /** The results of a rank at one crowding distance. */
  ghost function AtDistance(objectives: seq<Objective>, rank: seq<EvaluationResult>, d: Num): EvaluationResult -> bool {
    (r: EvaluationResult) => CrowdingOf(objectives, rank, r.designPoint.id) == d
  }

  ghost predicate Descends(objectives: seq<Objective>, rank: seq<EvaluationResult>, taken: seq<EvaluationResult>) {
    forall i, j :: 0 <= i < j < |taken| ==>
      !Less(CrowdingOf(objectives, rank, taken[i].designPoint.id),
            CrowdingOf(objectives, rank, taken[j].designPoint.id))
  }

  ghost predicate KeepsOrder(objectives: seq<Objective>, rank: seq<EvaluationResult>, taken: seq<EvaluationResult>) {
    forall d :: Select(taken, AtDistance(objectives, rank, d)) <= Select(rank, AtDistance(objectives, rank, d))
  }

  /** taken is in order of crowding distance, the largest first, and at equal distance in the order of the rank. */
  ghost predicate InOrderOfDistance(objectives: seq<Objective>, rank: seq<EvaluationResult>,
                                    taken: seq<EvaluationResult>) {
    Descends(objectives, rank, taken) && KeepsOrder(objectives, rank, taken)
  }

  /** taken is the best `|taken|` of a rank by crowding distance, in that order; left is the rest of it. */
  ghost predicate MostIsolated(objectives: seq<Objective>, rank: seq<EvaluationResult>,
                               taken: seq<EvaluationResult>, left: seq<EvaluationResult>) {
    && multiset(taken) + multiset(left) == multiset(rank) && InOrderOfDistance(objectives, rank, taken)
    && (forall s, u :: s in taken && u in left ==>
         !Less(CrowdingOf(objectives, rank, s.designPoint.id), CrowdingOf(objectives, rank, u.designPoint.id)))
  }

  /** The selection is whole ranks from the best down, then the most isolated part of the next one. */
  ghost predicate BestRanks(objectives: seq<Objective>, ranks: seq<seq<EvaluationResult>>,
                            selected: seq<EvaluationResult>, whole: nat,
                            taken: seq<EvaluationResult>, left: seq<EvaluationResult>) {
    && whole <= |ranks| && selected == Flatten(ranks[..whole]) + taken
    && (if whole == |ranks| then taken == left == [] else MostIsolated(objectives, ranks[whole], taken, left))
  }

  ghost predicate Selection(objectives: seq<Objective>, ranks: seq<seq<EvaluationResult>>, count: nat,
                            selected: seq<EvaluationResult>) {
    && |selected| == (if count < |Flatten(ranks)| then count else |Flatten(ranks)|)
    && exists whole, taken, left :: BestRanks(objectives, ranks, selected, whole, taken, left)
  }

  lemma MostIsolatedFirstIsOrder(dist: Distances)
    ensures TotalPreorder(MostIsolatedFirst(dist))
  {}

  lemma CutSorted(dist: Distances, rank: seq<EvaluationResult>, need: nat, s: EvaluationResult, u: EvaluationResult)
    requires var sorted := StableSort(rank, MostIsolatedFirst(dist));
             need <= |rank| && s in sorted[..need] && u in sorted[need..]
    ensures s in rank && u in rank && !Less(DistanceOf(dist, s), DistanceOf(dist, u))
  {
    MostIsolatedFirstIsOrder(dist);
    hide StableSort, Less, DistanceOf;
    SortMultiset(rank, MostIsolatedFirst(dist));
    SortSorted(rank, MostIsolatedFirst(dist));
    var sorted := StableSort(rank, MostIsolatedFirst(dist));
    var i :| 0 <= i < need && sorted[i] == s;
    var j :| 0 <= j < |sorted| - need && sorted[need..][j] == u;
    assert MostIsolatedFirst(dist)(sorted[i], sorted[need + j]);
    assert s in multiset(sorted) && u in multiset(sorted);
    assert s in multiset(rank) && u in multiset(rank);
  }

  method TakeMostIsolated(objectives: seq<Objective>, rank: seq<EvaluationResult>, need: nat)
    returns (taken: seq<EvaluationResult>, ghost left: seq<EvaluationResult>)
    requires need < |rank|
    ensures |taken| == need && MostIsolated(objectives, rank, taken, left)
  {
    hide StableSort, CrowdingOf, Less;
    var dist := CrowdingDistance(objectives, rank);
    var sorted := StableSort(rank, MostIsolatedFirst(dist));
    taken, left := sorted[..need], sorted[need..];
    SortMultiset(rank, MostIsolatedFirst(dist));
    assert sorted == taken + left;
    forall s, u | s in taken && u in left
      ensures !Less(CrowdingOf(objectives, rank, s.designPoint.id), CrowdingOf(objectives, rank, u.designPoint.id))
    {
      CutSorted(dist, rank, need, s, u);
    }
    CutInOrder(objectives, dist, rank, need);
  }

  lemma CutInOrder(objectives: seq<Objective>, dist: Distances, rank: seq<EvaluationResult>, need: nat)
    requires need <= |rank| && dist.Keys == Ids(rank)
    requires forall id :: id in dist ==> dist[id] == CrowdingOf(objectives, rank, id)
    ensures InOrderOfDistance(objectives, rank, StableSort(rank, MostIsolatedFirst(dist))[..need])
  {
    hide *;
    CutDescends(objectives, dist, rank, need);
    CutIsStable(objectives, dist, rank, need);
    InOrderInParts(objectives, rank, StableSort(rank, MostIsolatedFirst(dist))[..need]);
  }

  lemma InOrderInParts(objectives: seq<Objective>, rank: seq<EvaluationResult>, taken: seq<EvaluationResult>)
    ensures InOrderOfDistance(objectives, rank, taken) <==>
              Descends(objectives, rank, taken) && KeepsOrder(objectives, rank, taken)
  {}

  lemma CutDescends(objectives: seq<Objective>, dist: Distances, rank: seq<EvaluationResult>, need: nat)
    requires need <= |rank| && dist.Keys == Ids(rank)
    requires forall id :: id in dist ==> dist[id] == CrowdingOf(objectives, rank, id)
    ensures Descends(objectives, rank, StableSort(rank, MostIsolatedFirst(dist))[..need])
  {
    var le := MostIsolatedFirst(dist);
    var sorted := StableSort(rank, le);
    MostIsolatedFirstIsOrder(dist);
    SortSorted(rank, le);
    SortMembers(rank, le);
    hide StableSort, CrowdingOf, Less, Ids, MostIsolatedFirst;
    forall i, j | 0 <= i < j < |sorted|
      ensures !Less(CrowdingOf(objectives, rank, sorted[i].designPoint.id),
                    CrowdingOf(objectives, rank, sorted[j].designPoint.id))
    {
      assert sorted[i] in rank && sorted[j] in rank;
      PairDescends(objectives, dist, rank, sorted[i], sorted[j]);
    }
    FrontDescends(objectives, rank, sorted, need);
    hide Descends;
  }

  lemma FrontDescends(objectives: seq<Objective>, rank: seq<EvaluationResult>, s: seq<EvaluationResult>, n: nat)
    requires Descends(objectives, rank, s) && n <= |s|
    ensures Descends(objectives, rank, s[..n])
  {
    hide Less, CrowdingOf;
  }

  lemma PairDescends(objectives: seq<Objective>, dist: Distances, rank: seq<EvaluationResult>,
                     r: EvaluationResult, s: EvaluationResult)
    requires dist.Keys == Ids(rank) && r in rank && s in rank && MostIsolatedFirst(dist)(r, s)
    requires forall id :: id in dist ==> dist[id] == CrowdingOf(objectives, rank, id)
    ensures !Less(CrowdingOf(objectives, rank, r.designPoint.id), CrowdingOf(objectives, rank, s.designPoint.id))
  {
    KnownDistance(objectives, dist, rank, r);
    KnownDistance(objectives, dist, rank, s);
    hide CrowdingOf, Less, DistanceOf, Ids;
  }

  lemma KnownDistance(objectives: seq<Objective>, dist: Distances, rank: seq<EvaluationResult>, r: EvaluationResult)
    requires dist.Keys == Ids(rank) && r in rank
    requires forall id :: id in dist ==> dist[id] == CrowdingOf(objectives, rank, id)
    ensures DistanceOf(dist, r) == CrowdingOf(objectives, rank, r.designPoint.id)
  {
    hide CrowdingOf;
    assert r.designPoint.id in Ids(rank);
  }

  lemma CutIsStable(objectives: seq<Objective>, dist: Distances, rank: seq<EvaluationResult>, need: nat)
    requires need <= |rank| && dist.Keys == Ids(rank)
    requires forall id :: id in dist ==> dist[id] == CrowdingOf(objectives, rank, id)
    ensures KeepsOrder(objectives, rank, StableSort(rank, MostIsolatedFirst(dist))[..need])
  {
    hide StableSort, CrowdingOf, Select;
    var sorted := StableSort(rank, MostIsolatedFirst(dist));
    var taken := sorted[..need];
    assert sorted == taken + sorted[need..];
    forall d ensures Select(taken, AtDistance(objectives, rank, d)) <= Select(rank, AtDistance(objectives, rank, d)) {
      SelectAppend(taken, sorted[need..], AtDistance(objectives, rank, d));
      StableAtDistance(objectives, dist, rank, d);
    }
  }

  /** Sorting keeps results of equal distance in order; only the results of the rank matter. */
  lemma StableAtDistance(objectives: seq<Objective>, dist: Distances, rank: seq<EvaluationResult>, d: Num)
    requires dist.Keys == Ids(rank)
    requires forall id :: id in dist ==> dist[id] == CrowdingOf(objectives, rank, id)
    ensures var sorted := StableSort(rank, MostIsolatedFirst(dist));
            Select(sorted, AtDistance(objectives, rank, d)) == Select(rank, AtDistance(objectives, rank, d))
  {
    var le := MostIsolatedFirst(dist);
    var sorted := StableSort(rank, le);
    var c := (r: EvaluationResult) => DistanceOf(dist, r) == d;
    assert forall x, y :: c(x) && c(y) ==> le(x, y);
    SortIsStable(rank, le, c);
    SortMembers(rank, le);
    hide StableSort, CrowdingOf, Less;
    SelectSame(sorted, c, AtDistance(objectives, rank, d));
    SelectSame(rank, c, AtDistance(objectives, rank, d));
  }

  lemma FlattenStep(ranks: seq<seq<EvaluationResult>>, k: nat)
    requires k < |ranks|
    ensures Flatten(ranks[..k + 1]) == Flatten(ranks[..k]) + ranks[k]
  {
    assert ranks[..k + 1][..k] == ranks[..k];
  }

  lemma {:induction false} FlattenPrefixLength(ranks: seq<seq<EvaluationResult>>, k: nat)
    requires k <= |ranks|
    ensures |Flatten(ranks[..k])| <= |Flatten(ranks)|
    decreases |ranks| - k
  {
    if k == |ranks| {
      assert ranks[..k] == ranks;
    } else {
      FlattenStep(ranks, k);
      FlattenPrefixLength(ranks, k + 1);
    }
  }

  lemma NoneInOrder(objectives: seq<Objective>)
    ensures forall rank :: InOrderOfDistance(objectives, rank, [])
  {}

  /** The loop of selectEscalationCandidates, before the results are reduced to their design points. */
  method SelectResults(ranks: seq<seq<EvaluationResult>>, objectives: seq<Objective>, count: nat)
    returns (selected: seq<EvaluationResult>)
    ensures Selection(objectives, ranks, count, selected)
  {
    NoneInOrder(objectives);
    hide InOrderOfDistance;
    selected := [];
    ghost var whole: nat, taken: seq<EvaluationResult>, left: seq<EvaluationResult> := 0, [], [];
    if |ranks| > 0 { left := ranks[0]; }
    var k := 0;
    while k < |ranks| && |selected| < count
      invariant k == whole <= |ranks| && |selected| <= count
      invariant selected == Flatten(ranks[..whole])
      invariant taken == [] && left == if whole < |ranks| then ranks[whole] else []
    {
      var need := count - |selected|;
      FlattenStep(ranks, k);
      if |ranks[k]| <= need {
        selected := selected + ranks[k];
        whole := k + 1;
        left := if whole < |ranks| then ranks[whole] else [];
      } else {
        var part, rest := TakeMostIsolated(objectives, ranks[k], need);
        FlattenPrefixLength(ranks, k + 1);
        selected := selected + part;
        assert BestRanks(objectives, ranks, selected, whole, part, rest);
        return;
      }
      k := k + 1;
    }
    FlattenPrefixLength(ranks, whole);
    assert whole == |ranks| ==> ranks[..whole] == ranks;
    assert selected + taken == selected;
    assert BestRanks(objectives, ranks, selected, whole, taken, left);
  }

  function DesignPoints(rs: seq<EvaluationResult>): (ps: seq<DesignPoint>)
    ensures |ps| == |rs| && forall i :: 0 <= i < |rs| ==> ps[i] == rs[i].designPoint
  {
    seq(|rs|, i requires 0 <= i < |rs| => rs[i].designPoint)
  }

  /** FidelityLadder.selectEscalationCandidates */
  method SelectEscalationCandidates(front: ParetoFront, objectives: seq<Objective>, count: int)
    returns (points: seq<DesignPoint>)
    ensures exists selected ::
              && Selection(objectives, front.allRanks, if count < 0 then 0 else count, selected)
              && points == DesignPoints(selected)
  {
    if count <= 0 || |front.allRanks| == 0 {
      points := [];
      NoneInOrder(objectives);
      hide InOrderOfDistance;
      assert front.allRanks[..0] == [];
      var whole: nat := 0;
      var left := if whole < |front.allRanks| then front.allRanks[0] else [];
      assert BestRanks(objectives, front.allRanks, [], whole, [], left);
      assert Selection(objectives, front.allRanks, if count < 0 then 0 else count, []);
      assert points == DesignPoints([]);
      return;
    }
    var selected := SelectResults(front.allRanks, objectives, count);
    points := DesignPoints(selected);
  }

  // ---------- What a selection guarantees ----------

  lemma {:induction false} FlattenSplit(ranks: seq<seq<EvaluationResult>>, k: nat)
    requires k <= |ranks|
    ensures Flatten(ranks) == Flatten(ranks[..k]) + Flatten(ranks[k..])
    decreases |ranks|
  {
    if k == |ranks| {
      assert ranks[..k] == ranks;
    } else {
      var n := |ranks| - 1;
      FlattenSplit(ranks[..n], k);
      assert ranks[..n][..k] == ranks[..k] && ranks[..n][k..] == ranks[k..][..n - k];
    }
  }

  lemma FlattenAt(ranks: seq<seq<EvaluationResult>>, k: nat)
    requires k < |ranks|
    ensures Flatten(ranks) == Flatten(ranks[..k]) + ranks[k] + Flatten(ranks[k + 1..])
  {
    FlattenSplit(ranks, k + 1);
    FlattenStep(ranks, k);
  }

  lemma Remainder<T>(all: multiset<T>, before: multiset<T>, taken: multiset<T>, left: multiset<T>, later: multiset<T>)
    requires all == before + (taken + left) + later
    ensures all - (before + taken) == left + later
  {}

  /** The ranked results not selected: what is left of the cut rank, and every rank after it. */
  lemma Unselected(objectives: seq<Objective>, ranks: seq<seq<EvaluationResult>>, selected: seq<EvaluationResult>,
                   whole: nat, taken: seq<EvaluationResult>, left: seq<EvaluationResult>, u: EvaluationResult)
    requires BestRanks(objectives, ranks, selected, whole, taken, left)
    requires u in multiset(Flatten(ranks)) - multiset(selected)
    ensures exists l :: whole <= l < |ranks| && u in ranks[l]
  {
    hide Flatten, CrowdingOf, Less;
    assert ranks[..|ranks|] == ranks;
    if whole < |ranks| {
      FlattenAt(ranks, whole);
      var before, later := Flatten(ranks[..whole]), Flatten(ranks[whole + 1..]);
      Remainder(multiset(Flatten(ranks)), multiset(before), multiset(taken), multiset(left), multiset(later));
      if u in left {
        assert u in multiset(taken) + multiset(left);
        assert u in ranks[whole];
      } else {
        assert u in multiset(left) + multiset(later);
        FlattenMember(ranks[whole + 1..], u);
        var k :| 0 <= k < |ranks[whole + 1..]| && u in ranks[whole + 1..][k];
        assert u in ranks[whole + 1 + k];
      }
    }
  }

  lemma SelectedRank(objectives: seq<Objective>, ranks: seq<seq<EvaluationResult>>, selected: seq<EvaluationResult>,
                     whole: nat, taken: seq<EvaluationResult>, left: seq<EvaluationResult>, s: EvaluationResult)
    requires BestRanks(objectives, ranks, selected, whole, taken, left) && s in selected
    ensures exists k :: 0 <= k <= whole && k < |ranks| && s in ranks[k]
  {
    if s in taken {
      assert s in multiset(taken) + multiset(left);
      assert s in ranks[whole];
    } else {
      FlattenMember(ranks[..whole], s);
      var k :| 0 <= k < whole && s in ranks[..whole][k];
      assert s in ranks[k];
    }
  }

  /** No result that was ranked but not selected dominates a selected one. */
  lemma NoUnselectedDominatesSelected(objectives: seq<Objective>, rs: seq<EvaluationResult>,
                                      ranks: seq<seq<EvaluationResult>>, count: nat,
                                      selected: seq<EvaluationResult>, s: EvaluationResult, u: EvaluationResult)
    requires Ranked(objectives, rs, ranks) && Selection(objectives, ranks, count, selected)
    requires s in selected && u in multiset(rs) - multiset(selected)
    ensures !Better(objectives, u, s)
  {
    hide Ranked, Better, BestRanks;
    var whole: nat, taken, left :| BestRanks(objectives, ranks, selected, whole, taken, left);
    RanksPartition(objectives, rs, ranks);
    Unselected(objectives, ranks, selected, whole, taken, left, u);
    SelectedRank(objectives, ranks, selected, whole, taken, left, s);
    var l :| whole <= l < |ranks| && u in ranks[l];
    var k :| 0 <= k <= whole && k < |ranks| && s in ranks[k];
    var p :| 0 <= p < |ranks[k]| && ranks[k][p] == s;
    var q :| 0 <= q < |ranks[l]| && ranks[l][q] == u;
    if Better(objectives, u, s) { RanksRespectDominance(objectives, rs, ranks, l, k, q, p); }
  }

  // ---------- The ladder itself ----------

  datatype Config = Config(l1CandidateCount: int, l2CandidateCount: int)

  function EvaluationFidelity(phase: CampaignPhase): nat {
    match phase
    case EscalatingL1 => 1
    case EscalatingL2 => 2
    case _ => 0
  }

  function EscalationPhase(phase: CampaignPhase): Option<CampaignPhase> {
    match phase
    case ParetoReadyL0 => Some(EscalatingL1)
    case ParetoReadyL1 => Some(EscalatingL2)
    case _ => None
  }

  function CandidateCount(cfg: Config, targetFidelity: nat): int {
    if targetFidelity == 1 then cfg.l1CandidateCount
    else if targetFidelity == 2 then cfg.l2CandidateCount
    else 0
  }

  datatype Plan = Plan(candidates: seq<DesignPoint>, targetFidelity: nat, nextPhase: CampaignPhase)

  method PlanEscalation(cfg: Config, phase: CampaignPhase, front: ParetoFront, objectives: seq<Objective>)
    returns (plan: Option<Plan>)
    ensures plan.Some? <==> phase in {ParetoReadyL0, ParetoReadyL1}
    ensures plan.Some? ==>
              && plan.value.nextPhase in ValidTransitions(phase) && plan.value.nextPhase in {EscalatingL1, EscalatingL2}
              && plan.value.targetFidelity == (if phase == ParetoReadyL0 then 1 else 2)
              && var count := if phase == ParetoReadyL0 then cfg.l1CandidateCount else cfg.l2CandidateCount;
                 exists selected ::
                   Selection(objectives, front.allRanks, if count < 0 then 0 else count, selected) &&
                   plan.value.candidates == DesignPoints(selected)
  {
    var nextPhase := EscalationPhase(phase);
    if nextPhase.None? { return None; }
    var targetFidelity := EvaluationFidelity(nextPhase.value);
    var count := CandidateCount(cfg, targetFidelity);
    var candidates := SelectEscalationCandidates(front, objectives, count);
    plan := Some(Plan(candidates, targetFidelity, nextPhase.value));
  }
}
