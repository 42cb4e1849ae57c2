/** CampaignStateStore.getBestFidelityEvaluations: one result per design point. */
module BestFidelity {
  import opened CampaignTypes
  import opened Crowding
  import EvalCache

  ghost predicate SamePoint(a: EvaluationResult, b: EvaluationResult) { a.designPoint.id == b.designPoint.id }

  /** The design points evaluated, in the order of their first results. */
  ghost function Points(all: seq<EvaluationResult>): seq<string> {
    if all == [] then []
    else
      var seen, id := Points(all[..|all| - 1]), all[|all| - 1].designPoint.id;
      if id in seen then seen else seen + [id]
  }

  /** all[k] is the first of the highest-fidelity results of its design point. */
  ghost predicate BestAt(all: seq<EvaluationResult>, k: nat) {
    && k < |all|
    && (forall j :: 0 <= j < |all| && SamePoint(all[j], all[k]) ==> all[j].fidelity <= all[k].fidelity)
    && (forall j :: 0 <= j < k && SamePoint(all[j], all[k]) ==> all[j].fidelity < all[k].fidelity)
  }

  /** r is the first of the highest-fidelity results of the given design point. */
  ghost predicate BestOf(all: seq<EvaluationResult>, id: string, r: EvaluationResult) {
    r.designPoint.id == id && exists k: nat :: BestAt(all, k) && all[k] == r
  }

  /** The best result of every design point, in the order of the points. */
  ghost predicate BestOfEach(all: seq<EvaluationResult>, best: seq<EvaluationResult>) {
    && |best| == |Points(all)|
    && forall i :: 0 <= i < |best| ==> BestOf(all, Points(all)[i], best[i])
  }

  lemma {:induction false} PointsAreEvaluated(all: seq<EvaluationResult>, id: string)
    ensures id in Points(all) <==> exists k :: 0 <= k < |all| && all[k].designPoint.id == id
  {
    if all != [] {
      PointsAreEvaluated(all[..|all| - 1], id);
    }
  }

  lemma {:induction false} PointsDiffer(all: seq<EvaluationResult>)
    ensures forall i, j :: 0 <= i < j < |Points(all)| ==> Points(all)[i] != Points(all)[j]
  {
    if all != [] {
      PointsDiffer(all[..|all| - 1]);
    }
  }

  /** A result of another point, or of no higher fidelity, leaves a best result the best. */
  lemma StaysBest(all: seq<EvaluationResult>, id: string, best: EvaluationResult, r: EvaluationResult)
    requires BestOf(all, id, best)
    requires r.designPoint.id == id ==> r.fidelity <= best.fidelity
    ensures BestOf(all + [r], id, best)
  {
    var k: nat :| BestAt(all, k) && all[k] == best;
    assert (all + [r])[k] == best;
    assert BestAt(all + [r], k);
  }

  /** A result of higher fidelity than the best so far takes its place. */
  lemma TakesOver(all: seq<EvaluationResult>, best: EvaluationResult, r: EvaluationResult)
    requires BestOf(all, r.designPoint.id, best) && r.fidelity > best.fidelity
    ensures BestOf(all + [r], r.designPoint.id, r)
  {
    var k: nat :| BestAt(all, k) && all[k] == best;
    assert (all + [r])[|all|] == r;
    assert BestAt(all + [r], |all|);
  }

  lemma FirstIsBest(all: seq<EvaluationResult>, r: EvaluationResult)
    requires r.designPoint.id !in Points(all)
    ensures BestOf(all + [r], r.designPoint.id, r)
  {
    PointsAreEvaluated(all, r.designPoint.id);
    assert (all + [r])[|all|] == r;
    assert BestAt(all + [r], |all|);
  }

  lemma PointsAppend(all: seq<EvaluationResult>, r: EvaluationResult)
    ensures var seen := Points(all);
            Points(all + [r]) == if r.designPoint.id in seen then seen else seen + [r.designPoint.id]
  {
    assert (all + [r])[..|all|] == all;
  }

  /** A first result of its point is appended. */
  lemma NewPoint(all: seq<EvaluationResult>, best: seq<EvaluationResult>, r: EvaluationResult)
    requires BestOfEach(all, best) && r.designPoint.id !in Points(all)
    ensures BestOfEach(all + [r], best + [r])
  {
    PointsAppend(all, r);
    FirstIsBest(all, r);
    hide BestOf, Points;
    var points, id := Points(all), r.designPoint.id;
    forall i | 0 <= i < |best| ensures BestOf(all + [r], points[i], best[i]) {
      assert points[i] != id;
      StaysBest(all, points[i], best[i], r);
    }
    assert Points(all + [r]) == points + [id];
  }

  /** A further result of its point replaces the one kept, in place, if its fidelity is higher. */
  lemma KnownPoint(all: seq<EvaluationResult>, best: seq<EvaluationResult>, r: EvaluationResult, at: nat)
    requires BestOfEach(all, best) && at < |best| && Points(all)[at] == r.designPoint.id
    ensures BestOfEach(all + [r], if r.fidelity > best[at].fidelity then best[at := r] else best)
  {
    PointsAppend(all, r);
    PointsDiffer(all);
    hide BestOf, Points;
    forall i | 0 <= i < |best| && i != at ensures BestOf(all + [r], Points(all)[i], best[i]) {
      StaysBest(all, Points(all)[i], best[i], r);
    }
    if r.fidelity > best[at].fidelity {
      TakesOver(all, best[at], r);
    } else {
      StaysBest(all, Points(all)[at], best[at], r);
    }
  }

  /** Where the map holds the point of r; its length if it does not. */
  method IndexOf(best: seq<EvaluationResult>, r: EvaluationResult) returns (i: nat)
    ensures i <= |best| && (i < |best| ==> SamePoint(best[i], r))
    ensures forall j :: 0 <= j < i ==> !SamePoint(best[j], r)
  {
    i := 0;
    while i < |best| && best[i].designPoint.id != r.designPoint.id
      invariant i <= |best| && forall j :: 0 <= j < i ==> !SamePoint(best[j], r)
    {
      i := i + 1;
    }
  }

  lemma KeysArePoints(all: seq<EvaluationResult>, best: seq<EvaluationResult>)
    requires BestOfEach(all, best)
    ensures forall i :: 0 <= i < |best| ==> best[i].designPoint.id == Points(all)[i]
    ensures UniqueIds(best)
  {
    PointsDiffer(all);
    hide Points;
  }

  lemma KeysCover(all: seq<EvaluationResult>, best: seq<EvaluationResult>, r: EvaluationResult)
    requires BestOfEach(all, best) && forall j :: 0 <= j < |best| ==> !SamePoint(best[j], r)
    ensures r.designPoint.id !in Points(all)
  {
    KeysArePoints(all, best);
    hide Points;
    assert forall j :: 0 <= j < |best| ==> !SamePoint(best[j], r);
  }

  /** What getEvaluations({ feasibleOnly }) makes of all results logged. */
  function Queried(logged: seq<EvaluationResult>, feasibleOnly: bool): seq<EvaluationResult> {
    EvalCache.Filtered(EvalCache.Filter(feasibleOnly, None), logged)
  }

  /** The filter comes first: of the feasible results alone, if so asked, the best of each point. */
  method BestFidelityEvaluations(logged: seq<EvaluationResult>, feasibleOnly: bool := true)
    returns (best: seq<EvaluationResult>)
    ensures BestOfEach(Queried(logged, feasibleOnly), best) && UniqueIds(best)
    ensures forall r :: r in best ==> r in logged && (feasibleOnly ==> r.feasible)
    ensures forall r :: r in logged && (feasibleOnly ==> r.feasible) ==>
              exists i :: 0 <= i < |best| && SamePoint(best[i], r)
  {
    var all := Queried(logged, feasibleOnly);
    best := KeepBest(all);
    hide EvalCache.Filtered, UniqueIds, SamePoint, Points;
    forall r | r in best ensures r in all {
      BestIsLogged(all, best, r);
    }
  }

  lemma BestIsLogged(all: seq<EvaluationResult>, best: seq<EvaluationResult>, r: EvaluationResult)
    requires BestOfEach(all, best) && r in best
    ensures r in all
  {
    hide Points;
    var i :| 0 <= i < |best| && best[i] == r;
    assert BestOf(all, Points(all)[i], best[i]);
  }

  /** One result per design point, in the order of their first results: the first of its highest fidelity. */
  method KeepBest(all: seq<EvaluationResult>) returns (best: seq<EvaluationResult>)
    ensures BestOfEach(all, best) && UniqueIds(best)
    ensures forall r :: r in all ==> exists i :: 0 <= i < |best| && SamePoint(best[i], r)
  {
    hide Points, BestOf, UniqueIds, SamePoint;
    best := [];
    NothingEvaluated();
    for n := 0 to |all|
      invariant BestOfEach(all[..n], best)
    {
      var r := all[n];
      var i := IndexOf(best, r);
      assert all[..n + 1] == all[..n] + [r];
      if i == |best| {
        KeysCover(all[..n], best, r);
        NewPoint(all[..n], best, r);
        best := best + [r];
      } else {
        SameKey(all[..n], best, r, i);
        KnownPoint(all[..n], best, r, i);
        if r.fidelity > best[i].fidelity { best := best[i := r]; }
      }
    }
    assert all[..|all|] == all;
    KeysArePoints(all, best);
    forall r | r in all ensures exists i :: 0 <= i < |best| && SamePoint(best[i], r) {
      EveryPointKept(all, best, r);
    }
  }

  lemma SameKey(all: seq<EvaluationResult>, best: seq<EvaluationResult>, r: EvaluationResult, i: nat)
    requires BestOfEach(all, best) && i < |best| && SamePoint(best[i], r)
    ensures Points(all)[i] == r.designPoint.id
  {
    KeysArePoints(all, best);
  }

  lemma EveryPointKept(all: seq<EvaluationResult>, best: seq<EvaluationResult>, r: EvaluationResult)
    requires BestOfEach(all, best) && r in all
    ensures exists i :: 0 <= i < |best| && SamePoint(best[i], r)
  {
    PointsAreEvaluated(all, r.designPoint.id);
    KeysArePoints(all, best);
    var i :| 0 <= i < |Points(all)| && Points(all)[i] == r.designPoint.id;
    assert SamePoint(best[i], r);
  }

  lemma NothingEvaluated()
    ensures BestOfEach([], [])
  {}

  // ---------- A highest-fidelity result that is infeasible ----------

  lemma BestIsOne(all: seq<EvaluationResult>, id: string, r: EvaluationResult, q: EvaluationResult)
    requires BestOf(all, id, r) && BestOf(all, id, q)
    ensures r == q
  {
    var i: nat :| BestAt(all, i) && all[i] == r;
    var j: nat :| BestAt(all, j) && all[j] == q;
    assert SamePoint(all[i], all[j]) && SamePoint(all[j], all[i]);
  }

  lemma {:induction false} QueriedFront(logged: seq<EvaluationResult>, k: nat)
    requires k <= |logged|
    ensures Queried(logged[..k], true) <= Queried(logged, true)
    decreases |logged|
  {
    var n := |logged| - 1;
    if k == |logged| {
      assert logged[..k] == logged;
    } else {
      assert logged[..n][..k] == logged[..k];
      QueriedFront(logged[..n], k);
    }
  }

  lemma QueriedAppend(logged: seq<EvaluationResult>, r: EvaluationResult)
    ensures Queried(logged + [r], true) == if r.feasible then Queried(logged, true) + [r] else Queried(logged, true)
  {
    assert (logged + [r])[..|logged|] == logged;
  }

  /** The best of all results of a point, if feasible, is the best of the feasible ones. */
  lemma FeasibleBestStays(logged: seq<EvaluationResult>, k: nat)
    requires BestAt(logged, k) && logged[k].feasible
    ensures BestOf(Queried(logged, true), logged[k].designPoint.id, logged[k])
  {
    var feasible, before := Queried(logged, true), Queried(logged[..k], true);
    QueriedAppend(logged[..k], logged[k]);
    assert logged[..k + 1] == logged[..k] + [logged[k]];
    QueriedFront(logged, k + 1);
    hide EvalCache.Filtered;
    assert before + [logged[k]] <= feasible;
    forall j | 0 <= j < |feasible| && SamePoint(feasible[j], logged[k])
      ensures feasible[j].fidelity <= logged[k].fidelity
      ensures j < |before| ==> feasible[j].fidelity < logged[k].fidelity
    {
      assert feasible[j] in feasible;
      if j < |before| { assert feasible[j] == before[j] && before[j] in logged[..k]; }
    }
    assert BestAt(feasible, |before|);
  }

  /**
   * The comment on getBestFidelityEvaluations promises the highest-fidelity result of each point. A point is
   * represented by it exactly when it is feasible; else another, feasible result stands in.
   */
  lemma RepresentedByHighestFidelity(logged: seq<EvaluationResult>, id: string, highest: EvaluationResult,
                                     chosen: EvaluationResult)
    requires BestOf(logged, id, highest) && BestOf(Queried(logged, true), id, chosen)
    ensures chosen == highest <==> highest.feasible
  {
    if highest.feasible {
      var k: nat :| BestAt(logged, k) && logged[k] == highest;
      FeasibleBestStays(logged, k);
      BestIsOne(Queried(logged, true), id, highest, chosen);
    }
    hide EvalCache.Filtered;
    var k: nat :| BestAt(Queried(logged, true), k) && Queried(logged, true)[k] == chosen;
    assert chosen in Queried(logged, true);
  }

  /** Feasible at low fidelity, found infeasible at a higher one: the point stays, with the first result. */
  lemma InfeasibleRefinementIsIgnored(a: EvaluationResult, b: EvaluationResult)
    requires SamePoint(a, b) && a.feasible && !b.feasible && a.fidelity < b.fidelity
    ensures BestOf([a, b], a.designPoint.id, b)
    ensures BestOf(Queried([a, b], true), a.designPoint.id, a)
  {
    QueriedAppend([], a);
    QueriedAppend([a], b);
    assert [a, b] == [a] + [b] && [a] == [] + [a];
    assert Queried([a, b], true) == [a];
    assert BestAt([a], 0) && [a][0] == a;
    assert BestAt([a, b], 1) && [a, b][1] == b;
  }
}
