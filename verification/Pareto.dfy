/** ParetoAnalyzer.analyze: ranking of evaluation results, and what the ranks mean. */
module Pareto {
  import opened CampaignTypes
  import opened Sequences
  import opened Dominance
  import opened Ranking
  import opened FastSort
  import opened Hypervolume
  import Staircase

  function Negate(v: Num): Num {
    match v
    case NegInf => PosInf
    case Fin(x) => Fin(-x)
    case PosInf => NegInf
  }

  /** A missing objective counts as Infinity before the sign flip, hence as the best value when maximising. */
  function NormalValue(o: Objective, r: EvaluationResult): Num {
    var v := if o.name in r.objectives then Fin(r.objectives[o.name]) else PosInf;
    if o.direction == Maximize then Negate(v) else v
  }

  function Normalize(objectives: seq<Objective>, r: EvaluationResult): Vector {
    seq(|objectives|, i requires 0 <= i < |objectives| => NormalValue(objectives[i], r))
  }

  /** a dominates b once every objective is normalised to "minimise". */
  ghost predicate Better(objectives: seq<Objective>, a: EvaluationResult, b: EvaluationResult) {
    Dominates(Normalize(objectives, a), Normalize(objectives, b))
  }

  ghost function Vectors(objectives: seq<Objective>, rs: seq<EvaluationResult>): (vals: seq<Vector>)
    ensures |vals| == |rs| && forall i :: 0 <= i < |rs| ==> vals[i] == Normalize(objectives, rs[i])
  {
    seq(|rs|, i requires 0 <= i < |rs| => Normalize(objectives, rs[i]))
  }

  ghost function Feasible(rs: seq<EvaluationResult>): (f: seq<EvaluationResult>)
    ensures forall r :: r in f <==> r in rs && r.feasible
  {
    if rs == [] then []
    else if rs[|rs| - 1].feasible then Feasible(rs[..|rs| - 1]) + [rs[|rs| - 1]]
    else Feasible(rs[..|rs| - 1])
  }

  /** ranks are the layers of the specification, read back as results. */
  ghost predicate RankedBy(objectives: seq<Objective>, rs: seq<EvaluationResult>,
                           ranks: seq<seq<EvaluationResult>>, layers: seq<seq<nat>>) {
    && IsRanking(DominanceOrder(Vectors(objectives, rs)), |rs|, layers)
    && FreedInOrder(DominanceOrder(Vectors(objectives, rs)), layers)
    && |ranks| == |layers|
    && (forall k :: 0 <= k < |layers| ==> InRange(|rs|, layers[k]) && ranks[k] == Pick(rs, layers[k]))
  }

  ghost predicate Ranked(objectives: seq<Objective>, rs: seq<EvaluationResult>, ranks: seq<seq<EvaluationResult>>) {
    exists layers :: RankedBy(objectives, rs, ranks, layers)
  }

  lemma NothingToRank(objectives: seq<Objective>)
    ensures Ranked(objectives, [], [])
  {
    assert Vectors(objectives, []) == [] && Layer(DominanceOrder([]), Indices(0), 0) == {};
    assert RankedBy(objectives, [], [], []);
  }

  method SelectFeasible(results: seq<EvaluationResult>) returns (feasible: seq<EvaluationResult>)
    ensures feasible == Feasible(results)
  {
    feasible := [];
    for i := 0 to |results|
      invariant feasible == Feasible(results[..i])
    {
      assert results[..i + 1][..i] == results[..i];
      if results[i].feasible { feasible := feasible + [results[i]]; }
    }
    assert results[..|results|] == results;
  }

  lemma LayersInRange(D: Order, n: nat, layers: seq<seq<nat>>, k: nat)
    requires IsRanking(D, n, layers) && k < |layers|
    ensures InRange(n, layers[k])
  {
    assert Lists(layers[k], Layer(D, Indices(n), k));
  }

  /** The rank layers, read back as results. */
  method BuildRanks(objectives: seq<Objective>, feasible: seq<EvaluationResult>)
    returns (allRanks: seq<seq<EvaluationResult>>)
    ensures Ranked(objectives, feasible, allRanks)
  {
    hide IsRanking, FreedInOrder, InRange, Pick, Normalize;
    var normalized: seq<Vector> :=
      seq(|feasible|, i requires 0 <= i < |feasible| => Normalize(objectives, feasible[i]));
    assert normalized == Vectors(objectives, feasible);
    SameNumberOfValues(objectives, feasible);
    var layers := SortLayers(normalized);
    allRanks := [];
    for k := 0 to |layers|
      invariant |allRanks| == k
      invariant forall l :: 0 <= l < k ==> InRange(|feasible|, layers[l]) && allRanks[l] == Pick(feasible, layers[l])
    {
      LayersInRange(DominanceOrder(normalized), |feasible|, layers, k);
      allRanks := allRanks + [Pick(feasible, layers[k])];
    }
    assert RankedBy(objectives, feasible, allRanks, layers);
  }

  lemma SameNumberOfValues(objectives: seq<Objective>, rs: seq<EvaluationResult>)
    ensures SameLengths(Vectors(objectives, rs))
  {}

  method Analyze(objectives: seq<Objective>, results: seq<EvaluationResult>) returns (front: ParetoFront)
    ensures Ranked(objectives, Feasible(results), front.allRanks)
    ensures front.rank1 == if front.allRanks == [] then [] else front.allRanks[0]
    ensures front.hypervolume.Some? <==> |objectives| == 2 && front.rank1 != []
    ensures front.hypervolume.Some? ==>
              front.hypervolume.value == HypervolumeOf(objectives[0], objectives[1], front.rank1)
  {
    NothingToRank(objectives);
    assert Feasible([]) == [];
    hide *;
    if |results| == 0 { return ParetoFront([], [], None); }
    var feasible := SelectFeasible(results);
    if |feasible| == 0 { return ParetoFront([], [], None); }
    var allRanks := BuildRanks(objectives, feasible);
    var rank1 := if |allRanks| > 0 then allRanks[0] else [];
    var hv := None;
    if |objectives| == 2 && |rank1| > 0 {
      var v := Hypervolume2D(objectives[0], objectives[1], rank1);
      hv := Some(v);
    }
    front := ParetoFront(rank1, allRanks, hv);
  }

  // ---------- What the ranks mean, in terms of results ----------

  /** The layers read one after another list every index once. */
  lemma {:induction false} FlatLayersHaveNoRepeats(D: Order, n: nat, layers: seq<seq<nat>>, m: nat)
    requires IsRanking(D, n, layers) && m <= |layers|
    ensures NoRepeats(Flatten(layers[..m]))
  {
    if m > 0 {
      FlatLayersHaveNoRepeats(D, n, layers, m - 1);
      assert layers[..m][..m - 1] == layers[..m - 1];
      var front, last := Flatten(layers[..m - 1]), layers[m - 1];
      forall x | x in front ensures x !in last {
        FlattenMember(layers[..m - 1], x);
        var k :| 0 <= k < m - 1 && x in layers[..m - 1][k];
        assert x in layers[k];
        if x in last { LayersDisjoint(D, Indices(n), k, m - 1, x); }
      }
      assert forall p :: 0 <= p < |front| ==> front[p] in front;
      assert forall p :: 0 <= p < |last| ==> last[p] in last;
    }
  }

  lemma FlatLayersListAll(D: Order, n: nat, layers: seq<seq<nat>>)
    requires Strict(D) && IsRanking(D, n, layers)
    ensures Lists(Flatten(layers), Indices(n))
  {
    assert layers[..|layers|] == layers;
    FlatLayersHaveNoRepeats(D, n, layers, |layers|);
    forall x: nat ensures x in Flatten(layers) <==> x in Indices(n) {
      FlattenMember(layers, x);
      if x in Indices(n) {
        var k := LayersCover(D, Indices(n), x);
        if k >= |layers| { EmptyLayerIsLast(D, Indices(n), |layers|, k, x); }
        assert x in layers[k];
      }
    }
  }

  lemma WithoutLast(ix: seq<nat>, n: nat, p: nat)
    requires Lists(ix, Indices(n + 1)) && p < |ix| && ix[p] == n
    ensures Lists(ix[..p] + ix[p + 1..], Indices(n)) && InRange(n, ix[..p] + ix[p + 1..])
    ensures ix == ix[..p] + [n] + ix[p + 1..]
  {
    var rest := ix[..p] + ix[p + 1..];
    forall x: nat ensures x in rest <==> x in Indices(n) {
      if x in Indices(n) {
        assert x in ix;
        var q :| 0 <= q < |ix| && ix[q] == x;
        assert x == if q < p then rest[q] else rest[q - 1];
      }
      if x in rest {
        assert x in ix;
        var q :| 0 <= q < |rest| && rest[q] == x;
        assert x == if q < p then ix[q] else ix[q + 1];
      }
    }
  }

  lemma PickAround<T>(rs: seq<T>, before: seq<nat>, after: seq<nat>)
    requires rs != [] && InRange(|rs| - 1, before + after)
    ensures var n := |rs| - 1;
            && InRange(|rs|, before + [n] + after)
            && multiset(Pick(rs, before + [n] + after)) == multiset(Pick(rs[..n], before + after)) + multiset{rs[n]}
  {
    var n := |rs| - 1;
    forall i | i in before + [n] + after ensures i < n + 1 {
      assert i == n || i in before + after;
    }
    var p, q := Pick(rs, before + [n] + after), Pick(rs[..n], before + after);
    assert p == q[..|before|] + [rs[n]] + q[|before|..];
    assert q == q[..|before|] + q[|before|..];
  }

  lemma {:induction false} PickIsPermutation<T>(rs: seq<T>, ix: seq<nat>)
    requires Lists(ix, Indices(|rs|)) && InRange(|rs|, ix)
    ensures multiset(Pick(rs, ix)) == multiset(rs)
    decreases |rs|
  {
    hide Pick, InRange;
    if rs == [] {
      if ix != [] { assert ix[0] in ix; }
    } else {
      var n := |rs| - 1;
      assert n in ix;
      var p :| 0 <= p < |ix| && ix[p] == n;
      hide Lists, Indices;
      WithoutLast(ix, n, p);
      PickIsPermutation(rs[..n], ix[..p] + ix[p + 1..]);
      PickAround(rs, ix[..p], ix[p + 1..]);
      LastOut(rs);
    }
  }

  lemma LastOut<T>(s: seq<T>)
    requires s != []
    ensures multiset(s) == multiset(s[..|s| - 1]) + multiset{s[|s| - 1]}
  {
    assert s == s[..|s| - 1] + [s[|s| - 1]];
  }

  lemma PickNone<T>(rs: seq<T>)
    ensures InRange(|rs|, []) && Pick(rs, []) == []
  {}

  lemma PickAppend<T>(rs: seq<T>, a: seq<nat>, b: seq<nat>)
    requires InRange(|rs|, a) && InRange(|rs|, b)
    ensures InRange(|rs|, a + b) && Pick(rs, a + b) == Pick(rs, a) + Pick(rs, b)
  {}

  lemma {:induction false} PickFlattened<T>(rs: seq<T>, ranks: seq<seq<T>>, layers: seq<seq<nat>>)
    requires |ranks| == |layers|
    requires forall k :: 0 <= k < |layers| ==> InRange(|rs|, layers[k]) && ranks[k] == Pick(rs, layers[k])
    ensures InRange(|rs|, Flatten(layers)) && Flatten(ranks) == Pick(rs, Flatten(layers))
  {
    hide Pick, InRange;
    if layers == [] {
      PickNone(rs);
    } else {
      var n := |layers| - 1;
      PickFlattened(rs, ranks[..n], layers[..n]);
      PickAppend(rs, Flatten(layers[..n]), layers[n]);
    }
  }

  /** The ranks hold every result exactly as often as the input does: nothing lost, nothing repeated. */
  lemma RanksPartition(objectives: seq<Objective>, rs: seq<EvaluationResult>, ranks: seq<seq<EvaluationResult>>)
    requires Ranked(objectives, rs, ranks)
    ensures multiset(Flatten(ranks)) == multiset(rs)
  {
    var D := DominanceOrder(Vectors(objectives, rs));
    var layers :| RankedBy(objectives, rs, ranks, layers);
    DominanceStrict(Vectors(objectives, rs));
    FlatLayersListAll(D, |rs|, layers);
    PickFlattened(rs, ranks, layers);
    PickIsPermutation(rs, Flatten(layers));
  }

  /**
   * A result that dominates another is in a strictly earlier rank, so members of one rank never
   * dominate each other.
   */
  lemma RanksRespectDominance(objectives: seq<Objective>, rs: seq<EvaluationResult>, ranks: seq<seq<EvaluationResult>>,
                              k: nat, l: nat, p: nat, q: nat)
    requires Ranked(objectives, rs, ranks) && k < |ranks| && l < |ranks| && p < |ranks[k]| && q < |ranks[l]|
    requires Better(objectives, ranks[k][p], ranks[l][q])
    ensures k < l
  {
    var D := DominanceOrder(Vectors(objectives, rs));
    var layers :| RankedBy(objectives, rs, ranks, layers);
    assert layers[k][p] in layers[k] && layers[l][q] in layers[l];
    LayersRespectOrder(D, Indices(|rs|), k, l, layers[k][p], layers[l][q]);
  }

  /** Every member of a later rank is dominated by some member of the rank just before it. */
  lemma RanksAreTight(objectives: seq<Objective>, rs: seq<EvaluationResult>, ranks: seq<seq<EvaluationResult>>,
                      k: nat, q: nat) returns (p: nat)
    requires Ranked(objectives, rs, ranks) && k + 1 < |ranks| && q < |ranks[k + 1]|
    ensures p < |ranks[k]| && Better(objectives, ranks[k][p], ranks[k + 1][q])
  {
    var D := DominanceOrder(Vectors(objectives, rs));
    var layers :| RankedBy(objectives, rs, ranks, layers);
    var j := layers[k + 1][q];
    assert j in layers[k + 1];
    var i := DominatedFromPrevious(D, Indices(|rs|), k, j);
    assert i in layers[k];
    p :| 0 <= p < |layers[k]| && layers[k][p] == i;
  }

  /** Rank 1 is the true Pareto front: exactly the results that no result dominates. */
  lemma FirstRankIsParetoFront(objectives: seq<Objective>, rs: seq<EvaluationResult>,
                               ranks: seq<seq<EvaluationResult>>, r: EvaluationResult)
    requires Ranked(objectives, rs, ranks) && r in rs
    ensures ranks != []
    ensures r in ranks[0] <==> forall s :: s in rs ==> !Better(objectives, s, r)
  {
    hide *;
    RanksPartition(objectives, rs, ranks);
    assert forall s :: s in multiset(rs) <==> s in Flatten(ranks);
    FlattenMember(ranks, r);
    assert r in multiset(rs);
    if r in ranks[0] {
      forall s | s in rs ensures !Better(objectives, s, r) {
        assert s in multiset(rs);
        FlattenMember(ranks, s);
        var k :| 0 <= k < |ranks| && s in ranks[k];
        var p :| 0 <= p < |ranks[k]| && ranks[k][p] == s;
        var q :| 0 <= q < |ranks[0]| && ranks[0][q] == r;
        if Better(objectives, s, r) { RanksRespectDominance(objectives, rs, ranks, k, 0, p, q); }
      }
    } else {
      var k :| 0 <= k < |ranks| && r in ranks[k];
      var q :| 0 <= q < |ranks[k]| && ranks[k][q] == r;
      var p := RanksAreTight(objectives, rs, ranks, k - 1, q);
      FlattenMember(ranks, ranks[k - 1][p]);
      assert ranks[k - 1][p] in multiset(rs);
    }
  }

  // ---------- Missing objectives, and the hypervolume of the first rank ----------

  /** A missing objective is the best possible value when maximising and the worst when minimising. */
  lemma MissingObjectiveValue(o: Objective, r: EvaluationResult, s: EvaluationResult)
    requires o.name !in r.objectives && o.name in s.objectives
    ensures Less(NormalValue(o, r), NormalValue(o, s)) <==> o.direction == Maximize
    ensures Less(NormalValue(o, s), NormalValue(o, r)) <==> o.direction == Minimize
  {}

  /** a is at least as good as b on o; a missing value is the best when maximising and the worst when minimising. */
  ghost predicate NoWorse(o: Objective, a: EvaluationResult, b: EvaluationResult) {
    if o.name !in a.objectives then o.direction == Maximize || o.name !in b.objectives
    else if o.name !in b.objectives then o.direction == Minimize
    else AsGood(o, a, b)
  }

  ghost predicate NoWorseOnAll(objectives: seq<Objective>, a: EvaluationResult, b: EvaluationResult) {
    forall i :: 0 <= i < |objectives| ==> NoWorse(objectives[i], a, b)
  }

  lemma NoWorseIsNotLess(o: Objective, a: EvaluationResult, b: EvaluationResult)
    ensures NoWorse(o, a, b) <==> !Less(NormalValue(o, b), NormalValue(o, a))
  {}

  /** Dominance in terms of the values present and missing: as good on all objectives, and not the other way round. */
  lemma BetterInSourceTerms(objectives: seq<Objective>, a: EvaluationResult, b: EvaluationResult)
    ensures Better(objectives, a, b) <==> NoWorseOnAll(objectives, a, b) && !NoWorseOnAll(objectives, b, a)
  {
    hide NoWorse, Less, NormalValue;
    var x, y := Normalize(objectives, a), Normalize(objectives, b);
    forall i | 0 <= i < |objectives|
      ensures NoWorse(objectives[i], a, b) <==> !Less(y[i], x[i])
      ensures NoWorse(objectives[i], b, a) <==> !Less(x[i], y[i])
    {
      NoWorseIsNotLess(objectives[i], a, b);
      NoWorseIsNotLess(objectives[i], b, a);
    }
  }

  /** So a result is on the front exactly when every result as good on all objectives is matched on all of them. */
  lemma FrontInSourceTerms(objectives: seq<Objective>, rs: seq<EvaluationResult>,
                           ranks: seq<seq<EvaluationResult>>, r: EvaluationResult)
    requires Ranked(objectives, rs, ranks) && r in rs
    ensures ranks != []
    ensures r in ranks[0] <==>
              forall s :: s in rs && NoWorseOnAll(objectives, s, r) ==> NoWorseOnAll(objectives, r, s)
  {
    FirstRankIsParetoFront(objectives, rs, ranks, r);
    hide Better, NoWorseOnAll, Ranked;
    forall s ensures Better(objectives, s, r) <==> NoWorseOnAll(objectives, s, r) && !NoWorseOnAll(objectives, r, s) {
      BetterInSourceTerms(objectives, s, r);
    }
  }

  /**
   * A result r pushes a complete one s off the front exactly when all it misses is maximised, it is as good
   * on the rest, and it misses something or is better somewhere.
   */
  lemma BetterThanComplete(objectives: seq<Objective>, r: EvaluationResult, s: EvaluationResult)
    requires CarriesAll(objectives, s)
    ensures Better(objectives, r, s) <==>
              && (forall i :: 0 <= i < |objectives| ==>
                    if objectives[i].name in r.objectives then AsGood(objectives[i], r, s)
                    else objectives[i].direction == Maximize)
              && (exists i :: 0 <= i < |objectives| &&
                    (objectives[i].name in r.objectives ==> !AsGood(objectives[i], s, r)))
  {
    BetterInSourceTerms(objectives, r, s);
    hide Better, AsGood;
    assert forall i :: 0 <= i < |objectives| ==> objectives[i].name in s.objectives;
    if NoWorseOnAll(objectives, r, s) {
      forall i | 0 <= i < |objectives|
        ensures NoWorse(objectives[i], s, r) <==>
                  objectives[i].name in r.objectives && AsGood(objectives[i], s, r)
      {
        assert NoWorse(objectives[i], r, s);
      }
    }
  }

  ghost predicate CarriesAll(objectives: seq<Objective>, r: EvaluationResult) {
    forall i :: 0 <= i < |objectives| ==> objectives[i].name in r.objectives
  }

  /**
   * So when everything is maximised, a feasible result that carries no objective at all is always
   * on the front, and it pushes every complete result off it.
   */
  lemma EmptyResultTakesTheFront(objectives: seq<Objective>, rs: seq<EvaluationResult>,
                                 ranks: seq<seq<EvaluationResult>>, r: EvaluationResult, s: EvaluationResult)
    requires objectives != [] && forall i :: 0 <= i < |objectives| ==>
               objectives[i].direction == Maximize && objectives[i].name !in r.objectives
    requires Ranked(objectives, rs, ranks) && r in rs && s in rs && CarriesAll(objectives, s)
    ensures ranks != [] && r in ranks[0] && s !in ranks[0]
  {
    FirstRankIsParetoFront(objectives, rs, ranks, r);
    FirstRankIsParetoFront(objectives, rs, ranks, s);
    var best := Normalize(objectives, r);
    assert forall i :: 0 <= i < |best| ==> best[i] == NegInf;
    assert Less(best[0], Normalize(objectives, s)[0]);
    assert Better(objectives, r, s);
  }

  lemma BetterOnTwo(o1: Objective, o2: Objective, a: EvaluationResult, b: EvaluationResult)
    requires CarriesAll([o1, o2], a) && CarriesAll([o1, o2], b)
    requires AsGood(o1, a, b) && AsGood(o2, a, b) && !(AsGood(o1, b, a) && AsGood(o2, b, a))
    ensures Better([o1, o2], a, b)
  {
    var objs := [o1, o2];
    assert objs[0].name in a.objectives && objs[0].name in b.objectives;
    assert objs[1].name in a.objectives && objs[1].name in b.objectives;
    var x, y := Normalize(objs, a), Normalize(objs, b);
    assert x[0] == NormalValue(o1, a) && x[1] == NormalValue(o2, a);
    assert y[0] == NormalValue(o1, b) && y[1] == NormalValue(o2, b);
    assert Less(x[0], y[0]) || Less(x[1], y[1]);
  }

  /** On the first rank of complete two-objective results the hypervolume counts covered grid cells. */
  lemma FrontHypervolumeCountsCells(o1: Objective, o2: Objective, rs: seq<EvaluationResult>,
                                    ranks: seq<seq<EvaluationResult>>, X: nat, Y: nat)
    requires Ranked([o1, o2], rs, ranks) && ranks != [] && ranks[0] != []
    requires WholeValued(o1, ranks[0]) && WholeValued(o2, ranks[0])
    requires X as real == SpanOf(o1, ranks[0]) && Y as real == SpanOf(o2, ranks[0])
    ensures Scaled(HypervolumeOf(o1, o2, ranks[0]), X, Y)
            == |Staircase.Region(CellPoints(o1, o2, ranks[0]), X, Y)| as real
  {
    hide Ranked, SpanOf, HypervolumeOf, Scaled, CellPoints;
    var front := ranks[0];
    forall i, j | 0 <= i < |front| && 0 <= j < |front| && AsGood(o1, front[i], front[j]) &&
        AsGood(o2, front[i], front[j])
      ensures AsGood(o1, front[j], front[i]) && AsGood(o2, front[j], front[i])
    {
      assert front[i] in front && front[j] in front;
      if !(AsGood(o1, front[j], front[i]) && AsGood(o2, front[j], front[i])) {
        BetterOnTwo(o1, o2, front[i], front[j]);
        RanksRespectDominance([o1, o2], rs, ranks, 0, 0, i, j);
      }
    }
    HypervolumeCountsCells(o1, o2, front, X, Y);
  }
}
