/** ParetoAnalyzer.crowdingDistance: each point's distance, its bounds and its telescoping total. */
module Crowding {
  import opened CampaignTypes
  import opened Dominance
  import opened Sequences
  import opened Sorting

  function ByObjective(o: Objective): (EvaluationResult, EvaluationResult) -> bool {
    (a: EvaluationResult, b: EvaluationResult) => Coordinate(o, a) <= Coordinate(o, b)
  }

  function SortedBy(o: Objective, front: seq<EvaluationResult>): (s: seq<EvaluationResult>)
    ensures |s| == |front|
  {
    StableSort(front, ByObjective(o))
  }

  ghost predicate UniqueIds(rs: seq<EvaluationResult>) {
    forall i, j :: 0 <= i < j < |rs| ==> rs[i].designPoint.id != rs[j].designPoint.id
  }

  ghost function Ids(rs: seq<EvaluationResult>): set<string> {
    set r | r in rs :: r.designPoint.id
  }

  lemma SortedKeepsIds(o: Objective, front: seq<EvaluationResult>)
    ensures Ids(SortedBy(o, front)) == Ids(front)
    ensures UniqueIds(front) ==> UniqueIds(SortedBy(o, front))
  {
    var s := SortedBy(o, front);
    SortMultiset(front, ByObjective(o));
    assert forall r :: r in s <==> r in multiset(front);
    if UniqueIds(front) {
      forall i, j | 0 <= i < j < |s| ensures s[i].designPoint.id != s[j].designPoint.id {
        UniqueMembers(front, s, i, j);
      }
    }
  }

  lemma UniqueMembers(front: seq<EvaluationResult>, s: seq<EvaluationResult>, i: nat, j: nat)
    requires UniqueIds(front) && multiset(s) <= multiset(front) && i < j < |s|
    ensures s[i].designPoint.id != s[j].designPoint.id
  {
    if s[i] == s[j] {
      CountTwice(s, i, j);
      CountDistinct(front, s[i]);
    }
    assert s[i] in multiset(s) && s[j] in multiset(s);
  }

  ghost predicate Ascending(o: Objective, s: seq<EvaluationResult>) {
    forall i, j :: 0 <= i < j < |s| ==> Coordinate(o, s[i]) <= Coordinate(o, s[j])
  }

  lemma SortedAscends(o: Objective, front: seq<EvaluationResult>)
    ensures Ascending(o, SortedBy(o, front))
  {
    SortSorted(front, ByObjective(o));
    var s := SortedBy(o, front);
    forall i, j | 0 <= i < j < |s| ensures Coordinate(o, s[i]) <= Coordinate(o, s[j]) {
      assert ByObjective(o)(s[i], s[j]);
    }
  }

  // ---------- The specification: a sum of gaps ----------

  /** `max - min || 1` over a sorted front */
  function Range(o: Objective, s: seq<EvaluationResult>): (r: real)
    requires s != []
    ensures r != 0.0
  {
    var d := Coordinate(o, s[|s| - 1]) - Coordinate(o, s[0]);
    if d == 0.0 then 1.0 else d
  }

  function Ratio(gap: real, range: real): real
    requires range != 0.0
  {
    gap / range
  }

  /** What one objective adds to the point at position p of its sorted order. */
  function Gap(o: Objective, s: seq<EvaluationResult>, p: nat): Distance
    requires p < |s|
  {
    if p == 0 || p == |s| - 1 then PosInf
    else Fin(Ratio(Coordinate(o, s[p + 1]) - Coordinate(o, s[p - 1]), Range(o, s)))
  }

  type Distance = d: Num | !d.NegInf? witness Fin(0.0)

  function Add(a: Distance, b: Distance): Distance {
    if a.Fin? && b.Fin? then Fin(a.v + b.v) else PosInf
  }

  /** The gaps an id has at the first k positions of a sorted order, added up. */
  ghost function GapsUpTo(o: Objective, s: seq<EvaluationResult>, id: string, k: nat): Distance
    requires k <= |s|
  {
    if k == 0 then Fin(0.0)
    else
      var before := GapsUpTo(o, s, id, k - 1);
      if s[k - 1].designPoint.id == id then Add(before, Gap(o, s, k - 1)) else before
  }

  ghost function GapOf(o: Objective, front: seq<EvaluationResult>, id: string): Distance {
    GapsUpTo(o, SortedBy(o, front), id, |front|)
  }

  /** The sum of a point's gaps over the objectives; infinite as soon as one of them is. */
  ghost function Crowd(objectives: seq<Objective>, front: seq<EvaluationResult>, id: string): Distance {
    if objectives == [] then Fin(0.0)
    else
      var n := |objectives| - 1;
      Add(Crowd(objectives[..n], front, id), GapOf(objectives[n], front, id))
  }

  ghost function CrowdingOf(objectives: seq<Objective>, front: seq<EvaluationResult>, id: string): Distance {
    if |front| <= 2 then PosInf else Crowd(objectives, front, id)
  }

  /** With unique ids an id has the one gap at its position. */
  lemma {:induction false} OneGap(o: Objective, s: seq<EvaluationResult>, p: nat, k: nat)
    requires UniqueIds(s) && p < |s| && k <= |s|
    ensures GapsUpTo(o, s, s[p].designPoint.id, k) == if k <= p then Fin(0.0) else Gap(o, s, p)
  {
    hide Gap;
    if k > 0 {
      OneGap(o, s, p, k - 1);
    }
  }

  /**
   * w is what an objective adds to the point at an inner position of its sorted order: the neighbours' distance
   * over the whole range, multiplied out; nothing if all values are equal.
   */
  ghost predicate Adds(o: Objective, s: seq<EvaluationResult>, p: nat, w: real)
    requires 0 < p < |s| - 1
  {
    var lowest, highest := Coordinate(o, s[0]), Coordinate(o, s[|s| - 1]);
    && w * (highest - lowest) == Coordinate(o, s[p + 1]) - Coordinate(o, s[p - 1])
    && (highest == lowest ==> w == 0.0)
  }

  lemma InnerGap(o: Objective, front: seq<EvaluationResult>, p: nat)
    requires UniqueIds(front) && 0 < p < |front| - 1
    ensures var s := SortedBy(o, front);
            var added := GapOf(o, front, s[p].designPoint.id);
            added.Fin? && Adds(o, s, p, added.v)
  {
    var s := SortedBy(o, front);
    SortedKeepsIds(o, front);
    SortedAscends(o, front);
    hide SortedBy;
    OneGap(o, s, p, |s|);
    RatioAdds(o, s, p);
  }

  lemma RatioAdds(o: Objective, s: seq<EvaluationResult>, p: nat)
    requires Ascending(o, s) && 0 < p < |s| - 1
    ensures Gap(o, s, p).Fin? && Adds(o, s, p, Gap(o, s, p).v)
  {
    hide Ratio, Coordinate;
    var lowest, highest := Coordinate(o, s[0]), Coordinate(o, s[|s| - 1]);
    var prev, next := Coordinate(o, s[p - 1]), Coordinate(o, s[p + 1]);
    assert lowest <= prev <= next <= highest;
    RatioOfRange(o, s, next - prev);
  }

  lemma RatioOfRange(o: Objective, s: seq<EvaluationResult>, gap: real)
    requires s != []
    requires Coordinate(o, s[|s| - 1]) == Coordinate(o, s[0]) ==> gap == 0.0
    ensures var width := Coordinate(o, s[|s| - 1]) - Coordinate(o, s[0]);
            && Ratio(gap, Range(o, s)) * width == gap
            && (width == 0.0 ==> Ratio(gap, Range(o, s)) == 0.0)
  {
    RatioTimes(gap, Range(o, s));
    hide Ratio, Coordinate;
  }

  lemma RatioTimes(gap: real, range: real)
    requires range != 0.0
    ensures Ratio(gap, range) * range == gap
    ensures gap == 0.0 ==> Ratio(gap, range) == 0.0
  {}

  lemma AddsOne(o: Objective, s: seq<EvaluationResult>, p: nat, a: real, b: real)
    requires 0 < p < |s| - 1 && Adds(o, s, p, a) && Adds(o, s, p, b)
    ensures a == b
  {
    hide Coordinate;
    SameFactor(a, b, Coordinate(o, s[|s| - 1]) - Coordinate(o, s[0]));
  }

  // ---------- The algorithm ----------

  type Distances = map<string, Distance>

  ghost predicate Covers(dist: Distances, s: seq<EvaluationResult>) {
    forall k :: 0 <= k < |s| ==> s[k].designPoint.id in dist
  }

  /** The id is at an end of the sorted order. */
  ghost predicate IsEnd(s: seq<EvaluationResult>, id: string) {
    s != [] && (s[0].designPoint.id == id || s[|s| - 1].designPoint.id == id)
  }

  /** The pass has handled the two end points and every position below i. */
  ghost predicate PassDone(o: Objective, s: seq<EvaluationResult>, before: Distances, dist: Distances, i: nat) {
    && i <= |s| && before.Keys == dist.Keys
    && forall id :: id in dist ==> dist[id] == if IsEnd(s, id) then PosInf else Add(before[id], GapsUpTo(o, s, id, i))
  }

  lemma PassStarts(o: Objective, s: seq<EvaluationResult>, before: Distances)
    requires |s| > 2 && Covers(before, s)
    ensures PassDone(o, s, before, before[s[0].designPoint.id := PosInf][s[|s| - 1].designPoint.id := PosInf], 1)
  {
    hide Gap;
    forall id | id in before && !IsEnd(s, id) ensures Add(before[id], GapsUpTo(o, s, id, 1)) == before[id] {
      assert GapsUpTo(o, s, id, 0) == Fin(0.0);
      assert GapsUpTo(o, s, id, 1) == Fin(0.0);
    }
  }

  lemma PassStep(o: Objective, s: seq<EvaluationResult>, before: Distances, dist: Distances, i: nat)
    requires 1 <= i < |s| - 1 && Covers(dist, s) && PassDone(o, s, before, dist, i)
    ensures var id := s[i].designPoint.id;
            PassDone(o, s, before, dist[id := Add(dist[id], Gap(o, s, i))], i + 1)
  {
    hide Gap, IsEnd;
  }

  lemma {:induction false} EndGapsAreInfinite(o: Objective, s: seq<EvaluationResult>, id: string, p: nat, k: nat)
    requires p < k <= |s| && s[p].designPoint.id == id && (p == 0 || p == |s| - 1)
    ensures GapsUpTo(o, s, id, k) == PosInf
  {
    if p < k - 1 {
      EndGapsAreInfinite(o, s, id, p, k - 1);
    }
  }

  lemma PassEnds(o: Objective, front: seq<EvaluationResult>, before: Distances, dist: Distances, id: string)
    requires var s := SortedBy(o, front); |s| > 2 && PassDone(o, s, before, dist, |s| - 1)
    requires id in dist
    ensures dist[id] == Add(before[id], GapOf(o, front, id))
  {
    hide SortedBy;
    var s := SortedBy(o, front);
    if s[0].designPoint.id == id {
      EndGapsAreInfinite(o, s, id, 0, |s|);
    } else if s[|s| - 1].designPoint.id == id {
      EndGapsAreInfinite(o, s, id, |s| - 1, |s|);
    } else {
      assert GapsUpTo(o, s, id, |s|) == GapsUpTo(o, s, id, |s| - 1);
    }
  }

  lemma SortedCovered(o: Objective, front: seq<EvaluationResult>, dist: Distances)
    requires dist.Keys == Ids(front)
    ensures Covers(dist, SortedBy(o, front))
  {
    SortedKeepsIds(o, front);
    var s := SortedBy(o, front);
    forall k | 0 <= k < |s| ensures s[k].designPoint.id in dist {
      assert s[k] in s;
    }
  }

  /** One objective's pass over its sorted order. */
  method AddObjective(o: Objective, front: seq<EvaluationResult>, before: Distances) returns (dist: Distances)
    requires |front| > 2 && before.Keys == Ids(front)
    ensures dist.Keys == Ids(front)
    ensures forall id :: id in dist ==> dist[id] == Add(before[id], GapOf(o, front, id))
    ensures UniqueIds(front) ==>
              forall p :: 0 < p < |front| - 1 ==> Grows(o, SortedBy(o, front), p, before, dist)
  {
    var s := SortedBy(o, front);
    hide SortedBy, Ids, PassDone, GapOf, Covers;
    var n := |s|;
    SortedCovered(o, front, before);
    dist := before[s[0].designPoint.id := PosInf][s[n - 1].designPoint.id := PosInf];
    assert dist.Keys == before.Keys by { CoversEnds(before, s); }
    PassStarts(o, s, before);
    var range := Range(o, s);
    for i := 1 to n - 1
      invariant dist.Keys == before.Keys && PassDone(o, s, before, dist, i)
    {
      var prev, next := Coordinate(o, s[i - 1]), Coordinate(o, s[i + 1]);
      var id := s[i].designPoint.id;
      SortedCovered(o, front, dist);
      CoversAt(dist, s, i);
      PassStep(o, s, before, dist, i);
      dist := dist[id := Add(dist[id], Fin(Ratio(next - prev, range)))];
    }
    forall id | id in dist ensures dist[id] == Add(before[id], GapOf(o, front, id)) {
      PassEnds(o, front, before, dist, id);
    }
    hide Range, Adds, UniqueIds;
    if UniqueIds(front) {
      forall p | 0 < p < |front| - 1 ensures Grows(o, s, p, before, dist) {
        InnerGap(o, front, p);
        SortedCovered(o, front, dist);
        CoversAt(dist, s, p);
      }
    }
  }

  /** The pass has added to the point at an inner position what it should; an infinite distance stays so. */
  ghost predicate Grows(o: Objective, s: seq<EvaluationResult>, p: nat, before: Distances, dist: Distances)
    requires 0 < p < |s| - 1
  {
    var id := s[p].designPoint.id;
    && id in before && id in dist
    && (before[id].PosInf? ==> dist[id].PosInf?)
    && (before[id].Fin? ==> dist[id].Fin? && Adds(o, s, p, dist[id].v - before[id].v))
  }

  lemma CoversAt(dist: Distances, s: seq<EvaluationResult>, i: nat)
    requires Covers(dist, s) && i < |s|
    ensures s[i].designPoint.id in dist
  {}

  lemma CoversEnds(dist: Distances, s: seq<EvaluationResult>)
    requires Covers(dist, s) && s != []
    ensures s[0].designPoint.id in dist && s[|s| - 1].designPoint.id in dist
  {}

  /** `front.forEach(r => dist.set(r.designPoint.id, v))` */
  method SetAll(front: seq<EvaluationResult>, v: Distance) returns (dist: Distances)
    ensures dist.Keys == Ids(front) && forall id :: id in dist ==> dist[id] == v
  {
    dist := map[];
    for i := 0 to |front|
      invariant dist.Keys == Ids(front[..i]) && forall id :: id in dist ==> dist[id] == v
    {
      assert front[..i + 1] == front[..i] + [front[i]];
      dist := dist[front[i].designPoint.id := v];
    }
    assert front[..|front|] == front;
  }

  function Sum(w: seq<real>): real {
    if w == [] then 0.0 else Sum(w[..|w| - 1]) + w[|w| - 1]
  }

  /** The id is at an inner position of an objective's sorted order, where the objective adds w. */
  ghost predicate Contributes(o: Objective, front: seq<EvaluationResult>, id: string, w: real) {
    exists p :: 0 < p < |front| - 1 && SortedBy(o, front)[p].designPoint.id == id && Adds(o, SortedBy(o, front), p, w)
  }

  ghost predicate Contributions(objectives: seq<Objective>, front: seq<EvaluationResult>, id: string, w: seq<real>) {
    |w| == |objectives| && forall k :: 0 <= k < |w| ==> Contributes(objectives[k], front, id, w[k])
  }

  lemma ContributionIsGap(o: Objective, front: seq<EvaluationResult>, id: string, w: real)
    requires UniqueIds(front) && Contributes(o, front, id, w)
    ensures GapOf(o, front, id) == Fin(w)
  {
    var s := SortedBy(o, front);
    var p: nat :| 0 < p < |front| - 1 && s[p].designPoint.id == id && Adds(o, s, p, w);
    InnerGap(o, front, p);
    hide SortedBy, GapOf, Adds;
    AddsOne(o, s, p, w, GapOf(o, front, id).v);
  }

  lemma SameFactor(a: real, b: real, x: real)
    requires a * x == b * x && (x == 0.0 ==> a == b)
    ensures a == b
  {
    assert (a - b) * x == a * x - b * x;
  }

  /** A finite crowding distance is the sum of what the objectives add. */
  lemma {:induction false} CrowdIsSum(objectives: seq<Objective>, front: seq<EvaluationResult>, id: string,
                                      w: seq<real>)
    requires UniqueIds(front) && Contributions(objectives, front, id, w)
    ensures Crowd(objectives, front, id) == Fin(Sum(w))
  {
    hide GapOf, Contributes, UniqueIds;
    if objectives != [] {
      var n := |objectives| - 1;
      forall k | 0 <= k < n ensures Contributes(objectives[..n][k], front, id, w[..n][k]) {
        assert Contributes(objectives[k], front, id, w[k]);
      }
      CrowdIsSum(objectives[..n], front, id, w[..n]);
      ContributionIsGap(objectives[n], front, id, w[n]);
    }
  }

  /** Every point that is at no end of any order has contributions. */
  lemma InnerContributes(objectives: seq<Objective>, front: seq<EvaluationResult>, id: string)
    returns (w: seq<real>)
    requires UniqueIds(front) && id in Ids(front)
    requires forall k :: 0 <= k < |objectives| ==> !IsEnd(SortedBy(objectives[k], front), id)
    ensures Contributions(objectives, front, id, w)
  {
    w := [];
    for k := 0 to |objectives|
      invariant |w| == k && forall j :: 0 <= j < k ==> Contributes(objectives[j], front, id, w[j])
    {
      var s := SortedBy(objectives[k], front);
      SortedKeepsIds(objectives[k], front);
      hide SortedBy, Contributes;
      var r :| r in s && r.designPoint.id == id;
      var p: nat :| p < |s| && s[p] == r;
      var added := ContributionAt(objectives[k], front, id, p);
      w := w + [added];
    }
  }

  lemma ContributionAt(o: Objective, front: seq<EvaluationResult>, id: string, p: nat) returns (w: real)
    requires UniqueIds(front) && 0 < p < |front| - 1 && SortedBy(o, front)[p].designPoint.id == id
    ensures Contributes(o, front, id, w)
  {
    hide SortedBy;
    InnerGap(o, front, p);
    w := GapOf(o, front, id).v;
    assert Adds(o, SortedBy(o, front), p, w);
  }

  /**
   * The map has the front's ids. A front of at most two has infinite distances; in a larger one with unique
   * ids, a point at no end of any order has the sum of what the objectives add, and the others are infinite.
   */
  method CrowdingDistance(objectives: seq<Objective>, front: seq<EvaluationResult>) returns (dist: Distances)
    ensures dist.Keys == Ids(front)
    ensures forall id :: id in dist ==> dist[id] == CrowdingOf(objectives, front, id)
    ensures |front| <= 2 ==> forall id :: id in dist ==> dist[id] == PosInf
    ensures |front| > 2 && UniqueIds(front) ==>
              forall id, w :: id in dist && Contributions(objectives, front, id, w) ==> dist[id] == Fin(Sum(w))
  {
    hide Ids, GapOf, Contributions, UniqueIds;
    forall id, w | UniqueIds(front) && Contributions(objectives, front, id, w)
      ensures Crowd(objectives, front, id) == Fin(Sum(w))
    {
      CrowdIsSum(objectives, front, id, w);
    }
    if |front| <= 2 {
      dist := SetAll(front, PosInf);
      return;
    }
    dist := SetAll(front, Fin(0.0));
    for k := 0 to |objectives|
      invariant dist.Keys == Ids(front)
      invariant forall id :: id in dist ==> dist[id] == Crowd(objectives[..k], front, id)
    {
      assert objectives[..k + 1][..k] == objectives[..k];
      dist := AddObjective(objectives[k], front, dist);
    }
    assert objectives[..|objectives|] == objectives;
  }
}
