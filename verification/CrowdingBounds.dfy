/** How large crowding distances can be, one by one and in total. */
module CrowdingBounds {
  import opened CampaignTypes
  import opened Dominance
  import opened Sequences
  import opened Sorting
  import opened Crowding

  lemma RatioBounds(gap: real, range: real, bound: real)
    requires range > 0.0 && 0.0 <= gap <= bound * range
    ensures 0.0 <= Ratio(gap, range) <= bound
  {}

  lemma RatioSum(a: real, b: real, range: real)
    requires range != 0.0
    ensures Ratio(a, range) + Ratio(b, range) == Ratio(a + b, range)
  {}

  lemma GapInUnit(o: Objective, s: seq<EvaluationResult>, p: nat)
    requires Ascending(o, s) && p < |s|
    ensures Gap(o, s, p) == PosInf || (Gap(o, s, p).Fin? && 0.0 <= Gap(o, s, p).v <= 1.0)
    ensures Gap(o, s, p) == PosInf <==> p == 0 || p == |s| - 1
  {
    hide Ratio;
    if 0 < p < |s| - 1 {
      RatioBounds(Coordinate(o, s[p + 1]) - Coordinate(o, s[p - 1]), Range(o, s), 1.0);
    }
  }

  ghost predicate Bounded(d: Num, bound: real) {
    d == PosInf || (d.Fin? && 0.0 <= d.v <= bound)
  }

  lemma {:induction false} NoGap(o: Objective, s: seq<EvaluationResult>, id: string, k: nat)
    requires k <= |s| && id !in Ids(s)
    ensures GapsUpTo(o, s, id, k) == Fin(0.0)
  {
    hide Gap;
    if k > 0 {
      NoGap(o, s, id, k - 1);
      assert s[k - 1] in s;
    }
  }

  lemma GapOfInUnit(o: Objective, front: seq<EvaluationResult>, id: string)
    requires UniqueIds(front)
    ensures Bounded(GapOf(o, front, id), 1.0)
  {
    hide Gap, SortedBy;
    SortedAscends(o, front);
    SortedKeepsIds(o, front);
    var s := SortedBy(o, front);
    if id in Ids(s) {
      var r :| r in s && r.designPoint.id == id;
      var p :| 0 <= p < |s| && s[p] == r;
      OneGap(o, s, p, |s|);
      GapInUnit(o, s, p);
    } else {
      NoGap(o, s, id, |s|);
    }
  }

  /** A crowding distance is infinite or lies between 0 and the number of objectives. */
  lemma {:induction false} CrowdWithinObjectiveCount(objectives: seq<Objective>, front: seq<EvaluationResult>,
                                                     id: string)
    requires UniqueIds(front)
    ensures Bounded(Crowd(objectives, front, id), |objectives| as real)
  {
    hide GapOf;
    if objectives != [] {
      var n := |objectives| - 1;
      CrowdWithinObjectiveCount(objectives[..n], front, id);
      GapOfInUnit(objectives[n], front, id);
    }
  }

  lemma {:induction false} InnerGapsAreFinite(o: Objective, s: seq<EvaluationResult>, id: string, k: nat)
    requires k <= |s| && !IsEnd(s, id)
    ensures GapsUpTo(o, s, id, k).Fin?
  {
    if k > 0 {
      InnerGapsAreFinite(o, s, id, k - 1);
    }
  }

  lemma GapInfiniteAtEnd(o: Objective, front: seq<EvaluationResult>, id: string)
    ensures GapOf(o, front, id) == PosInf <==> IsEnd(SortedBy(o, front), id)
  {
    hide Gap, SortedBy;
    var s := SortedBy(o, front);
    if IsEnd(s, id) {
      EndGapsAreInfinite(o, s, id, if s[0].designPoint.id == id then 0 else |s| - 1, |s|);
    } else {
      InnerGapsAreFinite(o, s, id, |s|);
    }
  }

  /** It is infinite exactly when the id is at an end of the sorted order of some objective. */
  lemma {:induction false} CrowdInfiniteAtEnds(objectives: seq<Objective>, front: seq<EvaluationResult>, id: string)
    ensures Crowd(objectives, front, id) == PosInf <==>
            exists k :: 0 <= k < |objectives| && IsEnd(SortedBy(objectives[k], front), id)
  {
    hide IsEnd, GapOf, SortedBy;
    if objectives != [] {
      var n := |objectives| - 1;
      CrowdInfiniteAtEnds(objectives[..n], front, id);
      GapInfiniteAtEnd(objectives[n], front, id);
      forall k | 0 <= k < n ensures objectives[..n][k] == objectives[k] {}
      if k :| 0 <= k < n && IsEnd(SortedBy(objectives[..n][k], front), id) {
        assert IsEnd(SortedBy(objectives[k], front), id);
      }
    }
  }

  // ---------- Telescoping ----------

  function Finite(d: Num): real { if d.Fin? then d.v else 0.0 }

  /** Sum of the finite gaps at the first k positions of a sorted order. */
  ghost function GapSum(o: Objective, s: seq<EvaluationResult>, k: nat): real
    requires k <= |s|
  {
    if k == 0 then 0.0 else GapSum(o, s, k - 1) + Finite(Gap(o, s, k - 1))
  }

  lemma {:induction false} GapSumIsRatio(o: Objective, s: seq<EvaluationResult>, k: nat)
    requires 1 <= k < |s|
    ensures GapSum(o, s, k) == if k == 1 then 0.0 else
              Ratio(Coordinate(o, s[k]) + Coordinate(o, s[k - 1]) - Coordinate(o, s[0]) - Coordinate(o, s[1]),
                  Range(o, s))
  {
    hide Ratio, Range, Coordinate;
    if k == 1 {
      assert GapSum(o, s, 0) == 0.0;
    } else {
      GapSumIsRatio(o, s, k - 1);
      var v := (i: nat) requires i < |s| => Coordinate(o, s[i]);
      if k > 2 {
        RatioSum(v(k - 1) + v(k - 2) - v(0) - v(1), v(k) - v(k - 2), Range(o, s));
      }
    }
  }

  /** A total that, times the whole range, is two end differences; nothing if all values are equal. */
  ghost predicate Telescopes(o: Objective, s: seq<EvaluationResult>, k: nat, total: real)
    requires 2 <= k < |s|
  {
    var first, last := Coordinate(o, s[0]), Coordinate(o, s[|s| - 1]);
    && total * (last - first) == Coordinate(o, s[k]) - first + Coordinate(o, s[k - 1]) - Coordinate(o, s[1])
    && (last == first ==> total == 0.0)
  }

  /** The gaps up to a position telescope. */
  lemma GapsTelescope(o: Objective, s: seq<EvaluationResult>, k: nat)
    requires Ascending(o, s) && 2 <= k < |s|
    ensures Telescopes(o, s, k, GapSum(o, s, k))
  {
    GapSumIsRatio(o, s, k);
    hide GapSum, Telescopes, Ratio, Range;
    RatioTelescopes(o, s, k);
  }

  lemma RatioTelescopes(o: Objective, s: seq<EvaluationResult>, k: nat)
    requires Ascending(o, s) && 2 <= k < |s|
    ensures Telescopes(o, s, k, Ratio(Coordinate(o, s[k]) + Coordinate(o, s[k - 1]) - Coordinate(o, s[0])
                                      - Coordinate(o, s[1]), Range(o, s)))
  {
    hide Ratio, Coordinate;
    var first, last := Coordinate(o, s[0]), Coordinate(o, s[|s| - 1]);
    assert first <= Coordinate(o, s[k]) <= last && first <= Coordinate(o, s[k - 1]) <= last;
    assert first <= Coordinate(o, s[1]) <= last;
    hide Ascending;
    RatioOfRange(o, s, Coordinate(o, s[k]) + Coordinate(o, s[k - 1]) - first - Coordinate(o, s[1]));
    hide Range;
  }

  lemma GapSumAtMostTwo(o: Objective, s: seq<EvaluationResult>)
    requires Ascending(o, s)
    ensures GapSum(o, s, |s|) <= 2.0
  {
    hide Ratio;
    var n := |s|;
    if n >= 2 {
      GapSumIsRatio(o, s, n - 1);
      if n > 2 {
        RatioBounds(Coordinate(o, s[n - 1]) + Coordinate(o, s[n - 2]) - Coordinate(o, s[0]) - Coordinate(o, s[1]),
                    Range(o, s), 2.0);
      }
    }
  }

  /** An id's own gaps are part of all gaps. */
  lemma {:induction false} GapsWithinAll(o: Objective, s: seq<EvaluationResult>, id: string, k: nat)
    requires Ascending(o, s) && k <= |s|
    ensures 0.0 <= Finite(GapsUpTo(o, s, id, k)) <= GapSum(o, s, k)
  {
    hide Gap;
    if k > 0 {
      GapsWithinAll(o, s, id, k - 1);
      GapInUnit(o, s, k - 1);
    }
  }

  /** Even where an id occurs several times, its distance is infinite or at most twice the number of objectives. */
  lemma {:induction false} CrowdWithinTwiceObjectiveCount(objectives: seq<Objective>, front: seq<EvaluationResult>,
                                                          id: string)
    ensures Bounded(Crowd(objectives, front, id), 2.0 * |objectives| as real)
  {
    if objectives != [] {
      var n := |objectives| - 1;
      var s := SortedBy(objectives[n], front);
      CrowdWithinTwiceObjectiveCount(objectives[..n], front, id);
      SortedAscends(objectives[n], front);
      hide SortedBy, GapsUpTo, GapSum, Ascending;
      GapsWithinAll(objectives[n], s, id, |s|);
      GapSumAtMostTwo(objectives[n], s);
    }
  }

  // ---------- Summing over a front, in any order ----------

  ghost function SumBy(rs: seq<EvaluationResult>, g: EvaluationResult -> real): real {
    if rs == [] then 0.0 else SumBy(rs[..|rs| - 1], g) + g(rs[|rs| - 1])
  }

  lemma {:induction false} SumWithout(rs: seq<EvaluationResult>, g: EvaluationResult -> real, p: nat)
    requires p < |rs|
    ensures SumBy(rs, g) == SumBy(rs[..p] + rs[p + 1..], g) + g(rs[p])
  {
    var n := |rs| - 1;
    if p == n {
      assert rs[..p] + rs[p + 1..] == rs[..n];
    } else {
      SumWithout(rs[..n], g, p);
      var rest := rs[..p] + rs[p + 1..];
      assert rest[..n - 1] == rs[..n][..p] + rs[..n][p + 1..];
    }
  }

  lemma {:induction false} SumOfPermutation(rs: seq<EvaluationResult>, ss: seq<EvaluationResult>,
                                            g: EvaluationResult -> real)
    requires multiset(rs) == multiset(ss)
    ensures SumBy(rs, g) == SumBy(ss, g)
  {
    if rs == [] {
      PermutationOfNone(ss);
    } else {
      var p := TakeOne(rs, ss);
      SumOfPermutation(rs[..|rs| - 1], ss[..p] + ss[p + 1..], g);
      SumWithout(ss, g, p);
    }
  }

  lemma {:induction false} SumOfSums(rs: seq<EvaluationResult>, f: EvaluationResult -> real,
                                     g: EvaluationResult -> real, h: EvaluationResult -> real)
    requires forall r :: f(r) <= g(r) + h(r)
    ensures SumBy(rs, f) <= SumBy(rs, g) + SumBy(rs, h)
  {
    if rs != [] { SumOfSums(rs[..|rs| - 1], f, g, h); }
  }

  ghost function GapShare(o: Objective, front: seq<EvaluationResult>): EvaluationResult -> real {
    (r: EvaluationResult) => Finite(GapOf(o, front, r.designPoint.id))
  }

  ghost function CrowdShare(objectives: seq<Objective>, front: seq<EvaluationResult>): EvaluationResult -> real {
    (r: EvaluationResult) => Finite(Crowd(objectives, front, r.designPoint.id))
  }

  lemma {:induction false} SharesAreGaps(o: Objective, front: seq<EvaluationResult>, k: nat)
    requires UniqueIds(front) && k <= |front|
    ensures SumBy(SortedBy(o, front)[..k], GapShare(o, front)) == GapSum(o, SortedBy(o, front), k)
  {
    hide Gap, SortedBy;
    if k > 0 {
      var s := SortedBy(o, front);
      SharesAreGaps(o, front, k - 1);
      SortedKeepsIds(o, front);
      OneGap(o, s, k - 1, |s|);
      assert s[..k][..k - 1] == s[..k - 1];
    }
  }

  lemma GapSharesAtMostTwo(o: Objective, front: seq<EvaluationResult>)
    requires UniqueIds(front)
    ensures SumBy(front, GapShare(o, front)) <= 2.0
  {
    var s := SortedBy(o, front);
    SortMultiset(front, ByObjective(o));
    SumOfPermutation(front, s, GapShare(o, front));
    SharesAreGaps(o, front, |s|);
    assert s[..|s|] == s;
    SortedAscends(o, front);
    GapSumAtMostTwo(o, s);
  }

  /** The finite crowding distances of a layer add up to at most twice the number of objectives. */
  lemma {:induction false} FiniteCrowdingAtMostTwicePerObjective(objectives: seq<Objective>,
                                                                 front: seq<EvaluationResult>)
    requires UniqueIds(front)
    ensures SumBy(front, CrowdShare(objectives, front)) <= 2.0 * |objectives| as real
  {
    if objectives == [] {
      SumOfZeros(front, CrowdShare(objectives, front));
    } else {
      var n := |objectives| - 1;
      FiniteCrowdingAtMostTwicePerObjective(objectives[..n], front);
      GapSharesAtMostTwo(objectives[n], front);
      var f, g, h := CrowdShare(objectives, front), CrowdShare(objectives[..n], front), GapShare(objectives[n], front);
      forall r: EvaluationResult ensures f(r) <= g(r) + h(r) {
        CrowdWithinObjectiveCount(objectives[..n], front, r.designPoint.id);
        GapOfInUnit(objectives[n], front, r.designPoint.id);
      }
      SumOfSums(front, f, g, h);
    }
  }

  lemma {:induction false} SumOfZeros(rs: seq<EvaluationResult>, g: EvaluationResult -> real)
    requires forall r :: g(r) == 0.0
    ensures SumBy(rs, g) == 0.0
  {
    if rs != [] { SumOfZeros(rs[..|rs| - 1], g); }
  }
}
