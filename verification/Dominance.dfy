/** Pareto dominance between objective vectors. */
module Dominance {
  import opened Ranking

  /** A JavaScript number other than NaN, as far as ordering is concerned. */
  datatype Num = NegInf | Fin(v: real) | PosInf

  predicate Less(a: Num, b: Num) {
    || (a.NegInf? && !b.NegInf?)
    || (a.Fin? && b.PosInf?)
    || (a.Fin? && b.Fin? && a.v < b.v)
  }

  type Vector = seq<Num>

  /** a is nowhere worse than b and somewhere strictly better (all values minimised). */
  ghost predicate Dominates(a: Vector, b: Vector) {
    && |a| == |b|
    && (forall i :: 0 <= i < |a| ==> !Less(b[i], a[i]))
    && (exists i :: 0 <= i < |a| && Less(a[i], b[i]))
  }

  lemma DominatesTransitive(a: Vector, b: Vector, c: Vector)
    requires Dominates(a, b) && Dominates(b, c)
    ensures Dominates(a, c)
  {
    var i :| 0 <= i < |a| && Less(a[i], b[i]);
    assert !Less(c[i], b[i]);
    assert Less(a[i], c[i]);
  }

  ghost function Indices(n: nat): (s: set<nat>)
    ensures forall i: nat :: i in s <==> i < n
  {
    if n == 0 then {} else Indices(n - 1) + {n - 1}
  }

  /** The dominance order on the indices of vals. */
  ghost function DominanceOrder(vals: seq<Vector>): (D: Order)
    ensures forall i: nat, j: nat :: (i, j) in D <==> i < |vals| && j < |vals| && Dominates(vals[i], vals[j])
  {
    set i, j | i in Indices(|vals|) && j in Indices(|vals|) && Dominates(vals[i], vals[j]) :: (i, j)
  }

  lemma DominanceStrict(vals: seq<Vector>)
    ensures Strict(DominanceOrder(vals))
  {
    var D := DominanceOrder(vals);
    forall i, j, k | (i, j) in D && (j, k) in D ensures (i, k) in D {
      DominatesTransitive(vals[i], vals[j], vals[k]);
    }
  }

  /** ParetoAnalyzer._dominanceRelation */
  method DominanceRelation(a: Vector, b: Vector) returns (rel: int)
    requires |a| == |b|
    ensures rel == 1 || rel == -1 || rel == 0
    ensures rel == 1 <==> Dominates(a, b)
    ensures rel == -1 <==> Dominates(b, a)
  {
    var aWins, bWins := false, false;
    for i := 0 to |a|
      invariant aWins <==> exists k :: 0 <= k < i && Less(a[k], b[k])
      invariant bWins <==> exists k :: 0 <= k < i && Less(b[k], a[k])
    {
      if Less(a[i], b[i]) {
        aWins := true;
      } else if Less(b[i], a[i]) {
        bWins := true;
      }
    }
    if aWins && !bWins { return 1; }
    if bWins && !aWins { return -1; }
    return 0;
  }
}
