/**
 * The specification of Pareto ranking over any strict order on indices:
 * repeatedly peel off the members nobody left dominates.
 */
module Ranking {

  /** (i, j) in D says that i dominates j. */
  type Order = set<(nat, nat)>

  ghost predicate Strict(D: Order) {
    && (forall i :: (i, i) !in D)
    && (forall i, j, k :: (i, j) in D && (j, k) in D ==> (i, k) in D)
  }

  /** The members of S that dominate j. */
  ghost function Below(D: Order, S: set<nat>, j: nat): set<nat> {
    set i | i in S && (i, j) in D
  }

  /** The members of S that no member of S dominates. */
  ghost function Minimal(D: Order, S: set<nat>): set<nat> {
    set j | j in S && Below(D, S, j) == {}
  }

  lemma MinimalUndominated(D: Order, S: set<nat>, i: nat, j: nat)
    requires i in S && j in Minimal(D, S)
    ensures (i, j) !in D
  {
    assert (i, j) in D ==> i in Below(D, S, j);
  }

  /** Every member of S is minimal in S or dominated by a minimal one. */
  lemma {:induction false} MinimalBelow(D: Order, S: set<nat>, j: nat) returns (m: nat)
    requires Strict(D) && j in S
    ensures m in Minimal(D, S) && (m == j || (m, j) in D)
    decreases Below(D, S, j)
  {
    if Below(D, S, j) == {} {
      m := j;
    } else {
      var k :| k in Below(D, S, j);
      assert k !in Below(D, S, k);
      m := MinimalBelow(D, S, k);
    }
  }

  /**
   * Remove the non-dominated members k times over: layer k is what is non-dominated then.
   * Past the last layer it is empty.
   */
  ghost function Layer(D: Order, S: set<nat>, k: nat): (layer: set<nat>)
    ensures layer <= S
    decreases k
  {
    if k == 0 then Minimal(D, S) else Layer(D, S - Minimal(D, S), k - 1)
  }

  /** Every member of S is in some layer. */
  lemma {:induction false} LayersCover(D: Order, S: set<nat>, j: nat) returns (k: nat)
    requires Strict(D) && j in S
    ensures j in Layer(D, S, k)
    decreases S
  {
    if j in Minimal(D, S) {
      k := 0;
    } else {
      var m := MinimalBelow(D, S, j);
      k := LayersCover(D, S - Minimal(D, S), j);
      k := k + 1;
    }
  }

  lemma {:induction false} LayersDisjoint(D: Order, S: set<nat>, k: nat, l: nat, j: nat)
    requires j in Layer(D, S, k) && j in Layer(D, S, l)
    ensures k == l
    decreases k
  {
    if k > 0 && l > 0 {
      LayersDisjoint(D, S - Minimal(D, S), k - 1, l - 1, j);
    }
  }

  /** A dominator sits in a strictly earlier layer than what it dominates. */
  lemma {:induction false} LayersRespectOrder(D: Order, S: set<nat>, k: nat, l: nat, i: nat, j: nat)
    requires i in Layer(D, S, k) && j in Layer(D, S, l) && (i, j) in D
    ensures k < l
    decreases k
  {
    if l == 0 {
      MinimalUndominated(D, S, i, j);
    } else if k > 0 {
      LayersRespectOrder(D, S - Minimal(D, S), k - 1, l - 1, i, j);
    }
  }

  /** Every member of a later layer has a dominator in the layer just before. */
  lemma {:induction false} DominatedFromPrevious(D: Order, S: set<nat>, k: nat, j: nat) returns (i: nat)
    requires j in Layer(D, S, k + 1)
    ensures i in Layer(D, S, k) && (i, j) in D
    decreases k
  {
    var rest := S - Minimal(D, S);
    if k == 0 {
      assert j in Layer(D, rest, 0);
      i :| i in Below(D, S, j);
      assert i in rest ==> i in Below(D, rest, j);
    } else {
      i := DominatedFromPrevious(D, rest, k - 1, j);
    }
  }

  lemma EmptyLayerIsLast(D: Order, S: set<nat>, k: nat, l: nat, j: nat)
    requires Layer(D, S, k) == {} && k <= l
    ensures j !in Layer(D, S, l)
    decreases l
  {
    if j in Layer(D, S, l) && k < l {
      var i := DominatedFromPrevious(D, S, l - 1, j);
      EmptyLayerIsLast(D, S, k, l - 1, i);
    }
  }

  /** A chain of members of S that ends at j: each dominates the next. */
  ghost predicate ChainTo(D: Order, S: set<nat>, c: seq<nat>, j: nat) {
    && |c| > 0 && c[|c| - 1] == j
    && (forall t :: 0 <= t < |c| ==> c[t] in S)
    && (forall t :: 0 <= t < |c| - 1 ==> (c[t], c[t + 1]) in D)
  }

  lemma {:induction false} ChainOfLayerLength(D: Order, S: set<nat>, k: nat, j: nat) returns (c: seq<nat>)
    requires j in Layer(D, S, k)
    ensures ChainTo(D, S, c, j) && |c| == k + 1
  {
    if k == 0 {
      c := [j];
    } else {
      var i := DominatedFromPrevious(D, S, k - 1, j);
      var d := ChainOfLayerLength(D, S, k - 1, i);
      c := d + [j];
    }
  }

  lemma {:induction false} ChainNoLonger(D: Order, S: set<nat>, k: nat, c: seq<nat>, j: nat)
    requires Strict(D) && ChainTo(D, S, c, j) && j in Layer(D, S, k)
    ensures |c| <= k + 1
    decreases c
  {
    if |c| > 1 {
      var i := c[|c| - 2];
      var l := LayersCover(D, S, i);
      assert (c[|c| - 2], c[|c| - 2 + 1]) in D;
      LayersRespectOrder(D, S, l, k, i, j);
      ChainNoLonger(D, S, l, c[..|c| - 1], i);
    }
  }

  /** The layer index is the number of steps in the longest dominance chain ending at the member. */
  lemma LayerIsLongestChain(D: Order, S: set<nat>, k: nat, j: nat)
    requires Strict(D) && j in S
    ensures j in Layer(D, S, k) <==>
              && (exists c :: ChainTo(D, S, c, j) && |c| == k + 1)
              && (forall c :: ChainTo(D, S, c, j) ==> |c| <= k + 1)
  {
    var l := LayersCover(D, S, j);
    var d := ChainOfLayerLength(D, S, l, j);
    forall c | ChainTo(D, S, c, j) ensures |c| <= l + 1 {
      ChainNoLonger(D, S, l, c, j);
    }
    if j in Layer(D, S, k) { LayersDisjoint(D, S, k, l, j); }
  }
}
