/** The counter-based fast non-dominated sort, proved against the peeling specification. */
module FastSort {
  import opened Dominance
  import opened Ranking

  /** s lists the members of S, each once. */
  ghost predicate Lists(s: seq<nat>, S: set<nat>) {
    && (forall x: nat :: x in s <==> x in S)
    && (forall p, q :: 0 <= p < q < |s| ==> s[p] != s[q])
  }

  ghost predicate Ascending(s: seq<nat>) {
    forall p, q :: 0 <= p < q < |s| ==> s[p] < s[q]
  }

  lemma ListsAppend(s: seq<nat>, S: set<nat>, x: nat)
    requires Lists(s, S) && Ascending(s) && forall y :: y in S ==> y < x
    ensures Lists(s + [x], S + {x}) && Ascending(s + [x])
  {
    assert forall p :: 0 <= p < |s| ==> s[p] in s;
  }

  ghost predicate SameLengths(vals: seq<Vector>) {
    forall i, j :: 0 <= i < |vals| && 0 <= j < |vals| ==> |vals[i]| == |vals[j]|
  }

  // ---------- Counting dominators pair by pair ----------

  /** The unordered pair {t, p} comes before (i, j) in the nested loops. */
  ghost predicate Compared(t: nat, p: nat, i: nat, j: nat) {
    var a, b := if t < p then t else p, if t < p then p else t;
    t != p && (a < i || (a == i && b < j))
  }

  ghost function DominatorsSeen(D: Order, n: nat, t: nat, i: nat, j: nat): set<nat> {
    set p | p in Indices(n) && Compared(t, p, i, j) && (p, t) in D
  }

  ghost function VictimsSeen(D: Order, n: nat, t: nat, i: nat, j: nat): set<nat> {
    set p | p in Indices(n) && Compared(t, p, i, j) && (t, p) in D
  }

  ghost function Victims(D: Order, n: nat, t: nat): set<nat> {
    set p | p in Indices(n) && (t, p) in D
  }

  lemma ComparePair(D: Order, n: nat, i: nat, j: nat, t: nat)
    requires i < j < n
    ensures DominatorsSeen(D, n, t, i, j + 1) == DominatorsSeen(D, n, t, i, j)
              + (if t == j && (i, j) in D then {i} else if t == i && (j, i) in D then {j} else {})
    ensures VictimsSeen(D, n, t, i, j + 1) == VictimsSeen(D, n, t, i, j)
              + (if t == i && (i, j) in D then {j} else if t == j && (j, i) in D then {i} else {})
  {
    forall p: nat
      ensures Compared(t, p, i, j + 1) <==> Compared(t, p, i, j) || (t == i && p == j) || (t == j && p == i) {}
  }

  lemma NotYetCompared(D: Order, n: nat, i: nat, j: nat)
    requires i < j < n
    ensures j !in VictimsSeen(D, n, i, i, j) && i !in VictimsSeen(D, n, j, i, j)
    ensures j !in DominatorsSeen(D, n, i, i, j) && i !in DominatorsSeen(D, n, j, i, j)
    ensures forall x :: x in VictimsSeen(D, n, i, i, j) ==> x < j
    ensures forall x :: x in VictimsSeen(D, n, j, i, j) ==> x < i
  {}

  lemma NextRow(D: Order, n: nat, i: nat, t: nat)
    requires i < n && t < n
    ensures DominatorsSeen(D, n, t, i, n) == DominatorsSeen(D, n, t, i + 1, i + 2)
    ensures VictimsSeen(D, n, t, i, n) == VictimsSeen(D, n, t, i + 1, i + 2)
  {}

  lemma AllCompared(D: Order, n: nat, t: nat)
    requires Strict(D) && t < n
    ensures DominatorsSeen(D, n, t, n, n + 1) == Below(D, Indices(n), t)
    ensures VictimsSeen(D, n, t, n, n + 1) == Victims(D, n, t)
  {}

  /** The counters and lists once the nested loops have reached the pair (i, j). */
  ghost predicate Tallied(D: Order, n: nat, counts: seq<int>, lists: seq<seq<nat>>, i: nat, j: nat) {
    && |counts| == |lists| == n
    && forall t :: 0 <= t < n ==> TalliedAt(D, n, counts[t], lists[t], t, i, j)
  }

  ghost predicate TalliedAt(D: Order, n: nat, count: int, victims: seq<nat>, t: nat, i: nat, j: nat) {
    && count == |DominatorsSeen(D, n, t, i, j)|
    && Lists(victims, VictimsSeen(D, n, t, i, j)) && Ascending(victims)
  }

  lemma TallyPairAt(D: Order, n: nat, count: int, victims: seq<nat>, i: nat, j: nat, a: nat, b: nat, t: nat)
    requires i < j < n && TalliedAt(D, n, count, victims, t, i, j)
    requires (a == i && b == j) || (a == j && b == i)
    requires (a, b) in D && (b, a) !in D
    ensures TalliedAt(D, n, if t == b then count + 1 else count, if t == a then victims + [b] else victims, t, i, j + 1)
  {
    ComparePair(D, n, i, j, t);
    NotYetCompared(D, n, i, j);
    hide DominatorsSeen, VictimsSeen, Lists, Ascending, Compared, Indices;
    if t == a { ListsAppend(victims, VictimsSeen(D, n, a, i, j), b); }
  }

  /** Recording that a dominates b moves the tally past the pair. */
  lemma TallyPair(D: Order, n: nat, counts: seq<int>, lists: seq<seq<nat>>, i: nat, j: nat, a: nat, b: nat)
    requires i < j < n && Tallied(D, n, counts, lists, i, j)
    requires (a == i && b == j) || (a == j && b == i)
    requires (a, b) in D && (b, a) !in D
    ensures Tallied(D, n, counts[b := counts[b] + 1], lists[a := lists[a] + [b]], i, j + 1)
  {
    hide TalliedAt;
    var counts', lists' := counts[b := counts[b] + 1], lists[a := lists[a] + [b]];
    forall t: nat | t < n ensures TalliedAt(D, n, counts'[t], lists'[t], t, i, j + 1) {
      assert TalliedAt(D, n, counts[t], lists[t], t, i, j);
      TallyPairAt(D, n, counts[t], lists[t], i, j, a, b, t);
    }
  }

  lemma TallyIncomparable(D: Order, n: nat, counts: seq<int>, lists: seq<seq<nat>>, i: nat, j: nat)
    requires i < j < n && Tallied(D, n, counts, lists, i, j)
    requires (i, j) !in D && (j, i) !in D
    ensures Tallied(D, n, counts, lists, i, j + 1)
  {
    forall t: nat | t < n ensures TalliedAt(D, n, counts[t], lists[t], t, i, j + 1) {
      ComparePair(D, n, i, j, t);
      assert TalliedAt(D, n, counts[t], lists[t], t, i, j);
    }
  }

  lemma TallyNextRow(D: Order, n: nat, counts: seq<int>, lists: seq<seq<nat>>, i: nat)
    requires i < n && Tallied(D, n, counts, lists, i, n)
    ensures Tallied(D, n, counts, lists, i + 1, i + 2)
  {
    forall t: nat | t < n ensures TalliedAt(D, n, counts[t], lists[t], t, i + 1, i + 2) {
      NextRow(D, n, i, t);
      assert TalliedAt(D, n, counts[t], lists[t], t, i, n);
    }
  }

  lemma TallyStart(D: Order, n: nat, counts: seq<int>, lists: seq<seq<nat>>)
    requires |counts| == |lists| == n
    requires forall t :: 0 <= t < n ==> counts[t] == 0 && lists[t] == []
    ensures Tallied(D, n, counts, lists, 0, 1)
  {
    forall t: nat | t < n ensures TalliedAt(D, n, counts[t], lists[t], t, 0, 1) {
      assert DominatorsSeen(D, n, t, 0, 1) == {} && VictimsSeen(D, n, t, 0, 1) == {};
    }
  }

  lemma TallyDone(D: Order, n: nat, counts: seq<int>, lists: seq<seq<nat>>)
    requires Strict(D) && Tallied(D, n, counts, lists, n, n + 1)
    ensures CountersFor(D, n, counts, Indices(n)) && ListsVictims(D, n, lists)
  {
    forall t: nat | t < n
      ensures counts[t] == |Below(D, Indices(n), t)| && Lists(lists[t], Victims(D, n, t)) && Ascending(lists[t])
    {
      assert TalliedAt(D, n, counts[t], lists[t], t, n, n + 1);
      AllCompared(D, n, t);
    }
  }

  /** counts[t] is the number of members of R that dominate t. */
  ghost predicate CountersFor(D: Order, n: nat, counts: seq<int>, R: set<nat>) {
    |counts| == n && forall t :: 0 <= t < n ==> counts[t] == |Below(D, R, t)|
  }

  ghost predicate ListsVictims(D: Order, n: nat, lists: seq<seq<nat>>) {
    |lists| == n && forall t :: 0 <= t < n ==> Lists(lists[t], Victims(D, n, t)) && Ascending(lists[t])
  }

  lemma TallySizes(D: Order, n: nat, counts: seq<int>, lists: seq<seq<nat>>, i: nat, j: nat)
    requires Tallied(D, n, counts, lists, i, j)
    ensures |counts| == |lists| == n
  {}

  lemma PairInOrder(vals: seq<Vector>, i: nat, j: nat)
    requires SameLengths(vals) && i < |vals| && j < |vals|
    ensures (i, j) in DominanceOrder(vals) <==> Dominates(vals[i], vals[j])
    ensures (j, i) in DominanceOrder(vals) <==> Dominates(vals[j], vals[i])
    ensures |vals[i]| == |vals[j]|
  {}

  /** Body of the nested loops: compares one pair and records the outcome. */
  method RecordPair(vals: seq<Vector>, ghost D: Order, dominated: array<int>, dominates: array<seq<nat>>,
                    i: nat, j: nat)
    requires D == DominanceOrder(vals) && i < j < |vals| && SameLengths(vals)
    requires Tallied(D, |vals|, dominated[..], dominates[..], i, j)
    modifies dominated, dominates
    ensures Tallied(D, |vals|, dominated[..], dominates[..], i, j + 1)
  {
    PairInOrder(vals, i, j);
    hide *;
    ghost var counts, lists := dominated[..], dominates[..];
    TallySizes(D, |vals|, counts, lists, i, j);
    var rel := DominanceRelation(vals[i], vals[j]);
    if rel == 1 {
      RecordWin(D, dominated, dominates, i, j, i, j);
    } else if rel == -1 {
      RecordWin(D, dominated, dominates, i, j, j, i);
    } else {
      TallyIncomparable(D, |vals|, counts, lists, i, j);
    }
  }

  /** The pair (i, j) is decided: a dominates b. */
  method RecordWin(ghost D: Order, dominated: array<int>, dominates: array<seq<nat>>,
                   ghost i: nat, ghost j: nat, a: nat, b: nat)
    requires i < j < dominated.Length == dominates.Length && ((a == i && b == j) || (a == j && b == i))
    requires (a, b) in D && (b, a) !in D
    requires Tallied(D, dominated.Length, dominated[..], dominates[..], i, j)
    modifies dominated, dominates
    ensures Tallied(D, dominated.Length, dominated[..], dominates[..], i, j + 1)
  {
    hide *;
    ghost var counts, lists := dominated[..], dominates[..];
    dominates[a] := dominates[a] + [b];
    dominated[b] := dominated[b] + 1;
    TallyPair(D, dominated.Length, counts, lists, i, j, a, b);
    assert dominated[..] == counts[b := counts[b] + 1] && dominates[..] == lists[a := lists[a] + [b]];
  }

  method RecordRow(vals: seq<Vector>, ghost D: Order, dominated: array<int>, dominates: array<seq<nat>>, i: nat)
    requires SameLengths(vals) && D == DominanceOrder(vals) && i < |vals|
    requires Tallied(D, |vals|, dominated[..], dominates[..], i, i + 1)
    modifies dominated, dominates
    ensures Tallied(D, |vals|, dominated[..], dominates[..], i, |vals|)
  {
    hide *;
    for j := i + 1 to |vals|
      invariant Tallied(D, |vals|, dominated[..], dominates[..], i, j)
    {
      RecordPair(vals, D, dominated, dominates, i, j);
    }
  }

  method RecordAllPairs(vals: seq<Vector>, ghost D: Order, dominated: array<int>, dominates: array<seq<nat>>)
    requires SameLengths(vals) && D == DominanceOrder(vals)
    requires Tallied(D, |vals|, dominated[..], dominates[..], 0, 1)
    modifies dominated, dominates
    ensures Tallied(D, |vals|, dominated[..], dominates[..], |vals|, |vals| + 1)
  {
    hide *;
    for i := 0 to |vals|
      invariant Tallied(D, |vals|, dominated[..], dominates[..], i, i + 1)
    {
      RecordRow(vals, D, dominated, dominates, i);
      TallyNextRow(D, |vals|, dominated[..], dominates[..], i);
    }
  }

  method CountDominators(vals: seq<Vector>) returns (dominated: array<int>, dominates: array<seq<nat>>)
    requires SameLengths(vals)
    ensures fresh(dominated) && fresh(dominates)
    ensures CountersFor(DominanceOrder(vals), |vals|, dominated[..], Indices(|vals|))
    ensures ListsVictims(DominanceOrder(vals), |vals|, dominates[..])
  {
    hide *;
    dominated := new int[|vals|](_ => 0);
    dominates := new seq<nat>[|vals|](_ => []);
    ghost var D := DominanceOrder(vals);
    TallyStart(D, |vals|, dominated[..], dominates[..]);
    RecordAllPairs(vals, D, dominated, dominates);
    DominanceStrict(vals);
    TallyDone(D, |vals|, dominated[..], dominates[..]);
  }

  // ---------- Peeling by decrementing counters ----------

  lemma RemoveDominator(D: Order, R: set<nat>, i: nat, t: nat)
    requires i in R
    ensures |Below(D, R - {i}, t)| == |Below(D, R, t)| - if (i, t) in D then 1 else 0
  {
    if (i, t) in D {
      assert Below(D, R - {i}, t) == Below(D, R, t) - {i};
    } else {
      assert Below(D, R - {i}, t) == Below(D, R, t);
    }
  }

  /** Members with a dominator in P but none in R. */
  ghost function Freed(D: Order, n: nat, P: set<nat>, R: set<nat>): set<nat> {
    set x | x in Indices(n) && Below(D, R, x) == {} && Below(D, P, x) != {}
  }

  /** Part of the victims of i have been told that i is gone: counts and freed members so far. */
  ghost predicate Releasing(D: Order, n: nat, counts: seq<int>, next: seq<nat>, i: nat, told: seq<nat>,
                            P: set<nat>, R: set<nat>) {
    && |counts| == n
    && (forall t :: 0 <= t < n ==> counts[t] == |Below(D, R, t)| - (if t in told then 1 else 0))
    && (forall x: nat :: x in next <==> x < n && counts[x] == 0 && (Below(D, P, x) != {} || x in told))
    && (forall a, b :: 0 <= a < b < |next| ==> next[a] != next[b])
  }

  lemma ReleaseOne(D: Order, n: nat, counts: seq<int>, next: seq<nat>, i: nat, told: seq<nat>, j: nat, P: set<nat>,
                   R: set<nat>)
    requires Releasing(D, n, counts, next, i, told, P, R)
    requires j < n && j !in told && i in R && (i, j) in D
    ensures var c := counts[j] - 1;
            Releasing(D, n, counts[j := c], if c == 0 then next + [j] else next, i, told + [j], P, R)
  {
    assert i in Below(D, R, j);
    assert j !in next;
  }

  lemma ReleaseDone(D: Order, n: nat, counts: seq<int>, next: seq<nat>, i: nat, told: seq<nat>, P: set<nat>,
                    R: set<nat>)
    requires Releasing(D, n, counts, next, i, told, P, R)
    requires i in R && Lists(told, Victims(D, n, i))
    ensures CountersFor(D, n, counts, R - {i}) && Lists(next, Freed(D, n, P + {i}, R - {i}))
  {
    forall t: nat | t < n ensures counts[t] == |Below(D, R - {i}, t)| {
      RemoveDominator(D, R, i, t);
    }
    forall x: nat ensures Below(D, P + {i}, x) != {} <==> Below(D, P, x) != {} || (i, x) in D {
      assert Below(D, P + {i}, x) == Below(D, P, x) + if (i, x) in D then {i} else {};
    }
  }

  /** next' is next with victims of i appended in ascending order. */
  ghost predicate Extends(D: Order, next: seq<nat>, next': seq<nat>, i: nat) {
    && next <= next' && Ascending(next'[|next|..])
    && forall k :: |next| <= k < |next'| ==> (i, next'[k]) in D
  }

  ghost predicate AppendedFrom(next: seq<nat>, next': seq<nat>, told: seq<nat>) {
    |next| <= |next'| && forall k :: |next| <= k < |next'| ==> next'[k] in told
  }

  lemma NothingAppended(D: Order, next: seq<nat>, i: nat, victims: seq<nat>)
    ensures Extends(D, next, next, i) && AppendedFrom(next, next, victims[..0])
  {}

  /** The next victim is larger than those before it, so appending it keeps the order. */
  lemma ExtendOne(D: Order, next: seq<nat>, next': seq<nat>, i: nat, victims: seq<nat>, q: nat)
    requires Ascending(victims) && q < |victims| && (i, victims[q]) in D
    requires Extends(D, next, next', i) && AppendedFrom(next, next', victims[..q])
    ensures Extends(D, next, next' + [victims[q]], i) && AppendedFrom(next, next' + [victims[q]], victims[..q + 1])
    ensures AppendedFrom(next, next', victims[..q + 1])
  {
    var j := victims[q];
    assert victims[..q + 1] == victims[..q] + [j];
    assert (next' + [j])[|next|..] == next'[|next|..] + [j];
    forall k | 0 <= k < |next'[|next|..]| ensures next'[|next|..][k] < j {
      assert next'[|next|..][k] == next'[|next| + k];
    }
  }

  lemma ReleaseStart(D: Order, n: nat, counts: seq<int>, next: seq<nat>, i: nat, P: set<nat>, R: set<nat>)
    requires CountersFor(D, n, counts, R) && Lists(next, Freed(D, n, P, R))
    ensures Releasing(D, n, counts, next, i, [], P, R)
  {}

  lemma VictimAt(D: Order, n: nat, i: nat, victims: seq<nat>, q: nat)
    requires Lists(victims, Victims(D, n, i)) && q < |victims|
    ensures victims[q] < n && (i, victims[q]) in D && victims[q] !in victims[..q]
    ensures victims[..q + 1] == victims[..q] + [victims[q]]
  {
    assert victims[q] in victims && victims[q] in Victims(D, n, i);
  }

  /** One front member goes: its victims' counters drop, and those reaching zero are appended. */
  method ReleaseVictims(ghost D: Order, dominated: array<int>, victims: seq<nat>, next: seq<nat>,
                        ghost i: nat, ghost P: set<nat>, ghost R: set<nat>) returns (next': seq<nat>)
    requires i in R && Lists(victims, Victims(D, dominated.Length, i)) && Ascending(victims)
    requires CountersFor(D, dominated.Length, dominated[..], R)
    requires Lists(next, Freed(D, dominated.Length, P, R))
    modifies dominated
    ensures CountersFor(D, dominated.Length, dominated[..], R - {i})
    ensures Lists(next', Freed(D, dominated.Length, P + {i}, R - {i}))
    ensures Extends(D, next, next', i)
  {
    hide *;
    next' := next;
    ghost var n := dominated.Length;
    NothingAppended(D, next, i, victims);
    ReleaseStart(D, n, dominated[..], next, i, P, R);
    assert victims[..0] == [] && victims[..|victims|] == victims;
    for q := 0 to |victims|
      invariant Releasing(D, n, dominated[..], next', i, victims[..q], P, R)
      invariant Extends(D, next, next', i) && AppendedFrom(next, next', victims[..q])
    {
      var j := victims[q];
      VictimAt(D, n, i, victims, q);
      ghost var counts := dominated[..];
      ReleaseOne(D, n, counts, next', i, victims[..q], j, P, R);
      ExtendOne(D, next, next', i, victims, q);
      dominated[j] := dominated[j] - 1;
      assert dominated[..] == counts[j := counts[j] - 1];
      if dominated[j] == 0 {
        next' := next' + [j];
      }
    }
    ReleaseDone(D, n, dominated[..], next', i, victims, P, R);
  }

  /** Nothing still to be placed dominates anything placed already. */
  ghost predicate PlacedFirst(D: Order, n: nat, R: set<nat>) {
    R <= Indices(n) && forall i, j :: i in Indices(n) - R && j in R ==> (j, i) !in D
  }

  /** After a whole layer has been released, the freed members are exactly the next layer. */
  lemma FreedIsNextLayer(D: Order, n: nat, R: set<nat>)
    requires PlacedFirst(D, n, R)
    ensures PlacedFirst(D, n, R - Minimal(D, R))
    ensures Freed(D, n, Minimal(D, R), R - Minimal(D, R)) == Minimal(D, R - Minimal(D, R))
  {
    var C, rest := Minimal(D, R), R - Minimal(D, R);
    forall i, j | i in Indices(n) - rest && j in rest ensures (j, i) !in D {
      if i in R { MinimalUndominated(D, R, j, i); }
    }
    forall x | x in Minimal(D, rest) ensures x in Freed(D, n, C, rest) {
      var i :| i in Below(D, R, x);
      assert i in rest ==> i in Below(D, rest, x);
      assert i in Below(D, C, x);
    }
    forall x | x in Freed(D, n, C, rest) ensures x in Minimal(D, rest) {
      var i :| i in Below(D, C, x);
      assert x in R;
      assert x in C ==> i in Below(D, R, x);
    }
  }

  /** Where the last member of a front that dominates x stands; -1 if none does. */
  ghost function LastDominator(D: Order, front: seq<nat>, x: nat): (p: int)
    ensures -1 <= p < |front|
  {
    if front == [] then -1
    else if (front[|front| - 1], x) in D then |front| - 1
    else LastDominator(D, front[..|front| - 1], x)
  }

  /** The order members are freed in: by their last dominator in the front, then by index. */
  ghost predicate FreedBefore(D: Order, front: seq<nat>, x: nat, y: nat) {
    var p, q := LastDominator(D, front, x), LastDominator(D, front, y);
    p < q || (p == q && x < y)
  }

  ghost predicate InFreedOrder(D: Order, front: seq<nat>, next: seq<nat>) {
    forall a, b :: 0 <= a < b < |next| ==> FreedBefore(D, front, next[a], next[b])
  }

  lemma ExtendKeepsOrder(D: Order, front: seq<nat>, i: nat, next: seq<nat>, next': seq<nat>)
    requires InFreedOrder(D, front, next) && Extends(D, next, next', i)
    requires forall x :: x in next ==> (i, x) !in D
    ensures InFreedOrder(D, front + [i], next')
  {
    var longer := front + [i];
    assert longer[..|front|] == front;
    forall a, b | 0 <= a < b < |next'| ensures FreedBefore(D, longer, next'[a], next'[b]) {
      if a < |next| {
        assert next'[a] == next[a] && next[a] in next;
        assert LastDominator(D, longer, next'[a]) == LastDominator(D, front, next'[a]);
      }
      if b < |next| {
        assert next'[b] == next[b] && next[b] in next;
        assert FreedBefore(D, front, next[a], next[b]);
      } else if |next| <= a {
        assert next'[|next|..][a - |next|] == next'[a] && next'[|next|..][b - |next|] == next'[b];
      }
    }
  }

  ghost function Members(s: seq<nat>): set<nat> { set x | x in s }

  lemma FrontMember(D: Order, n: nat, R: set<nat>, front: seq<nat>, p: nat)
    requires PlacedFirst(D, n, R) && Lists(front, Minimal(D, R)) && p < |front|
    ensures front[p] < n && front[p] in R - Members(front[..p])
    ensures Members(front[..p + 1]) == Members(front[..p]) + {front[p]}
    ensures R - Members(front[..p]) - {front[p]} == R - Members(front[..p + 1])
  {
    assert front[p] in front;
    assert front[..p + 1] == front[..p] + [front[p]];
  }

  lemma WholeFront(D: Order, R: set<nat>, front: seq<nat>)
    requires Lists(front, Minimal(D, R))
    ensures Members(front) == Minimal(D, R) && front[..|front|] == front
  {}

  lemma NothingFreed(D: Order, n: nat, R: set<nat>)
    ensures Members([]) == {} && R - {} == R && Lists([], Freed(D, n, {}, R)) && InFreedOrder(D, [], [])
  {}

  lemma VictimsOf(D: Order, n: nat, lists: seq<seq<nat>>, i: nat)
    requires ListsVictims(D, n, lists) && i < n
    ensures i < |lists| && Lists(lists[i], Victims(D, n, i)) && Ascending(lists[i])
  {}

  method NextLayer(ghost D: Order, dominated: array<int>, dominates: array<seq<nat>>, currentFront: seq<nat>,
                   ghost R: set<nat>) returns (nextFront: seq<nat>)
    requires PlacedFirst(D, dominated.Length, R) && Lists(currentFront, Minimal(D, R))
    requires CountersFor(D, dominated.Length, dominated[..], R)
    requires ListsVictims(D, dominated.Length, dominates[..])
    modifies dominated
    ensures CountersFor(D, dominated.Length, dominated[..], R - Minimal(D, R))
    ensures Lists(nextFront, Minimal(D, R - Minimal(D, R)))
    ensures InFreedOrder(D, currentFront, nextFront)
  {
    hide *;
    ghost var n, lists := dominated.Length, dominates[..];
    nextFront := [];
    NothingFreed(D, n, R);
    assert currentFront[..0] == [];
    for p := 0 to |currentFront|
      invariant CountersFor(D, n, dominated[..], R - Members(currentFront[..p]))
      invariant Lists(nextFront, Freed(D, n, Members(currentFront[..p]), R - Members(currentFront[..p])))
      invariant InFreedOrder(D, currentFront[..p], nextFront)
    {
      var i := currentFront[p];
      ghost var P := Members(currentFront[..p]);
      ghost var freed := nextFront;
      FrontMember(D, n, R, currentFront, p);
      VictimsOf(D, n, lists, i);
      nextFront := ReleaseVictims(D, dominated, dominates[i], nextFront, i, P, R - P);
      FreedIsUndominated(D, n, P, R - P, i, freed);
      assert currentFront[..p + 1] == currentFront[..p] + [i];
      ExtendKeepsOrder(D, currentFront[..p], i, freed, nextFront);
    }
    WholeFront(D, R, currentFront);
    FreedIsNextLayer(D, n, R);
  }

  lemma FreedIsUndominated(D: Order, n: nat, P: set<nat>, R: set<nat>, i: nat, freed: seq<nat>)
    requires Lists(freed, Freed(D, n, P, R)) && i in R
    ensures forall x :: x in freed ==> (i, x) !in D
  {
    forall x | x in freed ensures (i, x) !in D {
      assert (i, x) in D ==> i in Below(D, R, x);
    }
  }

  /** The layers found so far are those of the specification; those to come are the layers of R. */
  ghost predicate RankedSoFar(D: Order, n: nat, layers: seq<seq<nat>>, R: set<nat>) {
    && (forall k :: 0 <= k < |layers| ==> Lists(layers[k], Layer(D, Indices(n), k)) && layers[k] != [])
    && (forall k: nat :: Layer(D, R, k) == Layer(D, Indices(n), |layers| + k))
  }

  lemma RankOneMore(D: Order, n: nat, layers: seq<seq<nat>>, R: set<nat>, front: seq<nat>)
    requires RankedSoFar(D, n, layers, R) && Lists(front, Minimal(D, R)) && front != []
    ensures RankedSoFar(D, n, layers + [front], R - Minimal(D, R))
  {
    assert Layer(D, R, 0) == Layer(D, Indices(n), |layers| + 0);
    forall k: nat ensures Layer(D, R - Minimal(D, R), k) == Layer(D, Indices(n), |layers| + 1 + k) {
      assert Layer(D, R, k + 1) == Layer(D, Indices(n), |layers| + (k + 1));
    }
  }

  /** The layers, in order, are those of the specification, and nothing is left over. */
  ghost predicate IsRanking(D: Order, n: nat, layers: seq<seq<nat>>) {
    && (forall k :: 0 <= k < |layers| ==> Lists(layers[k], Layer(D, Indices(n), k)) && layers[k] != [])
    && Layer(D, Indices(n), |layers|) == {}
  }

  /** Each layer in the order its members are freed by the layer before; the first by index. */
  ghost predicate FreedInOrder(D: Order, layers: seq<seq<nat>>) {
    forall k :: 0 <= k < |layers| ==> InFreedOrder(D, Above(layers, k), layers[k])
  }

  /** The layer above layer k; nothing above the first. */
  ghost function Above(layers: seq<seq<nat>>, k: nat): seq<nat>
    requires k <= |layers|
  {
    if k == 0 then [] else layers[k - 1]
  }

  lemma AboveAppend(layers: seq<seq<nat>>, front: seq<nat>, k: nat)
    requires k <= |layers|
    ensures Above(layers + [front], k) == Above(layers, k)
    ensures Above(layers + [front], |layers| + 1) == front
  {}

  lemma OrderOneMore(D: Order, layers: seq<seq<nat>>, front: seq<nat>)
    requires FreedInOrder(D, layers)
    requires InFreedOrder(D, Above(layers, |layers|), front)
    ensures FreedInOrder(D, layers + [front])
    ensures Above(layers + [front], |layers| + 1) == front
  {
    hide InFreedOrder, Above;
    AboveAppend(layers, front, 0);
    var all := layers + [front];
    forall k | 0 <= k < |all| ensures InFreedOrder(D, Above(all, k), all[k]) {
      AboveAppend(layers, front, k);
      assert k < |layers| ==> InFreedOrder(D, Above(layers, k), layers[k]);
    }
  }

  lemma AscendingIsFreedOrder(D: Order, front: seq<nat>)
    requires Ascending(front)
    ensures InFreedOrder(D, [], front)
  {}

  method FirstFront(ghost D: Order, dominated: array<int>) returns (front: seq<nat>)
    requires CountersFor(D, dominated.Length, dominated[..], Indices(dominated.Length))
    ensures Lists(front, Minimal(D, Indices(dominated.Length)))
    ensures Ascending(front)
  {
    front := [];
    for i := 0 to dominated.Length
      invariant forall x: nat :: x in front <==> x < i && dominated[x] == 0
      invariant Ascending(front) && forall p :: 0 <= p < |front| ==> front[p] < i
    {
      if dominated[i] == 0 { front := front + [i]; }
    }
  }

  /** The non-dominated sort of ParetoAnalyzer.analyze. */
  method SortLayers(vals: seq<Vector>) returns (layers: seq<seq<nat>>)
    requires SameLengths(vals)
    ensures IsRanking(DominanceOrder(vals), |vals|, layers) && FreedInOrder(DominanceOrder(vals), layers)
  {
    ghost var D := DominanceOrder(vals);
    var dominated, dominates := CountDominators(vals);
    layers := PeelLayers(D, dominated, dominates);
  }

  lemma PeelStart(D: Order, n: nat)
    ensures PlacedFirst(D, n, Indices(n)) && RankedSoFar(D, n, [], Indices(n))
    ensures FreedInOrder(D, []) && Above([], 0) == []
  {}

  lemma PeelShrinks(D: Order, R: set<nat>, front: seq<nat>)
    requires Lists(front, Minimal(D, R)) && front != []
    ensures R - Minimal(D, R) < R
  {
    assert front[0] in front;
  }

  lemma PeelDone(D: Order, n: nat, layers: seq<seq<nat>>, R: set<nat>)
    requires RankedSoFar(D, n, layers, R) && Lists([], Minimal(D, R))
    ensures IsRanking(D, n, layers)
  {
    assert Layer(D, R, 0) == Layer(D, Indices(n), |layers| + 0);
  }

  method PeelLayers(ghost D: Order, dominated: array<int>, dominates: array<seq<nat>>) returns (layers: seq<seq<nat>>)
    requires CountersFor(D, dominated.Length, dominated[..], Indices(dominated.Length))
    requires ListsVictims(D, dominated.Length, dominates[..])
    modifies dominated
    ensures IsRanking(D, dominated.Length, layers) && FreedInOrder(D, layers)
  {
    hide *;
    ghost var n, lists := dominated.Length, dominates[..];
    var currentFront := FirstFront(D, dominated);
    layers := [];
    AscendingIsFreedOrder(D, currentFront);
    PeelStart(D, n);
    ghost var R := Indices(n);
    while |currentFront| > 0
      invariant PlacedFirst(D, n, R) && RankedSoFar(D, n, layers, R)
      invariant CountersFor(D, n, dominated[..], R) && Lists(currentFront, Minimal(D, R))
      invariant FreedInOrder(D, layers)
      invariant InFreedOrder(D, Above(layers, |layers|), currentFront)
      decreases R
    {
      OrderOneMore(D, layers, currentFront);
      RankOneMore(D, n, layers, R, currentFront);
      FreedIsNextLayer(D, n, R);
      PeelShrinks(D, R, currentFront);
      layers := layers + [currentFront];
      currentFront := NextLayer(D, dominated, dominates, currentFront, R);
      R := R - Minimal(D, R);
    }
    PeelDone(D, n, layers, R);
  }

  // ---------- The result is determined ----------

  lemma HasMember(s: seq<nat>)
    ensures s != [] ==> exists x: nat :: x in s
  {
    if s != [] { assert s[0] in s; }
  }

  lemma FreedBeforeOneWay(D: Order, front: seq<nat>, x: nat, y: nat)
    ensures !(FreedBefore(D, front, x, y) && FreedBefore(D, front, y, x))
  {}

  /** Two listings of the same set in freed order are the same. */
  lemma {:induction false} FreedOrderIsUnique(D: Order, front: seq<nat>, s: seq<nat>, t: seq<nat>)
    requires InFreedOrder(D, front, s) && InFreedOrder(D, front, t)
    requires forall x: nat :: x in s <==> x in t
    ensures s == t
  {
    hide LastDominator;
    if s == [] {
      HasMember(t);
    } else {
      assert s[0] in t;
      var p :| 0 <= p < |t| && t[p] == s[0];
      assert t[0] in s;
      var q :| 0 <= q < |s| && s[q] == t[0];
      assert p > 0 ==> FreedBefore(D, front, t[0], t[p]);
      assert q > 0 ==> FreedBefore(D, front, s[0], s[q]);
      FreedBeforeOneWay(D, front, s[0], t[0]);
      assert s[0] == t[0];
      OthersSame(D, front, s, t);
      FreedOrderIsUnique(D, front, s[1..], t[1..]);
      assert s == [s[0]] + s[1..] && t == [t[0]] + t[1..];
    }
  }

  lemma OthersInOrder(D: Order, front: seq<nat>, s: seq<nat>)
    requires InFreedOrder(D, front, s) && s != []
    ensures InFreedOrder(D, front, s[1..])
  {
    hide FreedBefore;
    forall a, b | 0 <= a < b < |s[1..]| ensures FreedBefore(D, front, s[1..][a], s[1..][b]) {
      assert FreedBefore(D, front, s[a + 1], s[b + 1]);
    }
  }

  lemma OthersSame(D: Order, front: seq<nat>, s: seq<nat>, t: seq<nat>)
    requires InFreedOrder(D, front, s) && InFreedOrder(D, front, t) && s != [] && t != [] && s[0] == t[0]
    requires forall x: nat :: x in s <==> x in t
    ensures InFreedOrder(D, front, s[1..]) && InFreedOrder(D, front, t[1..])
    ensures forall x: nat :: x in s[1..] <==> x in t[1..]
  {
    FirstNotAgain(D, front, s);
    FirstNotAgain(D, front, t);
    OthersInOrder(D, front, s);
    OthersInOrder(D, front, t);
    hide InFreedOrder;
    OtherMembers(s);
    OtherMembers(t);
  }

  lemma OtherMembers(s: seq<nat>)
    requires s != [] && s[0] !in s[1..]
    ensures forall x: nat :: x in s[1..] <==> x in s && x != s[0]
  {
    assert s == [s[0]] + s[1..];
  }

  lemma FirstNotAgain(D: Order, front: seq<nat>, s: seq<nat>)
    requires InFreedOrder(D, front, s) && s != []
    ensures s[0] !in s[1..]
  {
    hide LastDominator;
    forall k | 1 <= k < |s| ensures s[k] != s[0] {
      assert FreedBefore(D, front, s[0], s[k]);
      FreedBeforeOneWay(D, front, s[0], s[0]);
    }
  }

  /** The layers and the order inside them leave no freedom: at most one list of layers has both. */
  lemma {:induction false} RankingIsUnique(D: Order, n: nat, layers: seq<seq<nat>>, others: seq<seq<nat>>, k: nat)
    requires IsRanking(D, n, layers) && FreedInOrder(D, layers)
    requires IsRanking(D, n, others) && FreedInOrder(D, others)
    ensures |layers| == |others|
    ensures k < |layers| ==> layers[k] == others[k]
  {
    hide InFreedOrder, FreedInOrder, IsRanking;
    SameLayerCount(D, n, layers, others);
    if k < |layers| {
      if k > 0 { RankingIsUnique(D, n, layers, others, k - 1); }
      LayerInOrder(D, n, layers, k);
      LayerInOrder(D, n, others, k);
      FreedOrderIsUnique(D, Above(layers, k), layers[k], others[k]);
    }
  }

  lemma LayerInOrder(D: Order, n: nat, layers: seq<seq<nat>>, k: nat)
    requires IsRanking(D, n, layers) && FreedInOrder(D, layers) && k < |layers|
    ensures InFreedOrder(D, Above(layers, k), layers[k])
    ensures forall x: nat :: x in layers[k] <==> x in Layer(D, Indices(n), k)
  {
    hide InFreedOrder, Layer, Above;
    assert Lists(layers[k], Layer(D, Indices(n), k));
  }

  lemma SameLayerCount(D: Order, n: nat, layers: seq<seq<nat>>, others: seq<seq<nat>>)
    requires IsRanking(D, n, layers) && IsRanking(D, n, others)
    ensures |layers| == |others|
  {
    hide Layer;
    if |layers| < |others| {
      LayerHasMember(D, n, others, |layers|);
      assert false;
    }
    if |others| < |layers| {
      LayerHasMember(D, n, layers, |others|);
      assert false;
    }
  }

  lemma LayerHasMember(D: Order, n: nat, layers: seq<seq<nat>>, k: nat)
    requires IsRanking(D, n, layers) && k < |layers|
    ensures Layer(D, Indices(n), k) != {}
  {
    hide Layer;
    assert Lists(layers[k], Layer(D, Indices(n), k));
    HasMember(layers[k]);
  }
}
