/** DOESampler.grid: level lists per variable and the right-to-left mixed-radix counter. */
module FactorialGrid {
  import opened Arithmetic
  import opened CampaignTypes
  import opened DesignSpace
  import opened Sequences

  // ---------- Mixed-radix numerals ----------

  function Radix(total: nat): nat { if total == 0 then 1 else total }

  ghost predicate InBounds(t: seq<nat>, totals: seq<nat>) {
    |t| == |totals| && forall i :: 0 <= i < |t| ==> t[i] < Radix(totals[i])
  }

  /** The number of tuples: an empty level list still contributes one choice. */
  ghost function Combinations(totals: seq<nat>): nat {
    if totals == [] then 1
    else Times(Combinations(totals[..|totals| - 1]), Radix(totals[|totals| - 1]))
  }

  /** The value of a tuple read as a mixed-radix numeral, last digit least significant. */
  ghost function Numeral(t: seq<nat>, totals: seq<nat>): nat
    requires |t| == |totals|
  {
    if t == [] then 0
    else
      var n := |t| - 1;
      Times(Numeral(t[..n], totals[..n]), Radix(totals[n])) + t[n]
  }

  lemma DigitStep(x: nat, y: nat, r: nat, d: nat)
    requires x < y && d < r
    ensures Times(x, r) + d < Times(y, r)
    ensures Times(x + 1, r) == Times(x, r) + r
  {
    assert x * r + r == (x + 1) * r <= y * r;
  }

  lemma TimesStep(x: nat, r: nat)
    ensures Times(x + 1, r) == Times(x, r) + r
  {}

  /** The last digit apart. */
  lemma NumeralSplits(t: seq<nat>, totals: seq<nat>)
    requires t != [] && InBounds(t, totals)
    ensures var n := |t| - 1;
            && InBounds(t[..n], totals[..n]) && t[n] < Radix(totals[n])
            && Numeral(t, totals) == Times(Numeral(t[..n], totals[..n]), Radix(totals[n])) + t[n]
  {}

  lemma {:induction false} NumeralBelowCombinations(t: seq<nat>, totals: seq<nat>)
    requires InBounds(t, totals)
    ensures Numeral(t, totals) < Combinations(totals)
  {
    hide Times;
    if t != [] {
      var n := |t| - 1;
      NumeralBelowCombinations(t[..n], totals[..n]);
      DigitStep(Numeral(t[..n], totals[..n]), Combinations(totals[..n]), Radix(totals[n]), t[n]);
    }
  }

  /** t comes before u in dictionary order. */
  ghost predicate Before(t: seq<nat>, u: seq<nat>) {
    exists i :: 0 <= i < |t| && i < |u| && t[..i] == u[..i] && t[i] < u[i]
  }

  lemma SameLength(t: seq<nat>, u: seq<nat>, totals: seq<nat>)
    requires InBounds(t, totals) && InBounds(u, totals)
    ensures |t| == |u| == |totals|
  {}

  lemma {:induction false} BeforeIsSmaller(t: seq<nat>, u: seq<nat>, totals: seq<nat>)
    requires InBounds(t, totals) && InBounds(u, totals) && Before(t, u)
    ensures Numeral(t, totals) < Numeral(u, totals)
  {
    hide Times, Numeral, InBounds;
    var n := |t| - 1;
    var i :| 0 <= i < |t| && i < |u| && t[..i] == u[..i] && t[i] < u[i];
    NumeralSplits(t, totals);
    SameLength(t, u, totals);
    NumeralSplits(u, totals);
    if i == n {
      assert t[..n] == u[..n];
    } else {
      var t', u', r := t[..n], u[..n], Radix(totals[n]);
      assert t'[..i] == t[..i] && u'[..i] == u[..i];
      BeforeIsSmaller(t', u', totals[..n]);
      DigitStep(Numeral(t', totals[..n]), Numeral(u', totals[..n]), r, t[n]);
    }
  }

  lemma {:induction false} Trichotomy(t: seq<nat>, u: seq<nat>)
    requires |t| == |u|
    ensures t == u || Before(t, u) || Before(u, t)
  {
    if t != [] {
      if t[0] < u[0] {
        assert t[..0] == u[..0];
      } else if u[0] < t[0] {
        assert u[..0] == t[..0];
      } else {
        Trichotomy(t[1..], u[1..]);
        if Before(t[1..], u[1..]) { BeforeExtends(t, u); }
        if Before(u[1..], t[1..]) { BeforeExtends(u, t); }
        assert t == [t[0]] + t[1..] && u == [u[0]] + u[1..];
      }
    }
  }

  lemma BeforeExtends(t: seq<nat>, u: seq<nat>)
    requires t != [] && u != [] && t[0] == u[0] && Before(t[1..], u[1..])
    ensures Before(t, u)
  {
    var i :| 0 <= i < |t[1..]| && i < |u[1..]| && t[1..][..i] == u[1..][..i] && t[1..][i] < u[1..][i];
    assert t[..i + 1] == [t[0]] + t[1..][..i] && u[..i + 1] == [u[0]] + u[1..][..i];
  }

  /** Numeric order is dictionary order, so different tuples have different numerals. */
  lemma NumeralOrder(t: seq<nat>, u: seq<nat>, totals: seq<nat>)
    requires InBounds(t, totals) && InBounds(u, totals)
    ensures Numeral(t, totals) < Numeral(u, totals) <==> Before(t, u)
    ensures Numeral(t, totals) == Numeral(u, totals) <==> t == u
  {
    hide Before, Numeral;
    Trichotomy(t, u);
    if Before(t, u) { BeforeIsSmaller(t, u, totals); }
    if Before(u, t) { BeforeIsSmaller(u, t, totals); }
  }

  ghost function Quotient(k: nat, r: nat): nat
    requires r > 0
  {
    k / r
  }

  ghost function Remainder(k: nat, r: nat): nat
    requires r > 0
  {
    k % r
  }

  lemma DivideBack(x: nat, r: nat, d: nat)
    requires d < r
    ensures Quotient(Times(x, r) + d, r) == x && Remainder(Times(x, r) + d, r) == d
  {
    var k, q := x * r + d, (x * r + d) / r;
    assert k == q * r + k % r;
    if q < x {
      DigitStep(q, x, r, k % r);
    } else if x < q {
      DigitStep(x, q, r, d);
    }
  }

  lemma MultiplyBack(k: nat, r: nat)
    requires r > 0
    ensures Times(Quotient(k, r), r) + Remainder(k, r) == k && Remainder(k, r) < r
  {
  }

  /** The mixed-radix digits of k. */
  ghost function Digits(k: nat, totals: seq<nat>): (t: seq<nat>)
    ensures |t| == |totals|
    decreases |totals|
  {
    if totals == [] then []
    else
      var n := |totals| - 1;
      Digits(Quotient(k, Radix(totals[n])), totals[..n]) + [Remainder(k, Radix(totals[n]))]
  }

  /** Reading an in-bounds tuple as a numeral and taking its digits gives the tuple back. */
  lemma {:induction false} DigitsOfNumeral(t: seq<nat>, totals: seq<nat>)
    requires InBounds(t, totals)
    ensures Digits(Numeral(t, totals), totals) == t
  {
    hide Times, Quotient, Remainder;
    if t != [] {
      var n := |t| - 1;
      DigitsOfNumeral(t[..n], totals[..n]);
      DivideBack(Numeral(t[..n], totals[..n]), Radix(totals[n]), t[n]);
    }
  }

  /** And below the number of tuples, taking digits and reading them gives the number back. */
  lemma {:induction false} NumeralOfDigits(k: nat, totals: seq<nat>)
    requires k < Combinations(totals)
    ensures InBounds(Digits(k, totals), totals) && Numeral(Digits(k, totals), totals) == k
    decreases |totals|
  {
    hide Times, Quotient, Remainder, Numeral, InBounds;
    if totals == [] {
      NoDigits();
    } else {
      var n := |totals| - 1;
      var r := Radix(totals[n]);
      MultiplyBack(k, r);
      if Combinations(totals[..n]) <= Quotient(k, r) {
        TimesMonotone(Combinations(totals[..n]), Quotient(k, r), r);
      }
      NumeralOfDigits(Quotient(k, r), totals[..n]);
      AppendDigit(Digits(Quotient(k, r), totals[..n]), Remainder(k, r), totals);
    }
  }

  lemma NoDigits()
    ensures InBounds([], []) && Numeral([], []) == 0
  {
  }

  lemma TimesMonotone(x: nat, y: nat, r: nat)
    requires x <= y
    ensures Times(x, r) <= Times(y, r)
  {
    assert (y - x) * r >= 0;
  }

  // ---------- The counter ----------

  /** One increment of the numeral: the new digits, and whether the carry ran off the left end. */
  ghost function Incremented(t: seq<nat>, totals: seq<nat>): (r: (seq<nat>, bool))
    requires |t| == |totals|
    ensures |r.0| == |t|
  {
    if t == [] then ([], true)
    else
      var n := |t| - 1;
      if t[n] + 1 < totals[n] then (t[..n] + [t[n] + 1], false)
      else var rest := Incremented(t[..n], totals[..n]); (rest.0 + [0], rest.1)
  }

  lemma AppendDigit(u: seq<nat>, d: nat, totals: seq<nat>)
    requires totals != [] && |u| == |totals| - 1
    ensures var n := |totals| - 1;
            && Numeral(u + [d], totals) == Times(Numeral(u, totals[..n]), Radix(totals[n])) + d
            && (InBounds(u + [d], totals) <==> InBounds(u, totals[..n]) && d < Radix(totals[n]))
  {
    var t := u + [d];
    assert t[..|u|] == u;
    forall i | 0 <= i < |u| ensures t[i] == u[i] {}
    if InBounds(t, totals) {
      forall i | 0 <= i < |u| ensures u[i] < Radix(totals[i]) { assert t[i] < Radix(totals[i]); }
    }
  }

  /** The increment when the last digit grows, and when it goes back to zero. */
  lemma LastDigitMoves(t: seq<nat>, totals: seq<nat>)
    requires t != [] && |t| == |totals|
    ensures var n := |t| - 1;
            Incremented(t, totals) ==
              if t[n] + 1 < totals[n] then (t[..n] + [t[n] + 1], false)
              else (Incremented(t[..n], totals[..n]).0 + [0], Incremented(t[..n], totals[..n]).1)
  {}

  lemma CombinationsSplit(totals: seq<nat>)
    requires totals != []
    ensures var n := |totals| - 1;
            Combinations(totals) == Times(Combinations(totals[..n]), Radix(totals[n]))
  {}

  lemma OneDigitPerLevel(t: seq<nat>, totals: seq<nat>)
    requires InBounds(t, totals)
    ensures |t| == |totals|
  {}

  lemma NothingToIncrement()
    ensures Incremented([], []) == ([], true) && InBounds([], [])
    ensures Numeral([], []) + 1 == Combinations([])
  {}

  lemma {:induction false} IncrementedIsSuccessor(t: seq<nat>, totals: seq<nat>)
    requires InBounds(t, totals)
    ensures var (u, carry) := Incremented(t, totals);
            && InBounds(u, totals)
            && (if carry then Numeral(t, totals) + 1 == Combinations(totals)
                else Numeral(u, totals) == Numeral(t, totals) + 1)
  {
    OneDigitPerLevel(t, totals);
    hide Times, Numeral, InBounds, Incremented, Combinations;
    if t == [] {
      NothingToIncrement();
    } else {
      var n := |t| - 1;
      NumeralSplits(t, totals);
      LastDigitMoves(t, totals);
      CombinationsSplit(totals);
      if t[n] + 1 < totals[n] {
        AppendDigit(t[..n], t[n] + 1, totals);
      } else {
        IncrementedIsSuccessor(t[..n], totals[..n]);
        AppendDigit(Incremented(t[..n], totals[..n]).0, 0, totals);
        TimesStep(Numeral(t[..n], totals[..n]), Radix(totals[n]));
      }
    }
  }

  method Increment(indices: array<nat>, totals: seq<nat>) returns (carry: bool)
    requires indices.Length == |totals|
    modifies indices
    ensures (indices[..], carry) == Incremented(old(indices[..]), totals)
  {
    carry := true;
    var vi := indices.Length - 1;
    ghost var was := indices[..];
    CarryStarts(was, totals);
    while vi >= 0 && carry
      invariant -1 <= vi < indices.Length
      invariant carry ==> CarryAt(was, totals, indices[..], vi + 1)
      invariant !carry ==> Incremented(was, totals) == (indices[..], false)
    {
      ghost var now := indices[..];
      CarryStep(was, totals, now, vi);
      indices[vi] := indices[vi] + 1;
      assert indices[..] == now[vi := now[vi] + 1];
      if indices[vi] >= totals[vi] {
        indices[vi] := 0;
        assert indices[..] == now[vi := 0];
      } else {
        carry := false;
      }
      vi := vi - 1;
    }
    CarryEnds(was, totals, indices[..]);
  }

  /** The carry has reached position k: digits to its right are done, those to its left untouched. */
  ghost predicate CarryAt(was: seq<nat>, totals: seq<nat>, now: seq<nat>, k: nat) {
    && |was| == |totals| == |now| && k <= |now| && now[..k] == was[..k]
    && Incremented(was, totals) ==
       (Incremented(was[..k], totals[..k]).0 + now[k..], Incremented(was[..k], totals[..k]).1)
  }

  lemma CarryStarts(was: seq<nat>, totals: seq<nat>)
    requires |was| == |totals|
    ensures CarryAt(was, totals, was, |was|)
  {
    assert was[..|was|] == was && totals[..|was|] == totals && was[|was|..] == [];
    assert Incremented(was, totals).0 + [] == Incremented(was, totals).0;
  }

  lemma CarryStep(was: seq<nat>, totals: seq<nat>, now: seq<nat>, vi: nat)
    requires CarryAt(was, totals, now, vi + 1)
    ensures now[vi] + 1 >= totals[vi] ==> CarryAt(was, totals, now[vi := 0], vi)
    ensures now[vi] + 1 < totals[vi] ==> Incremented(was, totals) == (now[vi := now[vi] + 1], false)
  {
    var head, tail := was[..vi + 1], now[vi + 1..];
    assert head[..vi] == was[..vi] && totals[..vi + 1][..vi] == totals[..vi];
    assert now[vi] == now[..vi + 1][vi] == head[vi];
    assert now[..vi] == now[..vi + 1][..vi];
    var rest := Incremented(was[..vi], totals[..vi]).0;
    assert rest + [0] + tail == rest + ([0] + tail);
    assert now[vi := 0][vi..] == [0] + tail && now[vi := 0][..vi] == now[..vi];
    assert now[vi := now[vi] + 1] == was[..vi] + [now[vi] + 1] + tail;
  }

  lemma CarryEnds(was: seq<nat>, totals: seq<nat>, now: seq<nat>)
    ensures CarryAt(was, totals, now, 0) ==> Incremented(was, totals) == (now, true)
  {
    assert |was| > 0 ==> was[..0] == [];
    assert [] + now[0..] == now;
  }

  // ---------- Levels ----------

  function Levels(v: Variable, levelsPerVar: nat): (levels: seq<Value>)
    requires levelsPerVar > 0
  {
    match v
    case Listed(_, values) =>
      if |values| <= levelsPerVar then values
      else if levelsPerVar == 1 then [values[|values| / 2]]
      else seq(levelsPerVar, i requires 0 <= i < levelsPerVar =>
                 SubsampleInRange(|values|, levelsPerVar, i);
                 values[Subsample(|values|, levelsPerVar, i)])
    case Continuous(_, lo, hi) =>
      if levelsPerVar == 1 then [Number((lo + hi) / 2.0)]
      else seq(levelsPerVar, i requires 0 <= i < levelsPerVar => Number(Spaced(lo, hi, levelsPerVar, i)))
    case Integer(_, lo, hi) =>
      if levelsPerVar == 1 then [Number(Round((lo + hi) / 2.0) as real)]
      else seq(levelsPerVar, i requires 0 <= i < levelsPerVar => Number(Round(Spaced(lo, hi, levelsPerVar, i)) as real))
  }

  /** Evenly spaced from lo to hi. */
  function Spaced(lo: real, hi: real, levels: nat, i: nat): real
    requires levels > 1
  {
    lo + i as real / (levels - 1) as real * (hi - lo)
  }

  /** Position picked from a longer value list for level i. */
  function Subsample(len: nat, levels: nat, i: nat): int
    requires levels > 1
  {
    Round(i as real * (((len - 1) as real) / ((levels - 1) as real)))
  }

  lemma QuotientTimes(a: real, b: real)
    requires 0.0 < b <= a
    ensures b * (a / b) == a && a / b >= 1.0
  {}

  lemma ScaledSteps(len: nat, levels: nat, i: nat) returns (step: real)
    requires 1 < levels < len
    ensures step == (len - 1) as real / (levels - 1) as real && step >= 1.0
    ensures i < levels ==> 0.0 <= i as real * step <= (len - 1) as real
    ensures i == levels - 1 ==> i as real * step == (len - 1) as real
  {
    var a, b := (len - 1) as real, (levels - 1) as real;
    step := a / b;
    QuotientTimes(a, b);
    if i < levels { ScaleUp(i as real, b, step); }
  }

  lemma ScaleUp(x: real, y: real, step: real)
    requires 0.0 <= x <= y && step >= 0.0
    ensures 0.0 <= x * step <= y * step
  {}

  lemma SubsampleInRange(len: nat, levels: nat, i: nat)
    requires 1 < levels < len && i < levels
    ensures 0 <= Subsample(len, levels, i) < len
  {
    var step := ScaledSteps(len, levels, i);
  }

  /** Sub-sampled positions are distinct, increasing, and include both ends of the value list. */
  lemma SubsampleSpreads(len: nat, levels: nat, i: nat, j: nat)
    requires 1 < levels < len && i < j < levels
    ensures Subsample(len, levels, i) < Subsample(len, levels, j)
    ensures Subsample(len, levels, 0) == 0 && Subsample(len, levels, levels - 1) == len - 1
  {
    var step := ScaledSteps(len, levels, i);
    step := ScaledSteps(len, levels, 0);
    step := ScaledSteps(len, levels, levels - 1);
    StepsApart(i as real, j as real, step);
  }

  lemma StepsApart(x: real, y: real, step: real)
    requires x + 1.0 <= y && 1.0 <= step
    ensures x * step + 1.0 <= y * step
  {
    ScaleUp(0.0, y - x - 1.0, step);
    assert (y - x - 1.0) * step == y * step - x * step - step;
  }

  /** Continuous levels start at lo, end at hi and stay evenly spaced between. */
  lemma SpacedCoversBounds(lo: real, hi: real, levels: nat, i: nat)
    requires levels > 1 && i + 1 < levels
    ensures Spaced(lo, hi, levels, 0) == lo && Spaced(lo, hi, levels, levels - 1) == hi
    ensures Spaced(lo, hi, levels, i + 1) - Spaced(lo, hi, levels, i) == (hi - lo) / (levels - 1) as real
  {
    var b, w := (levels - 1) as real, hi - lo;
    assert b / b == 1.0;
    assert (i + 1) as real / b == i as real / b + 1.0 / b;
    assert (i as real / b + 1.0 / b) * w == i as real / b * w + 1.0 / b * w;
  }

  // ---------- The grid ----------

  type Record = map<string, Option<Value>>

  function LevelAt(levels: seq<Value>, i: nat): Option<Value> {
    if i < |levels| then Some(levels[i]) else None
  }

  /** The record of an index tuple; a variable without levels is present but undefined. */
  function RecordAt(vars: seq<Variable>, levels: seq<seq<Value>>, t: seq<nat>): Record
    requires |vars| == |levels| == |t|
  {
    if vars == [] then map[]
    else
      var n := |vars| - 1;
      RecordAt(vars[..n], levels[..n], t[..n])[vars[n].name := LevelAt(levels[n], t[n])]
  }

  lemma {:induction false} RecordNames(vars: seq<Variable>, levels: seq<seq<Value>>, t: seq<nat>)
    requires |vars| == |levels| == |t|
    ensures RecordAt(vars, levels, t).Keys == Names(vars)
  {
    if vars != [] {
      var n := |vars| - 1;
      RecordNames(vars[..n], levels[..n], t[..n]);
      assert vars == vars[..n] + [vars[n]];
    }
  }

  /** A point has exactly the variables' names, and under a name of its own the level its index says. */
  lemma {:induction false} RecordHolds(vars: seq<Variable>, levels: seq<seq<Value>>, t: seq<nat>, vi: nat)
    requires |vars| == |levels| == |t| && vi < |vars| && OwnName(vars, vi)
    ensures RecordAt(vars, levels, t).Keys == Names(vars)
    ensures RecordAt(vars, levels, t)[vars[vi].name] == if t[vi] < |levels[vi]| then Some(levels[vi][t[vi]]) else None
  {
    RecordNames(vars, levels, t);
    var n := |vars| - 1;
    if vi < n {
      RecordHolds(vars[..n], levels[..n], t[..n], vi);
      assert vars[n].name != vars[vi].name;
    }
  }

  function LevelLists(vars: seq<Variable>, levelsPerVar: nat): (ls: seq<seq<Value>>)
    requires levelsPerVar > 0
    ensures |ls| == |vars|
  {
    seq(|vars|, i requires 0 <= i < |vars| => Levels(vars[i], levelsPerVar))
  }

  function Totals(levels: seq<seq<Value>>): (totals: seq<nat>)
    ensures |totals| == |levels|
  {
    seq(|levels|, i requires 0 <= i < |levels| => |levels[i]|)
  }

  /** One point per index tuple, the k-th that of the digits of k. */
  ghost predicate IsGrid(vars: seq<Variable>, levels: seq<seq<Value>>, points: seq<Record>)
    requires |vars| == |levels|
  {
    && |points| == Combinations(Totals(levels))
    && forall k :: 0 <= k < |points| ==> points[k] == RecordAt(vars, levels, Digits(k, Totals(levels)))
  }

  /** Emits a point for every index tuple, until the counter carries off its left end. */
  method EmitAll(vars: seq<Variable>, levels: seq<seq<Value>>) returns (points: seq<Record>)
    requires |vars| == |levels|
    ensures IsGrid(vars, levels, points)
  {
    hide Incremented, Combinations, RecordAt, Digits, Numeral, InBounds;
    var totals := Totals(levels);
    points := [];
    var indices := new nat[|vars|](_ => 0);
    ZeroNumeral(indices[..], totals);
    while true
      invariant forall k :: 0 <= k < |points| ==> points[k] == RecordAt(vars, levels, Digits(k, totals))
      invariant InBounds(indices[..], totals) && Numeral(indices[..], totals) == |points| < Combinations(totals)
      decreases Combinations(totals) - |points|
    {
      ghost var t := indices[..];
      DigitsOfNumeral(t, totals);
      points := points + [RecordAt(vars, levels, indices[..])];
      IncrementedIsSuccessor(t, totals);
      var carry := Increment(indices, totals);
      if carry { return; }
      NumeralBelowCombinations(indices[..], totals);
    }
  }

  lemma {:induction false} ZeroNumeral(t: seq<nat>, totals: seq<nat>)
    requires |t| == |totals| && forall i :: 0 <= i < |t| ==> t[i] == 0
    ensures InBounds(t, totals) && Numeral(t, totals) == 0 < Combinations(totals)
  {
    if t != [] { ZeroNumeral(t[..|t| - 1], totals[..|t| - 1]); }
    NumeralBelowCombinations(t, totals);
  }

  /** DOESampler.grid; points are given by their variables. */
  method Grid(vars: seq<Variable>, levelsPerVar: int) returns (points: seq<Record>)
    ensures levelsPerVar <= 0 ==> points == []
    ensures levelsPerVar > 0 ==> IsGrid(vars, LevelLists(vars, levelsPerVar), points)
  {
    if levelsPerVar <= 0 { return []; }
    hide IsGrid;
    points := EmitAll(vars, LevelLists(vars, levelsPerVar));
  }

  /** Counting up to the number of tuples visits every in-bounds tuple exactly once, in dictionary order. */
  lemma EveryTupleOnce(totals: seq<nat>, t: seq<nat>, j: nat, k: nat)
    requires j < Combinations(totals) && k < Combinations(totals)
    ensures InBounds(t, totals) <==> exists i: nat :: i < Combinations(totals) && Digits(i, totals) == t
    ensures Before(Digits(j, totals), Digits(k, totals)) <==> j < k
    ensures Digits(j, totals) == Digits(k, totals) <==> j == k
  {
    hide Before, Numeral, Combinations, Digits, InBounds;
    if InBounds(t, totals) {
      NumeralBelowCombinations(t, totals);
      DigitsOfNumeral(t, totals);
    }
    if i: nat :| i < Combinations(totals) && Digits(i, totals) == t {
      NumeralOfDigits(i, totals);
    }
    NumeralOfDigits(j, totals);
    NumeralOfDigits(k, totals);
    NumeralOrder(Digits(j, totals), Digits(k, totals), totals);
  }

  /** One value for each variable, out of its levels. */
  ghost predicate IsChoice(levels: seq<seq<Value>>, choice: seq<Value>) {
    |choice| == |levels| && forall vi :: 0 <= vi < |levels| ==> choice[vi] in levels[vi]
  }

  /** The point has the chosen value for every variable, and no other variables. */
  ghost predicate Shows(vars: seq<Variable>, point: Record, choice: seq<Value>)
    requires |vars| == |choice|
  {
    && point.Keys == Names(vars)
    && forall vi :: 0 <= vi < |vars| ==> vars[vi].name in point && point[vars[vi].name] == Some(choice[vi])
  }

  ghost predicate DistinctNames(vars: seq<Variable>) {
    forall vi :: 0 <= vi < |vars| ==> OwnName(vars, vi)
  }

  lemma TupleShows(vars: seq<Variable>, levels: seq<seq<Value>>, t: seq<nat>, choice: seq<Value>)
    requires |vars| == |levels| == |choice| && DistinctNames(vars) && InBounds(t, Totals(levels))
    requires forall vi :: 0 <= vi < |levels| ==> levels[vi] != []
    ensures Shows(vars, RecordAt(vars, levels, t), choice) <==>
              forall vi :: 0 <= vi < |levels| ==> t[vi] < |levels[vi]| && levels[vi][t[vi]] == choice[vi]
  {
    RecordNames(vars, levels, t);
    forall vi | 0 <= vi < |vars|
      ensures vars[vi].name in RecordAt(vars, levels, t)
      ensures t[vi] < |levels[vi]| && RecordAt(vars, levels, t)[vars[vi].name] == Some(levels[vi][t[vi]])
    {
      RecordHolds(vars, levels, t, vi);
      assert Radix(Totals(levels)[vi]) == |levels[vi]|;
    }
    hide RecordAt, OwnName;
  }

  lemma ChoiceHasTuple(levels: seq<seq<Value>>, choice: seq<Value>) returns (t: seq<nat>)
    requires IsChoice(levels, choice)
    ensures InBounds(t, Totals(levels))
    ensures forall vi :: 0 <= vi < |levels| ==> t[vi] < |levels[vi]| && levels[vi][t[vi]] == choice[vi]
  {
    t := [];
    for vi := 0 to |levels|
      invariant |t| == vi && forall v :: 0 <= v < vi ==> t[v] < |levels[v]| && levels[v][t[v]] == choice[v]
    {
      var i: nat :| i < |levels[vi]| && levels[vi][i] == choice[vi];
      t := t + [i];
    }
  }

  /** With levels that do not repeat a tuple is determined by the values it picks. */
  lemma SameTuple(levels: seq<seq<Value>>, choice: seq<Value>, t: seq<nat>, u: seq<nat>)
    requires |t| == |u| == |levels| == |choice|
    requires forall vi :: 0 <= vi < |levels| ==> NoRepeats(levels[vi])
    requires forall vi :: 0 <= vi < |levels| ==> t[vi] < |levels[vi]| && levels[vi][t[vi]] == choice[vi]
    requires forall vi :: 0 <= vi < |levels| ==> u[vi] < |levels[vi]| && levels[vi][u[vi]] == choice[vi]
    ensures t == u
  {
    forall vi | 0 <= vi < |t| ensures t[vi] == u[vi] {
      assert NoRepeats(levels[vi]);
    }
  }

  /**
   * A full factorial design: with names and levels that do not repeat, every combination of levels is that of
   * exactly one point.
   */
  lemma EveryCombinationOnce(vars: seq<Variable>, levels: seq<seq<Value>>, points: seq<Record>, choice: seq<Value>)
    returns (k: nat)
    requires |vars| == |levels| && IsGrid(vars, levels, points) && DistinctNames(vars)
    requires forall vi :: 0 <= vi < |levels| ==> NoRepeats(levels[vi])
    requires IsChoice(levels, choice)
    ensures k < |points| && forall l :: 0 <= l < |points| ==> (Shows(vars, points[l], choice) <==> l == k)
  {
    var totals := Totals(levels);
    var t := ChoiceHasTuple(levels, choice);
    k := Numeral(t, totals);
    NumeralBelowCombinations(t, totals);
    DigitsOfNumeral(t, totals);
    forall l: nat | l < |points| ensures Shows(vars, points[l], choice) <==> l == k {
      NumeralOfDigits(l, totals);
      TupleShows(vars, levels, Digits(l, totals), choice);
      hide *;
      if forall vi :: 0 <= vi < |levels| ==>
                       Digits(l, totals)[vi] < |levels[vi]| && levels[vi][Digits(l, totals)[vi]] == choice[vi] {
        SameTuple(levels, choice, t, Digits(l, totals));
      }
    }
  }

  // ---------- What the levels are ----------

  /** One continuous level lies in the middle; more divide the bounds into equal steps, both ends included. */
  lemma ContinuousLevels(name: string, lo: real, hi: real, n: nat, i: nat)
    requires i < n
    ensures var levels := Levels(Continuous(name, lo, hi), n);
            && |levels| == n && levels[i].Number?
            && (n == 1 ==> levels[i].n - lo == hi - levels[i].n)
            && (n > 1 ==> (levels[i].n - lo) * (n - 1) as real == i as real * (hi - lo))
  {
    if n > 1 { SpacedTimes(lo, hi, n, i); }
  }

  lemma SpacedTimes(lo: real, hi: real, n: nat, i: nat)
    requires n > 1
    ensures (Spaced(lo, hi, n, i) - lo) * (n - 1) as real == i as real * (hi - lo)
  {
    var m, w := (n - 1) as real, hi - lo;
    var q := i as real / m;
    assert q * m == i as real;
    assert (q * w) * m == (q * m) * w;
  }

  /** Integer levels are the whole numbers nearest to the continuous ones, halves upwards. */
  lemma IntegerLevels(name: string, lo: real, hi: real, n: nat, i: nat)
    requires i < n
    ensures var levels := Levels(Integer(name, lo, hi), n);
            var exact := Levels(Continuous(name, lo, hi), n);
            && |levels| == n && levels[i].Number?
            && levels[i].n == levels[i].n.Floor as real && levels[i].n - 0.5 <= exact[i].n < levels[i].n + 0.5
  {
    ContinuousLevels(name, lo, hi, n, i);
    var x := Levels(Continuous(name, lo, hi), n)[i].n;
    RoundIsNearest(x);
    hide Spaced, Round;
  }

  lemma RoundIsNearest(x: real)
    ensures Round(x) as real - 0.5 <= x < Round(x) as real + 0.5
    ensures (Round(x) as real).Floor == Round(x)
  {}

  /** Listed levels: all values if there are no more than asked for, the middle one if one is asked for... */
  lemma FewListedLevels(name: string, values: seq<Value>, n: nat)
    requires n > 0
    ensures |values| <= n ==> Levels(Listed(name, values), n) == values
    ensures |values| > 1 == n ==> Levels(Listed(name, values), n) == [values[|values| / 2]]
  {}

  /** The whole number p is at most a half away from a / b. */
  ghost predicate NearestTo(p: int, a: int, b: int) { -b <= 2 * (p * b - a) <= b }

  /** ...and else n of them in order, the i-th from the position nearest to i of n - 1 equal steps to the last. */
  lemma ManyListedLevels(name: string, values: seq<Value>, n: nat) returns (at: seq<nat>)
    requires 1 < n < |values|
    ensures |at| == n && Positions(at, |values|) && at[0] == 0 && at[n - 1] == |values| - 1
    ensures Levels(Listed(name, values), n) == seq(n, i requires 0 <= i < n => values[at[i]])
    ensures forall i :: 0 <= i < n ==> NearestTo(at[i], i * (|values| - 1), n - 1)
  {
    at := SubsampledPositions(|values|, n);
    assert Levels(Listed(name, values), n) == seq(n, i requires 0 <= i < n => values[at[i]]);
    hide Subsample, Levels, NearestTo;
    forall i | 0 <= i < n ensures NearestTo(at[i], i * (|values| - 1), n - 1) {
      SubsampleNearest(|values|, n, i);
    }
  }

  lemma SubsampledPositions(len: nat, n: nat) returns (at: seq<nat>)
    requires 1 < n < len
    ensures |at| == n && Positions(at, len) && at[0] == 0 && at[n - 1] == len - 1
    ensures forall i :: 0 <= i < n ==> at[i] == Subsample(len, n, i)
  {
    hide Subsample;
    forall i | 0 <= i < n ensures 0 <= Subsample(len, n, i) < len { SubsampleInRange(len, n, i); }
    at := seq(n, i requires 0 <= i < n => Subsample(len, n, i));
    forall i, j | 0 <= i < j < n ensures at[i] < at[j] { SubsampleSpreads(len, n, i, j); }
    SubsampleSpreads(len, n, 0, 1);
  }

  lemma SubsampleNearest(len: nat, n: nat, i: nat)
    requires 1 < n < len && i < n
    ensures NearestTo(Subsample(len, n, i), i * (len - 1), n - 1)
  {
    var p, m := Subsample(len, n, i), (n - 1) as real;
    var x := RealTimes(i as real, (len - 1) as real / m);
    assert p == Round(x);
    hide Subsample, Round, RealTimes, NearestTo;
    RoundIsNearest(x);
    HalfBounds(p as real - x, m);
    Distribute(p as real, x, m);
    ProductCast(p, n - 1);
    ProductCast(i, len - 1);
    DividedBack(i as real, (len - 1) as real, m);
    WholeBounds(Times(p, n - 1), Times(i, len - 1), n - 1);
    NearestIf(p, i, len - 1, n - 1);
  }

  lemma NearestIf(p: int, i: int, a: int, b: int)
    requires -b <= 2 * (Times(p, b) - Times(i, a)) <= b
    ensures NearestTo(p, i * a, b)
  {}

  lemma Distribute(p: real, x: real, m: real)
    ensures RealTimes(p - x, m) == RealTimes(p, m) - RealTimes(x, m)
  {}

  lemma WholeBounds(a: int, b: int, k: int)
    ensures -k <= 2 * (a - b) <= k <==> -(k as real) <= 2.0 * (a as real - b as real) <= k as real
  {}

  lemma DividedBack(x: real, a: real, b: real)
    requires b > 0.0
    ensures RealTimes(RealTimes(x, a / b), b) == RealTimes(x, a)
  {
    var q := a / b;
    assert q * b == a;
    assert (x * q) * b == x * (q * b);
  }

  lemma ProductCast(a: int, b: int)
    ensures RealTimes(a as real, b as real) == Times(a, b) as real
  {}

  lemma HalfBounds(d: real, m: real)
    requires -0.5 <= d <= 0.5 && m > 0.0
    ensures -m <= 2.0 * RealTimes(d, m) <= m
  {
    ScaledOrder(d, 0.5, m);
    ScaledOrder(-0.5, d, m);
    HalfOf(m);
    hide RealTimes;
  }

  lemma HalfOf(m: real)
    ensures 2.0 * RealTimes(0.5, m) == m && 2.0 * RealTimes(-0.5, m) == -m
  {}

  lemma ScaledOrder(x: real, y: real, m: real)
    requires x <= y && m > 0.0
    ensures RealTimes(x, m) <= RealTimes(y, m)
  {
    var e := y - x;
    assert e * m >= 0.0;
    assert e * m == y * m - x * m;
  }
}
