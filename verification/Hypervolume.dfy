/** ParetoAnalyzer._hypervolume2D: the sweep, its range, and the cells it counts. */
module Hypervolume {
  import opened CampaignTypes
  import opened Sorting
  import opened Staircase

  type Pt = (real, real)

  function Coordinates(o: Objective, front: seq<EvaluationResult>): (s: seq<real>)
    ensures |s| == |front| && forall i :: 0 <= i < |front| ==> s[i] == Coordinate(o, front[i])
  {
    seq(|front|, i requires 0 <= i < |front| => Coordinate(o, front[i]))
  }

  function MinOf(s: seq<real>): (m: real)
    requires s != []
    ensures m in s && forall i :: 0 <= i < |s| ==> m <= s[i]
  {
    if |s| == 1 then s[0] else var m := MinOf(s[1..]); if s[0] < m then s[0] else m
  }

  function MaxOf(s: seq<real>): (m: real)
    requires s != []
    ensures m in s && forall i :: 0 <= i < |s| ==> s[i] <= m
  {
    if |s| == 1 then s[0] else var m := MaxOf(s[1..]); if s[0] > m then s[0] else m
  }

  /** `max - min || 1` */
  function Span(lo: real, hi: real): real { if hi - lo == 0.0 then 1.0 else hi - lo }

  /** Distance from the best value of an objective, before scaling. */
  function Offset(d: Direction, v: real, lo: real, hi: real): real {
    if d == Minimize then v - lo else hi - v
  }

  function SpanOf(o: Objective, front: seq<EvaluationResult>): (s: real)
    requires front != []
    ensures s > 0.0
  {
    var xs := Coordinates(o, front);
    assert MinOf(xs) <= MaxOf(xs);
    Span(MinOf(xs), MaxOf(xs))
  }

  function OffsetOf(o: Objective, front: seq<EvaluationResult>, i: nat): (d: real)
    requires i < |front|
    ensures 0.0 <= d <= SpanOf(o, front)
  {
    var xs := Coordinates(o, front);
    Offset(o.direction, xs[i], MinOf(xs), MaxOf(xs))
  }

  function UnitPoint(o1: Objective, o2: Objective, front: seq<EvaluationResult>, i: nat): Pt
    requires i < |front|
  {
    (OffsetOf(o1, front, i) / SpanOf(o1, front), OffsetOf(o2, front, i) / SpanOf(o2, front))
  }

  function UnitPoints(o1: Objective, o2: Objective, front: seq<EvaluationResult>): (s: seq<Pt>)
    requires front != []
    ensures |s| == |front| && forall i :: 0 <= i < |front| ==> s[i] == UnitPoint(o1, o2, front, i)
  {
    seq(|front|, i requires 0 <= i < |front| => UnitPoint(o1, o2, front, i))
  }

  predicate ByX(p: Pt, q: Pt) { p.0 <= q.0 }

  /** Products of reals, behind a name so that proofs can leave them alone. */
  function Block(width: real, height: real): real { width * height }

  /** The area a right-to-left sweep over sorted points adds up, starting from reference (prevX, 1). */
  function Sweep(pts: seq<Pt>, prevX: real): real {
    if pts == [] then 0.0
    else
      var p := pts[|pts| - 1];
      Block(prevX - p.0, 1.0 - p.1) + Sweep(pts[..|pts| - 1], p.0)
  }

  function HypervolumeOf(o1: Objective, o2: Objective, front: seq<EvaluationResult>): real {
    if front == [] then 0.0 else Sweep(StableSort(UnitPoints(o1, o2, front), ByX), 1.0)
  }

  ghost predicate LeftToRight(s: seq<Pt>) { forall i, j :: 0 <= i < j < |s| ==> s[i].0 <= s[j].0 }

  ghost predicate InUnitSquare(p: Pt) { 0.0 <= p.0 <= 1.0 && 0.0 <= p.1 <= 1.0 }

  lemma FractionInUnit(d: real, span: real)
    requires 0.0 <= d <= span && span > 0.0
    ensures 0.0 <= d / span <= 1.0
  {}

  lemma SortedUnitPoints(o1: Objective, o2: Objective, front: seq<EvaluationResult>)
    requires front != []
    ensures var s := StableSort(UnitPoints(o1, o2, front), ByX);
            && |s| == |front| && LeftToRight(s)
            && (forall k :: 0 <= k < |s| ==> exists i :: 0 <= i < |front| && s[k] == UnitPoint(o1, o2, front, i))
            && (forall i :: 0 <= i < |front| ==> UnitPoint(o1, o2, front, i) in s)
  {
    hide UnitPoint, StableSort;
    var pts := UnitPoints(o1, o2, front);
    var s := StableSort(pts, ByX);
    SortMultiset(pts, ByX);
    SortSorted(pts, ByX);
    forall i, j | 0 <= i < j < |s| ensures s[i].0 <= s[j].0 { assert ByX(s[i], s[j]); }
    forall k | 0 <= k < |s| ensures exists i :: 0 <= i < |front| && s[k] == UnitPoint(o1, o2, front, i) {
      assert s[k] in multiset(s);
      assert s[k] in pts;
    }
    forall i | 0 <= i < |front| ensures UnitPoint(o1, o2, front, i) in s {
      assert pts[i] in multiset(pts);
    }
  }

  lemma {:induction false} SweepBounds(pts: seq<Pt>, prevX: real)
    requires LeftToRight(pts) && forall i :: 0 <= i < |pts| ==> InUnitSquare(pts[i]) && pts[i].0 <= prevX
    ensures 0.0 <= Sweep(pts, prevX)
    ensures prevX >= 0.0 ==> Sweep(pts, prevX) <= prevX
  {
    hide Block;
    if pts != [] {
      var p := pts[|pts| - 1];
      assert InUnitSquare(p);
      SweepBounds(pts[..|pts| - 1], p.0);
      BlockBounds(prevX - p.0, 1.0 - p.1);
    }
  }

  lemma BlockBounds(w: real, h: real)
    requires 0.0 <= w && 0.0 <= h <= 1.0
    ensures 0.0 <= Block(w, h) <= w
  {}

  /** The hypervolume of any front lies in [0, 1], so the final `Math.max(0, hv)` never changes it. */
  lemma HypervolumeInUnit(o1: Objective, o2: Objective, front: seq<EvaluationResult>)
    ensures 0.0 <= HypervolumeOf(o1, o2, front) <= 1.0
  {
    if front != [] {
      var s := StableSort(UnitPoints(o1, o2, front), ByX);
      SortedUnitPoints(o1, o2, front);
      forall k | 0 <= k < |s| ensures InUnitSquare(s[k]) && s[k].0 <= 1.0 {
        var i :| 0 <= i < |front| && s[k] == UnitPoint(o1, o2, front, i);
        FractionInUnit(OffsetOf(o1, front, i), SpanOf(o1, front));
        FractionInUnit(OffsetOf(o2, front, i), SpanOf(o2, front));
      }
      SweepBounds(s, 1.0);
    }
  }

  method SweepArea(norm: seq<Pt>) returns (hv: real)
    ensures hv == Sweep(norm, 1.0)
  {
    var prevX := 1.0;
    hv := 0.0;
    assert norm[..|norm|] == norm;
    for i := |norm| downto 0
      invariant hv + Sweep(norm[..i], prevX) == Sweep(norm, 1.0)
    {
      ghost var head := norm[..i + 1];
      assert head[..i] == norm[..i] && head[|head| - 1] == norm[i];
      hv := hv + Block(prevX - norm[i].0, 1.0 - norm[i].1);
      prevX := norm[i].0;
    }
  }

  method Hypervolume2D(o1: Objective, o2: Objective, front: seq<EvaluationResult>) returns (hv: real)
    ensures hv == HypervolumeOf(o1, o2, front)
    ensures 0.0 <= hv <= 1.0
  {
    HypervolumeInUnit(o1, o2, front);
    if |front| == 0 { return 0.0; }
    hv := SweepArea(StableSort(UnitPoints(o1, o2, front), ByX));
    hv := if hv < 0.0 then 0.0 else hv;
  }

  // ---------- The cells a front covers ----------

  /** Every result carries the objective, with a whole-number value. */
  ghost predicate WholeValued(o: Objective, front: seq<EvaluationResult>) {
    forall r :: r in front ==> o.name in r.objectives && r.objectives[o.name] == r.objectives[o.name].Floor as real
  }

  /** No result is at least as good as a different-valued one on both objectives. */
  ghost predicate Antichain(o1: Objective, o2: Objective, front: seq<EvaluationResult>) {
    forall i, j :: 0 <= i < |front| && 0 <= j < |front| ==>
      AsGood(o1, front[i], front[j]) && AsGood(o2, front[i], front[j]) ==>
      AsGood(o1, front[j], front[i]) && AsGood(o2, front[j], front[i])
  }

  ghost predicate AsGood(o: Objective, a: EvaluationResult, b: EvaluationResult) {
    if o.direction == Minimize then Coordinate(o, a) <= Coordinate(o, b) else Coordinate(o, a) >= Coordinate(o, b)
  }

  /** Whole steps from the best value of each objective. */
  ghost function CellPoint(o1: Objective, o2: Objective, front: seq<EvaluationResult>, i: nat): Point
    requires i < |front|
  {
    (OffsetOf(o1, front, i).Floor, OffsetOf(o2, front, i).Floor)
  }

  ghost function CellPoints(o1: Objective, o2: Objective, front: seq<EvaluationResult>): (s: seq<Point>)
    ensures |s| == |front| && forall i :: 0 <= i < |front| ==> s[i] == CellPoint(o1, o2, front, i)
  {
    seq(|front|, i requires 0 <= i < |front| => CellPoint(o1, o2, front, i))
  }

  ghost predicate Whole(x: real) { x == x.Floor as real }

  lemma WholeSpan(o: Objective, front: seq<EvaluationResult>)
    requires front != [] && WholeValued(o, front)
    ensures Whole(SpanOf(o, front)) && SpanOf(o, front).Floor > 0
  {
    var xs := Coordinates(o, front);
    WholeCoordinates(o, front);
    hide WholeValued, MinOf, MaxOf, Whole;
    WholeDifference(MaxOf(xs), MinOf(xs));
    WholeIsPositive(SpanOf(o, front));
  }

  lemma WholeIsPositive(x: real)
    ensures Whole(1.0) && (x > 0.0 && Whole(x) ==> x.Floor > 0)
  {}

  lemma WholeOffset(o: Objective, front: seq<EvaluationResult>, i: nat)
    requires i < |front| && WholeValued(o, front)
    ensures Whole(OffsetOf(o, front, i))
  {
    hide *;
    var xs := Coordinates(o, front);
    WholeCoordinates(o, front);
    OffsetInParts(o, front, i);
    assert xs[i] in xs;
    WholeDifference(xs[i], MinOf(xs));
    WholeDifference(MaxOf(xs), xs[i]);
  }

  lemma OffsetInParts(o: Objective, front: seq<EvaluationResult>, i: nat)
    requires i < |front|
    ensures var xs := Coordinates(o, front);
            OffsetOf(o, front, i) == xs[i] - MinOf(xs) || OffsetOf(o, front, i) == MaxOf(xs) - xs[i]
  {
    hide MinOf, MaxOf;
  }

  lemma WholeOffsets(o: Objective, front: seq<EvaluationResult>, i: nat)
    requires i < |front| && WholeValued(o, front)
    ensures SpanOf(o, front) == SpanOf(o, front).Floor as real && SpanOf(o, front).Floor > 0
    ensures OffsetOf(o, front, i) == OffsetOf(o, front, i).Floor as real
    ensures 0 <= OffsetOf(o, front, i).Floor <= SpanOf(o, front).Floor
  {
    hide SpanOf, OffsetOf, WholeValued;
    WholeSpan(o, front);
    WholeOffset(o, front, i);
    FloorOrder(OffsetOf(o, front, i), SpanOf(o, front));
  }

  lemma WholeCoordinates(o: Objective, front: seq<EvaluationResult>)
    requires WholeValued(o, front)
    ensures forall x :: x in Coordinates(o, front) ==> Whole(x)
  {
    forall k | 0 <= k < |front| ensures Whole(Coordinates(o, front)[k]) {
      assert front[k] in front;
    }
  }

  lemma FloorOrder(a: real, b: real)
    requires 0.0 <= a <= b
    ensures 0 <= a.Floor <= b.Floor
  {}

  lemma WholeDifference(a: real, b: real)
    requires Whole(a) && Whole(b)
    ensures Whole(a - b)
  {
    assert a - b == (a.Floor - b.Floor) as real;
  }

  ghost function ToCell(p: Pt, RX: real, RY: real): Point { (Block(p.0, RX).Floor, Block(p.1, RY).Floor) }

  ghost function ToCells(s: seq<Pt>, RX: real, RY: real): (cells: seq<Point>)
    ensures |cells| == |s| && forall k :: 0 <= k < |s| ==> cells[k] == ToCell(s[k], RX, RY)
  {
    if s == [] then [] else ToCells(s[..|s| - 1], RX, RY) + [ToCell(s[|s| - 1], RX, RY)]
  }

  ghost predicate ScalesTo(x: real, R: nat, c: int) { Block(x, R as real) == c as real }

  /** p sits on a corner of the X by Y grid. */
  ghost predicate OnGrid(p: Pt, X: nat, Y: nat) {
    var c := ToCell(p, X as real, Y as real);
    ScalesTo(p.0, X, c.0) && ScalesTo(p.1, Y, c.1) && 0 <= c.0 <= X && 0 <= c.1 <= Y
  }

  ghost function Scaled(area: real, X: nat, Y: nat): real { Block(Block(area, X as real), Y as real) }

  lemma ScaleStep(prev: real, p: Pt, rest: real, X: nat, Y: nat, px: int, c: Point, cells: int)
    requires ScalesTo(prev, X, px) && ScalesTo(p.0, X, c.0) && ScalesTo(p.1, Y, c.1) && px >= c.0
    requires Scaled(rest, X, Y) == cells as real
    ensures Scaled(Block(prev - p.0, 1.0 - p.1) + rest, X, Y) == (Copies(px - c.0, Y - c.1) + cells) as real
  {
    CopiesAreProduct(px - c.0, Y - c.1);
    var w, h, RX, RY := prev - p.0, 1.0 - p.1, X as real, Y as real;
    assert w * RX == (px - c.0) as real;
    assert h * RY == (Y - c.1) as real;
    assert w * h * RX * RY == (w * RX) * (h * RY);
    assert (w * h + rest) * RX * RY == w * h * RX * RY + rest * RX * RY;
  }

  ghost predicate ScaleTo(s: seq<Pt>, cells: seq<Point>, X: nat, Y: nat) {
    && |s| == |cells|
    && forall k :: 0 <= k < |s| ==> ScalesTo(s[k].0, X, cells[k].0) && ScalesTo(s[k].1, Y, cells[k].1)
  }

  lemma Prefixes(s: seq<Pt>, cells: seq<Point>, px: nat, X: nat, Y: nat)
    requires ScaleTo(s, cells, X, Y) && Descending(cells) && Within(cells, px, Y) && s != []
    ensures var n := |s| - 1;
            && ScaleTo(s[..n], cells[..n], X, Y) && Descending(cells[..n])
            && 0 <= cells[n].0 <= px && Within(cells[..n], cells[n].0, Y)
            && ScalesTo(s[n].0, X, cells[n].0) && ScalesTo(s[n].1, Y, cells[n].1)
  {}

  lemma {:induction false} SweepScales(s: seq<Pt>, cells: seq<Point>, prev: real, px: nat, X: nat, Y: nat)
    requires ScaleTo(s, cells, X, Y) && Descending(cells) && Within(cells, px, Y) && ScalesTo(prev, X, px)
    ensures Scaled(Sweep(s, prev), X, Y) == SweepCells(cells, px, Y) as real
    decreases |s|
  {
    hide Block, Scaled, Copies, ScalesTo, Descending, Within;
    if s == [] {
      NothingScales(X, Y);
    } else {
      var n := |s| - 1;
      Prefixes(s, cells, px, X, Y);
      SweepScales(s[..n], cells[..n], s[n].0, cells[n].0, X, Y);
      ScaleStep(prev, s[n], Sweep(s[..n], s[n].0), X, Y, px, cells[n], SweepCells(cells[..n], cells[n].0, Y));
    }
  }

  lemma NothingScales(X: nat, Y: nat)
    ensures Scaled(0.0, X, Y) == 0.0
  {}

  lemma UnitBlock(R: real)
    ensures Block(1.0, R) == R
  {}

  lemma BlockMonotone(a: real, b: real, R: real)
    requires a <= b && R >= 0.0
    ensures Block(a, R) <= Block(b, R)
  {}

  /** A sorted antichain of grid points: scaled up, the sweep counts the cells it covers. */
  lemma SweepCountsCells(s: seq<Pt>, X: nat, Y: nat)
    requires LeftToRight(s) && forall k :: 0 <= k < |s| ==> OnGrid(s[k], X, Y)
    requires forall j, k :: 0 <= j < |s| && 0 <= k < |s| && s[j].0 <= s[k].0 ==> s[j].1 >= s[k].1
    ensures Scaled(Sweep(s, 1.0), X, Y) == |Region(ToCells(s, X as real, Y as real), X, Y)| as real
  {
    hide Block, Sweep;
    UnitBlock(X as real);
    var cells := ToCells(s, X as real, Y as real);
    forall j, k | 0 <= j < k < |s| ensures cells[j].0 <= cells[k].0 && cells[j].1 >= cells[k].1 {
      BlockMonotone(s[j].0, s[k].0, X as real);
      BlockMonotone(s[k].1, s[j].1, Y as real);
    }
    assert Within(cells, X, Y) by {
      forall k | 0 <= k < |cells| ensures 0 <= cells[k].0 <= X && 0 <= cells[k].1 <= Y { assert OnGrid(s[k], X, Y); }
    }
    forall k | 0 <= k < |s| ensures ScalesTo(s[k].0, X, cells[k].0) && ScalesTo(s[k].1, Y, cells[k].1) {
      assert OnGrid(s[k], X, Y);
    }
    SweepScales(s, cells, 1.0, X, X, Y);
    SweepCountsRegion(cells, X, Y);
  }

  // ---------- ... applied to a front ----------

  lemma QuotientTimes(d: real, span: real)
    requires span > 0.0
    ensures Block(d / span, span) == d
  {}

  lemma QuotientOrder(d: real, e: real, span: real)
    requires span > 0.0
    ensures d / span <= e / span <==> d <= e
  {
    QuotientTimes(d, span);
    QuotientTimes(e, span);
  }

  lemma WholeOnGrid(p: Pt, d: real, e: real, X: nat, Y: nat)
    requires X > 0 && Y > 0 && p == (d / X as real, e / Y as real)
    requires d == d.Floor as real && e == e.Floor as real && 0 <= d.Floor <= X && 0 <= e.Floor <= Y
    ensures OnGrid(p, X, Y) && ToCell(p, X as real, Y as real) == (d.Floor, e.Floor)
  {
    hide Block;
    QuotientTimes(d, X as real);
    QuotientTimes(e, Y as real);
  }

  lemma UnitPointOnGrid(o1: Objective, o2: Objective, front: seq<EvaluationResult>, i: nat, X: nat, Y: nat)
    requires i < |front| && WholeValued(o1, front) && WholeValued(o2, front)
    requires X as real == SpanOf(o1, front) && Y as real == SpanOf(o2, front)
    ensures OnGrid(UnitPoint(o1, o2, front, i), X, Y)
    ensures ToCell(UnitPoint(o1, o2, front, i), X as real, Y as real) == CellPoint(o1, o2, front, i)
  {
    hide OffsetOf, SpanOf, WholeValued, OnGrid, ToCell;
    WholeOffsets(o1, front, i);
    WholeOffsets(o2, front, i);
    WholeOnGrid(UnitPoint(o1, o2, front, i), OffsetOf(o1, front, i), OffsetOf(o2, front, i), X, Y);
  }

  lemma UnitPointsDescend(o1: Objective, o2: Objective, front: seq<EvaluationResult>, i: nat, j: nat)
    requires i < |front| && j < |front| && Antichain(o1, o2, front)
    requires UnitPoint(o1, o2, front, i).0 <= UnitPoint(o1, o2, front, j).0
    ensures UnitPoint(o1, o2, front, i).1 >= UnitPoint(o1, o2, front, j).1
  {
    QuotientOrder(OffsetOf(o1, front, i), OffsetOf(o1, front, j), SpanOf(o1, front));
    QuotientOrder(OffsetOf(o2, front, j), OffsetOf(o2, front, i), SpanOf(o2, front));
    OffsetOrder(o1, front, i, j);
    OffsetOrder(o2, front, i, j);
    OffsetOrder(o2, front, j, i);
  }

  lemma OffsetOrder(o: Objective, front: seq<EvaluationResult>, i: nat, j: nat)
    requires i < |front| && j < |front|
    ensures OffsetOf(o, front, i) <= OffsetOf(o, front, j) <==> AsGood(o, front[i], front[j])
  {}

  /** How far a lies behind b, in the objective's direction. */
  ghost function Behind(o: Objective, a: EvaluationResult, b: EvaluationResult): real {
    if o.direction == Minimize then Coordinate(o, a) - Coordinate(o, b) else Coordinate(o, b) - Coordinate(o, a)
  }

  /** The scale of an objective is the largest distance within the front, or 1 if there is none. */
  lemma SpanIsRange(o: Objective, front: seq<EvaluationResult>)
    requires front != []
    ensures SpanOf(o, front) == 1.0 || exists i, j :: 0 <= i < |front| && 0 <= j < |front| &&
                                                      Behind(o, front[i], front[j]) == SpanOf(o, front)
    ensures forall i, j :: 0 <= i < |front| && 0 <= j < |front| ==> Behind(o, front[i], front[j]) <= SpanOf(o, front)
    ensures (exists i, j :: 0 <= i < |front| && 0 <= j < |front| && Behind(o, front[i], front[j]) > 0.0) ==>
              exists i, j :: 0 <= i < |front| && 0 <= j < |front| && Behind(o, front[i], front[j]) == SpanOf(o, front)
  {
    var xs := Coordinates(o, front);
    hide MinOf, MaxOf;
    var low: nat :| low < |xs| && xs[low] == MinOf(xs);
    var high: nat :| high < |xs| && xs[high] == MaxOf(xs);
    assert Behind(o, front[high], front[low]) == MaxOf(xs) - MinOf(xs) ||
           Behind(o, front[low], front[high]) == MaxOf(xs) - MinOf(xs);
  }

  /** A result's offset is the most it lies behind any other. */
  lemma OffsetIsWorst(o: Objective, front: seq<EvaluationResult>, i: nat, x: real)
    requires i < |front|
    ensures OffsetOf(o, front, i) <= x <==> forall j :: 0 <= j < |front| ==> Behind(o, front[i], front[j]) <= x
  {
    var xs := Coordinates(o, front);
    hide MinOf, MaxOf;
    var low: nat :| low < |xs| && xs[low] == MinOf(xs);
    var high: nat :| high < |xs| && xs[high] == MaxOf(xs);
    assert Behind(o, front[i], front[low]) == OffsetOf(o, front, i) ||
           Behind(o, front[i], front[high]) == OffsetOf(o, front, i);
    assert forall j :: 0 <= j < |front| ==> Behind(o, front[i], front[j]) <= OffsetOf(o, front, i);
  }

  /** Some result lies at most a behind all others in the first objective and at most b in the second. */
  ghost predicate Reaches(o1: Objective, o2: Objective, front: seq<EvaluationResult>, a: int, b: int) {
    exists i :: 0 <= i < |front| && ReachesFrom(o1, o2, front, i, a, b)
  }

  ghost predicate ReachesFrom(o1: Objective, o2: Objective, front: seq<EvaluationResult>, i: nat, a: int, b: int)
    requires i < |front|
  {
    forall j :: 0 <= j < |front| ==>
      Behind(o1, front[i], front[j]) <= a as real && Behind(o2, front[i], front[j]) <= b as real
  }

  /** The cells counted, in terms of the results: those within the ranges that some result reaches. */
  lemma CellsInSourceTerms(o1: Objective, o2: Objective, front: seq<EvaluationResult>, X: nat, Y: nat, a: int, b: int)
    requires front != [] && WholeValued(o1, front) && WholeValued(o2, front)
    ensures (a, b) in Region(CellPoints(o1, o2, front), X, Y) <==>
              0 <= a < X && 0 <= b < Y && Reaches(o1, o2, front, a, b)
  {
    var cells := CellPoints(o1, o2, front);
    forall i | 0 <= i < |front| ensures cells[i].0 <= a && cells[i].1 <= b <==> ReachesFrom(o1, o2, front, i, a, b) {
      CellReaches(o1, o2, front, i, a, b);
    }
    hide *;
    InRegion(cells, X, Y, a, b);
    CoveredIsReached(o1, o2, front, cells, a, b);
  }

  lemma CoveredIsReached(o1: Objective, o2: Objective, front: seq<EvaluationResult>, cells: seq<Point>, a: int, b: int)
    requires |cells| == |front|
    requires forall i :: 0 <= i < |front| ==>
               (cells[i].0 <= a && cells[i].1 <= b <==> ReachesFrom(o1, o2, front, i, a, b))
    ensures Covered(cells, a, b) <==> Reaches(o1, o2, front, a, b)
  {
    hide ReachesFrom;
    if Reaches(o1, o2, front, a, b) {
      var i :| 0 <= i < |front| && ReachesFrom(o1, o2, front, i, a, b);
      assert cells[i].0 <= a && cells[i].1 <= b;
    }
  }

  lemma InRegion(cells: seq<Point>, X: nat, Y: nat, a: int, b: int)
    ensures (a, b) in Region(cells, X, Y) <==> 0 <= a < X && 0 <= b < Y && Covered(cells, a, b)
  {}

  lemma CellReaches(o1: Objective, o2: Objective, front: seq<EvaluationResult>, i: nat, a: int, b: int)
    requires i < |front| && WholeValued(o1, front) && WholeValued(o2, front)
    ensures var c := CellPoint(o1, o2, front, i);
            c.0 <= a && c.1 <= b <==> ReachesFrom(o1, o2, front, i, a, b)
  {
    WholeOffset(o1, front, i);
    WholeOffset(o2, front, i);
    OffsetIsWorst(o1, front, i, a as real);
    OffsetIsWorst(o2, front, i, b as real);
    hide OffsetOf, Behind, WholeValued;
    WholeAtMost(OffsetOf(o1, front, i), a);
    WholeAtMost(OffsetOf(o2, front, i), b);
  }

  lemma WholeAtMost(x: real, n: int)
    requires Whole(x)
    ensures x.Floor <= n <==> x <= n as real
  {}

  lemma SameCover(s: seq<Point>, t: seq<Point>, X: nat, Y: nat)
    requires forall c :: c in s <==> c in t
    ensures Region(s, X, Y) == Region(t, X, Y)
  {
    forall a, b ensures Covered(s, a, b) <==> Covered(t, a, b) {
      if Covered(s, a, b) {
        var i :| 0 <= i < |s| && s[i].0 <= a && s[i].1 <= b;
        assert s[i] in t;
      }
      if Covered(t, a, b) {
        var i :| 0 <= i < |t| && t[i].0 <= a && t[i].1 <= b;
        assert t[i] in s;
      }
    }
  }

  lemma SortedCells(o1: Objective, o2: Objective, front: seq<EvaluationResult>, s: seq<Pt>, X: nat, Y: nat)
    requires front != [] && WholeValued(o1, front) && WholeValued(o2, front)
    requires X as real == SpanOf(o1, front) && Y as real == SpanOf(o2, front)
    requires s == StableSort(UnitPoints(o1, o2, front), ByX)
    ensures forall c :: c in ToCells(s, X as real, Y as real) <==> c in CellPoints(o1, o2, front)
  {
    hide OffsetOf, SpanOf, WholeValued, OnGrid, ToCell, UnitPoint, StableSort;
    SortedUnitPoints(o1, o2, front);
    var cells, t := ToCells(s, X as real, Y as real), CellPoints(o1, o2, front);
    forall c | c in cells ensures c in t {
      var k :| 0 <= k < |cells| && cells[k] == c;
      var i :| 0 <= i < |front| && s[k] == UnitPoint(o1, o2, front, i);
      UnitPointOnGrid(o1, o2, front, i, X, Y);
      assert t[i] == c;
    }
    forall c | c in t ensures c in cells {
      var i :| 0 <= i < |t| && t[i] == c;
      UnitPointOnGrid(o1, o2, front, i, X, Y);
      var k :| 0 <= k < |s| && s[k] == UnitPoint(o1, o2, front, i);
      assert cells[k] == c;
    }
  }

  /**
   * Scaled back to the grid of whole objective steps, the hypervolume is the number of cells
   * with some front point at least as good on both objectives.
   */
  lemma HypervolumeCountsCells(o1: Objective, o2: Objective, front: seq<EvaluationResult>, X: nat, Y: nat)
    requires front != [] && WholeValued(o1, front) && WholeValued(o2, front) && Antichain(o1, o2, front)
    requires X as real == SpanOf(o1, front) && Y as real == SpanOf(o2, front)
    ensures Scaled(HypervolumeOf(o1, o2, front), X, Y)
            == |Region(CellPoints(o1, o2, front), X, Y)| as real
  {
    hide OffsetOf, SpanOf, WholeValued, Antichain, OnGrid, UnitPoint, Sweep, Scaled, StableSort;
    var s := StableSort(UnitPoints(o1, o2, front), ByX);
    SortedUnitPoints(o1, o2, front);
    forall k | 0 <= k < |s| ensures OnGrid(s[k], X, Y) {
      var i :| 0 <= i < |front| && s[k] == UnitPoint(o1, o2, front, i);
      UnitPointOnGrid(o1, o2, front, i, X, Y);
    }
    forall j, k | 0 <= j < |s| && 0 <= k < |s| && s[j].0 <= s[k].0 ensures s[j].1 >= s[k].1 {
      var a :| 0 <= a < |front| && s[j] == UnitPoint(o1, o2, front, a);
      var b :| 0 <= b < |front| && s[k] == UnitPoint(o1, o2, front, b);
      UnitPointsDescend(o1, o2, front, a, b);
    }
    SweepCountsCells(s, X, Y);
    SortedCells(o1, o2, front, s, X, Y);
    SameCover(ToCells(s, X as real, Y as real), CellPoints(o1, o2, front), X, Y);
  }
}
