/** Counting the grid cells under a staircase of integer points. */
module Staircase {

  type Point = (int, int)

  /** Some point of pts is at or before the cell (a, b) on both axes. */
  ghost predicate Covered(pts: seq<Point>, a: int, b: int) {
    exists i :: 0 <= i < |pts| && pts[i].0 <= a && pts[i].1 <= b
  }

  ghost function Column(x: int, ylo: int, yhi: int): (s: set<Point>)
    requires ylo <= yhi
    ensures forall c: Point :: c in s <==> c.0 == x && ylo <= c.1 < yhi
    ensures |s| == yhi - ylo
    decreases yhi - ylo
  {
    if ylo == yhi then {} else Column(x, ylo, yhi - 1) + {(x, yhi - 1)}
  }

  /** n copies of h: multiplication the solver unfolds one step at a time. */
  ghost function Copies(n: nat, h: int): int {
    if n == 0 then 0 else Copies(n - 1, h) + h
  }

  lemma {:induction false} CopiesAreProduct(n: nat, h: int)
    ensures Copies(n, h) == n * h
  {
    if n > 0 {
      CopiesAreProduct(n - 1, h);
      assert n * h == (n - 1) * h + h;
    }
  }

  lemma DisjointSizes<T>(s: set<T>, t: set<T>, u: set<T>)
    requires s == t + u && t !! u
    ensures |s| == |t| + |u|
  {}

  ghost function Rectangle(xlo: int, xhi: int, ylo: int, yhi: int): (s: set<Point>)
    requires xlo <= xhi && ylo <= yhi
    ensures forall c: Point :: c in s <==> xlo <= c.0 < xhi && ylo <= c.1 < yhi
    ensures |s| == Copies(xhi - xlo, yhi - ylo)
    decreases xhi - xlo
  {
    if xlo == xhi then {}
    else
      var left, last := Rectangle(xlo, xhi - 1, ylo, yhi), Column(xhi - 1, ylo, yhi);
      DisjointSizes(left + last, left, last);
      left + last
  }

  /** The cells of an X by Y grid that pts covers. */
  ghost function Region(pts: seq<Point>, X: nat, Y: nat): set<Point> {
    set c | c in Rectangle(0, X, 0, Y) && Covered(pts, c.0, c.1)
  }

  /** Going right never goes up, and equal columns mean equal points. */
  ghost predicate Descending(pts: seq<Point>) {
    forall i, j :: 0 <= i < j < |pts| ==> pts[i].0 <= pts[j].0 && pts[i].1 >= pts[j].1
  }

  ghost predicate Within(pts: seq<Point>, X: nat, Y: nat) {
    forall i :: 0 <= i < |pts| ==> 0 <= pts[i].0 <= X && 0 <= pts[i].1 <= Y
  }

  /** Sum of the rectangles a right-to-left sweep adds up, X being the previous column. */
  ghost function SweepCells(pts: seq<Point>, X: nat, Y: nat): int
    requires Descending(pts) && Within(pts, X, Y)
  {
    if pts == [] then 0
    else
      var p := pts[|pts| - 1];
      Copies(X - p.0, Y - p.1) + SweepCells(pts[..|pts| - 1], p.0, Y)
  }

  /** What the rightmost point adds to the covered cells: the block between it and the right edge. */
  lemma CoverSplits(pts: seq<Point>, X: nat, Y: nat, a: int, b: int)
    requires pts != [] && Descending(pts) && Within(pts, X, Y) && 0 <= a < X && 0 <= b < Y
    ensures var p := pts[|pts| - 1];
            Covered(pts, a, b) <==> if a < p.0 then Covered(pts[..|pts| - 1], a, b) else p.1 <= b
  {
    var n := |pts| - 1;
    var p, rest := pts[n], pts[..n];
    if a < p.0 {
      if Covered(rest, a, b) {
        var i :| 0 <= i < |rest| && rest[i].0 <= a && rest[i].1 <= b;
        assert pts[i].0 <= a && pts[i].1 <= b;
      }
      if Covered(pts, a, b) {
        var i :| 0 <= i < |pts| && pts[i].0 <= a && pts[i].1 <= b;
        assert rest[i].0 <= a && rest[i].1 <= b;
      }
    }
  }

  lemma RegionSplits(pts: seq<Point>, X: nat, Y: nat)
    requires pts != [] && Descending(pts) && Within(pts, X, Y)
    ensures var p := pts[|pts| - 1];
            && Region(pts, X, Y) == Region(pts[..|pts| - 1], p.0, Y) + Rectangle(p.0, X, p.1, Y)
            && Region(pts[..|pts| - 1], p.0, Y) !! Rectangle(p.0, X, p.1, Y)
  {
    var p, rest := pts[|pts| - 1], pts[..|pts| - 1];
    forall c: Point | 0 <= c.0 < X && 0 <= c.1 < Y
      ensures c in Region(pts, X, Y) <==> c in Region(rest, p.0, Y) || c in Rectangle(p.0, X, p.1, Y)
    {
      CoverSplits(pts, X, Y, c.0, c.1);
    }
  }

  lemma {:induction false} SweepCountsRegion(pts: seq<Point>, X: nat, Y: nat)
    requires Descending(pts) && Within(pts, X, Y)
    ensures |Region(pts, X, Y)| == SweepCells(pts, X, Y)
    decreases |pts|
  {
    if pts == [] {
      assert Region(pts, X, Y) == {};
    } else {
      var n := |pts| - 1;
      var p := pts[n];
      SweepCountsRegion(pts[..n], p.0, Y);
      assert |Region(pts, X, Y)| == |Region(pts[..n], p.0, Y)| + |Rectangle(p.0, X, p.1, Y)| by {
        RegionSplits(pts, X, Y);
        DisjointSizes(Region(pts, X, Y), Region(pts[..n], p.0, Y), Rectangle(p.0, X, p.1, Y));
      }
    }
  }
}
