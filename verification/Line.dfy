/** The line loop: which pixels it visits, and why it ends on the target. */
module Line {
  import opened Bytes
  import opened Primitives

  type i32 = x: int | -0x8000_0000 <= x < 0x8000_0000

  datatype Point = Point(x: int, y: int)

  /** A line by its start, its extent along each axis and the direction along each axis. */
  datatype Span = Span(x0: int, y0: int, dx: nat, dy: nat, stepX: int, stepY: int) {
    /** The point `i` steps along the first axis and `j` along the second. */
    function At(i: int, j: int): Point {
      Point(x0 + stepX * i, y0 + stepY * j)
    }

    function Longest(): nat {
      if dx > dy then dx else dy
    }
  }

  function SpanOf(x0: i32, y0: i32, x1: i32, y1: i32): (l: Span)
    ensures l.dx <= 0xffff_ffff && l.dy <= 0xffff_ffff && l.stepX in {-1, 1} && l.stepY in {-1, 1}
    ensures l.At(0, 0) == Point(x0, y0) && l.At(l.dx, l.dy) == Point(x1, y1)
  {
    var fromX: int, fromY: int, toX: int, toY: int := x0, y0, x1, y1;
    Span(fromX, fromY, if toX >= fromX then toX - fromX else fromX - toX, if toY >= fromY then toY - fromY
         else fromY - toY,
         if fromX < toX then 1 else -1, if fromY < toY then 1 else -1)
  }

  /** Twice the signed distance from the ideal line, scaled by the extents. */
  function Deviation(l: Span, i: nat, j: nat): int {
    2 * (j * l.dx - i * l.dy)
  }

  function Minus(n: nat): int {
    0 - n
  }

  /** On the way after `k` steps: the longer axis has moved every time, and no pixel is closer. */
  ghost predicate Near(l: Span, k: nat, i: nat, j: nat) {
    && i <= l.dx && j <= l.dy && k == (if l.dx > l.dy then i else j)
    && (l.dx > l.dy ==> Minus(l.dx) <= Deviation(l, i, j) < l.dx)
    && (l.dx < l.dy ==> Minus(l.dy) < Deviation(l, i, j) <= l.dy)
    && (l.dx == l.dy ==> i == j)
  }

  /** The code's doubled error term when `i` and `j` steps have been made. */
  function DoubledError(l: Span, i: nat, j: nat): int {
    Deviation(l, i + 1, j + 1)
  }

  // ----- the products, once and for all -----------------------------------------------------------

  lemma {:induction false} AtLeastOnce(m: nat, c: nat)
    requires c >= 1
    ensures m * c >= m
  {
    if c > 1 {
      AtLeastOnce(m, c - 1);
      assert m * c == m * (c - 1) + m;
    }
  }

  lemma DeviationSteps(l: Span, i: nat, j: nat)
    ensures Deviation(l, i + 1, j) == Deviation(l, i, j) - 2 * l.dy
    ensures Deviation(l, i, j + 1) == Deviation(l, i, j) + 2 * l.dx
    ensures Deviation(l, i + 1, j + 1) == Deviation(l, i, j) + 2 * l.dx - 2 * l.dy
  {
    assert (i + 1) * l.dy == i * l.dy + l.dy && (j + 1) * l.dx == j * l.dx + l.dx;
  }

  lemma ShortOfEndX(l: Span, i: nat)
    requires i < l.dx
    ensures Deviation(l, i, l.dy) >= 2 * l.dy
  {
    AtLeastOnce(l.dy, l.dx - i);
    assert l.dy * (l.dx - i) == l.dy * l.dx - i * l.dy;
  }

  lemma ShortOfEndY(l: Span, j: nat)
    requires j < l.dy
    ensures Deviation(l, l.dx, j) <= -2 * l.dx
  {
    AtLeastOnce(l.dx, l.dy - j);
    assert l.dx * (l.dy - j) == l.dx * l.dy - j * l.dx;
  }

  lemma Diagonal(l: Span, i: nat)
    requires l.dx == l.dy
    ensures Deviation(l, i, i) == 0
  {}

  // ----- the walk ---------------------------------------------------------------------------------

  /** When the longer axis has arrived, so has the shorter one. */
  lemma ArriveTogether(l: Span, i: nat, j: nat)
    requires Near(l, l.Longest(), i, j)
    ensures i == l.dx && j == l.dy
  {
    hide Deviation;
    if l.dx > l.dy && j < l.dy {
      ShortOfEndY(l, j);
    }
    if l.dx < l.dy && i < l.dx {
      ShortOfEndX(l, i);
    }
  }

  function NextI(l: Span, i: nat, j: nat): nat {
    if DoubledError(l, i, j) > Minus(l.dy) then i + 1 else i
  }

  function NextJ(l: Span, i: nat, j: nat): nat {
    if DoubledError(l, i, j) < l.dx then j + 1 else j
  }

  /** One step of the loop, seen on the counts, stays near; the error term never gets large. */
  lemma StepStaysNear(l: Span, k: nat, i: nat, j: nat)
    requires Near(l, k, i, j) && k < l.Longest()
    ensures Near(l, k + 1, NextI(l, i, j), NextJ(l, i, j))
    ensures Minus(3 * l.Longest()) <= DoubledError(l, i, j) <= 3 * l.Longest()
  {
    hide Deviation;
    DeviationSteps(l, i, j);
    if l.dx > l.dy && j == l.dy {
      ShortOfEndX(l, i);
    }
    if l.dx < l.dy && i == l.dx {
      ShortOfEndY(l, j);
    }
    if l.dx == l.dy {
      Diagonal(l, i);
    }
  }

  /** What the loop visits. */
  ghost predicate IsLine(l: Span, path: seq<Point>) {
    && |path| > 0
    && (forall k :: 0 <= k < |path| ==> Visited(l, k, path[k]))
    && (forall k, m :: 0 <= k && m == k + 1 && m < |path| ==>
          -1 <= path[m].x - path[k].x <= 1 && -1 <= path[m].y - path[k].y <= 1)
  }

  ghost predicate Visited(l: Span, k: nat, p: Point) {
    exists i: nat, j: nat :: Near(l, k, i, j) && p == l.At(i, j)
  }

  /** At each step there is only one near pixel, so the span alone determines the line. */
  lemma NearUnique(l: Span, k: nat, i: nat, j: nat, i': nat, j': nat)
    requires Near(l, k, i, j) && Near(l, k, i', j')
    ensures i == i' && j == j'
  {
    ProductsApart(l.dx, j, j');
    ProductsApart(l.dx, j', j);
    ProductsApart(l.dy, i, i');
    ProductsApart(l.dy, i', i);
  }

  lemma ProductsApart(n: nat, a: nat, b: nat)
    ensures a < b ==> b * n - a * n >= n
  {
    if a < b {
      AtLeastOnce(n, b - a);
      assert n * (b - a) == b * n - a * n;
    }
  }

  lemma LineUnique(l: Span, path: seq<Point>, other: seq<Point>)
    requires IsLine(l, path) && IsLine(l, other) && |path| == |other|
    ensures path == other
  {
    hide Near;
    forall k | 0 <= k < |path| ensures path[k] == other[k] {
      assert Visited(l, k, path[k]) && Visited(l, k, other[k]);
      var i: nat, j: nat :| Near(l, k, i, j) && path[k] == l.At(i, j);
      var i': nat, j': nat :| Near(l, k, i', j') && other[k] == l.At(i', j');
      NearUnique(l, k, i, j, i', j');
    }
  }

  /** Every pixel of a line lies in the box between its endpoints. */
  lemma LineInBox(l: Span, path: seq<Point>, k: nat)
    requires IsLine(l, path) && k < |path| && l.stepX in {-1, 1} && l.stepY in {-1, 1}
    ensures var a, b := l.At(0, 0), l.At(l.dx, l.dy);
      && Min(a.x, b.x) <= path[k].x <= Max(a.x, b.x) && Min(a.y, b.y) <= path[k].y <= Max(a.y, b.y)
  {
    hide Near, Deviation;
    assert Visited(l, k, path[k]);
    var i: nat, j: nat :| Near(l, k, i, j) && path[k] == l.At(i, j);
    NearInBox(l, k, i, j);
    if l.stepX == 1 {} else {}
    if l.stepY == 1 {} else {}
  }

  lemma NearInBox(l: Span, k: nat, i: nat, j: nat)
    requires Near(l, k, i, j)
    ensures i <= l.dx && j <= l.dy
  {}

  lemma PathGrows(l: Span, path: seq<Point>, k: nat, i: nat, j: nat)
    requires IsLine(l, path) && |path| == k + 1 && path[k] == l.At(i, j) && l.stepX in {-1, 1} && l.stepY in {-1, 1}
    requires Near(l, k, i, j) && k < l.Longest()
    ensures IsLine(l, path + [l.At(NextI(l, i, j), NextJ(l, i, j))])
  {
    hide Near, Deviation, DoubledError;
    StepStaysNear(l, k, i, j);
    var next := l.At(NextI(l, i, j), NextJ(l, i, j));
    assert Visited(l, k + 1, next);
    Adjacent(l, i, j);
    hide NextI, NextJ, Visited;
    assert forall m :: 0 <= m <= k ==> (path + [next])[m] == path[m];
  }

  lemma Adjacent(l: Span, i: nat, j: nat)
    requires l.stepX in {-1, 1} && l.stepY in {-1, 1}
    ensures var a, b := l.At(i, j), l.At(NextI(l, i, j), NextJ(l, i, j));
            -1 <= b.x - a.x <= 1 && -1 <= b.y - a.y <= 1
  {
    hide DoubledError;
    if l.stepX == 1 {} else {}
    if l.stepY == 1 {} else {}
  }

  lemma LineStarts(l: Span)
    ensures Near(l, 0, 0, 0) && IsLine(l, [l.At(0, 0)])
  {
    assert Deviation(l, 0, 0) == 0;
    assert Near(l, 0, 0, 0);
    assert Visited(l, 0, l.At(0, 0));
  }

  /**
    Draws exactly the pixels of the line that lie on the surface.  The loop ends, on the target, after
    as many steps as the longer extent has pixels, for every pair of 32-bit endpoints.
  */
  method DrawLine(s: array2<Color>, x0: i32, y0: i32, x1: i32, y1: i32, color: Color) returns (ghost path: seq<Point>)
    modifies s
    ensures IsLine(SpanOf(x0, y0, x1, y1), path) && |path| == SpanOf(x0, y0, x1, y1).Longest() + 1
    ensures path[0] == Point(x0, y0) && path[|path| - 1] == Point(x1, y1)
    ensures forall v, u :: 0 <= v < s.Length0 && 0 <= u < s.Length1 ==>
            s[v, u] == if Point(u, v) in path then color else old(s[v, u])
  {
    hide Near, Deviation, IsLine, DoubledError, NextI, NextJ, Span.At, SpanOf;
    var l := SpanOf(x0, y0, x1, y1);
    var x: int, y: int := x0, y0;
    var error: int := l.dx - l.dy;
    ghost var i: nat, j: nat := 0, 0;
    path := [Point(x, y)];
    LineStarts(l);
    ErrorStarts(l);
    Plot(s, x, y, color);
    while x != x1 || y != y1
      invariant |path| > 0 && path[0] == Point(x0, y0) && path[|path| - 1] == l.At(i, j) == Point(x, y)
      invariant IsLine(l, path) && Near(l, |path| - 1, i, j) && |path| - 1 <= l.Longest()
      invariant 2 * error == DoubledError(l, i, j)
      invariant forall v, u :: 0 <= v < s.Length0 && 0 <= u < s.Length1 ==>
                s[v, u] == if Point(u, v) in path then color else old(s[v, u])
      decreases l.Longest() + 1 - |path|
    {
      if |path| - 1 == l.Longest() {
        ArriveTogether(l, i, j);
      }
      assert |path| - 1 < l.Longest();
      StepStaysNear(l, |path| - 1, i, j);
      PathGrows(l, path, |path| - 1, i, j);
      ErrorSteps(l, i, j);
      PointSteps(l, i, j);
      var doubled := error * 2;
      assert -0x8000_0000_0000_0000 <= doubled < 0x8000_0000_0000_0000;
      if doubled > Minus(l.dy) {
        error := error - l.dy;
        x := x + l.stepX;
      }
      if doubled < l.dx {
        error := error + l.dx;
        y := y + l.stepY;
      }
      i, j := NextI(l, i, j), NextJ(l, i, j);
      path := path + [Point(x, y)];
      Plot(s, x, y, color);
    }
    OnlyAtTheEnd(l, |path| - 1, i, j);
  }

  method Plot(s: array2<Color>, x: int, y: int, color: Color)
    modifies s
    ensures forall v, u :: 0 <= v < s.Length0 && 0 <= u < s.Length1 ==>
            s[v, u] == if u == x && v == y then color else old(s[v, u])
  {
    if OnSurface(s, x, y) {
      s[y, x] := color;
    }
  }

  lemma ErrorStarts(l: Span)
    ensures DoubledError(l, 0, 0) == 2 * (l.dx - l.dy)
  {}

  lemma ErrorSteps(l: Span, i: nat, j: nat)
    ensures DoubledError(l, NextI(l, i, j), NextJ(l, i, j)) ==
            DoubledError(l, i, j) - (if DoubledError(l, i, j) > Minus(l.dy) then 2 * l.dy else 0)
                                  + (if DoubledError(l, i, j) < l.dx then 2 * l.dx else 0)
  {
    hide Deviation;
    DeviationSteps(l, i + 1, j + 1);
  }

  lemma PointSteps(l: Span, i: nat, j: nat)
    requires l.stepX in {-1, 1} && l.stepY in {-1, 1}
    ensures l.At(NextI(l, i, j), NextJ(l, i, j)) ==
            Point(l.At(i, j).x + (if DoubledError(l, i, j) > Minus(l.dy) then l.stepX else 0),
                  l.At(i, j).y + (if DoubledError(l, i, j) < l.dx then l.stepY else 0))
  {
    hide DoubledError;
    if l.stepX == 1 {} else {}
    if l.stepY == 1 {} else {}
  }

  lemma OnlyAtTheEnd(l: Span, k: nat, i: nat, j: nat)
    requires Near(l, k, i, j) && l.At(i, j) == l.At(l.dx, l.dy) && l.stepX in {-1, 1} && l.stepY in {-1, 1}
    ensures k == l.Longest()
  {
    hide Deviation;
    if l.stepX == 1 {} else {}
    if l.stepY == 1 {} else {}
  }
}
