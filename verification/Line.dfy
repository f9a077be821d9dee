/** Straight lines between two points: one pixel for each step along the longer axis. */
module Line {
  import opened Raster
  import opened Plotting
  import Window

  /**
   A line as it is drawn: along the x axis, or along the y axis if it is steep, always in the
   direction of growing coordinates. `step` is the direction of the other axis.
   */
  datatype Line = Line(steep: bool, x0: int, y0: int, dx: int, dy: int, step: int)
  {
    predicate Valid() {
      0 <= dy <= dx && (step == 1 || step == -1)
    }
  }

  function LineOf(x0: int, y0: int, x1: int, y1: int): Line {
    var steep := Abs(y1 - y0) > Abs(x1 - x0);
    var (a0, b0, a1, b1) := if steep then (y0, x0, y1, x1) else (x0, y0, x1, y1);
    var (a, b, a', b') := if a0 > a1 then (a1, b1, a0, b0) else (a0, b0, a1, b1);
    Line(steep, a, b, a' - a, Abs(b' - b), if b < b' then 1 else -1)
  }

  /** How far the line has moved along the other axis at step `k`. */
  function Minor(dx: nat, dy: nat, k: nat): int {
    if dx == 0 then 0 else (k * dy + (dx - 1) / 2) / dx
  }

  /** The pixel at step `k`. */
  function PointAt(l: Line, k: nat): (int, int)
    requires l.Valid()
  {
    var a, b := l.x0 + k, l.y0 + l.step * Minor(l.dx, l.dy, k);
    if l.steep then (b, a) else (a, b)
  }

  /** The pixels of a line, one for each step of the longer axis. */
  function Points(l: Line): seq<(int, int)>
    requires l.Valid()
  {
    seq(l.dx + 1, k requires 0 <= k => PointAt(l, k))
  }

  lemma LineOfIsValid(x0: int, y0: int, x1: int, y1: int)
    ensures LineOf(x0, y0, x1, y1).Valid()
  {
  }

  /** The error term that the drawing loop carries determines the step. */
  lemma MinorIs(dx: nat, dy: nat, k: nat, s: nat)
    requires dx > 0 && 0 <= dx / 2 - k * dy + s * dx < dx
    ensures Minor(dx, dy, k) == s
  {
    var r := dx - 1 - (dx / 2 - k * dy + s * dx);
    Halved(dx);
    assert k * dy + (dx - 1) / 2 == s * dx + r;
    ProductIsNat(k, dy);
    Window.QuotientIs(k * dy + (dx - 1) / 2, dx, s, r);
  }

  lemma Halved(n: nat)
    requires n > 0
    ensures n - 1 - n / 2 == (n - 1) / 2
  {
  }

  lemma ErrorTerm(dx: nat, dy: nat, k: nat)
    requires dx > 0
    ensures Minor(dx, dy, k) >= 0
    ensures 0 <= dx / 2 - k * dy + Minor(dx, dy, k) * dx < dx
  {
    var t := k * dy + (dx - 1) / 2;
    Halved(dx);
    ProductIsNat(k, dy);
    Window.RowsAndColumns(t, dx);
  }

  /** At every step the pixel is the nearest one to the line: `2 |k dy - s dx| <= dx`; of two equally near, the earlier. */
  lemma NearestPixel(dx: nat, dy: nat, k: nat)
    requires dy <= dx && k <= dx
    ensures 2 * Abs(k * dy - Minor(dx, dy, k) * dx) <= dx
    ensures dx > 0 ==> 0 < dx + 2 * (k * dy - Minor(dx, dy, k) * dx)
  {
    hide Minor;
    if dx > 0 {
      ErrorTerm(dx, dy, k);
      HalfBounds(dx, k * dy - Minor(dx, dy, k) * dx);
    } else {
      FlatLine(k);
    }
  }

  lemma HalfBounds(dx: nat, distance: int)
    requires dx > 0 && 0 <= dx / 2 - distance < dx
    ensures 0 < dx + 2 * distance && 2 * distance <= dx
  {
  }

  /** A line begins and ends at the two points it is drawn between. */
  lemma EndPoints(x0: int, y0: int, x1: int, y1: int)
    ensures var l := LineOf(x0, y0, x1, y1);
            && l.Valid() && |Points(l)| == l.dx + 1
            && {Points(l)[0], Points(l)[l.dx]} == {(x0, y0), (x1, y1)}
  {
    var l := LineOf(x0, y0, x1, y1);
    MinorEnds(l.dx, l.dy);
    assert Points(l)[0] == PointAt(l, 0);
    assert Points(l)[l.dx] == PointAt(l, l.dx);
  }

  lemma MinorEnds(dx: nat, dy: nat)
    requires dy <= dx
    ensures Minor(dx, dy, 0) == 0
    ensures Minor(dx, dy, dx) == dy
  {
    if dx > 0 {
      MinorIs(dx, dy, 0, 0);
      assert dx * dy == dy * dx;
      MinorIs(dx, dy, dx, dy);
    }
  }

  /** Along the longer axis every step is one pixel; along the other at most one. */
  lemma StepsAreSmall(dx: nat, dy: nat, k: nat)
    requires dy <= dx && k < dx
    ensures Minor(dx, dy, k + 1) == Minor(dx, dy, k) || Minor(dx, dy, k + 1) == Minor(dx, dy, k) + 1
  {
    hide Minor;
    ErrorTerm(dx, dy, k);
    NextMinor(dx, dy, k, Minor(dx, dy, k));
  }

  /** One round of the loop: the error term stays in range and says when to step. */
  lemma NextMinor(dx: nat, dy: nat, k: nat, s: nat)
    requires dy <= dx && dx > 0 && 0 <= dx / 2 - k * dy + s * dx < dx
    ensures var e := dx / 2 - k * dy + s * dx - dy;
            if e < 0 then
              0 <= dx / 2 - (k + 1) * dy + (s + 1) * dx == e + dx < dx && Minor(dx, dy, k + 1) == s + 1
            else
              0 <= dx / 2 - (k + 1) * dy + s * dx == e < dx && Minor(dx, dy, k + 1) == s
  {
    assert (k + 1) * dy == k * dy + dy;
    assert (s + 1) * dx == s * dx + dx;
    if dx / 2 - k * dy + s * dx - dy < 0 {
      MinorIs(dx, dy, k + 1, s + 1);
    } else {
      MinorIs(dx, dy, k + 1, s);
    }
  }

  // ----- drawing in runs

  /** What the loop knows before step `k`, having moved `s` along the other axis. */
  ghost predicate Carried(l: Line, k: nat, s: nat, err: int)
    requires l.Valid()
  {
    if l.dx == 0 then s == 0 && err == 0
    else 0 <= err < l.dx && err == l.dx / 2 - k * l.dy + s * l.dx
  }

  lemma CarriedStart(l: Line)
    requires l.Valid()
    ensures Carried(l, 0, 0, l.dx / 2)
  {
  }

  lemma CarriedStep(l: Line, k: nat, s: nat, err: int)
    requires l.Valid() && Carried(l, k, s, err)
    ensures Minor(l.dx, l.dy, k) == s
    ensures if err - l.dy < 0 then Carried(l, k + 1, s + 1, err - l.dy + l.dx) else Carried(l, k + 1, s, err - l.dy)
  {
    hide Minor;
    if l.dx == 0 {
      MinorEnds(0, 0);
      FlatLine(k);
    } else {
      MinorIs(l.dx, l.dy, k, s);
      NextMinor(l.dx, l.dy, k, s);
    }
  }

  lemma FlatLine(k: nat)
    ensures Minor(0, 0, k) == 0
  {
  }

  /** The first `m` pixels of a line. */
  predicate OnLine(l: Line, m: int, x: int, y: int)
    requires l.Valid()
  {
    var (a, b) := if l.steep then (y, x) else (x, y);
    0 <= a - l.x0 < m && b == l.y0 + l.step * Minor(l.dx, l.dy, a - l.x0)
  }

  ghost function InLine(v: View, l: Line, m: int): Region
    requires l.Valid()
  {
    (px, py) => v.Shows(px, py) && OnLine(l, m, px - v.xDatum, py - v.yDatum)
  }

  /** A run of `n` pixels from step `m` on. */
  function Run(v: View, l: Line, m: int, n: int, y: int): Region {
    if l.steep then Clipped(v, y, l.x0 + m, 1, n) else Clipped(v, l.x0 + m, y, n, 1)
  }

  lemma RunJoins(g: Geometry, v: View, base: Image, now: Image, after: Image, l: Line, m: nat, n: nat, s: int, c: nat)
    requires l.Valid() && Painted(g, base, now, InLine(v, l, m), c)
    requires Painted(g, now, after, Run(v, l, m, n, l.y0 + l.step * s), c)
    requires forall k: nat :: m <= k < m + n ==> Minor(l.dx, l.dy, k) == s
    ensures Painted(g, base, after, InLine(v, l, m + n), c)
  {
    hide Painted, Minor;
    PaintMore(g, base, now, after, InLine(v, l, m), Run(v, l, m, n, l.y0 + l.step * s), InLine(v, l, m + n), c);
  }

  lemma PointsAreOnLine(l: Line, x: int, y: int)
    requires l.Valid()
    ensures (x, y) in Points(l) <==> OnLine(l, l.dx + 1, x, y)
  {
    hide Minor;
    var k := (if l.steep then y else x) - l.x0;
    if OnLine(l, l.dx + 1, x, y) {
      assert Points(l)[k] == (x, y);
    }
    if (x, y) in Points(l) {
      var j :| 0 <= j < |Points(l)| && Points(l)[j] == (x, y);
      assert PointAt(l, j) == (x, y);
    }
  }

  /** A line drawn in runs leaves the array that its pixels drawn one by one leave. */
  lemma LineIsPlotted(g: Geometry, v: View, before: Image, after: Image, l: Line, c: nat)
    requires l.Valid() && v.Inside(g.width, g.height) && (g.bits == 4 ==> c < 16)
    requires Painted(g, before, after, InLine(v, l, l.dx + 1), c)
    ensures after == PlotAll(g, v, before, Points(l), c)
  {
    hide Minor, Points, OnLine, PlotAll, Pixel, At, Cell, Element;
    var r := (px, py) => v.Shows(px, py) && (px - v.xDatum, py - v.yDatum) in Points(l);
    PlotAllPaints(g, v, before, Points(l), c);
    forall px, py
      ensures r(px, py) <==> InLine(v, l, l.dx + 1)(px, py)
    {
      PointsAreOnLine(l, px - v.xDatum, py - v.yDatum);
    }
    PaintedAs(g, before, after, InLine(v, l, l.dx + 1), r, c);
    PaintedIsUnique(g, before, after, PlotAll(g, v, before, Points(l), c), r, c);
  }
}
