/** Scrolling: a rectangle moved over itself, row by row, and the gap filled. */
module Scroll {
  import opened Raster
  import opened Plotting

  /** What is moved from a place: with 4 bits, half a byte read through the viewport, which shows 15 outside. */
  ghost function Source(g: Geometry, v: View, img: Image, x: int, y: int): nat
    requires Fits(g, img)
  {
    if !g.Contains(x, y) || (g.bits == 4 && !v.Shows(x, y)) then 15
    else if g.bits == 4 then Pixel(g, img, x, y) % 16
    else Pixel(g, img, x, y)
  }

  /** What is read: the pixel itself, except that with 4 bits nothing outside the viewport is seen. */
  lemma SourceIs(g: Geometry, v: View, img: Image, x: int, y: int)
    requires Fits(g, img)
    ensures g.Contains(x, y) && (g.bits != 4 || (v.Shows(x, y) && Nibbles(g, img))) ==> Source(g, v, img, x, y) == Pixel(g, img, x, y)
    ensures g.bits == 4 && !v.Shows(x, y) ==> Source(g, v, img, x, y) == 0xFF % 16
  {
    hide Pixel;
  }

  /** A pixel of the region holds what was at the place `dx` to the left and `dy` above it. */
  ghost predicate ShiftedAt(g: Geometry, v: View, base: Image, img: Image, r: Region, dx: int, dy: int, x: int, y: int)
    requires Fits(g, base) && Fits(g, img) && g.Contains(x, y)
  {
    Pixel(g, img, x, y) == if r(x, y) then Source(g, v, base, x - dx, y - dy) else Pixel(g, base, x, y)
  }

  ghost predicate Shifted(g: Geometry, v: View, base: Image, img: Image, r: Region, dx: int, dy: int) {
    && Fits(g, base) && Fits(g, img)
    && (forall x, y :: g.Contains(x, y) ==> ShiftedAt(g, v, base, img, r, dx, dy, x, y))
    && SpareKept(g, base, img)
  }

  /**
   A pixel of the rectangle holds what the pixel at the distance held, if that one is in the
   rectangle too, and the gap colour otherwise. Outside nothing changes.
   */
  ghost predicate ScrolledAt(g: Geometry, base: Image, img: Image, rect: Region, dx: int, dy: int, gap: nat, x: int, y: int)
    requires Fits(g, base) && Fits(g, img) && g.Contains(x, y)
  {
    Pixel(g, img, x, y) ==
    if !rect(x, y) then Pixel(g, base, x, y)
    else if g.Contains(x - dx, y - dy) && rect(x - dx, y - dy) then Pixel(g, base, x - dx, y - dy)
    else gap
  }

  ghost predicate Scrolled(g: Geometry, base: Image, img: Image, rect: Region, dx: int, dy: int, gap: nat) {
    && Fits(g, base) && Fits(g, img)
    && (forall x, y :: g.Contains(x, y) ==> ScrolledAt(g, base, img, rect, dx, dy, gap, x, y))
    && SpareKept(g, base, img)
  }

  lemma ShiftedNothing(g: Geometry, v: View, img: Image, r: Region, dx: int, dy: int)
    requires Fits(g, img) && forall x, y :: g.Contains(x, y) ==> !r(x, y)
    ensures Shifted(g, v, img, img, r, dx, dy)
  {
    hide Pixel, At, Cell, Element;
    PaintedNothing(g, img, r, 0);
  }

  /** The region matters only inside the image. */
  lemma ShiftedAs(g: Geometry, v: View, base: Image, img: Image, r: Region, r': Region, dx: int, dy: int)
    requires Shifted(g, v, base, img, r, dx, dy)
    requires forall x, y :: g.Contains(x, y) ==> (r(x, y) <==> r'(x, y))
    ensures Shifted(g, v, base, img, r', dx, dy)
  {
    hide Pixel, At, Cell, Element, Source;
    forall x, y | g.Contains(x, y)
      ensures ShiftedAt(g, v, base, img, r', dx, dy, x, y)
    {
      assert ShiftedAt(g, v, base, img, r, dx, dy, x, y);
    }
  }

  /** A row moved: its pixels hold those of the other row, overlapping or not. */
  lemma MovedPixel(g: Geometry, now: Image, after: Image, tx: int, ty: int, fx: int, fy: int, w: nat, px: int, py: int)
    requires Fits(g, now) && g.bits != 4
    requires 0 <= tx && tx + w <= g.width && 0 <= ty < g.height && 0 <= fx && fx + w <= g.width && 0 <= fy < g.height
    requires 0 <= At(g, tx, ty) && 0 <= At(g, fx, fy) && SpanMoved(now, after, At(g, tx, ty), At(g, fx, fy), w)
    requires g.Contains(px, py)
    ensures Fits(g, after)
    ensures py == ty && tx <= px < tx + w ==> Pixel(g, after, px, py) == Pixel(g, now, fx + (px - tx), fy)
    ensures !(py == ty && tx <= px < tx + w) ==> Pixel(g, after, px, py) == Pixel(g, now, px, py)
  {
    hide At, g.Size;
    AtInRange(g, px, py);
    AtInRow(g, px, py, tx, ty, w);
    if py == ty && tx <= px < tx + w {
      AtShift(g, tx, ty, px - tx);
      AtShift(g, fx, fy, px - tx);
      AtInRange(g, fx + (px - tx), fy);
    }
  }

  lemma MovedSpare(g: Geometry, now: Image, after: Image, tx: int, ty: int, from: nat, w: nat)
    requires Fits(g, now) && g.bits != 4
    requires 0 <= tx && tx + w <= g.width && 0 <= ty < g.height
    requires 0 <= At(g, tx, ty) && SpanMoved(now, after, At(g, tx, ty), from, w)
    ensures Fits(g, after) && SpareKept(g, now, after)
  {
    hide At, g.Size;
    if w > 0 {
      AtInRange(g, tx + w - 1, ty);
      AtShift(g, tx, ty, w - 1);
    }
  }

  /** One more row, whose source row is not among those already overwritten. */
  lemma ShiftRow(g: Geometry, v: View, base: Image, now: Image, after: Image, r: Region, whole: Region,
                 tx: int, ty: int, w: nat, dx: int, dy: int)
    requires Shifted(g, v, base, now, r, dx, dy) && g.bits != 4
    requires 0 <= tx && tx + w <= g.width && 0 <= ty < g.height
    requires 0 <= tx - dx && tx - dx + w <= g.width && 0 <= ty - dy < g.height
    requires 0 <= At(g, tx, ty) && 0 <= At(g, tx - dx, ty - dy)
    requires SpanMoved(now, after, At(g, tx, ty), At(g, tx - dx, ty - dy), w)
    requires forall x, y :: g.Contains(x, y) ==> (whole(x, y) <==> r(x, y) || Rect(tx, ty, w, 1)(x, y))
    requires forall x, y :: r(x, y) ==> y != ty - dy
    ensures Shifted(g, v, base, after, whole, dx, dy)
  {
    hide Pixel, At, Cell, Element, SpanMoved;
    MovedSpare(g, now, after, tx, ty, At(g, tx - dx, ty - dy), w);
    forall x, y | g.Contains(x, y)
      ensures ShiftedAt(g, v, base, after, whole, dx, dy, x, y)
    {
      MovedPixel(g, now, after, tx, ty, tx - dx, ty - dy, w, x, y);
      assert ShiftedAt(g, v, base, now, r, dx, dy, x, y);
      if Rect(tx, ty, w, 1)(x, y) {
        assert ShiftedAt(g, v, base, now, r, dx, dy, x - dx, y - dy);
      }
    }
  }

  /** One more pixel, whose source is not among those already overwritten. */
  lemma ShiftPixel(g: Geometry, v: View, base: Image, now: Image, after: Image, r: Region, whole: Region,
                   px: int, py: int, dx: int, dy: int)
    requires Shifted(g, v, base, now, r, dx, dy) && v.Inside(g.width, g.height)
    requires !r(px - dx, py - dy)
    requires Painted(g, now, after, (x, y) => v.Shows(x, y) && x == px && y == py, Source(g, v, now, px - dx, py - dy))
    requires forall x, y :: g.Contains(x, y) ==> (whole(x, y) <==> r(x, y) || (v.Shows(x, y) && x == px && y == py))
    ensures Shifted(g, v, base, after, whole, dx, dy)
  {
    hide Pixel, At, Cell, Element;
    if g.Contains(px - dx, py - dy) {
      assert ShiftedAt(g, v, base, now, r, dx, dy, px - dx, py - dy);
    }
    forall x, y | g.Contains(x, y)
      ensures ShiftedAt(g, v, base, after, whole, dx, dy, x, y)
    {
      assert ShiftedAt(g, v, base, now, r, dx, dy, x, y);
    }
  }

  /** The row reached after `k` rows: downwards, or upwards when the content moves down. */
  function RowAfter(ty: int, k: int, dy: int): int {
    if dy <= 0 then ty + k else ty - k
  }

  /** The first of `k` rows from `ty` on, in that direction. */
  function TopRow(ty: int, k: int, dy: int): int {
    if dy <= 0 then ty else ty - k + 1
  }

  /** The first `k` rows moved to. */
  function RowsMoved(tx: int, ty: int, w: int, k: int, dy: int): Region {
    Rect(tx, TopRow(ty, k, dy), w, k)
  }

  /** Row by row in the right direction no row is overwritten before it is moved. */
  lemma NextRow(g: Geometry, v: View, base: Image, now: Image, after: Image, tx: int, ty: int, w: nat, k: nat, dx: int, dy: int)
    requires g.Valid() && g.bits != 4 && Shifted(g, v, base, now, RowsMoved(tx, ty, w, k, dy), dx, dy)
    requires var y := RowAfter(ty, k, dy);
      && 0 <= tx && tx + w <= g.width && 0 <= y < g.height
      && 0 <= tx - dx && tx - dx + w <= g.width && 0 <= y - dy < g.height
      && 0 <= At(g, tx, y) && 0 <= At(g, tx - dx, y - dy)
      && SpanMoved(now, after, At(g, tx, y), At(g, tx - dx, y - dy), w)
    ensures Shifted(g, v, base, after, RowsMoved(tx, ty, w, k + 1, dy), dx, dy)
  {
    hide Shifted, At, SpanMoved, g.Size;
    var y := RowAfter(ty, k, dy);
    ShiftRow(g, v, base, now, after, RowsMoved(tx, ty, w, k, dy), RowsMoved(tx, ty, w, k + 1, dy), tx, y, w, dx, dy);
  }

  // ----- pixel by pixel, in viewport coordinates

  /** The column reached after `m` pixels: to the right, or to the left when the content moves right. */
  function ColumnAfter(tx: int, m: int, dx: int): int {
    if dx <= 0 then tx + m else tx - m
  }

  function LeftColumn(tx: int, m: int, dx: int): int {
    if dx <= 0 then tx else tx - m + 1
  }

  /** Among `k` whole rows and `m` pixels of the next one. */
  predicate InPixels(tx: int, ty: int, w: int, k: int, m: int, dx: int, dy: int, x: int, y: int) {
    || (LeftColumn(tx, w, dx) <= x < LeftColumn(tx, w, dx) + w && TopRow(ty, k, dy) <= y < TopRow(ty, k, dy) + k)
    || (LeftColumn(tx, m, dx) <= x < LeftColumn(tx, m, dx) + m && y == RowAfter(ty, k, dy))
  }

  function PixelsMoved(v: View, tx: int, ty: int, w: int, k: int, m: int, dx: int, dy: int): Region {
    (x, y) => v.Shows(x, y) && InPixels(tx, ty, w, k, m, dx, dy, x - v.xDatum, y - v.yDatum)
  }

  lemma InPixelsGrow(tx: int, ty: int, w: nat, k: nat, m: nat, dx: int, dy: int, x: int, y: int)
    requires m < w
    ensures InPixels(tx, ty, w, k, m + 1, dx, dy, x, y) <==>
            InPixels(tx, ty, w, k, m, dx, dy, x, y) || (x == ColumnAfter(tx, m, dx) && y == RowAfter(ty, k, dy))
    ensures !InPixels(tx, ty, w, k, m, dx, dy, ColumnAfter(tx, m, dx) - dx, RowAfter(ty, k, dy) - dy)
  {
  }

  /** In the right direction no pixel is overwritten before it is moved. */
  lemma NextPixel(g: Geometry, v: View, base: Image, now: Image, after: Image,
                  tx: int, ty: int, w: nat, k: nat, m: nat, dx: int, dy: int)
    requires m < w && v.Inside(g.width, g.height) && Fits(g, now)
    requires Shifted(g, v, base, now, PixelsMoved(v, tx, ty, w, k, m, dx, dy), dx, dy)
    requires var x, y := ColumnAfter(tx, m, dx), RowAfter(ty, k, dy);
      Painted(g, now, after, Clipped(v, x, y, 1, 1), Source(g, v, now, x + v.xDatum - dx, y + v.yDatum - dy))
    ensures Shifted(g, v, base, after, PixelsMoved(v, tx, ty, w, k, m + 1, dx, dy), dx, dy)
  {
    hide Shifted, Painted, Source, g.Size, InPixels, ColumnAfter, RowAfter;
    var px, py := ColumnAfter(tx, m, dx) + v.xDatum, RowAfter(ty, k, dy) + v.yDatum;
    PaintedAs(g, now, after, Clipped(v, ColumnAfter(tx, m, dx), RowAfter(ty, k, dy), 1, 1),
              (x, y) => v.Shows(x, y) && x == px && y == py, Source(g, v, now, px - dx, py - dy));
    forall x, y
      ensures PixelsMoved(v, tx, ty, w, k, m + 1, dx, dy)(x, y) <==>
              PixelsMoved(v, tx, ty, w, k, m, dx, dy)(x, y) || (v.Shows(x, y) && x == px && y == py)
    {
      InPixelsGrow(tx, ty, w, k, m, dx, dy, x - v.xDatum, y - v.yDatum);
    }
    InPixelsGrow(tx, ty, w, k, m, dx, dy, px, py);
    assert px - dx - v.xDatum == ColumnAfter(tx, m, dx) - dx && py - dy - v.yDatum == RowAfter(ty, k, dy) - dy;
    ShiftPixel(g, v, base, now, after, PixelsMoved(v, tx, ty, w, k, m, dx, dy),
               PixelsMoved(v, tx, ty, w, k, m + 1, dx, dy), px, py, dx, dy);
  }

  /** A row finished is a row more. */
  lemma NextLine(g: Geometry, v: View, base: Image, img: Image, tx: int, ty: int, w: nat, k: nat, dx: int, dy: int)
    requires Shifted(g, v, base, img, PixelsMoved(v, tx, ty, w, k, w, dx, dy), dx, dy)
    ensures Shifted(g, v, base, img, PixelsMoved(v, tx, ty, w, k + 1, 0, dx, dy), dx, dy)
  {
    hide Shifted;
    ShiftedAs(g, v, base, img, PixelsMoved(v, tx, ty, w, k, w, dx, dy), PixelsMoved(v, tx, ty, w, k + 1, 0, dx, dy), dx, dy);
  }

  // ----- the whole scroll

  /** A scroll rectangle and the distance it is scrolled by. */
  datatype Job = Job(sx: int, sy: int, sw: int, sh: int, dx: int, dy: int)
  {
    predicate Far() {
      Abs(dx) >= sw || Abs(dy) >= sh
    }

    predicate Inside(g: Geometry) {
      0 <= sx && 0 < sw && sx + sw <= g.width && 0 <= sy && 0 < sh && sy + sh <= g.height
    }

    function Area(): Region {
      Rect(sx, sy, sw, sh)
    }

    predicate Contains(x: int, y: int) {
      sx <= x < sx + sw && sy <= y < sy + sh
    }

    /** A pixel of the rectangle with no source in it. */
    predicate InGap(x: int, y: int) {
      Contains(x, y) && !Contains(x - dx, y - dy)
    }
  }

  /** The pixels moved to. With 4 bits, moving right, they lie one column too far to the right. */
  function Moves(g: Geometry, v: View, j: Job): Region {
    var left, top, w, h := if j.dx > 0 then j.sx + j.dx else j.sx, if j.dy > 0 then j.sy + j.dy else j.sy, j.sw - Abs(j.dx), j.sh - Abs(j.dy);
    if j.Far() then (x, y) => false
    else if g.bits == 4 then Clipped(v, if j.dx > 0 then left + 1 else left, top, w, h)
    else Rect(left, top, w, h)
  }

  /** The columns filled. */
  function FillsX(v: View, j: Job): Region {
    if j.dx > 0 then Clipped(v, j.sx, j.sy, j.dx, j.sh) else Clipped(v, j.sx + j.sw + j.dx, j.sy, -j.dx, j.sh)
  }

  /** The rows filled. */
  function FillsY(v: View, j: Job): Region {
    if j.dy > 0 then Clipped(v, j.sx, j.sy, j.sw, j.dy) else Clipped(v, j.sx, j.sy + j.sh + j.dy, j.sw, -j.dy)
  }

  predicate Filled(v: View, j: Job, x: int, y: int) {
    if j.Far() then Clipped(v, j.sx, j.sy, j.sw, j.sh)(x, y) else FillsX(v, j)(x, y) || FillsY(v, j)(x, y)
  }

  ghost predicate OutcomeAt(g: Geometry, v: View, base: Image, img: Image, j: Job, gap: nat, x: int, y: int)
    requires Fits(g, base) && Fits(g, img) && g.Contains(x, y)
  {
    Pixel(g, img, x, y) ==
    if Filled(v, j, x, y) then gap
    else if Moves(g, v, j)(x, y) then Source(g, v, base, x - j.dx, y - j.dy)
    else Pixel(g, base, x, y)
  }

  /** What a scroll does in every case: pixels moved, then filled, the others kept. */
  ghost predicate Outcome(g: Geometry, v: View, base: Image, img: Image, j: Job, gap: nat) {
    && Fits(g, base) && Fits(g, img)
    && (forall x, y :: g.Contains(x, y) ==> OutcomeAt(g, v, base, img, j, gap, x, y))
    && SpareKept(g, base, img)
  }

  /** Moving and then filling columns and rows. */
  lemma ScrollCloses(g: Geometry, v: View, base: Image, moved: Image, filled: Image, after: Image, j: Job, gap: nat)
    requires !j.Far()
    requires Shifted(g, v, base, moved, Moves(g, v, j), j.dx, j.dy)
    requires Painted(g, moved, filled, FillsX(v, j), gap)
    requires Painted(g, filled, after, FillsY(v, j), gap)
    ensures Outcome(g, v, base, after, j, gap)
  {
    hide Pixel, At, Cell, Element, Moves, FillsX, FillsY, Source;
    forall x, y | g.Contains(x, y)
      ensures OutcomeAt(g, v, base, after, j, gap, x, y)
    {
      assert ShiftedAt(g, v, base, moved, Moves(g, v, j), j.dx, j.dy, x, y);
    }
  }

  /** Moving further than the rectangle is wide or high only fills. */
  lemma ScrollAway(g: Geometry, v: View, base: Image, after: Image, j: Job, gap: nat)
    requires j.Far() && Painted(g, base, after, Clipped(v, j.sx, j.sy, j.sw, j.sh), gap)
    ensures Outcome(g, v, base, after, j, gap)
  {
    hide Pixel, At, Cell, Element, Source;
    forall x, y | g.Contains(x, y)
      ensures OutcomeAt(g, v, base, after, j, gap, x, y)
    {
    }
  }

  /** Scrolling keeps to half bytes. */
  lemma OutcomeKeepsNibbles(g: Geometry, v: View, base: Image, img: Image, j: Job, gap: nat)
    requires Outcome(g, v, base, img, j, gap) && Nibbles(g, base) && (g.bits == 4 ==> gap < 16)
    ensures Nibbles(g, img)
  {
    hide Pixel, At, Cell, Element, Moves, Filled;
    if g.bits == 4 {
      forall x, y | g.Contains(x, y)
        ensures Pixel(g, img, x, y) < 16
      {
        assert OutcomeAt(g, v, base, img, j, gap, x, y);
      }
    }
  }

  // ----- when that is a scroll of the rectangle

  /** The fills cover exactly the gap. */
  ghost predicate FillsAreGap(g: Geometry, v: View, j: Job) {
    forall x, y :: g.Contains(x, y) ==> (Filled(v, j, x, y) <==> j.InGap(x, y))
  }

  /** With 8 and 16 bits the rectangle is scrolled if the fills cover exactly the gap. */
  lemma FilledGapScrolls(g: Geometry, v: View, base: Image, img: Image, j: Job, gap: nat)
    requires g.bits != 4 && j.Inside(g) && Outcome(g, v, base, img, j, gap) && FillsAreGap(g, v, j)
    ensures Scrolled(g, base, img, j.Area(), j.dx, j.dy, gap)
  {
    hide Pixel, At, Cell, Element, Filled, OutcomeAt, ScrolledAt;
    forall x, y | g.Contains(x, y)
      ensures ScrolledAt(g, base, img, j.Area(), j.dx, j.dy, gap, x, y)
    {
      FilledGapPixel(g, v, base, img, j, gap, x, y);
    }
  }

  lemma FilledGapPixel(g: Geometry, v: View, base: Image, img: Image, j: Job, gap: nat, x: int, y: int)
    requires g.bits != 4 && j.Inside(g) && Fits(g, base) && Fits(g, img) && g.Contains(x, y)
    requires OutcomeAt(g, v, base, img, j, gap, x, y) && (Filled(v, j, x, y) <==> j.InGap(x, y))
    ensures ScrolledAt(g, base, img, j.Area(), j.dx, j.dy, gap, x, y)
  {
    hide Pixel, At, Cell, Element, Filled, g.Size;
  }

  /** And only then: a plain image in another colour shows every difference. */
  lemma ScrollFillsGap(g: Geometry, v: View, base: Image, img: Image, j: Job, gap: nat, plain: nat)
    requires g.bits != 4 && j.Inside(g) && Outcome(g, v, base, img, j, gap) && plain != gap
    requires forall x, y :: g.Contains(x, y) ==> Pixel(g, base, x, y) == plain
    requires Scrolled(g, base, img, j.Area(), j.dx, j.dy, gap)
    ensures FillsAreGap(g, v, j)
  {
    hide Pixel, At, Cell, Element, Filled;
    forall x, y | g.Contains(x, y)
      ensures Filled(v, j, x, y) <==> j.InGap(x, y)
    {
      assert OutcomeAt(g, v, base, img, j, gap, x, y);
      assert ScrolledAt(g, base, img, j.Area(), j.dx, j.dy, gap, x, y);
    }
  }

  /**
   The fills cover exactly the gap when there is none, or when the viewport counts from the corner of
   the sprite and shows all of it; and in no other case.
   */
  lemma FillsAreGapIff(g: Geometry, v: View, j: Job)
    requires j.Inside(g) && v.Inside(g.width, g.height)
    ensures FillsAreGap(g, v, j) <==>
            || (j.dx == 0 && j.dy == 0)
            || (v.xDatum == 0 && v.yDatum == 0 && forall x, y :: j.InGap(x, y) ==> v.Shows(x, y))
  {
    if FillsAreGap(g, v, j) && !(j.dx == 0 && j.dy == 0) {
      DatumIsZero(g, v, j);
      forall x, y | j.InGap(x, y)
        ensures v.Shows(x, y)
      {
        assert g.Contains(x, y);
        assert Filled(v, j, x, y);
      }
    }
  }

  /** A displaced gap is no longer the gap: it misses the edge it is moved away from. */
  lemma DatumIsZero(g: Geometry, v: View, j: Job)
    requires j.Inside(g) && FillsAreGap(g, v, j) && !(j.dx == 0 && j.dy == 0)
    ensures v.xDatum == 0 && v.yDatum == 0
  {
    var right := if j.dx > 0 && j.dy == 0 && !j.Far() then j.sx + j.dx - 1 else j.sx + j.sw - 1;
    var left := if j.dx < 0 && j.dy == 0 && !j.Far() then j.sx + j.sw + j.dx else j.sx;
    var bottom := if j.dy > 0 && j.dx == 0 && !j.Far() then j.sy + j.dy - 1 else j.sy + j.sh - 1;
    var top := if j.dy < 0 && j.dx == 0 && !j.Far() then j.sy + j.sh + j.dy else j.sy;
    var row := if j.dy < 0 && !j.Far() then j.sy + j.sh - 1 else j.sy;
    var column := if j.dx < 0 && !j.Far() then j.sx + j.sw - 1 else j.sx;
    GapInFills(g, v, j, left, row);
    GapInFills(g, v, j, right, row);
    GapInFills(g, v, j, column, top);
    GapInFills(g, v, j, column, bottom);
  }

  lemma GapInFills(g: Geometry, v: View, j: Job, x: int, y: int)
    requires j.Inside(g) && FillsAreGap(g, v, j) && j.InGap(x, y)
    ensures j.Contains(x - v.xDatum, y - v.yDatum)
    ensures !j.Far() ==> j.InGap(x - v.xDatum, y - v.yDatum)
  {
    assert g.Contains(x, y);
    assert Filled(v, j, x, y);
  }

  /** Through the viewport a sprite begins with, it is scrolled. */
  lemma DefaultViewportScrolls(g: Geometry, v: View, base: Image, img: Image, j: Job, gap: nat)
    requires g.bits != 4 && j.Inside(g) && v == ViewportOf(g.width, g.height, 0, 0, g.width, g.height, true)
    requires Outcome(g, v, base, img, j, gap)
    ensures Scrolled(g, base, img, j.Area(), j.dx, j.dy, gap)
  {
    hide Outcome, Scrolled, FillsAreGap;
    FillsAreGapIff(g, v, j);
    FilledGapScrolls(g, v, base, img, j, gap);
  }

  /** With 4 bits the rectangle counts from the viewport's corner; moving left or not at all it is scrolled. */
  lemma NibblesScroll(g: Geometry, v: View, base: Image, img: Image, j: Job, gap: nat)
    requires g.bits == 4 && v.Inside(g.width, g.height) && Outcome(g, v, base, img, j, gap) && Nibbles(g, base)
    requires v.Encloses(j.sx + v.xDatum, j.sy + v.yDatum, j.sw, j.sh) && (j.dx <= 0 || j.Far())
    ensures Scrolled(g, base, img, Rect(j.sx + v.xDatum, j.sy + v.yDatum, j.sw, j.sh), j.dx, j.dy, gap)
  {
    hide Pixel, At, Cell, Element;
    var area := Rect(j.sx + v.xDatum, j.sy + v.yDatum, j.sw, j.sh);
    forall x, y | g.Contains(x, y)
      ensures ScrolledAt(g, base, img, area, j.dx, j.dy, gap, x, y)
    {
      assert OutcomeAt(g, v, base, img, j, gap, x, y);
    }
  }

  /** The rows that are moved to. */
  predicate RowIsMoved(v: View, j: Job, y: int) {
    j.sy + v.yDatum <= y < j.sy + v.yDatum + j.sh && j.sy + v.yDatum <= y - j.dy < j.sy + v.yDatum + j.sh
  }

  /**
   Moving right, the first column moved to is missed and the column behind the rectangle is hit: it is
   a scroll exactly for images in which both columns happen to look right already.
   */
  lemma NibblesMissAColumn(g: Geometry, v: View, base: Image, img: Image, j: Job, gap: nat)
    requires g.bits == 4 && v.Inside(g.width, g.height) && Outcome(g, v, base, img, j, gap) && Nibbles(g, base)
    requires v.Encloses(j.sx + v.xDatum, j.sy + v.yDatum, j.sw, j.sh) && 0 < j.dx && !j.Far()
    ensures var left, right := j.sx + v.xDatum, j.sx + v.xDatum + j.sw;
            Scrolled(g, base, img, Rect(left, j.sy + v.yDatum, j.sw, j.sh), j.dx, j.dy, gap) <==>
            forall y :: RowIsMoved(v, j, y) ==>
              && Pixel(g, base, left + j.dx, y) == Pixel(g, base, left, y - j.dy)
              && (v.Shows(right, y) ==> Pixel(g, base, right, y) == Pixel(g, base, right - j.dx, y - j.dy))
  {
    hide Pixel, At, Cell, Element, OutcomeAt, ScrolledAt, g.Size;
    var left, right := j.sx + v.xDatum, j.sx + v.xDatum + j.sw;
    var area := Rect(left, j.sy + v.yDatum, j.sw, j.sh);
    forall x, y | g.Contains(x, y)
      ensures ScrolledAt(g, base, img, area, j.dx, j.dy, gap, x, y) <==> ColumnsLookRight(g, v, base, j, x, y)
    {
      NibblePixel(g, v, base, img, j, gap, x, y);
    }
    forall y | RowIsMoved(v, j, y)
      ensures g.Contains(left + j.dx, y) && (v.Shows(right, y) ==> g.Contains(right, y))
    {
    }
  }

  /** The pixel is in neither of the two columns, or already holds what belongs there. */
  ghost predicate ColumnsLookRight(g: Geometry, v: View, base: Image, j: Job, x: int, y: int)
    requires g.bits == 4 && v.Inside(g.width, g.height) && Fits(g, base)
    requires v.Encloses(j.sx + v.xDatum, j.sy + v.yDatum, j.sw, j.sh) && 0 < j.dx && !j.Far()
  {
    var left, right := j.sx + v.xDatum, j.sx + v.xDatum + j.sw;
    RowIsMoved(v, j, y) ==>
      && (x == left + j.dx ==> Pixel(g, base, left + j.dx, y) == Pixel(g, base, left, y - j.dy))
      && (x == right && v.Shows(right, y) ==> Pixel(g, base, right, y) == Pixel(g, base, right - j.dx, y - j.dy))
  }

  lemma NibblePixel(g: Geometry, v: View, base: Image, img: Image, j: Job, gap: nat, x: int, y: int)
    requires g.bits == 4 && v.Inside(g.width, g.height) && Fits(g, base) && Fits(g, img) && g.Contains(x, y)
    requires v.Encloses(j.sx + v.xDatum, j.sy + v.yDatum, j.sw, j.sh) && 0 < j.dx && !j.Far()
    requires Nibbles(g, base)
    requires OutcomeAt(g, v, base, img, j, gap, x, y)
    ensures ScrolledAt(g, base, img, Rect(j.sx + v.xDatum, j.sy + v.yDatum, j.sw, j.sh), j.dx, j.dy, gap, x, y) <==>
            ColumnsLookRight(g, v, base, j, x, y)
  {
    hide Pixel, At, Cell, Element, g.Size;
  }

  const FOUR_NIBBLES := Geometry(4, 4, 1)
  const ONE_TO_FOUR: Image := [0x12, 0x34, 0]

  /** Four pixels 1, 2, 3, 4 moved one to the right: the second one stays where it should be replaced. */
  lemma NibblesCanBeWrong(img: Image, gap: nat)
    requires Outcome(FOUR_NIBBLES, ViewportOf(4, 1, 0, 0, 4, 1, true), ONE_TO_FOUR, img, Job(0, 0, 4, 1, 1, 0), gap)
    ensures !Scrolled(FOUR_NIBBLES, ONE_TO_FOUR, img, Rect(0, 0, 4, 1), 1, 0, gap)
  {
    var g, v, j := FOUR_NIBBLES, ViewportOf(4, 1, 0, 0, 4, 1, true), Job(0, 0, 4, 1, 1, 0);
    ViewOfNibbles();
    OneAndTwo();
    hide Outcome, Scrolled, Pixel, At, Cell, Element, ViewportOf;
    NibblesMissAColumn(g, v, ONE_TO_FOUR, img, j, gap);
    assert RowIsMoved(v, j, 0);
    assert Pixel(g, ONE_TO_FOUR, 1, 0) != Pixel(g, ONE_TO_FOUR, 0, 0);
  }

  lemma ViewOfNibbles()
    ensures ViewportOf(4, 1, 0, 0, 4, 1, true) == View(0, 0, 4, 1, 0, 0, false, 4, 1, true)
  {
  }

  lemma OneAndTwo()
    ensures Fits(FOUR_NIBBLES, ONE_TO_FOUR) && Nibbles(FOUR_NIBBLES, ONE_TO_FOUR)
    ensures Pixel(FOUR_NIBBLES, ONE_TO_FOUR, 0, 0) == 1 && Pixel(FOUR_NIBBLES, ONE_TO_FOUR, 1, 0) == 2
  {
    hide Pixel;
    assert FOUR_NIBBLES.Allocated() == 3;
    PairInByte(FOUR_NIBBLES, ONE_TO_FOUR, 0, 0);
    BytesHoldNibbles(FOUR_NIBBLES, ONE_TO_FOUR);
  }
}
