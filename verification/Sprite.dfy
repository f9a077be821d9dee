/** The sprite object: an image in memory, a viewport, a write window and a scroll rectangle. */
module Sprite {
  import opened Raster
  import opened Plotting
  import opened Window
  import opened Scroll
  import L = Line

  /** Elements for `n` pixels. */
  function Elements(g: Geometry, n: int): int {
    if g.bits == 4 then n / 2 else n
  }

  /** An element full of one value. */
  function Full(g: Geometry, c: nat): nat {
    if g.bits == 4 then c * 16 + c else c
  }

  lemma SpanPaints(g: Geometry, before: Image, after: Image, e: nat, x: int, y: int, n: nat, c: nat)
    requires Fits(g, before) && 0 <= x && x + n <= g.width && 0 <= y < g.height
    requires g.bits == 4 ==> x % 2 == 0 && n % 2 == 0 && c < 16
    requires 0 <= At(g, x, y) && e == Element(g, At(g, x, y))
    requires SpanSet(before, after, e, Elements(g, n), Full(g, c))
    ensures Painted(g, before, after, Rect(x, y, n, 1), c)
  {
    hide At, g.Size;
    if g.bits == 4 {
      AtParity(g, x, y);
      HalfFull(c);
    }
    var s := At(g, x, y);
    forall p: nat | p < g.Cells()
      ensures Element(g, p) < |after| && Element(g, p) < |before|
      ensures Cell(g, after, p) == if s <= p < s + n then c else Cell(g, before, p)
    {
      CellInArray(g, after, p);
    }
    RowPainted(g, before, after, x, y, n, c);
  }

  lemma PairsFrom(g: Geometry, x: int, xm: int, y: int)
    requires g.Valid() && g.bits == 4 && 0 <= x && 0 <= y && xm % 2 == 0 && (xm == x || xm == x + 1)
    ensures 0 <= At(g, xm, y) && Element(g, At(g, xm, y)) == (At(g, x, y) + (xm - x)) / 2
  {
    AtInPair(g, xm, y);
  }

  /** A stretch of a row lies in the array. */
  lemma RowInArray(g: Geometry, img: Image, x: int, y: int, n: nat)
    requires Fits(g, img) && 0 <= x && x + n <= g.width && 0 <= y < g.height
    requires g.bits == 4 ==> x % 2 == 0 && n % 2 == 0
    ensures 0 <= At(g, x, y) && Element(g, At(g, x, y)) + Elements(g, n) <= |img|
  {
    RowsAreOrdered(g.width, y, g.height);
    ProductIsNat(y, g.width);
    assert g.height * g.width == g.width * g.height;
    if g.bits == 4 {
      AtParity(g, x, y);
    }
  }

  /** Half a row in bytes is the next row. */
  lemma NextElement(g: Geometry, x: int, y: int)
    requires g.Valid() && 0 <= At(g, x, y)
    ensures 0 <= At(g, x, y + 1) == At(g, x, y) + g.width
    ensures Element(g, At(g, x, y + 1)) == Element(g, At(g, x, y)) + Elements(g, g.width)
  {
    AtNextRow(g, x, y);
  }

  /** Copying a row that holds one value sets the row it is copied to. */
  lemma CopiedRow(g: Geometry, base: Image, now: Image, after: Image, to: nat, x: int, y: int, w: nat, k: nat, c: nat)
    requires g.Valid() && g.bits == 16 && 0 <= x && x + w <= g.width && 0 <= y && y + k < g.height && k > 0
    requires Painted(g, base, now, Rect(x, y, w, k), c)
    requires 0 <= At(g, x, y) && SpanMoved(now, after, to, At(g, x, y), w)
    ensures SpanSet(now, after, to, w, c)
  {
    hide At, g.Size;
    var from := At(g, x, y);
    forall i | 0 <= i < |after|
      ensures after[i] == if to <= i < to + w then c else now[i]
    {
      if to <= i < to + w {
        var j := i - to;
        AtShift(g, x, y, j);
        AtInRange(g, x + j, y);
        assert Pixel(g, now, x + j, y) == now[from + j];
      }
    }
  }

  lemma AtInPair(g: Geometry, x: int, y: int)
    requires g.Valid() && g.bits == 4 && 0 <= x && 0 <= y
    ensures 0 <= At(g, x, y) && At(g, x, y) % 2 == x % 2
  {
    ProductIsNat(y, g.width);
    AtParity(g, x, y);
  }

  lemma HalfFull(c: nat)
    requires c < 16
    ensures (c * 16 + c) / 16 == c && (c * 16 + c) % 16 == c
  {
  }

  lemma StoredIsKept(bits: nat, color: Colour)
    requires bits == 4 || bits == 8 || bits == 16
    ensures Stored(bits, color) == Kept(bits, if bits == 4 then color else Stored(bits, color))
  {
    if bits == 16 {
      ReadIsStored16(color);
    } else if bits == 8 {
      var r := color / 8192;
      assert r < 8;
    }
  }

  /** What is kept of a colour in the sprite's own form. */
  function Kept(bits: nat, color: nat): (c: nat)
    ensures bits == 4 ==> c < 16
    ensures bits == 8 ==> c < 256
  {
    if bits == 16 then color % 65536 else if bits == 8 then color % 256 else color % 16
  }

  lemma StoredFits(bits: nat, color: Colour)
    ensures bits == 4 ==> Stored(bits, color) < 16
  {
  }

  /**
   What is painted after `k` rounds over a rectangle: the middle from the top down, and at the
   same time the edge columns from the bottom up.
   */
  function Progress(x: int, y: int, w: int, h: int, k: int, left: bool, right: bool): Region {
    (px, py) =>
      if (left && px == x) || (right && px == x + w - 1) then y + h - k <= py < y + h
      else x <= px < x + w && y <= py < y + k
  }

  /** A stretch of a row except for a stretch within it. */
  function RowWithout(x0: int, y: int, w0: int, x: int, w: int): Region {
    (px, py) => py == y && x0 <= px < x0 + w0 && !(x <= px < x + w)
  }

  lemma RowNothing(g: Geometry, img: Image, x0: int, y: int, w0: nat, c: nat)
    requires Fits(g, img)
    ensures Painted(g, img, img, RowWithout(x0, y, w0, x0, w0), c)
  {
    hide At, Cell, Element, Pixel;
    PaintedNothing(g, img, RowWithout(x0, y, w0, x0, w0), c);
  }

  lemma RowExcept(g: Geometry, base: Image, now: Image, after: Image, x0: int, y: int, w0: nat,
                  x: int, w: nat, edge: int, x': int, w': nat, c: nat)
    requires x0 <= x && x + w <= x0 + w0 && w == w' + 1
    requires (x' == x && edge == x + w') || (x' == x + 1 && edge == x)
    requires Painted(g, base, now, RowWithout(x0, y, w0, x, w), c)
    requires Painted(g, now, after, Rect(edge, y, 1, 1), c)
    ensures Painted(g, base, after, RowWithout(x0, y, w0, x', w'), c)
  {
    hide At, Cell, Element, Pixel;
    PaintMore(g, base, now, after, RowWithout(x0, y, w0, x, w), Rect(edge, y, 1, 1), RowWithout(x0, y, w0, x', w'), c);
  }

  lemma RowDone(g: Geometry, base: Image, img: Image, x0: int, y: int, w0: nat, x: int, w: int, c: nat)
    requires w < 1
    requires Painted(g, base, img, RowWithout(x0, y, w0, x, w), c)
    ensures Painted(g, base, img, Rect(x0, y, w0, 1), c)
  {
    hide At, Cell, Element, Pixel;
    PaintedAs(g, base, img, RowWithout(x0, y, w0, x, w), Rect(x0, y, w0, 1), c);
  }

  lemma RowCloses(g: Geometry, base: Image, now: Image, after: Image, x0: int, y: int, w0: nat, x: int, w: nat, c: nat)
    requires x0 <= x && x + w <= x0 + w0
    requires Painted(g, base, now, RowWithout(x0, y, w0, x, w), c)
    requires Painted(g, now, after, Rect(x, y, w, 1), c)
    ensures Painted(g, base, after, Rect(x0, y, w0, 1), c)
  {
    hide At, Cell, Element, Pixel;
    PaintMore(g, base, now, after, RowWithout(x0, y, w0, x, w), Rect(x, y, w, 1), Rect(x0, y, w0, 1), c);
  }

  lemma ProgressStarts(g: Geometry, img: Image, x: int, y: int, w: int, h: nat, left: bool, right: bool, c: nat)
    requires Fits(g, img)
    ensures Painted(g, img, img, Progress(x, y, w, h, 0, left, right), c)
  {
    hide At, Cell, Element;
    PaintedNothing(g, img, Progress(x, y, w, h, 0, left, right), c);
  }

  lemma ProgressEnds(g: Geometry, base: Image, img: Image, x: int, y: int, w: nat, h: nat, left: bool, right: bool, c: nat)
    requires w > 0
    requires Painted(g, base, img, Progress(x, y, w, h, h, left, right), c)
    ensures Painted(g, base, img, Rect(x, y, w, h), c)
  {
    hide At, Cell, Element;
    PaintedAs(g, base, img, Progress(x, y, w, h, h, left, right), Rect(x, y, w, h), c);
  }

  lemma RightStep(g: Geometry, base: Image, now: Image, middle: Image, after: Image,
                  x: int, y: int, w: nat, h: nat, k: nat, c: nat)
    requires w > 0 && k < h
    requires Painted(g, base, now, Progress(x, y, w, h, k, false, true), c)
    requires Painted(g, now, middle, Rect(x, y + k, w - 1, 1), c)
    requires Painted(g, middle, after, Rect(x + w - 1, y + h - k - 1, 1, 1), c)
    ensures Painted(g, base, after, Progress(x, y, w, h, k + 1, false, true), c)
  {
    hide At, Cell, Element, Pixel;
  }

  lemma LeftStep(g: Geometry, base: Image, now: Image, edge: Image, after: Image,
                 x: int, y: int, w: nat, h: nat, k: nat, c: nat)
    requires w > 0 && k < h
    requires Painted(g, base, now, Progress(x, y, w, h, k, true, false), c)
    requires Painted(g, now, edge, Rect(x, y + h - k - 1, 1, 1), c)
    requires Painted(g, edge, after, Rect(x + 1, y + k, w - 1, 1), c)
    ensures Painted(g, base, after, Progress(x, y, w, h, k + 1, true, false), c)
  {
    hide At, Cell, Element, Pixel;
  }

  lemma BothStep(g: Geometry, base: Image, now: Image, edge: Image, edges: Image, after: Image,
                 x: int, y: int, w: nat, h: nat, k: nat, c: nat)
    requires w > 1 && k < h
    requires Painted(g, base, now, Progress(x, y, w, h, k, true, true), c)
    requires Painted(g, now, edge, Rect(x, y + h - k - 1, 1, 1), c)
    requires Painted(g, edge, edges, Rect(x + w - 1, y + h - k - 1, 1, 1), c)
    requires Painted(g, edges, after, Rect(x + 1, y + k, w - 2, 1), c)
    ensures Painted(g, base, after, Progress(x, y, w, h, k + 1, true, true), c)
  {
    hide At, Cell, Element, Pixel;
  }

  lemma LineNothing(g: Geometry, v: View, img: Image, l: L.Line, c: nat)
    requires Fits(g, img) && l.Valid()
    ensures Painted(g, img, img, L.InLine(v, l, 0), c)
  {
    hide L.Minor, Painted;
    PaintedNothing(g, img, L.InLine(v, l, 0), c);
  }

  lemma LineUnseen(g: Geometry, v: View, img: Image, l: L.Line, c: nat)
    requires Fits(g, img) && l.Valid() && v.outOfBounds && v.Inside(g.width, g.height) && (g.bits == 4 ==> c < 16)
    ensures img == PlotAll(g, v, img, L.Points(l), c)
  {
    hide L.Minor, Painted, PlotAll, L.Points;
    PaintedNothing(g, img, L.InLine(v, l, l.dx + 1), c);
    L.LineIsPlotted(g, v, img, img, l, c);
  }

  lemma StoredNibble(value: nat)
    ensures Stored(4, value % 65536) == value % 16
  {
  }

  lemma MovedNone(g: Geometry, v: View, img: Image, tx: int, ty: int, w: nat, dx: int, dy: int)
    requires Fits(g, img)
    ensures Shifted(g, v, img, img, PixelsMoved(v, tx, ty, w, 0, 0, dx, dy), dx, dy)
  {
    hide Shifted;
    ShiftedNothing(g, v, img, PixelsMoved(v, tx, ty, w, 0, 0, dx, dy), dx, dy);
  }

  lemma PixelsAreMoves(g: Geometry, v: View, base: Image, img: Image, tx: int, ty: int, j: Job)
    requires g.bits == 4 && !j.Far()
    requires tx == if j.dx <= 0 then j.sx else j.sx + j.sw
    requires ty == if j.dy <= 0 then j.sy else j.sy + j.sh - 1
    requires Shifted(g, v, base, img, PixelsMoved(v, tx, ty, j.sw - Abs(j.dx), j.sh - Abs(j.dy), 0, j.dx, j.dy), j.dx, j.dy)
    ensures Shifted(g, v, base, img, Moves(g, v, j), j.dx, j.dy)
  {
    hide Shifted;
    ShiftedAs(g, v, base, img, PixelsMoved(v, tx, ty, j.sw - Abs(j.dx), j.sh - Abs(j.dy), 0, j.dx, j.dy), Moves(g, v, j), j.dx, j.dy);
  }

  class TftSprite {
    const g: Geometry
    /** The width drawn to; the rows in memory may be one pixel longer. */
    const dwidth: nat
    const img: array<nat>
    var view: View
    var window: Window
    var xptr: int
    var yptr: int
    var sx: int
    var sy: int
    var sw: int
    var sh: int
    var scolor: Colour

    /** Every place of the window has a cell, and the pointer keeps to the window. */
    ghost predicate Writable()
      reads this
    {
      StoresInside(g, window) && window.Contains(xptr, yptr)
    }

    ghost predicate Valid()
      reads this
    {
      && g.Valid() && img.Length == g.Allocated()
      && 0 < dwidth <= g.width
      && (g.bits != 4 ==> dwidth == g.width)
      && view.Inside(dwidth, g.height) && view.xWidth > 0 && view.yHeight > 0
    }

    /** The scroll rectangle is part of the sprite. */
    ghost predicate Scrollable()
      reads this
    {
      0 <= sx && 0 < sw && sx + sw <= g.width && 0 <= sy && 0 < sh && sy + sh <= g.height
    }

    /** A new sprite is black and its viewport is the whole of it. */
    constructor (bits: nat, w: nat, h: nat)
      requires (bits == 4 || bits == 8 || bits == 16) && w >= 1 && h >= 1
      ensures Valid() && Writable() && Scrollable() && fresh(img)
      ensures g == Geometry(bits, if bits == 4 then (w + 1) / 2 * 2 else w, h) && dwidth == w
      ensures img.Length == if bits == 4 then (w + 1) / 2 * 2 * h / 2 + 1 else w * h + 1
      ensures forall i :: 0 <= i < img.Length ==> img[i] == 0
      ensures view == ViewportOf(w, h, 0, 0, w, h, true)
    {
      var iwidth := if bits == 4 then (w + 1) / 2 * 2 else w;
      g := Geometry(bits, iwidth, h);
      dwidth := w;
      img := new nat[Geometry(bits, iwidth, h).Allocated()](_ => 0);
      view := ViewportOf(w, h, 0, 0, w, h, true);
      window := Window(0, 0, 0, 0);
      xptr, yptr := 0, 0;
      sx, sy, sw, sh, scolor := 0, 0, w, h, 0;
      InsideStoresInside(Geometry(bits, iwidth, h), Window(0, 0, 0, 0));
    }

    method SetViewport(x: int, y: int, w: int, h: int, datum: bool)
      requires Valid()
      modifies this`view
      ensures Valid()
      ensures view == ViewportOf(dwidth, g.height, x, y, w, h, datum)
    {
      ViewportShows(dwidth, g.height, x, y, w, h, datum, 0, 0);
      view := ViewportOf(dwidth, g.height, x, y, w, h, datum);
    }

    // ----- memory

    method MemSet(e: nat, n: nat, v: nat)
      requires e + n <= img.Length
      modifies img
      ensures SpanSet(old(img[..]), img[..], e, n, v)
    {
      for k := 0 to n
        invariant forall i :: 0 <= i < img.Length ==> img[i] == if e <= i < e + k then v else old(img[i])
      {
        img[e + k] := v;
      }
    }

    method MemMove(to: nat, from: nat, n: nat)
      requires to + n <= img.Length && from + n <= img.Length
      modifies img
      ensures SpanMoved(old(img[..]), img[..], to, from, n)
    {
      var moved := img[from..from + n];
      for k := 0 to n
        invariant forall i :: 0 <= i < img.Length ==> img[i] == if to <= i < to + k then moved[i - to] else old(img[i])
      {
        img[to + k] := moved[k];
      }
    }

    // ----- drawing

    /** Stores a value at a pixel of the sprite, or at any other place that has a cell. */
    method Store(x: int, y: int, c: nat)
      requires Valid() && (g.Contains(x, y) || 0 <= At(g, x, y) < g.Cells()) && (g.bits == 4 ==> c < 16)
      modifies img
      ensures 0 <= At(g, x, y) < g.Cells() && img[..] == WriteAt(g, old(img[..]), (x, y), c)
      ensures g.Contains(x, y) ==> Painted(g, old(img[..]), img[..], Rect(x, y, 1, 1), c)
    {
      hide g.Size, Cell, Painted;
      ghost var before := img[..];
      if g.Contains(x, y) {
        WriteAtPaints(g, before, x, y, c);
      }
      CellInArray(g, before, At(g, x, y));
      if g.bits == 4 {
        AtParity(g, x, y);
      }
      if g.bits == 4 {
        var index := (x + y * g.width) / 2;
        if x % 2 == 0 {
          img[index] := c * 16 + img[index] % 16;
        } else {
          img[index] := img[index] / 16 * 16 + c;
        }
      } else {
        img[x + y * g.width] := c;
      }
      assert img[..] == WriteAt(g, before, (x, y), c);
    }

    method DrawPixel(x: int, y: int, color: Colour)
      requires Valid()
      modifies img
      ensures img[..] == Plot(g, view, old(img[..]), x, y, Stored(g.bits, color))
      ensures Painted(g, old(img[..]), img[..], Clipped(view, x, y, 1, 1), Stored(g.bits, color))
    {
      hide Put, Cell, Element, At, Stored;
      StoredFits(g.bits, color);
      PlotPaints(g, view, img[..], x, y, Stored(g.bits, color));
      if view.outOfBounds {
        return;
      }
      var ax, ay := x + view.xDatum, y + view.yDatum;
      if ax < view.left || ay < view.top || ax >= view.right || ay >= view.bottom {
        return;
      }
      Store(ax, ay, Stored(g.bits, color));
    }
  
    /** Sets the elements of a stretch of a row; the ghost parameters say which stretch. */
    method SetRow(e: nat, n: nat, v: nat, ghost x: int, ghost y: int, ghost w: nat, ghost c: nat)
      requires Valid() && 0 <= x && x + w <= g.width && 0 <= y < g.height
      requires g.bits == 4 ==> x % 2 == 0 && w % 2 == 0 && c < 16
      requires 0 <= At(g, x, y) && e == Element(g, At(g, x, y)) && n == Elements(g, w) && v == Full(g, c)
      modifies img
      ensures Painted(g, old(img[..]), img[..], Rect(x, y, w, 1), c)
    {
      hide At, Cell, Element, Elements, Pixel, g.Size;
      RowInArray(g, img[..], x, y, w);
      MemSet(e, n, v);
      SpanPaints(g, old(img[..]), img[..], e, x, y, w, c);
    }

    /** Sets pairs of pixels, if there are any. */
    method SetPairs(e: nat, m: nat, c: nat, ghost x: int, ghost y: int)
      requires Valid() && g.bits == 4 && 0 <= x && x + m <= g.width && 0 <= y < g.height
      requires x % 2 == 0 && m % 2 == 0 && c < 16
      requires 0 <= At(g, x, y) && e == Element(g, At(g, x, y))
      modifies img
      ensures Painted(g, old(img[..]), img[..], Rect(x, y, m, 1), c)
    {
      hide At, Cell, Element, Pixel, g.Size;
      if m > 0 {
        SetRow(e, m / 2, c * 16 + c, x, y, m, c);
      } else {
        PaintedNothing(g, img[..], Rect(x, y, m, 1), c);
      }
    }

    /** Draws a pixel given in sprite coordinates. */
    method DrawInside(x: int, y: int, c: Colour)
      requires Valid() && g.bits == 4 && view.Shows(x, y) && c < 16
      modifies img
      ensures Painted(g, old(img[..]), img[..], Rect(x, y, 1, 1), c)
    {
      hide At, Cell, Element, Pixel, g.Size, Plot;
      DrawPixel(x - view.xDatum, y - view.yDatum, c);
      PaintedAs(g, old(img[..]), img[..], Clipped(view, x - view.xDatum, y - view.yDatum, 1, 1), Rect(x, y, 1, 1), c);
    }

    method Fill8(x: int, y: int, w: nat, h: nat, c: nat)
      requires Valid() && g.bits == 8 && 0 <= x && x + w <= g.width && 0 <= y && y + h <= g.height
      modifies img
      ensures Painted(g, old(img[..]), img[..], Rect(x, y, w, h), c)
    {
      hide Cell, Pixel, g.Size;
      var yp := At(g, x, y);
      PaintedNothing(g, img[..], Rect(x, y, w, 0), c);
      for k := 0 to h
        invariant yp == At(g, x, y + k)
        invariant Painted(g, old(img[..]), img[..], Rect(x, y, w, k), c)
      {
        hide At;
        ghost var now := img[..];
        RowInArray(g, now, x, y + k, w);
        SetRow(yp, w, c, x, y + k, w, c);
        PaintMore(g, old(img[..]), now, img[..], Rect(x, y, w, k), Rect(x, y + k, w, 1), Rect(x, y, w, k + 1), c);
        NextElement(g, x, y + k);
        yp := yp + g.width;
      }
    }
  
    method Fill16(x: int, y: int, w: nat, h: nat, c: nat)
      requires Valid() && g.bits == 16 && 0 <= x && x + w <= g.width && 0 <= y && y + h <= g.height && h > 0
      modifies img
      ensures Painted(g, old(img[..]), img[..], Rect(x, y, w, h), c)
    {
      hide Cell, Pixel, g.Size;
      var ys := At(g, x, y);
      RowInArray(g, img[..], x, y, w);
      SetRow(ys, w, c, x, y, w, c);
      var yp := ys;
      for k := 1 to h
        invariant yp == At(g, x, y + k - 1) >= 0
        invariant Painted(g, old(img[..]), img[..], Rect(x, y, w, k), c)
      {
        hide At;
        ghost var now := img[..];
        NextElement(g, x, y + k - 1);
        RowInArray(g, now, x, y + k, w);
        yp := yp + g.width;
        MemMove(yp, ys, w);
        CopiedRow(g, old(img[..]), now, img[..], yp, x, y, w, k, c);
        SpanPaints(g, now, img[..], yp, x, y + k, w, c);
        PaintMore(g, old(img[..]), now, img[..], Rect(x, y, w, k), Rect(x, y + k, w, 1), Rect(x, y, w, k + 1), c);
      }
    }
  
    /** An even number of pixels from an even column on. */
    method Fill4Even(x: int, y: int, w: nat, h: nat, c: nat)
      requires Valid() && g.bits == 4 && 0 <= x && x + w <= g.width && 0 <= y && y + h <= g.height && c < 16
      requires x % 2 == 0 && w % 2 == 0
      modifies img
      ensures Painted(g, old(img[..]), img[..], Rect(x, y, w, h), c)
    {
      hide Cell, Pixel, g.Size;
      AtInPair(g, x, y);
      var yp := At(g, x, y) / 2;
      PaintedNothing(g, img[..], Rect(x, y, w, 0), c);
      for k := 0 to h
        invariant 0 <= At(g, x, y + k) && yp == Element(g, At(g, x, y + k))
        invariant Painted(g, old(img[..]), img[..], Rect(x, y, w, k), c)
      {
        hide At, Element;
        ghost var now := img[..];
        SetRow(yp, w / 2, c * 16 + c, x, y + k, w, c);
        PaintMore(g, old(img[..]), now, img[..], Rect(x, y, w, k), Rect(x, y + k, w, 1), Rect(x, y, w, k + 1), c);
        NextElement(g, x, y + k);
        yp := yp + g.width / 2;
      }
    }
  
    /** An odd number of pixels from an even column on: the last one is drawn by itself. */
    method Fill4Right(x: int, y: int, w: nat, rows: nat, c: Colour)
      requires Valid() && g.bits == 4 && view.Encloses(x, y, w, rows) && c < 16 && w > 0
      requires x % 2 == 0 && w % 2 == 1
      modifies img
      ensures Painted(g, old(img[..]), img[..], Rect(x, y, w, rows), c)
    {
      hide Cell, Pixel, g.Size, Rect, Progress, Painted, At, Element;
      PairsFrom(g, x, x, y);
      var yp := (At(g, x, y)) / 2;
      var h := rows;
      ProgressStarts(g, img[..], x, y, w, rows, false, true, c);
      while h > 0
        invariant 0 <= h <= rows
        invariant 0 <= At(g, x, y + rows - h) && yp == Element(g, At(g, x, y + rows - h))
        invariant Painted(g, old(img[..]), img[..], Progress(x, y, w, rows, rows - h, false, true), c)
      {
        ghost var k := rows - h;
        h := h - 1;
        ghost var now := img[..];
        SetPairs(yp, w - 1, c, x, y + k);
        ghost var middle := img[..];
        DrawInside(x + w - 1, y + h, c);
        RightStep(g, old(img[..]), now, middle, img[..], x, y, w, rows, k, c);
        NextElement(g, x, y + k);
        yp := yp + g.width / 2;
      }
      ProgressEnds(g, old(img[..]), img[..], x, y, w, rows, false, true, c);
    }

    /** An odd number of pixels from an odd column on: the first one is drawn by itself. */
    method Fill4Left(x: int, y: int, w: nat, rows: nat, c: Colour)
      requires Valid() && g.bits == 4 && view.Encloses(x, y, w, rows) && c < 16 && w > 0
      requires x % 2 == 1 && w % 2 == 1
      modifies img
      ensures Painted(g, old(img[..]), img[..], Rect(x, y, w, rows), c)
    {
      hide Cell, Pixel, g.Size, Rect, Progress, Painted, At, Element;
      PairsFrom(g, x, x + 1, y);
      var yp := (At(g, x, y) + 1) / 2;
      var h := rows;
      ProgressStarts(g, img[..], x, y, w, rows, true, false, c);
      while h > 0
        invariant 0 <= h <= rows
        invariant 0 <= At(g, x + 1, y + rows - h) && yp == Element(g, At(g, x + 1, y + rows - h))
        invariant Painted(g, old(img[..]), img[..], Progress(x, y, w, rows, rows - h, true, false), c)
      {
        ghost var k := rows - h;
        h := h - 1;
        ghost var now := img[..];
        DrawInside(x, y + h, c);
        ghost var edge := img[..];
        SetPairs(yp, w - 1, c, x + 1, y + k);
        LeftStep(g, old(img[..]), now, edge, img[..], x, y, w, rows, k, c);
        NextElement(g, x + 1, y + k);
        yp := yp + g.width / 2;
      }
      ProgressEnds(g, old(img[..]), img[..], x, y, w, rows, true, false, c);
    }

    /** An even number of pixels from an odd column on: the first and the last are drawn by themselves. */
    method Fill4Both(x: int, y: int, w: nat, rows: nat, c: Colour)
      requires Valid() && g.bits == 4 && view.Encloses(x, y, w, rows) && c < 16 && w > 0
      requires x % 2 == 1 && w % 2 == 0
      modifies img
      ensures Painted(g, old(img[..]), img[..], Rect(x, y, w, rows), c)
    {
      hide Cell, Pixel, g.Size, Rect, Progress, Painted, At, Element;
      PairsFrom(g, x, x + 1, y);
      var yp := (At(g, x, y) + 1) / 2;
      var h := rows;
      ProgressStarts(g, img[..], x, y, w, rows, true, true, c);
      while h > 0
        invariant 0 <= h <= rows
        invariant 0 <= At(g, x + 1, y + rows - h) && yp == Element(g, At(g, x + 1, y + rows - h))
        invariant Painted(g, old(img[..]), img[..], Progress(x, y, w, rows, rows - h, true, true), c)
      {
        ghost var k := rows - h;
        h := h - 1;
        ghost var now := img[..];
        DrawInside(x, y + h, c);
        ghost var edge := img[..];
        DrawInside(x + w - 1, y + h, c);
        ghost var edges := img[..];
        SetPairs(yp, w - 2, c, x + 1, y + k);
        BothStep(g, old(img[..]), now, edge, edges, img[..], x, y, w, rows, k, c);
        NextElement(g, x + 1, y + k);
        yp := yp + g.width / 2;
      }
      ProgressEnds(g, old(img[..]), img[..], x, y, w, rows, true, true, c);
    }

    /** Fills the visible part of a rectangle. */
    method FillRect(x: int, y: int, w: int, h: int, color: Colour)
      requires Valid()
      modifies img
      ensures Painted(g, old(img[..]), img[..], Clipped(view, x, y, w, h), Stored(g.bits, color))
    {
      hide At, Cell, Element, Pixel, Stored, g.Size;
      ghost var before := img[..];
      ghost var region := Clipped(view, x, y, w, h);
      var c := Stored(g.bits, color);
      StoredFits(g.bits, color);
      if view.outOfBounds {
        PaintedNothing(g, before, region, c);
        return;
      }
      var ax, ay, aw, ah := x + view.xDatum, y + view.yDatum, w, h;
      if ax >= view.right || ay >= view.bottom {
        PaintedNothing(g, before, region, c);
        return;
      }
      if ax < view.left {
        aw, ax := aw + ax - view.left, view.left;
      }
      if ay < view.top {
        ah, ay := ah + ay - view.top, view.top;
      }
      if ax + aw > view.right {
        aw := view.right - ax;
      }
      if ay + ah > view.bottom {
        ah := view.bottom - ay;
      }
      if aw < 1 || ah < 1 {
        PaintedNothing(g, before, region, c);
        return;
      }
      if g.bits == 16 {
        Fill16(ax, ay, aw, ah, c);
      } else if g.bits == 8 {
        Fill8(ax, ay, aw, ah, c);
      } else if ax % 2 == 0 && aw % 2 == 0 {
        Fill4Even(ax, ay, aw, ah, c);
      } else if ax % 2 == 0 {
        Fill4Right(ax, ay, aw, ah, c);
      } else if aw % 2 == 1 {
        Fill4Left(ax, ay, aw, ah, c);
      } else {
        Fill4Both(ax, ay, aw, ah, c);
      }
      PaintedAs(g, before, img[..], Rect(ax, ay, aw, ah), region, c);
    }

    /** A stretch of a row of nibbles: single pixels at odd ends, whole bytes between. */
    method HLine4(x0: int, y: int, w0: nat, c: Colour)
      requires Valid() && g.bits == 4 && view.Encloses(x0, y, w0, 1) && c < 16 && w0 > 0
      modifies img
      ensures Painted(g, old(img[..]), img[..], Rect(x0, y, w0, 1), c)
    {
      hide Cell, Pixel, g.Size, Painted, Rect, RowWithout, At;
      ghost var before := img[..];
      var x, w: int := x0, w0;
      RowNothing(g, before, x0, y, w0, c);
      if x % 2 == 1 {
        DrawInside(x, y, c);
        x, w := x + 1, w - 1;
        RowExcept(g, before, before, img[..], x0, y, w0, x0, w0, x0, x, w, c);
        if w < 1 {
          RowDone(g, before, img[..], x0, y, w0, x, w, c);
          return;
        }
      }
      ghost var now := img[..];
      if (w + x) % 2 == 1 {
        DrawInside(x + w - 1, y, c);
        w := w - 1;
        RowExcept(g, before, now, img[..], x0, y, w0, x, w + 1, x + w, x, w, c);
        if w < 1 {
          RowDone(g, before, img[..], x0, y, w0, x, w, c);
          return;
        }
      }
      now := img[..];
      AtInPair(g, x, y);
      SetRow(At(g, x, y) / 2, w / 2, c * 16 + c, x, y, w, c);
      RowCloses(g, before, now, img[..], x0, y, w0, x, w, c);
    }

    method DrawFastHLine(x: int, y: int, w: int, color: Colour)
      requires Valid()
      modifies img
      ensures Painted(g, old(img[..]), img[..], Clipped(view, x, y, w, 1), Stored(g.bits, color))
    {
      hide At, Cell, Element, Pixel, Stored, g.Size;
      ghost var before := img[..];
      ghost var region := Clipped(view, x, y, w, 1);
      var c := Stored(g.bits, color);
      StoredFits(g.bits, color);
      if view.outOfBounds {
        PaintedNothing(g, before, region, c);
        return;
      }
      var ax, ay, aw := x + view.xDatum, y + view.yDatum, w;
      if ay < view.top || ax >= view.right || ay >= view.bottom {
        PaintedNothing(g, before, region, c);
        return;
      }
      if ax < view.left {
        aw, ax := aw + ax - view.left, view.left;
      }
      if ax + aw > view.right {
        aw := view.right - ax;
      }
      if aw < 1 {
        PaintedNothing(g, before, region, c);
        return;
      }
      if g.bits == 4 {
        HLine4(ax, ay, aw, c);
      } else {
        RowInArray(g, before, ax, ay, aw);
        SetRow(Element(g, At(g, ax, ay)), aw, c, ax, ay, aw, c);
      }
      PaintedAs(g, before, img[..], Rect(ax, ay, aw, 1), region, c);
    }

    method DrawFastVLine(x: int, y: int, h: int, color: Colour)
      requires Valid()
      modifies img
      ensures Painted(g, old(img[..]), img[..], Clipped(view, x, y, 1, h), Stored(g.bits, color))
    {
      hide At, Cell, Element, Pixel, Stored, g.Size;
      ghost var before := img[..];
      ghost var region := Clipped(view, x, y, 1, h);
      var c := Stored(g.bits, color);
      StoredFits(g.bits, color);
      if view.outOfBounds {
        PaintedNothing(g, before, region, c);
        return;
      }
      var ax, ay, ah := x + view.xDatum, y + view.yDatum, h;
      if ax < view.left || ax >= view.right || ay >= view.bottom {
        PaintedNothing(g, before, region, c);
        return;
      }
      if ay < view.top {
        ah, ay := ah + ay - view.top, view.top;
      }
      if ay + ah > view.bottom {
        ah := view.bottom - ay;
      }
      if ah < 1 {
        PaintedNothing(g, before, region, c);
        return;
      }
      PaintedNothing(g, before, Rect(ax, ay, 1, 0), c);
      for k := 0 to ah
        invariant Painted(g, before, img[..], Rect(ax, ay, 1, k), c)
      {
        hide Painted;
        ghost var now := img[..];
        Store(ax, ay + k, c);
        PaintMore(g, before, now, img[..], Rect(ax, ay, 1, k), Rect(ax, ay + k, 1, 1), Rect(ax, ay, 1, k + 1), c);
      }
      PaintedAs(g, before, img[..], Rect(ax, ay, 1, ah), region, c);
    }

    /** Draws a run of a line along its longer axis. */
    method DrawFastRun(ghost l: L.Line, steep: bool, xs: int, y: int, dlen: nat, color: Colour)
      requires Valid() && l.steep == steep
      modifies img
      ensures Painted(g, old(img[..]), img[..], L.Run(view, l, xs - l.x0, dlen, y), Stored(g.bits, color))
    {
      hide Painted, Clipped, Stored, Plot;
      if steep {
        DrawFastVLine(y, xs, dlen, color);
      } else {
        DrawFastHLine(xs, y, dlen, color);
      }
    }

    /** A run that is followed by another one may be a single pixel. */
    method DrawRun(ghost l: L.Line, steep: bool, xs: int, y: int, dlen: nat, color: Colour)
      requires Valid() && l.steep == steep
      modifies img
      ensures Painted(g, old(img[..]), img[..], L.Run(view, l, xs - l.x0, dlen, y), Stored(g.bits, color))
    {
      hide Painted, Clipped, Stored, Plot;
      if dlen != 1 {
        DrawFastRun(l, steep, xs, y, dlen, color);
      } else if steep {
        DrawPixel(y, xs, color);
      } else {
        DrawPixel(xs, y, color);
      }
    }

    method DrawLine(x0: int, y0: int, x1: int, y1: int, color: Colour)
      requires Valid()
      modifies img
      ensures L.LineOf(x0, y0, x1, y1).Valid()
      ensures img[..] == PlotAll(g, view, old(img[..]), L.Points(L.LineOf(x0, y0, x1, y1)), Stored(g.bits, color))
    {
      hide L.Minor, L.OnLine, L.Points, L.Carried, Painted, Stored, PlotAll, L.Run, L.InLine, g.Size;
      ghost var before := img[..];
      ghost var c := Stored(g.bits, color);
      ghost var l := L.LineOf(x0, y0, x1, y1);
      L.LineOfIsValid(x0, y0, x1, y1);
      StoredFits(g.bits, color);
      if view.outOfBounds {
        LineUnseen(g, view, before, l, c);
        return;
      }
      var a0, b0, a1, b1 := x0, y0, x1, y1;
      var steep := Abs(b1 - b0) > Abs(a1 - a0);
      if steep {
        a0, b0, a1, b1 := b0, a0, b1, a1;
      }
      if a0 > a1 {
        a0, b0, a1, b1 := a1, b1, a0, b0;
      }
      var dx, dy := a1 - a0, Abs(b1 - b0);
      var ystep := if b0 < b1 then 1 else -1;
      assert l == L.Line(steep, a0, b0, dx, dy, ystep);
      DrawRuns(L.Line(steep, a0, b0, dx, dy, ystep), color);
      L.LineIsPlotted(g, view, before, img[..], l, c);
    }

    /** The loop along the longer axis. */
    method DrawRuns(l: L.Line, color: Colour)
      requires Valid() && l.Valid()
      modifies img
      ensures Painted(g, old(img[..]), img[..], L.InLine(view, l, l.dx + 1), Stored(g.bits, color))
    {
      hide L.Minor, L.OnLine, L.Carried, Painted, Stored, L.Run, L.InLine, g.Size;
      ghost var before := img[..];
      ghost var c := Stored(g.bits, color);
      var err, x, y, xs, dlen := l.dx / 2, l.x0, l.y0, l.x0, 0;
      ghost var s, m: nat := 0, 0;
      L.CarriedStart(l);
      LineNothing(g, view, before, l, c);
      while x <= l.x0 + l.dx
        invariant 0 <= dlen && 0 <= s && xs == l.x0 + m && x == xs + dlen <= l.x0 + l.dx + 1
        invariant y == l.y0 + l.step * s
        invariant L.Carried(l, m + dlen, s, err)
        invariant forall k: nat :: m <= k < m + dlen ==> L.Minor(l.dx, l.dy, k) == s
        invariant Painted(g, before, img[..], L.InLine(view, l, m), c)
      {
        L.CarriedStep(l, m + dlen, s, err);
        dlen, err := dlen + 1, err - l.dy;
        if err < 0 {
          err := err + l.dx;
          ghost var now := img[..];
          DrawRun(l, l.steep, xs, y, dlen, color);
          L.RunJoins(g, view, before, now, img[..], l, m, dlen, s, c);
          m, s := m + dlen, s + 1;
          dlen, y, xs := 0, y + l.step, x + 1;
        }
        x := x + 1;
      }
      if dlen > 0 {
        ghost var now := img[..];
        DrawFastRun(l, l.steep, xs, y, dlen, color);
        L.RunJoins(g, view, before, now, img[..], l, m, dlen, s, c);
      }
    }

    // ----- the write window

    function Width(): int
      reads this
    {
      if view.datum then view.xWidth else dwidth
    }

    function Height(): int
      reads this
    {
      if view.datum then view.yHeight else g.height
    }

    method SetWindow(x0: int, y0: int, x1: int, y1: int)
      requires Valid()
      modifies this`window, this`xptr, this`yptr
      ensures Valid() && window == WindowOf(g, Width(), Height(), x0, y0, x1, y1)
      ensures (xptr, yptr) == (window.xs, window.ys)
      ensures At(g, Width() - 1, Height() - 1) < g.Cells() ==> Writable()
    {
      hide g.Size, StoresInside, View.Inside, At;
      if At(g, Width() - 1, Height() - 1) < g.Cells() {
        WindowStoresInside(g, Width(), Height(), x0, y0, x1, y1);
      }
      var l, t, r, b := x0, y0, x1, y1;
      if l > r {
        l, r := r, l;
      }
      if t > b {
        t, b := b, t;
      }
      var w, h := Width(), Height();
      var win: Window;
      if l >= w || r < 0 || t >= h || b < 0 {
        win := Window(0, g.height, 0, g.height);
      } else {
        if l < 0 {
          l := 0;
        }
        if r >= w {
          r := w - 1;
        }
        if t < 0 {
          t := 0;
        }
        if b >= h {
          b := h - 1;
        }
        win := Window(l, t, r, b);
      }
      assert win == WindowOf(g, w, h, x0, y0, x1, y1);
      window, xptr, yptr := win, win.xs, win.ys;
    }

    /** Stores a colour that is already in the sprite's own form. */
    method WriteColor(color: nat)
      requires Valid() && Writable()
      modifies img, this`xptr, this`yptr
      ensures Valid() && Writable()
      ensures img[..] == WriteAt(g, old(img[..]), old((xptr, yptr)), Kept(g.bits, color))
      ensures (xptr, yptr) == Advance(window, old((xptr, yptr)))
    {
      hide WriteAt, g.Size;
      Store(xptr, yptr, Kept(g.bits, color));
      xptr := xptr + 1;
      if xptr > window.xe {
        xptr := window.xs;
        yptr := yptr + 1;
        if yptr > window.ye {
          yptr := window.ys;
        }
      }
    }

    /** Streams `count` times the same colour; `k` colours were written to the window before. */
    method PushColor(color: Colour, count: nat, ghost k: nat)
      requires Valid() && Writable() && (xptr, yptr) == Nth(window, k)
      modifies img, this`xptr, this`yptr
      ensures Valid() && Writable() && (xptr, yptr) == Nth(window, k + count)
      ensures img[..] == Stream(g, window, Nth(window, k), old(img[..]), Copies(count, Stored(g.bits, color)))
    {
      hide WriteAt, Advance, Nth, Stored, g.Size, Kept, Copies;
      var pixelColor := if g.bits == 4 then color else Stored(g.bits, color);
      ghost var c := Stored(g.bits, color);
      StoredIsKept(g.bits, color);
      ghost var all := Stream(g, window, Nth(window, k), img[..], Copies(count, c));
      var len := count;
      while len > 0
        invariant 0 <= len <= count && Writable()
        invariant (xptr, yptr) == Nth(window, k + (count - len))
        invariant Stream(g, window, (xptr, yptr), img[..], Copies(len, c)) == all
      {
        OneCopyLess(len, c);
        AdvanceFollows(window, k + (count - len));
        len := len - 1;
        WriteColor(pixelColor);
      }
      OneCopyLess(0, c);
    }

    // ----- scrolling

    /** The scroll rectangle becomes the part on the sprite, if there is any. */
    method SetScrollRect(x: int, y: int, w: int, h: int, color: Colour)
      requires Valid() && Scrollable()
      modifies this`sx, this`sy, this`sw, this`sh, this`scolor
      ensures Valid() && Scrollable()
      ensures (forall px, py :: Rect(x, y, w, h)(px, py) ==> !g.Contains(px, py)) ==>
                old((sx, sy, sw, sh, scolor)) == (sx, sy, sw, sh, scolor)
      ensures (exists px, py :: Rect(x, y, w, h)(px, py) && g.Contains(px, py)) ==>
                && scolor == color
                && forall px, py :: Rect(sx, sy, sw, sh)(px, py) <==> Rect(x, y, w, h)(px, py) && g.Contains(px, py)
    {
      hide g.Size;
      if x >= g.width || y >= g.height {
        return;
      }
      var ax, ay, aw, ah := x, y, w, h;
      if ax < 0 {
        aw, ax := aw + ax, 0;
      }
      if ay < 0 {
        ah, ay := ah + ay, 0;
      }
      if ax + aw > g.width {
        aw := g.width - ax;
      }
      if ay + ah > g.height {
        ah := g.height - ay;
      }
      if aw < 1 || ah < 1 {
        return;
      }
      assert Rect(x, y, w, h)(ax, ay) && g.Contains(ax, ay);
      sx, sy, sw, sh, scolor := ax, ay, aw, ah, color;
    }

    /** The scroll rectangle and a distance. */
    function JobOf(dx: int, dy: int): Job
      reads this
    {
      Job(sx, sy, sw, sh, dx, dy)
    }

    /** Moves rows within the sprite, starting at row `ty`. */
    method MoveRows(tx: int, ty: int, w: nat, rows: nat, dx: int, dy: int)
      requires Valid() && g.bits != 4
      requires 0 <= tx && tx + w <= g.width && 0 <= tx - dx && tx - dx + w <= g.width
      requires forall k :: 0 <= k < rows ==> 0 <= RowAfter(ty, k, dy) < g.height && 0 <= RowAfter(ty, k, dy) - dy < g.height
      modifies img
      ensures Shifted(g, view, old(img[..]), img[..], RowsMoved(tx, ty, w, rows, dy), dx, dy)
    {
      hide g.Size, Pixel, Cell, Shifted, SpanMoved;
      var typ, fyp := At(g, tx, ty), At(g, tx - dx, ty - dy);
      var iw: int := g.width;
      if dy > 0 {
        iw := -iw;
      }
      ShiftedNothing(g, view, img[..], RowsMoved(tx, ty, w, 0, dy), dx, dy);
      var h := rows;
      while h > 0
        invariant 0 <= h <= rows
        invariant typ == At(g, tx, RowAfter(ty, rows - h, dy))
        invariant fyp == At(g, tx - dx, RowAfter(ty, rows - h, dy) - dy)
        invariant Shifted(g, view, old(img[..]), img[..], RowsMoved(tx, ty, w, rows - h, dy), dx, dy)
      {
        hide At;
        ghost var k := rows - h;
        ghost var y := RowAfter(ty, k, dy);
        ghost var now := img[..];
        RowInArray(g, now, tx, y, w);
        RowInArray(g, now, tx - dx, y - dy, w);
        MemMove(typ, fyp, w);
        NextRow(g, view, old(img[..]), now, img[..], tx, ty, w, k, dx, dy);
        AtNextRow(g, tx, y);
        AtNextRow(g, tx - dx, y - dy);
        h, typ, fyp := h - 1, typ + iw, fyp + iw;
      }
    }

    /** The value stored at a visible pixel. */
    method ReadPixelValue(x: int, y: int) returns (value: nat)
      requires Valid()
      ensures var ax, ay := x + view.xDatum, y + view.yDatum;
              if view.Shows(ax, ay) then
                g.Contains(ax, ay) && value == if g.bits == 16 then Swapped(Pixel(g, img[..], ax, ay)) else Pixel(g, img[..], ax, ay)
              else value == 0xFF
    {
      if view.outOfBounds {
        return 0xFF;
      }
      var ax, ay := x + view.xDatum, y + view.yDatum;
      if ax < view.left || ay < view.top || ax >= view.right || ay >= view.bottom {
        return 0xFF;
      }
      AtInRange(g, ax, ay);
      CellInArray(g, img[..], At(g, ax, ay));
      if g.bits == 16 {
        return Swapped(img[ax + ay * g.width]);
      }
      if g.bits == 8 {
        return img[ax + ay * g.width];
      }
      AtParity(g, ax, ay);
      if ax % 2 == 0 {
        return img[(ax + ay * g.width) / 2] / 16;
      }
      return img[(ax + ay * g.width) / 2] % 16;
    }

    /** Moves pixels one by one; the coordinates are those of the viewport. */
    method MovePixels(tx: int, ty: int, w: nat, rows: nat, dx: int, dy: int)
      requires Valid() && g.bits == 4
      modifies img
      ensures Shifted(g, view, old(img[..]), img[..], PixelsMoved(view, tx, ty, w, rows, 0, dx, dy), dx, dy)
    {
      hide g.Size, Pixel, Cell, Shifted, PixelsMoved;
      MovedNone(g, view, img[..], tx, ty, w, dx, dy);
      var h, y := rows, ty;
      while h > 0
        invariant 0 <= h <= rows && y == RowAfter(ty, rows - h, dy)
        invariant Shifted(g, view, old(img[..]), img[..], PixelsMoved(view, tx, ty, w, rows - h, 0, dx, dy), dx, dy)
      {
        ghost var k := rows - h;
        h := h - 1;
        for xp := 0 to w
          invariant Shifted(g, view, old(img[..]), img[..], PixelsMoved(view, tx, ty, w, k, xp, dx, dy), dx, dy)
        {
          ghost var now := img[..];
          MovePixel(ColumnAfter(tx, xp, dx), y, dx, dy);
          NextPixel(g, view, old(img[..]), now, img[..], tx, ty, w, k, xp, dx, dy);
        }
        NextLine(g, view, old(img[..]), img[..], tx, ty, w, k, dx, dy);
        y := if dy <= 0 then y + 1 else y - 1;
      }
    }

    /** One pixel, read and drawn through the viewport. */
    method MovePixel(x: int, y: int, dx: int, dy: int)
      requires Valid() && g.bits == 4
      modifies img
      ensures Painted(g, old(img[..]), img[..], Clipped(view, x, y, 1, 1),
                      Source(g, view, old(img[..]), x + view.xDatum - dx, y + view.yDatum - dy))
    {
      hide g.Size, Cell, Painted, Plot, At, Element;
      var value := ReadPixelValue(x - dx, y - dy);
      ghost var source := Source(g, view, img[..], x + view.xDatum - dx, y + view.yDatum - dy);
      assert source == value % 16;
      DrawPixel(x, y, value % 65536);
      StoredNibble(value);
    }

    method FillColumns(dx: int, dy: int)
      requires Valid() && !JobOf(dx, dy).Far()
      modifies img
      ensures Painted(g, old(img[..]), img[..], FillsX(view, JobOf(dx, dy)), Stored(g.bits, scolor))
    {
      hide g.Size, Pixel, Cell, Painted, Stored;
      if dx > 0 {
        FillRect(sx, sy, dx, sh, scolor);
      }
      if dx < 0 {
        FillRect(sx + sw + dx, sy, -dx, sh, scolor);
      }
      if dx == 0 {
        PaintedNothing(g, img[..], FillsX(view, JobOf(dx, dy)), Stored(g.bits, scolor));
      }
    }

    method FillRows(dx: int, dy: int)
      requires Valid() && !JobOf(dx, dy).Far()
      modifies img
      ensures Painted(g, old(img[..]), img[..], FillsY(view, JobOf(dx, dy)), Stored(g.bits, scolor))
    {
      hide g.Size, Pixel, Cell, Painted, Stored;
      if dy > 0 {
        FillRect(sx, sy, sw, dy, scolor);
      }
      if dy < 0 {
        FillRect(sx, sy + sh + dy, sw, -dy, scolor);
      }
      if dy == 0 {
        PaintedNothing(g, img[..], FillsY(view, JobOf(dx, dy)), Stored(g.bits, scolor));
      }
    }

    /** Scrolls the rectangle by `dx` to the right and `dy` down. */
    method ScrollBy(dx: int, dy: int)
      requires Valid() && Scrollable()
      modifies img
      ensures Outcome(g, view, old(img[..]), img[..], JobOf(dx, dy), Stored(g.bits, scolor))
    {
      hide g.Size, Pixel, Cell, Shifted, Painted, Stored, Outcome, FillsX, FillsY;
      ghost var before := img[..];
      ghost var c := Stored(g.bits, scolor);
      if Abs(dx) >= sw || Abs(dy) >= sh {
        FillRect(sx, sy, sw, sh, scolor);
        ScrollAway(g, view, before, img[..], JobOf(dx, dy), c);
        return;
      }
      var w, h := sw - Abs(dx), sh - Abs(dy);
      var tx := if dx <= 0 then sx else sx + dx;
      var ty := if dy <= 0 then sy else sy + sh - 1;
      if g.bits == 4 {
        if dx > 0 {
          tx := tx + w;
        }
        MovePixels(tx, ty, w, h, dx, dy);
        PixelsAreMoves(g, view, before, img[..], tx, ty, JobOf(dx, dy));
      } else {
        MoveRows(tx, ty, w, h, dx, dy);
        ShiftedAs(g, view, before, img[..], RowsMoved(tx, ty, w, h, dy), Moves(g, view, JobOf(dx, dy)), dx, dy);
      }
      ghost var moved := img[..];
      FillColumns(dx, dy);
      ghost var filled := img[..];
      FillRows(dx, dy);
      ScrollCloses(g, view, before, moved, filled, img[..], JobOf(dx, dy), c);
    }
  }
}
