/** The write window of a sprite: a rectangle that colours are streamed into, row by row and round again. */
module Window {
  import opened Raster
  import opened Plotting

  datatype Window = Window(xs: int, ys: int, xe: int, ye: int)
  {
    function Width(): int {
      xe - xs + 1
    }

    function Height(): int {
      ye - ys + 1
    }

    predicate Valid() {
      xs <= xe && ys <= ye
    }

    predicate Contains(x: int, y: int) {
      xs <= x <= xe && ys <= y <= ye
    }

    predicate OnScreen(g: Geometry) {
      Valid() && g.Contains(xs, ys) && g.Contains(xe, ye)
    }

    /** The one place after the last pixel. */
    predicate Spare(g: Geometry) {
      this == Window(0, g.height, 0, g.height)
    }

    predicate Inside(g: Geometry) {
      OnScreen(g) || Spare(g)
    }
  }

  /** The window set by two corners on a screen of `w` by `h` pixels. */
  function WindowOf(g: Geometry, w: int, h: int, x0: int, y0: int, x1: int, y1: int): Window {
    var (l, r) := if x0 > x1 then (x1, x0) else (x0, x1);
    var (t, b) := if y0 > y1 then (y1, y0) else (y0, y1);
    if l >= w || r < 0 || t >= h || b < 0 then
      Window(0, g.height, 0, g.height)
    else
      Window(if l < 0 then 0 else l, if t < 0 then 0 else t,
             if r >= w then w - 1 else r, if b >= h then h - 1 else b)
  }

  /** Every place of the window has a cell in the array. */
  ghost predicate StoresInside(g: Geometry, win: Window) {
    win.Valid() && forall x, y :: win.Contains(x, y) ==> 0 <= At(g, x, y) < g.Cells()
  }

  /** Places further right and further down have later cells. */
  lemma AtIsMonotone(g: Geometry, x: int, y: int, x': int, y': int)
    requires x <= x' && y <= y'
    ensures At(g, x, y) <= At(g, x', y')
  {
    if y < y' {
      RowsAreOrdered(g.width, y, y');
    }
  }

  lemma WindowStoresInside(g: Geometry, w: int, h: int, x0: int, y0: int, x1: int, y1: int)
    requires g.Valid() && w > 0 && h > 0 && At(g, w - 1, h - 1) < g.Cells()
    ensures var win := WindowOf(g, w, h, x0, y0, x1, y1); StoresInside(g, win) && win.Contains(win.xs, win.ys)
  {
    hide At;
    var win := WindowOf(g, w, h, x0, y0, x1, y1);
    forall x, y | win.Contains(x, y)
      ensures 0 <= At(g, x, y) < g.Cells()
    {
      if win.Spare(g) {
        SpareCell(g);
      } else {
        OriginCell(g);
        AtIsMonotone(g, 0, 0, x, y);
        AtIsMonotone(g, x, y, w - 1, h - 1);
      }
    }
  }

  lemma SpareCell(g: Geometry)
    ensures At(g, 0, g.height) == g.Size() < g.Cells()
  {
    assert g.height * g.width == g.width * g.height;
  }

  lemma OriginCell(g: Geometry)
    ensures At(g, 0, 0) == 0
  {
  }

  /**
   Whatever the corners, every store through the window falls into the array, exactly when the last
   pixel of the screen that windows are clipped to has a cell in it.
   */
  lemma StoresAreInsideIff(g: Geometry, w: int, h: int)
    requires g.Valid() && w > 0 && h > 0
    ensures (forall x0, y0, x1, y1 :: StoresInside(g, WindowOf(g, w, h, x0, y0, x1, y1))) <==> At(g, w - 1, h - 1) < g.Cells()
  {
    hide At;
    if At(g, w - 1, h - 1) < g.Cells() {
      forall x0, y0, x1, y1
        ensures StoresInside(g, WindowOf(g, w, h, x0, y0, x1, y1))
      {
        WindowStoresInside(g, w, h, x0, y0, x1, y1);
      }
    } else {
      assert WindowOf(g, w, h, 0, 0, w - 1, h - 1).Contains(w - 1, h - 1);
      assert !StoresInside(g, WindowOf(g, w, h, 0, 0, w - 1, h - 1));
    }
  }

  const TEN_BY_TEN := Geometry(8, 10, 10)

  /** A viewport two pixels wider than its sprite: the last store of its largest window is outside. */
  lemma WideViewportLeavesTheArray()
    ensures var v := ViewportOf(10, 10, 0, 0, 12, 10, true);
            && v.datum && v.xWidth == 12 && v.yHeight == 10
            && At(TEN_BY_TEN, 11, 9) == TEN_BY_TEN.Cells()
            && !StoresInside(TEN_BY_TEN, WindowOf(TEN_BY_TEN, v.xWidth, v.yHeight, 0, 0, 11, 9))
  {
    assert WindowOf(TEN_BY_TEN, 12, 10, 0, 0, 11, 9).Contains(11, 9);
  }

  /**
   Windows keep to the pixels of the sprite and its spare element, whatever the corners, exactly
   when the screen they are clipped to is no larger than the sprite.
   */
  lemma WindowsAreInsideIff(g: Geometry, w: int, h: int)
    requires g.Valid() && w > 0 && h > 0
    ensures (forall x0, y0, x1, y1 :: WindowOf(g, w, h, x0, y0, x1, y1).Inside(g)) <==> w <= g.width && h <= g.height
  {
    if w > g.width || h > g.height {
      assert !WindowOf(g, w, h, 0, 0, w - 1, h - 1).Inside(g);
    }
  }

  /** A screen that is wider but lower: pixels run into the next row, and still every store is inside. */
  lemma WideLowScreenStaysInside(x0: int, y0: int, x1: int, y1: int)
    ensures StoresInside(TEN_BY_TEN, WindowOf(TEN_BY_TEN, 12, 5, x0, y0, x1, y1))
    ensures !WindowOf(TEN_BY_TEN, 12, 5, 0, 0, 11, 4).Inside(TEN_BY_TEN)
  {
    WindowStoresInside(TEN_BY_TEN, 12, 5, x0, y0, x1, y1);
  }

  /** Windows on the sprite, or at its spare element, store inside the array. */
  lemma InsideStoresInside(g: Geometry, win: Window)
    requires g.Valid() && win.Inside(g)
    ensures StoresInside(g, win)
  {
    hide At;
    forall x, y | win.Contains(x, y)
      ensures 0 <= At(g, x, y) < g.Cells()
    {
      if win.Spare(g) {
        SpareCell(g);
      } else {
        AtInRange(g, x, y);
      }
    }
  }

  /** A window that can be seen covers the part of the requested rectangle on the screen. */
  lemma WindowCovers(g: Geometry, w: int, h: int, x0: int, y0: int, x1: int, y1: int, x: int, y: int)
    requires g.Valid() && 0 < w <= g.width && 0 < h <= g.height
    ensures var win := WindowOf(g, w, h, x0, y0, x1, y1);
            win.OnScreen(g) && win.Contains(x, y) <==>
            0 <= x < w && 0 <= y < h && (x0 <= x <= x1 || x1 <= x <= x0) && (y0 <= y <= y1 || y1 <= y <= y0)
  {
  }

  // ----- the write pointer

  type Point = (int, int)

  /** One place on; at the end of a row to the next row, at the end of the window to its start. */
  function Advance(win: Window, at: Point): Point {
    if at.0 + 1 > win.xe then
      (win.xs, if at.1 + 1 > win.ye then win.ys else at.1 + 1)
    else
      (at.0 + 1, at.1)
  }

  function Nth(win: Window, k: nat): Point
    requires win.Valid()
  {
    (win.xs + k % win.Width(), win.ys + k / win.Width() % win.Height())
  }

  lemma QuotientIs(a: nat, d: nat, q: nat, r: nat)
    requires r < d && a == q * d + r
    ensures a / d == q && a % d == r
  {
    if a / d < q {
      RowsAreOrdered(d, a / d, q);
    } else if a / d > q {
      RowsAreOrdered(d, q, a / d);
    }
  }

  lemma Successor(k: nat, d: nat)
    requires d > 0
    ensures k % d + 1 < d ==> (k + 1) / d == k / d && (k + 1) % d == k % d + 1
    ensures k % d + 1 == d ==> (k + 1) / d == k / d + 1 && (k + 1) % d == 0
  {
    var q, r := k / d, k % d;
    assert k == q * d + r;
    if r + 1 < d {
      QuotientIs(k + 1, d, q, r + 1);
    } else {
      assert (q + 1) * d == q * d + d;
      QuotientIs(k + 1, d, q + 1, 0);
    }
  }

  /** After `k` writes the pointer is at column `k mod W` and row `(k div W) mod H` of the window. */
  lemma AdvanceFollows(win: Window, k: nat)
    requires win.Valid()
    ensures Nth(win, 0) == (win.xs, win.ys)
    ensures Advance(win, Nth(win, k)) == Nth(win, k + 1)
    ensures win.Contains(Nth(win, k).0, Nth(win, k).1)
  {
    var w, h := win.Width(), win.Height();
    Successor(k, w);
    Successor(k / w, h);
    QuotientIs(0, w, 0, 0);
    QuotientIs(0, h, 0, 0);
  }

  /** The pointer comes to a place every `W * H` writes. */
  lemma NthHits(win: Window, k: nat, x: int, y: int)
    requires win.Contains(x, y)
    ensures win.Width() * win.Height() > 0
    ensures Nth(win, k) == (x, y) <==> k % (win.Width() * win.Height()) == (x - win.xs) + (y - win.ys) * win.Width()
  {
    var w, h := win.Width(), win.Height();
    RowsAndColumns(k, w);
    RowsAndColumns(k / w, h);
    Hits(w, h, k % w, k / w % h, k / w / h, x - win.xs, y - win.ys);
  }

  lemma RowsAndColumns(k: nat, w: nat)
    requires w > 0
    ensures k == k / w * w + k % w && k / w >= 0
    ensures k % w < w
  {
  }

  lemma Hits(w: nat, h: nat, r: nat, r2: nat, q2: nat, i: nat, j: nat)
    requires r < w && i < w && r2 < h && j < h
    ensures w * h > 0
    ensures ((q2 * h + r2) * w + r) % (w * h) == i + j * w <==> r == i && r2 == j
  {
    var k := (q2 * h + r2) * w + r;
    var d := w * h;
    RowsAreOrdered(w, r2, h);
    ProductIsNat(r2, w);
    ProductIsNat(q2, d);
    assert h * w == d;
    assert k == q2 * d + (r2 * w + r) by {
      assert (q2 * h + r2) * w == q2 * h * w + r2 * w;
      assert q2 * h * w == q2 * (h * w);
    }
    QuotientIs(k, d, q2, r2 * w + r);
    if r2 < j {
      RowsAreOrdered(w, r2, j);
    } else if j < r2 {
      RowsAreOrdered(w, j, r2);
    }
  }

  // ----- what a stream of colours leaves behind

  /** A value written at a place that has a cell. */
  function WriteAt(g: Geometry, img: Image, at: Point, c: nat): (r: Image)
    requires Fits(g, img) && 0 <= At(g, at.0, at.1) < g.Cells()
    ensures Fits(g, r)
  {
    var p := At(g, at.0, at.1);
    CellInArray(g, img, p);
    img[Element(g, p) := Put(g, img[Element(g, p)], p, c)]
  }

  function Stream(g: Geometry, win: Window, at: Point, img: Image, cs: seq<nat>): (r: Image)
    requires Fits(g, img) && StoresInside(g, win) && win.Contains(at.0, at.1)
    ensures Fits(g, r)
    decreases |cs|
  {
    if cs == [] then img
    else Stream(g, win, Advance(win, at), WriteAt(g, img, at, cs[0]), cs[1..])
  }

  function Copies(n: nat, c: nat): seq<nat> {
    seq(n, _ => c)
  }

  lemma OneCopyLess(n: nat, c: nat)
    ensures n == 0 ==> Copies(n, c) == []
    ensures n > 0 ==> |Copies(n, c)| > 0 && Copies(n, c)[0] == c && Copies(n, c)[1..] == Copies(n - 1, c)
  {
  }

  /** The value of a cell, and the one after a write. */
  function Held(g: Geometry, img: Image, p: nat): nat
    requires Fits(g, img) && p < g.Cells()
  {
    CellInArray(g, img, p);
    Cell(g, img, p)
  }

  lemma WriteAtHolds(g: Geometry, img: Image, at: Point, c: nat, p: nat)
    requires Fits(g, img) && 0 <= At(g, at.0, at.1) < g.Cells() && (g.bits == 4 ==> c < 16) && p < g.Cells()
    ensures Held(g, WriteAt(g, img, at, c), p) == if At(g, at.0, at.1) == p then c else Held(g, img, p)
  {
    hide At, Cell, Element, Put, g.Size;
    CellInArray(g, img, At(g, at.0, at.1));
    PutSetsOneCell(g, img, At(g, at.0, at.1), c);
  }

  /** A cell that the pointer does not come to is left alone. */
  lemma {:induction false} StreamKeeps(g: Geometry, win: Window, img: Image, cs: seq<nat>, k: nat, p: nat)
    requires Fits(g, img) && StoresInside(g, win) && win.Contains(Nth(win, k).0, Nth(win, k).1)
    requires g.bits == 4 ==> forall i :: 0 <= i < |cs| ==> cs[i] < 16
    requires p < g.Cells() && forall n: nat :: k <= n < k + |cs| ==> At(g, Nth(win, n).0, Nth(win, n).1) != p
    ensures Held(g, Stream(g, win, Nth(win, k), img, cs), p) == Held(g, img, p)
    decreases |cs|
  {
    hide Held, Nth, WriteAt, Advance, At;
    if cs != [] {
      AdvanceFollows(win, k);
      AdvanceFollows(win, k + 1);
      WriteAtHolds(g, img, Nth(win, k), cs[0], p);
      StreamKeeps(g, win, WriteAt(g, img, Nth(win, k), cs[0]), cs[1..], k + 1, p);
    }
  }

  /** A cell holds the last colour written while the pointer was there. */
  lemma {:induction false} StreamShows(g: Geometry, win: Window, img: Image, cs: seq<nat>, k: nat, p: nat, n: nat)
    requires Fits(g, img) && StoresInside(g, win) && win.Contains(Nth(win, k).0, Nth(win, k).1)
    requires g.bits == 4 ==> forall i :: 0 <= i < |cs| ==> cs[i] < 16
    requires p < g.Cells() && k <= n < k + |cs| && At(g, Nth(win, n).0, Nth(win, n).1) == p
    requires forall m: nat :: n < m < k + |cs| ==> At(g, Nth(win, m).0, Nth(win, m).1) != p
    ensures Held(g, Stream(g, win, Nth(win, k), img, cs), p) == cs[n - k]
    decreases |cs|
  {
    hide Held, Nth, WriteAt, Advance, At;
    AdvanceFollows(win, k);
    AdvanceFollows(win, k + 1);
    WriteAtHolds(g, img, Nth(win, k), cs[0], p);
    var next := WriteAt(g, img, Nth(win, k), cs[0]);
    if n == k {
      StreamKeeps(g, win, next, cs[1..], k + 1, p);
    } else {
      StreamShows(g, win, next, cs[1..], k + 1, p, n);
    }
  }

  /** On the sprite, places have the same cell only if they are the same. */
  lemma SamePlace(g: Geometry, a: Point, x: int, y: int)
    requires g.Valid() && g.Contains(x, y) && (g.Contains(a.0, a.1) || a == (0, g.height))
    ensures 0 <= At(g, x, y) < g.Cells()
    ensures At(g, a.0, a.1) == At(g, x, y) <==> a == (x, y)
  {
    hide At, g.Size;
    AtInRange(g, x, y);
    if g.Contains(a.0, a.1) {
      AtInRow(g, x, y, a.0, a.1, 1);
    } else {
      SpareCell(g);
    }
  }

  /** What the pixels of the sprite hold after a stream that does not go round the window. */
  lemma StreamPixel(g: Geometry, win: Window, img: Image, k: nat, cs: seq<nat>, x: int, y: int)
    requires Fits(g, img) && win.OnScreen(g) && StoresInside(g, win) && win.Contains(Nth(win, k).0, Nth(win, k).1)
    requires g.bits == 4 ==> forall i :: 0 <= i < |cs| ==> cs[i] < 16
    requires k + |cs| <= win.Width() * win.Height() && g.Contains(x, y)
    ensures var i := (x - win.xs) + (y - win.ys) * win.Width();
            Pixel(g, Stream(g, win, Nth(win, k), img, cs), x, y) ==
            if win.Contains(x, y) && k <= i < k + |cs| then cs[i - k] else Pixel(g, img, x, y)
  {
    hide WriteAt, At, Cell, Element, Stream, Nth, Advance, g.Size;
    var i := (x - win.xs) + (y - win.ys) * win.Width();
    var p := At(g, x, y);
    AtInRange(g, x, y);
    forall m: nat | k <= m < k + |cs|
      ensures At(g, Nth(win, m).0, Nth(win, m).1) == p <==> win.Contains(x, y) && m == i
    {
      AdvanceFollows(win, m);
      SamePlace(g, Nth(win, m), x, y);
      if win.Contains(x, y) {
        NthHits(win, m, x, y);
        QuotientIs(m, win.Width() * win.Height(), 0, m);
      }
    }
    if win.Contains(x, y) && k <= i < k + |cs| {
      StreamShows(g, win, img, cs, k, p, i);
    } else {
      StreamKeeps(g, win, img, cs, k, p);
    }
  }

  /** Colours streamed into a window that is not overrun: the window holds them row by row. */
  lemma FirstRound(g: Geometry, win: Window, img: Image, cs: seq<nat>, x: int, y: int)
    requires Fits(g, img) && win.OnScreen(g)
    requires g.bits == 4 ==> forall i :: 0 <= i < |cs| ==> cs[i] < 16
    requires g.Contains(x, y) && |cs| <= win.Width() * win.Height()
    ensures StoresInside(g, win)
    ensures var i := (x - win.xs) + (y - win.ys) * win.Width();
            Pixel(g, Stream(g, win, (win.xs, win.ys), img, cs), x, y) ==
            if win.Contains(x, y) && 0 <= i < |cs| then cs[i] else Pixel(g, img, x, y)
  {
    hide Pixel, Nth, WriteAt, Advance, Stream, g.Size;
    InsideStoresInside(g, win);
    AdvanceFollows(win, 0);
    StreamPixel(g, win, img, 0, cs, x, y);
  }

  /** Nothing of an off-screen window is seen. */
  lemma SpareStream(g: Geometry, win: Window, img: Image, cs: seq<nat>, x: int, y: int)
    requires Fits(g, img) && win.Spare(g) && g.Contains(x, y)
    requires g.bits == 4 ==> forall i :: 0 <= i < |cs| ==> cs[i] < 16
    ensures StoresInside(g, win)
    ensures Pixel(g, Stream(g, win, (win.xs, win.ys), img, cs), x, y) == Pixel(g, img, x, y)
  {
    hide WriteAt, Stream, At, Cell, Element, Nth, Advance, g.Size, StoresInside;
    InsideStoresInside(g, win);
    AdvanceFollows(win, 0);
    AtInRange(g, x, y);
    var p: nat := At(g, x, y);
    forall m: nat | 0 <= m < |cs|
      ensures At(g, Nth(win, m).0, Nth(win, m).1) != p
    {
      OnlySpare(g, win, m);
      SamePlace(g, (0, g.height), x, y);
    }
    StreamKeeps(g, win, img, cs, 0, p);
  }

  lemma OnlySpare(g: Geometry, win: Window, m: nat)
    requires win.Spare(g)
    ensures Nth(win, m) == (0, g.height)
  {
    AdvanceFollows(win, m);
  }

  /** The places that the pointer comes to at the writes from the `k`-th on. */
  function Stretch(win: Window, k: nat, n: nat): Region {
    (x, y) => win.Contains(x, y) && k <= (x - win.xs) + (y - win.ys) * win.Width() < k + n
  }

  /** A window on the sprite leaves the spare cells alone. */
  lemma StreamKeepsSpare(g: Geometry, win: Window, img: Image, k: nat, cs: seq<nat>)
    requires Fits(g, img) && win.OnScreen(g) && StoresInside(g, win) && win.Contains(Nth(win, k).0, Nth(win, k).1)
    requires g.bits == 4 ==> forall i :: 0 <= i < |cs| ==> cs[i] < 16
    ensures SpareKept(g, img, Stream(g, win, Nth(win, k), img, cs))
  {
    hide WriteAt, At, Cell, Element, Nth, Advance, Stream, g.Size;
    var after := Stream(g, win, Nth(win, k), img, cs);
    forall p: nat | g.Size() <= p < g.Cells()
      ensures Element(g, p) < |after| && Element(g, p) < |img| && Cell(g, after, p) == Cell(g, img, p)
    {
      forall m: nat | k <= m < k + |cs|
        ensures At(g, Nth(win, m).0, Nth(win, m).1) != p
      {
        AdvanceFollows(win, m);
        AtInRange(g, Nth(win, m).0, Nth(win, m).1);
      }
      CellInArray(g, after, p);
      CellInArray(g, img, p);
      StreamKeeps(g, win, img, cs, k, p);
    }
  }

  lemma WriteAtPaints(g: Geometry, img: Image, x: int, y: int, c: nat)
    requires Fits(g, img) && g.Contains(x, y) && (g.bits == 4 ==> c < 16)
    ensures 0 <= At(g, x, y) < g.Cells()
    ensures Painted(g, img, WriteAt(g, img, (x, y), c), Rect(x, y, 1, 1), c)
  {
    hide At, Cell, Element, Put, g.Size;
    AtInRange(g, x, y);
    CellInArray(g, img, At(g, x, y));
    PutSetsOneCell(g, img, At(g, x, y), c);
    RowPainted(g, img, WriteAt(g, img, (x, y), c), x, y, 1, c);
  }

  /** A block of one colour, streamed from the `k`-th place on and not round the window, paints its stretch. */
  lemma BlockPaints(g: Geometry, win: Window, img: Image, k: nat, n: nat, c: nat)
    requires Fits(g, img) && win.OnScreen(g) && win.Contains(Nth(win, k).0, Nth(win, k).1) && (g.bits == 4 ==> c < 16)
    requires k + n <= win.Width() * win.Height()
    ensures StoresInside(g, win)
    ensures Painted(g, img, Stream(g, win, Nth(win, k), img, Copies(n, c)), Stretch(win, k, n), c)
  {
    hide Pixel, WriteAt, At, Cell, Element, Stream, Nth, Advance;
    InsideStoresInside(g, win);
    var cs := Copies(n, c);
    var after := Stream(g, win, Nth(win, k), img, cs);
    StreamKeepsSpare(g, win, img, k, cs);
    forall x, y | g.Contains(x, y)
      ensures Pixel(g, after, x, y) == if Stretch(win, k, n)(x, y) then c else Pixel(g, img, x, y)
    {
      StreamPixel(g, win, img, k, cs, x, y);
    }
  }
}
