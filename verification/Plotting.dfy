/**
 Drawing into a sprite: pixels, lines along the axes and rectangles, clipped to a viewport.
 The packed forms write whole elements at a time; each paints the same region as drawing its pixels
 one by one.
 */
module Plotting {
  import opened Raster

  /** RGB 565. */
  type Colour = c: nat | c < 65536

  /** A colour as it is stored: bytes swapped, RGB 332, or a palette index. */
  function Stored(bits: nat, color: Colour): nat {
    if bits == 16 then Swapped(color)
    else if bits == 8 then color / 8192 * 32 + color / 256 % 8 * 4 + color / 8 % 4
    else color % 16
  }

  function Swapped(color: nat): nat {
    color / 256 + color % 256 * 256
  }

  /** A stored value as a colour, for 8 and 16 bits. */
  function ReadColour(bits: nat, value: nat): nat {
    if bits == 16 then Swapped(value)
    else value / 32 * 8192 + value / 64 * 2048 + value / 4 % 8 * 256 + value / 4 % 8 * 32 + Blue(value % 4)
  }

  function Blue(b: nat): nat {
    if b == 0 then 0 else if b == 1 then 11 else if b == 2 then 21 else 31
  }

  /** Reading back gives the colour drawn. */
  lemma ReadIsStored16(color: Colour)
    ensures Stored(16, color) < 65536
    ensures ReadColour(16, Stored(16, color)) == color
  {
    var high, low := color / 256, color % 256;
    assert color == high * 256 + low;
    assert (high + low * 256) / 256 == low;
  }

  /** With 8 bits colours are lost, but what is read back is stored as the same byte again. */
  lemma ReadIsStored8(value: nat)
    requires value < 256
    ensures ReadColour(8, value) < 65536
    ensures Stored(8, ReadColour(8, value)) == value
  {
    var r, g, b := value / 32, value / 4 % 8, value % 4;
    assert value == r * 32 + g * 4 + b;
    ColourFields(r, value / 64, g, Blue(b));
  }

  /** A colour drawn with 8 bits keeps its three high red and green bits and its two high blue bits. */
  lemma StoredKeepsHighBits(color: Colour)
    ensures Stored(8, color) < 256
    ensures var c := ReadColour(8, Stored(8, color));
            c / 8192 == color / 8192 && c / 256 % 8 == color / 256 % 8 && c / 8 % 4 == color / 8 % 4
  {
    var r, g, b := color / 8192, color / 256 % 8, color / 8 % 4;
    PackedFields(r, g, b);
    ColourFields(r, r / 2, g, Blue(b));
  }

  lemma PackedFields(r: nat, g: nat, b: nat)
    requires r < 8 && g < 8 && b < 4
    ensures var v := r * 32 + g * 4 + b; v < 256 && v / 32 == r && v / 64 == r / 2 && v / 4 % 8 == g && v % 4 == b
  {
    var v := r * 32 + g * 4 + b;
    assert v / 4 == r * 8 + g;
  }

  /** The scale of read colours: red, green and blue are spread over their ranges, up to 31, 63 and 31. */
  lemma ReadScale(value: nat)
    requires value < 256
    ensures Blue(value % 4) == (31 * (value % 4) + 2) / 3
    ensures ReadColour(8, value) / 2048 == value / 32 * 4 + value / 64
    ensures ReadColour(8, value) / 32 % 64 == value / 4 % 8 * 9
  {
    var r, half, g, blue := value / 32, value / 64, value / 4 % 8, Blue(value % 4);
    ScaleFields(r * 4 + half, g, blue);
    assert ReadColour(8, value) == (r * 4 + half) * 2048 + g * 288 + blue;
    BlueScale(value % 4);
  }

  lemma BlueScale(b: nat)
    requires b < 4
    ensures Blue(b) == (31 * b + 2) / 3
  {
  }

  lemma ScaleFields(red: nat, g: nat, blue: nat)
    requires g < 8 && blue < 32
    ensures var c := red * 2048 + g * 288 + blue; c / 2048 == red && c / 32 % 64 == g * 9
  {
    var c := red * 2048 + g * 288 + blue;
    assert c == (red * 64 + g * 9) * 32 + blue;
    assert c / 32 == red * 64 + g * 9;
  }

  /** With 16 bits the high byte of a colour is stored first, that is, in the low half; with 4 bits the index is kept. */
  lemma StoredOrder(color: Colour)
    ensures Stored(16, color) % 256 == color / 256 && Stored(16, color) / 256 == color % 256
    ensures color < 16 ==> Stored(4, color) == color
    ensures color >= 16 ==> Stored(4, color) == Stored(4, color - 16)
  {
  }

  lemma ColourFields(r: nat, half: nat, g: nat, blue: nat)
    requires r < 8 && half < 4 && g < 8 && blue < 32
    ensures var color := r * 8192 + half * 2048 + g * 256 + g * 32 + blue;
            color < 65536 && color / 8192 == r && color / 256 % 8 == g && color / 8 % 4 == blue / 8
  {
    var color := r * 8192 + half * 2048 + g * 256 + g * 32 + blue;
    assert color / 256 == (r * 4 + half) * 8 + g;
    assert color / 8 == ((r * 4 + half) * 64 + g * 8 + g) * 4 + blue / 8;
  }

  // ----- the viewport

  /** Sprite coordinates of the visible rectangle, and where its own origin lies. */
  datatype View = View(left: int, top: int, right: int, bottom: int,
                       xDatum: int, yDatum: int, outOfBounds: bool,
                       xWidth: int, yHeight: int, datum: bool)
  {
    predicate Inside(width: nat, height: nat) {
      0 <= left <= right <= width && 0 <= top <= bottom <= height
    }

    predicate Encloses(x: int, y: int, w: int, h: int) {
      !outOfBounds && left <= x && x + w <= right && top <= y && y + h <= bottom
    }

    predicate Shows(x: int, y: int) {
      !outOfBounds && left <= x < right && top <= y < bottom
    }
  }

  function ViewportOf(width: nat, height: nat, x: int, y: int, w: int, h: int, datum: bool): View {
    var w1 := if x < 0 then w + x else w;
    var x1 := if x < 0 then 0 else x;
    var h1 := if y < 0 then h + y else h;
    var y1 := if y < 0 then 0 else y;
    var w2 := if x1 + w1 > width then width - x1 else w1;
    var h2 := if y1 + h1 > height then height - y1 else h1;
    if w2 < 1 || h2 < 1 then View(0, 0, width, height, 0, 0, true, width, height, false)
    else if datum then View(x1, y1, x1 + w2, y1 + h2, x, y, false, w, h, true)
    else View(x1, y1, x1 + w2, y1 + h2, 0, 0, false, width, height, false)
  }

  /** A viewport shows exactly the pixels of the sprite in the requested rectangle. */
  lemma ViewportShows(width: nat, height: nat, x: int, y: int, w: int, h: int, datum: bool, px: int, py: int)
    ensures var v := ViewportOf(width, height, x, y, w, h, datum);
            && v.Inside(width, height) && (width > 0 && height > 0 ==> v.xWidth > 0 && v.yHeight > 0)
            && (v.Shows(px, py) <==> 0 <= px < width && 0 <= py < height && x <= px < x + w && y <= py < y + h)
  {
  }

  /** The part of a rectangle, given in viewport coordinates, that is visible. */
  function Clipped(v: View, x: int, y: int, w: int, h: int): Region {
    (px, py) => v.Shows(px, py) && x + v.xDatum <= px < x + v.xDatum + w && y + v.yDatum <= py < y + v.yDatum + h
  }

  /** Points are counted from the requested corner if the viewport has a datum, else from the screen's. */
  lemma DatumIsCorner(width: nat, height: nat, x: int, y: int, w: int, h: int, datum: bool, i: int, j: int, px: int, py: int)
    ensures var v := ViewportOf(width, height, x, y, w, h, datum);
            Clipped(v, i, j, 1, 1)(px, py) <==> v.Shows(px, py) && (px, py) == if datum then (x + i, y + j) else (i, j)
  {
    ViewportShows(width, height, x, y, w, h, datum, px, py);
  }

  // ----- drawing pixel by pixel, as a reference

  /** One pixel drawn. */
  function Plot(g: Geometry, v: View, img: Image, x: int, y: int, c: nat): (r: Image)
    requires Fits(g, img) && v.Inside(g.width, g.height)
    ensures Fits(g, r)
  {
    if v.Shows(x + v.xDatum, y + v.yDatum) then
      var p := At(g, x + v.xDatum, y + v.yDatum);
      AtInRange(g, x + v.xDatum, y + v.yDatum);
      CellInArray(g, img, p);
      img[Element(g, p) := Put(g, img[Element(g, p)], p, c)]
    else
      img
  }

  /** Points drawn one after another. */
  function PlotAll(g: Geometry, v: View, img: Image, points: seq<(int, int)>, c: nat): (r: Image)
    requires Fits(g, img) && v.Inside(g.width, g.height)
    ensures Fits(g, r)
    decreases |points|
  {
    if points == [] then img
    else PlotAll(g, v, Plot(g, v, img, points[0].0, points[0].1, c), points[1..], c)
  }

  lemma PlotPaints(g: Geometry, v: View, img: Image, x: int, y: int, c: nat)
    requires Fits(g, img) && v.Inside(g.width, g.height) && (g.bits == 4 ==> c < 16)
    ensures Painted(g, img, Plot(g, v, img, x, y, c), Clipped(v, x, y, 1, 1), c)
  {
    hide Put, Cell, Element, At, g.Size;
    var ax, ay := x + v.xDatum, y + v.yDatum;
    if v.Shows(ax, ay) {
      var p := At(g, ax, ay);
      AtInRange(g, ax, ay);
      CellInArray(g, img, p);
      PutSetsOneCell(g, img, p, c);
      var after := Plot(g, v, img, x, y, c);
      RowPainted(g, img, after, ax, ay, 1, c);
      PaintedAs(g, img, after, Rect(ax, ay, 1, 1), Clipped(v, x, y, 1, 1), c);
    } else {
      PaintedNothing(g, img, Clipped(v, x, y, 1, 1), c);
    }
  }

  /** Drawing points one by one, in any order and with repetitions, paints those that are visible. */
  lemma {:induction false} PlotAllPaints(g: Geometry, v: View, img: Image, points: seq<(int, int)>, c: nat)
    requires Fits(g, img) && v.Inside(g.width, g.height) && (g.bits == 4 ==> c < 16)
    ensures Painted(g, img, PlotAll(g, v, img, points, c),
                    (px, py) => v.Shows(px, py) && (px - v.xDatum, py - v.yDatum) in points, c)
    decreases |points|
  {
    hide Put, Cell, Element, At, Plot;
    var r := (px, py) => v.Shows(px, py) && (px - v.xDatum, py - v.yDatum) in points;
    if points == [] {
      PaintedNothing(g, img, r, c);
    } else {
      var (x, y) := points[0];
      var rest := points[1..];
      var next := Plot(g, v, img, x, y, c);
      var r0 := Clipped(v, x, y, 1, 1);
      var r1 := (px, py) => v.Shows(px, py) && (px - v.xDatum, py - v.yDatum) in rest;
      PlotPaints(g, v, img, x, y, c);
      PlotAllPaints(g, v, next, rest, c);
      assert points == [(x, y)] + rest;
      PaintMore(g, img, next, PlotAll(g, v, next, rest, c), r0, r1, r, c);
    }
  }

  /**
   A packed form that paints the visible part of a rectangle leaves the very array that drawing the
   rectangle's points one by one leaves.
   */
  lemma FastIsPixelByPixel(g: Geometry, v: View, before: Image, after: Image, points: seq<(int, int)>,
                           x: int, y: int, w: int, h: int, c: nat)
    requires v.Inside(g.width, g.height) && (g.bits == 4 ==> c < 16)
    requires Painted(g, before, after, Clipped(v, x, y, w, h), c)
    requires forall px, py :: (px, py) in points <==> x <= px < x + w && y <= py < y + h
    ensures after == PlotAll(g, v, before, points, c)
  {
    hide Put, Cell, Element, At, Plot, PlotAll, Pixel;
    var slow := PlotAll(g, v, before, points, c);
    var r := (px, py) => v.Shows(px, py) && (px - v.xDatum, py - v.yDatum) in points;
    PlotAllPaints(g, v, before, points, c);
    PaintedAs(g, before, slow, r, Clipped(v, x, y, w, h), c);
    PaintedIsUnique(g, before, after, slow, Clipped(v, x, y, w, h), c);
  }
}
