/**
 The storage of a sprite: pixels addressed row by row in an array of 16-bit words, of bytes, or of
 bytes that hold two pixels each, and what it means for an image to be painted.
 */
module Raster {

  /** `bits` is 4, 8 or 16; `width` is the row length in memory, even for 4 bits. */
  datatype Geometry = Geometry(bits: nat, width: nat, height: nat)
  {
    predicate Valid() {
      (bits == 4 || bits == 8 || bits == 16) && width > 0 && height > 0 && (bits == 4 ==> width % 2 == 0)
    }

    /** The number of pixels. */
    function Size(): nat {
      width * height
    }

    /** Array elements: the pixels and one spare element after them. */
    function Allocated(): nat {
      if bits == 4 then Size() / 2 + 1 else Size() + 1
    }

    /** Cells: places for one pixel, the spare ones included. */
    function Cells(): nat {
      if bits == 4 then 2 * Allocated() else Allocated()
    }

    predicate Contains(x: int, y: int) {
      0 <= x < width && 0 <= y < height
    }
  }

  type Image = seq<nat>

  /** The cell of a pixel. */
  function At(g: Geometry, x: int, y: int): int {
    x + y * g.width
  }

  /** The array element that holds a cell. */
  function Element(g: Geometry, p: nat): nat {
    if g.bits == 4 then p / 2 else p
  }

  /** The value in a cell: even cells are the high halves of their bytes. */
  function Cell(g: Geometry, img: Image, p: nat): nat
    requires Element(g, p) < |img|
  {
    if g.bits == 4 then (if p % 2 == 0 then img[p / 2] / 16 else img[p / 2] % 16) else img[p]
  }

  /** The element after a value has been put into one of its cells. */
  function Put(g: Geometry, element: nat, p: nat, c: nat): nat {
    if g.bits == 4 then (if p % 2 == 0 then c * 16 + element % 16 else element / 16 * 16 + c) else c
  }

  ghost predicate Fits(g: Geometry, img: Image) {
    g.Valid() && |img| == g.Allocated()
  }

  lemma CellInArray(g: Geometry, img: Image, p: nat)
    requires Fits(g, img) && p < g.Cells()
    ensures Element(g, p) < |img|
  {
  }

  // ----- rows and columns, without multiplication outside these lemmas

  function Abs(n: int): int {
    if n < 0 then -n else n
  }

  lemma RowsAreOrdered(w: nat, a: int, b: int)
    requires a < b
    ensures a * w + w <= b * w
  {
    var k := b - a - 1;
    ProductIsNat(k, w);
    assert b * w == (k + (a + 1)) * w == k * w + (a + 1) * w;
  }

  lemma ProductIsNat(a: nat, b: nat)
    ensures a * b >= 0
  {
  }

  lemma AtInRange(g: Geometry, x: int, y: int)
    requires g.Contains(x, y)
    ensures 0 <= At(g, x, y) < g.Size() < g.Cells() + 1
    ensures At(g, x, y) < g.Cells()
  {
    RowsAreOrdered(g.width, y, g.height);
    assert y * g.width >= 0;
    assert g.height * g.width == g.width * g.height;
  }

  /** A cell lies in a stretch of a row exactly when its pixel does. */
  lemma AtInRow(g: Geometry, px: int, py: int, x: int, y: int, n: nat)
    requires g.Contains(px, py) && 0 <= x && x + n <= g.width
    ensures At(g, x, y) <= At(g, px, py) < At(g, x, y) + n <==> py == y && x <= px < x + n
  {
    if py < y {
      RowsAreOrdered(g.width, py, y);
    } else if y < py {
      RowsAreOrdered(g.width, y, py);
    }
  }

  lemma AtNextRow(g: Geometry, x: int, y: int)
    ensures At(g, x, y + 1) == At(g, x, y) + g.width
    ensures At(g, x, y - 1) == At(g, x, y) - g.width
  {
    assert (y + 1) * g.width == y * g.width + g.width;
    assert (y - 1) * g.width == y * g.width - g.width;
  }

  lemma AtShift(g: Geometry, x: int, y: int, d: int)
    ensures At(g, x + d, y) == At(g, x, y) + d
  {
  }

  lemma AtParity(g: Geometry, x: int, y: int)
    requires g.Valid() && g.bits == 4
    ensures At(g, x, y) % 2 == x % 2
  {
    var half := g.width / 2;
    assert y * g.width == y * (2 * half) == 2 * (y * half);
  }

  /** Every cell before the spare ones belongs to a pixel. */
  lemma CellHasPixel(g: Geometry, p: nat) returns (x: int, y: int)
    requires g.Valid() && p < g.Size()
    ensures g.Contains(x, y) && At(g, x, y) == p
  {
    x, y := Divided(p, g.width, g.height);
  }

  lemma Divided(p: nat, w: nat, h: nat) returns (x: nat, y: nat)
    requires w > 0 && p < w * h
    ensures x < w && y < h && x + y * w == p
    decreases h
  {
    assert w * h == w * (h - 1) + w;
    if p >= w * (h - 1) {
      x, y := p - w * (h - 1), h - 1;
    } else {
      x, y := Divided(p, w, h - 1);
    }
  }

  // ----- painting

  /** The value of a pixel. */
  function Pixel(g: Geometry, img: Image, x: int, y: int): nat
    requires Fits(g, img) && g.Contains(x, y)
  {
    AtInRange(g, x, y);
    CellInArray(g, img, At(g, x, y));
    Cell(g, img, At(g, x, y))
  }

  /** With 4 bits the pixels of an even and the next column share a byte, the even one in its high half. */
  lemma PairInByte(g: Geometry, img: Image, x: int, y: int)
    requires Fits(g, img) && g.bits == 4 && g.Contains(x, y) && x % 2 == 0
    ensures g.Contains(x + 1, y) && 0 <= (x + y * g.width) / 2 < |img|
    ensures Pixel(g, img, x, y) == img[(x + y * g.width) / 2] / 16
    ensures Pixel(g, img, x + 1, y) == img[(x + y * g.width) / 2] % 16
  {
    AtInRange(g, x, y);
    AtParity(g, x, y);
    CellInArray(g, img, At(g, x, y));
    AtShift(g, x, y, 1);
  }

  /** With 8 and 16 bits every pixel has an element of its own, row after row. */
  lemma PixelInArray(g: Geometry, img: Image, x: int, y: int)
    requires Fits(g, img) && g.bits != 4 && g.Contains(x, y)
    ensures 0 <= x + y * g.width < |img| && Pixel(g, img, x, y) == img[x + y * g.width]
  {
    AtInRange(g, x, y);
    CellInArray(g, img, At(g, x, y));
  }

  /** With 4 bits every pixel holds half a byte. */
  ghost predicate Nibbles(g: Geometry, img: Image)
    requires Fits(g, img)
  {
    g.bits == 4 ==> forall x, y :: g.Contains(x, y) ==> Pixel(g, img, x, y) < 16
  }

  /** So it is in an array of bytes. */
  lemma BytesHoldNibbles(g: Geometry, img: Image)
    requires Fits(g, img) && forall i :: 0 <= i < |img| ==> img[i] < 256
    ensures Nibbles(g, img)
  {
    hide At, g.Size;
    if g.bits == 4 {
      forall x, y | g.Contains(x, y)
        ensures Pixel(g, img, x, y) < 16
      {
        AtInRange(g, x, y);
        CellInArray(g, img, At(g, x, y));
      }
    }
  }

  /** Nothing but the `n` cells from `s` on changed, and those hold `c`. */
  ghost predicate CellsSet(g: Geometry, before: Image, after: Image, s: int, n: nat, c: nat) {
    && Fits(g, before) && Fits(g, after)
    && forall p: nat :: p < g.Cells() ==>
         Element(g, p) < |after| && Element(g, p) < |before| &&
         Cell(g, after, p) == if s <= p < s + n then c else Cell(g, before, p)
  }

  lemma PutSetsOneCell(g: Geometry, img: Image, p: nat, c: nat)
    requires Fits(g, img) && p < g.Cells() && (g.bits == 4 ==> c < 16) && Element(g, p) < |img|
    ensures CellsSet(g, img, img[Element(g, p) := Put(g, img[Element(g, p)], p, c)], p, 1, c)
  {
    hide g.Size;
    var e := Element(g, p);
    var after := img[e := Put(g, img[e], p, c)];
    forall q: nat | q < g.Cells()
      ensures Element(g, q) < |img|
      ensures Cell(g, after, q) == if q == p then c else Cell(g, img, q)
    {
      CellInArray(g, img, q);
      if g.bits == 4 {
        PutHalf(img[e], c);
      }
    }
  }

  lemma PutHalf(b: nat, c: nat)
    requires c < 16
    ensures (c * 16 + b % 16) / 16 == c && (c * 16 + b % 16) % 16 == b % 16
    ensures (b / 16 * 16 + c) / 16 == b / 16 && (b / 16 * 16 + c) % 16 == c
  {
  }

  /** The `n` elements from `e` on hold `v`; the others are as before. */
  ghost predicate SpanSet(before: Image, after: Image, e: int, n: nat, v: nat) {
    && |after| == |before|
    && forall i :: 0 <= i < |after| ==> after[i] == if e <= i < e + n then v else before[i]
  }

  /** The `n` elements from `to` on hold what the `n` elements from `from` on held. */
  ghost predicate SpanMoved(before: Image, after: Image, to: nat, from: nat, n: nat) {
    && |after| == |before| && from + n <= |before| && to + n <= |before|
    && forall i :: 0 <= i < |after| ==> after[i] == before[if to <= i < to + n then from + (i - to) else i]
  }

  type Region = (int, int) -> bool

  /** The pixels of the region hold `c`, all others and the spare cells what they held before. */
  ghost predicate Painted(g: Geometry, before: Image, after: Image, r: Region, c: nat) {
    && Fits(g, before) && Fits(g, after)
    && (forall x, y :: g.Contains(x, y) ==>
          Pixel(g, after, x, y) == if r(x, y) then c else Pixel(g, before, x, y))
    && SpareKept(g, before, after)
  }

  ghost predicate SpareKept(g: Geometry, before: Image, after: Image)
    requires Fits(g, before) && Fits(g, after)
  {
    forall p: nat :: g.Size() <= p < g.Cells() ==>
      Element(g, p) < |after| && Element(g, p) < |before| && Cell(g, after, p) == Cell(g, before, p)
  }

  function Rect(x: int, y: int, w: int, h: int): Region {
    (px, py) => x <= px < x + w && y <= py < y + h
  }

  /** A stretch of a row set is a stretch of a row painted. */
  lemma RowPainted(g: Geometry, before: Image, after: Image, x: int, y: int, n: nat, c: nat)
    requires 0 <= x && x + n <= g.width && 0 <= y < g.height
    requires CellsSet(g, before, after, At(g, x, y), n, c)
    ensures Painted(g, before, after, Rect(x, y, n, 1), c)
  {
    hide At, Cell, Element;
    forall px, py | g.Contains(px, py)
      ensures Pixel(g, after, px, py) == if py == y && x <= px < x + n then c else Pixel(g, before, px, py)
    {
      AtInRange(g, px, py);
      AtInRow(g, px, py, x, y, n);
    }
    forall p: nat | g.Size() <= p < g.Cells()
      ensures Element(g, p) < |after| && Element(g, p) < |before| && Cell(g, after, p) == Cell(g, before, p)
    {
      if n > 0 {
        AtInRange(g, x + n - 1, y);
        AtShift(g, x, y, n - 1);
      }
    }
  }

  lemma PaintedNothing(g: Geometry, img: Image, r: Region, c: nat)
    requires Fits(g, img)
    requires forall x, y :: g.Contains(x, y) ==> !r(x, y)
    ensures Painted(g, img, img, r, c)
  {
    hide At, Cell, Element;
    forall p: nat | g.Size() <= p < g.Cells()
      ensures Element(g, p) < |img|
    {
      CellInArray(g, img, p);
    }
  }

  /** The region matters only inside the image. */
  lemma PaintedAs(g: Geometry, a: Image, b: Image, r: Region, r': Region, c: nat)
    requires Painted(g, a, b, r, c)
    requires forall x, y :: g.Contains(x, y) ==> (r(x, y) <==> r'(x, y))
    ensures Painted(g, a, b, r', c)
  {
    hide At, Cell, Element;
  }

  /** One painting after another, with the region of both named. */
  lemma PaintMore(g: Geometry, a: Image, b: Image, d: Image, r: Region, r': Region, whole: Region, c: nat)
    requires Painted(g, a, b, r, c) && Painted(g, b, d, r', c)
    requires forall x, y :: g.Contains(x, y) ==> (whole(x, y) <==> r(x, y) || r'(x, y))
    ensures Painted(g, a, d, whole, c)
  {
    hide At, Cell, Element;
  }

  lemma PaintedKeepsNibbles(g: Geometry, a: Image, b: Image, r: Region, c: nat)
    requires Painted(g, a, b, r, c) && Nibbles(g, a) && (g.bits == 4 ==> c < 16)
    ensures Nibbles(g, b)
  {
    hide At, Cell, Element, Pixel;
  }

  /** A painting is determined by its region: two images painted alike are the same array. */
  lemma PaintedIsUnique(g: Geometry, before: Image, a: Image, b: Image, r: Region, c: nat)
    requires Painted(g, before, a, r, c) && Painted(g, before, b, r, c)
    ensures a == b
  {
    forall p: nat | p < g.Cells()
      ensures Element(g, p) < |a| && Element(g, p) < |b| && Cell(g, a, p) == Cell(g, b, p)
    {
      CellInArray(g, a, p);
      CellInArray(g, b, p);
      if p < g.Size() {
        var x, y := CellHasPixel(g, p);
        assert Pixel(g, a, x, y) == Pixel(g, b, x, y);
      }
    }
    SameCells(g, a, b);
  }

  lemma SameCells(g: Geometry, a: Image, b: Image)
    requires Fits(g, a) && Fits(g, b)
    requires forall p: nat :: p < g.Cells() ==>
               Element(g, p) < |a| && Element(g, p) < |b| && Cell(g, a, p) == Cell(g, b, p)
    ensures a == b
  {
    hide g.Size;
    forall i | 0 <= i < |a|
      ensures a[i] == b[i]
    {
      if g.bits == 4 {
        var p := 2 * i;
        assert p < g.Cells() && p + 1 < g.Cells();
        assert Cell(g, a, p) == Cell(g, b, p);
        assert Cell(g, a, p + 1) == Cell(g, b, p + 1);
        Halves(i, a[i], b[i]);
      } else {
        assert Cell(g, a, i) == Cell(g, b, i);
      }
    }
  }

  lemma Halves(i: nat, a: nat, b: nat)
    ensures 2 * i / 2 == i && (2 * i + 1) / 2 == i && 2 * i % 2 == 0 && (2 * i + 1) % 2 == 1
    ensures a / 16 == b / 16 && a % 16 == b % 16 ==> a == b
  {
  }
}
