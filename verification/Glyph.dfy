/**
 Characters of the run-length encoded fonts on the display: three ways to paint them, chosen by
 colours, size and clipping, and the one picture they all paint.
 */
module Glyph {
  import opened Raster
  import opened Plotting
  import opened Window
  import opened Options

  // ----- the font data

  /** A byte stands for up to 128 equal pixels; its top bit tells text from background. */
  function RunLength(b: nat): nat {
    b % 128 + 1
  }

  function IsText(b: nat): bool {
    b / 128 % 2 == 1
  }

  /** The runs add up to exactly `total` pixels. */
  predicate Exact(flash: seq<nat>, total: int)
    decreases |flash|
  {
    total == 0 || (flash != [] && RunLength(flash[0]) <= total && Exact(flash[1..], total - RunLength(flash[0])))
  }

  /** The pixels of a character in order: true for text, false for background. */
  function Decode(flash: seq<nat>, total: nat): (bits: seq<bool>)
    requires Exact(flash, total)
    ensures |bits| == total
    decreases |flash|
  {
    if total == 0 then []
    else seq(RunLength(flash[0]), _ => IsText(flash[0])) + Decode(flash[1..], total - RunLength(flash[0]))
  }

  // ----- the format, from the side of a font

  /** So many equal pixels in a row. */
  datatype Run = Run(text: bool, n: nat)

  predicate Fitting(runs: seq<Run>) {
    forall i :: 0 <= i < |runs| ==> 1 <= runs[i].n <= 128
  }

  /** Text runs are the bytes from 128 on, background runs those below. */
  function EncodeRuns(runs: seq<Run>): seq<nat>
    requires Fitting(runs)
  {
    if runs == [] then [] else [if runs[0].text then 127 + runs[0].n else runs[0].n - 1] + EncodeRuns(runs[1..])
  }

  /** The runs laid end to end. */
  function Laid(runs: seq<Run>): seq<bool> {
    if runs == [] then [] else seq(runs[0].n, _ => runs[0].text) + Laid(runs[1..])
  }

  /** Whatever follows them in memory, encoded runs add up exactly and decode as they were laid. */
  lemma {:induction false} EncodedRunsDecode(runs: seq<Run>, tail: seq<nat>)
    requires Fitting(runs)
    ensures Exact(EncodeRuns(runs) + tail, |Laid(runs)|)
    ensures Decode(EncodeRuns(runs) + tail, |Laid(runs)|) == Laid(runs)
  {
    hide RunLength, IsText, Exact, Decode, Laid;
    if runs == [] {
      NothingLaid();
      NothingDecoded(tail);
      assert [] + tail == tail;
    } else {
      var r, rest := runs[0], runs[1..];
      var b: nat := if r.text then 127 + r.n else r.n - 1;
      var more := EncodeRuns(rest) + tail;
      EncodedRunsDecode(rest, tail);
      RunByte(r.text, r.n);
      assert EncodeRuns(runs) + tail == [b] + more;
      OneRunMore(b, r, more, |Laid(rest)|);
      LaidNext(runs);
    }
  }

  lemma NothingLaid()
    ensures Laid([]) == []
  {
  }

  lemma NothingDecoded(flash: seq<nat>)
    ensures Exact(flash, 0) && Decode(flash, 0) == []
  {
  }

  lemma OneRunMore(b: nat, r: Run, more: seq<nat>, total: nat)
    requires Exact(more, total) && RunLength(b) == r.n && IsText(b) == r.text
    ensures Exact([b] + more, r.n + total)
    ensures Decode([b] + more, r.n + total) == seq(r.n, _ => r.text) + Decode(more, total)
  {
    assert ([b] + more)[1..] == more;
    assert seq(RunLength(b), _ => IsText(b)) == seq(r.n, _ => r.text);
  }

  lemma LaidNext(runs: seq<Run>)
    requires runs != []
    ensures Laid(runs) == seq(runs[0].n, _ => runs[0].text) + Laid(runs[1..])
    ensures |Laid(runs)| == runs[0].n + |Laid(runs[1..])|
  {
  }

  lemma RunByte(text: bool, n: nat)
    requires 1 <= n <= 128
    ensures var b := if text then 127 + n else n - 1; b < 256 && RunLength(b) == n && (IsText(b) <==> text)
  {
  }

  /** Every picture has an encoding. */
  lemma {:induction false} EveryPictureIsEncoded(bits: seq<bool>) returns (runs: seq<Run>)
    ensures Fitting(runs) && Laid(runs) == bits
  {
    if bits == [] {
      runs := [];
    } else {
      var rest := EveryPictureIsEncoded(bits[1..]);
      runs := [Run(bits[0], 1)] + rest;
      assert runs[1..] == rest;
      assert seq(1, _ => bits[0]) == [bits[0]];
    }
  }

  // ----- the picture

  /** A character: pixel `i` is the square of `size` by `size` at column `i mod width`, row `i div width`. */
  datatype Char = Char(bits: seq<bool>, width: nat, x: int, y: int, size: nat, fg: nat, bg: nat)
  {
    predicate Valid() {
      size > 0
    }

    /** What a pixel of the character paints: nothing for the background of transparent text. */
    function Colour(i: nat): Option<nat>
      requires i < |bits|
    {
      if bits[i] then Some(fg) else if fg == bg then None else Some(bg)
    }
  }

  /** The squares of pixels `n` to `n + m - 1` as far as they are visible. */
  function Squares(v: View, ch: Char, n: int, m: int): Region
    requires ch.Valid()
  {
    (px, py) => v.Shows(px, py) && InSquares(ch, n, m, px, py)
  }

  predicate InSquares(ch: Char, n: int, m: int, px: int, py: int)
    requires ch.Valid()
  {
    var i, j := px - ch.x, py - ch.y;
    i >= 0 && j >= 0 && i / ch.size < ch.width && n <= Index(ch, px, py) < n + m
  }

  function Index(ch: Char, px: int, py: int): int
    requires ch.Valid()
  {
    (px - ch.x) / ch.size + (py - ch.y) / ch.size * ch.width
  }

  /** The value of a pixel of the display once the first `n` pixels of the character are painted. */
  ghost predicate ShownAt(g: Geometry, v: View, before: Image, after: Image, ch: Char, n: nat, px: int, py: int)
    requires Fits(g, before) && Fits(g, after) && g.Contains(px, py) && ch.Valid() && n <= |ch.bits|
  {
    Pixel(g, after, px, py) ==
    if Squares(v, ch, 0, n)(px, py) && ch.Colour(Index(ch, px, py)).Some? then ch.Colour(Index(ch, px, py)).value
    else Pixel(g, before, px, py)
  }

  ghost predicate Shown(g: Geometry, v: View, before: Image, after: Image, ch: Char, n: nat) {
    && ch.Valid() && n <= |ch.bits| && Fits(g, before) && Fits(g, after)
    && (forall px, py :: g.Contains(px, py) ==> ShownAt(g, v, before, after, ch, n, px, py))
    && SpareKept(g, before, after)
  }

  lemma ShownNothing(g: Geometry, v: View, img: Image, ch: Char)
    requires Fits(g, img) && ch.Valid()
    ensures Shown(g, v, img, img, ch, 0)
  {
    hide Pixel, At, Cell, Element, Index;
    PaintedNothing(g, img, (x, y) => false, 0);
  }

  /** The picture determines the memory of the display. */
  lemma ShownIsUnique(g: Geometry, v: View, before: Image, a: Image, b: Image, ch: Char, n: nat)
    requires Shown(g, v, before, a, ch, n) && Shown(g, v, before, b, ch, n)
    ensures a == b
  {
    hide Pixel, At, Cell, Element, Index;
    forall px, py | g.Contains(px, py)
      ensures Pixel(g, a, px, py) == Pixel(g, b, px, py)
    {
      assert ShownAt(g, v, before, a, ch, n, px, py);
      assert ShownAt(g, v, before, b, ch, n, px, py);
    }
    PaintedIsUnique(g, a, b, a, (x, y) => false, 0);
  }

  /** More pixels painted, all of one kind. */
  lemma ShownMore(g: Geometry, v: View, before: Image, now: Image, after: Image, ch: Char, n: nat, m: nat, text: bool)
    requires Shown(g, v, before, now, ch, n) && n + m <= |ch.bits|
    requires forall i :: n <= i < n + m ==> ch.bits[i] == text
    requires text || ch.fg != ch.bg ==> Painted(g, now, after, Squares(v, ch, n, m), if text then ch.fg else ch.bg)
    requires !text && ch.fg == ch.bg ==> now == after
    ensures Shown(g, v, before, after, ch, n + m)
  {
    hide Pixel, At, Cell, Element, Index;
    forall px, py | g.Contains(px, py)
      ensures ShownAt(g, v, before, after, ch, n + m, px, py)
    {
      assert ShownAt(g, v, before, now, ch, n, px, py);
      SquaresSplit(v, ch, n, m, px, py);
    }
  }

  lemma SquaresSplit(v: View, ch: Char, n: nat, m: nat, px: int, py: int)
    requires ch.Valid()
    ensures Squares(v, ch, 0, n + m)(px, py) <==> Squares(v, ch, 0, n)(px, py) || Squares(v, ch, n, m)(px, py)
    ensures !(Squares(v, ch, 0, n)(px, py) && Squares(v, ch, n, m)(px, py))
  {
    if px >= ch.x && py >= ch.y {
      IndexIsNat(ch, px, py);
    }
  }

  lemma IndexIsNat(ch: Char, px: int, py: int)
    requires ch.Valid() && px >= ch.x && py >= ch.y
    ensures Index(ch, px, py) >= 0
  {
    RowsAndColumns(px - ch.x, ch.size);
    RowsAndColumns(py - ch.y, ch.size);
    ProductIsNat((py - ch.y) / ch.size, ch.width);
  }

  /** Which squares a stretch of pixels on the screen belongs to. */
  lemma InStretch(t: int, size: nat, lo: nat, n: nat)
    requires size > 0
    ensures size * lo <= t < size * lo + n * size <==> t >= 0 && lo <= t / size < lo + n
  {
    ProductIsNat(size, lo);
    if t >= 0 {
      var q := t / size;
      RowsAndColumns(t, size);
      assert size * lo == lo * size;
      assert lo * size + n * size == (lo + n) * size;
      if q < lo {
        RowsAreOrdered(size, q, lo);
      } else if q >= lo + n {
        Monotone(size, lo + n, q);
        Monotone(size, lo, q);
      } else {
        Monotone(size, lo, q);
        RowsAreOrdered(size, q, lo + n);
      }
    }
  }

  lemma Monotone(w: nat, a: int, b: int)
    requires a <= b
    ensures a * w <= b * w
  {
    if a < b {
      RowsAreOrdered(w, a, b);
    }
  }

  /** The rectangle over `n` pixels of one row of the character is their squares. */
  lemma RowOfSquares(v: View, ch: Char, col: nat, row: nat, n: nat, px: int, py: int)
    requires ch.Valid() && col + n <= ch.width
    ensures Rect(ch.x + ch.size * col, ch.y + ch.size * row, n * ch.size, ch.size)(px, py) <==>
            InSquares(ch, col + row * ch.width, n, px, py)
  {
    var i, j := px - ch.x, py - ch.y;
    InStretch(i, ch.size, col, n);
    InStretch(j, ch.size, row, 1);
    if i >= 0 && j >= 0 {
      var a, b := i / ch.size, j / ch.size;
      RowsAndColumns(i, ch.size);
      RowsAndColumns(j, ch.size);
      if b < row {
        RowsAreOrdered(ch.width, b, row);
      } else if b > row {
        RowsAreOrdered(ch.width, row, b);
      }
    }
  }

  /** A rectangle painted over part of a row paints its squares. */
  lemma RowPaintsSquares(g: Geometry, v: View, now: Image, after: Image, ch: Char, col: nat, row: nat, n: nat, r: Region, c: nat)
    requires ch.Valid() && col + n <= ch.width && Painted(g, now, after, r, c)
    requires forall px, py :: g.Contains(px, py) ==>
               (r(px, py) <==> v.Shows(px, py) && Rect(ch.x + ch.size * col, ch.y + ch.size * row, n * ch.size, ch.size)(px, py))
    ensures Painted(g, now, after, Squares(v, ch, col + row * ch.width, n), c)
  {
    hide Painted, Rect, InSquares;
    forall px, py | g.Contains(px, py)
      ensures r(px, py) <==> Squares(v, ch, col + row * ch.width, n)(px, py)
    {
      RowOfSquares(v, ch, col, row, n, px, py);
    }
    PaintedAs(g, now, after, r, Squares(v, ch, col + row * ch.width, n), c);
  }

  /** A character beside the viewport shows nothing. */
  lemma ShownOutside(g: Geometry, v: View, img: Image, ch: Char)
    requires Fits(g, img) && ch.Valid()
    requires v.outOfBounds || ch.x + ch.width * ch.size < v.left || ch.x >= v.right
    ensures Shown(g, v, img, img, ch, |ch.bits|)
  {
    hide Pixel, At, Cell, Element, Index;
    PaintedNothing(g, img, (x, y) => false, 0);
    forall px, py | g.Contains(px, py)
      ensures ShownAt(g, v, img, img, ch, |ch.bits|, px, py)
    {
      InStretch(px - ch.x, ch.size, 0, ch.width);
    }
  }

  /**
   Pixel `i` of a character, at column `i mod width` and row `i div width`, is seen on every visible
   pixel of its square.
   */
  lemma PixelIsSeen(g: Geometry, v: View, before: Image, after: Image, ch: Char, i: nat, dx: nat, dy: nat)
    requires Shown(g, v, before, after, ch, |ch.bits|) && i < |ch.bits| && ch.width > 0 && dx < ch.size && dy < ch.size
    ensures var px, py := ch.x + ch.size * (i % ch.width) + dx, ch.y + ch.size * (i / ch.width) + dy;
            g.Contains(px, py) && v.Shows(px, py) ==>
              Pixel(g, after, px, py) ==
              if ch.bits[i] then ch.fg else if ch.fg != ch.bg then ch.bg else Pixel(g, before, px, py)
  {
    hide Pixel, At, Cell, Element, g.Size;
    var col, row := i % ch.width, i / ch.width;
    var px, py := ch.x + ch.size * col + dx, ch.y + ch.size * row + dy;
    if g.Contains(px, py) && v.Shows(px, py) {
      RowsAndColumns(i, ch.width);
      SizeOne(ch.size);
      RowOfSquares(v, ch, col, row, 1, px, py);
      assert Rect(ch.x + ch.size * col, ch.y + ch.size * row, 1 * ch.size, ch.size)(px, py);
      assert Index(ch, px, py) == i;
      assert ShownAt(g, v, before, after, ch, |ch.bits|, px, py);
    }
  }

  /**
   A character drawn from encoded runs: on every visible pixel of the square of pixel `i` the text
   colour is seen if the runs have text there, and else the background colour, or for transparent text
   what was there before.
   */
  lemma EncodedPictureIsSeen(g: Geometry, v: View, before: Image, after: Image, runs: seq<Run>, tail: seq<nat>,
                             ch: Char, i: nat, dx: nat, dy: nat)
    requires Fitting(runs) && Exact(EncodeRuns(runs) + tail, |Laid(runs)|)
    requires ch.bits == Decode(EncodeRuns(runs) + tail, |Laid(runs)|)
    requires Shown(g, v, before, after, ch, |Laid(runs)|) && i < |Laid(runs)| && ch.width > 0 && dx < ch.size && dy < ch.size
    ensures var px, py := ch.x + ch.size * (i % ch.width) + dx, ch.y + ch.size * (i / ch.width) + dy;
            g.Contains(px, py) && v.Shows(px, py) ==>
              Pixel(g, after, px, py) ==
              if Laid(runs)[i] then ch.fg else if ch.fg != ch.bg then ch.bg else Pixel(g, before, px, py)
  {
    hide Shown, Pixel, Exact, Decode, Laid, EncodeRuns;
    EncodedRunsDecode(runs, tail);
    PixelIsSeen(g, v, before, after, ch, i, dx, dy);
  }

  // ----- reading runs

  /** The next run: its pixels are equal, and the rest of the data holds the rest of the character. */
  lemma NextRun(flash: seq<nat>, bits: seq<bool>, i: nat, n: nat)
    requires i <= |flash| && n < |bits|
    requires Exact(flash[i..], |bits| - n) && bits[n..] == Decode(flash[i..], |bits| - n)
    ensures i < |flash| && n + RunLength(flash[i]) <= |bits|
    ensures forall k :: n <= k < n + RunLength(flash[i]) ==> bits[k] == IsText(flash[i])
    ensures Exact(flash[i + 1..], |bits| - (n + RunLength(flash[i])))
    ensures bits[n + RunLength(flash[i])..] == Decode(flash[i + 1..], |bits| - (n + RunLength(flash[i])))
  {
    hide RunLength, IsText;
    var rest := flash[i..];
    assert rest[0] == flash[i] && rest[1..] == flash[i + 1..];
    var len := RunLength(flash[i]);
    var run := seq(len, _ => IsText(flash[i]));
    var tail := Decode(flash[i + 1..], |bits| - n - len);
    assert bits[n..] == run + tail;
    forall k | n <= k < n + len
      ensures bits[k] == IsText(flash[i])
    {
      assert bits[k] == bits[n..][k - n];
    }
    assert bits[n + len..] == bits[n..][len..];
  }

  // ----- geometry of the three ways

  /** The squares of the character, `height` rows of them, all lie well inside the viewport. */
  predicate Unclipped(v: View, ch: Char, height: nat) {
    && !v.outOfBounds
    && v.left <= ch.x && ch.x + ch.width * ch.size < v.right
    && v.top <= ch.y && ch.y + height * ch.size < v.bottom
  }

  lemma SquaresJoin(g: Geometry, v: View, base: Image, now: Image, after: Image, ch: Char, n: int, m: nat, k: nat, c: nat)
    requires ch.Valid() && Painted(g, base, now, Squares(v, ch, n, m), c) && Painted(g, now, after, Squares(v, ch, n + m, k), c)
    ensures Painted(g, base, after, Squares(v, ch, n, m + k), c)
  {
    hide Painted, Index;
    PaintMore(g, base, now, after, Squares(v, ch, n, m), Squares(v, ch, n + m, k), Squares(v, ch, n, m + k), c);
  }

  lemma SquaresNothing(g: Geometry, v: View, img: Image, ch: Char, n: int, c: nat)
    requires ch.Valid() && Fits(g, img)
    ensures Painted(g, img, img, Squares(v, ch, n, 0), c)
  {
    hide Painted, Index;
    PaintedNothing(g, img, Squares(v, ch, n, 0), c);
  }

  /** Where the square of a pixel lies. */
  lemma SquareInside(v: View, ch: Char, height: nat, col: nat, row: nat)
    requires ch.Valid() && Unclipped(v, ch, height) && col < ch.width && row < height
    ensures v.Encloses(ch.x + ch.size * col, ch.y + ch.size * row, ch.size, ch.size)
  {
    assert ch.size * col == col * ch.size && ch.size * row == row * ch.size;
    ProductIsNat(col, ch.size);
    ProductIsNat(row, ch.size);
    RowsAreOrdered(ch.size, col, ch.width);
    RowsAreOrdered(ch.size, row, height);
  }

  /** The pixel after a pixel: the next column, or the first one of the next row. */
  lemma NextSquare(ch: Char, col: nat, row: nat)
    requires ch.Valid() && col < ch.width
    ensures ch.size * (col + 1) >= ch.width * ch.size <==> col + 1 == ch.width
    ensures ch.size * (col + 1) == ch.size * col + ch.size && ch.size * (row + 1) == ch.size * row + ch.size
    ensures 0 + (row + 1) * ch.width == row * ch.width + ch.width
  {
    assert ch.size * (col + 1) == (col + 1) * ch.size;
    if col + 1 < ch.width {
      RowsAreOrdered(ch.size, col + 1, ch.width);
    }
  }

  lemma RowBelow(width: nat, height: nat, col: nat, row: nat)
    requires col + row * width < width * height
    ensures row < height
  {
    assert height * width == width * height;
    if row >= height {
      Monotone(width, height, row);
    }
  }

  /** Where a pixel begins: column `i mod width`, row `i div width`. */
  lemma ColumnAndRow(width: nat, height: nat, i: nat)
    requires i < width * height
    ensures width > 0 && i == i % width + i / width * width && i % width < width && 0 <= i / width < height
  {
    assert width != 0;
    RowsAndColumns(i, width);
    RowBelow(width, height, i % width, i / width);
  }

  /** A whole window is a rectangle. */
  lemma WholeWindow(g: Geometry, before: Image, after: Image, win: Window, c: nat)
    requires win.Valid() && win.Width() * win.Height() >= 0
    requires Painted(g, before, after, Stretch(win, 0, win.Width() * win.Height()), c)
    ensures Painted(g, before, after, Rect(win.xs, win.ys, win.Width(), win.Height()), c)
  {
    hide Painted;
    forall x, y
      ensures Stretch(win, 0, win.Width() * win.Height())(x, y) <==> Rect(win.xs, win.ys, win.Width(), win.Height())(x, y)
    {
      if win.Contains(x, y) {
        ProductIsNat(y - win.ys, win.Width());
        RowsAreOrdered(win.Width(), y - win.ys, win.Height());
        assert win.Height() * win.Width() == win.Width() * win.Height();
      }
    }
    PaintedAs(g, before, after, Stretch(win, 0, win.Width() * win.Height()),
              Rect(win.xs, win.ys, win.Width(), win.Height()), c);
  }

  /** A stretch of the window around an unclipped character of size one is its squares. */
  lemma StretchIsSquares(g: Geometry, v: View, before: Image, after: Image, ch: Char, height: nat, k: nat, n: nat, c: nat)
    requires ch.Valid() && ch.size == 1 && Unclipped(v, ch, height) && k + n <= ch.width * height
    requires Painted(g, before, after, Stretch(Window(ch.x, ch.y, ch.x + ch.width - 1, ch.y + height - 1), k, n), c)
    ensures Painted(g, before, after, Squares(v, ch, k, n), c)
  {
    hide Painted;
    var win := Window(ch.x, ch.y, ch.x + ch.width - 1, ch.y + height - 1);
    forall x, y
      ensures Stretch(win, k, n)(x, y) <==> Squares(v, ch, k, n)(x, y)
    {
      StretchPoint(v, ch, height, k, n, x, y);
    }
    PaintedAs(g, before, after, Stretch(win, k, n), Squares(v, ch, k, n), c);
  }

  lemma StretchPoint(v: View, ch: Char, height: nat, k: nat, n: nat, x: int, y: int)
    requires ch.Valid() && ch.size == 1 && Unclipped(v, ch, height) && k + n <= ch.width * height
    ensures Stretch(Window(ch.x, ch.y, ch.x + ch.width - 1, ch.y + height - 1), k, n)(x, y) <==> Squares(v, ch, k, n)(x, y)
  {
    var i, j := x - ch.x, y - ch.y;
    SizeOne(i);
    SizeOne(j);
    SizeOne(ch.width);
    SizeOne(height);
    var win := Window(ch.x, ch.y, ch.x + ch.width - 1, ch.y + height - 1);
    var index := i + j * ch.width;
    assert Index(ch, x, y) == index;
    assert win.Width() == ch.width && (x - win.xs) + (y - win.ys) * win.Width() == index;
    if i >= 0 && j >= 0 && index < ch.width * height {
      RowBelow(ch.width, height, i, j);
    }
    assert InSquares(ch, k, n, x, y) ==> win.Contains(x, y);
    assert win.Contains(x, y) ==> v.Shows(x, y);
  }

  lemma ProductOfZero(n: int)
    ensures n * 0 == 0
  {
  }

  /** The window around an unclipped character. */
  lemma WindowAround(g: Geometry, v: View, ch: Char, height: nat)
    requires ch.Valid() && ch.size == 1 && v.Inside(g.width, g.height) && Unclipped(v, ch, height)
    requires ch.width * height > 0
    ensures Window(ch.x, ch.y, ch.x + ch.width - 1, ch.y + height - 1).OnScreen(g)
  {
    SizeOne(ch.width);
    SizeOne(height);
    assert ch.width != 0 && height != 0;
  }

  lemma SizeOne(n: int)
    ensures n / 1 == n && n * 1 == n
  {
  }

  // ----- the display

  /** The display as its memory, the window that is written to and the viewport. */
  class Display {
    const g: Geometry
    const img: array<nat>
    var view: View
    var window: Window
    var at: Point

    ghost predicate Valid()
      reads this
    {
      g.Valid() && g.bits == 16 && img.Length == g.Allocated() && view.Inside(g.width, g.height)
    }

    constructor (width: nat, height: nat)
      requires width > 0 && height > 0
      ensures Valid() && fresh(img) && g == Geometry(16, width, height)
      ensures view == ViewportOf(width, height, 0, 0, width, height, true)
    {
      g := Geometry(16, width, height);
      img := new nat[Geometry(16, width, height).Allocated()](_ => 0);
      view := ViewportOf(width, height, 0, 0, width, height, true);
      window := Window(0, 0, 0, 0);
      at := (0, 0);
    }

    method SetWindow(x0: int, y0: int, x1: int, y1: int)
      requires Valid()
      modifies this`window, this`at
      ensures Valid() && window == Window(x0, y0, x1, y1) && at == (x0, y0)
    {
      window := Window(x0, y0, x1, y1);
      at := (x0, y0);
    }

    /** Streams one colour; `k` colours were written to the window before. */
    method PushBlock(color: nat, count: nat, ghost k: nat)
      requires Valid() && window.OnScreen(g) && at == Nth(window, k)
      requires k + count <= window.Width() * window.Height()
      modifies img, this`at
      ensures Valid() && at == Nth(window, k + count)
      ensures Painted(g, old(img[..]), img[..], Stretch(window, k, count), color)
    {
      hide WriteAt, Advance, Nth, g.Size, Copies, Painted;
      AdvanceFollows(window, k);
      BlockPaints(g, window, img[..], k, count, color);
      ghost var all := Stream(g, window, at, img[..], Copies(count, color));
      var len := count;
      while len > 0
        invariant 0 <= len <= count && window.Contains(at.0, at.1)
        invariant at == Nth(window, k + (count - len))
        invariant Stream(g, window, at, img[..], Copies(len, color)) == all
      {
        OneCopyLess(len, color);
        AdvanceFollows(window, k + (count - len));
        AdvanceFollows(window, k + (count - len) + 1);
        len := len - 1;
        WritePixel(color);
      }
      OneCopyLess(0, color);
    }

    /** One write: the memory takes the colour and the pointer moves on. */
    method WritePixel(color: nat)
      requires Valid() && window.OnScreen(g) && window.Contains(at.0, at.1)
      modifies img, this`at
      ensures Valid() && at == Advance(window, old(at))
      ensures 0 <= At(g, old(at).0, old(at).1) < g.Cells()
      ensures img[..] == WriteAt(g, old(img[..]), old(at), color)
    {
      AtInRange(g, at.0, at.1);
      img[at.0 + at.1 * g.width] := color;
      at := Advance(window, at);
    }

    /** Fills the visible part of a rectangle. */
    method FillRect(x: int, y: int, w: int, h: int, color: nat)
      requires Valid()
      modifies img, this`window, this`at
      ensures Valid()
      ensures Painted(g, old(img[..]), img[..], Clipped(view, x, y, w, h), color)
    {
      hide Painted, g.Size, Nth;
      ghost var region := Clipped(view, x, y, w, h);
      if view.outOfBounds {
        PaintedNothing(g, img[..], region, color);
        return;
      }
      var ax, ay, aw, ah := x + view.xDatum, y + view.yDatum, w, h;
      if ax >= view.right || ay >= view.bottom {
        PaintedNothing(g, img[..], region, color);
        return;
      }
      if ax < view.left {
        aw, ax := aw + ax - view.left, view.left;
      }
      if ay < view.top {
        ah, ay := ah + ay - view.top, view.top;
      }
      if ax + aw > view.right {
        aw := view.right - ax;
      }
      if ay + ah > view.bottom {
        ah := view.bottom - ay;
      }
      if aw < 1 || ah < 1 {
        PaintedNothing(g, img[..], region, color);
        return;
      }
      FillInside(ax, ay, aw, ah, color);
      PaintedAs(g, old(img[..]), img[..], Rect(ax, ay, aw, ah), region, color);
    }

    method FillInside(x: int, y: int, w: nat, h: nat, color: nat)
      requires Valid() && 0 <= x && x + w <= g.width && 0 <= y && y + h <= g.height && w > 0 && h > 0
      modifies img, this`window, this`at
      ensures Valid()
      ensures Painted(g, old(img[..]), img[..], Rect(x, y, w, h), color)
    {
      hide Painted, g.Size, Nth;
      SetWindow(x, y, x + w - 1, y + h - 1);
      AdvanceFollows(window, 0);
      ProductIsNat(w, h);
      PushBlock(color, w * h, 0);
      WholeWindow(g, old(img[..]), img[..], window, color);
    }

    // ----- characters

    /** Transparent text: a run of pixels from the `n`-th on, each with a window of its own. */
    method PaintRun(ch: Char, height: nat, n: nat, len: nat)
      requires Valid() && ch.Valid() && Unclipped(view, ch, height) && n + len <= ch.width * height && len > 0
      modifies img, this`window, this`at
      ensures Valid()
      ensures Painted(g, old(img[..]), img[..], Squares(view, ch, n, len), ch.fg)
    {
      hide Painted, g.Size, Nth, Squares, Unclipped;
      ColumnAndRow(ch.width, height, n);
      var px, py := ch.x + ch.size * (n % ch.width), ch.y + ch.size * (n / ch.width);
      ghost var col: nat, row: nat := n % ch.width, n / ch.width;
      SquaresNothing(g, view, img[..], ch, n, ch.fg);
      for k := 0 to len
        invariant Valid() && col < ch.width && col + row * ch.width == n + k
        invariant px == ch.x + ch.size * col && py == ch.y + ch.size * row
        invariant Painted(g, old(img[..]), img[..], Squares(view, ch, n, k), ch.fg)
      {
        ghost var now := img[..];
        RowBelow(ch.width, height, col, row);
        PaintSquare(ch, height, px, py, col, row);
        SquaresJoin(g, view, old(img[..]), now, img[..], ch, n, k, 1, ch.fg);
        NextSquare(ch, col, row);
        px := px + ch.size;
        col := col + 1;
        if px >= ch.x + ch.width * ch.size {
          px, py := ch.x, py + ch.size;
          col, row := 0, row + 1;
        }
      }
    }

    method PaintSquare(ch: Char, ghost height: nat, px: int, py: int, ghost col: nat, ghost row: nat)
      requires Valid() && ch.Valid() && Unclipped(view, ch, height) && col < ch.width && row < height
      requires px == ch.x + ch.size * col && py == ch.y + ch.size * row
      modifies img, this`window, this`at
      ensures Valid()
      ensures Painted(g, old(img[..]), img[..], Squares(view, ch, col + row * ch.width, 1), ch.fg)
    {
      hide Painted, g.Size, Nth, Squares, Unclipped, InSquares;
      SquareInside(view, ch, height, col, row);
      FillInside(px, py, ch.size, ch.size, ch.fg);
      SizeOne(ch.size);
      RowPaintsSquares(g, view, old(img[..]), img[..], ch, col, row, 1, Rect(px, py, ch.size, ch.size), ch.fg);
    }

    /** Transparent text: background runs are skipped. */
    method DrawTransparent(flash: seq<nat>, ch: Char, height: nat)
      requires Valid() && ch.Valid() && Unclipped(view, ch, height) && ch.fg == ch.bg
      requires Exact(flash, ch.width * height) && ch.bits == Decode(flash, ch.width * height)
      modifies img, this`window, this`at
      ensures Valid() && Shown(g, view, old(img[..]), img[..], ch, |ch.bits|)
    {
      hide Painted, g.Size, Squares, Unclipped, Shown, Exact, Decode;
      var pc, i := 0, 0;
      var w := ch.width * height;
      assert flash[0..] == flash && ch.bits[0..] == ch.bits;
      ShownNothing(g, view, img[..], ch);
      while pc < w
        invariant Valid() && 0 <= pc <= w == |ch.bits| && 0 <= i <= |flash|
        invariant Exact(flash[i..], w - pc) && ch.bits[pc..] == Decode(flash[i..], w - pc)
        invariant Shown(g, view, old(img[..]), img[..], ch, pc)
      {
        NextRun(flash, ch.bits, i, pc);
        ghost var now := img[..];
        var line := RunLength(flash[i]);
        if IsText(flash[i]) {
          PaintRun(ch, height, pc, line);
        }
        ShownMore(g, view, old(img[..]), now, img[..], ch, pc, line, IsText(flash[i]));
        i, pc := i + 1, pc + line;
      }
    }

    /** Opaque text of size one: runs are blocks streamed into one window. */
    method DrawBlocks(flash: seq<nat>, ch: Char, height: nat)
      requires Valid() && ch.Valid() && Unclipped(view, ch, height) && ch.fg != ch.bg && ch.size == 1
      requires Exact(flash, ch.width * height) && ch.bits == Decode(flash, ch.width * height)
      modifies img, this`window, this`at
      ensures Valid() && Shown(g, view, old(img[..]), img[..], ch, |ch.bits|)
    {
      hide Painted, g.Size, Squares, Unclipped, Shown, Exact, Decode, Nth;
      SetWindow(ch.x, ch.y, ch.x + ch.width - 1, ch.y + height - 1);
      var w, i: int := ch.width * height, 0;
      ghost var pc := 0;
      ghost var total := w;
      assert flash[0..] == flash && ch.bits[0..] == ch.bits;
      ShownNothing(g, view, img[..], ch);
      if w > 0 {
        WindowAround(g, view, ch, height);
        AdvanceFollows(window, 0);
      }
      while w > 0
        invariant Valid() && 0 <= pc == total - w <= total == |ch.bits| && 0 <= i <= |flash|
        invariant window == Window(ch.x, ch.y, ch.x + ch.width - 1, ch.y + height - 1)
        invariant total > 0 ==> window.OnScreen(g) && at == Nth(window, pc)
        invariant Exact(flash[i..], total - pc) && ch.bits[pc..] == Decode(flash[i..], total - pc)
        invariant Shown(g, view, old(img[..]), img[..], ch, pc)
      {
        NextRun(flash, ch.bits, i, pc);
        ghost var now := img[..];
        var line := RunLength(flash[i]);
        var color := if IsText(flash[i]) then ch.fg else ch.bg;
        assert window.Width() * window.Height() == total;
        PushBlock(color, line, pc);
        StretchIsSquares(g, view, now, img[..], ch, height, pc, line, color);
        ShownMore(g, view, old(img[..]), now, img[..], ch, pc, line, IsText(flash[i]));
        i, w := i + 1, w - line;
        pc := pc + line;
      }
    }

    /** A run filled with one rectangle for each row it touches. */
    method FillRun(ch: Char, height: nat, x: int, y: int, n: nat, len: nat, pcol: nat)
      requires Valid() && ch.Valid() && n + len <= ch.width * height && len > 0
      requires ch.x == x + view.xDatum && ch.y == y + view.yDatum
      modifies img, this`window, this`at
      ensures Valid()
      ensures Painted(g, old(img[..]), img[..], Squares(view, ch, n, len), pcol)
    {
      hide Painted, g.Size, Squares;
      ColumnAndRow(ch.width, height, n);
      var px, py := n % ch.width, n / ch.width;
      var tx, ty := x + ch.size * px, y + ch.size * py;
      var pl, line: int := 0, len;
      ghost var m := 0;
      SquaresNothing(g, view, img[..], ch, n, pcol);
      while line > 0
        invariant Valid() && 0 <= line <= len && 0 <= px && 0 <= pl && px + pl < ch.width && 0 <= py
        invariant 0 <= m && px + py * ch.width == n + m && m + pl == len - line
        invariant tx == x + ch.size * px && ty == y + ch.size * py
        invariant Painted(g, old(img[..]), img[..], Squares(view, ch, n, m), pcol)
      {
        line, pl := line - 1, pl + 1;
        if px + pl >= ch.width {
          ghost var now := img[..];
          FillRow(ch, tx, ty, pl, pcol, px, py);
          SquaresJoin(g, view, old(img[..]), now, img[..], ch, n, m, pl, pcol);
          NextSquare(ch, px, py);
          ProductOfZero(ch.size);
          m := m + pl;
          pl, px, tx, py, ty := 0, 0, x, py + 1, ty + ch.size;
        }
      }
      if pl > 0 {
        ghost var now := img[..];
        FillRow(ch, tx, ty, pl, pcol, px, py);
        SquaresJoin(g, view, old(img[..]), now, img[..], ch, n, m, pl, pcol);
      }
    }

    method FillRow(ch: Char, tx: int, ty: int, pl: nat, pcol: nat, ghost col: nat, ghost row: nat)
      requires Valid() && ch.Valid() && col + pl <= ch.width
      requires tx + view.xDatum == ch.x + ch.size * col && ty + view.yDatum == ch.y + ch.size * row
      modifies img, this`window, this`at
      ensures Valid()
      ensures Painted(g, old(img[..]), img[..], Squares(view, ch, col + row * ch.width, pl), pcol)
    {
      hide Painted, g.Size, Squares;
      FillRect(tx, ty, pl * ch.size, ch.size, pcol);
      RowPaintsSquares(g, view, old(img[..]), img[..], ch, col, row, pl, Clipped(view, tx, ty, pl * ch.size, ch.size), pcol);
    }

    /** Text that is clipped, or opaque and larger than size one. */
    method DrawRows(flash: seq<nat>, ch: Char, height: nat, x: int, y: int)
      requires Valid() && ch.Valid() && ch.x == x + view.xDatum && ch.y == y + view.yDatum
      requires Exact(flash, ch.width * height) && ch.bits == Decode(flash, ch.width * height)
      modifies img, this`window, this`at
      ensures Valid() && Shown(g, view, old(img[..]), img[..], ch, |ch.bits|)
    {
      hide Painted, g.Size, Squares, Shown, Exact, Decode;
      var pc, i := 0, 0;
      var w := ch.width * height;
      assert flash[0..] == flash && ch.bits[0..] == ch.bits;
      ShownNothing(g, view, img[..], ch);
      while pc < w
        invariant Valid() && 0 <= pc <= w == |ch.bits| && 0 <= i <= |flash|
        invariant Exact(flash[i..], w - pc) && ch.bits[pc..] == Decode(flash[i..], w - pc)
        invariant Shown(g, view, old(img[..]), img[..], ch, pc)
      {
        NextRun(flash, ch.bits, i, pc);
        ghost var now := img[..];
        var line := RunLength(flash[i]);
        var pcol := if IsText(flash[i]) then ch.fg else ch.bg;
        var pf := IsText(flash[i]) || ch.fg != ch.bg;
        if pf {
          FillRun(ch, height, x, y, pc, line, pcol);
        }
        ShownMore(g, view, old(img[..]), now, img[..], ch, pc, line, IsText(flash[i]));
        i, pc := i + 1, pc + line;
      }
    }

    /**
     Draws a character. Whichever way is taken, the visible part of its picture is painted and
     nothing else.
     */
    method DrawChar(flash: seq<nat>, width: nat, height: nat, x: int, y: int, size: nat, fg: nat, bg: nat) returns (advance: nat)
      requires Valid() && 1 <= size <= 7 && Exact(flash, width * height)
      modifies img, this`window, this`at
      ensures Valid() && advance == if view.outOfBounds then 0 else width * size
      ensures Shown(g, view, old(img[..]), img[..],
                    Char(Decode(flash, width * height), width, x + view.xDatum, y + view.yDatum, size, fg, bg), width * height)
    {
      hide Painted, g.Size, Squares, Shown, Exact, Decode;
      var xd, yd := x + view.xDatum, y + view.yDatum;
      var ch := Char(Decode(flash, width * height), width, xd, yd, size, fg, bg);
      ProductIsNat(width, size);
      if view.outOfBounds {
        ShownOutside(g, view, img[..], ch);
        return 0;
      }
      advance := width * size;
      if (xd + width * size < view.left || xd >= view.right) && (yd + height * size < view.top || yd >= view.bottom) {
        ShownOutside(g, view, img[..], ch);
        return;
      }
      var clip := xd < view.left || xd + width * size >= view.right || yd < view.top || yd + height * size >= view.bottom;
      if fg == bg && !clip {
        DrawTransparent(flash, ch, height);
      } else if fg != bg && size == 1 && !clip {
        DrawBlocks(flash, ch, height);
      } else {
        DrawRows(flash, ch, height, x, y);
      }
    }
  }
}
