/** The text renderer: `lcd_drawChar` turns a 5x8 column-major glyph into
    point or block draws, and `lcd_drawText` places characters left to
    right. The glyph table `font5x7` is an external asset and a parameter
    here. A character is described first as the glyph cells it paints
    (column, row, colour) and then as the draw calls those cells become;
    `PaintAll` turns draw calls into bus events. */
module Text {
  import opened Bits
  import opened Bus
  import opened Window

  const FIRST_PRINTABLE: Byte := 32
  const LAST_PRINTABLE: Byte := 126
  const COLUMNS: nat := 5
  const ROWS: nat := 8
  const CELLS: nat := 40
  const ADVANCE: nat := 6

  /** Five column bytes; bit j of column i is the pixel in row j. */
  type Glyph = g: seq<Byte> | |g| == 5 witness [0, 0, 0, 0, 0]

  /** The table holds a glyph for every printable code, indexed by `c - 32`. */
  predicate ValidFont(font: seq<Glyph>)
  {
    |font| >= LAST_PRINTABLE - FIRST_PRINTABLE + 1
  }

  /** `c < 32 || c > 126` is false. Codes 128..255 fail it whether the
      target's `char` is signed (they are negative) or unsigned. */
  predicate Printable(c: Byte)
  {
    FIRST_PRINTABLE <= c <= LAST_PRINTABLE
  }

  // ---- glyph cells ---------------------------------------------------------

  /** A glyph cell painted in some colour. */
  datatype Cell = Cell(col: nat, row: nat, color: U16)

  /** Cell (i, j): the foreground for a set bit, the background for a clear
      one unless the two colours are equal, in which case nothing. */
  function CellAt(g: Glyph, i: nat, j: nat, color: U16, bg: U16): seq<Cell>
    requires i < COLUMNS
  {
    if Bit(g[i], j) then [Cell(i, j, color)]
    else if bg != color then [Cell(i, j, bg)]
    else []
  }

  /** The cells painted in rows 0 .. n-1 of column i, top to bottom. */
  function ColumnCells(g: Glyph, i: nat, n: nat, color: U16, bg: U16): seq<Cell>
    requires i < COLUMNS
  {
    if n == 0 then []
    else ColumnCells(g, i, n - 1, color, bg) + CellAt(g, i, n - 1, color, bg)
  }

  /** The cells painted in columns 0 .. n-1, left to right, each column
      complete. */
  function GlyphCells(g: Glyph, n: nat, color: U16, bg: U16): seq<Cell>
    requires n <= COLUMNS
  {
    if n == 0 then []
    else GlyphCells(g, n - 1, color, bg) + ColumnCells(g, n - 1, ROWS, color, bg)
  }

  /** `font5x7[c - 32]`. */
  function GlyphOf(c: Byte, font: seq<Glyph>): Glyph
    requires ValidFont(font) && Printable(c)
  {
    font[c - FIRST_PRINTABLE]
  }

  /** The cells a character paints: none for a code outside 32..126. */
  function CharCells(c: Byte, color: U16, bg: U16, font: seq<Glyph>): seq<Cell>
    requires ValidFont(font)
  {
    if !Printable(c) then [] else GlyphCells(GlyphOf(c, font), COLUMNS, color, bg)
  }

  // ---- draw calls ----------------------------------------------------------

  /** One call made by the renderer: `lcd_DrawPoint` or `lcd_fill`. */
  datatype Draw =
    | Point(x: U16, y: U16, color: U16)
    | Block(xs: U16, ys: U16, xe: U16, ye: U16, color: U16)

  /** The call for a cell with the cursor at `(x, y)`: a point at
      `(x+i, y+j)` at size 1, otherwise the block from `(x+i*size, y+j*size)`
      to `(x+(i+1)*size, y+(j+1)*size)`; `int` coordinates narrowed to
      `uint16_t` on the way into the call. */
  function Place(x: I16, y: I16, size: Byte, c: Cell): (d: Draw)
    ensures d.color == c.color
    ensures d.Point? <==> size == 1
  {
    if size == 1 then Point(ToU16(x + c.col), ToU16(y + c.row), c.color)
    else Block(ToU16(x + c.col * size), ToU16(y + c.row * size),
               ToU16(x + (c.col + 1) * size), ToU16(y + (c.row + 1) * size), c.color)
  }

  /** The calls for a sequence of cells, one each, in order. */
  function PlaceAll(x: I16, y: I16, size: Byte, cs: seq<Cell>): (ds: seq<Draw>)
  {
    seq(|cs|, k requires 0 <= k < |cs| => Place(x, y, size, cs[k]))
  }

  lemma PlaceAllAppend(x: I16, y: I16, size: Byte, a: seq<Cell>, b: seq<Cell>)
    ensures PlaceAll(x, y, size, a + b) == PlaceAll(x, y, size, a) + PlaceAll(x, y, size, b)
  {
  }

  /** The draws `lcd_drawChar(x, y, c, color, bg, size)` makes. */
  function CharDraws(x: I16, y: I16, c: Byte, color: U16, bg: U16, size: Byte, font: seq<Glyph>): seq<Draw>
    requires ValidFont(font)
  {
    PlaceAll(x, y, size, CharCells(c, color, bg, font))
  }

  /** `lcd_drawChar(x, y, c, color, bg, size)`: the range test and the
      column loop. */
  method DrawChar(x: I16, y: I16, c: Byte, color: U16, bg: U16, size: Byte, font: seq<Glyph>)
    returns (draws: seq<Draw>)
    requires ValidFont(font)
    ensures draws == CharDraws(x, y, c, color, bg, size, font)
  {
    draws := [];
    if c < FIRST_PRINTABLE || c > LAST_PRINTABLE {
      return;
    }
    var bitmap := GlyphOf(c, font);
    var i := 0;
    while i < COLUMNS
      invariant 0 <= i <= COLUMNS
      invariant draws == PlaceAll(x, y, size, GlyphCells(bitmap, i, color, bg))
    {
      var column := DrawColumn(bitmap, i, x, y, color, bg, size);
      PlaceAllAppend(x, y, size, GlyphCells(bitmap, i, color, bg), ColumnCells(bitmap, i, ROWS, color, bg));
      draws := draws + column;
      i := i + 1;
    }
  }

  /** The row loop of `lcd_drawChar` for column i: test the low bit of the
      column byte, draw, shift the byte right. */
  method DrawColumn(bitmap: Glyph, i: nat, x: I16, y: I16, color: U16, bg: U16, size: Byte)
    returns (draws: seq<Draw>)
    requires i < COLUMNS
    ensures draws == PlaceAll(x, y, size, ColumnCells(bitmap, i, ROWS, color, bg))
  {
    draws := [];
    var line: nat := bitmap[i];
    var j := 0;
    while j < ROWS
      invariant 0 <= j <= ROWS
      invariant line == Shr(bitmap[i], j)
      invariant draws == PlaceAll(x, y, size, ColumnCells(bitmap, i, j, color, bg))
    {
      RowStep(bitmap, i, j, x, y, color, bg, size);
      if line % 2 == 1 {
        draws := draws + [Place(x, y, size, Cell(i, j, color))];
      } else if bg != color {
        draws := draws + [Place(x, y, size, Cell(i, j, bg))];
      }
      line := line / 2;
      j := j + 1;
    }
  }

  /** One pass of the row loop appends the placement of cell (i, j), if it
      is painted. */
  lemma RowStep(bitmap: Glyph, i: nat, j: nat, x: I16, y: I16, color: U16, bg: U16, size: Byte)
    requires i < COLUMNS
    ensures PlaceAll(x, y, size, ColumnCells(bitmap, i, j + 1, color, bg)) ==
      PlaceAll(x, y, size, ColumnCells(bitmap, i, j, color, bg)) +
        (if Bit(bitmap[i], j) then [Place(x, y, size, Cell(i, j, color))]
         else if bg != color then [Place(x, y, size, Cell(i, j, bg))]
         else [])
  {
    PlaceAllAppend(x, y, size, ColumnCells(bitmap, i, j, color, bg), CellAt(bitmap, i, j, color, bg));
  }

  /** A code outside 32..126 causes no draw and no bus event at all. */
  lemma NonPrintableIsSilent(x: I16, y: I16, c: Byte, color: U16, bg: U16, size: Byte, font: seq<Glyph>)
    requires ValidFont(font)
    requires !Printable(c)
    ensures CharDraws(x, y, c, color, bg, size, font) == []
    ensures PaintAll(CharDraws(x, y, c, color, bg, size, font)) == []
  {
  }

  // ---- how many cells ------------------------------------------------------

  /** Set bits in columns 0 .. n-1. */
  function ColumnsPopcount(g: Glyph, n: nat): nat
    requires n <= COLUMNS
  {
    if n == 0 then 0 else ColumnsPopcount(g, n - 1) + Popcount(g[n - 1])
  }

  /** Set bits of the whole 40-bit glyph. */
  function GlyphPopcount(g: Glyph): nat
  {
    ColumnsPopcount(g, COLUMNS)
  }

  lemma {:induction false} TransparentColumnCount(g: Glyph, i: nat, n: nat, color: U16)
    requires i < COLUMNS
    ensures |ColumnCells(g, i, n, color, color)| == CountBits(g[i], n)
  {
    if n > 0 {
      TransparentColumnCount(g, i, n - 1, color);
    }
  }

  /** With equal colours a column paints one cell per set bit of its byte. */
  lemma ColumnPopcount(g: Glyph, i: nat, color: U16)
    requires i < COLUMNS
    ensures |ColumnCells(g, i, ROWS, color, color)| == Popcount(g[i])
  {
    TransparentColumnCount(g, i, ROWS, color);
    ByteBelowPow2(g[i]);
    CountBitsIsPopcount(g[i], ROWS);
  }

  lemma {:induction false} TransparentCount(g: Glyph, n: nat, color: U16)
    requires n <= COLUMNS
    ensures |GlyphCells(g, n, color, color)| == ColumnsPopcount(g, n)
  {
    if n > 0 {
      TransparentCount(g, n - 1, color);
      ColumnPopcount(g, n - 1, color);
    }
  }

  /** A printable character makes one draw per set glyph bit when the two
      colours are equal, and one per cell, 40 in all, when they differ. */
  lemma CharDrawCount(x: I16, y: I16, c: Byte, color: U16, bg: U16, size: Byte, font: seq<Glyph>)
    requires ValidFont(font) && Printable(c)
    ensures |CharDraws(x, y, c, color, bg, size, font)| ==
      (if bg == color then GlyphPopcount(GlyphOf(c, font)) else CELLS)
  {
    var g := GlyphOf(c, font);
    if bg == color {
      TransparentCount(g, COLUMNS, color);
    } else {
      OpaqueLayout(c, color, bg, font);
    }
  }

  // ---- which cells, in which order -----------------------------------------

  /** The cell an opaque rendering paints at (i, j). */
  function OpaqueCell(g: Glyph, i: nat, j: nat, color: U16, bg: U16): Cell
    requires i < COLUMNS
  {
    Cell(i, j, if Bit(g[i], j) then color else bg)
  }

  lemma {:induction false} OpaqueColumnLayout(g: Glyph, i: nat, n: nat, color: U16, bg: U16)
    requires i < COLUMNS && bg != color
    ensures |ColumnCells(g, i, n, color, bg)| == n
    ensures forall j | 0 <= j < n :: ColumnCells(g, i, n, color, bg)[j] == OpaqueCell(g, i, j, color, bg)
  {
    if n > 0 {
      OpaqueColumnLayout(g, i, n - 1, color, bg);
      assert CellAt(g, i, n - 1, color, bg) == [OpaqueCell(g, i, n - 1, color, bg)];
    }
  }

  lemma {:induction false} OpaqueGlyphLayout(g: Glyph, n: nat, color: U16, bg: U16)
    requires n <= COLUMNS && bg != color
    ensures |GlyphCells(g, n, color, bg)| == ROWS * n
    ensures forall i, j | 0 <= i < n && 0 <= j < ROWS ::
      GlyphCells(g, n, color, bg)[ROWS * i + j] == OpaqueCell(g, i, j, color, bg)
  {
    if n > 0 {
      OpaqueGlyphLayout(g, n - 1, color, bg);
      OpaqueColumnLayout(g, n - 1, ROWS, color, bg);
      ColumnAfter(g, n - 1, color, bg, GlyphCells(g, n - 1, color, bg), ColumnCells(g, n - 1, ROWS, color, bg));
    }
  }

  /** Indexing into the first columns followed by one more column of
      eight cells. */
  lemma ColumnAfter(g: Glyph, m: nat, color: U16, bg: U16, front: seq<Cell>, col: seq<Cell>)
    requires m < COLUMNS && |front| == ROWS * m && |col| == ROWS
    requires forall i, j | 0 <= i < m && 0 <= j < ROWS :: front[ROWS * i + j] == OpaqueCell(g, i, j, color, bg)
    requires forall j | 0 <= j < ROWS :: col[j] == OpaqueCell(g, m, j, color, bg)
    ensures forall i, j | 0 <= i < m + 1 && 0 <= j < ROWS ::
      (front + col)[ROWS * i + j] == OpaqueCell(g, i, j, color, bg)
  {
    forall i, j | 0 <= i < m + 1 && 0 <= j < ROWS
      ensures (front + col)[ROWS * i + j] == OpaqueCell(g, i, j, color, bg)
    {
      if i < m {
        assert ROWS * i + j < ROWS * m;
      } else {
        assert ROWS * i + j == |front| + j;
      }
    }
  }

  /** With different colours draw number 8*i + j paints cell (i, j), in the
      foreground if its glyph bit is set and in the background otherwise:
      columns left to right, rows top to bottom within a column. */
  lemma OpaqueLayout(c: Byte, color: U16, bg: U16, font: seq<Glyph>)
    requires ValidFont(font) && Printable(c) && bg != color
    ensures |CharCells(c, color, bg, font)| == CELLS
    ensures forall i, j | 0 <= i < COLUMNS && 0 <= j < ROWS ::
      CharCells(c, color, bg, font)[ROWS * i + j] == OpaqueCell(GlyphOf(c, font), i, j, color, bg)
  {
    OpaqueGlyphLayout(GlyphOf(c, font), COLUMNS, color, bg);
  }

  /** The same at the level of calls: with different colours call number
      8*i + j is the point or block of cell (i, j). */
  lemma OpaqueDraws(x: I16, y: I16, c: Byte, color: U16, bg: U16, size: Byte, font: seq<Glyph>)
    requires ValidFont(font) && Printable(c) && bg != color
    ensures |CharDraws(x, y, c, color, bg, size, font)| == CELLS
    ensures forall i, j | 0 <= i < COLUMNS && 0 <= j < ROWS ::
      CharDraws(x, y, c, color, bg, size, font)[ROWS * i + j] ==
        Place(x, y, size, OpaqueCell(GlyphOf(c, font), i, j, color, bg))
  {
    OpaqueLayout(c, color, bg, font);
  }

  /** The cells of one colour, in order. */
  function InColor(c: U16, cs: seq<Cell>): seq<Cell>
  {
    if cs == [] then []
    else (if cs[0].color == c then [cs[0]] else []) + InColor(c, cs[1..])
  }

  lemma InColorAppend(c: U16, a: seq<Cell>, b: seq<Cell>)
    ensures InColor(c, a + b) == InColor(c, a) + InColor(c, b)
  {
    if a != [] {
      assert (a + b)[1..] == a[1..] + b;
      InColorAppend(c, a[1..], b);
    } else {
      assert a + b == b;
    }
  }

  lemma {:induction false} TransparentColumnFilter(g: Glyph, i: nat, n: nat, color: U16, bg: U16)
    requires i < COLUMNS && bg != color
    ensures ColumnCells(g, i, n, color, color) == InColor(color, ColumnCells(g, i, n, color, bg))
  {
    if n > 0 {
      TransparentColumnFilter(g, i, n - 1, color, bg);
      var d := CellAt(g, i, n - 1, color, bg);
      InColorAppend(color, ColumnCells(g, i, n - 1, color, bg), d);
      if Bit(g[i], n - 1) {
        InColorOfOne(color, Cell(i, n - 1, color));
      } else {
        InColorOfOne(color, Cell(i, n - 1, bg));
      }
    }
  }

  /** Filtering never lengthens a list of cells. */
  lemma {:induction false} InColorLength(c: U16, cs: seq<Cell>)
    ensures |InColor(c, cs)| <= |cs|
  {
    if cs != [] {
      InColorLength(c, cs[1..]);
    }
  }

  lemma InColorOfOne(c: U16, x: Cell)
    ensures InColor(c, [x]) == if x.color == c then [x] else []
  {
    assert [x][1..] == [];
  }

  lemma {:induction false} TransparentFilter(g: Glyph, n: nat, color: U16, bg: U16)
    requires n <= COLUMNS && bg != color
    ensures GlyphCells(g, n, color, color) == InColor(color, GlyphCells(g, n, color, bg))
  {
    if n > 0 {
      var front := GlyphCells(g, n - 1, color, bg);
      var col := ColumnCells(g, n - 1, ROWS, color, bg);
      var frontT := GlyphCells(g, n - 1, color, color);
      var colT := ColumnCells(g, n - 1, ROWS, color, color);
      TransparentFilter(g, n - 1, color, bg);
      TransparentColumnFilter(g, n - 1, ROWS, color, bg);
      GlyphCellsStep(g, n, color, bg);
      GlyphCellsStep(g, n, color, color);
      FilterOfAppend(color, GlyphCells(g, n, color, bg), front, col, GlyphCells(g, n, color, color), frontT, colT);
    }
  }

  lemma GlyphCellsStep(g: Glyph, n: nat, color: U16, bg: U16)
    requires 0 < n <= COLUMNS
    ensures GlyphCells(g, n, color, bg) == GlyphCells(g, n - 1, color, bg) + ColumnCells(g, n - 1, ROWS, color, bg)
  {
  }

  /** Filtering a concatenation concatenates the filtered parts. */
  lemma FilterOfAppend(c: U16, whole: seq<Cell>, a: seq<Cell>, b: seq<Cell>, kept: seq<Cell>, fa: seq<Cell>, fb: seq<Cell>)
    requires whole == a + b && kept == fa + fb
    requires fa == InColor(c, a) && fb == InColor(c, b)
    ensures kept == InColor(c, whole)
  {
    InColorAppend(c, a, b);
  }

  /** With equal colours the renderer skips exactly the background cells:
      it paints the cells of an opaque rendering, with any other background,
      that are in the foreground colour, in the same order. */
  lemma TransparentIsOpaqueWithoutBackground(c: Byte, color: U16, bg: U16, font: seq<Glyph>)
    requires ValidFont(font) && bg != color
    ensures CharCells(c, color, color, font) == InColor(color, CharCells(c, color, bg, font))
  {
    if Printable(c) {
      TransparentFilter(GlyphOf(c, font), COLUMNS, color, bg);
    }
  }

  // ---- geometry of a scaled cell -------------------------------------------

  /** At a size other than 1, the exclusive-end block of a glyph cell is
      exactly `size` wide and `size` high wherever the cursor is, so
      neighbouring cells neither overlap nor leave gaps. */
  lemma ScaledCellIsSizeSquare(x: I16, y: I16, size: Byte, c: Cell)
    requires size != 1
    ensures Place(x, y, size, c).Block?
    ensures ToU16(Place(x, y, size, c).xe - Place(x, y, size, c).xs) == size
    ensures ToU16(Place(x, y, size, c).ye - Place(x, y, size, c).ys) == size
  {
    var a := x + c.col * size;
    var b := y + c.row * size;
    NextMultiple(c.col, size);
    NextMultiple(c.row, size);
    WrappedDifference(a, size);
    WrappedDifference(b, size);
    assert Place(x, y, size, c) == Block(ToU16(a), ToU16(b), ToU16(a + size), ToU16(b + size), c.color);
  }

  lemma NextMultiple(k: nat, size: nat)
    ensures (k + 1) * size == k * size + size
  {
  }

  /** At a size other than 1 the block of a cell starts where the block of
      the cell to its left, and of the cell above it, ends. */
  lemma NeighbouringBlocksMeet(x: I16, y: I16, size: Byte, i: nat, j: nat, a: U16, b: U16)
    requires size != 1
    ensures Place(x, y, size, Cell(i + 1, j, a)).xs == Place(x, y, size, Cell(i, j, b)).xe
    ensures Place(x, y, size, Cell(i, j + 1, a)).ys == Place(x, y, size, Cell(i, j, b)).ye
  {
  }

  /** A block `size` wide and high streams exactly `size*size` pixels, all
      of its colour. */
  lemma SizeSquareStreams(xs: U16, ys: U16, xe: U16, ye: U16, color: U16, size: Byte)
    requires ToU16(xe - xs) == size && ToU16(ye - ys) == size
    ensures var acts := Decode(Spi, Fill(xs, ys, xe, ye, color));
      && acts.Some? && |acts.value| == 4 && acts.value[3].Stream?
      && |acts.value[3].pixels| == size * size
      && forall n | 0 <= n < size * size :: acts.value[3].pixels[n] == color
  {
    FillDecodes(xs, ys, xe, ye, color);
    SmallSquare(size);
  }

  lemma SmallSquare(size: Byte)
    ensures PixelCount(size, size) == size * size
  {
    assert size * size <= 255 * size <= 255 * 255;
  }

  // ---- bus-level count -----------------------------------------------------

  function Paint(d: Draw): (r: seq<Event>)
    ensures Boundary(r)
  {
    match d
    case Point(x, y, c) => DrawPoint(x, y, c)
    case Block(xs, ys, xe, ye, c) => Fill(xs, ys, xe, ye, c)
  }

  function PaintAll(ds: seq<Draw>): (r: seq<Event>)
    ensures Boundary(r)
  {
    if ds == [] then [] else Paint(ds[0]) + PaintAll(ds[1..])
  }

  /** Number of pixel streams among decoded actions. */
  function StreamCount(acts: seq<Action>): nat
  {
    if acts == [] then 0 else (if acts[0].Stream? then 1 else 0) + StreamCount(acts[1..])
  }

  lemma StreamCountAppend(a: seq<Action>, b: seq<Action>)
    ensures StreamCount(a + b) == StreamCount(a) + StreamCount(b)
  {
    if a != [] {
      assert (a + b)[1..] == a[1..] + b;
      StreamCountAppend(a[1..], b);
    } else {
      assert a + b == b;
    }
  }

  /** A window followed by a stream holds exactly one stream. */
  lemma WindowStreamCount(acts: seq<Action>)
    requires |acts| == 4 && ParseWindow(acts).Some? && acts[3].Stream?
    ensures StreamCount(acts) == 1
  {
    assert acts[3..][1..] == [];
    assert StreamCount(acts[3..]) == 1;
    assert acts[2..][1..] == acts[3..];
    assert StreamCount(acts[2..]) == 1;
    assert acts[1..][1..] == acts[2..];
    assert StreamCount(acts[1..]) == 1;
    assert acts[0..][1..] == acts[1..];
  }

  /** The window a draw call asks the controller to open: the point and its
      right and lower neighbours for `lcd_DrawPoint`, the exclusive end
      corner minus one for `lcd_fill`. */
  function DrawWindow(d: Draw): Rect
  {
    match d
    case Point(x, y, _) => Rect(x, y, ToU16(x + 1), ToU16(y + 1))
    case Block(xs, ys, xe, ye, _) => Rect(xs, ys, ToU16(xe - 1), ToU16(ye - 1))
  }

  /** How many pixels a draw call streams: one for a point, the narrowed
      area up to the 32-bit wrap for a fill. */
  function DrawPixels(d: Draw): nat
  {
    match d
    case Point(_, _, _) => 1
    case Block(xs, ys, xe, ye, _) => PixelCount(ToU16(xe - xs), ToU16(ye - ys))
  }

  /** `acts` is what the controller should receive for `d`: its window,
      then a stream of that many copies of its colour. */
  predicate Shows(d: Draw, acts: seq<Action>)
  {
    && |acts| == 4
    && ParseWindow(acts) == Some(DrawWindow(d))
    && acts[3] == Stream(Solid(d.color, DrawPixels(d)))
  }

  /** Every draw reaches the bus as its window and one stream of its colour. */
  lemma PaintDecodes(d: Draw)
    ensures Decode(Spi, Paint(d)).Some?
    ensures Shows(d, Decode(Spi, Paint(d)).value)
    ensures StreamCount(Decode(Spi, Paint(d)).value) == 1
  {
    match d {
      case Point(x, y, c) =>
        assert Paint(d) == DrawPoint(x, y, c);
        DrawPointDecodes(x, y, c);
        PointShows(x, y, c, Decode(Spi, DrawPoint(x, y, c)).value);
      case Block(xs, ys, xe, ye, c) =>
        assert Paint(d) == Fill(xs, ys, xe, ye, c);
        FillStream(xs, ys, xe, ye, c);
        BlockShows(xs, ys, xe, ye, c, Decode(Spi, Fill(xs, ys, xe, ye, c)).value);
    }
    ShowsOneStream(d, Decode(Spi, Paint(d)).value);
  }

  lemma ShowsOneStream(d: Draw, acts: seq<Action>)
    requires Shows(d, acts)
    ensures StreamCount(acts) == 1
  {
    WindowStreamCount(acts);
  }

  /** The actions a point decodes to show the point. */
  lemma PointShows(x: U16, y: U16, c: U16, acts: seq<Action>)
    requires |acts| == 4 && ParseWindow(acts) == Some(Rect(x, y, ToU16(x + 1), ToU16(y + 1)))
    requires acts[3] == Stream([c])
    ensures Shows(Point(x, y, c), acts)
  {
    assert Solid(c, 1) == [c];
  }

  /** The actions a fill decodes to show the fill. */
  lemma BlockShows(xs: U16, ys: U16, xe: U16, ye: U16, c: U16, acts: seq<Action>)
    requires var w := ToU16(xe - xs);
      var h := ToU16(ye - ys);
      && |acts| == 4
      && ParseWindow(acts) == Some(Rect(xs, ys, ToU16(xs + w - 1), ToU16(ys + h - 1)))
      && acts[3] == Stream(Solid(c, PixelCount(w, h)))
    ensures Shows(Block(xs, ys, xe, ye, c), acts)
  {
    ExclusiveEnd(xs, xe);
    ExclusiveEnd(ys, ye);
  }

  /** A rendering's trace decodes to four actions per draw, in order: the
      `k`-th group of four shows the `k`-th draw. So it carries exactly one
      stream per draw. */
  lemma {:induction false} PaintAllStreams(ds: seq<Draw>)
    ensures Decode(Spi, PaintAll(ds)).Some?
    ensures var acts := Decode(Spi, PaintAll(ds)).value;
      && |acts| == 4 * |ds|
      && (forall k | 0 <= k < |ds| :: Shows(ds[k], acts[4 * k..4 * k + 4]))
      && StreamCount(acts) == |ds|
  {
    if ds != [] {
      PaintDecodes(ds[0]);
      PaintAllStreams(ds[1..]);
      DecodeAppend(Spi, Paint(ds[0]), PaintAll(ds[1..]));
      var a := Decode(Spi, Paint(ds[0])).value;
      var b := Decode(Spi, PaintAll(ds[1..])).value;
      StreamCountAppend(a, b);
      forall k | 0 <= k < |ds|
        ensures Shows(ds[k], (a + b)[4 * k..4 * k + 4])
      {
        if k == 0 {
          assert (a + b)[0..4] == a;
        } else {
          ChunkAfter(a, b, k);
          assert ds[k] == ds[1..][k - 1];
        }
      }
    }
  }

  /** Past a first group of four, the groups of a concatenation are those
      of its second part. */
  lemma ChunkAfter(a: seq<Action>, b: seq<Action>, k: nat)
    requires |a| == 4 && 1 <= k && 4 * k + 4 <= |a| + |b|
    ensures (a + b)[4 * k..4 * k + 4] == b[4 * (k - 1)..4 * (k - 1) + 4]
  {
  }

  /** On the bus, a printable character issues one pixel stream per set
      glyph bit when the colours are equal, and 40 when they differ. */
  lemma CharStreamCount(x: I16, y: I16, c: Byte, color: U16, bg: U16, size: Byte, font: seq<Glyph>)
    requires ValidFont(font) && Printable(c)
    ensures Decode(Spi, PaintAll(CharDraws(x, y, c, color, bg, size, font))).Some?
    ensures StreamCount(Decode(Spi, PaintAll(CharDraws(x, y, c, color, bg, size, font))).value) ==
      (if bg == color then GlyphPopcount(GlyphOf(c, font)) else CELLS)
  {
    PaintAllStreams(CharDraws(x, y, c, color, bg, size, font));
    CharDrawCount(x, y, c, color, bg, size, font);
  }

  // ---- strings -------------------------------------------------------------

  /** `lcd_drawText(x, y, text, color, bg, size)`: characters up to the first
      NUL (the end of `text` stands for the terminator), the `int16_t`
      cursor advancing by `6*size` after each. */
  function DrawText(x: I16, y: I16, text: seq<Byte>, color: U16, bg: U16, size: Byte, font: seq<Glyph>): seq<Draw>
    requires ValidFont(font)
    decreases |text|
  {
    if text == [] || text[0] == 0 then []
    else
      CharDraws(x, y, text[0], color, bg, size, font)
        + DrawText(ToI16(x + ADVANCE * size), y, text[1..], color, bg, size, font)
  }

  /** A character at a cursor position. */
  datatype Placed = Placed(x: I16, c: Byte)

  /** The cursor in front of the k-th character. */
  function Cursor(x: I16, size: Byte, k: nat): I16
  {
    ToI16(x + ADVANCE * size * k)
  }

  /** Number of characters before the first NUL. */
  function TextLength(text: seq<Byte>): (n: nat)
    ensures n <= |text|
    ensures forall k | 0 <= k < n :: text[k] != 0
    ensures n < |text| ==> text[n] == 0
  {
    if text == [] || text[0] == 0 then 0 else 1 + TextLength(text[1..])
  }

  /** Reference placement: character k at cursor k, for every k before the
      first NUL. */
  function Layout(x: I16, text: seq<Byte>, size: Byte): seq<Placed>
  {
    var n := TextLength(text);
    seq(n, k requires 0 <= k < n => Placed(Cursor(x, size, k), text[k]))
  }

  /** The draws of placed characters, in order. */
  function Render(ps: seq<Placed>, y: I16, color: U16, bg: U16, size: Byte, font: seq<Glyph>): seq<Draw>
    requires ValidFont(font)
  {
    if ps == [] then []
    else CharDraws(ps[0].x, y, ps[0].c, color, bg, size, font) + Render(ps[1..], y, color, bg, size, font)
  }

  lemma CursorStep(x: I16, size: Byte, k: nat)
    ensures Cursor(ToI16(x + ADVANCE * size), size, k) == Cursor(x, size, k + 1)
  {
    ToI16OfSum(x + ADVANCE * size, ADVANCE * size * k);
    assert ADVANCE * size * (k + 1) == ADVANCE * size + ADVANCE * size * k;
  }

  lemma LayoutStep(x: I16, text: seq<Byte>, size: Byte)
    requires text != [] && text[0] != 0
    ensures Layout(x, text, size) == [Placed(x, text[0])] + Layout(ToI16(x + ADVANCE * size), text[1..], size)
  {
    var x1 := ToI16(x + ADVANCE * size);
    var a := Layout(x, text, size);
    var rest := Layout(x1, text[1..], size);
    var b := [Placed(x, text[0])] + rest;
    assert |a| == |b|;
    forall k | 0 <= k < |a| ensures a[k] == b[k] {
      if k > 0 {
        CursorStep(x, size, k - 1);
        assert b[k] == rest[k - 1];
      } else {
        ToI16OfI16(x);
        assert Cursor(x, size, 0) == ToI16(x);
      }
    }
  }

  /** `lcd_drawText` draws, in order, the characters before the first NUL,
      character k with its cursor at `x + 6*size*k` narrowed to `int16_t`,
      all on row `y`: no wrapping to a new line and nothing after the NUL. */
  lemma {:induction false} TextFollowsLayout(x: I16, y: I16, text: seq<Byte>, color: U16, bg: U16, size: Byte, font: seq<Glyph>)
    requires ValidFont(font)
    ensures DrawText(x, y, text, color, bg, size, font) == Render(Layout(x, text, size), y, color, bg, size, font)
    decreases |text|
  {
    if text != [] && text[0] != 0 {
      var x1 := ToI16(x + ADVANCE * size);
      TextFollowsLayout(x1, y, text[1..], color, bg, size, font);
      LayoutStep(x, text, size);
      var ps := Layout(x, text, size);
      assert ps[1..] == Layout(x1, text[1..], size);
    }
  }

  /** Anything after the first NUL is ignored. */
  lemma TextStopsAtNul(x: I16, y: I16, text: seq<Byte>, n: nat, color: U16, bg: U16, size: Byte, font: seq<Glyph>)
    requires ValidFont(font)
    requires n < |text| && text[n] == 0
    ensures DrawText(x, y, text, color, bg, size, font) == DrawText(x, y, text[..n], color, bg, size, font)
  {
    TextFollowsLayout(x, y, text, color, bg, size, font);
    TextFollowsLayout(x, y, text[..n], color, bg, size, font);
    TextLengthOfPrefix(text, n);
    assert Layout(x, text, size) == Layout(x, text[..n], size);
  }

  lemma TextLengthOfPrefix(text: seq<Byte>, n: nat)
    requires n < |text| && text[n] == 0
    ensures TextLength(text[..n]) == TextLength(text)
  {
    var m := TextLength(text);
    assert m <= n;
    if m < n {
      assert text[..n][m] == 0;
    }
  }
}
