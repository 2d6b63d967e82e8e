/**
 * GridIndexer: split the base image into `cols` × `rows` cells, row by row,
 * and record each cell's mean colour with its used flag cleared.
 *
 * Cell (x, y) samples the rectangle whose origin is floor(x·W/cols),
 * floor(y·H/rows) and whose size is floor(W/cols) × floor(H/rows): flooring
 * both origin and size keeps every rectangle inside the buffer, at the price
 * of gaps of at most one pixel between neighbouring rectangles.
 */
module GridIndexer {
  import opened PixelSampler
  import opened Arith

  /** An integer pixel rectangle: origin (x, y), size w × h. */
  datatype Rect = Rect(x: nat, y: nat, w: nat, h: nat)

  /** One entry of the grid index. */
  datatype Cell = Cell(x: nat, y: nat, color: RGB, used: bool)

  predicate Inside(r: Rect, width: nat, height: nat) {
    r.x + r.w <= width && r.y + r.h <= height
  }

  /** The grid geometry the indexer accepts: every sample rectangle holds a pixel. */
  predicate ValidGeometry(img: Image, cols: nat, rows: nat) {
    WellFormed(img) && 0 < cols <= img.width && 0 < rows <= img.height
  }

  /**
   * The sample rectangle of cell (x, y): origin and size are the floors of
   * x·W/cols, y·H/rows, W/cols and H/rows.
   */
  function SampleRect(width: nat, height: nat, cols: nat, rows: nat, x: nat, y: nat): (r: Rect)
    requires 0 < cols && 0 < rows
    ensures r.x * cols <= x * width < r.x * cols + cols
    ensures r.y * rows <= y * height < r.y * rows + rows
    ensures r.w * cols <= width < r.w * cols + cols
    ensures r.h * rows <= height < r.h * rows + rows
  {
    Rect(x * width / cols, y * height / rows, width / cols, height / rows)
  }

  // ---------------------------------------------------------------------
  // Floor-division facts about one axis: part i of `total` split in `parts`.

  /** Origin of part i plus the part size never passes the origin of part i + 1. */
  lemma {:induction false} SpanFits(i: nat, total: nat, parts: nat)
    requires 0 < parts
    ensures i * total / parts + total / parts <= (i + 1) * total / parts
  {
    var a, b := i * total / parts, total / parts;
    assert a * parts <= i * total;
    assert b * parts <= total;
    assert (a + b) * parts == a * parts + b * parts;
    assert (i + 1) * total == i * total + total;
    FloorDivAtLeast(a + b, (i + 1) * total, parts);
  }

  /** ... and falls short of it by at most one pixel. */
  lemma {:induction false} SpanGap(i: nat, total: nat, parts: nat)
    requires 0 < parts
    ensures (i + 1) * total / parts <= i * total / parts + total / parts + 1
  {
    var a, b := i * total / parts, total / parts;
    assert i * total < (a + 1) * parts;
    assert total < (b + 1) * parts;
    assert (i + 1) * total == i * total + total;
    assert (a + 1) * parts + (b + 1) * parts == (a + b + 2) * parts;
    FloorDivBelow(a + b + 2, (i + 1) * total, parts);
  }

  /** The last part ends inside `total`. */
  lemma {:induction false} SpanEnd(i: nat, total: nat, parts: nat)
    requires i < parts
    ensures i * total / parts + total / parts <= total
  {
    SpanFits(i, total, parts);
    assert (i + 1) * total <= parts * total by {
      MulMonotone(i + 1, parts, total);
    }
    assert (total + 1) * parts == parts * total + parts;
    FloorDivBelow(total + 1, (i + 1) * total, parts);
  }

  // ---------------------------------------------------------------------
  // Properties of the sample rectangles.

  /** Every sample rectangle lies inside the W × H buffer. */
  lemma SampleRectInside(width: nat, height: nat, cols: nat, rows: nat, x: nat, y: nat)
    requires x < cols && y < rows
    ensures Inside(SampleRect(width, height, cols, rows, x, y), width, height)
  {
    SpanEnd(x, width, cols);
    SpanEnd(y, height, rows);
  }

  /** With at least one pixel per cell on each axis, no sample rectangle is empty. */
  lemma SampleRectNonEmpty(width: nat, height: nat, cols: nat, rows: nat, x: nat, y: nat)
    requires 0 < cols <= width && 0 < rows <= height
    ensures SampleRect(width, height, cols, rows, x, y).w >= 1
    ensures SampleRect(width, height, cols, rows, x, y).h >= 1
  {
    FloorDivAtLeast(1, width, cols);
    FloorDivAtLeast(1, height, rows);
  }

  /**
   * Horizontally and vertically adjacent sample rectangles do not overlap,
   * and the gap between them is at most one pixel.
   */
  lemma AdjacentSampleRects(width: nat, height: nat, cols: nat, rows: nat, x: nat, y: nat)
    requires 0 < cols && 0 < rows
    ensures var r, right, below :=
              SampleRect(width, height, cols, rows, x, y),
              SampleRect(width, height, cols, rows, x + 1, y),
              SampleRect(width, height, cols, rows, x, y + 1);
            r.x + r.w <= right.x <= r.x + r.w + 1 &&
            r.y + r.h <= below.y <= r.y + r.h + 1
  {
    SpanFits(x, width, cols);
    SpanGap(x, width, cols);
    SpanFits(y, height, rows);
    SpanGap(y, height, rows);
  }

  // ---------------------------------------------------------------------
  // Reading a rectangle out of the buffer.

  lemma RowInBuffer(width: nat, height: nat, y: nat, x: nat, w: nat)
    requires y < height && x + w <= width
    ensures 4 * (y * width + x) + 4 * w <= 4 * (width * height)
  {
    assert y * width + width == (y + 1) * width;
    assert (y + 1) * width <= height * width;
  }

  /** Row y of the buffer, pixels x .. x + w - 1. */
  function RowBytes(img: Image, y: nat, x: nat, w: nat): (d: seq<Byte>)
    requires WellFormed(img) && y < img.height && x + w <= img.width
    ensures |d| == 4 * w
  {
    RowInBuffer(img.width, img.height, y, x, w);
    var start := 4 * (y * img.width + x);
    img.data[start .. start + 4 * w]
  }

  /** The first n rows of rectangle r, top to bottom. */
  function CropRows(img: Image, r: Rect, n: nat): seq<Byte>
    requires WellFormed(img) && Inside(r, img.width, img.height) && n <= r.h
  {
    if n == 0 then [] else CropRows(img, r, n - 1) + RowBytes(img, r.y + n - 1, r.x, r.w)
  }

  /** n rows of a w-pixel-wide rectangle hold 4·w·n bytes. */
  lemma {:induction false} CropRowsLength(img: Image, r: Rect, n: nat)
    requires WellFormed(img) && Inside(r, img.width, img.height) && n <= r.h
    ensures |CropRows(img, r, n)| == 4 * (r.w * n)
  {
    if n > 0 {
      CropRowsLength(img, r, n - 1);
      assert r.w * n == r.w * (n - 1) + r.w;
    }
  }

  /**
   * Row j of the cropped rows is row r.y + j of the buffer, cut to the
   * rectangle's columns: the crop lists rows top to bottom.
   */
  lemma {:induction false} CropRowsRow(img: Image, r: Rect, n: nat, j: nat)
    requires WellFormed(img) && Inside(r, img.width, img.height) && n <= r.h && j < n
    ensures |CropRows(img, r, n)| == 4 * (r.w * n)
    ensures r.w * j + r.w <= r.w * n
    ensures CropRows(img, r, n)[4 * (r.w * j) .. 4 * (r.w * j + r.w)] == RowBytes(img, r.y + j, r.x, r.w)
  {
    CropRowsLength(img, r, n);
    CropRowsLength(img, r, n - 1);
    var front, row := CropRows(img, r, n - 1), RowBytes(img, r.y + n - 1, r.x, r.w);
    var lo, last := r.w * j, r.w * (n - 1);
    RowEndWithin(r.w, j, n);
    RowEndWithin(r.w, n - 1, n);
    if j < n - 1 {
      CropRowsRow(img, r, n - 1, j);
      SliceOfFront(front, row, 4 * lo, 4 * (lo + r.w));
    } else {
      assert lo == last by {
        assert j == n - 1;
      }
      SliceOfBack(front, row, 4 * lo, 4 * (lo + r.w));
    }
  }

  lemma SliceOfFront<T>(front: seq<T>, back: seq<T>, i: nat, j: nat)
    requires i <= j <= |front|
    ensures (front + back)[i..j] == front[i..j]
  {
  }

  lemma SliceOfBack<T>(front: seq<T>, back: seq<T>, i: nat, j: nat)
    requires i == |front| && j == |front| + |back|
    ensures (front + back)[i..j] == back
  {
  }

  /** The pixel data of rectangle r, laid out as a canvas returns it. */
  function ImageData(img: Image, r: Rect): (d: seq<Byte>)
    requires WellFormed(img) && Inside(r, img.width, img.height)
  {
    CropRows(img, r, r.h)
  }

  lemma ImageDataShape(img: Image, r: Rect)
    requires WellFormed(img) && Inside(r, img.width, img.height) && 0 < r.w && 0 < r.h
    ensures |ImageData(img, r)| % 4 == 0 && 0 < |ImageData(img, r)|
  {
    CropRowsLength(img, r, r.h);
    MulPositive(r.w, r.h);
    var pixels := r.w * r.h;
    assert |ImageData(img, r)| == 4 * pixels;
  }

  /** The mean colour of the pixels inside a non-empty rectangle. */
  function RectMean(img: Image, r: Rect): (c: RGB)
    requires WellFormed(img) && Inside(r, img.width, img.height) && 0 < r.w && 0 < r.h
    ensures InRange(c)
  {
    ImageDataShape(img, r);
    MeanColorInRange(ImageData(img, r));
    MeanColor(ImageData(img, r))
  }

  /**
   * Read a rectangle's pixel data, sum its channels while counting the
   * pixels, and floor-divide each sum by the count.
   */
  method SampleMean(img: Image, r: Rect) returns (c: RGB)
    requires WellFormed(img) && Inside(r, img.width, img.height) && 0 < r.w && 0 < r.h
    ensures c == RectMean(img, r)
    ensures InRange(c)
  {
    var data := ImageData(img, r);
    ImageDataShape(img, r);
    var red, green, blue, count := SumChannels(data);
    c := RGB(red / count, green / count, blue / count);
    MeanColorInRange(data);
  }

  /** The mean colour of cell (x, y)'s sample rectangle. */
  function SampledColor(img: Image, cols: nat, rows: nat, x: nat, y: nat): (c: RGB)
    requires ValidGeometry(img, cols, rows) && x < cols && y < rows
    ensures InRange(c)
  {
    SampleRectInside(img.width, img.height, cols, rows, x, y);
    SampleRectNonEmpty(img.width, img.height, cols, rows, x, y);
    RectMean(img, SampleRect(img.width, img.height, cols, rows, x, y))
  }

  // ---------------------------------------------------------------------
  // Row-major numbering of the cells.

  /** The column and the row of entry k of a row-major table `cols` wide. */
  function ColumnOf(k: nat, cols: nat): nat
    requires 0 < cols
  {
    k % cols
  }

  function RowOf(k: nat, cols: nat): nat
    requires 0 < cols
  {
    k / cols
  }

  /** Entry y·cols + x of a row-major table is column x of row y. */
  lemma RowMajor(y: nat, x: nat, cols: nat)
    requires x < cols
    ensures (y * cols + x) / cols == y && (y * cols + x) % cols == x
  {
    DivModUnique(y * cols + x, cols, y, x);
  }

  /** Distinct entries of a row-major table have distinct (column, row) pairs. */
  lemma RowMajorDistinct(j: nat, k: nat, cols: nat)
    requires 0 < cols && j != k
    ensures j % cols != k % cols || j / cols != k / cols
  {
    assert j == (j / cols) * cols + j % cols;
    assert k == (k / cols) * cols + k % cols;
  }

  // ---------------------------------------------------------------------
  // Building the index.

  /** The index entry for cell (x, y) of a freshly loaded base image. */
  function IndexedCell(img: Image, cols: nat, rows: nat, x: nat, y: nat): Cell
    requires ValidGeometry(img, cols, rows) && x < cols && y < rows
  {
    Cell(x, y, SampledColor(img, cols, rows, x, y), false)
  }

  /**
   * The index as the grid walk has built it once rows 0 .. y - 1 and the
   * first x cells of row y are done.
   */
  ghost function Walked(img: Image, cols: nat, rows: nat, y: nat, x: nat): seq<Cell>
    requires ValidGeometry(img, cols, rows) && y <= rows && x <= cols && (y == rows ==> x == 0)
    decreases y, x
  {
    if x > 0 then Walked(img, cols, rows, y, x - 1) + [IndexedCell(img, cols, rows, x - 1, y)]
    else if y > 0 then Walked(img, cols, rows, y - 1, cols)
    else []
  }

  /** After y full rows and x more cells the walk has built y·cols + x entries. */
  lemma {:induction false} WalkedLength(img: Image, cols: nat, rows: nat, y: nat, x: nat)
    requires ValidGeometry(img, cols, rows) && y <= rows && x <= cols && (y == rows ==> x == 0)
    ensures |Walked(img, cols, rows, y, x)| == y * cols + x
    decreases y, x
  {
    if x > 0 {
      WalkedLength(img, cols, rows, y, x - 1);
    } else if y > 0 {
      WalkedLength(img, cols, rows, y - 1, cols);
      assert (y - 1) * cols + cols == y * cols;
    }
  }

  /** The entry the walk added last is the cell it had just sampled. */
  lemma WalkedLast(img: Image, cols: nat, rows: nat, y: nat, x: nat)
    requires ValidGeometry(img, cols, rows) && y < rows && 0 < x <= cols
    ensures |Walked(img, cols, rows, y, x)| == y * cols + x
    ensures Walked(img, cols, rows, y, x)[y * cols + x - 1] == IndexedCell(img, cols, rows, x - 1, y)
  {
    WalkedLength(img, cols, rows, y, x - 1);
  }

  /** Entry k of the walked prefix is the cell in column k % cols of row k / cols. */
  lemma {:induction false} WalkedAt(img: Image, cols: nat, rows: nat, y: nat, x: nat, k: nat)
    requires ValidGeometry(img, cols, rows) && y <= rows && x <= cols && (y == rows ==> x == 0)
    requires k < y * cols + x
    ensures k < |Walked(img, cols, rows, y, x)|
    ensures ColumnOf(k, cols) < cols && RowOf(k, cols) < rows
    ensures Walked(img, cols, rows, y, x)[k] == IndexedCell(img, cols, rows, ColumnOf(k, cols), RowOf(k, cols))
    decreases y, x
  {
    WalkedLength(img, cols, rows, y, x);
    if x == 0 {
      assert (y - 1) * cols + cols == y * cols;
      WalkedAt(img, cols, rows, y - 1, cols, k);
    } else if k == y * cols + x - 1 {
      WalkedLast(img, cols, rows, y, x);
      RowMajor(y, x - 1, cols);
    } else {
      WalkedAt(img, cols, rows, y, x - 1, k);
    }
  }

  /** The body of the grid walk: sample cell (x, y) and build its entry. */
  method SampleCell(img: Image, cols: nat, rows: nat, x: nat, y: nat) returns (cell: Cell)
    requires ValidGeometry(img, cols, rows) && x < cols && y < rows
    ensures cell == IndexedCell(img, cols, rows, x, y)
  {
    var rect := SampleRect(img.width, img.height, cols, rows, x, y);
    SampleRectInside(img.width, img.height, cols, rows, x, y);
    SampleRectNonEmpty(img.width, img.height, cols, rows, x, y);
    var color := SampleMean(img, rect);
    cell := Cell(x, y, color, false);
  }

  /**
   * Walk the grid row by row, so that the result is the row-major table of
   * all cols × rows cells, each with its sampled mean colour and unused.
   */
  method IndexGrid(img: Image, cols: nat, rows: nat) returns (cells: seq<Cell>)
    requires ValidGeometry(img, cols, rows)
    ensures cells == Walked(img, cols, rows, rows, 0)
    ensures |cells| == cols * rows
    ensures forall k :: 0 <= k < |cells| ==>
              cells[k].x == k % cols && cells[k].y == k / cols < rows && !cells[k].used &&
              cells[k].color == SampledColor(img, cols, rows, cells[k].x, cells[k].y) && InRange(cells[k].color)
  {
    cells := [];
    var y := 0;
    while y < rows
      invariant y <= rows && cells == Walked(img, cols, rows, y, 0)
    {
      var x := 0;
      while x < cols
        invariant x <= cols && cells == Walked(img, cols, rows, y, x)
      {
        var cell := SampleCell(img, cols, rows, x, y);
        cells := cells + [cell];
        x := x + 1;
      }
      y := y + 1;
    }
    IndexShape(img, cols, rows);
  }

  /** The complete walk lists every grid position once, row by row, unused. */
  lemma IndexShape(img: Image, cols: nat, rows: nat)
    requires ValidGeometry(img, cols, rows)
    ensures var cells := Walked(img, cols, rows, rows, 0);
            |cells| == cols * rows &&
            forall k :: 0 <= k < |cells| ==>
              cells[k].x == k % cols && cells[k].y == k / cols < rows && !cells[k].used &&
              cells[k].color == SampledColor(img, cols, rows, cells[k].x, cells[k].y) && InRange(cells[k].color)
  {
    var cells := Walked(img, cols, rows, rows, 0);
    WalkedLength(img, cols, rows, rows, 0);
    forall k | 0 <= k < |cells|
      ensures cells[k].x == k % cols && cells[k].y == k / cols < rows && !cells[k].used
      ensures cells[k].color == SampledColor(img, cols, rows, cells[k].x, cells[k].y)
    {
      WalkedAt(img, cols, rows, rows, 0, k);
    }
  }

  /** No two cells of a built index share a grid position. */
  lemma IndexPositionsDistinct(cells: seq<Cell>, cols: nat)
    requires 0 < cols
    requires forall k :: 0 <= k < |cells| ==> cells[k].x == k % cols && cells[k].y == k / cols
    ensures forall j, k :: 0 <= j < k < |cells| ==> (cells[j].x, cells[j].y) != (cells[k].x, cells[k].y)
  {
    forall j, k | 0 <= j < k < |cells|
      ensures (cells[j].x, cells[j].y) != (cells[k].x, cells[k].y)
    {
      RowMajorDistinct(j, k, cols);
    }
  }
}
