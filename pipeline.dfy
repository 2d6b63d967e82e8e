/**
 * UploadPipeline: the application's two event handlers over one grid index
 * and one visible canvas.
 *
 * Loading the main image sizes the canvas to it, builds the index from a
 * temporary full draw and clears that draw again. Each decoded upload is
 * reduced to its mean colour, matched to the nearest unused cell and, when
 * a cell was found, composited into that cell. Uploads are handled one at a
 * time in the order their decoding completes.
 */
module UploadPipeline {
  import opened Wrappers
  import opened PixelSampler
  import opened GridIndexer
  import opened ColorMatcher
  import opened Compositor
  import opened Arith

  /** The fixed grid dimensions. */
  const GridCols: nat := 40
  const GridRows: nat := 25

  /** The size of the canvas before the main image has loaded. */
  const CanvasWidth: nat := 800
  const CanvasHeight: nat := 500

  /** An upload the browser has decoded: a well-formed RGBA buffer with at least one pixel. */
  predicate Decoded(img: Image) {
    WellFormed(img) && 0 < img.width && 0 < img.height
  }

  /** The mean colour the upload handler matches a decoded upload by. */
  function UploadColor(img: Image): RGB
    requires Decoded(img)
  {
    MulPositive(img.width, img.height);
    MeanColor(img.data)
  }

  /**
   * The draws one handled upload adds to the canvas: none when no cell was
   * found. A found index always lies within the table.
   */
  function UploadOps(cells: seq<Cell>, found: Option<nat>, upload: Image,
                     width: nat, height: nat, cols: nat, rows: nat, alpha: real): seq<DrawOp>
    requires 0 < cols && 0 < rows
  {
    if found.Some? && found.value < |cells| then
      CompositeOps(width, height, cols, rows, cells[found.value].x, cells[found.value].y, upload, alpha)
    else []
  }

  /**
   * The draws added by handling the first |found| uploads, in order, where
   * found[i] is the cell the i-th upload was matched to.
   */
  function BatchOps(cells: seq<Cell>, found: seq<Option<nat>>, uploads: seq<Image>,
                    width: nat, height: nat, cols: nat, rows: nat, alpha: real): seq<DrawOp>
    requires 0 < cols && 0 < rows && |found| <= |uploads|
  {
    if found == [] then []
    else
      var n := |found| - 1;
      BatchOps(cells, found[..n], uploads, width, height, cols, rows, alpha) +
      UploadOps(cells, found[n], uploads[n], width, height, cols, rows, alpha)
  }

  /** The state before the main image has loaded: an empty index and a blank canvas. */
  method Mount() returns (grid: Grid, canvas: Canvas)
    ensures fresh(grid) && fresh(grid.cells) && fresh(canvas)
    ensures grid.cols == GridCols && grid.rows == GridRows && grid.cells.Length == 0
    ensures canvas.width == CanvasWidth && canvas.height == CanvasHeight
    ensures canvas.globalAlpha == 1.0 && canvas.saved == [] && canvas.drawn == []
  {
    grid := new Grid(GridCols, GridRows, []);
    canvas := new Canvas(CanvasWidth, CanvasHeight);
  }

  /**
   * The main image has loaded: size the canvas to it, index the grid from a
   * temporary draw of the whole image, then clear the canvas again.
   */
  method LoadMainImage(canvas: Canvas, main: Image) returns (grid: Grid)
    requires ValidGeometry(main, GridCols, GridRows)
    modifies canvas
    ensures fresh(grid) && fresh(grid.cells)
    ensures grid.cols == GridCols && grid.rows == GridRows
    ensures canvas.width == main.width && canvas.height == main.height
    ensures canvas.globalAlpha == 1.0 && canvas.saved == [] && canvas.drawn == []
    ensures grid.cells[..] == Walked(main, GridCols, GridRows, GridRows, 0)
    ensures grid.cells.Length == GridCols * GridRows && UsedCount(grid.cells[..]) == 0
  {
    canvas.Resize(main.width, main.height);
    var whole := Box(0.0, 0.0, canvas.width as real, canvas.height as real);
    canvas.DrawMainImage(whole, whole);
    var cells := IndexGrid(main, GridCols, GridRows);
    canvas.ClearAll();
    UsedCountNone(cells);
    grid := new Grid(GridCols, GridRows, cells);
  }

  /**
   * One decoded upload: match its mean colour against the index and, when a
   * cell was found, composite the upload into that cell.
   */
  method HandleUpload(grid: Grid, canvas: Canvas, upload: Image) returns (found: Option<nat>)
    requires Decoded(upload) && 0 < grid.cols && 0 < grid.rows
    modifies grid.cells, canvas
    ensures found.None? <==> AllUsed(old(grid.cells[..]))
    ensures found.Some? ==> IsNearestUnused(old(grid.cells[..]), MeanColor(upload.data), found.value)
    ensures grid.cells[..] == if found.Some? then Mark(old(grid.cells[..]), found.value) else old(grid.cells[..])
    ensures UsedCount(grid.cells[..]) == UsedCount(old(grid.cells[..])) + (if found.Some? then 1 else 0)
    ensures canvas.width == old(canvas.width) && canvas.height == old(canvas.height)
    ensures canvas.globalAlpha == old(canvas.globalAlpha) && canvas.saved == old(canvas.saved)
    ensures canvas.drawn == old(canvas.drawn) +
              UploadOps(old(grid.cells[..]), found, upload, canvas.width, canvas.height,
                        grid.cols, grid.rows, old(canvas.globalAlpha))
  {
    var avgColor := AverageColor(upload);
    found := grid.FindNearestColor(avgColor);
    if found.Some? {
      var cell := grid.cells[found.value];
      Composite(canvas, upload, grid.cols, grid.rows, cell.x, cell.y);
    }
  }

  function Min(a: int, b: int): int {
    if a <= b then a else b
  }

  /**
   * `after` is `before` with the used flags of the found cells set and
   * nothing else changed.
   */
  predicate MarkedFrom(before: seq<Cell>, after: seq<Cell>, found: seq<Option<nat>>) {
    |after| == |before| &&
    forall k :: 0 <= k < |before| ==>
      after[k].x == before[k].x && after[k].y == before[k].y && after[k].color == before[k].color &&
      (after[k].used <==> before[k].used || Some(k) in found)
  }

  /** The table after the cells a batch found have been marked used, in order. */
  function MarkAll(table: seq<Cell>, found: seq<Option<nat>>): (marked: seq<Cell>)
    ensures |marked| == |table|
  {
    if found == [] then table
    else
      var earlier, f := MarkAll(table, found[..|found| - 1]), found[|found| - 1];
      if f.Some? && f.value < |table| then Mark(earlier, f.value) else earlier
  }

  /** Marking a batch's cells in order sets exactly their used flags. */
  lemma {:induction false} MarkAllMarks(table: seq<Cell>, found: seq<Option<nat>>)
    ensures MarkedFrom(table, MarkAll(table, found), found)
    decreases |found|
  {
    if found != [] {
      var n := |found| - 1;
      MarkAllMarks(table, found[..n]);
      forall k | 0 <= k < |table|
        ensures Some(k) in found <==> Some(k) in found[..n] || found[n] == Some(k)
      {
        assert found == found[..n] + [found[n]];
      }
    }
  }

  /** Handling one more upload extends the batch's marking by its cell. */
  lemma MarkAllStep(table: seq<Cell>, found: seq<Option<nat>>, f: Option<nat>)
    ensures MarkAll(table, found + [f]) ==
              if f.Some? && f.value < |table| then Mark(MarkAll(table, found), f.value) else MarkAll(table, found)
  {
    assert (found + [f])[..|found|] == found;
  }

  /**
   * The first `free` entries of `found` are distinct cells that were unused
   * in `before`; the remaining entries found no cell.
   */
  predicate FoundDistinct(before: seq<Cell>, found: seq<Option<nat>>, free: int) {
    (forall j :: 0 <= j < |found| ==> (found[j].Some? <==> j < free)) &&
    (forall j :: 0 <= j < |found| && found[j].Some? ==>
       found[j].value < |before| && !before[found[j].value].used) &&
    (forall j, l :: 0 <= j < l < |found| && found[j].Some? && found[l].Some? ==>
       found[j].value != found[l].value)
  }

  /**
   * One more upload handled against the table `current`: the match finds a
   * cell exactly while unused cells remain, and the used count grows by one
   * exactly then.
   */
  lemma {:induction false} CountStep(before: seq<Cell>, current: seq<Cell>, i: nat, free: int,
                                     f: Option<nat>, next: seq<Cell>)
    requires free == |before| - UsedCount(before) && |current| == |before|
    requires UsedCount(current) == UsedCount(before) + Min(i, free)
    requires f.None? <==> AllUsed(current)
    requires f.Some? ==> f.value < |current| && !current[f.value].used
    requires next == if f.Some? then Mark(current, f.value) else current
    ensures f.Some? <==> i < free
    ensures UsedCount(next) == UsedCount(before) + Min(i + 1, free)
  {
    UsedCountFull(current);
    UsedCountFull(before);
    if f.Some? {
      UsedCountMark(current, f.value);
    }
  }

  /** A cell found while unused cells remain is new to the batch. */
  lemma DistinctStep(before: seq<Cell>, current: seq<Cell>, found: seq<Option<nat>>, free: int, f: Option<nat>)
    requires current == MarkAll(before, found) && FoundDistinct(before, found, free)
    requires f.Some? <==> |found| < free
    requires f.Some? ==> f.value < |current| && !current[f.value].used
    ensures FoundDistinct(before, found + [f], free)
  {
    MarkAllMarks(before, found);
    var found' := found + [f];
    if f.Some? {
      forall j | 0 <= j < |found| && found[j].Some?
        ensures found[j].value != f.value
      {
        assert current[found[j].value].used;
      }
    }
    assert forall j :: 0 <= j < |found| ==> found'[j] == found[j];
  }

  /** One more upload of a batch handled against the table `current`, which becomes `next`. */
  lemma BatchStep(before: seq<Cell>, current: seq<Cell>, found: seq<Option<nat>>, free: int,
                  f: Option<nat>, next: seq<Cell>)
    requires free == |before| - UsedCount(before)
    requires current == MarkAll(before, found) && FoundDistinct(before, found, free)
    requires UsedCount(current) == UsedCount(before) + Min(|found|, free)
    requires f.None? <==> AllUsed(current)
    requires f.Some? ==> f.value < |current| && !current[f.value].used
    requires next == if f.Some? then Mark(current, f.value) else current
    ensures next == MarkAll(before, found + [f]) && FoundDistinct(before, found + [f], free)
    ensures UsedCount(next) == UsedCount(before) + Min(|found| + 1, free)
  {
    CountStep(before, current, |found|, free, f, next);
    MarkAllStep(before, found, f);
    DistinctStep(before, current, found, free, f);
  }

  /** The draws of a batch grow by the draws of its last upload. */
  lemma BatchOpsStep(before: seq<Cell>, current: seq<Cell>, found: seq<Option<nat>>, uploads: seq<Image>, i: nat,
                     f: Option<nat>, width: nat, height: nat, cols: nat, rows: nat, alpha: real)
    requires 0 < cols && 0 < rows && |found| == i < |uploads|
    requires current == MarkAll(before, found)
    ensures BatchOps(before, found + [f], uploads, width, height, cols, rows, alpha) ==
            BatchOps(before, found, uploads, width, height, cols, rows, alpha) +
            UploadOps(current, f, uploads[i], width, height, cols, rows, alpha)
  {
    MarkAllMarks(before, found);
    assert (found + [f])[..i] == found;
  }

  lemma AppendAssociative<T>(a: seq<T>, b: seq<T>, c: seq<T>)
    ensures (a + b) + c == a + (b + c)
  {
  }

  /**
   * Every upload of the batch that found a cell got the unused cell nearest
   * to its mean colour in the table as the earlier uploads had left it.
   */
  ghost predicate Greedy(before: seq<Cell>, found: seq<Option<nat>>, uploads: seq<Image>)
    requires |found| <= |uploads| && forall i :: 0 <= i < |uploads| ==> Decoded(uploads[i])
  {
    if found == [] then true
    else
      var n := |found| - 1;
      Greedy(before, found[..n], uploads) &&
      (found[n].Some? ==> IsNearestUnused(MarkAll(before, found[..n]), UploadColor(uploads[n]), found[n].value))
  }

  /** Greedy matching, stated upload by upload. */
  lemma {:induction false} GreedyAt(before: seq<Cell>, found: seq<Option<nat>>, uploads: seq<Image>)
    requires |found| <= |uploads| && forall i :: 0 <= i < |uploads| ==> Decoded(uploads[i])
    requires Greedy(before, found, uploads)
    ensures forall i :: 0 <= i < |found| && found[i].Some? ==>
              IsNearestUnused(MarkAll(before, found[..i]), UploadColor(uploads[i]), found[i].value)
    decreases |found|
  {
    if found != [] {
      var n := |found| - 1;
      GreedyAt(before, found[..n], uploads);
      forall i | 0 <= i < n
        ensures found[..n][..i] == found[..i] && found[..n][i] == found[i]
      {
      }
    }
  }

  /** An upload matched to the nearest unused cell extends a greedy batch. */
  lemma GreedyStep(before: seq<Cell>, found: seq<Option<nat>>, uploads: seq<Image>, f: Option<nat>)
    requires |found| < |uploads| && forall i :: 0 <= i < |uploads| ==> Decoded(uploads[i])
    requires Greedy(before, found, uploads)
    requires f.Some? ==> IsNearestUnused(MarkAll(before, found), UploadColor(uploads[|found|]), f.value)
    ensures Greedy(before, found + [f], uploads)
  {
    assert (found + [f])[..|found|] == found;
  }

  /**
   * A batch of decoded uploads handled in order. The first uploads, as many
   * as there were unused cells, each get a distinct previously unused cell,
   * the one nearest to their colour among those the earlier uploads left;
   * the rest find none and draw nothing.
   */
  method HandleUploads(grid: Grid, canvas: Canvas, uploads: seq<Image>) returns (found: seq<Option<nat>>)
    requires forall i :: 0 <= i < |uploads| ==> Decoded(uploads[i])
    requires 0 < grid.cols && 0 < grid.rows
    modifies grid.cells, canvas
    ensures |found| == |uploads|
    ensures FoundDistinct(old(grid.cells[..]), found, grid.cells.Length - UsedCount(old(grid.cells[..])))
    ensures grid.cells[..] == MarkAll(old(grid.cells[..]), found)
    ensures MarkedFrom(old(grid.cells[..]), grid.cells[..], found)
    ensures forall i :: 0 <= i < |found| && found[i].Some? ==>
              IsNearestUnused(MarkAll(old(grid.cells[..]), found[..i]), UploadColor(uploads[i]), found[i].value)
    ensures UsedCount(grid.cells[..]) ==
              UsedCount(old(grid.cells[..])) + Min(|uploads|, grid.cells.Length - UsedCount(old(grid.cells[..])))
    ensures canvas.width == old(canvas.width) && canvas.height == old(canvas.height)
    ensures canvas.globalAlpha == old(canvas.globalAlpha) && canvas.saved == old(canvas.saved)
    ensures canvas.drawn == old(canvas.drawn) +
              BatchOps(old(grid.cells[..]), found, uploads, canvas.width, canvas.height,
                       grid.cols, grid.rows, old(canvas.globalAlpha))
  {
    ghost var before := grid.cells[..];
    UsedCountFull(before);
    found := [];
    while |found| < |uploads|
      invariant |found| <= |uploads|
      invariant FoundDistinct(before, found, |before| - UsedCount(before))
      invariant grid.cells[..] == MarkAll(before, found)
      invariant Greedy(before, found, uploads)
      invariant UsedCount(grid.cells[..]) == UsedCount(before) + Min(|found|, |before| - UsedCount(before))
      invariant canvas.width == old(canvas.width) && canvas.height == old(canvas.height)
      invariant canvas.globalAlpha == old(canvas.globalAlpha) && canvas.saved == old(canvas.saved)
      invariant canvas.drawn == old(canvas.drawn) +
                  BatchOps(before, found, uploads, canvas.width, canvas.height, grid.cols, grid.rows, canvas.globalAlpha)
      decreases |uploads| - |found|
    {
      ghost var current, drawnSoFar := grid.cells[..], canvas.drawn;
      ghost var soFar := BatchOps(before, found, uploads, canvas.width, canvas.height,
                                  grid.cols, grid.rows, canvas.globalAlpha);
      var f := HandleUpload(grid, canvas, uploads[|found|]);
      ghost var next := grid.cells[..];
      BatchStep(before, current, found, |before| - UsedCount(before), f, next);
      ghost var ops := UploadOps(current, f, uploads[|found|], canvas.width, canvas.height,
                                 grid.cols, grid.rows, canvas.globalAlpha);
      assert canvas.drawn == drawnSoFar + ops;
      BatchOpsStep(before, current, found, uploads, |found|, f, canvas.width, canvas.height,
                   grid.cols, grid.rows, canvas.globalAlpha);
      AppendAssociative(old(canvas.drawn), soFar, ops);
      GreedyStep(before, found, uploads, f);
      found := found + [f];
    }
    MarkAllMarks(before, found);
    GreedyAt(before, found, uploads);
  }

  /**
   * On a table with no cell used yet, exactly the first |table| uploads of
   * a batch are placed, in distinct cells, and one cell is used per placed
   * upload.
   */
  lemma FreshBatch(table: seq<Cell>, found: seq<Option<nat>>, after: seq<Cell>)
    requires UsedCount(table) == 0
    requires FoundDistinct(table, found, |table| - UsedCount(table))
    requires UsedCount(after) == UsedCount(table) + Min(|found|, |table| - UsedCount(table))
    ensures forall i :: 0 <= i < |found| ==> (found[i].Some? <==> i < |table|)
    ensures forall i :: 0 <= i < |found| && found[i].Some? ==> found[i].value < |table|
    ensures forall i, j :: 0 <= i < j < |found| && found[i].Some? && found[j].Some? ==>
              found[i].value != found[j].value
    ensures UsedCount(after) == Min(|found|, |table|)
  {
  }

  /**
   * The page mounts and its main image finishes loading: the grid is
   * indexed from the image and no cell is used yet.
   */
  method Start(main: Image) returns (grid: Grid, canvas: Canvas)
    requires ValidGeometry(main, GridCols, GridRows)
    ensures fresh(grid) && fresh(grid.cells) && fresh(canvas)
    ensures grid.cols == GridCols && grid.rows == GridRows
    ensures grid.cells.Length == GridCols * GridRows && UsedCount(grid.cells[..]) == 0
  {
    grid, canvas := Mount();
    grid := LoadMainImage(canvas, main);
  }

  /**
   * A whole session: mount, load the main image, then handle a batch of
   * uploads. On the fresh index exactly the first GridCols * GridRows
   * uploads are placed, each in a different cell, and one cell is used per
   * placed upload.
   */
  method Session(main: Image, uploads: seq<Image>) returns (grid: Grid, found: seq<Option<nat>>)
    requires ValidGeometry(main, GridCols, GridRows)
    requires forall i :: 0 <= i < |uploads| ==> Decoded(uploads[i])
    ensures |found| == |uploads| && grid.cells.Length == GridCols * GridRows
    ensures forall i :: 0 <= i < |found| ==> (found[i].Some? <==> i < GridCols * GridRows)
    ensures forall i :: 0 <= i < |found| && found[i].Some? ==> found[i].value < GridCols * GridRows
    ensures forall i, j :: 0 <= i < j < |found| && found[i].Some? && found[j].Some? ==>
              found[i].value != found[j].value
    ensures UsedCount(grid.cells[..]) == Min(|uploads|, GridCols * GridRows)
  {
    var canvas;
    grid, canvas := Start(main);
    ghost var indexed := grid.cells[..];
    found := HandleUploads(grid, canvas, uploads);
    FreshBatch(indexed, found, grid.cells[..]);
  }
}
