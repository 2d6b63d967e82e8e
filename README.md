# Photomosaic grid matcher — a Dafny model

This project models the core of a single-page photomosaic app, `src/App.jsx`.
When the app's main image loads, the canvas is resized to the image. The image is drawn once, temporarily.
It is cut into a fixed 40 × 25 grid, and each cell's mean colour is recorded with a cleared `used` flag.
The temporary draw is then cleared.
Each uploaded image is reduced to its mean colour and matched to the nearest unused grid cell, which is then marked used.
If a cell was found, the handler draws the cell's own patch of the main image and then draws the upload over it at alpha 0.6.
The overlay sits inside a save/restore pair.

The model is split by concern:

- `PixelSampler` (`pixels.dfy`) covers the RGBA byte buffers and the channel-mean loop.
  Both the grid indexer and the upload averaging use that loop.
- `GridIndexer` (`grid.dfy`) covers the sample rectangle of each cell and how rectangles are read out of the buffer.
  It also holds the nested row-by-row loop that builds the index.
- `ColorMatcher` (`matcher.dfy`) covers the nearest-unused-cell scan.
  The index is a class `Grid` whose `array` of cells is the one table every match reads and marks in place.
  In the app, a match copies the list shallowly and sets the flag on the shared cell object, so later matches see it.
  The matcher returns the cell's position in that table.
- `Compositor` (`compositor.dfy`) models the visible canvas as a class.
  It holds the canvas size, the global alpha, the stack of saved states and the sequence of draw commands issued since the last clear.
  It also holds the per-cell compositing step.
- `UploadPipeline` (`pipeline.dfy`) covers mounting, loading the main image, handling one upload, and handling a batch of uploads.
  Uploads are handled one at a time, in the order their decoding completes.
  That order is the order of the `uploads` sequence.
- `Arith` (`arith.dfy`) and `Wrappers` (`wrappers.dfy`) hold the arithmetic facts the proofs use and the `Option` type.

The code has no error path for an empty region.
If the main image is narrower than 40 or shorter than 25 pixels, the floored sample width or height is 0.
`getImageData` (src/App.jsx:40-45) then throws, and the load handler stops there.
The averaging, the clear at src/App.jsx:70 and the index update at src/App.jsx:72 never run.
The temporary full-size draw stays on the canvas, the index stays empty, and every later upload finds no cell.
An upload with no pixel makes `getImageData` at src/App.jsx:84 throw in the same way, before any match.
The model makes the cases that do not throw its preconditions: `ValidGeometry` and `Decoded`.
A failed decode never reaches the code's `onload` handler, so such an upload has no effect at all.
That is why only decoded uploads appear in a batch.

## Model

| member | source | states |
|---|---|---|
| PixelSampler.ChannelSumBounds | src/App.jsx:88-92 | A channel sum over n pixels lies between 0 and 255·n. |
| PixelSampler.ChannelMeanInRange | src/App.jsx:94-99 | The floor of a channel sum divided by the pixel count lies in [0, 255]. |
| PixelSampler.MeanColorInRange | src/App.jsx:94-99 | All three channels of a buffer's mean colour are byte values. |
| PixelSampler.ChannelSumIgnoresAlpha | src/App.jsx:88-92 | Buffers that differ only at offsets ≡ 3 (mod 4) have equal red, green and blue sums. Only offsets 0, 1 and 2 are read. |
| PixelSampler.MeanColorIgnoresAlpha | src/App.jsx:85-99 | The mean colour does not depend on the alpha bytes. |
| PixelSampler.SumChannels | src/App.jsx:85-92 | Stepping four bytes at a time, the loop counts a quarter of the buffer length as pixels and computes the red, green and blue sums over them. |
| PixelSampler.AverageColor | src/App.jsx:76-100 | The average of a non-empty decoded image is the per-channel floor mean over all its pixels, and each channel is in [0, 255]. |
| GridIndexer.SampleRect | src/App.jsx:38-44 | The rectangle's origin and size are the floors of x·W/cols, y·H/rows, W/cols and H/rows: each value q for n/d satisfies q·d ≤ n < q·d + d. |
| GridIndexer.SpanFits | src/App.jsx:38-44 | Along one axis, the floored origin of part i plus the floored part size never passes the origin of part i + 1. |
| GridIndexer.SpanGap | src/App.jsx:38-44 | Along one axis, the gap between part i's end and part i + 1's origin is at most one pixel. |
| GridIndexer.SpanEnd | src/App.jsx:38-44 | Along one axis, every part ends within the image. |
| GridIndexer.SampleRectInside | src/App.jsx:38-45 | Every cell's rectangle `(floor(x·W/cols), floor(y·H/rows), floor(W/cols), floor(H/rows))` lies inside the W × H buffer. |
| GridIndexer.SampleRectNonEmpty | src/App.jsx:43-44 | If cols ≤ W and rows ≤ H, every sample rectangle is at least 1 × 1. |
| GridIndexer.AdjacentSampleRects | src/App.jsx:38-44 | Horizontally and vertically adjacent sample rectangles never overlap and are at most one pixel apart. |
| GridIndexer.RowBytes | src/App.jsx:40-45 | Reading w pixels of one row yields 4·w bytes. |
| GridIndexer.CropRowsLength | src/App.jsx:40-45 | The pixel data of a w × n rectangle holds 4·w·n bytes. |
| GridIndexer.CropRowsRow | src/App.jsx:40-45 | Row j of a rectangle's pixel data is buffer row y + j, cut to the rectangle's columns; rows come top to bottom. |
| GridIndexer.ImageDataShape | src/App.jsx:40-51 | A non-empty rectangle's pixel data is a non-empty whole number of 4-byte pixels, so the averaging loop's count is never 0. |
| GridIndexer.RectMean | src/App.jsx:40-63 | The mean colour of any non-empty rectangle inside the buffer has every channel in [0, 255]. |
| GridIndexer.SampledColor | src/App.jsx:38-63 | The colour recorded for any grid cell has every channel in [0, 255]. |
| GridIndexer.SampleMean | src/App.jsx:40-63 | A cell's colour is the per-channel floor mean of its rectangle's pixels, and it lies in [0, 255]. |
| GridIndexer.RowMajor | src/App.jsx:36-37 | Entry y·cols + x of the table is column x of row y. |
| GridIndexer.RowMajorDistinct | src/App.jsx:36-37 | Two different table entries differ in column or row. |
| GridIndexer.WalkedLength | src/App.jsx:36-67 | After the walk has done y full rows and x more cells, the table holds y·cols + x entries. |
| GridIndexer.WalkedLast | src/App.jsx:58-65 | The entry the walk pushed last is the cell it had just sampled. |
| GridIndexer.WalkedAt | src/App.jsx:36-67 | Entry k of the walked prefix is cell (k mod cols, k div cols), inside the grid, with that cell's sampled colour. |
| GridIndexer.SampleCell | src/App.jsx:38-65 | The loop body pushes cell (x, y) with its sampled mean colour and `used` false. |
| GridIndexer.IndexGrid | src/App.jsx:31-67 | The nested loops produce cols·rows entries. Entry k has x = k mod cols, y = k div cols < rows, `used` false, and the mean colour of its own sample rectangle, every channel in [0, 255]. |
| GridIndexer.IndexShape | src/App.jsx:36-67 | The completed walk lists every grid position exactly once, in row-major order, unused, with its sampled colour in [0, 255]. |
| GridIndexer.IndexPositionsDistinct | src/App.jsx:58-60 | No two entries of a built index share a grid position. |
| ColorMatcher.Dist2 | src/App.jsx:110-114 | The squared colour distance is never negative, and it is 0 exactly when the two colours are equal. |
| ColorMatcher.NearestUnique | src/App.jsx:116-119 | At most one cell is the nearest unused cell in the strict-first-minimum sense. |
| ColorMatcher.EarliestWinsTie | src/App.jsx:116-119 | If an unused cell is as near as the chosen one, the chosen one comes no later in the table. |
| ColorMatcher.NearestUnused | src/App.jsx:103-120 | The scan finds nothing exactly when every cell is used. Otherwise it returns an unused cell whose distance is no greater than any unused cell's and strictly less than every earlier unused cell's. |
| ColorMatcher.Mark | src/App.jsx:122-123 | Marking cell k keeps the table's length and every cell's position and colour, and sets `used` exactly on the old used cells and on k. |
| ColorMatcher.UsedCountFull | src/App.jsx:108 | The used count is at most the table size, and it equals the size exactly when every cell is used. |
| ColorMatcher.UsedCountNone | src/App.jsx:64 | A table with no used cell has used count 0. |
| ColorMatcher.UsedCountMark | src/App.jsx:122-123 | Marking an unused cell adds exactly one to the used count. |
| ColorMatcher.Grid.constructor | src/App.jsx:72 | The grid holds a fresh array with exactly the given entries. |
| ColorMatcher.Grid.FindNearestColor | src/App.jsx:102-128 | Returns None exactly when every cell was used, and then changes nothing. Otherwise it returns the nearest unused cell (earliest on ties). The new table is the old one with that cell's flag set and nothing else changed, and the used count rises by one. |
| Compositor.Canvas.constructor | src/App.jsx:190-195 | A new canvas has the given size, alpha 1, nothing saved and nothing drawn. |
| Compositor.Canvas.Resize | src/App.jsx:22-23 | Setting the size clears the drawing and resets the alpha and the saved-state stack. |
| Compositor.Canvas.DrawMainImage | src/App.jsx:147-157 | Appends one draw of a main-image region into a destination box, recorded with the current alpha. |
| Compositor.Canvas.DrawUpload | src/App.jsx:162-168 | Appends one draw of the whole upload scaled into a box, recorded with the current alpha. |
| Compositor.Canvas.ClearAll | src/App.jsx:70 | Clearing the whole canvas leaves nothing drawn. |
| Compositor.Canvas.SetGlobalAlpha | src/App.jsx:161 | Sets the alpha used by later draws. A value outside [0, 1] is ignored and the current alpha kept. |
| Compositor.Canvas.Save | src/App.jsx:160 | Pushes the current alpha. |
| Compositor.Canvas.Restore | src/App.jsx:169 | Pops the most recently saved alpha and makes it current. With nothing saved, nothing changes. |
| Compositor.CellBoxInside | src/App.jsx:143-156 | The box of every cell (x < cols, y < rows) lies within the canvas. |
| Compositor.CellBoxesTile | src/App.jsx:143-156 | The boxes of horizontally and vertically adjacent cells abut exactly. |
| Compositor.CellBoxesDisjoint | src/App.jsx:143-156 | The boxes of two different cells do not overlap. |
| Compositor.Composite | src/App.jsx:142-169 | Adds exactly two draws: the main-image patch at (x·W/cols, y·H/rows, W/cols, H/rows) at the alpha in force, then the upload into the same box at 0.6. The size, the alpha and the saved-state stack are left as they were. |
| UploadPipeline.Mount | src/App.jsx:7-9 | At mount the grid is 40 × 25 with an empty index, and the canvas is 800 × 500 with nothing drawn. |
| UploadPipeline.LoadMainImage | src/App.jsx:21-73 | Resizes the canvas to the image and indexes the 40 × 25 grid, row-major, all unused. Afterwards the canvas holds no draw. |
| UploadPipeline.HandleUpload | src/App.jsx:138-170 | Matches the upload's mean colour to the nearest unused cell and marks that cell. It composites the upload into that cell's box. If every cell is used, nothing is marked and nothing is drawn. |
| UploadPipeline.MarkAllMarks | src/App.jsx:122-123 | Marking a batch's cells in order sets `used` exactly on the old used cells and the cells found. Nothing else changes. |
| UploadPipeline.MarkAllStep | src/App.jsx:135-140 | Handling one more upload extends the batch's marking by that upload's cell. |
| UploadPipeline.CountStep | src/App.jsx:135-140 | The i-th upload of a batch finds a cell exactly when i is less than the number of cells unused at the start. The used count then grows by one. |
| UploadPipeline.DistinctStep | src/App.jsx:135-140 | A cell found while unused cells remain is one no earlier upload of the batch took. |
| UploadPipeline.BatchStep | src/App.jsx:135-140 | One more handled upload preserves the batch invariant: distinct fresh cells, the marked table, and the used count. |
| UploadPipeline.BatchOpsStep | src/App.jsx:135-170 | A batch's draws grow by the two draws of its last upload, or by none if that upload found no cell. |
| UploadPipeline.GreedyAt | src/App.jsx:135-140 | In a greedy batch, every upload that found a cell got the nearest unused cell to its mean colour in the table as the earlier uploads left it. |
| UploadPipeline.GreedyStep | src/App.jsx:135-140 | An upload matched to the nearest unused cell of the current table extends a greedy batch. |
| UploadPipeline.HandleUploads | src/App.jsx:130-176 | With F unused cells, the first min(n, F) of n uploads each get a distinct, previously unused cell. The rest find none. Upload i gets the unused cell nearest its mean colour (earliest on ties) in the table as uploads 0 .. i − 1 left it. The table gains exactly those flags. The canvas gains exactly those uploads' draws, in order. |
| UploadPipeline.FreshBatch | src/App.jsx:135-140 | On a fresh index, exactly as many uploads as the index has cells are placed, the first ones, in distinct cells. The used count equals the number placed. |
| UploadPipeline.Start | src/App.jsx:16-73 | After mount and main-image load, the index has 40·25 entries and none is used. |
| UploadPipeline.Session | src/App.jsx:16-176 | Over a whole session, upload i is placed exactly when i < 1000, each placed upload gets a different cell, and the 1001st upload onwards is placed nowhere. |

## Left out

- React rendering, hooks and state updates are not modelled (the `setGridColors` calls at src/App.jsx:72 and src/App.jsx:124).
  Under the shallow copy every match marks the same shared cell objects.
  So the model keeps one table that every match reads and writes.
- Asynchronous loading is not modelled.
  The model does not cover when the main image's `onload` handler is attached, or uploads completing in parallel.
  A batch is handled one upload at a time, in the given order.
- The `crossOrigin` setting (src/App.jsx:137), `URL.createObjectURL` and the reset of the file input (src/App.jsx:172-175) have no effect on the modelled state.
- Browser image decoding is not modelled, nor is `getAverageColor`'s temporary canvas (src/App.jsx:77-84).
  An upload is given as its decoded RGBA buffer.
- The main image's temporary full-size draw is taken to reproduce the image's own pixels (src/App.jsx:34).
  The canvas is first sized to the image, so the grid is indexed straight from the image buffer.
  Colour-space conversion and premultiplied alpha are not modelled.
- `Math.sqrt` and `Math.pow` (src/App.jsx:110-114) are replaced by the integer squared distance.
  The square root is strictly increasing, so both pick the same cell.
  For byte-valued channels the floating-point squares are exact, and distinct sums up to 195075 have distinct rounded roots.
- Floating-point rounding of `cellWidth` and `cellHeight` is not modelled.
  Sample rectangles use the exact floor of x·W/cols, which the float product x·(W/cols) may miss by one pixel when x·W/cols is a whole number.
  Composite boxes use exact real arithmetic.
- Pixel blending, scaling and smoothing in `drawImage` are not modelled.
  The canvas records each draw as a command with the alpha in force when it was issued.
- `save()` and `restore()` store the whole 2D context state in the browser.
  The model stores only the global alpha, the one setting the handler changes.
- The exception `getImageData` throws for a zero-pixel sample rectangle or a zero-pixel upload is not modelled (src/App.jsx:40-45, src/App.jsx:84).
  Those inputs are excluded by the preconditions `ValidGeometry` (cols ≤ W, rows ≤ H) and `Decoded`.
  With such a main image the code would leave the index empty and the temporary draw visible.
- UploadPipeline.Session states only the placement and used-count facts.
  The draws of a session are stated by UploadPipeline.HandleUploads, which Session calls.
