/**
 * Compositor: the drawing the upload handler performs on the visible canvas.
 *
 * The canvas is modelled by the state the handler reads and changes: its
 * size, its global alpha, the stack of states pushed by save(), and the
 * sequence of draw commands issued since the bitmap was last cleared.
 * Pixel blending is not modelled; a draw is recorded with the alpha in
 * force when it was issued.
 */
module Compositor {
  import opened PixelSampler

  /** A rectangle in canvas coordinates; the cell size is fractional in general. */
  datatype Box = Box(x: real, y: real, w: real, h: real)

  datatype DrawOp =
    /** A region `src` of the main image drawn into `dest`. */
    | MainImageDraw(src: Box, dest: Box, alpha: real)
    /** A whole uploaded image scaled into `dest`. */
    | UploadDraw(img: Image, dest: Box, alpha: real)

  /** The transparency of an uploaded image drawn over its patch. */
  const OverlayAlpha: real := 0.6

  class Canvas {
    var width: nat
    var height: nat
    var globalAlpha: real
    /** The alpha values pushed by Save, the most recent last. */
    var saved: seq<real>
    var drawn: seq<DrawOp>

    /** A fresh canvas: opaque drawing state, nothing saved, nothing drawn. */
    constructor (width: nat, height: nat)
      ensures this.width == width && this.height == height
      ensures globalAlpha == 1.0 && saved == [] && drawn == []
    {
      this.width := width;
      this.height := height;
      globalAlpha := 1.0;
      saved := [];
      drawn := [];
    }

    /** Setting the canvas size clears the bitmap and resets the drawing state. */
    method Resize(w: nat, h: nat)
      modifies this
      ensures width == w && height == h
      ensures globalAlpha == 1.0 && saved == [] && drawn == []
    {
      width, height := w, h;
      globalAlpha := 1.0;
      saved := [];
      drawn := [];
    }

    method DrawMainImage(src: Box, dest: Box)
      modifies this`drawn
      ensures drawn == old(drawn) + [MainImageDraw(src, dest, globalAlpha)]
    {
      drawn := drawn + [MainImageDraw(src, dest, globalAlpha)];
    }

    method DrawUpload(img: Image, dest: Box)
      modifies this`drawn
      ensures drawn == old(drawn) + [UploadDraw(img, dest, globalAlpha)]
    {
      drawn := drawn + [UploadDraw(img, dest, globalAlpha)];
    }

    /** Clearing the whole canvas removes everything drawn. */
    method ClearAll()
      modifies this`drawn
      ensures drawn == []
    {
      drawn := [];
    }

    /** An alpha outside [0, 1] is ignored and the current one kept. */
    method SetGlobalAlpha(alpha: real)
      modifies this`globalAlpha
      ensures globalAlpha == if 0.0 <= alpha <= 1.0 then alpha else old(globalAlpha)
    {
      if 0.0 <= alpha <= 1.0 {
        globalAlpha := alpha;
      }
    }

    method Save()
      modifies this`saved
      ensures saved == old(saved) + [globalAlpha]
    {
      saved := saved + [globalAlpha];
    }

    /** Pop the most recently saved state; with nothing saved, nothing happens. */
    method Restore()
      modifies this`saved, this`globalAlpha
      ensures old(saved) == [] ==> saved == [] && globalAlpha == old(globalAlpha)
      ensures old(saved) != [] ==>
                saved == old(saved)[..|old(saved)| - 1] && globalAlpha == old(saved)[|old(saved)| - 1]
    {
      if saved != [] {
        globalAlpha := saved[|saved| - 1];
        saved := saved[..|saved| - 1];
      }
    }
  }

  /**
   * The canvas region of grid cell (x, y): the cell size is the canvas size
   * divided by the grid dimensions, not rounded.
   */
  function CellBox(width: nat, height: nat, cols: nat, rows: nat, x: nat, y: nat): Box
    requires 0 < cols && 0 < rows
  {
    var cellWidth := width as real / cols as real;
    var cellHeight := height as real / rows as real;
    Box(x as real * cellWidth, y as real * cellHeight, cellWidth, cellHeight)
  }

  /**
   * Among spans of equal nonnegative length laid end to end from 0, span i
   * starts at or after 0 and ends no later than span j starts.
   */
  lemma SpansApart(i: nat, j: nat, span: real, start1: real, start2: real)
    requires 0.0 <= span && i < j && start1 == i as real * span && start2 == j as real * span
    ensures 0.0 <= start1 && start1 + span <= start2
  {
    assert (j - i) as real * span >= span by {
      assert (j - i) as real >= 1.0;
    }
    assert start2 == start1 + (j - i) as real * span;
  }

  /** Every cell of the grid lies within the canvas. */
  lemma CellBoxInside(width: nat, height: nat, cols: nat, rows: nat, x: nat, y: nat)
    requires 0 < cols && 0 < rows && x < cols && y < rows
    ensures var b := CellBox(width, height, cols, rows, x, y);
            0.0 <= b.x && b.x + b.w <= width as real && 0.0 <= b.y && b.y + b.h <= height as real
  {
    var b := CellBox(width, height, cols, rows, x, y);
    SpansApart(x, cols, b.w, b.x, width as real);
    SpansApart(y, rows, b.h, b.y, height as real);
  }

  /** Horizontally and vertically adjacent cells abut exactly. */
  lemma CellBoxesTile(width: nat, height: nat, cols: nat, rows: nat, x: nat, y: nat)
    requires 0 < cols && 0 < rows
    ensures var b := CellBox(width, height, cols, rows, x, y);
            b.x + b.w == CellBox(width, height, cols, rows, x + 1, y).x &&
            b.y + b.h == CellBox(width, height, cols, rows, x, y + 1).y
  {
  }

  /** The regions of two different cells do not overlap. */
  lemma CellBoxesDisjoint(width: nat, height: nat, cols: nat, rows: nat, x1: nat, y1: nat, x2: nat, y2: nat)
    requires 0 < cols && 0 < rows && (x1, y1) != (x2, y2)
    ensures var b1, b2 := CellBox(width, height, cols, rows, x1, y1), CellBox(width, height, cols, rows, x2, y2);
            b1.x + b1.w <= b2.x || b2.x + b2.w <= b1.x || b1.y + b1.h <= b2.y || b2.y + b2.h <= b1.y
  {
    var b1, b2 := CellBox(width, height, cols, rows, x1, y1), CellBox(width, height, cols, rows, x2, y2);
    if x1 < x2 {
      SpansApart(x1, x2, b1.w, b1.x, b2.x);
    } else if x2 < x1 {
      SpansApart(x2, x1, b1.w, b2.x, b1.x);
    } else if y1 < y2 {
      SpansApart(y1, y2, b1.h, b1.y, b2.y);
    } else {
      SpansApart(y2, y1, b1.h, b2.y, b1.y);
    }
  }

  /**
   * The two draws that paint `upload` into grid cell (x, y): the cell's own
   * patch of the main image at the alpha in force, then the upload scaled to
   * the cell at OverlayAlpha.
   */
  function CompositeOps(width: nat, height: nat, cols: nat, rows: nat, x: nat, y: nat, upload: Image, alpha: real): seq<DrawOp>
    requires 0 < cols && 0 < rows
  {
    var box := CellBox(width, height, cols, rows, x, y);
    [MainImageDraw(box, box, alpha), UploadDraw(upload, box, OverlayAlpha)]
  }

  /**
   * Paint an upload into grid cell (x, y), the overlay inside a save/restore
   * pair so that the canvas state is left as it was found.
   */
  method Composite(canvas: Canvas, upload: Image, cols: nat, rows: nat, x: nat, y: nat)
    requires 0 < cols && 0 < rows
    modifies canvas
    ensures canvas.width == old(canvas.width) && canvas.height == old(canvas.height)
    ensures canvas.globalAlpha == old(canvas.globalAlpha) && canvas.saved == old(canvas.saved)
    ensures canvas.drawn == old(canvas.drawn) +
              CompositeOps(canvas.width, canvas.height, cols, rows, x, y, upload, old(canvas.globalAlpha))
  {
    var cellWidth := canvas.width as real / cols as real;
    var cellHeight := canvas.height as real / rows as real;
    var box := Box(x as real * cellWidth, y as real * cellHeight, cellWidth, cellHeight);
    canvas.DrawMainImage(box, box);
    canvas.Save();
    canvas.SetGlobalAlpha(OverlayAlpha);
    canvas.DrawUpload(upload, box);
    assert canvas.saved == old(canvas.saved) + [old(canvas.globalAlpha)];
    canvas.Restore();
    assert box == CellBox(canvas.width, canvas.height, cols, rows, x, y);
  }
}
