/**
 * ColorMatcher: greedy nearest-unused-cell matching over the grid index.
 *
 * The index is one mutable table shared by every upload. A match scans the
 * table in order, skips used cells, keeps the first cell of strictly
 * smallest distance to the target colour and sets that cell's used flag in
 * place, so that later matches never see it as free again.
 */
module ColorMatcher {
  import opened Wrappers
  import opened PixelSampler
  import opened GridIndexer
  import opened Arith

  /**
   * Squared Euclidean distance in RGB space. The square root is strictly
   * increasing, so it orders candidates exactly as the Euclidean distance.
   */
  function Dist2(a: RGB, b: RGB): (d: int)
    ensures 0 <= d
    ensures d == 0 <==> a == b
  {
    Square(a.r - b.r);
    Square(a.g - b.g);
    Square(a.b - b.b);
    (a.r - b.r) * (a.r - b.r) + (a.g - b.g) * (a.g - b.g) + (a.b - b.b) * (a.b - b.b)
  }

  /** A square is never negative, and it is zero only for zero. */
  lemma Square(n: int)
    ensures 0 <= n * n && (n * n == 0 <==> n == 0)
  {
    if n != 0 {
      MulPositive(if n < 0 then -n else n, if n < 0 then -n else n);
    }
  }

  predicate AllUsed(cells: seq<Cell>) {
    forall j :: 0 <= j < |cells| ==> cells[j].used
  }

  /**
   * Cell k is an unused cell at minimal distance from `target` among all
   * unused cells, and no unused cell before it is as close.
   */
  predicate IsNearestUnused(cells: seq<Cell>, target: RGB, k: int) {
    0 <= k < |cells| && !cells[k].used &&
    (forall j :: 0 <= j < |cells| && !cells[j].used ==>
       Dist2(target, cells[k].color) <= Dist2(target, cells[j].color)) &&
    (forall j :: 0 <= j < k && !cells[j].used ==>
       Dist2(target, cells[k].color) < Dist2(target, cells[j].color))
  }

  /** The nearest unused cell, when there is one, is determined uniquely. */
  lemma NearestUnique(cells: seq<Cell>, target: RGB, k1: int, k2: int)
    requires IsNearestUnused(cells, target, k1) && IsNearestUnused(cells, target, k2)
    ensures k1 == k2
  {
  }

  /** On equal distance the earlier of two unused cells is the nearest one. */
  lemma EarliestWinsTie(cells: seq<Cell>, target: RGB, j: nat, k: nat)
    requires IsNearestUnused(cells, target, k)
    requires j < |cells| && !cells[j].used && Dist2(target, cells[j].color) == Dist2(target, cells[k].color)
    ensures k <= j
  {
  }

  /**
   * The scan over the table: skip used cells, and replace the best match
   * whenever a cell's distance is strictly below the running minimum, which
   * starts out as infinity (None).
   */
  method NearestUnused(cells: seq<Cell>, target: RGB) returns (best: Option<nat>)
    ensures best.None? <==> AllUsed(cells)
    ensures best.Some? ==> IsNearestUnused(cells, target, best.value)
  {
    var minDist: Option<int> := None;
    best := None;
    for i := 0 to |cells|
      invariant minDist.None? <==> best.None?
      invariant best.None? ==> forall j :: 0 <= j < i ==> cells[j].used
      invariant best.Some? ==>
                  best.value < i && !cells[best.value].used &&
                  minDist.value == Dist2(target, cells[best.value].color)
      invariant best.Some? ==>
                  forall j :: 0 <= j < i && !cells[j].used ==> minDist.value <= Dist2(target, cells[j].color)
      invariant best.Some? ==>
                  forall j :: 0 <= j < best.value && !cells[j].used ==> minDist.value < Dist2(target, cells[j].color)
    {
      if cells[i].used {
        continue;
      }
      var dist := Dist2(target, cells[i].color);
      if minDist.None? || dist < minDist.value {
        minDist := Some(dist);
        best := Some(i);
      }
    }
  }

  /** The table after cell k's used flag is set. */
  function Mark(cells: seq<Cell>, k: nat): (marked: seq<Cell>)
    requires k < |cells|
    ensures |marked| == |cells|
    ensures forall j :: 0 <= j < |cells| ==>
              marked[j].x == cells[j].x && marked[j].y == cells[j].y && marked[j].color == cells[j].color
    ensures forall j :: 0 <= j < |cells| ==> marked[j].used == (cells[j].used || j == k)
  {
    cells[k := cells[k].(used := true)]
  }

  /** The number of used cells in the table. */
  function UsedCount(cells: seq<Cell>): nat {
    if cells == [] then 0
    else UsedCount(cells[..|cells| - 1]) + (if cells[|cells| - 1].used then 1 else 0)
  }

  /** At most every cell is used, and every cell is used exactly when the count is full. */
  lemma {:induction false} UsedCountFull(cells: seq<Cell>)
    ensures UsedCount(cells) <= |cells|
    ensures UsedCount(cells) == |cells| <==> AllUsed(cells)
  {
    if cells != [] {
      var init := cells[..|cells| - 1];
      UsedCountFull(init);
      if AllUsed(cells) {
        assert AllUsed(init) by {
          forall j | 0 <= j < |init| ensures init[j].used {
            assert init[j] == cells[j];
          }
        }
      }
      if UsedCount(cells) == |cells| {
        forall j | 0 <= j < |cells| ensures cells[j].used {
          if j < |init| {
            assert init[j] == cells[j];
          }
        }
      }
    }
  }

  /** A table with no used cell has used count zero. */
  lemma {:induction false} UsedCountNone(cells: seq<Cell>)
    requires forall j :: 0 <= j < |cells| ==> !cells[j].used
    ensures UsedCount(cells) == 0
  {
    if cells != [] {
      UsedCountNone(cells[..|cells| - 1]);
    }
  }

  /** Marking an unused cell adds exactly one to the used count. */
  lemma {:induction false} UsedCountMark(cells: seq<Cell>, k: nat)
    requires k < |cells| && !cells[k].used
    ensures UsedCount(Mark(cells, k)) == UsedCount(cells) + 1
  {
    var n := |cells|;
    var marked := Mark(cells, k);
    if k == n - 1 {
      assert marked[..n - 1] == cells[..n - 1];
    } else {
      assert marked[..n - 1] == Mark(cells[..n - 1], k);
      UsedCountMark(cells[..n - 1], k);
    }
  }

  /**
   * The grid index as the one table every match reads and updates, with
   * the grid geometry it was built for.
   */
  class Grid {
    const cols: nat
    const rows: nat
    const cells: array<Cell>

    constructor (cols: nat, rows: nat, init: seq<Cell>)
      ensures this.cols == cols && this.rows == rows
      ensures fresh(cells) && cells[..] == init
    {
      this.cols := cols;
      this.rows := rows;
      cells := new Cell[|init|](i requires 0 <= i < |init| => init[i]);
    }

    /**
     * Find the unused cell nearest to `target`, set its used flag and
     * return its position in the table; None when every cell is used.
     */
    method FindNearestColor(target: RGB) returns (found: Option<nat>)
      modifies cells
      ensures found.None? <==> AllUsed(old(cells[..]))
      ensures found.Some? ==> IsNearestUnused(old(cells[..]), target, found.value)
      ensures cells[..] == if found.Some? then Mark(old(cells[..]), found.value) else old(cells[..])
      ensures UsedCount(cells[..]) == UsedCount(old(cells[..])) + (if found.Some? then 1 else 0)
    {
      var updated := cells[..];
      found := NearestUnused(updated, target);
      if found.Some? {
        var k := found.value;
        cells[k] := cells[k].(used := true);
        assert cells[..] == Mark(updated, k);
        UsedCountMark(updated, k);
      }
    }
  }
}
