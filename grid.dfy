/** The ripple field: two same-shaped column-major grids of displacement
    values, indexed [column][row], and the screen-to-grid resolution. */
module Grid {

  /** Screen pixels per grid cell, on both axes. */
  const CellSize: nat := 5

  /** One time-slice of the field; `g[i][j]` is column `i`, row `j`. */
  type Buffer = seq<seq<real>>

  /** `g` has `cols` columns of `rows` cells each. */
  predicate IsGrid(g: Buffer, cols: nat, rows: nat)
  {
    |g| == cols && forall i :: 0 <= i < cols ==> |g[i]| == rows
  }

  predicate InBounds(i: int, j: int, cols: nat, rows: nat)
  {
    0 <= i < cols && 0 <= j < rows
  }

  /** Cells off the one-cell border: the only ones the update rule touches. */
  predicate IsInterior(i: int, j: int, cols: nat, rows: nat)
  {
    1 <= i < cols - 1 && 1 <= j < rows - 1
  }

  /** Squared Euclidean distance between cell (i, j) and cell (x, y). */
  function SqDist(i: int, j: int, x: int, y: int): int
  {
    (i - x) * (i - x) + (j - y) * (j - y)
  }

  /** Number of whole cells along a canvas side of `pixels` pixels. */
  function CellsAlong(pixels: nat): (n: nat)
    ensures CellSize * n <= pixels < CellSize * (n + 1)
  {
    pixels / CellSize
  }

  /** A buffer of the given shape with every cell at rest. */
  function Zeros(cols: nat, rows: nat): (g: Buffer)
    ensures IsGrid(g, cols, rows)
    ensures forall i, j :: InBounds(i, j, cols, rows) ==> g[i][j] == 0.0
  {
    seq(cols, _ => seq(rows, _ => 0.0))
  }

  /** Both slices of the simulation. */
  datatype Field = Field(cols: nat, rows: nat, current: Buffer, previous: Buffer)
  {
    /** Both slices have the field's shape. */
    predicate Valid()
    {
      IsGrid(current, cols, rows) && IsGrid(previous, cols, rows)
    }
  }

  /** The field after a canvas resize to `width` x `height` pixels. */
  function Resized(width: nat, height: nat): (f: Field)
    ensures f.Valid()
    ensures CellSize * f.cols <= width < CellSize * (f.cols + 1)
    ensures CellSize * f.rows <= height < CellSize * (f.rows + 1)
    ensures forall i, j :: InBounds(i, j, f.cols, f.rows) ==> f.current[i][j] == 0.0 && f.previous[i][j] == 0.0
  {
    var cols, rows := CellsAlong(width), CellsAlong(height);
    Field(cols, rows, Zeros(cols, rows), Zeros(cols, rows))
  }

  /** The value of a two-dimensional array, column by column. */
  ghost function Contents(a: array2<real>): (g: Buffer)
    reads a
    ensures IsGrid(g, a.Length0, a.Length1)
    ensures forall i, j :: InBounds(i, j, a.Length0, a.Length1) ==> g[i][j] == a[i, j]
  {
    seq(a.Length0, i requires 0 <= i < a.Length0 reads a =>
      seq(a.Length1, j requires 0 <= j < a.Length1 reads a => a[i, j]))
  }

  /** Two grids of one shape that agree cell by cell are equal. */
  lemma GridsEqual(g: Buffer, h: Buffer, cols: nat, rows: nat)
    requires IsGrid(g, cols, rows) && IsGrid(h, cols, rows)
    requires forall i, j :: InBounds(i, j, cols, rows) ==> g[i][j] == h[i][j]
    ensures g == h
  {
    forall i | 0 <= i < cols
      ensures g[i] == h[i]
    {
      assert forall j :: 0 <= j < rows ==> InBounds(i, j, cols, rows);
    }
  }
}
