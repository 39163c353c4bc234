/** The per-cell draw decision made while a frame is computed: an interior
    cell whose new value has magnitude above the visibility threshold is
    painted in a grey proportional to that magnitude, capped. */
module Render {
  import opened Grid

  /** Magnitude a cell must exceed to be painted. */
  const Threshold: real := 1.0
  /** Grey level per unit of magnitude. */
  const Brightness: real := 1.2
  /** Largest grey level ever painted. */
  const GrayCap: real := 120.0

  function Abs(v: real): (m: real)
    ensures 0.0 <= m && (m == v || m == -v)
  {
    if v < 0.0 then -v else v
  }

  predicate Visible(v: real)
  {
    Abs(v) > Threshold
  }

  /** The grey level painted for value `v`: `Brightness * |v|`, capped. */
  function Gray(v: real): (gray: real)
    ensures gray <= GrayCap && gray <= Brightness * Abs(v)
    ensures gray == GrayCap || gray == Brightness * Abs(v)
  {
    var scaled := Abs(v) * Brightness;
    if scaled < GrayCap then scaled else GrayCap
  }

  /** The grey of a drawn cell lies strictly above `Brightness * Threshold`
      and at most `GrayCap`, and does not depend on the sign of the value. */
  lemma GrayOfVisible(v: real)
    requires Visible(v)
    ensures Brightness * Threshold < Gray(v) <= GrayCap
    ensures Gray(-v) == Gray(v)
  {
  }

  /** A larger magnitude never paints a darker grey. */
  lemma GrayMonotone(u: real, v: real)
    requires Abs(u) <= Abs(v)
    ensures Gray(u) <= Gray(v)
  {
  }

  /** One painted disc: the cell it stands for and its grey level. */
  datatype Draw = Draw(col: int, row: int, gray: real)

  /** The draw decision for cell (i, j) holding value `v`: one disc in the
      cell's grey if the value is visible, nothing otherwise. */
  function DrawFor(i: int, j: int, v: real): (cell: seq<Draw>)
    ensures |cell| <= 1
    ensures |cell| == 1 <==> Abs(v) > Threshold
    ensures forall d :: d in cell ==> d == Draw(i, j, Gray(v))
  {
    if Visible(v) then [Draw(i, j, Gray(v))] else []
  }

  /** The draw for cell (i, j) of `g`. */
  function CellDraws(g: Buffer, i: int, j: int): seq<Draw>
    requires 0 <= i < |g| && 0 <= j < |g[i]|
  {
    DrawFor(i, j, g[i][j])
  }

  /** The draws of column `i`, rows 1 up to `j - 1`, in row order. */
  function ColumnDraws(g: Buffer, i: int, j: int): seq<Draw>
    requires 0 <= i < |g| && (j <= 1 || j <= |g[i]|)
    decreases j
  {
    if j <= 1 then [] else ColumnDraws(g, i, j - 1) + CellDraws(g, i, j - 1)
  }

  /** The draws of columns 1 up to `i - 1`, each over its interior rows. */
  function DrawsBefore(g: Buffer, rows: nat, i: int): seq<Draw>
    requires IsGrid(g, |g|, rows) && (i <= 1 || i <= |g|)
    decreases i
  {
    if i <= 1 then [] else DrawsBefore(g, rows, i - 1) + ColumnDraws(g, i - 1, rows - 1)
  }

  /** Appending column `i`'s draws to the draws of the columns before it
      gives the draws of the columns up to `i`. */
  lemma DrawsBeforeNext(g: Buffer, rows: nat, i: int, front: seq<Draw>, column: seq<Draw>)
    requires IsGrid(g, |g|, rows) && 1 <= i < |g|
    requires front == DrawsBefore(g, rows, i) && column == ColumnDraws(g, i, rows - 1)
    ensures front + column == DrawsBefore(g, rows, i + 1)
  {
  }

  /** Adding one more row to a column prefix appends that cell's draw. */
  lemma ColumnDrawsNext(g: Buffer, i: int, j: int)
    requires 0 <= i < |g| && 1 <= j < |g[i]|
    ensures ColumnDraws(g, i, j + 1) == ColumnDraws(g, i, j) + DrawFor(i, j, g[i][j])
  {
  }

  /** Everything painted for a frame whose computed slice is `g`: each draw
      is called for by its cell, and the draws are in strictly increasing
      column-major order, so no cell is painted twice. */
  function FrameDraws(g: Buffer, cols: nat, rows: nat): (ds: seq<Draw>)
    requires IsGrid(g, cols, rows)
    ensures forall k :: 0 <= k < |ds| ==> Drawable(g, cols, rows, ds[k])
    ensures forall k, l :: 0 <= k < l < |ds| ==> Precedes(ds[k], ds[l])
  {
    DrawsBeforeSound(g, cols, rows, cols - 1);
    DrawsBefore(g, rows, cols - 1)
  }

  /** Draw `a` comes before draw `b` in column-major order. */
  predicate Precedes(a: Draw, b: Draw)
  {
    a.col < b.col || (a.col == b.col && a.row < b.row)
  }

  /** `d` is the draw a cell of `g` calls for: interior, visible, and
      painted in that cell's grey. */
  predicate Drawable(g: Buffer, cols: nat, rows: nat, d: Draw)
    requires IsGrid(g, cols, rows)
  {
    IsInterior(d.col, d.row, cols, rows) && Visible(g[d.col][d.row]) && d.gray == Gray(g[d.col][d.row])
  }

  /** Every draw of a column prefix is drawable, lies in that column below
      row `j`, and the draws come in strictly increasing row order. */
  lemma {:induction false} ColumnDrawsSound(g: Buffer, cols: nat, rows: nat, i: int, j: int)
    requires IsGrid(g, cols, rows) && 1 <= i < cols - 1 && j <= rows - 1
    ensures forall k :: 0 <= k < |ColumnDraws(g, i, j)| ==>
      Drawable(g, cols, rows, ColumnDraws(g, i, j)[k]) && ColumnDraws(g, i, j)[k].col == i && ColumnDraws(g, i, j)[k].row < j
    ensures forall k, l :: 0 <= k < l < |ColumnDraws(g, i, j)| ==> Precedes(ColumnDraws(g, i, j)[k], ColumnDraws(g, i, j)[l])
    decreases j
  {
    if j > 1 {
      ColumnDrawsSound(g, cols, rows, i, j - 1);
      var front, last := ColumnDraws(g, i, j - 1), CellDraws(g, i, j - 1);
      var ds := front + last;
      forall k | 0 <= k < |ds|
        ensures Drawable(g, cols, rows, ds[k]) && ds[k].col == i && ds[k].row < j
      {
        if k < |front| {
          assert ds[k] == front[k];
        } else {
          assert Visible(g[i][j - 1]) && last == [Draw(i, j - 1, Gray(g[i][j - 1]))];
          assert ds[k] == Draw(i, j - 1, Gray(g[i][j - 1]));
        }
      }
    }
  }

  /** Every draw of a column prefix is drawable, lies left of column `i`,
      and the draws come in strictly increasing column-major order. */
  lemma {:induction false} DrawsBeforeSound(g: Buffer, cols: nat, rows: nat, i: int)
    requires IsGrid(g, cols, rows) && i <= cols - 1
    ensures forall k :: 0 <= k < |DrawsBefore(g, rows, i)| ==>
      Drawable(g, cols, rows, DrawsBefore(g, rows, i)[k]) && DrawsBefore(g, rows, i)[k].col < i
    ensures forall k, l :: 0 <= k < l < |DrawsBefore(g, rows, i)| ==> Precedes(DrawsBefore(g, rows, i)[k], DrawsBefore(g, rows, i)[l])
    decreases i
  {
    if i > 1 {
      DrawsBeforeSound(g, cols, rows, i - 1);
      ColumnDrawsSound(g, cols, rows, i - 1, rows - 1);
      var front, column := DrawsBefore(g, rows, i - 1), ColumnDraws(g, i - 1, rows - 1);
      var ds := front + column;
      forall k | 0 <= k < |ds|
        ensures Drawable(g, cols, rows, ds[k]) && ds[k].col < i
      {
        if k < |front| {
          assert ds[k] == front[k];
        } else {
          assert ds[k] == column[k - |front|];
        }
      }
      forall k, l | 0 <= k < l < |ds|
        ensures Precedes(ds[k], ds[l])
      {
        if l < |front| {
          assert ds[k] == front[k] && ds[l] == front[l];
        } else if k >= |front| {
          assert ds[k] == column[k - |front|] && ds[l] == column[l - |front|];
        } else {
          assert ds[k] == front[k] && ds[l] == column[l - |front|];
        }
      }
    }
  }

  /** `ds` paints cell (i, j). */
  predicate Paints(ds: seq<Draw>, i: int, j: int)
  {
    exists k :: 0 <= k < |ds| && ds[k].col == i && ds[k].row == j
  }

  /** A visible cell in column `i`, above row `j`, is painted by the column prefix. */
  lemma {:induction false} ColumnDrawsComplete(g: Buffer, cols: nat, rows: nat, i: int, j: int, b: int)
    requires IsGrid(g, cols, rows) && 1 <= i < cols - 1 && j <= rows - 1
    requires 1 <= b < j && Visible(g[i][b])
    ensures Paints(ColumnDraws(g, i, j), i, b)
    decreases j
  {
    var ds := ColumnDraws(g, i, j);
    if b == j - 1 {
      assert ds[|ds| - 1] == Draw(i, b, Gray(g[i][b]));
    } else {
      ColumnDrawsComplete(g, cols, rows, i, j - 1, b);
      var k :| 0 <= k < |ColumnDraws(g, i, j - 1)| && ColumnDraws(g, i, j - 1)[k].col == i && ColumnDraws(g, i, j - 1)[k].row == b;
      assert ds[k] == ColumnDraws(g, i, j - 1)[k];
    }
  }

  /** A visible interior cell left of column `i` is painted by the prefix. */
  lemma {:induction false} DrawsBeforeComplete(g: Buffer, cols: nat, rows: nat, i: int, a: int, b: int)
    requires IsGrid(g, cols, rows) && i <= cols - 1
    requires 1 <= a < i && IsInterior(a, b, cols, rows) && Visible(g[a][b])
    ensures Paints(DrawsBefore(g, rows, i), a, b)
    decreases i
  {
    var ds := DrawsBefore(g, rows, i);
    var front := DrawsBefore(g, rows, i - 1);
    if a == i - 1 {
      ColumnDrawsComplete(g, cols, rows, a, rows - 1, b);
      var column := ColumnDraws(g, a, rows - 1);
      var k :| 0 <= k < |column| && column[k].col == a && column[k].row == b;
      assert ds[|front| + k] == column[k];
    } else {
      DrawsBeforeComplete(g, cols, rows, i - 1, a, b);
      var k :| 0 <= k < |front| && front[k].col == a && front[k].row == b;
      assert ds[k] == front[k];
    }
  }

  /** An interior cell is painted in a frame exactly when its value is
      visible. */
  lemma FrameDrawsExactly(g: Buffer, cols: nat, rows: nat, i: int, j: int)
    requires IsGrid(g, cols, rows) && IsInterior(i, j, cols, rows)
    ensures Paints(FrameDraws(g, cols, rows), i, j) <==> Visible(g[i][j])
  {
    if Visible(g[i][j]) {
      DrawsBeforeComplete(g, cols, rows, cols - 1, i, j);
    }
  }
}
