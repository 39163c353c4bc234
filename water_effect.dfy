/** The ripple simulation's state: two buffers that the click handler and
    the animation loop update in place, and whose roles swap every frame. */
module WaterEffect {
  import opened Grid
  import opened Stimulus
  import opened Propagation
  import opened Render

  class WaterField {
    /** The slice the next frame overwrites. */
    var current: array2<real>
    /** The slice the next frame reads neighbours from; clicks write here. */
    var previous: array2<real>

    /** Two distinct buffers of one shape. */
    ghost predicate Valid()
      reads this
    {
      current != previous &&
      current.Length0 == previous.Length0 && current.Length1 == previous.Length1
    }

    /** The field the two buffers hold. */
    ghost function State(): (f: Field)
      reads this, current, previous
      requires Valid()
      ensures f.Valid()
    {
      Field(current.Length0, current.Length1, Contents(current), Contents(previous))
    }

    /** Both buffers start empty, before the first resize. */
    constructor ()
      ensures Valid() && fresh(current) && fresh(previous)
      ensures State() == Field(0, 0, [], [])
    {
      current := new real[0, 0];
      previous := new real[0, 0];
    }

    /** Reallocates both buffers for a `width` x `height` canvas, all at rest. */
    method Resize(width: nat, height: nat)
      modifies this
      ensures Valid() && fresh(current) && fresh(previous)
      ensures State() == Resized(width, height)
    {
      var cols := CellsAlong(width);
      var rows := CellsAlong(height);
      current := new real[cols, rows]((i, j) => 0.0);
      previous := new real[cols, rows]((i, j) => 0.0);
      GridsEqual(Contents(current), Zeros(cols, rows), cols, rows);
      GridsEqual(Contents(previous), Zeros(cols, rows), cols, rows);
    }

    /** A click at screen point (clientX, clientY): every on-grid cell within
        `Radius` of the clicked cell is assigned its falloff value in
        `previous`; `current` is untouched. */
    method HandleClick(clientX: real, clientY: real, sqrt: real -> real)
      requires Valid() && IsSqrtOnWindow(sqrt)
      modifies previous
      ensures Valid()
      ensures Contents(previous) ==
        Inject(old(Contents(previous)), previous.Length0, previous.Length1, CellOf(clientX), CellOf(clientY), sqrt)
      ensures Contents(current) == old(Contents(current))
    {
      var x := CellOf(clientX);
      var y := CellOf(clientY);
      var cols, rows := previous.Length0, previous.Length1;
      ghost var before := Contents(previous);
      ghost var after := Inject(before, cols, rows, x, y, sqrt);
      forall a, b | InDisc(a, b, x, y)
        ensures InWindow(a, b, x, y)
      {
        DiscInWindow(a, b, x, y);
      }
      var i := x - Radius;
      while i <= x + Radius
        invariant x - Radius <= i <= x + Radius + 1
        invariant forall a, b :: InBounds(a, b, cols, rows) ==>
          previous[a, b] == if a < i then after[a][b] else old(previous[a, b])
      {
        var j := y - Radius;
        while j <= y + Radius
          invariant y - Radius <= j <= y + Radius + 1
          invariant forall a, b :: InBounds(a, b, cols, rows) ==>
            previous[a, b] == if a < i || (a == i && b < j) then after[a][b] else old(previous[a, b])
        {
          if 0 <= i < previous.Length0 && 0 <= j < previous.Length1 {
            SquareBound(i - x);
            SquareBound(j - y);
            DistanceWithinRadius(sqrt, SqDist(i, j, x, y));
            var distance := sqrt(((i - x) * (i - x) + (j - y) * (j - y)) as real);
            if distance <= Radius as real {
              previous[i, j] := Strength(distance);
            }
          }
          j := j + 1;
        }
        i := i + 1;
      }
      GridsEqual(Contents(previous), after, cols, rows);
    }

    /** A click as the component as written processes it: the handler
        injects the disc, then the state update it makes re-runs the
        component's effect, whose first step resizes the canvas to the
        unchanged window and so replaces both buffers before any frame. */
    method ClickThenRerun(clientX: real, clientY: real, sqrt: real -> real, width: nat, height: nat)
      requires Valid() && IsSqrtOnWindow(sqrt)
      modifies this, previous
      ensures Valid() && fresh(current) && fresh(previous)
      ensures State() == Resized(width, height)
    {
      HandleClick(clientX, clientY, sqrt);
      Resize(width, height);
    }

    /** One animation frame: updates every interior cell of `current` from
        the old slices, records the cells to paint, then swaps the buffers. */
    method Animate() returns (draws: seq<Draw>)
      requires Valid()
      modifies this, current
      ensures Valid()
      ensures current == old(previous) && previous == old(current)
      ensures State() == Advance(old(State()))
      ensures draws == FrameDraws(Contents(previous), previous.Length0, previous.Length1)
    {
      ghost var f := State();
      draws := PropagateFrame(f, Propagate(f));
      GridsEqual(Contents(current), Propagate(f), f.cols, f.rows);
      previous, current := current, previous;
    }

    /** The loops of a frame: column by column, updates the interior cells
        of `current` and collects the draws they call for. `next` is the
        slice the frame computes. */
    method PropagateFrame(ghost f: Field, ghost next: Buffer) returns (draws: seq<Draw>)
      requires Valid() && f.Valid()
      requires f.cols == current.Length0 && f.rows == current.Length1
      requires forall a, b :: InBounds(a, b, f.cols, f.rows) ==> previous[a, b] == f.previous[a][b]
      requires forall a, b :: InBounds(a, b, f.cols, f.rows) ==> current[a, b] == f.current[a][b]
      requires IsGrid(next, f.cols, f.rows)
      requires forall a, b :: InBounds(a, b, f.cols, f.rows) ==> next[a][b] == Next(f, a, b)
      modifies current
      ensures forall a, b :: InBounds(a, b, f.cols, f.rows) ==> current[a, b] == next[a][b]
      ensures draws == FrameDraws(next, f.cols, f.rows)
    {
      var cols, rows := current.Length0, current.Length1;
      draws := [];
      var i := 1;
      while i < cols - 1
        invariant 1 <= i && (i <= cols - 1 || i == 1)
        invariant draws == DrawsBefore(next, f.rows, i)
        invariant forall a, b :: InBounds(a, b, cols, rows) ==>
          current[a, b] == if a < i then next[a][b] else old(current[a, b])
      {
        var column := PropagateColumn(i, f, next);
        DrawsBeforeNext(next, f.rows, i, draws, column);
        draws := draws + column;
        i := i + 1;
      }
    }

    /** The inner loop of a frame: updates the interior cells of column `i`
        and returns the draws they call for, in row order. */
    method PropagateColumn(i: int, ghost f: Field, ghost next: Buffer) returns (column: seq<Draw>)
      requires Valid() && f.Valid()
      requires f.cols == current.Length0 && f.rows == current.Length1
      requires 1 <= i < f.cols - 1
      requires forall a, b :: InBounds(a, b, f.cols, f.rows) ==> previous[a, b] == f.previous[a][b]
      requires forall b :: 0 <= b < f.rows ==> current[i, b] == f.current[i][b]
      requires IsGrid(next, f.cols, f.rows)
      requires forall a, b :: InBounds(a, b, f.cols, f.rows) ==> next[a][b] == Next(f, a, b)
      modifies current
      ensures forall b :: 0 <= b < f.rows ==> current[i, b] == next[i][b]
      ensures forall a, b :: InBounds(a, b, f.cols, f.rows) && a != i ==> current[a, b] == old(current[a, b])
      ensures column == ColumnDraws(next, i, f.rows - 1)
    {
      var rows := current.Length1;
      column := [];
      var j := 1;
      while j < rows - 1
        invariant 1 <= j && (j <= rows - 1 || j == 1)
        invariant column == ColumnDraws(next, i, j)
        invariant forall b :: 0 <= b < j && b < rows ==> current[i, b] == next[i][b]
        invariant forall a, b :: InBounds(a, b, f.cols, rows) && !(a == i && 1 <= b < j) ==>
          current[a, b] == old(current[a, b])
      {
        var cell := UpdateCell(i, j, f);
        ColumnDrawsNext(next, i, j);
        column := column + cell;
        j := j + 1;
      }
    }

    /** The body of the inner loop: updates cell (i, j) from the old slices,
        damps it, and decides whether to paint it. */
    method UpdateCell(i: int, j: int, ghost f: Field) returns (cell: seq<Draw>)
      requires Valid() && f.Valid()
      requires f.cols == current.Length0 && f.rows == current.Length1
      requires IsInterior(i, j, f.cols, f.rows)
      requires forall a, b :: InBounds(a, b, f.cols, f.rows) ==> previous[a, b] == f.previous[a][b]
      requires current[i, j] == f.current[i][j]
      modifies current
      ensures current[i, j] == Next(f, i, j)
      ensures forall a, b :: InBounds(a, b, f.cols, f.rows) && (a != i || b != j) ==> current[a, b] == old(current[a, b])
      ensures cell == DrawFor(i, j, Next(f, i, j))
    {
      current[i, j] := (previous[i - 1, j] + previous[i + 1, j] + previous[i, j - 1] + previous[i, j + 1]) / 2.0
                       - current[i, j];
      current[i, j] := current[i, j] * Damping;
      cell := DrawFor(i, j, current[i, j]);
    }
  }

  /** A click on a field at rest starts a ripple whose front travels at most
      one cell per frame: `n` frames later, both slices are still at rest at
      every cell whose Euclidean distance from the clicked cell exceeds
      `Radius + n`. */
  lemma RippleFront(cols: nat, rows: nat, x: int, y: int, sqrt: real -> real, n: nat)
    ensures var rest := Zeros(cols, rows);
      var g := Run(Field(cols, rows, rest, Inject(rest, cols, rows, x, y, sqrt)), n);
      QuietBeyond(g.current, cols, rows, x, y, Radius + n) &&
      QuietBeyond(g.previous, cols, rows, x, y, Radius + n)
  {
    var rest := Zeros(cols, rows);
    var f := Field(cols, rows, rest, Inject(rest, cols, rows, x, y, sqrt));
    assert QuietBeyond(f.previous, cols, rows, x, y, Radius);
    RunSpreads(f, n, x, y, Radius);
  }

  /** The click is lost when the effect re-runs: on a freshly resized field,
      the clicked cell holds `Peak` after the click alone, but 0 once the
      re-run's resize has followed it. */
  lemma ClickLostOnRerun(width: nat, height: nat, x: int, y: int, sqrt: real -> real)
    requires IsSqrtOnWindow(sqrt)
    requires InBounds(x, y, CellsAlong(width), CellsAlong(height))
    ensures var f := Resized(width, height);
      Inject(f.previous, f.cols, f.rows, x, y, sqrt)[x][y] == Peak &&
      Resized(width, height).previous[x][y] == 0.0
  {
    var f := Resized(width, height);
    InjectCentre(f.previous, f.cols, f.rows, x, y, sqrt);
  }
}
