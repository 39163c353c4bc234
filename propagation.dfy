/** The per-frame wave update: every interior cell of `current` becomes the
    damped difference between half the sum of its four `previous`
    neighbours and its own old value; then the two slices swap roles. */
module Propagation {
  import opened Grid

  /** Per-frame attenuation factor. */
  const Damping: real := 0.97

  /** The new value of interior cell (i, j), read from the old slices only. */
  function Updated(f: Field, i: int, j: int): real
    requires f.Valid() && IsInterior(i, j, f.cols, f.rows)
  {
    var prev := f.previous;
    ((prev[i - 1][j] + prev[i + 1][j] + prev[i][j - 1] + prev[i][j + 1]) / 2.0 - f.current[i][j]) * Damping
  }

  /** The value of cell (i, j) of `current` after the update: interior
      cells are updated, the border keeps its old value. */
  function Next(f: Field, i: int, j: int): real
    requires f.Valid() && InBounds(i, j, f.cols, f.rows)
  {
    if IsInterior(i, j, f.cols, f.rows) then Updated(f, i, j) else f.current[i][j]
  }

  /** The `current` slice once every interior cell is updated. */
  function Propagate(f: Field): (next: Buffer)
    requires f.Valid()
    ensures IsGrid(next, f.cols, f.rows)
    ensures forall i, j :: InBounds(i, j, f.cols, f.rows) ==> next[i][j] == Next(f, i, j)
  {
    seq(f.cols, i requires 0 <= i < f.cols =>
      seq(f.rows, j requires 0 <= j < f.rows => Next(f, i, j)))
  }

  /** One whole frame: update, then exchange the slices, so the freshly
      computed slice is read as `previous` by the next frame. */
  function Advance(f: Field): (g: Field)
    requires f.Valid()
    ensures g.Valid() && g.cols == f.cols && g.rows == f.rows
  {
    Field(f.cols, f.rows, f.previous, Propagate(f))
  }

  /** The field after `n` frames without clicks. */
  function Run(f: Field, n: nat): (g: Field)
    requires f.Valid()
    ensures g.Valid() && g.cols == f.cols && g.rows == f.rows
    decreases n
  {
    if n == 0 then f else Run(Advance(f), n - 1)
  }

  /** The update never writes the one-cell border of `current`. */
  lemma PropagateKeepsBorder(f: Field, i: int, j: int)
    requires f.Valid()
    requires InBounds(i, j, f.cols, f.rows) && !IsInterior(i, j, f.cols, f.rows)
    ensures Propagate(f)[i][j] == f.current[i][j]
  {
  }

  /** Over any number of frames the border cells of both slices keep their
      values; the two slices only trade places, once per frame. */
  lemma {:induction false} RunKeepsBorder(f: Field, n: nat, i: int, j: int)
    requires f.Valid()
    requires InBounds(i, j, f.cols, f.rows) && !IsInterior(i, j, f.cols, f.rows)
    ensures var g := Run(f, n);
      if n % 2 == 0 then g.current[i][j] == f.current[i][j] && g.previous[i][j] == f.previous[i][j]
      else g.current[i][j] == f.previous[i][j] && g.previous[i][j] == f.current[i][j]
    decreases n
  {
    if n > 0 {
      RunKeepsBorder(Advance(f), n - 1, i, j);
      PropagateKeepsBorder(f, i, j);
    }
  }

  /** A field entirely at rest stays at rest, frame after frame. */
  lemma {:induction false} RestStaysAtRest(cols: nat, rows: nat, n: nat)
    ensures var rest := Field(cols, rows, Zeros(cols, rows), Zeros(cols, rows));
      Run(rest, n) == rest
    decreases n
  {
    var rest := Field(cols, rows, Zeros(cols, rows), Zeros(cols, rows));
    if n > 0 {
      GridsEqual(Propagate(rest), Zeros(cols, rows), cols, rows);
      RestStaysAtRest(cols, rows, n - 1);
    }
  }

  /** Every cell of `g` farther than `r` from (x, y), in Euclidean
      distance, is at rest. */
  ghost predicate QuietBeyond(g: Buffer, cols: nat, rows: nat, x: int, y: int, r: nat)
    requires IsGrid(g, cols, rows)
  {
    forall i, j :: InBounds(i, j, cols, rows) && SqDist(i, j, x, y) > r * r ==> g[i][j] == 0.0
  }

  /** Moving one cell along an axis brings a point farther than `r + 1`
      from the origin no closer than `r`: the triangle inequality for a unit
      step, squared. */
  lemma StepAway(a: int, b: int, r: nat)
    requires a * a + b * b > (r + 1) * (r + 1)
    ensures (a - 1) * (a - 1) + b * b > r * r
    ensures (a + 1) * (a + 1) + b * b > r * r
  {
    SquareShift(a);
    SquareShift(r);
    if a > r + 1 {
      SquareAtLeast(r + 1, a - 1);
      SquareAtLeast(r + 1, a + 1);
    } else if a < -(r + 1) {
      SquareAtLeast(r + 1, a - 1);
      SquareAtLeast(r + 1, a + 1);
    }
  }

  /** The squares of the neighbours of `k`. */
  lemma SquareShift(k: int)
    ensures (k - 1) * (k - 1) == k * k - 2 * k + 1
    ensures (k + 1) * (k + 1) == k * k + 2 * k + 1
  {
  }

  /** A number at least `u >= 0` away from 0 has a square at least `u * u`. */
  lemma SquareAtLeast(u: int, v: int)
    requires 0 <= u && (u <= v || v <= -u)
    ensures u * u <= v * v
  {
    var uu, uv, vv := u * u, u * v, v * v;
    if u <= v {
      assert uu <= uv <= vv;
    } else {
      assert uu <= -uv <= vv;
    }
  }

  /** A slice at rest beyond `r` is at rest beyond `r + 1`. */
  lemma QuietWider(g: Buffer, cols: nat, rows: nat, x: int, y: int, r: nat)
    requires IsGrid(g, cols, rows) && QuietBeyond(g, cols, rows, x, y, r)
    ensures QuietBeyond(g, cols, rows, x, y, r + 1)
  {
  }

  /** One update spreads a disturbance by at most one cell. */
  lemma PropagateSpreads(f: Field, x: int, y: int, r: nat)
    requires f.Valid()
    requires QuietBeyond(f.current, f.cols, f.rows, x, y, r)
    requires QuietBeyond(f.previous, f.cols, f.rows, x, y, r)
    ensures QuietBeyond(Propagate(f), f.cols, f.rows, x, y, r + 1)
  {
    forall i, j | InBounds(i, j, f.cols, f.rows) && SqDist(i, j, x, y) > (r + 1) * (r + 1)
      ensures Propagate(f)[i][j] == 0.0
    {
      QuietCell(f, x, y, r, i, j);
    }
  }

  /** A cell farther than `r + 1` from (x, y) has its own value and all its
      neighbours farther than `r`, so the update leaves it at rest. */
  lemma QuietCell(f: Field, x: int, y: int, r: nat, i: int, j: int)
    requires f.Valid() && InBounds(i, j, f.cols, f.rows)
    requires QuietBeyond(f.current, f.cols, f.rows, x, y, r)
    requires QuietBeyond(f.previous, f.cols, f.rows, x, y, r)
    requires SqDist(i, j, x, y) > (r + 1) * (r + 1)
    ensures Next(f, i, j) == 0.0
  {
    StepAway(i - x, j - y, r);
    StepAway(j - y, i - x, r);
    assert SqDist(i, j, x, y) > r * r;
    if IsInterior(i, j, f.cols, f.rows) {
      assert SqDist(i - 1, j, x, y) > r * r && SqDist(i + 1, j, x, y) > r * r;
      assert SqDist(i, j - 1, x, y) > r * r && SqDist(i, j + 1, x, y) > r * r;
    }
  }

  /** After `n` frames, a disturbance confined within `r` of (x, y) is
      confined within `r + n`: waves travel at most one cell per frame. */
  lemma {:induction false} RunSpreads(f: Field, n: nat, x: int, y: int, r: nat)
    requires f.Valid()
    requires QuietBeyond(f.current, f.cols, f.rows, x, y, r)
    requires QuietBeyond(f.previous, f.cols, f.rows, x, y, r)
    ensures var g := Run(f, n);
      QuietBeyond(g.current, g.cols, g.rows, x, y, r + n) &&
      QuietBeyond(g.previous, g.cols, g.rows, x, y, r + n)
    decreases n
  {
    if n > 0 {
      PropagateSpreads(f, x, y, r);
      QuietWider(f.previous, f.cols, f.rows, x, y, r);
      RunSpreads(Advance(f), n - 1, x, y, r + 1);
    }
  }
}
