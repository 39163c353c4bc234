/** Stimulus injection: a click at a screen point deposits a disc of
    linearly falling-off displacement into the `previous` slice. */
module Stimulus {
  import opened Grid

  /** Radius of the deposited disc, in cells. */
  const Radius: int := 8
  /** Value written at the disc's centre. */
  const Peak: real := 800.0

  /** The grid index of screen coordinate `p` (floor of `p / CellSize`). */
  function CellOf(p: real): (c: int)
    ensures (CellSize * c) as real <= p < (CellSize * (c + 1)) as real
  {
    (p / CellSize as real).Floor
  }

  /** On whole pixels the mapping is integer division. */
  lemma CellOfPixel(p: int)
    ensures CellOf(p as real) == p / CellSize
  {
  }

  /** Cell (i, j) lies within `Radius` of (x, y). */
  predicate InDisc(i: int, j: int, x: int, y: int)
  {
    SqDist(i, j, x, y) <= Radius * Radius
  }

  /** Cell (i, j) lies in the (2 * Radius + 1)-wide square scanned around (x, y). */
  predicate InWindow(i: int, j: int, x: int, y: int)
  {
    x - Radius <= i <= x + Radius && y - Radius <= j <= y + Radius
  }

  /** `sqrt` applied to a whole number, as the injector applies it. */
  function Distance(sqrt: real -> real, n: int): real
  {
    sqrt(n as real)
  }

  /** What the injector needs of `sqrt` on the squared distances the window
      can produce (0 .. 2 * Radius * Radius): a non-negative result, the
      test `sqrt(n) <= Radius` agreeing with `n <= Radius * Radius`, and a
      centre at distance 0. A correctly rounded square root meets this,
      since it is monotone and exact on the perfect squares 0 and 64. */
  ghost predicate IsSqrtOnWindow(sqrt: real -> real)
  {
    Distance(sqrt, 0) == 0.0 &&
    forall n :: 0 <= n <= 2 * Radius * Radius ==>
      0.0 <= Distance(sqrt, n) && (Distance(sqrt, n) <= Radius as real <==> n <= Radius * Radius)
  }

  /** `sqrt` is the exact square root on the squared distances of the window. */
  ghost predicate IsExactSqrtOnWindow(sqrt: real -> real)
  {
    forall n :: 0 <= n <= 2 * Radius * Radius ==>
      0.0 <= Distance(sqrt, n) && Distance(sqrt, n) * Distance(sqrt, n) == n as real
  }

  /** Linear falloff from `Peak` at distance 0 to 0 at distance `Radius`. */
  function Strength(d: real): (s: real)
    ensures 0.0 <= d <= Radius as real ==> 0.0 <= s <= Peak
    ensures d == 0.0 ==> s == Peak
    ensures d == Radius as real ==> s == 0.0
  {
    Peak * (1.0 - d / Radius as real)
  }

  /** The disc lies inside the scanned window. */
  lemma DiscInWindow(i: int, j: int, x: int, y: int)
    requires InDisc(i, j, x, y)
    ensures InWindow(i, j, x, y)
  {
    SquareBound(i - x);
    SquareBound(j - y);
  }

  /** A whole number beyond `Radius` has a square beyond `Radius * Radius`. */
  lemma SquareBound(d: int)
    ensures d * d >= 0
    ensures d < -Radius || d > Radius ==> d * d > Radius * Radius
    ensures -Radius <= d <= Radius ==> d * d <= Radius * Radius
  {
  }

  /** The float test `sqrt(n) <= Radius` agrees with the integer test
      `n <= Radius * Radius`, and the distance of the centre is 0. */
  lemma DistanceWithinRadius(sqrt: real -> real, n: int)
    requires IsSqrtOnWindow(sqrt)
    requires 0 <= n <= 2 * Radius * Radius
    ensures 0.0 <= Distance(sqrt, n)
    ensures Distance(sqrt, n) <= Radius as real <==> n <= Radius * Radius
    ensures n == 0 ==> Distance(sqrt, n) == 0.0
  {
  }

  /** The exact square root satisfies what the injector needs of `sqrt`. */
  lemma ExactSqrtOnWindow(sqrt: real -> real)
    requires IsExactSqrtOnWindow(sqrt)
    ensures IsSqrtOnWindow(sqrt)
  {
    forall n | 0 <= n <= 2 * Radius * Radius
      ensures 0.0 <= Distance(sqrt, n) && (Distance(sqrt, n) <= Radius as real <==> n <= Radius * Radius)
    {
      var d := Distance(sqrt, n);
      assert 0.0 <= d && d * d == n as real;
      SquaresOrdered(d, Radius as real);
    }
    var d := Distance(sqrt, 0);
    assert 0.0 <= d && d * d == 0.0;
    SquaresOrdered(d, 0.0);
  }

  /** Squaring is monotone on non-negative reals, in both directions. */
  lemma SquaresOrdered(a: real, b: real)
    requires 0.0 <= a && 0.0 <= b
    ensures a <= b <==> a * a <= b * b
  {
    var aa, ab, bb := a * a, a * b, b * b;
    if a < b {
      assert aa <= ab < bb;
    } else if b < a {
      assert bb <= ab < aa;
    }
  }

  /** The `previous` slice after a click whose grid cell is (x, y): every
      in-bounds cell of the disc is assigned its falloff value. */
  function Inject(g: Buffer, cols: nat, rows: nat, x: int, y: int, sqrt: real -> real): (h: Buffer)
    requires IsGrid(g, cols, rows)
    ensures IsGrid(h, cols, rows)
    ensures forall i, j :: InBounds(i, j, cols, rows) && !InDisc(i, j, x, y) ==> h[i][j] == g[i][j]
  {
    seq(cols, i requires 0 <= i < cols =>
      seq(rows, j requires 0 <= j < rows =>
        if InDisc(i, j, x, y) then Strength(Distance(sqrt, SqDist(i, j, x, y))) else g[i][j]))
  }

  /** Every written cell receives a value in [0, Peak], whatever it held. */
  lemma InjectRange(g: Buffer, cols: nat, rows: nat, x: int, y: int, sqrt: real -> real, i: int, j: int)
    requires IsGrid(g, cols, rows) && IsSqrtOnWindow(sqrt)
    requires InBounds(i, j, cols, rows) && InDisc(i, j, x, y)
    ensures 0.0 <= Inject(g, cols, rows, x, y, sqrt)[i][j] <= Peak
  {
    SquareBound(i - x);
    SquareBound(j - y);
    DistanceWithinRadius(sqrt, SqDist(i, j, x, y));
  }

  /** The clicked cell, when on the grid, holds exactly `Peak` afterwards. */
  lemma InjectCentre(g: Buffer, cols: nat, rows: nat, x: int, y: int, sqrt: real -> real)
    requires IsGrid(g, cols, rows) && IsSqrtOnWindow(sqrt)
    requires InBounds(x, y, cols, rows)
    ensures Inject(g, cols, rows, x, y, sqrt)[x][y] == Peak
  {
  }

  /** Injection assigns rather than adds: a second click at the same cell
      leaves the slice as the first one left it. */
  lemma InjectTwice(g: Buffer, cols: nat, rows: nat, x: int, y: int, sqrt: real -> real)
    requires IsGrid(g, cols, rows)
    ensures var once := Inject(g, cols, rows, x, y, sqrt);
      Inject(once, cols, rows, x, y, sqrt) == once
  {
    var once := Inject(g, cols, rows, x, y, sqrt);
    GridsEqual(Inject(once, cols, rows, x, y, sqrt), once, cols, rows);
  }

  /** A click whose disc has no cell on the grid changes nothing. */
  lemma InjectOffGrid(g: Buffer, cols: nat, rows: nat, x: int, y: int, sqrt: real -> real)
    requires IsGrid(g, cols, rows)
    requires forall i, j :: InBounds(i, j, cols, rows) ==> !InDisc(i, j, x, y)
    ensures Inject(g, cols, rows, x, y, sqrt) == g
  {
    GridsEqual(Inject(g, cols, rows, x, y, sqrt), g, cols, rows);
  }
}
