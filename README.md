# Water ripple field

A Dafny model of the ripple simulation behind the full-screen water effect
(`components/water-effect.tsx`). The canvas is divided into 5-pixel cells.
Two same-shaped column-major buffers, `current` and `previous`, hold one
displacement value per cell. Three operations act on them:

- **resize** reallocates both buffers at rest for the new canvas size;
- a **click** maps the screen point to a cell and assigns a linearly
  falling-off value to every on-grid cell of a radius-8 disc in `previous`;
- an **animation frame** updates every interior cell of `current` in place,
  from the four `previous` neighbours and its own old value, damped by
  0.97. While doing so it decides which cells to paint and in which grey.
  Finally it swaps the two buffer references.

Modules:

- `Grid` (`grid.dfy`): cell size, buffers, the two-slice `Field` value,
  the resized field, and `Contents` of a two-dimensional array.
- `Stimulus` (`stimulus.dfy`): the screen-to-cell mapping, the disc, the
  falloff, and `Inject` (the `previous` slice after a click), with its lemmas.
- `Propagation` (`propagation.dfy`): the update rule (`Propagate`), one
  frame (`Advance`), `n` frames (`Run`), and lemmas about the border, rest
  and propagation speed.
- `Render` (`render.dfy`): the grey level and the ordered list of draws
  one frame emits (`FrameDraws`), with soundness and completeness lemmas.
- `WaterEffect` (`water_effect.dfy`): the class `WaterField`, whose two
  `array2<real>` fields the methods update in place with the source's own
  loops. Each method is proved against the value-level functions above.

Cell values are `real`, standing in for JavaScript doubles. `Math.sqrt` is
a parameter `sqrt` of the click handler. On the squared distances the
17 x 17 window can produce (0 to 128), the handler requires only three
things of it: it is non-negative, it gives 0 at 0, and `sqrt(n) <= 8`
holds exactly when `n <= 64`. A correctly rounded square root meets all
three, and the lemma `ExactSqrtOnWindow` shows that the exact root does.
The disc test is therefore carried out in integers.

The component as written loses every click. The click handler updates
the `debug` state (line 49), and `debug` is a dependency of the effect
(line 140). The effect therefore re-runs after each click, and its first
step resizes the canvas, which replaces both buffers with zeros before any
frame reads the disc. This is recorded under "## Findings". The rest of the
model describes the evidently intended behaviour: a click followed by
frames, with no resize in between.

The code allows a canvas smaller than one cell on either side: it then
allocates an empty grid, and the model does the same (no clamping to a
one-cell grid). The loops then do nothing, which the model also covers.

## Model

| member | source | states |
|---|---|---|
| Grid.CellsAlong | components/water-effect.tsx:29-30 | the number of cells along a side is the floor of pixels / 5: `5n <= pixels < 5(n+1)` |
| Grid.Zeros | components/water-effect.tsx:32-37 | a freshly allocated buffer has the requested shape and every cell is 0 |
| Grid.Resized | components/water-effect.tsx:29-37 | after a resize both slices have `floor(width/5)` columns of `floor(height/5)` rows, the same shape, and every cell at rest |
| Stimulus.CellOf | components/water-effect.tsx:45-46 | a screen coordinate maps to the cell `c` with `5c <= p < 5(c+1)` (floor division by 5, also for negative coordinates) |
| Stimulus.CellOfPixel | components/water-effect.tsx:45-46 | on whole pixels the mapping is integer division by 5 |
| Stimulus.Strength | components/water-effect.tsx:66 | the falloff `800 * (1 - d/8)` lies in [0, 800] for 0 <= d <= 8, is 800 at the centre and 0 at the rim |
| Stimulus.DiscInWindow | components/water-effect.tsx:52-54 | every cell within radius 8 lies in the 17 x 17 window the loops scan |
| Stimulus.ExactSqrtOnWindow | components/water-effect.tsx:63-64 | for the exact square root, the test `sqrt(dx² + dy²) <= 8` holds exactly when `dx² + dy² <= 64`, the result is non-negative, and the centre's distance is 0 |
| Stimulus.Inject | components/water-effect.tsx:52-68 | the slice after a click has the same shape, and every cell outside the disc keeps its value |
| Stimulus.InjectRange | components/water-effect.tsx:63-67 | every written cell holds a value in [0, 800], whatever it held before |
| Stimulus.InjectCentre | components/water-effect.tsx:63-67 | the clicked cell, when on the grid, holds exactly 800 afterwards, whatever it held before |
| Stimulus.InjectTwice | components/water-effect.tsx:66-67 | values are assigned, not added: a second click at the same cell changes nothing more |
| Stimulus.InjectOffGrid | components/water-effect.tsx:55-61 | a click none of whose disc cells is on the grid leaves the slice unchanged |
| Propagation.Propagate | components/water-effect.tsx:84-96 | each interior cell becomes `0.97 * ((sum of its four previous neighbours)/2 - its old value)`, computed from the old slices only; border cells keep their value |
| Propagation.Advance | components/water-effect.tsx:126-128 | one frame (update, then swap of the slices) keeps both slices in the field's shape |
| Propagation.Run | components/water-effect.tsx:78-131 | any number of frames keeps both slices in the field's shape |
| Propagation.PropagateKeepsBorder | components/water-effect.tsx:84-85 | the update never changes a border cell of `current` |
| Propagation.RunKeepsBorder | components/water-effect.tsx:84-128 | over `n` frames border cells of both slices keep their values, the slices trading places once per frame |
| Propagation.RestStaysAtRest | components/water-effect.tsx:87-96 | a field entirely at rest stays at rest for any number of frames |
| Propagation.PropagateSpreads | components/water-effect.tsx:87-93 | one update moves a disturbance by at most one cell: if both slices are at rest at Euclidean distance above `r` from a cell, the update is at rest above `r + 1` |
| Propagation.RunSpreads | components/water-effect.tsx:84-128 | a disturbance confined within Euclidean distance `r` of a cell is confined within `r + n` after `n` frames |
| Render.Gray | components/water-effect.tsx:106 | the grey is `min(1.2 * abs(v), 120)`: at most both bounds, and equal to one of them |
| Render.GrayOfVisible | components/water-effect.tsx:99-106 | a painted cell's grey lies in (1.2, 120] and does not depend on the sign of the value |
| Render.GrayMonotone | components/water-effect.tsx:106 | a larger magnitude never paints a darker grey |
| Render.DrawFor | components/water-effect.tsx:99-106 | the draw decision for one cell: one draw, for that cell in `Gray(v)`, if and only if `abs(v) > 1`, and no draw otherwise |
| Render.ColumnDrawsSound | components/water-effect.tsx:85-113 | every draw of a column is for an interior visible cell of that column in its grey, in increasing row order |
| Render.DrawsBeforeSound | components/water-effect.tsx:84-113 | every draw of the first columns is for an interior visible cell in its grey, in column-major order |
| Render.FrameDraws | components/water-effect.tsx:84-113 | the draws of a frame, in the order the loops emit them: every draw is for an interior visible cell in its grey, and the draws are strictly column-major, so no cell is painted twice |
| Render.ColumnDrawsComplete | components/water-effect.tsx:85-100 | every visible interior cell of a column is painted by that column's draws |
| Render.DrawsBeforeComplete | components/water-effect.tsx:84-100 | every visible interior cell of the first columns is painted |
| Render.FrameDrawsExactly | components/water-effect.tsx:99-100 | an interior cell is painted in a frame if and only if its new value has magnitude above 1 |
| WaterEffect.WaterField.constructor | components/water-effect.tsx:7-8 | both buffers start as distinct empty grids |
| WaterEffect.WaterField.Resize | components/water-effect.tsx:23-38 | both buffers are replaced by fresh arrays holding exactly the resized field |
| WaterEffect.WaterField.HandleClick | components/water-effect.tsx:44-72 | the in-place loops leave `previous` equal to `Inject` of its old value at the clicked cell, and `current` unchanged |
| WaterEffect.WaterField.Animate | components/water-effect.tsx:78-128 | the buffers swap references, the new field is `Advance` of the old one, and the returned draws are exactly `FrameDraws` of the computed slice |
| WaterEffect.WaterField.PropagateFrame | components/water-effect.tsx:84-115 | the outer loop leaves every cell of `current` equal to the propagated slice and emits that slice's frame draws |
| WaterEffect.WaterField.PropagateColumn | components/water-effect.tsx:85-114 | the inner loop updates column `i` to the propagated values, leaves other columns alone, and emits that column's draws in row order |
| WaterEffect.WaterField.UpdateCell | components/water-effect.tsx:87-106 | the two in-place writes leave the cell at its propagated value, change no other cell, and return its draw decision |
| WaterEffect.RippleFront | components/water-effect.tsx:44-131 | after a click on a field at rest, and `n` frames, both slices are at rest at every cell whose Euclidean distance from the clicked cell exceeds `8 + n` |
| WaterEffect.WaterField.ClickThenRerun | components/water-effect.tsx:41-140 | a click as written (handler, then the effect re-run that the `debug` update triggers) leaves exactly the resized field at rest, so the click leaves no trace |
| WaterEffect.ClickLostOnRerun | components/water-effect.tsx:49-140 | on a resized field the clicked cell would hold 800 after the click alone, but holds 0 once the re-run's resize follows it |

## Left out

- Canvas drawing: clearing, fill styles, the colour strings, and `arc`
  (lines 80-81, 107-112). The model returns the list of draws (cell and
  grey level) instead of painting them.
- The drawing offset `v * 0.08` (line 103) only moves where a disc is
  drawn, so it is not part of a draw.
- The animation scheduling (`requestAnimationFrame`) and the event
  listener registration and cleanup (lines 40, 75, 130-139) are framework
  plumbing. Each operation is modelled as one call.
- The effect's re-run after each click (lines 49, 140) is modelled only
  by `ClickThenRerun`, under "## Findings". Everywhere else, including
  `RippleFront` and `InjectCentre`, the model treats a click as not
  followed by a resize.
- The debug marker (lines 118-123) and the click-forwarding overlay
  (lines 150-165): UI only.
- Console logging.
- IEEE double arithmetic: values are exact reals, so rounding is not
  modelled and damping is exactly 0.97.
- HandleClick: `Math.sqrt` is a parameter, because IEEE rounding is not
  modelled. It must be non-negative, give 0 at 0, and agree with the integer
  disc test on 0 to 128.
- Energy decay over frames is not claimed: the update does not guarantee
  it, and the sum of squares can grow from one frame to the next.
- Jagged buffers: the code always allocates rectangular buffers, so the
  per-row length checks (lines 59-60 and 85) are modelled on rectangular
  arrays.
- The other components (forms, footer, mouse light, DOM ripple overlay) and
  the subscription API route are not part of this model.

## Findings

| source | as written | input that shows it | evidently intended | confidence | as-written member | corrected member |
|---|---|---|---|---|---|---|
| components/water-effect.tsx:49 | `setDebug` in the click handler changes a dependency of the effect (line 140), so the effect re-runs and its `resize()` (line 41) zeroes both buffers after every click | a click at (50, 50) on a 100 x 100 canvas: cell (10, 10) holds 800 after the handler, then 0 after the re-run, before any frame | the disc stays in `previous` and the next frames propagate it | medium, not executed | WaterEffect.WaterField.ClickThenRerun | WaterEffect.WaterField.HandleClick |
