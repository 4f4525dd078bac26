# Hexagon background: a Dafny model

This project models the animated honeycomb background of the web site (`components/HexBackground.tsx`).
It proves properties of the model with Dafny. The background has three parts:

- **Ripple store.** A bounded FIFO queue of click impulses `{x, y, startTime}`. A click pushes a ripple and then shifts the head off when more than 5 are stored. Every frame keeps only the ripples younger than 2000 ms (module `RippleStore`).
- **Per-cell styling.** A cell starts at the baseline style (slate fill, slate stroke, scale 0.9). It is tinted teal when the pointer is closer than 150 px. Then, in store order, every ripple whose expanding ring (speed 0.2 px/ms, half-width 100 px) covers the cell with intensity above 0.01 overwrites fill and stroke with purple and raises the scale to `max(scale, 0.9 + 0.3·w)` (module `Styling`).
- **Grid range.** Rows run from -1 to `ceil(H/37.5)+1` and columns from -1 to `ceil(W/hexWidth)+1`. Odd rows are shifted by half a column, using JavaScript's truncating `%`, so row -1 moves left (module `HexGrid`).

Module `Background` ties these together as a state machine. Its state is the pointer (starting at the sentinel (0,0)) and the store. Mouse moves, clicks and frames are the events. `RenderFrame` models one call of `animate`: it styles every cell, then prunes.

Colours are tagged values (`SlateFill`, `SlateStroke`, `Teal(alpha)`, `Purple(alpha)`), not rgba strings. Arithmetic is over Dafny's `real`.

The column spacing `hexWidth = sqrt(3)·25` is irrational. `HexGrid.HexWidth` is the double that `Math.sqrt(3) * 25` evaluates to, 43.30127018922193116168273263610899448394775390625, written out as an exact decimal. With that constant every grid product is linear, so the grid proofs need no nonlinear arithmetic.

Distances are inputs. The pointer distance is a real. Ripple distances come from a function `Ripple -> real`, or from a metric `dist` in `RenderFrame`.

Clock readings (`performance.now()` in the click handler, the frame timestamp) are event parameters.

Behaviours of the code that the model keeps:

- **Pointer sentinel.** Before any mouse move the pointer sits at the canvas origin. So the cell centred at (0,0) is fully tinted on an idle canvas (`Styling.SentinelTintsOrigin`, `Background.PointerSentinel`).
- **Negative ages.** A ripple's age is frame time minus click time, and nothing keeps it non-negative. The model allows negative ages. `Styling.RingIntensityAtMostOne` shows the intensity still never exceeds 1, because distances are non-negative. So the scale bound [0.9, 1.2] needs only non-negative distances.
- **Expiry boundary.** A ripple is removed once its age reaches 2000 ms exactly (the frame keeps `age < 2000`), not only when the age exceeds 2000.
- **Eviction order.** A click appends first and then drops the head, and only one ripple is ever dropped. From a store of 5 this drops the oldest ripple and appends the new one; a smaller store only grows.

## Model

| member | source | states |
|---|---|---|
| RippleStore.Spawn | components/HexBackground.tsx:41-50 | the clicked ripple ends up last; at most one ripple, the head, is removed, and only when the store already held 5; a store of at most 5 stays at most 5 |
| RippleStore.SpawnsKeepNewest | components/HexBackground.tsx:43-49 | N clicks on an empty store, with no frame in between, leave exactly the last min(N, 5) ripples in click order |
| RippleStore.SixClicksDropFirst | components/HexBackground.tsx:43-49 | six clicks leave exactly five ripples, all but the first click's |
| RippleStore.Prune | components/HexBackground.tsx:132 | a ripple survives a frame iff it is stored and younger than 2000 ms; the count never grows; the store is unchanged iff every ripple is live |
| RippleStore.PruneConcat | components/HexBackground.tsx:132 | pruning distributes over concatenation, so survivors keep their relative order |
| RippleStore.PruneSingle | components/HexBackground.tsx:132 | a single ripple is kept exactly when it is live |
| RippleStore.PruneIdempotent | components/HexBackground.tsx:132 | pruning twice at the same frame time equals pruning once |
| RippleStore.PruneLater | components/HexBackground.tsx:132 | pruning at t1 and then at a later t2 equals pruning at t2 |
| RippleStore.ExpiredRippleRemoved | components/HexBackground.tsx:132 | a ripple created at t0 is absent after any frame at or after t0 + 2000 |
| Styling.PointerStyle | components/HexBackground.tsx:95-106 | the style is the baseline iff the pointer is at least 150 away; closer, intensity is in (0,1], fill is teal with alpha 0.15·intensity, stroke teal with alpha 0.5·intensity, and the scale is 0.9 + 0.15·intensity, in (0.9, 1.05]; at distance 0 the scale is 1.05 |
| Styling.PointerFalloff | components/HexBackground.tsx:100-105 | inside the radius, intensity and both teal alphas strictly decrease with distance, and the pointer scale never grows with distance |
| Styling.RingIntensity | components/HexBackground.tsx:110-118 | ring intensity is never negative, and it is positive iff the cell is within 100 px of the ring and the ripple is younger than 2000 ms |
| Styling.RingIntensityAtMostOne | components/HexBackground.tsx:110-118 | at a non-negative distance the ring intensity is at most 1, for every age including negative ones |
| Styling.RingProfile | components/HexBackground.tsx:110-118 | for a ripple younger than 2000 ms, a cell on the ring gets intensity 1 - age/2000, and at a fixed age intensity strictly falls with the distance from the ring inside the 100 px half-width |
| Styling.RingDecaysAfterPass | components/HexBackground.tsx:110-118 | once the ring has passed a cell (ring radius at least the distance), an older ripple is never brighter at that cell |
| Styling.RippleStep | components/HexBackground.tsx:117-124 | one ripple never lowers the scale; an invisible ripple (off the ring, expired, or at most 0.01) leaves the style unchanged; a visible one makes fill and stroke purple and the scale at least 0.9 + 0.3·w |
| Styling.ApplyRipples | components/HexBackground.tsx:109-125 | the ripple fold never lowers the scale, and leaves the style unchanged when no ripple is visible |
| Styling.FinalScaleIsMax | components/HexBackground.tsx:109-125 | the final scale is the maximum of the pointer-step scale and 0.9 + 0.3·w over the visible ripples: at least each of them, and equal to one of them |
| Styling.LastVisibleRippleWins | components/HexBackground.tsx:109-125 | final fill and stroke are the purple colours of the last visible ripple in store order |
| Styling.CellStyle | components/HexBackground.tsx:95-125 | a cell is never scaled below what the pointer gives it, and keeps exactly the pointer's style when no ripple is visible |
| Styling.CellRipplesWin | components/HexBackground.tsx:95-125 | on a cell, the last visible ripple sets fill Purple(0.3·w) and stroke Purple(0.8·w) over any pointer tint, and every visible ripple lifts the scale to at least 0.9 + 0.3·w |
| Styling.CellScaleBounds | components/HexBackground.tsx:95-125 | with non-negative distances, every cell's scale lies in [0.9, 1.2] |
| Styling.PruneKeepsStyle | components/HexBackground.tsx:109-132 | styling with the store before or after the frame's cleanup gives the same cell, because expired ripples are invisible |
| Styling.SentinelTintsOrigin | components/HexBackground.tsx:12 | with the pointer sentinel on a cell's centre and no ripples, that cell is not baseline: its scale is 1.05 |
| Styling.QuietCellIsBaseline | components/HexBackground.tsx:95-125 | a cell at least 150 from the pointer with no visible ripple keeps the baseline style |
| HexGrid.Ceil | components/HexBackground.tsx:81-82 | the result is the least integer not below its argument |
| HexGrid.TruncRem2 | components/HexBackground.tsx:86 | `r % 2` as JavaScript computes it: -1, 0 or 1, zero iff r is even, with the sign of r |
| HexGrid.Cols | components/HexBackground.tsx:81 | two more than the fewest column widths that reach the canvas width |
| HexGrid.Rows | components/HexBackground.tsx:82 | two more than the fewest row distances that reach the canvas height |
| HexGrid.RowOffset | components/HexBackground.tsx:86 | a row's shift is zero iff the row is even, +hexWidth/2 on positive odd rows and -hexWidth/2 on negative odd rows (row -1 included) |
| HexGrid.Centre | components/HexBackground.tsx:86-88 | a centre lies within half a column of `col·hexWidth`, exactly on it iff the row is even, at height `row·37.5` |
| HexGrid.Stagger | components/HexBackground.tsx:86-87 | neighbours in a row are one column width apart, and from row 0 on the shift repeats every second row |
| HexGrid.RowMinusOneShift | components/HexBackground.tsx:86 | row -1's centres sit one column left of row 1's, because JavaScript's `%` shifts row -1 left |
| HexGrid.GridCells | components/HexBackground.tsx:81-85 | the frame visits exactly the cells with row in [-1, rows) and column in [-1, cols), in row-major order, (rows+1)·(cols+1) of them |
| HexGrid.VerticalMargin | components/HexBackground.tsx:82-88 | the top centre row is at -37.5 and the bottom one at least 37.5 below the canvas |
| HexGrid.HorizontalMargin | components/HexBackground.tsx:81-87 | in every row the first centre is at most -hexWidth/2 and the last at least W + hexWidth/2 |
| HexGrid.RowsCoverCanvas | components/HexBackground.tsx:82-88 | every canvas height lies within half a row of some drawn row's centre line |
| HexGrid.ColumnsCoverCanvas | components/HexBackground.tsx:81-87 | in every row, every canvas abscissa lies within half a column of some drawn centre |
| HexGrid.GridCoversCanvas | components/HexBackground.tsx:81-88 | every canvas point lies within half a column and half a row of the centre of some drawn cell |
| Background.Step | components/HexBackground.tsx:33-50 | a mouse move sets only the pointer; a click performs Spawn on the store with its position and clock reading and keeps the pointer; a frame performs Prune on the store and keeps the pointer; no event takes the store past 5 |
| Background.Run | components/HexBackground.tsx:12-50 | the state after a sequence of events from the initial one; its pointer is the origin sentinel or the position of some mouse move |
| Background.RunBounded | components/HexBackground.tsx:43-49 | after any sequence of events the store holds at most 5 ripples |
| Background.RipplesComeFromClicks | components/HexBackground.tsx:41-50 | every stored ripple was created by some click, with that click's position and clock reading |
| Background.PointerIsLastMove | components/HexBackground.tsx:33-39 | the pointer is the position of the last mouse move |
| Background.PointerSentinel | components/HexBackground.tsx:12 | with no mouse move the pointer stays at the origin (0,0) |
| Background.RenderFrame | components/HexBackground.tsx:72-132 | a frame styles each grid cell once, in row-major order, from the pointer and the store as they were before cleanup; with non-negative distances every scale is in [0.9, 1.2]; afterwards the store is pruned and the pointer unchanged |

## Left out

- `drawHex` (lines 55-70): the cosine/sine vertex placement and the canvas fill/stroke calls. These are trigonometry and a foreign drawing interface.
- `Math.sqrt` distances (lines 93, 115): distances are inputs (a real, a function per ripple, or a metric `dist`) and are not computed.
- The rgba strings (lines 76-77, 103-105, 120-121): colours are tagged values carrying their alpha.
- Listener registration, `getBoundingClientRect` translation, resizing, `requestAnimationFrame` scheduling and teardown (lines 20-31, 34, 42, 52-53 and 134-144): browser input/output and scheduling. Mouse and click coordinates arrive already in canvas space. The canvas size arrives as a parameter.
- The missing-canvas and missing-context early returns (lines 21-24): nothing is drawn in that case, and nothing is left to model.
- IEEE double arithmetic: the model computes over exact reals. `hexWidth` is the exact rational value of the double the page computes, but later products and sums are not rounded.
- Other column spacings: the grid properties are proved for the one spacing `HexGrid.HexWidth`, not for every positive spacing. The page uses no other spacing.
- Styling.RingIntensity: outside the ring it is 0. The source does not compute it there, but 0 never passes the 0.01 threshold, so the step behaves the same.
- HexGrid.GridCoversCanvas: it states coverage by the hexWidth × 37.5 box around each centre, not by the drawn hexagon outlines, because the outlines need the trigonometry of `drawHex`.
- components/SoftwareSection.tsx, components/PublicationsSection.tsx, components/ResearchSection.tsx and App.tsx are static page markup. They are not part of this model.
