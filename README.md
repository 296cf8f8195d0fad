# Abelian sandpile and Life engines, modelled in Dafny

This project models the four state-transition engines of `automata.py`:

- **`sandpile`** relaxes an integer grid. The grid is padded with a one-cell
  ring of zeros. Then, while some cell holds more than three grains, every
  such cell fires at once: it gives one grain to each of its four
  neighbours and loses four. After every pass the ring is zeroed again, so
  the grains that reach it leave the system. The interior is returned.
- **`life`** runs Conway's Game of Life on a rectangular grid. Each cell's
  count is a 3x3 convolution whose filter weighs the eight Moore
  neighbours. The boundary either wraps (a torus) or is dead.
- **`lifetri`** runs Life on a triangular tessellation. Each triangle has
  twelve neighbours, and which twelve depends on whether it points up or
  down. The grid sits in a buffer with one extra row above and below and
  two extra columns on each side. In periodic mode that border is filled
  by eight slice copies before every step. The rule is: birth on 4
  neighbours, survival on 4, 5 or 6.
- **`life_generic`** runs Life on an arbitrary graph given by a boolean
  adjacency matrix. The count is the dot product of a cell's row with the
  state. Survival and birth counts are the parameters `environment` and
  `fertility`.

## Structure

Each engine is a `method`. It takes the input as a value (`seq<seq<_>>` or
`seq<bool>`) and copies it into `array2` (or `array`) buffers, as the source
does with `np.copy`. It updates those buffers in place with loops, and
returns a value. Every state-changing method is proved against a pure
function on grids. Those functions are proved equal to independent
definitions, or are given lemmas for the properties the engines promise:

- mass bookkeeping, stability, idempotence and non-negativity of the
  sandpile;
- the Moore count equals the convolution with the filter;
- the blended slice sums of `lifetri` equal an explicit twelve-neighbour
  window table;
- the eight slice copies equal a torus wrap;
- the dot product counts the live neighbours;
- all-dead grids stay dead.

Modules:

- `Grids`: the grid type, its shape, and a snapshot `Cells` of a 2-D array.
- `Sums`: sums of integer functions over rectangles, used for the grain
  count.
- `SandpileEngine`, `GridLife`, `TriangularLife` and `GraphLife`: one
  module per function of `automata.py`.

Behaviours of the code worth knowing:

- `GraphLife.GenericRule` kills a cell whose count is not in
  `environment`, even when the count is in `fertility`. So a birth needs
  the count in both sets (automata.py:231-234). This is not the common
  reading of separate survival and birth sets, which is
  `(alive and count in environment) or count in fertility`.
- A negative `nsteps` runs no steps, because `range(nsteps)` is empty.
- `GraphLife.GridGraphIsLife` ties two engines of the model together.
  Flatten a grid row by row and give the model's `life_generic`
  (`GraphLife.GenericN`, which counts neighbours as integers) the graph of
  Moore neighbours and Conway's sets {2, 3} and {3}. Then it computes what
  `life` computes on the grid with a dead ('fill') boundary. This holds of
  the source for a 0/1 integer state. On the boolean arrays its docstring
  asks for, `np.dot` caps the count at 1 and every cell dies (second row of
  "## Findings").

## Model

| member | source | states |
|---|---|---|
| SandpileEngine.Pad | automata.py:25-27 | the padded grid has two more rows and columns, a zero ring, and the input at offset (1, 1) |
| SandpileEngine.Interior | automata.py:51 | `in_state[1:-1, 1:-1]` has two fewer rows and columns, and cell (i, j) is padded cell (i+1, j+1) |
| SandpileEngine.InteriorOfPad | automata.py:51 | stripping the ring after padding returns the input |
| SandpileEngine.PadOfInterior | automata.py:25-27 | padding the interior of a grid with a zero ring gives the grid back |
| SandpileEngine.Pass | automata.py:38-44 | one pass keeps the shape, and leaves the ring zero |
| SandpileEngine.Relax | automata.py:29-44 | the bounded loop keeps the padded shape |
| SandpileEngine.RelaxResult | automata.py:29 | the loop's flag is true exactly when the grid it stops on is stable; the ring stays zero; an already stable grid is returned at once |
| SandpileEngine.RelaxIdempotent | automata.py:29-44 | relaxing a grid that the loop left stable returns it unchanged, for any pass budget |
| SandpileEngine.RelaxNonNegative | automata.py:38-42 | firing only cells above three keeps every cell non-negative |
| SandpileEngine.MassOfPad | automata.py:25-27 | padding with zeros adds no grains |
| SandpileEngine.MassOfInterior | automata.py:51 | stripping a zero ring removes no grains |
| SandpileEngine.Stable | automata.py:29 | no contract of its own (a predicate): what stability means for the loop is stated by `SandpileEngine.RelaxResult` and `SandpileEngine.StableInterior` |
| SandpileEngine.Topples | automata.py:32-42 | no contract of its own (which cells fire): `SandpileEngine.FiringInsideRing` and `SandpileEngine.ShiftedFiringCount` state what it marks |
| SandpileEngine.FiredAt | automata.py:32-42 | a cell that holds no debt before the firing holds none after it; `SandpileEngine.FiringConservesMass` and `SandpileEngine.RingFired` state what the firing does to the grid's grains |
| SandpileEngine.FiringInsideRing | automata.py:32 | only cells strictly inside the zero ring can fire |
| SandpileEngine.ShiftedFiringCount | automata.py:38-41 | for each of the four shifted updates, the number of cells that receive a grain equals the number of firing cells |
| SandpileEngine.FiringConservesMass | automata.py:38-42 | the simultaneous firing moves grains (4 out, 4 x 1 in) and neither creates nor destroys any |
| SandpileEngine.RingFired | automata.py:38-44 | a ring cell, which holds no grains and never fires, ends the firing with one grain per firing orthogonal neighbour |
| SandpileEngine.LostNonNegative | automata.py:43-44 | the grains the ring clearing discards are never negative |
| SandpileEngine.DeepFiringLosesNothing | automata.py:38-44 | when every firing cell is at least two cells inside the padded grid, the clearing discards nothing |
| SandpileEngine.ShallowFiringLoses | automata.py:38-44 | a firing cell next to the ring makes the clearing discard at least one grain |
| SandpileEngine.LostIffDeep | automata.py:38-44 | the discarded amount is never negative, and it is zero exactly when no firing cell touches the ring |
| SandpileEngine.PassMass | automata.py:38-44 | the mass after a pass plus the grains pushed onto the ring equals the mass before; that loss is never negative, and it is zero exactly when every firing cell lies at least two cells inside the padded grid |
| SandpileEngine.RelaxConserves | automata.py:29-44 | the mass the loop ends with plus the grains the ring clearings discard over its passes is the mass it started with |
| SandpileEngine.RelaxLostIffDeep | automata.py:29-44 | the grains discarded over the loop are never negative, and zero exactly when every pass fires only cells at least two cells inside the padded grid |
| SandpileEngine.RelaxMass | automata.py:29-44 | the loop's final mass plus the discarded grains is the initial mass; the loop never increases the number of grains, and keeps all of them exactly when every pass fires only deep cells |
| SandpileEngine.AnyUnstable | automata.py:29 | `(in_state > 3).any()`: true exactly when the buffer is not stable |
| SandpileEngine.SpreadGrid | automata.py:38-41 | one fancy-indexed update keeps the grid's shape; `SandpileEngine.PassBySpreads` states that the five updates and the clearing compute the firing pass |
| SandpileEngine.ClearRing | automata.py:43-44 | zeroing rows 0 and -1 and columns 0 and -1 keeps the shape |
| SandpileEngine.PassBySpreads | automata.py:38-44 | the five fancy-indexed updates followed by clearing the ring compute exactly the simultaneous firing pass |
| SandpileEngine.Spread | automata.py:38-42 | the in-place update of the buffer equals the spread of its old contents |
| SandpileEngine.ClearBorder | automata.py:43-44 | the in-place ring clearing equals `ClearRing` of the old contents |
| SandpileEngine.Topple | automata.py:32-44 | one loop body on the buffer equals one firing pass of its old contents |
| SandpileEngine.Settle | automata.py:8-51 | the result has the input's shape |
| SandpileEngine.StableInterior | automata.py:29 | a grid with a zero ring is stable exactly when its interior is |
| SandpileEngine.SettleResult | automata.py:8-51 | the returned flag holds exactly when the returned grid is stable; a stable input comes back unchanged |
| SandpileEngine.SettleMass | automata.py:8-51 | the result's mass plus the grains fired onto the ring is the input's mass; the result holds at most as many grains as the input, and exactly as many when every pass fires only cells at least two cells inside the padded grid |
| SandpileEngine.SettleNonNegative | automata.py:8-51 | a non-negative input settles to a non-negative grid |
| SandpileEngine.SettleIdempotent | automata.py:8-51 | running `sandpile` on a stable result returns it unchanged |
| SandpileEngine.Sandpile | automata.py:8-51 | the buffer algorithm returns what `Settle` specifies: the interior of the relaxed padded grid, and whether it is stable |
| GridLife.Neighbour | automata.py:86-91 | no contract of its own (the cell a filter tap reads): `GridLife.WrapInside` states that both boundary modes read the cell itself inside the grid, and `GridLife.DeadNeighbourhood` that an all-dead grid reads no live cell |
| GridLife.ConvolveRow | automata.py:87-91 | no contract of its own (one row of filter taps): `GridLife.MooreIsConvolution` states what the convolution computes |
| GridLife.Convolve | automata.py:87-91 | no contract of its own (the 3x3 convolution at a cell): `GridLife.MooreIsConvolution` states that it is the Moore count |
| GridLife.MooreCount | automata.py:87-91 | a cell has at most 8 live neighbours |
| GridLife.MooreIsConvolution | automata.py:81-91 | the Moore count is the 'same'-mode convolution of the grid with the filter `[[1,1,1],[1,0,1],[1,1,1]]`, in either boundary mode |
| GridLife.WrapInside | automata.py:86-91 | inside the grid, 'wrap' and 'fill' read the same cell |
| GridLife.FillAgreesWithWrapInside | automata.py:86-91 | away from the edge, both boundary modes give the same count |
| GridLife.LifeRule | automata.py:94-104 | a cell is alive after the update exactly when its count is 3, or it is 2 and the cell was alive |
| GridLife.LifeStep | automata.py:83-104 | one step keeps the grid's shape |
| GridLife.LifeN | automata.py:83 | `nsteps` steps keep the grid's shape |
| GridLife.LifeStepCell | automata.py:94-104 | cell (i, j) after a step is alive exactly when its count in the previous grid is 3, or 2 and it was alive |
| GridLife.DeadNeighbourhood | automata.py:87-91 | in an all-dead grid every count is 0 |
| GridLife.AllDeadStaysDead | automata.py:83-104 | an all-dead grid stays all dead for any number of steps, in either boundary mode |
| GridLife.Step | automata.py:86-104 | the two masked assignments on the buffer compute one synchronous step of its old contents |
| GridLife.Life | automata.py:54-123 | `life` returns `nsteps` synchronous steps of the input, with the input's shape; with no steps it returns the input |
| TriangularLife.TriPad | automata.py:146-148 | the buffer is a zero-bordered grid with two more rows and four more columns and the input at offset (1, 2) |
| TriangularLife.TriInterior | automata.py:192 | `in_state[1:-1, 2:-2]` has the input's shape and reads the buffer at offset (1, 2) |
| TriangularLife.TriInteriorOfPad | automata.py:146-148 | cutting the border off a freshly padded grid gives the grid back |
| TriangularLife.TriPadOfInterior | automata.py:192 | a buffer with a dead border is the padding of its interior |
| TriangularLife.OrientationOf | automata.py:171 | no contract of its own: `TriangularLife.OrientationAlternates` states its properties |
| TriangularLife.OrientationAlternates | automata.py:168-171 | the first interior triangle (1, 2) points up, and orientation flips with each step along a row or a column, like a chessboard |
| TriangularLife.Window | automata.py:177-181 | each orientation's window lists twelve offsets; `TriangularLife.WindowShape` states which |
| TriangularLife.WindowShape | automata.py:177-181 | the twelve-offset table is exactly the described window: 3 or 5 cells above, 4 beside, 5 or 3 below |
| TriangularLife.WindowSymmetric | automata.py:171-181 | neighbourhood is symmetric: if one triangle is in another's window, the other is in its window |
| TriangularLife.CountOver | automata.py:177-181 | a count over twelve offsets is at most 12 |
| TriangularLife.TriCount | automata.py:177-181 | a triangle has at most 12 live neighbours; `TriangularLife.BlendedIsWindow` states that it is the count the code computes |
| TriangularLife.SliceSum | automata.py:178-180 | the sum of a boolean slice lies between 0 and the slice's width |
| TriangularLife.BlendedCount | automata.py:171-181 | no contract of its own (the count as the code computes it): `TriangularLife.BlendedIsWindow` states that it is the window count |
| TriangularLife.SliceSum3 | automata.py:178-180 | a three-wide slice sum is the sum of its three cells |
| TriangularLife.SliceSum5 | automata.py:178-180 | a five-wide slice sum is the sum of its five cells |
| TriangularLife.BlendedSlices | automata.py:171-181 | the `up`/`down` blended slice bounds select 3-5-5 cells for an up triangle and 5-5-3 for a down one |
| TriangularLife.UpWindowCount | automata.py:177-181 | for an up triangle, the window table counts the 3-5-5 slices minus the cell itself |
| TriangularLife.DownWindowCount | automata.py:177-181 | for a down triangle, the window table counts the 5-5-3 slices minus the cell itself |
| TriangularLife.BlendedUp | automata.py:171-181 | for an up triangle, the blended slices count exactly its window |
| TriangularLife.BlendedDown | automata.py:171-181 | for a down triangle, the blended slices count exactly its window |
| TriangularLife.BlendedIsWindow | automata.py:171-181 | the count the code computes with blended slices equals the twelve-neighbour window count |
| TriangularLife.TriRule | automata.py:183-186 | a cell is alive after the update exactly when its count is 4, or it is 5 or 6 and the cell was alive |
| TriangularLife.Wrap | automata.py:153-162 | the periodic border keeps the buffer's shape |
| TriangularLife.RowSourceMod | automata.py:155-156 | a border row is copied from the interior row at its position modulo the interior height |
| TriangularLife.ColSourceMod | automata.py:157-158 | a border column is copied from the interior column at its position modulo the interior width |
| TriangularLife.WrapIsTorus | automata.py:153-162 | with at least one interior row and two interior columns, every buffer cell after wrapping is the interior cell at its position modulo the interior size (a torus) |
| TriangularLife.SweepGrid | automata.py:165-186 | the sweep keeps the buffer's shape |
| TriangularLife.TriStep | automata.py:151-188 | one step keeps the buffer's shape |
| TriangularLife.TriN | automata.py:151 | `nsteps` steps keep the buffer's shape |
| TriangularLife.SweepIsStep | automata.py:165-186 | the sweep with slice counts, over the wrapped or the plain buffer, is the window-table step |
| TriangularLife.StepKeepsBorder | automata.py:165-166 | a step never changes a border cell of `aux` |
| TriangularLife.BorderStaysDead | automata.py:151-188 | the border of `aux` stays dead for any number of steps |
| TriangularLife.DeadWindow | automata.py:177-181 | in an all-dead grid every count is 0 |
| TriangularLife.WrapAllDead | automata.py:153-162 | wrapping an all-dead buffer leaves it all dead |
| TriangularLife.StepAllDead | automata.py:151-188 | one step keeps an all-dead buffer all dead |
| TriangularLife.AllDeadStaysDead | automata.py:151-188 | an all-dead buffer stays all dead for any number of steps, periodic or not |
| TriangularLife.TriPadAllDead | automata.py:146-148 | the buffer of an all-dead grid is all dead |
| TriangularLife.LifeTriResult | automata.py:192 | the result has the input's shape |
| TriangularLife.LifeTriResultFacts | automata.py:126-192 | with no steps the input comes back; an all-dead input stays all dead |
| TriangularLife.Blocked | automata.py:155-162 | a slice assignment keeps the buffer's shape |
| TriangularLife.WrapSlice | automata.py:155-162 | each of the eight slice copies, and its source, lies inside every buffer of the shapes the model admits |
| TriangularLife.Stage | automata.py:155-162 | the buffer after some of the copies keeps its shape |
| TriangularLife.StageStep | automata.py:155-162 | copy k takes stage k to stage k + 1 |
| TriangularLife.StageIsSource | automata.py:155-162 | after all eight copies, each cell holds the buffer cell at its wrapped row and column, corners included |
| TriangularLife.WrapBySlices | automata.py:155-162 | the eight slice copies, in the code's order, produce the periodic border |
| TriangularLife.CopySlice | automata.py:155-162 | the in-place slice assignment equals `Blocked` of the old buffer |
| TriangularLife.CopyStage | automata.py:155-162 | copy k on the buffer takes it from stage k to stage k + 1 |
| TriangularLife.WrapBorder | automata.py:153-162 | the eight in-place copies turn `in_state` (equal to `aux`) into the wrapped buffer |
| TriangularLife.Sweep | automata.py:165-186 | the double loop over the interior of `aux` equals the sweep of its old contents with counts from `in_state` |
| TriangularLife.CopyInto | automata.py:188 | `in_state = np.copy(aux)`: the buffer afterwards equals the source |
| TriangularLife.LifeTri | automata.py:126-192 | `lifetri` returns the interior of the buffer after `nsteps` window-table steps |
| GraphLife.Dot | automata.py:229 | the neighbour count is at most the number of cells |
| GraphLife.DotIsCount | automata.py:229 | the dot product of an adjacency row with the state is the number of live neighbours |
| GraphLife.GenericRule | automata.py:231-234 | no contract of its own: `GraphLife.GenericRuleCases` states when a cell is alive after the update |
| GraphLife.GenericRuleCases | automata.py:231-234 | a cell is alive after the update exactly when its count is in `environment` and either in `fertility` or the cell was alive; a birth needs the count in both sets |
| GraphLife.ConwayInstance | automata.py:231-234 | with environment {2, 3} and fertility {3} the rule is Conway's rule of `life` |
| GraphLife.GenericStep | automata.py:226-234 | one step keeps the state's length |
| GraphLife.GenericN | automata.py:224 | `nsteps` steps keep the state's length |
| GraphLife.GenericStepCell | automata.py:226-234 | cell x after a step is alive exactly when its live-neighbour count is in `environment` and in `fertility` or the cell was alive |
| GraphLife.DeadDot | automata.py:229 | in an all-dead state every count is 0 |
| GraphLife.StepFromAllDead | automata.py:224-235 | from an all-dead state every cell becomes alive exactly when 0 is in both sets |
| GraphLife.AllDeadStaysDead | automata.py:224-235 | unless 0 is in both sets, an all-dead state stays all dead for any number of steps |
| GraphLife.Pass | automata.py:226-234 | the loop over x updates `aux` to one synchronous step of the `in_state` snapshot |
| GraphLife.LifeGeneric | automata.py:195-240 | `life_generic`, with the corrected count and fertility test of the two Findings rows, returns `nsteps` synchronous steps of the input with its length; with no steps it returns the input |
| GraphLife.FertileAsWritten | automata.py:233 | the element-wise comparison with `np.array(list(fertility))` fails (no truth value, as from NumPy 2.2 on) exactly when `fertility` does not have exactly one element, and holds exactly when `fertility` is `{n}` |
| GraphLife.RuleAsWritten | automata.py:231-234 | the code as written fails exactly when the count is in `environment` and `fertility` does not have exactly one element; whenever it does not fail, it computes the rule |
| GraphLife.NoFertileCountFails | automata.py:233 | with no fertile count, a live cell with two live neighbours makes the code as written fail where the rule keeps it alive |
| GraphLife.TwoFertileCountsFail | automata.py:233 | with fertility {3, 6}, a dead cell with three live neighbours makes the code as written fail where the rule brings it to life |
| GraphLife.Flatten | automata.py:237 | the row-major flattening of a grid (numpy's `reshape` order) has one entry per cell |
| GraphLife.FlattenAt | automata.py:237 | cell (x, y) of the grid is entry x * cols + y of the flattening |
| GraphLife.MooreMatrix | automata.py:195-229 | the Moore-neighbour graph of a rows x cols grid is an adjacency matrix for its rows * cols cells |
| GraphLife.LiveAroundMember | automata.py:87-91 | a number is in the set of live Moore neighbours exactly when it numbers a live cell at one of the listed offsets |
| GraphLife.LiveAroundSize | automata.py:87-91 | the set of live Moore neighbours has one element per live neighbour |
| GraphLife.LiveCountIsMoore | automata.py:87-91 | counting the eight offsets one by one gives the 'fill'-mode Moore count of `life` |
| GraphLife.MooreEntry | automata.py:229 | an entry of a cell's row that meets a live cell marks exactly a live Moore neighbour |
| GraphLife.MooreDot | automata.py:229 | in the grid graph, the dot product of a cell's row with the flattened state is the 'fill'-mode Moore count of `life` |
| GraphLife.MooreStepAt | automata.py:224-235 | entry k of one graph step on the grid graph is the cell numbered k after one 'fill'-mode step of `life` |
| GraphLife.MooreStep | automata.py:224-235 | one step of the model's `life_generic` (`GenericStep`, integer count) on the grid graph with sets {2, 3} and {3} is one 'fill'-mode step of `life` on the flattened grid |
| GraphLife.GridGraphIsLife | automata.py:224-235 | for any number of steps, the model's `life_generic` (`GenericN`, integer count, as for a 0/1 integer state) on the grid graph with Conway's sets computes the flattening of what `life` computes with a dead boundary |
| GraphLife.DotAsWritten | automata.py:229 | `np.dot` of two boolean vectors is 1 exactly when some position is set in both, and 0 otherwise |
| GraphLife.DotAsWrittenIsCapped | automata.py:229 | the boolean dot product is the live-neighbour count capped at 1 |
| GraphLife.BooleanDotLosesCount | automata.py:229-234 | a live cell with two live neighbours gets count 1 from the boolean dot product and dies under Conway's sets, where the count 2 keeps it alive |

## Left out

- SandpileEngine.Sandpile: the `while` loop of automata.py:29 has no proven bound here. The method takes a pass budget `fuel` and also returns whether the grid it stops on is stable. When the flag is true, the result is what `sandpile` returns.
- SandpileEngine.Settle: the lemmas about `Settle` (mass, idempotence, stability) are stated for a given pass budget. That the source's unbounded loop always terminates is not proved.
- Integer width: the sandpile is modelled on unbounded integers. A numpy integer dtype that overflows is not modelled.
- Element types: `life` casts its result to `bool` (automata.py:122), and `lifetri` works on a float buffer of 0.0 and 1.0 (automata.py:146). The model works on booleans throughout, with counts as natural numbers.
- Convolution: `scipy.signal.convolve2d` is not part of this model. `GridLife.MooreIsConvolution` states what it computes for this filter, as a sum of filter taps over the neighbours in each boundary mode.
- `periodic`: it is a boolean here. `life` tests `periodic == 1` and `lifetri` tests `periodic is True`. So passing the integer 1 wraps the square grid but not the triangular one. This distinction is not modelled.
- Input shapes: rectangular grids are preconditions, and so is an adjacency matrix with rows of the state's length and at least one row per cell. Further rows are allowed and ignored, as in the source, where the loop reads only the first `len(state)` rows. In the source, a ragged grid, a shorter matrix or rows of another length fail inside numpy.
- NumPy version: the truth value of `neighbors == np.array(list(fertility))` is modelled as NumPy 2.2 and later define it, where an empty array has none. Before 2.2, an empty `fertility` read as false (with a deprecation warning from 1.14 on), and the engine then ran the rule without births.
- `TriangularLife.IsTriPadded`: a buffer with no interior rows is required to have no interior columns either. A numpy array of shape (0, k) with k > 0 is not modelled.
- `TriangularLife.WrapIsTorus` is stated for at least one interior row and two interior columns. With fewer than two interior columns, the two-wide source bands `aux[:, -4:-2]` and `aux[:, 2:4]` reach into the dead border columns, so the copies are not a torus; only `TriangularLife.Wrap` (the cell-by-cell source) and `TriangularLife.WrapBySlices` (the eight copies produce it) describe them.
- `TriangularLife.WrapBorder` reads its eight copies from a value snapshot of `aux`, not from the array itself. This matches the source, where `aux` is not written during the copies. Aliasing between `aux` and `in_state` is excluded (they are separate copies in the source).
- GraphLife.LifeGeneric: the engine models the corrected neighbour count and the corrected fertility test of the two "## Findings" rows (`Dot`, and membership in `fertility`). The code as written is modelled at the level of one cell's rule only (`GraphLife.RuleAsWritten`, `GraphLife.DotAsWritten`), not as a whole engine run.
- Plotting and printing: the commented-out `matshow`/`print` calls and the `matplotlib` import are not part of this model.

## Findings

| source | as written | input that shows it | evidently intended | confidence | as-written member | corrected member |
|---|---|---|---|---|---|---|
| automata.py:233 | `neighbors == np.array(list(fertility))` compares the count element-wise with an array of the fertile counts; used as a condition, it has no truth value once `fertility` has two or more elements, and from NumPy 2.2 on none when `fertility` is empty | `environment = {2, 3}`, `fertility = {3, 6}`, a dead cell with three live neighbours; or `fertility = {}`, a live cell with two live neighbours | `neighbors in fertility`: a birth when the count is any fertile count, and none when there is none | not executed; follows numpy's rule that an array of other than one element has no truth value (for the empty array, NumPy 2.2 and later) | GraphLife.TwoFertileCountsFail | GraphLife.GenericRuleCases |
| automata.py:229 | `np.dot` of the boolean adjacency row and the boolean state is a boolean (true when some neighbour is alive), which then compares as 1 against the integer counts | adjacency row `[true, true]`, state `[true, true]`, Conway's sets `{2, 3}` and `{3}`: the live cell sees count 1 and dies | the number of live neighbours (2 here: the cell survives) | not executed; applies to boolean arrays, as the docstring prescribes, while 0/1 integer arrays count correctly | GraphLife.BooleanDotLosesCount | GraphLife.DotIsCount |
