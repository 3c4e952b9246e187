# Reactor reboot: a verified model of the signed-volume ledger

This project models the core of `day22/main.go` in Dafny. That program
counts the unit cells of 3-D integer space that are "on" after a sequence
of on/off cuboid steps. It never enumerates cells. Instead, a `Reactor`
keeps an append-only list of signed cuboids and a running total.

- For each new step, every entry already in the list that overlaps the
  step gets a negated intersection appended. Its signed volume is added
  to the total.
- An "on" step is then appended itself.

The model proves that the total is the sum of the entries' signed volumes.
It also proves that every cell's signed coverage is 1 when the last step
containing the cell is "on", and 0 otherwise. From that, the total is the
number of lit cells.

Modules, one per part of the program:

- `Geometry` (`geometry.dfy`): `Cube`, `overlaps`, `intersection`, `lit`,
  `min`, `max`.
- `Cells` (`cells.dfy`): a listing of the cells of a box and the number of
  listed cells inside a cube. It is the yardstick for "number of cells".
- `Replay` (`replay.dfy`): the reference meaning, replayed cell by cell:
  the last step containing a cell decides its state.
- `Ledger` (`ledger.dfy`): what one `addCube` appends, the fold of
  `countCubes` as functions, and the correctness lemmas.
- `Day22` (`reactor.dfy`): the `Reactor` class with its `cs` and `lit`
  fields and the `AddCube` method, the trim test of `parseSteps` and its
  step loop, and `CountCubes`.
- `Examples` (`examples.dfy`): concrete reboot sequences.

Three behaviours of the code are easy to misread. The model keeps all three as written.

- For non-overlapping cubes, `intersection` returns Go's zero `Cube{}`. That
  value is an "off" single cell at the origin, not an empty box. The model
  returns exactly that (`Geometry.ZeroCube`). `addCube` never reaches this
  case, because it tests `overlaps` first.
- The trim test compares only the lower bounds with -50 and only the upper
  bounds with 50. For a well-formed step this is the same as "all six
  bounds lie in [-50, 50]" (`Day22.KeptIffInsideRegion`). For a malformed
  step it is not, and the model keeps the code's test.
- The trim filter drops a whole step, or keeps it whole. It does not clip
  a step to [-50, 50]³. So with trim, the total counts the cells of
  [-50, 50]³ left on by the steps that pass the test. A step that crosses
  the boundary lights no cell at all, even inside the region
  (`Examples.CrossingStepIsDroppedWhole`). When every dropped step
  misses the region, the total is also the number of region cells left
  on by all steps (`Day22.TrimmedCountsRegion`).

## Model

| member | source | states |
|---|---|---|
| `Geometry.Max` | day22/main.go:138-143 | the result is at least both arguments and is one of them |
| `Geometry.Min` | day22/main.go:145-150 | the result is at most both arguments and is one of them |
| `Geometry.OverlapsSymmetric` | day22/main.go:57-61 | `Overlaps`, the three-axis range test as written, is symmetric: `a.overlaps(b) == b.overlaps(a)` |
| `Geometry.OverlapsIffSharedCell` | day22/main.go:57-61 | for well-formed cubes, the `Overlaps` test holds exactly when some cell lies in both cubes |
| `Geometry.Intersection` | day22/main.go:63-84 | no overlap gives the zero cube; otherwise the sign is the negation of the receiver's; for well-formed inputs the result is well formed, inside both, and holds a cell exactly when both do |
| `Geometry.ZeroCubeIsOffCellAtOrigin` | day22/main.go:64-65 | the value `intersection` returns for disjoint cubes, Go's `Cube{}`, is an "off" cell at the origin with signed volume -1, not an empty box |
| `Geometry.IntersectionIsLargestCommonBox` | day22/main.go:68-69 | every box inside both cubes is inside their intersection, so the bounds are the max of the mins and the min of the maxes |
| `Geometry.IntersectionSignIgnoresOther` | day22/main.go:63-83 | for any two cubes, overlapping or not, the intersection does not depend on the other cube's flag |
| `Geometry.Volume` | day22/main.go:87 | a well-formed cube has volume at least 1 |
| `Geometry.Lit` | day22/main.go:86-92 | for a well-formed cube the signed volume is nonzero and positive exactly when the cube is on |
| `Cells.CountInCellsOf` | day22/main.go:87 | the volume of a well-formed cube is the number of cells it spans in any box holding it |
| `Cells.CellsOfInside` | day22/main.go:26-27 | the cell listing of a box holds only cells of that box, so a count over it counts only cells of the box |
| `Replay.LitAfterIsLastContainingStep` | day22/main.go:26-27 | a cell is on after the steps exactly when some "on" step contains it and no later step does |
| `Replay.StepMissingCellIsIrrelevant` | day22/main.go:26-27 | a step that does not contain a cell can be removed from anywhere in the sequence without changing that cell's state |
| `Replay.LitCellsAgreeIn` | day22/main.go:26-27 | two step sequences that leave the same cells of a box on light equally many cells of that box |
| `Ledger.LitSumConcat` | day22/main.go:45-53 | `LitSum`, the sum of the entries' `lit()`, is additive: appending entries adds their sum to the ledger's total, as `addCube` does to `r.lit` |
| `Ledger.NegatedOverlapsInside` | day22/main.go:42-48 | every appended overlap is well formed and lies inside the new step |
| `Ledger.Appended` | day22/main.go:40-55 | what one `addCube` appends ends with the step itself when it is "on" |
| `Ledger.NegatedOverlapsShape` | day22/main.go:42-48 | the loop appends at most one entry per pre-existing entry, each the intersection of an overlapping pre-existing entry with the step |
| `Ledger.EntriesWellFormed` | day22/main.go:29-34 | folding over well-formed steps keeps every entry well formed |
| `Ledger.EntriesInside` | day22/main.go:29-34 | every entry lies inside any box that holds every step |
| `Ledger.EntriesAppendOnly` | day22/main.go:29-34 | `Entries`, the ledger after folding `addCube` over the steps, is append-only: the entries after some steps are a prefix of the entries after any continuation |
| `Ledger.CoverageOfNegatedOverlaps` | day22/main.go:41-48 | for any ledger and step, the appended overlaps cancel the old coverage on the step's cells and add nothing elsewhere |
| `Ledger.CoverageAfterAddCube` | day22/main.go:39-55 | for any ledger and step, after the step its cells have coverage 1 if it is on and 0 if off; other cells keep their coverage |
| `Ledger.CoverageIsLit` | day22/main.go:26-37 | for any steps, after the fold every cell's signed coverage is 1 if replay leaves it on and 0 otherwise |
| `Ledger.WeightedCountIsLitSum` | day22/main.go:86-92 | over the cells of a box holding every well-formed entry, the signed number of cells each entry holds sums to the `LitSum` of the entries |
| `Ledger.CountIsLitCells` | day22/main.go:26-37 | `Count`, the running total after the fold, equals the number of cells left on, counted cell by cell in any box holding every step |
| `Ledger.CountIsLitCellsOfBoundingBox` | day22/main.go:26-37 | for well-formed steps, `Count` is the number of cells of their bounding box left on, so it is never negative |
| `Ledger.SameLitCellsSameCount` | day22/main.go:26-37 | two step sequences that leave the same cells on give the same total |
| `Ledger.RepeatedOnIsIdempotent` | day22/main.go:39-55 | repeating an "on" step leaves the total unchanged |
| `Ledger.OffCancelsOn` | day22/main.go:50-54 | an "off" step over the region of the preceding "on" step gives the same total as the "off" step alone |
| `Ledger.OffCancelsEarlierStep` | day22/main.go:40-55 | an "off" step over the region of an earlier step gives the same total as leaving the earlier step out, whatever steps came in between |
| `Day22.Reactor.constructor` | day22/main.go:21-24 | the zero reactor has no entries and total 0, so the ledger invariant `Valid` (total equals `LitSum` of the entries) holds |
| `Day22.Reactor.AddCube` | day22/main.go:40-55 | the old entries stay as a prefix; then come, in order, the intersections with the pre-existing entries that overlap, then the step when it is on; the total grows by their signed volumes, which preserves the ledger invariant `Valid` |
| `Day22.Kept` | day22/main.go:116-122 | without trim every step passes; with trim a well-formed step passes exactly when it lies inside [-50, 50]³ |
| `Day22.KeptIffInsideRegion` | day22/main.go:116-122 | a well-formed step passes the trim test exactly when all six bounds lie in [-50, 50], that is when it lies inside the region |
| `Day22.PartlyOutsideIsDropped` | day22/main.go:116-122 | a step with any cell outside the region is dropped, not clipped |
| `Day22.Trimmed` | day22/main.go:116-135 | the steps `parseSteps` returns are no more than the input steps and each passes the trim test |
| `Day22.TrimmedKeepsWholeSteps` | day22/main.go:116-132 | the filter's output holds exactly the input steps that pass the test, unchanged, and is no longer than the input |
| `Day22.UntrimmedKeepsAll` | day22/main.go:116-122 | without trim every step is kept, in order |
| `Day22.TrimmedInsideRegion` | day22/main.go:116-122 | with trim, every kept well-formed step lies inside [-50, 50]³ |
| `Day22.TrimmedLightsRegionAlike` | day22/main.go:116-122 | when every dropped step misses the region, trimming changes the state of no cell of the region |
| `Day22.TrimmedCountsKeptInRegion` | day22/main.go:26-37 | with trim, the total counts the cells of [-50, 50]³ left on by the steps that pass the test |
| `Day22.CountAgreesIn` | day22/main.go:26-37 | steps inside a box that light its cells as another sequence does give, as total, the number of that box's cells the other sequence leaves on |
| `Day22.TrimmedCountsRegion` | day22/main.go:26-37 | when every dropped step misses the region, the trimmed total is the number of cells of [-50, 50]³ left on by all steps |
| `Day22.ParseSteps` | day22/main.go:116-132 | the step loop returns the steps that pass the trim test, in input order |
| `Day22.CountCubes` | day22/main.go:28-37 | the total after folding `addCube` over the kept steps; for well-formed steps with trim, the cells of [-50, 50]³ left on by the steps that pass the trim test, which is the number left on by all steps when every dropped step misses the region; without trim, the cells of the bounding box of all steps left on |
| `Examples.SingleCubeOn` | day22/main.go:50-54 | `on x=0..1,y=0..1,z=0..1` gives 8 |
| `Examples.OnThenOffCancels` | day22/main.go:42-54 | the same cube on and then off gives 0 |
| `Examples.PartialOverlap` | day22/main.go:42-54 | two 10×10×10 cubes sharing a 5×5×5 corner give 1875 |
| `Examples.OrderMatters` | day22/main.go:42-54 | on X then off Y, with Y inside X, gives vol(X) - vol(Y); off Y then on X gives vol(X) |
| `Examples.FarStepIsTrimmed` | day22/main.go:116-122 | a step outside [-50, 50]³ counts 0 with trim and its volume without |
| `Examples.CrossingStepIsDroppedWhole` | day22/main.go:116-122 | with trim, `on x=-60..0,y=0..0,z=0..0` counts 0, although it lights the origin, which lies in the region |

## Left out

- Reading the input file, `bufio.Scanner`, `fmt.Sscanf` and the `panic` error paths of `parseSteps` (day22/main.go:94-114): this is I/O and library code. `CountCubes` and `ParseSteps` take the already parsed lines as a sequence of `Cube`s instead of a path.
- `main` and its `Printf` output (day22/main.go:9-12): I/O.
- Go's 64-bit `int`: the model uses unbounded integers. The volume product and the running total could overflow for huge inputs, and the model does not show that wrap-around.
- Malformed cubes (min > max on some axis): `AddCube`, `CountCubes` and the filter accept them as the source does. The pointwise coverage lemmas hold for any steps. The statements that relate the total to a number of cells are made only for well-formed steps, where a cube's volume is its number of cells.
