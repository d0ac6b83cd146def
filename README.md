# 2048 in the terminal: the grid engine

This project models the engine of a terminal 2048 game. The engine has three layers.

- **Cell** (`bin/game-engine/cell/cell.js`) is a mutable tile with three fields:
  - `value`: `''` means empty;
  - `doubleNumber`: a cached `value * 2`;
  - `modified`: the merged-this-move flag.
- **Matrix** (`bin/game-engine/matrix/matrix.js`) owns the n×n cells, keyed by coordinate.
  - It seeds a 2 in an empty cell, but only when the grid differs from its recorded fingerprint.
  - It clears the flags, takes and restores a snapshot, and answers fullness and maximum queries.
- **GameEngine** (`bin/game-engine/game-engine.js`) drives the moves.
  - A move key becomes n lines of keys (`getRangeArray`).
  - Each line gets a slide/merge pass that pushes every cell toward its successor (`processCells`).
  - Each line is then compacted toward its first key (`removeEmptyCells`).
  - After the move, a 2 is seeded and the flags are cleared (the `resetCells` part of `print`).
  - Once the grid is full, a four-move lookahead (`isEndGame`) decides whether the game is over.

The model keeps the source's form:

- `Cells.Cell`, `Matrices.Matrix` and `GameEngines.GameEngine` are classes.
  - Their methods update fields in place.
  - Their loops carry invariants.
- Each method is proved against a pure function.
  - For cells: `Created`, `Cleared`, `Doubled`, `Emptied`, `Assigned`.
  - For one line: `Step`, `Slide`, `Seek`, `Compact`, `ProcessLine`.
  - For the grid: `View`/`Write`, `ApplyLine`, `ApplyLines`, `Trial`, `Lookahead`, `ResetAll`.
- The properties are lemmas about those functions.

Modules, one file each:

- `Cells` and `Wrappers` in `cell.dfy`
- `Lines` in `lines.dfy`
- `Grids` in `grids.dfy`
- `Ranges` in `ranges.dfy`
- `Moves` in `moves.dfy`
- `Matrices` in `matrix.dfy`
- `GameEngines` in `engine.dfy`

Representation choices:

- A key `"x:y"` is the pair `(x, y)`. The `null` key at the end of a line is `None`.
- A grid is a `map<Coord, CellState>`.
  - `cloneDeep` is a value copy.
  - The `object-hash` fingerprint is `Option<Grid>`: `None` is the initial `''`, and two grids have the same hash exactly when they are equal.
- `Math.random` picks an empty key by a nondeterministic choice (`:|`).
- `doubleNumber` has three states, `Blank`, `Num(0)` and `Num(2v)`. The middle one is what `setValue('')` leaves, since `'' * 2` is 0.

The code is modelled as written, quirks included:

- The merge guard tests the **source** cell's flag, not the target's.
- A slide into an empty cell does not carry the flag. So the line `[2, 2, _, 4]` (in key order) ends as `[8, _, _, _]`. A tile can therefore take part in two merges in one move.
- An empty cell slid into an empty cell can change `doubleNumber` to `Num(0)`. This happens when the receiving cell's cache was still `''`. The fingerprint can then differ although no number moved (`Lines.EmptyLineTouchesCache`).
- The fingerprint covers the whole Cell, `doubleNumber` included.
- `double()` copies the cache `doubleNumber` into `value` instead of computing `2 × value`. The two agree on every consistent cell (`Cells.Doubled`).

Differences from classic 2048:

- **Which flag the merge checks.** Classic 2048 lets a tile merge only if it has not merged yet in this move. The code checks the flag of the moving (source) cell, not of the cell it merges into (game-engine.js:189).
- **One merge per tile per move.** Classic 2048 merges each tile at most once per move. Here that does not hold: `Lines.SlidMergeMergesAgain` shows a line where a merged tile slides on and merges again.

Main results:

- `Moves.EndGameLookahead`: on a full grid whose flags are clear (as `print` leaves every grid), the lookahead keeps the grid full exactly when no two orthogonal neighbours are equal. In that case the lookahead changes nothing.
  - So `GameEngine.ArrowKeyPress` reports game over exactly in that situation.
  - Either way it leaves the grid as it was printed.
- Moves keep the sum of all numbers and never add a number (`Moves.MoveConserves`).
- Seeding adds exactly one 2 (`GameEngines.SeedAddsTwo`).

## Model

| member | source | states |
|---|---|---|
| Cells.Created | bin/game-engine/cell/cell.js:2-9 | a new cell holds the given value, is unmerged and has a consistent cache; `new Cell()` is empty with an empty cache |
| Cells.Cleared | bin/game-engine/cell/cell.js:14-16 | reset clears the flag and keeps value and cache |
| Cells.Doubled | bin/game-engine/cell/cell.js:21-25 | double sets the flag; on a consistent numbered cell the value becomes twice the old value and the cache stays consistent |
| Cells.Emptied | bin/game-engine/cell/cell.js:46-50 | emptyCell leaves an empty, unmerged cell |
| Cells.Assigned | bin/game-engine/cell/cell.js:56-59 | setValue stores v, keeps the flag, makes the cache consistent; setValue('') leaves cache 0 |
| Cells.OnlyDoubleMarks | bin/game-engine/cell/cell.js:14-59 | from an unmerged cell only double raises the flag; reset, emptyCell and setValue leave it clear |
| Cells.Twice | bin/game-engine/cell/cell.js:56-59 | `v * 2` as the cells compute it: always an even number whose half is v, and 0 for `''` |
| Cells.Cell.constructor | bin/game-engine/cell/cell.js:2-9 | the fields are those of Created(v); a blank cell is empty and unmerged |
| Cells.Cell.Reset | bin/game-engine/cell/cell.js:14-16 | the new fields are Cleared of the old ones |
| Cells.Cell.Double | bin/game-engine/cell/cell.js:21-25 | the new fields are Doubled of the old ones |
| Cells.Cell.CanBeModified | bin/game-engine/cell/cell.js:31-33 | the result is exactly `!modified` |
| Cells.Cell.IsEmpty | bin/game-engine/cell/cell.js:39-41 | the result holds exactly when the value is the empty sentinel |
| Cells.Cell.EmptyCell | bin/game-engine/cell/cell.js:46-50 | the new fields are Emptied of the old ones |
| Cells.Cell.SetValue | bin/game-engine/cell/cell.js:56-59 | the new fields are Assigned(old, v) |
| Cells.Cell.GetValue | bin/game-engine/cell/cell.js:65-67 | returns the stored value |
| Lines.Step | bin/game-engine/game-engine.js:184-193 | one push changes only cells i and i + 1, and either leaves the line as it was or empties cell i |
| Lines.Slide | bin/game-engine/game-engine.js:178-195 | after k pushes the cells past index k are as they were |
| Lines.Seek | bin/game-engine/game-engine.js:214-235 | the search either changes nothing or fills cell i; no other cell before i + c changes |
| Lines.Fill | bin/game-engine/game-engine.js:210-236 | one pass of removeEmptyCells either changes nothing or fills the empty cell i; the cells before i are as they were |
| Lines.Compact | bin/game-engine/game-engine.js:207-237 | the line keeps its length; its contents are stated by Lines.CompactSettles and Lines.CompactPacks |
| Lines.ProcessLine | bin/game-engine/game-engine.js:177-198 | the line keeps its length; its contents are stated by Lines.ProcessLineConserves, Lines.StuckLineUnchanged, Lines.PairedLineFreesCell and Lines.GapSurvives |
| Lines.StepConserves | bin/game-engine/game-engine.js:184-193 | one push keeps caches consistent and the line's sum, and lowers the number of filled cells by one exactly when it merges |
| Lines.MergeEffect | bin/game-engine/game-engine.js:189-192 | a push from a merged source cell onto a filled cell leaves the line as it was; a merge doubles the successor, raises its flag and empties the source |
| Lines.SlideConserves | bin/game-engine/game-engine.js:178-195 | the slide/merge loop keeps the sum and never adds a filled cell |
| Lines.SeekConserves | bin/game-engine/game-engine.js:212-235 | the search loop of removeEmptyCells keeps the sum and the number of filled cells |
| Lines.CompactConserves | bin/game-engine/game-engine.js:206-238 | removeEmptyCells keeps the sum and the number of filled cells |
| Lines.ProcessLineConserves | bin/game-engine/game-engine.js:177-199 | a whole line keeps the sum and never gains a filled cell |
| Lines.CompactSettles | bin/game-engine/game-engine.js:206-238 | after k steps the numbers keep their order and no blank below k precedes a number |
| Lines.CompactPacks | bin/game-engine/game-engine.js:206-238 | after removeEmptyCells the line holds its numbers, in their original order, followed by blanks |
| Lines.StuckLineUnchanged | bin/game-engine/game-engine.js:173-238 | a full line without equal neighbours is left exactly as it is, whatever its flags |
| Lines.PairedLineFreesCell | bin/game-engine/game-engine.js:184-193 | a full, unmerged line with two equal neighbours ends with an empty cell |
| Lines.GapSurvives | bin/game-engine/game-engine.js:173-238 | a line with an empty cell still has one after processing |
| Lines.TwoPairsMergeSeparately | bin/game-engine/game-engine.js:173-238 | [2,2,4,4] gives [4,8,_,_] |
| Lines.FourTwosMakeTwoFours | bin/game-engine/game-engine.js:173-238 | [2,2,2,2] gives [4,4,_,_] |
| Lines.SlidMergeMergesAgain | bin/game-engine/game-engine.js:185-192 | [2,2,_,4] gives [8,_,_,_]: a merged tile that slides loses its flag and merges again |
| Lines.EmptyLineTouchesCache | bin/game-engine/game-engine.js:185-188 | an all-empty line keeps its values but its last cache becomes 0 |
| Grids.ResetAll | bin/game-engine/matrix/matrix.js:114-117 | every flag is cleared, the keys, values and caches are kept |
| Grids.WriteAt | bin/game-engine/game-engine.js:177-199 | writing a line back puts each processed cell at its key and leaves every other key alone |
| Ranges.Run | bin/game-engine/game-engine.js:121-135 | the run from a to b has one entry more than the distance from a to b; its ends and steps are stated by Ranges.RunIsInclusive |
| Ranges.Rows | bin/game-engine/game-engine.js:140-156 | one row per y when horizontal, per x otherwise, each holding one key per x (per y) |
| Ranges.RunIsInclusive | bin/game-engine/game-engine.js:121-135 | convertRange runs from range[0] to range[1] inclusive, one step at a time, downwards when range[0] > range[1] |
| Ranges.ConvertRange | bin/game-engine/game-engine.js:121-135 | the loops build exactly that run |
| Ranges.CollectKeys | bin/game-engine/game-engine.js:140-156 | the nested loops collect the keys row by row: y outer when horizontal, x outer otherwise |
| Ranges.SplitLines | bin/game-engine/game-engine.js:158-164 | the chunk loop cuts the keys into consecutive slices of gameSize |
| Ranges.GetRangeArray | bin/game-engine/game-engine.js:119-165 | the method returns the lines RangeArray describes |
| Ranges.ChunksAreSlices | bin/game-engine/game-engine.js:158-164 | every chunk's keys come from the list, and a list without repeats gives chunks without repeats |
| Ranges.Arguments | bin/game-engine/game-engine.js:47-70 | the lines are horizontal exactly for left and right, the range across the lines is always (n − 1, 0), and for n > 1 the range along the lines is (0, n − 1) exactly for left and up |
| Ranges.ChunksOfFlatten | bin/game-engine/game-engine.js:158-164 | cutting rows of length n back into chunks of n gives the rows |
| Ranges.ArgumentLines | bin/game-engine/game-engine.js:47-70 | the left, right, up and down arguments give the lines of the four directions |
| Ranges.DirectionShape | bin/game-engine/game-engine.js:119-165 | each direction yields n lines of n keys, key j of line i being Point(d, n, i, j) |
| Ranges.DirectionCovers | bin/game-engine/game-engine.js:119-165 | the lines of each direction contain every grid coordinate exactly once; horizontal lines share a y, vertical lines share an x |
| Ranges.RangeLines | bin/game-engine/game-engine.js:119-165 | for ranges inside the grid every line is a list of distinct grid keys |
| Ranges.KeyOrderCovers | bin/game-engine/matrix/matrix.js:18-22 | the key enumeration KeyOrder (x outer, y inner, the order of the constructor's loops), over which GridTotal and GridOccupied sum the grid, lists each grid coordinate exactly once |
| Moves.ApplyLine | bin/game-engine/game-engine.js:177-199 | processing one keySet keeps the grid's keys; its effect is stated by Moves.ApplyLineEffect |
| Moves.ApplyLines | bin/game-engine/game-engine.js:177-199 | processing the keySets in order keeps the grid's keys; frame and independence are stated by Moves.ApplyLinesFrame and Moves.ApplyLinesApart |
| Moves.Trial | bin/game-engine/game-engine.js:97-100 | one trial move keeps the grid's keys; its effect is stated by Moves.TrialMove |
| Moves.Lookahead | bin/game-engine/game-engine.js:92-100 | the four trial moves, down, up, right, left, keep the grid's keys; their effect is stated by Moves.EndGameLookahead |
| Moves.ApplyLineEffect | bin/game-engine/game-engine.js:177-199 | one keySet changes only cells on that line, which then hold ProcessLine of what they held; the grid stays well formed |
| Moves.ApplyLinesFrame | bin/game-engine/game-engine.js:177-199 | a key on none of the lines keeps its cell |
| Moves.ApplyLinesApart | bin/game-engine/game-engine.js:177-199 | lines without common keys are processed independently |
| Moves.ApplyLinesConserves | bin/game-engine/game-engine.js:173-200 | processCells keeps the grid's sum and never adds a number |
| Moves.GapPersists | bin/game-engine/game-engine.js:173-200 | a grid with an empty cell still has one after processing |
| Moves.StuckOrGap | bin/game-engine/game-engine.js:173-200 | on a full unmerged grid, lines without equal neighbours change nothing, and otherwise an empty cell appears |
| Moves.ColumnsStuck | bin/game-engine/game-engine.js:61-70 | the up and down lines have no equal neighbours exactly when no two vertical neighbours are equal |
| Moves.RowsStuck | bin/game-engine/game-engine.js:47-56 | the left and right lines have no equal neighbours exactly when no two horizontal neighbours are equal |
| Moves.TrialMove | bin/game-engine/game-engine.js:97-100 | each trial move keeps the grid well formed and keeps a gap; on a full grid with every flag clear it leaves a stuck grid unchanged and frees a cell otherwise |
| Moves.EndGameLookahead | bin/game-engine/game-engine.js:92-110 | on a full grid with clear flags, the four trial moves keep it full exactly when no two neighbours are equal, and then change nothing |
| Moves.MoveByLines | bin/game-engine/game-engine.js:173-200 | a direction's move leaves line i holding ProcessLine of line i before, and keeps the sum |
| Moves.MoveConserves | bin/game-engine/game-engine.js:173-200 | for any ranges in the grid the lines fit, the grid stays well formed, the sum is kept and no number is added |
| Matrices.Seeded | bin/game-engine/matrix/matrix.js:96-105 | what addRandomCell may leave keeps the grid's keys and every filled cell |
| Matrices.Matrix.constructor | bin/game-engine/matrix/matrix.js:14-24 | one cell for every (x, y) with 0 <= x, y < n; for n > 0 exactly one holds 2 and every other is a fresh empty cell |
| Matrices.Matrix.CopyMatrix | bin/game-engine/matrix/matrix.js:26-28 | the snapshot equals the grid |
| Matrices.Matrix.RestoreMatrix | bin/game-engine/matrix/matrix.js:30-32 | the grid equals the snapshot, so a restore after a copy yields the copied grid |
| Matrices.Matrix.IsFull | bin/game-engine/matrix/matrix.js:34-39 | the result holds exactly when no cell is empty |
| Matrices.Matrix.GetCell | bin/game-engine/matrix/matrix.js:47-49 | returns the cell at (x, y), absent off the grid |
| Matrices.Matrix.GetCellKey | bin/game-engine/matrix/matrix.js:56-61 | returns the cell for a present key and null for a missing key or the null key |
| Matrices.Matrix.HasChanged | bin/game-engine/matrix/matrix.js:67-75 | reports whether the grid differs from the fingerprint and records the grid's fingerprint |
| Matrices.Matrix.GetMaxValue | bin/game-engine/matrix/matrix.js:81-89 | the result is at least every number on the grid and is one of them, or 0 |
| Matrices.Matrix.AddRandomCell | bin/game-engine/matrix/matrix.js:94-109 | unchanged grid: nothing happens; otherwise one empty cell becomes 2 if there is one, the rest is untouched, and the fingerprint is updated |
| Matrices.Matrix.ResetCells | bin/game-engine/matrix/matrix.js:114-119 | the grid becomes ResetAll of itself and the fingerprint is recorded |
| Matrices.Matrix.ConvertToArray | bin/game-engine/matrix/matrix.js:125-136 | n rows of n entries, entry [y][x] being the value of cell (x, y) |
| GameEngines.Turn | bin/game-engine/game-engine.js:80-82 | a turn keeps the moved grid's keys and leaves every flag clear |
| GameEngines.SeedAddsTwo | bin/game-engine/matrix/matrix.js:94-109 | seeding a grid with an empty cell keeps it well formed, adds 2 to its sum and one filled cell |
| GameEngines.IdleTurn | bin/game-engine/game-engine.js:79-82 | on a printed grid whose move gives it back, the turn seeds nothing and leaves exactly that grid |
| GameEngines.EndGameVerdict | bin/game-engine/game-engine.js:84-89 | on a full printed grid isEndGame's answer means no equal neighbours, and the grid ends as printed |
| GameEngines.GameEngine.constructor | bin/game-engine/game-engine.js:16-26 | a valid engine whose grid has exactly one 2, clear flags, its fingerprint recorded and an empty snapshot |
| GameEngines.GameEngine.Restart | bin/game-engine/game-engine.js:39-42 | a fresh Matrix, with one 2, clear flags and the fingerprint recorded |
| GameEngines.GameEngine.Print | bin/game-engine/game-engine.js:31-34 | the grid becomes ResetAll of itself and its fingerprint is recorded |
| GameEngines.GameEngine.RemoveEmptyCells | bin/game-engine/game-engine.js:206-238 | the line's cells become Compact of what they held; nothing else changes |
| GameEngines.GameEngine.ProcessKeySet | bin/game-engine/game-engine.js:177-199 | one keySet's loop and removeEmptyCells give ApplyLine of the old grid |
| GameEngines.GameEngine.ProcessCells | bin/game-engine/game-engine.js:173-200 | the grid becomes ApplyLines of the old grid over the getRangeArray lines and stays valid; the snapshot and the fingerprint are untouched |
| GameEngines.GameEngine.IsEndGame | bin/game-engine/game-engine.js:92-110 | the snapshot is the old grid; the answer is fullness after the lookahead; the grid is the lookahead when true, restored when false |
| GameEngines.GameEngine.CheckEndGame | bin/game-engine/game-engine.js:84-89 | on a printed grid the game is over exactly when it is full without equal neighbours, and the grid is unchanged |
| GameEngines.GameEngine.SeedAndPrint | bin/game-engine/game-engine.js:81-82 | the grid becomes a Turn of the moved grid, with every flag clear and its fingerprint recorded; the snapshot is untouched |
| GameEngines.GameEngine.ArrowKeyPress | bin/game-engine/game-engine.js:79-90 | the grid is the move, then the fingerprint-gated seed, then the flag reset; game over exactly when full without equal neighbours |
| GameEngines.GameEngine.PressLeft | bin/game-engine/game-engine.js:47-49 | a turn in which the move is the left trial move; the fingerprint records the new grid, every flag is clear, the snapshot is the grid when it is full and is kept otherwise, and game over holds exactly when the grid is full without equal neighbours |
| GameEngines.GameEngine.PressRight | bin/game-engine/game-engine.js:54-56 | a turn in which the move is the right trial move; the fingerprint records the new grid, every flag is clear, the snapshot is the grid when it is full and is kept otherwise, and game over holds exactly when the grid is full without equal neighbours |
| GameEngines.GameEngine.PressUp | bin/game-engine/game-engine.js:61-63 | a turn in which the move is the up trial move; the fingerprint records the new grid, every flag is clear, the snapshot is the grid when it is full and is kept otherwise, and game over holds exactly when the grid is full without equal neighbours |
| GameEngines.GameEngine.PressDown | bin/game-engine/game-engine.js:68-70 | a turn in which the move is the down trial move; the fingerprint records the new grid, every flag is clear, the snapshot is the grid when it is full and is kept otherwise, and game over holds exactly when the grid is full without equal neighbours |

## Left out

- The terminal writer (`bin/terminal-writer/terminal-writer.js`): console output and table rendering, pure I/O. It is not part of this model.
- The key handler (`bin/key-handler/key-handler.js`): stdin events and `process.exit`. It is not part of this model.
- The build configuration (`webpack.config.js`): it contains no logic. It is not part of this model.
- `setup` and `print`: only their effect on the grid is modelled.
  - `setup` wires the key handler and the writer. The engine's constructor keeps its call to `restart`, with `restart`'s body written out in place: it builds the one Matrix and then prints.
  - `print` draws the table; only its `resetCells` is modelled.
- `writeTable` and `writeEndOfGame`: rendering.
- `cellWidth`: it only affects rendering.
- The strings of `convertToArray`: `Cell` has no `toString`, so `cell.toString(this.cellWidth)` (matrix.js:131) falls back to `Object.prototype.toString` and gives `"[object Object]"` for every entry. The model returns the cells' raw values in the same shape instead.
- `Math.random`: the model makes a free choice among the empty cells, with no distribution.
- `object-hash`: it is modelled as equality of the whole grid, so hash collisions are not modelled.
- Cells as shared objects: the grid holds cell records, not `Cell` objects, so aliasing between cells is not modelled. `Cells.Cell` models one object on its own.
- `"x:y"` keys: they are coordinate pairs, and the string building is left out.
- GameEngines.GameEngine.constructor: requires `gameSize >= 1`. The source fixes `gameSize = 4` (game-engine.js:8), so the model is more general than the source here, not narrower. A size of 0 would not hang `setup` (game-engine.js:16-26), which never calls `getRangeArray`. It would hang the first arrow key: the chunk loop at game-engine.js:160 then adds 0 on every pass and never ends.
- GameEngines.GameEngine.ProcessCells: requires both ranges to lie inside the grid. The source calls it only with the four direction arguments, which do. With a key off the grid, `getCellKey` returns null and the source throws.
- GameEngines.GameEngine.RemoveEmptyCells: requires every key of the line to be in the grid and no key to repeat. Every line `getRangeArray` builds from in-grid ranges satisfies both (`Ranges.RangeLines`). For a missing key the source throws on `cell.isEmpty()`.
- GameEngines.GameEngine.ProcessKeySet: the same requirement, for the same reason.
- GameEngines.GameEngine.CheckEndGame: requires the flags to be clear. `print` has just cleared them at the one point where `arrowKeyPress` runs this test.
- Lines.Compact: its contract states only that the length is kept. Lines.CompactSettles and Lines.CompactPacks state the contents. A small contract keeps the proofs that unfold the function cheap.
- Lines.ProcessLine: its contract states only that the length is kept, for the same reason. The lemmas named in its row state the contents.
- Moves.ApplyLine: its contract states only that the keys are kept, for the same reason. Moves.ApplyLineEffect states the cells.
- Moves.ApplyLines: its contract states only that the keys are kept, for the same reason. Moves.ApplyLinesFrame and Moves.ApplyLinesApart state the cells.
- Moves.Trial: its contract states only that the keys are kept, for the same reason. Moves.TrialMove states the cells.
- Moves.Lookahead: its contract states only that the keys are kept, for the same reason. Moves.EndGameLookahead states the cells.
- Ranges.Chunks: it carries no contract of its own, for the same reason. Ranges.ChunksOfFlatten, Ranges.ChunksAreSlices and Ranges.SplitLines state what it computes.
- Ranges.RangeArray: it carries no contract of its own, for the same reason. Ranges.GetRangeArray, Ranges.DirectionShape and Ranges.RangeLines state what it computes.
- Matrices.Matrix.GetMaxValue: the order of the key loop is a free choice. The result does not depend on it.
