# Nonogram constraint-propagation solver, in Dafny

This project models the solver core of the Nonogram project, in both of its versions:

- `Nonogram/Solver.py`, the current solver for rectangular puzzles;
- `nonogram.py`, the older solver for square `N` by `N` puzzles.

Both solve a puzzle the same way.

1. **Naming.** Each line's clue list becomes a label sequence (`cell_naming`):
   - every cell of a run gets its own positive label;
   - every gap gets a negative label, written twice.
2. **Successor maps.** The label sequence becomes a successor map and a predecessor map (`immediate_successors`).
3. **Candidate sets.** Every cell of a line starts with the full set of labels. A forward pass and a backward pass over the reversed view (`solver_pass`, `RowReversedView`) cut each cell down to the labels that may follow its neighbour. They repeat until the line stops changing (`one_step`).
4. **Rounds.** A round runs `one_step` on every row, then on every column (`multi_step`). It then copies filled and blank decisions between the row copy and the column copy of each cell (`transpose_check`). Rounds repeat until the rows stop changing or a round cap is hit (`solve`: 300 rounds in `Solver.py`, 100 in `nonogram.py`).
5. **Search.** `check_uniqueness` and `uniquisation` judge the rendering of the solved puzzle. `full_solve` combines them with `fill`. `row_to_clues` and `check_if_correct` read clues back off a {-1, 0, 1} matrix. `brutforce_unique` tries every combination of cells.

Modules, in dependency order:

| file | module | what it holds |
|---|---|---|
| `wrappers.dfy` | `Wrappers` | `Option` and `Result`, for `None` returns and raised exceptions |
| `naming.dfy` | `Encoding` | `cell_naming`: the function `Naming`, the generator as method `CellNaming`, and its shape lemmas |
| `successors.dfy` | `Transitions` | `immediate_successors`: the function `Successors`, the loop `ImmediateSuccessors`, and the predecessor map as the converse relation |
| `cells.dfy` | `Cells` | `isCellFilled`, `isCellBlank`, `cell_to_str`, and the matrix sign of a cell |
| `propagation.dfy` | `Propagation` | `solver_pass` as the function `Pass`; a direction flag for `RowReversedView`; `one_step` as the fixpoint `Settle` |
| `line.dfy` | `Line` | class `Row`: an `array<set<int>>` of cells that the pass narrows in place |
| `grid.dfy` | `Grid` | the board as values: `multi_step`, `transpose_check`, `solve`, `fill`/`unfill`, and the rendering |
| `clues.dfy` | `Clues` | `checkifcorrect`, `row_to_clues` (function and loop), matrices and `check_if_correct` |
| `walks.dfy` | `Walks` | the round trip between a ±1 line and a label placement of its clues that both passes admit |
| `puzzle.dfy` | `Puzzle` | what `check_uniqueness` and `uniquisation` decide, and what their answers imply about label placements |
| `pictures.dfy` | `Pictures` | pictures accepted by `check_if_correct` and label placements of the whole board are the same thing; the uniqueness results restated for pictures |
| `engine.dfy` | `Engine` | class `Nonogram` (both versions, told apart by a `version` constant); the search functions as methods |
| `bruteforce.dfy` | `Bruteforce` | `brutforce_unique` as written, the reading its docstring gives, and the cases where they differ |

**How the class is modelled.** The class `Nonogram` keeps its rows and columns as `Row` objects. Every `Row` holds an array of cells of its own. Every method is proved against a value-level function of `Grid` or `Puzzle` on the board those arrays hold. The properties are proved about those functions.

**What the properties cover:**
- Cells only shrink.
- A pass is idempotent.
- `one_step` stops at a fixpoint, with the total number of candidate labels as the termination measure.
- `solve` keeps the cap on rounds.
- No propagation step ever loses a label placement that is consistent with the clues (soundness).
- The solved matrix therefore agrees with every solution.
- A label placement is a picture in disguise. Every ±1 line with clues `c` is the sign line of a label walk of `cell_naming(c)` that both passes admit. Conversely, the sign line of every such walk reads back as `c` through `row_to_clues`. Lifted to the board, the pictures that `check_if_correct` accepts and the placements of the clues correspond.
- So a solved rendering without `'/'` admits at most one picture, and it is the rendering. The same holds after forcing `uniquisation`'s cell, for pictures that fill that cell.

## Model

| member | source | states |
|---|---|---|
| `Encoding.CellNaming` | Nonogram/Solver.py:48-60 | The generator yields the label sequence `Naming(clues)`. Its length is 2·(number of clues + 1) plus the sum of the run lengths. |
| `Encoding.EmitRun` | Nonogram/Solver.py:55-57 | The inner loop appends the consecutive labels `it, it+1, …` of one run and advances the counter by the run length. A negative clue emits nothing. |
| `Encoding.NamingLength` | Nonogram/Solver.py:48-60 | The naming has 2·(len(clues)+1) + Σ clues labels. |
| `Encoding.NamingBounds` | Nonogram/Solver.py:48-60 | Every label is non-zero and at most the final counter in absolute value. Only the closing pair reaches the final counter. |
| `Encoding.NamingEnds` | Nonogram/Solver.py:13-16 | The naming begins with the doubled gap label -1 and ends with the doubled closing gap label. |
| `Encoding.NamingSteps` | Nonogram/Solver.py:13-22 | Between neighbours, a gap label repeats, or the absolute value grows by exactly one. So a run's labels are consecutive integers. |
| `Encoding.NamingTwins` | Nonogram/Solver.py:21-22 | Every gap label stands next to its twin. |
| `Encoding.NamingIncreasing` | Nonogram/Solver.py:13-22 | Labels grow strictly in absolute value along the sequence, except for the doubling of a gap. So labels are unique apart from the doubled gaps. |
| `Encoding.NamingPositiveCount` | Nonogram/Solver.py:13-14 | The positive labels are exactly one per run cell, Σ clues of them. |
| `Encoding.NamingOneTwo` | Nonogram/Solver.py:42-43 | Doctest: `[1, 2]` names `[-1,-1,2,-3,-3,4,5,-6,-6]`. |
| `Encoding.NamingOneTwoThree` | nonogram.py:41-42 | Doctest: `[1, 2, 3]` names `[-1,-1,2,-3,-3,4,5,-6,-6,7,8,9,-10,-10]`. |
| `Encoding.NamingThreeOne` | Solver_test.py:8-9 | The naming of the test's clue list `[3, 1]`. |
| `Transitions.SuccessorsCharacterization` | Nonogram/Solver.py:100-108 | The map's keys are exactly the labels that have a next element. `x` is a successor of `l` exactly when `x` immediately follows `l` somewhere in the sequence. |
| `Transitions.ImmediateSuccessors` | Nonogram/Solver.py:100-108 | The loop, with `predecessor_name` carried over, builds that map. `x ∈ result[l]` iff `x` immediately follows `l`. |
| `Transitions.Reverse` | Nonogram/Solver.py:128 | `reversed(naming)` holds the same elements in the opposite order. |
| `Transitions.PredecessorsConverse` | Nonogram/Solver.py:128 | The map built from the reversed naming is the converse relation: `x` precedes `l` exactly when `l` follows `x`. |
| `Transitions.LastLabelSelfLoop` | Nonogram/Solver.py:100-108 | In every naming, the closing gap label is followed only by itself. |
| `Transitions.FirstLabelSuccessors` | Nonogram/Solver.py:79-82 | For a non-empty clue list, the opening gap label is followed exactly by itself and by the label after its twin, which is the first cell of the first run when that run is not empty. |
| `Transitions.SuccessorsOneTwo` | Nonogram/Solver.py:92-94 | Doctest: the successor map of `cell_naming([1, 2])`. |
| `Transitions.SuccessorsOneTwoThree` | nonogram.py:90-93 | Doctest: the successor map of `cell_naming([1, 2, 3])`. |
| `Transitions.SuccessorsThreeOne` | Solver_test.py:15-17 | Unit test: the successor map of `cell_naming([3, 1])`. |
| `Cells.CellToStr` | Nonogram/Solver.py:198-203 | A cell renders as one of `'#'`, `' '`, `'/'`. |
| `Cells.CellToStrMeaning` | Nonogram/Solver.py:190-203 | Three iff statements: `'#'` iff every label is positive (so an empty cell is `'#'`). `' '` iff some label is present and all are negative. `'/'` iff there is a non-positive and a non-negative label. |
| `Cells.CellToStrExamples` | Solver_test.py:19-22 | Unit test: the positive, negative and mixed cells render as `'#'`, `' '` and `'/'`. |
| `Cells.EmptyCell` | Nonogram/Solver.py:190-195 | A cell with no label left renders `'#'`, while its matrix entry `filled - blank` is 0. |
| `Cells.Render` | Nonogram/Solver.py:132-133 | `Row.__str__` has one character per cell, the cell's rendering. |
| `Cells.Sign` | Nonogram/Solver.py:341-344 | The matrix entry: 1 iff the cell is non-empty and renders `'#'`; -1 iff it renders `' '`; 0 iff it is empty or renders `'/'`. |
| `Cells.Positives` | Nonogram/Solver.py:378 | Keeps exactly the positive labels of the cell, so the result is filled. |
| `Cells.Negatives` | Nonogram/Solver.py:385 | Keeps exactly the negative labels of the cell, so the result is blank. |
| `Cells.ShrinkKeepsDecision` | Nonogram/Solver.py:190-203 | Narrowing a cell never undoes a decision. A `'#'` stays `'#'`. A `' '` stays `' '` unless the cell empties. A `'/'` after narrowing was `'/'` before. |
| `Propagation.Pass` | Nonogram/Solver.py:178-187 | A pass keeps the line's length, and every cell only loses labels. |
| `Propagation.PassNarrows` | Nonogram/Solver.py:178-187 | After a pass, each cell is its old value intersected with the successors of the already narrowed cell before it. The first cell uses `first`. |
| `Propagation.PassIdempotent` | Nonogram/Solver.py:178-187 | A second pass changes nothing. |
| `Propagation.PassKeepsWalks` | Nonogram/Solver.py:178-187 | A pass never removes a label that a label walk allowed by the successor map uses. |
| `Propagation.Directed` | Nonogram/Solver.py:206-221 | A pass in either direction keeps the length and only narrows. Backward means reversed cells, seeded with `last`, using `predecessors`. |
| `Propagation.DirectedIdempotent` | Nonogram/Solver.py:141-145 | A forward or a backward pass repeated changes nothing. |
| `Propagation.DirectedKeepsWalks` | Nonogram/Solver.py:206-221 | Neither direction removes a label of a placement that both maps admit. |
| `Propagation.Round` | Nonogram/Solver.py:283-284 | A forward and a backward pass only narrow cells. |
| `Propagation.TotalShrinks` | Nonogram/Solver.py:281-284 | Narrowing lowers the number of candidate labels, strictly unless nothing changed. This is what makes `one_step`'s loop terminate. |
| `Propagation.Settle` | Nonogram/Solver.py:279-284 | `one_step` ends with every cell within its old value. |
| `Propagation.SettleFixpoint` | Nonogram/Solver.py:279-284 | What `one_step` leaves is stable: another forward and backward round changes nothing. |
| `Propagation.SettleKeepsWalks` | Nonogram/Solver.py:279-284 | `one_step` never removes a label of a placement the line admits. |
| `Line.Row.constructor` | Nonogram/Solver.py:123-130 | Makes `width` cells, each equal to the full label set. The successor map of the naming, the map of the reversed naming, and `{naming[0]}`/`{naming[-1]}` form the row's shape. |
| `Line.Row.ToString` | Nonogram/Solver.py:132-133 | One character per cell: `cell_to_str` of that cell. |
| `Line.Row.SolverPass` | Nonogram/Solver.py:178-187 | The in-place loop over the row, or over its reversed view, leaves exactly the cells of a directed pass. |
| `Line.Row.PassInView` | Nonogram/Solver.py:180-187 | Walking the view from the seed along the map leaves the view equal to `Pass` of the old view. |
| `Line.Row.NarrowCell` | Nonogram/Solver.py:181-187 | One loop step narrows the next cell in view order to its place in the pass and hands it on as `predecessor_cell`. |
| `Line.Row.ForwardSolver` | Nonogram/Solver.py:141-142 | The cells become the forward pass seeded with `first` along `successors`. |
| `Line.Row.BackwardSolver` | Nonogram/Solver.py:144-145 | The cells become the reversal of a pass over the reversed cells, seeded with `last`, along `predecessors`. |
| `Line.LabelsOneOne` | Nonogram/Solver.py:120-121 | Doctest: each cell of `Row(3, [1, 1])` starts as `{-5,-3,-1,2,4}`. |
| `Line.ForwardPassFourTwo` | Nonogram/Solver.py:173-176 | Doctest: `Row(4, [2])` after a forward pass. |
| `Line.ForwardPassThreeOneOne` | nonogram.py:164-167 | Doctest: `Row(3, [1, 1])` after a forward pass. |
| `Grid.Sync` | Nonogram/Solver.py:299-306 | A filled source cell restricts the target to run labels. A blank one restricts it to gap labels. An undetermined one leaves it unchanged. The target never gains a label. |
| `Grid.SyncColsAsRows` | Nonogram/Solver.py:297-316 | `transpose_check`'s first loop, rows into columns, is its second loop with rows and columns swapped. |
| `Grid.MultiStepShrinks` | Nonogram/Solver.py:286-290 | `multi_step` keeps the board rectangular and only narrows cells. |
| `Grid.TransposeCheckShrinks` | Nonogram/Solver.py:292-316 | `transpose_check` keeps the board rectangular and only narrows cells. |
| `Grid.StepShrinks` | Nonogram/Solver.py:336-337 | A round of `solve` keeps the board rectangular and only narrows cells. |
| `Grid.FlattenInjective` | Nonogram/Solver.py:328-330 | Comparing the row cells one after another detects any change to any row. |
| `Grid.SolvingBounds` | Nonogram/Solver.py:331-334 | The loop from counter `i` runs at most `cap` rounds in all. |
| `Grid.SolvingStop` | Nonogram/Solver.py:331 | Below the cap, the loop stops only when the row cells equal the previous snapshot. |
| `Grid.SolveRuns` | Nonogram/Solver.py:326-331 | On a board with a cell, the empty initial snapshot differs from the rows, so at least one round runs. |
| `Grid.SolveBounds` | Nonogram/Solver.py:331-334 | `solve` runs at most the cap's rounds and keeps the board fitting its lines. |
| `Grid.SolveLastRound` | Nonogram/Solver.py:331-340 | The result is the last round applied to the board it started from, or the board itself when no round ran. |
| `Grid.SolveEarlyStop` | Nonogram/Solver.py:331-340 | Stopping before the cap means the last round left every row cell as it was, or that the board has no cell. |
| `Grid.SignMatrix` | Nonogram/Solver.py:341-344 | The matrix has the rows' shape and entries in {-1, 0, 1}. |
| `Grid.MultiStepKeepsPlacement` | Nonogram/Solver.py:286-290 | `multi_step` keeps every placement consistent with the clues. |
| `Grid.TransposeCheckKeepsPlacement` | Nonogram/Solver.py:292-316 | `transpose_check` keeps every placement consistent with the clues. |
| `Grid.StepKeepsPlacement` | Nonogram/Solver.py:336-337 | A round keeps every placement. |
| `Grid.SolveKeepsPlacement` | Nonogram/Solver.py:318-344 | Soundness: `solve` loses no placement of the starting board, whatever the cap. |
| `Grid.SolvedMatrixAgrees` | Nonogram/Solver.py:341-344 | Entry 1 of the solved matrix means every placement fills the cell; -1 means every placement leaves it blank. |
| `Grid.PyIndex` | Nonogram/Solver.py:377 | A Python index in `-n..n-1` lands inside the list; a negative one counts from the end. |
| `Grid.ForceOneCell` | Nonogram/Solver.py:373-385 | `fill`/`unfill` changes only the named row cell, decides it, and keeps its labels of the right sign. The columns are untouched. |
| `Grid.ForceFits` | Nonogram/Solver.py:373-385 | Forcing keeps the board's shape. |
| `Grid.ForceKeepsPlacement` | Nonogram/Solver.py:373-385 | A placement survives `fill` iff it fills that cell, and survives `unfill` iff it leaves it blank. |
| `Grid.PictureHas` | Nonogram/Solver.py:407-409 | A character occurs in the joined rendering iff some cell renders as it. |
| `Clues.Validate` | Nonogram/Solver.py:249-273 | Accepts iff the totals agree, every line fits with one blank between runs, and no clue list is empty or negative. The first failing check, in the source's order, names the error. |
| `Clues.RowToClues` | Nonogram/Solver.py:505-520 | The loop with `U`, `j` and `running` computes `RowClues`, the run lengths of the 1s, or `[0]` when there is none. |
| `Clues.RunsPositive` | Nonogram/Solver.py:508-517 | Every run read off a line is at least one cell long. |
| `Clues.RowCluesOfDraw` | Nonogram/Solver.py:497-520 | Round trip: a ±1 line drawn from positive clues with proper gaps reads back as those clues. The blank line reads back as `[0]`. |
| `Clues.RowCluesExample` | Nonogram/Solver.py:501-503 | Doctest: the 23-cell line reads `[2, 1, 6, 1]`. |
| `Clues.RowCluesTest` | Solver_test.py:27-31 | The unit test: the 12-cell line reads `[2, 1, 3]` and ten blanks read `[0]`. |
| `Clues.RunsCount` | Nonogram/Solver.py:505-517 | The runs count every 1 of the line, and they fit in the line with a blank between them. |
| `Clues.RowCluesFit` | Nonogram/Solver.py:497-520 | Clues read off a line sum to its 1s, need no more room than the line, and are non-empty and non-negative. |
| `Clues.Transpose` | Nonogram/Solver.py:349-350 | `.T` swaps indices: `t[c][r] == m[r][c]`. |
| `Clues.TransposeTwice` | Nonogram/Solver.py:349-350 | Transposing twice gives the matrix back. |
| `Clues.MatchesTranspose` | Nonogram/Solver.py:346-351 | `check_if_correct` is symmetric: a matrix matches rows/columns iff its transpose matches columns/rows. |
| `Clues.ClueTotalOfMatrix` | Nonogram/Solver.py:540 | The clue total read off a matrix is its number of 1s, the number of cells to fill. |
| `Clues.MatrixOnesTranspose` | Nonogram/Solver.py:256-258 | Counting 1s by rows or by columns gives the same number, so clues read off a picture have equal totals. |
| `Clues.PictureCluesValid` | Nonogram/Solver.py:491-494 | Clues read off a non-empty picture always pass `checkifcorrect` for its size. |
| `Walks.RowCluesCanonical` | Nonogram/Solver.py:505-520 | Clues read off any line are `[0]` or a list of positive run lengths. |
| `Walks.WalkChain` | Nonogram/Solver.py:100-108 | A non-empty label walk admits both passes exactly when, framed by the naming's first and last labels, each label is followed by a label that follows it somewhere in the naming. |
| `Walks.WalkReadsNaming` | Nonogram/Solver.py:48-60 | Every non-empty walk that both passes admit shows, by sign, the same runs as the naming itself. |
| `Walks.NamingShows` | Nonogram/Solver.py:13-16 | The naming of positive clues, read by sign, has exactly those clues as its runs, and ends in a gap. |
| `Walks.NamingReadsBack` | Nonogram/Solver.py:497-520 | `row_to_clues` of the naming's sign line gives back any clue list that is `[0]` or positive. |
| `Walks.LineOfWalk` | Nonogram/Solver.py:497-520 | One half of the round trip: the sign line of any walk that both passes admit, on a line with room for the clues, reads back as the clues. |
| `Walks.LineDrawn` | Nonogram/Solver.py:505-520 | Every ±1 line is drawn from its own runs with proper gaps. |
| `Walks.PlacedShows` | Nonogram/Solver.py:13-16 | The labels laid out from clues and gaps (runs counted on from the naming, gap cells carrying the gap label) show by sign the line drawn from them. |
| `Walks.PlacedChain` | Nonogram/Solver.py:48-60 | With proper gaps, that layout framed by the naming's first and last labels steps only between neighbours of the naming. |
| `Walks.WalkOfLine` | Nonogram/Solver.py:9-60 | The other half: every ±1 line with clues `c` is the sign line of a walk of labels of `cell_naming(c)` that both passes admit. |
| `Puzzle.Start` | Nonogram/Solver.py:244-245 | A fresh puzzle has `|cols|` full cells per row clue and `|rows|` full cells per column clue. |
| `Puzzle.AnswerUnique` | Nonogram/Solver.py:413-444 | `uniquisation` has exactly one answer per puzzle. |
| `Puzzle.DeterminedCell` | Nonogram/Solver.py:407-408 | On a rendering without `'/'`, a cell's character says the sign of every label left in it. |
| `Puzzle.DeterminedMeansUnique` | Nonogram/Solver.py:392-398 | When the solved rendering has no `'/'`, every placement of the clues fills exactly the cells rendered `'#'`. |
| `Puzzle.PlacementsAgree` | Nonogram/Solver.py:392-398 | Under the same condition, any two label placements (walks of every row and column) fill the same cells. `Pictures.PicturesAgree` carries this over to pictures. |
| `Puzzle.ForcingMeansUnique` | Nonogram/Solver.py:414-416 | After forcing `uniquisation`'s cell and solving again, every placement that fills that cell fills exactly the cells rendered `'#'`. |
| `Pictures.PictureSolution` | Nonogram/Solver.py:346-351 | Every ±1 picture that `check_if_correct` accepts is a placement of the clues on the fresh board, whose row and column walks have the picture's rows and columns as sign lines. |
| `Pictures.SolutionPicture` | Nonogram/Solver.py:346-351 | Conversely, for clues that pass `checkifcorrect`, the sign lines of a placement's row walks form a picture that `check_if_correct` accepts, and its columns are the column walks' sign lines. |
| `Pictures.DeterminedPicture` | Nonogram/Solver.py:392-409 | When the solved rendering has no `'/'`, every picture of the puzzle is filled exactly where the rendering shows `'#'`. |
| `Pictures.PicturesAgree` | Nonogram/Solver.py:392-409 | Under the same condition, two pictures of the puzzle are equal: the picture is unique. |
| `Pictures.ForcingPicture` | Nonogram/Solver.py:438-442 | After forcing a forcing cell and solving again, every picture that fills that cell is filled exactly where the rendering shows `'#'`. |
| `Pictures.ForcedPicturesAgree` | Nonogram/Solver.py:438-442 | Two pictures that fill a forcing cell are equal. |
| `Pictures.SolvedMatrixShows` | Nonogram/Solver.py:341-344 | Every entry 1 or -1 of the matrix `solve` leaves is that entry of every picture of the puzzle. |
| `Engine.MakeGrid` | Nonogram/Solver.py:244-245 | Builds a fresh `Row` per clue list. Each array is distinct from every other, and each line starts full. |
| `Engine.CopyLine` | Nonogram/Solver.py:298-306 | One row of the first `transpose_check` loop synchronises cell `r` of each crossing line with that row's cell. |
| `Engine.CopyDecisions` | Nonogram/Solver.py:307-316 | One loop of `transpose_check` leaves the target lines equal to `SyncRows` of the old contents. |
| `Engine.Nonogram.constructor` | Nonogram/Solver.py:230-247 | Valid clues give width `len(Columns)`, height `len(Rows)`, full lines, `pair = (-1, -1)` and `np.zeros((N, M))`. |
| `Engine.Nonogram.OfSize` | nonogram.py:221-236 | Valid clues for size `N` give `N`-cell rows and columns, full lines, and no matrix yet. |
| `Engine.Nonogram.OneStep` | Nonogram/Solver.py:279-284 | The line's cells become `Settle` of the old cells. |
| `Engine.Nonogram.MultiStep` | Nonogram/Solver.py:286-290 | The board becomes `multi_step` of the old board. |
| `Engine.Nonogram.RowsToCols` | Nonogram/Solver.py:297-306 | The columns are synchronised with the rows; the rows are unchanged. |
| `Engine.Nonogram.ColsToRows` | Nonogram/Solver.py:307-316 | The rows are synchronised with the updated columns; the columns are unchanged. |
| `Engine.Nonogram.TransposeCheck` | Nonogram/Solver.py:292-316 | The board becomes `transpose_check` of the old board. |
| `Engine.Nonogram.Representation` | Nonogram/Solver.py:407 | The joined rendering of the rows. |
| `Engine.Nonogram.SolveRound` | Nonogram/Solver.py:335-344 | One round applies `multi_step` and `transpose_check`. Solver.py also re-takes the matrix; nonogram.py keeps it. |
| `Engine.Nonogram.Solve` | Nonogram/Solver.py:318-344 | The board becomes `solve`'s result under the version's cap. The matrix is the sign matrix if a round ran (Solver.py), otherwise unchanged. |
| `Engine.Nonogram.Fill` | Nonogram/Solver.py:373-378 | The named row cell keeps only its run labels; nothing else changes. |
| `Engine.Nonogram.Unfill` | Nonogram/Solver.py:380-385 | The named row cell keeps only its gap labels; nothing else changes. |
| `Engine.Nonogram.FullSolve` | Nonogram/Solver.py:354-371 | `pair` is `uniquisation`'s answer. The board is solved from the start, or from the start with `pair` forced (Python indexing for `(-1, -1)`). The matrix is the sign matrix of the result. |
| `Engine.Nonogram.Uniqueness` | Nonogram/Solver.py:361 | `check_uniqueness` on the puzzle's own clues decides whether the solved rendering is decided; the puzzle is left alone. |
| `Engine.Nonogram.Unique` | Nonogram/Solver.py:365 | `uniquisation` on the puzzle's own clues gives its unique answer; the puzzle is left alone. |
| `Engine.Nonogram.FullSolveOfSize` | nonogram.py:319-331 | The square version forces `uniquisation`'s cell only when the puzzle is not determined. It fails exactly when that search finds none. Otherwise the result is the solved board and its sign matrix. |
| `Engine.Nonogram.UniquenessOfSize` | nonogram.py:325 | The square version's check is only that the solved rendering has no `'/'`. |
| `Engine.Nonogram.UniqueOfSize` | nonogram.py:328 | The square version's search gives the first forcing cell, or nothing. |
| `Engine.Nonogram.SolveForced` | Nonogram/Solver.py:366-371 | `fill(i, j)` then `solve`, then the sign matrix. |
| `Engine.Nonogram.FillAndSolve` | Nonogram/Solver.py:438-442 | Forcing `(i, j)` and solving again leaves the forced board solved, and reports whether its rendering is decided. |
| `Engine.Nonogram.CheckIfCorrect` | Nonogram/Solver.py:346-351 | A non-empty matrix that passes has clues that `checkifcorrect` accepts for its size. |
| `Engine.Create` | Nonogram/Solver.py:230-247 | Raises (`Err`) exactly when `checkifcorrect` fails, with its error. Otherwise it is a fresh puzzle on the starting board. |
| `Engine.CreateOfSize` | nonogram.py:221-236 | The same for the square version with a single `N`. |
| `Engine.SolvedRendering` | Nonogram/Solver.py:405-407 | Building and solving a puzzle renders the outcome of `solve` on its starting board. |
| `Engine.CheckUniqueness` | Nonogram/Solver.py:392-409 | Invalid clues raise. Otherwise the result says whether the solved rendering has no `'/'`, some `' '` and some `'#'`. |
| `Engine.CheckUniquenessOfSize` | nonogram.py:351-358 | Invalid clues raise. Otherwise the result says whether the solved rendering has no `'/'`. |
| `Engine.TryCell` | Nonogram/Solver.py:432-443 | One pass of the loops: whether forcing `(i, j)` on the solved puzzle and solving again gives a decided rendering. The bare `next` skips nothing. |
| `Engine.FirstForcingCell` | Nonogram/Solver.py:430-444 | The row-major scan returns the first forcing cell, or none when no cell is forcing. |
| `Engine.Uniquisation` | Nonogram/Solver.py:413-444 | Invalid clues raise. A decided puzzle gives `(-1, -1)`. Otherwise the result is the first forcing cell, or `(-1, -1)`. |
| `Engine.UniquisationOfSize` | nonogram.py:360-374 | `N = 0` gives nothing. Invalid clues raise. Otherwise the result is the first forcing cell, or nothing. |
| `Bruteforce.CombinationsAre` | Nonogram/Solver.py:541-543 | The combinations are exactly the `k`-element subsets of `range(n)`. |
| `Bruteforce.BrutforceUnique` | Nonogram/Solver.py:539-553 | The result is `Found`: the loop as written. |
| `Bruteforce.TryAll` | Nonogram/Solver.py:544-553 | Over all combinations, in any order: `IndexError` if one goes off the grid, otherwise those whose matrix passes. |
| `Bruteforce.TryCombination` | Nonogram/Solver.py:545-551 | One combination raises iff one of its numbers is sent off the grid. Otherwise the answer is whether its matrix passes `check_if_correct`. |
| `Bruteforce.FillCombination` | Nonogram/Solver.py:546-550 | Filling every number's cell succeeds iff none is off the grid. The matrix is then the one rebuilt after the last fill. |
| `Bruteforce.FillNumber` | Nonogram/Solver.py:547-550 | One number is filled iff its swapped cell is on the grid. The rows and the matrix then include it. |
| `Bruteforce.SolutionsSound` | Nonogram/Solver.py:534-537 | Every combination of the docstring's reading is the number set of a ±1 picture with the puzzle's clues. |
| `Bruteforce.SolutionsComplete` | Nonogram/Solver.py:534-537 | Every ±1 picture with the puzzle's clues appears, as the numbers `r·width + c` of its filled cells. |
| `Bruteforce.IntendedUnique` | Nonogram/Solver.py:524-553 | The loop as its docstring reads it returns exactly `Solutions`: the combinations whose picture has the puzzle's clues. |
| `Bruteforce.IntendedAll` | Nonogram/Solver.py:544-553 | The outer loop keeps exactly the combinations whose picture passes `check_if_correct`. |
| `Bruteforce.TryIntended` | Nonogram/Solver.py:545-551 | For one combination, the fresh puzzle with every numbered cell filled passes `check_if_correct` iff the combination's picture matches the clues. |
| `Bruteforce.FillIntended` | Nonogram/Solver.py:546-547 | Filling every number's cell, row `x / width` and column `x % width`, leaves exactly those cells narrowed to their run labels. |
| `Bruteforce.SquareNeverRaises` | Nonogram/Solver.py:547 | On a square grid the loop as written never raises. |
| `Bruteforce.NonSquareRaises` | Nonogram/Solver.py:547 | On a grid that is not square, the loop as written raises `IndexError` whenever some cell is to be filled. |
| `Bruteforce.SwapCounterexample` | Nonogram/Solver.py:547 | Rows `[[2],[0]]`, columns `[[1],[1]]`: as written the loop reports `{0,2}` and not `{0,1}`; the docstring's reading gives the opposite. |
| `Bruteforce.EmptyCounterexample` | Nonogram/Solver.py:545-551 | Rows `[[0]]`, columns `[[0],[0]]`: as written nothing is found; the docstring's reading finds the empty combination. |

## Left out

- The `@timeout(...)` decorators depend on wall-clock time and signals. The decorated functions are modelled without a deadline.
- `import_from_file` and `import_picture` are not modelled: they read files and images (`literal_eval`, PIL). `PictureCluesValid` states what the clues of any ±1 picture satisfy.
- The script at the end of `nonogram.py` is not modelled: it reads a file at import time.
- `show_me`, the `print` calls in `checkifcorrect`, and `nonogram_to_GUI` are not modelled: they only print or return fields.
- The GUI files are not modelled. They are tkinter code.
- numpy arrays are modelled as sequences of sequences of integers. The float entries of `np.zeros` are modelled as the integer 0.
- `details_str` is not modelled. The change detector of `one_step` is equality of the cell sequence instead.
- `solve` compares snapshots of `str(cell)`. It is modelled as equality of the flattened row cells. This assumes Python prints equal sets alike and different sets differently.
- `nonogram.py`'s `unfill` is not modelled. It uses the undefined names `RowNumber` and `ColNumber`, so every call raises `NameError`.
- Engine.Nonogram.Fill: requires indices Python accepts. The `IndexError` raised for others is not modelled.
- Engine.Nonogram.Unfill: requires indices Python accepts. The `IndexError` raised for others is not modelled.
- Engine.Nonogram.Solve: for the square version, requires `N` row clues and `N` column clues. `nonogram.py`'s `transpose_check` indexes the crossing line only for a decided cell (nonogram.py:283-298). It raises `IndexError` once it meets a decided cell whose crossing line is missing. Otherwise the source returns normally: with `N = 4`, rows `[[1], [1], [1], [1]]` and columns `[[2], [1], [1]]`, no cell is ever decided. With `N = 0`, the rows have no cells and `solve` runs no round. The model excludes all these inputs. The file format read by `import_from_file` (nonogram.py:382-384) rules them out.
- Engine.Nonogram.FullSolveOfSize: requires `N` row clues and `N` column clues, as `Engine.Nonogram.Solve` does, for the same reason.
- Engine.CheckUniquenessOfSize: requires `N` row clues and `N` column clues, as `Engine.Nonogram.Solve` does. On the excluded inputs the source either raises `IndexError` or returns normally. It returns False for the `N = 4` example above, and True for `N = 0`.
- Engine.UniquisationOfSize: requires `N` row clues and `N` column clues, as `Engine.Nonogram.Solve` does. On the excluded inputs the source either raises `IndexError` or returns normally. In the `N = 4` example above, forcing cell (0, 0) decides row 0's cell 3, whose column is missing, so it raises. For `N = 0` it returns None.
- Engine.Nonogram.CheckIfCorrect: requires a rectangular matrix. Every matrix the class stores is rectangular.
- Pictures.SolutionPicture: requires every clue list to be `[0]` or all positive. `checkifcorrect` also accepts a list such as `[1, 0, 1]`. Its placements show the runs `[1, 1]`, so no picture has those clues.
- `brutforce_unique` returns a list of tuples. The model returns the set of combinations, each as a set of numbers. Python's `set` gives the combinations in no order the result can rely on.
- `int(x / width)` is modelled as integer division. The two agree for the non-negative numbers the loop uses.
- The `test_fill` unit test is not modelled: it passes a string as an index, which has no counterpart in the model.
- Some doctests that run the whole solver on concrete puzzles are not proved:
  - `check_uniqueness([[2],[1]],[[1],[2]])`;
  - `uniquisation([[1],[1]],[[1],[1]])`;
  - `brutforce_unique(nonogram([[1],[1]],[[1],[1]]))`.

  Their value would follow from unfolding `solve` on literal sets, which the verifier does not do within its limits.

## Findings

| source | as written | input that shows it | evidently intended | confidence | as-written member | corrected member |
|---|---|---|---|---|---|---|
| Nonogram/Solver.py:547 | `fill(x % width, x / width)` passes the column number as the row and the row number as the column. A non-square grid raises `IndexError`, and a square one tries the transposed picture. | rows `[[2],[0]]`, columns `[[1],[1]]`: the only solution fills cells 0 and 1 (the top row), but `{0, 1}` is rejected and `{0, 2}` is reported | number `x` names row `x / width`, column `x % width`, as the docstring says (lines 534-537) | not executed | `Bruteforce.Found`, `Bruteforce.SwapCounterexample` | `Bruteforce.IntendedUnique`, `Bruteforce.SolutionsComplete` |
| Nonogram/Solver.py:545-551 | The matrix is rebuilt only inside the loop over the combination's numbers. The empty combination is then checked against the constructor's `np.zeros((N, M))`. That matrix has the picture's shape transposed, and its entries are 0, not -1. | rows `[[0]]`, columns `[[0],[0]]`: the blank picture is the only solution, but nothing is reported | the empty combination is checked as the all-blank picture | not executed | `Bruteforce.Tried`, `Bruteforce.EmptyCounterexample` | `Bruteforce.IntendedUnique`, `Bruteforce.SolutionsSound` |
