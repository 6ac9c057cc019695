# sudokusolver in Dafny

A model of the solving engine of the Python package `sudokusolver`. It covers the class
`SudokuSolver` in `sudokusolver/sudokusolver.py` and the helpers it uses from
`sudokusolver/utils.py`, with proofs about the model.

A board is a 9x9 grid of cells. Each cell is a placed `int` (`Fixed(v)`) or a Python list of
remaining candidates (`Open(cands)`). The candidates are a sequence, not a set:
- `list.remove` drops only the first occurrence;
- `_check` picks a unique digit in first-appearance order;
- `yield_possibility` tries candidates in list order.

The in-place routines work on an `array2<Cell>`. Each is proved equal to a function on the
grid value (`Contents(b)`), and the properties are proved about those functions.

| file | module | what it holds |
|---|---|---|
| `board.dfy` | `Board` | cells, grids, unit positions (rows, columns, blocks), the narrowing order and the termination measure `Potential` |
| `utils.dfy` | `Utils` | `assert_correct_format`, `first`, `flatten`, and `yield_possibility` (an in-place method) |
| `units.dfy` | `Units` | `_filter` and `_check` on one unit, each with a reference meaning proved equal to it |
| `passes.dfy` | `Passes` | the drivers over rows, columns and blocks; `_complete`; one round; `base_routine`; `is_solved`; `_tolists`; the search of `_solve` on values |
| `solver.dfy` | `SudokuSolver` | the methods that mutate the array, proved against the functions above; `_solve` both as written and as intended; `solve` |

The source has two defects (see Findings):
- `_yield_blocks` only ever yields the three diagonal blocks.
- `_solve` raises after its loop even when a guess succeeded.

Each defect is modelled as written, next to a corrected version. A `Layout` value (`AsWritten` or
`Intended`) selects the block extraction. `SudokuSolver.Solve` is `solve` as written.
`SudokuSolver.SolveCorrected` uses the nine real blocks and the intended search.

The model follows the code, which does less than a sudoku solver might be expected to:
- `assert_correct_format` accepts any `int`, such as 0 or 10, and not only 1..9 (`Utils.AnyIntAccepted`).
- `is_solved` only checks that every cell is an `int`. A board that breaks the rules counts as solved (`Passes.SolvedIgnoresRules`). So a board whose 81 givens repeat a digit is returned, not rejected.
- `_solve` as written never returns a board that needs a guess. That includes the all-`None` board (`Passes.BlankNotSolvedAsWritten`).
- Candidates are ordered lists rather than sets.
- `_complete` walks `range(9)` x `range(9)` whatever the grid's size and stops at its first missing position with `IndexError`, unless an empty list comes earlier in row-major order, which gives `UnsolvableSudoku` (`Passes.CompleteShortGrid`, `Passes.CompleteEmptyListFirst`).

How the source's runtime effects are represented:
- Exceptions are values: `Status` (`Ok` or `Raised(error)`) for the in-place routines, `Option` for `first` and for the search on values, `Outcome` for `_solve` and `solve`.
- `copy.deepcopy` is a fresh array holding the same value.
- `!=` on boards is value inequality.
- The generator `yield_possibility` returns its boards as a sequence.

## Model

| member | source | states |
|---|---|---|
| Utils.AssertCorrectFormat | sudokusolver/utils.py:7-19 | accepts (None) exactly the inputs with 9 rows of 9 elements that are each an int or None; reports the row count exactly when there are not 9 rows |
| Utils.RowsFormatReason | sudokusolver/utils.py:12-19 | the per-row loop accepts exactly when every row has 9 elements, none of them other than int or None; it never reports the row count |
| Utils.AnyIntAccepted | sudokusolver/utils.py:16-19 | replacing any element of an accepted input by any int at all keeps it accepted: the check is on the type only |
| Utils.First | sudokusolver/utils.py:22-41 | None (StopIteration) exactly when no element satisfies the condition; otherwise an element that satisfies it, with no element before it that does |
| Utils.Flatten | sudokusolver/utils.py:44-45 | `flatten`: the sublists concatenated in order (its meaning is stated by `FlattenLength`, `FlattenAppend` and `FlattenRows9`) |
| Utils.FlattenLength | sudokusolver/utils.py:44-45 | the flattened list is as long as the sum of the sublist lengths |
| Utils.FlattenAppend | sudokusolver/utils.py:44-45 | flattening a concatenation is the concatenation of the flattenings |
| Utils.FlattenRows9 | sudokusolver/utils.py:44-45 | with rows of nine, flat index 9r + c holds row r, column c |
| Utils.FlatIndex | sudokusolver/utils.py:50-58 | flat index k of a 9x9 board is the cell at row k // 9, column k % 9 |
| Utils.FirstOpen | sudokusolver/utils.py:50-54 | the index where the `enumerate` loop breaks: it holds a list, and no index before it does |
| Utils.FirstOpenIs | sudokusolver/utils.py:50-54 | a list index with no list before it is that first index |
| Utils.FlatFirstOpen | sudokusolver/utils.py:50-54 | the first list in the flattened board is the board's first list cell in row-major order |
| Utils.Guesses | sudokusolver/utils.py:55-60 | one board per candidate of the chosen cell |
| Utils.CopyWith | sudokusolver/utils.py:57-58 | a fresh array of the same size holding the board with the one cell set, other cells unchanged |
| Utils.MakeGuesses | sudokusolver/utils.py:55-60 | as many fresh, pairwise distinct boards as the cell has candidates; board j is the input with the cell set to candidate j |
| Utils.FindOpen | sudokusolver/utils.py:50-54 | the loop over the flattened board stops at the first list in row-major order |
| Utils.YieldPossibility | sudokusolver/utils.py:48-60 | requires a list cell (otherwise `possibilities` is unbound); picks the first one at flat index i (row i // 9, column i % 9); returns one fresh deep copy per candidate, in list order, with that cell fixed to the candidate; the input board is not modified |
| Board.BlockUnitAsWritten | sudokusolver/sudokusolver.py:35-40 | the block that `_yield_blocks` yields for (i, j) as written: the diagonal block (i, i), whatever j is |
| Board.BlockUnits | sudokusolver/sudokusolver.py:33-40 | the nine blocks the loop over `i, j in range(3)` yields, in that order: the as-written slices or the nine 3x3 blocks, by layout (its properties are `Passes.BlockUnitsFit` and `Passes.ApplyBlocksAsWritten`/`ApplyBlocksIntended`) |
| Board.NarrowsKeepsFixed | sudokusolver/sudokusolver.py:103-118 | a cell that narrows an int is that same int: no pass ever changes a placed digit |
| Board.PotentialNarrows | sudokusolver/sudokusolver.py:109-118 | narrowing a board never raises its potential, and a board that changed has strictly lower potential, so the loop of `base_routine` ends |
| Board.PotentialSetCell | sudokusolver/utils.py:57-58 | setting one cell changes the potential by the difference of the two cells' weights |
| Units.IntsOf | sudokusolver/sudokusolver.py:45 | x is among the unit's ints exactly when some cell of the unit is the int x |
| Units.RemoveFirst | sudokusolver/sudokusolver.py:49-52 | an absent value leaves the list as it is (the caught ValueError); a present one removes exactly one occurrence |
| Units.RemoveEach | sudokusolver/sudokusolver.py:48-52 | the list only loses elements, and it is shorter whenever it changed |
| Units.Keep | sudokusolver/sudokusolver.py:45-52 | reference meaning of elimination: exactly the candidates not among the ints |
| Units.RemoveFirstKeep | sudokusolver/sudokusolver.py:49-52 | on a list without repeats, `remove(x)` is removing every x |
| Units.RemoveEachKeep | sudokusolver/sudokusolver.py:48-52 | on a list without repeats, removing each int in turn keeps, in order, exactly the candidates equal to no int |
| Units.KeepTwice | sudokusolver/sudokusolver.py:48-52 | eliminating a, then b, is eliminating a + b |
| Units.KeepNoDup | sudokusolver/sudokusolver.py:48-52 | elimination keeps a list free of repeats |
| Units.FilterUnit | sudokusolver/sudokusolver.py:43-52 | `_filter` on one unit: the value of every int cell is removed, in turn, from each list of the unit; the unit keeps its length (its meaning is `FilterUnitMeaning`, `FilterUnitEliminates`, `FilterUnitNarrows`, `FilterUnitIdempotent`) |
| Units.FilterUnitMeaning | sudokusolver/sudokusolver.py:43-52 | `_filter` on a unit whose lists have no repeats: ints are untouched, and each list becomes its candidates that equal no int of the unit, in their order |
| Units.FilterUnitEliminates | sudokusolver/sudokusolver.py:43-52 | on a unit whose lists have no repeats, afterwards no list of the unit holds the value of an int cell of the unit |
| Units.FilterUnitNarrows | sudokusolver/sudokusolver.py:43-52 | on any unit, every cell narrows, lists stay lists, and ints stay as they are |
| Units.FilterUnitNoDup | sudokusolver/sudokusolver.py:43-52 | `_filter` keeps lists free of repeats |
| Units.FilterUnitIdempotent | sudokusolver/sudokusolver.py:43-52 | on a unit whose lists have no repeats, a second `_filter` of the same unit changes nothing |
| Units.OpenIndices | sudokusolver/sudokusolver.py:75 | the positions of the list cells, in increasing order: exactly the cells that are lists |
| Units.Count | sudokusolver/sudokusolver.py:77 | a digit is counted at least once exactly when it occurs |
| Units.UniquesOf | sudokusolver/sudokusolver.py:77 | the digits kept are exactly those of the part that occur once in the whole flattened list |
| Units.FirstIn | sudokusolver/sudokusolver.py:78-82 | the first unique value that a list holds, or None when it holds none of them |
| Units.CellFoldOpen | sudokusolver/sudokusolver.py:78-82 | with values taken in order and without repeats, a list becomes the singleton of the first value it holds, and later values leave it alone |
| Units.FirstUniqueIn | sudokusolver/sudokusolver.py:77-82 | the digit chosen for a list is its own candidate and occurs exactly once among the unit's lists |
| Units.FirstUniqueAround | sudokusolver/sudokusolver.py:76-82 | for a list lying in the middle of the flattened unit, the first of the flattened unit's unique digits that the list holds is the first of its own candidates that occurs once in the whole |
| Units.CheckUnit | sudokusolver/sudokusolver.py:73-82 | `_check` on one unit: each digit that occurs once among the lists, in first-appearance order, turns every list holding it into its singleton; the unit keeps its length (its meaning is `CheckUnitMeaning`, `CheckUnitNarrows`) |
| Units.CheckUnitMeaning | sudokusolver/sudokusolver.py:73-82 | `_check` cell by cell: ints untouched; a list holding digits that occur once among the unit's lists becomes the singleton of the first of them; other lists untouched |
| Units.CheckUnitNarrows | sudokusolver/sudokusolver.py:73-82 | on any unit, every cell narrows, lists stay lists, and ints stay as they are |
| Units.CheckUnitNoDup | sudokusolver/sudokusolver.py:73-82 | `_check` keeps lists free of repeats |
| Units.OneDoubleListFilter | sudokusolver/sudokusolver.py:43-52 | a unit of ints none equal to v plus at most one list `[v, v]` is left as it is by `_filter` |
| Units.OneDoubleListCheck | sudokusolver/sudokusolver.py:73-82 | the same unit is left as it is by `_check`: v occurs twice among its lists, so no digit is unique |
| Units.FilterPair | sudokusolver/sudokusolver.py:45-52 | `_filter` of an int v and a list keeps the int and removes one occurrence of v from the list, or nothing when v is absent |
| Units.FilterRepeatSurvives | sudokusolver/sudokusolver.py:48-52 | with a repeated candidate only its first copy goes: `_filter` of `v, [v, v]` leaves `[v]`, still holding the int's value, and `v, [v, v, v]` needs a second `_filter` to reach `[v]` |
| Units.PairUnitFilter | sudokusolver/sudokusolver.py:43-52 | a unit of ints other than a and b and lists `[a, b]` is left as it is by `_filter` |
| Units.PairUnitCheck | sudokusolver/sudokusolver.py:73-82 | such a unit with lists `[a, b]` at its first two places, or no lists, is left as it is by `_check`: a and b each occur twice |
| Units.SingletonListsCheck | sudokusolver/sudokusolver.py:73-82 | `_check` leaves a unit whose lists are all `[b]` as it is |
| Units.FilterAB | sudokusolver/sudokusolver.py:43-52 | in a unit of ints other than b and lists `[a, b]` or `[b]`, `_filter` turns every list into `[b]` when the unit holds the int a, and changes nothing otherwise |
| Passes.ApplyUnits | sudokusolver/sudokusolver.py:55-100 | the body shared by the six drivers: the rule applied to each unit in turn, each unit read from the grid as the earlier units left it; the grid keeps its shape (its meaning is `ApplyRows`, `ApplyCols`, `ApplyBlockList`) |
| Passes.ApplyUnitsNarrows | sudokusolver/sudokusolver.py:55-70 | a driver applying a narrowing rule to any list of units only narrows the grid |
| Passes.ApplyRows | sudokusolver/sudokusolver.py:55-58 | `_filterrows` and `_checkrows` on any rectangular grid: cell (i, j) ends as position j of the rule applied to row i |
| Passes.ApplyCols | sudokusolver/sudokusolver.py:61-64 | `_filtercols` and `_checkcols` on any rectangular grid; the `zip(*sudoku)` tuples alias the cells, so cell (i, j) ends as position i of the rule applied to column j |
| Passes.ApplyBlockList | sudokusolver/sudokusolver.py:67-70 | applying a rule to a list of blocks leaves each cell as the rule iterated once for each time its block occurs in the list |
| Passes.ApplyBlocksAsWritten | sudokusolver/sudokusolver.py:33-40 | with `_yield_blocks` as written, cells off the diagonal blocks are untouched, and each diagonal block gets the rule three times in a row |
| Passes.ApplyBlocksIntended | sudokusolver/sudokusolver.py:33-40 | with the nine 3x3 blocks, each cell ends as its place in the rule applied once to its own block |
| Passes.BlockUnitsFit | sudokusolver/sudokusolver.py:33-40 | the nine blocks of either layout lie on a 9x9 grid, and no block names a position twice |
| Passes.BlockNoDup | sudokusolver/sudokusolver.py:37-40 | a block of a well-formed grid has lists without repeats |
| Passes.OffDiagonalAsWritten | sudokusolver/sudokusolver.py:37-40 | as written, `_filterblocks` leaves the cell at row 1, column 4 as it was |
| Passes.OffDiagonalIntended | sudokusolver/sudokusolver.py:37-40 | with the intended blocks, a digit at row 0, column 3 is removed from the list at row 1, column 4 |
| Passes.OffDiagonalBlockMissed | sudokusolver/sudokusolver.py:37-40 | for a digit x at row 0, column 3 that is a candidate at row 1, column 4: as written x survives there, as intended it is removed |
| Passes.CheckTwiceDiffers | sudokusolver/sudokusolver.py:73-82 | `_check` is not idempotent: on the unit `[a, b], [a, b, c]` one `_check` gives `[a, b], [c]` and three give `[a]` first, so the three copies of a diagonal block that `_yield_blocks` yields do more than one `_check` |
| Passes.RulesPreserve | sudokusolver/sudokusolver.py:43-82 | both rules keep a unit's length and only narrow its cells |
| Passes.RulesKeepNoDup | sudokusolver/sudokusolver.py:43-82 | both rules keep every list of a unit free of repeats |
| Passes.Propagate | sudokusolver/sudokusolver.py:112-117 | the six passes of a round in the source's order: filter rows, columns, blocks, then check rows, columns, blocks; a 9x9 board stays 9x9 (its properties are `PropagateNarrows` and `PropagateWf`) |
| Passes.PropagateWf | sudokusolver/sudokusolver.py:112-117 | the six passes keep every list a set of distinct digits 1..9 |
| Passes.CompleteWf | sudokusolver/sudokusolver.py:20-30 | `_complete` keeps every list a set of distinct digits 1..9 |
| Passes.PropagateNarrows | sudokusolver/sudokusolver.py:112-117 | the six passes of a round only narrow cells |
| Passes.CompleteSpec | sudokusolver/sudokusolver.py:20-30 | `_complete`: the walk of the 81 positions in row-major order collapses each singleton list and stops at the first missing position (IndexError) or empty list (UnsolvableSudoku); the shape is kept and no other exception is raised |
| Passes.FirstStop | sudokusolver/sudokusolver.py:22-30 | the step where the walk of `_complete` stops: none before it stops, and it stops there unless it ran through |
| Passes.CompleteMeaning | sudokusolver/sudokusolver.py:20-30 | on a 9x9 grid, `_complete` ends normally exactly when no cell is an empty list, and then every cell is collapsed; it can raise only UnsolvableSudoku |
| Passes.CompleteShortGrid | sudokusolver/sudokusolver.py:22-30 | on a grid of fewer than 9 rows, each at least 9 wide, with no empty list, `_complete` raises IndexError after collapsing every cell it visited |
| Passes.CompleteEmptyListFirst | sudokusolver/sudokusolver.py:22-30 | the 1x1 grid holding an empty list raises UnsolvableSudoku, not IndexError, and is left as it was: the empty list at the first step stops the walk before any missing position |
| Passes.CompleteNarrows | sudokusolver/sudokusolver.py:20-30 | `_complete` only narrows cells |
| Passes.Collapse | sudokusolver/sudokusolver.py:24-26 | the collapse of a cell narrows it |
| Passes.PassSpec | sudokusolver/sudokusolver.py:111-118 | one iteration of the `base_routine` loop: the six passes, then `_complete`; the board stays 9x9 (its properties are `PassNarrows`, `PassWf`) |
| Passes.PassNarrows | sudokusolver/sudokusolver.py:111-118 | one round only narrows cells, whether it raises or not |
| Passes.BaseRoutineSpec | sudokusolver/sudokusolver.py:103-118 | `base_routine`: rounds until one raises or changes nothing, ending with that round's board and status; the board stays 9x9 (its properties are the `BaseRoutine` lemmas below) |
| Passes.BaseRoutineStep | sudokusolver/sudokusolver.py:110-118 | a round that returns normally and changes the board has lower potential and hands `base_routine` on to its result |
| Passes.BaseRoutineRaisedRound | sudokusolver/sudokusolver.py:110-118 | a round that raises ends `base_routine` with that round's board and exception |
| Passes.BaseRoutineStableRound | sudokusolver/sudokusolver.py:110-118 | a round that changes nothing ends the loop normally |
| Passes.BaseRoutineNarrows | sudokusolver/sudokusolver.py:103-118 | `base_routine` never grows a list and never turns an int back into a list |
| Passes.BaseRoutineFixedPoint | sudokusolver/sudokusolver.py:109-118 | when it returns normally, one more round changes nothing and raises nothing |
| Passes.BaseRoutineIdempotent | sudokusolver/sudokusolver.py:103-118 | running `base_routine` again on its own result changes nothing |
| Passes.BaseRoutineRaises | sudokusolver/sudokusolver.py:103-118 | on a 9x9 board it can raise only UnsolvableSudoku |
| Passes.BaseRoutineWf | sudokusolver/sudokusolver.py:103-118 | a board whose lists hold distinct digits 1..9 keeps that property |
| Passes.DoubleListRound | sudokusolver/sudokusolver.py:111-118 | a board of ints none equal to v and at most one list `[v, v]` is a fixed point of a round, which raises nothing, for either layout |
| Passes.PassWf | sudokusolver/sudokusolver.py:111-118 | one round keeps every list a set of distinct digits 1..9 |
| Passes.IsSolved | sudokusolver/sudokusolver.py:121-124 | `is_solved`: every cell is an int (its meaning is `SolvedIffNoPotential` and `SolvedIgnoresRules`) |
| Passes.SolvedIffNoPotential | sudokusolver/sudokusolver.py:121-124 | `is_solved` holds exactly when the termination measure is zero |
| Passes.SolvedIgnoresRules | sudokusolver/sudokusolver.py:121-124 | the board of 81 ones counts as solved although its rows repeat a digit |
| Passes.ToLists | sudokusolver/sudokusolver.py:12-17 | the shape of the input is kept |
| Passes.ToListsMeaning | sudokusolver/sudokusolver.py:12-17 | a cell is a list exactly where the input held None, and then holds exactly the digits 1..9; every int is kept; the board is well formed; a correctly formatted input gives a 9x9 board |
| Passes.BlankIsFixedPoint | sudokusolver/sudokusolver.py:103-118 | the all-None board is a fixed point of a round and of `base_routine`, for either block layout, and is not solved |
| Passes.GuessNarrows | sudokusolver/utils.py:57-58 | fixing a list cell to one of its candidates narrows the board and lowers its potential |
| Passes.UnsolvedHasOpen | sudokusolver/sudokusolver.py:130-131 | a 9x9 board that is not solved has a list cell, as `yield_possibility` needs |
| Passes.GuessesSmaller | sudokusolver/utils.py:55-60 | every guess is a 9x9 board that narrows the board and has lower potential |
| Passes.FirstSome | sudokusolver/sudokusolver.py:131-136 | the result of the loop over outcomes: None exactly when every outcome is None; otherwise the first outcome that is not None |
| Passes.FirstSomeIndex | sudokusolver/sudokusolver.py:131-136 | a successful loop has a first successful guess, with only failures before it |
| Passes.FirstSomeAt | sudokusolver/sudokusolver.py:131-136 | a success after only failures is what the loop returns |
| Passes.FirstSomeStep | sudokusolver/sudokusolver.py:131-136 | one turn of the loop: a success ends it, a failure passes on to the rest |
| Passes.NextGuesses | sudokusolver/utils.py:48-60 | the boards `yield_possibility` makes from an unsolved board are 9x9, narrow it, and have lower potential |
| Passes.NextGuessesAt | sudokusolver/utils.py:50-58 | those are the guesses for the cell at the first list index |
| Passes.SearchIntended | sudokusolver/sudokusolver.py:127-139 | `_solve` as evidently intended, on values: `base_routine`, then the board if solved, otherwise the search over its guesses (its properties are `SearchIntendedCases` and `SearchIntendedSound`) |
| Passes.GuessSearch | sudokusolver/sudokusolver.py:131-137 | the intended guess loop: the first success among the searches from the guesses of `yield_possibility`, in order; None when all fail (its properties are `GuessSearchFails`, `GuessSearchSome`, `GuessSearchSound`) |
| Passes.SearchIntendedCases | sudokusolver/sudokusolver.py:127-139 | the intended `_solve` fails when `base_routine` raises, returns the propagated board when that is solved, and otherwise searches its guesses |
| Passes.GuessSearchFails | sudokusolver/sudokusolver.py:131-137 | the intended search from an unsolved board fails exactly when the search from every guess fails |
| Passes.GuessSearchNone | sudokusolver/sudokusolver.py:131-137 | a failed search means every guess failed |
| Passes.GuessSearchSome | sudokusolver/sudokusolver.py:131-136 | a successful search returns the result of one of its guesses |
| Passes.GuessSearchParts | sudokusolver/sudokusolver.py:131-136 | the guesses, the outcome of the search from each, and the first success among them are the search's result |
| Passes.OutcomesAt | sudokusolver/sudokusolver.py:131-136 | outcome l is the intended search from guess l |
| Passes.SearchIntendedSound | sudokusolver/sudokusolver.py:127-139 | every board the intended search returns is solved and narrows its argument |
| Passes.GuessSearchSound | sudokusolver/sudokusolver.py:131-136 | every board the guess loop returns is solved and narrows the board it branched from |
| Passes.SolvesAsWritten | sudokusolver/sudokusolver.py:127-139 | when `_solve` as written returns a board: exactly when `base_routine` returns normally with a solved board, since a board needing a guess always reaches the raise (stated for the method by `SudokuSolver.SolveAsWritten`) |
| Passes.AsWrittenAgreesWithIntended | sudokusolver/sudokusolver.py:127-139 | wherever `_solve` as written returns a board, the intended search returns the same board |
| Passes.BlankNotSolvedAsWritten | sudokusolver/sudokusolver.py:129-137 | `_solve` as written raises on the all-None board, for either block layout |
| Passes.GuessNeeded | sudokusolver/sudokusolver.py:127-139 | for a board whose only list is `[v, v]` at row 0, column 0 and whose ints are all other than v: `_solve` as written raises, while the intended search returns the board with v placed there |
| Passes.FourListRound | sudokusolver/sudokusolver.py:111-118 | the board with lists `[a, b]`, a != b, at rows 0-1, columns 0-1 and ints other than a and b elsewhere is a fixed point of a round, which raises nothing, for either layout |
| Passes.GuessPropagate | sudokusolver/sudokusolver.py:112-117 | after a is placed at row 0, column 0 of that board, the three `_filter` passes cut the other three corner lists to `[b]` and the three `_check` passes keep them, for either layout |
| Passes.GuessRound | sudokusolver/sudokusolver.py:111-118 | the round after that guess raises nothing and places b in the other three corner cells, leaving every other cell as it was |
| Passes.FourListGuessNeeded | sudokusolver/sudokusolver.py:127-139 | on that board, which repeats no candidate, `_solve` as written raises, while the intended search returns it with a at row 0, column 0 and b at the other three corner cells |
| Passes.SolutionKeepsGivens | sudokusolver/sudokusolver.py:176-180 | a solved board narrowing what `_tolists` made from a well-formed input keeps every given int and puts a digit 1..9 wherever the input had None |
| SudokuSolver.RemoveInts | sudokusolver/sudokusolver.py:48-52 | the loop of `remove` calls gives the elimination function |
| SudokuSolver.RemoveIntsAt | sudokusolver/sudokusolver.py:46-52 | the list cell becomes its filtered value, and no other cell changes |
| SudokuSolver.FilterUnitAt | sudokusolver/sudokusolver.py:43-52 | the board becomes the unit-rewrite of `_filter` on the unit |
| SudokuSolver.ApplyValueAt | sudokusolver/sudokusolver.py:79-82 | one unique value is applied to every list of the unit, and the rest of the board is unchanged |
| SudokuSolver.CheckUnitAt | sudokusolver/sudokusolver.py:73-82 | the board becomes the unit-rewrite of `_check` on the unit |
| SudokuSolver.FilterNext | sudokusolver/sudokusolver.py:57-58 | one turn of a `_filter` driver loop advances the fold by one unit |
| SudokuSolver.FilterEach | sudokusolver/sudokusolver.py:55-70 | a `_filter` driver loop gives the fold of the rule over the units |
| SudokuSolver.CheckNext | sudokusolver/sudokusolver.py:87-88 | one turn of a `_check` driver loop advances the fold by one unit |
| SudokuSolver.CheckEach | sudokusolver/sudokusolver.py:85-100 | a `_check` driver loop gives the fold of the rule over the units |
| SudokuSolver.FilterRows | sudokusolver/sudokusolver.py:55-58 | `_filterrows` on a board of any size is the fold over its rows |
| SudokuSolver.FilterCols | sudokusolver/sudokusolver.py:61-64 | `_filtercols` on a board of any size is the fold over its columns |
| SudokuSolver.FilterBlocks | sudokusolver/sudokusolver.py:67-70 | `_filterblocks` is the fold over the blocks of the layout |
| SudokuSolver.CheckRows | sudokusolver/sudokusolver.py:85-88 | `_checkrows` on a board of any size is the fold over its rows |
| SudokuSolver.CheckCols | sudokusolver/sudokusolver.py:91-94 | `_checkcols` on a board of any size is the fold over its columns |
| SudokuSolver.CheckBlocks | sudokusolver/sudokusolver.py:97-100 | `_checkblocks` is the fold over the blocks of the layout |
| SudokuSolver.CollapsedContents | sudokusolver/sudokusolver.py:22-26 | a board collapsed over the first n steps holds the grid collapsed below n |
| SudokuSolver.FirstStopIs | sudokusolver/sudokusolver.py:22-30 | a walk with no stop before n that stops at n stops first at n |
| SudokuSolver.StopsAt | sudokusolver/sudokusolver.py:22-24 | step 9i + j of the walk is row i, column j |
| SudokuSolver.CompleteRaisesAt | sudokusolver/sudokusolver.py:22-30 | the first stop raises IndexError for a missing row or column, UnsolvableSudoku for an empty list |
| SudokuSolver.CompleteCell | sudokusolver/sudokusolver.py:24-30 | one cell of the walk: reports an empty list and leaves the board, or collapses the cell |
| SudokuSolver.CompleteStep | sudokusolver/sudokusolver.py:22-30 | one step of the walk: a missing row or column raises IndexError and an empty list UnsolvableSudoku, each leaving the board as `_complete` leaves it; otherwise the cell is collapsed and the walk goes on |
| SudokuSolver.CompleteRow | sudokusolver/sudokusolver.py:23-30 | one row of the walk: done, or raised with the board as `_complete` leaves it |
| SudokuSolver.Complete | sudokusolver/sudokusolver.py:20-30 | `_complete` in place leaves the board and the exception that its grid function gives |
| SudokuSolver.Round | sudokusolver/sudokusolver.py:112-118 | one round of the loop body in place equals one round on values |
| SudokuSolver.BaseRoutine | sudokusolver/sudokusolver.py:103-118 | the snapshot loop in place equals `base_routine` on values |
| SudokuSolver.SolveAsWritten | sudokusolver/sudokusolver.py:127-139 | `_solve` as written returns a board exactly when `base_routine` alone solves it, and that board is the argument; otherwise it raises UnsolvableSudoku |
| SudokuSolver.TryGuessAsWritten | sudokusolver/sudokusolver.py:132-136 | a guess whose `_solve` comes back left its copy solved |
| SudokuSolver.TryGuessesAsWritten | sudokusolver/sudokusolver.py:130-137 | the as-written guess loop: one `_solve` per copy, stopping at the first that comes back; it has no postcondition, since the raise after it discards what it did (see Left out) |
| SudokuSolver.SolveIntended | sudokusolver/sudokusolver.py:127-139 | the corrected `_solve` returns a board exactly when the intended search succeeds, and that board is its result; on a board the source solves it returns the argument, as the source does |
| SudokuSolver.TryGuessesIntended | sudokusolver/sudokusolver.py:130-137 | the corrected guess loop returns the first success among the outcomes of the guesses, and raises UnsolvableSudoku when there is none |
| SudokuSolver.TryEachGuess | sudokusolver/sudokusolver.py:131-136 | the loop over the copies returns the first success among their outcomes |
| SudokuSolver.TryGuessNext | sudokusolver/sudokusolver.py:132-136 | `_solve` on copy k comes back exactly with the outcome of guess k |
| SudokuSolver.TryGuessIntended | sudokusolver/sudokusolver.py:132-136 | `try: _solve(copy)` gives the intended search from the copy |
| SudokuSolver.NewBoard | sudokusolver/sudokusolver.py:179 | a fresh 9x9 array holding the given board |
| SudokuSolver.Solve | sudokusolver/sudokusolver.py:141-180 | a malformed input fails with its format reason; otherwise a board comes back exactly when `base_routine` alone solves the `_tolists` board, and it holds the board `base_routine` left; any other failure is UnsolvableSudoku |
| SudokuSolver.SolveCorrected | sudokusolver/sudokusolver.py:141-180 | with both corrections, a board comes back exactly when the intended search succeeds; it is solved, keeps every given, and has a digit 1..9 wherever the input had None |

## Left out

- `print_sudoku` (sudokusolver/utils.py:63-76): text output only.
- The `__main__` block (sudokusolver/sudokusolver.py:183-186): it uses an undefined name.
- `setup.py`: packaging only.
- The `inplace` flag of `solve` (sudokusolver/sudokusolver.py:177-178): a shallow copy concerns object identity, not the result. `Solve` always works on a fresh board.
- The message texts of the exceptions are not modelled; only the exception kinds are.
- The laziness of the generator in `yield_possibility` is not modelled: all guess boards are made before the first is tried. Since each is a fresh copy, the result is the same.
- `Counter` iteration order is modelled as first-appearance order, the insertion order of the dict it builds.
- SudokuSolver.FilterBlocks: requires a 9x9 board. On smaller grids the slices of `_yield_blocks` give truncated blocks, which are not modelled. The same holds for `CheckBlocks`, `Round` and `BaseRoutine`.
- Units.FilterUnitMeaning, Units.FilterUnitEliminates, Units.FilterUnitIdempotent: stated for lists without repeats. This is what `_tolists` makes, and both rules keep it (`Passes.BaseRoutineWf`). On a list with repeats `remove` drops only the first copy; `RemoveFirst` models that and `Units.FilterRepeatSurvives` shows a value surviving, but no lemma characterises the result in general.
- SudokuSolver.TryGuessAsWritten: only states that a guess which comes back is solved. `_solve` as written discards that result and raises after the loop in every case, so `SolveAsWritten` does not depend on it.
- SudokuSolver.TryGuessesAsWritten: has no postcondition. Its effect on the outcome is nil because of the raise that follows it; `SolveAsWritten` states the overall result.
- Recursion limits and the stack depth of Python are not modelled; the search is proved to terminate by the potential measure.

## Findings

| source | as written | input that shows it | evidently intended | confidence | as-written member | corrected member |
|---|---|---|---|---|---|---|
| sudokusolver/sudokusolver.py:39-40 | the column slice of `_yield_blocks` uses `i`, so each diagonal block is yielded three times and the six off-diagonal blocks never | a board with a digit at row 0, column 3 and None at row 1, column 4: as written, `_filterblocks` leaves that digit a candidate at row 1, column 4 | slice the columns with `3 * j: 3 * j + 3`, giving the nine 3x3 blocks, each checked once: `_check` is not idempotent (`Passes.CheckTwiceDiffers`), and test_checkblocks (tests/sudokusolver.py:156-181) expects one `_check` per block, leaving the lists at row 0, column 2 and row 8, column 8 as they were | not executed | Passes.OffDiagonalAsWritten | Passes.OffDiagonalIntended |
| sudokusolver/sudokusolver.py:131-137 | `raise UnsolvableSudoku` follows the loop, so it runs even after `break`; a board that needs a guess always raises | the all-None board: `base_routine` leaves it unchanged and unsolved, so `_solve` raises (`Passes.BlankNotSolvedAsWritten`). A board whose only list is `[v, v]` at row 0, column 0, with no int equal to v: as written `_solve` raises, while the intended search returns the board with v placed (`Passes.GuessNeeded`). The same holds without repeated candidates: lists `[a, b]` at rows 0-1, columns 0-1 and ints other than a and b elsewhere (`Passes.FourListGuessNeeded`) | return the board from the first guess whose `_solve` comes back; raise only when every guess fails | not executed | SudokuSolver.SolveAsWritten | SudokuSolver.SolveIntended |
