# Sudoku engine model

This is a Dafny model of the solving engine of a small Sudoku assistant
(`SudokuSolver.py`, class `Sudoku_engine`). It also models the two
character mappings that the interface uses to import and export a board.

A board is a string of 81 characters in row order:

- `'1'`..`'9'` is a filled cell;
- `'0'` is an empty cell;
- `'_'` is an empty cell that has several candidates. It is a display
  marker only.

The engine does four things:

- It splits the board into 9 rows, 9 columns and 9 blocks (`board_parser`).
- It runs propagation passes. A pass gives each empty cell its only
  candidate, or a marker, or `'0'`, and records a count per cell: 2..9
  candidates, 10 for fixed or forced, 11 for no candidate (`iterate`). It
  repeats passes until one changes nothing (`get_furthest`).
- It validates boards (`check_ok`, `check_complete`).
- It searches with a bounded backtracking loop (`solve`). The loop keeps a
  stack of board snapshots and a decision tree in lockstep.

Modules:

- `Grid` (grid.dfy): cell geometry and `board_parser`.
- `Validate` (validate.dfy): the two validators as predicates over the 27
  groups. Each is also characterised cell by cell: a board passes
  `check_ok` exactly when no two peers clash, and passes `check_complete`
  exactly when it is a solved grid.
- `Propagate` (propagate.dfy): one pass as a function of the board it
  starts from (`NextBoard`, `NextCounts`, `NextSuggestions`), and its
  fixed point `Furthest`, with a termination measure.
- `Engine` (engine.dfy): the class `SudokuEngine`, whose fields are the
  current board, the suggestion lists, the counts and the status. Its
  methods change them in place. The postconditions of the methods other
  than `Search` and `Solve` give the new board, counts and suggestions in
  terms of the functions above (or of the old state). `Search`, the search
  loop of `solve`, promises a settled state on every exit; `Solve` states
  its board and status on every exit, and its counts and suggestions on the
  exits listed in its row. The loop body is split into these methods:
  - `Backjump`, the coarse backjump;
  - `Prepare`, the dead-board rollback and the snapshot-and-branch step;
  - `TryNext`, try the next digit of the top level;
  - `PopLevel`, drop an exhausted level;
  - `Restore`, reload a snapshot and run a pass.
- `Transfer` (transfer.dfy): the import and export character mappings.

Inputs and outputs:

- `path_depth` and `path_number` are natural-number parameters of `Solve`.
- The status text is the datatype `Status`.
- The `IndexError` that the backjump scan raises when every level is
  exhausted is the result `Exit.RaisedIndexError`.

## Model

| member | source | states |
|---|---|---|
| Grid.StandardListed | SudokuSolver.py:12 | STANDARD, defined from the digit list `Digits`, is exactly the characters `'1'`..`'9'` |
| Grid.StandardDigits | SudokuSolver.py:12 | STANDARD has nine members |
| Grid.InlineBlock | SudokuSolver.py:44-51 | the block number that iterate computes from the row and column is the block `3*(row/3) + col/3` holding the cell, and is below 9 |
| Grid.BoardParser | SudokuSolver.py:193-220 | 9 rows, 9 columns and 9 blocks of 9 entries each; `rows[g][p] = b[9g+p]`, `columns[g][p] = b[g+9p]`, `blocks[g][p] = b[27(g/3)+3(g%3)+9(p/3)+p%3]`, and every such index is a cell |
| Grid.ParseRows | SudokuSolver.py:197-202 | the row loop: row g holds cells 9g..9g+8 in order |
| Grid.ParseColumns | SudokuSolver.py:204-209 | the column loop: column g holds cells g, g+9, ..., g+72 |
| Grid.ParseBlocks | SudokuSolver.py:211-218 | the block loop: block 3i+j holds the 3x3 square at block row i and block column j, read row by row |
| Grid.ParserPlacesCell | SudokuSolver.py:193-220 | every cell is in its own row at its column, in its own column at its row, and in its own block at its position within the block |
| Grid.ExactlyOnce | SudokuSolver.py:193-220 | among the rows, among the columns and among the blocks, each cell sits at exactly one (group, position) pair |
| Grid.CellCovered | SudokuSolver.py:193-220 | each cell is recovered from its row and column, and from its block and its position within the block |
| Grid.GroupEntryIsCell | SudokuSolver.py:193-220 | each group entry is a cell whose geometry names that group and that position again |
| Validate.AllGroups | SudokuSolver.py:80-81 | the validators scan 27 groups (rows, then columns, then blocks) of 9 characters, as check_complete builds them here and check_ok at 225-226 |
| Validate.GroupLayout | SudokuSolver.py:225-226 | group i holds at position p the cell `GroupCell(i, p)`, which belongs to group i at that position, and each cell of group i is found at its position |
| Validate.NonEmpty | SudokuSolver.py:230 | `non_zero_values` holds exactly the characters of the group other than `'0'` and `'_'` |
| Validate.ElementsCount | SudokuSolver.py:231 | a list has at most as many distinct characters as entries, and exactly as many iff its entries are pairwise distinct |
| Validate.NonEmptyDistinct | SudokuSolver.py:230-231 | the filtered list is repeat-free iff no filled character occurs twice in the group |
| Validate.FewerElementsIffClash | SudokuSolver.py:231 | the filtered list has fewer distinct characters than entries iff some filled character of the group is repeated |
| Validate.HasRepeat | SudokuSolver.py:231 | check_ok's duplicate test on a group holds iff some filled character of the group is repeated (both directions) |
| Validate.BoardOk | SudokuSolver.py:223-235 | check_ok accepts a board iff no two distinct cells sharing a row, column or block hold the same filled character (both directions) |
| Validate.GroupsNoClashIffNoPeerClash | SudokuSolver.py:223-235 | every group is clash-free iff no two peers clash |
| Validate.FullGroup | SudokuSolver.py:84-86 | a group equal to `{'1'..'9'}` as a set has nine distinct entries, all digits |
| Validate.DigitsFillGroup | SudokuSolver.py:84-86 | nine pairwise distinct digits make up the whole set `{'1'..'9'}` |
| Validate.GroupsCompleteIffSolved | SudokuSolver.py:76-94 | every group is `{'1'..'9'}` as a set iff every cell holds 1..9 and no two peers are equal |
| Validate.BoardComplete | SudokuSolver.py:76-94 | check_complete accepts a board iff every cell holds 1..9 and no two peers are equal (both directions) |
| Validate.CompleteIsOk | SudokuSolver.py:76-94 | a board that check_complete accepts is also accepted by check_ok |
| Propagate.Keep | SudokuSolver.py:54 | filtering an increasing list keeps exactly the entries not taken, still increasing |
| Propagate.Remaining | SudokuSolver.py:54 | `sorted(STANDARD - taken)`: exactly the digits 1..9 not taken, in increasing order, at most 9 |
| Propagate.Candidates | SudokuSolver.py:53-54 | a cell's candidates are exactly the digits that no peer holds, in increasing order |
| Propagate.TakenIsSeen | SudokuSolver.py:32-53 | the characters that iterate collects from the parsed row, column and inline block are exactly the characters of the cell's peers |
| Propagate.TakenGivesCandidates | SudokuSolver.py:44-54 | the list computed inline for an empty cell equals the cell's candidates on the board as it was before the pass |
| Propagate.PeerHolding | SudokuSolver.py:53 | a character of the cell's row, column or block is held by a peer of the cell |
| Propagate.Taken | SudokuSolver.py:53 | `taken_digits` holds exactly the characters of the cell's row, column and block |
| Propagate.CandidateCount | SudokuSolver.py:54-64 | one remaining digit iff exactly one digit is free at the cell, and then it is that digit; none iff no digit is free |
| Propagate.CellAfter | SudokuSolver.py:55-70 | a filled cell keeps its character; an empty cell becomes `'0'`, a digit, or the marker, and the marker only when markers are on |
| Propagate.CountAfter | SudokuSolver.py:55-70 | the count is 2..11; a filled cell counts 10; a count of 9 or less occurs only at an empty cell and equals the length of its suggestion list |
| Propagate.SuggestionAfter | SudokuSolver.py:55-70 | a filled cell's list is `['0']`; every list has at most 9 entries |
| Propagate.NextBoard | SudokuSolver.py:41-73 | the board that one pass produces has 81 cells; cell by cell it is given by `CellAfter`, which IterateCell characterises |
| Propagate.NextCounts | SudokuSolver.py:41-73 | a pass records 81 counts, each between 2 and 11 (`CountAfter` and `IterateCell` say which) |
| Propagate.NextSuggestions | SudokuSolver.py:41-73 | a pass records 81 suggestion lists of at most 9 entries (`SuggestionAfter` and `IterateCell` say which) |
| Propagate.IterateCell | SudokuSolver.py:41-70 | a filled cell is copied with count 10 and suggestion `['0']`; an empty cell gets count 10 iff exactly one digit is free there, and then gets that digit; count 11 iff no digit is free, and then `'0'`; otherwise the marker (`'_'` or `'0'`) and a count of 2..9 equal to the number of its suggestions, which are exactly its free digits in increasing order |
| Propagate.PassCellLighter | SudokuSolver.py:172-178 | a pass without markers never makes a cell heavier under the measure, and makes every cell it changes lighter |
| Propagate.MeasureDrops | SudokuSolver.py:172-178 | a board nowhere heavier weighs no more, and weighs strictly less when one cell is lighter |
| Propagate.PassLowersMeasure | SudokuSolver.py:172-178 | a pass without markers that changes the board strictly lowers (empty cells + marker cells), so get_furthest stops |
| Propagate.Furthest | SudokuSolver.py:172-178 | repeated passes end in a board that a pass leaves unchanged, and no filled cell of the start board is erased |
| Propagate.FurthestIdempotent | SudokuSolver.py:172-178 | propagating an already propagated board changes nothing |
| Engine.FirstMinIndex | SudokuSolver.py:118-119 | `counts.index(min(counts))`: a position holding a smallest count, and no earlier position holds that count |
| Engine.FirstOpenLevel | SudokuSolver.py:131-133 | the backjump scan finds the shallowest level with untried digits; it finds none (the IndexError) iff every level is exhausted |
| Engine.LevelsPrefix | SudokuSolver.py:134-135 | truncating both lists to the same length keeps them in lockstep, each snapshot settled with its branch |
| Engine.LevelsPush | SudokuSolver.py:144-149 | pushing a settled board with its first-smallest-count branch keeps the lists in lockstep |
| Engine.LevelsPop | SudokuSolver.py:151-153 | popping the next digit off the top branch keeps its untried list a suffix of its cell's suggestions |
| Engine.LevelPop | SudokuSolver.py:151-153 | dropping the first untried digit of one level keeps it a level of the same snapshot |
| Engine.SudokuEngine.constructor | SudokuSolver.py:18-23 | a new engine holds an all-`'0'` board, no suggestions, no counts and an empty status |
| Engine.SudokuEngine.Iterate | SudokuSolver.py:26-73 | the new board, counts and suggestions are exactly those of one pass over the old board (rows, columns and blocks taken from the old board); the status is unchanged |
| Engine.SudokuEngine.GetFurthest | SudokuSolver.py:172-178 | the board becomes `Furthest` of the old board, a fixed point of the pass, with the counts and suggestions of a pass over it |
| Engine.SudokuEngine.Update | SudokuSolver.py:181-190 | the board becomes the old board with cell i set to the typed character if it is `'1'`..`'9'`, else `'0'`; no other cell and no other field changes |
| Engine.SudokuEngine.CheckOk | SudokuSolver.py:223-235 | returns whether no group has a repeated filled character; the status becomes "Invalid Board" iff it returns false; the board is not touched |
| Engine.SudokuEngine.CheckComplete | SudokuSolver.py:76-94 | returns whether every group is `{'1'..'9'}` as a set; the status becomes "Completed Board" or "Incomplete Board" accordingly |
| Engine.SudokuEngine.Backjump | SudokuSolver.py:128-137 | with an open level: cuts both lists back to the shallowest open level, restores its snapshot and leaves a settled state; with none: the board, counts, suggestions and both lists are unchanged and the IndexError is reported |
| Engine.SudokuEngine.Restore | SudokuSolver.py:136-137 | reloading the top snapshot and running a pass leaves that snapshot as the board, with its counts and suggestions |
| Engine.SudokuEngine.Prepare | SudokuSolver.py:139-149 | it stops iff the board has a dead cell and only one snapshot is left, changing nothing; otherwise the board becomes the top snapshot if a cell is dead, and a board not on top of the stack is pushed with a branch on its first smallest count and that cell's suggestions; the lists stay in lockstep; when it stops, or leaves a single snapshot, the state is still settled (no rollback happened) |
| Engine.SudokuEngine.TryNext | SudokuSolver.py:151-155 | the top level loses its first untried digit, and the board becomes `Furthest` of the old board with that digit entered in the level's cell; the state is settled and the lists stay in lockstep |
| Engine.SudokuEngine.PopLevel | SudokuSolver.py:158-162 | both lists lose their top entry, and the board becomes the new top snapshot with the counts and suggestions of a pass over it; the lists stay in lockstep |
| Engine.SudokuEngine.Search | SudokuSolver.py:116-162 | from a settled board that check_complete rejects, the search loop always ends in a settled state; when the backjump scan raises the IndexError, the board still fails check_complete and the status is "Incomplete Board" |
| Engine.SudokuEngine.Solve | SudokuSolver.py:97-169 | if check_ok fails: the board, counts and suggestions are unchanged and the status is "Repeated Values"; on every other normal return, the board passes check_complete with "Completed Board" and is settled, or is the given board with "No Solution Found"; if propagation alone completes the board, solve returns exactly that board; when the IndexError is raised, the given board passed check_ok and the board left is settled, fails check_complete and has status "Incomplete Board" |
| Transfer.ImportChar | SudokuSolver.py:343-347 | a digit character is kept; any other character becomes `'0'` |
| Transfer.ImportBoard | SudokuSolver.py:342-349 | each character is mapped as above, then padded with `'0'` to length 81 and never truncated; the result is all digits |
| Transfer.ExportBoard | SudokuSolver.py:398-403 | `'_'` becomes `'0'`, every other character and the length are kept, and no marker remains |
| Transfer.ImportShortIsBoard | SudokuSolver.py:342-349 | a text of at most 81 characters imports as an 81-cell board |
| Transfer.ImportDigitBoard | SudokuSolver.py:342-349 | importing an 81-digit board gives it back unchanged |
| Transfer.ImportIdempotent | SudokuSolver.py:342-349 | importing an imported board gives it back unchanged |
| Transfer.ExportAfterImport | SudokuSolver.py:398-403 | exporting a freshly imported board returns it unchanged |
| Transfer.ImportAfterExport | SudokuSolver.py:398-403 | an exported board of digits and markers is all digits, and importing it gives it back |

## Left out

- The tkinter interface (SudokuSolver.py:238-505) is not modelled. This
  covers widgets, layout, focus handling, `display_solution`, and the
  "Board Imported" and "Board Exported" status texts. Only the character
  mappings of `import_board` and `export_board` are modelled.
- Wall-clock timing (`time.time()`, `time_taken`, SudokuSolver.py:108,
  168-169) is left out: it is a foreign, nondeterministic call with no
  effect on the board.
- The search bounds are floats in the interface. Here they are natural
  numbers, and `Solve` takes both as arguments: the defaults
  `path_depth=150` and `path_number=5` of `solve` (SudokuSolver.py:97) are
  not modelled. The interface passes both values explicitly.
- `isdigit` is taken as ASCII `'0'..'9'`. Python's Unicode digits are not
  modelled.
- Engine.SudokuEngine.Update: restricted to a one-character value and a cell
  index below 81. The source also accepts a multi-character digit string
  whose value is 1..9, such as `'01'`, and then the board grows past 81
  characters; it appends past the end for an index of 81 or more. `solve`
  never calls it that way, but the interface's key handler
  (SudokuSolver.py:430) passes the whole text of a cell's box, which can be
  such a string. These calls are not modelled. An empty text becomes
  `'0'` in the source, which is what the model gives for any non-digit.
- Transfer.ImportBoard: a text longer than 81 characters is imported at its
  full length. It is not stored into the engine, whose board is always 81
  cells here.
- Engine.SudokuEngine.Search: promises a settled state on every exit and,
  at the IndexError, an incomplete board; it does not state which board
  the loop ends on. Prepare, TryNext, PopLevel and Backjump state each
  step exactly.
- Engine.SudokuEngine.Solve: when the IndexError is raised, the given board
  passed check_ok, and the board left is settled and fails check_complete.
  It may hold duplicates that a propagation pass introduced, and which
  snapshot it is is not stated. On the "No Solution Found" return it
  does not state the counts and suggestions, which are those of the last
  search state rather than of the given board. It does not promise to
  solve every solvable board, because the search is bounded heuristically.
  It does not promise that a completed board keeps the given digits.
- The `suggestions` dictionary is a sequence indexed by cell. Before the
  first pass it is empty. A filled cell's entry `[0]` (an integer) is the
  one-character list `['0']`; it is only ever used as `str(0)`.
- The decision tree's untried list is a copy rather than an alias of the
  dictionary entry. Nothing reads that entry between the pop and the next
  pass, which replaces the entry, so the sharing is not observable.
- Engine.SudokuEngine.Iterate: the per-cell lists are collected during the
  loop and stored when the pass ends. Nothing reads them in between.
- A pass does not keep a board free of duplicates: two cells of one group can
  both be forced to the same digit in one pass. Nothing here claims
  otherwise.
