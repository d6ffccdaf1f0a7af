# Connect-N board and win detector

A Dafny model of the board of a connect-N game (`src/home/Board.js`) and of
its win detector, with proofs of what the detector finds and what it marks.

The board is a square of `w` columns of `w` cells. Every cell has an owner:
`Empty`, `Player(id)` or `Won(id)`. The cells themselves live in one arena,
`Board.arena: array<Owner>`. Cell `r` of column `c` is slot `c * w + r`.
The repository keeps four views over the same cell objects:

- the columns;
- the columns in reverse order;
- the skew of the columns, in which view-column `k` gathers cell `k - c` of
  every column `c`, so that its neighbours are diagonal neighbours on the
  board;
- the skew of the reversed columns, which gives the other diagonal.

In the model each view is a sequence of sequences of arena indices. Marking a
cell through any view therefore writes the one shared slot.

`validate(winningNr, player)` works in three steps:

1. It projects each column-like view into records `{index, cell}`. `index` is
   the cell's offset in its view-column when the player owns the cell, and
   `-1` (`NoMatch`) otherwise.
2. It transposes the plain column records into rows, and flattens two long
   sequences: all column-like records, and all rows.
3. It hands both sequences to `hasWin`. The column sequence is reversed
   first. `hasWin` walks adjacent pairs with a counter and a buffer. When
   `winningNr - 1` pairs in a row continue, it stamps the buffered cells won
   and stops. A pair continues when both records match and their indices
   differ by one (columns) or are equal (rows).

The model has two layers:

- **Imperative.** `ConnectBoard.Board` and `ConnectBoard.BoardColumn` are
  classes. Their constructors, `CreateSkewedModel`, the row transpose and the
  `hasWin` scan are loops with invariants. Each is proved equal to a
  specification function.
- **Specification.** `Outcome(arena, w, n, player)` in module `Detection` is
  the pair (result, arena afterwards) of one call of `validate`.
  `Board.Validate` is proved to produce exactly that.

On top of `Outcome` the model proves the following:

- **Soundness.** A reported win is a straight line of `n` distinct cells, all
  owned by the player. A column-path win is vertical or diagonal. A row-path
  win is horizontal. No run is ever joined across the boundary between two
  view-columns or two rows.
- **Completeness.** Every line of `n` of the player's cells is reported, except
  two kinds (see the quirks below).
- **Marking.** Exactly the reported cells become `Won(player)`, both scans'
  cells are marked, and nothing else changes. Only cells the player owns ever
  change. When the player owns exactly one reportable line, exactly its cells
  become won. A board on which the player owns no line of `n` cells (the empty
  board, or one with only shorter runs) gives `false` and is left untouched.
- **Quirks.** The loop bound `i < arr.length - 2` skips the final pair of each
  sequence. So a vertical line ending at cell 0 of column 0, and a horizontal
  line ending at the last cell of the top row, are never reported. Both
  misses are proved on boards where the player owns exactly that line.

Modules:

| module | file | contents |
|---|---|---|
| `Sequences` | sequences.dfy | reversal, flattening, where an element of a flattened sequence comes from |
| `Owners`, `Grid` | grid.dfy | owner tags, arena layout, the skew and its bijection |
| `Validation` | validation.dfy | records, the row transpose, the pair scan (`Run`, `FirstWin`), marking |
| `Detection` | detection.dfy | the merged sequences and `Outcome` |
| `Runs` | runs.dfy | runs stay inside one chunk of a flattened model |
| `Lines` | lines.dfy | straight lines on the board, and where each one sits in the views |
| `Properties` | properties.dfy | soundness, completeness, marking and the two missed lines |
| `ConnectBoard` | board.dfy | the `BoardColumn` and `Board` classes |

## Model

| member | source | states |
|---|---|---|
| `ConnectBoard.BoardColumn.constructor` | src/home/Board.js:4-14 | the column gets `boardWidth` cells, the arena slots `first .. first + boardWidth - 1` in order; those slots become empty and no other slot changes |
| `ConnectBoard.Board.constructor` | src/home/Board.js:18-25 | a new board of the given width: `Valid()` holds (so `boardWidth` columns of `boardWidth` cells, and the three derived views) and every cell is empty |
| `ConnectBoard.Board.Init` | src/home/Board.js:27-37 | builds the columns and the reversed and skewed views, establishing `Valid()`: the reversed view holds the very same column objects in reverse order, and the skewed views index the same cells |
| `ConnectBoard.Board.PushColumns` | src/home/Board.js:29-31 | after the loop, column `i` holds arena slots `i * w .. i * w + w - 1`, and every cell is empty |
| `ConnectBoard.Board.CreateSkewedModel` | src/home/Board.js:39-54 | the loop that pushes cell `j` of column `c` into view-column `c + j`, creating slots lazily, yields exactly `Skewed(arr, m)` |
| `ConnectBoard.Board.CreateRowValidationModel` | src/home/Board.js:66-74 | the loop builds the transpose: `m` rows (none for no columns), each as long as the number of columns, `model[r][c] == colModel[c][r]` |
| `ConnectBoard.Board.Validate` | src/home/Board.js:56-81 | the result and the arena afterwards are `Outcome` of the arena before; the board's views are unchanged |
| `ConnectBoard.Board.HasWin` | src/home/Board.js:95-123 | a column scan reads the sequence reversed, a row scan as given; the result is whether `FirstWin` finds a window in it, and the arena afterwards is `ScanMarks` of the arena before |
| `ConnectBoard.Board.ScanPairs` | src/home/Board.js:103-122 | the counter-and-buffer loop over pairs `i < |s| - 2` returns true exactly when `FirstWin` finds a window, and marks exactly that window's cells, or nothing |
| `ConnectBoard.Board.StampWin` | src/home/Board.js:116-119 | when the counter first reaches `winningNr - 1` at pair `i`, that is the first window, and the buffered cells get stamped |
| `ConnectBoard.Board.MarkWinnerCells` | src/home/Board.js:118 | every buffered cell becomes `Won(player)`, every other cell is unchanged |
| `Sequences.Reversed` | src/home/Board.js:101 | same length; element `k` is element `|s| - 1 - k` of the input |
| `Sequences.FlattenAppend` | src/home/Board.js:60-63 | flattening a concatenation of models is concatenating their flattenings |
| `Sequences.FlattenAt` | src/home/Board.js:64 | offset `p` of chunk `q` sits at position `Start(ss, q) + p` of the flattened sequence |
| `Sequences.FlattenUniformLength` | src/home/Board.js:75 | flattening `k` chunks of `m` records gives `k * m` records |
| `Sequences.UniformStart` | src/home/Board.js:75 | with chunks of `m` records, chunk `q` starts at `q * m` |
| `Sequences.Locate` | src/home/Board.js:64 | every position of a flattened sequence comes from one chunk and one offset inside it |
| `Sequences.LocateNext` | src/home/Board.js:64 | the position after `j` is the next offset of the same chunk, or offset 0 of a later chunk |
| `Grid.CellInBoard` | src/home/Board.js:29-31 | every (column, row) of the board is a slot of the arena |
| `Grid.CellAtInjective` | src/home/Board.js:29-31 | two cells share a slot exactly when their columns and rows agree |
| `Grid.ColumnsHaveBoardCells` | src/home/Board.js:27-34 | the columns and the reversed columns are `w` lists of `w` arena slots |
| `Grid.DiagonalAt` | src/home/Board.js:40-50 | view-column `k`, as built from the first `C` columns, lists cell `k - c` of column `c` for increasing `c` |
| `Grid.SkewedShape` | src/home/Board.js:39-52 | the skew of `n` columns of `m` cells has `n + m - 1` view-columns (`2w - 1` on the board); view-column `k` lists cell `k - c` of column `c`, in increasing `c` |
| `Grid.SkewedPlacement` | src/home/Board.js:41-49 | cell `j` of column `c` sits in view-column `c + j`, at offset `c - DiagLow(c + j)` |
| `Grid.SkewedFromInput` | src/home/Board.js:42-48 | the skew only re-indexes: every entry of the skewed view equals some cell `cols[c][j]` of the input |
| `Grid.SkewedBounded` | src/home/Board.js:48 | every entry of the skewed view stays below any bound the input's entries respect, so the skewed views index arena slots |
| `Grid.SkewedExactlyOnce` | src/home/Board.js:35 | each board cell appears exactly once in the skewed columns |
| `Grid.SkewedReversedExactlyOnce` | src/home/Board.js:36 | each board cell appears exactly once in the skewed reversed columns |
| `Validation.ColValidationModel` | src/home/Board.js:83-93 | keeps the shape and the cells of its input; `index` is not `-1` exactly when the player owns the cell, and then it is the cell's offset |
| `Validation.Run` | src/home/Board.js:103-115 | the counter before pair `i` is at most `i` |
| `Validation.FirstWinFrom` | src/home/Board.js:105-121 | a hit is an examined pair (`i + 2 < |s|`) at which the counter is `n - 1` |
| `Validation.EntryCells` | src/home/Board.js:111 | the cells of a stretch of records, in order |
| `Validation.WinCells` | src/home/Board.js:104-117 | the buffer at pair `i` holds `n` cells: those of records `i - n + 2 .. i + 1` |
| `Validation.MarkWon` | src/home/Board.js:118 | the listed cells become `Won(player)`, nothing else changes |
| `Validation.FirstWinAfterMisses` | src/home/Board.js:105-121 | while no earlier pair hit, the outcome is still to be found from pair `i` on |
| `Validation.ScanHit` | src/home/Board.js:116-119 | the first pair at which the counter reaches `n - 1` is the scan's result, and its buffer is what gets marked |
| `Validation.ScanExhausted` | src/home/Board.js:105-122 | a scan that runs off the loop bound without a hit reports nothing |
| `Validation.RunWindow` | src/home/Board.js:107-115 | the counter at pair `i` reaches `n - 1` exactly when the `n - 1` pairs ending at `i` all continue |
| `Validation.RunBelow` | src/home/Board.js:116 | before the first hit, the counter stays below `n - 1` |
| `Validation.FirstWinFromSkips` | src/home/Board.js:105-121 | a scan from `i0` finds the first window at or after `i0`, or none if there is none |
| `Validation.FirstWinIsFirstWindow` | src/home/Board.js:105-121 | the scan succeeds exactly when some examined pair ends a window of `n` continuing records, and it stops at the first one |
| `Validation.FoundWindow` | src/home/Board.js:105-119 | the pairs of the window the scan stops at all continue |
| `Validation.FinalPairIgnored` | src/home/Board.js:105 | the last record never affects the scan: two sequences that differ only there give the same result |
| `Validation.RunPrefix` | src/home/Board.js:105 | the counter at an examined pair does not depend on the last record |
| `Detection.FlattenCellsBelow` | src/home/Board.js:64 | flattening keeps every record's cell inside the arena |
| `Detection.ColumnSequenceOnBoard` | src/home/Board.js:57-64 | every record of the merged column sequence points at a board cell |
| `Detection.RowSequenceOnBoard` | src/home/Board.js:66-75 | every record of the merged row sequence points at a board cell |
| `Runs.ColumnStepInChunk` | src/home/Board.js:64 | a continuing column pair never crosses the join of two view-columns |
| `Runs.RowStepInChunk` | src/home/Board.js:75 | a continuing row pair never crosses the join of two rows |
| `Runs.ChunkChain` | src/home/Board.js:107-109 | `k` steps that stay inside a chunk move `k` offsets along it |
| `Runs.InChunkRun` | src/home/Board.js:107-109 | such a stretch of the flattened sequence is a stretch of one chunk |
| `Runs.ReversedSteps` | src/home/Board.js:100-102 | a window of the reversed sequence is a run of descending steps in the forward sequence |
| `Runs.ForwardColumnRun` | src/home/Board.js:107-109 | a run of column steps is `k` consecutive matching records of one view-column |
| `Runs.ForwardRowRun` | src/home/Board.js:107-109 | a run of row steps is `k` consecutive matching records of one row |
| `Runs.ReversedWinCells` | src/home/Board.js:100-117 | the buffer of a window of the reversed sequence lists that chunk's cells from the highest offset down |
| `Runs.ColumnWindowInChunk` | src/home/Board.js:100-117 | a window of the reversed column sequence is `n` consecutive matching records of one view-column, not starting at the merged sequence's first record; its buffer lists them from the highest offset down |
| `Runs.RowWindowInChunk` | src/home/Board.js:105-117 | a window of the row sequence is `n` consecutive matching records of one row, followed by at least one more record; its buffer lists them in order |
| `Runs.ColumnRunWindow` | src/home/Board.js:100-116 | conversely, `n` matching records of one view-column that do not start at the merged sequence's first record are a window at an examined pair of the reversed sequence |
| `Runs.RowRunWindow` | src/home/Board.js:105-116 | conversely, `n` matching records of one row that are followed by another record are a window at an examined pair |
| `Lines.LineDistinct` | src/home/Board.js:116-119 | the cells of a straight line are pairwise distinct, so marking one marks `n` cells |
| `Lines.ColumnViewsAt` | src/home/Board.js:60-63 | the joined views hold `5w - 2` view-columns: the `w` columns, then the `2w - 1` skewed, then the `2w - 1` skewed reversed |
| `Lines.SkewedLine` | src/home/Board.js:35 | consecutive cells of a skewed view-column, read from the top offset down, are a diagonal going up and left |
| `Lines.SkewedReversedLine` | src/home/Board.js:36 | consecutive cells of a skewed reversed view-column are a diagonal going up and right |
| `Lines.ColumnViewLine` | src/home/Board.js:57-64 | consecutive cells of any column-like view are a vertical line (plain column) or a diagonal (skewed view) |
| `Lines.UpLeftInSkewed` | src/home/Board.js:35 | every up-left diagonal is consecutive cells of skewed view-column `c + r` |
| `Lines.SkewedReversedPlacement` | src/home/Board.js:36 | cell `j` of column `c` sits in skewed reversed view-column `(w - 1 - c) + j` |
| `Lines.UpRightInSkewedReversed` | src/home/Board.js:36 | every up-right diagonal is consecutive cells of skewed reversed view-column `(w - 1 - c) + r` |
| `Lines.ColumnViewsSkewedAt` | src/home/Board.js:62 | skewed view-column `k` is view `w + k` of the joined views |
| `Lines.ColumnViewsSkewedReversedAt` | src/home/Board.js:63 | skewed reversed view-column `k` is view `3w - 1 + k` of the joined views |
| `Lines.DownInViews` | src/home/Board.js:61 | every vertical line is consecutive cells of its own column |
| `Lines.UpLeftInViews` | src/home/Board.js:62 | every up-left diagonal is consecutive cells of one joined view |
| `Lines.UpRightInViews` | src/home/Board.js:63 | every up-right diagonal is consecutive cells of one joined view |
| `Lines.ColumnViewOfLine` | src/home/Board.js:57-64 | every vertical or diagonal line on the board is consecutive cells of one column-like view |
| `Properties.ModelAppend` | src/home/Board.js:60-63 | projecting joined views is joining the projections |
| `Properties.ColumnModelFacts` | src/home/Board.js:57-64 | the merged column sequence is the projection of the joined views, and each matching record carries its offset |
| `Properties.RowModelShape` | src/home/Board.js:66-74 | transposing `m` columns of `m` records gives `m` rows of `m` records, with `rows[r][c] == cols[c][r]` |
| `Properties.RowModelFacts` | src/home/Board.js:66-75 | `w` rows of `w` records; a matching record carries its row number; row `q` starts at `q * w` |
| `Properties.RowCellFacts` | src/home/Board.js:66-74 | record `c` of row `r` is cell `(c, r)`, matching exactly when the player owns it |
| `Properties.StartSkipsFirst` | src/home/Board.js:64 | every chunk after the first starts after the first chunk's records |
| `Properties.ColumnWindowIsLine` | src/home/Board.js:77 | a window of the column scan is a vertical or diagonal line of `n` of the player's cells, not the vertical line ending at cell 0 of column 0 |
| `Properties.RowWindowIsLine` | src/home/Board.js:78 | a window of the row scan is a horizontal line of `n` of the player's cells, not one ending at the top row's last cell |
| `Properties.ColumnLineFound` | src/home/Board.js:77 | every vertical or diagonal line of `n` of the player's cells but the excluded one is a window of the column scan |
| `Properties.ViewRunMatches` | src/home/Board.js:88 | cells of a view-column that the player all owns project to matching records |
| `Properties.ViewStartPositive` | src/home/Board.js:64 | any record but the very first of the merged column sequence has a predecessor |
| `Properties.RowEndBelow` | src/home/Board.js:75 | a row stretch that does not end at the top row's last cell is followed by another record |
| `Properties.RowLineFound` | src/home/Board.js:78 | every horizontal line of `n` of the player's cells but the excluded one is a window of the row scan |
| `Properties.ScanMarksCells` | src/home/Board.js:116-122 | a scan finds a window exactly when it has cells to mark, and afterwards exactly those cells are won |
| `Properties.ColumnScanSound` | src/home/Board.js:77 | what the column scan marks is `n` distinct cells of the player's forming a vertical or diagonal line |
| `Properties.RowScanSound` | src/home/Board.js:78 | what the row scan marks is `n` distinct cells of the player's forming a horizontal line |
| `Properties.OutcomeMarks` | src/home/Board.js:77-80 | `validate` is true exactly when one of the scans finds cells; afterwards the cells of both scans are won and every other cell is as before |
| `Properties.OnlyPlayerCellsChange` | src/home/Board.js:118 | only cells the player owns change, and only to `Won(player)` |
| `Properties.LineFound` | src/home/Board.js:77-80 | every straight line of `n` of the player's cells makes `validate` true, except the two lines the loop bound misses |
| `Properties.NoPlayerNoWin` | src/home/Board.js:77-80 | a board where the player owns no cell (the empty board) gives `false` and is left unchanged |
| `Properties.OnlyLineMarked` | src/home/Board.js:77-80 | when the player owns exactly one line of `n` cells, and it is neither line the loop bound misses, `validate` is true and exactly that line's cells become `Won(player)`; every other cell is unchanged |
| `Properties.NoLineNoWin` | src/home/Board.js:77-80 | when the player owns no line of `n` cells in any direction, however many shorter runs there are, `validate` is false and the board is unchanged |
| `Properties.OriginRun` | src/home/Board.js:105 | the cells `n - 1` down to `0` of column 0 are a vertical line |
| `Properties.TopRightRun` | src/home/Board.js:105 | the last `n` cells of the top row are a horizontal line |
| `Properties.InOriginRun` | src/home/Board.js:105 | a line cell inside that vertical run lies in column 0, below row `n` |
| `Properties.InTopRightRun` | src/home/Board.js:105 | a line cell inside that horizontal run lies in the top row, at column `w - n` or later |
| `Properties.NoScanLineInOriginRun` | src/home/Board.js:105 | no line either scan can report lies inside the vertical run ending at cell 0 of column 0 |
| `Properties.NoScanLineInTopRightRun` | src/home/Board.js:105 | no line either scan can report lies inside the horizontal run ending at the top row's last cell |
| `Properties.VerticalRunAtOriginMissed` | src/home/Board.js:105 | with the player owning exactly that vertical line, `validate` is false and changes nothing |
| `Properties.HorizontalRunAtTopRightMissed` | src/home/Board.js:105 | with the player owning exactly that horizontal line, `validate` is false and changes nothing |

## Left out

- `src/home/utils` (the `owners` tags) is not part of this model. Its empty tag is the constructor `Empty`, and the won tag, which the source builds from the win prefix and the player, is the constructor `Won(player)`. A won cell therefore never counts as the player's own cell in a later `validate`. That is what the string comparison gives for the tags the game uses.
- `src/main.js`, the Vue components, rendering, turn handling, the drop rule and draw detection are not part of this model.
- `ConnectBoard.Board.constructor`: requires `boardWidth >= 1`. The source does not check it, and a board of width 0 has nothing to scan.
- `ConnectBoard.Board.Validate`: requires `winningNr >= 2`. The source does not check it. With `winningNr == 1` it reports a win at the first examined pair that does not continue, and marks the second cell of that pair whoever owns it. With `winningNr <= 0` it never reports one.
- `validate` checks no bound on `winningNr` and the constructor none on `boardWidth` (src/home/Board.js:18-25, 56-81). So there is no error result in the model, and no upper bound on `winningNr`. Only the two preconditions above exclude the degenerate values.
- `hasWin` returns at the first window it finds (src/home/Board.js:116-119), so each scan marks at most one line. Further winning lines in the same sequence stay unmarked. Both scans always run (lines 77-78), so one column-path line and one row-path line can both be marked (`Properties.OutcomeMarks`).
- `Array.prototype.reverse` in `hasWin` reverses the freshly built merged column sequence in place. `[].concat.apply` flattens fresh arrays. Both are modelled as pure `Reversed` and `Flatten` on local sequences. Neither touches the stored views.
- The `.slice()` copies passed to `createSkewedModel` are modelled by passing the column cell lists by value.
- The skewed views' `{cells: [...]}` wrapper objects are modelled as plain lists of arena indices. Nothing else refers to those wrappers.
- The JS cell objects are arena slots. `BoardColumn.cells` holds the slot indices instead of object references. The arena is allocated once by `Board`, and each `BoardColumn` empties its own slots.
