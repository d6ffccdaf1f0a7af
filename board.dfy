/** The board of `src/home/Board.js`: an arena of cell owners, the column objects
    that index into it, the three derived views, and the win validator that scans
    them and stamps winning cells through the shared arena. */
module ConnectBoard {
  import opened Owners
  import opened Sequences
  import opened Grid
  import opened Validation
  import opened Detection

  /** One column: the arena indices of its `boardWidth` cells, bottom to top. */
  class BoardColumn {
    const boardWidth: nat
    const cells: seq<nat>

    /** Allocates the column's cells: slots `first .. first + boardWidth - 1` of the arena
        become empty cells, and the column lists them in order. */
    constructor (boardWidth: nat, arena: array<Owner>, first: nat)
      requires first + boardWidth <= arena.Length
      modifies arena
      ensures this.boardWidth == boardWidth
      ensures |cells| == boardWidth
      ensures forall r | 0 <= r < boardWidth :: cells[r] == first + r
      ensures forall x | 0 <= x < arena.Length ::
                arena[x] == if first <= x < first + boardWidth then Empty else old(arena[x])
    {
      this.boardWidth := boardWidth;
      var pushed: seq<nat> := [];
      for i := 0 to boardWidth
        invariant |pushed| == i
        invariant forall r | 0 <= r < i :: pushed[r] == first + r
        invariant forall x | 0 <= x < arena.Length ::
                    arena[x] == if first <= x < first + i then Empty else old(arena[x])
      {
        arena[first + i] := Empty;
        pushed := pushed + [first + i];
      }
      cells := pushed;
    }
  }

  lemma NextColumnFits(w: nat, i: nat)
    requires i < w
    ensures i * w + w <= w * w && (i + 1) * w == i * w + w
  {
    assert (i + 1) * w <= w * w;
  }

  /** A list holding `c * w + r` at every row `r < w` is column `c`. */
  lemma ColumnCellsFrom(w: nat, c: nat, cells: seq<nat>)
    requires |cells| == w && forall r | 0 <= r < w :: cells[r] == c * w + r
    ensures cells == ColumnCells(w, c)
  {
  }

  /** The cell lists of a sequence of column objects. */
  function CellsOf(cols: seq<BoardColumn>): (cells: seq<seq<nat>>)
    ensures |cells| == |cols|
    ensures forall i | 0 <= i < |cols| :: cells[i] == cols[i].cells
  {
    seq(|cols|, i requires 0 <= i < |cols| => cols[i].cells)
  }

  class Board {
    const boardWidth: nat
    /** Every cell's owner; cell `r` of column `c` is `arena[c * boardWidth + r]`. */
    const arena: array<Owner>
    var columns: seq<BoardColumn>
    var reversedColumns: seq<BoardColumn>
    var skewedColumns: seq<seq<nat>>
    var skewedReversedColumns: seq<seq<nat>>

    /** The board's shape: `boardWidth` columns over a `boardWidth * boardWidth` arena, the
        reversed view holding the very same column objects, and the two skewed views
        indexing the same cells. */
    ghost predicate Valid()
      reads this
    {
      1 <= boardWidth && arena.Length == boardWidth * boardWidth &&
      CellsOf(columns) == Columns(boardWidth) &&
      reversedColumns == Reversed(columns) &&
      skewedColumns == Skewed(Columns(boardWidth), boardWidth) &&
      skewedReversedColumns == Skewed(Reversed(Columns(boardWidth)), boardWidth)
    }

    constructor (boardWidth: nat := 7)
      requires 1 <= boardWidth
      ensures Valid() && this.boardWidth == boardWidth && fresh(arena)
      ensures forall x | 0 <= x < arena.Length :: arena[x] == Empty
    {
      this.boardWidth := boardWidth;
      arena := new Owner[boardWidth * boardWidth];
      columns, reversedColumns := [], [];
      skewedColumns, skewedReversedColumns := [], [];
      new;
      Init();
    }

    /** Builds the columns (every cell empty) and derives the three views from them. */
    method Init()
      requires 1 <= boardWidth && arena.Length == boardWidth * boardWidth && columns == []
      modifies this, arena
      ensures Valid()
      ensures forall x | 0 <= x < arena.Length :: arena[x] == Empty
    {
      PushColumns();
      reversedColumns := Reversed(columns);
      assert CellsOf(reversedColumns) == Reversed(Columns(boardWidth));
      ColumnsHaveBoardCells(boardWidth);
      skewedColumns := CreateSkewedModel(CellsOf(columns), boardWidth);
      skewedReversedColumns := CreateSkewedModel(CellsOf(reversedColumns), boardWidth);
    }

    /** The first loop of `init`: pushes `boardWidth` fresh columns, column `i` taking the
        arena slots `i * boardWidth ..`, so that every cell ends up empty. */
    method PushColumns()
      requires arena.Length == boardWidth * boardWidth && columns == []
      modifies this`columns, arena
      ensures CellsOf(columns) == Columns(boardWidth)
      ensures forall x | 0 <= x < arena.Length :: arena[x] == Empty
    {
      var pushed: seq<BoardColumn> := [];
      var i, first := 0, 0;
      while i < boardWidth
        invariant 0 <= i <= boardWidth && |pushed| == i && first == i * boardWidth
        invariant forall c | 0 <= c < i :: pushed[c].cells == ColumnCells(boardWidth, c)
        invariant forall x | 0 <= x < first :: arena[x] == Empty
      {
        NextColumnFits(boardWidth, i);
        var column := new BoardColumn(boardWidth, arena, first);
        ColumnCellsFrom(boardWidth, i, column.cells);
        pushed := pushed + [column];
        i, first := i + 1, first + boardWidth;
      }
      columns := pushed;
      assert CellsOf(columns) == Columns(boardWidth);
    }

    /** Sends cell `j` of column `c` to view-column `c + j`, creating view-columns as they
        are first needed (`createSkewedModel`). Every column holds `m` cells. */
    method CreateSkewedModel(arr: seq<seq<nat>>, ghost m: nat) returns (skewed: seq<seq<nat>>)
      requires Uniform(arr, m)
      ensures skewed == Skewed(arr, m)
    {
      skewed := [];
      var colIndex := 0;
      while colIndex < |arr|
        invariant 0 <= colIndex <= |arr|
        invariant |skewed| == SkewCount(colIndex, m)
        invariant forall k | 0 <= k < |skewed| :: skewed[k] == Diagonal(arr, m, k, colIndex)
      {
        var col := arr[colIndex];
        var pushIndex := colIndex;
        var cellIndex := 0;
        while cellIndex < |col|
          invariant 0 <= cellIndex <= m && pushIndex == colIndex + cellIndex
          invariant |skewed| == if colIndex == 0 || m == 0 then cellIndex
                                else if colIndex + m - 1 < colIndex + cellIndex then colIndex + cellIndex
                                else colIndex + m - 1
          invariant forall k | 0 <= k < |skewed| ::
                      skewed[k] == Diagonal(arr, m, k, colIndex) +
                                   (if colIndex <= k < colIndex + cellIndex then [col[k - colIndex]] else [])
        {
          if pushIndex == |skewed| {
            DiagonalAt(arr, m, pushIndex, colIndex);
            skewed := skewed + [[]];
          }
          skewed := skewed[pushIndex := skewed[pushIndex] + [col[cellIndex]]];
          pushIndex := pushIndex + 1;
          cellIndex := cellIndex + 1;
        }
        colIndex := colIndex + 1;
      }
    }

    /** The row transpose inside `validate`: row `r` collects record `r` of each column in
        column order, creating rows as they are first needed. */
    method CreateRowValidationModel(colModel: seq<seq<Entry>>, ghost m: nat) returns (model: seq<seq<Entry>>)
      requires Uniform(colModel, m)
      ensures |model| == (if |colModel| == 0 then 0 else m)
      ensures forall r | 0 <= r < |model| :: |model[r]| == |colModel|
      ensures forall r, c | 0 <= r < |model| && 0 <= c < |colModel| :: model[r][c] == colModel[c][r]
      ensures model == RowModel(colModel, m)
    {
      model := [];
      var c := 0;
      while c < |colModel|
        invariant 0 <= c <= |colModel|
        invariant |model| == if c == 0 then 0 else m
        invariant forall r | 0 <= r < |model| :: |model[r]| == c
        invariant forall r, c' | 0 <= r < |model| && 0 <= c' < c :: model[r][c'] == colModel[c'][r]
      {
        var index := 0;
        while index < |colModel[c]|
          invariant 0 <= index <= m
          invariant |model| == if c == 0 then index else m
          invariant forall r | 0 <= r < |model| :: |model[r]| == if r < index then c + 1 else c
          invariant forall r, c' | 0 <= r < |model| && 0 <= c' < |model[r]| :: model[r][c'] == colModel[c'][r]
        {
          if index == |model| {
            model := model + [[]];
          }
          model := model[index := model[index] + [colModel[c][index]]];
          index := index + 1;
        }
        c := c + 1;
      }
      assert model == RowModel(colModel, m) by {
        assert |model| == |RowModel(colModel, m)|;
        forall r | 0 <= r < |model| ensures model[r] == RowModel(colModel, m)[r] { }
      }
    }

    /** `validate`: builds the validation records of the plain, skewed and skewed reversed
        columns and of the rows, all from the arena as it is on entry; scans the merged
        column sequence (marking its first win), then the merged row sequence (marking its
        first win), and reports whether either scan found a win. */
    method Validate(winningNr: nat, player: PlayerId) returns (result: bool)
      requires Valid() && 2 <= winningNr
      modifies arena
      ensures Valid()
      ensures (result, arena[..]) == Outcome(old(arena[..]), boardWidth, winningNr, player)
    {
      ghost var before := arena[..];
      ColumnsHaveBoardCells(boardWidth);
      SkewedBounded(Columns(boardWidth), boardWidth, boardWidth * boardWidth);
      SkewedBounded(Reversed(Columns(boardWidth)), boardWidth, boardWidth * boardWidth);
      var colModel := ColValidationModel(arena[..], CellsOf(columns), player);
      var skModel := ColValidationModel(arena[..], skewedColumns, player);
      var skrModel := ColValidationModel(arena[..], skewedReversedColumns, player);
      var mergedCol := Flatten(colModel + skModel + skrModel);
      var rowModel := CreateRowValidationModel(colModel, boardWidth);
      var mergedRow := Flatten(rowModel);
      assert mergedCol == ColumnSequence(before, boardWidth, player);
      assert mergedRow == RowSequence(before, boardWidth, player);
      ColumnSequenceOnBoard(before, boardWidth, player);
      RowSequenceOnBoard(before, boardWidth, player);
      var colHasWin := HasWin(mergedCol, winningNr, player);
      var rowHasWin := HasWin(mergedRow, winningNr, player, false);
      result := colHasWin || rowHasWin;
    }

    /** `hasWin`: a column-style scan first reverses the sequence, then the pairs are
        scanned (`ScanPairs`). */
    method HasWin(arr: seq<Entry>, winningNr: nat, player: PlayerId, col: bool := true) returns (won: bool)
      requires 2 <= winningNr
      requires forall t | 0 <= t < |arr| :: arr[t].cell < arena.Length
      modifies arena
      ensures var s := if col then Reversed(arr) else arr;
              won == FirstWin(s, winningNr, col).Some? &&
              arena[..] == ScanMarks(old(arena[..]), s, winningNr, player, col)
    {
      var s := arr;
      if col {
        s := Reversed(arr);
      }
      won := ScanPairs(s, winningNr, player, col);
    }

    /** The counter-and-buffer loop of `hasWin`. Pairs `(i, i + 1)` are examined for
        `i < |s| - 2`; at the first pair where the counter reaches `winningNr - 1`, the
        buffered cells are stamped won by `player` and the scan stops. */
    method ScanPairs(s: seq<Entry>, winningNr: nat, player: PlayerId, col: bool) returns (won: bool)
      requires 2 <= winningNr
      requires forall t | 0 <= t < |s| :: s[t].cell < arena.Length
      modifies arena
      ensures won == FirstWin(s, winningNr, col).Some?
      ensures arena[..] == ScanMarks(old(arena[..]), s, winningNr, player, col)
    {
      var winCounter := 0;
      var winnerCells: seq<nat> := [];
      var i := 0;
      while i < |s| - 2
        invariant 0 <= i && (i == 0 || i < |s|)
        invariant winCounter == Run(s, i, col)
        invariant winCounter <= i && |winnerCells| == winCounter
        invariant forall t | 0 <= t < winCounter :: winnerCells[t] == s[i - winCounter + t].cell
        invariant forall j | 1 <= j <= i :: Run(s, j, col) != winningNr - 1
        invariant arena[..] == old(arena[..])
      {
        var notMinusOne := s[i].index != NoMatch && s[i + 1].index != NoMatch;
        var condition := if col then s[i].index - s[i + 1].index == 1
                         else s[i].index - s[i + 1].index == 0;
        if notMinusOne && condition {
          winCounter := winCounter + 1;
          winnerCells := winnerCells + [s[i].cell];
        } else {
          winCounter := 0;
          winnerCells := [];
        }
        assert winCounter == Run(s, i + 1, col);
        if winCounter == winningNr - 1 {
          winnerCells := winnerCells + [s[i + 1].cell];
          StampWin(s, winningNr, player, col, i, winnerCells);
          return true;
        }
        i := i + 1;
      }
      ScanExhausted(s, winningNr, col, i);
      return false;
    }

    /** The hit branch of `hasWin`: the buffer holds the window's cells, and stamping them
        is what the scan specification marks. */
    method StampWin(s: seq<Entry>, winningNr: nat, player: PlayerId, col: bool, i: nat, winnerCells: seq<nat>)
      requires 2 <= winningNr && i + 2 < |s| && Run(s, i + 1, col) == winningNr - 1
      requires forall j | 1 <= j <= i :: Run(s, j, col) != winningNr - 1
      requires |winnerCells| == winningNr
      requires forall t | 0 <= t < winningNr :: winnerCells[t] == s[i + 2 - winningNr + t].cell
      requires forall t | 0 <= t < |s| :: s[t].cell < arena.Length
      modifies arena
      ensures FirstWin(s, winningNr, col) == Some(i)
      ensures arena[..] == ScanMarks(old(arena[..]), s, winningNr, player, col)
    {
      ScanHit(arena[..], s, winningNr, player, col, i, winnerCells);
      MarkWinnerCells(winnerCells, player);
    }

    /** Stamps every buffered cell as won by `player` (the `forEach` over `winnerCells`). */
    method MarkWinnerCells(winnerCells: seq<nat>, player: PlayerId)
      requires forall k | 0 <= k < |winnerCells| :: winnerCells[k] < arena.Length
      modifies arena
      ensures arena[..] == MarkWon(old(arena[..]), winnerCells, player)
    {
      for k := 0 to |winnerCells|
        invariant arena[..] == MarkWon(old(arena[..]), winnerCells[..k], player)
      {
        assert winnerCells[..k + 1] == winnerCells[..k] + [winnerCells[k]];
        arena[winnerCells[k]] := Won(player);
      }
      assert winnerCells[..|winnerCells|] == winnerCells;
    }
  }
}
