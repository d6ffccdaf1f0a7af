/** What `validate` detects, stated on the board: every win it reports is a straight line
    of `n` of the player's cells, it reports every such line but two kinds, and it marks
    exactly the cells of the lines it reports. */
module Properties {
  import opened Owners
  import opened Sequences
  import opened Grid
  import opened Validation
  import opened Detection
  import opened Runs
  import opened Lines

  // ---------------------------------------------------------------------------
  // The merged sequences as projections of the views.

  /** Projecting joined views is joining the projections. */
  lemma ModelAppend(arena: seq<Owner>, v1: seq<seq<nat>>, v2: seq<seq<nat>>, player: PlayerId)
    requires Bounded(v1, |arena|) && Bounded(v2, |arena|)
    ensures Bounded(v1 + v2, |arena|)
    ensures ColValidationModel(arena, v1 + v2, player) ==
            ColValidationModel(arena, v1, player) + ColValidationModel(arena, v2, player)
  {
    var m, m1, m2 := ColValidationModel(arena, v1 + v2, player),
                     ColValidationModel(arena, v1, player), ColValidationModel(arena, v2, player);
    forall q | 0 <= q < |m|
      ensures m[q] == (m1 + m2)[q]
    {
      if q < |v1| {
        assert (v1 + v2)[q] == v1[q];
      } else {
        assert (v1 + v2)[q] == v2[q - |v1|];
      }
    }
  }

  /** The merged column sequence is the projection of the joined column-like views, and
      every matching record in it carries its offset inside its view-column. */
  lemma ColumnModelFacts(arena: seq<Owner>, w: nat, player: PlayerId)
    requires |arena| == w * w
    ensures Bounded(ColumnViews(w), |arena|)
    ensures ColumnSequence(arena, w, player) == Flatten(ColValidationModel(arena, ColumnViews(w), player))
    ensures Positional(ColValidationModel(arena, ColumnViews(w), player))
  {
    ColumnsHaveBoardCells(w);
    SkewedBounded(Columns(w), w, w * w);
    SkewedBounded(Reversed(Columns(w)), w, w * w);
    ModelAppend(arena, Columns(w), Skewed(Columns(w), w), player);
    ModelAppend(arena, Columns(w) + Skewed(Columns(w), w), Skewed(Reversed(Columns(w)), w), player);
  }

  /** The row model the row scan flattens. */
  ghost function PlainRows(arena: seq<Owner>, w: nat, player: PlayerId): seq<seq<Entry>>
    requires |arena| == w * w
  {
    ColumnsHaveBoardCells(w);
    RowModel(ColValidationModel(arena, Columns(w), player), w)
  }

  /** Transposing `m` columns of `m` records gives `m` rows of `m` records. */
  lemma RowModelShape(colModel: seq<seq<Entry>>, m: nat)
    requires Uniform(colModel, m) && |colModel| == m
    ensures |RowModel(colModel, m)| == m && Uniform(RowModel(colModel, m), m)
    ensures forall r, c | 0 <= r < m && 0 <= c < m :: RowModel(colModel, m)[r][c] == colModel[c][r]
  {
  }

  /** The row model has `w` rows of `w` records, and a matching record carries its row;
      the row sequence is its flattening, with row `q` starting at `q * w`. */
  lemma RowModelFacts(arena: seq<Owner>, w: nat, player: PlayerId)
    requires |arena| == w * w
    ensures RowSequence(arena, w, player) == Flatten(PlainRows(arena, w, player))
    ensures |PlainRows(arena, w, player)| == w && Uniform(PlainRows(arena, w, player), w)
    ensures ChunkIndexed(PlainRows(arena, w, player))
    ensures |Flatten(PlainRows(arena, w, player))| == w * w
    ensures forall q | 0 <= q <= w :: Start(PlainRows(arena, w, player), q) == q * w
  {
    ColumnsHaveBoardCells(w);
    var cm: seq<seq<Entry>> := ColValidationModel(arena, Columns(w), player);
    var rows: seq<seq<Entry>> := PlainRows(arena, w, player);
    RowModelShape(cm, w);
    FlattenUniformLength(rows, w);
    forall q | 0 <= q <= w
      ensures Start(rows, q) == q * w
    {
      UniformStart(rows, w, q);
    }
  }

  /** Record `c` of row `r` is cell `(c, r)`, and it matches exactly when the player owns
      that cell. */
  lemma RowCellFacts(arena: seq<Owner>, w: nat, player: PlayerId, r: nat, c: nat)
    requires |arena| == w * w && r < w && c < w
    ensures r < |PlainRows(arena, w, player)| && c < |PlainRows(arena, w, player)[r]|
    ensures PlainRows(arena, w, player)[r][c].cell == CellAt(w, c, r) < |arena|
    ensures PlainRows(arena, w, player)[r][c].index != NoMatch <==>
            arena[CellAt(w, c, r)] == Player(player)
  {
    ColumnsHaveBoardCells(w);
    var cm: seq<seq<Entry>> := ColValidationModel(arena, Columns(w), player);
    RowModelShape(cm, w);
    CellInBoard(w, c, r);
  }

  lemma StartSkipsFirst<T>(ss: seq<seq<T>>, q: nat)
    requires 1 <= q <= |ss|
    ensures |ss[0]| <= Start(ss, q)
  {
    if q == 1 {
      assert ss[..0] == [];
      StartNext(ss, 0);
    } else {
      StartSkipsFirst(ss, q - 1);
      StartNext(ss, q - 1);
    }
  }

  lemma NoViewsWithoutColumns(w: nat)
    requires w == 0
    ensures ColumnViews(w) == []
  {
  }

  // ---------------------------------------------------------------------------
  // Soundness: a window the scans stop at is a line of the player's cells.

  /** A window of the reversed column sequence is a vertical or diagonal line of `n` of
      the player's cells, and not the vertical line ending at cell 0 of column 0. */
  lemma ColumnWindowIsLine(arena: seq<Owner>, w: nat, n: nat, player: PlayerId, i: nat)
    returns (d: Direction, c: int, r: int)
    requires |arena| == w * w && 2 <= n
    requires n - 2 <= i && i + 2 < |ColumnSequence(arena, w, player)|
    requires forall t | i + 2 - n <= t <= i ::
               Continues(Reversed(ColumnSequence(arena, w, player))[t],
                         Reversed(ColumnSequence(arena, w, player))[t + 1], true)
    ensures d != Right && !(d == Down && c == 0 && r == n - 1)
    ensures IsLine(w, WinCells(Reversed(ColumnSequence(arena, w, player)), i, n), d, c, r)
    ensures forall t | 0 <= t < n ::
              WinCells(Reversed(ColumnSequence(arena, w, player)), i, n)[t] < |arena| &&
              arena[WinCells(Reversed(ColumnSequence(arena, w, player)), i, n)[t]] == Player(player)
  {
    ColumnModelFacts(arena, w, player);
    var ss: seq<seq<Entry>> := ColValidationModel(arena, ColumnViews(w), player);
    var q, p0 := ColumnWindowInChunk(ss, n, i);
    if w == 0 {
      NoViewsWithoutColumns(w);
    }
    d, c, r := ColumnViewLine(w, q, p0, n);
    var cells := WinCells(Reversed(Flatten(ss)), i, n);
    forall t | 0 <= t < n
      ensures cells[t] == CellAt(w, Along(d, c, r, t).0, Along(d, c, r, t).1)
      ensures cells[t] < |arena| && arena[cells[t]] == Player(player)
    {
      assert cells[t] == ss[q][p0 + n - 1 - t].cell;
    }
  }

  /** A window of the row sequence is a horizontal line of `n` of the player's cells, and
      not one ending at the last cell of the top row. */
  lemma RowWindowIsLine(arena: seq<Owner>, w: nat, n: nat, player: PlayerId, i: nat)
    returns (c: int, r: int)
    requires |arena| == w * w && 2 <= n
    requires n - 2 <= i && i + 2 < |RowSequence(arena, w, player)|
    requires forall t | i + 2 - n <= t <= i ::
               Continues(RowSequence(arena, w, player)[t], RowSequence(arena, w, player)[t + 1], false)
    ensures !(r == w - 1 && c + n == w)
    ensures IsLine(w, WinCells(RowSequence(arena, w, player), i, n), Right, c, r)
    ensures forall t | 0 <= t < n ::
              WinCells(RowSequence(arena, w, player), i, n)[t] < |arena| &&
              arena[WinCells(RowSequence(arena, w, player), i, n)[t]] == Player(player)
  {
    RowModelFacts(arena, w, player);
    var rows: seq<seq<Entry>> := PlainRows(arena, w, player);
    var q, p0 := RowWindowInChunk(rows, n, i);
    c, r := p0, q;
    var cells := WinCells(Flatten(rows), i, n);
    forall t | 0 <= t < n
      ensures OnBoard(w, Along(Right, c, r, t))
      ensures cells[t] == CellAt(w, Along(Right, c, r, t).0, Along(Right, c, r, t).1)
      ensures cells[t] < |arena| && arena[cells[t]] == Player(player)
    {
      assert cells[t] == rows[q][p0 + t].cell;
      RowCellFacts(arena, w, player, q, p0 + t);
    }
  }

  // ---------------------------------------------------------------------------
  // Completeness: every line of the player's cells but the two excluded kinds is found.

  /** A vertical or diagonal line of `n` of the player's cells, other than the vertical
      line ending at cell 0 of column 0, stops the column scan. */
  lemma ColumnLineFound(arena: seq<Owner>, w: nat, n: nat, player: PlayerId,
                        cells: seq<nat>, d: Direction, c: int, r: int)
    requires |arena| == w * w && 2 <= n && |cells| == n
    requires d != Right && IsLine(w, cells, d, c, r) && !(d == Down && c == 0 && r == n - 1)
    requires forall t | 0 <= t < n :: cells[t] < |arena| && arena[cells[t]] == Player(player)
    ensures exists i | 0 <= i && i + 2 < |ColumnSequence(arena, w, player)| ::
              Window(Reversed(ColumnSequence(arena, w, player)), i, n, true)
  {
    ColumnModelFacts(arena, w, player);
    var ss: seq<seq<Entry>> := ColValidationModel(arena, ColumnViews(w), player);
    var q, p0 := ColumnViewOfLine(w, d, c, r, n);
    LineEnds(w, cells, d, c, r);
    ViewRunMatches(arena, ColumnViews(w), player, q, p0, n, cells);
    ViewStartPositive(arena, w, player, q, p0);
    var i := ColumnRunWindow(ss, q, p0, n);
  }

  /** The records of `n` cells of one view-column that the player all owns all match. */
  lemma ViewRunMatches(arena: seq<Owner>, view: seq<seq<nat>>, player: PlayerId,
                       q: nat, p0: nat, n: nat, cells: seq<nat>)
    requires Bounded(view, |arena|) && q < |view| && p0 + n <= |view[q]| && |cells| == n
    requires forall t | 0 <= t < n :: view[q][p0 + n - 1 - t] == cells[t]
    requires forall t | 0 <= t < n :: cells[t] < |arena| && arena[cells[t]] == Player(player)
    ensures forall u | p0 <= u < p0 + n :: ColValidationModel(arena, view, player)[q][u].index != NoMatch
  {
    forall u | p0 <= u < p0 + n
      ensures ColValidationModel(arena, view, player)[q][u].index != NoMatch
    {
      assert view[q][u] == cells[p0 + n - 1 - u];
    }
  }

  /** Any record of the joined column-like views but the very first has a predecessor. */
  lemma ViewStartPositive(arena: seq<Owner>, w: nat, player: PlayerId, q: nat, p0: nat)
    requires |arena| == w * w && 1 <= w && Bounded(ColumnViews(w), |arena|)
    requires q < |ColumnViews(w)| && (q != 0 || p0 != 0)
    ensures 1 <= Start(ColValidationModel(arena, ColumnViews(w), player), q) + p0
  {
    var ss: seq<seq<Entry>> := ColValidationModel(arena, ColumnViews(w), player);
    if q == 0 {
      assert ss[..0] == [];
    } else {
      ColumnViewsAt(w);
      StartSkipsFirst(ss, q);
    }
  }

  lemma RowEndBelow(w: nat, r: nat, e: nat)
    requires r < w && e <= w && (r < w - 1 || e < w)
    ensures r * w + e < w * w
  {
    var k := w - (r + 1);
    assert w * w == (r + 1) * w + k * w;
    if e < w {
      assert r * w + e < (r + 1) * w;
    } else {
      assert 1 <= k;
    }
  }

  /** A horizontal line of `n` of the player's cells, other than one ending at the last
      cell of the top row, stops the row scan. */
  lemma RowLineFound(arena: seq<Owner>, w: nat, n: nat, player: PlayerId,
                     cells: seq<nat>, c: int, r: int)
    requires |arena| == w * w && 2 <= n && |cells| == n
    requires IsLine(w, cells, Right, c, r) && !(r == w - 1 && c + n == w)
    requires forall t | 0 <= t < n :: cells[t] < |arena| && arena[cells[t]] == Player(player)
    ensures exists i | 0 <= i && i + 2 < |RowSequence(arena, w, player)| ::
              Window(RowSequence(arena, w, player), i, n, false)
  {
    RowModelFacts(arena, w, player);
    var rows: seq<seq<Entry>> := PlainRows(arena, w, player);
    assert OnBoard(w, Along(Right, c, r, 0)) && OnBoard(w, Along(Right, c, r, n - 1));
    forall u | c <= u < c + n
      ensures rows[r][u].index != NoMatch
    {
      assert cells[u - c] == CellAt(w, u, r);
      RowCellFacts(arena, w, player, r, u);
    }
    RowEndBelow(w, r, c + n);
    var i := RowRunWindow(rows, r, c, n);
  }

  // ---------------------------------------------------------------------------
  // The outcome of `validate`.

  /** The cells a scan of `s` stops at and marks, or none. */
  function ScanCells(s: seq<Entry>, n: nat, col: bool): seq<nat>
    requires 2 <= n
  {
    match FirstWin(s, n, col)
    case None => []
    case Some(i) => WinCells(s, i, n)
  }

  /** A scan finds a window exactly when it has cells to mark, and the arena after it has
      exactly those cells stamped won. */
  lemma ScanMarksCells(arena: seq<Owner>, s: seq<Entry>, n: nat, player: PlayerId, col: bool)
    requires 2 <= n
    ensures FirstWin(s, n, col).Some? <==> ScanCells(s, n, col) != []
    ensures ScanMarks(arena, s, n, player, col) == MarkWon(arena, ScanCells(s, n, col), player)
  {
    var marked := ScanCells(s, n, col);
    if marked == [] {
      assert MarkWon(arena, marked, player) == arena;
    }
  }

  /** The cells the column scan stops at and marks, or none. */
  function ColumnWinCells(arena: seq<Owner>, w: nat, n: nat, player: PlayerId): seq<nat>
    requires |arena| == w * w && 2 <= n
  {
    ScanCells(Reversed(ColumnSequence(arena, w, player)), n, true)
  }

  /** The cells the row scan stops at and marks, or none. */
  function RowWinCells(arena: seq<Owner>, w: nat, n: nat, player: PlayerId): seq<nat>
    requires |arena| == w * w && 2 <= n
  {
    ScanCells(RowSequence(arena, w, player), n, false)
  }

  /** What the column scan reports is a line of `n` distinct cells of the player's. */
  lemma ColumnScanSound(arena: seq<Owner>, w: nat, n: nat, player: PlayerId)
    requires |arena| == w * w && 2 <= n
    ensures var cells := ColumnWinCells(arena, w, n, player);
            cells != [] ==>
              |cells| == n && ColumnScanLine(w, cells) &&
              (forall t | 0 <= t < n :: cells[t] < |arena| && arena[cells[t]] == Player(player)) &&
              forall t, t' | 0 <= t < t' < n :: cells[t] != cells[t']
  {
    var cs := Reversed(ColumnSequence(arena, w, player));
    if FirstWin(cs, n, true).Some? {
      var i := FirstWin(cs, n, true).value;
      FoundWindow(cs, n, true, i);
      var d, c, r := ColumnWindowIsLine(arena, w, n, player, i);
      LineDistinct(w, WinCells(cs, i, n), d, c, r);
    }
  }

  /** What the row scan reports is a line of `n` distinct cells of the player's. */
  lemma RowScanSound(arena: seq<Owner>, w: nat, n: nat, player: PlayerId)
    requires |arena| == w * w && 2 <= n
    ensures var cells := RowWinCells(arena, w, n, player);
            cells != [] ==>
              |cells| == n && RowScanLine(w, cells) &&
              (forall t | 0 <= t < n :: cells[t] < |arena| && arena[cells[t]] == Player(player)) &&
              forall t, t' | 0 <= t < t' < n :: cells[t] != cells[t']
  {
    var rs := RowSequence(arena, w, player);
    if FirstWin(rs, n, false).Some? {
      var i := FirstWin(rs, n, false).value;
      FoundWindow(rs, n, false, i);
      var c, r := RowWindowIsLine(arena, w, n, player, i);
      LineDistinct(w, WinCells(rs, i, n), Right, c, r);
    }
  }

  /** `validate` reports a win exactly when one of the scans finds cells, and afterwards
      exactly the cells found are stamped won by the player; every other cell is as it
      was. */
  lemma OutcomeMarks(arena: seq<Owner>, w: nat, n: nat, player: PlayerId)
    requires |arena| == w * w && 2 <= n
    ensures Outcome(arena, w, n, player).0 <==>
            ColumnWinCells(arena, w, n, player) != [] || RowWinCells(arena, w, n, player) != []
    ensures |Outcome(arena, w, n, player).1| == |arena|
    ensures forall x | 0 <= x < |arena| ::
              Outcome(arena, w, n, player).1[x] ==
                if x in ColumnWinCells(arena, w, n, player) || x in RowWinCells(arena, w, n, player)
                then Won(player) else arena[x]
  {
    var cs := Reversed(ColumnSequence(arena, w, player));
    var rs := RowSequence(arena, w, player);
    ScanMarksCells(arena, cs, n, player, true);
    ScanMarksCells(ScanMarks(arena, cs, n, player, true), rs, n, player, false);
  }

  /** `validate` changes only cells the player owns, and only to won-by-the-player; a
      cell already won, by anyone, is left as it is. */
  lemma OnlyPlayerCellsChange(arena: seq<Owner>, w: nat, n: nat, player: PlayerId)
    requires |arena| == w * w && 2 <= n
    ensures |Outcome(arena, w, n, player).1| == |arena|
    ensures forall x | 0 <= x < |arena| ::
              Outcome(arena, w, n, player).1[x] == arena[x] ||
              (arena[x] == Player(player) && Outcome(arena, w, n, player).1[x] == Won(player))
  {
    ColumnScanSound(arena, w, n, player);
    RowScanSound(arena, w, n, player);
    OutcomeMarks(arena, w, n, player);
  }

  /** Every straight line of `n` of the player's cells makes `validate` report a win,
      except a vertical line ending at cell 0 of column 0 and a horizontal line ending at
      the last cell of the top row. */
  lemma LineFound(arena: seq<Owner>, w: nat, n: nat, player: PlayerId,
                  cells: seq<nat>, d: Direction, c: int, r: int)
    requires |arena| == w * w && 2 <= n && |cells| == n && IsLine(w, cells, d, c, r)
    requires forall t | 0 <= t < n :: cells[t] < |arena| && arena[cells[t]] == Player(player)
    requires d == Down ==> !(c == 0 && r == n - 1)
    requires d == Right ==> !(r == w - 1 && c + n == w)
    ensures Outcome(arena, w, n, player).0
  {
    if d == Right {
      RowLineFound(arena, w, n, player, cells, c, r);
      FirstWinIsFirstWindow(RowSequence(arena, w, player), n, false);
    } else {
      ColumnLineFound(arena, w, n, player, cells, d, c, r);
      FirstWinIsFirstWindow(Reversed(ColumnSequence(arena, w, player)), n, true);
    }
  }

  // ---------------------------------------------------------------------------
  // Boards the scans get right and wrong.

  /** A board on which the player owns no cell: no win, and nothing is marked. The empty
      board is one. */
  lemma NoPlayerNoWin(arena: seq<Owner>, w: nat, n: nat, player: PlayerId)
    requires |arena| == w * w && 2 <= n
    requires forall x | 0 <= x < |arena| :: arena[x] != Player(player)
    ensures Outcome(arena, w, n, player) == (false, arena)
  {
    var cs := Reversed(ColumnSequence(arena, w, player));
    ColumnScanSound(arena, w, n, player);
    RowScanSound(arena, w, n, player);
    ScanMarksCells(arena, cs, n, player, true);
    ScanMarksCells(arena, RowSequence(arena, w, player), n, player, false);
    assert MarkWon(arena, [], player) == arena;
  }

  /** The player owns exactly one line of `n` cells, and it is neither of the two lines
      the loop bound misses: `validate` reports a win and stamps exactly the cells of
      that line, leaving every other cell as it was. */
  lemma OnlyLineMarked(arena: seq<Owner>, w: nat, n: nat, player: PlayerId,
                       cells: seq<nat>, d: Direction, c: int, r: int)
    requires |arena| == w * w && 2 <= n && |cells| == n && IsLine(w, cells, d, c, r)
    requires OwnsExactly(arena, player, cells)
    requires d == Down ==> !(c == 0 && r == n - 1)
    requires d == Right ==> !(r == w - 1 && c + n == w)
    ensures Outcome(arena, w, n, player).0
    ensures |Outcome(arena, w, n, player).1| == |arena|
    ensures forall x | 0 <= x < |arena| ::
              Outcome(arena, w, n, player).1[x] == if x in cells then Won(player) else arena[x]
  {
    LineOwned(arena, w, player, cells, d, c, r);
    LineFound(arena, w, n, player, cells, d, c, r);
    OutcomeMarks(arena, w, n, player);
    ColumnScanSound(arena, w, n, player);
    RowScanSound(arena, w, n, player);
    var colCells, rowCells := ColumnWinCells(arena, w, n, player), RowWinCells(arena, w, n, player);
    if colCells != [] {
      SameCells(arena, player, colCells, cells);
    }
    if rowCells != [] {
      SameCells(arena, player, rowCells, cells);
    }
  }

  /** Every cell of a line the player owns exactly is an arena slot the player owns. */
  lemma LineOwned(arena: seq<Owner>, w: nat, player: PlayerId, cells: seq<nat>, d: Direction, c: int, r: int)
    requires |arena| == w * w && IsLine(w, cells, d, c, r) && OwnsExactly(arena, player, cells)
    ensures forall t | 0 <= t < |cells| :: cells[t] < |arena| && arena[cells[t]] == Player(player)
  {
    forall t | 0 <= t < |cells| ensures cells[t] < |arena| && arena[cells[t]] == Player(player) {
      CellInBoard(w, Along(d, c, r, t).0, Along(d, c, r, t).1);
    }
  }

  /** `|cells|` distinct cells of the player's, where the player owns exactly `cells`,
      are the cells of `cells`. */
  lemma SameCells(arena: seq<Owner>, player: PlayerId, found: seq<nat>, cells: seq<nat>)
    requires OwnsExactly(arena, player, cells) && |found| == |cells|
    requires forall t, t' | 0 <= t < t' < |found| :: found[t] != found[t']
    requires forall t | 0 <= t < |found| :: found[t] < |arena| && arena[found[t]] == Player(player)
    ensures forall x :: x in found <==> x in cells
  {
    DistinctCover(found, cells);
  }

  /** The `n` cells along direction `d` from `(c, r)` are all on the board and all the
      player's. */
  ghost predicate OwnsLine(arena: seq<Owner>, w: nat, n: nat, player: PlayerId, d: Direction, c: int, r: int)
  {
    forall t | 0 <= t < n ::
      OnBoard(w, Along(d, c, r, t)) &&
      CellAt(w, Along(d, c, r, t).0, Along(d, c, r, t).1) < |arena| &&
      arena[CellAt(w, Along(d, c, r, t).0, Along(d, c, r, t).1)] == Player(player)
  }

  /** A board on which the player owns no line of `n` cells in any direction, however
      many shorter runs it has: no win, and nothing is marked. */
  lemma NoLineNoWin(arena: seq<Owner>, w: nat, n: nat, player: PlayerId)
    requires |arena| == w * w && 2 <= n
    requires forall d, c, r :: !OwnsLine(arena, w, n, player, d, c, r)
    ensures Outcome(arena, w, n, player) == (false, arena)
  {
    ColumnScanSound(arena, w, n, player);
    RowScanSound(arena, w, n, player);
    OutcomeMarks(arena, w, n, player);
    var colCells, rowCells := ColumnWinCells(arena, w, n, player), RowWinCells(arena, w, n, player);
    if colCells != [] {
      var d, c, r :| d != Right && IsLine(w, colCells, d, c, r) && !(d == Down && c == 0 && r == n - 1);
      assert OwnsLine(arena, w, n, player, d, c, r);
    }
    if rowCells != [] {
      var c, r :| IsLine(w, rowCells, Right, c, r) && !(r == w - 1 && c + n == w);
      assert OwnsLine(arena, w, n, player, Right, c, r);
    }
    assert Outcome(arena, w, n, player).1 == arena;
  }

  /** The player owns exactly the cells listed in `line`. */
  ghost predicate OwnsExactly(arena: seq<Owner>, player: PlayerId, line: seq<nat>)
  {
    forall x | 0 <= x < |arena| :: arena[x] == Player(player) <==> x in line
  }

  /** Cells `n - 1` down to `0` of column 0: the vertical line ending at cell 0. */
  function OriginRun(w: nat, n: nat): (line: seq<nat>)
    requires n <= w
    ensures IsLine(w, line, Down, 0, n - 1)
  {
    seq(n, t requires 0 <= t < n => CellAt(w, 0, n - 1 - t))
  }

  /** Cells `w - n` to `w - 1` of the top row: the horizontal line ending at its last cell. */
  function TopRightRun(w: nat, n: nat): (line: seq<nat>)
    requires 1 <= n <= w
    ensures IsLine(w, line, Right, w - n, w - 1)
  {
    var c0: nat, r0: nat := w - n, w - 1;
    seq<nat>(n, (t: nat) requires t < n => CellAt(w, c0 + t, r0))
  }

  lemma InOriginRun(w: nat, n: nat, cells: seq<nat>, d: Direction, c: int, r: int, t: nat)
    requires n <= w && IsLine(w, cells, d, c, r) && t < |cells| && cells[t] in OriginRun(w, n)
    ensures Along(d, c, r, t).0 == 0 && Along(d, c, r, t).1 < n
  {
    var line := OriginRun(w, n);
    var t' :| 0 <= t' < n && line[t'] == cells[t];
    CellAtInjective(w, Along(d, c, r, t).0, Along(d, c, r, t).1, 0, n - 1 - t');
  }

  lemma InTopRightRun(w: nat, n: nat, cells: seq<nat>, d: Direction, c: int, r: int, t: nat)
    requires 1 <= n <= w && IsLine(w, cells, d, c, r) && t < |cells| && cells[t] in TopRightRun(w, n)
    ensures Along(d, c, r, t).1 == w - 1 && w - n <= Along(d, c, r, t).0
  {
    var line := TopRightRun(w, n);
    var t' :| 0 <= t' < n && line[t'] == cells[t];
    CellAtInjective(w, Along(d, c, r, t).0, Along(d, c, r, t).1, w - n + t', w - 1);
  }

  /** No line either scan can report lies inside the vertical line ending at cell 0 of
      column 0: the only line of `n` of its cells is that very line. */
  lemma NoScanLineInOriginRun(w: nat, n: nat, cells: seq<nat>)
    requires 2 <= n <= w && |cells| == n
    requires forall t | 0 <= t < n :: cells[t] in OriginRun(w, n)
    ensures !ColumnScanLine(w, cells) && !RowScanLine(w, cells)
  {
    if ColumnScanLine(w, cells) {
      var d, c, r :| d != Right && IsLine(w, cells, d, c, r) && !(d == Down && c == 0 && r == |cells| - 1);
      InOriginRun(w, n, cells, d, c, r, 0);
      if d == Down {
        LineEnds(w, cells, d, c, r);
      } else {
        InOriginRun(w, n, cells, d, c, r, 1);
      }
      assert false;
    }
    if RowScanLine(w, cells) {
      var c, r :| IsLine(w, cells, Right, c, r) && !(r == w - 1 && c + |cells| == w);
      InOriginRun(w, n, cells, Right, c, r, 0);
      InOriginRun(w, n, cells, Right, c, r, 1);
      assert false;
    }
  }

  /** No line either scan can report lies inside the horizontal line ending at the last
      cell of the top row: the only line of `n` of its cells is that very line. */
  lemma NoScanLineInTopRightRun(w: nat, n: nat, cells: seq<nat>)
    requires 2 <= n <= w && |cells| == n
    requires forall t | 0 <= t < n :: cells[t] in TopRightRun(w, n)
    ensures !ColumnScanLine(w, cells) && !RowScanLine(w, cells)
  {
    if ColumnScanLine(w, cells) {
      var d, c, r :| d != Right && IsLine(w, cells, d, c, r) && !(d == Down && c == 0 && r == |cells| - 1);
      InTopRightRun(w, n, cells, d, c, r, 0);
      InTopRightRun(w, n, cells, d, c, r, 1);
      assert false;
    }
    if RowScanLine(w, cells) {
      var c, r :| IsLine(w, cells, Right, c, r) && !(r == w - 1 && c + |cells| == w);
      InTopRightRun(w, n, cells, Right, c, r, 0);
      LineEnds(w, cells, Right, c, r);
      assert false;
    }
  }

  /** The vertical line ending at cell 0 of column 0 is never reported: on a board where
      the player owns exactly those `n` cells, `validate` finds no win. */
  lemma VerticalRunAtOriginMissed(arena: seq<Owner>, w: nat, n: nat, player: PlayerId)
    requires |arena| == w * w && 2 <= n <= w
    requires OwnsExactly(arena, player, OriginRun(w, n))
    ensures IsLine(w, OriginRun(w, n), Down, 0, n - 1)
    ensures Outcome(arena, w, n, player) == (false, arena)
  {
    ColumnScanSound(arena, w, n, player);
    RowScanSound(arena, w, n, player);
    OutcomeMarks(arena, w, n, player);
    var cells := ColumnWinCells(arena, w, n, player);
    var rcells := RowWinCells(arena, w, n, player);
    if cells != [] {
      NoScanLineInOriginRun(w, n, cells);
    }
    if rcells != [] {
      NoScanLineInOriginRun(w, n, rcells);
    }
  }

  /** The horizontal line ending at the last cell of the top row is never reported: on a
      board where the player owns exactly those `n` cells, `validate` finds no win. */
  lemma HorizontalRunAtTopRightMissed(arena: seq<Owner>, w: nat, n: nat, player: PlayerId)
    requires |arena| == w * w && 2 <= n <= w
    requires OwnsExactly(arena, player, TopRightRun(w, n))
    ensures IsLine(w, TopRightRun(w, n), Right, w - n, w - 1)
    ensures Outcome(arena, w, n, player) == (false, arena)
  {
    ColumnScanSound(arena, w, n, player);
    RowScanSound(arena, w, n, player);
    OutcomeMarks(arena, w, n, player);
    var cells := ColumnWinCells(arena, w, n, player);
    var rcells := RowWinCells(arena, w, n, player);
    if cells != [] {
      NoScanLineInTopRightRun(w, n, cells);
    }
    if rcells != [] {
      NoScanLineInTopRightRun(w, n, rcells);
    }
  }
}
