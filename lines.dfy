/** Straight lines of cells on the board, and where each line sits in the views the
    validator scans: vertical lines in the plain columns, the two diagonals in the two
    skewed views, horizontal lines in the rows. */
module Lines {
  import opened Sequences
  import opened Grid

  /** The direction a line is read in, from its first cell. A vertical line is read
      downwards, a horizontal line rightwards, and the two diagonals upwards. */
  datatype Direction = Down | Right | UpLeft | UpRight

  /** Column and row of cell `t` of the line from `(c, r)` in direction `d`. */
  function Along(d: Direction, c: int, r: int, t: int): (int, int)
  {
    match d
    case Down => (c, r - t)
    case Right => (c + t, r)
    case UpLeft => (c - t, r + t)
    case UpRight => (c + t, r + t)
  }

  ghost predicate OnBoard(w: nat, cr: (int, int))
  {
    0 <= cr.0 < w && 0 <= cr.1 < w
  }

  /** `cells` are the arena indices of the `|cells|` cells of the line from `(c, r)` in
      direction `d`, every one of them on the board. */
  ghost predicate IsLine(w: nat, cells: seq<nat>, d: Direction, c: int, r: int)
  {
    forall t | 0 <= t < |cells| ::
      OnBoard(w, Along(d, c, r, t)) && cells[t] == CellAt(w, Along(d, c, r, t).0, Along(d, c, r, t).1)
  }

  /** The cells of a line are pairwise distinct, so marking a line of `n` cells changes
      exactly `n` cells. */
  lemma LineDistinct(w: nat, cells: seq<nat>, d: Direction, c: int, r: int)
    requires IsLine(w, cells, d, c, r)
    ensures forall t, t' | 0 <= t < t' < |cells| :: cells[t] != cells[t']
  {
    forall t, t' | 0 <= t < t' < |cells|
      ensures cells[t] != cells[t']
    {
      var a, b := Along(d, c, r, t), Along(d, c, r, t');
      CellAtInjective(w, a.0, a.1, b.0, b.1);
    }
  }

  /** The first and the last cell of a line are on the board. */
  lemma LineEnds(w: nat, cells: seq<nat>, d: Direction, c: int, r: int)
    requires IsLine(w, cells, d, c, r) && 0 < |cells|
    ensures OnBoard(w, Along(d, c, r, 0)) && OnBoard(w, Along(d, c, r, |cells| - 1))
  {
  }

  /** A line the column scan can report: vertical or diagonal, and not the vertical line
      whose lowest cell is cell 0 of column 0. */
  ghost predicate ColumnScanLine(w: nat, cells: seq<nat>)
  {
    exists d, c, r :: d != Right && IsLine(w, cells, d, c, r) && !(d == Down && c == 0 && r == |cells| - 1)
  }

  /** A line the row scan can report: horizontal, and not ending at the last cell of the
      top row. */
  ghost predicate RowScanLine(w: nat, cells: seq<nat>)
  {
    exists c, r :: IsLine(w, cells, Right, c, r) && !(r == w - 1 && c + |cells| == w)
  }

  // ---------------------------------------------------------------------------
  // The column-like views, joined as the validator joins them.

  /** Plain columns, then the skew of the columns, then the skew of the reversed columns. */
  function ColumnViews(w: nat): seq<seq<nat>>
  {
    ColumnsHaveBoardCells(w);
    Columns(w) + Skewed(Columns(w), w) + Skewed(Reversed(Columns(w)), w)
  }

  /** Where each of the three views sits inside the joined sequence of views. */
  lemma ColumnViewsAt(w: nat)
    requires 1 <= w
    ensures Uniform(Columns(w), w) && Uniform(Reversed(Columns(w)), w)
    ensures |ColumnViews(w)| == 5 * w - 2
    ensures forall q | 0 <= q < w :: ColumnViews(w)[q] == Columns(w)[q]
    ensures forall k | 0 <= k < 2 * w - 1 :: ColumnViews(w)[w + k] == Skewed(Columns(w), w)[k]
    ensures forall k | 0 <= k < 2 * w - 1 ::
              ColumnViews(w)[3 * w - 1 + k] == Skewed(Reversed(Columns(w)), w)[k]
  {
    ColumnsHaveBoardCells(w);
  }

  /** The cells of a plain column from row `r` down are a vertical line. */
  lemma PlainColumnLine(w: nat, c: nat, r: nat, n: nat)
    requires c < w && r < w && n <= r + 1
    ensures forall t | 0 <= t < n ::
              OnBoard(w, Along(Down, c, r, t)) &&
              Columns(w)[c][r - t] == CellAt(w, Along(Down, c, r, t).0, Along(Down, c, r, t).1)
  {
  }

  /** Column `i` of the reversed columns is column `w - 1 - i`. */
  lemma ReversedColumnsAt(w: nat, i: nat)
    requires i < w
    ensures Reversed(Columns(w))[i] == ColumnCells(w, w - 1 - i)
  {
  }

  /** `n` consecutive cells `p0 ..` of a view-column of the skewed columns, read from the
      highest offset down, are a diagonal read up and to the left. */
  lemma SkewedLine(w: nat, k: nat, p0: nat, n: nat) returns (c: int, r: int)
    requires 1 <= w && k < 2 * w - 1 && 1 <= n
    requires Uniform(Columns(w), w) && p0 + n <= |Skewed(Columns(w), w)[k]|
    ensures forall t | 0 <= t < n ::
              OnBoard(w, Along(UpLeft, c, r, t)) &&
              Skewed(Columns(w), w)[k][p0 + n - 1 - t] ==
                CellAt(w, Along(UpLeft, c, r, t).0, Along(UpLeft, c, r, t).1)
  {
    SkewedShape(Columns(w), w);
    var low := DiagLow(k, w);
    c, r := low + p0 + n - 1, k - low - (p0 + n - 1);
    forall t | 0 <= t < n
      ensures OnBoard(w, Along(UpLeft, c, r, t)) &&
              Skewed(Columns(w), w)[k][p0 + n - 1 - t] ==
                CellAt(w, Along(UpLeft, c, r, t).0, Along(UpLeft, c, r, t).1)
    {
      var p := p0 + n - 1 - t;
      assert Skewed(Columns(w), w)[k][p] == Columns(w)[low + p][k - low - p];
    }
  }

  /** `n` consecutive cells `p0 ..` of a view-column of the skewed reversed columns, read
      from the highest offset down, are a diagonal read up and to the right. */
  lemma SkewedReversedLine(w: nat, k: nat, p0: nat, n: nat) returns (c: int, r: int)
    requires 1 <= w && k < 2 * w - 1 && 1 <= n
    requires Uniform(Reversed(Columns(w)), w) && p0 + n <= |Skewed(Reversed(Columns(w)), w)[k]|
    ensures forall t | 0 <= t < n ::
              OnBoard(w, Along(UpRight, c, r, t)) &&
              Skewed(Reversed(Columns(w)), w)[k][p0 + n - 1 - t] ==
                CellAt(w, Along(UpRight, c, r, t).0, Along(UpRight, c, r, t).1)
  {
    var rev := Reversed(Columns(w));
    SkewedShape(rev, w);
    var low := DiagLow(k, w);
    c, r := w - 1 - low - (p0 + n - 1), k - low - (p0 + n - 1);
    forall t | 0 <= t < n
      ensures OnBoard(w, Along(UpRight, c, r, t)) &&
              Skewed(rev, w)[k][p0 + n - 1 - t] ==
                CellAt(w, Along(UpRight, c, r, t).0, Along(UpRight, c, r, t).1)
    {
      var p := p0 + n - 1 - t;
      assert Skewed(rev, w)[k][p] == rev[low + p][k - low - p];
      ReversedColumnsAt(w, low + p);
    }
  }

  /** `n` consecutive cells of any column-like view, read from the highest offset down, are
      a vertical line (in a plain column) or a diagonal (in a skewed view). */
  lemma ColumnViewLine(w: nat, q: nat, p0: nat, n: nat) returns (d: Direction, c: int, r: int)
    requires 1 <= w && 1 <= n && q < |ColumnViews(w)| && p0 + n <= |ColumnViews(w)[q]|
    ensures d != Right
    ensures d == Down ==> q < w && c == q && r == p0 + n - 1
    ensures d != Down ==> w <= q
    ensures forall t | 0 <= t < n ::
              OnBoard(w, Along(d, c, r, t)) &&
              ColumnViews(w)[q][p0 + n - 1 - t] == CellAt(w, Along(d, c, r, t).0, Along(d, c, r, t).1)
  {
    ColumnViewsAt(w);
    if q < w {
      PlainColumnLine(w, q, p0 + n - 1, n);
      d, c, r := Down, q, p0 + n - 1;
    } else if q < 3 * w - 1 {
      c, r := SkewedLine(w, q - w, p0, n);
      d := UpLeft;
    } else {
      c, r := SkewedReversedLine(w, q - (3 * w - 1), p0, n);
      d := UpRight;
    }
  }

  /** An up-left diagonal is `n` consecutive cells of view-column `c + r` of the skewed
      columns, read from the highest offset down. */
  lemma UpLeftInSkewed(w: nat, c: int, r: int, n: nat) returns (p0: nat)
    requires 1 <= n && Uniform(Columns(w), w)
    requires forall t | 0 <= t < n :: OnBoard(w, Along(UpLeft, c, r, t))
    ensures 0 <= c + r < |Skewed(Columns(w), w)| && p0 + n <= |Skewed(Columns(w), w)[c + r]|
    ensures forall t | 0 <= t < n ::
              OnBoard(w, Along(UpLeft, c, r, t)) &&
              Skewed(Columns(w), w)[c + r][p0 + n - 1 - t] ==
                CellAt(w, Along(UpLeft, c, r, t).0, Along(UpLeft, c, r, t).1)
  {
    assert OnBoard(w, Along(UpLeft, c, r, 0)) && OnBoard(w, Along(UpLeft, c, r, n - 1));
    SkewedPlacement(Columns(w), w, c - (n - 1), r + (n - 1));
    SkewedPlacement(Columns(w), w, c, r);
    p0 := c - (n - 1) - DiagLow(c + r, w);
    forall t | 0 <= t < n
      ensures Skewed(Columns(w), w)[c + r][p0 + n - 1 - t] ==
                CellAt(w, Along(UpLeft, c, r, t).0, Along(UpLeft, c, r, t).1)
    {
      assert OnBoard(w, Along(UpLeft, c, r, t));
      SkewedPlacement(Columns(w), w, c - t, r + t);
    }
  }

  /** Cell `j` of column `c` sits in view-column `(w - 1 - c) + j` of the skewed reversed
      columns, at offset `(w - 1 - c) - DiagLow((w - 1 - c) + j, w)`. */
  lemma SkewedReversedPlacement(w: nat, c: nat, j: nat)
    requires c < w && j < w
    ensures (w - 1 - c) + j < |Skewed(Reversed(Columns(w)), w)|
    ensures DiagLow((w - 1 - c) + j, w) <= w - 1 - c
    ensures (w - 1 - c) - DiagLow((w - 1 - c) + j, w) < |Skewed(Reversed(Columns(w)), w)[(w - 1 - c) + j]|
    ensures Skewed(Reversed(Columns(w)), w)[(w - 1 - c) + j][(w - 1 - c) - DiagLow((w - 1 - c) + j, w)] ==
            CellAt(w, c, j)
  {
    ColumnsHaveBoardCells(w);
    SkewedPlacement(Reversed(Columns(w)), w, w - 1 - c, j);
    ReversedColumnsAt(w, w - 1 - c);
  }

  /** An up-right diagonal is `n` consecutive cells of view-column `(w - 1 - c) + r` of the
      skewed reversed columns, read from the highest offset down. */
  lemma UpRightInSkewedReversed(w: nat, c: int, r: int, n: nat) returns (p0: nat)
    requires 1 <= n
    requires forall t | 0 <= t < n :: OnBoard(w, Along(UpRight, c, r, t))
    ensures 0 <= (w - 1 - c) + r < |Skewed(Reversed(Columns(w)), w)|
    ensures p0 + n <= |Skewed(Reversed(Columns(w)), w)[(w - 1 - c) + r]|
    ensures forall t | 0 <= t < n ::
              OnBoard(w, Along(UpRight, c, r, t)) &&
              Skewed(Reversed(Columns(w)), w)[(w - 1 - c) + r][p0 + n - 1 - t] ==
                CellAt(w, Along(UpRight, c, r, t).0, Along(UpRight, c, r, t).1)
  {
    var k := (w - 1 - c) + r;
    assert OnBoard(w, Along(UpRight, c, r, 0)) && OnBoard(w, Along(UpRight, c, r, n - 1));
    SkewedReversedPlacement(w, c + (n - 1), r + (n - 1));
    SkewedReversedPlacement(w, c, r);
    p0 := (w - 1 - c) - (n - 1) - DiagLow(k, w);
    forall t | 0 <= t < n
      ensures Skewed(Reversed(Columns(w)), w)[k][p0 + n - 1 - t] ==
                CellAt(w, Along(UpRight, c, r, t).0, Along(UpRight, c, r, t).1)
    {
      assert OnBoard(w, Along(UpRight, c, r, t));
      SkewedReversedPlacement(w, c + t, r + t);
    }
  }

  /** View-column `k` of the skewed columns is view `w + k` of the joined views. */
  lemma ColumnViewsSkewedAt(w: nat, k: nat)
    requires 1 <= w && k < 2 * w - 1
    ensures w + k < |ColumnViews(w)| && ColumnViews(w)[w + k] == Skewed(Columns(w), w)[k]
  {
    ColumnsHaveBoardCells(w);
    SkewedShape(Columns(w), w);
  }

  /** View-column `k` of the skewed reversed columns is view `3 * w - 1 + k` of the joined
      views. */
  lemma ColumnViewsSkewedReversedAt(w: nat, k: nat)
    requires 1 <= w && k < 2 * w - 1
    ensures 3 * w - 1 + k < |ColumnViews(w)|
    ensures ColumnViews(w)[3 * w - 1 + k] == Skewed(Reversed(Columns(w)), w)[k]
  {
    ColumnsHaveBoardCells(w);
    SkewedShape(Columns(w), w);
    SkewedShape(Reversed(Columns(w)), w);
  }

  /** A vertical line is `n` consecutive cells of its own plain column. */
  lemma DownInViews(w: nat, c: int, r: int, n: nat)
    requires 1 <= n
    requires forall t | 0 <= t < n :: OnBoard(w, Along(Down, c, r, t))
    ensures 0 <= c < w <= |ColumnViews(w)| && 0 <= r - (n - 1) && r + 1 <= |ColumnViews(w)[c]|
    ensures forall t | 0 <= t < n ::
              OnBoard(w, Along(Down, c, r, t)) &&
              ColumnViews(w)[c][r - t] == CellAt(w, Along(Down, c, r, t).0, Along(Down, c, r, t).1)
  {
    assert OnBoard(w, Along(Down, c, r, 0)) && OnBoard(w, Along(Down, c, r, n - 1));
    ColumnViewsAt(w);
    PlainColumnLine(w, c, r, n);
  }

  /** An up-left diagonal is `n` consecutive cells of view `w + c + r`. */
  lemma UpLeftInViews(w: nat, c: int, r: int, n: nat) returns (p0: nat)
    requires 1 <= n
    requires forall t | 0 <= t < n :: OnBoard(w, Along(UpLeft, c, r, t))
    ensures 0 <= c + r && w + (c + r) < |ColumnViews(w)| && p0 + n <= |ColumnViews(w)[w + (c + r)]|
    ensures forall t | 0 <= t < n ::
              OnBoard(w, Along(UpLeft, c, r, t)) &&
              ColumnViews(w)[w + (c + r)][p0 + n - 1 - t] ==
                CellAt(w, Along(UpLeft, c, r, t).0, Along(UpLeft, c, r, t).1)
  {
    assert OnBoard(w, Along(UpLeft, c, r, 0));
    ColumnsHaveBoardCells(w);
    p0 := UpLeftInSkewed(w, c, r, n);
    ColumnViewsSkewedAt(w, c + r);
  }

  /** An up-right diagonal is `n` consecutive cells of view `3 * w - 1 + (w - 1 - c) + r`. */
  lemma UpRightInViews(w: nat, c: int, r: int, n: nat) returns (p0: nat)
    requires 1 <= n
    requires forall t | 0 <= t < n :: OnBoard(w, Along(UpRight, c, r, t))
    ensures 1 <= w && 0 <= (w - 1 - c) + r && 3 * w - 1 + ((w - 1 - c) + r) < |ColumnViews(w)|
    ensures p0 + n <= |ColumnViews(w)[3 * w - 1 + ((w - 1 - c) + r)]|
    ensures forall t | 0 <= t < n ::
              OnBoard(w, Along(UpRight, c, r, t)) &&
              ColumnViews(w)[3 * w - 1 + ((w - 1 - c) + r)][p0 + n - 1 - t] ==
                CellAt(w, Along(UpRight, c, r, t).0, Along(UpRight, c, r, t).1)
  {
    assert OnBoard(w, Along(UpRight, c, r, 0));
    p0 := UpRightInSkewedReversed(w, c, r, n);
    ColumnViewsSkewedReversedAt(w, (w - 1 - c) + r);
  }

  /** Conversely, every vertical or diagonal line on the board is `n` consecutive cells of
      one column-like view, read from the highest offset down: a vertical line in its own
      plain column, a diagonal in one of the skewed views. */
  lemma ColumnViewOfLine(w: nat, d: Direction, c: int, r: int, n: nat) returns (q: nat, p0: nat)
    requires d != Right && 1 <= n
    requires forall t | 0 <= t < n :: OnBoard(w, Along(d, c, r, t))
    ensures q < |ColumnViews(w)| && p0 + n <= |ColumnViews(w)[q]|
    ensures d == Down ==> q == c && p0 + n - 1 == r
    ensures d != Down ==> w <= q
    ensures forall t | 0 <= t < n ::
              OnBoard(w, Along(d, c, r, t)) &&
              ColumnViews(w)[q][p0 + n - 1 - t] == CellAt(w, Along(d, c, r, t).0, Along(d, c, r, t).1)
  {
    match d
    case Down =>
      DownInViews(w, c, r, n);
      q, p0 := c, r - (n - 1);
    case UpLeft =>
      p0 := UpLeftInViews(w, c, r, n);
      q := w + (c + r);
    case UpRight =>
      p0 := UpRightInViews(w, c, r, n);
      q := 3 * w - 1 + ((w - 1 - c) + r);
  }
}
