/** The ownership tag of one board cell. The repository formats the won tag as a
    string (`"<win> <player>"`); here it is a constructor of its own, so a won cell
    can never compare equal to a cell still owned by a player. */
module Owners {
  type PlayerId = string

  datatype Owner = Empty | Player(id: PlayerId) | Won(id: PlayerId)
}

/** The layout of a square board of `w` columns of `w` cells, as arena indices:
    cell `r` of column `c` lives at index `c * w + r`. Also the skew that turns
    diagonals into columns. */
module Grid {
  import opened Sequences

  function CellAt(w: nat, c: nat, r: nat): nat
  {
    c * w + r
  }

  lemma CellInBoard(w: nat, c: nat, r: nat)
    requires c < w && r < w
    ensures CellAt(w, c, r) < w * w
  {
    assert c * w + r < c * w + w == (c + 1) * w;
    assert (c + 1) * w <= w * w;
  }

  /** Two cells coincide exactly when their columns and rows do. */
  lemma CellAtInjective(w: nat, c: nat, r: nat, c': nat, r': nat)
    requires r < w && r' < w
    ensures CellAt(w, c, r) == CellAt(w, c', r') <==> c == c' && r == r'
  {
    if c < c' {
      assert c * w + w <= c' * w by {
        assert (c + 1) * w <= c' * w;
      }
    } else if c' < c {
      assert c' * w + w <= c * w by {
        assert (c' + 1) * w <= c * w;
      }
    }
  }

  /** The arena indices of column `c`, bottom to top. */
  function ColumnCells(w: nat, c: nat): seq<nat>
  {
    seq(w, r requires 0 <= r < w => CellAt(w, c, r))
  }

  /** The board's columns, left to right. */
  function Columns(w: nat): seq<seq<nat>>
  {
    seq(w, c requires 0 <= c < w => ColumnCells(w, c))
  }

  ghost predicate Uniform<T>(cols: seq<seq<T>>, m: nat)
  {
    forall c | 0 <= c < |cols| :: |cols[c]| == m
  }

  ghost predicate Bounded(view: seq<seq<nat>>, bound: nat)
  {
    forall q, p | 0 <= q < |view| && 0 <= p < |view[q]| :: view[q][p] < bound
  }

  lemma ColumnsHaveBoardCells(w: nat)
    ensures Uniform(Columns(w), w)
    ensures Bounded(Columns(w), w * w)
    ensures Uniform(Reversed(Columns(w)), w)
    ensures Bounded(Reversed(Columns(w)), w * w)
  {
    forall q, p | 0 <= q < w && 0 <= p < w
      ensures Columns(w)[q][p] < w * w
    {
      CellInBoard(w, q, p);
    }
  }

  // ---------------------------------------------------------------------------
  // The skew: cell j of column c goes to view-column c + j.

  /** Number of view-columns the skew of `n` columns of `m` cells produces. */
  function SkewCount(n: nat, m: nat): nat
  {
    if n == 0 || m == 0 then 0 else n + m - 1
  }

  /** The first column contributing to view-column `k`. */
  function DiagLow(k: nat, m: nat): nat
  {
    if k < m then 0 else k - m + 1
  }

  /** The cells that columns `0 .. C-1` contribute to view-column `k`, in column order:
      column `c` contributes its cell `k - c` when that cell exists. */
  function Diagonal<T>(cols: seq<seq<T>>, m: nat, k: nat, C: nat): seq<T>
    requires C <= |cols| && Uniform(cols, m)
  {
    if C == 0 then []
    else Diagonal(cols, m, k, C - 1) +
         (if C - 1 <= k < C - 1 + m then [cols[C - 1][k - (C - 1)]] else [])
  }

  /** The skewed view of `cols`: view-column `k` gathers cell `k - c` of every column `c`. */
  function Skewed<T>(cols: seq<seq<T>>, m: nat): seq<seq<T>>
    requires Uniform(cols, m)
  {
    seq(SkewCount(|cols|, m), k requires 0 <= k => Diagonal(cols, m, k, |cols|))
  }

  /** Number of cells columns `0 .. C-1` put into view-column `k`. */
  function DiagLength(k: nat, m: nat, C: nat): nat
  {
    var hi := if k + 1 < C then k + 1 else C;
    if hi > DiagLow(k, m) then hi - DiagLow(k, m) else 0
  }

  /** Closed form of the partial view-column: entry `p` is cell `k - c` of column
      `c = DiagLow(k, m) + p`, so the entries run in increasing column order. */
  lemma {:induction false} DiagonalAt<T>(cols: seq<seq<T>>, m: nat, k: nat, C: nat)
    requires C <= |cols| && Uniform(cols, m)
    ensures |Diagonal(cols, m, k, C)| == DiagLength(k, m, C)
    ensures forall p | 0 <= p < DiagLength(k, m, C) ::
              DiagLow(k, m) + p < C && k - DiagLow(k, m) - p < m &&
              Diagonal(cols, m, k, C)[p] == cols[DiagLow(k, m) + p][k - DiagLow(k, m) - p]
  {
    if C > 0 {
      DiagonalAt(cols, m, k, C - 1);
    }
  }

  /** The skew of `n` columns of `m` cells has `n + m - 1` view-columns; view-column `k`
      lists, for increasing columns `c`, cell `k - c` of column `c`. */
  lemma SkewedShape<T>(cols: seq<seq<T>>, m: nat)
    requires Uniform(cols, m) && 0 < |cols| && 0 < m
    ensures |Skewed(cols, m)| == |cols| + m - 1
    ensures forall k | 0 <= k < |cols| + m - 1 ::
              |Skewed(cols, m)[k]| == DiagLength(k, m, |cols|)
    ensures forall k, p | 0 <= k < |cols| + m - 1 && 0 <= p < DiagLength(k, m, |cols|) ::
              DiagLow(k, m) + p < |cols| && k - DiagLow(k, m) - p < m &&
              Skewed(cols, m)[k][p] == cols[DiagLow(k, m) + p][k - DiagLow(k, m) - p]
  {
    forall k | 0 <= k < |cols| + m - 1
      ensures |Skewed(cols, m)[k]| == DiagLength(k, m, |cols|)
      ensures forall p | 0 <= p < DiagLength(k, m, |cols|) ::
              DiagLow(k, m) + p < |cols| && k - DiagLow(k, m) - p < m &&
              Skewed(cols, m)[k][p] == cols[DiagLow(k, m) + p][k - DiagLow(k, m) - p]
    {
      DiagonalAt(cols, m, k, |cols|);
    }
  }

  /** Cell `j` of column `c` sits in view-column `c + j`, at offset `c - DiagLow(c + j, m)`. */
  lemma SkewedPlacement<T>(cols: seq<seq<T>>, m: nat, c: nat, j: nat)
    requires Uniform(cols, m) && c < |cols| && j < m
    ensures c + j < |Skewed(cols, m)|
    ensures DiagLow(c + j, m) <= c
    ensures c - DiagLow(c + j, m) < |Skewed(cols, m)[c + j]|
    ensures Skewed(cols, m)[c + j][c - DiagLow(c + j, m)] == cols[c][j]
  {
    SkewedShape(cols, m);
  }

  /** The skew only re-indexes: each entry of the skewed view is some cell of the input. */
  lemma SkewedFromInput<T>(cols: seq<seq<T>>, m: nat)
    requires Uniform(cols, m)
    ensures forall k, p | 0 <= k < |Skewed(cols, m)| && 0 <= p < |Skewed(cols, m)[k]| ::
              exists c, j | 0 <= c < |cols| && 0 <= j < m :: Skewed(cols, m)[k][p] == cols[c][j]
  {
    var skewed := Skewed(cols, m);
    forall k, p | 0 <= k < |skewed| && 0 <= p < |skewed[k]|
      ensures exists c, j | 0 <= c < |cols| && 0 <= j < m :: skewed[k][p] == cols[c][j]
    {
      var c, j := SkewedSource(cols, m, k, p);
    }
  }

  /** Every entry of the skewed view stays below any bound the input's entries respect,
      so the skewed views index arena slots. */
  lemma SkewedBounded(cols: seq<seq<nat>>, m: nat, bound: nat)
    requires Uniform(cols, m) && Bounded(cols, bound)
    ensures Bounded(Skewed(cols, m), bound)
  {
    SkewedFromInput(cols, m);
  }

  /** Where entry `p` of view-column `k` comes from. */
  lemma SkewedSource<T>(cols: seq<seq<T>>, m: nat, k: nat, p: nat) returns (c: nat, j: nat)
    requires Uniform(cols, m) && k < |Skewed(cols, m)| && p < |Skewed(cols, m)[k]|
    ensures c < |cols| && j < m && Skewed(cols, m)[k][p] == cols[c][j]
  {
    SkewedShape(cols, m);
    c, j := DiagLow(k, m) + p, k - DiagLow(k, m) - p;
  }

  /** On the board's own columns the skew is a bijection: arena cell `(c, j)` is found at
      exactly one place of the skewed view, view-column `c + j` at offset `c - DiagLow(c + j, w)`,
      and nowhere else. */
  lemma {:induction false} SkewedExactlyOnce(w: nat, c: nat, j: nat, k: nat, p: nat)
    requires c < w && j < w
    requires k < |Skewed(Columns(w), w)| && p < |Skewed(Columns(w), w)[k]|
    ensures Skewed(Columns(w), w)[k][p] == CellAt(w, c, j) <==>
            k == c + j && p == c - DiagLow(c + j, w)
  {
    ColumnsHaveBoardCells(w);
    SkewedShape(Columns(w), w);
    var c', j' := DiagLow(k, w) + p, k - DiagLow(k, w) - p;
    assert Skewed(Columns(w), w)[k][p] == CellAt(w, c', j');
    CellAtInjective(w, c, j, c', j');
  }

  /** The same bijection on the reversed columns: arena cell `(c, j)` sits only in
      view-column `(w - 1 - c) + j` of the skewed reversed view. */
  lemma {:induction false} SkewedReversedExactlyOnce(w: nat, c: nat, j: nat, k: nat, p: nat)
    requires c < w && j < w
    requires k < |Skewed(Reversed(Columns(w)), w)| && p < |Skewed(Reversed(Columns(w)), w)[k]|
    ensures Skewed(Reversed(Columns(w)), w)[k][p] == CellAt(w, c, j) <==>
            k == (w - 1 - c) + j && p == (w - 1 - c) - DiagLow((w - 1 - c) + j, w)
  {
    ColumnsHaveBoardCells(w);
    var rev := Reversed(Columns(w));
    assert Uniform(rev, w);
    SkewedShape(rev, w);
    var i', j' := DiagLow(k, w) + p, k - DiagLow(k, w) - p;
    assert rev[i'] == Columns(w)[w - 1 - i'];
    assert Skewed(rev, w)[k][p] == CellAt(w, w - 1 - i', j');
    CellAtInjective(w, c, j, w - 1 - i', j');
  }
}
