/** The win validator's specification: projection of views into match records,
    the row transpose, and what the counter-and-buffer scan finds and marks. */
module Validation {
  import opened Owners
  import opened Grid

  /** The sentinel the repository uses for "this cell is not the player's". */
  const NoMatch: int := -1

  /** One validation record: the cell's position inside its view-column when the
      player owns it (else `NoMatch`), and the arena index of the cell itself. */
  datatype Entry = Entry(index: int, cell: nat)

  datatype Option<T> = None | Some(value: T)

  /** Projection of every view-column into records (`createColValidationModel`). */
  function ColValidationModel(arena: seq<Owner>, view: seq<seq<nat>>, player: PlayerId): (model: seq<seq<Entry>>)
    requires Bounded(view, |arena|)
    ensures |model| == |view|
    ensures forall q | 0 <= q < |view| :: |model[q]| == |view[q]|
    ensures forall q, p | 0 <= q < |view| && 0 <= p < |view[q]| ::
              model[q][p].cell == view[q][p] &&
              (model[q][p].index != NoMatch <==> arena[view[q][p]] == Player(player)) &&
              (model[q][p].index == NoMatch || model[q][p].index == p)
  {
    seq(|view|, q requires 0 <= q < |view| =>
      seq(|view[q]|, p requires 0 <= p < |view[q]| =>
        Entry(if arena[view[q][p]] == Player(player) then p else NoMatch, view[q][p])))
  }

  /** Rows of a column model whose columns all hold `m` records: row `r` holds record `r`
      of every column, in column order. */
  function RowModel(colModel: seq<seq<Entry>>, m: nat): seq<seq<Entry>>
    requires Uniform(colModel, m)
  {
    seq(if |colModel| == 0 then 0 else m, r requires 0 <= r < m =>
      seq(|colModel|, c requires 0 <= c < |colModel| => colModel[c][r]))
  }

  // ---------------------------------------------------------------------------
  // The scan.

  /** Whether the pair `(a, b)` continues a run: both match, and the positions step
      down by one (column style) or repeat (row style). */
  predicate Continues(a: Entry, b: Entry, col: bool)
  {
    a.index != NoMatch && b.index != NoMatch &&
    (if col then a.index - b.index == 1 else a.index - b.index == 0)
  }

  /** The counter after the scan has looked at pairs `0 .. i-1`: the number of
      continuing pairs immediately before position `i`. */
  function Run(s: seq<Entry>, i: nat, col: bool): (r: nat)
    requires i == 0 || i < |s|
    ensures r <= i
  {
    if i == 0 then 0
    else if Continues(s[i - 1], s[i], col) then Run(s, i - 1, col) + 1
    else 0
  }

  /** `n` qualifying entries `s[i-n+2 .. i+1]` follow each other: the `n - 1` pairs
      ending at pair `i` all continue. */
  ghost predicate Window(s: seq<Entry>, i: nat, n: nat, col: bool)
    requires 1 <= n && i + 1 < |s|
  {
    n <= i + 2 && forall t | i + 2 - n <= t <= i :: Continues(s[t], s[t + 1], col)
  }

  /** The first pair index `i >= i0` examined by the scan (`i < |s| - 2`) at which the
      counter reaches `n - 1`. */
  function FirstWinFrom(s: seq<Entry>, n: nat, col: bool, i0: nat): (r: Option<nat>)
    ensures r.Some? ==> i0 <= r.value && r.value + 2 < |s| && Run(s, r.value + 1, col) == n - 1
    decreases |s| - i0
  {
    if i0 + 2 >= |s| then None
    else if Run(s, i0 + 1, col) == n - 1 then Some(i0)
    else FirstWinFrom(s, n, col, i0 + 1)
  }

  function FirstWin(s: seq<Entry>, n: nat, col: bool): Option<nat>
  {
    FirstWinFrom(s, n, col, 0)
  }

  /** The arena indices of a stretch of records. */
  function EntryCells(es: seq<Entry>): (cells: seq<nat>)
    ensures |cells| == |es|
    ensures forall t | 0 <= t < |es| :: cells[t] == es[t].cell
  {
    seq(|es|, t requires 0 <= t < |es| => es[t].cell)
  }

  /** The cells buffered when the counter reaches `n - 1` at pair `i`: `s[i-n+2 .. i+1]`. */
  function WinCells(s: seq<Entry>, i: nat, n: nat): (cells: seq<nat>)
    requires 2 <= n && n - 2 <= i && i + 1 < |s|
    ensures |cells| == n
    ensures forall t | 0 <= t < n :: cells[t] == s[i + 2 - n + t].cell
  {
    EntryCells(s[i + 2 - n..i + 2])
  }

  /** A buffer holding the cells of `s[i-n+2 .. i+1]` in order is `WinCells(s, i, n)`. */
  lemma WinCellsOfBuffer(s: seq<Entry>, i: nat, n: nat, buffer: seq<nat>)
    requires 2 <= n && n - 2 <= i && i + 1 < |s|
    requires |buffer| == n && forall t | 0 <= t < n :: buffer[t] == s[i + 2 - n + t].cell
    ensures buffer == WinCells(s, i, n)
  {
  }

  /** The arena after every cell listed in `marked` has been stamped won by `player`. */
  function MarkWon(arena: seq<Owner>, marked: seq<nat>, player: PlayerId): (after: seq<Owner>)
    ensures |after| == |arena|
    ensures forall x | 0 <= x < |arena| ::
              after[x] == (if x in marked then Won(player) else arena[x])
  {
    seq(|arena|, x requires 0 <= x < |arena| => if x in marked then Won(player) else arena[x])
  }

  /** The arena after one scan: unchanged, or with the first window's cells marked. */
  function ScanMarks(arena: seq<Owner>, s: seq<Entry>, n: nat, player: PlayerId, col: bool): seq<Owner>
    requires 2 <= n
  {
    match FirstWin(s, n, col)
    case None => arena
    case Some(i) => MarkWon(arena, WinCells(s, i, n), player)
  }

  /** While no examined pair has hit, the scan's result is still to be found from pair `i` on. */
  lemma {:induction false} FirstWinAfterMisses(s: seq<Entry>, n: nat, col: bool, i: nat)
    requires i == 0 || i < |s|
    requires forall j | 1 <= j <= i :: Run(s, j, col) != n - 1
    ensures FirstWin(s, n, col) == FirstWinFrom(s, n, col, i)
  {
    if i > 0 {
      FirstWinAfterMisses(s, n, col, i - 1);
    }
  }

  /** A hit at pair `i`, with no hit before, is the scan's result, and what it marks is the buffer. */
  lemma ScanHit(arena: seq<Owner>, s: seq<Entry>, n: nat, player: PlayerId, col: bool, i: nat, buffer: seq<nat>)
    requires 2 <= n && i + 2 < |s| && Run(s, i + 1, col) == n - 1
    requires forall j | 1 <= j <= i :: Run(s, j, col) != n - 1
    requires |buffer| == n && forall t | 0 <= t < n :: buffer[t] == s[i + 2 - n + t].cell
    ensures FirstWin(s, n, col) == Some(i)
    ensures ScanMarks(arena, s, n, player, col) == MarkWon(arena, buffer, player)
  {
    FirstWinAfterMisses(s, n, col, i);
    WinCellsOfBuffer(s, i, n, buffer);
  }

  /** A scan that ran out of pairs without a hit finds nothing. */
  lemma ScanExhausted(s: seq<Entry>, n: nat, col: bool, i: nat)
    requires (i == 0 || i < |s|) && |s| <= i + 2
    requires forall j | 1 <= j <= i :: Run(s, j, col) != n - 1
    ensures FirstWin(s, n, col) == None
  {
    FirstWinAfterMisses(s, n, col, i);
  }

  // ---------------------------------------------------------------------------
  // What the scan finds, stated without the counter.

  /** The counter has reached `n - 1` at pair `i` exactly when `n` qualifying entries end
      at `s[i + 1]`. */
  lemma {:induction false} RunWindow(s: seq<Entry>, i: nat, n: nat, col: bool)
    requires 1 <= n && i + 1 < |s|
    ensures Run(s, i + 1, col) >= n - 1 <==> Window(s, i, n, col)
  {
    if n > 1 && Continues(s[i], s[i + 1], col) && i > 0 {
      RunWindow(s, i - 1, n - 1, col);
      if Window(s, i - 1, n - 1, col) {
        assert Window(s, i, n, col);
      }
    }
  }

  /** Past a stretch where the counter never hit `n - 1`, it stayed below `n - 1`. */
  lemma {:induction false} RunBelow(s: seq<Entry>, n: nat, col: bool, i: nat)
    requires 2 <= n && i < |s|
    requires forall j | 1 <= j <= i :: Run(s, j, col) != n - 1
    ensures Run(s, i, col) < n - 1
  {
    if i > 0 {
      RunBelow(s, n, col, i - 1);
    }
  }

  lemma {:induction false} FirstWinFromSkips(s: seq<Entry>, n: nat, col: bool, i0: nat)
    ensures FirstWinFrom(s, n, col, i0).None? ==>
              forall j | i0 < j && j + 1 < |s| :: Run(s, j, col) != n - 1
    ensures FirstWinFrom(s, n, col, i0).Some? ==>
              forall j | i0 < j <= FirstWinFrom(s, n, col, i0).value :: Run(s, j, col) != n - 1
    decreases |s| - i0
  {
    if i0 + 2 < |s| && Run(s, i0 + 1, col) != n - 1 {
      FirstWinFromSkips(s, n, col, i0 + 1);
    }
  }

  /** The scan succeeds exactly when some examined pair `i` (that is `i < |s| - 2`) ends a
      window of `n` qualifying entries, and it stops at the first such `i`. */
  lemma FirstWinIsFirstWindow(s: seq<Entry>, n: nat, col: bool)
    requires 2 <= n
    ensures FirstWin(s, n, col).Some? <==>
              exists i | 0 <= i && i + 2 < |s| :: Window(s, i, n, col)
    ensures FirstWin(s, n, col).Some? ==>
              FirstWin(s, n, col).value + 2 < |s| &&
              Window(s, FirstWin(s, n, col).value, n, col) &&
              forall j | 0 <= j < FirstWin(s, n, col).value :: !Window(s, j, n, col)
  {
    FirstWinFromSkips(s, n, col, 0);
    match FirstWin(s, n, col)
    case None =>
      forall i | 0 <= i && i + 2 < |s|
        ensures !Window(s, i, n, col)
      {
        RunBelow(s, n, col, i + 1);
        RunWindow(s, i, n, col);
      }
    case Some(i) =>
      RunWindow(s, i, n, col);
      forall j | 0 <= j < i
        ensures !Window(s, j, n, col)
      {
        RunBelow(s, n, col, j + 1);
        RunWindow(s, j, n, col);
      }
  }

  /** The pairs of the window a successful scan stops at all continue. */
  lemma FoundWindow(s: seq<Entry>, n: nat, col: bool, i: nat)
    requires 2 <= n && FirstWin(s, n, col) == Some(i)
    ensures n - 2 <= i && i + 2 < |s|
    ensures forall t | i + 2 - n <= t <= i :: Continues(s[t], s[t + 1], col)
  {
    RunWindow(s, i, n, col);
  }

  /** The last entry of the scanned sequence is never read: two sequences that differ
      only in their last entry give the same scan. So a run whose last pair is the
      sequence's final pair is not reported. */
  lemma {:induction false} FinalPairIgnored(s: seq<Entry>, s': seq<Entry>, n: nat, col: bool, i0: nat)
    requires |s| == |s'| && 0 < |s| && s[..|s| - 1] == s'[..|s| - 1]
    ensures FirstWinFrom(s, n, col, i0) == FirstWinFrom(s', n, col, i0)
    decreases |s| - i0
  {
    if i0 + 2 < |s| {
      RunPrefix(s, s', i0 + 1, col);
      FinalPairIgnored(s, s', n, col, i0 + 1);
    }
  }

  lemma {:induction false} RunPrefix(s: seq<Entry>, s': seq<Entry>, i: nat, col: bool)
    requires |s| == |s'| && i + 1 < |s| && s[..|s| - 1] == s'[..|s| - 1]
    ensures Run(s, i, col) == Run(s', i, col)
  {
    if i > 0 {
      assert s[i - 1] == s[..|s| - 1][i - 1] && s[i] == s[..|s| - 1][i];
      assert s'[i - 1] == s'[..|s| - 1][i - 1] && s'[i] == s'[..|s| - 1][i];
      RunPrefix(s, s', i - 1, col);
    }
  }
}
