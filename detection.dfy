/** What `validate` computes, as functions of the arena, and what it detects. */
module Detection {
  import opened Owners
  import opened Sequences
  import opened Grid
  import opened Validation

  /** The three column-like validation models, joined in the order the board joins them:
      plain columns, skewed columns, skewed reversed columns. */
  function ColumnModels(arena: seq<Owner>, w: nat, player: PlayerId): seq<seq<Entry>>
    requires |arena| == w * w
  {
    ColumnsHaveBoardCells(w);
    SkewedBounded(Columns(w), w, w * w);
    SkewedBounded(Reversed(Columns(w)), w, w * w);
    ColValidationModel(arena, Columns(w), player) +
    ColValidationModel(arena, Skewed(Columns(w), w), player) +
    ColValidationModel(arena, Skewed(Reversed(Columns(w)), w), player)
  }

  /** The merged column sequence, before the scan reverses it. */
  function ColumnSequence(arena: seq<Owner>, w: nat, player: PlayerId): seq<Entry>
    requires |arena| == w * w
  {
    Flatten(ColumnModels(arena, w, player))
  }

  /** The merged row sequence: the plain column model transposed, then flattened. */
  function RowSequence(arena: seq<Owner>, w: nat, player: PlayerId): seq<Entry>
    requires |arena| == w * w
  {
    ColumnsHaveBoardCells(w);
    Flatten(RowModel(ColValidationModel(arena, Columns(w), player), w))
  }

  /** The result of `validate(n, player)` on a board of width `w` whose cells own `arena`,
      and the arena afterwards: the column scan runs (and marks) first, then the row scan
      runs on records computed before any marking. */
  function Outcome(arena: seq<Owner>, w: nat, n: nat, player: PlayerId): (bool, seq<Owner>)
    requires |arena| == w * w && 2 <= n
  {
    var cs := Reversed(ColumnSequence(arena, w, player));
    var rs := RowSequence(arena, w, player);
    var afterColumns := ScanMarks(arena, cs, n, player, true);
    (FirstWin(cs, n, true).Some? || FirstWin(rs, n, false).Some?,
     ScanMarks(afterColumns, rs, n, player, false))
  }

  // ---------------------------------------------------------------------------
  // Every record of the merged sequences points at a cell of the board.

  lemma FlattenCellsBelow(ss: seq<seq<Entry>>, bound: nat)
    requires forall q, p | 0 <= q < |ss| && 0 <= p < |ss[q]| :: ss[q][p].cell < bound
    ensures forall t | 0 <= t < |Flatten(ss)| :: Flatten(ss)[t].cell < bound
  {
    forall t | 0 <= t < |Flatten(ss)|
      ensures Flatten(ss)[t].cell < bound
    {
      var l := Locate(ss, t);
    }
  }

  lemma ColumnSequenceOnBoard(arena: seq<Owner>, w: nat, player: PlayerId)
    requires |arena| == w * w
    ensures forall t | 0 <= t < |ColumnSequence(arena, w, player)| ::
              ColumnSequence(arena, w, player)[t].cell < w * w
  {
    ColumnsHaveBoardCells(w);
    SkewedBounded(Columns(w), w, w * w);
    SkewedBounded(Reversed(Columns(w)), w, w * w);
    var a: seq<seq<Entry>> := ColValidationModel(arena, Columns(w), player);
    var b := ColValidationModel(arena, Skewed(Columns(w), w), player);
    var c := ColValidationModel(arena, Skewed(Reversed(Columns(w)), w), player);
    assert ColumnModels(arena, w, player) == a + b + c;
    var abc: seq<seq<Entry>> := a + b + c;
    forall q, p | 0 <= q < |abc| && 0 <= p < |abc[q]|
      ensures abc[q][p].cell < w * w
    {
      if q < |a| {
        assert abc[q] == a[q];
      } else if q < |a| + |b| {
        assert abc[q] == b[q - |a|];
      } else {
        assert abc[q] == c[q - |a| - |b|];
      }
    }
    FlattenCellsBelow(abc, w * w);
  }

  lemma RowSequenceOnBoard(arena: seq<Owner>, w: nat, player: PlayerId)
    requires |arena| == w * w
    ensures forall t | 0 <= t < |RowSequence(arena, w, player)| ::
              RowSequence(arena, w, player)[t].cell < w * w
  {
    ColumnsHaveBoardCells(w);
    FlattenCellsBelow(RowModel(ColValidationModel(arena, Columns(w), player), w), w * w);
  }
}
