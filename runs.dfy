/** Runs in a flattened sequence of validation models. A model is flattened chunk after
    chunk (one chunk per view-column or row); these lemmas show that the scan never joins
    two chunks, and that a run inside one chunk is found unless its last pair is the
    sequence's final pair. */
module Runs {
  import opened Sequences
  import opened Validation

  /** A column-like model: a matching record carries its offset inside its chunk. */
  ghost predicate Positional(ss: seq<seq<Entry>>)
  {
    forall q, p | 0 <= q < |ss| && 0 <= p < |ss[q]| :: ss[q][p].index == NoMatch || ss[q][p].index == p
  }

  /** A row model: a matching record carries the number of its chunk (its row). */
  ghost predicate ChunkIndexed(ss: seq<seq<Entry>>)
  {
    forall q, p | 0 <= q < |ss| && 0 <= p < |ss[q]| :: ss[q][p].index == NoMatch || ss[q][p].index == q
  }

  /** Position `j + 1` of the flattened sequence is the next offset of the chunk holding `j`. */
  ghost predicate NextInChunk(ss: seq<seq<Entry>>, j: nat)
  {
    j + 1 < |Flatten(ss)| && Locate(ss, j + 1) == (Locate(ss, j).0, Locate(ss, j).1 + 1)
  }

  /** A column-style step from position `j + 1` down to `j` never crosses a chunk join:
      the first record of a chunk has position 0, which is not one more than anything. */
  lemma ColumnStepInChunk(ss: seq<seq<Entry>>, j: nat)
    requires Positional(ss) && j + 1 < |Flatten(ss)|
    requires Continues(Flatten(ss)[j + 1], Flatten(ss)[j], true)
    ensures NextInChunk(ss, j)
  {
    LocateNext(ss, j);
  }

  /** A row-style step from `j` to `j + 1` never crosses a chunk join: neighbouring rows
      carry different row numbers. */
  lemma RowStepInChunk(ss: seq<seq<Entry>>, j: nat)
    requires ChunkIndexed(ss) && j + 1 < |Flatten(ss)|
    requires Continues(Flatten(ss)[j], Flatten(ss)[j + 1], false)
    ensures NextInChunk(ss, j)
  {
    LocateNext(ss, j);
  }

  /** Steps that each stay inside a chunk, taken `k` times, stay inside that chunk. */
  lemma {:induction false} ChunkChain(ss: seq<seq<Entry>>, j0: nat, k: nat)
    requires j0 + k < |Flatten(ss)|
    requires forall j | j0 <= j < j0 + k :: NextInChunk(ss, j)
    ensures Locate(ss, j0 + k) == (Locate(ss, j0).0, Locate(ss, j0).1 + k)
  {
    if k > 0 {
      ChunkChain(ss, j0, k - 1);
      assert NextInChunk(ss, j0 + k - 1);
    }
  }

  /** `k` positions from `j0` on that step inside one chunk are offsets `Locate(ss, j0).1 ..`
      of chunk `Locate(ss, j0).0`. */
  lemma InChunkRun(ss: seq<seq<Entry>>, j0: nat, k: nat)
    requires 0 < k && j0 + k <= |Flatten(ss)|
    requires forall j | j0 <= j < j0 + (k - 1) :: NextInChunk(ss, j)
    ensures Locate(ss, j0).1 + k <= |ss[Locate(ss, j0).0]|
    ensures forall j | j0 <= j < j0 + k ::
              Flatten(ss)[j] == ss[Locate(ss, j0).0][Locate(ss, j0).1 + (j - j0)]
  {
    ChunkChain(ss, j0, k - 1);
    forall j | j0 <= j < j0 + k
      ensures Flatten(ss)[j] == ss[Locate(ss, j0).0][Locate(ss, j0).1 + (j - j0)]
    {
      ChunkChain(ss, j0, j - j0);
    }
  }

  /** A continuing pair of the reversed sequence is a continuing pair of the original read
      the other way round. */
  lemma ReversedSteps(F: seq<Entry>, i: nat, n: nat)
    requires 2 <= n && n - 2 <= i && i + 2 < |F|
    requires forall t | i + 2 - n <= t <= i :: Continues(Reversed(F)[t], Reversed(F)[t + 1], true)
    ensures forall j | |F| - 2 - i <= j < |F| - 2 - i + n - 1 :: Continues(F[j + 1], F[j], true)
  {
    forall j | |F| - 2 - i <= j < |F| - 2 - i + n - 1
      ensures Continues(F[j + 1], F[j], true)
    {
      assert Continues(Reversed(F)[|F| - 2 - j], Reversed(F)[|F| - 2 - j + 1], true);
    }
  }

  /** Records `j0 .. j0 + k - 1` of the flattened sequence that step up one position at a
      time are consecutive matching records `p0 .. p0 + k - 1` of one chunk `q`. */
  lemma ForwardColumnRun(ss: seq<seq<Entry>>, j0: nat, k: nat) returns (q: nat, p0: nat)
    requires Positional(ss) && 2 <= k && j0 + k <= |Flatten(ss)|
    requires forall j | j0 <= j < j0 + k - 1 :: Continues(Flatten(ss)[j + 1], Flatten(ss)[j], true)
    ensures q < |ss| && p0 + k <= |ss[q]| && Start(ss, q) + p0 == j0
    ensures forall j | j0 <= j < j0 + k :: Flatten(ss)[j] == ss[q][p0 + (j - j0)]
    ensures forall u | p0 <= u < p0 + k :: ss[q][u].index != NoMatch
  {
    forall j | j0 <= j < j0 + (k - 1)
      ensures NextInChunk(ss, j)
    {
      ColumnStepInChunk(ss, j);
    }
    InChunkRun(ss, j0, k);
    q, p0 := Locate(ss, j0).0, Locate(ss, j0).1;
    forall u | p0 <= u < p0 + k
      ensures ss[q][u].index != NoMatch
    {
      var j := j0 + (u - p0);
      assert Flatten(ss)[j] == ss[q][u];
      if j < j0 + k - 1 {
        assert Continues(Flatten(ss)[j + 1], Flatten(ss)[j], true);
      } else {
        assert Continues(Flatten(ss)[j - 1 + 1], Flatten(ss)[j - 1], true);
      }
    }
  }

  /** Records `j0 .. j0 + k - 1` of the flattened sequence that all carry the same row are
      consecutive matching records `p0 .. p0 + k - 1` of one chunk `q`. */
  lemma ForwardRowRun(ss: seq<seq<Entry>>, j0: nat, k: nat) returns (q: nat, p0: nat)
    requires ChunkIndexed(ss) && 2 <= k && j0 + k <= |Flatten(ss)|
    requires forall j | j0 <= j < j0 + k - 1 :: Continues(Flatten(ss)[j], Flatten(ss)[j + 1], false)
    ensures q < |ss| && p0 + k <= |ss[q]| && Start(ss, q) + p0 == j0
    ensures forall j | j0 <= j < j0 + k :: Flatten(ss)[j] == ss[q][p0 + (j - j0)]
    ensures forall u | p0 <= u < p0 + k :: ss[q][u].index != NoMatch
  {
    forall j | j0 <= j < j0 + (k - 1)
      ensures NextInChunk(ss, j)
    {
      RowStepInChunk(ss, j);
    }
    InChunkRun(ss, j0, k);
    q, p0 := Locate(ss, j0).0, Locate(ss, j0).1;
    forall u | p0 <= u < p0 + k
      ensures ss[q][u].index != NoMatch
    {
      var j := j0 + (u - p0);
      assert Flatten(ss)[j] == ss[q][u];
      if j < j0 + k - 1 {
        assert Continues(Flatten(ss)[j], Flatten(ss)[j + 1], false);
      } else {
        assert Continues(Flatten(ss)[j - 1], Flatten(ss)[j - 1 + 1], false);
      }
    }
  }

  /** The cells a scan of the reversed sequence marks, when the window's records are
      consecutive records `chunk[p0 ..]` of the unreversed sequence, are those records'
      cells from the highest offset down. */
  lemma ReversedWinCells(F: seq<Entry>, i: nat, n: nat, chunk: seq<Entry>, p0: nat)
    requires 2 <= n && n - 2 <= i && i + 2 < |F| && p0 + n <= |chunk|
    requires forall j | |F| - 2 - i <= j < |F| - 2 - i + n :: F[j] == chunk[p0 + (j - (|F| - 2 - i))]
    ensures forall t | 0 <= t < n :: WinCells(Reversed(F), i, n)[t] == chunk[p0 + n - 1 - t].cell
  {
    forall t | 0 <= t < n
      ensures WinCells(Reversed(F), i, n)[t] == chunk[p0 + n - 1 - t].cell
    {
      assert Reversed(F)[i + 2 - n + t] == F[(|F| - 2 - i) + (n - 1 - t)];
    }
  }

  /** A window of the reversed column sequence (`n` records ending at `i + 1` whose pairs
      all continue) is `n` consecutive matching records of one chunk, listed from the
      highest offset down; they do not start at the very first record. */
  lemma ColumnWindowInChunk(ss: seq<seq<Entry>>, n: nat, i: nat) returns (q: nat, p0: nat)
    requires Positional(ss) && 2 <= n && n - 2 <= i && i + 2 < |Flatten(ss)|
    requires forall t | i + 2 - n <= t <= i ::
               Continues(Reversed(Flatten(ss))[t], Reversed(Flatten(ss))[t + 1], true)
    ensures q < |ss| && p0 + n <= |ss[q]| && 1 <= Start(ss, q) + p0
    ensures forall u | p0 <= u < p0 + n :: ss[q][u].index != NoMatch
    ensures forall t | 0 <= t < n :: WinCells(Reversed(Flatten(ss)), i, n)[t] == ss[q][p0 + n - 1 - t].cell
  {
    ReversedSteps(Flatten(ss), i, n);
    q, p0 := ForwardColumnRun(ss, |Flatten(ss)| - 2 - i, n);
    ReversedWinCells(Flatten(ss), i, n, ss[q], p0);
  }

  /** A window of the row sequence is `n` consecutive matching records of one chunk, in
      order, and at least one record follows them. */
  lemma RowWindowInChunk(ss: seq<seq<Entry>>, n: nat, i: nat) returns (q: nat, p0: nat)
    requires ChunkIndexed(ss) && 2 <= n && n - 2 <= i && i + 2 < |Flatten(ss)|
    requires forall t | i + 2 - n <= t <= i :: Continues(Flatten(ss)[t], Flatten(ss)[t + 1], false)
    ensures q < |ss| && p0 + n <= |ss[q]| && Start(ss, q) + p0 + n < |Flatten(ss)|
    ensures forall u | p0 <= u < p0 + n :: ss[q][u].index != NoMatch
    ensures forall t | 0 <= t < n :: WinCells(Flatten(ss), i, n)[t] == ss[q][p0 + t].cell
  {
    q, p0 := ForwardRowRun(ss, i + 2 - n, n);
    forall t | 0 <= t < n
      ensures WinCells(Flatten(ss), i, n)[t] == ss[q][p0 + t].cell
    {
      assert Flatten(ss)[i + 2 - n + t] == ss[q][p0 + t];
    }
  }

  /** Conversely, `n` consecutive matching records of one chunk of a column-like model
      form a window of the reversed sequence at an examined pair, unless they start at the
      very first record (their last pair is then the final pair, which is never examined). */
  lemma ColumnRunWindow(ss: seq<seq<Entry>>, q: nat, p0: nat, n: nat) returns (i: nat)
    requires Positional(ss) && 2 <= n && q < |ss| && p0 + n <= |ss[q]|
    requires forall u | p0 <= u < p0 + n :: ss[q][u].index != NoMatch
    requires 1 <= Start(ss, q) + p0
    ensures i + 2 < |Flatten(ss)| && Window(Reversed(Flatten(ss)), i, n, true)
  {
    var F := Flatten(ss);
    var R := Reversed(F);
    var j0 := Start(ss, q) + p0;
    FlattenAt(ss, q, p0 + n - 1);
    i := |F| - 2 - j0;
    forall t | i + 2 - n <= t <= i
      ensures Continues(R[t], R[t + 1], true)
    {
      var u := p0 + (|F| - 2 - t - j0);
      FlattenAt(ss, q, u);
      FlattenAt(ss, q, u + 1);
    }
  }

  /** Conversely, `n` consecutive matching records of one chunk of a row model form a
      window at an examined pair, unless they end at the very last record. */
  lemma RowRunWindow(ss: seq<seq<Entry>>, q: nat, p0: nat, n: nat) returns (i: nat)
    requires ChunkIndexed(ss) && 2 <= n && q < |ss| && p0 + n <= |ss[q]|
    requires forall u | p0 <= u < p0 + n :: ss[q][u].index != NoMatch
    requires Start(ss, q) + p0 + n < |Flatten(ss)|
    ensures i + 2 < |Flatten(ss)| && Window(Flatten(ss), i, n, false)
  {
    var F := Flatten(ss);
    var j0 := Start(ss, q) + p0;
    i := j0 + n - 2;
    forall t | i + 2 - n <= t <= i
      ensures Continues(F[t], F[t + 1], false)
    {
      FlattenAt(ss, q, p0 + (t - j0));
      FlattenAt(ss, q, p0 + (t - j0) + 1);
    }
  }
}
