/** Sequence helpers standing in for the JavaScript array built-ins the board
    uses: `reverse` on a fresh copy, and flattening with `[].concat.apply`. */
module Sequences {

  /** The sequence read back to front. */
  function Reversed<T>(s: seq<T>): (r: seq<T>)
    ensures |r| == |s|
    ensures forall k | 0 <= k < |s| :: r[k] == s[|s| - 1 - k]
  {
    if s == [] then [] else Reversed(s[1..]) + [s[0]]
  }

  /** All chunks joined end to end, in order. */
  function Flatten<T>(ss: seq<seq<T>>): seq<T>
  {
    if ss == [] then [] else ss[0] + Flatten(ss[1..])
  }

  /** Where chunk `q` begins inside `Flatten(ss)`. */
  function Start<T>(ss: seq<seq<T>>, q: nat): nat
    requires q <= |ss|
  {
    |Flatten(ss[..q])|
  }

  lemma {:induction false} FlattenAppend<T>(a: seq<seq<T>>, b: seq<seq<T>>)
    ensures Flatten(a + b) == Flatten(a) + Flatten(b)
  {
    if a == [] {
      assert a + b == b;
    } else {
      assert (a + b)[1..] == a[1..] + b;
      FlattenAppend(a[1..], b);
    }
  }

  /** Start of chunk `q + 1` is the start of chunk `q` plus chunk `q`'s length. */
  lemma StartNext<T>(ss: seq<seq<T>>, q: nat)
    requires q < |ss|
    ensures Start(ss, q + 1) == Start(ss, q) + |ss[q]|
  {
    assert ss[..q + 1] == ss[..q] + [ss[q]];
    FlattenAppend(ss[..q], [ss[q]]);
    assert Flatten([ss[q]]) == ss[q] + Flatten([]);
  }

  /** Each chunk occupies its own stretch of the flattened sequence, starting at `Start`. */
  lemma {:induction false} FlattenAt<T>(ss: seq<seq<T>>, q: nat, p: nat)
    requires q < |ss| && p < |ss[q]|
    ensures Start(ss, q) + p < |Flatten(ss)|
    ensures Flatten(ss)[Start(ss, q) + p] == ss[q][p]
  {
    assert ss == ss[..q] + ss[q..];
    FlattenAppend(ss[..q], ss[q..]);
    assert Flatten(ss[q..]) == ss[q] + Flatten(ss[q + 1..]) by {
      assert ss[q..][1..] == ss[q + 1..];
    }
  }

  /** With every chunk of length `m`, the flattened length is `|ss| * m`. */
  lemma {:induction false} FlattenUniformLength<T>(ss: seq<seq<T>>, m: nat)
    requires forall q | 0 <= q < |ss| :: |ss[q]| == m
    ensures |Flatten(ss)| == |ss| * m
  {
    if ss != [] {
      FlattenUniformLength(ss[1..], m);
      assert |ss| * m == m + (|ss| - 1) * m;
    }
  }

  /** With every chunk of length `m`, chunk `q` starts at `q * m`. */
  lemma UniformStart<T>(ss: seq<seq<T>>, m: nat, q: nat)
    requires q <= |ss|
    requires forall i | 0 <= i < |ss| :: |ss[i]| == m
    ensures Start(ss, q) == q * m
  {
    FlattenUniformLength(ss[..q], m);
  }

  lemma StartOfTail<T>(ss: seq<seq<T>>, q: nat)
    requires 0 < |ss| && q < |ss|
    ensures Start(ss, q + 1) == |ss[0]| + Start(ss[1..], q)
  {
    assert ss[..q + 1][1..] == ss[1..][..q];
  }

  /** The chunk and the offset inside it of position `j` of the flattened sequence. */
  function Locate<T>(ss: seq<seq<T>>, j: nat): (l: (nat, nat))
    requires j < |Flatten(ss)|
    ensures l.0 < |ss| && l.1 < |ss[l.0]|
    ensures Flatten(ss)[j] == ss[l.0][l.1]
    ensures j == Start(ss, l.0) + l.1
    decreases ss
  {
    if j < |ss[0]| then
      assert ss[..0] == [];
      (0, j)
    else
      var l' := Locate(ss[1..], j - |ss[0]|);
      StartOfTail(ss, l'.0);
      (l'.0 + 1, l'.1)
  }

  lemma {:induction false} LocateFirst<T>(ss: seq<seq<T>>)
    requires 0 < |Flatten(ss)|
    ensures Locate(ss, 0).1 == 0
    decreases ss
  {
    if 0 >= |ss[0]| {
      LocateFirst(ss[1..]);
    }
  }

  /** The next position of the flattened sequence is the next offset of the same chunk,
      or the first offset of a later chunk once the current chunk is used up. */
  lemma {:induction false} LocateNext<T>(ss: seq<seq<T>>, j: nat)
    requires j + 1 < |Flatten(ss)|
    ensures Locate(ss, j).1 + 1 < |ss[Locate(ss, j).0]| ==>
              Locate(ss, j + 1) == (Locate(ss, j).0, Locate(ss, j).1 + 1)
    ensures Locate(ss, j).1 + 1 == |ss[Locate(ss, j).0]| ==>
              Locate(ss, j + 1).0 > Locate(ss, j).0 && Locate(ss, j + 1).1 == 0
    decreases ss
  {
    if j < |ss[0]| {
      if j + 1 >= |ss[0]| {
        LocateFirst(ss[1..]);
      }
    } else {
      LocateNext(ss[1..], j - |ss[0]|);
    }
  }

  /** A sequence has at most as many distinct elements as entries, and exactly as many
      when no entry repeats. */
  lemma {:induction false} DistinctElements<T>(s: seq<T>)
    ensures |set x | x in s| <= |s|
    ensures (forall t, t' | 0 <= t < t' < |s| :: s[t] != s[t']) ==> |set x | x in s| == |s|
  {
    if s != [] {
      var init := s[..|s| - 1];
      DistinctElements(init);
      assert (set x | x in s) == (set x | x in init) + {s[|s| - 1]};
    }
  }

  /** A subset at least as large as its superset is the superset. */
  lemma SubsetOfSameSize<T>(small: set<T>, large: set<T>)
    requires small <= large && |large| <= |small|
    ensures small == large
  {
    assert large == small + (large - small) && small * (large - small) == {};
  }

  /** `|b|` distinct entries, every one taken from `b`, are all of `b`'s elements. */
  lemma DistinctCover<T>(a: seq<T>, b: seq<T>)
    requires |a| == |b| && forall t, t' | 0 <= t < t' < |a| :: a[t] != a[t']
    requires forall t | 0 <= t < |a| :: a[t] in b
    ensures forall x | x in b :: x in a
  {
    DistinctElements(a);
    DistinctElements(b);
    var sa, sb := set x | x in a, set x | x in b;
    SubsetOfSameSize(sa, sb);
    forall x | x in b ensures x in a {
      assert x in sb;
    }
  }
}
