/** Concatenation of segments, read piece by piece. */
module Pieces {

  function Concat<T>(ps: seq<seq<T>>): seq<T> {
    if ps == [] then [] else Concat(ps[..|ps| - 1]) + ps[|ps| - 1]
  }

  /** Offset of piece `i` in the whole. */
  function Start<T>(ps: seq<seq<T>>, i: nat): nat
    requires i <= |ps|
  {
    |Concat(ps[..i])|
  }

  lemma StartStep<T>(ps: seq<seq<T>>, i: nat)
    requires i < |ps|
    ensures Concat(ps[..i + 1]) == Concat(ps[..i]) + ps[i]
    ensures Start(ps, i + 1) == Start(ps, i) + |ps[i]|
  {
    assert ps[..i + 1][..i] == ps[..i];
  }

  lemma {:induction false} PrefixOf<T>(ps: seq<seq<T>>, i: nat)
    requires i <= |ps|
    ensures Start(ps, i) <= |Concat(ps)| && Concat(ps)[..Start(ps, i)] == Concat(ps[..i])
    decreases |ps| - i
  {
    if i == |ps| {
      assert ps[..i] == ps;
    } else {
      PrefixOf(ps, i + 1);
      StartStep(ps, i);
      assert Concat(ps)[..Start(ps, i)] == Concat(ps)[..Start(ps, i + 1)][..Start(ps, i)];
    }
  }

  /** Piece `i` is the slice of the whole between its start and the next one. */
  lemma PieceAt<T>(ps: seq<seq<T>>, i: nat)
    requires i < |ps|
    ensures Start(ps, i + 1) == Start(ps, i) + |ps[i]| <= |Concat(ps)|
    ensures Concat(ps)[Start(ps, i)..Start(ps, i + 1)] == ps[i]
  {
    StartStep(ps, i);
    PrefixOf(ps, i + 1);
    assert Concat(ps)[Start(ps, i)..Start(ps, i + 1)] == Concat(ps)[..Start(ps, i + 1)][Start(ps, i)..];
  }

  lemma PieceIndex<T>(ps: seq<seq<T>>, i: nat)
    requires i < |ps|
    ensures Start(ps, i + 1) == Start(ps, i) + |ps[i]| <= |Concat(ps)|
    ensures forall k :: Start(ps, i) <= k < Start(ps, i + 1) ==> Concat(ps)[k] == ps[i][k - Start(ps, i)]
  {
    PieceAt(ps, i);
    forall k | Start(ps, i) <= k < Start(ps, i + 1) ensures Concat(ps)[k] == ps[i][k - Start(ps, i)] {
      assert Concat(ps)[k] == Concat(ps)[Start(ps, i)..Start(ps, i + 1)][k - Start(ps, i)];
    }
  }

  lemma StartOrder<T>(ps: seq<seq<T>>, i: nat, j: nat)
    requires i <= j <= |ps|
    ensures Start(ps, i) <= Start(ps, j) <= |Concat(ps)|
  {
    PrefixOf(ps, j);
    PrefixOf(ps[..j], i);
    assert ps[..j][..i] == ps[..i];
  }

  lemma StartEnds<T>(ps: seq<seq<T>>)
    ensures Start(ps, 0) == 0 && Start(ps, |ps|) == |Concat(ps)|
  {
    assert ps[..|ps|] == ps;
  }

  /** Only the lengths of pieces decide where they start. */
  lemma {:induction false} SameStarts<T, U>(ps: seq<seq<T>>, qs: seq<seq<U>>, i: nat)
    requires |ps| == |qs| && i <= |ps| && forall k :: 0 <= k < |ps| ==> |ps[k]| == |qs[k]|
    ensures Start(ps, i) == Start(qs, i)
  {
    if i > 0 {
      SameStarts(ps, qs, i - 1);
      StartStep(ps, i - 1);
      StartStep(qs, i - 1);
    }
  }

  /** Replacing one piece by another of equal length replaces its slice. */
  lemma {:induction false} ReplacePiece<T>(ps: seq<seq<T>>, i: nat, p: seq<T>)
    requires i < |ps| && |p| == |ps[i]|
    ensures Start(ps, i) + |p| <= |Concat(ps)|
    ensures Concat(ps[i := p]) == Concat(ps)[..Start(ps, i)] + p + Concat(ps)[Start(ps, i) + |p|..]
  {
    PieceAt(ps, i);
    var qs := ps[i := p];
    var init, last := ps[..|ps| - 1], ps[|ps| - 1];
    if i == |ps| - 1 {
      assert qs[..|qs| - 1] == init;
    } else {
      ReplacePiece(init, i, p);
      assert qs[..|qs| - 1] == init[i := p];
      assert init[..i] == ps[..i];
    }
  }
}
