/** Walking the pieces of a packet range segment by segment. */
module SegmentIteration {
  import opened Prelude
  import opened Pieces
  import opened Storage

  /** The parts of pieces `i` and later that lie in `lo..hi`, empty parts left out. */
  ghost function PiecesFrom(ps: seq<seq<Byte>>, lo: nat, hi: nat, i: nat): seq<seq<Byte>>
    requires i <= |ps|
    decreases |ps| - i
  {
    if i == |ps| then [] else
    StartStep(ps, i);
    var start := Start(ps, i);
    var from, to := Max(lo, start), Min(hi, start + |ps[i]|);
    (if from < to then [ps[i][from - start..to - start]] else []) + PiecesFrom(ps, lo, hi, i + 1)
  }

  lemma {:induction false} NonemptyPieces(ps: seq<seq<Byte>>, lo: nat, hi: nat, i: nat)
    requires i <= |ps|
    ensures forall p :: p in PiecesFrom(ps, lo, hi, i) ==> p != []
    decreases |ps| - i
  {
    hide Concat, Start, PiecesFrom;
    if i == |ps| {
      PieceEnd(ps, lo, hi);
    } else {
      NonemptyPieces(ps, lo, hi, i + 1);
      PieceStep(ps, lo, hi, i);
      StartStep(ps, i);
      var rest := PiecesFrom(ps, lo, hi, i + 1);
      forall p | p in PiecesFrom(ps, lo, hi, i) ensures p != [] {
        if p !in rest { assert |p| > 0; }
      }
    }
  }

  lemma {:induction false} ConcatFirst<T>(first: seq<T>, rest: seq<seq<T>>)
    ensures Concat([first] + rest) == first + Concat(rest)
  {
    if rest == [] {
      assert [first] + rest == [first] && [first][..0] == [];
      assert Concat([first]) == Concat([]) + first;
    } else {
      ConcatFirst(first, rest[..|rest| - 1]);
      assert ([first] + rest)[..|rest|] == [first] + rest[..|rest| - 1];
    }
  }

  /** The pieces from segment `i` on concatenate to what is left of the range. */
  ghost predicate Covered(ps: seq<seq<Byte>>, lo: nat, hi: nat, i: nat)
    requires i <= |ps| && hi <= |Concat(ps)|
  {
    var from := Max(lo, Start(ps, i));
    Concat(PiecesFrom(ps, lo, hi, i)) == if from < hi then Concat(ps)[from..hi] else []
  }

  /** At every segment boundary; from the first segment, the whole range. */
  lemma {:induction false} PiecesCover(ps: seq<seq<Byte>>, lo: nat, hi: nat, i: nat)
    requires i <= |ps| && lo <= hi <= |Concat(ps)|
    ensures Covered(ps, lo, hi, i)
    ensures i == 0 ==> Concat(PiecesFrom(ps, lo, hi, 0)) == Concat(ps)[lo..hi]
    decreases |ps| - i
  {
    hide Concat, Start;
    StartEnds(ps);
    StartEnds<Byte>([]);
    if i < |ps| {
      PiecesCover(ps, lo, hi, i + 1);
      CoverStep(ps, lo, hi, i);
    }
  }

  lemma SliceOfSlice<T>(whole: seq<T>, start: nat, end: nat, from: nat, to: nat)
    requires start <= from <= to <= end <= |whole|
    ensures whole[start..end][from - start..to - start] == whole[from..to]
  {
    var a, b := whole[start..end][from - start..to - start], whole[from..to];
    forall k | 0 <= k < to - from ensures a[k] == b[k] {
      assert a[k] == whole[start..end][from - start + k];
    }
  }

  lemma CoverStep(ps: seq<seq<Byte>>, lo: nat, hi: nat, i: nat)
    requires i < |ps| && lo <= hi <= |Concat(ps)| && Covered(ps, lo, hi, i + 1)
    ensures Covered(ps, lo, hi, i)
  {
    hide Concat, Start, PiecesFrom;
    PieceAt(ps, i);
    PieceStep(ps, lo, hi, i);
    var whole, rest, start := Concat(ps), PiecesFrom(ps, lo, hi, i + 1), Start(ps, i);
    var end := start + |ps[i]|;
    var from, to := Max(lo, start), Min(hi, end);
    if from < to {
      var part := ps[i][from - start..to - start];
      SliceOfSlice(whole, start, end, from, to);
      ConcatFirst(part, rest);
      assert Concat(rest) == whole[to..hi];
    } else {
      assert [] + rest == rest;
    }
  }

  lemma PieceStep(ps: seq<seq<Byte>>, lo: nat, hi: nat, i: nat)
    requires i < |ps|
    ensures var start := Start(ps, i);
            var from, to := Max(lo, start), Min(hi, start + |ps[i]|);
            PiecesFrom(ps, lo, hi, i)
            == (if from < to then [ps[i][from - start..to - start]] else []) + PiecesFrom(ps, lo, hi, i + 1)
  {
  }

  lemma PieceEnd(ps: seq<seq<Byte>>, lo: nat, hi: nat)
    ensures PiecesFrom(ps, lo, hi, |ps|) == []
  {
  }

  lemma {:induction false} EmptyRange(ps: seq<seq<Byte>>, at: nat, i: nat)
    requires i <= |ps|
    ensures PiecesFrom(ps, at, at, i) == []
    decreases |ps| - i
  {
    if i < |ps| { EmptyRange(ps, at, i + 1); }
  }

  /** What one step of the walk yields: nothing when no piece remains, else the
      first remaining piece, with exactly the others left. */
  ghost predicate Yields(ps: seq<seq<Byte>>, lo: nat, hi: nat, i: nat, j: nat, piece: Option<Slice>)
    reads if piece.Some? then {piece.value.storage} else {}
  {
    && i <= j <= |ps|
    && if piece.None? then PiecesFrom(ps, lo, hi, i) == []
       else exists p :: PiecesFrom(ps, lo, hi, i) == [p] + PiecesFrom(ps, lo, hi, j) && piece.value.Shows(p) && i < j
  }

  /** Where segment `index` starts, summed afresh. */
  method StartOf(slot: Slot, index: nat) returns (segmentStart: nat)
    requires slot.Valid() && index <= |slot.segments|
    ensures segmentStart == Start(slot.Windows(), index)
  {
    hide Concat, Start, TotalLen;
    hide Segment.Window;
    ghost var ps := slot.Windows();
    StartEnds(ps);
    segmentStart := 0;
    for k := 0 to index
      invariant slot.Windows() == ps && segmentStart == Start(ps, k)
    {
      StartStep(ps, k);
      segmentStart := segmentStart + slot.segments[k].declaredLen;
    }
  }

  /** Steps over segments outside the range to the first one inside it. */
  method Scan(slot: Slot, lo: nat, hi: nat, index: nat, indexStart: nat) returns (piece: Option<Slice>, next: nat)
    requires slot.Valid() && index <= |slot.segments| && indexStart == Start(slot.Windows(), index)
    ensures Yields(slot.Windows(), lo, hi, index, next, piece)
  {
    hide Concat, Start, TotalLen, PiecesFrom;
    hide Segment.Window;
    ghost var ps := slot.Windows();
    var segmentStart := indexStart;
    next := index;
    while next < |slot.segments|
      invariant slot.Windows() == ps && index <= next <= |slot.segments| && segmentStart == Start(ps, next)
      invariant PiecesFrom(ps, lo, hi, next) == PiecesFrom(ps, lo, hi, index)
    {
      StartStep(ps, next);
      PieceStep(ps, lo, hi, next);
      var segment := slot.segments[next];
      var segmentEnd := segmentStart + segment.declaredLen;
      next := next + 1;
      var overlapStart, overlapEnd := Max(lo, segmentStart), Min(hi, segmentEnd);
      if overlapStart < overlapEnd {
        var localStart, localEnd := overlapStart - segmentStart, overlapEnd - segmentStart;
        PartOfWindow(segment, localStart, localEnd);
        return Some(Slice(segment.storage, segment.start + localStart, localEnd - localStart)), next;
      }
      segmentStart := segmentEnd;
    }
    PieceEnd(ps, lo, hi);
    piece := None;
  }

  /** The iterator's numeric progress; every field is public and rechecked. */
  class SegmentIterator {
    var rangeStart: nat
    var rangeEnd: nat
    var segmentIndex: nat

    constructor (offset: nat, end: nat)
      ensures rangeStart == offset && rangeEnd == end && segmentIndex == 0
    {
      rangeStart, rangeEnd, segmentIndex := offset, end, 0;
    }

    /** Yields the first remaining piece and steps past its segment, or refuses
        progress that does not fit the slot. */
    method Next(slot: Slot) returns (r: Result<Option<Slice>, PacketError>)
      requires slot.Valid()
      modifies this`segmentIndex
      ensures r.Err? <==> rangeStart > rangeEnd || rangeEnd > slot.totalLen || old(segmentIndex) > |slot.segments|
      ensures r.Err? ==> r.error == Bounds && segmentIndex == old(segmentIndex)
      ensures r.Ok? ==> Yields(slot.Windows(), rangeStart, rangeEnd, old(segmentIndex), segmentIndex, r.value)
    {
      hide Concat, Start, TotalLen, PiecesFrom;
      hide Segment.Window;
      if rangeStart > rangeEnd || rangeEnd > slot.totalLen { return Err(Bounds); }
      if segmentIndex > |slot.segments| { return Err(Bounds); }
      var segmentStart := StartOf(slot, segmentIndex);
      if rangeStart == rangeEnd {
        EmptyRange(slot.Windows(), rangeStart, segmentIndex);
        return Ok(None);
      }
      ghost var ps := slot.Windows();
      var piece, next := Scan(slot, rangeStart, rangeEnd, segmentIndex, segmentStart);
      assert slot.Windows() == ps;
      ghost var shown: seq<Byte> := [];
      if piece.Some? {
        shown :| PiecesFrom(ps, rangeStart, rangeEnd, segmentIndex) == [shown]
          + PiecesFrom(ps, rangeStart, rangeEnd, next)
          && piece.value.Shows(shown);
      }
      segmentIndex := next;
      assert slot.Windows() == ps && (piece.Some? ==> piece.value.Shows(shown));
      r := Ok(piece);
    }
  }

  /** A bounded walk over a checked range; its pieces concatenate to the range. */
  method Segments(slot: Slot, offset: nat, len: nat) returns (r: Result<SegmentIterator, PacketError>)
    requires slot.Valid()
    ensures |slot.Flat()| == slot.totalLen
    ensures r.Err? <==> RangeCheck(slot, offset, len).Err?
    ensures r.Err? ==> RangeCheck(slot, offset, len) == Err(r.error)
    ensures r.Ok? ==> r.value.rangeStart == offset && r.value.rangeEnd == offset + len && r.value.segmentIndex == 0
    ensures r.Ok? ==> Concat(PiecesFrom(slot.Windows(), offset, offset + len, 0)) == slot.Flat()[offset..offset + len]
  {
    hide Concat, Start, TotalLen, PiecesFrom;
    hide Segment.Window;
    FlatLength(slot);
    ghost var ps := slot.Windows();
    var check := RangeCheck(slot, offset, len);
    if check.Err? { return Err(check.error); }
    PiecesCover(ps, offset, offset + len, 0);
    var walk := new SegmentIterator(offset, offset + len);
    assert slot.Windows() == ps;
    r := Ok(walk);
  }
}
