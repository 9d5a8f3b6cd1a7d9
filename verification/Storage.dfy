/** Packet storage: up to sixteen segments, each an active window of its own
    buffer, read and written across segment boundaries. Every operation is
    proved against the flat bytes of the packet. */
module Storage {
  import opened Prelude
  import opened Pieces
  import opened PacketMachine

  const MAX_SEGMENTS: nat := 16

  datatype Capabilities = Capabilities(sameLength: bool, resize: bool)

  /** A slice of adapter memory and the part of it declared to hold packet bytes. */
  datatype Segment = Segment(storage: array<Byte>, start: nat, sliceLen: nat, declaredLen: nat) {
    predicate Fits() { declaredLen <= sliceLen && start + sliceLen <= storage.Length }

    /** The declared bytes. */
    ghost function Window(): (w: seq<Byte>)
      requires Fits()
      reads storage
      ensures |w| == declaredLen
    {
      storage[start..start + declaredLen]
    }

    /** The storage bytes around them. */
    ghost function Around(): seq<Byte>
      requires Fits()
      reads storage
    {
      storage[..start] + storage[start + declaredLen..]
    }
  }

  /** Mutable storage with its active window and the declared room around it. */
  datatype MutableSegment = MutableSegment(
    storage: array<Byte>, activeOffset: nat, activeLen: nat, headroom: nat, tailroom: nat, caps: Capabilities)
  {
    /** Headroom, window and tailroom partition the storage. */
    predicate Valid() {
      && headroom == activeOffset && activeOffset + activeLen <= storage.Length
      && headroom + activeLen + tailroom == storage.Length <= USIZE_MAX
    }

    function Active(): Segment { Segment(storage, activeOffset, activeLen, activeLen) }
  }

  function TotalLen(segments: seq<Segment>): nat {
    if segments == [] then 0 else TotalLen(segments[..|segments| - 1]) + segments[|segments| - 1].declaredLen
  }

  datatype Slot = Slot(segments: seq<Segment>, mutables: seq<Option<MutableSegment>>, totalLen: nat) {

    /** Declared lengths fit and sum to the total; a mutable segment is exactly
        its active window; its storage is not shared with another segment. */
    predicate Valid() {
      && |segments| <= MAX_SEGMENTS && |mutables| == |segments|
      && (forall i :: 0 <= i < |segments| ==> segments[i].Fits())
      && totalLen == TotalLen(segments) <= USIZE_MAX
      && (forall i :: 0 <= i < |segments| && mutables[i].Some? ==>
            mutables[i].value.Valid() && segments[i] == mutables[i].value.Active())
      && (forall i, j :: 0 <= i < |segments| && 0 <= j < |segments| && i != j && mutables[i].Some? ==>
            segments[i].storage != segments[j].storage)
    }

    ghost function Arrays(): set<object> {
      set i | 0 <= i < |segments| :: segments[i].storage as object
    }

    /** The arrays an edit may write. */
    ghost function MutableArrays(): set<object> {
      set i | 0 <= i < |segments| && i < |mutables| && mutables[i].Some? :: segments[i].storage as object
    }

    ghost function Windows(): (ps: seq<seq<Byte>>)
      requires Valid()
      reads Arrays()
      ensures |ps| == |segments|
      ensures forall i :: 0 <= i < |ps| ==> ps[i] == segments[i].Window()
    {
      seq(|segments|, i requires 0 <= i < |segments| reads Arrays() => segments[i].Window())
    }

    /** The packet's bytes. */
    ghost function Flat(): seq<Byte>
      requires Valid()
      reads Arrays()
    {
      Concat(Windows())
    }

    predicate WritableAt(i: nat)
      requires i < |mutables|
    {
      mutables[i].Some? && mutables[i].value.caps.sameLength
    }

    ghost function Masks(): (ms: seq<seq<bool>>)
      requires |mutables| == |segments|
      ensures |ms| == |segments|
      ensures forall i :: 0 <= i < |ms| ==> |ms[i]| == segments[i].declaredLen
      ensures forall i, k :: 0 <= i < |ms| && 0 <= k < |ms[i]| ==> ms[i][k] == WritableAt(i)
    {
      seq(|segments|, i requires 0 <= i < |segments| => seq(segments[i].declaredLen, k => WritableAt(i)))
    }

    function RoomOf(): Room
      requires |mutables| == |segments|
    {
      if |segments| != 1 then Segmented
      else if mutables[0].None? then FixedLinear
      else var m := mutables[0].value; Linear(m.caps.sameLength, m.caps.resize, m.headroom, m.tailroom)
    }

    /** The slot as the flat frame the packet machine runs on. */
    ghost function FrameOf(): Frame
      requires Valid()
      reads Arrays()
    {
      Frame(Flat(), Concat(Masks()), RoomOf())
    }
  }

  lemma {:induction false} TotalIsStart(segments: seq<Segment>, ps: seq<seq<Byte>>, i: nat)
    requires |ps| == |segments| && i <= |ps|
    requires forall k :: 0 <= k < |ps| ==> |ps[k]| == segments[k].declaredLen
    ensures TotalLen(segments[..i]) == Start(ps, i)
  {
    if i > 0 {
      TotalIsStart(segments, ps, i - 1);
      StartStep(ps, i - 1);
      assert segments[..i][..i - 1] == segments[..i - 1];
    }
  }

  lemma FlatLength(slot: Slot)
    requires slot.Valid()
    ensures |slot.Flat()| == slot.totalLen && Start(slot.Windows(), |slot.segments|) == slot.totalLen
  {
    TotalIsStart(slot.segments, slot.Windows(), |slot.segments|);
    StartEnds(slot.Windows());
    assert slot.segments[..|slot.segments|] == slot.segments;
  }

  /** The mask speaks of the same positions as the bytes. */
  lemma MaskAt(slot: Slot, i: nat)
    requires slot.Valid() && i < |slot.segments|
    ensures Start(slot.Masks(), i) == Start(slot.Windows(), i)
            && Start(slot.Masks(), i + 1) == Start(slot.Windows(), i + 1)
    ensures |Concat(slot.Masks())| == |slot.Flat()|
    ensures Start(slot.Windows(), i + 1) == Start(slot.Windows(), i) + slot.segments[i].declaredLen <= |slot.Flat()|
    ensures forall k :: Start(slot.Windows(), i) <= k < Start(slot.Windows(), i + 1) ==>
              Concat(slot.Masks())[k] == slot.WritableAt(i)
  {
    hide Concat, Start;
    hide Segment.Window;
    var ps, ms := slot.Windows(), slot.Masks();
    SameStarts(ms, ps, i);
    SameStarts(ms, ps, i + 1);
    SameStarts(ms, ps, |ps|);
    StartEnds(ps);
    StartEnds(ms);
    PieceIndex(ps, i);
    PieceIndex(ms, i);
  }

  lemma FrameIsValid(slot: Slot)
    requires slot.Valid()
    ensures FrameValid(slot.FrameOf())
  {
    FlatLength(slot);
    if |slot.segments| > 0 { MaskAt(slot, 0); }
    if |slot.segments| == 1 { StartEnds(slot.Windows()); }
  }

  // ---- Reading -----------------------------------------------------------------

  /** One byte at a packet offset, found by walking the segments. The checked
      addition of the walk never overflows: running sums stay within the total. */
  method SlotByte(slot: Slot, offset: nat) returns (r: Result<Byte, PacketError>)
    requires slot.Valid()
    ensures |slot.Flat()| == slot.totalLen
    ensures r == if offset < slot.totalLen then Ok(slot.Flat()[offset]) else Err(Bounds)
  {
    hide Concat, Start;
    StartEnds(slot.Windows());
    FlatLength(slot);
    ghost var ps, flat := slot.Windows(), slot.Flat();
    if offset >= slot.totalLen { return Err(Bounds); }
    var segmentStart := 0;
    for i := 0 to |slot.segments|
      invariant segmentStart == Start(ps, i) <= offset && slot.Flat() == flat && slot.Windows() == ps
    {
      PieceIndex(ps, i);
      var segment := slot.segments[i];
      var segmentEnd := segmentStart + segment.declaredLen;
      assert segmentEnd <= USIZE_MAX;
      if offset < segmentEnd {
        return Ok(segment.storage[segment.start + (offset - segmentStart)]);
      }
      segmentStart := segmentEnd;
    }
    assert false;
  }

  /** Copies a packet range into a caller buffer that is not packet storage. */
  method SlotRead(slot: Slot, offset: nat, destination: array<Byte>) returns (r: Outcome)
    requires slot.Valid() && destination !in slot.Arrays()
    modifies destination
    ensures |slot.Flat()| == slot.totalLen
    ensures r == if offset + destination.Length > USIZE_MAX then Err(Overflow)
                 else if offset + destination.Length > slot.totalLen then Err(Bounds) else Ok(())
    ensures r.Ok? ==> destination[..] == slot.Flat()[offset..offset + destination.Length]
    ensures r.Err? ==> destination[..] == old(destination[..])
    ensures slot.Windows() == old(slot.Windows())
  {
    hide Concat, Start;
    FlatLength(slot);
    if offset + destination.Length > USIZE_MAX { return Err(Overflow); }
    if offset + destination.Length > slot.totalLen { return Err(Bounds); }
    ghost var flat := slot.Flat();
    for i := 0 to destination.Length
      invariant slot.Windows() == old(slot.Windows())
      invariant forall k :: 0 <= k < i ==> destination[k] == flat[offset + k]
    {
      var b := SlotByte(slot, offset + i);
      destination[i] := b.value;
    }
    r := Ok(());
  }

  method SlotU16(slot: Slot, offset: nat) returns (r: Result<U16, PacketError>)
    requires slot.Valid()
    ensures |slot.Flat()| == slot.totalLen
    ensures r == if offset + 2 <= slot.totalLen then Ok(Word(slot.Flat(), offset))
                 else if offset + 2 > USIZE_MAX then Err(Overflow) else Err(Bounds)
  {
    var bytes := new Byte[2](_ => 0);
    var outcome := SlotRead(slot, offset, bytes);
    if outcome.Err? { return Err(outcome.error); }
    assert bytes[..][0] == slot.Flat()[offset] && bytes[..][1] == slot.Flat()[offset + 1];
    r := Ok(bytes[0] as int * 256 + bytes[1] as int);
  }

  // ---- Views ---------------------------------------------------------------------

  /** A borrowed run of storage; no bytes are copied. */
  datatype Slice = Slice(storage: array<Byte>, start: nat, length: nat) {
    ghost predicate Shows(bytes: seq<Byte>)
      reads storage
    {
      start + length <= storage.Length && storage[start..start + length] == bytes
    }
  }

  lemma PartOfWindow(s: Segment, from: nat, to: nat)
    requires s.Fits() && from <= to <= s.declaredLen
    ensures Slice(s.storage, s.start + from, to - from).Shows(s.Window()[from..to])
  {
    var w := s.Window()[from..to];
    forall k | 0 <= k < to - from ensures w[k] == s.storage[s.start + from + k] {
      assert w[k] == s.Window()[from + k];
    }
    assert s.storage[s.start + from..s.start + to] == w;
  }

  /** Range checks common to every view. */
  function RangeCheck(slot: Slot, offset: nat, len: nat): Outcome {
    if offset + len > USIZE_MAX then Err(Overflow)
    else if offset + len > slot.totalLen then Err(Bounds) else Ok(())
  }

  /** The range lies in one segment. */
  ghost predicate InOnePiece(ps: seq<seq<Byte>>, offset: nat, len: nat) {
    exists i :: 0 <= i < |ps| && Start(ps, i) <= offset && offset + len <= Start(ps, i + 1)
  }

  lemma OnePieceOnly(ps: seq<seq<Byte>>, i: nat, offset: nat, len: nat)
    requires i < |ps| && Start(ps, i) <= offset < Start(ps, i + 1) && len > 0 && InOnePiece(ps, offset, len)
    ensures offset + len <= Start(ps, i + 1)
  {
    var j :| 0 <= j < |ps| && Start(ps, j) <= offset && offset + len <= Start(ps, j + 1);
    if j < i { StartOrder(ps, j + 1, i); }
    if i < j { StartOrder(ps, i + 1, j); }
  }

  /** The segment holding the whole of a nonempty range, if there is one. */
  method WithinOne(slot: Slot, offset: nat, len: nat) returns (r: Option<Slice>)
    requires slot.Valid() && len > 0 && offset + len <= slot.totalLen
    ensures |slot.Flat()| == slot.totalLen
    ensures r.Some? <==> InOnePiece(slot.Windows(), offset, len)
    ensures r.Some? ==> r.value.Shows(slot.Flat()[offset..offset + len])
  {
    hide Concat, Start;
    hide Segment.Window;
    StartEnds(slot.Windows());
    FlatLength(slot);
    ghost var ps, flat := slot.Windows(), slot.Flat();
    var segmentStart := 0;
    for i := 0 to |slot.segments|
      invariant segmentStart == Start(ps, i) <= offset && slot.Flat() == flat && slot.Windows() == ps
    {
      PieceIndex(ps, i);
      var segment := slot.segments[i];
      var segmentEnd := segmentStart + segment.declaredLen;
      if segmentStart <= offset < segmentEnd {
        var local := offset - segmentStart;
        if len <= segment.declaredLen - local {
          assert flat[offset..offset + len] == ps[i][local..local + len];
          PartOfWindow(segment, local, local + len);
          return Some(Slice(segment.storage, segment.start + local, len));
        }
        if InOnePiece(ps, offset, len) { OnePieceOnly(ps, i, offset, len); }
        return None;
      }
      segmentStart := segmentEnd;
    }
    assert false;
  }

  /** A zero-copy view exists exactly when the range is empty or lies in one
      segment, and it shows the bytes of the range. */
  method Contiguous(slot: Slot, offset: nat, len: nat) returns (r: Result<Option<Slice>, PacketError>)
    requires slot.Valid()
    ensures |slot.Flat()| == slot.totalLen
    ensures r.Err? <==> RangeCheck(slot, offset, len).Err?
    ensures r.Err? ==> RangeCheck(slot, offset, len) == Err(r.error)
    ensures r.Ok? ==> (r.value.Some? <==> len == 0 || InOnePiece(slot.Windows(), offset, len))
    ensures r.Ok? && r.value.Some? ==> r.value.value.Shows(slot.Flat()[offset..offset + len])
  {
    hide Concat, Start, TotalLen;
    hide Segment.Window;
    FlatLength(slot);
    ghost var ps := slot.Windows();
    var check := RangeCheck(slot, offset, len);
    if check.Err? { return Err(check.error); }
    if len == 0 {
      var empty := new Byte[0];
      assert slot.Windows() == ps;
      return Ok(Some(Slice(empty, 0, 0)));
    }
    var found := WithinOne(slot, offset, len);
    r := Ok(found);
  }

  /** An explicit copy of a range into the front of a caller buffer. */
  method Read(slot: Slot, offset: nat, len: nat, destination: array<Byte>) returns (r: Outcome)
    requires slot.Valid() && destination !in slot.Arrays()
    modifies destination
    ensures |slot.Flat()| == slot.totalLen && slot.Windows() == old(slot.Windows())
    ensures r == match RangeCheck(slot, offset, len)
                 case Err(e) => Err(e)
                 case Ok(_) => if destination.Length < len then Err(DestinationTooSmall) else Ok(())
    ensures r.Ok? ==> destination[..] == slot.Flat()[offset..offset + len] + old(destination[..])[len..]
    ensures r.Err? ==> destination[..] == old(destination[..])
  {
    hide Concat, Start;
    StartEnds(slot.Windows());
    FlatLength(slot);
    var check := RangeCheck(slot, offset, len);
    if check.Err? { return check; }
    if destination.Length < len { return Err(DestinationTooSmall); }
    ghost var ps, flat, was := slot.Windows(), slot.Flat(), destination[..];
    var remaining, sourceOffset, destinationOffset, segmentStart := len, offset, 0, 0;
    for i := 0 to |slot.segments|
      invariant slot.Windows() == ps && segmentStart == Start(ps, i)
      invariant 0 <= remaining && 0 <= destinationOffset && remaining + destinationOffset == len
                && sourceOffset == offset + destinationOffset
      invariant remaining == 0 || segmentStart <= sourceOffset
      invariant forall k :: 0 <= k < destination.Length ==>
                  destination[k] == if k < destinationOffset then flat[offset + k] else was[k]
    {
      PieceIndex(ps, i);
      var segment := slot.segments[i];
      var segmentEnd := segmentStart + segment.declaredLen;
      if sourceOffset < segmentEnd && remaining != 0 {
        var local := if sourceOffset > segmentStart then sourceOffset - segmentStart else 0;
        var amount := if remaining <= segment.declaredLen - local then remaining else segment.declaredLen - local;
        forall k | 0 <= k < amount {
          destination[destinationOffset + k] := segment.storage[segment.start + local + k];
        }
        assert forall k :: destinationOffset <= k < destinationOffset + amount ==>
            destination[k] == ps[i][local + (k - destinationOffset)];
        remaining, destinationOffset, sourceOffset := remaining - amount, destinationOffset + amount,
          sourceOffset + amount;
      }
      segmentStart := segmentEnd;
    }
    assert remaining == 0;
    r := Ok(());
  }

  // ---- Writing -------------------------------------------------------------------

  /** Every byte of the range must be in a segment open to same-length writes. */
  method ValidateWritable(slot: Slot, offset: nat, len: nat) returns (r: Outcome)
    requires slot.Valid()
    ensures FrameValid(slot.FrameOf()) && r == WriteCheck(slot.FrameOf(), offset, len)
  {
    hide Concat, Start;
    StartEnds(slot.Windows());
    FlatLength(slot);
    FrameIsValid(slot);
    if offset + len > USIZE_MAX { return Err(Overflow); }
    if offset + len > slot.totalLen { return Err(Bounds); }
    if len == 0 { return Ok(()); }
    ghost var ps, frame := slot.Windows(), slot.FrameOf();
    var end := offset + len;
    var segmentStart, covered := 0, 0;
    for i := 0 to |slot.segments|
      invariant slot.Windows() == ps && slot.FrameOf() == frame && segmentStart == Start(ps, i)
      invariant covered == if segmentStart <= offset then 0
                           else if segmentStart < end then segmentStart - offset
                           else len
      invariant forall k :: offset <= k < end && k < segmentStart ==> frame.writable[k]
    {
      MaskAt(slot, i);
      var segmentEnd := segmentStart + slot.segments[i].declaredLen;
      var overlapStart := if offset > segmentStart then offset else segmentStart;
      var overlapEnd := if end < segmentEnd then end else segmentEnd;
      if overlapStart < overlapEnd {
        if slot.mutables[i].None? || !slot.mutables[i].value.caps.sameLength {
          assert !frame.writable[overlapStart];
          return Err(ReadOnly);
        }
        covered := covered + (overlapEnd - overlapStart);
      }
      segmentStart := segmentEnd;
    }
    assert covered == len;
    r := Ok(());
  }

  /** Overwriting part of one window overwrites the same part of the packet. */
  lemma SplicePiece(ps: seq<seq<Byte>>, i: nat, local: nat, data: seq<Byte>)
    requires i < |ps| && local + |data| <= |ps[i]|
    ensures Start(ps, i) + local + |data| <= |Concat(ps)|
    ensures Concat(ps[i := Splice(ps[i], local, data)]) == Splice(Concat(ps), Start(ps, i) + local, data)
  {
    hide Concat, Start;
    var p := Splice(ps[i], local, data);
    ReplacePiece(ps, i, p);
    PieceIndex(ps, i);
    SpliceInside(Concat(ps), Start(ps, i), ps[i], local, data);
  }

  lemma SpliceInside(whole: seq<Byte>, at: nat, piece: seq<Byte>, local: nat, data: seq<Byte>)
    requires at + |piece| <= |whole| && local + |data| <= |piece|
    requires forall k :: at <= k < at + |piece| ==> whole[k] == piece[k - at]
    ensures whole[..at] + Splice(piece, local, data) + whole[at + |piece|..] == Splice(whole, at + local, data)
  {
    var left, right := whole[..at] + Splice(piece, local, data) + whole[at + |piece|..],
                       Splice(whole, at + local, data);
    forall k | 0 <= k < |whole| ensures left[k] == right[k] {
      if at <= k < at + |piece| { assert left[k] == Splice(piece, local, data)[k - at]; }
    }
  }

  lemma SpliceNone(b: seq<Byte>, offset: nat, source: seq<Byte>)
    requires offset <= |b|
    ensures Splice(b, offset, source[..0]) == b
  {
  }

  lemma SpliceMore(b: seq<Byte>, offset: nat, source: seq<Byte>, n: nat, m: nat)
    requires n <= m <= |source| && offset + |source| <= |b|
    ensures Splice(Splice(b, offset, source[..n]), offset + n, source[n..m]) == Splice(b, offset, source[..m])
  {
  }

  /** Copies bytes into one mutable window; no other byte of its storage changes. */
  method WriteWindow(m: MutableSegment, local: nat, data: seq<Byte>)
    requires m.Valid() && local + |data| <= m.activeLen
    modifies m.storage
    ensures m.Active().Window() == Splice(old(m.Active().Window()), local, data)
    ensures m.Active().Around() == old(m.Active().Around())
  {
    forall k | 0 <= k < |data| {
      m.storage[m.activeOffset + local + k] := data[k];
    }
  }

  /** The part of a cross-segment write that falls into one segment. */
  method WritePiece(slot: Slot, i: nat, local: nat, data: seq<Byte>)
    requires slot.Valid() && i < |slot.segments| && slot.mutables[i].Some?
             && local + |data| <= slot.segments[i].declaredLen
    modifies slot.segments[i].storage
    ensures slot.Windows() == old(slot.Windows())[i := Splice(old(slot.Windows())[i], local, data)]
    ensures forall j :: 0 <= j < |slot.segments| ==> slot.segments[j].Around() == old(slot.segments[j].Around())
  {
    hide Splice, TotalLen;
    hide Segment.Window, Segment.Around;
    WriteWindow(slot.mutables[i].value, local, data);
  }

  /** Extending a partial write by the part in window `i`. */
  lemma WriteOn(ps: seq<seq<Byte>>, ws: seq<seq<Byte>>, offset: nat, source: seq<Byte>, i: nat, n: nat, m: nat)
    requires i < |ps| == |ws| && n <= m <= |source| && offset + |source| <= |Concat(ps)|
    requires forall k :: 0 <= k < |ps| ==> |ws[k]| == |ps[k]|
    requires Concat(ws) == Splice(Concat(ps), offset, source[..n])
    requires Start(ps, i) <= offset + n && offset + m <= Start(ps, i) + |ps[i]|
    ensures var local := offset + n - Start(ps, i);
            Concat(ws[i := Splice(ws[i], local, source[n..m])]) == Splice(Concat(ps), offset, source[..m])
  {
    hide Concat, Start, Splice;
    SameStarts(ws, ps, i);
    SplicePiece(ws, i, offset + n - Start(ps, i), source[n..m]);
    SpliceMore(Concat(ps), offset, source, n, m);
  }

  /** A writable position lies in a mutable segment. */
  lemma WritableSegment(slot: Slot, i: nat, at: nat)
    requires slot.Valid() && i < |slot.segments|
    requires Start(slot.Windows(), i) <= at < Start(slot.Windows(), i + 1)
    requires at < |Concat(slot.Masks())| && Concat(slot.Masks())[at]
    ensures slot.mutables[i].Some?
  {
    hide Concat, Start;
    MaskAt(slot, i);
  }

  /** The unchecked cross-segment write, after `ValidateWritable`: one slice of
      the packet is replaced and nothing outside the active windows changes. */
  method WriteSlot(slot: Slot, offset: nat, source: seq<Byte>)
    requires slot.Valid() && FrameValid(slot.FrameOf()) && WriteCheck(slot.FrameOf(), offset, |source|).Ok?
    modifies slot.MutableArrays()
    ensures offset + |source| <= |old(slot.Flat())| && slot.Flat() == Splice(old(slot.Flat()), offset, source)
    ensures forall j :: 0 <= j < |slot.segments| ==> slot.segments[j].Around() == old(slot.segments[j].Around())
  {
    hide Concat, Start, Splice, TotalLen;
    hide Segment.Window, Segment.Around, Slot.Masks;
    ghost var ps, flat, masks := slot.Windows(), slot.Flat(), Concat(slot.Masks());
    FlatLength(slot);
    StartEnds(ps);
    SpliceNone(flat, offset, source);
    var remaining, packetOffset, sourceOffset, segmentStart := |source|, offset, 0, 0;
    for i := 0 to |slot.segments|
      invariant segmentStart == Start(ps, i) && 0 <= remaining && 0 <= sourceOffset
      invariant remaining + sourceOffset == |source| && packetOffset == offset + sourceOffset
      invariant remaining == 0 || segmentStart <= packetOffset
      invariant forall k :: 0 <= k < |ps| ==> |slot.Windows()[k]| == |ps[k]|
      invariant slot.Flat() == Splice(flat, offset, source[..sourceOffset])
      invariant forall j :: 0 <= j < |slot.segments| ==> slot.segments[j].Around() == old(slot.segments[j].Around())
    {
      StartStep(ps, i);
      var segment := slot.segments[i];
      var segmentEnd := segmentStart + segment.declaredLen;
      if packetOffset < segmentEnd && remaining != 0 {
        var local := if packetOffset > segmentStart then packetOffset - segmentStart else 0;
        var amount := if remaining <= segment.declaredLen - local then remaining else segment.declaredLen - local;
        ghost var ws := slot.Windows();
        SameStarts(ws, ps, i);
        SameStarts(ws, ps, i + 1);
        WritableSegment(slot, i, packetOffset);
        WriteOn(ps, ws, offset, source, i, sourceOffset, sourceOffset + amount);
        WritePiece(slot, i, local, source[sourceOffset..sourceOffset + amount]);
        remaining, sourceOffset, packetOffset := remaining - amount, sourceOffset + amount, packetOffset + amount;
      }
      segmentStart := segmentEnd;
    }
    assert source[..sourceOffset] == source;
  }
}
