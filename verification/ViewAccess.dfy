/** Reads through a handle: the check of the handle, the read of the packet
    behind it, and the mark an escaping slice leaves. */
module ViewAccess {
  import opened Prelude
  import opened Handles
  import opened Owners
  import opened BatchOwner
  import opened Storage
  import opened SegmentIteration

  /** The handle is refused, or the packet behind it refuses the range. */
  datatype AccessError = OfHandle(handle: OwnerError) | OfPacket(packet: PacketError)

  /** One stored packet for each slot of the owner. */
  ghost predicate Stored(owner: PacketBatchOwner, slots: seq<Slot>)
    reads owner
  {
    |slots| == |owner.slots| && forall i :: 0 <= i < |slots| ==> slots[i].Valid()
  }

  /** The owner after the slice `escaped` of the packet behind `v`: that slot can
      no longer be retained; nothing else changes. */
  function Marked(o: Owner, v: Handle, escaped: bool): Owner
    requires |o.access| == |o.borrowed| == |o.slots| <= 64 && |o.writer.values| == 64
  {
    if escaped then Owners.Step(o, Borrow(v)) else o
  }

  /** What the packet answers to a request for one zero-copy slice. */
  ghost predicate SliceAnswer(slot: Slot, offset: nat, len: nat, slice: Option<Slice>)
    requires slot.Valid() && offset + len <= slot.totalLen
    reads slot.Arrays(), if slice.Some? then {slice.value.storage} else {}
  {
    && |slot.Flat()| == slot.totalLen
    && (slice.Some? <==> len == 0 || InOnePiece(slot.Windows(), offset, len))
    && (slice.Some? ==> slice.value.Shows(slot.Flat()[offset..offset + len]))
  }

  /** What the packet answers to a request for the next piece of a walk. */
  ghost predicate PieceAnswer(slot: Slot, lo: nat, hi: nat, i: nat, j: nat, piece: Option<Slice>)
    requires slot.Valid()
    reads slot.Arrays(), if piece.Some? then {piece.value.storage} else {}
  {
    Yields(slot.Windows(), lo, hi, i, j, piece)
  }

  lemma Apart(owner: PacketBatchOwner, slots: seq<Slot>, i: nat)
    requires Stored(owner, slots) && i < |slots|
    ensures owner !in slots[i].Arrays()
  {
  }

  /** A zero-copy slice of a view: the packet's own answer behind a live handle,
      marked as borrowed when a nonempty slice escapes. */
  method Contiguous(owner: PacketBatchOwner, slots: seq<Slot>, v: Handle, offset: nat, len: nat)
    returns (r: Result<Option<Slice>, AccessError>)
    requires owner.Valid() && Stored(owner, slots)
    modifies owner`borrowed
    ensures owner.Valid() && Stored(owner, slots)
    ensures owner.Model() == Marked(old(owner.Model()), v, r.Ok? && r.value.Some? && len > 0)
    ensures match ViewCheck(old(owner.Model()), v)
            case Err(e) => r == Err(OfHandle(e))
            case Ok(i) =>
              match RangeCheck(slots[i], offset, len)
              case Err(e) => r == Err(OfPacket(e))
              case Ok(_) => r.Ok? && SliceAnswer(slots[i], offset, len, r.value)
  {
    hide OwnerValid, Slot.Valid;
    var live := owner.EnsureViewLive(v);
    if live.Err? { return Err(OfHandle(live.error)); }
    var slot := slots[live.value];
    var slice := Storage.Contiguous(slot, offset, len);
    if slice.Err? { return Err(OfPacket(slice.error)); }
    r := Ok(slice.value);
    assert SliceAnswer(slot, offset, len, slice.value);
    Apart(owner, slots, live.value);
    hide SliceAnswer, Slot.Arrays;
    if slice.value.Some? && len > 0 { var marked := owner.MarkBorrowed(v); }
  }

  /** The next piece of a walk: the handle is checked again on every call, and a
      piece that is handed out marks the slot. */
  method NextSegment(owner: PacketBatchOwner, slots: seq<Slot>, v: Handle, walk: SegmentIterator)
    returns (r: Result<Option<Slice>, AccessError>)
    requires owner.Valid() && Stored(owner, slots)
    modifies owner`borrowed, walk`segmentIndex
    ensures owner.Valid() && Stored(owner, slots)
    ensures owner.Model() == Marked(old(owner.Model()), v, r.Ok? && r.value.Some?)
    ensures r.Err? ==> walk.segmentIndex == old(walk.segmentIndex)
    ensures match ViewCheck(old(owner.Model()), v)
            case Err(e) => r == Err(OfHandle(e))
            case Ok(i) =>
              if walk.rangeStart > walk.rangeEnd || walk.rangeEnd > slots[i].totalLen
                || old(walk.segmentIndex) > |slots[i].segments|
              then r == Err(OfPacket(Bounds))
              else r.Ok? && PieceAnswer(slots[i], walk.rangeStart, walk.rangeEnd, old(walk.segmentIndex),
                                        walk.segmentIndex, r.value)
  {
    hide OwnerValid, Slot.Valid, Yields;
    var live := owner.EnsureViewLive(v);
    if live.Err? { return Err(OfHandle(live.error)); }
    var slot := slots[live.value];
    var piece := walk.Next(slot);
    if piece.Err? { return Err(OfPacket(piece.error)); }
    r := Ok(piece.value);
    assert PieceAnswer(slot, walk.rangeStart, walk.rangeEnd, old(walk.segmentIndex), walk.segmentIndex, piece.value);
    Apart(owner, slots, live.value);
    hide PieceAnswer, Slot.Arrays;
    if piece.value.Some? {
      assert owner as object != piece.value.value.storage as object;
      var marked := owner.MarkBorrowed(v);
    }
    assert PieceAnswer(slot, walk.rangeStart, walk.rangeEnd, old(walk.segmentIndex), walk.segmentIndex, piece.value);
  }

  /** One whole segment of an output packet, checked before the mark is set. */
  method AdapterSegment(owner: PacketBatchOwner, slots: seq<Slot>, v: Handle, index: nat)
    returns (r: Result<Slice, AccessError>)
    requires owner.Valid() && Stored(owner, slots)
    modifies owner`borrowed
    ensures owner.Valid() && Stored(owner, slots)
    ensures owner.Model() == Marked(old(owner.Model()), v, r.Ok?)
    ensures match ViewCheck(old(owner.Model()), v)
            case Err(e) => r == Err(OfHandle(e))
            case Ok(i) =>
              if index >= |slots[i].segments| then r == Err(OfPacket(Bounds))
              else r.Ok? && r.value.Shows(slots[i].Windows()[index])
  {
    var live := owner.EnsureViewLive(v);
    if live.Err? { return Err(OfHandle(live.error)); }
    if index >= |slots[live.value].segments| { return Err(OfPacket(Bounds)); }
    var segment := slots[live.value].segments[index];
    var marked := owner.MarkBorrowed(v);
    r := Ok(Slice(segment.storage, segment.start, segment.declaredLen));
  }
}
