/** The editor of one live packet: storage, journal and parse cache updated in
    place. Each operation is proved to take exactly the step of PacketMachine. */
module PacketEditing {
  import opened Prelude
  import opened Parsing
  import opened ParsingFacts
  import opened PacketMachine
  import opened PacketRuns
  import opened Storage
  import opened SlotParser

  /** Beyond its bytes a frame depends on the descriptors alone. */
  ghost function FrameWith(slot: Slot, bytes: seq<Byte>): Frame
    requires slot.Valid()
  {
    Frame(bytes, Pieces.Concat(slot.Masks()), slot.RoomOf())
  }

  lemma FrameBytes(slot: Slot)
    requires slot.Valid()
    ensures slot.FrameOf() == FrameWith(slot, slot.Flat()) && slot.FrameOf().bytes == slot.Flat()
  {
  }

  lemma FrameLength(slot: Slot)
    requires slot.Valid()
    ensures |slot.FrameOf().bytes| == slot.totalLen
  {
    FlatLength(slot);
    FrameBytes(slot);
    hide Slot.Valid, Slot.FrameOf, Slot.Flat;
  }

  /** A checked write, seen on the flat frame. */
  method WriteFrame(slot: Slot, offset: nat, data: seq<Byte>) returns (r: Outcome)
    requires slot.Valid() && FrameValid(slot.FrameOf())
    modifies slot.MutableArrays()
    ensures r == WriteCheck(old(slot.FrameOf()), offset, |data|)
    ensures r.Err? ==> slot.FrameOf() == old(slot.FrameOf())
    ensures r.Ok? ==> offset + |data| <= |old(slot.FrameOf().bytes)| && slot.FrameOf() ==
                      old(slot.FrameOf()).(bytes := Splice(old(slot.FrameOf().bytes), offset, data))
  {
    hide AllWritable, Pieces.Concat;
    hide Slot.Valid, Slot.Masks, Slot.RoomOf, Segment.Window;
    r := ValidateWritable(slot, offset, |data|);
    assert slot.Windows() == old(slot.Windows());
    if r.Ok? { WriteSlot(slot, offset, data); }
  }

  class EditorContext {
    var slot: Slot
    var journal: Journal
    var cache: ParsedPacket

    ghost predicate Valid()
      reads this, slot.Arrays()
    {
      slot.Valid() && Good(Model())
    }

    /** The packet as the flat machine sees it. */
    ghost function Model(): PacketState
      requires slot.Valid()
      reads this, slot.Arrays()
    {
      PacketState(slot.FrameOf(), journal, cache)
    }

    constructor (s: Slot)
      requires s.Valid()
      ensures Valid() && slot == s && Model() == Fresh(s.FrameOf())
    {
      slot, journal, cache := s, CLEAN, BLANK;
      new;
      FrameIsValid(s);
      FreshIsGood(s.FrameOf());
    }

    method MarkFailure()
      requires slot.Valid()
      modifies this`journal
      ensures Model() == Fail(old(Model()))
    {
      hide Slot.FrameOf, Slot.Valid;
      assert this !in slot.Arrays();
      journal := journal.(invalid := true, editFailed := true, finalized := false);
      assert slot.FrameOf() == old(slot.FrameOf());
    }

    /** The lazy parse: the cache is refilled only when blank or for another configuration. */
    method EnsureParsed(cfg: ParserConfig)
      requires slot.Valid()
      modifies this`cache
      ensures Model() == Cached(old(Model()), cfg)
    {
      hide Slot.Valid, Slot.FrameOf, Parse;
      assert this !in slot.Arrays();
      FrameBytes(slot);
      if cache.ethernetStatus == Unparsed || cache.config != cfg {
        cache := ParseSlot(slot, cfg);
      }
      assert slot.FrameOf() == old(slot.FrameOf());
    }

    method ParsePacket(cfg: ParserConfig) returns (r: Result<ParsedPacket, PacketError>)
      requires Valid()
      modifies this`cache
      ensures Valid() && (Model(), r) == ParseStep(old(Model()), cfg)
    {
      if !cfg.Valid() { return Err(InvalidParserLimit); }
      CachedIsGood(Model(), cfg);
      hide Good, Slot.Valid, Slot.FrameOf, Cached;
      EnsureParsed(cfg);
      r := Ok(cache);
    }

    method RecordMutation(dirty: Layers, sums: Sums)
      requires slot.Valid()
      modifies this`journal, this`cache
      ensures Model() == Recorded(old(Model()), dirty, sums)
    {
      hide Slot.FrameOf, Slot.Valid;
      assert this !in slot.Arrays();
      journal := journal.(dirty := journal.dirty.Or(dirty), sums := journal.sums.Or(sums),
                          finalized := false, offloadEligible := false);
      cache := BLANK;
      journal := journal.(cacheInvalidated := true);
      assert slot.FrameOf() == old(slot.FrameOf());
    }

    method WriteChecked(inject: bool, offset: nat, data: seq<Byte>, dirty: Layers, sums: Sums) returns (r: Outcome)
      requires Valid()
      modifies this`journal, this`cache, slot.MutableArrays()
      ensures Valid() && (Model(), r) == CheckedWrite(old(Model()), inject, offset, data, dirty, sums)
    {
      WriteIsGood(Model(), inject, offset, data, dirty, sums);
      hide Good, Slot.Valid, Slot.FrameOf;
      if inject {
        MarkFailure();
        return Err(InjectedFailure);
      }
      assert this !in slot.Arrays();
      r := WriteFrame(slot, offset, data);
      if r.Err? {
        MarkFailure();
      } else {
        RecordMutation(dirty, sums);
      }
    }

    /** One structured setter: expect the layer, compute the bytes, write them checked. */
    method Edit(e: FieldEdit, inject: bool) returns (r: Outcome)
      requires Valid()
      modifies this`journal, this`cache, slot.MutableArrays()
      ensures Valid() && (Model(), r) == EditStep(old(Model()), e, inject)
    {
      EditIsGood(Model(), e, inject);
      CachedIsGood(Model(), DEFAULT_CONFIG);
      CachedIsFramed(Model(), DEFAULT_CONFIG);
      FrameBytes(slot);
      ghost var flat := slot.Flat();
      hide Good, Slot.Valid, Slot.FrameOf, Cached, CheckedWrite, Framed, Expected, TargetOf, FrameWith;
      EnsureParsed(DEFAULT_CONFIG);
      ghost var s := Model();
      FrameBytes(slot);
      r := Expected(cache, e);
      if r.Err? {
        MarkFailure();
        return;
      }
      var t := ReadTarget(slot, flat, cache, e);
      FrameBytes(slot);
      r := WriteChecked(inject, t.offset, t.data, t.dirty, t.sums);
    }

    /** A raw write with its invalidation declared. */
    method RawWrite(offset: nat, len: nat, data: seq<Byte>, invalidates: Layers, full: bool, inject: bool)
      returns (r: Outcome)
      requires Valid()
      modifies this`journal, this`cache, slot.MutableArrays()
      ensures Valid() && (Model(), r) == RawStep(old(Model()), offset, len, data, invalidates, full, inject)
    {
      RawIsGood(Model(), offset, len, data, invalidates, full, inject);
      hide Good, Slot.Valid, Slot.FrameOf, CheckedWrite;
      if len != |data| {
        MarkFailure();
        return Err(Bounds);
      }
      if !invalidates.Any() && !full {
        MarkFailure();
        return Err(MissingInvalidationDeclaration);
      }
      var dirty := if full then Layers(true, true, true) else invalidates;
      r := WriteChecked(inject, offset, data, dirty, Sums(dirty.l3, dirty.l3 || dirty.l4, dirty.l3));
    }

    /** Every refusal of a resize, before anything changes. */
    method CheckResize(op: ResizeOp, inject: bool) returns (r: Outcome)
      requires slot.Valid()
      ensures Model() == old(Model()) && r == ResizeCheck(Model(), op, inject)
      ensures r.Ok? ==> |slot.segments| == 1 && slot.mutables[0].Some? && RoomFor(slot.mutables[0].value, op)
    {
      FlatLength(slot);
      FrameBytes(slot);
      if |slot.segments| == 1 && slot.mutables[0].Some? { LinearLength(slot); }
      hide Slot.Valid, Slot.Flat, Slot.Masks, Slot.FrameOf, FitsI32;
      if inject { return Err(InjectedFailure); }
      if |slot.segments| != 1 { return Err(ResizeRequiresLinear); }
      if slot.mutables[0].None? { return Err(ReadOnly); }
      var descriptor := slot.mutables[0].value;
      if !descriptor.caps.resize { return Err(ResizeRequiresLinear); }
      var amount := op.Amount();
      if !op.Grows() && amount > slot.totalLen { return Err(Bounds); }
      if amount > I64_MAX { return Err(LengthOverflow); }
      var delta := op.Delta();
      if delta >= 0 && slot.totalLen + amount > USIZE_MAX { return Err(LengthOverflow); }
      if !FitsI32(journal.signedDelta + delta) { return Err(LengthOverflow); }
      if op.Tail() && !FitsI32(journal.tailDelta + delta) { return Err(LengthOverflow); }
      if op.Prepend? && amount > descriptor.headroom { return Err(InsufficientHeadroom); }
      if op.Append? && amount > descriptor.tailroom { return Err(InsufficientTailroom); }
      r := Ok(());
    }

    /** The first tail resize keeps what the frame decoded to. */
    method TakeSnapshot()
      requires slot.Valid()
      modifies this`journal, this`cache
      ensures Model() == Snapshotted(old(Model()))
    {
      assert this !in slot.Arrays();
      FrameLength(slot);
      hide Good, Slot.Valid, Slot.FrameOf, Slot.Arrays, Cached;
      ghost var f := slot.FrameOf();
      if !journal.hasPre {
        EnsureParsed(DEFAULT_CONFIG);
        assert slot.FrameOf() == f;
        journal := journal.(preParsed := cache, preLen := slot.totalLen, hasPre := true);
      }
    }

    method ApplyResize(op: ResizeOp)
      requires slot.Valid() && |slot.segments| == 1 && slot.mutables[0].Some? && RoomFor(slot.mutables[0].value, op)
      modifies this, slot.MutableArrays()
      ensures slot.Valid() && slot.Arrays() == old(slot.Arrays()) && slot.MutableArrays() == old(slot.MutableArrays())
      ensures LinearResize(old(slot.FrameOf()), op, slot.FrameOf()) && Model() == AfterResize(old(Model()), op)
    {
      hide Slot.Valid, Slot.FrameOf, Slot.Flat, Slot.RoomOf, ResizedFrame;
      assert this !in slot.Arrays();
      slot := ResizeSlot(slot, op);
      assert this !in slot.Arrays();
      journal := journal.(signedDelta := journal.signedDelta + op.Delta(),
                          tailDelta := journal.tailDelta + if op.Tail() then op.Delta() else 0);
      RecordMutation(Layers(true, true, true), ALL_SUMS);
    }

    /** An accepted resize: the snapshot when it is due, then the move. */
    method PerformResize(op: ResizeOp)
      requires Valid() && |slot.segments| == 1 && slot.mutables[0].Some? && RoomFor(slot.mutables[0].value, op)
      modifies this, slot.MutableArrays()
      ensures slot.Valid() && slot.Arrays() == old(slot.Arrays()) && slot.MutableArrays() == old(slot.MutableArrays())
      ensures LinearResize(old(slot.FrameOf()), op, slot.FrameOf())
      ensures var s := if op.Tail() then Snapshotted(old(Model())) else old(Model());
              s.frame == old(slot.FrameOf()) && Model() == AfterResize(s, op)
    {
      SnapshotFrame(Model());
      hide Good, Slot.Valid, Slot.FrameOf, Slot.Flat, AfterResize, Snapshotted, Slot.Arrays, Slot.MutableArrays,
        ResizedFrame;
      if op.Tail() { TakeSnapshot(); }
      ApplyResize(op);
    }

    /** Resizing moves the window inside its storage; the new bytes land in the
        room beside it and nothing else in the storage changes. */
    method Resize(op: ResizeOp, inject: bool) returns (r: Outcome)
      requires Valid()
      modifies this, slot.MutableArrays()
      ensures Valid() && (Model(), r) == ResizeStep(old(Model()), op, inject)
      ensures slot.Arrays() == old(slot.Arrays()) && slot.MutableArrays() == old(slot.MutableArrays())
    {
      hide Good, Slot.Valid, Slot.FrameOf, Slot.Flat, Slot.Arrays, Slot.MutableArrays, ResizeCheck, ResizeStep,
        AfterResize, Snapshotted, ResizedFrame;
      ResizeIsGood(Model(), op, inject);
      ResizeStepShape(Model(), op, inject);
      r := CheckResize(op, inject);
      if r.Err? {
        MarkFailure();
        return;
      }
      PerformResize(op);
      r := Ok(());
    }
  }

  lemma SnapshotFrame(s: PacketState)
    ensures Snapshotted(s).frame == s.frame
  {
    hide Parse;
  }

  function AfterResize(s: PacketState, op: ResizeOp): PacketState
    requires s.frame.room.Linear? && (!op.Grows() ==> op.count <= |s.frame.bytes|)
    requires (op.Prepend? ==> |op.data| <= s.frame.room.headroom) && (op.Append? ==> |op.data| <= s.frame.room.tailroom)
  {
    var j := s.journal.(signedDelta := s.journal.signedDelta + op.Delta(),
                        tailDelta := s.journal.tailDelta + if op.Tail() then op.Delta() else 0);
    Recorded(s.(frame := ResizedFrame(s.frame, op), journal := j), Layers(true, true, true), ALL_SUMS)
  }

  lemma ResizeStepShape(s: PacketState, op: ResizeOp, inject: bool)
    requires Good(s)
    ensures var t := if op.Tail() then Snapshotted(s) else s;
            var check := ResizeCheck(s, op, inject);
            if check.Err? then ResizeStep(s, op, inject) == (Fail(s), check)
            else
              && t.frame == s.frame && t.frame.room.Linear? && (!op.Grows() ==> op.count <= |t.frame.bytes|)
              && (op.Prepend? ==> |op.data| <= t.frame.room.headroom)
                 && (op.Append? ==> |op.data| <= t.frame.room.tailroom)
              && ResizeStep(s, op, inject) == (AfterResize(t, op), Ok(()))
  {
    hide Good, Parse, ResizedFrame;
  }

  /** The edit's bytes, with the bits it must preserve read from the packet. */
  method ReadTarget(slot: Slot, ghost flat: seq<Byte>, p: ParsedPacket, e: FieldEdit) returns (t: Target)
    requires slot.Valid() && slot.Flat() == flat && Framed(p, |flat|) && Expected(p, e).Ok?
    ensures slot.Flat() == flat && t == TargetOf(flat, p, e)
  {
    hide Slot.Valid, Slot.Flat;
    match e {
      case EthernetDestination(v) => t := Target(0, v, L2, NO_SUMS);
      case EthernetSource(v) => t := Target(6, v, L2, NO_SUMS);
      case Ipv4Dscp(v) =>
        var current := ByteAt(slot, flat, p.ipv4.headerOffset + 1);
        t := Target(p.ipv4.headerOffset + 1, [v * 4 + current % 4], L3, HEADER_SUM);
      case Ipv4Ttl(v) => t := Target(p.ipv4.headerOffset + 8, [v], L3, HEADER_SUM);
      case Ipv4Source(v) => t := Target(p.ipv4.headerOffset + 12, v, L3, ALL_SUMS);
      case Ipv4Destination(v) => t := Target(p.ipv4.headerOffset + 16, v, L3, ALL_SUMS);
      case Ipv6TrafficClass(v) =>
        var first := ByteAt(slot, flat, p.ipv6.headerOffset);
        var second := ByteAt(slot, flat, p.ipv6.headerOffset + 1);
        t := Target(p.ipv6.headerOffset, [first / 16 * 16 + v / 16, v % 16 * 16 + second % 16], L3, NO_SUMS);
      case Ipv6HopLimit(v) => t := Target(p.ipv6.headerOffset + 7, [v], L3, NO_SUMS);
      case Ipv6Source(v) => t := Target(p.ipv6.headerOffset + 8, v, L3, PSEUDO_SUMS);
      case Ipv6Destination(v) => t := Target(p.ipv6.headerOffset + 24, v, L3, PSEUDO_SUMS);
      case TcpFlags(v) => t := Target(p.tcp.headerOffset + 13, [v], L4, TRANSPORT_SUM);
      case TcpPort(source, v) =>
        t := Target(p.tcp.headerOffset + if source then 0 else 2, WordBytes(v), L4, TRANSPORT_SUM);
      case UdpPort(source, v) =>
        t := Target(p.udp.headerOffset + if source then 0 else 2, WordBytes(v), L4, TRANSPORT_SUM);
    }
  }

  /** The room an accepted resize has checked for. */
  predicate RoomFor(m: MutableSegment, op: ResizeOp) {
    match op
    case Prepend(data) => |data| <= m.headroom
    case Append(data) => |data| <= m.tailroom
    case _ => op.count <= m.activeLen
  }

  ghost function Resized(window: seq<Byte>, op: ResizeOp): seq<Byte>
    requires !op.Grows() ==> op.count <= |window|
  {
    match op
    case Prepend(data) => data + window
    case Append(data) => window + data
    case TrimHead(n) => window[n..]
    case TrimTail(n) => window[..|window| - n]
  }

  /** Where new bytes land in the storage: just before or just after the window. */
  ghost function Grown(m: MutableSegment, storage: seq<Byte>, op: ResizeOp): seq<Byte>
    requires m.Valid() && |storage| == m.storage.Length && RoomFor(m, op)
  {
    match op
    case Prepend(data) => Splice(storage, m.activeOffset - |data|, data)
    case Append(data) => Splice(storage, m.activeOffset + m.activeLen, data)
    case _ => storage
  }

  /** Copies bytes to one place of a storage. */
  method Store(storage: array<Byte>, at: nat, data: seq<Byte>)
    requires at + |data| <= storage.Length
    modifies storage
    ensures storage[..] == Splice(old(storage[..]), at, data)
  {
    forall k | 0 <= k < |data| { storage[at + k] := data[k]; }
  }

  lemma GrownWindow(was: seq<Byte>, start: nat, end: nat, data: seq<Byte>)
    requires start <= end <= |was|
    ensures |data| <= start ==> Splice(was, start - |data|, data)[start - |data|..end] == data + was[start..end]
    ensures end + |data| <= |was| ==> Splice(was, end, data)[start..end + |data|] == was[start..end] + data
  {
  }

  lemma ShrunkWindow(was: seq<Byte>, start: nat, end: nat, n: nat)
    requires start <= end <= |was| && n <= end - start
    ensures was[start + n..end] == was[start..end][n..]
    ensures was[start..end - n] == was[start..end][..end - start - n]
  {
  }

  /** The descriptor after an accepted resize. */
  function Moved(m: MutableSegment, op: ResizeOp): MutableSegment
    requires m.Valid() && RoomFor(m, op)
  {
    match op
    case Prepend(data) => m.(activeOffset := m.activeOffset - |data|, activeLen := m.activeLen + |data|,
                             headroom := m.headroom - |data|)
    case Append(data) => m.(activeLen := m.activeLen + |data|, tailroom := m.tailroom - |data|)
    case TrimHead(n) => m.(activeOffset := m.activeOffset + n, activeLen := m.activeLen - n, headroom := m.headroom + n)
    case TrimTail(n) => m.(activeLen := m.activeLen - n, tailroom := m.tailroom + n)
  }

  lemma MovedPlace(m: MutableSegment, op: ResizeOp)
    requires m.Valid() && RoomFor(m, op)
    ensures var n, start, end := Moved(m, op), m.activeOffset, m.activeOffset + m.activeLen;
            && n.Valid() && end <= m.storage.Length
            && match op
               case Prepend(data) => |data| <= start && n.activeOffset == start - |data|
                                     && n.activeOffset + n.activeLen == end
               case Append(data) => end + |data| <= m.storage.Length && n.activeOffset == start
                                    && n.activeOffset + n.activeLen == end + |data|
               case TrimHead(k) => n.activeOffset == start + k && n.activeOffset + n.activeLen == end
               case TrimTail(k) => n.activeOffset == start && n.activeOffset + n.activeLen == end - k
  {
  }

  /** Over the grown storage the moved window holds the resized packet. */
  lemma MovedWindow(m: MutableSegment, op: ResizeOp, was: seq<Byte>)
    requires m.Valid() && RoomFor(m, op) && |was| == m.storage.Length
    ensures Moved(m, op).Valid()
    ensures var n := Moved(m, op);
            Grown(m, was, op)[n.activeOffset..n.activeOffset + n.activeLen]
            == Resized(was[m.activeOffset..m.activeOffset + m.activeLen], op)
  {
    MovedPlace(m, op);
    hide Splice, Moved, MutableSegment.Valid;
    var start, end := m.activeOffset, m.activeOffset + m.activeLen;
    if op.Grows() { GrownWindow(was, start, end, op.data); } else { ShrunkWindow(was, start, end, op.count); }
  }

  method MoveWindow(m: MutableSegment, op: ResizeOp) returns (n: MutableSegment)
    requires m.Valid() && RoomFor(m, op)
    modifies m.storage
    ensures n == Moved(m, op) && n.Valid()
    ensures m.storage[..] == Grown(m, old(m.storage[..]), op)
    ensures n.Active().Window() == Resized(old(m.Active().Window()), op)
  {
    hide Splice, Resized, Segment.Window;
    ghost var was := m.storage[..];
    WindowOf(m.Active());
    MovedWindow(m, op, was);
    var end := m.activeOffset + m.activeLen;
    match op {
      case Prepend(data) =>
        n := m.(activeOffset := m.activeOffset - |data|, activeLen := m.activeLen + |data|,
                headroom := m.headroom - |data|);
        Store(m.storage, n.activeOffset, data);
      case Append(data) =>
        Store(m.storage, end, data);
        n := m.(activeLen := m.activeLen + |data|, tailroom := m.tailroom - |data|);
      case TrimHead(count) =>
        n := m.(activeOffset := m.activeOffset + count, activeLen := m.activeLen - count,
                headroom := m.headroom + count);
      case TrimTail(count) =>
        n := m.(activeLen := m.activeLen - count, tailroom := m.tailroom + count);
    }
    WindowOf(n.Active());
  }

  lemma WindowOf(s: Segment)
    requires s.Fits()
    ensures s.Window() == s.storage[..][s.start..s.start + s.declaredLen]
  {
  }

  lemma ConcatOne<T>(p: seq<T>)
    ensures Pieces.Concat([p]) == p
  {
    assert [p][..0] == [] && Pieces.Concat<T>([]) == [];
  }

  lemma LinearLength(slot: Slot)
    requires slot.Valid() && |slot.segments| == 1 && slot.mutables[0].Some?
    ensures slot.totalLen == slot.mutables[0].value.activeLen
  {
    assert slot.segments[..|slot.segments| - 1] == [];
    assert TotalLen([]) == 0;
  }

  lemma LinearFrame(slot: Slot)
    requires slot.Valid() && |slot.segments| == 1 && slot.mutables[0].Some?
    ensures var m, w := slot.mutables[0].value, slot.segments[0].Window();
            slot.FrameOf() == Frame(w, seq(|w|, _ => m.caps.sameLength),
                                    Linear(m.caps.sameLength, m.caps.resize, m.headroom, m.tailroom))
  {
    var w, mask := slot.segments[0].Window(), slot.Masks()[0];
    assert slot.Windows() == [w] && slot.Masks() == [mask];
    ConcatOne(w);
    ConcatOne(mask);
    assert mask == seq(|w|, _ => slot.mutables[0].value.caps.sameLength);
  }

  /** A linear slot resized in place. */
  method ResizeSlot(slot: Slot, op: ResizeOp) returns (next: Slot)
    requires slot.Valid() && |slot.segments| == 1 && slot.mutables[0].Some? && RoomFor(slot.mutables[0].value, op)
    modifies slot.MutableArrays()
    ensures next.Valid() && next.Arrays() == slot.Arrays() && next.MutableArrays() == slot.MutableArrays()
    ensures next == Slot([Moved(slot.mutables[0].value, op).Active()], [Some(Moved(slot.mutables[0].value, op))],
                         Moved(slot.mutables[0].value, op).activeLen)
    ensures LinearResize(old(slot.FrameOf()), op, next.FrameOf())
  {
    OneSlotOf(slot);
    hide Slot.FrameOf, Segment.Window, Slot.Valid, Slot.Arrays, Slot.MutableArrays, MutableSegment.Valid, LinearResize;
    LinearFrame(slot);
    ghost var f, w := slot.FrameOf(), slot.segments[0].Window();
    var descriptor := MoveWindow(slot.mutables[0].value, op);
    next := Slot([descriptor.Active()], [Some(descriptor)], descriptor.activeLen);
    OneSlot(descriptor);
    LinearFrame(next);
    LinearMoves(f, next.FrameOf(), slot.mutables[0].value, op, w);
  }

  /** A linear slot is its one descriptor. */
  lemma OneSlot(m: MutableSegment)
    requires m.Valid()
    ensures var s := Slot([m.Active()], [Some(m)], m.activeLen);
            s.Valid() && s.Arrays() == {m.storage as object} && s.MutableArrays() == {m.storage as object}
  {
    var s := Slot([m.Active()], [Some(m)], m.activeLen);
    assert s.segments[..0] == [] && s.segments[0].storage == m.storage;
    assert TotalLen(s.segments) == m.activeLen;
    assert s.segments[0].storage as object in s.Arrays() && s.segments[0].storage as object in s.MutableArrays();
  }

  lemma OneSlotOf(slot: Slot)
    requires slot.Valid() && |slot.segments| == 1 && slot.mutables[0].Some?
    ensures var m := slot.mutables[0].value;
            && m.Valid() && slot.segments[0] == m.Active()
            && slot.Arrays() == {m.storage as object} && slot.MutableArrays() == {m.storage as object}
  {
    hide TotalLen;
    assert slot.segments[0].storage as object in slot.Arrays();
    assert slot.segments[0].storage as object in slot.MutableArrays();
  }

  /** The frame of the moved descriptor is the resized frame. */
  lemma LinearMoves(f: Frame, g: Frame, m: MutableSegment, op: ResizeOp, w: seq<Byte>)
    requires m.Valid() && RoomFor(m, op) && |w| == m.activeLen
    requires f == Frame(w, seq(|w|, _ => m.caps.sameLength),
                        Linear(m.caps.sameLength, m.caps.resize, m.headroom, m.tailroom))
    requires var n, v := Moved(m, op), Resized(w, op);
             g == Frame(v, seq(|v|, _ => n.caps.sameLength),
                        Linear(n.caps.sameLength, n.caps.resize, n.headroom, n.tailroom))
    ensures LinearResize(f, op, g)
  {
  }

  ghost predicate LinearResize(f: Frame, op: ResizeOp, g: Frame) {
    && f.room.Linear? && (!op.Grows() ==> op.count <= |f.bytes|)
    && (op.Prepend? ==> |op.data| <= f.room.headroom) && (op.Append? ==> |op.data| <= f.room.tailroom)
    && g == ResizedFrame(f, op)
  }
}
