/** When each change of a packet is accepted, what it leaves, and why it is
    refused, in terms of the decoded frame and the write permissions. */
module MutationAcceptance {
  import opened Prelude
  import opened Parsing
  import opened ParsingFacts
  import opened PacketMachine
  import opened PacketRuns

  // ---- Setters -------------------------------------------------------------------------------

  /** The layer a setter changes is shown by the decoder. */
  predicate Shown(p: ParsedPacket, e: FieldEdit) {
    match e
    case EthernetDestination(_) => p.ethernetStatus == Present
    case EthernetSource(_) => p.ethernetStatus == Present
    case Ipv4Dscp(_) => p.networkProtocol == Ipv4
    case Ipv4Ttl(_) => p.networkProtocol == Ipv4
    case Ipv4Source(_) => p.networkProtocol == Ipv4
    case Ipv4Destination(_) => p.networkProtocol == Ipv4
    case Ipv6TrafficClass(_) => p.networkProtocol == Ipv6
    case Ipv6HopLimit(_) => p.networkProtocol == Ipv6
    case Ipv6Source(_) => p.networkProtocol == Ipv6
    case Ipv6Destination(_) => p.networkProtocol == Ipv6
    case TcpFlags(_) => p.transportProtocol == Tcp
    case TcpPort(_, _) => p.transportProtocol == Tcp
    case UdpPort(_, _) => p.transportProtocol == Udp
  }

  predicate OnSegment(e: FieldEdit) { e.TcpFlags? || e.TcpPort? || e.UdpPort? }

  /** The bytes a setter replaces, as offset and length. */
  function Place(p: ParsedPacket, e: FieldEdit): (nat, nat) {
    var o, t := NetworkOffset(p), TransportOffset(p);
    match e
    case EthernetDestination(_) => (0, 6)
    case EthernetSource(_) => (6, 6)
    case Ipv4Dscp(_) => (o + 1, 1)
    case Ipv4Ttl(_) => (o + 8, 1)
    case Ipv4Source(_) => (o + 12, 4)
    case Ipv4Destination(_) => (o + 16, 4)
    case Ipv6TrafficClass(_) => (o, 2)
    case Ipv6HopLimit(_) => (o + 7, 1)
    case Ipv6Source(_) => (o + 8, 16)
    case Ipv6Destination(_) => (o + 24, 16)
    case TcpFlags(_) => (t + 13, 1)
    case TcpPort(source, _) => (if source then t else t + 2, 2)
    case UdpPort(source, _) => (if source then t else t + 2, 2)
  }

  predicate Open(f: Frame, at: (nat, nat)) {
    at.0 + at.1 <= |f.writable| && forall k :: at.0 <= k < at.0 + at.1 ==> f.writable[k]
  }

  /** Ports and flags of a fragment are refused as such; otherwise a setter is
      accepted exactly when its layer is shown, its bytes may be written and no
      failure is injected. It then changes nothing outside its bytes; a refusal
      changes nothing and fails the journal. */
  lemma EditAccepted(s: PacketState, e: FieldEdit, inject: bool)
    requires Good(s)
    ensures var p, (r, outcome) := Parse(s.frame.bytes, DEFAULT_CONFIG), EditStep(s, e, inject);
            && outcome == (if OnSegment(e) && p.incompleteFragment then Err(IncompleteFragment)
                           else if !Shown(p, e) then Err(UnsupportedProtocol)
                           else if inject then Err(InjectedFailure)
                           else if !Open(s.frame, Place(p, e)) then Err(ReadOnly) else Ok(()))
            && r.frame == s.frame.(bytes := r.frame.bytes) && |r.frame.bytes| == |s.frame.bytes|
            && (forall k :: 0 <= k < |s.frame.bytes| && !(Place(p, e).0 <= k < Place(p, e).0 + Place(p, e).1) ==>
                  r.frame.bytes[k] == s.frame.bytes[k])
            && (outcome.Err? ==> r.frame.bytes == s.frame.bytes && r.journal.editFailed)
  {
    CachedIsFramed(s, DEFAULT_CONFIG);
    var p, b := Parse(s.frame.bytes, DEFAULT_CONFIG), s.frame.bytes;
    var c := Cached(s, DEFAULT_CONFIG);
    assert |s.frame.writable| == |b| <= USIZE_MAX && c.frame == s.frame && (p.ethernetStatus == Present ==> |b| >= 14);
    ExpectedShown(p, e, |b|);
    hide Parse, TargetOf, Framed, Expected, Good, Shown, Place, CheckedWrite, Cached;
    if Expected(p, e).Ok? {
      var t := TargetOf(b, p, e);
      TargetPlace(b, p, e);
      WriteAccepted(c, inject, t);
    }
  }

  lemma ExpectedShown(p: ParsedPacket, e: FieldEdit, n: nat)
    requires Framed(p, n)
    ensures Expected(p, e) == if OnSegment(e) && p.incompleteFragment then Err(IncompleteFragment)
                              else if !Shown(p, e) then Err(UnsupportedProtocol) else Ok(())
  {
  }

  lemma TargetPlace(b: seq<Byte>, p: ParsedPacket, e: FieldEdit)
    requires Framed(p, |b|) && Expected(p, e).Ok? && (p.ethernetStatus == Present ==> |b| >= 12)
    ensures var t := TargetOf(b, p, e);
            (t.offset, |t.data|) == Place(p, e) && t.offset + |t.data| <= |b|
  {
  }

  lemma WriteAccepted(s: PacketState, inject: bool, t: Target)
    requires |s.frame.writable| == |s.frame.bytes| <= USIZE_MAX && t.offset + |t.data| <= |s.frame.bytes|
    ensures var (r, outcome) := CheckedWrite(s, inject, t.offset, t.data, t.dirty, t.sums);
            && outcome == (if inject then Err(InjectedFailure)
                           else if !Open(s.frame, (t.offset, |t.data|)) then Err(ReadOnly) else Ok(()))
            && (if outcome.Err? then r == Fail(s)
                else r.frame == s.frame.(bytes := Splice(s.frame.bytes, t.offset, t.data)))
  {
  }

  // ---- Raw writes ------------------------------------------------------------------------------

  /** A raw write is accepted exactly when it has the length it names, declares
      what it invalidates, lies in the packet over writable bytes, and no
      failure is injected. It replaces its bytes and no other. */
  lemma RawAccepted(s: PacketState, off: nat, len: nat, data: seq<Byte>, inv: Layers, full: bool, inject: bool)
    requires Good(s)
    ensures var b, (r, outcome) := s.frame.bytes, RawStep(s, off, len, data, inv, full, inject);
            && outcome == (if len != |data| then Err(Bounds)
                           else if !inv.l2 && !inv.l3 && !inv.l4 && !full then Err(MissingInvalidationDeclaration)
                           else if inject then Err(InjectedFailure)
                           else if off + len > USIZE_MAX then Err(Overflow)
                           else if off + len > |b| then Err(Bounds)
                           else if !Open(s.frame, (off, len)) then Err(ReadOnly) else Ok(()))
            && r.frame == s.frame.(bytes := r.frame.bytes) && |r.frame.bytes| == |b|
            && (outcome.Err? ==> r.frame.bytes == b && r.journal.editFailed)
            && (outcome.Ok? ==> forall k :: 0 <= k < |b| ==>
                                  r.frame.bytes[k] == if off <= k < off + len then data[k - off] else b[k])
  {
    hide Parse, Coherent, Framed;
  }

  // ---- Resizing --------------------------------------------------------------------------------

  /** A resize is accepted exactly on one linear segment open to resizing, within
      its room, its packet and the journal's 32-bit deltas, when no failure is
      injected. It moves bytes between the packet and its room and changes none. */
  lemma ResizeAccepted(s: PacketState, op: ResizeOp, inject: bool)
    requires Good(s)
    ensures var f, j, (r, outcome) := s.frame, s.journal, ResizeStep(s, op, inject);
            var amount, delta := op.Amount(), op.Delta();
            && (outcome.Ok? <==>
                && !inject && f.room.Linear? && f.room.resize
                && (op.Prepend? ==> amount <= f.room.headroom && |f.bytes| + amount <= USIZE_MAX)
                && (op.Append? ==> amount <= f.room.tailroom && |f.bytes| + amount <= USIZE_MAX)
                && (op.TrimHead? || op.TrimTail? ==> amount <= |f.bytes|)
                && amount <= 0x7fff_ffff_ffff_ffff
                && -0x8000_0000 <= j.signedDelta + delta <= 0x7fff_ffff
                && (op.Append? || op.TrimTail? ==> -0x8000_0000 <= j.tailDelta + delta <= 0x7fff_ffff))
            && (outcome.Err? ==> r.frame == f && r.journal.editFailed)
            && (outcome.Ok? ==>
                  && (match op
                      case Prepend(data) => r.frame.bytes == data + f.bytes
                      case Append(data) => r.frame.bytes == f.bytes + data
                      case TrimHead(n) => n + |r.frame.bytes| == |f.bytes| && r.frame.bytes == f.bytes[n..]
                      case TrimTail(n) => n + |r.frame.bytes| == |f.bytes| && r.frame.bytes == f.bytes[..|f.bytes| - n])
                  && r.frame.room.Linear? && r.frame.room.resize && r.frame.room.sameLength == f.room.sameLength
                  && r.frame.room.headroom == f.room.headroom - (if op.Prepend? then amount
                                                                 else if op.TrimHead? then -(amount as int) else 0)
                  && r.frame.room.tailroom == f.room.tailroom - (if op.Append? then amount
                                                                 else if op.TrimTail? then -(amount as int) else 0))
  {
    hide Parse, Coherent, Framed;
  }
}
