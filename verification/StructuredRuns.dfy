/** What edits and tail resizes leave of the headers a snapshot was taken of, and
    what a finalization stores while they stand. */
module StructuredRuns {
  import opened Prelude
  import opened Parsing
  import opened ParsingFacts
  import opened ParsingTheorems
  import opened PaddingTheorems
  import opened Checksum
  import opened Extents
  import opened PacketMachine
  import opened HeaderWrites
  import opened FinalizeTheorems
  import opened UnresizedTheorems
  import opened PacketRuns

  /** First byte after the last transport byte that decides the layout: the UDP
      length or the TCP data offset. */
  function HeaderEnd(p: ParsedPacket): nat {
    TransportOffset(p) + if p.transportProtocol == Udp then 6 else 13
  }

  /** Agreement on the structural bytes of `p`, however short `b` is beyond its headers. */
  ghost predicate StructuralBytes(a: seq<Byte>, b: seq<Byte>, p: ParsedPacket) {
    var o, t := NetworkOffset(p), PayloadStart(p);
    && HasTransport(p) && Framed(p, |a|) && HeaderEnd(p) <= |b|
    && Agree(a, b, 12, o)
    && (p.networkProtocol == Ipv4 ==> a[o] == b[o] && Agree(a, b, o + 2, o + 4) && Agree(a, b, o + 6, o + 8)
                                      && a[o + 9] == b[o + 9])
    && (p.networkProtocol == Ipv6 ==> a[o] / 16 == b[o] / 16 && Agree(a, b, o + 4, o + 7) && Agree(a, b, o + 40, t))
    && (p.transportProtocol == Tcp ==> a[t + 12] / 16 == b[t + 12] / 16)
    && (p.transportProtocol == Udp ==> Agree(a, b, t + 4, t + 6))
  }

  /** The headers snapshotted from `origin` still stand in the frame. */
  ghost predicate Intact(origin: seq<Byte>, s: PacketState) {
    && s.journal.hasPre && s.journal.preParsed == Parse(origin, DEFAULT_CONFIG) && s.journal.preLen == |origin|
    && StructuralBytes(origin, s.frame.bytes, s.journal.preParsed)
  }

  lemma StructuralIsSame(a: seq<Byte>, b: seq<Byte>, p: ParsedPacket)
    requires StructuralBytes(a, b, p) && NetworkEnd(p) <= |b|
    ensures SameStructure(a, b, p)
  {
  }

  /** What the current bytes decode to while the headers stand: the snapshot's
      layout, or a truncation when they end before the declared packet does. */
  lemma IntactDecodes(a: seq<Byte>, b: seq<Byte>, p: ParsedPacket)
    requires p == Parse(a, DEFAULT_CONFIG) && StructuralBytes(a, b, p)
    ensures Parse(b, DEFAULT_CONFIG).networkStatus == Present ==>
              |b| >= 14 && Framed(p, |b|) && Parse(b, DEFAULT_CONFIG) == Revalued(p, b)
  {
    if NetworkEnd(p) <= |b| {
      StructuralIsSame(a, b, p);
      ParseStable(a, b, DEFAULT_CONFIG);
    } else {
      var c := b + seq(NetworkEnd(p) - |b|, _ => 0);
      assert c[..|b|] == b;
      StructuralExtends(a, b, c, p);
      StructuralIsSame(a, c, p);
      ParseStable(a, c, DEFAULT_CONFIG);
      RevaluedKeepsLayout(p, c);
      TruncationExact(c, DEFAULT_CONFIG, |b|);
      ParseIsFramed(b, DEFAULT_CONFIG);
    }
  }

  lemma StructuralExtends(a: seq<Byte>, b: seq<Byte>, c: seq<Byte>, p: ParsedPacket)
    requires StructuralBytes(a, b, p) && |b| <= |c| && c[..|b|] == b
    ensures StructuralBytes(a, c, p)
  {
    forall k | 0 <= k < |b| ensures c[k] == b[k] { assert c[..|b|][k] == c[k]; }
  }

  /** Where an edit may write, given the decode it was aimed with: never on a
      structural byte, except that the traffic class keeps the version nibble. */
  lemma TargetAvoidsStructure(a: seq<Byte>, b: seq<Byte>, p: ParsedPacket, e: FieldEdit)
    requires p == Parse(a, DEFAULT_CONFIG) && StructuralBytes(a, b, p)
    requires var q := Parse(b, DEFAULT_CONFIG); Framed(q, |b|) && Expected(q, e).Ok?
    ensures var t := TargetOf(b, Parse(b, DEFAULT_CONFIG), e);
            t.offset + |t.data| <= |b| ==> StructuralBytes(a, Splice(b, t.offset, t.data), p)
  {
    hide Parse, Revalued, TargetOf;
    var q := Parse(b, DEFAULT_CONFIG);
    IntactDecodes(a, b, p);
    if e.EthernetDestination? || e.EthernetSource? {
      EthernetTargets(a, b, p, q, e);
    } else {
      RevaluedKeepsLayout(p, b);
      NetworkTargets(a, b, p, q, e);
    }
  }

  lemma EthernetTargets(a: seq<Byte>, b: seq<Byte>, p: ParsedPacket, q: ParsedPacket, e: FieldEdit)
    requires StructuralBytes(a, b, p) && Framed(q, |b|) && Expected(q, e).Ok?
    requires e.EthernetDestination? || e.EthernetSource?
    ensures var t := TargetOf(b, q, e);
            t.offset + |t.data| <= |b| ==> StructuralBytes(a, Splice(b, t.offset, t.data), p)
  {
  }

  lemma NetworkTargets(a: seq<Byte>, b: seq<Byte>, p: ParsedPacket, q: ParsedPacket, e: FieldEdit)
    requires StructuralBytes(a, b, p) && Framed(q, |b|) && Expected(q, e).Ok?
    requires !e.EthernetDestination? && !e.EthernetSource?
    requires q.networkProtocol == p.networkProtocol && q.transportProtocol == p.transportProtocol
    requires NetworkOffset(q) == NetworkOffset(p) && TransportOffset(q) == TransportOffset(p)
    ensures var t := TargetOf(b, q, e);
            t.offset + |t.data| <= |b| ==> StructuralBytes(a, Splice(b, t.offset, t.data), p)
  {
    var t := TargetOf(b, q, e);
    if t.offset + |t.data| <= |b| {
      TargetPlace(b, q, e);
      hide TargetOf, Framed, Expected;
      PlaceSpares(a, b, p, t.offset, t.data);
    }
  }

  /** Where a setter may write without touching a structural byte: values of the
      network header, the two bytes that keep the IPv6 version, and the ports,
      flags and addresses of the transport header. */
  predicate SparedPlace(b: seq<Byte>, p: ParsedPacket, off: nat, data: seq<Byte>) {
    var o, t := NetworkOffset(p), TransportOffset(p);
    || (p.networkProtocol == Ipv4 && (off == o + 1 || off == o + 8) && |data| == 1)
    || (p.networkProtocol == Ipv4 && (off == o + 12 || off == o + 16) && |data| == 4)
    || (p.networkProtocol == Ipv6 && off == o && |data| == 2 && o < |b| && data[0] / 16 == b[o] / 16)
    || (p.networkProtocol == Ipv6 && off == o + 7 && |data| == 1)
    || (p.networkProtocol == Ipv6 && (off == o + 8 || off == o + 24) && |data| == 16)
    || (p.transportProtocol == Tcp && off == t + 13 && |data| == 1)
    || (HasTransport(p) && (off == t || off == t + 2) && |data| == 2)
  }

  lemma TargetPlace(b: seq<Byte>, q: ParsedPacket, e: FieldEdit)
    requires Framed(q, |b|) && Expected(q, e).Ok? && !e.EthernetDestination? && !e.EthernetSource?
    ensures SparedPlace(b, q, TargetOf(b, q, e).offset, TargetOf(b, q, e).data)
  {
    if e.Ipv6TrafficClass? { HighNibble(b[q.ipv6.headerOffset] / 16, e.class_ / 16); }
  }

  lemma PlaceSpares(a: seq<Byte>, b: seq<Byte>, p: ParsedPacket, off: nat, data: seq<Byte>)
    requires StructuralBytes(a, b, p) && SparedPlace(b, p, off, data) && off + |data| <= |b|
    ensures StructuralBytes(a, Splice(b, off, data), p)
  {
    hide Splice;
  }

  lemma WriteKeepsIntact(origin: seq<Byte>, s: PacketState, inject: bool, t: Target)
    requires FrameValid(s.frame) && Intact(origin, s)
    requires t.offset + |t.data| <= |s.frame.bytes| ==>
               StructuralBytes(origin, Splice(s.frame.bytes, t.offset, t.data), s.journal.preParsed)
    ensures Intact(origin, CheckedWrite(s, inject, t.offset, t.data, t.dirty, t.sums).0)
  {
    hide Parse, StructuralBytes;
  }

  /** A structured edit leaves the snapshotted headers standing. */
  lemma EditKeepsIntact(origin: seq<Byte>, s: PacketState, e: FieldEdit, inject: bool)
    requires Good(s) && Intact(origin, s)
    ensures Intact(origin, EditStep(s, e, inject).0)
  {
    CachedIsFramed(s, DEFAULT_CONFIG);
    hide Parse, TargetOf, StructuralBytes, CheckedWrite, Expected;
    var c := Cached(s, DEFAULT_CONFIG);
    if Expected(c.cache, e).Ok? {
      TargetAvoidsStructure(origin, s.frame.bytes, s.journal.preParsed, e);
      WriteKeepsIntact(origin, c, inject, TargetOf(c.frame.bytes, c.cache, e));
    }
  }

  /** So does a tail resize that stays past the transport header. */
  lemma TailKeepsIntact(origin: seq<Byte>, s: PacketState, op: ResizeOp, inject: bool)
    requires Good(s) && Intact(origin, s) && op.Tail()
    requires HeaderEnd(s.journal.preParsed) <= |ResizeStep(s, op, inject).0.frame.bytes|
    ensures Intact(origin, ResizeStep(s, op, inject).0)
  {
    hide Parse;
    var b := ResizeStep(s, op, inject).0.frame.bytes;
    assert forall k :: 0 <= k < |b| && k < |s.frame.bytes| ==> b[k] == s.frame.bytes[k];
    StructuralPrefix(origin, s.frame.bytes, b, s.journal.preParsed);
  }

  lemma StructuralPrefix(a: seq<Byte>, b: seq<Byte>, c: seq<Byte>, p: ParsedPacket)
    requires StructuralBytes(a, b, p) && HeaderEnd(p) <= |c|
    requires forall k :: 0 <= k < |b| && k < |c| ==> c[k] == b[k]
    ensures StructuralBytes(a, c, p)
  {
  }

  /** The first tail resize takes the snapshot. */
  lemma SnapshotIsIntact(s: PacketState, op: ResizeOp, inject: bool)
    requires Good(s) && !s.journal.hasPre && ResizeStep(s, op, inject).0.journal.hasPre
    ensures var r := ResizeStep(s, op, inject).0;
            HasTransport(r.journal.preParsed) && HeaderEnd(r.journal.preParsed) <= |r.frame.bytes|
            ==> Intact(s.frame.bytes, r)
  {
    CachedIsFramed(s, DEFAULT_CONFIG);
    FirstSnapshot(s, op, inject);
    hide Parse, ResizeStep, Framed, Good, StructuralBytes;
    var r := ResizeStep(s, op, inject).0;
    var p := r.journal.preParsed;
    if HasTransport(p) && HeaderEnd(p) <= |r.frame.bytes| {
      StructuralSelf(s.frame.bytes, p);
      StructuralPrefix(s.frame.bytes, s.frame.bytes, r.frame.bytes, p);
    }
  }

  lemma StructuralSelf(b: seq<Byte>, p: ParsedPacket)
    requires Framed(p, |b|) && HasTransport(p)
    ensures StructuralBytes(b, b, p)
  {
  }

  /** A resize that takes the snapshot acts at the tail: it keeps a common prefix. */
  lemma FirstSnapshot(s: PacketState, op: ResizeOp, inject: bool)
    requires Good(s) && !s.journal.hasPre && ResizeStep(s, op, inject).0.journal.hasPre
    ensures var b, r := s.frame.bytes, ResizeStep(s, op, inject).0;
            && r.journal.preParsed == Parse(b, DEFAULT_CONFIG) && r.journal.preLen == |b|
            && forall k :: 0 <= k < |b| && k < |r.frame.bytes| ==> r.frame.bytes[k] == b[k]
  {
    CachedIsFramed(s, DEFAULT_CONFIG);
    hide Parse, Framed;
  }

  /** The two snapshot fields of a journal agree. */
  ghost predicate SameSnapshot(j: Journal, k: Journal) {
    k.hasPre == j.hasPre && k.preParsed == j.preParsed
  }

  lemma WriteKeepsSnapshot(s: PacketState, inject: bool, off: nat, data: seq<Byte>, dirty: Layers, sums: Sums)
    requires |s.frame.writable| == |s.frame.bytes|
    ensures SameSnapshot(s.journal, CheckedWrite(s, inject, off, data, dirty, sums).0.journal)
  {
    hide WriteCheck;
  }

  lemma EditKeepsSnapshot(s: PacketState, e: FieldEdit, inject: bool)
    requires Good(s)
    ensures SameSnapshot(s.journal, EditStep(s, e, inject).0.journal)
  {
    CachedIsFramed(s, DEFAULT_CONFIG);
    var c := Cached(s, DEFAULT_CONFIG);
    if Expected(c.cache, e).Ok? {
      var t := TargetOf(c.frame.bytes, c.cache, e);
      WriteKeepsSnapshot(c, inject, t.offset, t.data, t.dirty, t.sums);
    }
    hide CheckedWrite, Parse, Framed, Expected, TargetOf;
  }

  lemma RawKeepsSnapshot(s: PacketState, off: nat, len: nat, data: seq<Byte>, inv: Layers, full: bool, inject: bool)
    requires Good(s)
    ensures SameSnapshot(s.journal, RawStep(s, off, len, data, inv, full, inject).0.journal)
  {
    var dirty := if full then Layers(true, true, true) else inv;
    WriteKeepsSnapshot(s, inject, off, data, dirty, Sums(dirty.l3, dirty.l3 || dirty.l4, dirty.l3));
    hide CheckedWrite, Good;
  }

  /** Only a resize takes a snapshot. */
  lemma NoSnapshotElsewhere(s: PacketState, op: Op)
    requires Good(s) && !op.DoResize?
    ensures SameSnapshot(s.journal, Step(s, op).0.journal)
  {
    hide EditStep, RawStep, FinalizeStep, Good, Parse;
    match op
    case DoParse(_) =>
    case DoEdit(e, inject) => EditKeepsSnapshot(s, e, inject);
    case DoRaw(off, len, data, inv, full, inject) => RawKeepsSnapshot(s, off, len, data, inv, full, inject);
    case DoFinalize => FinalizeKeepsSnapshot(s);
    case DoResize(_, _) =>
  }

  lemma ResizeKeepsSnapshot(s: PacketState, op: ResizeOp, inject: bool)
    requires s.journal.hasPre
    ensures SameSnapshot(s.journal, ResizeStep(s, op, inject).0.journal)
  {
    hide Parse, ResizedFrame, ResizeCheck;
  }

  /** A snapshot once taken is never retaken. */
  lemma SnapshotKept(s: PacketState, op: Op)
    requires Good(s) && s.journal.hasPre
    ensures Step(s, op).0.journal.hasPre && Step(s, op).0.journal.preParsed == s.journal.preParsed
  {
    hide EditStep, RawStep, ResizeStep, FinalizeStep, Good, Parse;
    if op.DoResize? { ResizeKeepsSnapshot(s, op.resize, op.inject); } else { NoSnapshotElsewhere(s, op); }
  }

  lemma FinalizeKeepsSnapshot(s: PacketState)
    requires Good(s)
    ensures SameSnapshot(s.journal, FinalizeStep(s).0.journal)
  {
    hide Parse, PlanOf, Good, ReparseCheck, ApplyWrites;
  }

  /** While the headers stand, every length field is current. */
  lemma IntactIsCurrent(origin: seq<Byte>, s: PacketState)
    requires Good(s) && PlanOf(s).Ok? && Intact(origin, s) && s.journal.tailDelta != 0
    ensures FieldsCurrent(s.frame.bytes, s.journal.preParsed, PlanOf(s).value.declared, PlanOf(s).value.extents)
  {
    PlanDeclared(s);
    hide Parse, PlanOf, Committed, FinalizeStep, DeclaredExtents, PlanShape, Good, Cached, Framed, StructuralBytes,
      FieldsCurrent;
    var plan := PlanOf(s).value;
    IntactFields(origin, s.frame.bytes, BaseParsed(s), plan.declared, plan.extents, s.journal.preLen);
  }

  lemma IntactFields(origin: seq<Byte>, b: seq<Byte>, p: ParsedPacket, d: ProtocolExtents, e: ProtocolExtents, n: nat)
    requires p == Parse(origin, DEFAULT_CONFIG) && StructuralBytes(origin, b, p) && DeclaredExtents(p, n) == Ok(d)
    requires e.networkOffset == NetworkOffset(p) && (HasTransport(p) ==> e.transportOffset == TransportOffset(p))
    ensures FieldsCurrent(b, p, d, e)
  {
    assert HasTransport(p) && p.networkStatus == Present by { hide Parse; }
    ParsedLengths(origin, DEFAULT_CONFIG);
    StructuralLengths(origin, b, p);
    hide Parse, DeclaredExtents, Framed, StructuralBytes, FieldsCurrent;
    FieldsFrom(p, d, e, n, b);
  }

  lemma FieldsFrom(p: ParsedPacket, d: ProtocolExtents, e: ProtocolExtents, n: nat, b: seq<Byte>)
    requires DeclaredExtents(p, n) == Ok(d) && HasTransport(p)
    requires e.networkOffset == NetworkOffset(p) && e.transportOffset == TransportOffset(p)
    requires var o, t := NetworkOffset(p), TransportOffset(p);
             && (p.networkProtocol == Ipv4 ==> o + 4 <= |b| && Word(b, o + 2) == p.ipv4.totalLen)
             && (p.networkProtocol == Ipv6 ==> o + 6 <= |b| && Word(b, o + 4) == p.ipv6.payloadLen)
             && (p.transportProtocol == Udp ==> t + 6 <= |b| && Word(b, t + 4) == p.udp.length)
    ensures FieldsCurrent(b, p, d, e)
  {
  }

  lemma PlanDeclared(s: PacketState)
    requires Good(s) && PlanOf(s).Ok?
    ensures DeclaredExtents(BaseParsed(s), BaseLen(s)) == Ok(PlanOf(s).value.declared)
    ensures PlanOf(s).value.extents.networkOffset == NetworkOffset(BaseParsed(s))
    ensures HasTransport(BaseParsed(s)) ==> PlanOf(s).value.extents.transportOffset == TransportOffset(BaseParsed(s))
  {
    ExtentsAreNested(s, PlanOf(s).value.declared);
  }

  lemma StructuralLengths(a: seq<Byte>, b: seq<Byte>, p: ParsedPacket)
    requires StructuralBytes(a, b, p)
    ensures var o, t := NetworkOffset(p), TransportOffset(p);
            && (p.networkProtocol == Ipv4 ==> o + 4 <= |b| && Word(b, o + 2) == Word(a, o + 2))
            && (p.networkProtocol == Ipv6 ==> o + 6 <= |b| && Word(b, o + 4) == Word(a, o + 4))
            && (p.transportProtocol == Udp ==> t + 6 <= |b| && Word(b, t + 4) == Word(a, t + 4))
  {
    var o := NetworkOffset(p);
    assert p.networkProtocol == Ipv4 ==> a[o + 2] == b[o + 2] && a[o + 3] == b[o + 3];
  }

  /** The committed frame is sound: stored lengths are the computed extents
      and every checksum due verifies. */
  ghost predicate SoundCommit(s: PacketState)
    requires Commits(s)
  {
    var p, e, d, b := BaseParsed(s), PlanFor(s).extents, PlanFor(s).declared, Committed(s).frame.bytes;
    && LengthsRight(b, p, e)
    && (MustHeader(s.journal, p, d, e) ==> HeaderSumValid(b, e.networkOffset, p.ipv4.headerLen))
    && (MustTransport(s.journal, p, d, e) ==> TransportSound(b, p, e))
  }

  ghost predicate TransportSound(b: seq<Byte>, p: ParsedPacket, e: ProtocolExtents) {
    && e.transportLen <= 65535 && TransportSumValid(b, p, e.transportOffset, e.transportLen)
    && ChecksumOffset(p, e.transportOffset) + 2 <= |b| && Word(b, ChecksumOffset(p, e.transportOffset)) != 0
  }

  /** With current fields, a commit is sound. */
  lemma CommitSound(s: PacketState)
    requires Commits(s)
    requires PlanOf(s).Ok? && FieldsCurrent(s.frame.bytes, BaseParsed(s), PlanFor(s).declared, PlanFor(s).extents)
    ensures SoundCommit(s)
  {
    hide Parse, FinalizeStep, RangeSum, WordSum, Canon, PlanOf, Good, FieldsCurrent, PseudoSum, MustHeader,
      MustTransport, HeaderSumValid, TransportSound, TransportVerified, NetworkFieldIs, UdpFieldIs;
    var p, plan, b := BaseParsed(s), PlanFor(s), Committed(s).frame.bytes;
    FinalizeLengths(s);
    if MustHeader(s.journal, p, plan.declared, plan.extents) { FinalizeHeaderSum(s); }
    if MustTransport(s.journal, p, plan.declared, plan.extents) {
      FinalizeTransportSum(s);
      VerifiedIsSound(b, p, plan.extents);
    }
  }

  lemma VerifiedIsSound(b: seq<Byte>, p: ParsedPacket, e: ProtocolExtents)
    requires TransportVerified(b, p, e) && UdpFieldIs(b, p, e.transportOffset, e.transportLen)
    ensures TransportSound(b, p, e)
  {
    hide RangeSum, WordSum, Canon, PseudoSum;
  }
}
