/** What setters and finalizations without tail resizes leave of a packet whose
    checksums verify. */
module ConservedSums {
  import opened Prelude
  import opened Parsing
  import opened ParsingFacts
  import opened ParsingTheorems
  import opened Checksum
  import opened Extents
  import opened PacketMachine
  import opened FinalizeTheorems
  import opened UnresizedTheorems
  import opened PacketRuns
  import opened Receiver

  ghost predicate HeaderVerifies(b: seq<Byte>, p: ParsedPacket) {
    p.networkProtocol == Ipv4 ==> HeaderSumValid(b, NetworkOffset(p), p.ipv4.headerLen)
  }

  /** The TCP or UDP checksum of a whole packet; a first fragment has none to check. */
  ghost predicate TransportVerifies(b: seq<Byte>, p: ParsedPacket) {
    HasTransport(p) && !p.incompleteFragment && !Unsummed(b, p) ==>
      && DeclaredExtents(p, |b|).Ok? && DeclaredExtents(p, |b|).value.transportLen <= 65535
      && TransportSumValid(b, p, TransportOffset(p), DeclaredExtents(p, |b|).value.transportLen)
  }

  /** An IP packet whose checksums verify. */
  ghost predicate Verifies(b: seq<Byte>) {
    var p := Parse(b, DEFAULT_CONFIG);
    p.networkStatus == Present && HeaderVerifies(b, p) && TransportVerifies(b, p)
  }

  /** Which is what a receiver of the frame checks. */
  lemma VerifiesIs(b: seq<Byte>)
    requires |b| <= USIZE_MAX
    ensures Verifies(b) <==> Accepted(b)
  {
    var p := Parse(b, DEFAULT_CONFIG);
    ParseIsFramed(b, DEFAULT_CONFIG);
    HeaderAcceptedIs(b);
    if HasTransport(p) && !p.incompleteFragment {
      WholeExtents(p, |b|);
      AcceptedIs(b, DeclaredExtents(p, |b|).value.transportLen);
    }
    hide Parse, SegmentAccepted, HeaderAccepted, TransportSumValid, HeaderSumValid, DeclaredExtents, Framed;
  }

  lemma WholeExtents(p: ParsedPacket, n: nat)
    requires Framed(p, n) && n <= USIZE_MAX && HasTransport(p) && !p.incompleteFragment
    ensures DeclaredExtents(p, n).Ok? && DeclaredExtents(p, n).value.transportLen <= 65535
  {
    DeclaredAccepted(p, n);
  }

  // ---- What a setter leaves alone -----------------------------------------------------

  /** `k` is a byte of the fixed headers that decides no layout. */
  predicate ValueByte(v4: bool, o: nat, k: nat) {
    k < 12 || (if v4 then k == o + 1 || k == o + 8 || o + 10 <= k < o + 20 else k == o + 1 || o + 7 <= k < o + 40)
  }

  /** `b` is `a` with only value bytes of its fixed headers changed. */
  ghost predicate HeaderEdited(a: seq<Byte>, b: seq<Byte>, v4: bool, o: nat) {
    && |a| == |b|
    && (forall k :: 0 <= k < |a| && !ValueByte(v4, o, k) && (v4 || k != o) ==> a[k] == b[k])
    && (!v4 && o < |a| ==> a[o] / 16 == b[o] / 16)
  }

  lemma HeaderEditedSame(a: seq<Byte>, b: seq<Byte>, p: ParsedPacket)
    requires Framed(p, |a|) && p.networkStatus == Present
    requires HeaderEdited(a, b, p.networkProtocol == Ipv4, NetworkOffset(p))
    ensures SameNetwork(a, b, p) && SameStructure(a, b, p)
  {
  }

  /** Where each setter writes: fixed headers, or ports and flags of the transport header. */
  lemma SetterTarget(b: seq<Byte>, p: ParsedPacket, e: FieldEdit)
    requires Framed(p, |b|) && p.networkStatus == Present && Expected(p, e).Ok?
    ensures var t := TargetOf(b, p, e);
            t.offset + |t.data| <= |b| &&
            var c := Splice(b, t.offset, t.data);
            if e.TcpFlags? || e.TcpPort? || e.UdpPort?
            then p.transportStatus == Present && SameStructure(b, c, p)
            else HeaderEdited(b, c, p.networkProtocol == Ipv4, NetworkOffset(p))
  {
    if e.TcpFlags? || e.TcpPort? || e.UdpPort? {
      TransportTarget(b, p, e);
    } else if e.EthernetDestination? || e.EthernetSource? {
      hide Framed;
      assert TargetOf(b, p, e).offset + 6 <= 12;
    } else {
      NetworkTarget(b, p, e);
    }
    hide TargetOf, Framed, Expected, SameStructure, HeaderEdited, Splice;
  }

  lemma TransportTarget(b: seq<Byte>, p: ParsedPacket, e: FieldEdit)
    requires Framed(p, |b|) && p.networkStatus == Present && Expected(p, e).Ok?
             && (e.TcpFlags? || e.TcpPort? || e.UdpPort?)
    ensures var t := TargetOf(b, p, e);
            t.offset + |t.data| <= |b| && p.transportStatus == Present
              && SameStructure(b, Splice(b, t.offset, t.data), p)
  {
  }

  lemma NetworkTarget(b: seq<Byte>, p: ParsedPacket, e: FieldEdit)
    requires Framed(p, |b|) && p.networkStatus == Present && Expected(p, e).Ok?
    requires !e.TcpFlags? && !e.TcpPort? && !e.UdpPort? && !e.EthernetDestination? && !e.EthernetSource?
    ensures var t := TargetOf(b, p, e);
            t.offset + |t.data| <= |b| && HeaderEdited(b, Splice(b, t.offset, t.data), p.networkProtocol == Ipv4,
                                                       NetworkOffset(p))
  {
  }

  /** After a setter the packet has the same network layout, and the same transport layout if it had one. */
  ghost predicate SameShape(p: ParsedPacket, q: ParsedPacket) {
    && q.networkStatus == Present && q.networkProtocol == p.networkProtocol
    && NetworkOffset(q) == NetworkOffset(p) && (p.networkProtocol == Ipv4 ==> q.ipv4.headerLen == p.ipv4.headerLen)
    && (HasTransport(q) <==> HasTransport(p)) && (HasTransport(p) ==> SameLayout(p, q))
  }

  lemma StructureShape(a: seq<Byte>, b: seq<Byte>)
    requires Parse(a, DEFAULT_CONFIG).transportStatus == Present && SameStructure(a, b, Parse(a, DEFAULT_CONFIG))
    ensures SameShape(Parse(a, DEFAULT_CONFIG), Parse(b, DEFAULT_CONFIG))
    ensures Parse(b, DEFAULT_CONFIG).transportStatus == Present
  {
    ParseIsFramed(a, DEFAULT_CONFIG);
    ParseStable(a, b, DEFAULT_CONFIG);
    hide Parse, SameStructure;
    RevaluedKeepsLayout(Parse(a, DEFAULT_CONFIG), b);
  }

  lemma HeaderShape(a: seq<Byte>, b: seq<Byte>)
    requires var p := Parse(a, DEFAULT_CONFIG);
             p.networkStatus == Present && HeaderEdited(a, b, p.networkProtocol == Ipv4, NetworkOffset(p))
    ensures SameShape(Parse(a, DEFAULT_CONFIG), Parse(b, DEFAULT_CONFIG))
  {
    var p, q := Parse(a, DEFAULT_CONFIG), Parse(b, DEFAULT_CONFIG);
    ParseIsFramed(a, DEFAULT_CONFIG);
    ParseIsFramed(b, DEFAULT_CONFIG);
    HeaderEditedSame(a, b, p);
    NetworkStable(a, b, DEFAULT_CONFIG);
    if p.transportStatus == Present {
      StructureShape(a, b);
    } else if q.transportStatus == Present {
      HeaderEditedSame(b, a, q);
      StructureShape(b, a);
      assert false;
    }
  }

  lemma SetterShape(b: seq<Byte>, e: FieldEdit)
    requires var p := Parse(b, DEFAULT_CONFIG); Framed(p, |b|) && p.networkStatus == Present && Expected(p, e).Ok?
    ensures var p := Parse(b, DEFAULT_CONFIG);
            var t := TargetOf(b, p, e);
            t.offset + |t.data| <= |b| && SameShape(p, Parse(Splice(b, t.offset, t.data), DEFAULT_CONFIG))
  {
    var p := Parse(b, DEFAULT_CONFIG);
    SetterTarget(b, p, e);
    hide Parse, TargetOf, SameStructure, HeaderEdited, Framed, Expected;
    var t := TargetOf(b, p, e);
    var c := Splice(b, t.offset, t.data);
    if e.TcpFlags? || e.TcpPort? || e.UdpPort? { StructureShape(b, c); } else { HeaderShape(b, c); }
  }

  // ---- What a setter leaves summed -----------------------------------------------------

  /** A setter that does not flag a checksum touches none of the bytes it sums. */
  lemma SetterSpares(b: seq<Byte>, p: ParsedPacket, e: FieldEdit)
    requires Framed(p, |b|) && p.networkStatus == Present && Expected(p, e).Ok?
    ensures var t, o := TargetOf(b, p, e), NetworkOffset(p);
            t.offset + |t.data| <= |b| &&
            var c := Splice(b, t.offset, t.data);
            && (p.networkProtocol == Ipv4 && !t.sums.ipv4Header ==> Agree(b, c, o, o + p.ipv4.headerLen))
            && (p.networkProtocol == Ipv4 && !t.sums.transport ==> Agree(b, c, o + 12, o + 20))
            && (p.networkProtocol == Ipv6 && !t.sums.transport ==> Agree(b, c, o + 8, o + 40))
            && (HasTransport(p) && !t.sums.transport ==> Agree(b, c, TransportOffset(p), NetworkEnd(p)))
  {
  }

  lemma SliceAgrees(a: seq<Byte>, b: seq<Byte>, lo: nat, hi: nat)
    requires lo <= hi && Agree(a, b, lo, hi)
    ensures hi <= |a| && hi <= |b| && a[lo..hi] == b[lo..hi]
  {
  }

  lemma HeaderStaysValid(a: seq<Byte>, b: seq<Byte>, p: ParsedPacket, q: ParsedPacket)
    requires SameShape(p, q) && HeaderVerifies(a, p)
    requires p.networkProtocol == Ipv4 ==> Agree(a, b, NetworkOffset(p), NetworkOffset(p) + p.ipv4.headerLen)
    ensures HeaderVerifies(b, q)
  {
    hide Canon, WordSum;
    if p.networkProtocol == Ipv4 { SliceAgrees(a, b, NetworkOffset(p), NetworkOffset(p) + p.ipv4.headerLen); }
  }

  lemma TransportStaysValid(a: seq<Byte>, b: seq<Byte>, p: ParsedPacket, q: ParsedPacket)
    requires SameShape(p, q) && TransportVerifies(a, p) && |a| == |b| && Framed(p, |a|)
    requires p.networkStatus == Present
    requires p.networkProtocol == Ipv4 ==> Agree(a, b, NetworkOffset(p) + 12, NetworkOffset(p) + 20)
    requires p.networkProtocol == Ipv6 ==> Agree(a, b, NetworkOffset(p) + 8, NetworkOffset(p) + 40)
    requires HasTransport(p) ==> Agree(a, b, TransportOffset(p), NetworkEnd(p))
    ensures TransportVerifies(b, q)
  {
    hide Canon, WordSum, RangeSum, PseudoSum, DeclaredExtents;
    if HasTransport(p) && !p.incompleteFragment && !Unsummed(b, q) {
      assert p.networkProtocol == Ipv4 && p.transportProtocol == Udp
             ==> a[TransportOffset(p) + 6] == b[TransportOffset(p) + 6]
                 && a[TransportOffset(p) + 7] == b[TransportOffset(p) + 7];
      var e, t := DeclaredExtents(p, |a|).value, TransportOffset(p);
      DeclaredIsNested(p, |a|, |a|);
      SameExtents(p, q, |a|);
      SamePseudo(p, q, b, e.transportLen);
      PseudoAgrees(a, b, p, e.transportLen);
      hide Framed, Agree;
      SegmentAgrees(a, b, p, e);
    }
  }

  lemma SegmentAgrees(a: seq<Byte>, b: seq<Byte>, p: ParsedPacket, e: ProtocolExtents)
    requires Nested(e, p, |a|) && HasTransport(p) && e.networkOffset + e.networkLen <= NetworkEnd(p)
    requires Agree(a, b, TransportOffset(p), NetworkEnd(p))
    ensures var t := TransportOffset(p);
            t + e.transportLen <= |a| && t + e.transportLen <= |b|
              && a[t..t + e.transportLen] == b[t..t + e.transportLen]
  {
  }

  lemma PseudoAgrees(a: seq<Byte>, b: seq<Byte>, p: ParsedPacket, n: U16)
    requires p.networkProtocol == Ipv4 ==> Agree(a, b, NetworkOffset(p) + 12, NetworkOffset(p) + 20)
    requires p.networkProtocol == Ipv6 ==> Agree(a, b, NetworkOffset(p) + 8, NetworkOffset(p) + 40)
    ensures PseudoSum(a, p, n) == PseudoSum(b, p, n)
  {
    hide RangeSum;
    if p.networkProtocol == Ipv4 { RangeSumAgrees(a, b, p.ipv4.headerOffset + 12, 0, 8); }
    if p.networkProtocol == Ipv6 { RangeSumAgrees(a, b, p.ipv6.headerOffset + 8, 0, 32); }
  }

  // ---- The invariant of an edited packet ------------------------------------------------

  /** Operations of an ordinary editor that keep the length. */
  predicate Ordinary(op: Op) { op.DoParse? || op.DoEdit? || op.DoFinalize? }

  /** Every checksum that no edit has flagged still verifies; flags mean dirt;
      a finalized dirty packet verifies outright. */
  ghost predicate Sound(s: PacketState) {
    var b, p, j := s.frame.bytes, Parse(s.frame.bytes, DEFAULT_CONFIG), s.journal;
    && Unresized(s) && j.signedDelta == 0 && p.networkStatus == Present
    && (j.sums.ipv4Header || HeaderVerifies(b, p))
    && (j.sums.transport || TransportVerifies(b, p))
    && (j.sums.ipv4Header || j.sums.transport ==> j.dirty.Any())
    && (j.finalized && j.dirty.Any() ==> Verifies(b))
  }

  lemma WriteKeepsSound(s: PacketState, inject: bool, t: Target)
    requires |s.frame.writable| == |s.frame.bytes| && Sound(s) && t.dirty.Any()
             && t.offset + |t.data| <= |s.frame.bytes|
    requires var c := Splice(s.frame.bytes, t.offset, t.data);
             var q := Parse(c, DEFAULT_CONFIG);
             && q.networkStatus == Present
             && (s.journal.sums.ipv4Header || t.sums.ipv4Header || HeaderVerifies(c, q))
             && (s.journal.sums.transport || t.sums.transport || TransportVerifies(c, q))
    ensures Sound(CheckedWrite(s, inject, t.offset, t.data, t.dirty, t.sums).0)
  {
    hide Parse, HeaderVerifies, TransportVerifies, Verifies, WriteCheck;
  }

  /** Parsing and failing keep it: no byte and no flag changes. */
  lemma CacheKeepsSound(s: PacketState, cfg: ParserConfig)
    requires Sound(s)
    ensures Sound(Cached(s, cfg)) && Sound(Fail(s))
  {
    hide Parse, HeaderVerifies, TransportVerifies, Verifies;
  }

  lemma SetterVerifies(b: seq<Byte>, e: FieldEdit)
    requires var p := Parse(b, DEFAULT_CONFIG); Framed(p, |b|) && p.networkStatus == Present && Expected(p, e).Ok?
    ensures var p := Parse(b, DEFAULT_CONFIG);
            var t := TargetOf(b, p, e);
            t.offset + |t.data| <= |b| &&
            var c := Splice(b, t.offset, t.data);
            var q := Parse(c, DEFAULT_CONFIG);
            && q.networkStatus == Present
            && (HeaderVerifies(b, p) ==> t.sums.ipv4Header || HeaderVerifies(c, q))
            && (TransportVerifies(b, p) ==> t.sums.transport || TransportVerifies(c, q))
  {
    var p := Parse(b, DEFAULT_CONFIG);
    SetterShape(b, e);
    SetterSpares(b, p, e);
    hide Parse, TargetOf, Agree, Expected, Framed, HeaderVerifies, TransportVerifies;
    var t := TargetOf(b, p, e);
    var c := Splice(b, t.offset, t.data);
    if HeaderVerifies(b, p) && !t.sums.ipv4Header { HeaderStaysValid(b, c, p, Parse(c, DEFAULT_CONFIG)); }
    if TransportVerifies(b, p) && !t.sums.transport { TransportStaysValid(b, c, p, Parse(c, DEFAULT_CONFIG)); }
  }

  lemma EditKeepsSound(s: PacketState, e: FieldEdit, inject: bool)
    requires Good(s) && Sound(s)
    ensures Sound(EditStep(s, e, inject).0)
  {
    CachedIsFramed(s, DEFAULT_CONFIG);
    CacheKeepsSound(s, DEFAULT_CONFIG);
    CacheKeepsSound(Cached(s, DEFAULT_CONFIG), DEFAULT_CONFIG);
    var b, p, c := s.frame.bytes, Parse(s.frame.bytes, DEFAULT_CONFIG), Cached(s, DEFAULT_CONFIG);
    if Expected(p, e).Ok? {
      SetterVerifies(b, e);
      TargetIsDirty(b, p, e);
      hide TargetOf, HeaderVerifies, TransportVerifies, Verifies, Framed, CheckedWrite, Parse;
      WriteKeepsSound(c, inject, TargetOf(b, p, e));
    }
    hide Parse, TargetOf, HeaderVerifies, TransportVerifies, Framed, Good, Sound, CheckedWrite, Expected;
  }

  lemma TargetIsDirty(b: seq<Byte>, p: ParsedPacket, e: FieldEdit)
    requires Framed(p, |b|) && Expected(p, e).Ok?
    ensures TargetOf(b, p, e).dirty.Any()
  {
  }

  // ---- Finalization ------------------------------------------------------------------

  /** A commit whose header or transport checksum is not due leaves what it sums alone. */
  lemma CommitSpares(p: ParsedPacket, e: ProtocolExtents, a: seq<Byte>, b: seq<Byte>, mh: bool, mt: bool)
    requires Written(p, e, e, a, b, mh, mt) && Framed(p, |a|) && p.networkStatus == Present
    ensures p.networkProtocol == Ipv4 && !mh ==> Agree(a, b, NetworkOffset(p), NetworkOffset(p) + p.ipv4.headerLen)
    ensures p.networkProtocol == Ipv4 ==> Agree(a, b, NetworkOffset(p) + 12, NetworkOffset(p) + 20)
    ensures p.networkProtocol == Ipv6 ==> Agree(a, b, NetworkOffset(p) + 8, NetworkOffset(p) + 40)
    ensures HasTransport(p) && !mt ==> Agree(a, b, TransportOffset(p), NetworkEnd(p))
  {
    hide Canon, WordSum, RangeSum, HeaderSum, TransportSum, StoredChecksum;
  }

  lemma CommitVerifies(p: ParsedPacket, e: ProtocolExtents, a: seq<Byte>, b: seq<Byte>, mh: bool, mt: bool)
    requires p == Parse(a, DEFAULT_CONFIG) && Framed(p, |a|) && p.networkStatus == Present
    requires Written(p, e, e, a, b, mh, mt) && DeclaredExtents(p, |a|) == Ok(e)
    requires mh || HeaderVerifies(a, p)
    requires mt || TransportVerifies(a, p)
    ensures Verifies(b)
  {
    var q := Parse(b, DEFAULT_CONFIG);
    FreshSound(p, e, a, b, mh, mt);
    CommitSpares(p, e, a, b, mh, mt);
    hide Canon, WordSum, RangeSum, HeaderSum, TransportSum, StoredChecksum, Parse, Agree, TransportSumValid,
      HeaderSumValid;
    assert SameShape(p, q) && |a| == |b|;
    DeclaredIsNested(p, |a|, |a|);
    hide Written, Framed, DeclaredExtents;
    if !mh { HeaderStaysValid(a, b, p, q); }
    if !mt { TransportStaysValid(a, b, p, q); }
  }

  lemma FinalizeKeepsSound(s: PacketState)
    requires Good(s) && Sound(s)
    ensures Sound(FinalizeStep(s).0)
    ensures FinalizeStep(s).1.Ok? ==> Verifies(FinalizeStep(s).0.frame.bytes) || !s.journal.NeedsFinalize()
  {
    if FinalizeStep(s).1.Err? {
      FinalizeTransactional(s);
      FailedFinalize(s);
      hide Parse, PlanOf, ApplyWrites, HeaderVerifies, TransportVerifies, Verifies, Good, FinalizeStep;
    } else if s.journal.NeedsFinalize() {
      BaseIsFresh(s);
      CommitFacts(s);
      UnresizedPlan(s);
      FinalizeExactFrame(s);
      var plan, a, b := PlanFor(s), s.frame.bytes, Committed(s).frame.bytes;
      DuesCover(s, BaseParsed(s), plan.extents);
      hide Parse, PlanOf, HeaderVerifies, TransportVerifies, Good, FinalizeStep, Written, Framed, MustHeader,
        MustTransport;
      CommitVerifies(BaseParsed(s), plan.extents, a, b, plan.mustHeader, plan.mustTransport);
    } else {
      hide Parse, PlanOf, HeaderVerifies, TransportVerifies, Verifies, Good;
    }
  }

  lemma FailedFinalize(s: PacketState)
    requires Good(s) && FinalizeStep(s).1.Err?
    ensures var r := FinalizeStep(s).0;
            && r.journal.tailDelta == s.journal.tailDelta && r.journal.signedDelta == s.journal.signedDelta
            && r.journal.sums == s.journal.sums && r.journal.dirty == s.journal.dirty
            && (r.journal.finalized ==> s.journal.finalized)
  {
    hide Parse, PlanOf, ApplyWrites, ReparseCheck, Good;
  }

  /** What is not due was not flagged. */
  lemma DuesCover(s: PacketState, p: ParsedPacket, e: ProtocolExtents)
    requires Sound(s) && p == Parse(s.frame.bytes, DEFAULT_CONFIG) && Nested(e, p, |s.frame.bytes|)
             && Framed(p, |s.frame.bytes|)
    ensures MustHeader(s.journal, p, e, e) || HeaderVerifies(s.frame.bytes, p)
    ensures MustTransport(s.journal, p, e, e) || TransportVerifies(s.frame.bytes, p)
  {
    hide HeaderSumValid, TransportSumValid, Parse;
  }

  lemma StepKeepsSound(s: PacketState, op: Op)
    requires Good(s) && Sound(s) && Ordinary(op)
    ensures Sound(Step(s, op).0)
  {
    hide Good, Sound, EditStep, FinalizeStep, Parse, Cached;
    match op
    case DoParse(cfg) => CacheKeepsSound(s, cfg);
    case DoEdit(e, inject) => EditKeepsSound(s, e, inject);
    case DoFinalize => FinalizeKeepsSound(s);
    case _ =>
  }

  lemma FreshIsSound(f: Frame)
    requires Verifies(f.bytes)
    ensures Sound(Fresh(f))
  {
    hide Parse, HeaderVerifies, TransportVerifies;
  }
}
