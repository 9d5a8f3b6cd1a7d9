/** Finalizing a frame whose tail was not resized: what the written frame
    decodes to, when it succeeds, and that padding plays no part. */
module UnresizedTheorems {
  import opened Prelude
  import opened Parsing
  import opened ParsingFacts
  import opened ParsingTheorems
  import opened Checksum
  import opened Extents
  import opened PacketMachine
  import opened HeaderWrites
  import opened FinalizeTheorems
  import opened Receiver

  ghost predicate Unresized(s: PacketState) { s.journal.tailDelta == 0 }

  lemma BaseIsFresh(s: PacketState)
    requires Good(s) && Unresized(s)
    ensures BaseParsed(s) == Parse(s.frame.bytes, DEFAULT_CONFIG) && Framed(BaseParsed(s), |s.frame.bytes|)
  {
    CachedIsFramed(s, DEFAULT_CONFIG);
  }

  /** Writing only checksum fields keeps the structure. */
  lemma ChecksumsKeepStructure(p: ParsedPacket, d: ProtocolExtents, a: seq<Byte>, b: seq<Byte>, mh: bool)
    requires Written(p, d, d, a, b, mh, true) && Framed(p, |a|)
    ensures SameStructure(a, b, p)
  {
  }

  /** What a frame decodes to after only its due checksums are written. */
  lemma ReparseAfter(p: ParsedPacket, d: ProtocolExtents, a: seq<Byte>, b: seq<Byte>, mh: bool, mt: bool)
    requires p == Parse(a, DEFAULT_CONFIG) && Framed(p, |a|) && Written(p, d, d, a, b, mh, mt)
    ensures !mt ==> Parse(b, DEFAULT_CONFIG) == p
    ensures mt ==> |b| >= 14 && Framed(p, |b|) && Parse(b, DEFAULT_CONFIG) == Revalued(p, b)
  {
    if mt {
      ChecksumsKeepStructure(p, d, a, b, mh);
      ParseStable(a, b, DEFAULT_CONFIG);
    } else if mh {
      HeaderChecksumUnread(a, b, DEFAULT_CONFIG);
    } else {
      assert a == b;
    }
  }

  /** Rereading keeps every offset and length. */
  lemma RevaluedKeepsLayout(p: ParsedPacket, b: seq<Byte>)
    requires |b| >= 14 && Framed(p, |b|) && p.networkStatus == Present && p.transportStatus == Present
    ensures var q := Revalued(p, b);
            && q.ethernetStatus == p.ethernetStatus && q.networkStatus == p.networkStatus
               && q.transportStatus == p.transportStatus
            && q.networkProtocol == p.networkProtocol && q.transportProtocol == p.transportProtocol
            && q.incompleteFragment == p.incompleteFragment
            && NetworkOffset(q) == NetworkOffset(p) && NetworkEnd(q) == NetworkEnd(p)
               && q.ipv4.headerLen == p.ipv4.headerLen
            && TransportOffset(q) == TransportOffset(p) && q.tcp.headerLen == p.tcp.headerLen
            && q.udp.length == p.udp.length && q.ipv4.totalLen == p.ipv4.totalLen
               && q.ipv6.payloadLen == p.ipv6.payloadLen
    ensures p.transportProtocol == Udp ==> Revalued(p, b).udp.checksum == Word(b, TransportOffset(p) + 6)
  {
  }

  /** Two decodes with the same layout. */
  ghost predicate SameLayout(p: ParsedPacket, q: ParsedPacket) {
    && q.ethernetStatus == p.ethernetStatus && q.networkStatus == p.networkStatus
       && q.transportStatus == p.transportStatus
    && q.networkProtocol == p.networkProtocol && q.transportProtocol == p.transportProtocol
    && q.incompleteFragment == p.incompleteFragment
    && NetworkOffset(q) == NetworkOffset(p) && NetworkEnd(q) == NetworkEnd(p) && q.ipv4.headerLen == p.ipv4.headerLen
    && (HasTransport(p) ==> TransportOffset(q) == TransportOffset(p) && q.tcp.headerLen == p.tcp.headerLen
                            && q.udp.length == p.udp.length)
    && q.ipv4.totalLen == p.ipv4.totalLen && q.ipv6.payloadLen == p.ipv6.payloadLen
  }

  lemma LayoutAfter(p: ParsedPacket, d: ProtocolExtents, a: seq<Byte>, b: seq<Byte>, mh: bool, mt: bool)
    requires p == Parse(a, DEFAULT_CONFIG) && Framed(p, |a|) && Written(p, d, d, a, b, mh, mt)
    ensures SameLayout(p, Parse(b, DEFAULT_CONFIG))
    ensures mt && p.transportProtocol == Udp
            ==> Parse(b, DEFAULT_CONFIG).udp.checksum == Word(b, TransportOffset(p) + 6)
  {
    ReparseAfter(p, d, a, b, mh, mt);
    if mt { RevaluedKeepsLayout(p, b); }
  }

  lemma SameExtents(p: ParsedPacket, q: ParsedPacket, n: nat)
    requires SameLayout(p, q)
    ensures DeclaredExtents(p, n) == DeclaredExtents(q, n)
  {
    assert p.networkProtocol == Ipv4 ==> p.ipv4.headerOffset == q.ipv4.headerOffset;
  }

  lemma UnresizedPlan(s: PacketState)
    requires Good(s) && Unresized(s) && PlanOf(s).Ok?
    ensures PlanOf(s).value.extents == PlanOf(s).value.declared
            && DeclaredExtents(BaseParsed(s), |s.frame.bytes|) == Ok(PlanOf(s).value.declared)
  {
  }

  /** Checksum soundness end to end. After a successful finalization of a frame
      whose tail was not resized, decode the written frame afresh: it has the
      layout it had; its stored length fields are its extents; its receiver
      accepts the IPv4 header checksum and the TCP or UDP checksum if they were
      due, and the latter is stored nonzero. */
  lemma UnresizedSound(s: PacketState)
    requires Commits(s) && Unresized(s)
    ensures var p, q, b := Parse(s.frame.bytes, DEFAULT_CONFIG), Committed(s).cache, Committed(s).frame.bytes;
            && q == Parse(b, DEFAULT_CONFIG) && SameLayout(p, q)
            && DeclaredExtents(q, |b|).Ok?
            && (var e := DeclaredExtents(q, |b|).value;
                && LengthsRight(b, q, e)
                && (q.networkProtocol == Ipv4 && s.journal.sums.ipv4Header
                    ==> HeaderSumValid(b, e.networkOffset, q.ipv4.headerLen) && HeaderAccepted(b))
                && (MustTransport(s.journal, q, e, e) ==>
                      e.transportLen <= 65535 && TransportSumValid(b, q, e.transportOffset, e.transportLen)
                      && SegmentAccepted(b)
                      && ChecksumOffset(q, e.transportOffset) + 2 <= |b|
                         && Word(b, ChecksumOffset(q, e.transportOffset)) != 0))
  {
    BaseIsFresh(s);
    FinalizeExactFrame(s);
    UnresizedPlan(s);
    CommitFacts(s);
    var p, a, b := BaseParsed(s), s.frame.bytes, Committed(s).frame.bytes;
    var plan := PlanFor(s);
    var e := plan.extents;
    var q := Parse(b, DEFAULT_CONFIG);
    FreshSound(p, e, a, b, plan.mustHeader, plan.mustTransport);
    FreshAccepted(b, e);
    hide Parse, FinalizeStep, PlanOf, RangeSum, WordSum, Canon, Good, Written, TransportSumValid, HeaderSumValid,
      SegmentAccepted, HeaderAccepted, LengthsRight, Framed;
  }

  lemma FreshAccepted(b: seq<Byte>, e: ProtocolExtents)
    requires DeclaredExtents(Parse(b, DEFAULT_CONFIG), |b|) == Ok(e)
    ensures var q := Parse(b, DEFAULT_CONFIG);
            && e.networkOffset == NetworkOffset(q) && (HasTransport(q) ==> e.transportOffset == TransportOffset(q))
            && (q.networkProtocol == Ipv4 && HeaderSumValid(b, e.networkOffset, q.ipv4.headerLen) ==> HeaderAccepted(b))
            && (HasTransport(q) && e.transportLen <= 65535 ==>
                  TransportSumValid(b, q, e.transportOffset, e.transportLen) ==> SegmentAccepted(b))
  {
    var q := Parse(b, DEFAULT_CONFIG);
    ParseIsFramed(b, DEFAULT_CONFIG);
    DeclaredIsNested(q, |b|, |b|);
    HeaderAcceptedIs(b);
    hide Parse, TransportSumValid, HeaderSumValid, SegmentAccepted, HeaderAccepted, DeclaredExtents, Framed;
    if HasTransport(q) && e.transportLen <= 65535 { AcceptedIs(b, e.transportLen); }
  }

  lemma FreshSound(p: ParsedPacket, e: ProtocolExtents, a: seq<Byte>, b: seq<Byte>, mh: bool, mt: bool)
    requires p == Parse(a, DEFAULT_CONFIG) && Framed(p, |a|) && Written(p, e, e, a, b, mh, mt)
    requires DeclaredExtents(p, |a|) == Ok(e)
    ensures var q := Parse(b, DEFAULT_CONFIG);
            && SameLayout(p, q) && DeclaredExtents(q, |b|) == Ok(e) && LengthsRight(b, q, e)
            && (mh ==> HeaderSumValid(b, e.networkOffset, q.ipv4.headerLen))
            && (mt ==> e.transportLen <= 65535 && TransportSumValid(b, q, e.transportOffset, e.transportLen)
                       && ChecksumOffset(q, e.transportOffset) + 2 <= |b|
                          && Word(b, ChecksumOffset(q, e.transportOffset)) != 0)
  {
    hide Canon, WordSum, RangeSum, Word, HeaderSum, PseudoSum, TransportSum, Parse, DeclaredExtents;
    var q := Parse(b, DEFAULT_CONFIG);
    LayoutAfter(p, e, a, b, mh, mt);
    SameExtents(p, q, |a|);
    FreshLengths(p, e, a, b, mh, mt);
    if mh { HeaderSumCloses(p, e, e, a, b, mt); }
    if mt {
      TransportSumCloses(p, e, e, a, b, mh);
      SamePseudo(p, q, b, e.transportLen);
    }
  }

  lemma FreshLengths(p: ParsedPacket, e: ProtocolExtents, a: seq<Byte>, b: seq<Byte>, mh: bool, mt: bool)
    requires p == Parse(a, DEFAULT_CONFIG) && Framed(p, |a|) && Written(p, e, e, a, b, mh, mt)
    requires DeclaredExtents(p, |a|) == Ok(e)
    ensures LengthsRight(b, p, e)
  {
    hide Canon, WordSum, RangeSum, HeaderSum, TransportSum, StoredChecksum, Window, Written;
    ParsedLengths(a, DEFAULT_CONFIG);
    hide Parse;
    LengthFields(p, e, e, a, b, mh, mt);
  }

  lemma SamePseudo(p: ParsedPacket, q: ParsedPacket, b: seq<Byte>, n: U16)
    requires SameLayout(p, q) && p.networkProtocol != NoNetwork
    ensures PseudoSum(b, p, n) == PseudoSum(b, q, n)
  {
    hide RangeSum;
  }

  // ---- When it succeeds ----------------------------------------------------------

  /** The conditions a caller can read off the decoded frame and the journal. */
  ghost predicate Finalizable(s: PacketState) {
    HasExtents(s) && ChecksumsWritable(s)
  }

  /** The decoded packet has extents, and the flagged checksums something to sum. */
  ghost predicate HasExtents(s: PacketState) {
    var p := Parse(s.frame.bytes, DEFAULT_CONFIG);
    && p.networkStatus == Present
    && (s.journal.sums.transport ==> !p.incompleteFragment && HasTransport(p))
    && (p.transportProtocol == Udp ==> TransportOffset(p) + p.udp.length <= NetworkEnd(p))
    && (p.networkProtocol == Ipv6 ==> p.ipv6.payloadLen <= 65495)
  }

  ghost predicate ChecksumsWritable(s: PacketState) {
    var p, j := Parse(s.frame.bytes, DEFAULT_CONFIG), s.journal;
    && (p.networkProtocol == Ipv4 && j.sums.ipv4Header ==> Writable2(s.frame, NetworkOffset(p) + 10))
    && (HasTransport(p) && (j.sums.transport || (p.networkProtocol == Ipv6 && p.transportProtocol == Udp)) ==>
          Writable2(s.frame, ChecksumOffset(p, TransportOffset(p))))
  }

  ghost predicate Writable2(f: Frame, k: nat) {
    k + 2 <= |f.writable| && f.writable[k] && f.writable[k + 1]
  }

  lemma RangeInside(b: seq<Byte>, off: nat, length: nat, zero: nat, over: Option<nat>, v: U16)
    requires off + length <= |b| && Aligned(Some(zero), off, length) && Aligned(over, off, length) && over != Some(zero)
    ensures RangeSum(b, off, 0, length, Some(zero), over, v).Some?
  {
    RangeSumIsWordSum(b, off, length, Some(zero), over, v);
  }

  /** Sums over nested extents never leave the frame. */
  lemma SumsInside(p: ParsedPacket, e: ProtocolExtents, n: nat, b: seq<Byte>)
    requires Nested(e, p, |b|) && Framed(p, n) && e.networkLen <= 65535 && e.transportLen <= 65535
    ensures p.networkProtocol == Ipv4 ==> HeaderSum(b, p, e).Some?
    ensures HasTransport(p) ==> TransportSum(b, p, e.transportOffset, e.transportLen).Some?
  {
    hide RangeSum;
    var o, t := e.networkOffset, e.transportOffset;
    if p.networkProtocol == Ipv4 {
      RangeInside(b, o, p.ipv4.headerLen, o + 10, Some(o + 2), e.networkLen);
    }
    if HasTransport(p) {
      if p.networkProtocol == Ipv4 { RangeSumAgrees(b, b, o + 12, 0, 8); } else { RangeSumAgrees(b, b, o + 8, 0, 32); }
      RangeInside(b, t, e.transportLen, ChecksumOffset(p, t),
                  if p.transportProtocol == Udp then Some(t + 4) else None, e.transportLen);
    }
  }

  /** What every plan has passed. */
  lemma PlanGuards(s: PacketState)
    requires Good(s) && PlanOf(s).Ok?
    ensures var p := BaseParsed(s);
            && DeclaredExtents(p, BaseLen(s)) == Ok(PlanOf(s).value.declared)
            && CurrentExtents(s, PlanOf(s).value.declared) == Ok(PlanOf(s).value.extents)
            && PlanOf(s).value.extents.networkLen <= 65535
            && (s.journal.sums.transport ==> !p.incompleteFragment && HasTransport(p))
  {
    hide Parse, RangeSum, WordSum, Canon, HeaderSum, TransportSum, FirstRefusal, DeclaredExtents, TailResizedExtents,
      Framed;
  }

  /** Extents exist exactly when the guards of a plan pass. */
  lemma ExtentsExist(s: PacketState)
    requires Good(s) && Unresized(s)
    ensures var p := BaseParsed(s);
            && p == Parse(s.frame.bytes, DEFAULT_CONFIG) && Framed(p, |s.frame.bytes|)
            && (HasExtents(s) <==>
                && DeclaredExtents(p, |s.frame.bytes|).Ok?
                   && DeclaredExtents(p, |s.frame.bytes|).value.networkLen <= 65535
                && (s.journal.sums.transport ==> !p.incompleteFragment && HasTransport(p)))
  {
    BaseIsFresh(s);
    var p, n := BaseParsed(s), |s.frame.bytes|;
    DeclaredAccepted(p, n);
    if p.networkStatus == Present { NetworkHasProtocol(p, n); }
    if DeclaredExtents(p, n).Ok? { DeclaredLen(p, n); }
    hide Parse, DeclaredExtents, Framed, BaseParsed;
  }

  lemma NetworkHasProtocol(p: ParsedPacket, n: nat)
    requires Framed(p, n) && p.networkStatus == Present
    ensures p.networkProtocol == Ipv4 || p.networkProtocol == Ipv6
  {
  }

  /** The plan of an unresized frame exists exactly when it is finalizable. */
  lemma UnresizedPlanExists(s: PacketState)
    requires Good(s) && Unresized(s)
    ensures PlanOf(s).Ok? <==> Finalizable(s)
  {
    hide Parse, RangeSum, WordSum, Canon, HeaderSum, TransportSum, Framed, PlanOf, DeclaredExtents, HasExtents,
      Writable2, BaseParsed, BaseLen, Good;
    ExtentsExist(s);
    SameBase(s);
    if PlanOf(s).Ok? {
      PlanGuards(s);
      UnresizedPlan(s);
    }
    if HasExtents(s) {
      var p, b := BaseParsed(s), s.frame.bytes;
      var e := DeclaredExtents(p, |b|).value;
      ExtentsAreNested(s, e);
      SumsInside(p, e, |b|, b);
      PlanTail(s, p, e);
    }
  }

  lemma DeclaredLen(p: ParsedPacket, n: nat)
    requires DeclaredExtents(p, n).Ok?
    ensures DeclaredExtents(p, n).value.networkLen
            == if p.networkProtocol == Ipv4 then p.ipv4.totalLen else 40 + p.ipv6.payloadLen
  {
  }

  lemma PlanTail(s: PacketState, p: ParsedPacket, e: ProtocolExtents)
    requires Good(s) && Unresized(s) && p == BaseParsed(s) && p == Parse(s.frame.bytes, DEFAULT_CONFIG)
    requires DeclaredExtents(p, |s.frame.bytes|) == Ok(e) && Nested(e, p, |s.frame.bytes|) && Framed(p, |s.frame.bytes|)
    requires e.networkLen <= 65535 && (s.journal.sums.transport ==> !p.incompleteFragment && HasTransport(p))
    requires p.networkProtocol == Ipv4 ==> HeaderSum(s.frame.bytes, p, e).Some?
    requires HasTransport(p) ==> e.transportLen <= 65535
                                 && TransportSum(s.frame.bytes, p, e.transportOffset, e.transportLen).Some?
    ensures PlanOf(s).Ok? <==>
            && (p.networkProtocol == Ipv4 && s.journal.sums.ipv4Header ==> Writable2(s.frame, NetworkOffset(p) + 10))
            && (MustTransport(s.journal, p, e, e) ==> Writable2(s.frame, ChecksumOffset(p, TransportOffset(p))))
    ensures MustTransport(s.journal, p, e, e) <==>
            HasTransport(p) && (s.journal.sums.transport || (p.networkProtocol == Ipv6 && p.transportProtocol == Udp))
  {
    var j, b, o, t := s.journal, s.frame.bytes, e.networkOffset, e.transportOffset;
    var mh, mt := MustHeader(j, p, e, e), MustTransport(j, p, e, e);
    var h, w := HeaderSumWrite(b, mh, p, e), TransportSumWrite(b, mt, p, e);
    assert NetworkWrite(p, e, e) + UdpWrite(p, e, e) + h + w == h + w;
    RefusalOfTwo(s.frame, h, w);
    if mh { CheckIsWritable(s.frame, o + 10); }
    if mt { CheckIsWritable(s.frame, ChecksumOffset(p, t)); }
    PlanSteps(s, p, e, e);
  }

  /** With everything before accepted, only the destinations can refuse the plan. */
  lemma PlanSteps(s: PacketState, p: ParsedPacket, d: ProtocolExtents, e: ProtocolExtents)
    requires Good(s) && p == BaseParsed(s) && DeclaredExtents(p, BaseLen(s)) == Ok(d) && CurrentExtents(s, d) == Ok(e)
    requires Nested(e, p, |s.frame.bytes|) && e.networkLen <= 65535 && e.transportLen <= 65535
    requires s.journal.sums.transport ==> !p.incompleteFragment && HasTransport(p)
    requires MustHeader(s.journal, p, d, e) ==> HeaderSum(s.frame.bytes, p, e).Some?
    requires MustTransport(s.journal, p, d, e)
             ==> TransportSum(s.frame.bytes, p, e.transportOffset, e.transportLen).Some?
    ensures var mh, mt := MustHeader(s.journal, p, d, e), MustTransport(s.journal, p, d, e);
            var ws := NetworkWrite(p, d, e) + UdpWrite(p, d, e)
                      + HeaderSumWrite(s.frame.bytes, mh, p, e) + TransportSumWrite(s.frame.bytes, mt, p, e);
            && (PlanOf(s).Ok? <==> FirstRefusal(s.frame, ws).Ok?)
            && (PlanOf(s).Ok? ==> PlanOf(s).value == Plan(d, e, mh, mt, ws))
  {
    hide Canon, WordSum, RangeSum, Word, HeaderSum, PseudoSum, TransportSum, Parse;
  }

  lemma RefusalOfTwo(f: Frame, h: seq<HeaderWrite>, t: seq<HeaderWrite>)
    requires |f.writable| == |f.bytes| && |h| <= 1 && |t| <= 1
    ensures FirstRefusal(f, h + t).Ok? <==>
            (h != [] ==> WriteCheck(f, h[0].offset, 2).Ok?) && (t != [] ==> WriteCheck(f, t[0].offset, 2).Ok?)
  {
    var ws := h + t;
    RefusalOfOne(f, t);
    if h != [] {
      assert ws[0] == h[0] && ws[1..] == t;
      assert FirstRefusal(f, ws[1..]) == FirstRefusal(f, t);
    } else {
      assert ws == t;
    }
  }

  lemma RefusalOfOne(f: Frame, t: seq<HeaderWrite>)
    requires |f.writable| == |f.bytes| && |t| <= 1
    ensures FirstRefusal(f, t).Ok? <==> (t != [] ==> WriteCheck(f, t[0].offset, 2).Ok?)
  {
    if t != [] { assert t[1..] == []; }
  }

  lemma CheckIsWritable(f: Frame, k: nat)
    requires FrameValid(f) && k + 2 <= |f.bytes|
    ensures WriteCheck(f, k, 2).Ok? <==> Writable2(f, k)
  {
  }


  /** Exactly when a due finalization of an unresized frame succeeds; so an
      IPv6 UDP zero checksum is never the reason for a refusal here. */
  lemma UnresizedSucceeds(s: PacketState)
    requires Good(s) && Unresized(s) && s.journal.NeedsFinalize() && !s.journal.editFailed
    ensures FinalizeStep(s).1.Ok? <==> Finalizable(s)
  {
    hide Parse, PlanOf, Finalizable, ReparseCheck, DeclaredExtents;
    UnresizedPlanExists(s);
    if PlanOf(s).Ok? { UnresizedReparses(s); }
  }

  /** The reparse of an unresized frame never undoes it. */
  lemma UnresizedReparses(s: PacketState)
    requires Good(s) && Unresized(s) && PlanOf(s).Ok?
    ensures ReparseCheck(BaseParsed(s), Parse(ApplyWrites(s.frame.bytes, PlanOf(s).value.writes), DEFAULT_CONFIG)).Ok?
  {
    hide Canon, WordSum, RangeSum, HeaderSum, PseudoSum, TransportSum, Parse, PlanOf, PlanShape, Written, Framed,
      Good, BaseParsed, BaseLen, ApplyWrites;
    BaseIsFresh(s);
    PlanIsShaped(s);
    UnresizedPlan(s);
    SameBase(s);
    var p, plan, a := BaseParsed(s), PlanOf(s).value, s.frame.bytes;
    var b := ApplyWrites(a, plan.writes);
    AppliedIsWritten(s, plan);
    UdpOver6IsDue(s, plan);
    PlanHasNetwork(s, plan);
    LayoutAfter(p, plan.declared, a, b, plan.mustHeader, plan.mustTransport);
    if plan.mustTransport { TransportSumCloses(p, plan.declared, plan.extents, a, b, plan.mustHeader); }
  }

  lemma SameBase(s: PacketState)
    requires Unresized(s)
    ensures BaseLen(s) == |s.frame.bytes|
  {
  }

  /** UDP over IPv6 always has its checksum rewritten. */
  lemma UdpOver6IsDue(s: PacketState, plan: Plan)
    requires PlanShape(s, plan) && Framed(BaseParsed(s), BaseLen(s))
    ensures var p := BaseParsed(s);
            && (p.transportProtocol == Udp ==> HasTransport(p) && plan.extents.transportOffset == TransportOffset(p))
            && (p.networkProtocol == Ipv6 && p.transportProtocol == Udp ==> plan.mustTransport)
  {
  }

  lemma PlanHasNetwork(s: PacketState, plan: Plan)
    requires Good(s) && PlanOf(s) == Ok(plan)
    ensures BaseParsed(s).ethernetStatus == Present && BaseParsed(s).networkStatus == Present
  {
    hide Parse, TailResizedExtents, RangeSum, WordSum, Canon, HeaderSum, TransportSum, FirstRefusal;
  }

  lemma AppliedIsWritten(s: PacketState, plan: Plan)
    requires PlanShape(s, plan)
    ensures Written(BaseParsed(s), plan.declared, plan.extents, s.frame.bytes, ApplyWrites(s.frame.bytes, plan.writes),
                    plan.mustHeader, plan.mustTransport)
  {
    PlanIsWritten(s, plan);
    forall k | 0 <= k < |s.frame.bytes|
      && !Window(BaseParsed(s), plan.declared, plan.extents, plan.mustHeader, plan.mustTransport, k)
      ensures s.frame.bytes[k] == ApplyWrites(s.frame.bytes, plan.writes)[k]
    {
      PlanOnlyWritten(s, plan, k);
    }
  }
}
