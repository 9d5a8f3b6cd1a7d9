/** Finalizing a frame whose tail was resized and whose headers stand: what the
    written frame decodes to, and exactly when the finalization succeeds. */
module ResizedTheorems {
  import opened Prelude
  import opened Parsing
  import opened ParsingFacts
  import opened ParsingTheorems
  import opened Checksum
  import opened Extents
  import opened PacketMachine
  import opened HeaderWrites
  import opened FinalizeTheorems
  import opened UnresizedTheorems
  import opened ResizedDecodes

  /** The headers of the snapshot stand in the frame: `origin` decodes to them
      and has their bytes in common with the frame. */
  ghost predicate Stands(origin: seq<Byte>, s: PacketState) {
    && s.journal.hasPre && HasTransport(s.journal.preParsed)
    && (var p0 := Parse(origin, DEFAULT_CONFIG);
        Bones(origin, s.frame.bytes, p0) && SameHeaders(s.journal.preParsed, p0))
  }

  // ---- The written frame ------------------------------------------------------------------

  /** A commit touches none of the bytes that decide which headers there are. */
  lemma BonesKept(origin: seq<Byte>, p: ParsedPacket, p0: ParsedPacket, d: ProtocolExtents, e: ProtocolExtents,
                  a: seq<Byte>, b: seq<Byte>, mh: bool, mt: bool)
    requires Written(p, d, e, a, b, mh, mt) && Bones(origin, a, p0) && SameHeaders(p, p0) && HasTransport(p)
    requires mh ==> p.networkProtocol == Ipv4
    ensures Bones(origin, b, p0)
  {
    hide RangeSum, WordSum, Canon, HeaderSum, TransportSum, StoredChecksum, NetworkFieldIs, UdpFieldIs;
    FramedTcp(p0, |origin|);
  }

  /** Stored lengths equal to nested extents fit. */
  lemma RightFits(p: ParsedPacket, p0: ParsedPacket, e: ProtocolExtents, b: seq<Byte>)
    requires LengthsRight(b, p, e) && Nested(e, p, |b|) && SameHeaders(p, p0) && HasTransport(p)
    requires p.networkProtocol == Ipv4 ==> 20 <= p.ipv4.headerLen
    ensures LengthsFit(b, p0)
  {
  }

  /** A TCP segment always fills its network packet, before and after a tail resize. */
  predicate TcpFills(p: ParsedPacket, e: ProtocolExtents) {
    p.transportProtocol == Tcp ==> e.transportOffset + e.transportLen == e.networkOffset + e.networkLen
  }

  lemma ExtentsFill(s: PacketState, d: ProtocolExtents)
    requires Good(s) && DeclaredExtents(BaseParsed(s), BaseLen(s)) == Ok(d) && CurrentExtents(s, d).Ok?
    requires HasTransport(BaseParsed(s))
    ensures TcpFills(BaseParsed(s), CurrentExtents(s, d).value)
  {
    DeclaredFills(BaseParsed(s), BaseLen(s));
    ExtentsAreNested(s, d);
    hide DeclaredExtents, Parse;
  }

  lemma DeclaredFills(p: ParsedPacket, n: nat)
    requires DeclaredExtents(p, n).Ok? && HasTransport(p)
    ensures TcpFills(p, DeclaredExtents(p, n).value)
  {
  }

  /** A decode whose headers are those of `p` and whose stored lengths are `e` declares exactly `e`. */
  lemma RightDeclares(p: ParsedPacket, e: ProtocolExtents, b: seq<Byte>)
    requires Nested(e, p, |b|) && LengthsRight(b, p, e) && TcpFills(p, e) && HasTransport(p) && |b| <= USIZE_MAX
    requires e.networkLen <= 65535
    requires SameHeaders(p, Parse(b, DEFAULT_CONFIG))
    ensures DeclaredExtents(Parse(b, DEFAULT_CONFIG), |b|) == Ok(e)
  {
    var q := Parse(b, DEFAULT_CONFIG);
    ParsedLengths(b, DEFAULT_CONFIG);
    hide Parse, Framed;
  }

  /** The decode of a planned frame: while the headers stand and the fields are
      current it is the snapshot's headers with the computed lengths. */
  lemma PlanDecodes(origin: seq<Byte>, s: PacketState, plan: Plan)
    requires Good(s) && s.journal.tailDelta != 0 && Stands(origin, s) && PlanOf(s) == Ok(plan)
    requires FieldsCurrent(s.frame.bytes, s.journal.preParsed, plan.declared, plan.extents)
    ensures var p, b := s.journal.preParsed, ApplyWrites(s.frame.bytes, plan.writes);
            && |b| == |s.frame.bytes| && Written(p, plan.declared, plan.extents, s.frame.bytes, b, plan.mustHeader,
                                                 plan.mustTransport)
            && LengthsRight(b, p, plan.extents)
            && SameHeaders(p, Parse(b, DEFAULT_CONFIG))
            && DeclaredExtents(Parse(b, DEFAULT_CONFIG), |b|) == Ok(plan.extents)
  {
    PlanIsShaped(s);
    AppliedIsWritten(s, plan);
    PlanParts(s, plan);
    hide Parse, PlanOf, PlanShape, Good, Framed, Bones, SameHeaders, DeclaredExtents, FieldsCurrent, LengthsRight,
      Written, TcpFills;
    var p, p0, a := s.journal.preParsed, Parse(origin, DEFAULT_CONFIG), s.frame.bytes;
    var b := ApplyWrites(a, plan.writes);
    PlanLengths(p, plan, a, b);
    BonesKept(origin, p, p0, plan.declared, plan.extents, a, b, plan.mustHeader, plan.mustTransport);
    RightFits(p, p0, plan.extents, b);
    BonesDecode(origin, b, DEFAULT_CONFIG);
    HeadersMeet(p, p0, Parse(b, DEFAULT_CONFIG));
    RightDeclares(p, plan.extents, b);
  }

  lemma PlanLengths(p: ParsedPacket, plan: Plan, a: seq<Byte>, b: seq<Byte>)
    requires Written(p, plan.declared, plan.extents, a, b, plan.mustHeader, plan.mustTransport)
    requires FieldsCurrent(a, p, plan.declared, plan.extents)
    ensures LengthsRight(b, p, plan.extents)
  {
    LengthFields(p, plan.declared, plan.extents, a, b, plan.mustHeader, plan.mustTransport);
    hide Written, NetworkFieldIs, UdpFieldIs;
  }

  lemma HeadersMeet(p: ParsedPacket, p0: ParsedPacket, q: ParsedPacket)
    requires SameHeaders(p, p0) && SameHeaders(p0, q)
    ensures SameHeaders(p, q)
  {
  }

  /** What a plan over a snapshot consists of. */
  lemma PlanParts(s: PacketState, plan: Plan)
    requires Good(s) && s.journal.tailDelta != 0 && PlanOf(s) == Ok(plan) && HasTransport(s.journal.preParsed)
    ensures var p, e := s.journal.preParsed, plan.extents;
            && BaseParsed(s) == p && Nested(e, p, |s.frame.bytes|) && TcpFills(p, e) && e.networkLen <= 65535
            && (p.networkProtocol == Ipv4 ==> 20 <= p.ipv4.headerLen)
            && (plan.mustHeader ==> p.networkProtocol == Ipv4) && plan.mustTransport && |s.frame.bytes| <= USIZE_MAX
            && s.journal.sums.transport && !p.incompleteFragment
  {
    ExtentsAreNested(s, plan.declared);
    ExtentsFill(s, plan.declared);
    hide Parse, DeclaredExtents, TailResizedExtents, RangeSum, WordSum, Canon, HeaderSum, TransportSum, FirstRefusal,
      TcpFills;
  }

  /** The checksum a fresh decode reports is the stored word. */
  lemma ParsedChecksum(b: seq<Byte>)
    requires var q := Parse(b, DEFAULT_CONFIG); q.transportStatus == Present && q.transportProtocol == Udp
    ensures var q := Parse(b, DEFAULT_CONFIG);
            TransportOffset(q) + 8 <= |b| && q.udp.checksum == Word(b, TransportOffset(q) + 6)
  {
    var q := Parse(b, DEFAULT_CONFIG);
    ParseIsFramed(b, DEFAULT_CONFIG);
    assert SameStructure(b, b, q);
    ParseStable(b, b, DEFAULT_CONFIG);
    RevaluedKeepsLayout(q, b);
  }

  /** The reparse accepts what a plan over standing headers wrote. */
  lemma ResizedReparses(origin: seq<Byte>, s: PacketState, plan: Plan)
    requires Good(s) && s.journal.tailDelta != 0 && Stands(origin, s) && PlanOf(s) == Ok(plan)
    requires FieldsCurrent(s.frame.bytes, s.journal.preParsed, plan.declared, plan.extents)
    ensures ReparseCheck(s.journal.preParsed, Parse(ApplyWrites(s.frame.bytes, plan.writes), DEFAULT_CONFIG)).Ok?
  {
    var p, a := s.journal.preParsed, s.frame.bytes;
    var b := ApplyWrites(a, plan.writes);
    StandsOn(origin, s);
    hide *;
    PlanDecodes(origin, s, plan);
    PlanParts(s, plan);
    SameTransportPlace(p, plan.extents, |a|);
    NonzeroStored(p, plan.declared, plan.extents, a, b, plan.mustHeader);
    ReparsesAlike(p, b);
  }

  lemma StandsOn(origin: seq<Byte>, s: PacketState)
    requires Stands(origin, s)
    ensures HasTransport(s.journal.preParsed)
  {
  }

  /** A due transport checksum is stored nonzero. */
  lemma NonzeroStored(p: ParsedPacket, d: ProtocolExtents, e: ProtocolExtents, a: seq<Byte>, b: seq<Byte>, mh: bool)
    requires Written(p, d, e, a, b, mh, true)
    ensures ChecksumOffset(p, e.transportOffset) + 2 <= |b| && Word(b, ChecksumOffset(p, e.transportOffset)) != 0
  {
    hide Written, Closes, Congruent, PseudoSum, WordSum, Canon;
    TransportSumCloses(p, d, e, a, b, mh);
  }

  lemma ReparsesAlike(p: ParsedPacket, b: seq<Byte>)
    requires HasTransport(p) && SameHeaders(p, Parse(b, DEFAULT_CONFIG))
    requires ChecksumOffset(p, TransportOffset(p)) + 2 <= |b| && Word(b, ChecksumOffset(p, TransportOffset(p))) != 0
    ensures ReparseCheck(p, Parse(b, DEFAULT_CONFIG)).Ok?
  {
    hide Parse;
    if p.transportProtocol == Udp { ParsedChecksum(b); }
  }

  lemma SameTransportPlace(p: ParsedPacket, e: ProtocolExtents, n: nat)
    requires Nested(e, p, n) && HasTransport(p)
    ensures e.transportOffset == TransportOffset(p)
  {
  }

  // ---- When it succeeds ----------------------------------------------------------------------

  /** Where the network packet ends after the tail resize: at the frame end when
      it was trimmed or grew from there, otherwise where it ended. */
  function NewNetworkEnd(p: ParsedPacket, baseLen: nat, frameLen: nat, tailDelta: int): nat {
    var end := NetworkEnd(p);
    if tailDelta > 0 && end == baseLen then frameLen else if tailDelta < 0 && frameLen < end then frameLen else end
  }

  function TransportEnd(p: ParsedPacket): nat {
    if p.transportProtocol == Udp then TransportOffset(p) + p.udp.length else NetworkEnd(p)
  }

  function NewTransportEnd(p: ParsedPacket, baseLen: nat, frameLen: nat, tailDelta: int): nat {
    var end, now := TransportEnd(p), NewNetworkEnd(p, baseLen, frameLen, tailDelta);
    if tailDelta > 0 && end == NetworkEnd(p) == baseLen then now else if tailDelta < 0 && now < end then now else end
  }

  function FixedHeader(p: ParsedPacket): nat { if p.transportProtocol == Udp then 8 else p.tcp.headerLen }

  lemma ResizedExtentsAre(p: ParsedPacket, baseLen: nat, frameLen: nat, tailDelta: int)
    requires Framed(p, baseLen) && HasTransport(p) && !p.incompleteFragment && baseLen <= USIZE_MAX
             && frameLen <= USIZE_MAX
    ensures DeclaredExtents(p, baseLen).Ok?
    ensures var d := DeclaredExtents(p, baseLen).value;
            var r := TailResizedExtents(d, baseLen, frameLen, tailDelta, p.transportProtocol);
            && (r.Ok? <==> frameLen == baseLen + tailDelta
                           && TransportOffset(p) + FixedHeader(p) <= NewTransportEnd(p, baseLen, frameLen, tailDelta))
            && d.networkLen == NetworkEnd(p) - NetworkOffset(p)
               && d.transportLen == TransportEnd(p) - TransportOffset(p)
            && (r.Ok? ==>
                  && r.value.networkOffset == NetworkOffset(p) && r.value.transportOffset == TransportOffset(p)
                  && r.value.networkLen == NewNetworkEnd(p, baseLen, frameLen, tailDelta) - NetworkOffset(p)
                  && r.value.transportLen == NewTransportEnd(p, baseLen, frameLen, tailDelta) - TransportOffset(p))
  {
  }

  /** What a caller can read off the snapshot, the resizes and the permissions. */
  ghost predicate ResizedFinalizable(s: PacketState) {
    HeadersFit(s) && WordsWritable(s)
  }

  /** The snapshot holds a whole TCP or UDP packet, its headers fit the resized
      frame and the result can be described. */
  ghost predicate HeadersFit(s: PacketState) {
    var p, j, n := s.journal.preParsed, s.journal, |s.frame.bytes|;
    && HasTransport(p) && !p.incompleteFragment
    && n == j.preLen + j.tailDelta
    && TransportOffset(p) + FixedHeader(p) <= NewTransportEnd(p, j.preLen, n, j.tailDelta)
    && NewNetworkEnd(p, j.preLen, n, j.tailDelta) - NetworkOffset(p) <= 65535
  }

  /** Every length field that changes and every checksum can be written. */
  ghost predicate WordsWritable(s: PacketState) {
    var p, j, n := s.journal.preParsed, s.journal, |s.frame.bytes|;
    var o, t := NetworkOffset(p), TransportOffset(p);
    var netEnd, transEnd := NewNetworkEnd(p, j.preLen, n, j.tailDelta), NewTransportEnd(p, j.preLen, n, j.tailDelta);
    && (netEnd != NetworkEnd(p) ==> Writable2(s.frame, o + if p.networkProtocol == Ipv4 then 2 else 4))
    && (p.transportProtocol == Udp && transEnd != TransportEnd(p) ==> Writable2(s.frame, t + 4))
    && (p.networkProtocol == Ipv4 && (j.sums.ipv4Header || netEnd != NetworkEnd(p)) ==> Writable2(s.frame, o + 10))
    && Writable2(s.frame, ChecksumOffset(p, t))
  }

  /** All four optional words are accepted exactly when each of them is. */
  lemma RefusalOfFour(f: Frame, n: seq<HeaderWrite>, u: seq<HeaderWrite>, h: seq<HeaderWrite>, t: seq<HeaderWrite>)
    requires |f.writable| == |f.bytes| && |n| <= 1 && |u| <= 1 && |h| <= 1 && |t| <= 1
    ensures FirstRefusal(f, n + u + h + t).Ok? <==>
            && (n != [] ==> WriteCheck(f, n[0].offset, 2).Ok?) && (u != [] ==> WriteCheck(f, u[0].offset, 2).Ok?)
            && (h != [] ==> WriteCheck(f, h[0].offset, 2).Ok?) && (t != [] ==> WriteCheck(f, t[0].offset, 2).Ok?)
  {
    RefusalSplits(f, n + u + h, t);
    RefusalSplits(f, n + u, h);
    RefusalSplits(f, n, u);
    RefusalOfOne(f, n);
    RefusalOfOne(f, u);
    RefusalOfOne(f, h);
    RefusalOfOne(f, t);
    hide FirstRefusal, WriteCheck;
  }

  lemma {:induction false} RefusalSplits(f: Frame, a: seq<HeaderWrite>, b: seq<HeaderWrite>)
    requires |f.writable| == |f.bytes|
    ensures FirstRefusal(f, a + b).Ok? <==> FirstRefusal(f, a).Ok? && FirstRefusal(f, b).Ok?
  {
    if a == [] {
      assert a + b == b;
    } else {
      assert (a + b)[1..] == a[1..] + b;
      RefusalSplits(f, a[1..], b);
    }
  }

  /** Headers fit exactly when the guards of a plan pass; then the extents are these. */
  lemma HeadersFitExactly(s: PacketState)
    requires Good(s) && s.journal.tailDelta != 0 && s.journal.preLen <= USIZE_MAX
    ensures var p, j, n := s.journal.preParsed, s.journal, |s.frame.bytes|;
            && BaseParsed(s) == p && BaseLen(s) == j.preLen && Framed(p, j.preLen) && j.sums.transport
            && (HasTransport(p) && !p.incompleteFragment ==> DeclaredExtents(p, j.preLen).Ok?)
            && (HeadersFit(s) <==>
                && HasTransport(p) && !p.incompleteFragment && CurrentExtents(s, DeclaredExtents(p, j.preLen).value).Ok?
                && CurrentExtents(s, DeclaredExtents(p, j.preLen).value).value.networkLen <= 65535)
            && (HeadersFit(s) ==>
                  var d := DeclaredExtents(p, j.preLen).value;
                  var e := CurrentExtents(s, d).value;
                  && e.networkOffset == NetworkOffset(p) && e.transportOffset == TransportOffset(p)
                  && (e.networkLen == d.networkLen <==> NewNetworkEnd(p, j.preLen, n, j.tailDelta) == NetworkEnd(p))
                  && (e.transportLen == d.transportLen
                      <==> NewTransportEnd(p, j.preLen, n, j.tailDelta) == TransportEnd(p)))
  {
    var p, j, n := s.journal.preParsed, s.journal, |s.frame.bytes|;
    hide DeclaredExtents, TailResizedExtents, Framed, NewNetworkEnd, NewTransportEnd;
    if HasTransport(p) && !p.incompleteFragment { ResizedExtentsAre(p, j.preLen, n, j.tailDelta); }
  }

  /** The plan of a tail-resized frame exists exactly when it is finalizable. */
  lemma ResizedPlanExists(s: PacketState)
    requires Good(s) && s.journal.tailDelta != 0 && s.journal.preLen <= USIZE_MAX
    ensures PlanOf(s).Ok? <==> ResizedFinalizable(s)
  {
    hide Parse, RangeSum, WordSum, Canon, HeaderSum, TransportSum, Framed, PlanOf, DeclaredExtents, HeadersFit,
      Writable2, BaseParsed, BaseLen, Good, CurrentExtents, NewNetworkEnd, NewTransportEnd;
    HeadersFitExactly(s);
    if PlanOf(s).Ok? { PlanGuards(s); }
    if HeadersFit(s) {
      var p := s.journal.preParsed;
      var d := DeclaredExtents(p, s.journal.preLen).value;
      var e := CurrentExtents(s, d).value;
      ExtentsAreNested(s, d);
      SumsInside(p, e, s.journal.preLen, s.frame.bytes);
      ResizedWrites(s, p, d, e);
    }
  }

  lemma ResizedWrites(s: PacketState, p: ParsedPacket, d: ProtocolExtents, e: ProtocolExtents)
    requires Good(s) && s.journal.tailDelta != 0 && p == s.journal.preParsed && HasTransport(p) && !p.incompleteFragment
    requires DeclaredExtents(p, s.journal.preLen) == Ok(d) && CurrentExtents(s, d) == Ok(e)
    requires Nested(e, p, |s.frame.bytes|) && Framed(p, s.journal.preLen) && e.networkLen <= 65535
             && e.transportLen <= 65535
    requires p.networkProtocol == Ipv4 ==> HeaderSum(s.frame.bytes, p, e).Some?
    requires TransportSum(s.frame.bytes, p, e.transportOffset, e.transportLen).Some?
    ensures PlanOf(s).Ok? <==>
            && (e.networkLen != d.networkLen
                ==> Writable2(s.frame, e.networkOffset + if p.networkProtocol == Ipv4 then 2 else 4))
            && (p.transportProtocol == Udp && e.transportLen != d.transportLen
                ==> Writable2(s.frame, e.transportOffset + 4))
            && (MustHeader(s.journal, p, d, e) ==> Writable2(s.frame, e.networkOffset + 10))
            && Writable2(s.frame, ChecksumOffset(p, e.transportOffset))
  {
    hide Parse, RangeSum, WordSum, Canon, HeaderSum, TransportSum, DeclaredExtents, TailResizedExtents, PlanOf,
      FirstRefusal, WriteCheck;
    var b, mh, mt := s.frame.bytes, MustHeader(s.journal, p, d, e), MustTransport(s.journal, p, d, e);
    PlanSteps(s, p, d, e);
    var nw, uw, hw, tw := NetworkWrite(p, d, e), UdpWrite(p, d, e), HeaderSumWrite(b, mh, p, e),
                          TransportSumWrite(b, mt, p, e);
    RefusalOfFour(s.frame, nw, uw, hw, tw);
    FramedTcp(p, s.journal.preLen);
    if nw != [] { CheckIsWritable(s.frame, nw[0].offset); }
    if uw != [] { CheckIsWritable(s.frame, uw[0].offset); }
    if hw != [] { CheckIsWritable(s.frame, hw[0].offset); }
    CheckIsWritable(s.frame, tw[0].offset);
  }

  /** Exactly when a due finalization after tail resizes succeeds, as long as the
      headers stand and the length fields are current. */
  lemma ResizedSucceeds(origin: seq<Byte>, s: PacketState)
    requires Good(s) && s.journal.tailDelta != 0 && s.journal.preLen <= USIZE_MAX && !s.journal.editFailed
    requires s.journal.tailDelta == s.journal.signedDelta
    requires HasTransport(s.journal.preParsed) && PlanOf(s).Ok? ==>
               Stands(origin, s)
               && FieldsCurrent(s.frame.bytes, s.journal.preParsed, PlanOf(s).value.declared, PlanOf(s).value.extents)
    ensures FinalizeStep(s).1.Ok? <==> ResizedFinalizable(s)
  {
    hide Parse, PlanOf, ResizedFinalizable, ReparseCheck, Stands, FieldsCurrent, ApplyWrites;
    ResizedPlanExists(s);
    if PlanOf(s).Ok? {
      NeedsTransport(s);
      ResizedReparses(origin, s, PlanOf(s).value);
    }
  }

  lemma NeedsTransport(s: PacketState)
    requires Good(s) && s.journal.tailDelta != 0 && PlanOf(s).Ok?
    ensures HasTransport(s.journal.preParsed)
  {
    hide Parse, DeclaredExtents, TailResizedExtents, RangeSum, WordSum, Canon, HeaderSum, TransportSum, FirstRefusal;
  }
}
