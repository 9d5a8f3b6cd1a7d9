/** Four families of runs on which a successful finalization stores a stale
    length, so that a checksum it writes does not verify. Each breaks one of the
    four rules of a structured run: no tail resize of a finalized packet, no cut
    into the snapshotted UDP length, and, once a snapshot is held, no raw write
    and no head resize. So none of them can be dropped; for TCP the rule on cuts
    is only shown to be enough. */
module FinalizeLimits {
  import opened Prelude
  import opened Parsing
  import opened ParsingFacts
  import opened Checksum
  import opened Extents
  import opened PacketMachine
  import opened HeaderWrites
  import opened FinalizeTheorems
  import opened UnresizedTheorems
  import opened PacketRuns

  /** An untagged IPv4/UDP frame without options or fragmentation. */
  ghost predicate PlainUdp(b: seq<Byte>, total: nat, length: nat) {
    && 42 <= |b| && b[12] == 8 && b[13] == 0 && b[14] == 0x45 && b[20] == 0 && b[21] == 0 && b[23] == 17
    && Word(b, 16) == total && 28 <= total <= |b| - 14 && Word(b, 38) == length && 8 <= length <= total - 20
  }

  /** What such a frame decodes to. */
  ghost predicate DecodesPlain(p: ParsedPacket, total: nat, length: nat) {
    && p.ethernetStatus == Present && p.networkStatus == Present && p.transportStatus == Present
    && p.networkProtocol == Ipv4 && p.transportProtocol == Udp && !p.incompleteFragment
    && p.ipv4.headerOffset == 14 && p.ipv4.headerLen == 20 && p.ipv4.totalLen == total
    && p.udp.headerOffset == 34 && p.udp.length == length
  }

  lemma PlainDecodes(b: seq<Byte>, total: nat, length: nat)
    requires PlainUdp(b, total, length)
    ensures DecodesPlain(Parse(b, DEFAULT_CONFIG), total, length)
  {
    var e := Addressed(b, DEFAULT_CONFIG);
    var e' := e.(ethernet := e.ethernet.(etherType := 0x0800, headerLen := 14), ethernetStatus := Present);
    assert Word(b, 12) == 0x0800;
    assert Parse(b, DEFAULT_CONFIG) == ParseIpv4(b, e', 14);
    assert Accepts4(b, 14);
    assert Word(b, 14 + 6) == 0;
    var f := Ipv4Entry(b, e', 14);
    assert ParseIpv4(b, e', 14) == ParseTransport(b, f, 17, 34, total - 20);
  }

  lemma {:induction false} WritableNeverRefuses(f: Frame, ws: seq<HeaderWrite>)
    requires FrameValid(f) && (forall k :: 0 <= k < |f.writable| ==> f.writable[k])
    requires Within(ws, 0, |f.bytes|)
    ensures FirstRefusal(f, ws).Ok?
  {
    if ws != [] {
      assert forall i :: 0 <= i < |ws[1..]| ==> ws[1..][i] == ws[i + 1];
      WritableNeverRefuses(f, ws[1..]);
    }
  }

  /** The words a plan would store lie in the frame. */
  lemma WordsFit(s: PacketState, d: ProtocolExtents, e: ProtocolExtents, mh: bool, mt: bool)
    requires PlanReady(s, Plan(d, e, mh, mt, []))
    ensures var p, b := BaseParsed(s), s.frame.bytes;
            Within(NetworkWrite(p, d, e) + UdpWrite(p, d, e) + HeaderSumWrite(b, mh, p, e)
                   + TransportSumWrite(b, mt, p, e), 0, |b|)
  {
    hide Parse, RangeSum, WordSum, Canon, HeaderSum, TransportSum, Framed, NetworkWrite, UdpWrite, HeaderSumWrite,
      TransportSumWrite;
    var p, b := BaseParsed(s), s.frame.bytes;
    WordPlaces(s, Plan(d, e, mh, mt, []));
  }

  /** On fully writable storage a plan exists once its extents do. */
  lemma PlanOnWritable(s: PacketState, d: ProtocolExtents, e: ProtocolExtents)
    requires Good(s) && (forall k :: 0 <= k < |s.frame.writable| ==> s.frame.writable[k])
    requires DeclaredExtents(BaseParsed(s), BaseLen(s)) == Ok(d) && CurrentExtents(s, d) == Ok(e)
    requires HasTransport(BaseParsed(s)) && !BaseParsed(s).incompleteFragment
    requires e.networkLen <= 65535 && e.transportLen <= 65535
    ensures PlanOf(s).Ok? && PlanOf(s).value.declared == d && PlanOf(s).value.extents == e
  {
    ExtentsAreNested(s, d);
    ExtentsKeepOffsets(s, d);
    var p, b := BaseParsed(s), s.frame.bytes;
    SumsInside(p, e, BaseLen(s), b);
    hide Parse, RangeSum, WordSum, Canon, HeaderSum, TransportSum, DeclaredExtents, TailResizedExtents, PlanOf,
      FirstRefusal, NetworkWrite, UdpWrite, HeaderSumWrite, TransportSumWrite, Framed;
    WordsFit(s, d, e, MustHeader(s.journal, p, d, e), MustTransport(s.journal, p, d, e));
    PlanSteps(s, p, d, e);
    WritableNeverRefuses(s.frame, NetworkWrite(p, d, e) + UdpWrite(p, d, e)
                                  + HeaderSumWrite(b, MustHeader(s.journal, p, d, e), p, e)
                                  + TransportSumWrite(b, MustTransport(s.journal, p, d, e), p, e));
  }

  /** A resized plain frame on writable storage: its snapshot and its length. */
  ghost predicate ResizedPlain(s: PacketState, total: nat, length: nat, baseLen: nat) {
    && Good(s) && (forall k :: 0 <= k < |s.frame.writable| ==> s.frame.writable[k])
    && s.journal.hasPre && !s.journal.editFailed && s.journal.dirty.l2 && s.journal.sums == ALL_SUMS
    && s.journal.tailDelta == s.journal.signedDelta < 0
    && DecodesPlain(s.journal.preParsed, total, length) && s.journal.preLen == baseLen
    && |s.frame.bytes| == baseLen + s.journal.tailDelta && baseLen <= 65535 && 14 + total <= baseLen
  }

  /** Its plan: the packet ends where the frame or the declared packet ends. */
  lemma ResizedPlan(s: PacketState, total: nat, length: nat, baseLen: nat, total': nat, length': nat)
    requires ResizedPlain(s, total, length, baseLen) && 28 <= total && 8 <= length <= total - 20
    requires total' == (if |s.frame.bytes| < 14 + total then |s.frame.bytes| - 14 else total) && 28 <= total'
    requires length' == (if 14 + total' < 34 + length then total' - 20 else length)
    ensures PlanOf(s).Ok?
    ensures PlanOf(s).value.declared == ProtocolExtents(14, 20, total, 34, 8, length)
    ensures PlanOf(s).value.extents == ProtocolExtents(14, 20, total', 34, 8, length')
  {
    var d := ProtocolExtents(14, 20, total, 34, 8, length);
    var e := ProtocolExtents(14, 20, total', 34, 8, length');
    assert DeclaredExtents(BaseParsed(s), BaseLen(s)) == Ok(d);
    assert CurrentExtents(s, d) == Ok(e);
    PlanOnWritable(s, d, e);
  }

  /** Committing it: the frame keeps its headers, and each length field holds
      the new length only if that length changed. */
  lemma ResizedCommits(s: PacketState, total: nat, length: nat, baseLen: nat, total': nat, length': nat,
                       totalField: nat, lengthField: nat)
    requires ResizedPlain(s, total, length, baseLen) && 28 <= total && 8 <= length <= total - 20
    requires total' == (if |s.frame.bytes| < 14 + total then |s.frame.bytes| - 14 else total) && 28 <= total'
    requires length' == (if 14 + total' < 34 + length then total' - 20 else length)
    requires var b := s.frame.bytes;
             && b[12] == 8 && b[13] == 0 && b[14] == 0x45 && b[20] == 0 && b[21] == 0 && b[23] == 17
             && totalField == (if total' != total then total' else Word(b, 16))
             && lengthField == (if length' != length then length' else Word(b, 38))
             && 28 <= totalField <= |b| - 14 && 8 <= lengthField <= totalField - 20
    ensures Commits(s) && PlanOf(s).Ok?
    ensures PlanFor(s).declared == ProtocolExtents(14, 20, total, 34, 8, length)
    ensures PlanFor(s).extents == ProtocolExtents(14, 20, total', 34, 8, length')
    ensures PlainUdp(Committed(s).frame.bytes, totalField, lengthField)
    ensures Committed(s).frame == s.frame.(bytes := Committed(s).frame.bytes)
    ensures Committed(s).journal == s.journal.(finalized := true)
  {
    ResizedPlan(s, total, length, baseLen, total', length');
    PlanIsShaped(s);
    var plan, a := PlanOf(s).value, s.frame.bytes;
    var b := ApplyWrites(a, plan.writes);
    AppliedIsWritten(s, plan);
    LengthFields(BaseParsed(s), plan.declared, plan.extents, a, b, plan.mustHeader, plan.mustTransport);
    HeadersKept(BaseParsed(s), plan.declared, plan.extents, a, b, plan.mustHeader, plan.mustTransport);
    hide Parse, RangeSum, WordSum, Canon, HeaderSum, TransportSum, PlanOf;
    assert PlainUdp(b, totalField, lengthField);
    PlainDecodes(b, totalField, lengthField);
  }

  lemma HeadersKept(p: ParsedPacket, d: ProtocolExtents, e: ProtocolExtents, a: seq<Byte>, b: seq<Byte>, mh: bool,
                    mt: bool)
    requires Written(p, d, e, a, b, mh, mt) && p.networkProtocol == Ipv4 && p.transportProtocol == Udp
    requires e.networkOffset == 14 && e.transportOffset == 34 && e.transportLen >= 8
    ensures 42 <= |b| && forall k :: 12 <= k < 24 && k != 16 && k != 17 ==> b[k] == a[k]
    ensures e.networkLen == d.networkLen ==> Word(b, 16) == Word(a, 16)
    ensures e.transportLen == d.transportLen ==> Word(b, 38) == Word(a, 38)
  {
    hide RangeSum, WordSum, Canon, HeaderSum, TransportSum;
  }

  ghost predicate ShrinkableFrame(f: Frame) {
    FrameValid(f) && f.room.Linear? && f.room.resize && f.room.sameLength
  }

  /** A finalization after which another resize restores the declared length.
      On a frame with four bytes of padding: trim six bytes, finalize, append
      two, finalize. The second finalization computes the declared lengths
      again, takes them for unchanged, and leaves the shortened fields: it
      succeeds, yet the stored total length is two short and the IPv4 header
      checksum it writes does not verify. */
  lemma SecondFinalizeStale(f: Frame, x: Byte, y: Byte) returns (s1: PacketState, s2: PacketState, s3: PacketState)
    requires ShrinkableFrame(f) && |f.bytes| == 50 && PlainUdp(f.bytes, 32, 12)
    ensures Good(Fresh(f)) && s1 == ResizeStep(Fresh(f), TrimTail(6), false).0
    ensures Commits(s1) && s2 == FinalizeStep(s1).0
    ensures Good(s2) && s3 == ResizeStep(s2, Append([x, y]), false).0
    ensures Commits(s3) && PlanOf(s3).Ok? && PlanFor(s3).extents.networkLen == 32
    ensures PlainUdp(Committed(s3).frame.bytes, 30, 10)
    ensures !LengthsRight(Committed(s3).frame.bytes, BaseParsed(s3), PlanFor(s3).extents)
    ensures !HeaderSumValid(Committed(s3).frame.bytes, 14, 20)
  {
    s1 := TrimmedSix(f);
    FinalizeIsGood(s1);
    hide Parse, RangeSum, WordSum, Canon, HeaderSum, TransportSum, PlanOf, FinalizeStep;
    s2 := Committed(s1);
    s3 := AppendedTwo(s2, x, y);
    StaleTotal(s3);
  }

  lemma TrimmedSix(f: Frame) returns (s1: PacketState)
    requires ShrinkableFrame(f) && |f.bytes| == 50 && PlainUdp(f.bytes, 32, 12)
    ensures Good(Fresh(f)) && s1 == ResizeStep(Fresh(f), TrimTail(6), false).0
    ensures Good(s1) && Commits(s1) && ResizedPlain(s1, 32, 12, 50) && s1.frame.room.Linear?
            && s1.frame.room.tailroom >= 6
    ensures s1.frame.room.resize && s1.journal.tailDelta == -6
    ensures PlainUdp(Committed(s1).frame.bytes, 30, 10) && s1.frame.room.sameLength
    ensures Committed(s1).frame == s1.frame.(bytes := Committed(s1).frame.bytes)
    ensures Committed(s1).journal == s1.journal.(finalized := true)
  {
    PlainDecodes(f.bytes, 32, 12);
    FreshIsGood(f);
    hide Parse, RangeSum, WordSum, Canon, HeaderSum, TransportSum, PlanOf, FinalizeStep;
    s1 := ResizeStep(Fresh(f), TrimTail(6), false).0;
    ResizeIsGood(Fresh(f), TrimTail(6), false);
    assert ResizedPlain(s1, 32, 12, 50);
    ResizedCommits(s1, 32, 12, 50, 30, 10, 30, 10);
  }

  lemma AppendedTwo(s2: PacketState, x: Byte, y: Byte) returns (s3: PacketState)
    requires ResizedPlain(s2, 32, 12, 50) && s2.journal.tailDelta == -6 && s2.frame.room.Linear? && s2.frame.room.resize
    requires s2.frame.room.tailroom >= 6 && s2.frame.room.sameLength && PlainUdp(s2.frame.bytes, 30, 10)
    ensures s3 == ResizeStep(s2, Append([x, y]), false).0
    ensures Good(s3) && Commits(s3) && PlanOf(s3).Ok? && DecodesPlain(BaseParsed(s3), 32, 12)
            && s3.journal.sums == ALL_SUMS
    ensures PlanFor(s3).extents == ProtocolExtents(14, 20, 32, 34, 8, 12)
    ensures PlainUdp(Committed(s3).frame.bytes, 30, 10)
  {
    hide Parse, RangeSum, WordSum, Canon, HeaderSum, TransportSum, PlanOf, FinalizeStep;
    s3 := ResizeStep(s2, Append([x, y]), false).0;
    ResizeIsGood(s2, Append([x, y]), false);
    assert s3.frame.bytes == s2.frame.bytes + [x, y];
    assert ResizedPlain(s3, 32, 12, 50);
    ResizedCommits(s3, 32, 12, 50, 32, 12, 30, 10);
  }

  lemma StaleTotal(s: PacketState)
    requires Commits(s) && PlanOf(s).Ok? && DecodesPlain(BaseParsed(s), 32, 12) && s.journal.sums == ALL_SUMS
    requires PlanFor(s).extents == ProtocolExtents(14, 20, 32, 34, 8, 12)
    requires PlainUdp(Committed(s).frame.bytes, 30, 10)
    ensures !LengthsRight(Committed(s).frame.bytes, BaseParsed(s), PlanFor(s).extents)
    ensures !HeaderSumValid(Committed(s).frame.bytes, 14, 20)
  {
    hide Parse, RangeSum, WordSum, Canon, HeaderSum, TransportSum, PlanOf, FinalizeStep, HeaderSumValid;
    FinalizeHeaderSum(s);
  }

  /** Trimming into a transport header and appending other bytes. The UDP
      datagram is shorter than the IP payload, so its computed length does not
      change and its field is not rewritten, although the appended bytes
      replaced it: the finalization succeeds and the UDP checksum it writes
      does not verify. */
  lemma TrimIntoHeaderStale(f: Frame, data: seq<Byte>)
    requires ShrinkableFrame(f) && |f.bytes| == 62 && PlainUdp(f.bytes, 48, 12)
    requires |data| == 20 && data[2] == 0 && data[3] == 9
    ensures Good(Fresh(f))
    ensures var s1 := Step(Fresh(f), DoResize(TrimTail(26), false)).0;
            && Good(s1)
            && (var s2 := Step(s1, DoResize(Append(data), false)).0;
                && Good(s2) && Commits(s2)
                && Word(Committed(s2).frame.bytes, 38) == 9 && PlanFor(s2).extents.transportLen == 12
                && !LengthsRight(Committed(s2).frame.bytes, BaseParsed(s2), PlanFor(s2).extents)
                && !TransportSumValid(Committed(s2).frame.bytes, BaseParsed(s2), 34, 12))
  {
    hide Parse, RangeSum, WordSum, Canon, HeaderSum, TransportSum, TransportSumValid, LengthsRight, PlanOf,
      FinalizeStep, ResizeStep, Good;
    var s1 := TrimmedIntoHeader(f);
    var s2 := AppendedOver(s1, f, data);
    StaleUdp(s2);
  }

  lemma TrimmedIntoHeader(f: Frame) returns (s1: PacketState)
    requires ShrinkableFrame(f) && |f.bytes| == 62 && PlainUdp(f.bytes, 48, 12)
    ensures Good(Fresh(f)) && s1 == ResizeStep(Fresh(f), TrimTail(26), false).0
    ensures ResizedPlain(s1, 48, 12, 62) && s1.frame.bytes == f.bytes[..36] && s1.journal.tailDelta == -26
    ensures s1.frame.room.Linear? && s1.frame.room.resize && s1.frame.room.sameLength && s1.frame.room.tailroom >= 26
  {
    PlainDecodes(f.bytes, 48, 12);
    FreshIsGood(f);
    hide Parse, PlanOf, FinalizeStep;
    s1 := ResizeStep(Fresh(f), TrimTail(26), false).0;
    ResizeIsGood(Fresh(f), TrimTail(26), false);
  }

  lemma AppendedOver(s1: PacketState, f: Frame, data: seq<Byte>) returns (s2: PacketState)
    requires |f.bytes| == 62 && PlainUdp(f.bytes, 48, 12) && |data| == 20 && data[2] == 0 && data[3] == 9
    requires ResizedPlain(s1, 48, 12, 62) && s1.frame.bytes == f.bytes[..36] && s1.journal.tailDelta == -26
    requires s1.frame.room.Linear? && s1.frame.room.resize && s1.frame.room.sameLength && s1.frame.room.tailroom >= 26
    ensures s2 == ResizeStep(s1, Append(data), false).0
    ensures Good(s2) && Commits(s2) && PlanOf(s2).Ok? && DecodesPlain(BaseParsed(s2), 48, 12)
            && s2.journal.sums == ALL_SUMS
    ensures PlanFor(s2).extents == ProtocolExtents(14, 20, 42, 34, 8, 12)
    ensures PlainUdp(Committed(s2).frame.bytes, 42, 9)
  {
    hide Parse, RangeSum, WordSum, Canon, HeaderSum, TransportSum, PlanOf, FinalizeStep;
    s2 := ResizeStep(s1, Append(data), false).0;
    ResizeIsGood(s1, Append(data), false);
    assert s2.frame.bytes == f.bytes[..36] + data;
    assert ResizedPlain(s2, 48, 12, 62);
    ResizedCommits(s2, 48, 12, 62, 42, 12, 42, 9);
  }

  lemma StaleUdp(s: PacketState)
    requires Commits(s) && PlanOf(s).Ok? && DecodesPlain(BaseParsed(s), 48, 12) && s.journal.sums == ALL_SUMS
    requires PlanFor(s).extents == ProtocolExtents(14, 20, 42, 34, 8, 12)
    requires PlainUdp(Committed(s).frame.bytes, 42, 9)
    ensures !LengthsRight(Committed(s).frame.bytes, BaseParsed(s), PlanFor(s).extents)
    ensures !TransportSumValid(Committed(s).frame.bytes, BaseParsed(s), 34, 12)
  {
    hide Parse, RangeSum, WordSum, Canon, HeaderSum, TransportSum, PlanOf, FinalizeStep, PseudoSum, Good;
    FinalizeTransportSum(s);
  }

  /** Overwriting the total length after a trim inside the padding: the computed
      length does not change, so the field is not rewritten, and the header
      checksum is written for another length than the one stored. */
  lemma RawWriteStale(f: Frame)
    requires ShrinkableFrame(f) && |f.bytes| == 50 && PlainUdp(f.bytes, 32, 12)
    ensures Good(Fresh(f))
    ensures var s1 := Step(Fresh(f), DoResize(TrimTail(1), false)).0;
            && Good(s1)
            && (var s2 := Step(s1, DoRaw(16, 2, [0, 33], Layers(false, true, false), false, false)).0;
                StaleHeader(s2, 33))
  {
    hide Parse, RangeSum, WordSum, Canon, HeaderSum, TransportSum, PlanOf, FinalizeStep, ResizeStep, RawStep, Good,
      StaleHeader;
    var s1 := TrimmedOne(f);
    var s2 := Overwritten(s1, f);
    OtherTotal(s2, 33);
  }

  /** Replacing the head after the same trim does it too. */
  lemma HeadResizeStale(f: Frame)
    requires ShrinkableFrame(f) && |f.bytes| == 50 && PlainUdp(f.bytes, 32, 12)
    ensures Good(Fresh(f))
    ensures var s1 := Step(Fresh(f), DoResize(TrimTail(1), false)).0;
            && Good(s1)
            && (var s2 := Step(s1, DoResize(TrimHead(18), false)).0;
                && Good(s2)
                && (var s3 := Step(s2, DoResize(Prepend(f.bytes[..16] + [0, 33]), false)).0;
                    StaleHeader(s3, 33)))
  {
    hide Parse, RangeSum, WordSum, Canon, HeaderSum, TransportSum, PlanOf, FinalizeStep, ResizeStep, Good,
      StaleHeader;
    var s1 := TrimmedOne(f);
    var s2 := Beheaded(s1, f);
    var s3 := Reheaded(s2, f);
    OtherTotal(s3, 33);
  }

  /** The commit computes a network length of 32 and leaves `stored` in the field. */
  ghost predicate StaleHeader(s: PacketState, stored: nat) {
    && Commits(s) && PlanOf(s).Ok? && PlanFor(s).extents.networkLen == 32
    && 18 <= |Committed(s).frame.bytes| && Word(Committed(s).frame.bytes, 16) == stored
    && !LengthsRight(Committed(s).frame.bytes, BaseParsed(s), PlanFor(s).extents)
    && !HeaderSumValid(Committed(s).frame.bytes, 14, 20)
  }

  /** A plain frame trimmed by one byte of padding whose stored total length is now `total`. */
  ghost predicate OneShort(s: PacketState, total: nat) {
    && ResizedPlain(s, 32, 12, 50) && s.journal.tailDelta == -1 && PlainUdp(s.frame.bytes, total, 12)
    && s.frame.room.Linear? && s.frame.room.resize && s.frame.room.sameLength
  }

  lemma OtherTotal(s: PacketState, total: nat)
    requires OneShort(s, total) && 33 <= total <= 35
    ensures StaleHeader(s, total)
  {
    hide Parse, RangeSum, WordSum, Canon, HeaderSum, TransportSum, PlanOf, FinalizeStep, HeaderSumValid, Good;
    ResizedCommits(s, 32, 12, 50, 32, 12, total, 12);
    FinalizeHeaderSum(s);
  }

  lemma TrimmedOne(f: Frame) returns (s1: PacketState)
    requires ShrinkableFrame(f) && |f.bytes| == 50 && PlainUdp(f.bytes, 32, 12)
    ensures Good(Fresh(f)) && s1 == ResizeStep(Fresh(f), TrimTail(1), false).0
    ensures OneShort(s1, 32) && s1.frame.bytes == f.bytes[..49]
  {
    PlainDecodes(f.bytes, 32, 12);
    FreshIsGood(f);
    hide Parse, PlanOf, FinalizeStep;
    s1 := ResizeStep(Fresh(f), TrimTail(1), false).0;
    ResizeIsGood(Fresh(f), TrimTail(1), false);
  }

  lemma Overwritten(s1: PacketState, f: Frame) returns (s2: PacketState)
    requires OneShort(s1, 32) && |f.bytes| == 50 && s1.frame.bytes == f.bytes[..49]
    ensures s2 == RawStep(s1, 16, 2, [0, 33], Layers(false, true, false), false, false).0
    ensures OneShort(s2, 33)
  {
    hide Parse, PlanOf, FinalizeStep;
    s2 := RawStep(s1, 16, 2, [0, 33], Layers(false, true, false), false, false).0;
    RawIsGood(s1, 16, 2, [0, 33], Layers(false, true, false), false, false);
  }

  lemma Beheaded(s1: PacketState, f: Frame) returns (s2: PacketState)
    requires OneShort(s1, 32) && |f.bytes| == 50 && s1.frame.bytes == f.bytes[..49]
    ensures s2 == ResizeStep(s1, TrimHead(18), false).0 && Good(s2)
    ensures s2.frame.bytes == f.bytes[18..49] && s2.frame.room.Linear? && s2.frame.room.resize
            && s2.frame.room.sameLength
    ensures s2.frame.room.headroom >= 18 && s2.journal == s1.journal.(signedDelta := -19, cacheInvalidated := true,
                                                                      offloadEligible := false, finalized := false,
                                                                      dirty := Layers(true, true, true))
  {
    hide Parse, PlanOf, FinalizeStep;
    s2 := ResizeStep(s1, TrimHead(18), false).0;
    ResizeIsGood(s1, TrimHead(18), false);
    assert f.bytes[..49][18..] == f.bytes[18..49];
  }

  lemma Reheaded(s2: PacketState, f: Frame) returns (s3: PacketState)
    requires Good(s2) && |f.bytes| == 50 && PlainUdp(f.bytes, 32, 12) && s2.frame.bytes == f.bytes[18..49]
    requires s2.frame.room.Linear? && s2.frame.room.resize && s2.frame.room.sameLength && s2.frame.room.headroom >= 18
    requires s2.journal.hasPre && !s2.journal.editFailed && s2.journal.sums == ALL_SUMS
             && s2.journal.dirty == Layers(true, true, true)
    requires s2.journal.tailDelta == -1 && s2.journal.signedDelta == -19
    requires DecodesPlain(s2.journal.preParsed, 32, 12) && s2.journal.preLen == 50
    ensures s3 == ResizeStep(s2, Prepend(f.bytes[..16] + [0, 33]), false).0
    ensures OneShort(s3, 33)
  {
    hide Parse, PlanOf, FinalizeStep;
    var head := f.bytes[..16] + [0, 33];
    s3 := ResizeStep(s2, Prepend(head), false).0;
    ResizeIsGood(s2, Prepend(head), false);
    var c := head + f.bytes[18..49];
    assert s3.frame.bytes == c;
    assert forall k :: 18 <= k < 49 ==> c[k] == f.bytes[k];
  }
}
