/** Finalizing twice, and finalizing frames that differ only in padding. */
module RepeatTheorems {
  import opened Prelude
  import opened Parsing
  import opened ParsingFacts
  import opened PaddingTheorems
  import opened Checksum
  import opened Extents
  import opened PacketMachine
  import opened HeaderWrites
  import opened FinalizeTheorems
  import opened UnresizedTheorems

  predicate Inside(at: Option<nat>, k: nat) { at.Some? && at.value <= k < at.value + 2 }

  lemma WordIgnores(a: seq<Byte>, b: seq<Byte>, off: nat, local: nat, length: nat, zero: Option<nat>, over: Option<nat>,
                    v: U16)
    requires off + length <= |a| && off + length <= |b| && local < length && local % 2 == 0
    requires Aligned(zero, off, length) && Aligned(over, off, length)
    requires forall k :: off <= k < off + length ==>
               Inside(zero, k) || Inside(over, k) || a[k] == b[k]
    ensures RangeWord(a, off, local, length, zero, over, v) == RangeWord(b, off, local, length, zero, over, v)
  {
    var at := off + local;
    assert zero.Some? ==> (at - zero.value) % 2 == 0;
    assert over.Some? ==> (at - over.value) % 2 == 0;
  }

  /** An override sum does not read the overridden words. */
  lemma {:induction false} SumIgnores(a: seq<Byte>, b: seq<Byte>, off: nat, local: nat, length: nat, zero: Option<nat>,
                                      over: Option<nat>, v: U16)
    requires off + length <= |a| && off + length <= |b| && local % 2 == 0
    requires Aligned(zero, off, length) && Aligned(over, off, length)
    requires forall k :: off <= k < off + length ==>
               Inside(zero, k) || Inside(over, k) || a[k] == b[k]
    ensures RangeSum(a, off, local, length, zero, over, v) == RangeSum(b, off, local, length, zero, over, v)
    decreases length - local
  {
    if local < length {
      WordIgnores(a, b, off, local, length, zero, over, v);
      SumIgnores(a, b, off, local + 2, length, zero, over, v);
    }
  }

  /** Frames that agree up to the network end, except on the words a commit
      rewrites, have the same checksum sums. */
  ghost predicate SummedAlike(p: ParsedPacket, e: ProtocolExtents, a: seq<Byte>, b: seq<Byte>) {
    var o, t := e.networkOffset, e.transportOffset;
    && Nested(e, p, |a|) && o + e.networkLen <= |b| && e.networkLen <= 65535 && e.transportLen <= 65535
    && (p.networkProtocol == Ipv4 ==> 20 <= p.ipv4.headerLen && p.ipv4.headerLen % 4 == 0)
    && (p.transportProtocol == Tcp ==> 20 <= p.tcp.headerLen)
    && (forall k :: o <= k < o + e.networkLen && !Rewritten(p, e, k) ==> a[k] == b[k])
  }

  predicate Rewritten(p: ParsedPacket, e: ProtocolExtents, k: nat) {
    var o, t := e.networkOffset, e.transportOffset;
    || (p.networkProtocol == Ipv4 && (o + 2 <= k < o + 4 || o + 10 <= k < o + 12))
    || (p.networkProtocol == Ipv6 && o + 4 <= k < o + 6)
    || (HasTransport(p) && p.transportProtocol == Udp && t + 4 <= k < t + 8)
    || (HasTransport(p) && p.transportProtocol == Tcp && t + 16 <= k < t + 18)
  }

  lemma SameHeaderSum(p: ParsedPacket, e: ProtocolExtents, a: seq<Byte>, b: seq<Byte>)
    requires SummedAlike(p, e, a, b) && p.networkProtocol == Ipv4
    ensures HeaderSum(a, p, e) == HeaderSum(b, p, e)
  {
    hide RangeSum;
    var o := e.networkOffset;
    SumIgnores(a, b, o, 0, p.ipv4.headerLen, Some(o + 10), Some(o + 2), e.networkLen);
  }

  lemma SamePseudoBytes(p: ParsedPacket, e: ProtocolExtents, a: seq<Byte>, b: seq<Byte>, n: U16)
    requires SummedAlike(p, e, a, b)
    ensures PseudoSum(a, p, n) == PseudoSum(b, p, n)
  {
    hide RangeSum;
    var o := e.networkOffset;
    if p.networkProtocol == Ipv4 { RangeSumAgrees(a, b, o + 12, 0, 8); } else { RangeSumAgrees(a, b, o + 8, 0, 32); }
  }

  lemma SameTransportSum(p: ParsedPacket, e: ProtocolExtents, a: seq<Byte>, b: seq<Byte>)
    requires SummedAlike(p, e, a, b) && HasTransport(p)
    ensures TransportSum(a, p, e.transportOffset, e.transportLen)
            == TransportSum(b, p, e.transportOffset, e.transportLen)
  {
    hide RangeSum, PseudoSum;
    SamePseudoBytes(p, e, a, b, e.transportLen);
    var t := e.transportOffset;
    SumIgnores(a, b, t, 0, e.transportLen, Some(ChecksumOffset(p, t)),
               if p.transportProtocol == Udp then Some(t + 4) else None, e.transportLen);
  }

  // ---- Idempotence -----------------------------------------------------------------

  lemma SpliceSame(b: seq<Byte>, off: nat)
    requires off + 2 <= |b|
    ensures Splice(b, off, WordBytes(Word(b, off))) == b
  {
  }

  /** Storing words that are already stored changes nothing. */
  lemma {:induction false} ReapplyNothing(b: seq<Byte>, ws: seq<HeaderWrite>)
    requires Within(ws, 0, |b|)
    requires forall i :: 0 <= i < |ws| ==> Word(b, ws[i].offset) == ws[i].value
    ensures ApplyWrites(b, ws) == b
  {
    if ws != [] {
      var init, w := ws[..|ws| - 1], ws[|ws| - 1];
      hide Splice, Word, WordBytes;
      forall i | 0 <= i < |init| ensures init[i] == ws[i] {}
      ReapplyNothing(b, init);
      assert Word(b, w.offset) == w.value;
      SpliceSame(b, w.offset);
    }
  }

  /** What planning reads of the decoded packet. */
  ghost predicate PlansAlike(p: ParsedPacket, q: ParsedPacket) {
    SameLayout(p, q) && (p.networkProtocol != NoNetwork)
  }

  /** Plans over the same layout and alike sums store the same words. */
  lemma SameWrites(p: ParsedPacket, q: ParsedPacket, d: ProtocolExtents, e: ProtocolExtents, a: seq<Byte>, b: seq<Byte>,
                   mh: bool, mt: bool)
    requires PlansAlike(p, q) && SummedAlike(p, e, a, b)
    requires (mh ==> p.networkProtocol == Ipv4 && HeaderSum(a, p, e).Some?)
    requires (mt ==> HasTransport(p) && TransportSum(a, p, e.transportOffset, e.transportLen).Some?)
    ensures mh ==> HeaderSum(b, q, e) == HeaderSum(a, p, e)
    ensures mt ==> TransportSum(b, q, e.transportOffset, e.transportLen)
                   == TransportSum(a, p, e.transportOffset, e.transportLen)
    ensures (mh ==> HeaderSum(b, q, e).Some?) && (mt ==> TransportSum(b, q, e.transportOffset, e.transportLen).Some?)
    ensures NetworkWrite(q, d, e) + UdpWrite(q, d, e) + HeaderSumWrite(b, mh, q, e) + TransportSumWrite(b, mt, q, e)
            == NetworkWrite(p, d, e) + UdpWrite(p, d, e) + HeaderSumWrite(a, mh, p, e) + TransportSumWrite(a, mt, p, e)
  {
    hide Canon, WordSum, RangeSum;
    if mh { SameHeaderSum(p, e, a, b); }
    if mt { SameTransportSum(p, e, a, b); SamePseudo(p, q, b, e.transportLen); }
  }

  lemma WrittenIsAlike(p: ParsedPacket, d: ProtocolExtents, e: ProtocolExtents, a: seq<Byte>, b: seq<Byte>, mh: bool,
                       mt: bool)
    requires Written(p, d, e, a, b, mh, mt)
    ensures SummedAlike(p, e, a, b)
  {
    hide Canon, WordSum, RangeSum, HeaderSum, TransportSum;
  }

  /** The decode a second finalization starts from has the same layout. */
  lemma SecondBase(s: PacketState)
    requires Commits(s)
    ensures Good(Committed(s)) && PlansAlike(BaseParsed(s), BaseParsed(Committed(s)))
    ensures BaseLen(Committed(s)) == BaseLen(s)
  {
    hide Canon, WordSum, RangeSum, HeaderSum, TransportSum;
    CommitFacts(s);
    FinalizeExactFrame(s);
    ParseRemembers(Committed(s).frame.bytes, DEFAULT_CONFIG);
    if Unresized(s) {
      BaseIsFresh(s);
      UnresizedPlan(s);
      BaseIsFresh(Committed(s));
      var plan := PlanFor(s);
      LayoutAfter(BaseParsed(s), plan.declared, s.frame.bytes, Committed(s).frame.bytes, plan.mustHeader,
                  plan.mustTransport);
    }
  }

  /** A plan is a function of the layout, the sums and what may be written. */
  lemma PlanDetermined(s: PacketState, r: PacketState)
    requires Good(s) && Good(r) && PlanOf(s).Ok? && PlanReady(s, PlanOf(s).value)
    requires PlansAlike(BaseParsed(s), BaseParsed(r)) && BaseLen(r) == BaseLen(s)
    requires r.frame.writable == s.frame.writable && |r.frame.bytes| == |s.frame.bytes|
    requires r.journal == s.journal.(finalized := r.journal.finalized, invalid := r.journal.invalid)
    requires SummedAlike(BaseParsed(s), PlanOf(s).value.extents, s.frame.bytes, r.frame.bytes)
    ensures PlanOf(r) == PlanOf(s)
  {
    assert |s.frame.writable| == |s.frame.bytes|;
    hide Canon, WordSum, RangeSum, HeaderSum, TransportSum, Parse, DeclaredExtents, TailResizedExtents, Good,
      SummedAlike, PlanOf, FirstRefusal, NetworkWrite, UdpWrite, HeaderSumWrite, TransportSumWrite, Framed,
      BaseParsed, BaseLen;
    var p, q, plan, a, b := BaseParsed(s), BaseParsed(r), PlanOf(s).value, s.frame.bytes, r.frame.bytes;
    PlanGuards(s);
    PlanIsReady(s);
    SameRefusal(s.frame, r.frame, plan.writes);
    SameExtents(p, q, BaseLen(s));
    SameWrites(p, q, plan.declared, plan.extents, a, b, plan.mustHeader, plan.mustTransport);
    ExtentsAreNested(r, plan.declared);
    PlanSteps(r, q, plan.declared, plan.extents);
  }

  lemma {:induction false} SameRefusal(f: Frame, g: Frame, ws: seq<HeaderWrite>)
    requires |f.writable| == |f.bytes| == |g.bytes| && f.writable == g.writable
    ensures FirstRefusal(f, ws) == FirstRefusal(g, ws)
  {
    if ws != [] { SameRefusal(f, g, ws[1..]); }
  }

  lemma SecondPlan(s: PacketState)
    requires Commits(s)
    ensures Good(Committed(s)) && PlanOf(Committed(s)) == PlanOf(s)
  {
    hide Canon, WordSum, RangeSum, HeaderSum, TransportSum, Parse, PlanOf;
    SecondBase(s);
    CommitFacts(s);
    PlanIsReady(s);
    FinalizeExactFrame(s);
    var plan := PlanFor(s);
    WrittenIsAlike(BaseParsed(s), plan.declared, plan.extents, s.frame.bytes, Committed(s).frame.bytes, plan.mustHeader,
                   plan.mustTransport);
    PlanDetermined(s, Committed(s));
  }

  /** Finalizing again right away succeeds and changes nothing at all. */
  lemma FinalizeIdempotent(s: PacketState)
    requires Commits(s)
    ensures Good(Committed(s)) && FinalizeStep(Committed(s)) == (Committed(s), Ok(()))
  {
    hide Canon, WordSum, RangeSum, HeaderSum, TransportSum, Parse, PlanOf;
    SecondPlan(s);
    SecondBase(s);
    CommitFacts(s);
    var b, ws := Committed(s).frame.bytes, PlanFor(s).writes;
    ApplyMeaning(s.frame.bytes, ws);
    ReapplyNothing(b, ws);
  }

  // ---- Padding ------------------------------------------------------------------------

  /** The same words written to frames that agree up to `n` keep them agreeing. */
  lemma {:induction false} ApplyAgrees(a: seq<Byte>, b: seq<Byte>, ws: seq<HeaderWrite>, n: nat)
    requires Agree(a, b, 0, n) && Within(ws, 0, n)
    ensures Agree(ApplyWrites(a, ws), ApplyWrites(b, ws), 0, n)
  {
    if ws != [] {
      ApplyAgrees(a, b, ws[..|ws| - 1], n);
      var w := ws[|ws| - 1];
      assert w.offset + 2 <= n;
    }
  }

  lemma ExtentsIgnoreFrame(p: ParsedPacket, m: nat, n: nat)
    requires DeclaredExtents(p, m).Ok? && DeclaredExtents(p, n).Ok?
    ensures DeclaredExtents(p, m) == DeclaredExtents(p, n)
  {
  }

  lemma SamePlanWrites(s: PacketState, r: PacketState)
    requires Commits(s) && Commits(r) && Unresized(s) && r.journal == s.journal
    requires Parse(r.frame.bytes, DEFAULT_CONFIG) == Parse(s.frame.bytes, DEFAULT_CONFIG)
    requires Agree(s.frame.bytes, r.frame.bytes, 0, NetworkEnd(Parse(s.frame.bytes, DEFAULT_CONFIG)))
    ensures PlanShape(s, PlanFor(s)) && PlanFor(r).writes == PlanFor(s).writes
    ensures Within(PlanFor(s).writes, 0, NetworkEnd(Parse(s.frame.bytes, DEFAULT_CONFIG)))
  {
    hide Canon, WordSum, RangeSum, HeaderSum, TransportSum, Parse, PlanOf, DeclaredExtents, FinalizeStep,
      ReparseCheck, Committed, PlanShape, Agree, SummedAlike, Framed, Nested, BaseParsed;
    var p, a, b := Parse(s.frame.bytes, DEFAULT_CONFIG), s.frame.bytes, r.frame.bytes;
    BaseIsFresh(s);
    BaseIsFresh(r);
    CommitFacts(s);
    CommitFacts(r);
    SamePlanExtents(s, r, p);
    PlanIsReady(s);
    PlanIsReady(r);
    PlanLies(s, p);
    var plan := PlanFor(s);
    AgreeIsAlike(p, plan.extents, a, b);
    assert PlansAlike(p, p);
    SameWrites(p, p, plan.declared, plan.extents, a, b, plan.mustHeader, plan.mustTransport);
  }

  /** The plan of an unresized frame lies inside its network packet. */
  lemma PlanLies(s: PacketState, p: ParsedPacket)
    requires Commits(s) && Unresized(s) && p == BaseParsed(s) && Framed(p, |s.frame.bytes|)
    requires PlanShape(s, PlanFor(s)) && PlanFor(s).extents == PlanFor(s).declared
    requires DeclaredExtents(p, |s.frame.bytes|) == Ok(PlanFor(s).declared)
    ensures var e := PlanFor(s).extents;
            && Nested(e, p, |s.frame.bytes|) && e.networkLen <= 65535 && e.transportLen <= 65535
            && e.networkOffset + e.networkLen == NetworkEnd(p) && p.networkProtocol != NoNetwork
    ensures Within(PlanFor(s).writes, 0, NetworkEnd(p))
    ensures PlanFor(s).mustHeader ==> p.networkProtocol == Ipv4 && HeaderSum(s.frame.bytes, p, PlanFor(s).extents).Some?
    ensures PlanFor(s).mustTransport ==>
              var e := PlanFor(s).extents; TransportSum(s.frame.bytes, p, e.transportOffset, e.transportLen).Some?
  {
    DeclaredIsNested(p, |s.frame.bytes|, |s.frame.bytes|);
    hide Canon, WordSum, RangeSum, HeaderSum, TransportSum, Parse, PlanOf, DeclaredExtents, FinalizeStep, Framed,
      BaseParsed, Planned, Disjoint;
  }

  lemma AgreeIsAlike(p: ParsedPacket, e: ProtocolExtents, a: seq<Byte>, b: seq<Byte>)
    requires Nested(e, p, |a|) && Framed(p, |a|) && e.networkLen <= 65535 && e.transportLen <= 65535
    requires e.networkOffset + e.networkLen == NetworkEnd(p) && Agree(a, b, 0, NetworkEnd(p))
    ensures SummedAlike(p, e, a, b)
  {
  }

  lemma SamePlanExtents(s: PacketState, r: PacketState, p: ParsedPacket)
    requires Good(s) && Good(r) && Unresized(s) && r.journal == s.journal && PlanOf(s).Ok? && PlanOf(r).Ok?
    requires BaseParsed(s) == p && BaseParsed(r) == p
    ensures DeclaredExtents(p, |s.frame.bytes|) == Ok(PlanOf(s).value.declared)
    ensures PlanOf(r).value == PlanOf(s).value.(writes := PlanOf(r).value.writes)
    ensures PlanOf(s).value.extents == PlanOf(s).value.declared
  {
    hide Canon, WordSum, RangeSum, HeaderSum, TransportSum, Parse;
    UnresizedPlan(s);
    UnresizedPlan(r);
    ExtentsIgnoreFrame(p, |s.frame.bytes|, |r.frame.bytes|);
  }

  /** The same decode and the same write permissions up to the network end are equally finalizable. */
  lemma SameFinalizable(s: PacketState, r: PacketState)
    requires Good(s) && Good(r) && Finalizable(s) && r.journal == s.journal
    requires Parse(r.frame.bytes, DEFAULT_CONFIG) == Parse(s.frame.bytes, DEFAULT_CONFIG)
    requires var n := NetworkEnd(Parse(s.frame.bytes, DEFAULT_CONFIG));
             n <= |s.frame.bytes| && n <= |r.frame.bytes|
             && forall k :: 0 <= k < n ==> r.frame.writable[k] == s.frame.writable[k]
    ensures Finalizable(r)
  {
    ParseIsFramed(s.frame.bytes, DEFAULT_CONFIG);
    hide Parse, Coherent;
  }

  /** Padding plays no part: two frames with the same journal that agree, in
      bytes and write permissions, up to the end of a network packet whose
      decode does not peek behind it are finalized together, to the same packet,
      and each keeps its own padding. */
  lemma FinalizeIgnoresPadding(s: PacketState, r: PacketState)
    requires Commits(s) && Unresized(s) && Good(r) && r.journal == s.journal
    requires Parse(s.frame.bytes, DEFAULT_CONFIG).networkStatus == Present
             && !ReadsPadding(s.frame.bytes, DEFAULT_CONFIG)
    requires var n := NetworkEnd(Parse(s.frame.bytes, DEFAULT_CONFIG));
             && Agree(s.frame.bytes, r.frame.bytes, 0, n)
             && forall k :: 0 <= k < n ==> r.frame.writable[k] == s.frame.writable[k]
    ensures Commits(r)
    ensures var n := NetworkEnd(Parse(s.frame.bytes, DEFAULT_CONFIG));
            && Agree(Committed(s).frame.bytes, Committed(r).frame.bytes, 0, n)
            && |Committed(s).frame.bytes| == |s.frame.bytes|
            && Agree(Committed(s).frame.bytes, s.frame.bytes, n, |s.frame.bytes|)
            && |Committed(r).frame.bytes| == |r.frame.bytes|
            && Agree(Committed(r).frame.bytes, r.frame.bytes, n, |r.frame.bytes|)
  {
    PaddingReach(s.frame.bytes, r.frame.bytes, DEFAULT_CONFIG);
    UnresizedSucceeds(s);
    SameFinalizable(s, r);
    UnresizedSucceeds(r);
    hide Canon, WordSum, RangeSum, HeaderSum, TransportSum, Parse, PlanOf;
    SamePlanWrites(s, r);
    CommitFacts(s);
    CommitFacts(r);
    var n, ws := NetworkEnd(Parse(s.frame.bytes, DEFAULT_CONFIG)), PlanFor(s).writes;
    ApplyAgrees(s.frame.bytes, r.frame.bytes, ws, n);
    forall k | n <= k < |s.frame.bytes| ensures Committed(s).frame.bytes[k] == s.frame.bytes[k] {
      ApplyKeeps(s.frame.bytes, ws, k);
    }
    forall k | n <= k < |r.frame.bytes| ensures Committed(r).frame.bytes[k] == r.frame.bytes[k] {
      ApplyKeeps(r.frame.bytes, ws, k);
    }
  }
}
