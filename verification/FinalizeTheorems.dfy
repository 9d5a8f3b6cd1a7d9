/** What one finalization guarantees, from any good state. */
module FinalizeTheorems {
  import opened Prelude
  import opened Parsing
  import opened ParsingFacts
  import opened Checksum
  import opened Extents
  import opened PacketMachine
  import opened HeaderWrites

  /** The finalization does work and succeeds. */
  ghost predicate Commits(s: PacketState) {
    Good(s) && s.journal.NeedsFinalize() && FinalizeStep(s).1.Ok?
  }

  ghost function Committed(s: PacketState): PacketState
    requires Good(s)
  {
    FinalizeStep(s).0
  }

  ghost function PlanFor(s: PacketState): Plan
    requires Commits(s)
  {
    PlanOf(s).value
  }

  lemma CommitFacts(s: PacketState)
    requires Commits(s)
    ensures PlanOf(s).Ok? && PlanShape(s, PlanFor(s))
    ensures Committed(s).frame == s.frame.(bytes := ApplyWrites(s.frame.bytes, PlanFor(s).writes))
    ensures Committed(s).cache == Parse(Committed(s).frame.bytes, DEFAULT_CONFIG)
    ensures Committed(s).journal == s.journal.(finalized := true, invalid := false)
    ensures ReparseCheck(BaseParsed(s), Committed(s).cache).Ok?
  {
    PlanIsShaped(s);
  }

  // ---- Transactionality --------------------------------------------------------

  /** A refused finalization leaves bytes, layout and lengths as they were and
      the packet refused for output. */
  lemma FinalizeTransactional(s: PacketState)
    requires Good(s) && FinalizeStep(s).1.Err?
    ensures Committed(s).frame == s.frame
    ensures Committed(s).journal.editFailed && OutputCheck(Committed(s)) == Err(InvalidMutation)
    ensures FinalizeStep(s).1 != Err(InvalidJournal) ==> Committed(s).journal == Fail(s).journal
    ensures Good(Committed(s))
  {
    CachedIsFramed(s, DEFAULT_CONFIG);
    CachedKeeps(s);
  }

  lemma CachedKeeps(s: PacketState)
    requires Good(s)
    ensures Good(Cached(s, DEFAULT_CONFIG)) && Good(Fail(Cached(s, DEFAULT_CONFIG))) && Good(Fail(s))
    ensures Good(Fail(s.(cache := BLANK))) && Good(Fail(Cached(s, DEFAULT_CONFIG).(cache := BLANK)))
  {
    CachedIsFramed(s, DEFAULT_CONFIG);
    ParseRemembers(s.frame.bytes, DEFAULT_CONFIG);
  }

  // ---- What was written -----------------------------------------------------------

  ghost predicate NetworkFieldIs(b: seq<Byte>, p: ParsedPacket, o: nat, networkLen: nat) {
    if p.networkProtocol == Ipv4 then o + 4 <= |b| && Word(b, o + 2) == networkLen
    else o + 6 <= |b| && Word(b, o + 4) + 40 == networkLen
  }

  ghost predicate UdpFieldIs(b: seq<Byte>, p: ParsedPacket, t: nat, transportLen: nat) {
    p.transportProtocol == Udp ==> t + 6 <= |b| && Word(b, t + 4) == transportLen
  }

  /** The positions a commit may change. */
  predicate Window(p: ParsedPacket, d: ProtocolExtents, e: ProtocolExtents, mh: bool, mt: bool, k: nat) {
    var o, t := e.networkOffset, e.transportOffset;
    || (e.networkLen != d.networkLen && (if p.networkProtocol == Ipv4 then o + 2 <= k < o + 4 else o + 4 <= k < o + 6))
    || (e.transportLen != d.transportLen && p.transportProtocol == Udp && t + 4 <= k < t + 6)
    || (mh && o + 10 <= k < o + 12)
    || (mt && ChecksumOffset(p, t) <= k < ChecksumOffset(p, t) + 2)
  }

  /** Geometry and stored words of a commit from `a` to `b`. */
  ghost predicate WordsWritten(p: ParsedPacket, d: ProtocolExtents, e: ProtocolExtents, a: seq<Byte>, b: seq<Byte>,
                               mh: bool, mt: bool) {
    && |a| == |b| && Nested(e, p, |a|) && e.networkLen <= 65535 && e.transportLen <= 65535
    && (p.networkProtocol == Ipv4 ==> 20 <= p.ipv4.headerLen && p.ipv4.headerLen % 4 == 0)
    && (p.transportProtocol == Tcp ==> 20 <= p.tcp.headerLen) && (p.transportProtocol == Udp ==> HasTransport(p))
    && (e.networkLen != d.networkLen ==> NetworkFieldIs(b, p, e.networkOffset, e.networkLen))
    && (e.transportLen != d.transportLen ==> UdpFieldIs(b, p, e.transportOffset, e.transportLen))
    && (mh ==> p.networkProtocol == Ipv4 && HeaderSum(a, p, e).Some?
               && Word(b, e.networkOffset + 10) == 65535 - Canon(HeaderSum(a, p, e).value))
    && (mt ==> HasTransport(p) && TransportSum(a, p, e.transportOffset, e.transportLen).Some?
               && Word(b, ChecksumOffset(p, e.transportOffset))
                  == StoredChecksum(TransportSum(a, p, e.transportOffset, e.transportLen).value))
  }

  /** `b` is `a` with the length fields that changed and the due checksums written. */
  ghost predicate Written(p: ParsedPacket, d: ProtocolExtents, e: ProtocolExtents, a: seq<Byte>, b: seq<Byte>, mh: bool,
                          mt: bool) {
    && WordsWritten(p, d, e, a, b, mh, mt)
    && (forall k :: 0 <= k < |a| && !Window(p, d, e, mh, mt, k) ==> a[k] == b[k])
  }

  lemma PlannedWindow(s: PacketState, plan: Plan, k: nat)
    requires PlanShape(s, plan) && Touched(plan.writes, k)
    ensures Window(BaseParsed(s), plan.declared, plan.extents, plan.mustHeader, plan.mustTransport, k)
  {
    var i :| 0 <= i < |plan.writes| && plan.writes[i].offset <= k < plan.writes[i].offset + 2;
    assert plan.writes[i] in plan.writes;
    assert Planned(s, plan, plan.writes[i]);
  }

  lemma PlannedStored(s: PacketState, plan: Plan, w: HeaderWrite)
    requires PlanShape(s, plan) && Planned(s, plan, w)
    ensures w.offset + 2 <= |s.frame.bytes| && Word(ApplyWrites(s.frame.bytes, plan.writes), w.offset) == w.value
  {
    var i :| 0 <= i < |plan.writes| && plan.writes[i] == w;
    ApplyStores(s.frame.bytes, plan.writes, i);
  }

  lemma PlanLengthsWritten(s: PacketState, plan: Plan)
    requires PlanShape(s, plan)
    ensures var p, d, e, b := BaseParsed(s), plan.declared, plan.extents, ApplyWrites(s.frame.bytes, plan.writes);
            && (e.networkLen != d.networkLen ==> NetworkFieldIs(b, p, e.networkOffset, e.networkLen))
            && (e.transportLen != d.transportLen ==> UdpFieldIs(b, p, e.transportOffset, e.transportLen))
  {
    var p, d, e, a := BaseParsed(s), plan.declared, plan.extents, s.frame.bytes;
    if e.networkLen != d.networkLen { PlannedStored(s, plan, NetworkWrite(p, d, e)[0]); }
    if p.transportProtocol == Udp && e.transportLen != d.transportLen { PlannedStored(s, plan, UdpWrite(p, d, e)[0]); }
  }

  lemma PlanIsWritten(s: PacketState, plan: Plan)
    requires PlanShape(s, plan)
    ensures WordsWritten(BaseParsed(s), plan.declared, plan.extents, s.frame.bytes,
                         ApplyWrites(s.frame.bytes, plan.writes),
                         plan.mustHeader, plan.mustTransport)
  {
    var p, e, a := BaseParsed(s), plan.extents, s.frame.bytes;
    PlanLengthsWritten(s, plan);
    if plan.mustHeader { PlannedStored(s, plan, HeaderSumWrite(a, true, p, e)[0]); }
    if plan.mustTransport { PlannedStored(s, plan, TransportSumWrite(a, true, p, e)[0]); }
  }

  lemma PlanOnlyWritten(s: PacketState, plan: Plan, k: nat)
    requires PlanShape(s, plan) && k < |s.frame.bytes|
    requires !Window(BaseParsed(s), plan.declared, plan.extents, plan.mustHeader, plan.mustTransport, k)
    ensures ApplyWrites(s.frame.bytes, plan.writes)[k] == s.frame.bytes[k]
  {
    if Touched(plan.writes, k) { PlannedWindow(s, plan, k); }
    ApplyKeeps(s.frame.bytes, plan.writes, k);
  }

  /** A successful finalization writes exactly its plan: only the length fields
      whose length changed and the checksums due change, all inside the
      network packet; the layout and every other byte stay. */
  lemma FinalizeExactFrame(s: PacketState)
    requires Commits(s)
    ensures Committed(s).frame == s.frame.(bytes := Committed(s).frame.bytes)
    ensures PlanOf(s).Ok?
    ensures var plan := PlanFor(s);
            && Written(BaseParsed(s), plan.declared, plan.extents, s.frame.bytes, Committed(s).frame.bytes,
                       plan.mustHeader, plan.mustTransport)
            && plan.mustHeader == MustHeader(s.journal, BaseParsed(s), plan.declared, plan.extents)
            && plan.mustTransport == MustTransport(s.journal, BaseParsed(s), plan.declared, plan.extents)
  {
    CommitFacts(s);
    var plan := PlanFor(s);
    PlanIsWritten(s, plan);
    forall k | 0 <= k < |s.frame.bytes|
      && !Window(BaseParsed(s), plan.declared, plan.extents, plan.mustHeader, plan.mustTransport, k)
      ensures s.frame.bytes[k] == Committed(s).frame.bytes[k]
    {
      PlanOnlyWritten(s, plan, k);
    }
  }

  /** The places a finalization writes: the IPv4 total length and header checksum,
      the IPv6 payload length, the UDP length and checksum, the TCP checksum. */
  predicate FieldByte(p: ParsedPacket, k: nat) {
    var o, t := NetworkOffset(p), TransportOffset(p);
    || (p.networkProtocol == Ipv4 && (o + 2 <= k < o + 4 || o + 10 <= k < o + 12))
    || (p.networkProtocol == Ipv6 && o + 4 <= k < o + 6)
    || (p.transportProtocol == Udp && t + 4 <= k < t + 8)
    || (p.transportProtocol == Tcp && t + 16 <= k < t + 18)
  }

  /** A successful finalization changes no byte anywhere else. */
  lemma CommitTouches(s: PacketState)
    requires Commits(s)
    ensures |Committed(s).frame.bytes| == |s.frame.bytes|
    ensures forall k :: 0 <= k < |s.frame.bytes| && !FieldByte(BaseParsed(s), k) ==>
              Committed(s).frame.bytes[k] == s.frame.bytes[k]
  {
    FinalizeExactFrame(s);
    var plan := PlanFor(s);
    WindowIsField(BaseParsed(s), plan.declared, plan.extents, plan.mustHeader, plan.mustTransport, |s.frame.bytes|);
    hide FinalizeStep, PlanOf, Window, FieldByte, BaseParsed, Parse, Good;
  }

  lemma WindowIsField(p: ParsedPacket, d: ProtocolExtents, e: ProtocolExtents, mh: bool, mt: bool, n: nat)
    requires Nested(e, p, n) && (e.transportLen != d.transportLen || mt ==> HasTransport(p))
    requires mh ==> p.networkProtocol == Ipv4
    ensures forall k :: Window(p, d, e, mh, mt, k) ==> FieldByte(p, k)
  {
  }

  /** What a successful finalization leaves is a packet the decoder still shows:
      both lower layers, a transport if it had one, and never a UDP datagram
      over IPv6 without a checksum. */
  lemma CommitIsShown(s: PacketState)
    requires Commits(s)
    ensures var q := Parse(Committed(s).frame.bytes, DEFAULT_CONFIG);
            && Committed(s).cache == q && q.ethernetStatus == Present && q.networkStatus == Present
            && (BaseParsed(s).transportStatus == Present ==> q.transportStatus == Present)
            && !(q.networkProtocol == Ipv6 && q.transportProtocol == Udp && q.udp.checksum == 0)
  {
    CommitFacts(s);
    hide FinalizeStep, PlanOf, Good, Parse, BaseParsed, Committed;
  }

  // ---- Lengths --------------------------------------------------------------------

  /** A changed length is stored; an unchanged one is as good as the field that was there. */
  lemma LengthFields(p: ParsedPacket, d: ProtocolExtents, e: ProtocolExtents, a: seq<Byte>, b: seq<Byte>, mh: bool,
                     mt: bool)
    requires Written(p, d, e, a, b, mh, mt)
    ensures NetworkFieldIs(b, p, e.networkOffset, e.networkLen)
            <==> e.networkLen != d.networkLen || NetworkFieldIs(a, p, e.networkOffset, e.networkLen)
    ensures UdpFieldIs(b, p, e.transportOffset, e.transportLen)
            <==> e.transportLen != d.transportLen || UdpFieldIs(a, p, e.transportOffset, e.transportLen)
  {
    var o, t := e.networkOffset, e.transportOffset;
    if e.networkLen == d.networkLen {
      assert a[o + 2] == b[o + 2] && a[o + 3] == b[o + 3]
             && (p.networkProtocol == Ipv6 ==> a[o + 4] == b[o + 4] && a[o + 5] == b[o + 5]);
    }
    if p.transportProtocol == Udp && e.transportLen == d.transportLen {
      assert a[t + 4] == b[t + 4] && a[t + 5] == b[t + 5];
    }
  }

  // ---- Checksums ------------------------------------------------------------------

  /** The end-around-carry total of `base` and the words of `x` is all ones. */
  ghost predicate Closes(base: nat, x: seq<Byte>) {
    Canon(base + WordSum(x)) == 65535
  }

  /** `c` is a checksum that may be stored for `base` and the words of `x`. */
  ghost predicate Complements(c: U16, base: nat, x: seq<Byte>) {
    Stores(c, base + WordSum(x))
  }

  ghost predicate Stores(c: U16, sum: nat) {
    c == 65535 - Canon(sum) || (c == 65535 && Canon(sum) == 65535)
  }

  /** Equal as one's-complement numbers, zero and all ones being one. */
  predicate Congruent(d: int, v: int) { (d - v) % 65535 == 0 }

  /** A range verifies once its checksum word complements its sum. */
  lemma SliceCloses(x: seq<Byte>, z: nat, c: U16, base: nat)
    requires z % 2 == 0 && z + 2 <= |x| && Word(x, z) == 0 && Complements(c, base, x)
    ensures Closes(base, Splice(x, z, WordBytes(c)))
  {
    PatchSum(x, z, c);
    ComplementCloses(base + WordSum(x), c);
  }

  /** Replacing the summed word `v` of a closed range by `d` keeps it closed
      exactly when they are congruent and something is left to sum. */
  lemma SliceShifts(f: seq<Byte>, o: nat, d: U16, v: U16, base: nat)
    requires o % 2 == 0 && o + 2 <= |f| && Word(f, o) == v && Closes(base, f)
    ensures var g := Splice(f, o, WordBytes(d));
            && (d == v ==> Closes(base, g))
            && (Closes(base, g) <==> Congruent(d, v) && base + WordSum(g) > 0)
  {
    PatchSum(f, o, d);
    var t := WordSum(Splice(f, o, WordBytes(d)));
    if base + t > 0 { CanonShift(base + WordSum(f), d - v); }
  }

  /** What an override sum reads at `k`. */
  lemma EffectiveAt(b: seq<Byte>, zero: nat, over: Option<nat>, v: U16, k: nat)
    requires zero + 2 <= |b| && (over.Some? ==> over.value + 2 <= |b|) && k < |b|
    ensures Effective(b, Some(zero), over, v)[k]
            == if zero <= k < zero + 2 then 0
               else if over.Some? && over.value <= k < over.value + 2 then WordBytes(v)[k - over.value] else b[k]
  {
  }

  lemma PatchedOnce(b: seq<Byte>, r: seq<Byte>, off: nat, length: nat, zero: nat, v: U16)
    requires |b| == |r| && off + length <= |b| && Aligned(Some(zero), off, length)
    requires forall k :: off <= k < off + length && !(zero <= k < zero + 2) ==> r[k] == b[k]
    ensures var x := Effective(b, Some(zero), None, v)[off..off + length];
            Word(x, zero - off) == 0 && r[off..off + length] == Splice(x, zero - off, WordBytes(Word(r, zero)))
  {
    var x := Effective(b, Some(zero), None, v)[off..off + length];
    EffectiveAt(b, zero, None, v, zero);
    EffectiveAt(b, zero, None, v, zero + 1);
    var y := Splice(x, zero - off, WordBytes(Word(r, zero)));
    forall k | 0 <= k < length ensures r[off + k] == y[k] { EffectiveAt(b, zero, None, v, off + k); }
  }

  lemma SplicedTwice(x: seq<Byte>, y: seq<Byte>, z: nat, o: nat)
    requires |x| == |y| && z + 2 <= |x| && o + 2 <= |x| && (o + 2 <= z || z + 2 <= o)
    requires forall k :: 0 <= k < |x| && !(z <= k < z + 2) && !(o <= k < o + 2) ==> y[k] == x[k]
    ensures y == Splice(Splice(x, z, WordBytes(Word(y, z))), o, WordBytes(Word(y, o)))
  {
  }

  lemma EffectiveFacts(b: seq<Byte>, zero: nat, over: nat, v: U16)
    requires zero + 2 <= |b| && over + 2 <= |b| && (over + 2 <= zero || zero + 2 <= over)
    ensures var c := Effective(b, Some(zero), Some(over), v);
            && Word(c, zero) == 0 && Word(c, over) == v
            && (forall k :: 0 <= k < |b| && !(zero <= k < zero + 2) && !(over <= k < over + 2) ==> c[k] == b[k])
  {
    EffectiveAt(b, zero, Some(over), v, zero);
    EffectiveAt(b, zero, Some(over), v, zero + 1);
    EffectiveAt(b, zero, Some(over), v, over);
    EffectiveAt(b, zero, Some(over), v, over + 1);
  }

  lemma PatchedTwice(c: seq<Byte>, r: seq<Byte>, off: nat, length: nat, zero: nat, over: nat)
    requires |c| == |r| && off + length <= |c|
    requires off <= zero && zero + 2 <= off + length && off <= over && over + 2 <= off + length
    requires over + 2 <= zero || zero + 2 <= over
    requires forall k :: off <= k < off + length && !(zero <= k < zero + 2) && !(over <= k < over + 2) ==> r[k] == c[k]
    ensures r[off..off + length]
            == Splice(Splice(c[off..off + length], zero - off, WordBytes(Word(r, zero))), over - off,
                      WordBytes(Word(r, over)))
  {
    SplicedTwice(c[off..off + length], r[off..off + length], zero - off, over - off);
  }

  /** A range without a length word verifies once its checksum word complements its sum. */
  lemma PlainRangeCloses(b: seq<Byte>, r: seq<Byte>, off: nat, length: U16, zero: nat, base: nat, sum: nat)
    requires |b| == |r| && off + length <= |b| && Aligned(Some(zero), off, length)
    requires RangeSum(b, off, 0, length, Some(zero), None, length) == Some(sum)
    requires Stores(Word(r, zero), base + sum)
    requires forall k :: off <= k < off + length && !(zero <= k < zero + 2) ==> r[k] == b[k]
    ensures Closes(base, r[off..off + length])
  {
    RangeSumIsWordSum(b, off, length, Some(zero), None, length);
    PatchedOnce(b, r, off, length, zero, length);
    hide Closes, Stores, RangeSum, WordSum;
    SliceCloses(Effective(b, Some(zero), None, length)[off..off + length], zero - off, Word(r, zero), base);
  }

  /** A range with a length word: it verifies exactly when that word is congruent
      to the length that was summed and something is left to sum. */
  lemma RangeCloses(b: seq<Byte>, r: seq<Byte>, off: nat, length: nat, zero: nat, over: nat, v: U16, base: nat,
                    sum: nat)
    requires |b| == |r| && off + length <= |b|
    requires Aligned(Some(zero), off, length) && Aligned(Some(over), off, length)
    requires over + 2 <= zero || zero + 2 <= over
    requires RangeSum(b, off, 0, length, Some(zero), Some(over), v) == Some(sum)
    requires Stores(Word(r, zero), base + sum)
    requires forall k :: off <= k < off + length && !(zero <= k < zero + 2) && !(over <= k < over + 2) ==> r[k] == b[k]
    ensures Word(r, over) == v ==> Closes(base, r[off..off + length])
    ensures Closes(base, r[off..off + length])
            <==> Congruent(Word(r, over), v) && base + WordSum(r[off..off + length]) > 0
  {
    hide Canon, WordSum, RangeSum, Closes, Stores, Congruent;
    RangeSumIsWordSum(b, off, length, Some(zero), Some(over), v);
    EffectiveFacts(b, zero, over, v);
    hide Effective;
    RangeClosesOn(Effective(b, Some(zero), Some(over), v), r, off, length, zero, over, v, base);
  }

  lemma RangeClosesOn(c: seq<Byte>, r: seq<Byte>, off: nat, length: nat, zero: nat, over: nat, v: U16, base: nat)
    requires |c| == |r| && off + length <= |c|
    requires Aligned(Some(zero), off, length) && Aligned(Some(over), off, length)
    requires over + 2 <= zero || zero + 2 <= over
    requires Word(c, zero) == 0 && Word(c, over) == v
    requires forall k :: off <= k < off + length && !(zero <= k < zero + 2) && !(over <= k < over + 2) ==> r[k] == c[k]
    requires Complements(Word(r, zero), base, c[off..off + length])
    ensures Word(r, over) == v ==> Closes(base, r[off..off + length])
    ensures Closes(base, r[off..off + length])
            <==> Congruent(Word(r, over), v) && base + WordSum(r[off..off + length]) > 0
  {
    hide *;
    AlignedInside(zero, off, length);
    AlignedInside(over, off, length);
    var x, z, o := c[off..off + length], zero - off, over - off;
    PatchedTwice(c, r, off, length, zero, over);
    SliceWord(c, off, length, zero);
    SliceWord(c, off, length, over);
    TwoWordsClose(x, z, Word(r, zero), o, Word(r, over), v, base);
  }

  lemma AlignedInside(at: nat, off: nat, length: nat)
    requires Aligned(Some(at), off, length)
    ensures off <= at && at + 2 <= off + length && (at - off) % 2 == 0
  {
  }

  lemma SliceWord(c: seq<Byte>, off: nat, length: nat, at: nat)
    requires off <= at && at + 2 <= off + length <= |c|
    ensures Word(c[off..off + length], at - off) == Word(c, at)
  {
  }

  lemma SpliceKeepsWord(x: seq<Byte>, z: nat, c: U16, o: nat)
    requires z + 2 <= |x| && o + 2 <= |x| && (o + 2 <= z || z + 2 <= o)
    ensures Word(Splice(x, z, WordBytes(c)), o) == Word(x, o)
  {
  }

  lemma TwoWordsClose(x: seq<Byte>, z: nat, c: U16, o: nat, d: U16, v: U16, base: nat)
    requires z % 2 == 0 && o % 2 == 0 && z + 2 <= |x| && o + 2 <= |x| && (o + 2 <= z || z + 2 <= o)
    requires Word(x, z) == 0 && Word(x, o) == v && Complements(c, base, x)
    ensures var g := Splice(Splice(x, z, WordBytes(c)), o, WordBytes(d));
            && (d == v ==> Closes(base, g))
            && (Closes(base, g) <==> Congruent(d, v) && base + WordSum(g) > 0)
  {
    SpliceKeepsWord(x, z, c, o);
    hide Canon, WordSum, Splice, Word, WordBytes, Closes, Complements, Congruent;
    SliceCloses(x, z, c, base);
    SliceShifts(Splice(x, z, WordBytes(c)), o, d, v, base);
  }

  /** The IPv4 header verifies if its stored total length is right, and exactly
      when it is congruent to the right one in a header that is not all zero. */
  ghost predicate HeaderVerified(b: seq<Byte>, p: ParsedPacket, e: ProtocolExtents) {
    var o, h := e.networkOffset, p.ipv4.headerLen;
    && 20 <= h && o + h <= |b|
    && (NetworkFieldIs(b, p, o, e.networkLen) ==> HeaderSumValid(b, o, h))
    && (HeaderSumValid(b, o, h) <==> Congruent(Word(b, o + 2), e.networkLen) && WordSum(b[o..o + h]) > 0)
  }

  /** IPv4 header checksum. */
  lemma HeaderSumCloses(p: ParsedPacket, d: ProtocolExtents, e: ProtocolExtents, a: seq<Byte>, b: seq<Byte>, mt: bool)
    requires Written(p, d, e, a, b, true, mt)
    ensures HeaderVerified(b, p, e)
  {
    hide WordSum, RangeSum, TransportSum, StoredChecksum, Congruent, Canon;
    var o := e.networkOffset;
    RangeCloses(a, b, o, p.ipv4.headerLen, o + 10, o + 2, e.networkLen, 0, HeaderSum(a, p, e).value);
  }

  lemma {:induction false} RangeSumAgrees(a: seq<Byte>, b: seq<Byte>, off: nat, local: nat, length: nat)
    requires Agree(a, b, off + local, off + length)
    ensures RangeSum(a, off, local, length, None, None, 0) == RangeSum(b, off, local, length, None, None, 0)
    ensures RangeSum(a, off, local, length, None, None, 0).Some?
    decreases length - local
  {
    if local < length { RangeSumAgrees(a, b, off, local + 2, length); }
  }

  /** The words the pseudo-header sums are never written. */
  lemma PseudoKept(p: ParsedPacket, d: ProtocolExtents, e: ProtocolExtents, a: seq<Byte>, b: seq<Byte>, mh: bool,
                   mt: bool, length: U16)
    requires Written(p, d, e, a, b, mh, mt) && HasTransport(p)
    ensures PseudoSum(a, p, length) == PseudoSum(b, p, length) && PseudoSum(a, p, length).Some?
  {
    hide RangeSum, Canon, WordSum, HeaderSum, TransportSum, StoredChecksum;
    var o := e.networkOffset;
    if p.networkProtocol == Ipv4 {
      RangeSumAgrees(a, b, o + 12, 0, 8);
    } else {
      RangeSumAgrees(a, b, o + 8, 0, 32);
    }
  }

  lemma StoredCloses(sum: nat)
    ensures var c := StoredChecksum(sum);
            c != 0 && Stores(c, sum)
  {
  }

  /** What a due transport checksum was computed from. */
  lemma TransportSumParts(p: ParsedPacket, b: seq<Byte>, t: nat, n: U16) returns (base: nat, body: nat)
    requires TransportSum(b, p, t, n).Some?
    ensures PseudoSum(b, p, n) == Some(base) && base > 0 && TransportSum(b, p, t, n) == Some(base + body)
    ensures RangeSum(b, t, 0, n, Some(ChecksumOffset(p, t)),
                     if p.transportProtocol == Udp then Some(t + 4) else None, n) == Some(body)
  {
    base := PseudoSum(b, p, n).value;
    body := RangeSum(b, t, 0, n, Some(ChecksumOffset(p, t)),
                     if p.transportProtocol == Udp then Some(t + 4) else None, n).value;
  }

  /** The transport checksum word, when due, complements pseudo-header plus segment. */
  lemma TransportWordStored(p: ParsedPacket, d: ProtocolExtents, e: ProtocolExtents, a: seq<Byte>, b: seq<Byte>,
                            mh: bool)
    returns (base: nat, body: nat)
    requires Written(p, d, e, a, b, mh, true)
    ensures var t, n, zero := e.transportOffset, e.transportLen, ChecksumOffset(p, e.transportOffset);
            && PseudoSum(b, p, n) == Some(base) && base > 0
            && RangeSum(a, t, 0, n, Some(zero), if p.transportProtocol == Udp then Some(t + 4) else None, n)
               == Some(body)
            && Word(b, zero) != 0 && Stores(Word(b, zero), base + body)
  {
    hide Canon, WordSum, RangeSum, PseudoSum, TransportSum, HeaderSum, StoredChecksum, Window, UdpFieldIs,
      NetworkFieldIs, Stores;
    base, body := TransportSumParts(p, a, e.transportOffset, e.transportLen);
    PseudoKept(p, d, e, a, b, mh, true, e.transportLen);
    StoredCloses(base + body);
  }

  /** The stored transport checksum is nonzero; for UDP it verifies exactly when
      the stored length is congruent to the summed one. */
  ghost predicate TransportVerified(b: seq<Byte>, p: ParsedPacket, e: ProtocolExtents) {
    var t, n := e.transportOffset, e.transportLen;
    && n <= 65535 && ChecksumOffset(p, t) + 2 <= |b| && t + n <= |b|
    && Word(b, ChecksumOffset(p, t)) != 0
    && PseudoSum(b, p, n).Some?
    && (UdpFieldIs(b, p, t, n) ==> Closes(PseudoSum(b, p, n).value, b[t..t + n]))
    && (p.transportProtocol == Udp ==>
          (Closes(PseudoSum(b, p, n).value, b[t..t + n]) <==> Congruent(Word(b, t + 4), n)))
  }

  lemma VerifiedFrom(p: ParsedPacket, e: ProtocolExtents, b: seq<Byte>, base: nat)
    requires e.transportLen <= 65535 && e.transportOffset + e.transportLen <= |b| && HasTransport(p)
    requires ChecksumOffset(p, e.transportOffset) + 2 <= |b| && Word(b, ChecksumOffset(p, e.transportOffset)) != 0
    requires PseudoSum(b, p, e.transportLen) == Some(base)
    requires var t, n := e.transportOffset, e.transportLen;
             (p.transportProtocol == Tcp && Closes(base, b[t..t + n]))
             || (p.transportProtocol == Udp && 8 <= n && (Closes(base, b[t..t + n]) <==> Congruent(Word(b, t + 4), n)))
    ensures TransportVerified(b, p, e)
  {
    hide Closes, PseudoSum, RangeSum, WordSum;
  }

  lemma UdpSumCloses(p: ParsedPacket, d: ProtocolExtents, e: ProtocolExtents, a: seq<Byte>, b: seq<Byte>, mh: bool,
                     base: nat, body: nat)
    requires Written(p, d, e, a, b, mh, true) && p.transportProtocol == Udp && base > 0
    requires RangeSum(a, e.transportOffset, 0, e.transportLen, Some(e.transportOffset + 6), Some(e.transportOffset + 4),
                      e.transportLen) == Some(body)
    requires Stores(Word(b, e.transportOffset + 6), base + body)
    ensures var t, n := e.transportOffset, e.transportLen;
            Closes(base, b[t..t + n]) <==> Congruent(Word(b, t + 4), n)
  {
    hide Canon, WordSum, RangeSum, Word, Closes, Stores, Congruent;
    var t, n := e.transportOffset, e.transportLen;
    SegmentKept(p, d, e, a, b, mh);
    RangeCloses(a, b, t, n, t + 6, t + 4, n, base, body);
  }

  lemma TcpSumCloses(p: ParsedPacket, d: ProtocolExtents, e: ProtocolExtents, a: seq<Byte>, b: seq<Byte>, mh: bool,
                     base: nat, body: nat)
    requires Written(p, d, e, a, b, mh, true) && p.transportProtocol == Tcp
    requires RangeSum(a, e.transportOffset, 0, e.transportLen, Some(e.transportOffset + 16), None, e.transportLen)
             == Some(body)
    requires Stores(Word(b, e.transportOffset + 16), base + body)
    ensures var t, n := e.transportOffset, e.transportLen;
            Closes(base, b[t..t + n])
  {
    hide Canon, WordSum, RangeSum, Word, Closes, Stores;
    var t, n := e.transportOffset, e.transportLen;
    SegmentKept(p, d, e, a, b, mh);
    PlainRangeCloses(a, b, t, n, t + 16, base, body);
  }

  lemma TransportSumCloses(p: ParsedPacket, d: ProtocolExtents, e: ProtocolExtents, a: seq<Byte>, b: seq<Byte>,
                           mh: bool)
    requires Written(p, d, e, a, b, mh, true)
    ensures TransportVerified(b, p, e)
  {
    hide Canon, WordSum, RangeSum, Word, Closes, Stores, Congruent, TransportVerified;
    var base, body := TransportWordStored(p, d, e, a, b, mh);
    if p.transportProtocol == Udp {
      UdpSumCloses(p, d, e, a, b, mh, base, body);
    } else {
      TcpSumCloses(p, d, e, a, b, mh, base, body);
    }
    VerifiedFrom(p, e, b, base);
  }

  /** Inside the transport packet only its checksum and UDP length words change. */
  lemma SegmentKept(p: ParsedPacket, d: ProtocolExtents, e: ProtocolExtents, a: seq<Byte>, b: seq<Byte>, mh: bool)
    requires Written(p, d, e, a, b, mh, true)
    ensures var t, zero := e.transportOffset, ChecksumOffset(p, e.transportOffset);
            forall k :: t <= k < t + e.transportLen ==>
              zero <= k < zero + 2 || (p.transportProtocol == Udp && t + 4 <= k < t + 6) || b[k] == a[k]
  {
  }

  // ---- The finalization theorem -----------------------------------------------------

  /** The committed length fields are the computed extents. */
  ghost predicate LengthsRight(b: seq<Byte>, p: ParsedPacket, e: ProtocolExtents) {
    NetworkFieldIs(b, p, e.networkOffset, e.networkLen) && UdpFieldIs(b, p, e.transportOffset, e.transportLen)
  }

  /** Checkable before the call: each length field is about to be rewritten or
      already holds the value the finalization computes with. */
  ghost predicate FieldsCurrent(a: seq<Byte>, p: ParsedPacket, d: ProtocolExtents, e: ProtocolExtents) {
    && (e.networkLen != d.networkLen || NetworkFieldIs(a, p, e.networkOffset, e.networkLen))
    && (e.transportLen != d.transportLen || UdpFieldIs(a, p, e.transportOffset, e.transportLen))
  }

  /** From any good state, after any history, a successful finalization leaves
      the length fields equal to the computed extents exactly when they were current. */
  lemma FinalizeLengths(s: PacketState)
    requires Commits(s)
    ensures PlanOf(s).Ok?
    ensures var p, plan := BaseParsed(s), PlanFor(s);
            LengthsRight(Committed(s).frame.bytes, p, plan.extents)
            <==> FieldsCurrent(s.frame.bytes, p, plan.declared, plan.extents)
  {
    FinalizeExactFrame(s);
    hide Canon, WordSum, RangeSum, HeaderSum, TransportSum, Parse, PlanOf, Good, FinalizeStep, Committed, BaseParsed,
      Written;
    var p, plan := BaseParsed(s), PlanFor(s);
    LengthFields(p, plan.declared, plan.extents, s.frame.bytes, Committed(s).frame.bytes, plan.mustHeader,
                 plan.mustTransport);
  }

  /** The IPv4 header checksum, when due, verifies if the stored total length
      is right, and exactly when it is right modulo 65535 in a header that is
      not all zero. */
  lemma FinalizeHeaderSum(s: PacketState)
    requires Commits(s) && MustHeader(s.journal, BaseParsed(s), PlanFor(s).declared, PlanFor(s).extents)
    ensures HeaderVerified(Committed(s).frame.bytes, BaseParsed(s), PlanFor(s).extents)
  {
    FinalizeExactFrame(s);
    hide Canon, WordSum, RangeSum, HeaderSum, TransportSum, Parse, PlanOf, Good, FinalizeStep, Committed, BaseParsed,
      Written, HeaderVerified;
    var p, plan := BaseParsed(s), PlanFor(s);
    HeaderSumCloses(p, plan.declared, plan.extents, s.frame.bytes, Committed(s).frame.bytes, plan.mustTransport);
  }

  /** The TCP or UDP checksum, when due, is stored nonzero and verifies over
      pseudo-header and segment (odd lengths included); for UDP exactly when its
      stored length is right modulo 65535. */
  lemma FinalizeTransportSum(s: PacketState)
    requires Commits(s) && MustTransport(s.journal, BaseParsed(s), PlanFor(s).declared, PlanFor(s).extents)
    ensures TransportVerified(Committed(s).frame.bytes, BaseParsed(s), PlanFor(s).extents)
  {
    FinalizeExactFrame(s);
    hide Canon, WordSum, RangeSum, HeaderSum, TransportSum, Parse, PlanOf, Good, FinalizeStep, Committed, BaseParsed,
      Written, TransportVerified;
    var p, plan := BaseParsed(s), PlanFor(s);
    TransportSumCloses(p, plan.declared, plan.extents, s.frame.bytes, Committed(s).frame.bytes, plan.mustHeader);
  }
}
