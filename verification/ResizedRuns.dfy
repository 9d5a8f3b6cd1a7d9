/** Whole runs with setters, tail resizes and finalizations: every finalization
    is sound, and a packet that came in valid goes out valid. */
module ResizedRuns {
  import opened Prelude
  import opened Parsing
  import opened ParsingFacts
  import opened ParsingTheorems
  import opened Checksum
  import opened Extents
  import opened PacketMachine
  import opened FinalizeTheorems
  import opened UnresizedTheorems
  import opened PacketRuns
  import opened StructuredRuns
  import opened ResizedDecodes
  import opened ResizedTheorems
  import opened ConservedSums
  import opened Receiver

  // ---- Structured runs ------------------------------------------------------------------

  /** An operation may do anything before the first tail resize. Once a snapshot
      is held, an accepted one is no raw write and no head resize, it does not
      cut into the snapshotted headers, and it does not resize a packet that has
      been finalized since the snapshot. */
  ghost predicate Allowed(s: PacketState, op: Op, settled: bool)
    requires Good(s)
  {
    var r := Step(s, op);
    r.1.Ok? ==>
      && (s.journal.hasPre ==> !op.DoRaw? && (op.DoResize? ==> op.resize.Tail() && !settled))
      && (op.DoResize? && r.0.journal.hasPre && HasTransport(r.0.journal.preParsed) ==>
            HeaderEnd(r.0.journal.preParsed) <= |r.0.frame.bytes|)
  }

  /** Some finalization has succeeded since the snapshot was taken. */
  ghost predicate Settled(s: PacketState, ops: seq<Op>)
    requires Good(s)
  {
    ops != [] &&
    var init, last := ops[..|ops| - 1], ops[|ops| - 1];
    Settled(s, init) || (last.DoFinalize? && Run(s, init).journal.hasPre && Step(Run(s, init), last).1.Ok?)
  }

  ghost predicate Structured(s: PacketState, ops: seq<Op>)
    requires Good(s)
  {
    ops == [] ||
    var init, last := ops[..|ops| - 1], ops[|ops| - 1];
    Structured(s, init) && Allowed(Run(s, init), last, Settled(s, init))
  }

  // ---- What a structured run keeps --------------------------------------------------------

  /** After a finalization: the frame decodes to the snapshot's headers and its
      length fields are the extents of the present resize. */
  ghost predicate Matches(s: PacketState) {
    var p, j := s.journal.preParsed, s.journal;
    && HasTransport(p) && SameHeaders(p, Parse(s.frame.bytes, DEFAULT_CONFIG))
    && DeclaredExtents(p, j.preLen).Ok? && CurrentExtents(s, DeclaredExtents(p, j.preLen).value).Ok?
    && LengthsRight(s.frame.bytes, p, CurrentExtents(s, DeclaredExtents(p, j.preLen).value).value)
  }

  /** Before it the snapshotted headers stand with their lengths. */
  ghost predicate Phase(origin: seq<Byte>, s: PacketState, settled: bool) {
    if !s.journal.hasPre then !settled
    else
      && s.journal.dirty.Any() && s.journal.preLen <= USIZE_MAX
      && (HasTransport(s.journal.preParsed) ==>
            if settled then s.journal.tailDelta != 0 ==> Matches(s) else Intact(origin, s))
  }

  lemma IntactStands(origin: seq<Byte>, s: PacketState)
    requires Good(s) && Intact(origin, s)
    ensures Stands(origin, s)
  {
    hide Parse;
    FramedTcp(s.journal.preParsed, |origin|);
  }

  lemma MatchesStands(s: PacketState)
    requires Good(s) && s.journal.hasPre && Matches(s)
    ensures Stands(s.frame.bytes, s)
  {
    ParseIsFramed(s.frame.bytes, DEFAULT_CONFIG);
    FramedTcp(Parse(s.frame.bytes, DEFAULT_CONFIG), |s.frame.bytes|);
    hide Parse;
  }

  lemma MatchesCurrent(s: PacketState)
    requires Good(s) && Matches(s) && s.journal.tailDelta != 0 && PlanOf(s).Ok?
    ensures FieldsCurrent(s.frame.bytes, s.journal.preParsed, PlanOf(s).value.declared, PlanOf(s).value.extents)
  {
    hide Parse, RangeSum, WordSum, Canon, HeaderSum, TransportSum, FirstRefusal, DeclaredExtents, TailResizedExtents;
  }

  /** What a plan over a snapshot works from: standing headers and current fields. */
  lemma PlanBase(origin: seq<Byte>, s: PacketState, settled: bool) returns (base: seq<Byte>)
    requires Good(s) && PlanOf(s).Ok? && Phase(origin, s, settled) && s.journal.tailDelta != 0
    ensures HasTransport(s.journal.preParsed) && Stands(base, s)
    ensures FieldsCurrent(s.frame.bytes, s.journal.preParsed, PlanOf(s).value.declared, PlanOf(s).value.extents)
  {
    NeedsTransport(s);
    hide Parse, PlanOf, FinalizeStep, Stands, FieldsCurrent, Matches, Intact;
    if settled {
      base := s.frame.bytes;
      MatchesStands(s);
      MatchesCurrent(s);
    } else {
      base := origin;
      IntactStands(origin, s);
      IntactIsCurrent(origin, s);
    }
  }

  /** A commit leaves matching lengths. */
  lemma CommitMatches(origin: seq<Byte>, s: PacketState, settled: bool)
    requires Commits(s) && Phase(origin, s, settled) && s.journal.tailDelta != 0
    ensures Matches(Committed(s))
  {
    CommitFacts(s);
    var base := PlanBase(origin, s, settled);
    PlanDecodes(base, s, PlanFor(s));
    PlanDeclared(s);
    PlanExtents(s);
    hide Parse, PlanOf, FinalizeStep, DeclaredExtents, TailResizedExtents, Stands, SameHeaders, LengthsRight,
      FieldsCurrent;
  }

  lemma PlanExtents(s: PacketState)
    requires Good(s) && PlanOf(s).Ok?
    ensures CurrentExtents(s, PlanOf(s).value.declared) == Ok(PlanOf(s).value.extents)
  {
    hide Parse, RangeSum, WordSum, Canon, HeaderSum, TransportSum, FirstRefusal, DeclaredExtents, TailResizedExtents;
  }

  /** A setter on a settled packet keeps its lengths and headers. */
  lemma EditKeepsMatches(s: PacketState, e: FieldEdit, inject: bool)
    requires Good(s) && Matches(s)
    ensures Matches(EditStep(s, e, inject).0)
  {
    EditWrites(s, e, inject);
    hide EditStep, TargetOf, Expected, Framed, SameHeaders, LengthsRight, DeclaredExtents, TailResizedExtents, Placed,
      SameShape, Good;
    var b, q, r := s.frame.bytes, Parse(s.frame.bytes, DEFAULT_CONFIG), EditStep(s, e, inject).0;
    hide Parse;
    if r.frame.bytes != b {
      SetterShape(b, e);
      ShapeMatches(s.journal.preParsed, b, r.frame.bytes);
    }
    MatchesMoves(s, r);
  }

  /** An edit writes its target or nothing, and keeps what a snapshot holds. */
  lemma EditWrites(s: PacketState, e: FieldEdit, inject: bool)
    requires Good(s)
    ensures var q, r := Parse(s.frame.bytes, DEFAULT_CONFIG), EditStep(s, e, inject).0;
            && Framed(q, |s.frame.bytes|) && SameResize(s.journal, r.journal)
            && (r.frame.bytes == s.frame.bytes
                || (Expected(q, e).Ok?
                    && var t := TargetOf(s.frame.bytes, q, e);
                       t.offset + |t.data| <= |s.frame.bytes|
                         && r.frame.bytes == Splice(s.frame.bytes, t.offset, t.data)))
  {
    CachedIsFramed(s, DEFAULT_CONFIG);
    var c := Cached(s, DEFAULT_CONFIG);
    if Expected(c.cache, e).Ok? {
      var t := TargetOf(c.frame.bytes, c.cache, e);
      WriteWrites(c, inject, t);
    }
    hide Parse, TargetOf, Framed, Expected, CheckedWrite, Good;
  }

  lemma WriteWrites(s: PacketState, inject: bool, t: Target)
    requires |s.frame.writable| == |s.frame.bytes|
    ensures var r := CheckedWrite(s, inject, t.offset, t.data, t.dirty, t.sums).0;
            && SameResize(s.journal, r.journal)
            && (r.frame.bytes == s.frame.bytes
                || (t.offset + |t.data| <= |s.frame.bytes| && r.frame.bytes == Splice(s.frame.bytes, t.offset, t.data)))
  {
    hide AllWritable, Splice;
  }

  /** The snapshot, its length and the tail delta agree. */
  ghost predicate SameResize(j: Journal, k: Journal) {
    k.hasPre == j.hasPre && k.preParsed == j.preParsed && k.preLen == j.preLen && k.tailDelta == j.tailDelta
  }

  lemma MatchesMoves(s: PacketState, r: PacketState)
    requires Matches(s) && SameResize(s.journal, r.journal) && |r.frame.bytes| == |s.frame.bytes|
    requires var p, b, c := s.journal.preParsed, s.frame.bytes, r.frame.bytes;
             && SameHeaders(p, Parse(c, DEFAULT_CONFIG))
             && forall x :: LengthsRight(b, p, x) && Placed(p, x) ==> LengthsRight(c, p, x)
    ensures Matches(r)
  {
    ExtentsPlaced(s.journal.preParsed, s.journal.preLen, |s.frame.bytes|, s.journal.tailDelta);
    hide Parse, SameHeaders, LengthsRight, DeclaredExtents, TailResizedExtents, Placed;
  }

  lemma ExtentsPlaced(p: ParsedPacket, baseLen: nat, frameLen: nat, tailDelta: int)
    requires HasTransport(p) && DeclaredExtents(p, baseLen).Ok?
    ensures var d := DeclaredExtents(p, baseLen).value;
            var r := TailResizedExtents(d, baseLen, frameLen, tailDelta, p.transportProtocol);
            Placed(p, d) && (r.Ok? ==> Placed(p, r.value))
  {
  }

  /** Extents at the places of the headers of `p`. */
  predicate Placed(p: ParsedPacket, e: ProtocolExtents) {
    e.networkOffset == NetworkOffset(p) && e.transportOffset == TransportOffset(p)
  }

  /** Frames of one shape store the same lengths. */
  lemma ShapeMatches(p: ParsedPacket, b: seq<Byte>, c: seq<Byte>)
    requires HasTransport(p) && SameHeaders(p, Parse(b, DEFAULT_CONFIG))
    requires SameShape(Parse(b, DEFAULT_CONFIG), Parse(c, DEFAULT_CONFIG))
    ensures SameHeaders(p, Parse(c, DEFAULT_CONFIG))
    ensures forall x :: LengthsRight(b, p, x) && Placed(p, x) ==> LengthsRight(c, p, x)
  {
    hide Parse, Framed;
    ParsedLengths(b, DEFAULT_CONFIG);
    ParsedLengths(c, DEFAULT_CONFIG);
    InFrame(b);
    InFrame(c);
    ShapeLengths(p, b, c, Parse(b, DEFAULT_CONFIG), Parse(c, DEFAULT_CONFIG));
  }

  /** The stored length words of a decoded TCP or UDP packet lie in its frame. */
  lemma InFrame(c: seq<Byte>)
    requires HasTransport(Parse(c, DEFAULT_CONFIG))
    ensures var r := Parse(c, DEFAULT_CONFIG);
            && r.networkStatus == Present && r.networkProtocol != NoNetwork && NetworkOffset(r) + 6 <= |c|
            && (r.transportProtocol == Udp ==> TransportOffset(r) + 6 <= |c|)
  {
    ParseIsFramed(c, DEFAULT_CONFIG);
    hide Parse;
  }

  lemma ShapeLengths(p: ParsedPacket, b: seq<Byte>, c: seq<Byte>, q: ParsedPacket, r: ParsedPacket)
    requires HasTransport(p) && SameHeaders(p, q) && SameShape(q, r) && q.networkProtocol != NoNetwork
    requires NetworkOffset(r) + 6 <= |c| && (r.transportProtocol == Udp ==> TransportOffset(r) + 6 <= |c|)
    requires NetworkOffset(q) + 6 <= |b| && (q.transportProtocol == Udp ==> TransportOffset(q) + 6 <= |b|)
    requires q.networkProtocol == Ipv4 ==> q.ipv4.totalLen == Word(b, NetworkOffset(q) + 2)
    requires q.networkProtocol == Ipv6 ==> q.ipv6.payloadLen == Word(b, NetworkOffset(q) + 4)
    requires q.transportProtocol == Udp ==> q.udp.length == Word(b, TransportOffset(q) + 4)
    requires r.networkProtocol == Ipv4 ==> r.ipv4.totalLen == Word(c, NetworkOffset(r) + 2)
    requires r.networkProtocol == Ipv6 ==> r.ipv6.payloadLen == Word(c, NetworkOffset(r) + 4)
    requires r.transportProtocol == Udp ==> r.udp.length == Word(c, TransportOffset(r) + 4)
    ensures SameHeaders(p, r)
    ensures forall x :: LengthsRight(b, p, x) && Placed(p, x) ==> LengthsRight(c, p, x)
  {
    hide Word;
  }

  // ---- One step ------------------------------------------------------------------------------

  /** A refused operation changes neither the frame nor what the journal holds of resizes. */
  lemma RefusedKeeps(s: PacketState, op: Op)
    requires Good(s) && Step(s, op).1.Err?
    ensures var r := Step(s, op).0;
            && r.frame == s.frame && SameResize(s.journal, r.journal)
            && r.journal.dirty == s.journal.dirty && r.journal.sums == s.journal.sums
            && r.journal.signedDelta == s.journal.signedDelta && (r.journal.finalized ==> s.journal.finalized)
  {
    if Mutates(op) { RefusedEditKeepsBytes(s, op); }
    if op.DoFinalize? { FinalizeTransactional(s); FinalizeRefusal(s); }
    hide EditStep, ResizeStep, RawStep, FinalizeStep, Good, Parse;
  }

  lemma FinalizeRefusal(s: PacketState)
    requires Good(s) && FinalizeStep(s).1.Err?
    ensures FinalizeStep(s).0.journal == s.journal || FinalizeStep(s).0.journal == Fail(s).journal
  {
    hide Parse, PlanOf, ApplyWrites, ReparseCheck, Good;
  }

  /** The same frame, snapshot and dirt keep the phase. */
  lemma PhaseMoves(origin: seq<Byte>, s: PacketState, r: PacketState, settled: bool)
    requires Phase(origin, s, settled) && r.frame == s.frame && SameResize(s.journal, r.journal)
             && r.journal.dirty == s.journal.dirty
    ensures Phase(origin, r, settled)
  {
    hide Parse, Framed, SameHeaders, LengthsRight, DeclaredExtents, TailResizedExtents, StructuralBytes;
  }

  /** The first accepted tail resize starts the phase of standing headers. */
  lemma SnapshotPhase(s: PacketState, op: ResizeOp, inject: bool)
    requires Good(s) && !s.journal.hasPre && ResizeStep(s, op, inject).1.Ok?
             && ResizeStep(s, op, inject).0.journal.hasPre
    requires var r := ResizeStep(s, op, inject).0;
             HasTransport(r.journal.preParsed) ==> HeaderEnd(r.journal.preParsed) <= |r.frame.bytes|
    ensures Phase(s.frame.bytes, ResizeStep(s, op, inject).0, false)
  {
    SnapshotIsIntact(s, op, inject);
    ResizeMarks(s, op, inject);
    hide ResizeStep, Parse, Intact, Good;
  }

  lemma ResizeMarks(s: PacketState, op: ResizeOp, inject: bool)
    requires Good(s) && ResizeStep(s, op, inject).1.Ok?
    ensures var j, k := s.journal, ResizeStep(s, op, inject).0.journal;
            && k.dirty.Any() && !k.finalized && k.sums.ipv4Header && k.sums.transport
            && (if j.hasPre then k.hasPre && k.preLen == j.preLen else k.hasPre ==> k.preLen <= USIZE_MAX)
            && (op.Tail() ==> k.hasPre && k.signedDelta - k.tailDelta == j.signedDelta - j.tailDelta)
  {
    hide Parse, ResizedFrame, Framed;
  }

  /** An accepted edit of a packet with a snapshot. */
  lemma EditPhase(origin: seq<Byte>, s: PacketState, e: FieldEdit, inject: bool, settled: bool)
    requires Good(s) && s.journal.hasPre && Phase(origin, s, settled) && EditStep(s, e, inject).1.Ok?
    ensures Phase(origin, EditStep(s, e, inject).0, settled)
  {
    EditWrites(s, e, inject);
    EditDirt(s, e, inject);
    hide EditStep, Good, Parse, TargetOf, Framed, Expected, Matches, Intact;
    if HasTransport(s.journal.preParsed) {
      if settled {
        if s.journal.tailDelta != 0 { EditKeepsMatches(s, e, inject); }
      } else {
        EditKeepsIntact(origin, s, e, inject);
      }
    }
  }

  lemma EditDirt(s: PacketState, e: FieldEdit, inject: bool)
    requires Good(s)
    ensures var j, k := s.journal, EditStep(s, e, inject).0.journal;
            && (j.dirty.Any() ==> k.dirty.Any()) && (j.sums.ipv4Header ==> k.sums.ipv4Header)
               && (j.sums.transport ==> k.sums.transport)
            && k.signedDelta == j.signedDelta && !k.finalized
  {
    CachedIsFramed(s, DEFAULT_CONFIG);
    hide Parse, TargetOf, Framed, Expected, WriteCheck, Good;
  }

  /** An accepted tail resize of a packet not yet settled. */
  lemma TailPhase(origin: seq<Byte>, s: PacketState, op: ResizeOp, inject: bool)
    requires Good(s) && s.journal.hasPre && Phase(origin, s, false) && op.Tail() && ResizeStep(s, op, inject).1.Ok?
    requires HasTransport(s.journal.preParsed)
             ==> HeaderEnd(s.journal.preParsed) <= |ResizeStep(s, op, inject).0.frame.bytes|
    ensures Phase(origin, ResizeStep(s, op, inject).0, false)
  {
    ResizeMarks(s, op, inject);
    ResizeKeepsSnapshot(s, op, inject);
    hide ResizeStep, Good, Parse, Intact;
    if HasTransport(s.journal.preParsed) { TailKeepsIntact(origin, s, op, inject); }
  }

  /** A successful finalization settles the packet. */
  lemma FinalizePhase(origin: seq<Byte>, s: PacketState, settled: bool)
    requires Good(s) && s.journal.hasPre && Phase(origin, s, settled) && FinalizeStep(s).1.Ok?
    ensures Commits(s) && Phase(origin, FinalizeStep(s).0, true)
  {
    assert Commits(s) by { hide Parse, FinalizeStep, Good, Matches, Intact; }
    CommitFacts(s);
    hide Parse, FinalizeStep, Good, Matches, Intact, PlanOf;
    if s.journal.tailDelta != 0 { CommitMatches(origin, s, settled); }
  }

  lemma StepPhase(origin: seq<Byte>, s: PacketState, op: Op, settled: bool) returns (origin': seq<Byte>)
    requires Good(s) && Phase(origin, s, settled) && Allowed(s, op, settled)
    ensures Phase(origin', Step(s, op).0, settled || (op.DoFinalize? && s.journal.hasPre && Step(s, op).1.Ok?))
  {
    origin' := origin;
    hide EditStep, ResizeStep, RawStep, FinalizeStep, Good, Parse, Phase, Cached;
    if Step(s, op).1.Err? {
      RefusedKeeps(s, op);
      PhaseMoves(origin, s, Step(s, op).0, settled);
    } else if !s.journal.hasPre {
      origin' := s.frame.bytes;
      UnsettledFirst(origin, s, settled);
      FirstPhase(s, op);
    } else {
      LaterPhase(origin, s, op, settled);
    }
  }

  lemma UnsettledFirst(origin: seq<Byte>, s: PacketState, settled: bool)
    requires !s.journal.hasPre && Phase(origin, s, settled)
    ensures !settled
  {
  }

  lemma FirstPhase(s: PacketState, op: Op)
    requires Good(s) && !s.journal.hasPre && Allowed(s, op, false) && Step(s, op).1.Ok?
    ensures Phase(s.frame.bytes, Step(s, op).0, false)
  {
    hide EditStep, ResizeStep, RawStep, FinalizeStep, Good, Parse, Matches, Intact;
    if op.DoResize? {
      if Step(s, op).0.journal.hasPre { SnapshotPhase(s, op.resize, op.inject); }
    } else {
      NoSnapshotElsewhere(s, op);
    }
  }

  lemma LaterPhase(origin: seq<Byte>, s: PacketState, op: Op, settled: bool)
    requires Good(s) && s.journal.hasPre && Phase(origin, s, settled) && Allowed(s, op, settled) && Step(s, op).1.Ok?
    ensures Phase(origin, Step(s, op).0, settled || op.DoFinalize?)
  {
    hide EditStep, ResizeStep, RawStep, FinalizeStep, Good, Parse, Phase, SameSnapshot;
    match op
    case DoParse(cfg) => PhaseMoves(origin, s, Step(s, op).0, settled);
    case DoEdit(e, inject) => EditPhase(origin, s, e, inject, settled);
    case DoResize(r, inject) =>
      ResizeHolds(s, r, inject);
      TailPhase(origin, s, r, inject);
    case DoFinalize => FinalizePhase(origin, s, settled);
    case DoRaw(_, _, _, _, _, _) =>
  }

  lemma ResizeHolds(s: PacketState, op: ResizeOp, inject: bool)
    requires s.journal.hasPre
    ensures var k := ResizeStep(s, op, inject).0.journal; k.hasPre && k.preParsed == s.journal.preParsed
  {
    ResizeKeepsSnapshot(s, op, inject);
  }

  /** Over a structured run. */
  lemma {:induction false} RunPhase(s: PacketState, ops: seq<Op>) returns (origin: seq<Byte>)
    requires Good(s) && !s.journal.hasPre && Structured(s, ops)
    ensures Phase(origin, Run(s, ops), Settled(s, ops))
    decreases |ops|
  {
    origin := [];
    if ops != [] {
      var init, last := ops[..|ops| - 1], ops[|ops| - 1];
      origin := RunPhase(s, init);
      hide Phase, Step, Good, Allowed;
      origin := StepPhase(origin, Run(s, init), last, Settled(s, init));
    }
  }

  // ---- Every finalization is sound -----------------------------------------------------------

  /** Decode the committed frame afresh: it holds the protocols the finalization
      worked on, its declared extents are the computed ones, its length fields
      hold them, and every checksum that was due verifies. */
  ghost predicate FreshlySound(s: PacketState)
    requires Commits(s)
  {
    var q, b, plan := Parse(Committed(s).frame.bytes, DEFAULT_CONFIG), Committed(s).frame.bytes, PlanFor(s);
    var e := plan.extents;
    && Committed(s).cache == q && SameProtocols(BaseParsed(s), q)
    && DeclaredExtents(q, |b|) == Ok(e) && LengthsRight(b, q, e)
    && (plan.mustHeader ==> HeaderSumValid(b, e.networkOffset, q.ipv4.headerLen))
    && (plan.mustTransport ==> TransportSound(b, q, e))
  }

  predicate SameProtocols(p: ParsedPacket, q: ParsedPacket) {
    q.networkStatus == Present && q.networkProtocol == p.networkProtocol && (HasTransport(q) <==> HasTransport(p))
  }

  /** Soundness carries over to a decode with the same headers. */
  lemma SoundMoves(b: seq<Byte>, p: ParsedPacket, q: ParsedPacket, e: ProtocolExtents)
    requires SameHeaders(p, q) && HasTransport(p) && p.networkProtocol != NoNetwork
    ensures SameProtocols(p, q) && (LengthsRight(b, p, e) ==> LengthsRight(b, q, e))
    ensures TransportSound(b, p, e) ==> TransportSound(b, q, e)
  {
    hide RangeSum, WordSum, Canon;
  }

  lemma CommitFreshlySound(origin: seq<Byte>, s: PacketState, settled: bool)
    requires Commits(s) && Phase(origin, s, settled)
    ensures FreshlySound(s)
  {
    CommitFacts(s);
    hide Parse, FinalizeStep, PlanOf, Phase, SoundCommit, FieldsCurrent, RangeSum, WordSum, Canon;
    if Unresized(s) { UnresizedFreshly(s); } else { ResizedFreshly(origin, s, settled); }
  }

  lemma ResizedFreshly(origin: seq<Byte>, s: PacketState, settled: bool)
    requires Commits(s) && Phase(origin, s, settled) && s.journal.tailDelta != 0
    ensures FreshlySound(s)
  {
    CommitFacts(s);
    var base := PlanBase(origin, s, settled);
    FinalizeExactFrame(s);
    var p, plan, b := s.journal.preParsed, PlanFor(s), Committed(s).frame.bytes;
    PlanDecodes(base, s, plan);
    PlanParts(s, plan);
    hide Parse, FinalizeStep, PlanOf, Phase, FieldsCurrent, RangeSum, WordSum, Canon, Stands, Good, DeclaredExtents,
      Written, Nested, SameHeaders, LengthsRight, TransportSound, HeaderSumValid;
    CommitSound(s);
    SoundMoves(b, p, Parse(b, DEFAULT_CONFIG), plan.extents);
    SameHeaderLen(p, Parse(b, DEFAULT_CONFIG));
  }

  lemma SameHeaderLen(p: ParsedPacket, q: ParsedPacket)
    requires SameHeaders(p, q)
    ensures p.networkProtocol == Ipv4 ==> q.ipv4.headerLen == p.ipv4.headerLen
  {
  }

  lemma UnresizedFreshly(s: PacketState)
    requires Commits(s) && Unresized(s)
    ensures FreshlySound(s)
  {
    BaseIsFresh(s);
    FinalizeExactFrame(s);
    UnresizedPlan(s);
    CommitFacts(s);
    var plan := PlanFor(s);
    hide Parse, FinalizeStep, PlanOf, RangeSum, WordSum, Canon, Good, DeclaredExtents, Written, LengthsRight,
      TransportSumValid, HeaderSumValid;
    FreshSound(BaseParsed(s), plan.extents, s.frame.bytes, Committed(s).frame.bytes, plan.mustHeader,
               plan.mustTransport);
    ReparsePresent(BaseParsed(s), Committed(s).cache);
  }

  lemma ReparsePresent(p: ParsedPacket, q: ParsedPacket)
    requires ReparseCheck(p, q).Ok?
    ensures q.networkStatus == Present
  {
  }

  /** The checksums flagged in the journal are accepted by a receiver of `b`. */
  ghost predicate FlaggedAccepted(sums: Sums, b: seq<Byte>) {
    && Parse(b, DEFAULT_CONFIG).networkStatus == Present
    && (sums.transport ==> SegmentAccepted(b))
    && (sums.ipv4Header && Parse(b, DEFAULT_CONFIG).networkProtocol == Ipv4 ==> HeaderAccepted(b))
  }

  lemma CommitAccepted(s: PacketState)
    requires Commits(s) && FreshlySound(s)
    ensures FlaggedAccepted(s.journal.sums, Committed(s).frame.bytes)
    ensures PlanFor(s).mustTransport ==> SegmentAccepted(Committed(s).frame.bytes)
    ensures PlanFor(s).mustHeader ==> HeaderAccepted(Committed(s).frame.bytes)
  {
    var b, plan := Committed(s).frame.bytes, PlanFor(s);
    var q := Parse(b, DEFAULT_CONFIG);
    CommitFacts(s);
    PlanGuards(s);
    FinalizeExactFrame(s);
    CommitDues(s);
    hide Parse, FinalizeStep, PlanOf, RangeSum, WordSum, Canon, Good, DeclaredExtents, Written, LengthsRight,
      BaseParsed, SegmentAccepted, HeaderAccepted, Nested;
    SoundExtents(s);
    HeaderAcceptedIs(b);
    if plan.mustTransport { AcceptedIs(b, plan.extents.transportLen); }
  }

  lemma SoundExtents(s: PacketState)
    requires Commits(s) && FreshlySound(s)
    ensures var b, e := Committed(s).frame.bytes, PlanFor(s).extents;
            var q := Parse(b, DEFAULT_CONFIG);
            e.networkOffset == NetworkOffset(q) && (HasTransport(q) ==> e.transportOffset == TransportOffset(q))
  {
    var b := Committed(s).frame.bytes;
    ParseIsFramed(b, DEFAULT_CONFIG);
    DeclaredIsNested(Parse(b, DEFAULT_CONFIG), |b|, |b|);
    hide Parse, FinalizeStep, PlanOf, RangeSum, WordSum, Canon, Good, DeclaredExtents, LengthsRight, Framed,
      TransportSound, HeaderSumValid;
  }

  /** What is flagged is due. */
  lemma CommitDues(s: PacketState)
    requires Commits(s) && FreshlySound(s)
    ensures var q, plan := Parse(Committed(s).frame.bytes, DEFAULT_CONFIG), PlanFor(s);
            && q.networkStatus == Present
            && (s.journal.sums.transport ==> HasTransport(q) && plan.mustTransport)
            && (s.journal.sums.ipv4Header && q.networkProtocol == Ipv4 ==> plan.mustHeader)
            && (plan.mustTransport ==> HasTransport(q)) && (plan.mustHeader ==> q.networkProtocol == Ipv4)
  {
    PlanGuards(s);
    FinalizeExactFrame(s);
    hide Parse, FinalizeStep, PlanOf, RangeSum, WordSum, Canon, Good, DeclaredExtents, TransportSound, HeaderSumValid,
      LengthsRight, HeaderSum, TransportSum, BaseParsed, Window;
  }

  /** Checksum soundness over whole runs. From `begin` on, through any edits,
      parses, raw writes and head resizes before the first tail resize, and any
      setters, tail resizes and finalizations after it that leave the headers
      alone and resize no finalized packet, every successful finalization stores
      exactly the computed extents, decoded afresh the frame declares them, and
      its receiver accepts every IPv4 header, TCP and UDP checksum that was due. */
  lemma FinalizeSound(f: Frame, ops: seq<Op>)
    requires FrameValid(f) && Good(Fresh(f)) && Structured(Fresh(f), ops)
    requires Commits(Run(Fresh(f), ops))
    ensures FreshlySound(Run(Fresh(f), ops))
    ensures var s := Run(Fresh(f), ops);
            && FlaggedAccepted(s.journal.sums, Committed(s).frame.bytes)
            && (PlanFor(s).mustTransport ==> SegmentAccepted(Committed(s).frame.bytes))
            && (PlanFor(s).mustHeader ==> HeaderAccepted(Committed(s).frame.bytes))
  {
    var origin := RunPhase(Fresh(f), ops);
    hide Parse, FinalizeStep, Structured, RangeSum, WordSum, Canon, PlanOf, Phase, Commits, FreshlySound, Settled,
      FlaggedAccepted, SegmentAccepted, HeaderAccepted;
    CommitFreshlySound(origin, Run(Fresh(f), ops), Settled(Fresh(f), ops));
    CommitAccepted(Run(Fresh(f), ops));
  }

  /** And exactly when a due finalization succeeds, anywhere along such a run. */
  lemma FinalizeSucceeds(f: Frame, ops: seq<Op>)
    requires FrameValid(f) && Good(Fresh(f)) && Structured(Fresh(f), ops)
    requires Run(Fresh(f), ops).journal.NeedsFinalize() && !Run(Fresh(f), ops).journal.editFailed
    ensures var s := Run(Fresh(f), ops);
            FinalizeStep(s).1.Ok? <==>
            if s.journal.tailDelta == 0 then Finalizable(s)
            else s.journal.tailDelta == s.journal.signedDelta && ResizedFinalizable(s)
  {
    var s := Run(Fresh(f), ops);
    var origin := RunPhase(Fresh(f), ops);
    hide Parse, Structured, RangeSum, WordSum, Canon, PlanOf, Settled, Finalizable, ResizedFinalizable, Stands,
      FieldsCurrent, Matches, Intact;
    if s.journal.tailDelta == 0 {
      UnresizedSucceeds(s);
    } else if s.journal.tailDelta == s.journal.signedDelta {
      var base := [];
      if PlanOf(s).Ok? { base := PlanBase(origin, s, Settled(Fresh(f), ops)); }
      ResizedSucceeds(base, s);
    }
  }

  // ---- Valid in, valid out -------------------------------------------------------------------

  /** Operations of an ordinary editor that leave the head alone. */
  predicate Gentle(op: Op) {
    op.DoParse? || op.DoEdit? || op.DoFinalize? || (op.DoResize? && op.resize.Tail())
  }

  /** Until a tail resize the unflagged checksums verify; from then on every
      checksum is flagged, and a finalized packet verifies. */
  ghost predicate Keeps(s: PacketState) {
    if !s.journal.hasPre then Sound(s)
    else
      && s.journal.signedDelta == s.journal.tailDelta && s.journal.dirty.Any()
      && s.journal.sums.ipv4Header && s.journal.sums.transport
      && (s.journal.finalized ==> Verifies(s.frame.bytes))
  }

  /** With every checksum due, a freshly sound commit verifies outright. */
  lemma SoundVerifies(s: PacketState)
    requires Commits(s) && FreshlySound(s) && s.journal.sums.ipv4Header && s.journal.sums.transport
    ensures Verifies(Committed(s).frame.bytes)
  {
    CommitFacts(s);
    FinalizeExactFrame(s);
    var b, plan := Committed(s).frame.bytes, PlanFor(s);
    var q := Parse(b, DEFAULT_CONFIG);
    ParseIsFramed(b, DEFAULT_CONFIG);
    DeclaredIsNested(q, |b|, |b|);
    DuesOf(s, q);
    hide Parse, FinalizeStep, PlanOf, RangeSum, WordSum, Canon, Good, Framed, DeclaredExtents, Written,
      TransportSumValid, HeaderSumValid;
  }

  /** What a fresh decode shows to be there was due. */
  lemma DuesOf(s: PacketState, q: ParsedPacket)
    requires Commits(s) && FreshlySound(s) && s.journal.sums.ipv4Header && s.journal.sums.transport
    requires q == Parse(Committed(s).frame.bytes, DEFAULT_CONFIG)
    ensures q.networkStatus == Present
    ensures q.networkProtocol == Ipv4 ==> PlanFor(s).mustHeader
    ensures HasTransport(q) ==> PlanFor(s).mustTransport
  {
    FinalizeExactFrame(s);
    hide Parse, FinalizeStep, PlanOf, RangeSum, WordSum, Canon, Good, DeclaredExtents, TransportSound, HeaderSumValid,
      LengthsRight, HeaderSum, TransportSum, BaseParsed, Window;
  }

  lemma StepKeeps(origin: seq<Byte>, s: PacketState, op: Op, settled: bool)
    requires Good(s) && Phase(origin, s, settled) && Keeps(s) && Allowed(s, op, settled) && Gentle(op)
    ensures Keeps(Step(s, op).0)
  {
    hide EditStep, ResizeStep, RawStep, FinalizeStep, Good, Parse, Phase, Sound, Verifies, Cached;
    if s.journal.hasPre {
      if Step(s, op).1.Err? { RefusedKeeps(s, op); } else { LaterKeeps(origin, s, op, settled); }
    } else if op.DoResize? {
      FirstResizeKeeps(s, op.resize, op.inject);
    } else {
      NoSnapshotElsewhere(s, op);
      StepKeepsSound(s, op);
    }
  }

  lemma FirstResizeKeeps(s: PacketState, op: ResizeOp, inject: bool)
    requires Good(s) && !s.journal.hasPre && Sound(s) && op.Tail()
    ensures Keeps(ResizeStep(s, op, inject).0)
  {
    if ResizeStep(s, op, inject).1.Ok? {
      ResizeMarks(s, op, inject);
      hide ResizeStep, Good, Parse, HeaderVerifies, TransportVerifies, Verifies;
    } else {
      CacheKeepsSound(s, DEFAULT_CONFIG);
      hide Good, Parse, Sound, Verifies, ResizeCheck;
    }
  }

  lemma LaterKeeps(origin: seq<Byte>, s: PacketState, op: Op, settled: bool)
    requires Good(s) && s.journal.hasPre && Phase(origin, s, settled) && Keeps(s) && Gentle(op) && Step(s, op).1.Ok?
    ensures Keeps(Step(s, op).0)
  {
    hide EditStep, ResizeStep, RawStep, FinalizeStep, Good, Parse, Sound, Verifies, Phase, FreshlySound;
    match op
    case DoParse(cfg) =>
    case DoEdit(e, inject) =>
      EditDirt(s, e, inject);
      EditHolds(s, e, inject);
    case DoResize(r, inject) => ResizeMarks(s, r, inject);
    case DoFinalize =>
      CommitFacts(s);
      CommitFreshlySound(origin, s, settled);
      SoundVerifies(s);
    case DoRaw(_, _, _, _, _, _) =>
  }

  lemma EditHolds(s: PacketState, e: FieldEdit, inject: bool)
    requires Good(s)
    ensures SameResize(s.journal, EditStep(s, e, inject).0.journal)
  {
    EditWrites(s, e, inject);
  }

  lemma {:induction false} RunKeeps(s: PacketState, ops: seq<Op>) returns (origin: seq<Byte>)
    requires Good(s) && !s.journal.hasPre && Keeps(s) && Structured(s, ops)
    requires forall i :: 0 <= i < |ops| ==> Gentle(ops[i])
    ensures Keeps(Run(s, ops)) && Phase(origin, Run(s, ops), Settled(s, ops))
    decreases |ops|
  {
    origin := [];
    if ops != [] {
      var init, last := ops[..|ops| - 1], ops[|ops| - 1];
      origin := RunKeeps(s, init);
      hide Phase, Step, Good, Allowed, Keeps, Gentle;
      StepKeeps(origin, Run(s, init), last, Settled(s, init));
      origin := StepPhase(origin, Run(s, init), last, Settled(s, init));
    }
  }

  /** Valid in, valid out. A packet whose checksums a receiver accepts on
      arrival, changed only through setters, tail resizes and finalizations, with
      any failures, along a structured run, is accepted by its next receiver
      whenever the output gate passes it. A run without tail resizes is
      structured by itself. */
  lemma ValidInValidOut(f: Frame, ops: seq<Op>)
    requires FrameValid(f) && Accepted(f.bytes) && forall i :: 0 <= i < |ops| ==> Gentle(ops[i])
    ensures Good(Fresh(f))
    ensures Structured(Fresh(f), ops) && OutputCheck(Run(Fresh(f), ops)).Ok?
            ==> Accepted(Run(Fresh(f), ops).frame.bytes)
    ensures (forall i :: 0 <= i < |ops| ==> !ops[i].DoResize?) ==> Structured(Fresh(f), ops)
  {
    hide Run, Parse, HeaderVerifies, TransportVerifies, Good, Structured, Accepted, Verifies;
    FreshIsGood(f);
    VerifiesIs(f.bytes);
    FreshIsSound(f);
    if Structured(Fresh(f), ops) && OutputCheck(Run(Fresh(f), ops)).Ok? {
      var origin := RunKeeps(Fresh(f), ops);
      GateVerifies(Run(Fresh(f), ops));
    }
    if forall i :: 0 <= i < |ops| ==> !ops[i].DoResize? { UnresizedStructured(Fresh(f), ops); }
  }

  lemma GateVerifies(s: PacketState)
    requires Good(s) && Keeps(s) && OutputCheck(s).Ok?
    ensures Accepted(s.frame.bytes)
  {
    hide Parse, HeaderVerifies, TransportVerifies, Accepted;
    VerifiesIs(s.frame.bytes);
  }

  lemma {:induction false} UnresizedStructured(s: PacketState, ops: seq<Op>)
    requires Good(s) && !s.journal.hasPre
    requires forall i :: 0 <= i < |ops| ==> !ops[i].DoResize?
    ensures Structured(s, ops) && !Run(s, ops).journal.hasPre
    decreases |ops|
  {
    if ops != [] {
      var init, last := ops[..|ops| - 1], ops[|ops| - 1];
      UnresizedStructured(s, init);
      hide Step, Good;
      NoSnapshotElsewhere(Run(s, init), last);
    }
  }
}
