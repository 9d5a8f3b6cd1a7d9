/** What the receiver of a packet finds once the output gate has passed it: the
    theorems about whole runs, said of the bytes that leave. */
module Deliveries {
  import opened Prelude
  import opened Parsing
  import opened ParsingFacts
  import opened Checksum
  import opened Extents
  import opened PacketMachine
  import opened FinalizeTheorems
  import opened UnresizedTheorems
  import opened PacketRuns
  import opened StructuredRuns
  import opened ConservedSums
  import opened ResizedRuns
  import opened Receiver

  // ---- What the journal records -----------------------------------------------------------------

  /** Operations after which the transport checksum, and the IPv4 header
      checksum, must be computed again. */
  predicate Touches4(op: Op) {
    match op
    case DoParse(_) => false
    case DoEdit(e, _) => TouchesAddresses(op) || e.TcpFlags? || e.TcpPort? || e.UdpPort?
    case DoResize(_, _) => true
    case DoRaw(_, _, _, inv, full, _) => inv.l3 || inv.l4 || full
    case DoFinalize => false
  }

  predicate Touches3(op: Op) {
    match op
    case DoParse(_) => false
    case DoEdit(e, _) => e.Ipv4Dscp? || e.Ipv4Ttl? || e.Ipv4Source? || e.Ipv4Destination?
    case DoResize(_, _) => true
    case DoRaw(_, _, _, inv, full, _) => inv.l3 || full
    case DoFinalize => false
  }

  /** Operations that may change the addresses of the pseudo-header. */
  predicate TouchesAddresses(op: Op) {
    match op
    case DoParse(_) => false
    case DoEdit(e, _) => e.Ipv4Source? || e.Ipv4Destination? || e.Ipv6Source? || e.Ipv6Destination?
    case DoResize(_, _) => true
    case DoRaw(_, _, _, inv, full, _) => inv.l3 || full
    case DoFinalize => false
  }

  /** Operations that change bytes of the link, network and transport layers. */
  predicate Dirties2(op: Op) {
    match op
    case DoParse(_) => false
    case DoEdit(e, _) => e.EthernetSource? || e.EthernetDestination?
    case DoResize(_, _) => true
    case DoRaw(_, _, _, inv, full, _) => inv.l2 || full
    case DoFinalize => false
  }

  predicate Dirties3(op: Op) {
    match op
    case DoParse(_) => false
    case DoEdit(e, _) => !Dirties2(op) && !Dirties4(op)
    case DoResize(_, _) => true
    case DoRaw(_, _, _, inv, full, _) => inv.l3 || full
    case DoFinalize => false
  }

  predicate Dirties4(op: Op) {
    match op
    case DoParse(_) => false
    case DoEdit(e, _) => e.TcpFlags? || e.TcpPort? || e.UdpPort?
    case DoResize(_, _) => true
    case DoRaw(_, _, _, inv, full, _) => inv.l4 || full
    case DoFinalize => false
  }

  /** The journal gains what the operation declares, and nothing is taken back. */
  ghost predicate Gains(j: Journal, k: Journal, op: Op) {
    && k.dirty == j.dirty.Or(Layers(Dirties2(op), Dirties3(op), Dirties4(op)))
    && k.sums == j.sums.Or(Sums(Touches3(op), Touches4(op), TouchesAddresses(op)))
    && !k.offloadEligible && k.cacheInvalidated && !k.finalized
  }

  ghost predicate SameMarks(j: Journal, k: Journal) {
    k.dirty == j.dirty && k.sums == j.sums && k.offloadEligible == j.offloadEligible
    && k.cacheInvalidated == j.cacheInvalidated
  }

  lemma StepMarks(s: PacketState, op: Op)
    requires Good(s)
    ensures var j, k := s.journal, Step(s, op).0.journal;
            if Mutates(op) && Step(s, op).1.Ok? then Gains(j, k, op)
            else SameMarks(j, k) && (Mutates(op) ==> !k.finalized)
  {
    hide EditStep, ResizeStep, RawStep, FinalizeStep, Good, Parse, Gains, SameMarks;
    match op
    case DoParse(cfg) => CacheMarks(s, cfg);
    case DoEdit(e, inject) => EditMarks(s, e, inject);
    case DoResize(r, inject) => ResizeGains(s, r, inject);
    case DoRaw(off, len, data, inv, full, inject) => RawMarks(s, off, len, data, inv, full, inject);
    case DoFinalize => FinalizeMarks(s);
  }

  lemma CacheMarks(s: PacketState, cfg: ParserConfig)
    requires Good(s)
    ensures ParseStep(s, cfg).0.journal == s.journal && ParseStep(s, cfg).0.frame == s.frame
    ensures SameMarks(s.journal, ParseStep(s, cfg).0.journal)
  {
    hide Parse, Good;
  }

  lemma WriteMarks(s: PacketState, inject: bool, off: nat, data: seq<Byte>, dirty: Layers, sums: Sums)
    requires |s.frame.writable| == |s.frame.bytes|
    ensures var (r, outcome) := CheckedWrite(s, inject, off, data, dirty, sums);
            if outcome.Ok?
            then && r.journal.dirty == s.journal.dirty.Or(dirty) && r.journal.sums == s.journal.sums.Or(sums)
                 && !r.journal.finalized && !r.journal.offloadEligible && r.journal.cacheInvalidated
            else r == Fail(s)
  {
    hide WriteCheck, Splice;
  }

  lemma RawMarks(s: PacketState, off: nat, len: nat, data: seq<Byte>, inv: Layers, full: bool, inject: bool)
    requires Good(s)
    ensures var (r, outcome) := RawStep(s, off, len, data, inv, full, inject);
            if outcome.Ok? then Gains(s.journal, r.journal, DoRaw(off, len, data, inv, full, inject))
            else SameMarks(s.journal, r.journal) && !r.journal.finalized
  {
    assert |s.frame.writable| == |s.frame.bytes|;
    hide Good, Parse, WriteCheck, CheckedWrite, FrameValid, Coherent, Framed;
    var dirty := if full then Layers(true, true, true) else inv;
    WriteMarks(s, inject, off, data, dirty, Sums(dirty.l3, dirty.l3 || dirty.l4, dirty.l3));
  }

  lemma EditMarks(s: PacketState, e: FieldEdit, inject: bool)
    requires Good(s)
    ensures var (r, outcome) := EditStep(s, e, inject);
            if outcome.Ok? then Gains(s.journal, r.journal, DoEdit(e, inject))
            else SameMarks(s.journal, r.journal) && !r.journal.finalized
  {
    CachedIsFramed(s, DEFAULT_CONFIG);
    var c := Cached(s, DEFAULT_CONFIG);
    if Expected(c.cache, e).Ok? {
      var t := TargetOf(c.frame.bytes, c.cache, e);
      WriteMarks(c, inject, t.offset, t.data, t.dirty, t.sums);
      TargetMarks(c.frame.bytes, c.cache, e, inject);
    }
    hide Parse, Framed, Expected, CheckedWrite, Good, TargetOf, Dirties2, Dirties3, Dirties4, Touches3, Touches4,
      TouchesAddresses;
  }

  /** A setter marks its own layer and exactly the checksums that sum its bytes. */
  lemma TargetMarks(b: seq<Byte>, p: ParsedPacket, e: FieldEdit, inject: bool)
    requires Framed(p, |b|) && Expected(p, e).Ok?
    ensures var t, op := TargetOf(b, p, e), DoEdit(e, inject);
            && t.dirty == Layers(Dirties2(op), Dirties3(op), Dirties4(op))
            && t.sums == Sums(Touches3(op), Touches4(op), TouchesAddresses(op))
  {
  }

  lemma ResizeGains(s: PacketState, op: ResizeOp, inject: bool)
    requires Good(s)
    ensures var (r, outcome) := ResizeStep(s, op, inject);
            if outcome.Ok? then Gains(s.journal, r.journal, DoResize(op, inject))
            else SameMarks(s.journal, r.journal) && !r.journal.finalized
  {
    hide Good, Parse, ResizeCheck, ResizedFrame;
  }

  lemma FinalizeMarks(s: PacketState)
    requires Good(s)
    ensures SameMarks(s.journal, FinalizeStep(s).0.journal)
    ensures FinalizeStep(s).0.journal.signedDelta == s.journal.signedDelta
    ensures !s.journal.NeedsFinalize() ==> FinalizeStep(s).0.frame == s.frame
    ensures FinalizeStep(s).1.Err? && FinalizeStep(s).0.journal.finalized ==> s.journal.finalized
  {
    hide Good, Parse, PlanOf, ReparseCheck, ApplyWrites, FrameValid, Coherent, Framed;
  }

  /** An operation like this was accepted in the run. */
  ghost predicate Happened(s: PacketState, ops: seq<Op>, like: Op -> bool)
    requires Good(s)
  {
    exists i :: 0 <= i < |ops| && like(ops[i]) && OutcomeAt(s, ops, i).Ok?
  }

  lemma HappenedStep(s: PacketState, ops: seq<Op>, like: Op -> bool)
    requires Good(s) && ops != []
    ensures var init, last := ops[..|ops| - 1], ops[|ops| - 1];
            Happened(s, ops, like) <==> Happened(s, init, like) || (like(last) && Step(Run(s, init), last).1.Ok?)
  {
    hide Step, Good, Run, OutcomeAt;
    var n := |ops| - 1;
    var init := ops[..n];
    forall i | 0 <= i < n ensures init[i] == ops[i] && OutcomeAt(s, ops, i) == OutcomeAt(s, init, i) {
      OutcomeOfPrefix(s, ops, i);
    }
    LastOutcome(s, ops);
  }

  lemma LastOutcome(s: PacketState, ops: seq<Op>)
    requires Good(s) && ops != []
    ensures OutcomeAt(s, ops, |ops| - 1) == Step(Run(s, ops[..|ops| - 1]), ops[|ops| - 1]).1
  {
    hide Step, Good;
  }

  /** The journal tells which kinds of operations have been accepted. */
  ghost predicate Tells(j: Journal, s: PacketState, ops: seq<Op>)
    requires Good(s)
  {
    && j.dirty == Layers(Happened(s, ops, Dirties2), Happened(s, ops, Dirties3), Happened(s, ops, Dirties4))
    && j.sums == Sums(Happened(s, ops, Touches3), Happened(s, ops, Touches4), Happened(s, ops, TouchesAddresses))
    && j.cacheInvalidated == Happened(s, ops, Mutates) && j.offloadEligible == !Happened(s, ops, Mutates)
  }

  lemma TellsStep(s: PacketState, ops: seq<Op>, j: Journal, k: Journal)
    requires Good(s) && ops != [] && Tells(j, s, ops[..|ops| - 1])
    requires var last := ops[|ops| - 1];
             if Mutates(last) && Step(Run(s, ops[..|ops| - 1]), last).1.Ok? then Gains(j, k, last) else SameMarks(j, k)
    ensures Tells(k, s, ops)
  {
    hide Step, Good, Run, Happened, Dirties2, Dirties3, Dirties4, Touches3, Touches4, TouchesAddresses, Mutates;
    MarksNeedChange(ops[|ops| - 1]);
    HappenedStep(s, ops, Dirties2);
    HappenedStep(s, ops, Dirties3);
    HappenedStep(s, ops, Dirties4);
    HappenedStep(s, ops, Touches3);
    HappenedStep(s, ops, Touches4);
    HappenedStep(s, ops, TouchesAddresses);
    HappenedStep(s, ops, Mutates);
  }

  /** The journal of a packet from `begin` on tells exactly which kinds of
      operations have been accepted: dirt by layer, checksums to compute again,
      and whether anything changed at all. Finalization takes nothing back. */
  lemma {:induction false} MarksTellRun(f: Frame, ops: seq<Op>)
    requires FrameValid(f) && Good(Fresh(f))
    ensures Tells(Run(Fresh(f), ops).journal, Fresh(f), ops)
    decreases |ops|
  {
    hide Step, Good, Tells, Gains, SameMarks, FrameValid;
    var s := Fresh(f);
    if ops == [] {
      NothingTold(f);
    } else {
      var init, last := ops[..|ops| - 1], ops[|ops| - 1];
      MarksTellRun(f, init);
      StepMarks(Run(s, init), last);
      TellsStep(s, ops, Run(s, init).journal, Run(s, ops).journal);
    }
  }

  lemma NothingTold(f: Frame)
    requires Good(Fresh(f))
    ensures Tells(CLEAN, Fresh(f), [])
  {
    hide Good;
  }

  lemma MarksNeedChange(op: Op)
    ensures !Mutates(op) ==> !Dirties2(op) && !Dirties3(op) && !Dirties4(op)
                             && !Touches3(op) && !Touches4(op) && !TouchesAddresses(op)
    ensures Touches3(op) || Touches4(op) ==> Dirties2(op) || Dirties3(op) || Dirties4(op)
  {
  }

  // ---- Whole runs ------------------------------------------------------------------------------

  /** A finalized packet is accepted for every checksum its journal has flagged. */
  ghost predicate Sealed(s: PacketState) {
    s.journal.finalized && s.journal.NeedsFinalize() ==> FlaggedAccepted(s.journal.sums, s.frame.bytes)
  }

  lemma StepSealed(origin: seq<Byte>, s: PacketState, op: Op, settled: bool)
    requires Good(s) && Phase(origin, s, settled) && Sealed(s)
    ensures Sealed(Step(s, op).0)
  {
    StepMarks(s, op);
    hide EditStep, ResizeStep, RawStep, FinalizeStep, Good, Parse, FlaggedAccepted, Phase, FreshlySound;
    match op
    case DoParse(cfg) => CacheMarks(s, cfg);
    case DoEdit(_, _) =>
    case DoResize(_, _) =>
    case DoRaw(_, _, _, _, _, _) =>
    case DoFinalize =>
      FinalizeMarks(s);
      if FinalizeStep(s).1.Err? {
        RefusedKeeps(s, op);
      } else if s.journal.NeedsFinalize() {
        CommitFreshlySound(origin, s, settled);
        CommitAccepted(s);
      }
  }

  lemma {:induction false} RunSealed(s: PacketState, ops: seq<Op>) returns (origin: seq<Byte>)
    requires Good(s) && !s.journal.hasPre && Sealed(s) && Structured(s, ops)
    ensures Sealed(Run(s, ops)) && Phase(origin, Run(s, ops), ResizedRuns.Settled(s, ops))
    decreases |ops|
  {
    origin := [];
    if ops != [] {
      var init, last := ops[..|ops| - 1], ops[|ops| - 1];
      origin := RunSealed(s, init);
      hide Phase, Step, Good, Allowed, Sealed;
      StepSealed(origin, Run(s, init), last, ResizedRuns.Settled(s, init));
      origin := StepPhase(origin, Run(s, init), last, ResizedRuns.Settled(s, init));
    }
  }

  /** Changed, then delivered. Whatever a structured run did, a packet that
      passes the gate after an accepted change of addresses, ports, flags,
      length or raw transport or network bytes carries a TCP or UDP segment its
      receiver accepts, and after one of the IPv4 header a header it accepts. */
  lemma ChangedIsAccepted(f: Frame, ops: seq<Op>, i: nat)
    requires FrameValid(f) && Good(Fresh(f)) && Structured(Fresh(f), ops)
    requires i < |ops| && OutcomeAt(Fresh(f), ops, i).Ok? && OutputCheck(Run(Fresh(f), ops)).Ok?
    ensures var b := Run(Fresh(f), ops).frame.bytes;
            && (Touches4(ops[i]) ==> SegmentAccepted(b))
            && (Touches3(ops[i]) && Parse(b, DEFAULT_CONFIG).networkProtocol == Ipv4 ==> HeaderAccepted(b))
  {
    hide Step, Good, Structured, Touches3, Touches4, FlaggedAccepted, Parse, SegmentAccepted, HeaderAccepted, Sealed,
      Run, OutcomeAt, FrameValid, Journal.NeedsFinalize;
    if Touches4(ops[i]) || Touches3(ops[i]) {
      FreshIsSealed(f);
      var origin := RunSealed(Fresh(f), ops);
      TouchedAtEnd(f, ops, i);
      SealedGate(Run(Fresh(f), ops));
      FlaggedMeans(Run(Fresh(f), ops).journal.sums, Run(Fresh(f), ops).frame.bytes);
    }
  }

  lemma FreshIsSealed(f: Frame)
    ensures Sealed(Fresh(f)) && !Fresh(f).journal.hasPre
  {
    hide FlaggedAccepted;
  }

  lemma TouchedAtEnd(f: Frame, ops: seq<Op>, i: nat)
    requires FrameValid(f) && Good(Fresh(f))
    requires i < |ops| && OutcomeAt(Fresh(f), ops, i).Ok? && (Touches4(ops[i]) || Touches3(ops[i]))
    ensures var k := Run(Fresh(f), ops).journal;
            && k.NeedsFinalize() && (Touches4(ops[i]) ==> k.sums.transport) && (Touches3(ops[i]) ==> k.sums.ipv4Header)
  {
    hide Step, Good, Touches3, Touches4, Dirties2, Dirties3, Dirties4, FrameValid;
    MarksTellRun(f, ops);
    MarksNeedChange(ops[i]);
  }

  lemma SealedGate(s: PacketState)
    requires Sealed(s) && OutputCheck(s).Ok? && s.journal.NeedsFinalize()
    ensures FlaggedAccepted(s.journal.sums, s.frame.bytes)
  {
    hide Parse, FlaggedAccepted;
  }

  lemma FlaggedMeans(sums: Sums, b: seq<Byte>)
    requires FlaggedAccepted(sums, b)
    ensures sums.transport ==> SegmentAccepted(b)
    ensures sums.ipv4Header && Parse(b, DEFAULT_CONFIG).networkProtocol == Ipv4 ==> HeaderAccepted(b)
  {
    hide Parse, SegmentAccepted, HeaderAccepted;
  }
}
