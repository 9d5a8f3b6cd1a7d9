/** Whole runs of one packet between `begin` and `invalidate`: what every
    reachable state keeps, whatever the order of operations and failures. */
module PacketRuns {
  import opened Prelude
  import opened Parsing
  import opened ParsingFacts
  import opened PacketMachine
  import opened FinalizeTheorems

  datatype Op =
    | DoParse(cfg: ParserConfig)
    | DoEdit(edit: FieldEdit, inject: bool)
    | DoResize(resize: ResizeOp, inject: bool)
    | DoRaw(off: nat, len: nat, data: seq<Byte>, invalidates: Layers, full: bool, inject: bool)
    | DoFinalize

  function Step(s: PacketState, op: Op): (PacketState, Outcome)
    requires Good(s)
  {
    match op
    case DoParse(cfg) =>
      var r := ParseStep(s, cfg);
      (r.0, if r.1.Ok? then Ok(()) else Err(r.1.error))
    case DoEdit(e, inject) => EditStep(s, e, inject)
    case DoResize(r, inject) => ResizeStep(s, r, inject)
    case DoRaw(off, len, data, inv, full, inject) => RawStep(s, off, len, data, inv, full, inject)
    case DoFinalize => FinalizeStep(s)
  }

  // ---- The state invariant -----------------------------------------------------------

  lemma CachedIsGood(s: PacketState, cfg: ParserConfig)
    requires Good(s)
    ensures Good(Cached(s, cfg))
  {
    CachedIsFramed(s, cfg);
  }

  lemma WriteIsGood(s: PacketState, inject: bool, off: nat, data: seq<Byte>, dirty: Layers, sums: Sums)
    requires Good(s)
    ensures Good(CheckedWrite(s, inject, off, data, dirty, sums).0)
  {
  }

  lemma ResizeIsGood(s: PacketState, op: ResizeOp, inject: bool)
    requires Good(s)
    ensures Good(ResizeStep(s, op, inject).0)
  {
    CachedIsFramed(s, DEFAULT_CONFIG);
    hide Parse, Framed;
    if ResizeCheck(s, op, inject).Ok? { ResizedIsValid(s.frame, op); }
    hide ResizedFrame;
  }

  lemma ResizedIsValid(f: Frame, op: ResizeOp)
    requires FrameValid(f) && f.room.Linear? && (!op.Grows() ==> op.count <= |f.bytes|)
    requires (op.Prepend? ==> |op.data| <= f.room.headroom) && (op.Append? ==> |op.data| <= f.room.tailroom)
    requires op.Grows() ==> |f.bytes| + op.Amount() <= USIZE_MAX
    ensures FrameValid(ResizedFrame(f, op))
  {
  }

  lemma FinalizeIsGood(s: PacketState)
    requires Good(s)
    ensures Good(FinalizeStep(s).0)
  {
    if FinalizeStep(s).1.Err? {
      FinalizeTransactional(s);
    } else if s.journal.NeedsFinalize() {
      CommitFacts(s);
      ParseRemembers(Committed(s).frame.bytes, DEFAULT_CONFIG);
    }
  }

  lemma StepIsGood(s: PacketState, op: Op)
    requires Good(s)
    ensures Good(Step(s, op).0)
  {
    hide Good, FinalizeStep, ResizeStep, EditStep, RawStep, CheckedWrite, Cached;
    match op
    case DoParse(cfg) => CachedIsGood(s, cfg);
    case DoEdit(e, inject) => EditIsGood(s, e, inject);
    case DoResize(r, inject) => ResizeIsGood(s, r, inject);
    case DoRaw(off, len, data, inv, full, inject) => RawIsGood(s, off, len, data, inv, full, inject);
    case DoFinalize => FinalizeIsGood(s);
  }

  lemma EditIsGood(s: PacketState, e: FieldEdit, inject: bool)
    requires Good(s)
    ensures Good(EditStep(s, e, inject).0)
  {
    CachedIsFramed(s, DEFAULT_CONFIG);
    CachedIsGood(s, DEFAULT_CONFIG);
    var c := Cached(s, DEFAULT_CONFIG);
    if Expected(c.cache, e).Ok? {
      var t := TargetOf(c.frame.bytes, c.cache, e);
      WriteIsGood(c, inject, t.offset, t.data, t.dirty, t.sums);
    }
  }

  lemma RawIsGood(s: PacketState, off: nat, len: nat, data: seq<Byte>, inv: Layers, full: bool, inject: bool)
    requires Good(s)
    ensures Good(RawStep(s, off, len, data, inv, full, inject).0)
  {
    var dirty := if full then Layers(true, true, true) else inv;
    WriteIsGood(s, inject, off, data, dirty, Sums(dirty.l3, dirty.l3 || dirty.l4, dirty.l3));
  }

  lemma FreshIsGood(f: Frame)
    requires FrameValid(f)
    ensures Good(Fresh(f))
  {
  }

  /** The state after a run, from any good state. */
  ghost function Run(s: PacketState, ops: seq<Op>): (r: PacketState)
    requires Good(s)
    ensures Good(r)
    decreases |ops|
  {
    if ops == [] then s
    else
      var t := Run(s, ops[..|ops| - 1]);
      StepIsGood(t, ops[|ops| - 1]);
      Step(t, ops[|ops| - 1]).0
  }

  /** The outcome of the `i`-th operation of a run. */
  ghost function OutcomeAt(s: PacketState, ops: seq<Op>, i: nat): Outcome
    requires Good(s) && i < |ops|
  {
    Step(Run(s, ops[..i]), ops[i]).1
  }

  // ---- Parse-cache coherence ------------------------------------------------------------

  /** In every reachable state a parse under any accepted configuration returns
      what decoding the current bytes afresh returns, and changes no byte. */
  lemma ParseAlwaysFresh(f: Frame, ops: seq<Op>, cfg: ParserConfig)
    requires FrameValid(f) && cfg.Valid()
    ensures Good(Fresh(f))
    ensures var s := Run(Fresh(f), ops);
            && ParseStep(s, cfg).1 == Ok(Parse(s.frame.bytes, cfg))
            && ParseStep(s, cfg).0.frame == s.frame
  {
    CachedIsFramed(Run(Fresh(f), ops), cfg);
  }

  /** A parse is refused exactly for limits above sixteen headers or 1024 bytes,
      before the cache is touched. */
  lemma ParseAccepted(s: PacketState, cfg: ParserConfig)
    requires Good(s)
    ensures ParseStep(s, cfg).1.Ok? <==> cfg.maxHeaders <= 16 && cfg.maxBytes <= 1024
    ensures ParseStep(s, cfg).1.Err? ==> ParseStep(s, cfg) == (s, Err(InvalidParserLimit))
  {
    hide Parse, Good;
  }

  // ---- Failed edits ------------------------------------------------------------------------

  predicate Mutates(op: Op) { op.DoEdit? || op.DoResize? || op.DoRaw? }

  /** A refused edit, resize or raw write leaves the bytes and layout and marks the journal failed. */
  lemma RefusedEditKeepsBytes(s: PacketState, op: Op)
    requires Good(s) && Mutates(op) && Step(s, op).1.Err?
    ensures Step(s, op).0.frame == s.frame
    ensures Step(s, op).0.journal == Fail(s).journal
    ensures OutputCheck(Step(s, op).0) == Err(InvalidMutation)
  {
    hide Parse, TargetOf;
    if op.DoEdit? { CachedIsFramed(s, DEFAULT_CONFIG); }
  }

  /** How a mutation moves the journal: failure is recorded and stays, success awaits finalization. */
  ghost predicate Moved(before: Journal, after: Journal, ok: bool) {
    && (before.editFailed ==> after.editFailed) && (!ok ==> after.editFailed)
    && (ok ==> after.editFailed == before.editFailed && !after.finalized && after.NeedsFinalize())
  }

  lemma WriteJournal(s: PacketState, inject: bool, off: nat, data: seq<Byte>, dirty: Layers, sums: Sums)
    requires |s.frame.writable| == |s.frame.bytes| && dirty.Any()
    ensures var r := CheckedWrite(s, inject, off, data, dirty, sums); Moved(s.journal, r.0.journal, r.1.Ok?)
  {
    hide WriteCheck;
  }

  lemma EditJournal(s: PacketState, e: FieldEdit, inject: bool)
    requires Good(s)
    ensures var r := EditStep(s, e, inject); Moved(s.journal, r.0.journal, r.1.Ok?)
  {
    CachedIsFramed(s, DEFAULT_CONFIG);
    var c := Cached(s, DEFAULT_CONFIG);
    if Expected(c.cache, e).Ok? {
      var t := TargetOf(c.frame.bytes, c.cache, e);
      WriteJournal(c, inject, t.offset, t.data, t.dirty, t.sums);
    }
    hide CheckedWrite, Parse, Framed, Expected;
  }

  lemma RawJournal(s: PacketState, off: nat, len: nat, data: seq<Byte>, inv: Layers, full: bool, inject: bool)
    requires Good(s)
    ensures var r := RawStep(s, off, len, data, inv, full, inject); Moved(s.journal, r.0.journal, r.1.Ok?)
  {
    var dirty := if full then Layers(true, true, true) else inv;
    if dirty.Any() { WriteJournal(s, inject, off, data, dirty, Sums(dirty.l3, dirty.l3 || dirty.l4, dirty.l3)); }
    hide CheckedWrite, Good;
  }

  lemma ResizeJournal(s: PacketState, op: ResizeOp, inject: bool)
    ensures var r := ResizeStep(s, op, inject); Moved(s.journal, r.0.journal, r.1.Ok?)
  {
    hide Parse, ResizedFrame;
  }

  /** A finalization fails for good or leaves a finalized journal. */
  lemma FinalizeJournal(s: PacketState)
    requires Good(s)
    ensures var r := FinalizeStep(s);
            && (s.journal.editFailed ==> r.1.Err?)
            && (r.1.Err? ==> r.0.journal.editFailed)
            && (r.1.Ok? ==> r.0.journal.finalized && !r.0.journal.editFailed)
  {
    hide Parse, PlanOf, ApplyWrites, ReparseCheck, FrameValid, Coherent, Framed;
  }

  /** What any operation does to the journal. */
  lemma StepJournal(s: PacketState, op: Op)
    requires Good(s)
    ensures var r := Step(s, op);
            && (s.journal.editFailed ==> r.0.journal.editFailed)
            && (Mutates(op) ==> Moved(s.journal, r.0.journal, r.1.Ok?))
            && (op.DoFinalize? ==> r.0.journal.editFailed == r.1.Err? && (r.1.Ok? ==> r.0.journal.finalized))
            && (op.DoParse? ==> r.0.journal == s.journal)
  {
    hide EditStep, ResizeStep, RawStep, FinalizeStep, Good, Parse;
    match op
    case DoParse(_) =>
    case DoEdit(e, inject) => EditJournal(s, e, inject);
    case DoResize(r, inject) => ResizeJournal(s, r, inject);
    case DoRaw(off, len, data, inv, full, inject) => RawJournal(s, off, len, data, inv, full, inject);
    case DoFinalize => FinalizeJournal(s);
  }

  lemma {:induction false} FailureStaysRefused(s: PacketState, ops: seq<Op>)
    requires Good(s) && s.journal.editFailed
    ensures Run(s, ops).journal.editFailed && OutputCheck(Run(s, ops)) == Err(InvalidMutation)
    decreases |ops|
  {
    if ops != [] {
      FailureStaysRefused(s, ops[..|ops| - 1]);
      StepJournal(Run(s, ops[..|ops| - 1]), ops[|ops| - 1]);
    }
  }

  // ---- The output gate ------------------------------------------------------------------------

  predicate Counts(op: Op) { Mutates(op) || op.DoFinalize? }

  ghost predicate AllSucceed(s: PacketState, ops: seq<Op>)
    requires Good(s)
  {
    forall i :: 0 <= i < |ops| && Counts(ops[i]) ==> OutcomeAt(s, ops, i).Ok?
  }

  /** Every mutation is followed by a finalization. */
  ghost predicate Settled(ops: seq<Op>) {
    forall i :: 0 <= i < |ops| && Mutates(ops[i]) ==> exists j :: i < j < |ops| && ops[j].DoFinalize?
  }

  lemma SettledStep(ops: seq<Op>)
    requires ops != []
    ensures var init, last := ops[..|ops| - 1], ops[|ops| - 1];
            Settled(ops) <==> last.DoFinalize? || (!Mutates(last) && Settled(init))
  {
    var init, last := ops[..|ops| - 1], ops[|ops| - 1];
    if Settled(ops) && !last.DoFinalize? {
      forall i | 0 <= i < |init| && Mutates(init[i]) ensures exists j :: i < j < |init| && init[j].DoFinalize? {
        assert ops[i] == init[i];
        var j :| i < j < |ops| && ops[j].DoFinalize?;
        assert init[j] == ops[j];
      }
    }
    if last.DoFinalize? {
      forall i | 0 <= i < |ops| && Mutates(ops[i]) ensures exists j :: i < j < |ops| && ops[j].DoFinalize? {
        assert ops[|ops| - 1].DoFinalize?;
      }
    } else if !Mutates(last) && Settled(init) {
      forall i | 0 <= i < |ops| && Mutates(ops[i]) ensures exists j :: i < j < |ops| && ops[j].DoFinalize? {
        assert init[i] == ops[i];
        var j :| i < j < |init| && init[j].DoFinalize?;
        assert ops[j] == init[j];
      }
    }
  }

  lemma OutcomeOfPrefix(s: PacketState, ops: seq<Op>, i: nat)
    requires Good(s) && i + 1 < |ops|
    ensures OutcomeAt(s, ops[..|ops| - 1], i) == OutcomeAt(s, ops, i)
  {
    hide Step, Good, Run;
    assert ops[..|ops| - 1][..i] == ops[..i];
  }

  lemma AllSucceedStep(s: PacketState, ops: seq<Op>)
    requires Good(s) && ops != []
    ensures var init, last := ops[..|ops| - 1], ops[|ops| - 1];
            AllSucceed(s, ops) <==> AllSucceed(s, init) && (Counts(last) ==> OutcomeAt(s, ops, |ops| - 1).Ok?)
  {
    hide Step, Good, Run, OutcomeAt, Counts;
    var init, last := ops[..|ops| - 1], ops[|ops| - 1];
    forall i: nat | i < |init| ensures OutcomeAt(s, init, i) == OutcomeAt(s, ops, i) && init[i] == ops[i] {
      OutcomeOfPrefix(s, ops, i);
    }
    if AllSucceed(s, init) && (Counts(last) ==> OutcomeAt(s, ops, |ops| - 1).Ok?) {
      forall i: nat | i < |ops| && Counts(ops[i]) ensures OutcomeAt(s, ops, i).Ok? {
        if i < |init| { assert Counts(init[i]); }
      }
    }
  }

  lemma {:induction false} JournalTellsRun(f: Frame, ops: seq<Op>)
    requires FrameValid(f)
    ensures Good(Fresh(f))
    ensures var j := Run(Fresh(f), ops).journal;
            && (!j.editFailed <==> AllSucceed(Fresh(f), ops))
            && (!j.editFailed ==> (j.finalized <==> Settled(ops)) && (!j.finalized ==> j.NeedsFinalize()))
    decreases |ops|
  {
    FreshIsGood(f);
    var s := Fresh(f);
    if ops != [] {
      var init, last := ops[..|ops| - 1], ops[|ops| - 1];
      JournalTellsRun(f, init);
      AllSucceedStep(s, ops);
      SettledStep(ops);
      var t := Run(s, init);
      StepJournal(t, last);
    }
  }

  /** The output gate, exactly: over any run from `begin`, a packet is refused
      as mutated wrongly or unfinalized unless every edit, resize, raw write
      and finalization succeeded and every mutation was followed by a
      finalization; and then only an IPv6 UDP zero checksum can refuse it. */
  lemma OutputGateExact(f: Frame, ops: seq<Op>)
    requires FrameValid(f)
    ensures Good(Fresh(f))
    ensures var s := Run(Fresh(f), ops);
            var p := Parse(s.frame.bytes, DEFAULT_CONFIG);
            OutputCheck(s).Ok? <==>
              && AllSucceed(Fresh(f), ops) && Settled(ops)
              && !(p.networkProtocol == Ipv6 && p.transportProtocol == Udp && p.udp.checksum == 0)
  {
    JournalTellsRun(f, ops);
    ParseIsFramed(Run(Fresh(f), ops).frame.bytes, DEFAULT_CONFIG);
  }

  // ---- Resize conservation ------------------------------------------------------------------------

  /** Lengths, room and deltas account for each other. */
  ghost predicate Conserved(f: Frame, s: PacketState) {
    var j := s.journal;
    && |s.frame.bytes| == |f.bytes| + j.signedDelta
    && (f.room.Linear? <==> s.frame.room.Linear?) && (!f.room.Linear? ==> s.frame.room == f.room)
    && (f.room.Linear? ==>
          var r, q := f.room, s.frame.room;
          && q.headroom + |s.frame.bytes| + q.tailroom == r.headroom + |f.bytes| + r.tailroom
          && q.headroom == r.headroom - (j.signedDelta - j.tailDelta)
          && q.tailroom == r.tailroom - j.tailDelta
          && q.resize == r.resize && q.sameLength == r.sameLength)
  }

  lemma WriteConserves(f: Frame, s: PacketState, inject: bool, off: nat, data: seq<Byte>, dirty: Layers, sums: Sums)
    requires |s.frame.writable| == |s.frame.bytes| && Conserved(f, s)
    ensures Conserved(f, CheckedWrite(s, inject, off, data, dirty, sums).0)
  {
  }

  lemma EditConserves(f: Frame, s: PacketState, e: FieldEdit, inject: bool)
    requires Good(s) && Conserved(f, s)
    ensures Conserved(f, EditStep(s, e, inject).0)
  {
    CachedIsFramed(s, DEFAULT_CONFIG);
    var c := Cached(s, DEFAULT_CONFIG);
    hide Parse, TargetOf, CheckedWrite;
    if Expected(c.cache, e).Ok? {
      var t := TargetOf(c.frame.bytes, c.cache, e);
      WriteConserves(f, c, inject, t.offset, t.data, t.dirty, t.sums);
    }
  }

  lemma RawConserves(f: Frame, s: PacketState, off: nat, len: nat, data: seq<Byte>, inv: Layers, full: bool,
                     inject: bool)
    requires Good(s) && Conserved(f, s)
    ensures Conserved(f, RawStep(s, off, len, data, inv, full, inject).0)
  {
    hide CheckedWrite;
    var dirty := if full then Layers(true, true, true) else inv;
    WriteConserves(f, s, inject, off, data, dirty, Sums(dirty.l3, dirty.l3 || dirty.l4, dirty.l3));
  }

  lemma ResizeConserves(f: Frame, s: PacketState, op: ResizeOp, inject: bool)
    requires Good(s) && Conserved(f, s)
    ensures Conserved(f, ResizeStep(s, op, inject).0)
  {
    hide Parse;
  }

  lemma StepConserves(f: Frame, s: PacketState, op: Op)
    requires Good(s) && Conserved(f, s)
    ensures Conserved(f, Step(s, op).0)
  {
    match op
    case DoParse(_) =>
    case DoEdit(e, inject) => EditConserves(f, s, e, inject);
    case DoResize(r, inject) => ResizeConserves(f, s, r, inject);
    case DoRaw(off, len, data, inv, full, inject) => RawConserves(f, s, off, len, data, inv, full, inject);
    case DoFinalize => FinalizeConserves(f, s);
  }

  lemma FinalizeConserves(f: Frame, s: PacketState)
    requires Good(s) && Conserved(f, s)
    ensures Conserved(f, FinalizeStep(s).0)
  {
    hide Parse, PlanOf, Good, ReparseCheck;
  }

  /** Over any run, storage is partitioned into headroom, packet and tailroom;
      the signed delta is the length change and the tail delta its tail share. */
  lemma {:induction false} RunConserves(f: Frame, ops: seq<Op>)
    requires FrameValid(f)
    ensures Good(Fresh(f)) && Conserved(f, Run(Fresh(f), ops))
    decreases |ops|
  {
    FreshIsGood(f);
    if ops != [] {
      RunConserves(f, ops[..|ops| - 1]);
      StepConserves(f, Run(Fresh(f), ops[..|ops| - 1]), ops[|ops| - 1]);
    }
  }

  /** The resize that takes back another one, given the bytes it acted on. */
  function Undo(op: ResizeOp, b: seq<Byte>): ResizeOp
    requires !op.Grows() ==> op.count <= |b|
  {
    match op
    case Prepend(data) => TrimHead(|data|)
    case Append(data) => TrimTail(|data|)
    case TrimHead(n) => Prepend(b[..n])
    case TrimTail(n) => Append(b[|b| - n..])
  }

  /** Each resize is undone by its opposite: it is accepted, and bytes, room,
      write permissions and deltas are exactly as before. */
  lemma ResizeUndone(s: PacketState, op: ResizeOp)
    requires Good(s) && ResizeStep(s, op, false).1.Ok?
    ensures !op.Grows() ==> op.count <= |s.frame.bytes|
    ensures var t := ResizeStep(s, op, false).0;
            var r := ResizeStep(t, Undo(op, s.frame.bytes), false);
            && r.1.Ok? && r.0.frame == s.frame
            && r.0.journal.signedDelta == s.journal.signedDelta && r.0.journal.tailDelta == s.journal.tailDelta
  {
    hide Parse, Framed, Coherent, ResizedFrame;
    var t := ResizeStep(s, op, false).0;
    var u := Undo(op, s.frame.bytes);
    FrameUndone(s.frame, op, u);
    assert ResizeCheck(t, u, false).Ok?;
  }

  lemma FrameUndone(f: Frame, op: ResizeOp, u: ResizeOp)
    requires FrameValid(f) && f.room.Linear? && (!op.Grows() ==> op.count <= |f.bytes|) && u == Undo(op, f.bytes)
    requires (op.Prepend? ==> |op.data| <= f.room.headroom) && (op.Append? ==> |op.data| <= f.room.tailroom)
    ensures var g := ResizedFrame(f, op);
            && g.room.Linear? && |g.bytes| == |f.bytes| + op.Delta() && (!u.Grows() ==> u.count <= |g.bytes|)
            && g.room.sameLength == f.room.sameLength && g.room.resize == f.room.resize
            && (u.Prepend? ==> |u.data| <= g.room.headroom) && (u.Append? ==> |u.data| <= g.room.tailroom)
            && ResizedFrame(g, u) == f
  {
    var g := ResizedFrame(f, op);
    assert ResizedFrame(g, u).bytes == f.bytes;
  }
}
