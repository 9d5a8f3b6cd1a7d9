/** Finalization over packet storage: everything fallible first, then up to four
    header words written in place, a reparse, and rollback if it is refused. */
module Finalizing {
  import opened Prelude
  import opened Parsing
  import opened ParsingFacts
  import opened Checksum
  import opened Extents
  import opened PacketMachine
  import opened HeaderWrites
  import opened PacketRuns
  import opened Storage
  import opened SlotParser
  import opened SlotChecksum
  import opened PacketEditing

  datatype PendingHeaderWrite = PendingHeaderWrite(offset: nat, before: U16, after: U16)

  function Afters(pending: seq<PendingHeaderWrite>): (ws: seq<HeaderWrite>)
    ensures |ws| == |pending| && forall i :: 0 <= i < |ws| ==> ws[i] == HeaderWrite(pending[i].offset, pending[i].after)
  {
    seq(|pending|, i requires 0 <= i < |pending| => HeaderWrite(pending[i].offset, pending[i].after))
  }

  function Befores(pending: seq<PendingHeaderWrite>): (ws: seq<HeaderWrite>)
    ensures |ws| == |pending| && forall i :: 0 <= i < |ws| ==>
              ws[i] == HeaderWrite(pending[i].offset, pending[i].before)
  {
    seq(|pending|, i requires 0 <= i < |pending| => HeaderWrite(pending[i].offset, pending[i].before))
  }

  // ---- Preparing ------------------------------------------------------------------

  lemma {:induction false} RefusalSplits(f: Frame, a: seq<HeaderWrite>, b: seq<HeaderWrite>)
    requires |f.writable| == |f.bytes|
    ensures FirstRefusal(f, a + b) == if FirstRefusal(f, a).Err? then FirstRefusal(f, a) else FirstRefusal(f, b)
  {
    if a == [] {
      assert a + b == b;
    } else {
      RefusalSplits(f, a[1..], b);
      assert (a + b)[1..] == a[1..] + b;
    }
  }

  ghost function Pend(b: seq<Byte>, w: HeaderWrite): PendingHeaderWrite
    requires w.offset + 2 <= |b|
  {
    PendingHeaderWrite(w.offset, Word(b, w.offset), w.value)
  }

  /** Up to the pending word `i` nothing is refused and the old words are known. */
  ghost predicate Prepared(f: Frame, todo: seq<HeaderWrite>, i: nat, pending: seq<PendingHeaderWrite>) {
    && |f.writable| == |f.bytes| && i == |pending| <= |todo| && FirstRefusal(f, todo[..i]).Ok?
    && Within(todo[..i], 0, |f.bytes|)
    && Afters(pending) == todo[..i] && Befores(pending) == Before(f.bytes, todo[..i])
  }

  lemma PreparedStep(f: Frame, todo: seq<HeaderWrite>, i: nat, pending: seq<PendingHeaderWrite>)
    requires i < |todo| && Prepared(f, todo, i, pending)
    ensures WriteCheck(f, todo[i].offset, 2).Err? ==> FirstRefusal(f, todo) == WriteCheck(f, todo[i].offset, 2)
    ensures WriteCheck(f, todo[i].offset, 2).Ok? ==> todo[i].offset + 2 <= |f.bytes|
    ensures WriteCheck(f, todo[i].offset, 2).Ok? ==> Prepared(f, todo, i + 1, pending + [Pend(f.bytes, todo[i])])
  {
    assert todo == todo[..i] + todo[i..];
    RefusalSplits(f, todo[..i], todo[i..]);
    assert todo[..i + 1] == todo[..i] + [todo[i]];
    RefusalSplits(f, todo[..i], [todo[i]]);
    assert [todo[i]][1..] == [];
  }

  /** Validates each destination and remembers the word it holds. */
  method PrepareHeaderWrites(slot: Slot, ghost flat: seq<Byte>, todo: seq<HeaderWrite>)
    returns (r: Result<seq<PendingHeaderWrite>, PacketError>)
    requires slot.Valid() && FrameValid(slot.FrameOf()) && slot.Flat() == flat
    ensures slot.Flat() == flat && FrameBytesAre(slot, flat)
    ensures r.Err? <==> FirstRefusal(slot.FrameOf(), todo).Err?
    ensures r.Err? ==> FirstRefusal(slot.FrameOf(), todo) == Err(r.error)
    ensures r.Ok? ==> Within(todo, 0, |flat|) && Afters(r.value) == todo && Befores(r.value) == Before(flat, todo)
  {
    FrameBytes(slot);
    ghost var frame := slot.FrameOf();
    hide Slot.Valid, Slot.FrameOf, Slot.Flat, FirstRefusal, Within, Before, Prepared, FrameWith, Afters, Befores;
    var pending: seq<PendingHeaderWrite> := [];
    PreparedNone(frame, todo);
    for i := 0 to |todo|
      invariant slot.Flat() == flat && Prepared(frame, todo, i, pending)
    {
      PreparedStep(frame, todo, i, pending);
      FrameBytes(slot);
      var check := ValidateAt(slot, flat, todo[i].offset);
      FrameBytes(slot);
      if check.Err? { return Err(check.error); }
      var before := WordAt(slot, flat, todo[i].offset);
      pending := pending + [PendingHeaderWrite(todo[i].offset, before, todo[i].value)];
    }
    FrameBytes(slot);
    PreparedAll(frame, todo, pending);
    r := Ok(pending);
  }

  ghost predicate FrameBytesAre(slot: Slot, flat: seq<Byte>)
    requires slot.Valid()
    reads slot.Arrays()
  {
    FrameValid(slot.FrameOf()) && slot.FrameOf().bytes == flat
  }

  method ValidateAt(slot: Slot, ghost flat: seq<Byte>, offset: nat) returns (r: Outcome)
    requires slot.Valid() && FrameValid(slot.FrameOf()) && slot.Flat() == flat
    ensures slot.Flat() == flat && r == WriteCheck(FrameWith(slot, flat), offset, 2)
  {
    hide AllWritable, Pieces.Concat;
    hide Slot.Valid, Slot.Masks, Slot.RoomOf, Segment.Window;
    r := ValidateWritable(slot, offset, 2);
    assert slot.Windows() == old(slot.Windows());
  }

  lemma PreparedNone(f: Frame, todo: seq<HeaderWrite>)
    requires |f.writable| == |f.bytes|
    ensures Prepared(f, todo, 0, [])
  {
  }

  lemma PreparedAll(f: Frame, todo: seq<HeaderWrite>, pending: seq<PendingHeaderWrite>)
    requires Prepared(f, todo, |todo|, pending)
    ensures FirstRefusal(f, todo).Ok? && Within(todo, 0, |f.bytes|)
    ensures Afters(pending) == todo && Befores(pending) == Before(f.bytes, todo)
  {
    assert todo[..|todo|] == todo;
  }

  /** The words a plan writes, or the refusal met while computing them. */
  ghost function Built(b: seq<Byte>, p: ParsedPacket, d: ProtocolExtents, e: ProtocolExtents, mustHeader: bool,
                       mustTransport: bool)
    : Result<seq<HeaderWrite>, PacketError>
    requires e.networkLen <= 65535 && e.transportLen <= 65535 && p.networkProtocol != NoNetwork
  {
    if mustHeader && HeaderSum(b, p, e).None? then Err(InvalidPacket)
    else if mustTransport && TransportSum(b, p, e.transportOffset, e.transportLen).None? then Err(InvalidPacket)
    else if p.networkProtocol == Ipv6 && e.networkLen < 40 then
      if e.networkLen != d.networkLen then Err(InvalidPacket)
      else Ok(UdpWrite(p, d, e) + HeaderSumWrite(b, mustHeader, p, e) + TransportSumWrite(b, mustTransport, p, e))
    else Ok(NetworkWrite(p, d, e) + UdpWrite(p, d, e)
            + HeaderSumWrite(b, mustHeader, p, e) + TransportSumWrite(b, mustTransport, p, e))
  }

  method BuildWrites(slot: Slot, ghost flat: seq<Byte>, p: ParsedPacket, d: ProtocolExtents, e: ProtocolExtents,
                     mustHeader: bool, mustTransport: bool)
    returns (r: Result<seq<HeaderWrite>, PacketError>)
    requires slot.Valid() && slot.Flat() == flat
    requires e.networkLen <= 65535 && e.transportLen <= 65535 && p.networkProtocol != NoNetwork
    requires mustHeader ==> p.ipv4.headerLen <= 65535
    ensures slot.Flat() == flat && r == Built(flat, p, d, e, mustHeader, mustTransport)
  {
    hide Slot.Valid, Slot.Flat, RangeSum, TransportSum, Canon, StoredChecksum;
    var headerChecksum: U16, transportChecksum: U16 := 0, 0;
    if mustHeader {
      var sum := ChecksumRange(slot, flat, e.networkOffset, p.ipv4.headerLen, Some(e.networkOffset + 10),
                               Some(e.networkOffset + 2), e.networkLen);
      if sum.Err? { return Err(InvalidPacket); }
      headerChecksum := Fold(slot, flat, sum.value);
    }
    if mustTransport {
      var sum := TransportChecksum(slot, flat, p, e.transportOffset, e.transportLen);
      if sum.Err? { return Err(InvalidPacket); }
      transportChecksum := sum.value;
    }
    var todo: seq<HeaderWrite> := [];
    if e.networkLen != d.networkLen {
      if p.networkProtocol == Ipv4 {
        todo := [HeaderWrite(e.networkOffset + 2, e.networkLen)];
      } else {
        if e.networkLen < 40 { return Err(InvalidPacket); }
        todo := [HeaderWrite(e.networkOffset + 4, e.networkLen - 40)];
      }
    }
    ghost var n := todo;
    if p.transportProtocol == Udp && e.transportLen != d.transportLen {
      todo := todo + [HeaderWrite(e.transportOffset + 4, e.transportLen)];
    }
    assert todo == n + UdpWrite(p, d, e);
    if mustHeader { todo := todo + [HeaderWrite(e.networkOffset + 10, headerChecksum)]; }
    assert todo == n + UdpWrite(p, d, e) + HeaderSumWrite(flat, mustHeader, p, e);
    if mustTransport { todo := todo + [HeaderWrite(ChecksumOffset(p, e.transportOffset), transportChecksum)]; }
    assert todo == n + UdpWrite(p, d, e) + HeaderSumWrite(flat, mustHeader, p, e)
           + TransportSumWrite(flat, mustTransport, p, e);
    assert [] + UdpWrite(p, d, e) == UdpWrite(p, d, e);
    r := Ok(todo);
  }

  method Fold(slot: Slot, ghost flat: seq<Byte>, sum: nat) returns (c: U16)
    requires slot.Valid() && slot.Flat() == flat && sum <= U64_MAX
    ensures slot.Flat() == flat && c == 65535 - Canon(sum)
  {
    hide Canon, Pieces.Concat, TotalLen;
    ghost var ps := slot.Windows();
    c := FoldChecksum(sum);
    assert slot.Windows() == ps;
  }

  lemma PlanUnfolds(s: PacketState, d: ProtocolExtents, e: ProtocolExtents)
    requires Good(s) && DeclaredExtents(BaseParsed(s), BaseLen(s)) == Ok(d) && CurrentExtents(s, d) == Ok(e)
    requires e.networkLen <= 65535 && e.transportLen <= 65535
    requires !(s.journal.sums.transport && BaseParsed(s).incompleteFragment)
    requires HasTransport(BaseParsed(s)) || !s.journal.sums.transport
    ensures var p, b := BaseParsed(s), s.frame.bytes;
            var mustHeader, mustTransport := MustHeader(s.journal, p, d, e), MustTransport(s.journal, p, d, e);
            && p.networkProtocol != NoNetwork && (mustHeader ==> p.ipv4.headerLen <= 65535)
            && var built := Built(b, p, d, e, mustHeader, mustTransport);
               if built.Err? then PlanOf(s) == Err(built.error)
               else if FirstRefusal(s.frame, built.value).Err?
                 then PlanOf(s) == Err(FirstRefusal(s.frame, built.value).error)
               else PlanOf(s).Ok? && PlanOf(s).value.writes == built.value
  {
    ExtentsAreNested(s, d);
    hide Good, DeclaredExtents, CurrentExtents, BaseParsed, BaseLen, HeaderSum, TransportSum, FirstRefusal, Framed;
  }

  /** Everything fallible: extents, checksums, destinations and rollback words. */
  method PreparePlan(slot: Slot, journal: Journal, p: ParsedPacket, baseLen: nat, ghost s: PacketState)
    returns (r: Result<seq<PendingHeaderWrite>, PacketError>)
    requires slot.Valid() && s.frame == slot.FrameOf() && Good(s) && s.journal == journal
    requires p == BaseParsed(s) && baseLen == BaseLen(s)
    ensures slot.FrameOf() == s.frame && (r.Err? <==> PlanOf(s).Err?)
    ensures r.Err? ==> PlanOf(s) == Err(r.error)
    ensures r.Ok? ==> var ws := PlanOf(s).value.writes;
              Within(ws, 0, |s.frame.bytes|) && Afters(r.value) == ws && Befores(r.value) == Before(s.frame.bytes, ws)
  {
    FrameBytes(slot);
    FlatLength(slot);
    ghost var flat := slot.Flat();
    hide Slot.Valid, Slot.Flat, Slot.FrameOf, Good, DeclaredExtents, TailResizedExtents, BaseParsed, BaseLen, Built;
    hide FirstRefusal, Within, Before, FrameWith, Afters, Befores, FrameValid, HeaderSum, TransportSum;
    if journal.sums.transport && p.incompleteFragment { return Err(IncompleteFragment); }
    var declared := DeclaredExtents(p, baseLen);
    if declared.Err? { return Err(declared.error); }
    var d := declared.value;
    var extents: Result<ProtocolExtents, PacketError> := Ok(d);
    if journal.tailDelta != 0 {
      extents := TailResizedExtents(d, baseLen, slot.totalLen, journal.tailDelta, p.transportProtocol);
      if extents.Err? { return Err(extents.error); }
    }
    var e := extents.value;
    if e.networkLen > 65535 { return Err(PacketTooLarge); }
    if HasTransport(p) {
      if e.transportLen > 65535 { return Err(PacketTooLarge); }
    } else if journal.sums.transport {
      return Err(InvalidPacket);
    }
    var mustHeader, mustTransport := MustHeader(journal, p, d, e), MustTransport(journal, p, d, e);
    PlanUnfolds(s, d, e);
    var todo := BuildWrites(slot, flat, p, d, e, mustHeader, mustTransport);
    if todo.Err? { return Err(todo.error); }
    FrameBytes(slot);
    r := PrepareHeaderWrites(slot, flat, todo.value);
    FrameBytes(slot);
  }

  // ---- Writing and rolling back ---------------------------------------------------

  lemma ApplyStep(b: seq<Byte>, ws: seq<HeaderWrite>, i: nat)
    requires i < |ws| && ws[i].offset + 2 <= |b|
    ensures ApplyWrites(b, ws[..i + 1]) == Splice(ApplyWrites(b, ws[..i]), ws[i].offset, WordBytes(ws[i].value))
  {
    assert ws[..i + 1][..i] == ws[..i];
  }

  lemma ApplyEnds(b: seq<Byte>, ws: seq<HeaderWrite>)
    ensures ApplyWrites(b, ws[..0]) == b && ApplyWrites(b, ws[..|ws|]) == ApplyWrites(b, ws)
  {
    assert ws[..|ws|] == ws;
  }

  /** One unchecked word, seen on the flat frame. */
  method WriteWord(slot: Slot, ghost f: Frame, offset: nat, value: U16)
    requires slot.Valid() && slot.FrameOf() == f && FrameValid(f) && WriteCheck(f, offset, 2).Ok?
    modifies slot.MutableArrays()
    ensures offset + 2 <= |f.bytes| && slot.FrameOf() == f.(bytes := Splice(f.bytes, offset, WordBytes(value)))
  {
    FrameBytes(slot);
    hide Slot.Valid, Slot.FrameOf, Slot.Flat, AllWritable;
    WriteSlot(slot, offset, WordBytes(value));
    FrameBytes(slot);
  }

  lemma SameCheck(f: Frame, bytes: seq<Byte>, offset: nat)
    requires FrameValid(f) && |bytes| == |f.bytes|
    ensures FrameValid(f.(bytes := bytes)) && WriteCheck(f.(bytes := bytes), offset, 2) == WriteCheck(f, offset, 2)
  {
  }

  method WriteAll(slot: Slot, ghost f: Frame, ws: seq<HeaderWrite>)
    requires slot.Valid() && slot.FrameOf() == f && FrameValid(f)
    requires forall i :: 0 <= i < |ws| ==> WriteCheck(f, ws[i].offset, 2).Ok?
    modifies slot.MutableArrays()
    ensures slot.FrameOf() == f.(bytes := ApplyWrites(f.bytes, ws))
  {
    hide Slot.Valid, Slot.FrameOf, Slot.Flat, AllWritable, FrameValid, ApplyWrites;
    ApplyEnds(f.bytes, ws);
    for i := 0 to |ws|
      invariant slot.FrameOf() == f.(bytes := ApplyWrites(f.bytes, ws[..i]))
    {
      ApplyStep(f.bytes, ws, i);
      SameCheck(f, ApplyWrites(f.bytes, ws[..i]), ws[i].offset);
      WriteWord(slot, f.(bytes := ApplyWrites(f.bytes, ws[..i])), ws[i].offset, ws[i].value);
    }
  }

  /** Restores the remembered words; they overlap nothing, so list order is right. */
  method Rollback(c: EditorContext, ghost f: Frame, pending: seq<PendingHeaderWrite>, ghost ws: seq<HeaderWrite>)
    requires c.slot.Valid() && FrameValid(f) && Disjoint(ws) && Within(ws, 0, |f.bytes|)
    requires forall i :: 0 <= i < |ws| ==> WriteCheck(f, ws[i].offset, 2).Ok?
    requires Befores(pending) == Before(f.bytes, ws) && c.slot.FrameOf() == f.(bytes := ApplyWrites(f.bytes, ws))
    modifies c`journal, c`cache, c.slot.MutableArrays()
    ensures c.Model() == Fail(old(c.Model()).(frame := f, cache := BLANK))
  {
    RollbackRestores(f.bytes, ws);
    RestoreChecks(f, ApplyWrites(f.bytes, ws), ws, Befores(pending));
    hide Slot.Valid, Slot.FrameOf, Slot.Flat, AllWritable, FrameValid, ApplyWrites, Disjoint, Within, Before;
    assert c !in c.slot.Arrays();
    WriteAll(c.slot, f.(bytes := ApplyWrites(f.bytes, ws)), Befores(pending));
    c.cache := BLANK;
    assert c.slot.FrameOf() == f;
    c.MarkFailure();
  }

  method WriteAndReparse(c: EditorContext, pending: seq<PendingHeaderWrite>, ghost ws: seq<HeaderWrite>)
    requires c.slot.Valid() && FrameValid(c.slot.FrameOf()) && Afters(pending) == ws
    requires forall i :: 0 <= i < |ws| ==> WriteCheck(c.slot.FrameOf(), ws[i].offset, 2).Ok?
    modifies c`cache, c.slot.MutableArrays()
    ensures c.Model() == Written(old(c.Model()), ws)
  {
    hide Slot.Valid, Slot.FrameOf, Slot.Flat, AllWritable, FrameValid, ApplyWrites, Parse, Afters;
    assert c !in c.slot.Arrays();
    WriteAll(c.slot, c.slot.FrameOf(), Afters(pending));
    c.cache := BLANK;
    c.EnsureParsed(DEFAULT_CONFIG);
  }

  /** The transaction: write, reparse, and on refusal put every word back. */
  method CommitWrites(c: EditorContext, p: ParsedPacket, pending: seq<PendingHeaderWrite>, ghost ws: seq<HeaderWrite>)
    returns (r: Outcome)
    requires c.slot.Valid() && FrameValid(c.slot.FrameOf())
    requires Disjoint(ws) && Within(ws, 0, |c.slot.FrameOf().bytes|)
    requires forall i :: 0 <= i < |ws| ==> WriteCheck(c.slot.FrameOf(), ws[i].offset, 2).Ok?
    requires Afters(pending) == ws && Befores(pending) == Before(c.slot.FrameOf().bytes, ws)
    modifies c`journal, c`cache, c.slot.MutableArrays()
    ensures (c.Model(), r) == AfterCommit(old(c.Model()), p, ws)
  {
    ghost var f := c.slot.FrameOf();
    hide Slot.Valid, Slot.FrameOf, Slot.Flat, AllWritable, FrameValid, ApplyWrites, Parse, ReparseCheck, Disjoint,
      Within, Before, Befores, Afters, WriteCheck;
    assert c !in c.slot.Arrays();
    WriteAndReparse(c, pending, ws);
    r := ReparseCheck(p, c.cache);
    if r.Err? {
      Rollback(c, f, pending, ws);
    } else {
      c.journal := c.journal.(finalized := true, invalid := false);
    }
  }

  lemma RestoreChecks(f: Frame, bytes: seq<Byte>, ws: seq<HeaderWrite>, us: seq<HeaderWrite>)
    requires FrameValid(f) && |bytes| == |f.bytes| && Within(ws, 0, |f.bytes|) && us == Before(f.bytes, ws)
    requires forall i :: 0 <= i < |ws| ==> WriteCheck(f, ws[i].offset, 2).Ok?
    ensures FrameValid(f.(bytes := bytes))
    ensures forall i :: 0 <= i < |us| ==> WriteCheck(f.(bytes := bytes), us[i].offset, 2).Ok?
  {
    forall i | 0 <= i < |us| ensures WriteCheck(f.(bytes := bytes), us[i].offset, 2).Ok? {
      SameCheck(f, bytes, ws[i].offset);
    }
  }

  ghost function Written(s: PacketState, ws: seq<HeaderWrite>): PacketState {
    var bytes := ApplyWrites(s.frame.bytes, ws);
    s.(frame := s.frame.(bytes := bytes), cache := Parse(bytes, DEFAULT_CONFIG))
  }

  /** What the transaction leaves: the written frame and its decode, or the frame it found. */
  ghost function AfterCommit(s: PacketState, p: ParsedPacket, ws: seq<HeaderWrite>): (PacketState, Outcome) {
    var w := Written(s, ws);
    var check := ReparseCheck(p, w.cache);
    (if check.Err? then Fail(s.(cache := BLANK))
     else w.(journal := s.journal.(finalized := true, invalid := false)), check)
  }

  // ---- The whole finalization -------------------------------------------------------

  method FinalizeContext(c: EditorContext) returns (r: Outcome)
    requires c.Valid()
    modifies c`journal, c`cache, c.slot.MutableArrays()
    ensures c.Valid() && (c.Model(), r) == FinalizeStep(old(c.Model()))
  {
    ghost var s := c.Model();
    FinalizeIsGood(s);
    FinalizeGuards(s);
    hide Slot.Valid, Slot.FrameOf, Slot.Flat, Good, FinalizeStep, Concluded, Ready;
    assert c !in c.slot.Arrays();
    if c.journal.invalid || c.journal.editFailed { return Err(InvalidJournal); }
    if !c.journal.NeedsFinalize() {
      c.journal := c.journal.(finalized := true);
      return Ok(());
    }
    if c.journal.tailDelta != 0 && (!c.journal.hasPre || c.journal.tailDelta != c.journal.signedDelta) {
      c.MarkFailure();
      return Err(InvalidPacket);
    }
    r := FinalizeGuarded(c);
  }

  /** What the guards before the plan decide. */
  lemma FinalizeGuards(s: PacketState)
    requires Good(s)
    ensures Good(Ready(s))
    ensures var j := s.journal;
            FinalizeStep(s) ==
            if j.invalid || j.editFailed then (s, Err(InvalidJournal))
            else if !j.NeedsFinalize() then (s.(journal := j.(finalized := true)), Ok(()))
            else if j.tailDelta != 0 && (!j.hasPre || j.tailDelta != j.signedDelta) then (Fail(s), Err(InvalidPacket))
            else Concluded(Ready(s))
  {
    PlanOfReady(s);
    var j := s.journal;
    if !j.invalid && !j.editFailed && j.NeedsFinalize()
      && (j.tailDelta != 0 ==> j.hasPre && j.tailDelta == j.signedDelta) {
      FinalizeUnfolds(s);
    }
    hide Good, PlanOf, Parse, Ready, Concluded, ApplyWrites, ReparseCheck;
  }

  /** The parse to plan from is the snapshot after a tail resize, else the cache. */
  method FinalizeGuarded(c: EditorContext) returns (r: Outcome)
    requires c.Valid()
    modifies c`journal, c`cache, c.slot.MutableArrays()
    ensures Good(Ready(old(c.Model()))) && (c.Model(), r) == Concluded(Ready(old(c.Model())))
  {
    ghost var s := c.Model();
    FinalizeShape(s);
    FrameBytes(c.slot);
    FlatLength(c.slot);
    hide Slot.Valid, Slot.FrameOf, Slot.Flat, Good, PlanOf, Cached, BaseParsed, FrameWith, PlanShape, Concluded;
    assert c !in c.slot.Arrays();
    var parsed, baseLen := c.journal.preParsed, c.journal.preLen;
    if c.journal.tailDelta == 0 {
      c.EnsureParsed(DEFAULT_CONFIG);
      parsed, baseLen := c.cache, c.slot.totalLen;
    }
    r := RunPlan(c, parsed, baseLen);
  }

  /** Plans with every check first, then commits. */
  method RunPlan(c: EditorContext, parsed: ParsedPacket, baseLen: nat) returns (r: Outcome)
    requires c.Valid() && parsed == BaseParsed(c.Model()) && baseLen == BaseLen(c.Model())
    modifies c`journal, c`cache, c.slot.MutableArrays()
    ensures (c.Model(), r) == Concluded(old(c.Model()))
  {
    ghost var t := c.Model();
    if PlanOf(t).Ok? { PlanIsShaped(t); }
    hide Slot.Valid, Slot.FrameOf, Slot.Flat, Good, PlanOf, AfterCommit, BaseParsed, BaseLen;
    assert c !in c.slot.Arrays();
    var plan := PreparePlan(c.slot, c.journal, parsed, baseLen, t);
    if plan.Err? {
      c.MarkFailure();
      return Err(plan.error);
    }
    r := CommitWrites(c, parsed, plan.value, PlanOf(t).value.writes);
  }

  ghost function Concluded(t: PacketState): (PacketState, Outcome)
    requires Good(t)
  {
    match PlanOf(t)
    case Err(e) => (Fail(t), Err(e))
    case Ok(plan) => AfterCommit(t, BaseParsed(t), plan.writes)
  }

  /** The state the plan is made in: the parse is cached unless a snapshot replaces it. */
  ghost function Ready(s: PacketState): PacketState {
    if s.journal.tailDelta != 0 then s else Cached(s, DEFAULT_CONFIG)
  }

  lemma PlanOfReady(s: PacketState)
    requires Good(s)
    ensures Good(Ready(s)) && PlanOf(Ready(s)) == PlanOf(s)
  {
    CachedIsGood(s, DEFAULT_CONFIG);
    CachedIsFramed(s, DEFAULT_CONFIG);
    SamePlan(s, Ready(s));
  }

  /** A plan depends on the frame, the journal and the parse it starts from. */
  lemma SamePlan(s: PacketState, t: PacketState)
    requires Good(s) && Good(t) && s.frame == t.frame && s.journal == t.journal && BaseParsed(s) == BaseParsed(t)
    ensures PlanOf(s) == PlanOf(t)
  {
    hide Good, BaseParsed, DeclaredExtents, TailResizedExtents, HeaderSum, TransportSum, FirstRefusal, Canon,
      StoredChecksum;
  }

  lemma FinalizeShape(s: PacketState)
    requires Good(s)
    ensures var t := Ready(s);
            && Good(t) && t.frame == s.frame && t.journal == s.journal
            && (s.journal.tailDelta != 0 ==> BaseParsed(t) == s.journal.preParsed && BaseLen(t) == s.journal.preLen)
            && (s.journal.tailDelta == 0 ==> BaseParsed(t) == t.cache && BaseLen(t) == |s.frame.bytes|)
            && (PlanOf(t).Ok? ==> PlanShape(t, PlanOf(t).value))
  {
    CachedIsGood(s, DEFAULT_CONFIG);
    CachedIsFramed(s, DEFAULT_CONFIG);
    if PlanOf(Ready(s)).Ok? { PlanIsShaped(Ready(s)); }
  }

  /** A finalization past its guards is the plan of its state, then the transaction. */
  lemma FinalizeUnfolds(s: PacketState)
    requires Good(s) && !s.journal.invalid && !s.journal.editFailed && s.journal.NeedsFinalize()
    requires s.journal.tailDelta != 0 ==> s.journal.hasPre && s.journal.tailDelta == s.journal.signedDelta
    ensures Good(Ready(s))
    ensures FinalizeStep(s) == Concluded(Ready(s))
  {
    PlanOfReady(s);
    FinalizeShape(s);
    hide Good, PlanOf, Parse, ApplyWrites, ReparseCheck, PlanShape, Framed, FrameValid, Coherent;
    var t := Ready(s);
    assert BaseParsed(t) == BaseParsed(s);
  }

  // ---- The output gate ----------------------------------------------------------------

  method ValidateForOutput(c: EditorContext) returns (r: Outcome)
    requires c.Valid()
    ensures r == OutputCheck(c.Model())
  {
    hide Slot.Valid, Slot.Flat, Good, Parse;
    if c.journal.invalid || c.journal.editFailed { return Err(InvalidMutation); }
    if c.journal.NeedsFinalize() && !c.journal.finalized { return Err(UnfinalizedMutation); }
    var parsed := ParseSlot(c.slot, DEFAULT_CONFIG);
    FrameBytes(c.slot);
    if parsed.networkProtocol == Ipv6 && parsed.transportProtocol == Udp && parsed.transportStatus == Present
       && parsed.udp.checksum == 0
    {
      return Err(InvalidIpv6UdpZero);
    }
    r := Ok(());
  }
}
