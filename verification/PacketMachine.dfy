/** One packet of a live batch as a state machine over flat bytes: lazy
    parsing, structured edits, resizing, raw writes and finalization. */
module PacketMachine {
  import opened Prelude
  import opened Parsing
  import opened ParsingFacts
  import opened Checksum
  import opened Extents

  const I32_MAX: int := 0x7fff_ffff
  const I64_MAX: int := 0x7fff_ffff_ffff_ffff

  // ---- State -----------------------------------------------------------------

  /** What the segment layout allows beyond same-length writes. */
  datatype Room =
    | Segmented
    | FixedLinear
    | Linear(sameLength: bool, resize: bool, headroom: nat, tailroom: nat)

  datatype Frame = Frame(bytes: seq<Byte>, writable: seq<bool>, room: Room)

  datatype Layers = Layers(l2: bool, l3: bool, l4: bool) {
    predicate Any() { l2 || l3 || l4 }
    function Or(o: Layers): Layers { Layers(l2 || o.l2, l3 || o.l3, l4 || o.l4) }
  }

  datatype Sums = Sums(ipv4Header: bool, transport: bool, pseudoHeader: bool) {
    function Or(o: Sums): Sums {
      Sums(ipv4Header || o.ipv4Header, transport || o.transport, pseudoHeader || o.pseudoHeader)
    }
  }

  datatype Journal = Journal(
    dirty: Layers, signedDelta: int, tailDelta: int, sums: Sums,
    preParsed: ParsedPacket, preLen: nat, hasPre: bool,
    cacheInvalidated: bool, offloadEligible: bool, invalid: bool, finalized: bool, editFailed: bool)
  {
    predicate NeedsFinalize() { dirty.Any() || signedDelta != 0 }
  }

  datatype PacketState = PacketState(frame: Frame, journal: Journal, cache: ParsedPacket)

  const BLANK: ParsedPacket := Blank(DEFAULT_CONFIG)
  const CLEAN: Journal :=
    Journal(Layers(false, false, false), 0, 0, Sums(false, false, false), BLANK, 0, false,
            false, true, false, true, false)

  function Fresh(f: Frame): PacketState { PacketState(f, CLEAN, BLANK) }

  type Outcome = Result<(), PacketError>

  function Fail(s: PacketState): PacketState {
    s.(journal := s.journal.(invalid := true, editFailed := true, finalized := false))
  }

  // ---- Lazy parse ------------------------------------------------------------

  /** The cache entry after a parse under `cfg`: kept when it matches. */
  function Cached(s: PacketState, cfg: ParserConfig): PacketState {
    if s.cache.ethernetStatus == Unparsed || s.cache.config != cfg
    then s.(cache := Parse(s.frame.bytes, cfg)) else s
  }

  function ParseStep(s: PacketState, cfg: ParserConfig): (PacketState, Result<ParsedPacket, PacketError>) {
    if !cfg.Valid() then (s, Err(InvalidParserLimit))
    else (Cached(s, cfg), Ok(Cached(s, cfg).cache))
  }

  // ---- State invariant ---------------------------------------------------------------------

  predicate FrameValid(f: Frame) {
    && |f.writable| == |f.bytes| <= USIZE_MAX
    && (f.room.Linear? ==> forall k :: 0 <= k < |f.writable| ==> f.writable[k] == f.room.sameLength)
    && (f.room.FixedLinear? ==> forall k :: 0 <= k < |f.writable| ==> !f.writable[k])
  }

  /** The cache is empty or equals a fresh parse under its own configuration. */
  predicate Coherent(s: PacketState) {
    s.cache.ethernetStatus == Unparsed || s.cache == Parse(s.frame.bytes, s.cache.config)
  }

  /** What every reachable state of a live packet keeps. */
  predicate Good(s: PacketState) {
    && FrameValid(s.frame) && Coherent(s)
    && (s.journal.hasPre ==> Framed(s.journal.preParsed, s.journal.preLen))
    && (s.journal.tailDelta != 0 ==> s.journal.hasPre) && (s.journal.hasPre ==> s.journal.sums.transport)
    && (s.journal.editFailed ==> s.journal.invalid && !s.journal.finalized)
    && (s.journal.invalid ==> s.journal.editFailed)
    && FitsI32(s.journal.signedDelta) && FitsI32(s.journal.tailDelta)
  }

  /** A parse is never blank and carries its configuration. */
  lemma ParseRemembers(b: seq<Byte>, cfg: ParserConfig)
    ensures Parse(b, cfg).ethernetStatus != Unparsed && Parse(b, cfg).config == cfg
  {
    ParseIsFramed(b, cfg);
    ParseKeepsConfig(b, cfg);
  }

  lemma CachedIsFramed(s: PacketState, cfg: ParserConfig)
    requires Coherent(s)
    ensures Cached(s, cfg).cache == Parse(s.frame.bytes, cfg) && Framed(Cached(s, cfg).cache, |s.frame.bytes|)
    ensures Coherent(Cached(s, cfg))
  {
    ParseIsFramed(s.frame.bytes, cfg);
    ParseRemembers(s.frame.bytes, cfg);
  }

  // ---- Same-length writes ------------------------------------------------------

  predicate AllWritable(f: Frame, off: nat, len: nat)
    requires off + len <= |f.writable|
  {
    forall k :: off <= k < off + len ==> f.writable[k]
  }

  function WriteCheck(f: Frame, off: nat, len: nat): Outcome
    requires |f.writable| == |f.bytes|
  {
    if off + len > USIZE_MAX then Err(Overflow)
    else if off + len > |f.bytes| then Err(Bounds)
    else if AllWritable(f, off, len) then Ok(()) else Err(ReadOnly)
  }

  function Recorded(s: PacketState, dirty: Layers, sums: Sums): PacketState {
    s.(journal := s.journal.(dirty := s.journal.dirty.Or(dirty), sums := s.journal.sums.Or(sums),
                             finalized := false, offloadEligible := false, cacheInvalidated := true),
       cache := BLANK)
  }

  function CheckedWrite(s: PacketState, inject: bool, off: nat, data: seq<Byte>, dirty: Layers,
                        sums: Sums): (PacketState, Outcome)
    requires |s.frame.writable| == |s.frame.bytes|
  {
    if inject then (Fail(s), Err(InjectedFailure)) else
    match WriteCheck(s.frame, off, |data|)
    case Err(e) => (Fail(s), Err(e))
    case Ok(_) => (Recorded(s.(frame := s.frame.(bytes := Splice(s.frame.bytes, off, data))), dirty, sums), Ok(()))
  }

  // ---- Structured field edits ----------------------------------------------------

  type Dscp = v: int | 0 <= v < 64

  datatype FieldEdit =
    | EthernetDestination(mac: Bytes6)
    | EthernetSource(mac: Bytes6)
    | Ipv4Dscp(dscp: Dscp)
    | Ipv4Ttl(ttl: Byte)
    | Ipv4Source(addr4: Bytes4)
    | Ipv4Destination(addr4: Bytes4)
    | Ipv6TrafficClass(class_: Byte)
    | Ipv6HopLimit(hops: Byte)
    | Ipv6Source(addr6: Bytes16)
    | Ipv6Destination(addr6: Bytes16)
    | TcpFlags(flags: Byte)
    | TcpPort(source: bool, port: U16)
    | UdpPort(source: bool, port: U16)

  datatype Target = Target(offset: nat, data: seq<Byte>, dirty: Layers, sums: Sums)

  const L2 := Layers(true, false, false)
  const L3 := Layers(false, true, false)
  const L4 := Layers(false, false, true)
  const NO_SUMS := Sums(false, false, false)
  const HEADER_SUM := Sums(true, false, false)
  const ALL_SUMS := Sums(true, true, true)
  const PSEUDO_SUMS := Sums(false, true, true)
  const TRANSPORT_SUM := Sums(false, true, false)

  function Expected(p: ParsedPacket, e: FieldEdit): Outcome {
    match e
    case EthernetDestination(_) => if p.ethernetStatus == Present then Ok(()) else Err(UnsupportedProtocol)
    case EthernetSource(_) => if p.ethernetStatus == Present then Ok(()) else Err(UnsupportedProtocol)
    case TcpFlags(_) => ExpectedTransport(p, Tcp)
    case TcpPort(_, _) => ExpectedTransport(p, Tcp)
    case UdpPort(_, _) => ExpectedTransport(p, Udp)
    case _ =>
      var v4 := e.Ipv4Dscp? || e.Ipv4Ttl? || e.Ipv4Source? || e.Ipv4Destination?;
      if p.networkStatus == Present && p.networkProtocol == (if v4 then Ipv4 else Ipv6) then Ok(())
      else Err(UnsupportedProtocol)
  }

  function ExpectedTransport(p: ParsedPacket, protocol: TransportProtocol): Outcome {
    if p.incompleteFragment then Err(IncompleteFragment)
    else if p.transportStatus != Present || p.transportProtocol != protocol then Err(UnsupportedProtocol)
    else Ok(())
  }

  /** Where an accepted edit writes and what it writes there. */
  function TargetOf(b: seq<Byte>, p: ParsedPacket, e: FieldEdit): Target
    requires Framed(p, |b|) && Expected(p, e).Ok?
  {
    match e
    case EthernetDestination(v) => Target(0, v, L2, NO_SUMS)
    case EthernetSource(v) => Target(6, v, L2, NO_SUMS)
    case Ipv4Dscp(v) =>
      Target(p.ipv4.headerOffset + 1, [v * 4 + b[p.ipv4.headerOffset + 1] % 4], L3, HEADER_SUM)
    case Ipv4Ttl(v) => Target(p.ipv4.headerOffset + 8, [v], L3, HEADER_SUM)
    case Ipv4Source(v) => Target(p.ipv4.headerOffset + 12, v, L3, ALL_SUMS)
    case Ipv4Destination(v) => Target(p.ipv4.headerOffset + 16, v, L3, ALL_SUMS)
    case Ipv6TrafficClass(v) =>
      var o := p.ipv6.headerOffset;
      Target(o, [b[o] / 16 * 16 + v / 16, v % 16 * 16 + b[o + 1] % 16], L3, NO_SUMS)
    case Ipv6HopLimit(v) => Target(p.ipv6.headerOffset + 7, [v], L3, NO_SUMS)
    case Ipv6Source(v) => Target(p.ipv6.headerOffset + 8, v, L3, PSEUDO_SUMS)
    case Ipv6Destination(v) => Target(p.ipv6.headerOffset + 24, v, L3, PSEUDO_SUMS)
    case TcpFlags(v) => Target(p.tcp.headerOffset + 13, [v], L4, TRANSPORT_SUM)
    case TcpPort(source, v) => Target(p.tcp.headerOffset + if source then 0 else 2, WordBytes(v), L4, TRANSPORT_SUM)
    case UdpPort(source, v) => Target(p.udp.headerOffset + if source then 0 else 2, WordBytes(v), L4, TRANSPORT_SUM)
  }

  function EditStep(s: PacketState, e: FieldEdit, inject: bool): (PacketState, Outcome)
    requires Good(s)
  {
    CachedIsFramed(s, DEFAULT_CONFIG);
    var s := Cached(s, DEFAULT_CONFIG);
    match Expected(s.cache, e)
    case Err(x) => (Fail(s), Err(x))
    case Ok(_) =>
      var t := TargetOf(s.frame.bytes, s.cache, e);
      CheckedWrite(s, inject, t.offset, t.data, t.dirty, t.sums)
  }

  // ---- Raw writes ------------------------------------------------------------------

  function RawStep(s: PacketState, off: nat, len: nat, data: seq<Byte>, invalidates: Layers, full: bool,
                   inject: bool): (PacketState, Outcome)
    requires |s.frame.writable| == |s.frame.bytes|
  {
    if len != |data| then (Fail(s), Err(Bounds))
    else if !invalidates.Any() && !full then (Fail(s), Err(MissingInvalidationDeclaration))
    else
      var dirty := if full then Layers(true, true, true) else invalidates;
      CheckedWrite(s, inject, off, data, dirty, Sums(dirty.l3, dirty.l3 || dirty.l4, dirty.l3))
  }

  // ---- Resizing ----------------------------------------------------------------------

  datatype ResizeOp = Prepend(data: seq<Byte>) | Append(data: seq<Byte>) | TrimHead(count: nat) | TrimTail(count: nat) {
    predicate Grows() { Prepend? || Append? }
    predicate Tail() { Append? || TrimTail? }
    function Amount(): nat { if Grows() then |data| else count }
    function Delta(): int { if Grows() then Amount() as int else 0 - Amount() as int }
  }

  predicate FitsI32(v: int) { -I32_MAX - 1 <= v <= I32_MAX }

  /** The first refusal of a resize, in the order the checks run. */
  function ResizeCheck(s: PacketState, op: ResizeOp, inject: bool): Outcome {
    var r := s.frame.room;
    var amount := op.Amount();
    if inject then Err(InjectedFailure)
    else if r.Segmented? then Err(ResizeRequiresLinear)
    else if r.FixedLinear? then Err(ReadOnly)
    else if !r.resize then Err(ResizeRequiresLinear)
    else if !op.Grows() && amount > |s.frame.bytes| then Err(Bounds)
    else if amount > I64_MAX then Err(LengthOverflow)
    else if op.Grows() && |s.frame.bytes| + amount > USIZE_MAX then Err(LengthOverflow)
    else if !FitsI32(s.journal.signedDelta + op.Delta()) then Err(LengthOverflow)
    else if op.Tail() && !FitsI32(s.journal.tailDelta + op.Delta()) then Err(LengthOverflow)
    else if op.Prepend? && amount > r.headroom then Err(InsufficientHeadroom)
    else if op.Append? && amount > r.tailroom then Err(InsufficientTailroom)
    else Ok(())
  }

  function ResizedFrame(f: Frame, op: ResizeOp): Frame
    requires f.room.Linear? && (!op.Grows() ==> op.count <= |f.bytes|)
    requires (op.Prepend? ==> |op.data| <= f.room.headroom) && (op.Append? ==> |op.data| <= f.room.tailroom)
  {
    var r := f.room;
    var bytes := match op
                 case Prepend(data) => data + f.bytes
                 case Append(data) => f.bytes + data
                 case TrimHead(n) => f.bytes[n..]
                 case TrimTail(n) => f.bytes[..|f.bytes| - n];
    var headroom := match op
                    case Prepend(data) => r.headroom - |data|
                    case TrimHead(n) => r.headroom + n
                    case _ => r.headroom;
    var tailroom := match op
                    case Append(data) => r.tailroom - |data|
                    case TrimTail(n) => r.tailroom + n
                    case _ => r.tailroom;
    Frame(bytes, seq(|bytes|, _ => r.sameLength), r.(headroom := headroom, tailroom := tailroom))
  }

  /** The first tail resize keeps what the frame decoded to before it. */
  function Snapshotted(s: PacketState): PacketState {
    if s.journal.hasPre then s else
    var s := Cached(s, DEFAULT_CONFIG);
    s.(journal := s.journal.(preParsed := s.cache, preLen := |s.frame.bytes|, hasPre := true))
  }

  function ResizeStep(s: PacketState, op: ResizeOp, inject: bool): (PacketState, Outcome) {
    match ResizeCheck(s, op, inject)
    case Err(x) => (Fail(s), Err(x))
    case Ok(_) =>
      var s := if op.Tail() then Snapshotted(s) else s;
      var j := s.journal.(signedDelta := s.journal.signedDelta + op.Delta(),
                          tailDelta := s.journal.tailDelta + if op.Tail() then op.Delta() else 0);
      (Recorded(s.(frame := ResizedFrame(s.frame, op), journal := j), Layers(true, true, true), ALL_SUMS), Ok(()))
  }

  // ---- Finalization --------------------------------------------------------------------

  datatype HeaderWrite = HeaderWrite(offset: nat, value: U16)

  /** Everything a finalization decides before its first write. */
  datatype Plan = Plan(declared: ProtocolExtents, extents: ProtocolExtents, mustHeader: bool, mustTransport: bool,
                       writes: seq<HeaderWrite>)

  function BaseParsed(s: PacketState): ParsedPacket {
    if s.journal.tailDelta != 0 then s.journal.preParsed else Cached(s, DEFAULT_CONFIG).cache
  }

  function BaseLen(s: PacketState): nat {
    if s.journal.tailDelta != 0 then s.journal.preLen else |s.frame.bytes|
  }

  function CurrentExtents(s: PacketState, declared: ProtocolExtents): Result<ProtocolExtents, PacketError> {
    if s.journal.tailDelta == 0 then Ok(declared)
    else TailResizedExtents(declared, s.journal.preLen, |s.frame.bytes|, s.journal.tailDelta,
                            s.journal.preParsed.transportProtocol)
  }

  /** The network length field, when the length changed. */
  function NetworkWrite(p: ParsedPacket, d: ProtocolExtents, e: ProtocolExtents): seq<HeaderWrite>
    requires e.networkLen <= 65535
    requires p.networkProtocol != Ipv4 ==> e.networkLen >= 40
  {
    if e.networkLen == d.networkLen then []
    else if p.networkProtocol == Ipv4 then [HeaderWrite(e.networkOffset + 2, e.networkLen)]
    else [HeaderWrite(e.networkOffset + 4, e.networkLen - 40)]
  }

  /** The UDP length field, when the length changed. */
  function UdpWrite(p: ParsedPacket, d: ProtocolExtents, e: ProtocolExtents): seq<HeaderWrite>
    requires e.transportLen <= 65535
  {
    if p.transportProtocol == Udp && e.transportLen != d.transportLen
    then [HeaderWrite(e.transportOffset + 4, e.transportLen)] else []
  }

  function HeaderSumWrite(b: seq<Byte>, must: bool, p: ParsedPacket, e: ProtocolExtents): seq<HeaderWrite>
    requires e.networkLen <= 65535 && (must ==> HeaderSum(b, p, e).Some?)
  {
    if must then [HeaderWrite(e.networkOffset + 10, 65535 - Canon(HeaderSum(b, p, e).value))] else []
  }

  function TransportSumWrite(b: seq<Byte>, must: bool, p: ParsedPacket, e: ProtocolExtents): seq<HeaderWrite>
    requires e.transportLen <= 65535 && (must ==> TransportSum(b, p, e.transportOffset, e.transportLen).Some?)
  {
    if must then [HeaderWrite(ChecksumOffset(p, e.transportOffset),
                              StoredChecksum(TransportSum(b, p, e.transportOffset, e.transportLen).value))] else []
  }

  /** The first refused destination among the pending writes, if any. */
  function FirstRefusal(f: Frame, ws: seq<HeaderWrite>): Outcome
    requires |f.writable| == |f.bytes|
  {
    if ws == [] then Ok(())
    else if WriteCheck(f, ws[0].offset, 2).Err? then WriteCheck(f, ws[0].offset, 2)
    else FirstRefusal(f, ws[1..])
  }

  /** Which checksums a finalization must rewrite. */
  function MustHeader(j: Journal, p: ParsedPacket, d: ProtocolExtents, e: ProtocolExtents): bool {
    p.networkProtocol == Ipv4 && (j.sums.ipv4Header || e.networkLen != d.networkLen)
  }

  function MustTransport(j: Journal, p: ParsedPacket, d: ProtocolExtents, e: ProtocolExtents): bool {
    e.transportLen != 0 && HasTransport(p)
    && (j.sums.transport || e.transportLen != d.transportLen
        || (p.networkProtocol == Ipv6 && p.transportProtocol == Udp))
  }

  function HeaderSum(b: seq<Byte>, p: ParsedPacket, e: ProtocolExtents): Option<nat>
    requires e.networkLen <= 65535
  {
    RangeSum(b, e.networkOffset, 0, p.ipv4.headerLen, Some(e.networkOffset + 10), Some(e.networkOffset + 2),
             e.networkLen)
  }

  /** Accepted extents of a good state are nested in its frame. */
  lemma ExtentsAreNested(s: PacketState, d: ProtocolExtents)
    requires Good(s) && DeclaredExtents(BaseParsed(s), BaseLen(s)) == Ok(d) && CurrentExtents(s, d).Ok?
    ensures Nested(CurrentExtents(s, d).value, BaseParsed(s), |s.frame.bytes|)
    ensures Nested(d, BaseParsed(s), BaseLen(s)) && Framed(BaseParsed(s), BaseLen(s))
  {
    var p := BaseParsed(s);
    if s.journal.tailDelta != 0 {
      DeclaredIsNested(p, s.journal.preLen, s.journal.preLen);
      ResizedIsNested(p, s.journal.preLen, s.journal.preLen, |s.frame.bytes|, s.journal.tailDelta);
    } else {
      CachedIsFramed(s, DEFAULT_CONFIG);
      DeclaredIsNested(p, |s.frame.bytes|, |s.frame.bytes|);
    }
  }

  function PlanOf(s: PacketState): Result<Plan, PacketError>
    requires Good(s)
  {
    var p, j, b := BaseParsed(s), s.journal, s.frame.bytes;
    if j.sums.transport && p.incompleteFragment then Err(IncompleteFragment) else
    var declared := DeclaredExtents(p, BaseLen(s));
    if declared.Err? then Err(declared.error) else
    var d := declared.value;
    var extents := CurrentExtents(s, d);
    if extents.Err? then Err(extents.error) else
    var e := extents.value;
    ExtentsAreNested(s, d);
    if e.networkLen > 65535 then Err(PacketTooLarge)
    else if HasTransport(p) && e.transportLen > 65535 then Err(PacketTooLarge)
    else if !HasTransport(p) && j.sums.transport then Err(InvalidPacket) else
    var mustHeader, mustTransport := MustHeader(j, p, d, e), MustTransport(j, p, d, e);
    if mustHeader && HeaderSum(b, p, e).None? then Err(InvalidPacket)
    else if mustTransport && TransportSum(b, p, e.transportOffset, e.transportLen).None? then Err(InvalidPacket)
    else if p.networkProtocol == Ipv6 && e.networkLen != d.networkLen && e.networkLen < 40 then Err(InvalidPacket) else
    var writes := NetworkWrite(p, d, e) + UdpWrite(p, d, e)
                  + HeaderSumWrite(b, mustHeader, p, e) + TransportSumWrite(b, mustTransport, p, e);
    var refusal := FirstRefusal(s.frame, writes);
    if refusal.Err? then Err(refusal.error) else Ok(Plan(d, e, mustHeader, mustTransport, writes))
  }

  /** The pending words written in order; a word that does not fit is skipped. */
  function ApplyWrites(b: seq<Byte>, ws: seq<HeaderWrite>): (r: seq<Byte>)
    ensures |r| == |b|
  {
    if ws == [] then b
    else
      var c := ApplyWrites(b, ws[..|ws| - 1]);
      var w := ws[|ws| - 1];
      if w.offset + 2 <= |b| then Splice(c, w.offset, WordBytes(w.value)) else c
  }

  /** The reparse of the written frame is acceptable for output. */
  function ReparseCheck(p: ParsedPacket, q: ParsedPacket): Outcome {
    if q.ethernetStatus != Present || q.networkStatus != Present
       || (p.transportStatus == Present && q.transportStatus != Present) then Err(InvalidPacket)
    else if q.networkProtocol == Ipv6 && q.transportProtocol == Udp && q.udp.checksum == 0 then Err(InvalidIpv6UdpZero)
    else Ok(())
  }

  function FinalizeStep(s: PacketState): (PacketState, Outcome)
    requires Good(s)
  {
    var j := s.journal;
    if j.invalid || j.editFailed then (s, Err(InvalidJournal))
    else if !j.NeedsFinalize() then (s.(journal := j.(finalized := true)), Ok(()))
    else if j.tailDelta != 0 && (!j.hasPre || j.tailDelta != j.signedDelta) then (Fail(s), Err(InvalidPacket))
    else
      var p := BaseParsed(s);
      var plan := PlanOf(s);
      var s := if j.tailDelta != 0 then s else Cached(s, DEFAULT_CONFIG);
      if plan.Err? then (Fail(s), Err(plan.error)) else
      var bytes := ApplyWrites(s.frame.bytes, plan.value.writes);
      var q := Parse(bytes, DEFAULT_CONFIG);
      if ReparseCheck(p, q).Err? then (Fail(s.(cache := BLANK)), ReparseCheck(p, q))
      else (s.(frame := s.frame.(bytes := bytes), cache := q, journal := j.(finalized := true, invalid := false)),
            Ok(()))
  }

  // ---- Output gate -----------------------------------------------------------------------

  function OutputCheck(s: PacketState): Outcome {
    var j, p := s.journal, Parse(s.frame.bytes, DEFAULT_CONFIG);
    if j.invalid || j.editFailed then Err(InvalidMutation)
    else if j.NeedsFinalize() && !j.finalized then Err(UnfinalizedMutation)
    else if p.networkProtocol == Ipv6 && p.transportProtocol == Udp && p.transportStatus == Present
            && p.udp.checksum == 0 then Err(InvalidIpv6UdpZero)
    else Ok(())
  }
}
