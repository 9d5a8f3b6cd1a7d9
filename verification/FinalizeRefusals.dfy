/** Frames an editor accepts a change to and no finalization ever accepts: the
    refusals in general, and one frame of each kind. */
module FinalizeRefusals {
  import opened Prelude
  import opened Parsing
  import opened ParsingFacts
  import opened Extents
  import opened PacketMachine
  import opened PacketRuns
  import opened UnresizedTheorems

  /** A finalization is due on a frame whose tail was not resized. */
  ghost predicate Due(s: PacketState) {
    && Good(s) && Unresized(s) && s.journal.NeedsFinalize() && !s.journal.editFailed
    && |s.frame.bytes| + 65535 <= USIZE_MAX
    && !(s.journal.sums.transport && Parse(s.frame.bytes, DEFAULT_CONFIG).incompleteFragment)
  }

  /** Without a network layer, or with a UDP datagram that outruns it, there are no extents. */
  lemma NoExtents(s: PacketState)
    requires Due(s)
    requires var p := Parse(s.frame.bytes, DEFAULT_CONFIG);
             p.networkStatus != Present
             || (p.transportProtocol == Udp && TransportOffset(p) + p.udp.length > NetworkEnd(p))
    ensures FinalizeStep(s).1 == Err(InvalidPacket)
  {
    BaseIsFresh(s);
    hide Parse;
    DeclaredAccepted(BaseParsed(s), |s.frame.bytes|);
  }

  /** An IPv6 packet longer than 65535 bytes, header included, is too large. */
  lemma TooLong(s: PacketState)
    requires Due(s)
    requires var p := Parse(s.frame.bytes, DEFAULT_CONFIG);
             && p.networkProtocol == Ipv6 && p.ipv6.payloadLen > 65495
             && (p.transportProtocol == Udp ==> TransportOffset(p) + p.udp.length <= NetworkEnd(p))
    ensures FinalizeStep(s).1 == Err(PacketTooLarge)
  {
    BaseIsFresh(s);
    hide Parse;
    DeclaredAccepted(BaseParsed(s), |s.frame.bytes|);
    ExtentsAreNested(s, DeclaredExtents(BaseParsed(s), |s.frame.bytes|).value);
  }

  /** The edit is accepted and the finalization after it refused with `error`. */
  ghost predicate Trapped(bytes: seq<Byte>, e: FieldEdit, error: PacketError) {
    var s := Fresh(Frame(bytes, seq(|bytes|, _ => true), Segmented));
    && Good(s) && EditStep(s, e, false).1.Ok? && Good(EditStep(s, e, false).0)
    && FinalizeStep(EditStep(s, e, false).0).1 == Err(error)
  }

  /** An accepted first edit of a writable frame: what it leaves to finalize. */
  lemma Edited(bytes: seq<Byte>, e: FieldEdit) returns (s: PacketState)
    requires |bytes| + 65535 <= USIZE_MAX
    requires var p := Parse(bytes, DEFAULT_CONFIG);
             Framed(p, |bytes|) && Expected(p, e).Ok?
             && TargetOf(bytes, p, e).offset + |TargetOf(bytes, p, e).data| <= |bytes|
    ensures var f := Frame(bytes, seq(|bytes|, _ => true), Segmented);
            var t := TargetOf(bytes, Parse(bytes, DEFAULT_CONFIG), e);
            && Good(Fresh(f)) && EditStep(Fresh(f), e, false) == (s, Ok(()))
            && Good(s) && Unresized(s) && !s.journal.editFailed && s.journal.sums == t.sums
               && s.journal.dirty == t.dirty
            && s.frame.bytes == Splice(bytes, t.offset, t.data)
  {
    var f := Frame(bytes, seq(|bytes|, _ => true), Segmented);
    FreshIsGood(f);
    s := EditStep(Fresh(f), e, false).0;
    EditIsGood(Fresh(f), e, false);
    hide Parse, TargetOf, Framed, Expected;
  }

  // ---- A first fragment whose UDP length outruns it ----------------------------------------

  const FRAGMENT: seq<Byte> :=
    [0, 0, 0, 0, 0, 0, 0, 0, 0, 0, 0, 0, 0x08, 0x00,
     0x45, 0, 0, 28, 0, 0, 0x20, 0, 64, 17, 0, 0, 10, 0, 0, 1, 10, 0, 0, 2,
     0, 53, 0, 53, 0, 100, 0, 0]

  lemma FragmentDecodes(b: seq<Byte>)
    requires |b| == 42 && forall k :: 12 <= k < 42 && k != 22 ==> b[k] == FRAGMENT[k]
    ensures var p := Parse(b, DEFAULT_CONFIG);
            && p.networkStatus == Present && p.networkProtocol == Ipv4 && p.ipv4.headerOffset == 14
            && p.transportProtocol == Udp && TransportOffset(p) + p.udp.length > NetworkEnd(p)
  {
    var e := Addressed(b, DEFAULT_CONFIG);
    var e' := e.(ethernet := e.ethernet.(etherType := 0x0800, headerLen := 14), ethernetStatus := Present);
    assert Word(b, 12) == 0x0800 && Word(b, 16) == 28 && Word(b, 20) == 0x2000 && Word(b, 38) == 100;
    assert Parse(b, DEFAULT_CONFIG) == ParseIpv4(b, e', 14) by { hide ParseIpv4; }
    FragmentDelivers(b, e');
    hide ParseIpv4, Parse;
    FragmentTransport(b, Ipv4Entry(b, e', 14));
  }

  lemma FragmentDelivers(b: seq<Byte>, e: ParsedPacket)
    requires |b| == 42 && b[14] == 0x45 && b[23] == 17 && Word(b, 16) == 28 && Word(b, 20) == 0x2000
    ensures ParseIpv4(b, e, 14) == ParseTransport(b, Ipv4Entry(b, e, 14), 17, 34, 8)
    ensures var f := Ipv4Entry(b, e, 14);
            && f.incompleteFragment && f.networkStatus == Present && f.networkProtocol == Ipv4
            && f.ipv4.headerOffset == 14 && f.ipv4.totalLen == 28
  {
    hide ParseTransport;
  }

  lemma FragmentTransport(b: seq<Byte>, f: ParsedPacket)
    requires |b| == 42 && f.incompleteFragment && Word(b, 38) == 100
    ensures var p := ParseTransport(b, f, 17, 34, 8);
            && p.transportProtocol == Udp && p.udp.headerOffset == 34 && p.udp.length == 100
            && p.networkStatus == f.networkStatus && p.networkProtocol == f.networkProtocol && p.ipv4 == f.ipv4
  {
  }

  /** Its TTL can be set and the packet then never finalized. */
  lemma FragmentTrapped(ttl: Byte)
    ensures Trapped(FRAGMENT, Ipv4Ttl(ttl), InvalidPacket)
  {
    FragmentDecodes(FRAGMENT);
    ParseIsFramed(FRAGMENT, DEFAULT_CONFIG);
    var s := Edited(FRAGMENT, Ipv4Ttl(ttl));
    FragmentDecodes(s.frame.bytes);
    hide Parse, FinalizeStep, EditStep;
    NoExtents(s);
  }

  // ---- A frame that is not IP --------------------------------------------------------------

  const ARP: seq<Byte> := [0, 0, 0, 0, 0, 0, 0, 0, 0, 0, 0, 0, 0x08, 0x06]

  lemma ArpDecodes(b: seq<Byte>)
    requires |b| == 14 && b[12] == 0x08 && b[13] == 0x06
    ensures Parse(b, DEFAULT_CONFIG).ethernetStatus == Present && Parse(b, DEFAULT_CONFIG).networkStatus == Absent
  {
    assert Word(b, 12) == 0x0806;
  }

  /** Its link addresses can be set and the frame then never finalized. */
  lemma ArpTrapped(mac: Bytes6)
    ensures Trapped(ARP, EthernetDestination(mac), InvalidPacket)
  {
    ArpDecodes(ARP);
    ParseIsFramed(ARP, DEFAULT_CONFIG);
    var s := Edited(ARP, EthernetDestination(mac));
    ArpDecodes(s.frame.bytes);
    hide Parse, FinalizeStep, EditStep;
    NoExtents(s);
  }

  // ---- An IPv6 payload of 65496 bytes ------------------------------------------------------

  const JUMBO_HEADERS: seq<Byte> :=
    [0, 0, 0, 0, 0, 0, 0, 0, 0, 0, 0, 0, 0x86, 0xdd, 0x60, 0, 0, 0, 0xff, 0xd8, 59, 64]

  function Jumbo(): (b: seq<Byte>)
    ensures |b| == 65550
    ensures forall k :: 0 <= k < 22 ==> b[k] == JUMBO_HEADERS[k]
  {
    JUMBO_HEADERS + seq(65528, _ => 0)
  }

  lemma JumboDecodes(b: seq<Byte>)
    requires |b| == 65550 && forall k :: 12 <= k < 21 ==> b[k] == JUMBO_HEADERS[k]
    ensures var p := Parse(b, DEFAULT_CONFIG);
            && p.networkStatus == Present && p.networkProtocol == Ipv6 && p.ipv6.headerOffset == 14
            && p.ipv6.payloadLen == 65496 && p.transportProtocol == NoTransport
  {
    var e := Addressed(b, DEFAULT_CONFIG);
    var e' := e.(ethernet := e.ethernet.(etherType := 0x86dd, headerLen := 14), ethernetStatus := Present);
    assert Word(b, 12) == 0x86dd && Word(b, 18) == 65496;
    assert Parse(b, DEFAULT_CONFIG) == ParseIpv6(b, e', 14, DEFAULT_CONFIG);
    assert Chain(b, Ipv6Entry(b, e', 14), DEFAULT_CONFIG, 59, 54, 65550, false)
           == Deliver(Ipv6Entry(b, e', 14), 59, 54);
  }

  /** Its hop limit can be set and the packet then never finalized. */
  lemma JumboTrapped(hops: Byte)
    ensures Trapped(Jumbo(), Ipv6HopLimit(hops), PacketTooLarge)
  {
    JumboDecodes(Jumbo());
    ParseIsFramed(Jumbo(), DEFAULT_CONFIG);
    hide Parse, FinalizeStep, EditStep, Jumbo;
    var s := Edited(Jumbo(), Ipv6HopLimit(hops));
    JumboDecodes(s.frame.bytes);
    TooLong(s);
  }
}
