/** What a structured setter means: decoding the edited frame gives the field
    that was set, and everything else as it was. */
module SetterMeaning {
  import opened Prelude
  import opened Parsing
  import opened ParsingFacts
  import opened ParsingTheorems
  import opened PacketMachine
  import opened ConservedSums

  /** The decoded packet with one field set. */
  function WithField(p: ParsedPacket, e: FieldEdit): ParsedPacket {
    match e
    case EthernetDestination(v) => p.(ethernet := p.ethernet.(destination := v))
    case EthernetSource(v) => p.(ethernet := p.ethernet.(source := v))
    case Ipv4Dscp(v) => p.(ipv4 := p.ipv4.(dscp := v))
    case Ipv4Ttl(v) => p.(ipv4 := p.ipv4.(ttl := v))
    case Ipv4Source(v) => p.(ipv4 := p.ipv4.(source := v))
    case Ipv4Destination(v) => p.(ipv4 := p.ipv4.(destination := v))
    case Ipv6TrafficClass(v) => p.(ipv6 := p.ipv6.(trafficClass := v))
    case Ipv6HopLimit(v) => p.(ipv6 := p.ipv6.(hopLimit := v))
    case Ipv6Source(v) => p.(ipv6 := p.ipv6.(source := v))
    case Ipv6Destination(v) => p.(ipv6 := p.ipv6.(destination := v))
    case TcpFlags(v) => p.(tcp := p.tcp.(flags := v))
    case TcpPort(source, v) => p.(tcp := if source then p.tcp.(sourcePort := v) else p.tcp.(destinationPort := v))
    case UdpPort(source, v) => p.(udp := if source then p.udp.(sourcePort := v) else p.udp.(destinationPort := v))
  }

  function Edited(b: seq<Byte>, p: ParsedPacket, e: FieldEdit): seq<Byte>
    requires Framed(p, |b|) && Expected(p, e).Ok?
  {
    var t := TargetOf(b, p, e);
    if t.offset + |t.data| <= |b| then Splice(b, t.offset, t.data) else b
  }

  // ---- Value fields under an edit ---------------------------------------------------------

  lemma Outside(b: seq<Byte>, off: nat, data: seq<Byte>, lo: nat, hi: nat)
    requires off + |data| <= |b| && lo <= hi <= |b| && (hi <= off || off + |data| <= lo)
    ensures Splice(b, off, data)[lo..hi] == b[lo..hi]
  {
  }

  lemma Exactly(b: seq<Byte>, off: nat, data: seq<Byte>)
    requires off + |data| <= |b|
    ensures Splice(b, off, data)[off..off + |data|] == data
  {
  }

  /** Beyond the link addresses an Ethernet setter leaves every value in place. */
  lemma EthernetReread(p: ParsedPacket, b: seq<Byte>, off: nat, data: Bytes6)
    requires |b| >= 14 && Framed(p, |b|) && p.networkStatus == Present && p == RevaluedNetwork(p, b)
             && (off == 0 || off == 6)
    ensures RevaluedNetwork(p, Splice(b, off, data))
            == p.(ethernet := if off == 0 then p.ethernet.(destination := data) else p.ethernet.(source := data))
  {
    var c := Splice(b, off, data);
    Exactly(b, off, data);
    Outside(b, off, data, 6 - off, 12 - off);
    assert c[6 - off..12 - off] == b[6 - off..12 - off] && c[off..off + 6] == data;
    assert forall k :: 12 <= k < |b| ==> c[k] == b[k];
    hide Splice;
    NetworkKept(p, b, c);
  }

  lemma NetworkKept(p: ParsedPacket, b: seq<Byte>, c: seq<Byte>)
    requires |b| == |c| >= 14 && Framed(p, |b|) && p.networkStatus == Present && p == RevaluedNetwork(p, b)
    requires forall k :: 12 <= k < |b| ==> c[k] == b[k]
    ensures RevaluedNetwork(p, c) == p.(ethernet := p.ethernet.(destination := c[0..6], source := c[6..12]))
    ensures p.ethernet.destination == b[0..6] && p.ethernet.source == b[6..12]
  {
    hide TransportFramed;
    var o := NetworkOffset(p);
    if p.networkProtocol == Ipv4 {
      assert c[o + 12..o + 16] == b[o + 12..o + 16] && c[o + 16..o + 20] == b[o + 16..o + 20];
    } else {
      assert c[o + 8..o + 24] == b[o + 8..o + 24] && c[o + 24..o + 40] == b[o + 24..o + 40];
    }
  }

  lemma Ipv4Reread(p: ParsedPacket, b: seq<Byte>, off: nat, data: seq<Byte>)
    requires |b| >= 14 && Framed(p, |b|) && p.networkProtocol == Ipv4 && p == RevaluedNetwork(p, b)
    requires var o := p.ipv4.headerOffset;
             (|data| == 1 && (off == o + 1 || off == o + 8)) || (|data| == 4 && (off == o + 12 || off == o + 16))
    ensures var o := p.ipv4.headerOffset;
            RevaluedNetwork(p, Splice(b, off, data))
            == p.(ipv4 := if off == o + 1 then p.ipv4.(dscp := data[0] / 4)
                  else if off == o + 8 then p.ipv4.(ttl := data[0])
                          else if off == o + 12 then p.ipv4.(source := data) else p.ipv4.(destination := data))
  {
    var o, c := p.ipv4.headerOffset, Splice(b, off, data);
    Exactly(b, off, data);
    Outside(b, off, data, 0, 6);
    Outside(b, off, data, 6, 12);
    if off != o + 12 { Outside(b, off, data, o + 12, o + 16); }
    if off != o + 16 { Outside(b, off, data, o + 16, o + 20); }
    assert c[o + 1] == (if off == o + 1 then data[0] else b[o + 1])
           && c[o + 8] == (if off == o + 8 then data[0] else b[o + 8]);
    hide Splice, Framed;
  }

  function ClassOf(hi: Byte, lo: Byte): Byte { hi % 16 * 16 + lo / 16 }

  /** The values an IPv6 packet is reread with. */
  lemma SixValues(p: ParsedPacket, b: seq<Byte>, c: seq<Byte>, class_: Byte, hops: Byte, source: seq<Byte>,
                  destination: seq<Byte>)
    requires |b| == |c| >= 14 && Framed(p, |c|) && p.networkProtocol == Ipv6 && p == RevaluedNetwork(p, b)
    requires c[0..6] == b[0..6] && c[6..12] == b[6..12]
    requires var o := p.ipv6.headerOffset;
             class_ == ClassOf(c[o], c[o + 1]) && hops == c[o + 7] && source == c[o + 8..o + 24]
               && destination == c[o + 24..o + 40]
    ensures RevaluedNetwork(p, c)
            == p.(ipv6 := p.ipv6.(trafficClass := class_, hopLimit := hops, source := source,
                                  destination := destination))
  {
  }

  lemma SixHeld(p: ParsedPacket, b: seq<Byte>)
    requires |b| >= 14 && Framed(p, |b|) && p.networkProtocol == Ipv6 && p == RevaluedNetwork(p, b)
    ensures var o := p.ipv6.headerOffset;
            && 14 <= o && o + 40 <= |b|
            && p.ipv6.trafficClass == ClassOf(b[o], b[o + 1]) && p.ipv6.hopLimit == b[o + 7]
            && p.ipv6.source == b[o + 8..o + 24] && p.ipv6.destination == b[o + 24..o + 40]
  {
  }

  lemma Ipv6Reread(p: ParsedPacket, b: seq<Byte>, off: nat, data: seq<Byte>)
    requires |b| >= 14 && Framed(p, |b|) && p.networkProtocol == Ipv6 && p == RevaluedNetwork(p, b)
    requires var o := p.ipv6.headerOffset;
             (|data| == 2 && off == o) || (|data| == 1 && off == o + 7)
               || (|data| == 16 && (off == o + 8 || off == o + 24))
    ensures var o := p.ipv6.headerOffset;
            RevaluedNetwork(p, Splice(b, off, data))
            == p.(ipv6 := if off == o then p.ipv6.(trafficClass := ClassOf(data[0], data[1]))
                          else if off == o + 7 then p.ipv6.(hopLimit := data[0])
                          else if off == o + 8 then p.ipv6.(source := data) else p.ipv6.(destination := data))
  {
    hide *;
    SixHeld(p, b);
    var o, c := p.ipv6.headerOffset, Splice(b, off, data);
    Exactly(b, off, data);
    Outside(b, off, data, 0, 6);
    Outside(b, off, data, 6, 12);
    if off != o + 8 { Outside(b, off, data, o + 8, o + 24); }
    if off != o + 24 { Outside(b, off, data, o + 24, o + 40); }
    SixValues(p, b, c, if off == o then ClassOf(data[0], data[1]) else p.ipv6.trafficClass,
              if off == o + 7 then data[0] else p.ipv6.hopLimit,
              if off == o + 8 then data else p.ipv6.source, if off == o + 24 then data else p.ipv6.destination);
  }

  lemma Ipv4Edited(p: ParsedPacket, b: seq<Byte>, e: FieldEdit)
    requires |b| >= 14 && Framed(p, |b|) && p.networkStatus == Present && p.networkProtocol == Ipv4
             && p == RevaluedNetwork(p, b)
    requires e.Ipv4Dscp? || e.Ipv4Ttl? || e.Ipv4Source? || e.Ipv4Destination?
    ensures |Edited(b, p, e)| == |b| && RevaluedNetwork(p, Edited(b, p, e)) == WithField(p, e)
  {
    hide RevaluedNetwork, Splice, TransportFramed;
    var t := TargetOf(b, p, e);
    assert t.offset + |t.data| <= |b|;
    hide Framed, NetworkFramed;
    Ipv4Reread(p, b, t.offset, t.data);
  }

  lemma Ipv6Edited(p: ParsedPacket, b: seq<Byte>, e: FieldEdit)
    requires |b| >= 14 && Framed(p, |b|) && p.networkStatus == Present && p.networkProtocol == Ipv6
             && p == RevaluedNetwork(p, b)
    requires e.Ipv6TrafficClass? || e.Ipv6HopLimit? || e.Ipv6Source? || e.Ipv6Destination?
    ensures |Edited(b, p, e)| == |b| && RevaluedNetwork(p, Edited(b, p, e)) == WithField(p, e)
  {
    hide RevaluedNetwork, Splice, Framed, ClassOf;
    SixHeld(p, b);
    var o := p.ipv6.headerOffset;
    if e.Ipv6TrafficClass? { ClassBack(b[o], b[o + 1], e.class_); }
    Ipv6Reread(p, b, TargetOf(b, p, e).offset, TargetOf(b, p, e).data);
  }

  lemma ClassBack(hi: Byte, lo: Byte, v: Byte)
    ensures ClassOf(hi / 16 * 16 + v / 16, v % 16 * 16 + lo % 16) == v
  {
    LowNibble(hi / 16, v / 16);
    HighNibble(v % 16, lo % 16);
  }

  lemma LowNibble(q: nat, r: nat)
    requires r < 16
    ensures (q * 16 + r) % 16 == r
  {
  }

  lemma EthernetEdited(p: ParsedPacket, b: seq<Byte>, e: FieldEdit)
    requires |b| >= 14 && Framed(p, |b|) && p.networkStatus == Present && p == RevaluedNetwork(p, b)
    requires e.EthernetDestination? || e.EthernetSource?
    ensures |Edited(b, p, e)| == |b| && RevaluedNetwork(p, Edited(b, p, e)) == WithField(p, e)
  {
    hide RevaluedNetwork, Splice, NetworkFramed, TransportFramed;
    EthernetReread(p, b, if e.EthernetDestination? then 0 else 6, e.mac);
  }

  /** Rereading the network layer of an edited frame gives the packet with that field set. */
  lemma NetworkReread(p: ParsedPacket, b: seq<Byte>, e: FieldEdit)
    requires |b| >= 14 && Framed(p, |b|) && p.networkStatus == Present && Expected(p, e).Ok?
    requires p == RevaluedNetwork(p, b) && !OnTransport(e)
    ensures |Edited(b, p, e)| == |b| && RevaluedNetwork(p, Edited(b, p, e)) == WithField(p, e)
  {
    hide RevaluedNetwork, Edited, WithField, NetworkFramed, TransportFramed;
    if e.EthernetDestination? || e.EthernetSource? {
      EthernetEdited(p, b, e);
    } else if p.networkProtocol == Ipv4 {
      Ipv4Edited(p, b, e);
    } else {
      Ipv6Edited(p, b, e);
    }
  }

  predicate OnTransport(e: FieldEdit) { e.TcpFlags? || e.TcpPort? || e.UdpPort? }

  lemma TransportReread(p: ParsedPacket, b: seq<Byte>, e: FieldEdit)
    requires |b| >= 14 && Framed(p, |b|) && p.networkStatus == Present && p.transportStatus == Present
             && Expected(p, e).Ok?
    requires p == RevaluedTransport(p, b, PayloadStart(p)) && OnTransport(e)
    ensures |Edited(b, p, e)| == |b| && RevaluedTransport(p, Edited(b, p, e), PayloadStart(p)) == WithField(p, e)
  {
  }

  lemma SameWindow(a: seq<Byte>, b: seq<Byte>, p: ParsedPacket)
    requires |a| == |b| >= 14 && Framed(p, |a|) && p.networkStatus == Present
    requires forall k :: 0 <= k < PayloadStart(p) ==> a[k] == b[k]
    ensures RevaluedNetwork(p, a) == RevaluedNetwork(p, b)
  {
    var o := NetworkOffset(p);
    assert a[0..6] == b[0..6] && a[6..12] == b[6..12];
    if p.networkProtocol == Ipv4 {
      assert a[o + 12..o + 16] == b[o + 12..o + 16] && a[o + 16..o + 20] == b[o + 16..o + 20];
    } else {
      assert a[o + 8..o + 24] == b[o + 8..o + 24] && a[o + 24..o + 40] == b[o + 24..o + 40];
    }
  }

  /** After an accepted setter, decoding gives the same packet with exactly
      that field set. Stated for every fully decoded packet. */
  lemma SetterReadsBack(b: seq<Byte>, e: FieldEdit)
    requires var p := Parse(b, DEFAULT_CONFIG);
             Framed(p, |b|) && p.networkStatus == Present && p.transportStatus == Present && Expected(p, e).Ok?
    ensures var p := Parse(b, DEFAULT_CONFIG);
            Parse(Edited(b, p, e), DEFAULT_CONFIG) == WithField(p, e)
  {
    var p := Parse(b, DEFAULT_CONFIG);
    SetterTarget(b, p, e);
    var c := Edited(b, p, e);
    if !OnTransport(e) { HeaderEditedSame(b, c, p); }
    ParseStable(b, c, DEFAULT_CONFIG);
    ParseStable(b, b, DEFAULT_CONFIG);
    hide Parse, TargetOf, SameStructure, HeaderEdited, Edited;
    StableReread(p, b, c, e);
  }

  lemma StableReread(p: ParsedPacket, b: seq<Byte>, c: seq<Byte>, e: FieldEdit)
    requires |b| >= 14 && Framed(p, |b|) && p.networkStatus == Present && p.transportStatus == Present
             && Expected(p, e).Ok?
    requires p == Revalued(p, b) && c == Edited(b, p, e) && |c| == |b|
    ensures Revalued(p, c) == WithField(p, e)
  {
    RevaluedParts(p, b);
    if OnTransport(e) {
      TransportReread(p, b, e);
      BeforePayload(p, b, e);
      SameWindow(b, c, p);
    } else {
      NetworkReread(p, b, e);
      AfterHeaders(p, b, e);
      TransportSame(WithField(p, e), b, c, PayloadStart(p));
      FixedTransport(WithField(p, e), p, b, PayloadStart(p));
    }
    hide RevaluedNetwork, RevaluedTransport, WithField, Edited, Framed;
  }

  lemma RevaluedParts(p: ParsedPacket, b: seq<Byte>)
    requires |b| >= 14 && Framed(p, |b|) && p.networkStatus == Present && p.transportStatus == Present
    requires p == Revalued(p, b)
    ensures p == RevaluedNetwork(p, b) && p == RevaluedTransport(p, b, PayloadStart(p))
  {
  }

  lemma FixedTransport(w: ParsedPacket, p: ParsedPacket, b: seq<Byte>, t: nat)
    requires p.transportStatus == Present && w.transportStatus == Present && w.transportProtocol == p.transportProtocol
    requires w.tcp == p.tcp && w.udp == p.udp && w.icmp == p.icmp
    requires t + 4 <= |b| && (p.transportProtocol == Tcp ==> t + 20 <= |b|)
             && (p.transportProtocol == Udp ==> t + 8 <= |b|)
    requires RevaluedTransport(p, b, t) == p
    ensures RevaluedTransport(w, b, t) == w
  {
  }

  lemma BeforePayload(p: ParsedPacket, b: seq<Byte>, e: FieldEdit)
    requires Framed(p, |b|) && p.networkStatus == Present && Expected(p, e).Ok? && OnTransport(e)
    ensures |Edited(b, p, e)| == |b| && PayloadStart(p) <= |b|
    ensures forall k :: 0 <= k < PayloadStart(p) ==> Edited(b, p, e)[k] == b[k]
  {
  }

  lemma AfterHeaders(p: ParsedPacket, b: seq<Byte>, e: FieldEdit)
    requires Framed(p, |b|) && p.networkStatus == Present && p.transportStatus == Present && Expected(p, e).Ok?
             && !OnTransport(e)
    ensures |Edited(b, p, e)| == |b| && Agree(b, Edited(b, p, e), PayloadStart(p), NetworkEnd(p))
  {
  }

  // ---- Packets whose transport was not decoded ---------------------------------------------

  lemma Values6(b: seq<Byte>, e: ParsedPacket, o: nat, cfg: ParserConfig)
    requires 14 <= o <= |b| && AfterEthernet(e) && e.ethernet.headerLen == o && e.config == cfg
    requires ParseIpv6(b, e, o, cfg).networkStatus == Present
    ensures o + 40 <= |b|
    ensures var p, q := ParseIpv6(b, e, o, cfg), Ipv6Entry(b, e, o);
            && p.networkProtocol == Ipv6 && p.ipv6.headerOffset == o
            && p.ipv6.trafficClass == q.ipv6.trafficClass && p.ipv6.hopLimit == q.ipv6.hopLimit
            && p.ipv6.source == q.ipv6.source && p.ipv6.destination == q.ipv6.destination
  {
    NetworkHeader6(b, e, o, cfg);
    var end := o + 40 + Word(b, o + 4);
    var e6 := Ipv6Entry(b, e, o);
    assert AfterFixed6(e6, cfg, o + 40, end, |b|);
    StoppedEnd(b, e6, cfg, b[o + 6], o + 40, end, false);
    hide Chain;
  }

  /** Every decoded network header holds the values that stand in the frame. */
  lemma NetworkReadsBytes(b: seq<Byte>)
    requires Parse(b, DEFAULT_CONFIG).networkStatus == Present
    ensures var p := Parse(b, DEFAULT_CONFIG); |b| >= 14 && Framed(p, |b|) && p == RevaluedNetwork(p, b)
  {
    var p := Parse(b, DEFAULT_CONFIG);
    ParseIsFramed(b, DEFAULT_CONFIG);
    assert p.ethernetStatus == Present && NetworkOffset(p) == p.ethernet.headerLen;
    hide *;
    Relands(b, b, DEFAULT_CONFIG, p);
    var e := Landed(Addressed(b, DEFAULT_CONFIG), p);
    LandedAt(Addressed(b, DEFAULT_CONFIG), p);
    NetworkKeepsEthernet(b, e, p.ethernet.etherType, p.ethernet.headerLen, DEFAULT_CONFIG);
    LandedAddresses(b, p);
    ValuesAt(b, e, p);
  }

  lemma LandedAddresses(b: seq<Byte>, p: ParsedPacket)
    requires |b| >= 14
    ensures var e := Landed(Addressed(b, DEFAULT_CONFIG), p);
            e.ethernet.destination == b[0..6] && e.ethernet.source == b[6..12] && e.config == DEFAULT_CONFIG
  {
  }

  lemma ValuesAt(b: seq<Byte>, e: ParsedPacket, p: ParsedPacket)
    requires 14 <= p.ethernet.headerLen <= |b| && AfterEthernet(e) && e.config == DEFAULT_CONFIG
    requires e.ethernet.headerLen == p.ethernet.headerLen && p.ethernet == e.ethernet
    requires p == ParseNetwork(b, e, p.ethernet.etherType, p.ethernet.headerLen, DEFAULT_CONFIG)
    requires p.networkStatus == Present && Framed(p, |b|)
    requires e.ethernet.destination == b[0..6] && e.ethernet.source == b[6..12]
    ensures p == RevaluedNetwork(p, b)
  {
    hide ParseIpv4, ParseIpv6;
    var o := p.ethernet.headerLen;
    if p.ethernet.etherType == 0x0800 { NetworkHeader4(b, e, o); } else { Values6(b, e, o, DEFAULT_CONFIG); }
  }

  /** The same addresses and value fields, link and network. */
  predicate SameValues(p: ParsedPacket, q: ParsedPacket) {
    && p.ethernet.destination == q.ethernet.destination && p.ethernet.source == q.ethernet.source
    && p.networkProtocol == q.networkProtocol
    && (p.networkProtocol == Ipv4 ==>
          p.ipv4.dscp == q.ipv4.dscp && p.ipv4.ttl == q.ipv4.ttl
          && p.ipv4.source == q.ipv4.source && p.ipv4.destination == q.ipv4.destination)
    && (p.networkProtocol == Ipv6 ==>
          p.ipv6.trafficClass == q.ipv6.trafficClass && p.ipv6.hopLimit == q.ipv6.hopLimit
          && p.ipv6.source == q.ipv6.source && p.ipv6.destination == q.ipv6.destination)
  }

  /** A link or network setter on any IP packet, fragments and undecoded
      transports included, reads back as set and disturbs no other value. */
  lemma NetworkSetterReadsBack(b: seq<Byte>, e: FieldEdit)
    requires var p := Parse(b, DEFAULT_CONFIG);
             Framed(p, |b|) && p.networkStatus == Present && Expected(p, e).Ok? && !OnTransport(e)
    ensures var p := Parse(b, DEFAULT_CONFIG);
            var q := Parse(Edited(b, p, e), DEFAULT_CONFIG);
            q.networkStatus == Present && SameValues(q, WithField(p, e))
  {
    var p := Parse(b, DEFAULT_CONFIG);
    SetterShape(b, e);
    NetworkReadsBytes(b);
    hide Parse, TargetOf, Expected, Framed, WithField, RevaluedNetwork, SameValues;
    NetworkReread(p, b, e);
    var c := Edited(b, p, e);
    NetworkReadsBytes(c);
    SameSource(p, Parse(c, DEFAULT_CONFIG), c);
  }

  lemma SameSource(p: ParsedPacket, q: ParsedPacket, c: seq<Byte>)
    requires |c| >= 14 && Framed(p, |c|) && Framed(q, |c|) && p.networkStatus == Present && q.networkStatus == Present
    requires q == RevaluedNetwork(q, c) && q.networkProtocol == p.networkProtocol
             && NetworkOffset(q) == NetworkOffset(p)
    ensures SameValues(q, RevaluedNetwork(p, c))
  {
  }

  /** The DSCP setter keeps the ECN bits; the traffic class setter keeps the
      version and the flow label. */
  lemma SharedBitsKept(b: seq<Byte>, p: ParsedPacket, e: FieldEdit)
    requires Framed(p, |b|) && Expected(p, e).Ok? && (e.Ipv4Dscp? || e.Ipv6TrafficClass?)
    ensures var o, c := NetworkOffset(p), Edited(b, p, e);
            && o + 20 <= |b| == |c|
            && (e.Ipv4Dscp? ==> c[o + 1] % 4 == b[o + 1] % 4)
            && (e.Ipv6TrafficClass? ==> c[o] / 16 == b[o] / 16 && c[o + 1] % 16 == b[o + 1] % 16)
            && (forall k :: o + 2 <= k < |b| ==> c[k] == b[k])
  {
    var o := NetworkOffset(p);
    hide Splice;
    if e.Ipv6TrafficClass? {
      HighNibble(b[o] / 16, e.class_ / 16);
      LowNibble(e.class_ % 16, b[o + 1] % 16);
    }
  }
}
