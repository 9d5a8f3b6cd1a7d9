/** What a caller can rely on when it decodes a frame. */
module ParsingTheorems {
  import opened Prelude
  import opened Parsing
  import opened ParsingFacts

  /** Rereading transport values from equal bytes changes nothing. */
  lemma TransportSame(p: ParsedPacket, a: seq<Byte>, b: seq<Byte>, t: nat)
    requires p.transportStatus == Present
    requires Agree(a, b, t, t + 4) && (p.transportProtocol == Tcp ==> Agree(a, b, t, t + 20))
             && (p.transportProtocol == Udp ==> Agree(a, b, t, t + 8))
    ensures RevaluedTransport(p, a, t) == RevaluedTransport(p, b, t)
  {
    assert a[t] == b[t] && a[t + 1] == b[t + 1] && a[t + 2] == b[t + 2] && a[t + 3] == b[t + 3];
    if p.transportProtocol == Udp { assert a[t + 6] == b[t + 6] && a[t + 7] == b[t + 7]; }
  }

  // ---- Network layer alone ---------------------------------------------------

  lemma NetworkHeader4(a: seq<Byte>, e: ParsedPacket, o: nat)
    requires o <= |a|
    ensures var p := ParseIpv4(a, e, o);
            if Accepts4(a, o) then
              p.networkStatus == Present && p.networkProtocol == Ipv4 && p.ipv4 == Ipv4Entry(a, e, o).ipv4
            else p.networkStatus != Present
  {
  }

  lemma NetworkHeader6(a: seq<Byte>, e: ParsedPacket, o: nat, cfg: ParserConfig)
    requires 14 <= o <= |a| && AfterEthernet(e) && e.ethernet.headerLen == o && e.config == cfg
    ensures var p := ParseIpv6(a, e, o, cfg);
            if o + 40 <= |a| && a[o] / 16 == 6 && o + 40 + Word(a, o + 4) <= |a| then
              p.networkStatus == Present && p.networkProtocol == Ipv6
              && p.ipv6.headerOffset == o && NetworkEnd(p) == o + 40 + Word(a, o + 4)
            else p.networkStatus != Present
  {
    if o + 40 <= |a| && a[o] / 16 == 6 && o + 40 + Word(a, o + 4) <= |a| {
      var end := o + 40 + Word(a, o + 4);
      var e6 := Ipv6Entry(a, e, o);
      assert AfterFixed6(e6, cfg, o + 40, end, |a|);
      hide Chain, ParseTransport;
      ChainIsFramed(a, e6, cfg, a[o + 6], o + 40, end, false);
      var c := Chain6(a, e, o, cfg);
      if c.Stop? {
        StoppedEnd(a, e6, cfg, a[o + 6], o + 40, end, false);
      } else {
        NetworkKept(a, c, end - c.cursor);
      }
    }
  }

  /** A refused chain keeps the fixed header's fields. */
  lemma {:induction false} StoppedEnd(b: seq<Byte>, e: ParsedPacket, cfg: ParserConfig, next: Byte, cursor: nat,
                                      end: nat, saw: bool)
    requires cursor <= end <= |b| && AfterFixed6(e, cfg, cursor, end, |b|)
    ensures var c := Chain(b, e, cfg, next, cursor, end, saw);
            && c.entry.ipv6.headerOffset == e.ipv6.headerOffset && c.entry.ipv6.payloadLen == e.ipv6.payloadLen
            && c.entry.ipv6.trafficClass == e.ipv6.trafficClass && c.entry.ipv6.hopLimit == e.ipv6.hopLimit
            && c.entry.ipv6.source == e.ipv6.source && c.entry.ipv6.destination == e.ipv6.destination
    decreases end - cursor
  {
    hide Chain;
    ChainTurn(b, e, cfg, next, cursor, end, saw);
    if Accepts(b, e, cfg, next, cursor, end, saw) {
      var length := ExtensionLength(b, next, cursor);
      var e' := Stepped(b, e, next, cursor, e.ipv6.extensionBytes + length);
      StepIsFramed(b, e, cfg, next, cursor, end, e.ipv6.extensionBytes + length);
      if !e'.nonInitialFragment {
        StoppedEnd(b, e', cfg, b[cursor], cursor + length, end, saw || next == 44);
      }
    }
  }

  /** A frame that agrees with a decoded network header on its structural
      bytes decodes to the same network header layout. */
  lemma NetworkStable(a: seq<Byte>, b: seq<Byte>, cfg: ParserConfig)
    requires Parse(a, cfg).networkStatus == Present && SameNetwork(a, b, Parse(a, cfg))
    ensures var p, q := Parse(a, cfg), Parse(b, cfg);
            && q.ethernetStatus == Present && q.networkStatus == Present && q.networkProtocol == p.networkProtocol
            && NetworkOffset(q) == NetworkOffset(p) && NetworkEnd(q) == NetworkEnd(p)
            && (p.networkProtocol == Ipv4 ==> q.ipv4.headerLen == p.ipv4.headerLen)
  {
    ParseIsFramed(a, cfg);
    var p := Parse(a, cfg);
    var o := p.ethernet.headerLen;
    Relands(a, b, cfg, p);
    var e, f := Landed(Addressed(a, cfg), p), Landed(Addressed(b, cfg), p);
    if p.ethernet.etherType == 0x0800 {
      Stable4(a, b, e, f, o, p);
    } else {
      Stable6(a, b, e, f, o, cfg, p);
    }
  }

  lemma Stable4(a: seq<Byte>, b: seq<Byte>, e: ParsedPacket, f: ParsedPacket, o: nat, p: ParsedPacket)
    requires o <= |a| && o <= |b| && p == ParseIpv4(a, e, o) && p.networkStatus == Present && SameNetwork(a, b, p)
    requires e.ethernetStatus == Present && f.ethernetStatus == Present
    ensures var q := ParseIpv4(b, f, o);
            && q.ethernetStatus == Present && q.networkStatus == Present
               && q.networkProtocol == Ipv4 == p.networkProtocol
            && q.ipv4.headerOffset == p.ipv4.headerOffset == o
            && q.ipv4.headerLen == p.ipv4.headerLen && q.ipv4.totalLen == p.ipv4.totalLen
  {
    NetworkHeader4(a, e, o);
    assert a[o + 2] == b[o + 2] && a[o + 3] == b[o + 3];
    NetworkHeader4(b, f, o);
  }

  lemma Stable6(a: seq<Byte>, b: seq<Byte>, e: ParsedPacket, f: ParsedPacket, o: nat, cfg: ParserConfig,
                p: ParsedPacket)
    requires 14 <= o <= |a| && AfterEthernet(e) && e.ethernet.headerLen == o && e.config == cfg
    requires o <= |b| && AfterEthernet(f) && f.ethernet.headerLen == o && f.config == cfg
    requires p == ParseIpv6(a, e, o, cfg) && p.networkStatus == Present && SameNetwork(a, b, p)
    ensures var q := ParseIpv6(b, f, o, cfg);
            && q.networkStatus == Present && q.networkProtocol == Ipv6 == p.networkProtocol
            && q.ipv6.headerOffset == p.ipv6.headerOffset == o && NetworkEnd(q) == NetworkEnd(p)
            && q.ethernetStatus == Present
  {
    NetworkHeader6(a, e, o, cfg);
    assert a[o + 4] == b[o + 4] && a[o + 5] == b[o + 5];
    NetworkHeader6(b, f, o, cfg);
    Ipv6IsFramed(b, f, o, cfg);
  }

  /** The decoded length fields are the stored ones. */
  lemma ParsedLengths(a: seq<Byte>, cfg: ParserConfig)
    requires Parse(a, cfg).networkStatus == Present
    ensures var p := Parse(a, cfg);
            && Framed(p, |a|)
            && (p.networkProtocol == Ipv4 ==> p.ipv4.totalLen == Word(a, NetworkOffset(p) + 2))
            && (p.networkProtocol == Ipv6 ==> p.ipv6.payloadLen == Word(a, NetworkOffset(p) + 4))
            && (p.transportProtocol == Udp ==> p.udp.length == Word(a, TransportOffset(p) + 4))
  {
    var p := Parse(a, cfg);
    ParseIsFramed(a, cfg);
    assert p.ethernetStatus == Present && NetworkOffset(p) == p.ethernet.headerLen;
    hide *;
    Relands(a, a, cfg, p);
    LandedAt(Addressed(a, cfg), p);
    NetworkLengths(a, Landed(Addressed(a, cfg), p), p.ethernet.headerLen, cfg, p);
  }

  lemma LandedAt(e: ParsedPacket, p: ParsedPacket)
    ensures Landed(e, p).ethernet.headerLen == p.ethernet.headerLen && Landed(e, p).config == e.config
  {
  }

  lemma NetworkLengths(a: seq<Byte>, e: ParsedPacket, o: nat, cfg: ParserConfig, p: ParsedPacket)
    requires 14 <= o <= |a| && AfterEthernet(e) && e.ethernet.headerLen == o && e.config == cfg
    requires p == ParseNetwork(a, e, p.ethernet.etherType, o, cfg) && p.networkStatus == Present && Framed(p, |a|)
    ensures p.networkProtocol == Ipv4 ==> p.ipv4.totalLen == Word(a, o + 2)
    ensures p.networkProtocol == Ipv6 ==> p.ipv6.payloadLen == Word(a, o + 4)
    ensures p.transportProtocol == Udp ==> p.udp.length == Word(a, TransportOffset(p) + 4)
  {
    hide ParseIpv4, ParseIpv6;
    if p.ethernet.etherType == 0x0800 { Lengths4(a, e, o, p); } else { Lengths6(a, e, o, cfg, p); }
  }

  lemma Lengths4(a: seq<Byte>, e: ParsedPacket, o: nat, p: ParsedPacket)
    requires o <= |a| && AfterEthernet(e) && e.ethernet.headerLen == o
    requires p == ParseIpv4(a, e, o) && p.networkStatus == Present && Framed(p, |a|)
    ensures p.networkProtocol == Ipv4 && p.ipv4.totalLen == Word(a, o + 2)
    ensures p.transportProtocol == Udp ==> p.udp.length == Word(a, TransportOffset(p) + 4)
  {
    NetworkHeader4(a, e, o);
    if p.transportProtocol == Udp {
      Ipv4Lands(a, e, o, p);
      TransportLength(a, Ipv4Entry(a, e, o), a[o + 9], o + a[o] % 16 * 4, Word(a, o + 2) - a[o] % 16 * 4, p);
    }
  }

  lemma Lengths6(a: seq<Byte>, e: ParsedPacket, o: nat, cfg: ParserConfig, p: ParsedPacket)
    requires 14 <= o <= |a| && AfterEthernet(e) && e.ethernet.headerLen == o && e.config == cfg
    requires p == ParseIpv6(a, e, o, cfg) && p.networkStatus == Present && Framed(p, |a|)
    ensures p.networkProtocol == Ipv6 && p.ipv6.payloadLen == Word(a, o + 4)
    ensures p.transportProtocol == Udp ==> p.udp.length == Word(a, TransportOffset(p) + 4)
  {
    NetworkHeader6(a, e, o, cfg);
    if p.transportProtocol == Udp {
      Ipv6Lands(a, e, o, cfg, p);
      var c := Chain6(a, e, o, cfg);
      TransportLength(a, c.entry, c.next, c.cursor, o + 40 + Word(a, o + 4) - c.cursor, p);
    }
  }

  lemma TransportLength(a: seq<Byte>, e: ParsedPacket, protocol: Byte, off: nat, available: nat, p: ParsedPacket)
    requires off + available <= |a| && e.transportStatus != Present
    requires p == ParseTransport(a, e, protocol, off, available) && p.transportStatus == Present
             && p.transportProtocol == Udp
    ensures available >= 8 && p.udp.headerOffset == off && p.udp.length == Word(a, off + 4)
  {
  }

  /** The IPv4 header checksum is never read by the decoder. */
  lemma HeaderChecksumUnread(a: seq<Byte>, b: seq<Byte>, cfg: ParserConfig)
    requires Parse(a, cfg).networkProtocol == Ipv4 && |a| == |b|
    requires var o := Parse(a, cfg).ipv4.headerOffset;
             forall k :: 0 <= k < |a| && !(o + 10 <= k < o + 12) ==> a[k] == b[k]
    ensures Parse(b, cfg) == Parse(a, cfg)
  {
    var p := Parse(a, cfg);
    ParseIsFramed(a, cfg);
    Relands(a, b, cfg, p);
    var e, f, o := Landed(Addressed(a, cfg), p), Landed(Addressed(b, cfg), p), p.ethernet.headerLen;
    assert a[0..6] == b[0..6] && a[6..12] == b[6..12];
    assert e == f;
    if p.ethernet.etherType == 0x86dd { NetworkHeader6(a, e, o, cfg); }
    NetworkHeader4(a, e, o);
    Ipv4Blind(a, b, e, o);
  }

  lemma Ipv4Blind(a: seq<Byte>, b: seq<Byte>, e: ParsedPacket, o: nat)
    requires o <= |a| == |b| && Accepts4(a, o)
    requires forall k :: 0 <= k < |a| && !(o + 10 <= k < o + 12) ==> a[k] == b[k]
    ensures ParseIpv4(b, e, o) == ParseIpv4(a, e, o)
  {
    assert a[o + 12..o + 16] == b[o + 12..o + 16] && a[o + 16..o + 20] == b[o + 16..o + 20];
    assert Ipv4Entry(a, e, o) == Ipv4Entry(b, e, o);
    var headerLen, totalLen := a[o] % 16 * 4, Word(a, o + 2);
    TransportSameBytes(a, b, Ipv4Entry(a, e, o), a[o + 9], o + headerLen, totalLen - headerLen);
  }

  lemma TransportSameBytes(a: seq<Byte>, b: seq<Byte>, e: ParsedPacket, protocol: Byte, off: nat, available: nat)
    requires off + available <= |a| && Agree(a, b, off, off + available)
    ensures ParseTransport(a, e, protocol, off, available) == ParseTransport(b, e, protocol, off, available)
  {
  }
}
