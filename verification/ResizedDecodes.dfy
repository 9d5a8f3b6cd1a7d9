/** Decoding a frame whose declared lengths were rewritten: the headers stand
    where they stood and the lengths are the stored ones. */
module ResizedDecodes {
  import opened Prelude
  import opened Parsing
  import opened ParsingFacts
  import opened Extents

  /** Decodes with the same headers at the same places; lengths may differ. */
  ghost predicate SameHeaders(p: ParsedPacket, q: ParsedPacket) {
    && q.ethernetStatus == Present && q.networkStatus == Present && q.transportStatus == Present
    && q.networkProtocol == p.networkProtocol && q.transportProtocol == p.transportProtocol
    && q.incompleteFragment == p.incompleteFragment
    && NetworkOffset(q) == NetworkOffset(p) && (p.networkProtocol == Ipv4 ==> q.ipv4.headerLen == p.ipv4.headerLen)
    && TransportOffset(q) == TransportOffset(p) && (p.transportProtocol == Tcp ==> q.tcp.headerLen == p.tcp.headerLen)
  }

  /** Agreement on the bytes that decide which headers there are, lengths left out. */
  ghost predicate Bones(a: seq<Byte>, b: seq<Byte>, p: ParsedPacket) {
    var o, t := NetworkOffset(p), PayloadStart(p);
    && HasTransport(p) && Framed(p, |a|)
    && Agree(a, b, 12, o)
    && (p.networkProtocol == Ipv4 ==> t <= |b| && a[o] == b[o] && Agree(a, b, o + 6, o + 8) && a[o + 9] == b[o + 9])
    && (p.networkProtocol == Ipv6 ==> t <= |b| && a[o] / 16 == b[o] / 16 && a[o + 6] == b[o + 6]
                                      && Agree(a, b, o + 40, t))
    && (p.transportProtocol == Tcp ==> t + 13 <= |b| && a[t + 12] / 16 == b[t + 12] / 16)
  }

  /** The network length stored in `b` where `p` has its network header. */
  function StoredNetworkLen(b: seq<Byte>, p: ParsedPacket): nat
    requires NetworkOffset(p) + 6 <= |b|
  {
    if p.networkProtocol == Ipv4 then Word(b, NetworkOffset(p) + 2) else 40 + Word(b, NetworkOffset(p) + 4)
  }

  /** The stored lengths leave room for the headers and stay inside the frame. */
  ghost predicate LengthsFit(b: seq<Byte>, p: ParsedPacket) {
    var o, t := NetworkOffset(p), TransportOffset(p);
    && o + 6 <= |b| && o + StoredNetworkLen(b, p) <= |b|
    && t + (if p.transportProtocol == Udp then 8 else p.tcp.headerLen) <= o + StoredNetworkLen(b, p)
    && (p.transportProtocol == Udp ==> 8 <= Word(b, t + 4) && t + Word(b, t + 4) <= o + StoredNetworkLen(b, p))
  }

  /** Entries the extension walk treats alike. */
  predicate WalkAlike(e: ParsedPacket, f: ParsedPacket) {
    && f.ipv6.extensionHeaders == e.ipv6.extensionHeaders && f.ipv6.extensionBytes == e.ipv6.extensionBytes
    && f.nonInitialFragment == e.nonInitialFragment && f.incompleteFragment == e.incompleteFragment
  }

  lemma StepAlike(a: seq<Byte>, b: seq<Byte>, e: ParsedPacket, f: ParsedPacket, next: Byte, cursor: nat, bytes: U16)
    requires e.ipv6.extensionHeaders < 255 && Agree(a, b, cursor, cursor + 4) && WalkAlike(e, f)
    ensures WalkAlike(Stepped(a, e, next, cursor, bytes), Stepped(b, f, next, cursor, bytes))
    ensures Stepped(a, e, next, cursor, bytes).ipv6.extensionHeaders == e.ipv6.extensionHeaders + 1
  {
    assert a[cursor + 2] == b[cursor + 2] && a[cursor + 3] == b[cursor + 3];
  }

  /** A delivered walk is delivered at the same place whatever payload end lies behind that place. */
  lemma {:induction false} ChainCarries(a: seq<Byte>, b: seq<Byte>, e: ParsedPacket, f: ParsedPacket, cfg: ParserConfig,
                                        next: Byte, cursor: nat, end: nat, end': nat, sawFragment: bool)
    requires cursor <= end <= |a| && cursor <= end' <= |b| && WalkAlike(e, f)
    requires e.ipv6.extensionHeaders <= cfg.maxHeaders
    requires var c := Chain(a, e, cfg, next, cursor, end, sawFragment);
             c.Deliver? && c.cursor <= end' && Agree(a, b, cursor, c.cursor)
    ensures var c, d := Chain(a, e, cfg, next, cursor, end, sawFragment),
            Chain(b, f, cfg, next, cursor, end', sawFragment);
            d.Deliver? && d.next == c.next && d.cursor == c.cursor && WalkAlike(c.entry, d.entry)
    decreases end - cursor
  {
    hide Chain, Stepped;
    ChainTurn(a, e, cfg, next, cursor, end, sawFragment);
    ChainTurn(b, f, cfg, next, cursor, end', sawFragment);
    if IsExtension(next) {
      DeliveredStep(a, e, cfg, next, cursor, end, sawFragment);
      var length := ExtensionLength(a, next, cursor);
      assert 8 <= length && cursor + length <= Chain(a, e, cfg, next, cursor, end, sawFragment).cursor;
      assert a[cursor] == b[cursor] && a[cursor + 1] == b[cursor + 1];
      assert ExtensionLength(b, next, cursor) == length;
      var bytes := e.ipv6.extensionBytes + length;
      assert e.ipv6.extensionHeaders < cfg.maxHeaders <= 255;
      StepAlike(a, b, e, f, next, cursor, bytes);
      ChainCarries(a, b, Stepped(a, e, next, cursor, bytes), Stepped(b, f, next, cursor, bytes), cfg,
                   a[cursor], cursor + length, end, end', sawFragment || next == 44);
    } else {
      DeliverNow(a, b, e, f, cfg, next, cursor, end, end', sawFragment);
    }
  }

  lemma DeliverNow(a: seq<Byte>, b: seq<Byte>, e: ParsedPacket, f: ParsedPacket, cfg: ParserConfig,
                   next: Byte, cursor: nat, end: nat, end': nat, sawFragment: bool)
    requires cursor <= end <= |a| && cursor <= end' <= |b| && !IsExtension(next)
    requires e.ipv6.extensionHeaders <= cfg.maxHeaders && f.ipv6.extensionHeaders <= cfg.maxHeaders
    requires Chain(a, e, cfg, next, cursor, end, sawFragment).Deliver?
    ensures Chain(a, e, cfg, next, cursor, end, sawFragment) == Deliver(e, next, cursor)
    ensures Chain(b, f, cfg, next, cursor, end', sawFragment) == Deliver(f, next, cursor)
  {
  }

  /** A decoded TCP or UDP header is decoded again wherever it still fits. */
  lemma TransportCarries(a: seq<Byte>, b: seq<Byte>, e: ParsedPacket, f: ParsedPacket, protocol: Byte, off: nat,
                         available: nat, available': nat, p: ParsedPacket)
    requires off + available <= |a| && off + available' <= |b| && e.transportStatus != Present
    requires p == ParseTransport(a, e, protocol, off, available) && HasTransport(p)
    requires p.transportProtocol == Tcp ==>
               20 <= available && 20 <= p.tcp.headerLen <= available' && a[off + 12] / 16 == b[off + 12] / 16
    requires p.transportProtocol == Udp ==> 8 <= available' && 8 <= Word(b, off + 4) <= available'
    ensures var q := ParseTransport(b, f, protocol, off, available');
            && q.transportStatus == Present && q.transportProtocol == p.transportProtocol
            && TransportOffset(q) == TransportOffset(p) == off
            && (p.transportProtocol == Tcp ==> q.tcp.headerLen == p.tcp.headerLen)
            && q == f.(transportStatus := Present, transportProtocol := q.transportProtocol, tcp := q.tcp, udp := q.udp)
  {
    if p.transportProtocol == Tcp {
      TcpCarries(a, b, e, f, protocol, off, available, available', p);
    } else {
      UdpCarries(a, b, e, f, protocol, off, available, available', p);
    }
    hide ParseTransport;
  }

  lemma TcpCarries(a: seq<Byte>, b: seq<Byte>, e: ParsedPacket, f: ParsedPacket, protocol: Byte, off: nat,
                   available: nat, available': nat, p: ParsedPacket)
    requires off + available <= |a| && off + available' <= |b| && e.transportStatus != Present
    requires p == ParseTransport(a, e, protocol, off, available) && p.transportStatus == Present
             && p.transportProtocol == Tcp
    requires 20 <= available && 20 <= p.tcp.headerLen <= available' && a[off + 12] / 16 == b[off + 12] / 16
    ensures var q := ParseTransport(b, f, protocol, off, available');
            && q == f.(transportStatus := Present, transportProtocol := Tcp, tcp := q.tcp)
            && q.tcp.headerOffset == p.tcp.headerOffset == off && q.tcp.headerLen == p.tcp.headerLen
  {
  }

  lemma UdpCarries(a: seq<Byte>, b: seq<Byte>, e: ParsedPacket, f: ParsedPacket, protocol: Byte, off: nat,
                   available: nat, available': nat, p: ParsedPacket)
    requires off + available <= |a| && off + available' <= |b| && e.transportStatus != Present
    requires p == ParseTransport(a, e, protocol, off, available) && p.transportStatus == Present
             && p.transportProtocol == Udp
    requires 8 <= available' && 8 <= Word(b, off + 4) <= available'
    ensures var q := ParseTransport(b, f, protocol, off, available');
            && q == f.(transportStatus := Present, transportProtocol := Udp, udp := q.udp)
            && q.udp.headerOffset == p.udp.headerOffset == off
  {
  }

  /** An accepted IPv4 header that starts no later fragment hands its payload to the transport decoder. */
  lemma Delivers4(b: seq<Byte>, f: ParsedPacket, o: nat)
    requires Accepts4(b, o) && Word(b, o + 6) % 0x2000 == 0 && f.ethernetStatus == Present
    ensures ParseIpv4(b, f, o)
            == ParseTransport(b, Ipv4Entry(b, f, o), b[o + 9], o + b[o] % 16 * 4, Word(b, o + 2) - b[o] % 16 * 4)
  {
    hide ParseTransport;
  }

  lemma Carries4(a: seq<Byte>, b: seq<Byte>, e: ParsedPacket, f: ParsedPacket, o: nat, p: ParsedPacket)
    requires 14 <= o <= |a| && AfterEthernet(e) && e.ethernet.headerLen == o && o <= |b| && f.ethernetStatus == Present
    requires p == ParseIpv4(a, e, o) && Framed(p, |a|) && Bones(a, b, p) && LengthsFit(b, p)
    ensures SameHeaders(p, ParseIpv4(b, f, o))
  {
    hide ParseIpv4, ParseTransport, Framed;
    Ipv4Lands(a, e, o, p);
    FramedTcp(p, |a|);
    var headerLen, totalLen, totalLen' := a[o] % 16 * 4, Word(a, o + 2), Word(b, o + 2);
    assert a[o + 6] == b[o + 6] && a[o + 7] == b[o + 7];
    Delivers4(b, f, o);
    TransportCarries(a, b, Ipv4Entry(a, e, o), Ipv4Entry(b, f, o), a[o + 9], o + headerLen,
                     totalLen - headerLen, totalLen' - headerLen, p);
    KeptByTransport(a, Deliver(Ipv4Entry(a, e, o), a[o + 9], o + headerLen), totalLen - headerLen, p);
  }

  lemma FramedTcp(p: ParsedPacket, n: nat)
    requires Framed(p, n)
    ensures p.transportProtocol == Tcp ==> 20 <= p.tcp.headerLen
    ensures p.transportProtocol == Tcp ==> TransportOffset(p) + 20 <= NetworkEnd(p)
    ensures p.transportStatus == Present ==> TransportOffset(p) == PayloadStart(p)
  {
  }

  /** The walk over the rewritten frame, from its own fixed header. */
  lemma Walk6(b: seq<Byte>, f: ParsedPacket, o: nat, cfg: ParserConfig)
    requires 14 <= o && o + 40 <= |b| && b[o] / 16 == 6 && o + 40 + Word(b, o + 4) <= |b|
    requires AfterEthernet(f) && f.ethernet.headerLen == o && f.config == cfg
    ensures var d := Chain6(b, f, o, cfg);
            d.Deliver? ==>
              && d.cursor <= o + 40 + Word(b, o + 4)
              && d.entry.networkProtocol == Ipv6 && d.entry.networkStatus == Present
                 && d.entry.ethernetStatus == Present
              && d.entry.ipv6.headerOffset == o
              && ParseIpv6(b, f, o, cfg) == ParseTransport(b, d.entry, d.next, d.cursor,
                                                           o + 40 + Word(b, o + 4) - d.cursor)
  {
    var end := o + 40 + Word(b, o + 4);
    var f6 := Ipv6Entry(b, f, o);
    assert AfterFixed6(f6, cfg, o + 40, end, |b|);
    ChainIsFramed(b, f6, cfg, b[o + 6], o + 40, end, false);
    hide Chain, ParseTransport;
  }

  lemma Carries6(a: seq<Byte>, b: seq<Byte>, e: ParsedPacket, f: ParsedPacket, o: nat, cfg: ParserConfig,
                 p: ParsedPacket)
    requires 14 <= o <= |a| && AfterEthernet(e) && e.ethernet.headerLen == o && e.config == cfg
    requires o <= |b| && AfterEthernet(f) && f.ethernet.headerLen == o && f.config == cfg
    requires p == ParseIpv6(a, e, o, cfg) && Framed(p, |a|) && Bones(a, b, p) && LengthsFit(b, p)
    ensures SameHeaders(p, ParseIpv6(b, f, o, cfg))
  {
    hide Chain, ParseTransport, Framed, ParseIpv6, AfterFixed6;
    Ipv6Lands(a, e, o, cfg, p);
    FramedTcp(p, |a|);
    var c, end, end' := Chain6(a, e, o, cfg), o + 40 + Word(a, o + 4), o + 40 + Word(b, o + 4);
    PresentAfter(p, c, cfg, end, |a|);
    ChainCarries(a, b, Ipv6Entry(a, e, o), Ipv6Entry(b, f, o), cfg, a[o + 6], o + 40, end, end', false);
    Walk6(b, f, o, cfg);
    var d := Chain6(b, f, o, cfg);
    TransportCarries(a, b, c.entry, d.entry, c.next, c.cursor, end - c.cursor, end' - c.cursor, p);
    KeptByTransport(a, c, end - c.cursor, p);
  }

  lemma PresentAfter(p: ParsedPacket, c: ChainEnd, cfg: ParserConfig, end: nat, n: nat)
    requires c.Deliver? && AfterFixed6(c.entry, cfg, c.cursor, end, n)
    ensures c.entry.transportStatus != Present && c.cursor <= end == NetworkEnd(c.entry)
  {
  }

  lemma KeptByTransport(a: seq<Byte>, c: ChainEnd, available: nat, p: ParsedPacket)
    requires c.Deliver? && c.cursor + available <= |a| && p == ParseTransport(a, c.entry, c.next, c.cursor, available)
    ensures p.incompleteFragment == c.entry.incompleteFragment && p.networkProtocol == c.entry.networkProtocol
  {
  }

  /** A frame with the headers of a decoded TCP or UDP packet and stored lengths
      that fit decodes to the same headers. */
  lemma BonesDecode(a: seq<Byte>, b: seq<Byte>, cfg: ParserConfig)
    requires var p := Parse(a, cfg); Bones(a, b, p) && LengthsFit(b, p)
    ensures SameHeaders(Parse(a, cfg), Parse(b, cfg))
  {
    var p := Parse(a, cfg);
    ParseIsFramed(a, cfg);
    Relands(a, b, cfg, p);
    hide Parse, ParseIpv4, ParseIpv6, Framed, Bones, LengthsFit, SameHeaders;
    var e, f, o := Landed(Addressed(a, cfg), p), Landed(Addressed(b, cfg), p), p.ethernet.headerLen;
    if p.ethernet.etherType == 0x0800 { Carries4(a, b, e, f, o, p); } else { Carries6(a, b, e, f, o, cfg, p); }
  }
}
