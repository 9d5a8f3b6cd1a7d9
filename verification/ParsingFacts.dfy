/** What every decoded frame satisfies, and which bytes a decode depends on. */
module ParsingFacts {
  import opened Prelude
  import opened Parsing

  // ---- Shape of a result -------------------------------------------------

  /** First byte after the network header and any extension headers. */
  function PayloadStart(p: ParsedPacket): nat {
    match p.networkProtocol
    case Ipv4 => p.ipv4.headerOffset + p.ipv4.headerLen
    case Ipv6 => p.ipv6.headerOffset + 40 + p.ipv6.extensionBytes
    case NoNetwork => 0
  }

  /** First byte after the declared network packet; padding starts here. */
  function NetworkEnd(p: ParsedPacket): nat {
    match p.networkProtocol
    case Ipv4 => p.ipv4.headerOffset + p.ipv4.totalLen
    case Ipv6 => p.ipv6.headerOffset + 40 + p.ipv6.payloadLen
    case NoNetwork => 0
  }

  function NetworkOffset(p: ParsedPacket): nat {
    if p.networkProtocol == Ipv4 then p.ipv4.headerOffset else p.ipv6.headerOffset
  }

  function TransportOffset(p: ParsedPacket): nat {
    match p.transportProtocol
    case Tcp => p.tcp.headerOffset
    case Udp => p.udp.headerOffset
    case _ => p.icmp.headerOffset
  }

  predicate NetworkFramed(p: ParsedPacket, n: nat) {
    && (p.networkProtocol == NoNetwork <==> p.networkStatus != Present)
    && (p.networkStatus == Present ==>
          p.ethernetStatus == Present && 14 <= p.ethernet.headerLen
          && NetworkOffset(p) == p.ethernet.headerLen
          && PayloadStart(p) <= NetworkEnd(p) <= n)
    && (p.networkProtocol == Ipv4 ==> 20 <= p.ipv4.headerLen <= 60 && p.ipv4.headerLen % 4 == 0)
    && (p.networkProtocol == Ipv6 ==>
          p.ipv6.extensionHeaders <= p.config.maxHeaders
          && p.ipv6.extensionBytes <= p.config.maxBytes
          && 8 * p.ipv6.extensionHeaders <= p.ipv6.extensionBytes)
  }

  predicate TransportFramed(p: ParsedPacket) {
    && (p.transportProtocol == NoTransport <==> p.transportStatus != Present)
    && (p.transportStatus == Present ==>
          p.networkStatus == Present && !p.nonInitialFragment && TransportOffset(p) == PayloadStart(p))
    && (p.transportProtocol == Tcp ==>
          20 <= p.tcp.headerLen && p.tcp.headerLen % 4 == 0 && TransportOffset(p) + p.tcp.headerLen <= NetworkEnd(p))
    && (p.transportProtocol == Udp ==>
          8 <= p.udp.length && TransportOffset(p) + 8 <= NetworkEnd(p)
          && (!p.incompleteFragment ==> TransportOffset(p) + p.udp.length <= NetworkEnd(p)))
    && (p.transportStatus == Present && p.transportProtocol != Tcp && p.transportProtocol != Udp ==>
          TransportOffset(p) + 4 <= NetworkEnd(p))
  }

  /** The guarantees of a decode of an `n`-byte frame. */
  predicate Framed(p: ParsedPacket, n: nat) {
    && p.ethernetStatus != Unparsed && p.networkStatus != Unparsed && p.transportStatus != Unparsed
    && |p.ethernet.vlanTci| == 2 && p.ethernet.vlanCount <= 2
    && NetworkFramed(p, n) && TransportFramed(p)
  }

  predicate AfterEthernet(e: ParsedPacket) {
    && e.ethernetStatus == Present && 14 <= e.ethernet.headerLen
    && |e.ethernet.vlanTci| == 2 && e.ethernet.vlanCount <= 2
    && e.transportProtocol == NoTransport && e.networkProtocol == NoNetwork
    && e.networkStatus == Unparsed && e.transportStatus == Unparsed
    && !e.nonInitialFragment && !e.incompleteFragment
  }

  /** Entry state inside the extension chain. */
  predicate AfterFixed6(e: ParsedPacket, cfg: ParserConfig, cursor: nat, end: nat, n: nat) {
    InChain(e, cfg, cursor, end, n) && !e.nonInitialFragment
  }

  /** The same, whatever fragment the packet may be. */
  predicate InChain(e: ParsedPacket, cfg: ParserConfig, cursor: nat, end: nat, n: nat) {
    && e.ethernetStatus == Present && |e.ethernet.vlanTci| == 2 && e.ethernet.vlanCount <= 2
    && e.networkStatus == Present && e.networkProtocol == Ipv6
    && e.transportProtocol == NoTransport && e.transportStatus == Unparsed
    && 14 <= e.ethernet.headerLen == e.ipv6.headerOffset && e.config == cfg
    && e.ipv6.extensionHeaders <= cfg.maxHeaders && e.ipv6.extensionBytes <= cfg.maxBytes
    && 8 * e.ipv6.extensionHeaders <= e.ipv6.extensionBytes
    && PayloadStart(e) == cursor <= end == NetworkEnd(e) <= n
  }

  /** The transport decoder may run here: behind the headers, up to the network end. */
  predicate AtPayload(b: seq<Byte>, e: ParsedPacket, off: nat, available: nat) {
    && off + available <= |b|
    && NetworkFramed(e, |b|) && e.networkStatus == Present && !e.nonInitialFragment
    && off == PayloadStart(e) && off + available == NetworkEnd(e)
  }

  lemma TransportIsFramed(b: seq<Byte>, e: ParsedPacket, protocol: Byte, off: nat, available: nat)
    requires AtPayload(b, e, off, available)
    ensures var p := ParseTransport(b, e, protocol, off, available);
            NetworkFramed(p, |b|) && TransportFramed(p) && p.transportStatus != Unparsed
  {
    hide ParseTransport, AtPayload, NetworkFramed, TransportFramed;
    if protocol == 6 {
      TcpIsFramed(b, e, off, available);
    } else if protocol == 17 {
      UdpIsFramed(b, e, off, available);
    } else {
      RestIsFramed(b, e, protocol, off, available);
    }
  }

  lemma TcpIsFramed(b: seq<Byte>, e: ParsedPacket, off: nat, available: nat)
    requires AtPayload(b, e, off, available)
    ensures var p := ParseTransport(b, e, 6, off, available);
            NetworkFramed(p, |b|) && TransportFramed(p) && p.transportStatus != Unparsed
  {
  }

  lemma UdpIsFramed(b: seq<Byte>, e: ParsedPacket, off: nat, available: nat)
    requires AtPayload(b, e, off, available)
    ensures var p := ParseTransport(b, e, 17, off, available);
            NetworkFramed(p, |b|) && TransportFramed(p) && p.transportStatus != Unparsed
  {
  }

  lemma RestIsFramed(b: seq<Byte>, e: ParsedPacket, protocol: Byte, off: nat, available: nat)
    requires AtPayload(b, e, off, available) && protocol != 6 && protocol != 17
    ensures var p := ParseTransport(b, e, protocol, off, available);
            NetworkFramed(p, |b|) && TransportFramed(p) && p.transportStatus != Unparsed
  {
    hide ParseTransport, AtPayload, NetworkFramed, TransportFramed;
    if protocol == 1 || protocol == 58 {
      IcmpIsFramed(b, e, protocol, off, available);
    } else {
      NoneIsFramed(b, e, protocol, off, available);
    }
  }

  lemma IcmpIsFramed(b: seq<Byte>, e: ParsedPacket, protocol: Byte, off: nat, available: nat)
    requires AtPayload(b, e, off, available) && (protocol == 1 || protocol == 58)
    ensures var p := ParseTransport(b, e, protocol, off, available);
            NetworkFramed(p, |b|) && TransportFramed(p) && p.transportStatus != Unparsed
  {
    var q := e.(transportProtocol := if protocol == 1 then Icmpv4 else Icmpv6);
    var p := if available < 4 then TransportFailure(q, Truncated)
             else q.(icmp := IcmpFields(off, b[off], b[off + 1]), transportStatus := Present);
    assert ParseTransport(b, e, protocol, off, available) == p by { hide NetworkFramed, TransportFramed; }
    hide ParseTransport;
  }

  lemma NoneIsFramed(b: seq<Byte>, e: ParsedPacket, protocol: Byte, off: nat, available: nat)
    requires AtPayload(b, e, off, available) && protocol != 6 && protocol != 17 && protocol != 1 && protocol != 58
    ensures var p := ParseTransport(b, e, protocol, off, available);
            NetworkFramed(p, |b|) && TransportFramed(p) && p.transportStatus != Unparsed
  {
  }

  /** The transport decoder leaves the network layer alone. */
  lemma NetworkKept(a: seq<Byte>, c: ChainEnd, available: nat)
    requires c.Deliver? && c.cursor + available <= |a|
    ensures var p := ParseTransport(a, c.entry, c.next, c.cursor, available);
            && p.networkStatus == c.entry.networkStatus && p.networkProtocol == c.entry.networkProtocol
               && p.ipv6 == c.entry.ipv6
            && p.ethernetStatus == c.entry.ethernetStatus && p.ethernet == c.entry.ethernet
               && p.config == c.entry.config
  {
  }

  /** The entry a refused chain leaves behind. */
  predicate StoppedFramed(p: ParsedPacket, e: ParsedPacket, n: nat) {
    && NetworkFramed(p, n) && TransportFramed(p) && p.transportStatus != Unparsed && p.transportStatus != Present
    && p.networkStatus == Present && p.networkProtocol == Ipv6 && p.ethernet == e.ethernet
       && p.ethernetStatus == Present
    && p.config == e.config
  }

  predicate ChainFramed(c: ChainEnd, e: ParsedPacket, cfg: ParserConfig, cursor: nat, end: nat, n: nat) {
    match c
    case Stop(p) => StoppedFramed(p, e, n)
    case Deliver(p, _, at) => AfterFixed6(p, cfg, at, end, n) && cursor <= at && p.ethernet == e.ethernet
  }

  lemma RefusalIsFramed(e: ParsedPacket, cfg: ParserConfig, cursor: nat, end: nat, n: nat, status: ParseStatus)
    requires InChain(e, cfg, cursor, end, n)
    requires status != Present && status != Unparsed
    ensures StoppedFramed(TransportFailure(e, status), e, n)
  {
  }

  /** One accepted extension header keeps the entry consistent with the cursor. */
  lemma StepIsFramed(b: seq<Byte>, e: ParsedPacket, cfg: ParserConfig, next: Byte, cursor: nat, end: nat,
                     extensionBytes: U16)
    requires AfterFixed6(e, cfg, cursor, end, |b|) && e.ipv6.extensionHeaders < cfg.maxHeaders
    requires cursor + 8 <= cursor + (extensionBytes - e.ipv6.extensionBytes) <= end
    requires extensionBytes <= cfg.maxBytes
    ensures var e' := Stepped(b, e, next, cursor, extensionBytes);
            InChain(e', cfg, cursor + (extensionBytes - e.ipv6.extensionBytes), end, |b|)
            && e'.ethernet == e.ethernet && e'.config == e.config
  {
  }

  /** The walk accepts the extension header at `cursor`. */
  predicate Accepts(b: seq<Byte>, e: ParsedPacket, cfg: ParserConfig, next: Byte, cursor: nat, end: nat,
                    sawFragment: bool)
    requires cursor <= end <= |b|
  {
    && IsExtension(next) && e.ipv6.extensionHeaders < cfg.maxHeaders && cursor < end
    && !(next == 0 && e.ipv6.extensionHeaders != 0) && !(next == 44 && sawFragment)
    && (next == 44 || cursor + 1 < |b|)
    && e.ipv6.extensionBytes + ExtensionLength(b, next, cursor) <= cfg.maxBytes
    && cursor + ExtensionLength(b, next, cursor) <= end
  }

  /** One turn of the walk: deliver, refuse, or step. */
  lemma ChainTurn(b: seq<Byte>, e: ParsedPacket, cfg: ParserConfig, next: Byte, cursor: nat, end: nat,
                  sawFragment: bool)
    requires cursor <= end <= |b| && e.ipv6.extensionHeaders <= cfg.maxHeaders
    ensures var c := Chain(b, e, cfg, next, cursor, end, sawFragment);
            if Accepts(b, e, cfg, next, cursor, end, sawFragment) then
              var length := ExtensionLength(b, next, cursor);
              var e' := Stepped(b, e, next, cursor, e.ipv6.extensionBytes + length);
              && 8 <= length
              && c == if e'.nonInitialFragment then Stop(TransportFailure(e', Absent))
                      else Chain(b, e', cfg, b[cursor], cursor + length, end, sawFragment || next == 44)
            else
              || (c == Deliver(e, next, cursor) && !IsExtension(next))
              || (c.Stop? && c.entry == TransportFailure(e, c.entry.transportStatus)
                  && c.entry.transportStatus != Present && c.entry.transportStatus != Unparsed)
  {
  }

  lemma {:induction false} ChainIsFramed(b: seq<Byte>, e: ParsedPacket, cfg: ParserConfig,
                                         next: Byte, cursor: nat, end: nat, sawFragment: bool)
    requires cursor <= end <= |b| && AfterFixed6(e, cfg, cursor, end, |b|)
    ensures ChainFramed(Chain(b, e, cfg, next, cursor, end, sawFragment), e, cfg, cursor, end, |b|)
    decreases end - cursor, 1
  {
    var c := Chain(b, e, cfg, next, cursor, end, sawFragment);
    ChainTurn(b, e, cfg, next, cursor, end, sawFragment);
    if Accepts(b, e, cfg, next, cursor, end, sawFragment) {
      AcceptedIsFramed(b, e, cfg, next, cursor, end, sawFragment);
    } else if c.Stop? {
      RefusalIsFramed(e, cfg, cursor, end, |b|, c.entry.transportStatus);
    }
  }

  lemma {:induction false} AcceptedIsFramed(b: seq<Byte>, e: ParsedPacket, cfg: ParserConfig,
                                            next: Byte, cursor: nat, end: nat, sawFragment: bool)
    requires cursor <= end <= |b| && AfterFixed6(e, cfg, cursor, end, |b|)
    requires Accepts(b, e, cfg, next, cursor, end, sawFragment)
    ensures ChainFramed(Chain(b, e, cfg, next, cursor, end, sawFragment), e, cfg, cursor, end, |b|)
    decreases end - cursor, 0
  {
    hide Chain, ChainFramed, Stepped, InChain, TransportFailure, ExtensionLength;
    ChainTurn(b, e, cfg, next, cursor, end, sawFragment);
    var length := ExtensionLength(b, next, cursor);
    var e' := Stepped(b, e, next, cursor, e.ipv6.extensionBytes + length);
    StepIsFramed(b, e, cfg, next, cursor, end, e.ipv6.extensionBytes + length);
    if e'.nonInitialFragment {
      RefusalIsFramed(e', cfg, cursor + length, end, |b|, Absent);
      StopCarries(TransportFailure(e', Absent), e, e', cfg, cursor, end, |b|);
    } else {
      ChainIsFramed(b, e', cfg, b[cursor], cursor + length, end, sawFragment || next == 44);
      FramedCarries(Chain(b, e', cfg, b[cursor], cursor + length, end, sawFragment || next == 44), e, e', cfg, cursor,
                    cursor + length, end, |b|);
    }
  }

  /** Framed ends depend on the entry only through its link layer and configuration. */
  lemma FramedCarries(c: ChainEnd, e: ParsedPacket, e': ParsedPacket, cfg: ParserConfig, cursor: nat, cursor': nat,
                      end: nat, n: nat)
    requires ChainFramed(c, e', cfg, cursor', end, n) && cursor <= cursor' && e'.ethernet == e.ethernet
             && e'.config == e.config
    ensures ChainFramed(c, e, cfg, cursor, end, n)
  {
    hide AfterFixed6, NetworkFramed, TransportFramed;
  }

  lemma StopCarries(p: ParsedPacket, e: ParsedPacket, e': ParsedPacket, cfg: ParserConfig, cursor: nat, end: nat,
                    n: nat)
    requires StoppedFramed(p, e', n) && e'.ethernet == e.ethernet && e'.config == e.config
    ensures ChainFramed(Stop(p), e, cfg, cursor, end, n)
  {
    hide NetworkFramed, TransportFramed;
  }

  /** The fixed IPv6 header at `o` is whole and its payload inside the frame. */
  predicate Accepts6(b: seq<Byte>, o: nat) {
    o + 40 <= |b| && b[o] / 16 == 6 && o + 40 + Word(b, o + 4) <= |b|
  }

  /** The chain of the IPv6 packet at `o`. */
  function Chain6(b: seq<Byte>, e: ParsedPacket, o: nat, cfg: ParserConfig): ChainEnd
    requires o + 40 <= |b| && o + 40 + Word(b, o + 4) <= |b|
  {
    Chain(b, Ipv6Entry(b, e, o), cfg, b[o + 6], o + 40, o + 40 + Word(b, o + 4), false)
  }

  /** An IPv6 decode is a refusal of the fixed header or the end of a framed chain. */
  lemma Parsed6(b: seq<Byte>, e: ParsedPacket, o: nat, cfg: ParserConfig)
    requires 14 <= o <= |b| && AfterEthernet(e) && e.ethernet.headerLen == o && e.config == cfg
    ensures !Accepts6(b, o) ==> var p := ParseIpv6(b, e, o, cfg); p.networkStatus != Present && Framed(p, |b|)
    ensures Accepts6(b, o) ==>
              var c, end := Chain6(b, e, o, cfg), o + 40 + Word(b, o + 4);
              && ChainFramed(c, Ipv6Entry(b, e, o), cfg, o + 40, end, |b|) && Ipv6Entry(b, e, o).ethernet == e.ethernet
              && (c.Deliver? ==> c.cursor <= end)
              && ParseIpv6(b, e, o, cfg) == Deliver6(b, c, end)
  {
    if Accepts6(b, o) {
      var end := o + 40 + Word(b, o + 4);
      assert AfterFixed6(Ipv6Entry(b, e, o), cfg, o + 40, end, |b|);
      hide Chain, ParseTransport;
      ChainIsFramed(b, Ipv6Entry(b, e, o), cfg, b[o + 6], o + 40, end, false);
      ChainInside(b, Ipv6Entry(b, e, o), cfg, b[o + 6], o + 40, end, false);
    }
  }

  lemma Ipv6IsFramed(b: seq<Byte>, e: ParsedPacket, o: nat, cfg: ParserConfig)
    requires 14 <= o <= |b| && AfterEthernet(e) && e.ethernet.headerLen == o && e.config == cfg
    ensures Framed(ParseIpv6(b, e, o, cfg), |b|)
  {
    Parsed6(b, e, o, cfg);
    hide Chain, Chain6, ParseTransport, ParseIpv6, NetworkFramed, TransportFramed;
    if Accepts6(b, o) {
      var c := Chain6(b, e, o, cfg);
      if c.Deliver? { Deliver6IsFramed(b, c, e, cfg, o + 40 + Word(b, o + 4)); }
    }
  }

  lemma Deliver6IsFramed(b: seq<Byte>, c: ChainEnd, e: ParsedPacket, cfg: ParserConfig, end: nat)
    requires c.Deliver? && c.cursor <= end <= |b| && AfterFixed6(c.entry, cfg, c.cursor, end, |b|)
    ensures Framed(Deliver6(b, c, end), |b|)
  {
    TransportIsFramed(b, c.entry, c.next, c.cursor, end - c.cursor);
  }

  /** The fixed IPv4 header at `o` is whole and consistent. */
  predicate Accepts4(b: seq<Byte>, o: nat) {
    o + 20 <= |b| && b[o] / 16 == 4 && 20 <= b[o] % 16 * 4 <= Word(b, o + 2) && o + Word(b, o + 2) <= |b|
  }

  lemma Ipv4IsFramed(b: seq<Byte>, e: ParsedPacket, o: nat)
    requires o <= |b| && AfterEthernet(e) && e.ethernet.headerLen == o
    ensures Framed(ParseIpv4(b, e, o), |b|)
  {
    hide ParseTransport;
    if Accepts4(b, o) {
      var e4 := Ipv4Entry(b, e, o);
      assert NetworkFramed(e4, |b|);
      if !e4.nonInitialFragment {
        var headerLen, totalLen := b[o] % 16 * 4, Word(b, o + 2);
        NetworkKept(b, Deliver(e4, e4.ipv4.protocol, o + headerLen), totalLen - headerLen);
        TransportIsFramed(b, e4, e4.ipv4.protocol, o + headerLen, totalLen - headerLen);
      }
    }
  }

  lemma {:induction false} VlanIsFramed(b: seq<Byte>, e: ParsedPacket, etherType: U16, cursor: nat, cfg: ParserConfig)
    requires 14 <= cursor <= |b| && e.config == cfg
    requires AtTags(e, cursor, cfg)
    ensures Framed(ParseVlan(b, e, etherType, cursor, cfg), |b|)
    decreases |b| - cursor
  {
    if IsVlan(etherType) {
      if e.ethernet.vlanCount != 2 && |b| - cursor >= 4 {
        var fields := e.ethernet.(vlanTci := e.ethernet.vlanTci[e.ethernet.vlanCount := Word(b, cursor)],
                                  vlanCount := e.ethernet.vlanCount + 1);
        VlanIsFramed(b, e.(ethernet := fields), Word(b, cursor + 2), cursor + 4, cfg);
      }
    } else {
      var e := e.(ethernet := e.ethernet.(etherType := etherType, headerLen := cursor),
                  ethernetStatus := Present);
      if etherType == 0x0800 { Ipv4IsFramed(b, e, cursor); }
      else if etherType == 0x86dd { Ipv6IsFramed(b, e, cursor, cfg); }
    }
  }

  /** Every decode is framed: layer statuses agree with layer protocols, all
      offsets lie inside the declared network packet and that lies inside the
      frame. For IPv6 the transport header starts exactly after the extension
      chain, whose byte count is the cursor advance and respects both limits;
      a non-initial fragment never shows a transport header. */
  lemma ParseIsFramed(b: seq<Byte>, cfg: ParserConfig)
    ensures Framed(Parse(b, cfg), |b|)
  {
    if |b| >= 14 {
      var e := Blank(cfg);
      VlanIsFramed(b, e.(ethernet := e.ethernet.(destination := b[0..6], source := b[6..12])),
                   Word(b, 12), 14, cfg);
    }
  }

  /** A decode carries the configuration it ran under. */
  lemma ParseKeepsConfig(b: seq<Byte>, cfg: ParserConfig)
    ensures Parse(b, cfg).config == cfg
  {
    if |b| >= 14 {
      var e := Blank(cfg);
      VlanKeepsConfig(b, e.(ethernet := e.ethernet.(destination := b[0..6], source := b[6..12])), Word(b, 12), 14, cfg);
    }
  }

  lemma {:induction false} VlanKeepsConfig(b: seq<Byte>, e: ParsedPacket, etherType: U16, cursor: nat,
                                           cfg: ParserConfig)
    requires 14 <= cursor <= |b| && AtTags(e, cursor, cfg)
    ensures ParseVlan(b, e, etherType, cursor, cfg).config == cfg
    decreases |b| - cursor
  {
    if IsVlan(etherType) {
      if e.ethernet.vlanCount != 2 && |b| - cursor >= 4 {
        var fields := e.ethernet.(vlanTci := e.ethernet.vlanTci[e.ethernet.vlanCount := Word(b, cursor)],
                                  vlanCount := e.ethernet.vlanCount + 1);
        VlanKeepsConfig(b, e.(ethernet := fields), Word(b, cursor + 2), cursor + 4, cfg);
      }
    } else if etherType == 0x86dd {
      var e := e.(ethernet := e.ethernet.(etherType := etherType, headerLen := cursor), ethernetStatus := Present);
      NetworkKeepsEthernet(b, e, etherType, cursor, cfg);
    }
  }

  // ---- Which bytes decide the structure ----------------------------------

  /** The two frames hold the same bytes at `lo..hi`. */
  ghost predicate Agree(a: seq<Byte>, b: seq<Byte>, lo: nat, hi: nat) {
    hi <= |a| && hi <= |b| && forall k :: lo <= k < hi ==> a[k] == b[k]
  }

  /** `a` and `b` agree on everything that decides where headers lie and how
      long they are, as decoded into `p`. Addresses, ports, TTL, DSCP, traffic
      class, TCP flags and every checksum may differ. */
  ghost predicate SameStructure(a: seq<Byte>, b: seq<Byte>, p: ParsedPacket) {
    SameNetwork(a, b, p) && SameTransport(a, b, p)
  }

  ghost predicate SameNetwork(a: seq<Byte>, b: seq<Byte>, p: ParsedPacket) {
    var o := NetworkOffset(p);
    && NetworkEnd(p) <= |a| && NetworkEnd(p) <= |b|
    && p.networkStatus == Present && NetworkFramed(p, |a|)
    && Agree(a, b, 12, o)
    && (p.networkProtocol == Ipv4 ==> a[o] == b[o] && Agree(a, b, o + 2, o + 4))
    && (p.networkProtocol == Ipv6 ==> a[o] / 16 == b[o] / 16 && Agree(a, b, o + 4, o + 6))
  }

  ghost predicate SameTransport(a: seq<Byte>, b: seq<Byte>, p: ParsedPacket) {
    var o := NetworkOffset(p);
    var t := PayloadStart(p);
    && NetworkEnd(p) <= |a| && NetworkEnd(p) <= |b|
    && p.networkStatus == Present && NetworkFramed(p, |a|) && TransportFramed(p)
    && (p.networkProtocol == Ipv4 ==> Agree(a, b, o + 6, o + 8) && a[o + 9] == b[o + 9])
    && (p.networkProtocol == Ipv6 ==> a[o + 6] == b[o + 6] && Agree(a, b, o + 40, t))
    && (p.transportProtocol == Tcp ==> a[t + 12] / 16 == b[t + 12] / 16)
    && (p.transportProtocol == Udp ==> Agree(a, b, t + 4, t + 6))
  }

  /** `p` with every value field read again from `b`; the structure is kept. */
  function Revalued(p: ParsedPacket, b: seq<Byte>): ParsedPacket
    requires |b| >= 14 && Framed(p, |b|) && p.networkStatus == Present && p.transportStatus == Present
  {
    RevaluedTransport(RevaluedNetwork(p, b), b, PayloadStart(p))
  }

  function RevaluedNetwork(p: ParsedPacket, b: seq<Byte>): ParsedPacket
    requires |b| >= 14 && NetworkFramed(p, |b|) && p.networkStatus == Present
  {
    var o := NetworkOffset(p);
    var p := p.(ethernet := p.ethernet.(destination := b[0..6], source := b[6..12]));
    if p.networkProtocol == Ipv4
    then p.(ipv4 := p.ipv4.(dscp := b[o + 1] / 4, ttl := b[o + 8],
                            source := b[o + 12..o + 16], destination := b[o + 16..o + 20]))
    else p.(ipv6 := p.ipv6.(trafficClass := b[o] % 16 * 16 + b[o + 1] / 16, hopLimit := b[o + 7],
                            source := b[o + 8..o + 24], destination := b[o + 24..o + 40]))
  }

  function RevaluedTransport(p: ParsedPacket, b: seq<Byte>, t: nat): ParsedPacket
    requires p.transportStatus == Present
    requires t + 4 <= |b| && (p.transportProtocol == Tcp ==> t + 20 <= |b|)
             && (p.transportProtocol == Udp ==> t + 8 <= |b|)
  {
    match p.transportProtocol
    case Tcp => p.(tcp := p.tcp.(sourcePort := Word(b, t), destinationPort := Word(b, t + 2), flags := b[t + 13]))
    case Udp => p.(udp := p.udp.(sourcePort := Word(b, t), destinationPort := Word(b, t + 2),
                                 checksum := Word(b, t + 6)))
    case _ => p.(icmp := p.icmp.(kind := b[t], code := b[t + 1]))
  }

  /** Entries that differ only in link addresses and IPv6 value fields. */
  function Moved(e: ParsedPacket, f: ParsedPacket): ParsedPacket {
    e.(ethernet := e.ethernet.(destination := f.ethernet.destination, source := f.ethernet.source),
       ipv6 := e.ipv6.(trafficClass := f.ipv6.trafficClass, hopLimit := f.ipv6.hopLimit,
                       source := f.ipv6.source, destination := f.ipv6.destination))
  }

  /** `f` carrying the transport layer of `p`. */
  function Grafted(f: ParsedPacket, p: ParsedPacket): ParsedPacket {
    var f := f.(transportStatus := p.transportStatus, transportProtocol := p.transportProtocol);
    match p.transportProtocol
    case Tcp => f.(tcp := p.tcp)
    case Udp => f.(udp := p.udp)
    case _ => f.(icmp := p.icmp)
  }

  /** The transport decode depends on its value bytes only through value fields. */
  lemma TransportStable(a: seq<Byte>, b: seq<Byte>, e: ParsedPacket, f: ParsedPacket,
                        protocol: Byte, off: nat, available: nat, p: ParsedPacket)
    requires off + available <= |a| && off + available <= |b|
    requires f.incompleteFragment == e.incompleteFragment && e.transportStatus != Present
    requires p == ParseTransport(a, e, protocol, off, available) && p.transportStatus == Present
    requires p.transportProtocol == Tcp ==> available >= 20 && a[off + 12] / 16 == b[off + 12] / 16
    requires p.transportProtocol == Udp ==> available >= 8 && Agree(a, b, off + 4, off + 6)
    ensures p == Grafted(e, p)
    ensures available >= 4 && (p.transportProtocol == Tcp ==> available >= 20)
            && (p.transportProtocol == Udp ==> available >= 8)
    ensures ParseTransport(b, f, protocol, off, available) == RevaluedTransport(Grafted(f, p), b, off)
  {
    if p.transportProtocol == Udp {
      assert a[off + 4] == b[off + 4] && a[off + 5] == b[off + 5];
    }
  }

  /** A step over equal bytes moves value fields along. */
  lemma StepStable(a: seq<Byte>, b: seq<Byte>, e: ParsedPacket, f: ParsedPacket, next: Byte, cursor: nat,
                   extensionBytes: U16)
    requires e.ipv6.extensionHeaders < 255 && Agree(a, b, cursor, cursor + 4)
    ensures Stepped(b, Moved(e, f), next, cursor, extensionBytes)
            == Moved(Stepped(a, e, next, cursor, extensionBytes), f)
    ensures Stepped(a, e, next, cursor, extensionBytes).ipv6.extensionHeaders == e.ipv6.extensionHeaders + 1
  {
    assert a[cursor + 2] == b[cursor + 2] && a[cursor + 3] == b[cursor + 3];
  }

  /** A chain that is delivered and meets an extension header takes one accepted step. */
  lemma DeliveredStep(b: seq<Byte>, e: ParsedPacket, cfg: ParserConfig, next: Byte, cursor: nat, end: nat,
                      sawFragment: bool)
    requires cursor <= end <= |b| && e.ipv6.extensionHeaders <= cfg.maxHeaders && IsExtension(next)
    requires Chain(b, e, cfg, next, cursor, end, sawFragment).Deliver?
    ensures Accepts(b, e, cfg, next, cursor, end, sawFragment)
    ensures cursor + ExtensionLength(b, next, cursor) <= Chain(b, e, cfg, next, cursor, end, sawFragment).cursor <= end
  {
    ChainTurn(b, e, cfg, next, cursor, end, sawFragment);
    var length := ExtensionLength(b, next, cursor);
    var e' := Stepped(b, e, next, cursor, e.ipv6.extensionBytes + length);
    ChainInside(b, e', cfg, b[cursor], cursor + length, end, sawFragment || next == 44);
  }

  /** An accepted header is accepted alike over equal bytes. */
  lemma AcceptStable(a: seq<Byte>, b: seq<Byte>, e: ParsedPacket, f: ParsedPacket, cfg: ParserConfig,
                     next: Byte, cursor: nat, end: nat, sawFragment: bool)
    requires cursor <= end <= |a| && end <= |b| && Accepts(a, e, cfg, next, cursor, end, sawFragment)
    requires Agree(a, b, cursor, cursor + ExtensionLength(a, next, cursor))
    ensures var length := ExtensionLength(a, next, cursor);
            && 8 <= length == ExtensionLength(b, next, cursor) && a[cursor] == b[cursor]
            && Accepts(b, Moved(e, f), cfg, next, cursor, end, sawFragment)
            && Moved(e, f).ipv6.extensionBytes == e.ipv6.extensionBytes
            && Moved(e, f).ipv6.extensionHeaders == e.ipv6.extensionHeaders
            && Stepped(b, Moved(e, f), next, cursor, e.ipv6.extensionBytes + length)
               == Moved(Stepped(a, e, next, cursor, e.ipv6.extensionBytes + length), f)
            && Stepped(a, e, next, cursor, e.ipv6.extensionBytes + length).ipv6.extensionHeaders
               == e.ipv6.extensionHeaders + 1 <= cfg.maxHeaders
            && Moved(Stepped(a, e, next, cursor, e.ipv6.extensionBytes + length), f).nonInitialFragment
               == Stepped(a, e, next, cursor, e.ipv6.extensionBytes + length).nonInitialFragment
  {
    assert a[cursor] == b[cursor] && a[cursor + 1] == b[cursor + 1];
    hide Stepped;
    StepStable(a, b, e, f, next, cursor, e.ipv6.extensionBytes + ExtensionLength(a, next, cursor));
  }

  /** The chain is decided by its own bytes. */
  lemma {:induction false} ChainStable(a: seq<Byte>, b: seq<Byte>, e: ParsedPacket, f: ParsedPacket, cfg: ParserConfig,
                                       next: Byte, cursor: nat, end: nat, sawFragment: bool)
    requires cursor <= end <= |a| && end <= |b|
    requires e.ipv6.extensionHeaders <= cfg.maxHeaders
    requires Chain(a, e, cfg, next, cursor, end, sawFragment).Deliver?
    requires Agree(a, b, cursor, Chain(a, e, cfg, next, cursor, end, sawFragment).cursor)
    ensures var c := Chain(a, e, cfg, next, cursor, end, sawFragment);
            Chain(b, Moved(e, f), cfg, next, cursor, end, sawFragment) == Deliver(Moved(c.entry, f), c.next, c.cursor)
    decreases end - cursor
  {
    hide Chain, Stepped, Accepts, ExtensionLength, Moved;
    if IsExtension(next) {
      DeliveredStep(a, e, cfg, next, cursor, end, sawFragment);
      AcceptStable(a, b, e, f, cfg, next, cursor, end, sawFragment);
      ChainTurn(a, e, cfg, next, cursor, end, sawFragment);
      ChainTurn(b, Moved(e, f), cfg, next, cursor, end, sawFragment);
      var length := ExtensionLength(a, next, cursor);
      var e' := Stepped(a, e, next, cursor, e.ipv6.extensionBytes + length);
      ChainStable(a, b, e', f, cfg, a[cursor], cursor + length, end, sawFragment || next == 44);
    } else {
      NowStable(a, b, e, f, cfg, next, cursor, end, sawFragment);
    }
  }

  lemma NowStable(a: seq<Byte>, b: seq<Byte>, e: ParsedPacket, f: ParsedPacket, cfg: ParserConfig,
                  next: Byte, cursor: nat, end: nat, sawFragment: bool)
    requires cursor <= end <= |a| && end <= |b| && e.ipv6.extensionHeaders <= cfg.maxHeaders && !IsExtension(next)
    requires Chain(a, e, cfg, next, cursor, end, sawFragment).Deliver?
    ensures Chain(a, e, cfg, next, cursor, end, sawFragment) == Deliver(e, next, cursor)
    ensures Chain(b, Moved(e, f), cfg, next, cursor, end, sawFragment) == Deliver(Moved(e, f), next, cursor)
  {
  }

  /** An IPv4 decode with a transport layer is the accepted header plus a transport decode. */
  lemma Ipv4Lands(a: seq<Byte>, e: ParsedPacket, o: nat, p: ParsedPacket)
    requires o <= |a| && AfterEthernet(e) && e.ethernet.headerLen == o
    requires p == ParseIpv4(a, e, o) && p.transportStatus == Present
    ensures Accepts4(a, o) && !Ipv4Entry(a, e, o).nonInitialFragment
    ensures p == ParseTransport(a, Ipv4Entry(a, e, o), a[o + 9], o + a[o] % 16 * 4, Word(a, o + 2) - a[o] % 16 * 4)
    ensures p.networkProtocol == Ipv4 && p.ipv4 == Ipv4Entry(a, e, o).ipv4 && p.ipv4.headerOffset == o
    ensures p.networkStatus == Present
  {
  }

  lemma Ipv4Stable(a: seq<Byte>, b: seq<Byte>, e: ParsedPacket, f: ParsedPacket, o: nat, p: ParsedPacket)
    requires 14 <= o <= |a| && AfterEthernet(e) && e.ethernet.headerLen == o
    requires f == e.(ethernet := f.ethernet)
    requires p == ParseIpv4(a, e, o) && p.transportStatus == Present && SameStructure(a, b, p)
    ensures o <= |b| && Framed(p, |b|)
    ensures ParseIpv4(b, f, o) == Revalued(p, b).(ethernet := f.ethernet)
  {
    hide ParseTransport, Revalued, RevaluedTransport;
    Ipv4IsFramed(a, e, o);
    Ipv4Lands(a, e, o, p);
    assert a[o + 2] == b[o + 2] && a[o + 3] == b[o + 3] && a[o + 6] == b[o + 6] && a[o + 7] == b[o + 7];
    var e4, f4 := Ipv4Entry(a, e, o), Ipv4Entry(b, f, o);
    var headerLen, totalLen := a[o] % 16 * 4, Word(a, o + 2);
    assert f4.ipv4.protocol == a[o + 9] && f4.incompleteFragment == e4.incompleteFragment;
    TransportStable(a, b, e4, f4, a[o + 9], o + headerLen, totalLen - headerLen, p);
    assert ParseIpv4(b, f, o) == ParseTransport(b, f4, a[o + 9], o + headerLen, totalLen - headerLen);
    Ipv4Regrafted(b, e4, f4, f, p, o);
  }

  lemma Ipv4Regrafted(b: seq<Byte>, e4: ParsedPacket, f4: ParsedPacket, f: ParsedPacket, p: ParsedPacket, o: nat)
    requires 14 <= o <= o + 20 <= |b| && Framed(p, |b|) && p.networkProtocol == Ipv4 && p.transportStatus == Present
    requires p == Grafted(e4, p) && p.ipv4.headerOffset == o
    requires f4 == e4.(ethernet := f.ethernet, ipv4 := f4.ipv4)
    requires f4.ipv4 == p.ipv4.(dscp := b[o + 1] / 4, ttl := b[o + 8],
                                source := b[o + 12..o + 16], destination := b[o + 16..o + 20])
    ensures RevaluedTransport(Grafted(f4, p), b, PayloadStart(p)) == Revalued(p, b).(ethernet := f.ethernet)
  {
    assert Grafted(f4, p) == p.(ethernet := f.ethernet, ipv4 := f4.ipv4);
  }

  /** An IPv6 decode with a transport layer is a delivered chain plus a transport decode. */
  lemma Ipv6Lands(a: seq<Byte>, e: ParsedPacket, o: nat, cfg: ParserConfig, p: ParsedPacket)
    requires 14 <= o <= |a| && AfterEthernet(e) && e.ethernet.headerLen == o && e.config == cfg
    requires p == ParseIpv6(a, e, o, cfg) && p.transportStatus == Present
    ensures o + 40 <= |a| && a[o] / 16 == 6 && o + 40 + Word(a, o + 4) <= |a|
    ensures var c, end := Chain6(a, e, o, cfg), o + 40 + Word(a, o + 4);
            && c.Deliver? && AfterFixed6(c.entry, cfg, c.cursor, end, |a|) && o + 40 <= c.cursor
            && p == ParseTransport(a, c.entry, c.next, c.cursor, end - c.cursor)
            && p.networkProtocol == Ipv6 && p.ipv6 == c.entry.ipv6 && c.cursor == PayloadStart(p)
            && p.ipv6.headerOffset == o && NetworkEnd(p) == end && c.entry.ethernet == e.ethernet
    ensures p.networkStatus == Present
  {
    Parsed6(a, e, o, cfg);
    hide Chain, Chain6, ParseTransport, ParseIpv6, AfterFixed6;
    RefusedHasNone(p, |a|);
    var c, end := Chain6(a, e, o, cfg), o + 40 + Word(a, o + 4);
    if c.Deliver? {
      NetworkKept(a, c, end - c.cursor);
      DeliveredAt(c, cfg, end, |a|);
    }
  }

  lemma RefusedHasNone(p: ParsedPacket, n: nat)
    requires p.transportStatus == Present
    ensures !(p.networkStatus != Present && Framed(p, n))
  {
  }

  lemma DeliveredAt(c: ChainEnd, cfg: ParserConfig, end: nat, n: nat)
    requires c.Deliver? && AfterFixed6(c.entry, cfg, c.cursor, end, n)
    ensures c.entry.networkProtocol == Ipv6 && c.entry.networkStatus == Present && c.cursor == PayloadStart(c.entry)
    ensures c.entry.ipv6.headerOffset == c.entry.ethernet.headerLen && NetworkEnd(c.entry) == end
  {
  }

  lemma Chain6Stable(a: seq<Byte>, b: seq<Byte>, e: ParsedPacket, f: ParsedPacket, o: nat, cfg: ParserConfig)
    requires 14 <= o && o + 40 <= |a| && o + 40 + Word(a, o + 4) <= |a| && o + 40 + Word(a, o + 4) <= |b|
    requires f == e.(ethernet := e.ethernet.(destination := f.ethernet.destination, source := f.ethernet.source))
    requires a[o + 4] == b[o + 4] && a[o + 5] == b[o + 5] && a[o + 6] == b[o + 6]
    requires Chain6(a, e, o, cfg).Deliver? && Agree(a, b, o + 40, Chain6(a, e, o, cfg).cursor)
    ensures var c := Chain6(a, e, o, cfg);
            Chain6(b, f, o, cfg) == Deliver(Moved(c.entry, Ipv6Entry(b, f, o)), c.next, c.cursor)
  {
    var f6 := Ipv6Entry(b, f, o);
    ChainStable(a, b, Ipv6Entry(a, e, o), f6, cfg, a[o + 6], o + 40, o + 40 + Word(a, o + 4), false);
    assert Moved(Ipv6Entry(a, e, o), f6) == f6;
  }

  lemma Ipv6Stable(a: seq<Byte>, b: seq<Byte>, e: ParsedPacket, f: ParsedPacket, o: nat, cfg: ParserConfig,
                   p: ParsedPacket)
    requires 14 <= o <= |a| && AfterEthernet(e) && e.ethernet.headerLen == o && e.config == cfg
    requires f == e.(ethernet := e.ethernet.(destination := f.ethernet.destination, source := f.ethernet.source))
    requires p == ParseIpv6(a, e, o, cfg) && p.transportStatus == Present && SameStructure(a, b, p)
    requires Framed(p, |a|)
    ensures o <= |b| && Framed(p, |b|)
    ensures ParseIpv6(b, f, o, cfg) == Revalued(p, b).(ethernet := f.ethernet)
  {
    Ipv6Lands(a, e, o, cfg, p);
    var c, end := Chain6(a, e, o, cfg), o + 40 + Word(a, o + 4);
    assert a[o + 4] == b[o + 4] && a[o + 5] == b[o + 5];
    Chain6Stable(a, b, e, f, o, cfg);
    var f6 := Ipv6Entry(b, f, o);
    var g := Moved(c.entry, f6);
    assert ParseIpv6(b, f, o, cfg) == ParseTransport(b, g, c.next, c.cursor, end - c.cursor);
    Transport6Stable(a, b, c, g, end, p);
    Ipv6Regrafted(b, c.entry, f6, f, p, o);
  }

  lemma Transport6Stable(a: seq<Byte>, b: seq<Byte>, c: ChainEnd, g: ParsedPacket, end: nat, p: ParsedPacket)
    requires c.Deliver? && c.cursor <= end <= |a| && end <= |b|
    requires p == ParseTransport(a, c.entry, c.next, c.cursor, end - c.cursor) && p.transportStatus == Present
    requires g == Moved(c.entry, g) && c.entry.transportStatus != Present
    requires SameTransport(a, b, p) && c.cursor == PayloadStart(p) && end == NetworkEnd(p)
    ensures p == Grafted(c.entry, p)
    ensures c.cursor + 4 <= end && (p.transportProtocol == Tcp ==> c.cursor + 20 <= end)
            && (p.transportProtocol == Udp ==> c.cursor + 8 <= end)
    ensures ParseTransport(b, g, c.next, c.cursor, end - c.cursor) == RevaluedTransport(Grafted(g, p), b, c.cursor)
  {
    TransportStable(a, b, c.entry, g, c.next, c.cursor, end - c.cursor, p);
  }

  lemma Ipv6Regrafted(b: seq<Byte>, c: ParsedPacket, f6: ParsedPacket, f: ParsedPacket, p: ParsedPacket, o: nat)
    requires 14 <= o <= o + 40 <= |b| && Framed(p, |b|) && p.networkProtocol == Ipv6 && p.transportStatus == Present
    requires p == Grafted(c, p) && p.ipv6.headerOffset == o
    requires f.ethernet == c.ethernet.(destination := f.ethernet.destination, source := f.ethernet.source)
    requires f6 == Ipv6Entry(b, f, o)
    ensures RevaluedTransport(Grafted(Moved(c, f6), p), b, PayloadStart(p)) == Revalued(p, b).(ethernet := f.ethernet)
  {
    assert Grafted(Moved(c, f6), p) == p.(ethernet := f.ethernet, ipv6 := Moved(c, f6).ipv6);
  }

  lemma NetworkKeepsEthernet(b: seq<Byte>, e: ParsedPacket, etherType: U16, o: nat, cfg: ParserConfig)
    requires 14 <= o <= |b| && AfterEthernet(e) && e.ethernet.headerLen == o && e.config == cfg
    ensures ParseNetwork(b, e, etherType, o, cfg).ethernet == e.ethernet
    ensures ParseNetwork(b, e, etherType, o, cfg).ethernetStatus == Present
    ensures ParseNetwork(b, e, etherType, o, cfg).config == cfg
  {
    hide Chain, ParseTransport;
    if etherType == 0x0800 && Accepts4(b, o) {
      NetworkKept(b, Deliver(Ipv4Entry(b, e, o), b[o + 9], o + b[o] % 16 * 4), Word(b, o + 2) - b[o] % 16 * 4);
    } else if etherType == 0x86dd && |b| - o >= 40 && b[o] / 16 == 6 && 40 + Word(b, o + 4) <= |b| - o {
      var end := o + 40 + Word(b, o + 4);
      assert AfterFixed6(Ipv6Entry(b, e, o), cfg, o + 40, end, |b|);
      var c := Chain(b, Ipv6Entry(b, e, o), cfg, b[o + 6], o + 40, end, false);
      if c.Deliver? && c.cursor <= end { NetworkKept(b, c, end - c.cursor); }
      ChainIsFramed(b, Ipv6Entry(b, e, o), cfg, b[o + 6], o + 40, end, false);
    }
  }

  /** `e` with the tags and EtherType found in `p`. */
  function Landed(e: ParsedPacket, p: ParsedPacket): ParsedPacket {
    e.(ethernet := p.ethernet.(destination := e.ethernet.destination, source := e.ethernet.source),
       ethernetStatus := Present)
  }

  /** Entry state while tags are read. */
  predicate AtTags(e: ParsedPacket, cursor: nat, cfg: ParserConfig) {
    e.config == cfg && AfterEthernet(e.(ethernetStatus := Present, ethernet := e.ethernet.(headerLen := cursor)))
  }

  /** A decode that reaches the network layer read its tags and went on from `headerLen`. */
  lemma {:induction false} VlanLands(b: seq<Byte>, e: ParsedPacket, etherType: U16, cursor: nat, cfg: ParserConfig,
                                     p: ParsedPacket)
    requires 14 <= cursor <= |b| && AtTags(e, cursor, cfg)
    requires p == ParseVlan(b, e, etherType, cursor, cfg) && p.ethernetStatus == Present && e.ethernetStatus == Unparsed
    ensures cursor <= p.ethernet.headerLen <= |b|
    ensures AfterEthernet(Landed(e, p))
    ensures p == ParseNetwork(b, Landed(e, p), p.ethernet.etherType, p.ethernet.headerLen, cfg)
    decreases |b| - cursor
  {
    if IsVlan(etherType) {
      var fields := e.ethernet.(vlanTci := e.ethernet.vlanTci[e.ethernet.vlanCount := Word(b, cursor)],
                                vlanCount := e.ethernet.vlanCount + 1);
      VlanLands(b, e.(ethernet := fields), Word(b, cursor + 2), cursor + 4, cfg, p);
      assert Landed(e.(ethernet := fields), p) == Landed(e, p);
    } else {
      var e' := e.(ethernet := e.ethernet.(etherType := etherType, headerLen := cursor), ethernetStatus := Present);
      NetworkKeepsEthernet(b, e', etherType, cursor, cfg);
      assert Landed(e, p) == e';
    }
  }

  /** Tags are decided by their own bytes. */
  lemma {:induction false} VlanStable(a: seq<Byte>, b: seq<Byte>, e: ParsedPacket, f: ParsedPacket,
                                      etherType: U16, cursor: nat, cfg: ParserConfig, p: ParsedPacket)
    requires 14 <= cursor <= |a| && AtTags(e, cursor, cfg) && e.ethernetStatus == Unparsed
    requires p == ParseVlan(a, e, etherType, cursor, cfg) && p.ethernetStatus == Present
    requires f == e.(ethernet := e.ethernet.(destination := f.ethernet.destination, source := f.ethernet.source))
    requires cursor <= |b| && p.ethernet.headerLen <= |b| && Agree(a, b, cursor, p.ethernet.headerLen)
    ensures ParseVlan(b, f, etherType, cursor, cfg)
            == ParseNetwork(b, Landed(f, p), p.ethernet.etherType, p.ethernet.headerLen, cfg)
    decreases |a| - cursor
  {
    hide ParseNetwork;
    VlanLands(a, e, etherType, cursor, cfg, p);
    if IsVlan(etherType) {
      var fields := e.ethernet.(vlanTci := e.ethernet.vlanTci[e.ethernet.vlanCount := Word(a, cursor)],
                                vlanCount := e.ethernet.vlanCount + 1);
      var e' := e.(ethernet := fields);
      VlanLands(a, e', Word(a, cursor + 2), cursor + 4, cfg, p);
      assert a[cursor] == b[cursor] && a[cursor + 1] == b[cursor + 1]
             && a[cursor + 2] == b[cursor + 2] && a[cursor + 3] == b[cursor + 3];
      var f' := e'.(ethernet := e'.ethernet.(destination := f.ethernet.destination, source := f.ethernet.source));
      VlanStable(a, b, e', f', Word(a, cursor + 2), cursor + 4, cfg, p);
      assert Landed(f', p) == Landed(f, p);
    } else {
      var e' := e.(ethernet := e.ethernet.(etherType := etherType, headerLen := cursor), ethernetStatus := Present);
      NetworkKeepsEthernet(a, e', etherType, cursor, cfg);
    }
  }

  function Addressed(b: seq<Byte>, cfg: ParserConfig): ParsedPacket
    requires |b| >= 14
  {
    var e := Blank(cfg);
    e.(ethernet := e.ethernet.(destination := b[0..6], source := b[6..12]))
  }

  /** Two frames with equal tags go on to the network layer with the same layout. */
  lemma Relands(a: seq<Byte>, b: seq<Byte>, cfg: ParserConfig, p: ParsedPacket)
    requires p == Parse(a, cfg) && p.ethernetStatus == Present
    requires Agree(a, b, 12, p.ethernet.headerLen)
    ensures 14 <= p.ethernet.headerLen <= |a| && p.ethernet.headerLen <= |b|
    ensures var e, f := Landed(Addressed(a, cfg), p), Landed(Addressed(b, cfg), p);
            && AfterEthernet(e) && AfterEthernet(f)
            && p == ParseNetwork(a, e, p.ethernet.etherType, p.ethernet.headerLen, cfg)
            && Parse(b, cfg) == ParseNetwork(b, f, p.ethernet.etherType, p.ethernet.headerLen, cfg)
  {
    var e := Addressed(a, cfg);
    VlanLands(a, e, Word(a, 12), 14, cfg, p);
    assert a[12] == b[12] && a[13] == b[13];
    VlanStable(a, b, e, Addressed(b, cfg), Word(a, 12), 14, cfg, p);
  }

  /** The structure theorem: a frame that agrees with a fully decoded one on the
      structural bytes decodes to the same packet with its value fields reread. */
  lemma ParseStable(a: seq<Byte>, b: seq<Byte>, cfg: ParserConfig)
    requires Parse(a, cfg).transportStatus == Present && SameStructure(a, b, Parse(a, cfg))
    ensures Framed(Parse(a, cfg), |b|) && |b| >= 14
    ensures Parse(b, cfg) == Revalued(Parse(a, cfg), b)
  {
    var p := Parse(a, cfg);
    ParseIsFramed(a, cfg);
    Relands(a, b, cfg, p);
    var e, f := Landed(Addressed(a, cfg), p), Landed(Addressed(b, cfg), p);
    var o := p.ethernet.headerLen;
    if p.ethernet.etherType == 0x0800 {
      Ipv4Stable(a, b, e, f, o, p);
    } else {
      Ipv6Stable(a, b, e, f, o, cfg, p);
    }
    assert f.ethernet == p.ethernet.(destination := b[0..6], source := b[6..12]);
  }
}
