/** What a decoded frame looks like, and the decoder over one flat byte sequence.
    This is the simple form: a direct recursive reading with every index in
    range. The segmented loops of SlotParser are proved equal to it. */
module Parsing {
  import opened Prelude

  datatype ParseStatus = Unparsed | Present | Absent | Truncated | Malformed | Unsupported
  datatype NetworkProtocol = NoNetwork | Ipv4 | Ipv6
  datatype TransportProtocol = NoTransport | Tcp | Udp | Icmpv4 | Icmpv6

  datatype ParserConfig = ParserConfig(maxHeaders: Byte, maxBytes: U16) {
    predicate Valid() { maxHeaders <= 16 && maxBytes <= 1024 }
  }

  datatype EthernetFields = EthernetFields(
    destination: seq<Byte>, source: seq<Byte>, etherType: U16,
    vlanCount: nat, vlanTci: seq<U16>, headerLen: nat)

  datatype Ipv4Fields = Ipv4Fields(
    headerOffset: nat, headerLen: nat, totalLen: U16, dscp: Byte, ttl: Byte, protocol: Byte,
    source: seq<Byte>, destination: seq<Byte>, fragmentOffset: nat, moreFragments: bool)

  datatype Ipv6Fields = Ipv6Fields(
    headerOffset: nat, payloadLen: U16, trafficClass: Byte, hopLimit: Byte,
    source: seq<Byte>, destination: seq<Byte>,
    extensionHeaders: Byte, extensionBytes: U16, fragmentOffset: nat, moreFragments: bool)

  datatype TcpFields = TcpFields(
    headerOffset: nat, headerLen: nat, sourcePort: U16, destinationPort: U16, flags: Byte)

  datatype UdpFields = UdpFields(
    headerOffset: nat, sourcePort: U16, destinationPort: U16, length: U16, checksum: U16)

  datatype IcmpFields = IcmpFields(headerOffset: nat, kind: Byte, code: Byte)

  datatype ParsedPacket = ParsedPacket(
    ethernetStatus: ParseStatus, networkStatus: ParseStatus, transportStatus: ParseStatus,
    networkProtocol: NetworkProtocol, transportProtocol: TransportProtocol,
    ethernet: EthernetFields, ipv4: Ipv4Fields, ipv6: Ipv6Fields,
    tcp: TcpFields, udp: UdpFields, icmp: IcmpFields,
    nonInitialFragment: bool, incompleteFragment: bool, config: ParserConfig)

  const DEFAULT_CONFIG := ParserConfig(8, 256)
  const ZEROS4: seq<Byte> := [0, 0, 0, 0]
  const ZEROS6: seq<Byte> := [0, 0, 0, 0, 0, 0]
  const ZEROS16: seq<Byte> := [0, 0, 0, 0, 0, 0, 0, 0, 0, 0, 0, 0, 0, 0, 0, 0]

  /** A cache entry before anything is decoded. */
  function Blank(cfg: ParserConfig): ParsedPacket {
    ParsedPacket(Unparsed, Unparsed, Unparsed, NoNetwork, NoTransport,
                 EthernetFields(ZEROS6, ZEROS6, 0, 0, [0, 0], 0),
                 Ipv4Fields(0, 0, 0, 0, 0, 0, ZEROS4, ZEROS4, 0, false),
                 Ipv6Fields(0, 0, 0, 0, ZEROS16, ZEROS16, 0, 0, 0, false),
                 TcpFields(0, 0, 0, 0, 0), UdpFields(0, 0, 0, 0, 0), IcmpFields(0, 0, 0),
                 false, false, cfg)
  }

  function NetworkFailure(e: ParsedPacket, status: ParseStatus): ParsedPacket {
    e.(networkStatus := status, transportStatus := Absent,
       networkProtocol := NoNetwork, transportProtocol := NoTransport)
  }

  function TransportFailure(e: ParsedPacket, status: ParseStatus): ParsedPacket {
    e.(transportStatus := status, transportProtocol := NoTransport)
  }

  function EthernetFailure(e: ParsedPacket, status: ParseStatus): ParsedPacket {
    NetworkFailure(e.(ethernetStatus := status), Absent)
  }

  predicate IsVlan(etherType: U16) { etherType == 0x8100 || etherType == 0x88a8 }

  predicate IsExtension(next: Byte) { next == 0 || next == 43 || next == 44 || next == 51 || next == 60 }

  function ParseTransport(b: seq<Byte>, e: ParsedPacket, protocol: Byte, off: nat, available: nat): ParsedPacket
    requires off + available <= |b|
  {
    if protocol == 6 then
      var e := e.(transportProtocol := Tcp);
      if available < 20 then TransportFailure(e, Truncated) else
      var headerLen := b[off + 12] / 16 * 4;
      if headerLen < 20 then TransportFailure(e, Malformed)
      else if headerLen > available then TransportFailure(e, Truncated)
      else e.(tcp := TcpFields(off, headerLen, Word(b, off), Word(b, off + 2), b[off + 13]),
              transportStatus := Present)
    else if protocol == 17 then
      var e := e.(transportProtocol := Udp);
      if available < 8 then TransportFailure(e, Truncated) else
      var length := Word(b, off + 4);
      if length < 8 then TransportFailure(e, Malformed)
      else if length > available && !e.incompleteFragment then TransportFailure(e, Malformed)
      else e.(udp := UdpFields(off, Word(b, off), Word(b, off + 2), length, Word(b, off + 6)),
              transportStatus := Present)
    else if protocol == 1 || protocol == 58 then
      var e := e.(transportProtocol := if protocol == 1 then Icmpv4 else Icmpv6);
      if available < 4 then TransportFailure(e, Truncated)
      else e.(icmp := IcmpFields(off, b[off], b[off + 1]), transportStatus := Present)
    else if protocol == 59 then TransportFailure(e, Absent)
    else TransportFailure(e, Unsupported)
  }

  /** The entry once the fixed IPv4 header at `o` is accepted. */
  function Ipv4Entry(b: seq<Byte>, e: ParsedPacket, o: nat): ParsedPacket
    requires o + 20 <= |b|
  {
    var fragment := Word(b, o + 6);
    var fields := Ipv4Fields(o, b[o] % 16 * 4, Word(b, o + 2), b[o + 1] / 4, b[o + 8], b[o + 9],
                             b[o + 12..o + 16], b[o + 16..o + 20],
                             fragment % 0x2000, fragment / 0x2000 % 2 == 1);
    e.(networkProtocol := Ipv4, networkStatus := Present, ipv4 := fields,
       nonInitialFragment := fields.fragmentOffset != 0,
       incompleteFragment := fields.fragmentOffset != 0 || fields.moreFragments)
  }

  function ParseIpv4(b: seq<Byte>, e: ParsedPacket, o: nat): ParsedPacket
    requires o <= |b|
  {
    var available := |b| - o;
    if available < 20 then NetworkFailure(e, Truncated)
    else if b[o] / 16 != 4 then NetworkFailure(e, Malformed) else
    var headerLen := b[o] % 16 * 4;
    var totalLen := Word(b, o + 2);
    if headerLen < 20 then NetworkFailure(e, Malformed)
    else if headerLen > available then NetworkFailure(e, Truncated)
    else if totalLen < headerLen then NetworkFailure(e, Malformed)
    else if totalLen > available then NetworkFailure(e, Truncated) else
    var e := Ipv4Entry(b, e, o);
    if e.nonInitialFragment then TransportFailure(e, Absent)
    else ParseTransport(b, e, e.ipv4.protocol, o + headerLen, totalLen - headerLen)
  }

  /** The entry once the fixed IPv6 header at `o` is accepted. */
  function Ipv6Entry(b: seq<Byte>, e: ParsedPacket, o: nat): ParsedPacket
    requires o + 40 <= |b|
  {
    e.(networkProtocol := Ipv6, networkStatus := Present,
       ipv6 := Ipv6Fields(o, Word(b, o + 4), b[o] % 16 * 16 + b[o + 1] / 16, b[o + 7],
                          b[o + 8..o + 24], b[o + 24..o + 40], 0, 0, 0, false))
  }

  /** The length an extension header of kind `next` at `cursor` declares. */
  function ExtensionLength(b: seq<Byte>, next: Byte, cursor: nat): nat
    requires next != 44 ==> cursor + 1 < |b|
  {
    if next == 44 then 8
    else if next == 51 then (b[cursor + 1] as int + 2) * 4
    else (b[cursor + 1] as int + 1) * 8
  }

  /** The entry after stepping over one accepted extension header. */
  function Stepped(b: seq<Byte>, e: ParsedPacket, next: Byte, cursor: nat, extensionBytes: U16): ParsedPacket
    requires cursor + 4 <= |b|
    requires e.ipv6.extensionHeaders < 255
  {
    var e := if next != 44 then e else
               var fragment := Word(b, cursor + 2);
               e.(ipv6 := e.ipv6.(fragmentOffset := fragment / 8, moreFragments := fragment % 2 == 1),
                  nonInitialFragment := fragment / 8 != 0,
                  incompleteFragment := fragment / 8 != 0 || fragment % 2 == 1);
    e.(ipv6 := e.ipv6.(extensionHeaders := e.ipv6.extensionHeaders + 1, extensionBytes := extensionBytes))
  }

  /** Where the extension chain ends: at a header handed to the transport
      decoder, or at a refusal already recorded in the entry. */
  datatype ChainEnd =
    | Stop(entry: ParsedPacket)
    | Deliver(entry: ParsedPacket, next: Byte, cursor: nat)

  /** The bounded IPv6 extension chain from `cursor` to the declared payload end. */
  function Chain(b: seq<Byte>, e: ParsedPacket, cfg: ParserConfig,
                 next: Byte, cursor: nat, end: nat, sawFragment: bool): ChainEnd
    requires cursor <= end <= |b|
    requires e.ipv6.extensionHeaders <= cfg.maxHeaders
    decreases end - cursor
  {
    if !IsExtension(next) then
      if next == 50 then Stop(TransportFailure(e, Unsupported)) else Deliver(e, next, cursor)
    else if e.ipv6.extensionHeaders == cfg.maxHeaders then Stop(TransportFailure(e, Unsupported))
    else if cursor >= end then Stop(TransportFailure(e, Truncated))
    else if next == 0 && e.ipv6.extensionHeaders != 0 then Stop(TransportFailure(e, Malformed))
    else if next == 44 && sawFragment then Stop(TransportFailure(e, Malformed))
    else if next != 44 && cursor + 1 >= |b| then Stop(TransportFailure(e, Truncated)) else
    var length := ExtensionLength(b, next, cursor);
    var extensionBytes := e.ipv6.extensionBytes + length;
    if extensionBytes > cfg.maxBytes then Stop(TransportFailure(e, Unsupported))
    else if cursor + length > end then Stop(TransportFailure(e, Truncated)) else
    var e' := Stepped(b, e, next, cursor, extensionBytes);
    if e'.nonInitialFragment then Stop(TransportFailure(e', Absent))
    else Chain(b, e', cfg, b[cursor], cursor + length, end, sawFragment || next == 44)
  }

  /** What the decoder does with the end of the chain. */
  function Deliver6(b: seq<Byte>, c: ChainEnd, end: nat): ParsedPacket
    requires end <= |b|
    requires c.Deliver? ==> c.cursor <= end
  {
    match c
    case Stop(e) => e
    case Deliver(e, next, cursor) => ParseTransport(b, e, next, cursor, end - cursor)
  }

  lemma {:induction false} ChainInside(b: seq<Byte>, e: ParsedPacket, cfg: ParserConfig,
                                       next: Byte, cursor: nat, end: nat, sawFragment: bool)
    requires cursor <= end <= |b|
    requires e.ipv6.extensionHeaders <= cfg.maxHeaders
    ensures var c := Chain(b, e, cfg, next, cursor, end, sawFragment);
            c.Deliver? ==> cursor <= c.cursor <= end
    decreases end - cursor
  {
    if IsExtension(next) && e.ipv6.extensionHeaders != cfg.maxHeaders && cursor < end
       && (next == 44 || cursor + 1 < |b|)
    {
      var length := ExtensionLength(b, next, cursor);
      var extensionBytes := e.ipv6.extensionBytes + length;
      if extensionBytes <= cfg.maxBytes && cursor + length <= end {
        ChainInside(b, Stepped(b, e, next, cursor, extensionBytes), cfg,
                    b[cursor], cursor + length, end, sawFragment || next == 44);
      }
    }
  }

  function ParseIpv6(b: seq<Byte>, e: ParsedPacket, o: nat, cfg: ParserConfig): ParsedPacket
    requires o <= |b|
  {
    var available := |b| - o;
    if available < 40 then NetworkFailure(e, Truncated)
    else if b[o] / 16 != 6 then NetworkFailure(e, Malformed)
    else if 40 + Word(b, o + 4) > available then NetworkFailure(e, Truncated) else
    var end := o + 40 + Word(b, o + 4);
    ChainInside(b, Ipv6Entry(b, e, o), cfg, b[o + 6], o + 40, end, false);
    Deliver6(b, Chain(b, Ipv6Entry(b, e, o), cfg, b[o + 6], o + 40, end, false), end)
  }

  function ParseNetwork(b: seq<Byte>, e: ParsedPacket, etherType: U16, cursor: nat, cfg: ParserConfig): ParsedPacket
    requires cursor <= |b|
  {
    if etherType == 0x0800 then ParseIpv4(b, e, cursor)
    else if etherType == 0x86dd then ParseIpv6(b, e, cursor, cfg)
    else NetworkFailure(e, Absent)
  }

  function ParseVlan(b: seq<Byte>, e: ParsedPacket, etherType: U16, cursor: nat, cfg: ParserConfig): ParsedPacket
    requires cursor <= |b|
    requires |e.ethernet.vlanTci| == 2 && e.ethernet.vlanCount <= 2
    decreases |b| - cursor
  {
    if IsVlan(etherType) then
      if e.ethernet.vlanCount == 2 then EthernetFailure(e, Unsupported)
      else if |b| - cursor < 4 then EthernetFailure(e, Truncated)
      else
        var fields := e.ethernet.(vlanTci := e.ethernet.vlanTci[e.ethernet.vlanCount := Word(b, cursor)],
                                  vlanCount := e.ethernet.vlanCount + 1);
        ParseVlan(b, e.(ethernet := fields), Word(b, cursor + 2), cursor + 4, cfg)
    else
      var e := e.(ethernet := e.ethernet.(etherType := etherType, headerLen := cursor),
                  ethernetStatus := Present);
      ParseNetwork(b, e, etherType, cursor, cfg)
  }

  function Parse(b: seq<Byte>, cfg: ParserConfig): ParsedPacket {
    if |b| < 14 then EthernetFailure(Blank(cfg), Truncated)
    else
      var e := Blank(cfg);
      var e := e.(ethernet := e.ethernet.(destination := b[0..6], source := b[6..12]));
      ParseVlan(b, e, Word(b, 12), 14, cfg)
  }
}
