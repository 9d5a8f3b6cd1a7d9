/** Frames as their senders build them, layer by layer, and what such a frame
    says. Nothing here looks at a cursor: these are the header layouts of
    IEEE 802.1Q, RFC 791, RFC 8200, RFC 9293, RFC 768, RFC 792 and RFC 4443. */
module WireFormat {
  import opened Prelude
  import opened Parsing

  // ---- Link layer --------------------------------------------------------------------------

  /** A customer tag, or a service tag around it. */
  datatype Tag = Tag(service: bool, tci: U16)

  datatype Link = Link(destination: Bytes6, source: Bytes6, tags: seq<Tag>)

  function TagBytes(tags: seq<Tag>, etherType: U16): (r: seq<Byte>)
    ensures |r| == 4 * |tags| + 2
  {
    if tags == [] then WordBytes(etherType)
    else WordBytes(if tags[0].service then 0x88a8 else 0x8100) + WordBytes(tags[0].tci) + TagBytes(tags[1..], etherType)
  }

  function LinkBytes(l: Link, etherType: U16): (r: seq<Byte>)
    ensures |r| == 14 + 4 * |l.tags|
  {
    l.destination + l.source + TagBytes(l.tags, etherType)
  }

  // ---- IPv6 extension headers ----------------------------------------------------------------

  /** Hop-by-hop (0), routing (43) and destination options (60) share a layout;
      a fragment header (44) has a fixed size, an authentication header (51)
      counts its length in words. */
  datatype Extension =
    | Options(kind: Byte, body: seq<Byte>)
    | Fragment(reserved: Byte, offset: nat, spare: nat, more: bool, id: Bytes4)
    | Authentication(body: seq<Byte>)
  {
    predicate Valid() {
      match this
      case Options(kind, body) => (kind == 0 || kind == 43 || kind == 60) && 6 <= |body| <= 2046 && |body| % 8 == 6
      case Fragment(_, offset, spare, _, _) => offset < 8192 && spare < 4
      case Authentication(body) => 6 <= |body| <= 1026 && |body| % 4 == 2
    }

    function Kind(): Byte {
      match this
      case Options(kind, _) => kind
      case Fragment(_, _, _, _, _) => 44
      case Authentication(_) => 51
    }

    function Size(): nat {
      match this
      case Options(_, body) => |body| + 2
      case Fragment(_, _, _, _, _) => 8
      case Authentication(body) => |body| + 2
    }

    /** The header, followed by a header of kind `next`. */
    function Bytes(next: Byte): (r: seq<Byte>)
      requires Valid()
      ensures |r| == Size()
    {
      match this
      case Options(_, body) => [next, (|body| - 6) / 8] + body
      case Fragment(reserved, offset, spare, more, id) =>
        [next, reserved] + WordBytes(offset * 8 + spare * 2 + if more then 1 else 0) + id
      case Authentication(body) => [next, (|body| - 6) / 4] + body
    }
  }

  /** The kind of the first header of a chain that ends before `next`. */
  function FirstKind(xs: seq<Extension>, next: Byte): Byte {
    if xs == [] then next else xs[0].Kind()
  }

  function ChainSize(xs: seq<Extension>): nat {
    if xs == [] then 0 else ChainSize(xs[..|xs| - 1]) + xs[|xs| - 1].Size()
  }

  predicate AllValid(xs: seq<Extension>) { forall i :: 0 <= i < |xs| ==> xs[i].Valid() }

  /** Each header names the one behind it; the last names `next`. */
  function ChainBytes(xs: seq<Extension>, next: Byte): (r: seq<Byte>)
    requires AllValid(xs)
    ensures |r| == ChainSize(xs)
  {
    if xs == [] then []
    else ChainBytes(xs[..|xs| - 1], xs[|xs| - 1].Kind()) + xs[|xs| - 1].Bytes(next)
  }

  /** The last fragment header of a chain, if there is one. */
  function FragmentOf(xs: seq<Extension>): (r: Option<Extension>)
    ensures r.Some? ==> r.value.Fragment?
  {
    if xs == [] then None
    else if xs[|xs| - 1].Fragment? then Some(xs[|xs| - 1])
    else FragmentOf(xs[..|xs| - 1])
  }

  /** One fragment header at most, and nothing behind the header of a later fragment. */
  predicate FragmentsOnce(xs: seq<Extension>) {
    && (forall i, j :: 0 <= i < j < |xs| ==> !(xs[i].Fragment? && xs[j].Fragment?))
    && (forall i :: 0 <= i < |xs| - 1 && xs[i].Fragment? ==> xs[i].offset == 0)
  }

  /** A chain a reader under `cfg` walks to its end: within the limits,
      hop-by-hop options first, at most one fragment header. */
  predicate Walkable(xs: seq<Extension>, cfg: ParserConfig) {
    && AllValid(xs) && |xs| <= cfg.maxHeaders && ChainSize(xs) <= cfg.maxBytes
    && (forall i :: 0 < i < |xs| ==> xs[i].Kind() != 0)
    && FragmentsOnce(xs)
  }

  // ---- Network layer ---------------------------------------------------------------------------

  datatype Network =
    | V4(dscp: nat, ecn: nat, id: U16, reserved: bool, dontFragment: bool, more: bool, offset: nat,
         ttl: Byte, protocol: Byte, checksum: U16, source4: Bytes4, destination4: Bytes4, options: seq<Byte>)
    | V6(class_: Byte, flow: nat, hops: Byte, source6: Bytes16, destination6: Bytes16,
         chain: seq<Extension>, next: Byte)
  {
    predicate Valid() {
      match this
      case V4(dscp, ecn, _, _, _, _, offset, _, _, _, _, _, options) =>
        dscp < 64 && ecn < 4 && offset < 8192 && |options| <= 40 && |options| % 4 == 0
      case V6(_, flow, _, _, _, chain, _) => flow < 0x10_0000 && AllValid(chain)
    }

    /** What follows the fixed header before the payload. */
    function Extra(): nat { if V4? then |options| else ChainSize(chain) }

    function FixedLen(): nat { if V4? then 20 else 40 }

    function EtherType(): U16 { if V4? then 0x0800 else 0x86dd }

    /** The protocol number of the payload. */
    function Protocol(): Byte { if V4? then protocol else next }

    predicate NonInitial() {
      if V4? then offset != 0 else FragmentOf(chain).Some? && FragmentOf(chain).value.offset != 0
    }

    predicate Incomplete() {
      NonInitial() || if V4? then more else FragmentOf(chain).Some? && FragmentOf(chain).value.more
    }

    predicate Fits(payload: seq<Byte>) {
      (if V4? then 20 else 0) + Extra() + |payload| <= 65535
    }

    function Header(payload: seq<Byte>): (r: seq<Byte>)
      requires Valid() && Fits(payload)
      ensures |r| == FixedLen()
    {
      match this
      case V4(dscp, ecn, id, reserved, dontFragment, more, offset, ttl, protocol, checksum, source4, destination4, _) =>
        [0x40 + 5 + Extra() / 4, dscp * 4 + ecn]
        + WordBytes(20 + Extra() + |payload|) + WordBytes(id)
        + WordBytes((if reserved then 0x8000 else 0) + (if dontFragment then 0x4000 else 0)
                    + (if more then 0x2000 else 0) + offset)
        + [ttl, protocol] + WordBytes(checksum) + source4 + destination4
      case V6(class_, flow, hops, source6, destination6, chain, next) =>
        [0x60 + class_ / 16, class_ % 16 * 16 + flow / 0x1_0000] + WordBytes(flow % 0x1_0000)
        + WordBytes(Extra() + |payload|) + [FirstKind(chain, next), hops] + source6 + destination6
    }

    function Bytes(payload: seq<Byte>): seq<Byte>
      requires Valid() && Fits(payload)
    {
      Header(payload) + (if V4? then options else ChainBytes(chain, next)) + payload
    }
  }

  // ---- Transport layer ---------------------------------------------------------------------------

  datatype Segment =
    | TcpSegment(sourcePort: U16, destinationPort: U16, numbers: Bytes8, dataOffset: nat, reserved: nat, flags: Byte,
                 rest: seq<Byte>)
    | UdpSegment(sourcePort: U16, destinationPort: U16, length: U16, checksum: U16, rest: seq<Byte>)
    | IcmpMessage(version6: bool, kind: Byte, code: Byte, rest: seq<Byte>)
  {
    /** A whole header; a UDP datagram is whole too unless the packet is a fragment. */
    predicate Valid(incomplete: bool) {
      match this
      case TcpSegment(_, _, _, dataOffset, reserved, _, rest) =>
        5 <= dataOffset < 16 && reserved < 16 && dataOffset * 4 <= 14 + |rest|
      case UdpSegment(_, _, length, _, rest) => 8 <= length && (!incomplete ==> length <= 8 + |rest|)
      case IcmpMessage(_, _, _, rest) => 2 <= |rest|
    }

    function Protocol(): Byte {
      match this
      case TcpSegment(_, _, _, _, _, _, _) => 6
      case UdpSegment(_, _, _, _, _) => 17
      case IcmpMessage(version6, _, _, _) => if version6 then 58 else 1
    }

    function Bytes(): seq<Byte>
      requires TcpSegment? ==> dataOffset < 16 && reserved < 16
    {
      match this
      case TcpSegment(sourcePort, destinationPort, numbers, dataOffset, reserved, flags, rest) =>
        WordBytes(sourcePort) + WordBytes(destinationPort) + numbers + [dataOffset * 16 + reserved, flags] + rest
      case UdpSegment(sourcePort, destinationPort, length, checksum, rest) =>
        WordBytes(sourcePort) + WordBytes(destinationPort) + WordBytes(length) + WordBytes(checksum) + rest
      case IcmpMessage(_, kind, code, rest) => [kind, code] + rest
    }

    /** What a reader says of the segment at `at`. */
    function View(e: ParsedPacket, at: nat): ParsedPacket {
      var e := e.(transportStatus := Present);
      match this
      case TcpSegment(sourcePort, destinationPort, _, dataOffset, _, flags, _) =>
        e.(transportProtocol := Tcp, tcp := TcpFields(at, dataOffset * 4, sourcePort, destinationPort, flags))
      case UdpSegment(sourcePort, destinationPort, length, checksum, _) =>
        e.(transportProtocol := Udp, udp := UdpFields(at, sourcePort, destinationPort, length, checksum))
      case IcmpMessage(version6, kind, code, _) =>
        e.(transportProtocol := if version6 then Icmpv6 else Icmpv4, icmp := IcmpFields(at, kind, code))
    }
  }

  // ---- Whole frames --------------------------------------------------------------------------------

  /** Link header, network packet, and whatever pads the frame behind it. */
  datatype Packet = Packet(link: Link, network: Network, payload: seq<Byte>, padding: seq<Byte>)

  /** A frame a reader under `cfg` follows through its network layer. */
  predicate WellFormed(k: Packet, cfg: ParserConfig) {
    && |k.link.tags| <= 2 && k.network.Valid() && k.network.Fits(k.payload)
    && (k.network.V6? ==> Walkable(k.network.chain, cfg))
  }

  function FrameBytes(k: Packet): seq<Byte>
    requires k.network.Valid() && k.network.Fits(k.payload)
  {
    LinkBytes(k.link, k.network.EtherType()) + k.network.Bytes(k.payload) + k.padding
  }

  function NetworkStart(k: Packet): nat { 14 + 4 * |k.link.tags| }

  function PayloadAt(k: Packet): nat { NetworkStart(k) + k.network.FixedLen() + k.network.Extra() }

  /** The link and network layers of a frame, field by field. */
  function NetworkView(k: Packet, cfg: ParserConfig): ParsedPacket
    requires WellFormed(k, cfg)
  {
    var tags, o := k.link.tags, NetworkStart(k);
    var p := Blank(cfg).(
      ethernetStatus := Present, networkStatus := Present,
      ethernet := EthernetFields(k.link.destination, k.link.source, k.network.EtherType(), |tags|,
                                 [if |tags| > 0 then tags[0].tci else 0, if |tags| > 1 then tags[1].tci else 0], o),
      nonInitialFragment := k.network.NonInitial(), incompleteFragment := k.network.Incomplete());
    match k.network
    case V4(dscp, _, _, _, _, more, offset, ttl, protocol, _, source4, destination4, options) =>
      p.(networkProtocol := Ipv4,
         ipv4 := Ipv4Fields(o, 20 + |options|, 20 + |options| + |k.payload|, dscp, ttl, protocol,
                            source4, destination4, offset, more))
    case V6(class_, _, hops, source6, destination6, chain, _) =>
      var fragment := FragmentOf(chain);
      p.(networkProtocol := Ipv6,
         ipv6 := Ipv6Fields(o, ChainSize(chain) + |k.payload|, class_, hops, source6, destination6,
                            |chain|, ChainSize(chain),
                            if fragment.Some? then fragment.value.offset else 0,
                            fragment.Some? && fragment.value.more))
  }

  /** Kinds of headers that extend the IPv6 chain. */
  predicate Extends(next: Byte) { next == 0 || next == 43 || next == 44 || next == 51 || next == 60 }

  /** Why a packet behind `k`'s network layer shows no transport, if it shows none. */
  function Refusal(k: Packet, cfg: ParserConfig): Option<ParseStatus>
    requires WellFormed(k, cfg)
  {
    if k.network.NonInitial() then Some(Absent)
    else if k.network.V6? && Extends(k.network.next) then
      Some(ChainRefusal(k.network.chain, k.network.next, k.payload, k.padding, cfg))
    else if k.network.V6? && k.network.next == 50 then Some(Unsupported)
    else SegmentRefusal(k.network.Protocol(), k.payload, k.network.Incomplete())
  }

  /** What is wrong with the extension header a walk stopped at. */
  function ChainRefusal(xs: seq<Extension>, next: Byte, payload: seq<Byte>, padding: seq<Byte>, cfg: ParserConfig)
    : ParseStatus
  {
    if |xs| >= cfg.maxHeaders then Unsupported
    else if payload == [] then Truncated
    else if next == 0 && xs != [] then Malformed
    else if next == 44 && FragmentOf(xs).Some? then Malformed
    else if next != 44 && |payload + padding| == 1 then Truncated
    else if ChainSize(xs) + DeclaredSize(next, payload + padding) > cfg.maxBytes then Unsupported
    else Truncated
  }

  /** The size the header of kind `next` at the front of `s` gives itself. */
  function DeclaredSize(next: Byte, s: seq<Byte>): nat {
    if next == 44 || |s| < 2 then 8 else if next == 51 then (s[1] as int + 2) * 4 else (s[1] as int + 1) * 8
  }

  /** The header of kind `next` at the front of `payload` cannot join the chain. */
  predicate Stuck(xs: seq<Extension>, next: Byte, payload: seq<Byte>, padding: seq<Byte>, cfg: ParserConfig) {
    var s := payload + padding;
    || |xs| >= cfg.maxHeaders || payload == []
    || (next == 0 && xs != []) || (next == 44 && FragmentOf(xs).Some?)
    || (next != 44 && |s| == 1)
    || ChainSize(xs) + DeclaredSize(next, s) > cfg.maxBytes
    || DeclaredSize(next, s) > |payload|
  }

  /** The walk of `k` ended where its chain ends: no acceptable extension header follows. */
  predicate Ended(k: Packet, cfg: ParserConfig) {
    k.network.V6? && !k.network.NonInitial() && Extends(k.network.next)
    ==> Stuck(k.network.chain, k.network.next, k.payload, k.padding, cfg)
  }

  function SegmentRefusal(protocol: Byte, payload: seq<Byte>, incomplete: bool): Option<ParseStatus> {
    match protocol
    case 6 =>
      if |payload| < 20 then Some(Truncated)
      else if payload[12] < 0x50 then Some(Malformed)
      else if payload[12] as int / 16 * 4 > |payload| then Some(Truncated) else None
    case 17 =>
      if |payload| < 8 then Some(Truncated)
      else if Word(payload, 4) < 8 || (Word(payload, 4) > |payload| && !incomplete) then Some(Malformed) else None
    case 1 => if |payload| < 4 then Some(Truncated) else None
    case 58 => if |payload| < 4 then Some(Truncated) else None
    case 59 => Some(Absent)
    case _ => Some(Unsupported)
  }
}
