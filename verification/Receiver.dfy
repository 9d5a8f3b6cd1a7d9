/** What the receiver of a frame checks, byte by byte: the checksums of section
    3.1 of RFC 791, section 3.1 of RFC 9293, RFC 768 and section 8.1 of RFC 8200,
    with the protocol number read from the frame itself. */
module Receiver {
  import opened Prelude
  import opened Parsing
  import opened ParsingFacts
  import opened ParsingTheorems
  import opened Checksum
  import opened Extents

  /** The 16-bit words of `s` add up to all ones, end-around carry included. */
  ghost predicate AllOnes(s: seq<Byte>) { Canon(WordSum(s)) == 65535 }

  // ---- The protocol number -------------------------------------------------------------------

  /** The size of an extension header of kind `kind` with length octet `octet`. */
  function ExtensionSize(kind: Byte, octet: Byte): (r: nat)
    ensures r >= 8
  {
    if kind == 44 then 8 else if kind == 51 then (octet as int + 2) * 4 else (octet as int + 1) * 8
  }

  /** The next-header byte that names the header at `t`, following the headers
      from `cursor` on; `next` names the one at `cursor`. */
  function NamedBy(b: seq<Byte>, next: Byte, cursor: nat, t: nat): Byte
    decreases t - cursor
  {
    if cursor >= t || cursor + 2 > |b| then next
    else NamedBy(b, b[cursor], cursor + ExtensionSize(next, b[cursor + 1]), t)
  }

  /** The byte of the frame that says what its transport header is. */
  function ProtocolByte(b: seq<Byte>, p: ParsedPacket): Byte
    requires Framed(p, |b|) && p.networkStatus == Present
  {
    var o := NetworkOffset(p);
    if p.networkProtocol == Ipv4 then b[o + 9] else NamedBy(b, b[o + 6], o + 40, TransportOffset(p))
  }

  /** The assigned number of the protocol a decode shows. */
  function NumberOf(p: ParsedPacket): Byte {
    match p.transportProtocol
    case Tcp => 6
    case Udp => 17
    case Icmpv4 => 1
    case Icmpv6 => 58
    case NoTransport => 59
  }

  lemma {:induction false} NamedInChain(b: seq<Byte>, e: ParsedPacket, cfg: ParserConfig, next: Byte, cursor: nat,
                                        end: nat, saw: bool)
    requires cursor <= end <= |b| && e.ipv6.extensionHeaders <= cfg.maxHeaders
    requires Chain(b, e, cfg, next, cursor, end, saw).Deliver?
    ensures var c := Chain(b, e, cfg, next, cursor, end, saw);
            cursor <= c.cursor && NamedBy(b, next, cursor, c.cursor) == c.next
    decreases end - cursor
  {
    hide Chain, Stepped;
    ChainTurn(b, e, cfg, next, cursor, end, saw);
    if IsExtension(next) {
      DeliveredStep(b, e, cfg, next, cursor, end, saw);
      var length := ExtensionLength(b, next, cursor);
      var e' := Stepped(b, e, next, cursor, e.ipv6.extensionBytes + length);
      StepCounts(b, e, next, cursor, e.ipv6.extensionBytes + length);
      NamedInChain(b, e', cfg, b[cursor], cursor + length, end, saw || next == 44);
      assert ExtensionSize(next, b[cursor + 1]) == length;
    }
  }

  lemma StepCounts(b: seq<Byte>, e: ParsedPacket, next: Byte, cursor: nat, n: U16)
    requires cursor + 4 <= |b| && e.ipv6.extensionHeaders < 255
    ensures Stepped(b, e, next, cursor, n).ipv6.extensionHeaders == e.ipv6.extensionHeaders + 1
  {
  }

  lemma DecodedBy(b: seq<Byte>, e: ParsedPacket, protocol: Byte, off: nat, available: nat)
    requires off + available <= |b| && ParseTransport(b, e, protocol, off, available).transportStatus == Present
    requires e.transportStatus != Present
    ensures protocol == NumberOf(ParseTransport(b, e, protocol, off, available))
  {
  }

  /** The number in the frame is the number of the protocol the decoder shows. */
  lemma ProtocolNamed(b: seq<Byte>, cfg: ParserConfig)
    requires Parse(b, cfg).transportStatus == Present
    ensures Framed(Parse(b, cfg), |b|) && Parse(b, cfg).networkStatus == Present
    ensures ProtocolByte(b, Parse(b, cfg)) == NumberOf(Parse(b, cfg))
  {
    var p := Parse(b, cfg);
    ParseIsFramed(b, cfg);
    Relands(b, b, cfg, p);
    ParseKeepsConfig(b, cfg);
    var e, o := Landed(Addressed(b, cfg), p), p.ethernet.headerLen;
    hide Parse, ParseIpv4, ParseIpv6, ProtocolByte, NumberOf, Addressed, Landed, AfterEthernet, Framed;
    if p.ethernet.etherType == 0x0800 { Named4(b, e, o, p); } else { Named6(b, e, o, cfg, p); }
  }

  lemma Named4(b: seq<Byte>, e: ParsedPacket, o: nat, p: ParsedPacket)
    requires o <= |b| && AfterEthernet(e) && e.ethernet.headerLen == o && Framed(p, |b|) && p.networkStatus == Present
    requires p == ParseIpv4(b, e, o) && p.transportStatus == Present
    ensures ProtocolByte(b, p) == NumberOf(p)
  {
    Ipv4Lands(b, e, o, p);
    hide ParseIpv4, ParseTransport;
    DecodedBy(b, Ipv4Entry(b, e, o), b[o + 9], o + b[o] % 16 * 4, Word(b, o + 2) - b[o] % 16 * 4);
  }

  lemma Named6(b: seq<Byte>, e: ParsedPacket, o: nat, cfg: ParserConfig, p: ParsedPacket)
    requires 14 <= o <= |b| && AfterEthernet(e) && e.ethernet.headerLen == o && e.config == cfg
    requires Framed(p, |b|) && p.networkStatus == Present
    requires p == ParseIpv6(b, e, o, cfg) && p.transportStatus == Present
    ensures ProtocolByte(b, p) == NumberOf(p)
  {
    Ipv6Lands(b, e, o, cfg, p);
    var c, end := Chain6(b, e, o, cfg), o + 40 + Word(b, o + 4);
    assert TransportOffset(p) == c.cursor;
    hide ParseIpv6, ParseTransport, Chain, Framed;
    NamedInChain(b, Ipv6Entry(b, e, o), cfg, b[o + 6], o + 40, end, false);
    DecodedBy(b, c.entry, c.next, c.cursor, end - c.cursor);
  }

  // ---- What is summed ------------------------------------------------------------------------

  /** The pseudo-header of a segment of `n` bytes, from the bytes of the frame. */
  function PseudoHeader(b: seq<Byte>, p: ParsedPacket, n: U16): seq<Byte>
    requires Framed(p, |b|) && p.networkStatus == Present
  {
    var o := NetworkOffset(p);
    if p.networkProtocol == Ipv4 then b[o + 12..o + 20] + [0, ProtocolByte(b, p)] + WordBytes(n)
    else b[o + 8..o + 40] + [0, 0] + WordBytes(n) + [0, 0, 0, ProtocolByte(b, p)]
  }

  lemma {:induction false} SumJoins(s: seq<Byte>, t: seq<Byte>)
    requires |s| % 2 == 0
    ensures WordSum(s + t) == WordSum(s) + WordSum(t)
  {
    if s == [] {
      assert s + t == t;
    } else {
      SumJoins(s[2..], t);
      assert (s + t)[2..] == s[2..] + t && Word(s + t, 0) == Word(s, 0);
    }
  }

  lemma WordsSum(v: U16, w: U16)
    ensures WordSum(WordBytes(v) + WordBytes(w)) == v + w
  {
    var s := WordBytes(v) + WordBytes(w);
    assert s[2..] == WordBytes(w) && s[2..][2..] == [];
    assert WordSum(s) == Word(s, 0) + WordSum(s[2..]) && WordSum(s[2..]) == Word(s[2..], 0) + WordSum(s[2..][2..]);
  }

  lemma PlainSum(b: seq<Byte>, off: nat, n: nat)
    requires off + n <= |b|
    ensures RangeSum(b, off, 0, n, None, None, 0) == Some(WordSum(b[off..off + n]))
  {
    RangeSumIsWordSum(b, off, n, None, None, 0);
  }

  /** The code's pseudo-header sum is the sum of the pseudo-header. */
  lemma PseudoIs(b: seq<Byte>, cfg: ParserConfig, n: U16)
    requires HasTransport(Parse(b, cfg))
    ensures var p := Parse(b, cfg);
            && Framed(p, |b|) && p.networkStatus == Present && |PseudoHeader(b, p, n)| % 2 == 0
            && PseudoSum(b, p, n) == Some(WordSum(PseudoHeader(b, p, n)))
  {
    var p := Parse(b, cfg);
    ProtocolNamed(b, cfg);
    hide Parse, PseudoSum, PseudoHeader, ProtocolByte, NumberOf, Framed, RangeSum, WordSum;
    CodeSum(b, p, n);
    HeaderSumIs(b, p, n);
  }

  /** The addresses a pseudo-header begins with. */
  function Addresses(b: seq<Byte>, p: ParsedPacket): seq<Byte>
    requires Framed(p, |b|) && p.networkStatus == Present
  {
    var o := NetworkOffset(p);
    if p.networkProtocol == Ipv4 then b[o + 12..o + 20] else b[o + 8..o + 40]
  }

  lemma CodeSum(b: seq<Byte>, p: ParsedPacket, n: U16)
    requires Framed(p, |b|) && p.networkStatus == Present && HasTransport(p)
    ensures PseudoSum(b, p, n) == Some(WordSum(Addresses(b, p)) + NumberOf(p) + n)
  {
    hide RangeSum, WordSum;
    var o := NetworkOffset(p);
    if p.networkProtocol == Ipv4 { PlainSum(b, o + 12, 8); } else { PlainSum(b, o + 8, 32); }
  }

  lemma HeaderSumIs(b: seq<Byte>, p: ParsedPacket, n: U16)
    requires Framed(p, |b|) && p.networkStatus == Present
    ensures |PseudoHeader(b, p, n)| % 2 == 0
    ensures WordSum(PseudoHeader(b, p, n)) == WordSum(Addresses(b, p)) + ProtocolByte(b, p) + n
  {
    var s, x := Addresses(b, p), ProtocolByte(b, p);
    assert |WordBytes(n)| == 2 && (|s| == 8 || |s| == 32);
    assert PseudoHeader(b, p, n) == if p.networkProtocol == Ipv4 then s + [0, x] + WordBytes(n)
                                    else s + [0, 0] + WordBytes(n) + [0, 0, 0, x];
    hide *;
    if p.networkProtocol == Ipv4 { Pseudo4Sum(s, x, n); } else { Pseudo6Sum(s, x, n); }
  }

  lemma Pseudo4Sum(s: seq<Byte>, x: Byte, n: U16)
    requires |s| % 2 == 0
    ensures WordSum(s + [0, x] + WordBytes(n)) == WordSum(s) + x + n
  {
    hide WordSum;
    WordsSum(x, n);
    SumJoins(s, WordBytes(x) + WordBytes(n));
    assert WordBytes(x) == [0, x];
    hide WordBytes;
    Grouped(s, [0, x], WordBytes(n), []);
  }

  lemma Pseudo6Sum(s: seq<Byte>, x: Byte, n: U16)
    requires |s| % 2 == 0
    ensures WordSum(s + [0, 0] + WordBytes(n) + [0, 0, 0, x]) == WordSum(s) + x + n
  {
    hide WordSum;
    WordsSum(0, n);
    WordsSum(0, x);
    var t, u := WordBytes(0) + WordBytes(n), WordBytes(0) + WordBytes(x);
    assert |t| == 4 && WordBytes(0) == [0, 0] && u == [0, 0, 0, x];
    hide WordBytes;
    SumJoins(s, t + u);
    SumJoins(t, u);
    Grouped(s, [0, 0], WordBytes(n), u);
  }

  lemma Grouped(s: seq<Byte>, t: seq<Byte>, u: seq<Byte>, v: seq<Byte>)
    ensures s + t + u + v == s + ((t + u) + v) && s + t + u == s + (t + u)
  {
  }

  // ---- The two checks --------------------------------------------------------------------------

  /** Where the segment ends: UDP says so itself, TCP fills the packet. */
  function SegmentLength(b: seq<Byte>, p: ParsedPacket): nat
    requires Framed(p, |b|) && HasTransport(p)
  {
    if p.transportProtocol == Udp then Word(b, TransportOffset(p) + 4) else NetworkEnd(p) - TransportOffset(p)
  }

  /** The IPv4 header sums to all ones. */
  ghost predicate HeaderAccepted(b: seq<Byte>) {
    var p := Parse(b, DEFAULT_CONFIG);
    var o := NetworkOffset(p);
    p.networkProtocol == Ipv4 && o + p.ipv4.headerLen <= |b| && AllOnes(b[o..o + p.ipv4.headerLen])
  }

  /** A TCP or UDP segment sums to all ones with its pseudo-header. */
  ghost predicate SegmentAccepted(b: seq<Byte>) {
    var p := Parse(b, DEFAULT_CONFIG);
    && HasTransport(p) && Framed(p, |b|) && p.networkStatus == Present
    && var t, n := TransportOffset(p), SegmentLength(b, p);
       n <= 65535 && t + n <= |b| && AllOnes(PseudoHeader(b, p, n) + b[t..t + n])
  }

  /** A receiver accepts every checksum of the packet. A first fragment has no
      whole segment to check, and an all-zero UDP checksum over IPv4 says that
      none was sent (section "Fields" of RFC 768). */
  ghost predicate Accepted(b: seq<Byte>) {
    var p := Parse(b, DEFAULT_CONFIG);
    && p.networkStatus == Present && (p.networkProtocol == Ipv4 ==> HeaderAccepted(b))
    && (HasTransport(p) && !p.incompleteFragment && !Unsummed(b, p) ==> SegmentAccepted(b))
  }

  predicate Unsummed(b: seq<Byte>, p: ParsedPacket) {
    var t := TransportOffset(p);
    p.networkProtocol == Ipv4 && p.transportProtocol == Udp && t + 8 <= |b| && Word(b, t + 6) == 0
  }

  /** The checks of a receiver are those the finalizer is proved against. */
  lemma AcceptedIs(b: seq<Byte>, n: U16)
    requires var p := Parse(b, DEFAULT_CONFIG);
             HasTransport(p) && DeclaredExtents(p, |b|).Ok? && DeclaredExtents(p, |b|).value.transportLen == n
    ensures SegmentAccepted(b)
            <==> TransportSumValid(b, Parse(b, DEFAULT_CONFIG), TransportOffset(Parse(b, DEFAULT_CONFIG)), n)
  {
    hide Parse, WordSum, Canon, PseudoSum, RangeSum, DeclaredExtents, PseudoHeader, SegmentLength, Framed, HasTransport;
    var p := Parse(b, DEFAULT_CONFIG);
    var t := TransportOffset(p);
    PseudoIs(b, DEFAULT_CONFIG, n);
    LengthIs(b, n);
    if t + n <= |b| { SumJoins(PseudoHeader(b, p, n), b[t..t + n]); }
  }

  lemma LengthIs(b: seq<Byte>, n: U16)
    requires var p := Parse(b, DEFAULT_CONFIG);
             && Framed(p, |b|) && HasTransport(p) && DeclaredExtents(p, |b|).Ok?
             && DeclaredExtents(p, |b|).value.transportLen == n
    ensures SegmentLength(b, Parse(b, DEFAULT_CONFIG)) == n
  {
    ParsedLengths(b, DEFAULT_CONFIG);
    hide Parse;
  }

  lemma HeaderAcceptedIs(b: seq<Byte>)
    ensures var p := Parse(b, DEFAULT_CONFIG);
            HeaderAccepted(b) <==> p.networkProtocol == Ipv4 && HeaderSumValid(b, NetworkOffset(p), p.ipv4.headerLen)
  {
    hide Parse;
  }
}
