/** What lies behind the declared network packet, and what a cut before its end does. */
module PaddingTheorems {
  import opened Prelude
  import opened Parsing
  import opened ParsingFacts
  import opened ParsingTheorems

  // ---- Padding -------------------------------------------------------------

  /** The walk meets an extension header that has exactly one payload byte left
      and would be accepted so far: its length byte lies behind the payload.
      Only bytes before `end` are looked at. */
  predicate Peeks(b: seq<Byte>, cfg: ParserConfig, headers: nat, bytes: nat,
                  next: Byte, cursor: nat, end: nat, sawFragment: bool)
    requires cursor <= end <= |b|
    decreases end - cursor
  {
    && IsExtension(next) && headers < cfg.maxHeaders && cursor < end
    && !(next == 0 && headers != 0) && !(next == 44 && sawFragment)
    && if next != 44 && cursor + 1 == end then true else
       var length := ExtensionLength(b, next, cursor);
       && bytes + length <= cfg.maxBytes && cursor + length <= end
       && !(next == 44 && Word(b, cursor + 2) / 8 != 0)
       && Peeks(b, cfg, headers + 1, bytes + length, b[cursor], cursor + length, end, sawFragment || next == 44)
  }

  /** An accepted header lies before `end` with all that a step reads. */
  lemma StepUnread(a: seq<Byte>, b: seq<Byte>, e: ParsedPacket, cfg: ParserConfig,
                   next: Byte, cursor: nat, end: nat, sawFragment: bool)
    requires cursor <= end && Agree(a, b, cursor, end) && Accepts(a, e, cfg, next, cursor, end, sawFragment)
    ensures var length := ExtensionLength(a, next, cursor);
            && Accepts(b, e, cfg, next, cursor, end, sawFragment)
            && 8 <= length == ExtensionLength(b, next, cursor) && a[cursor] == b[cursor]
            && Stepped(b, e, next, cursor, e.ipv6.extensionBytes + length)
               == Stepped(a, e, next, cursor, e.ipv6.extensionBytes + length)
  {
    assert a[cursor] == b[cursor] && a[cursor + 1] == b[cursor + 1];
    assert a[cursor + 2] == b[cursor + 2] && a[cursor + 3] == b[cursor + 3];
  }

  /** A refusal or delivery that does not read behind `end`. */
  lemma RefusalUnread(a: seq<Byte>, b: seq<Byte>, e: ParsedPacket, cfg: ParserConfig,
                      next: Byte, cursor: nat, end: nat, sawFragment: bool)
    requires cursor <= end && Agree(a, b, cursor, end) && !Accepts(a, e, cfg, next, cursor, end, sawFragment)
    requires e.ipv6.extensionHeaders <= cfg.maxHeaders
    requires !Peeks(a, cfg, e.ipv6.extensionHeaders, e.ipv6.extensionBytes, next, cursor, end, sawFragment)
    ensures Chain(b, e, cfg, next, cursor, end, sawFragment) == Chain(a, e, cfg, next, cursor, end, sawFragment)
  {
    if cursor + 1 < end { assert a[cursor + 1] == b[cursor + 1]; }
  }

  /** A walk that does not peek is decided by the bytes before `end`. */
  lemma {:induction false} ChainUnread(a: seq<Byte>, b: seq<Byte>, e: ParsedPacket, cfg: ParserConfig,
                                       next: Byte, cursor: nat, end: nat, sawFragment: bool)
    requires cursor <= end && Agree(a, b, cursor, end)
    requires e.ipv6.extensionHeaders <= cfg.maxHeaders && !e.nonInitialFragment
    requires !Peeks(a, cfg, e.ipv6.extensionHeaders, e.ipv6.extensionBytes, next, cursor, end, sawFragment)
    ensures Chain(b, e, cfg, next, cursor, end, sawFragment) == Chain(a, e, cfg, next, cursor, end, sawFragment)
    decreases end - cursor
  {
    hide Chain;
    if Accepts(a, e, cfg, next, cursor, end, sawFragment) {
      StepUnread(a, b, e, cfg, next, cursor, end, sawFragment);
      ChainTurn(a, e, cfg, next, cursor, end, sawFragment);
      ChainTurn(b, e, cfg, next, cursor, end, sawFragment);
      var length := ExtensionLength(a, next, cursor);
      var e' := Stepped(a, e, next, cursor, e.ipv6.extensionBytes + length);
      if !e'.nonInitialFragment {
        ChainUnread(a, b, e', cfg, a[cursor], cursor + length, end, sawFragment || next == 44);
      }
    } else {
      RefusalUnread(a, b, e, cfg, next, cursor, end, sawFragment);
    }
  }

  /** Two ends of a peeking walk: the same refusal up to its status. */
  predicate Peeked(c: ChainEnd, d: ChainEnd) {
    && c.Stop? && d.Stop? && c.entry.transportStatus in {Truncated, Unsupported}
    && d.entry.transportStatus in {Truncated, Unsupported}
    && d.entry == c.entry.(transportStatus := d.entry.transportStatus)
  }

  /** The one refusal that reads behind `end`. */
  lemma PeekHere(b: seq<Byte>, e: ParsedPacket, cfg: ParserConfig, next: Byte, cursor: nat, end: nat, sawFragment: bool)
    requires cursor + 1 == end <= |b| && IsExtension(next) && next != 44
    requires e.ipv6.extensionHeaders < cfg.maxHeaders && !(next == 0 && e.ipv6.extensionHeaders != 0)
    ensures var c := Chain(b, e, cfg, next, cursor, end, sawFragment);
            && c.Stop? && c.entry == TransportFailure(e, c.entry.transportStatus)
            && c.entry.transportStatus in {Truncated, Unsupported}
            && (|b| == end ==> c.entry.transportStatus == Truncated)
            && (|b| > end && b[end] == 255 && cfg.Valid() ==> c.entry.transportStatus == Unsupported)
  {
  }

  /** A peeking walk is refused; only the status of the refusal depends on what
      lies behind `end`: without padding it is `Truncated`, with a padding byte
      of 255 it is `Unsupported`. */
  lemma {:induction false} ChainPeeks(a: seq<Byte>, b: seq<Byte>, e: ParsedPacket, cfg: ParserConfig,
                                      next: Byte, cursor: nat, end: nat, sawFragment: bool)
    requires cursor <= end && Agree(a, b, cursor, end)
    requires e.ipv6.extensionHeaders <= cfg.maxHeaders && !e.nonInitialFragment
    requires Peeks(a, cfg, e.ipv6.extensionHeaders, e.ipv6.extensionBytes, next, cursor, end, sawFragment)
    ensures var d := Chain(b, e, cfg, next, cursor, end, sawFragment);
            && Peeked(Chain(a, e, cfg, next, cursor, end, sawFragment), d)
            && (|b| == end ==> d.entry.transportStatus == Truncated)
            && (|b| > end && b[end] == 255 && cfg.Valid() ==> d.entry.transportStatus == Unsupported)
    decreases end - cursor
  {
    hide Chain;
    if next != 44 && cursor + 1 == end {
      PeekHere(a, e, cfg, next, cursor, end, sawFragment);
      PeekHere(b, e, cfg, next, cursor, end, sawFragment);
    } else {
      StepUnread(a, b, e, cfg, next, cursor, end, sawFragment);
      ChainTurn(a, e, cfg, next, cursor, end, sawFragment);
      ChainTurn(b, e, cfg, next, cursor, end, sawFragment);
      var length := ExtensionLength(a, next, cursor);
      var e' := Stepped(a, e, next, cursor, e.ipv6.extensionBytes + length);
      ChainPeeks(a, b, e', cfg, a[cursor], cursor + length, end, sawFragment || next == 44);
    }
  }

  /** The decode of a frame reads behind its declared IPv6 payload. */
  predicate PeeksBehind(b: seq<Byte>, o: nat, cfg: ParserConfig)
    requires o + 40 <= |b| && o + 40 + Word(b, o + 4) <= |b|
  {
    Peeks(b, cfg, 0, 0, b[o + 6], o + 40, o + 40 + Word(b, o + 4), false)
  }

  /** Whether a frame with a network layer is one of the peeking ones. */
  predicate ReadsPadding(b: seq<Byte>, cfg: ParserConfig)
    requires Parse(b, cfg).networkStatus == Present
  {
    var p := Parse(b, cfg);
    ParsedLengths(b, cfg);
    p.networkProtocol == Ipv6 && PeeksBehind(b, NetworkOffset(p), cfg)
  }

  lemma Unread4(a: seq<Byte>, b: seq<Byte>, e: ParsedPacket, o: nat)
    requires Accepts4(a, o) && Agree(a, b, o, o + Word(a, o + 2))
    ensures ParseIpv4(b, e, o) == ParseIpv4(a, e, o)
  {
    hide ParseTransport;
    assert a[o] == b[o] && a[o + 2] == b[o + 2] && a[o + 3] == b[o + 3];
    assert a[o + 12..o + 16] == b[o + 12..o + 16] && a[o + 16..o + 20] == b[o + 16..o + 20];
    assert Ipv4Entry(a, e, o) == Ipv4Entry(b, e, o);
    var headerLen, totalLen := a[o] % 16 * 4, Word(a, o + 2);
    TransportSameBytes(a, b, Ipv4Entry(a, e, o), a[o + 9], o + headerLen, totalLen - headerLen);
  }

  /** The fixed header is whole, and equal bytes give equal entries. */
  lemma Entry6Unread(a: seq<Byte>, b: seq<Byte>, e: ParsedPacket, o: nat)
    requires o + 40 <= |a| && Agree(a, b, o, o + 40)
    ensures Ipv6Entry(a, e, o) == Ipv6Entry(b, e, o) && Word(a, o + 4) == Word(b, o + 4)
            && a[o] == b[o] && a[o + 6] == b[o + 6]
  {
    assert a[o + 4] == b[o + 4] && a[o + 5] == b[o + 5];
    assert a[o + 8..o + 24] == b[o + 8..o + 24] && a[o + 24..o + 40] == b[o + 24..o + 40];
  }

  lemma Unread6(a: seq<Byte>, b: seq<Byte>, e: ParsedPacket, o: nat, cfg: ParserConfig)
    requires o + 40 <= |a| && a[o] / 16 == 6 && o + 40 + Word(a, o + 4) <= |a|
    requires Agree(a, b, o, o + 40 + Word(a, o + 4)) && !e.nonInitialFragment
    ensures !PeeksBehind(a, o, cfg) ==> ParseIpv6(b, e, o, cfg) == ParseIpv6(a, e, o, cfg)
    ensures PeeksBehind(a, o, cfg) ==>
              var p, q := ParseIpv6(a, e, o, cfg), ParseIpv6(b, e, o, cfg);
              && p.transportStatus in {Truncated, Unsupported} && q == p.(transportStatus := q.transportStatus)
              && (|b| == o + 40 + Word(a, o + 4) ==> q.transportStatus == Truncated)
              && (|b| > o + 40 + Word(a, o + 4) && b[o + 40 + Word(a, o + 4)] == 255 && cfg.Valid() ==>
                    q.transportStatus == Unsupported)
  {
    hide Chain, ParseTransport, Peeks;
    Entry6Unread(a, b, e, o);
    var e6, end := Ipv6Entry(a, e, o), o + 40 + Word(a, o + 4);
    assert e6.ipv6.extensionHeaders == 0 && e6.ipv6.extensionBytes == 0 && !e6.nonInitialFragment;
    if PeeksBehind(a, o, cfg) {
      ChainPeeks(a, b, e6, cfg, a[o + 6], o + 40, end, false);
    } else {
      ChainUnread(a, b, e6, cfg, a[o + 6], o + 40, end, false);
      var c := Chain(a, e6, cfg, a[o + 6], o + 40, end, false);
      ChainInside(a, e6, cfg, a[o + 6], o + 40, end, false);
      if c.Deliver? { TransportSameBytes(a, b, c.entry, c.next, c.cursor, end - c.cursor); }
    }
  }

  /** What padding can change: nothing unless the frame peeks, and then only
      whether its transport is called `Truncated` or `Unsupported`. */
  lemma PaddingReach(a: seq<Byte>, b: seq<Byte>, cfg: ParserConfig)
    requires Parse(a, cfg).networkStatus == Present && Agree(a, b, 0, NetworkEnd(Parse(a, cfg)))
    ensures !ReadsPadding(a, cfg) ==> Parse(b, cfg) == Parse(a, cfg)
    ensures ReadsPadding(a, cfg) ==>
              var p, q := Parse(a, cfg), Parse(b, cfg);
              && p.transportStatus in {Truncated, Unsupported} && q == p.(transportStatus := q.transportStatus)
              && (|b| == NetworkEnd(p) ==> q.transportStatus == Truncated)
              && (|b| > NetworkEnd(p) && b[NetworkEnd(p)] == 255 && cfg.Valid() ==> q.transportStatus == Unsupported)
  {
    hide ParseIpv4, ParseIpv6, Parse, PeeksBehind;
    var p := Parse(a, cfg);
    ParseIsFramed(a, cfg);
    ParsedLengths(a, cfg);
    Relands(a, b, cfg, p);
    var e, o := Landed(Addressed(a, cfg), p), p.ethernet.headerLen;
    assert a[0..6] == b[0..6] && a[6..12] == b[6..12];
    assert e == Landed(Addressed(b, cfg), p);
    if p.ethernet.etherType == 0x0800 {
      NetworkHeader4(a, e, o);
      Unread4(a, b, e, o);
    } else {
      NetworkHeader6(a, e, o, cfg);
      Unread6(a, b, e, o, cfg);
    }
  }

  /** Padding is ignored exactly by the frames that do not peek: the decode is
      the same for every continuation behind the network packet if and only if
      the extension walk never has a single payload byte left. */
  lemma PaddingExact(a: seq<Byte>, cfg: ParserConfig)
    requires cfg.Valid() && Parse(a, cfg).networkStatus == Present
    ensures (forall b :: Agree(a, b, 0, NetworkEnd(Parse(a, cfg))) ==> Parse(b, cfg) == Parse(a, cfg))
            <==> !ReadsPadding(a, cfg)
  {
    hide Parse, ReadsPadding;
    ParseIsFramed(a, cfg);
    var end := NetworkEnd(Parse(a, cfg));
    if ReadsPadding(a, cfg) {
      var bare, padded := a[..end], a[..end] + [255];
      PaddingReach(a, bare, cfg);
      PaddingReach(a, padded, cfg);
      assert Agree(a, bare, 0, end) && Agree(a, padded, 0, end);
    } else {
      forall b | Agree(a, b, 0, end) ensures Parse(b, cfg) == Parse(a, cfg) { PaddingReach(a, b, cfg); }
    }
  }

  /** In particular a decoded transport never depends on padding. */
  lemma PaddingIgnored(a: seq<Byte>, b: seq<Byte>, cfg: ParserConfig)
    requires Parse(a, cfg).transportStatus == Present
    requires Agree(a, b, 0, NetworkEnd(Parse(a, cfg)))
    ensures Parse(b, cfg) == Parse(a, cfg)
  {
    ParseIsFramed(a, cfg);
    PaddingReach(a, b, cfg);
  }

  /** The shortest peeking frame: a one-byte payload that is `Truncated` without
      padding and `Unsupported` with a large padding byte. */
  lemma PaddingReadByExtensionRemainder(b: seq<Byte>, pad: Byte)
    requires |b| == 55 && b[12] == 0x86 && b[13] == 0xdd && b[14] == 0x60 && b[18] == 0 && b[19] == 1 && b[20] == 0
    requires pad >= 32
    ensures Parse(b, DEFAULT_CONFIG).transportStatus == Truncated
    ensures Parse(b + [pad], DEFAULT_CONFIG).transportStatus == Unsupported
    ensures Parse(b, DEFAULT_CONFIG).networkStatus == Present
            && Parse(b + [pad], DEFAULT_CONFIG).networkStatus == Present
    ensures NetworkEnd(Parse(b, DEFAULT_CONFIG)) == NetworkEnd(Parse(b + [pad], DEFAULT_CONFIG)) == 55
  {
    var c := b + [pad];
    assert Word(b, 12) == 0x86dd && Word(c, 12) == 0x86dd && Word(b, 18) == 1 && Word(c, 18) == 1;
    OneByteChain(b, Ipv6Entry(b, Named(b), 14));
    OneByteChain(c, Ipv6Entry(c, Named(c), 14));
    assert Parse(b, DEFAULT_CONFIG) == ParseIpv6(b, Named(b), 14, DEFAULT_CONFIG);
    assert Parse(c, DEFAULT_CONFIG) == ParseIpv6(c, Named(c), 14, DEFAULT_CONFIG);
  }

  function Named(b: seq<Byte>): ParsedPacket
    requires |b| >= 14
  {
    var e := Addressed(b, DEFAULT_CONFIG);
    e.(ethernet := e.ethernet.(etherType := 0x86dd, headerLen := 14), ethernetStatus := Present)
  }

  lemma OneByteChain(b: seq<Byte>, e: ParsedPacket)
    requires 55 <= |b| <= 56 && e.ipv6.extensionHeaders == 0 && e.ipv6.extensionBytes == 0
    requires |b| == 56 ==> b[55] >= 32
    ensures Chain(b, e, DEFAULT_CONFIG, 0, 54, 55, false)
            == Stop(TransportFailure(e, if |b| == 55 then Truncated else Unsupported))
  {
  }

  // ---- Truncation ----------------------------------------------------------

  lemma {:induction false} VlanCut(b: seq<Byte>, e: ParsedPacket, f: ParsedPacket, etherType: U16, cursor: nat,
                                   n: nat, cfg: ParserConfig, p: ParsedPacket)
    requires 14 <= cursor <= n <= |b| && AtTags(e, cursor, cfg) && e.ethernetStatus == Unparsed
    requires p == ParseVlan(b, e, etherType, cursor, cfg) && p.ethernetStatus == Present
    requires n < p.ethernet.headerLen
    requires |f.ethernet.vlanTci| == 2 && f.ethernet.vlanCount == e.ethernet.vlanCount
    ensures ParseVlan(b[..n], f, etherType, cursor, cfg).ethernetStatus == Truncated
    decreases |b| - cursor
  {
    hide ParseNetwork;
    VlanLands(b, e, etherType, cursor, cfg, p);
    var c := b[..n];
    if !IsVlan(etherType) {
      NetworkKeepsEthernet(b, e.(ethernet := e.ethernet.(etherType := etherType, headerLen := cursor),
                                 ethernetStatus := Present),
                           etherType, cursor, cfg);
    } else if n - cursor >= 4 {
      var at := e.ethernet.vlanCount;
      var e' := e.(ethernet := e.ethernet.(vlanTci := e.ethernet.vlanTci[at := Word(b, cursor)], vlanCount := at + 1));
      var f' := f.(ethernet := f.ethernet.(vlanTci := f.ethernet.vlanTci[at := Word(c, cursor)], vlanCount := at + 1));
      VlanCut(b, e', f', Word(b, cursor + 2), cursor + 4, n, cfg, p);
      assert Word(c, cursor + 2) == Word(b, cursor + 2);
    }
  }

  lemma NetworkCut(b: seq<Byte>, e: ParsedPacket, f: ParsedPacket, etherType: U16, o: nat, n: nat, cfg: ParserConfig,
                   p: ParsedPacket)
    requires 14 <= o <= n <= |b| && AfterEthernet(e) && e.ethernet.headerLen == o && e.config == cfg
    requires p == ParseNetwork(b, e, etherType, o, cfg) && p.networkStatus == Present
    requires n < NetworkEnd(p)
    ensures ParseNetwork(b[..n], f, etherType, o, cfg).networkStatus == Truncated
  {
    hide Chain, ParseTransport;
    var c := b[..n];
    if etherType == 0x0800 {
      NetworkHeader4(b, e, o);
      if n >= o + 20 { assert Word(c, o + 2) == Word(b, o + 2) && c[o] == b[o]; }
    } else {
      NetworkHeader6(b, e, o, cfg);
      if n >= o + 40 { assert Word(c, o + 4) == Word(b, o + 4) && c[o] == b[o]; }
    }
  }

  /** Truncation is always noticed and never over-reported: cutting a frame
      anywhere before the end of its network packet makes some layer `Truncated`;
      cutting it at or after that end changes nothing, unless the extension walk
      peeks, which a frame with a decoded transport never does. */
  lemma TruncationExact(b: seq<Byte>, cfg: ParserConfig, n: nat)
    requires n <= |b| && Parse(b, cfg).networkStatus == Present
    ensures n >= NetworkEnd(Parse(b, cfg)) && !ReadsPadding(b, cfg) ==> Parse(b[..n], cfg) == Parse(b, cfg)
    ensures n < NetworkEnd(Parse(b, cfg)) ==>
              var q := Parse(b[..n], cfg);
              q.ethernetStatus == Truncated || q.networkStatus == Truncated
    ensures Parse(b, cfg).transportStatus == Present ==> !ReadsPadding(b, cfg)
  {
    var p, c := Parse(b, cfg), b[..n];
    ParseIsFramed(b, cfg);
    PaddingReach(b, b, cfg);
    if n >= NetworkEnd(p) {
      PaddingReach(b, c, cfg);
    } else if n >= 14 {
      var e, f := Addressed(b, cfg), Addressed(c, cfg);
      assert p == ParseVlan(b, e, Word(b, 12), 14, cfg) && Parse(c, cfg) == ParseVlan(c, f, Word(b, 12), 14, cfg);
      VlanLands(b, e, Word(b, 12), 14, cfg, p);
      assert Word(c, 12) == Word(b, 12);
      if n < p.ethernet.headerLen {
        VlanCut(b, e, f, Word(b, 12), 14, n, cfg, p);
      } else {
        Relands(b, c, cfg, p);
        NetworkCut(b, Landed(e, p), Landed(f, p), p.ethernet.etherType, p.ethernet.headerLen, n, cfg, p);
      }
    }
  }
}
