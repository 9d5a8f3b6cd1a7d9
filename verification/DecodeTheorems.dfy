/** The decoder reads back what senders build: a frame built layer by layer
    decodes to exactly the fields it was built from, every frame whose network
    layer decodes is such a frame, and each refusal says what is wrong with it. */
module DecodeTheorems {
  import opened Prelude
  import opened Parsing
  import opened ParsingFacts
  import opened WireFormat

  // ---- Link layer --------------------------------------------------------------------------

  /** The entry once the link header of `l` is read. */
  function LinkView(l: Link, etherType: U16, cfg: ParserConfig): ParsedPacket {
    Blank(cfg).(ethernetStatus := Present,
                ethernet := EthernetFields(l.destination, l.source, etherType, |l.tags|,
                                           [if |l.tags| > 0 then l.tags[0].tci else 0,
                                            if |l.tags| > 1 then l.tags[1].tci else 0], 14 + 4 * |l.tags|))
  }

  lemma TagWords(s: seq<Byte>, tags: seq<Tag>, etherType: U16, at: nat)
    requires at + |TagBytes(tags, etherType)| <= |s|
    requires s[at..at + |TagBytes(tags, etherType)|] == TagBytes(tags, etherType)
    ensures tags == [] ==> Word(s, at) == etherType
    ensures tags != [] ==>
              && Word(s, at) == (if tags[0].service then 0x88a8 else 0x8100) && Word(s, at + 2) == tags[0].tci
              && at + 4 + |TagBytes(tags[1..], etherType)| <= |s|
              && s[at + 4..at + 4 + |TagBytes(tags[1..], etherType)|] == TagBytes(tags[1..], etherType)
  {
    var t := TagBytes(tags, etherType);
    assert forall k :: 0 <= k < |t| ==> s[at + k] == t[k];
    if tags != [] {
      assert t[4..] == TagBytes(tags[1..], etherType);
      assert s[at + 4..at + |t|] == t[4..];
    }
  }

  /** `tcis` with the values of `tags` stored from `n` on. */
  function Stored(tcis: seq<U16>, n: nat, tags: seq<Tag>): (r: seq<U16>)
    requires n + |tags| <= |tcis|
    ensures |r| == |tcis|
    decreases |tags|
  {
    if tags == [] then tcis else Stored(tcis[n := tags[0].tci], n + 1, tags[1..])
  }

  lemma StoredTwo(tags: seq<Tag>)
    requires |tags| <= 2
    ensures Stored([0, 0], 0, tags)
            == [if |tags| > 0 then tags[0].tci else 0, if |tags| > 1 then tags[1].tci else 0]
  {
    var zeros: seq<U16> := [0, 0];
    if |tags| == 1 {
      assert Stored(zeros, 0, tags) == Stored(zeros[0 := tags[0].tci], 1, tags[1..]);
    } else if |tags| == 2 {
      var t := zeros[0 := tags[0].tci];
      assert Stored(zeros, 0, tags) == Stored(t, 1, tags[1..]) == Stored(t[1 := tags[1].tci], 2, tags[1..][1..]);
    }
  }

  lemma {:induction false} TagsDecode(b: seq<Byte>, e: ParsedPacket, tags: seq<Tag>, etherType: U16, at: nat,
                                      cfg: ParserConfig)
    requires at + |TagBytes(tags, etherType)| <= |b| && etherType != 0x8100 && etherType != 0x88a8
    requires b[at..at + |TagBytes(tags, etherType)|] == TagBytes(tags, etherType)
    requires |e.ethernet.vlanTci| == 2 && e.ethernet.vlanCount + |tags| <= 2
    ensures var n, tcis := e.ethernet.vlanCount, e.ethernet.vlanTci;
            var fields := e.ethernet.(etherType := etherType, vlanCount := n + |tags|, vlanTci := Stored(tcis, n, tags),
                                      headerLen := at + 2 + 4 * |tags|);
            ParseVlan(b, e, Word(b, at), at + 2, cfg)
            == ParseNetwork(b, e.(ethernet := fields, ethernetStatus := Present), etherType, at + 2 + 4 * |tags|, cfg)
    decreases |tags|
  {
    hide ParseNetwork;
    TagWords(b, tags, etherType, at);
    if tags != [] {
      var n := e.ethernet.vlanCount;
      var e' := e.(ethernet := e.ethernet.(vlanTci := e.ethernet.vlanTci[n := tags[0].tci], vlanCount := n + 1));
      TagsDecode(b, e', tags[1..], etherType, at + 4, cfg);
    }
  }

  /** Up to two tags are read and their TCIs kept in order; the rest is the network layer's. */
  lemma LinkDecodes(l: Link, etherType: U16, rest: seq<Byte>, cfg: ParserConfig)
    requires |l.tags| <= 2 && etherType != 0x8100 && etherType != 0x88a8
    ensures var b := LinkBytes(l, etherType) + rest;
            && AfterEthernet(LinkView(l, etherType, cfg)) && LinkView(l, etherType, cfg).config == cfg
            && Parse(b, cfg) == ParseNetwork(b, LinkView(l, etherType, cfg), etherType, 14 + 4 * |l.tags|, cfg)
  {
    hide ParseNetwork;
    var b := LinkBytes(l, etherType) + rest;
    assert b[0..6] == l.destination && b[6..12] == l.source;
    assert b[12..12 + |TagBytes(l.tags, etherType)|] == TagBytes(l.tags, etherType);
    TagsDecode(b, Addressed(b, cfg), l.tags, etherType, 12, cfg);
    StoredTwo(l.tags);
    hide ParseVlan, Stored, TagBytes;
  }

  // ---- Transport layer -----------------------------------------------------------------------

  lemma SegmentShown(b: seq<Byte>, e: ParsedPacket, seg: Segment, off: nat, n: nat)
    requires off + n <= |b| && seg.Valid(e.incompleteFragment) && b[off..off + n] == seg.Bytes()
    ensures ParseTransport(b, e, seg.Protocol(), off, n) == seg.View(e, off)
  {
    match seg
    case TcpSegment(_, _, _, _, _, _, _) => TcpShown(b, e, seg, off, n);
    case UdpSegment(_, _, _, _, _) => UdpShown(b, e, seg, off, n);
    case IcmpMessage(_, _, _, _) => IcmpShown(b, e, seg, off, n);
  }

  lemma TcpShown(b: seq<Byte>, e: ParsedPacket, seg: Segment, off: nat, n: nat)
    requires seg.TcpSegment? && off + n <= |b| && seg.Valid(e.incompleteFragment) && b[off..off + n] == seg.Bytes()
    ensures ParseTransport(b, e, 6, off, n) == seg.View(e, off)
  {
    var s := seg.Bytes();
    assert forall k :: 0 <= k < n ==> b[off + k] == s[k];
  }

  lemma UdpShown(b: seq<Byte>, e: ParsedPacket, seg: Segment, off: nat, n: nat)
    requires seg.UdpSegment? && off + n <= |b| && seg.Valid(e.incompleteFragment) && b[off..off + n] == seg.Bytes()
    ensures ParseTransport(b, e, 17, off, n) == seg.View(e, off)
  {
    var s := seg.Bytes();
    assert n == 8 + |seg.rest|;
    assert forall k :: 0 <= k < n ==> b[off + k] == s[k];
    assert Word(b, off) == Word(s, 0) && Word(b, off + 2) == Word(s, 2) && Word(b, off + 4) == Word(s, 4)
           && Word(b, off + 6) == Word(s, 6);
  }

  lemma IcmpShown(b: seq<Byte>, e: ParsedPacket, seg: Segment, off: nat, n: nat)
    requires seg.IcmpMessage? && off + n <= |b| && seg.Valid(e.incompleteFragment) && b[off..off + n] == seg.Bytes()
    ensures ParseTransport(b, e, if seg.version6 then 58 else 1, off, n) == seg.View(e, off)
  {
    var s := seg.Bytes();
    assert forall k :: 0 <= k < n ==> b[off + k] == s[k];
  }

  lemma SegmentRefused(b: seq<Byte>, e: ParsedPacket, protocol: Byte, off: nat, n: nat)
    requires off + n <= |b| && e.transportProtocol == NoTransport
    requires SegmentRefusal(protocol, b[off..off + n], e.incompleteFragment).Some?
    ensures ParseTransport(b, e, protocol, off, n)
            == e.(transportStatus := SegmentRefusal(protocol, b[off..off + n], e.incompleteFragment).value)
  {
    var s := b[off..off + n];
    assert forall k :: 0 <= k < n ==> b[off + k] == s[k];
  }

  /** A payload that is not refused is a segment. */
  lemma SegmentRead(protocol: Byte, s: seq<Byte>, incomplete: bool) returns (seg: Segment)
    requires SegmentRefusal(protocol, s, incomplete).None?
    ensures seg.Valid(incomplete) && seg.Bytes() == s && seg.Protocol() == protocol
  {
    match protocol
    case 6 =>
      seg := TcpSegment(Word(s, 0), Word(s, 2), s[4..12], s[12] as int / 16, s[12] as int % 16, s[13], s[14..]);
      TcpBack(s, seg);
    case 17 =>
      seg := UdpSegment(Word(s, 0), Word(s, 2), Word(s, 4), Word(s, 6), s[8..]);
      UdpBack(s, seg);
    case _ =>
      seg := IcmpMessage(protocol == 58, s[0], s[1], s[2..]);
      assert [s[0], s[1]] + s[2..] == s;
  }

  lemma Joined(b: seq<Byte>, i: nat, j: nat, k: nat)
    requires i <= j <= k <= |b|
    ensures b[i..k] == b[i..j] + b[j..k]
  {
  }

  lemma Pair(b: seq<Byte>, k: nat)
    requires k + 2 <= |b|
    ensures b[k..k + 2] == [b[k], b[k + 1]]
  {
  }

  lemma WordBack(b: seq<Byte>, k: nat)
    requires k + 2 <= |b|
    ensures WordBytes(Word(b, k)) == b[k..k + 2]
  {
  }

  lemma TcpBack(s: seq<Byte>, seg: Segment)
    requires |s| >= 20
    requires seg == TcpSegment(Word(s, 0), Word(s, 2), s[4..12], s[12] as int / 16, s[12] as int % 16, s[13], s[14..])
    ensures seg.Bytes() == s
  {
    WordBack(s, 0);
    WordBack(s, 2);
    assert s[12] as int / 16 * 16 + s[12] as int % 16 == s[12];
    hide Word, WordBytes;
    Joined(s, 0, 2, 4);
    Joined(s, 0, 4, 12);
    Joined(s, 0, 12, 14);
    Joined(s, 0, 14, |s|);
    Pair(s, 12);
    assert s[0..|s|] == s && s[14..|s|] == s[14..];
  }

  lemma UdpBack(s: seq<Byte>, seg: Segment)
    requires |s| >= 8 && seg == UdpSegment(Word(s, 0), Word(s, 2), Word(s, 4), Word(s, 6), s[8..])
    ensures seg.Bytes() == s
  {
    WordBack(s, 0);
    WordBack(s, 2);
    WordBack(s, 4);
    WordBack(s, 6);
    hide Word, WordBytes;
    Joined(s, 0, 2, 4);
    Joined(s, 0, 4, 6);
    Joined(s, 0, 6, 8);
    Joined(s, 0, 8, |s|);
    assert s[0..|s|] == s && s[8..|s|] == s[8..];
  }

  // ---- Extension chain -------------------------------------------------------------------------

  /** The entry `e` behind the chain `xs`. */
  function Walked(e: ParsedPacket, xs: seq<Extension>): ParsedPacket
    requires |xs| <= 255 && ChainSize(xs) <= 65535
  {
    var f := FragmentOf(xs);
    var at, more := if f.Some? then f.value.offset else 0, f.Some? && f.value.more;
    e.(ipv6 := e.ipv6.(extensionHeaders := |xs|, extensionBytes := ChainSize(xs), fragmentOffset := at,
                       moreFragments := more),
       nonInitialFragment := at != 0, incompleteFragment := at != 0 || more)
  }

  /** The header was a fragment header of a later fragment. */
  predicate Later(xs: seq<Extension>) { FragmentOf(xs).Some? && FragmentOf(xs).value.offset != 0 }

  lemma ExtensionRead(b: seq<Byte>, x: Extension, next: Byte, cursor: nat)
    requires x.Valid() && cursor + x.Size() <= |b| && b[cursor..cursor + x.Size()] == x.Bytes(next)
    ensures 8 <= x.Size() && b[cursor] == next && IsExtension(x.Kind())
    ensures ExtensionLength(b, x.Kind(), cursor) == x.Size()
    ensures x.Fragment? ==>
              Word(b, cursor + 2) / 8 == x.offset && (Word(b, cursor + 2) % 2 == 1 <==> x.more)
  {
    var s := x.Bytes(next);
    assert forall k :: 0 <= k < |s| ==> b[cursor + k] == s[k];
  }

  /** The walk steps over one header of a walkable chain. */
  lemma WalkStep(b: seq<Byte>, e: ParsedPacket, cfg: ParserConfig, xs: seq<Extension>, next: Byte, cursor: nat,
                 end: nat)
    requires xs != [] && Walkable(xs, cfg) && cursor + xs[|xs| - 1].Size() <= end <= |b|
    requires b[cursor..cursor + xs[|xs| - 1].Size()] == xs[|xs| - 1].Bytes(next)
    ensures var init, x := xs[..|xs| - 1], xs[|xs| - 1];
            && ChainSize(init) <= 65535 && !Later(init)
            && Chain(b, Walked(e, init), cfg, x.Kind(), cursor, end, FragmentOf(init).Some?)
               == if Later(xs) then Stop(TransportFailure(Walked(e, xs), Absent))
                  else Chain(b, Walked(e, xs), cfg, next, cursor + x.Size(), end, FragmentOf(xs).Some?)
  {
    hide Chain, ExtensionLength, Stepped, Walked, Walkable, Accepts, TransportFailure, Later, Extension.Bytes,
      Extension.Kind, Extension.Size;
    var init, x := xs[..|xs| - 1], xs[|xs| - 1];
    StepAccepted(b, e, cfg, xs, next, cursor, end);
    SteppedIs(b, e, xs, next, cursor);
    ChainTurn(b, Walked(e, init), cfg, x.Kind(), cursor, end, FragmentOf(init).Some?);
  }

  lemma StepAccepted(b: seq<Byte>, e: ParsedPacket, cfg: ParserConfig, xs: seq<Extension>, next: Byte, cursor: nat,
                     end: nat)
    requires xs != [] && Walkable(xs, cfg) && cursor + xs[|xs| - 1].Size() <= end <= |b|
    requires b[cursor..cursor + xs[|xs| - 1].Size()] == xs[|xs| - 1].Bytes(next)
    ensures var init, x := xs[..|xs| - 1], xs[|xs| - 1];
            && |xs| <= 255 && x.Valid() && ChainSize(init) <= ChainSize(xs) <= 65535 && !Later(init)
            && Walked(e, init).ipv6.extensionHeaders <= cfg.maxHeaders
            && Walked(e, xs).ipv6.extensionHeaders <= cfg.maxHeaders
            && Accepts(b, Walked(e, init), cfg, x.Kind(), cursor, end, FragmentOf(init).Some?)
            && ExtensionLength(b, x.Kind(), cursor) == x.Size() && b[cursor] == next
            && FragmentOf(xs).Some? == (FragmentOf(init).Some? || x.Kind() == 44)
            && Walked(e, init).ipv6.extensionBytes + x.Size() == ChainSize(xs) && 8 <= x.Size()
            && (x.Fragment? ==> FragmentOf(init).None?)
  {
    var init, x := xs[..|xs| - 1], xs[|xs| - 1];
    ExtensionRead(b, x, next, cursor);
    FragmentIn(init);
    hide ExtensionLength, Extension.Bytes;
  }

  lemma SteppedIs(b: seq<Byte>, e: ParsedPacket, xs: seq<Extension>, next: Byte, cursor: nat)
    requires xs != [] && |xs| <= 255 && ChainSize(xs[..|xs| - 1]) <= ChainSize(xs) <= 65535
    requires xs[|xs| - 1].Valid() && cursor + 8 <= cursor + xs[|xs| - 1].Size() <= |b|
    requires b[cursor..cursor + xs[|xs| - 1].Size()] == xs[|xs| - 1].Bytes(next)
    requires xs[|xs| - 1].Fragment? ==> FragmentOf(xs[..|xs| - 1]).None?
    requires !Later(xs[..|xs| - 1])
    ensures var init, x := xs[..|xs| - 1], xs[|xs| - 1];
            && Stepped(b, Walked(e, init), x.Kind(), cursor, ChainSize(xs)) == Walked(e, xs)
            && Walked(e, xs).nonInitialFragment == Later(xs)
  {
    ExtensionRead(b, xs[|xs| - 1], next, cursor);
    hide Extension.Bytes, ChainSize;
  }

  lemma {:induction false} FragmentIn(xs: seq<Extension>)
    ensures FragmentOf(xs).Some? <==> exists i :: 0 <= i < |xs| && xs[i].Fragment?
    ensures FragmentOf(xs).Some? ==> exists i :: 0 <= i < |xs| && xs[i].Fragment? && xs[i] == FragmentOf(xs).value
  {
    if xs != [] {
      FragmentIn(xs[..|xs| - 1]);
    }
  }

  /** A prefix of a walkable chain is walkable, and leads to no later fragment. */
  lemma PrefixWalkable(xs: seq<Extension>, cfg: ParserConfig)
    requires xs != [] && Walkable(xs, cfg)
    ensures Walkable(xs[..|xs| - 1], cfg) && !Later(xs[..|xs| - 1])
  {
    FragmentIn(xs[..|xs| - 1]);
  }

  lemma ChainParts(xs: seq<Extension>, next: Byte)
    requires xs != [] && AllValid(xs)
    ensures var init, x := xs[..|xs| - 1], xs[|xs| - 1];
            && AllValid(init) && x.Valid() && ChainSize(xs) == ChainSize(init) + x.Size()
            && ChainBytes(xs, next) == ChainBytes(init, x.Kind()) + x.Bytes(next)
            && FirstKind(init, x.Kind()) == FirstKind(xs, next)
  {
  }

  lemma ChainSplits(b: seq<Byte>, xs: seq<Extension>, next: Byte, from: nat)
    requires xs != [] && AllValid(xs) && from + ChainSize(xs) <= |b|
    requires b[from..from + ChainSize(xs)] == ChainBytes(xs, next)
    ensures var init, x := xs[..|xs| - 1], xs[|xs| - 1];
            && AllValid(init) && ChainSize(xs) == ChainSize(init) + x.Size()
            && b[from..from + ChainSize(init)] == ChainBytes(init, x.Kind())
            && b[from + ChainSize(init)..from + ChainSize(xs)] == x.Bytes(next)
            && FirstKind(init, x.Kind()) == FirstKind(xs, next)
  {
    hide *;
    ChainParts(xs, next);
    SplitSlice(b, from, ChainBytes(xs[..|xs| - 1], xs[|xs| - 1].Kind()), xs[|xs| - 1].Bytes(next));
  }

  lemma SplitSlice(b: seq<Byte>, from: nat, s: seq<Byte>, t: seq<Byte>)
    requires from + |s| + |t| <= |b| && b[from..from + |s| + |t|] == s + t
    ensures b[from..from + |s|] == s && b[from + |s|..from + |s| + |t|] == t
  {
    forall i | 0 <= i < |s| ensures b[from + i] == s[i] { assert b[from..from + |s| + |t|][i] == (s + t)[i]; }
    forall i | 0 <= i < |t| ensures b[from + |s| + i] == t[i] {
      assert b[from..from + |s| + |t|][|s| + i] == (s + t)[|s| + i];
    }
  }

  /** The walk over the bytes of a chain ends behind it, at the kind it names. */
  lemma {:induction false} ChainWalks(b: seq<Byte>, e: ParsedPacket, cfg: ParserConfig, xs: seq<Extension>, next: Byte,
                                      from: nat, end: nat)
    requires Walkable(xs, cfg) && from + ChainSize(xs) <= end <= |b|
    requires b[from..from + ChainSize(xs)] == ChainBytes(xs, next)
    ensures Chain(b, Walked(e, []), cfg, FirstKind(xs, next), from, end, false)
            == if Later(xs) then Stop(TransportFailure(Walked(e, xs), Absent))
               else Chain(b, Walked(e, xs), cfg, next, from + ChainSize(xs), end, FragmentOf(xs).Some?)
  {
    hide Chain, Walkable, Walked, TransportFailure, Extension.Bytes, Extension.Valid, Extension.Size;
    if xs != [] {
      var init, x := xs[..|xs| - 1], xs[|xs| - 1];
      PrefixWalkable(xs, cfg);
      ValidOf(xs, cfg);
      ChainSplits(b, xs, next, from);
      hide ChainBytes, ChainSize, AllValid;
      ChainWalks(b, e, cfg, init, x.Kind(), from, end);
      WalkStep(b, e, cfg, xs, next, from + ChainSize(init), end);
    }
  }

  lemma ValidOf(xs: seq<Extension>, cfg: ParserConfig)
    requires Walkable(xs, cfg)
    ensures AllValid(xs)
  {
  }

  // ---- Network layer -----------------------------------------------------------------------------

  /** The layers of a built frame lie one behind the other. */
  lemma FrameLayers(k: Packet)
    requires k.network.Valid() && k.network.Fits(k.payload)
    ensures var b, n, o, t := FrameBytes(k), k.network, NetworkStart(k), PayloadAt(k);
            && t + |k.payload| + |k.padding| == |b|
            && b[o..o + n.FixedLen()] == n.Header(k.payload)
            && (n.V6? ==> b[o + 40..t] == ChainBytes(n.chain, n.next))
            && b[t..t + |k.payload|] == k.payload
            && b[t..] == k.payload + k.padding
            && b == LinkBytes(k.link, n.EtherType()) + (n.Bytes(k.payload) + k.padding)
  {
    hide *;
    FrameIs(k);
    Layers(LinkBytes(k.link, k.network.EtherType()), k.network.Header(k.payload), Between(k), k.payload, k.padding);
  }

  /** Options or extension headers. */
  function Between(k: Packet): seq<Byte>
    requires k.network.Valid()
  {
    if k.network.V4? then k.network.options else ChainBytes(k.network.chain, k.network.next)
  }

  lemma FrameIs(k: Packet)
    requires k.network.Valid() && k.network.Fits(k.payload)
    ensures var n, x := k.network, Between(k);
            var l, h := LinkBytes(k.link, n.EtherType()), n.Header(k.payload);
            && FrameBytes(k) == l + (h + x + k.payload) + k.padding && n.Bytes(k.payload) == h + x + k.payload
            && |l| == NetworkStart(k) && |h| == n.FixedLen() && |l| + |h| + |x| == PayloadAt(k)
            && (n.V6? ==> n.FixedLen() == 40 && AllValid(n.chain) && x == ChainBytes(n.chain, n.next))
  {
    hide LinkBytes, Network.Header, ChainBytes, Network.Fits, ChainSize, Network.EtherType;
  }

  lemma Layers(l: seq<Byte>, h: seq<Byte>, x: seq<Byte>, p: seq<Byte>, z: seq<Byte>)
    ensures var b, o := l + (h + x + p) + z, |l|;
            var t := o + |h| + |x|;
            && b == l + (h + x + p + z) && |b| == t + |p| + |z|
            && b[o..o + |h|] == h && b[o + |h|..t] == x && b[t..t + |p|] == p && b[t..] == p + z
  {
  }

  lemma Header4Read(b: seq<Byte>, n: Network, payload: seq<Byte>, o: nat)
    requires n.V4? && n.Valid() && n.Fits(payload) && o + 20 <= |b| && b[o..o + 20] == n.Header(payload)
    ensures b[o] / 16 == 4 && b[o] % 16 * 4 == 20 + |n.options| && b[o + 1] / 4 == n.dscp
    ensures Word(b, o + 2) == 20 + |n.options| + |payload|
    ensures Word(b, o + 6) % 0x2000 == n.offset && (Word(b, o + 6) / 0x2000 % 2 == 1 <==> n.more)
    ensures b[o + 8] == n.ttl && b[o + 9] == n.protocol
    ensures b[o + 12..o + 16] == n.source4 && b[o + 16..o + 20] == n.destination4
  {
    var s := n.Header(payload);
    assert forall i :: 0 <= i < 20 ==> b[o + i] == s[i];
    assert s[12..16] == n.source4 && s[16..20] == n.destination4;
  }

  lemma Header6Read(b: seq<Byte>, n: Network, payload: seq<Byte>, o: nat)
    requires n.V6? && n.Valid() && n.Fits(payload) && o + 40 <= |b| && b[o..o + 40] == n.Header(payload)
    ensures b[o] / 16 == 6 && b[o] % 16 * 16 + b[o + 1] / 16 == n.class_
    ensures Word(b, o + 4) == ChainSize(n.chain) + |payload|
    ensures b[o + 6] == FirstKind(n.chain, n.next) && b[o + 7] == n.hops
    ensures b[o + 8..o + 24] == n.source6 && b[o + 24..o + 40] == n.destination6
  {
    var s := n.Header(payload);
    assert forall i :: 0 <= i < 40 ==> b[o + i] == s[i];
    assert s[8..24] == n.source6 && s[24..40] == n.destination6;
  }

  /** An IPv4 frame: its fields, then its payload unless it is a later fragment. */
  lemma V4Decodes(k: Packet, cfg: ParserConfig)
    requires WellFormed(k, cfg) && k.network.V4?
    ensures PayloadAt(k) + |k.payload| <= |FrameBytes(k)|
    ensures Parse(FrameBytes(k), cfg)
            == if k.network.offset != 0 then TransportFailure(NetworkView(k, cfg), Absent)
               else ParseTransport(FrameBytes(k), NetworkView(k, cfg), k.network.protocol, PayloadAt(k), |k.payload|)
  {
    hide Parse, ParseTransport, FrameBytes, LinkBytes, Network.Header, Network.Bytes, ParseIpv4, LinkView, NetworkView,
      Ipv4Entry;
    var b, n, o := FrameBytes(k), k.network, NetworkStart(k);
    FrameLayers(k);
    LinkDecodes(k.link, 0x0800, n.Bytes(k.payload) + k.padding, cfg);
    Header4Read(b, n, k.payload, o);
    assert Accepts4(b, o) && o + b[o] % 16 * 4 == PayloadAt(k);
    Entry4Is(k, b, cfg);
    Ipv4Turn(b, LinkView(k.link, 0x0800, cfg), o);
  }

  lemma Entry4Is(k: Packet, b: seq<Byte>, cfg: ParserConfig)
    requires WellFormed(k, cfg) && k.network.V4? && NetworkStart(k) + 20 <= |b|
    requires b[NetworkStart(k)..NetworkStart(k) + 20] == k.network.Header(k.payload)
    ensures Ipv4Entry(b, LinkView(k.link, 0x0800, cfg), NetworkStart(k)) == NetworkView(k, cfg)
    ensures NetworkView(k, cfg).nonInitialFragment == (k.network.offset != 0)
  {
    Header4Read(b, k.network, k.payload, NetworkStart(k));
    hide Network.Header;
  }

  lemma Ipv4Turn(b: seq<Byte>, e: ParsedPacket, o: nat)
    requires Accepts4(b, o)
    ensures var f, headerLen, totalLen := Ipv4Entry(b, e, o), b[o] % 16 * 4, Word(b, o + 2);
            ParseIpv4(b, e, o) == if f.nonInitialFragment then TransportFailure(f, Absent)
                                  else ParseTransport(b, f, b[o + 9], o + headerLen, totalLen - headerLen)
  {
    hide ParseTransport;
  }

  /** The entry of a built IPv6 frame once its fixed header is read. */
  function Entry6(k: Packet, cfg: ParserConfig): ParsedPacket
    requires WellFormed(k, cfg) && Built6(k)
  {
    Ipv6Entry(FrameBytes(k), LinkView(k.link, 0x86dd, cfg), NetworkStart(k))
  }

  /** A built IPv6 frame holds its packet. */
  ghost predicate Built6(k: Packet) {
    && k.network.V6? && k.network.Valid() && k.network.Fits(k.payload)
    && NetworkStart(k) + 40 + ChainSize(k.network.chain) == PayloadAt(k)
    && PayloadAt(k) + |k.payload| <= |FrameBytes(k)|
    && FrameBytes(k)[NetworkStart(k)..NetworkStart(k) + 40] == k.network.Header(k.payload)
    && FrameBytes(k)[NetworkStart(k) + 40..PayloadAt(k)] == ChainBytes(k.network.chain, k.network.next)
  }

  /** The walk of a built frame, from its first extension header and from behind its last. */
  function StartOf(k: Packet, cfg: ParserConfig): ChainEnd
    requires WellFormed(k, cfg) && Built6(k)
  {
    Chain(FrameBytes(k), Entry6(k, cfg), cfg, FirstKind(k.network.chain, k.network.next), NetworkStart(k) + 40,
          PayloadAt(k) + |k.payload|, false)
  }

  function EndOf(k: Packet, cfg: ParserConfig): ChainEnd
    requires WellFormed(k, cfg) && Built6(k)
  {
    Chain(FrameBytes(k), NetworkView(k, cfg), cfg, k.network.next, PayloadAt(k), PayloadAt(k) + |k.payload|,
          FragmentOf(k.network.chain).Some?)
  }

  lemma FrameIsBuilt6(k: Packet, cfg: ParserConfig)
    requires WellFormed(k, cfg) && k.network.V6?
    ensures Built6(k)
  {
    FrameLayers(k);
    hide ChainBytes, FrameBytes, Network.Header, Network.Bytes;
  }

  /** An IPv6 frame: its fixed header, then the walk at the end of its chain. */
  lemma V6Decodes(k: Packet, cfg: ParserConfig)
    requires WellFormed(k, cfg) && k.network.V6?
    ensures Built6(k)
    ensures var c, end := EndOf(k, cfg), PayloadAt(k) + |k.payload|;
            && (c.Deliver? ==> c.cursor <= end)
            && Parse(FrameBytes(k), cfg) == if k.network.NonInitial() then TransportFailure(NetworkView(k, cfg), Absent)
                                            else Deliver6(FrameBytes(k), c, end)
  {
    FrameIsBuilt6(k, cfg);
    V6Parses(k, cfg);
    V6Walks(k, cfg);
    hide Parse, ParseTransport, FrameBytes, Chain, NetworkView, Entry6, WellFormed, PayloadAt, Built6, StartOf;
    EndInside(k, cfg);
  }

  lemma EndInside(k: Packet, cfg: ParserConfig)
    requires WellFormed(k, cfg) && Built6(k)
    ensures var c, end := EndOf(k, cfg), PayloadAt(k) + |k.payload|;
            c.Deliver? ==> c.cursor <= end
  {
    hide Chain, FrameBytes, FragmentOf;
    ChainInside(FrameBytes(k), NetworkView(k, cfg), cfg, k.network.next, PayloadAt(k), PayloadAt(k) + |k.payload|,
                FragmentOf(k.network.chain).Some?);
  }

  lemma V6Parses(k: Packet, cfg: ParserConfig)
    requires WellFormed(k, cfg) && Built6(k)
    ensures var c, end := StartOf(k, cfg), PayloadAt(k) + |k.payload|;
            (c.Deliver? ==> c.cursor <= end) && Parse(FrameBytes(k), cfg) == Deliver6(FrameBytes(k), c, end)
  {
    hide Parse, ParseTransport, FrameBytes, LinkBytes, Network.Header, Network.Bytes, ParseIpv6, LinkView, Chain,
      ChainBytes, Ipv6Entry, FirstKind, Deliver6, Network.NonInitial, FragmentOf;
    var b, n, o := FrameBytes(k), k.network, NetworkStart(k);
    FrameLayers(k);
    LinkDecodes(k.link, 0x86dd, n.Bytes(k.payload) + k.padding, cfg);
    Header6Read(b, n, k.payload, o);
    Ipv6Turn(b, LinkView(k.link, 0x86dd, cfg), o, cfg);
  }

  lemma V6Walks(k: Packet, cfg: ParserConfig)
    requires WellFormed(k, cfg) && Built6(k)
    ensures StartOf(k, cfg) == if k.network.NonInitial() then Stop(TransportFailure(NetworkView(k, cfg), Absent))
                               else EndOf(k, cfg)
  {
    hide FrameBytes, Network.Header, Chain, ChainBytes, ChainSize, NetworkView, Ipv6Entry, Walked, LinkView, FragmentOf,
      FirstKind, Walkable, AllValid, Network.NonInitial, TransportFailure, StartOf, EndOf, LinkBytes, TagBytes;
    Entry6Is(k, FrameBytes(k), cfg);
    WalkEnds(k, cfg);
    WalksBehind(FrameBytes(k), Entry6(k, cfg), NetworkView(k, cfg), k.network, cfg, NetworkStart(k) + 40,
                PayloadAt(k) + |k.payload|);
  }

  lemma WalkEnds(k: Packet, cfg: ParserConfig)
    requires WellFormed(k, cfg) && Built6(k)
    ensures Entry6(k, cfg).ipv6.extensionHeaders <= cfg.maxHeaders
    ensures NetworkView(k, cfg).ipv6.extensionHeaders <= cfg.maxHeaders
    ensures StartOf(k, cfg) == Chain(FrameBytes(k), Entry6(k, cfg), cfg, FirstKind(k.network.chain, k.network.next),
                                     NetworkStart(k) + 40, PayloadAt(k) + |k.payload|, false)
    ensures EndOf(k, cfg) == Chain(FrameBytes(k), NetworkView(k, cfg), cfg, k.network.next, PayloadAt(k),
                                   PayloadAt(k) + |k.payload|, FragmentOf(k.network.chain).Some?)
  {
    hide FrameBytes, Network.Header, Chain, ChainBytes, ChainSize, FragmentOf, FirstKind;
  }

  lemma LaterIs(n: Network)
    requires n.V6?
    ensures n.NonInitial() == Later(n.chain)
  {
  }

  lemma WalksBehind(b: seq<Byte>, f: ParsedPacket, v: ParsedPacket, n: Network, cfg: ParserConfig, from: nat, end: nat)
    requires n.V6? && Walkable(n.chain, cfg) && from + ChainSize(n.chain) <= end <= |b|
    requires b[from..from + ChainSize(n.chain)] == ChainBytes(n.chain, n.next)
    requires Walked(f, []) == f && Walked(f, n.chain) == v
    requires f.ipv6.extensionHeaders <= cfg.maxHeaders && v.ipv6.extensionHeaders <= cfg.maxHeaders
    ensures Chain(b, f, cfg, FirstKind(n.chain, n.next), from, end, false)
            == if n.NonInitial() then Stop(TransportFailure(v, Absent))
               else Chain(b, v, cfg, n.next, from + ChainSize(n.chain), end, FragmentOf(n.chain).Some?)
  {
    hide *;
    LaterIs(n);
    ChainWalks(b, f, cfg, n.chain, n.next, from, end);
  }

  lemma Entry6Is(k: Packet, b: seq<Byte>, cfg: ParserConfig)
    requires WellFormed(k, cfg) && k.network.V6? && NetworkStart(k) + 40 <= |b|
    requires b[NetworkStart(k)..NetworkStart(k) + 40] == k.network.Header(k.payload)
    ensures var f := Ipv6Entry(b, LinkView(k.link, 0x86dd, cfg), NetworkStart(k));
            && Walked(f, []) == f && Walked(f, k.network.chain) == NetworkView(k, cfg)
            && NetworkView(k, cfg).ipv6.extensionHeaders <= cfg.maxHeaders
            && f.ipv6.extensionHeaders <= cfg.maxHeaders
  {
    Header6Read(b, k.network, k.payload, NetworkStart(k));
    hide Network.Header, ChainBytes;
  }

  lemma Ipv6Turn(b: seq<Byte>, e: ParsedPacket, o: nat, cfg: ParserConfig)
    requires Accepts6(b, o)
    ensures var c, end := Chain6(b, e, o, cfg), o + 40 + Word(b, o + 4);
            (c.Deliver? ==> c.cursor <= end) && ParseIpv6(b, e, o, cfg) == Deliver6(b, c, end)
  {
    ChainInside(b, Ipv6Entry(b, e, o), cfg, b[o + 6], o + 40, o + 40 + Word(b, o + 4), false);
    hide Chain, ParseTransport;
  }

  // ---- What a built frame decodes to ---------------------------------------------------------------

  /** Built, then decoded: a frame with a whole transport header in a packet
      that is no later fragment decodes to exactly the fields it was built from. */
  lemma BuiltDecodes(k: Packet, seg: Segment, cfg: ParserConfig)
    requires WellFormed(k, cfg) && !k.network.NonInitial()
    requires seg.Valid(k.network.Incomplete()) && seg.Protocol() == k.network.Protocol() && k.payload == seg.Bytes()
    ensures Parse(FrameBytes(k), cfg) == seg.View(NetworkView(k, cfg), PayloadAt(k))
  {
    var b, v, t := FrameBytes(k), NetworkView(k, cfg), PayloadAt(k);
    FrameLayers(k);
    assert v.incompleteFragment == k.network.Incomplete();
    hide Parse, ParseTransport, FrameBytes, NetworkView, Segment.Bytes, Segment.View, Chain, PayloadAt, WellFormed;
    SegmentShown(b, v, seg, t, |k.payload|);
    if k.network.V4? {
      V4Decodes(k, cfg);
    } else {
      V6Decodes(k, cfg);
      ChainDelivers(b, v, cfg, k.network.next, t, t + |k.payload|, FragmentOf(k.network.chain).Some?);
    }
  }

  /** Editing and finalizing walk up to eight extension headers and 256 bytes of them. */
  lemma DefaultDecodes(k: Packet, seg: Segment)
    requires |k.link.tags| <= 2 && k.network.Valid() && k.network.Fits(k.payload) && !k.network.NonInitial()
    requires k.network.V6? ==>
               var xs := k.network.chain;
               && |xs| <= 8 && ChainSize(xs) <= 256 && FragmentsOnce(xs)
               && forall i :: 0 < i < |xs| ==> xs[i].Kind() != 0
    requires seg.Valid(k.network.Incomplete()) && seg.Protocol() == k.network.Protocol() && k.payload == seg.Bytes()
    ensures Parse(FrameBytes(k), DEFAULT_CONFIG) == seg.View(NetworkView(k, DEFAULT_CONFIG), PayloadAt(k))
  {
    hide Parse, FrameBytes, NetworkView, Segment.Bytes, Segment.Valid;
    BuiltDecodes(k, seg, DEFAULT_CONFIG);
  }

  lemma ChainDelivers(b: seq<Byte>, e: ParsedPacket, cfg: ParserConfig, next: Byte, cursor: nat, end: nat, saw: bool)
    requires cursor <= end <= |b| && e.ipv6.extensionHeaders <= cfg.maxHeaders
    ensures !Extends(next) && next != 50 ==> Chain(b, e, cfg, next, cursor, end, saw) == Deliver(e, next, cursor)
    ensures next == 50 ==> Chain(b, e, cfg, next, cursor, end, saw) == Stop(TransportFailure(e, Unsupported))
  {
  }

  lemma ChainStuck(b: seq<Byte>, e: ParsedPacket, cfg: ParserConfig, xs: seq<Extension>, next: Byte, cursor: nat,
                   payload: seq<Byte>, padding: seq<Byte>)
    requires cursor + |payload| <= |b| && b[cursor..] == payload + padding && Extends(next)
    requires e.ipv6.extensionHeaders == |xs| <= cfg.maxHeaders && e.ipv6.extensionBytes == ChainSize(xs)
    requires Stuck(xs, next, payload, padding, cfg)
    ensures Chain(b, e, cfg, next, cursor, cursor + |payload|, FragmentOf(xs).Some?)
            == Stop(TransportFailure(e, ChainRefusal(xs, next, payload, padding, cfg)))
  {
    var s := payload + padding;
    assert |s| == |b| - cursor;
    assert forall i :: 0 <= i < |s| ==> b[cursor + i] == s[i];
    if next != 44 && |s| > 1 { assert b[cursor + 1] == s[1]; }
  }

  /** A frame whose transport is not shown says why, and keeps its link and network layers. */
  lemma RefusedDecodes(k: Packet, cfg: ParserConfig)
    requires WellFormed(k, cfg) && Ended(k, cfg) && Refusal(k, cfg).Some?
    ensures Parse(FrameBytes(k), cfg) == NetworkView(k, cfg).(transportStatus := Refusal(k, cfg).value)
  {
    var b, n, v, t := FrameBytes(k), k.network, NetworkView(k, cfg), PayloadAt(k);
    FrameLayers(k);
    assert v.incompleteFragment == n.Incomplete() && v.transportProtocol == NoTransport;
    hide Parse, ParseTransport, FrameBytes, NetworkView, Chain, PayloadAt, SegmentRefusal, ChainRefusal, Stuck;
    if n.V4? { V4Decodes(k, cfg); } else { V6Decodes(k, cfg); }
    if !n.NonInitial() {
      if n.V6? && Extends(n.next) {
        RefusedChain(k, cfg);
      } else {
        if n.V6? { ChainDelivers(b, v, cfg, n.next, t, t + |k.payload|, FragmentOf(n.chain).Some?); }
        if !(n.V6? && n.next == 50) { SegmentRefused(b, v, n.Protocol(), t, |k.payload|); }
      }
    }
  }

  lemma RefusedChain(k: Packet, cfg: ParserConfig)
    requires WellFormed(k, cfg) && Built6(k) && Extends(k.network.next)
    requires Stuck(k.network.chain, k.network.next, k.payload, k.padding, cfg)
    ensures EndOf(k, cfg)
            == Stop(NetworkView(k, cfg).(transportStatus := ChainRefusal(k.network.chain, k.network.next, k.payload,
                                                                         k.padding, cfg)))
  {
    FrameLayers(k);
    hide FrameBytes, Chain, ChainRefusal, Stuck, Extends, Network.Header, ChainBytes;
    ChainStuck(FrameBytes(k), NetworkView(k, cfg), cfg, k.network.chain, k.network.next, PayloadAt(k), k.payload,
               k.padding);
  }
}
