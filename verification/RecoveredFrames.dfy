/** Every frame whose network layer decodes is a frame some sender builds, so
    decoding and building are inverse. */
module RecoveredFrames {
  import opened Prelude
  import opened Parsing
  import opened ParsingFacts
  import opened WireFormat
  import opened DecodeTheorems

  // ---- Link layer ----------------------------------------------------------------------------

  lemma {:induction false} TagsRead(b: seq<Byte>, e: ParsedPacket, at: nat, cfg: ParserConfig)
    returns (tags: seq<Tag>, etherType: U16)
    requires at + 2 <= |b| && |e.ethernet.vlanTci| == 2 && e.ethernet.vlanCount <= 2 && e.ethernetStatus == Unparsed
    requires ParseVlan(b, e, Word(b, at), at + 2, cfg).ethernetStatus == Present
    ensures e.ethernet.vlanCount + |tags| <= 2 && etherType != 0x8100 && etherType != 0x88a8
    ensures at + |TagBytes(tags, etherType)| <= |b|
    ensures b[at..at + |TagBytes(tags, etherType)|] == TagBytes(tags, etherType)
    decreases |b| - at
  {
    hide ParseNetwork;
    var t := Word(b, at);
    assert b[at..at + 2] == WordBytes(t);
    if IsVlan(t) {
      var n := e.ethernet.vlanCount;
      var e' := e.(ethernet := e.ethernet.(vlanTci := e.ethernet.vlanTci[n := Word(b, at + 2)], vlanCount := n + 1));
      tags, etherType := TagsRead(b, e', at + 4, cfg);
      assert b[at + 2..at + 4] == WordBytes(Word(b, at + 2));
      var end := at + 4 + |TagBytes(tags, etherType)|;
      var all := [Tag(t == 0x88a8, Word(b, at + 2))] + tags;
      assert all[1..] == tags;
      Joined(b, at, at + 2, at + 4);
      Joined(b, at, at + 4, end);
      tags := all;
    } else {
      tags, etherType := [], t;
    }
  }

  lemma LinkReads(b: seq<Byte>, cfg: ParserConfig) returns (l: Link, etherType: U16)
    requires Parse(b, cfg).ethernetStatus == Present
    ensures |l.tags| <= 2 && etherType != 0x8100 && etherType != 0x88a8 && 14 + 4 * |l.tags| <= |b|
    ensures b == LinkBytes(l, etherType) + b[14 + 4 * |l.tags|..]
    ensures Parse(b, cfg) == ParseNetwork(b, LinkView(l, etherType, cfg), etherType, 14 + 4 * |l.tags|, cfg)
  {
    hide ParseNetwork, ParseVlan;
    var tags, et := TagsRead(b, Addressed(b, cfg), 12, cfg);
    l, etherType := Link(b[0..6], b[6..12], tags), et;
    var o := 14 + 4 * |l.tags|;
    Joined(b, 0, 6, 12);
    Joined(b, 0, 12, o);
    Joined(b, 0, o, |b|);
    assert b[0..|b|] == b && b[o..|b|] == b[o..];
    LinkDecodes(l, etherType, b[14 + 4 * |l.tags|..], cfg);
  }

  // ---- Extension chain -------------------------------------------------------------------------

  /** The extension header of kind `next` at `at`. */
  function ExtensionAt(b: seq<Byte>, next: Byte, at: nat): Extension
    requires Extends(next) && at + 2 <= |b| && at + DeclaredSize(next, b[at..]) <= |b|
  {
    var size := DeclaredSize(next, b[at..]);
    if next == 44 then
      Fragment(b[at + 1], Word(b, at + 2) / 8, Word(b, at + 2) / 2 % 4, Word(b, at + 2) % 2 == 1, b[at + 4..at + 8])
    else if next == 51 then Authentication(b[at + 2..at + size])
    else Options(next, b[at + 2..at + size])
  }

  lemma ExtensionRecovered(b: seq<Byte>, next: Byte, at: nat)
    requires Extends(next) && at + 2 <= |b| && at + DeclaredSize(next, b[at..]) <= |b|
    ensures var x, size := ExtensionAt(b, next, at), DeclaredSize(next, b[at..]);
            && x.Valid() && x.Kind() == next && x.Size() == size >= 8 && x.Bytes(b[at]) == b[at..at + size]
  {
    assert b[at..][1] == b[at + 1];
    if next == 44 {
      FragmentRecovered(b, at);
    } else {
      var size := DeclaredSize(next, b[at..]);
      assert [b[at], b[at + 1]] + b[at + 2..at + size] == b[at..at + size];
      hide DeclaredSize;
      if next == 51 { UnitsBack(b[at + 1], 4, 2); } else { UnitsBack(b[at + 1], 8, 1); }
    }
  }

  /** The body behind a length octet gives the octet back. */
  lemma UnitsBack(units: Byte, size: nat, extra: nat)
    requires (size == 4 && extra == 2) || (size == 8 && extra == 1)
    ensures (units as int + extra) * size >= 8 && ((units as int + extra) * size - 8) / size == units
    ensures ((units as int + extra) * size - 2) % size == size - 2
  {
  }

  lemma FragmentRecovered(b: seq<Byte>, at: nat)
    requires at + 8 <= |b|
    ensures var w := Word(b, at + 2);
            var x := Fragment(b[at + 1], w / 8, w / 2 % 4, w % 2 == 1, b[at + 4..at + 8]);
            x.Valid() && x.Bytes(b[at]) == b[at..at + 8]
  {
    var w := Word(b, at + 2);
    WordSplits(w);
    WordBack(b, at + 2);
    hide Word, WordBytes;
    Parts8(b, at);
  }

  lemma Parts8(b: seq<Byte>, at: nat)
    requires at + 8 <= |b|
    ensures [b[at], b[at + 1]] + b[at + 2..at + 4] + b[at + 4..at + 8] == b[at..at + 8]
  {
    Joined(b, at, at + 4, at + 8);
    Joined(b, at, at + 2, at + 4);
    Pair(b, at);
  }

  lemma WordSplits(w: U16)
    ensures w / 8 * 8 + w / 2 % 4 * 2 + w % 2 == w && w / 8 < 8192
  {
  }

  /** The chain read so far can be continued to the header the walk stops at. */
  lemma {:induction false} ChainRecovered(b: seq<Byte>, cfg: ParserConfig, xs: seq<Extension>, next: Byte,
                                          from: nat, end: nat)
    returns (ys: seq<Extension>, last: Byte)
    requires from + ChainSize(xs) <= end <= |b| && Walkable(xs, cfg)
    requires b[from..from + ChainSize(xs)] == ChainBytes(xs, next)
    ensures Walkable(ys, cfg) && from + ChainSize(ys) <= end && FirstKind(ys, last) == FirstKind(xs, next)
    ensures b[from..from + ChainSize(ys)] == ChainBytes(ys, last)
    ensures !Later(ys) && Extends(last) ==>
              Stuck(ys, last, b[from + ChainSize(ys)..end], b[end..], cfg)
    decreases end - from - ChainSize(xs)
  {
    hide ChainBytes, ChainSize, Walkable, Stuck, DeclaredSize, Later, Extends, AllValid, ExtensionAt, FirstKind,
      Extension.Valid, Extension.Bytes, Extension.Kind, Extension.Size;
    ValidOf(xs, cfg);
    var at := from + ChainSize(xs);
    if Later(xs) || !Extends(next) || Stuck(xs, next, b[at..end], b[end..], cfg) {
      ys, last := xs, next;
    } else {
      Unstuck(b, xs, next, at, end, cfg);
      ExtensionRecovered(b, next, at);
      var x := ExtensionAt(b, next, at);
      ChainExtends(b, cfg, xs, x, next, from, end);
      ys, last := ChainRecovered(b, cfg, xs + [x], b[at], from, end);
    }
    ValidOf(ys, cfg);
  }

  /** A header that can join the chain lies whole inside the payload, and within the limits. */
  lemma Unstuck(b: seq<Byte>, xs: seq<Extension>, next: Byte, at: nat, end: nat, cfg: ParserConfig)
    requires at <= end <= |b| && !Stuck(xs, next, b[at..end], b[end..], cfg)
    ensures at + 2 <= |b| && 8 <= DeclaredSize(next, b[at..]) && at + DeclaredSize(next, b[at..]) <= end
    ensures |xs| < cfg.maxHeaders && ChainSize(xs) + DeclaredSize(next, b[at..]) <= cfg.maxBytes
    ensures !(next == 0 && xs != []) && !(next == 44 && FragmentOf(xs).Some?)
  {
    assert b[at..end] + b[end..] == b[at..];
  }

  lemma ChainExtends(b: seq<Byte>, cfg: ParserConfig, xs: seq<Extension>, x: Extension, next: Byte, from: nat, end: nat)
    requires from + ChainSize(xs) <= end <= |b| && Walkable(xs, cfg) && !Later(xs)
    requires b[from..from + ChainSize(xs)] == ChainBytes(xs, next)
    requires Extends(next) && !Stuck(xs, next, b[from + ChainSize(xs)..end], b[end..], cfg)
    requires x.Valid() && x.Kind() == next && x.Size() == DeclaredSize(next, b[from + ChainSize(xs)..]) >= 8
    requires var at := from + ChainSize(xs); at < |b| && at + x.Size() <= |b| && x.Bytes(b[at]) == b[at..at + x.Size()]
    ensures Walkable(xs + [x], cfg) && ChainSize(xs + [x]) == ChainSize(xs) + x.Size()
    ensures from + ChainSize(xs + [x]) <= end && FirstKind(xs + [x], b[from + ChainSize(xs)]) == FirstKind(xs, next)
    ensures b[from..from + ChainSize(xs + [x])] == ChainBytes(xs + [x], b[from + ChainSize(xs)])
  {
    var at, ys := from + ChainSize(xs), xs + [x];
    Unstuck(b, xs, next, at, end, cfg);
    assert ys[..|ys| - 1] == xs;
    hide Stuck, DeclaredSize, Later, Extends;
    WalkableExtends(cfg, xs, x);
    hide Walkable, Extension.Bytes;
    BytesExtend(b, xs, x, next, from);
  }

  lemma WalkableExtends(cfg: ParserConfig, xs: seq<Extension>, x: Extension)
    requires Walkable(xs, cfg) && !Later(xs) && x.Valid() && |xs| < cfg.maxHeaders
    requires ChainSize(xs) + x.Size() <= cfg.maxBytes
    requires !(x.Kind() == 0 && xs != []) && !(x.Kind() == 44 && FragmentOf(xs).Some?)
    ensures Walkable(xs + [x], cfg) && AllValid(xs) && AllValid(xs + [x])
  {
    var ys := xs + [x];
    assert ys[..|ys| - 1] == xs && ChainSize(ys) == ChainSize(xs) + x.Size();
    FragmentsExtend(cfg, xs, x);
    hide ChainSize, FragmentOf, Extension.Valid, FragmentsOnce;
    assert forall i :: 0 <= i < |xs| ==> ys[i] == xs[i];
  }

  lemma FragmentsExtend(cfg: ParserConfig, xs: seq<Extension>, x: Extension)
    requires Walkable(xs, cfg) && !Later(xs) && !(x.Fragment? && FragmentOf(xs).Some?)
    ensures FragmentsOnce(xs + [x])
  {
    FirstFragment(xs, cfg);
    FragmentIn(xs);
    assert x.Fragment? ==> forall i :: 0 <= i < |xs| ==> !xs[i].Fragment?;
    hide Walkable, FragmentOf;
    var ys := xs + [x];
    forall i, j | 0 <= i < j < |ys| ensures !(ys[i].Fragment? && ys[j].Fragment?) {
      if j < |xs| { assert ys[i] == xs[i] && ys[j] == xs[j]; OneFragment(cfg, xs, i, j); }
    }
  }

  lemma OneFragment(cfg: ParserConfig, xs: seq<Extension>, i: nat, j: nat)
    requires Walkable(xs, cfg) && i < j < |xs|
    ensures !(xs[i].Fragment? && xs[j].Fragment?)
  {
  }

  lemma BytesExtend(b: seq<Byte>, xs: seq<Extension>, x: Extension, next: Byte, from: nat)
    requires x.Valid() && AllValid(xs) && AllValid(xs + [x]) && from + ChainSize(xs) < |b| && x.Kind() == next
    requires b[from..from + ChainSize(xs)] == ChainBytes(xs, next)
    requires var at := from + ChainSize(xs); at + x.Size() <= |b| && x.Bytes(b[at]) == b[at..at + x.Size()]
    ensures ChainSize(xs + [x]) == ChainSize(xs) + x.Size()
    ensures b[from..from + ChainSize(xs + [x])] == ChainBytes(xs + [x], b[from + ChainSize(xs)])
    ensures FirstKind(xs + [x], b[from + ChainSize(xs)]) == FirstKind(xs, next)
  {
    hide ChainBytes, ChainSize, Extension.Bytes, AllValid, FirstKind, Extension.Valid, Extension.Size, Extension.Kind;
    var at, ys := from + ChainSize(xs), xs + [x];
    assert ys[..|ys| - 1] == xs && ys[|ys| - 1] == x;
    ChainParts(ys, b[at]);
    Joined(b, from, at, at + x.Size());
  }

  /** In a walkable chain every fragment header is the one fragment header. */
  lemma FirstFragment(xs: seq<Extension>, cfg: ParserConfig)
    requires Walkable(xs, cfg)
    ensures forall i :: 0 <= i < |xs| && xs[i].Fragment? ==> FragmentOf(xs) == Some(xs[i])
  {
    FragmentIn(xs);
  }

  // ---- Network layer -----------------------------------------------------------------------------

  /** The IPv4 header at `o`. */
  function Network4(b: seq<Byte>, o: nat): Network
    requires Accepts4(b, o)
  {
    var w := Word(b, o + 6);
    V4(b[o + 1] / 4, b[o + 1] % 4, Word(b, o + 4), w >= 0x8000, w / 0x4000 % 2 == 1, w / 0x2000 % 2 == 1, w % 0x2000,
       b[o + 8], b[o + 9], Word(b, o + 10), b[o + 12..o + 16], b[o + 16..o + 20], b[o + 20..o + b[o] % 16 * 4])
  }

  lemma FlagsBack(w: U16)
    ensures (if w >= 0x8000 then 0x8000 else 0) + (if w / 0x4000 % 2 == 1 then 0x4000 else 0)
            + (if w / 0x2000 % 2 == 1 then 0x2000 else 0) + w % 0x2000 == w
  {
  }

  lemma Network4Valid(b: seq<Byte>, o: nat)
    requires Accepts4(b, o)
    ensures var n, payload := Network4(b, o), b[o + b[o] % 16 * 4..o + Word(b, o + 2)];
            && n.Valid() && n.Fits(payload) && 20 + n.Extra() + |payload| == Word(b, o + 2)
            && 0x40 + 5 + n.Extra() / 4 == b[o] && n.dscp * 4 + n.ecn == b[o + 1]
  {
  }

  lemma Header4Back(b: seq<Byte>, o: nat)
    requires Accepts4(b, o)
    ensures var n, payload := Network4(b, o), b[o + b[o] % 16 * 4..o + Word(b, o + 2)];
            && n.Valid() && n.Fits(payload) && n.Header(payload) == b[o..o + 20]
  {
    hide Word, WordBytes;
    Network4Valid(b, o);
    FlagsBack(Word(b, o + 6));
    WordBack(b, o + 2);
    WordBack(b, o + 4);
    WordBack(b, o + 6);
    WordBack(b, o + 10);
    Parts4(b, o);
    hide Accepts4, Network.Valid, Network.Fits;
  }

  lemma Parts4(b: seq<Byte>, o: nat)
    requires o + 20 <= |b|
    ensures [b[o], b[o + 1]] + b[o + 2..o + 4] + b[o + 4..o + 6] + b[o + 6..o + 8] + [b[o + 8], b[o + 9]]
            + b[o + 10..o + 12] + b[o + 12..o + 16] + b[o + 16..o + 20] == b[o..o + 20]
  {
    Joined(b, o, o + 16, o + 20);
    Joined(b, o, o + 12, o + 16);
    Joined(b, o, o + 10, o + 12);
    Joined(b, o, o + 8, o + 10);
    Joined(b, o, o + 6, o + 8);
    Joined(b, o, o + 4, o + 6);
    Joined(b, o, o + 2, o + 4);
    Pair(b, o);
    Pair(b, o + 8);
  }

  /** The IPv6 header at `o`, with the chain behind it. */
  function Network6(b: seq<Byte>, o: nat, chain: seq<Extension>, next: Byte): Network
    requires Accepts6(b, o)
  {
    V6(b[o] % 16 * 16 + b[o + 1] / 16, b[o + 1] % 16 * 0x1_0000 + Word(b, o + 2), b[o + 7],
       b[o + 8..o + 24], b[o + 24..o + 40], chain, next)
  }

  lemma Network6Valid(b: seq<Byte>, o: nat, chain: seq<Extension>, next: Byte, payload: seq<Byte>)
    requires Accepts6(b, o) && AllValid(chain) && ChainSize(chain) + |payload| == Word(b, o + 4)
    ensures var n := Network6(b, o, chain, next);
            && n.Valid() && n.Fits(payload) && n.Extra() + |payload| == Word(b, o + 4)
            && n.flow % 0x1_0000 == Word(b, o + 2)
            && 0x60 + n.class_ / 16 == b[o] && n.class_ % 16 * 16 + n.flow / 0x1_0000 == b[o + 1]
  {
    FlowBack(b[o], b[o + 1], Word(b, o + 2));
    hide Word, ChainSize, AllValid;
  }

  lemma Header6Back(b: seq<Byte>, o: nat, chain: seq<Extension>, next: Byte, payload: seq<Byte>)
    requires Accepts6(b, o) && AllValid(chain) && FirstKind(chain, next) == b[o + 6]
    requires ChainSize(chain) + |payload| == Word(b, o + 4)
    ensures var n := Network6(b, o, chain, next);
            && n.Valid() && n.Fits(payload) && n.Header(payload) == b[o..o + 40]
  {
    hide Word, WordBytes, ChainSize, AllValid, FirstKind;
    Network6Valid(b, o, chain, next, payload);
    WordBack(b, o + 2);
    WordBack(b, o + 4);
    Parts6(b, o);
    hide Accepts6, Network.Valid, Network.Fits, Network.Extra;
  }

  lemma FlowBack(x: Byte, y: Byte, w: U16)
    requires x / 16 == 6
    ensures var class_, flow := x % 16 * 16 + y / 16, y % 16 * 0x1_0000 + w;
            && flow < 0x10_0000 && flow % 0x1_0000 == w
            && 0x60 + class_ / 16 == x && class_ % 16 * 16 + flow / 0x1_0000 == y
  {
  }

  lemma Parts6(b: seq<Byte>, o: nat)
    requires o + 40 <= |b|
    ensures [b[o], b[o + 1]] + b[o + 2..o + 4] + b[o + 4..o + 6] + [b[o + 6], b[o + 7]] + b[o + 8..o + 24]
            + b[o + 24..o + 40] == b[o..o + 40]
  {
    Joined(b, o, o + 24, o + 40);
    Joined(b, o, o + 8, o + 24);
    Joined(b, o, o + 6, o + 8);
    Joined(b, o, o + 4, o + 6);
    Joined(b, o, o + 2, o + 4);
    Pair(b, o);
    Pair(b, o + 6);
  }

  /** A network layer is shown exactly behind an accepted header. */
  lemma NetworkShown(b: seq<Byte>, e: ParsedPacket, etherType: U16, o: nat, cfg: ParserConfig)
    requires 14 <= o <= |b| && AfterEthernet(e) && e.ethernet.headerLen == o && e.config == cfg
    requires ParseNetwork(b, e, etherType, o, cfg).networkStatus == Present
    ensures etherType == 0x0800 || etherType == 0x86dd
    ensures etherType == 0x0800 ==> Accepts4(b, o)
    ensures etherType == 0x86dd ==> Accepts6(b, o)
  {
    hide ParseTransport, Chain;
    if etherType == 0x86dd { Parsed6(b, e, o, cfg); }
  }

  lemma Recovered4(b: seq<Byte>, l: Link, cfg: ParserConfig) returns (k: Packet)
    requires |l.tags| <= 2 && Accepts4(b, 14 + 4 * |l.tags|)
    requires b == LinkBytes(l, 0x0800) + b[14 + 4 * |l.tags|..]
    ensures WellFormed(k, cfg) && Ended(k, cfg) && FrameBytes(k) == b
  {
    hide LinkBytes, Network.Header, Network.Valid, Network.Fits, FrameBytes, Word;
    var o := 14 + 4 * |l.tags|;
    var h, end := b[o] % 16 * 4, o + Word(b, o + 2);
    Header4Back(b, o);
    k := Packet(l, Network4(b, o), b[o + h..end], b[end..]);
    FrameFrom(k, b, o + 20, o + h, end);
  }

  /** A frame made of slices of `b` is `b`. */
  lemma FrameFrom(k: Packet, b: seq<Byte>, m: nat, t: nat, end: nat)
    requires k.network.Valid() && k.network.Fits(k.payload)
    requires NetworkStart(k) <= m <= t <= end <= |b|
    requires b == LinkBytes(k.link, k.network.EtherType()) + b[NetworkStart(k)..]
    requires k.network.Header(k.payload) == b[NetworkStart(k)..m] && Between(k) == b[m..t]
    requires k.payload == b[t..end] && k.padding == b[end..]
    ensures FrameBytes(k) == b
  {
    hide *;
    FrameIs(k);
    Stacked(b, LinkBytes(k.link, k.network.EtherType()), m, t, end);
  }

  lemma Stacked(b: seq<Byte>, l: seq<Byte>, m: nat, t: nat, end: nat)
    requires |l| <= m <= t <= end <= |b| && b == l + b[|l|..]
    ensures l + (b[|l|..m] + b[m..t] + b[t..end]) + b[end..] == b
  {
    Joined(b, |l|, m, t);
    Joined(b, |l|, t, end);
    Joined(b, |l|, end, |b|);
    assert b[|l|..|b|] == b[|l|..] && b[end..|b|] == b[end..];
  }

  lemma Nothing(b: seq<Byte>, cfg: ParserConfig, next: Byte, from: nat)
    requires from <= |b|
    ensures Walkable([], cfg) && AllValid([]) && ChainSize([]) == 0 && FirstKind([], next) == next
    ensures b[from..from + 0] == ChainBytes([], next)
  {
  }

  lemma Recovered6(b: seq<Byte>, l: Link, cfg: ParserConfig) returns (k: Packet)
    requires |l.tags| <= 2 && Accepts6(b, 14 + 4 * |l.tags|)
    requires b == LinkBytes(l, 0x86dd) + b[14 + 4 * |l.tags|..]
    ensures WellFormed(k, cfg) && Ended(k, cfg) && FrameBytes(k) == b
  {
    hide LinkBytes, Network.Header, Network.Valid, Network.Fits, ChainBytes, Walkable, AllValid, ChainSize, FragmentOf,
      Stuck, Later, Extends, FirstKind, FrameBytes, Network.NonInitial;
    var o := 14 + 4 * |l.tags|;
    var end := o + 40 + Word(b, o + 4);
    Nothing(b, cfg, b[o + 6], o + 40);
    var xs, next := ChainRecovered(b, cfg, [], b[o + 6], o + 40, end);
    ValidOf(xs, cfg);
    var t := o + 40 + ChainSize(xs);
    Header6Back(b, o, xs, next, b[t..end]);
    k := Packet(l, Network6(b, o, xs, next), b[t..end], b[end..]);
    LaterIs(k.network);
    FrameFrom(k, b, o + 40, t, end);
  }

  /** Decoded, then built: a frame whose network layer decodes is built from
      link addresses, tags, a network header, a chain and a payload. */
  lemma FrameRecovered(b: seq<Byte>, cfg: ParserConfig) returns (k: Packet)
    requires Parse(b, cfg).networkStatus == Present
    ensures WellFormed(k, cfg) && Ended(k, cfg) && FrameBytes(k) == b
  {
    ParseIsFramed(b, cfg);
    var l, etherType := LinkReads(b, cfg);
    var o := 14 + 4 * |l.tags|;
    NetworkShown(b, LinkView(l, etherType, cfg), etherType, o, cfg);
    hide Parse, ParseNetwork, Framed, LinkBytes, LinkView;
    if etherType == 0x0800 { k := Recovered4(b, l, cfg); } else { k := Recovered6(b, l, cfg); }
  }

  // ---- Transport layer ---------------------------------------------------------------------------

  /** `b` is a built frame whose packet carries the segment `seg`. */
  ghost predicate Carries(b: seq<Byte>, cfg: ParserConfig, k: Packet, seg: Segment) {
    && WellFormed(k, cfg) && FrameBytes(k) == b && !k.network.NonInitial()
    && seg.Valid(k.network.Incomplete()) && seg.Protocol() == k.network.Protocol() && k.payload == seg.Bytes()
  }

  lemma RefusalIsNotPresent(k: Packet, cfg: ParserConfig)
    requires WellFormed(k, cfg)
    ensures Refusal(k, cfg) != Some(Present)
    ensures Refusal(k, cfg).None? ==>
              !k.network.NonInitial()
              && SegmentRefusal(k.network.Protocol(), k.payload, k.network.Incomplete()).None?
  {
  }

  lemma SegmentRecovered(b: seq<Byte>, cfg: ParserConfig) returns (k: Packet, seg: Segment)
    requires Parse(b, cfg).transportStatus == Present
    ensures Carries(b, cfg, k, seg)
  {
    ParseIsFramed(b, cfg);
    assert Parse(b, cfg).networkStatus == Present;
    hide Parse, Framed, FrameBytes, NetworkView, Refusal, WellFormed, Ended, Segment.Bytes, Segment.Valid;
    k := FrameRecovered(b, cfg);
    RefusalIsNotPresent(k, cfg);
    if Refusal(k, cfg).Some? {
      RefusedDecodes(k, cfg);
      assert false;
    }
    seg := SegmentRead(k.network.Protocol(), k.payload, k.network.Incomplete());
  }

  /** The decoder shows a transport header exactly for the frames built with
      one, and then says exactly what it was built from. */
  lemma PresentExactly(b: seq<Byte>, cfg: ParserConfig)
    ensures Parse(b, cfg).transportStatus == Present <==> exists k, seg :: Carries(b, cfg, k, seg)
    ensures forall k, seg :: Carries(b, cfg, k, seg) ==> Parse(b, cfg) == seg.View(NetworkView(k, cfg), PayloadAt(k))
  {
    hide Parse, FrameBytes, NetworkView, WellFormed, PayloadAt, Segment.Bytes, Segment.Valid;
    if Parse(b, cfg).transportStatus == Present {
      var k, seg := SegmentRecovered(b, cfg);
    }
    forall k, seg | Carries(b, cfg, k, seg)
      ensures Parse(b, cfg) == seg.View(NetworkView(k, cfg), PayloadAt(k))
    {
      BuiltDecodes(k, seg, cfg);
    }
  }

  // ---- Refusals below the transport layer ----------------------------------------------------------

  predicate TagAt(b: seq<Byte>, at: nat)
    requires at + 2 <= |b|
  {
    Word(b, at) == 0x8100 || Word(b, at) == 0x88a8
  }

  /** The link layer is cut short, carries a third tag, or is shown; without it nothing else is. */
  lemma LinkStatus(b: seq<Byte>, cfg: ParserConfig)
    ensures Parse(b, cfg).ethernetStatus
            == if |b| < 14 then Truncated
               else if !TagAt(b, 12) then Present
               else if |b| < 18 then Truncated
               else if !TagAt(b, 16) then Present
               else if |b| < 22 then Truncated
               else if !TagAt(b, 20) then Present else Unsupported
    ensures Parse(b, cfg).ethernetStatus != Present ==>
              var p := Parse(b, cfg);
              && p.networkStatus == Absent && p.transportStatus == Absent
              && p.networkProtocol == NoNetwork && p.transportProtocol == NoTransport
  {
    if |b| >= 14 {
      var e := Addressed(b, cfg);
      TagStatus(b, e, 12, cfg);
      if TagAt(b, 12) && |b| >= 18 {
        var e' := Tagged(e, Word(b, 14));
        TagStatus(b, e', 16, cfg);
        if TagAt(b, 16) && |b| >= 22 { TagStatus(b, Tagged(e', Word(b, 18)), 20, cfg); }
      }
      hide ParseVlan;
    }
  }

  /** `e` with one more tag value. */
  function Tagged(e: ParsedPacket, tci: U16): ParsedPacket
    requires e.ethernet.vlanCount < |e.ethernet.vlanTci|
  {
    e.(ethernet := e.ethernet.(vlanTci := e.ethernet.vlanTci[e.ethernet.vlanCount := tci],
                               vlanCount := e.ethernet.vlanCount + 1))
  }

  lemma TagStatus(b: seq<Byte>, e: ParsedPacket, at: nat, cfg: ParserConfig)
    requires 12 <= at && at + 2 <= |b| && AtTags(e, at + 2, cfg)
    ensures !TagAt(b, at) ==> ParseVlan(b, e, Word(b, at), at + 2, cfg).ethernetStatus == Present
    ensures TagAt(b, at) && (e.ethernet.vlanCount == 2 || at + 6 > |b|) ==>
              ParseVlan(b, e, Word(b, at), at + 2, cfg)
              == EthernetFailure(e, if e.ethernet.vlanCount == 2 then Unsupported else Truncated)
    ensures TagAt(b, at) && e.ethernet.vlanCount < 2 && at + 6 <= |b| ==>
              && AtTags(Tagged(e, Word(b, at + 2)), at + 6, cfg)
              && ParseVlan(b, e, Word(b, at), at + 2, cfg)
                 == ParseVlan(b, Tagged(e, Word(b, at + 2)), Word(b, at + 4), at + 6, cfg)
  {
    if !TagAt(b, at) {
      var f := e.(ethernet := e.ethernet.(etherType := Word(b, at), headerLen := at + 2), ethernetStatus := Present);
      NetworkKeepsEthernet(b, f, Word(b, at), at + 2, cfg);
    }
    hide ParseNetwork;
  }

  /** What an IPv4 header at the front of `s` says of its own packet. */
  function Status4(s: seq<Byte>): ParseStatus {
    if |s| < 20 then Truncated
    else if s[0] / 16 != 4 || s[0] % 16 < 5 then Malformed
    else if s[0] % 16 * 4 > |s| then Truncated
    else if Word(s, 2) < s[0] % 16 * 4 then Malformed
    else if Word(s, 2) > |s| then Truncated else Present
  }

  function Status6(s: seq<Byte>): ParseStatus {
    if |s| < 40 then Truncated
    else if s[0] / 16 != 6 then Malformed
    else if 40 + Word(s, 4) > |s| then Truncated else Present
  }

  /** The network layer is judged by its own fixed header; without it the link layer still stands. */
  lemma NetworkStatus(l: Link, etherType: U16, s: seq<Byte>, cfg: ParserConfig)
    requires |l.tags| <= 2 && etherType != 0x8100 && etherType != 0x88a8
    ensures var p := Parse(LinkBytes(l, etherType) + s, cfg);
            var status := if etherType == 0x0800 then Status4(s)
                          else if etherType == 0x86dd then Status6(s) else Absent;
            && p.networkStatus == status
            && (status != Present ==>
                  p == LinkView(l, etherType, cfg).(networkStatus := status, transportStatus := Absent))
  {
    var b, e, o := LinkBytes(l, etherType) + s, LinkView(l, etherType, cfg), 14 + 4 * |l.tags|;
    LinkDecodes(l, etherType, s, cfg);
    assert b[o..] == s;
    hide Parse, LinkBytes, LinkView;
    if etherType == 0x0800 { Ipv4Status(b, e, s, o); }
    if etherType == 0x86dd { Ipv6Status(b, e, s, o, cfg); }
  }

  lemma Ipv4Status(b: seq<Byte>, e: ParsedPacket, s: seq<Byte>, o: nat)
    requires o <= |b| && b[o..] == s && AfterEthernet(e)
    ensures ParseIpv4(b, e, o).networkStatus == Status4(s)
    ensures Status4(s) != Present ==>
              ParseIpv4(b, e, o) == e.(networkStatus := Status4(s), transportStatus := Absent)
  {
    assert |s| == |b| - o && forall i :: 0 <= i < |s| ==> b[o + i] == s[i];
    if Accepts4(b, o) {
      Ipv4Turn(b, e, o);
      var f := Ipv4Entry(b, e, o);
      NetworkKept(b, Deliver(f, b[o + 9], o + b[o] % 16 * 4), Word(b, o + 2) - b[o] % 16 * 4);
    }
    hide ParseTransport;
  }

  lemma Ipv6Status(b: seq<Byte>, e: ParsedPacket, s: seq<Byte>, o: nat, cfg: ParserConfig)
    requires 14 <= o <= |b| && b[o..] == s && AfterEthernet(e) && e.ethernet.headerLen == o && e.config == cfg
    ensures ParseIpv6(b, e, o, cfg).networkStatus == Status6(s)
    ensures Status6(s) != Present ==>
              ParseIpv6(b, e, o, cfg) == e.(networkStatus := Status6(s), transportStatus := Absent)
  {
    assert |s| == |b| - o && forall i :: 0 <= i < |s| ==> b[o + i] == s[i];
    hide ParseTransport, Chain;
    if Accepts6(b, o) {
      Parsed6(b, e, o, cfg);
      var c, end := Chain6(b, e, o, cfg), o + 40 + Word(b, o + 4);
      if c.Deliver? { NetworkKept(b, c, end - c.cursor); }
    }
  }
}
