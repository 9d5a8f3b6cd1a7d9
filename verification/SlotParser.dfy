/** The segmented decoder: loops over packet storage, byte by byte, proved equal
    to the flat recursive decoder. Two segmentations of the same bytes therefore
    decode alike. */
module SlotParser {
  import opened Prelude
  import opened Parsing
  import opened Pieces
  import opened Storage

  /** Reads that the range checks before them have made safe. */
  method ByteAt(slot: Slot, ghost flat: seq<Byte>, offset: nat) returns (b: Byte)
    requires slot.Valid() && slot.Flat() == flat && offset < |flat|
    ensures slot.Flat() == flat && b == flat[offset]
  {
    hide Concat, TotalLen;
    FlatLength(slot);
    var r := SlotByte(slot, offset);
    assert slot.Windows() == old(slot.Windows());
    b := r.value;
  }

  method WordAt(slot: Slot, ghost flat: seq<Byte>, offset: nat) returns (w: U16)
    requires slot.Valid() && slot.Flat() == flat && offset + 2 <= |flat|
    ensures slot.Flat() == flat && w == Word(flat, offset)
  {
    hide Concat, TotalLen;
    FlatLength(slot);
    var r := SlotU16(slot, offset);
    assert slot.Windows() == old(slot.Windows());
    w := r.value;
  }

  method BytesAt(slot: Slot, ghost flat: seq<Byte>, offset: nat, n: nat) returns (bytes: seq<Byte>)
    requires slot.Valid() && slot.Flat() == flat && offset + n <= |flat|
    ensures slot.Flat() == flat && bytes == flat[offset..offset + n]
  {
    hide Concat, TotalLen;
    hide Segment.Window;
    FlatLength(slot);
    var buffer := new Byte[n](_ => 0);
    var r := SlotRead(slot, offset, buffer);
    bytes := buffer[..];
  }

  method ReadTransport(slot: Slot, ghost flat: seq<Byte>, start: ParsedPacket, protocol: Byte, offset: nat,
                       available: nat)
    returns (entry: ParsedPacket)
    requires slot.Valid() && slot.Flat() == flat && offset + available <= |flat|
    ensures slot.Flat() == flat && entry == ParseTransport(flat, start, protocol, offset, available)
  {
    hide Slot.Valid, Slot.Flat;
    entry := start;
    if protocol == 6 {
      entry := entry.(transportProtocol := Tcp);
      if available < 20 { return TransportFailure(entry, Truncated); }
      var dataOffset := ByteAt(slot, flat, offset + 12);
      var headerLen := dataOffset / 16 * 4;
      if headerLen < 20 { return TransportFailure(entry, Malformed); }
      if headerLen > available { return TransportFailure(entry, Truncated); }
      var source := WordAt(slot, flat, offset);
      var destination := WordAt(slot, flat, offset + 2);
      var flags := ByteAt(slot, flat, offset + 13);
      entry := entry.(tcp := TcpFields(offset, headerLen, source, destination, flags), transportStatus := Present);
    } else if protocol == 17 {
      entry := entry.(transportProtocol := Udp);
      if available < 8 { return TransportFailure(entry, Truncated); }
      var length := WordAt(slot, flat, offset + 4);
      if length < 8 { return TransportFailure(entry, Malformed); }
      if length > available && !entry.incompleteFragment { return TransportFailure(entry, Malformed); }
      var source := WordAt(slot, flat, offset);
      var destination := WordAt(slot, flat, offset + 2);
      var checksum := WordAt(slot, flat, offset + 6);
      entry := entry.(udp := UdpFields(offset, source, destination, length, checksum), transportStatus := Present);
    } else if protocol == 1 || protocol == 58 {
      entry := entry.(transportProtocol := if protocol == 1 then Icmpv4 else Icmpv6);
      if available < 4 { return TransportFailure(entry, Truncated); }
      var kind := ByteAt(slot, flat, offset);
      var code := ByteAt(slot, flat, offset + 1);
      entry := entry.(icmp := IcmpFields(offset, kind, code), transportStatus := Present);
    } else if protocol == 59 {
      entry := TransportFailure(entry, Absent);
    } else {
      entry := TransportFailure(entry, Unsupported);
    }
  }

  method ReadIpv4(slot: Slot, ghost flat: seq<Byte>, start: ParsedPacket, offset: nat) returns (entry: ParsedPacket)
    requires slot.Valid() && slot.Flat() == flat && |flat| == slot.totalLen && offset <= |flat|
    ensures slot.Flat() == flat && entry == ParseIpv4(flat, start, offset)
  {
    hide Slot.Valid, Slot.Flat;
    hide ParseTransport;
    entry := start;
    var available := slot.totalLen - offset;
    if available < 20 { return NetworkFailure(entry, Truncated); }
    var versionIhl := ByteAt(slot, flat, offset);
    if versionIhl / 16 != 4 { return NetworkFailure(entry, Malformed); }
    var headerLen := versionIhl % 16 * 4;
    if headerLen < 20 { return NetworkFailure(entry, Malformed); }
    if headerLen > available { return NetworkFailure(entry, Truncated); }
    var totalLen := WordAt(slot, flat, offset + 2);
    if totalLen < headerLen { return NetworkFailure(entry, Malformed); }
    if totalLen > available { return NetworkFailure(entry, Truncated); }
    var fragment := WordAt(slot, flat, offset + 6);
    var source := BytesAt(slot, flat, offset + 12, 4);
    var destination := BytesAt(slot, flat, offset + 16, 4);
    var service := ByteAt(slot, flat, offset + 1);
    var ttl := ByteAt(slot, flat, offset + 8);
    var protocol := ByteAt(slot, flat, offset + 9);
    entry := entry.(
      networkProtocol := Ipv4, networkStatus := Present,
      ipv4 := Ipv4Fields(offset, headerLen, totalLen, service / 4, ttl, protocol, source, destination,
                         fragment % 0x2000, fragment / 0x2000 % 2 == 1));
    entry := entry.(nonInitialFragment := entry.ipv4.fragmentOffset != 0);
    entry := entry.(incompleteFragment := entry.nonInitialFragment || entry.ipv4.moreFragments);
    if entry.nonInitialFragment { return TransportFailure(entry, Absent); }
    entry := ReadTransport(slot, flat, entry, protocol, offset + headerLen, totalLen - headerLen);
  }

  method ReadFixed6(slot: Slot, ghost flat: seq<Byte>, start: ParsedPacket, offset: nat, first: Byte, payloadLen: U16)
    returns (entry: ParsedPacket)
    requires slot.Valid() && slot.Flat() == flat && offset + 40 <= |flat|
    requires first == flat[offset] && payloadLen == Word(flat, offset + 4)
    ensures slot.Flat() == flat && entry == Ipv6Entry(flat, start, offset)
  {
    hide Slot.Valid, Slot.Flat;
    var source := BytesAt(slot, flat, offset + 8, 16);
    var destination := BytesAt(slot, flat, offset + 24, 16);
    var second := ByteAt(slot, flat, offset + 1);
    var hopLimit := ByteAt(slot, flat, offset + 7);
    entry := start.(
      networkProtocol := Ipv6, networkStatus := Present,
      ipv6 := Ipv6Fields(offset, payloadLen, first % 16 * 16 + second / 16, hopLimit, source, destination, 0, 0, 0,
                         false));
  }

  /** One accepted extension header: a fragment header is read, the totals advance. */
  method ReadExtension(slot: Slot, ghost flat: seq<Byte>, start: ParsedPacket, next: Byte, cursor: nat,
                       extensionBytes: U16)
    returns (entry: ParsedPacket)
    requires slot.Valid() && slot.Flat() == flat && cursor + 8 <= |flat| && start.ipv6.extensionHeaders < 255
    ensures slot.Flat() == flat && entry == Stepped(flat, start, next, cursor, extensionBytes)
    ensures entry.ipv6.extensionHeaders == start.ipv6.extensionHeaders + 1
  {
    hide Slot.Valid, Slot.Flat;
    entry := start;
    if next == 44 {
      var fragment := WordAt(slot, flat, cursor + 2);
      entry := entry.(ipv6 := entry.ipv6.(fragmentOffset := fragment / 8, moreFragments := fragment % 2 == 1));
      entry := entry.(nonInitialFragment := entry.ipv6.fragmentOffset != 0);
      entry := entry.(incompleteFragment := entry.nonInitialFragment || entry.ipv6.moreFragments);
    }
    entry := entry.(ipv6 := entry.ipv6.(extensionHeaders := entry.ipv6.extensionHeaders + 1,
                                        extensionBytes := extensionBytes));
  }

  /** The extension loop: it stops at a refusal or hands over the header the
      flat chain hands over. Every cast in it is proved to fit. */
  method WalkExtensions(slot: Slot, ghost flat: seq<Byte>, start: ParsedPacket, cfg: ParserConfig, first: Byte,
                        from: nat, end: nat)
    returns (c: ChainEnd)
    requires slot.Valid() && slot.Flat() == flat && |flat| == slot.totalLen && from <= end <= |flat|
    requires start.ipv6.extensionHeaders <= cfg.maxHeaders
    ensures slot.Flat() == flat && c == Chain(flat, start, cfg, first, from, end, false)
  {
    hide Slot.Valid, Slot.Flat, Stepped;
    var entry, next, cursor, sawFragment := start, first, from, false;
    while IsExtension(next)
      invariant slot.Flat() == flat
      invariant cursor <= end && entry.ipv6.extensionHeaders <= cfg.maxHeaders
      invariant Chain(flat, start, cfg, first, from, end, false)
                == Chain(flat, entry, cfg, next, cursor, end, sawFragment)
      decreases end - cursor
    {
      if entry.ipv6.extensionHeaders == cfg.maxHeaders { return Stop(TransportFailure(entry, Unsupported)); }
      if cursor >= end { return Stop(TransportFailure(entry, Truncated)); }
      if next == 0 && entry.ipv6.extensionHeaders != 0 { return Stop(TransportFailure(entry, Malformed)); }
      if next == 44 && sawFragment { return Stop(TransportFailure(entry, Malformed)); }
      var following := ByteAt(slot, flat, cursor);
      var length: nat := 8;
      if next != 44 {
        if cursor + 1 >= slot.totalLen { return Stop(TransportFailure(entry, Truncated)); }
        var units := ByteAt(slot, flat, cursor + 1);
        length := if next == 51 then (units as int + 2) * 4 else (units as int + 1) * 8;
      }
      var extensionBytes := entry.ipv6.extensionBytes + length;
      if extensionBytes > cfg.maxBytes { return Stop(TransportFailure(entry, Unsupported)); }
      if cursor + length > end { return Stop(TransportFailure(entry, Truncated)); }
      entry := ReadExtension(slot, flat, entry, next, cursor, extensionBytes);
      sawFragment := sawFragment || next == 44;
      next, cursor := following, cursor + length;
      if entry.nonInitialFragment { return Stop(TransportFailure(entry, Absent)); }
    }
    c := if next == 50 then Stop(TransportFailure(entry, Unsupported)) else Deliver(entry, next, cursor);
  }

  method ReadIpv6(slot: Slot, ghost flat: seq<Byte>, start: ParsedPacket, offset: nat, cfg: ParserConfig)
    returns (entry: ParsedPacket)
    requires slot.Valid() && slot.Flat() == flat && |flat| == slot.totalLen && offset <= |flat|
    ensures slot.Flat() == flat && entry == ParseIpv6(flat, start, offset, cfg)
  {
    hide Slot.Valid, Slot.Flat;
    hide ParseTransport, Chain;
    var available := slot.totalLen - offset;
    if available < 40 { return NetworkFailure(start, Truncated); }
    var first := ByteAt(slot, flat, offset);
    if first / 16 != 6 { return NetworkFailure(start, Malformed); }
    var payloadLen := WordAt(slot, flat, offset + 4);
    var totalLen: nat := 40 + payloadLen as int;
    if totalLen > available { return NetworkFailure(start, Truncated); }
    entry := ReadFixed6(slot, flat, start, offset, first, payloadLen);
    var nextHeader := ByteAt(slot, flat, offset + 6);
    var end := offset + totalLen;
    ChainInside(flat, entry, cfg, nextHeader, offset + 40, end, false);
    var c := WalkExtensions(slot, flat, entry, cfg, nextHeader, offset + 40, end);
    if c.Stop? { return c.entry; }
    entry := ReadTransport(slot, flat, c.entry, c.next, c.cursor, end - c.cursor);
  }

  method ReadNetwork(slot: Slot, ghost flat: seq<Byte>, start: ParsedPacket, etherType: U16, cursor: nat,
                     cfg: ParserConfig)
    returns (entry: ParsedPacket)
    requires slot.Valid() && slot.Flat() == flat && |flat| == slot.totalLen && cursor <= |flat|
    ensures slot.Flat() == flat && entry == ParseNetwork(flat, start, etherType, cursor, cfg)
  {
    hide Slot.Valid, Slot.Flat;
    hide ParseIpv4, ParseIpv6;
    if etherType == 0x0800 {
      entry := ReadIpv4(slot, flat, start, cursor);
    } else if etherType == 0x86dd {
      entry := ReadIpv6(slot, flat, start, cursor, cfg);
    } else {
      entry := NetworkFailure(start, Absent);
    }
  }

  /** The whole decoder. Its result depends on the packet's bytes alone. */
  method ParseSlot(slot: Slot, cfg: ParserConfig) returns (entry: ParsedPacket)
    requires slot.Valid()
    ensures entry == Parse(slot.Flat(), cfg)
  {
    FlatLength(slot);
    ghost var flat := slot.Flat();
    hide Slot.Valid, Slot.Flat;
    hide ParseNetwork;
    entry := Blank(cfg);
    if slot.totalLen < 14 { return EthernetFailure(entry, Truncated); }
    var destination := BytesAt(slot, flat, 0, 6);
    var source := BytesAt(slot, flat, 6, 6);
    entry := entry.(ethernet := entry.ethernet.(destination := destination, source := source));
    var etherType := WordAt(slot, flat, 12);
    var cursor := 14;
    while IsVlan(etherType)
      invariant slot.Flat() == flat
      invariant 14 <= cursor <= |flat| && |entry.ethernet.vlanTci| == 2 && entry.ethernet.vlanCount <= 2
      invariant Parse(flat, cfg) == ParseVlan(flat, entry, etherType, cursor, cfg)
      decreases |flat| - cursor
    {
      if entry.ethernet.vlanCount == 2 { return EthernetFailure(entry, Unsupported); }
      if slot.totalLen - cursor < 4 { return EthernetFailure(entry, Truncated); }
      var tci := WordAt(slot, flat, cursor);
      entry := entry.(ethernet := entry.ethernet.(vlanTci := entry.ethernet.vlanTci[entry.ethernet.vlanCount := tci],
                                                  vlanCount := entry.ethernet.vlanCount + 1));
      etherType := WordAt(slot, flat, cursor + 2);
      cursor := cursor + 4;
    }
    entry := entry.(ethernet := entry.ethernet.(etherType := etherType, headerLen := cursor),
                    ethernetStatus := Present);
    entry := ReadNetwork(slot, flat, entry, etherType, cursor, cfg);
  }
}
