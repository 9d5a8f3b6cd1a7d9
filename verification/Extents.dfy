/** Where the network and transport packets lie in the frame, before and after
    resizing its tail. */
module Extents {
  import opened Prelude
  import opened Parsing
  import opened ParsingFacts

  datatype ProtocolExtents = ProtocolExtents(
    networkOffset: nat, networkHeaderLen: nat, networkLen: nat,
    transportOffset: nat, transportHeaderLen: nat, transportLen: nat)

  predicate HasTransport(p: ParsedPacket) {
    p.transportStatus == Present && (p.transportProtocol == Tcp || p.transportProtocol == Udp)
  }

  function DeclaredExtents(p: ParsedPacket, frameLen: nat): Result<ProtocolExtents, PacketError> {
    if p.ethernetStatus != Present || p.networkStatus != Present || p.networkProtocol == NoNetwork then
      Err(InvalidPacket)
    else
      var v4 := p.networkProtocol == Ipv4;
      var offset := NetworkOffset(p);
      var headerLen := if v4 then p.ipv4.headerLen else 40;
      var length: nat := if v4 then p.ipv4.totalLen else 40 + p.ipv6.payloadLen;
      if length < headerLen then Err(InvalidPacket)
      else if offset + length > USIZE_MAX then Err(PacketTooLarge)
      else if offset + length > frameLen then Err(InvalidPacket)
      else if !HasTransport(p) then Ok(ProtocolExtents(offset, headerLen, length, 0, 0, 0))
      else
        var start := TransportOffset(p);
        if offset + headerLen > USIZE_MAX then Err(PacketTooLarge)
        else if start < offset + headerLen || start > offset + length then Err(InvalidPacket)
        else
          var udp := p.transportProtocol == Udp;
          var transportLen: nat := if udp then p.udp.length else offset + length - start;
          var minimum := if udp then 8 else p.tcp.headerLen;
          if transportLen < minimum then Err(InvalidPacket)
          else if start + transportLen > USIZE_MAX then Err(PacketTooLarge)
          else if start + transportLen > offset + length then Err(InvalidPacket)
          else Ok(ProtocolExtents(offset, headerLen, length, start, minimum, transportLen))
  }

  function TailResizedExtents(base: ProtocolExtents, baseLen: nat, frameLen: nat, tailDelta: int,
                              protocol: TransportProtocol): Result<ProtocolExtents, PacketError> {
    if tailDelta >= 0 && baseLen + tailDelta > USIZE_MAX then Err(PacketTooLarge)
    else if baseLen + tailDelta != frameLen then Err(InvalidPacket)
    else
      var baseEnd := base.networkOffset + base.networkLen;
      if baseEnd > USIZE_MAX then Err(PacketTooLarge) else
      var end := if tailDelta > 0 && baseEnd == baseLen then frameLen
                 else if tailDelta < 0 && frameLen < baseEnd then frameLen else baseEnd;
      if base.networkOffset + base.networkHeaderLen > USIZE_MAX then Err(PacketTooLarge)
      else if end < base.networkOffset + base.networkHeaderLen then Err(InvalidPacket)
      else
        var resized := base.(networkLen := end - base.networkOffset);
        if base.transportLen == 0 then Ok(resized) else
        var baseTransportEnd := base.transportOffset + base.transportLen;
        if baseTransportEnd > USIZE_MAX then Err(PacketTooLarge) else
        var transportEnd := if tailDelta > 0 && baseTransportEnd == baseEnd && baseEnd == baseLen then end
                            else if tailDelta < 0 && end < baseTransportEnd then end else baseTransportEnd;
        if transportEnd < base.transportOffset then Err(InvalidPacket) else
        var transportLen := transportEnd - base.transportOffset;
        var minimum := if protocol == Udp then 8 else base.transportHeaderLen;
        if transportLen < minimum then Err(InvalidPacket)
        else Ok(resized.(transportLen := transportLen))
  }

  /** The geometry later stages rely on: headers inside packets inside the frame. */
  predicate Nested(e: ProtocolExtents, p: ParsedPacket, frameLen: nat) {
    && e.networkOffset == NetworkOffset(p) && p.networkProtocol != NoNetwork
    && e.networkHeaderLen == (if p.networkProtocol == Ipv4 then p.ipv4.headerLen else 40)
    && e.networkHeaderLen <= e.networkLen && e.networkOffset + e.networkLen <= frameLen
    && (HasTransport(p) ==>
          && e.transportOffset == TransportOffset(p)
          && e.networkOffset + e.networkHeaderLen <= e.transportOffset
          && e.transportHeaderLen == (if p.transportProtocol == Udp then 8 else p.tcp.headerLen)
          && e.transportHeaderLen <= e.transportLen
          && e.transportOffset + e.transportLen <= e.networkOffset + e.networkLen)
    && (!HasTransport(p) ==> e.transportLen == 0)
  }

  /** Accepted extents are nested. */
  lemma DeclaredIsNested(p: ParsedPacket, n: nat, frameLen: nat)
    requires Framed(p, n) && DeclaredExtents(p, frameLen).Ok?
    ensures Nested(DeclaredExtents(p, frameLen).value, p, frameLen)
    ensures DeclaredExtents(p, frameLen).value.networkOffset + DeclaredExtents(p, frameLen).value.networkLen
            == NetworkEnd(p)
  {
  }

  /** And stay nested after a tail resize. A trimmed frame ends its packets at
      its own end; bytes appended to an unpadded frame join the packets that
      end there; padding, and data behind a shorter datagram, never do. */
  lemma ResizedIsNested(p: ParsedPacket, n: nat, baseLen: nat, frameLen: nat, tailDelta: int)
    requires Framed(p, n) && DeclaredExtents(p, baseLen).Ok?
    requires TailResizedExtents(DeclaredExtents(p, baseLen).value, baseLen, frameLen, tailDelta,
                                p.transportProtocol).Ok?
    ensures var d := DeclaredExtents(p, baseLen).value;
            var e := TailResizedExtents(d, baseLen, frameLen, tailDelta, p.transportProtocol).value;
            && Nested(e, p, frameLen)
            && (tailDelta < 0 ==> e.networkOffset + e.networkLen == Min(NetworkEnd(p), frameLen))
            && (tailDelta > 0 && NetworkEnd(p) == baseLen ==> e.networkOffset + e.networkLen == frameLen)
            && (tailDelta >= 0 && NetworkEnd(p) < baseLen ==> e == d)
            && (HasTransport(p) && tailDelta < 0 ==>
                  e.transportOffset + e.transportLen
                    == Min(d.transportOffset + d.transportLen, e.networkOffset + e.networkLen))
            && (HasTransport(p) && tailDelta > 0 && d.transportOffset + d.transportLen == NetworkEnd(p) == baseLen ==>
                  e.transportOffset + e.transportLen == frameLen)
            && (HasTransport(p) && tailDelta > 0 && d.transportOffset + d.transportLen < NetworkEnd(p) ==>
                  e.transportLen == d.transportLen)
  {
    DeclaredIsNested(p, n, baseLen);
  }

  /** For a fresh decode the declared extents are accepted exactly when the
      network layer is present and a first fragment's UDP datagram is whole. */
  lemma DeclaredAccepted(p: ParsedPacket, n: nat)
    requires Framed(p, n) && n <= USIZE_MAX
    ensures DeclaredExtents(p, n).Ok? <==>
            p.networkStatus == Present
            && (p.transportProtocol == Udp ==> TransportOffset(p) + p.udp.length <= NetworkEnd(p))
    ensures n + 65535 <= USIZE_MAX && DeclaredExtents(p, n).Err? ==> DeclaredExtents(p, n).error == InvalidPacket
  {
  }
}
