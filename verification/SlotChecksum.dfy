/** Checksumming packet storage in place, proved equal to the flat sums. */
module SlotChecksum {
  import opened Prelude
  import opened Parsing
  import opened Checksum
  import opened Storage

  /** The sum as the summing loop reports it. */
  function Summed(sum: Option<nat>): Result<nat, PacketError> {
    if sum.Some? then Ok(sum.value) else Err(Bounds)
  }

  /** What is already summed and what is left make the whole. */
  ghost predicate Split(b: seq<Byte>, offset: nat, local: nat, length: nat, zero: Option<nat>, over: Option<nat>,
                        v: U16, sum: nat) {
    var rest := RangeSum(b, offset, local, length, zero, over, v);
    RangeSum(b, offset, 0, length, zero, over, v) == if rest.Some? then Some(sum + rest.value) else None
  }

  lemma SplitStep(b: seq<Byte>, offset: nat, local: nat, length: nat, zero: Option<nat>, over: Option<nat>, v: U16,
                  sum: nat)
    requires local < length && Split(b, offset, local, length, zero, over, v, sum)
    ensures var w := RangeWord(b, offset, local, length, zero, over, v);
            if w.Some? then Split(b, offset, local + 2, length, zero, over, v, sum + w.value)
            else RangeSum(b, offset, 0, length, zero, over, v) == None
  {
  }

  method ReadOr(slot: Slot, ghost flat: seq<Byte>, at: nat) returns (r: Result<Byte, PacketError>)
    requires slot.Valid() && slot.Flat() == flat
    ensures slot.Flat() == flat && r == if at < |flat| then Ok(flat[at]) else Err(Bounds)
  {
    hide Pieces.Concat, TotalLen;
    FlatLength(slot);
    r := SlotByte(slot, at);
    assert slot.Windows() == old(slot.Windows());
  }

  /** One big-endian word of the range, with the two overrides applied. */
  method OverriddenWord(slot: Slot, ghost flat: seq<Byte>, offset: nat, local: nat, length: nat, zero: Option<nat>,
                        over: Option<nat>, v: U16)
    returns (r: Result<U16, PacketError>)
    requires slot.Valid() && slot.Flat() == flat && local < length
    ensures slot.Flat() == flat
    ensures var w := RangeWord(flat, offset, local, length, zero, over, v);
            r == if w.Some? then Ok(w.value) else Err(Bounds)
  {
    hide Slot.Valid, Slot.Flat;
    var absolute := offset + local;
    var high: Result<Byte, PacketError>, low: Result<Byte, PacketError>;
    if zero.Some? && absolute == zero.value {
      high := Ok(0);
    } else if over.Some? && absolute == over.value {
      high := Ok(v / 256);
    } else {
      high := ReadOr(slot, flat, absolute);
      if high.Err? { return Err(high.error); }
    }
    if local + 1 == length {
      low := Ok(0);
    } else if zero.Some? && absolute + 1 == zero.value + 1 {
      low := Ok(0);
    } else if over.Some? && absolute + 1 == over.value + 1 {
      low := Ok(v % 256);
    } else {
      low := ReadOr(slot, flat, absolute + 1);
      if low.Err? { return Err(low.error); }
    }
    r := Ok(high.value * 256 + low.value);
  }

  /** The 64-bit accumulator never overflows over any range a header can declare. */
  method ChecksumRange(slot: Slot, ghost flat: seq<Byte>, offset: nat, length: nat, zero: Option<nat>,
                       over: Option<nat>, v: U16)
    returns (r: Result<nat, PacketError>)
    requires slot.Valid() && slot.Flat() == flat && length < 0xffff_ffff_ffff
    ensures slot.Flat() == flat
    ensures r == Summed(RangeSum(flat, offset, 0, length, zero, over, v))
    ensures r.Ok? ==> r.value <= 65535 * (length + 1) <= U64_MAX
  {
    hide Slot.Valid, Slot.Flat, RangeWord, Split;
    var sum, local := 0, 0;
    SplitStart(flat, offset, length, zero, over, v);
    while local < length
      invariant slot.Flat() == flat && 0 <= local <= length + 1
      invariant 0 <= sum <= 65535 * local && Split(flat, offset, local, length, zero, over, v, sum)
    {
      SplitStep(flat, offset, local, length, zero, over, v, sum);
      var w := OverriddenWord(slot, flat, offset, local, length, zero, over, v);
      if w.Err? { return Err(w.error); }
      sum := sum + w.value;
      local := local + 2;
    }
    SplitEnd(flat, offset, local, length, zero, over, v, sum);
    r := Ok(sum);
  }

  lemma SplitStart(b: seq<Byte>, offset: nat, length: nat, zero: Option<nat>, over: Option<nat>, v: U16)
    ensures Split(b, offset, 0, length, zero, over, v, 0)
  {
  }

  lemma SplitEnd(b: seq<Byte>, offset: nat, local: nat, length: nat, zero: Option<nat>, over: Option<nat>, v: U16,
                 sum: nat)
    requires local >= length && Split(b, offset, local, length, zero, over, v, sum)
    ensures RangeSum(b, offset, 0, length, zero, over, v) == Some(sum)
  {
  }

  /** The checksum to store for a TCP or UDP extent, pseudo-header included. */
  method TransportChecksum(slot: Slot, ghost flat: seq<Byte>, p: ParsedPacket, offset: nat, length: U16)
    returns (r: Result<U16, PacketError>)
    requires slot.Valid() && slot.Flat() == flat
    ensures slot.Flat() == flat
    ensures var sum := TransportSum(flat, p, offset, length);
            r == if sum.Some? then Ok(StoredChecksum(sum.value)) else Err(Bounds)
  {
    hide RangeSum, Canon, Pieces.Concat, TotalLen;
    var sum := 0;
    if p.transportProtocol != Tcp && p.transportProtocol != Udp { return Err(Bounds); }
    var protocol: Byte := if p.transportProtocol == Tcp then 6 else 17;
    match p.networkProtocol {
      case Ipv4 =>
        var addresses := ChecksumRange(slot, flat, p.ipv4.headerOffset + 12, 8, None, None, 0);
        if addresses.Err? { return Err(addresses.error); }
        sum := sum + addresses.value + protocol + length;
      case Ipv6 =>
        var addresses := ChecksumRange(slot, flat, p.ipv6.headerOffset + 8, 32, None, None, 0);
        if addresses.Err? { return Err(addresses.error); }
        sum := sum + addresses.value + length + protocol;
      case NoNetwork => return Err(Bounds);
    }
    var udpLength: Option<nat> := if p.transportProtocol == Udp then Some(offset + 4) else None;
    var body := ChecksumRange(slot, flat, offset, length, Some(ChecksumOffset(p, offset)), udpLength, length);
    if body.Err? { return Err(body.error); }
    sum := sum + body.value;
    ghost var ps := slot.Windows();
    var result := FoldChecksum(sum);
    assert slot.Windows() == ps;
    r := Ok(if result == 0 then 65535 else result);
  }
}
