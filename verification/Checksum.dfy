/** The Internet checksum (sections 1 and 2 of RFC 1071) over byte ranges. */
module Checksum {
  import opened Prelude
  import opened Parsing

  /** Sum of the big-endian words of `s`; an odd last byte is padded with zero. */
  function WordSum(s: seq<Byte>): nat {
    if |s| == 0 then 0
    else if |s| == 1 then s[0] as int * 256
    else Word(s, 0) + WordSum(s[2..])
  }

  /** End-around-carry value of a sum: the 16-bit one's-complement number it denotes. */
  function Canon(n: nat): U16 {
    if n == 0 then 0 else (n - 1) % 65535 + 1
  }

  /** Folding the carry back in denotes the same one's-complement number. */
  lemma FoldKeepsCanon(n: nat)
    requires n >= 65536
    ensures 0 < n % 65536 + n / 65536 < n
    ensures Canon(n % 65536 + n / 65536) == Canon(n)
  {
    var q, r := n / 65536, n % 65536;
    assert n - 1 == 65535 * q + (q + r - 1);
    ModShift(q + r - 1, q);
  }

  lemma ModShift(x: nat, q: nat)
    ensures (65535 * q + x) % 65535 == x % 65535
  {
    if q > 0 {
      ModShift(x, q - 1);
      assert 65535 * q + x == 65535 * (q - 1) + x + 65535;
    }
  }

  /** The fold loop ends, never overflows, and complements the one's-complement value. */
  method FoldChecksum(sumValue: nat) returns (r: U16)
    requires sumValue <= U64_MAX
    ensures r == 65535 - Canon(sumValue)
  {
    var sum := sumValue;
    while sum / 65536 != 0
      invariant 0 <= sum <= U64_MAX && Canon(sum) == Canon(sumValue)
      decreases sum
    {
      FoldKeepsCanon(sum);
      sum := sum % 65536 + sum / 65536;
    }
    r := 65535 - sum;
  }

  /** Adding the complement of a sum makes the total all ones. */
  lemma ComplementCloses(s: nat, c: nat)
    requires c == 65535 - Canon(s) || (c == 65535 && Canon(s) == 65535)
    ensures s + c > 0 && Canon(s + c) == 65535
  {
    if s > 0 {
      var q := (s - 1) / 65535;
      assert s == 65535 * q + Canon(s);
      if c == 65535 - Canon(s) {
        ModShift(65534, q);
        assert s + c - 1 == 65535 * q + 65534;
      } else {
        ModShift(65534, q + 1);
        assert s + c - 1 == 65535 * (q + 1) + 65534;
      }
    }
  }

  /** Two sums denote all ones exactly when they differ by a multiple of 65535. */
  lemma CanonShift(s: nat, d: int)
    requires Canon(s) == 65535 && s + d > 0
    ensures Canon(s + d) == 65535 <==> d % 65535 == 0
  {
    assert (s - 1) % 65535 == 65534;
    var q := (s - 1) / 65535;
    assert s == 65535 * q + 65535;
    assert s + d - 1 == 65535 * q + (65534 + d);
    assert (s + d - 1) % 65535 == (65534 + d) % 65535 by { ModShiftInt(65534 + d, q); }
  }

  lemma ModShiftInt(x: int, q: nat)
    ensures (65535 * q + x) % 65535 == x % 65535
  {
    if q > 0 {
      ModShiftInt(x, q - 1);
      assert 65535 * q + x == 65535 * (q - 1) + x + 65535;
    }
  }

  /** Replacing one aligned word changes the sum by exactly the difference. */
  lemma {:induction false} PatchSum(s: seq<Byte>, k: nat, v: U16)
    requires k % 2 == 0 && k + 2 <= |s|
    ensures WordSum(Splice(s, k, WordBytes(v))) + Word(s, k) == WordSum(s) + v
  {
    var t := Splice(s, k, WordBytes(v));
    if k == 0 {
      assert t[2..] == s[2..];
      assert Word(t, 0) == v;
    } else {
      PatchSum(s[2..], k - 2, v);
      assert t[2..] == Splice(s[2..], k - 2, WordBytes(v));
      assert Word(s[2..], k - 2) == Word(s, k);
      assert Word(t, 0) == Word(s, 0);
    }
  }

  // ---- Ranges read with two words overridden --------------------------------

  /** The word at `local` in the range: zeroed, replaced, or read. */
  function RangeWord(b: seq<Byte>, offset: nat, local: nat, length: nat,
                     zero: Option<nat>, over: Option<nat>, v: U16): Option<U16>
    requires local < length
  {
    var high, low := HighOf(b, offset + local, zero, over, v),
                     LowOf(b, offset + local, local + 1 == length, zero, over, v);
    if high.Some? && low.Some? then Some(high.value * 256 + low.value) else None
  }

  function HighOf(b: seq<Byte>, at: nat, zero: Option<nat>, over: Option<nat>, v: U16): Option<Byte> {
    if zero == Some(at) then Some(0) else if over == Some(at) then Some(v / 256)
    else if at < |b| then Some(b[at]) else None
  }

  /** The low byte; past an odd last byte it is zero. */
  function LowOf(b: seq<Byte>, at: nat, last: bool, zero: Option<nat>, over: Option<nat>, v: U16): Option<Byte> {
    if last || zero == Some(at) then Some(0) else if over == Some(at) then Some(v % 256)
    else if at + 1 < |b| then Some(b[at + 1]) else None
  }

  /** Sum of the range from `local` on, or none when a byte it needs is outside the frame. */
  function RangeSum(b: seq<Byte>, offset: nat, local: nat, length: nat,
                    zero: Option<nat>, over: Option<nat>, v: U16): Option<nat>
    decreases length - local
  {
    if local >= length then Some(0) else
    var w := RangeWord(b, offset, local, length, zero, over, v);
    var rest := RangeSum(b, offset, local + 2, length, zero, over, v);
    if w.Some? && rest.Some? then Some(w.value + rest.value) else None
  }

  function Overridden(b: seq<Byte>, at: Option<nat>, v: U16): seq<Byte>
    requires at.Some? ==> at.value + 2 <= |b|
  {
    if at.None? then b else Splice(b, at.value, WordBytes(v))
  }

  predicate Aligned(at: Option<nat>, offset: nat, length: nat) {
    at.Some? ==> offset <= at.value && at.value + 2 <= offset + length && (at.value - offset) % 2 == 0
  }

  /** The bytes a range is summed over: `v` and zero written at the overrides. */
  function Effective(b: seq<Byte>, zero: Option<nat>, over: Option<nat>, v: U16): (c: seq<Byte>)
    requires (over.Some? ==> over.value + 2 <= |b|) && (zero.Some? ==> zero.value + 2 <= |b|)
    ensures |c| == |b|
  {
    Overridden(Overridden(b, over, v), zero, 0)
  }

  lemma RangeWordIsWord(b: seq<Byte>, offset: nat, local: nat, length: nat, zero: Option<nat>, over: Option<nat>,
                        v: U16)
    requires offset + length <= |b| && local < length && local % 2 == 0
    requires Aligned(zero, offset, length) && Aligned(over, offset, length)
    requires zero.Some? && over.Some? ==> zero.value != over.value
    ensures var c, at := Effective(b, zero, over, v), offset + local;
            RangeWord(b, offset, local, length, zero, over, v)
            == Some(if local + 1 == length then c[at] as int * 256 else c[at] as int * 256 + c[at + 1] as int)
  {
    if zero.Some? { SameParity(offset + local, offset, zero.value, local); }
    if over.Some? { SameParity(offset + local, offset, over.value, local); }
    WordAtEvenPlace(b, offset, local, length, zero, over, v);
  }

  lemma SameParity(at: nat, offset: nat, z: nat, local: nat)
    requires at == offset + local && local % 2 == 0 && (z - offset) % 2 == 0
    ensures at != z + 1 && at + 1 != z
  {
  }

  /** An override that starts at no odd distance is read whole or not at all. */
  lemma WordAtEvenPlace(b: seq<Byte>, offset: nat, local: nat, length: nat, zero: Option<nat>, over: Option<nat>,
                        v: U16)
    requires offset + length <= |b| && local < length
    requires zero.Some? ==> zero.value + 2 <= |b| && offset + local != zero.value + 1
                            && offset + local + 1 != zero.value
    requires over.Some? ==> over.value + 2 <= |b| && offset + local != over.value + 1
                            && offset + local + 1 != over.value
    requires zero.Some? && over.Some? ==> zero.value != over.value
    ensures var c, at := Effective(b, zero, over, v), offset + local;
            RangeWord(b, offset, local, length, zero, over, v)
            == Some(if local + 1 == length then c[at] as int * 256 else c[at] as int * 256 + c[at + 1] as int)
  {
    hide Effective, HighOf, LowOf, Aligned;
    var at := offset + local;
    HighByte(b, at, zero, over, v);
    LowByte(b, at, local + 1 == length, zero, over, v);
  }

  lemma HighByte(b: seq<Byte>, at: nat, zero: Option<nat>, over: Option<nat>, v: U16)
    requires at < |b| && (zero.Some? ==> zero.value + 2 <= |b| && at != zero.value + 1)
    requires over.Some? ==> over.value + 2 <= |b| && at != over.value + 1
    ensures HighOf(b, at, zero, over, v) == Some(Effective(b, zero, over, v)[at])
  {
    EffectiveByte(b, zero, over, v, at);
    hide Effective;
  }

  lemma LowByte(b: seq<Byte>, at: nat, last: bool, zero: Option<nat>, over: Option<nat>, v: U16)
    requires zero.Some? ==> zero.value + 2 <= |b| && at + 1 != zero.value
    requires over.Some? ==> over.value + 2 <= |b| && at + 1 != over.value
    requires !last ==> at + 1 < |b|
    ensures LowOf(b, at, last, zero, over, v) == Some(if last then 0 else Effective(b, zero, over, v)[at + 1])
  {
    hide Effective;
    if !last { EffectiveByte(b, zero, over, v, at + 1); }
  }

  lemma EffectiveByte(b: seq<Byte>, zero: Option<nat>, over: Option<nat>, v: U16, k: nat)
    requires (over.Some? ==> over.value + 2 <= |b|) && (zero.Some? ==> zero.value + 2 <= |b|) && k < |b|
    ensures Effective(b, zero, over, v)[k]
            == if zero.Some? && zero.value <= k < zero.value + 2 then 0
               else if over.Some? && over.value == k then v / 256
               else if over.Some? && over.value + 1 == k then v % 256 else b[k]
  {
  }

  lemma SliceSum(c: seq<Byte>, lo: nat, hi: nat)
    requires lo < hi <= |c|
    ensures WordSum(c[lo..hi]) == if lo + 1 == hi then c[lo] as int * 256
                                  else c[lo] as int * 256 + c[lo + 1] as int + WordSum(c[lo + 2..hi])
  {
    if lo + 1 < hi { assert c[lo..hi][2..] == c[lo + 2..hi]; }
  }

  /** The sum of `c[lo..hi]`, zero past the end. */
  function SumFrom(c: seq<Byte>, lo: nat, hi: nat): nat
    requires hi <= |c|
  {
    if lo >= hi then 0 else WordSum(c[lo..hi])
  }

  lemma {:induction false} RangeSumIsSumFrom(b: seq<Byte>, c: seq<Byte>, offset: nat, local: nat, length: nat,
                                             zero: Option<nat>, over: Option<nat>, v: U16)
    requires offset + length <= |b| == |c|
    requires forall k: nat :: k < length && k % 2 == 0 ==>
               RangeWord(b, offset, k, length, zero, over, v)
               == Some(if k + 1 == length then c[offset + k] as int * 256
                       else c[offset + k] as int * 256 + c[offset + k + 1] as int)
    requires local % 2 == 0
    ensures RangeSum(b, offset, local, length, zero, over, v) == Some(SumFrom(c, offset + local, offset + length))
    decreases length + 2 - local
  {
    if local < length {
      RangeSumIsSumFrom(b, c, offset, local + 2, length, zero, over, v);
      SliceSum(c, offset + local, offset + length);
      assert offset + (local + 2) == offset + local + 2;
    }
  }

  /** Inside the frame and with aligned overrides, the override sum is the
      plain sum of the range after writing zero and `v` at those places. */
  lemma RangeSumIsWordSum(b: seq<Byte>, offset: nat, length: nat, zero: Option<nat>, over: Option<nat>, v: U16)
    requires offset + length <= |b|
    requires Aligned(zero, offset, length) && Aligned(over, offset, length)
    requires zero.Some? && over.Some? ==> zero.value != over.value
    ensures RangeSum(b, offset, 0, length, zero, over, v)
            == Some(WordSum(Effective(b, zero, over, v)[offset..offset + length]))
  {
    var c := Effective(b, zero, over, v);
    forall k: nat | k < length && k % 2 == 0
      ensures RangeWord(b, offset, k, length, zero, over, v)
              == Some(if k + 1 == length then c[offset + k] as int * 256
                      else c[offset + k] as int * 256 + c[offset + k + 1] as int)
    {
      RangeWordIsWord(b, offset, k, length, zero, over, v);
    }
    RangeSumIsSumFrom(b, c, offset, 0, length, zero, over, v);
  }

  // ---- Transport checksum ----------------------------------------------------

  /** Pseudo-header sum over the header addresses. For IPv6 the fixed header's
      destination is used even when a routing header is present. */
  function PseudoSum(b: seq<Byte>, p: ParsedPacket, length: U16): Option<nat> {
    var protocol: Byte := if p.transportProtocol == Tcp then 6 else 17;
    var addresses := match p.networkProtocol
                     case Ipv4 => RangeSum(b, p.ipv4.headerOffset + 12, 0, 8, None, None, 0)
                     case Ipv6 => RangeSum(b, p.ipv6.headerOffset + 8, 0, 32, None, None, 0)
                     case NoNetwork => None;
    if addresses.Some? then Some(addresses.value + protocol + length) else None
  }

  function ChecksumOffset(p: ParsedPacket, off: nat): nat {
    off + if p.transportProtocol == Udp then 6 else 16
  }

  function TransportSum(b: seq<Byte>, p: ParsedPacket, off: nat, length: U16): Option<nat> {
    if p.transportProtocol != Tcp && p.transportProtocol != Udp then None else
    var pseudo := PseudoSum(b, p, length);
    var body := RangeSum(b, off, 0, length, Some(ChecksumOffset(p, off)),
                         if p.transportProtocol == Udp then Some(off + 4) else None, length);
    if pseudo.Some? && body.Some? then Some(pseudo.value + body.value) else None
  }

  /** The value stored for a sum; an all-zero result is sent as all ones. */
  function StoredChecksum(sum: nat): U16 {
    var c := 65535 - Canon(sum);
    if c == 0 then 65535 else c
  }

  // ---- What a receiver checks --------------------------------------------------

  /** The IPv4 header checksum verifies. */
  ghost predicate HeaderSumValid(b: seq<Byte>, off: nat, headerLen: nat) {
    off + headerLen <= |b| && Canon(WordSum(b[off..off + headerLen])) == 65535
  }

  /** The transport checksum verifies over pseudo-header and segment. */
  ghost predicate TransportSumValid(b: seq<Byte>, p: ParsedPacket, off: nat, length: U16) {
    && off + length <= |b| && PseudoSum(b, p, length).Some?
    && Canon(PseudoSum(b, p, length).value + WordSum(b[off..off + length])) == 65535
  }
}
