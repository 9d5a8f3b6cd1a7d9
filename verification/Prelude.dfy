/** Fixed-width values, results and the byte reads every layer shares. */
module Prelude {

  type Byte = b: int | 0 <= b < 256
  type U16 = w: int | 0 <= w < 65536

  type Bytes4 = v: seq<Byte> | |v| == 4 witness [0, 0, 0, 0]
  type Bytes6 = v: seq<Byte> | |v| == 6 witness [0, 0, 0, 0, 0, 0]
  type Bytes8 = v: seq<Byte> | |v| == 8 witness [0, 0, 0, 0, 0, 0, 0, 0]
  type Bytes16 = v: seq<Byte> | |v| == 16 witness [0, 0, 0, 0, 0, 0, 0, 0, 0, 0, 0, 0, 0, 0, 0, 0]

  const USIZE_MAX: nat := 0xffff_ffff_ffff_ffff
  const U64_MAX: nat := 0xffff_ffff_ffff_ffff

  datatype Option<+T> = None | Some(value: T)
  datatype Result<+T, +E> = Ok(value: T) | Err(error: E)

  /** Every refusal the packet engine can return. */
  datatype PacketError =
    | Bounds | Overflow | DestinationTooSmall | ReadOnly
    | InvalidParserLimit | UnsupportedProtocol | IncompleteFragment
    | ResizeRequiresLinear | InsufficientHeadroom | InsufficientTailroom | LengthOverflow
    | MissingInvalidationDeclaration | InjectedFailure
    | InvalidJournal | InvalidPacket | InvalidIpv6UdpZero | PacketTooLarge
    | InvalidMutation | UnfinalizedMutation
    | TooManySegments | DescriptorOverflow | MalformedDescriptor

  /** The big-endian 16-bit word at `k`. */
  function Word(b: seq<Byte>, k: nat): U16
    requires k + 2 <= |b|
  {
    b[k] as int * 256 + b[k + 1] as int
  }

  /** The two bytes of a word, most significant first. */
  function WordBytes(v: U16): seq<Byte> {
    [v / 256, v % 256]
  }

  /** `b` with the bytes from `off` on replaced by `data`. */
  function Splice(b: seq<Byte>, off: nat, data: seq<Byte>): (r: seq<Byte>)
    requires off + |data| <= |b|
    ensures |r| == |b|
    ensures forall k :: 0 <= k < |b| ==> r[k] == if off <= k < off + |data| then data[k - off] else b[k]
  {
    b[..off] + data + b[off + |data|..]
  }

  function Max(a: nat, b: nat): nat { if a >= b then a else b }

  function Min(a: nat, b: nat): nat { if a <= b then a else b }

  lemma HighNibble(q: nat, r: nat)
    requires r < 16
    ensures (q * 16 + r) / 16 == q
  {
  }
}
