/** Opaque 128-bit handles: an owner identity above a 64-bit local tag, and a
    generation above an 8-bit index inside the tag. */
module Handles {

  const TWO_56: nat := 0x100_0000_0000_0000
  const TWO_64: nat := 0x1_0000_0000_0000_0000
  const MAX_GENERATION: nat := 0xff_ffff_ffff_ffff

  type U64 = v: int | 0 <= v < 0x1_0000_0000_0000_0000
  type Handle = v: int | 0 <= v < 0x1_0000_0000_0000_0000_0000_0000_0000_0000

  function Encode(identity: U64, tag: U64): Handle {
    identity * TWO_64 + tag
  }

  function Identity(h: Handle): U64 { h / TWO_64 }
  function Tag(h: Handle): U64 { h % TWO_64 }

  /** Packing and unpacking are inverse in both directions. */
  lemma HandleBijection(identity: U64, tag: U64, h: Handle)
    ensures Identity(Encode(identity, tag)) == identity && Tag(Encode(identity, tag)) == tag
    ensures Encode(Identity(h), Tag(h)) == h
  {
  }

  /** The tag of a view, editor or output handle. The 64-bit shift drops high
      bits, which a live generation never has. */
  function IndexTag(generation: U64, index: nat): U64
    requires index < 256
  {
    generation * 256 % TWO_64 + index
  }

  function TagGeneration(tag: U64): nat { tag / 256 }
  function TagIndex(tag: U64): nat { tag % 256 }

  lemma TagBijection(generation: U64, index: nat, tag: U64)
    requires index < 256
    ensures generation <= MAX_GENERATION ==>
              TagGeneration(IndexTag(generation, index)) == generation && TagIndex(IndexTag(generation, index)) == index
    ensures TagGeneration(tag) <= MAX_GENERATION && IndexTag(TagGeneration(tag), TagIndex(tag)) == tag
  {
  }

  /** A retention lease: pool identity, 56-bit generation, record index. */
  function Lease(pool: U64, generation: nat, index: nat): Handle
    requires generation < TWO_56 && index < 256
  {
    pool * TWO_64 + generation * 256 + index
  }

  function LeasePool(h: Handle): U64 { h / TWO_64 }
  function LeaseGeneration(h: Handle): nat { h / 256 % TWO_56 }
  function LeaseIndex(h: Handle): nat { h % 256 }

  lemma LeaseBijection(pool: U64, generation: nat, index: nat, h: Handle)
    requires generation < TWO_56 && index < 256
    ensures LeasePool(Lease(pool, generation, index)) == pool
    ensures LeaseGeneration(Lease(pool, generation, index)) == generation
    ensures LeaseIndex(Lease(pool, generation, index)) == index
    ensures LeaseGeneration(h) < TWO_56 && Lease(LeasePool(h), LeaseGeneration(h), LeaseIndex(h)) == h
  {
  }
}
