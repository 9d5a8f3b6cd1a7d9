/** Owners and pools take their identities from the allocator, so handles of one
    never reach another, whatever both have done since. */
module OwnerIdentities {
  import opened Prelude
  import opened Handles
  import Owners
  import Dispositions
  import Retention
  import Allocation = Identity

  /** Two identities issued in any interleaving of the allocating threads differ and are not zero. */
  lemma IssuedApart(initial: nat, threads: nat, events: seq<Allocation.Event>, i: nat, j: nat)
    requires initial <= U64_MAX && i < j < |Allocation.Run(initial, threads, events).minted|
    ensures var minted := Allocation.Run(initial, threads, events).minted;
            0 < minted[i].cookie <= U64_MAX && 0 < minted[j].cookie <= U64_MAX && minted[i].cookie != minted[j].cookie
  {
    Allocation.IssuedExactlyFill(initial, threads, events);
    var s := Allocation.Run(initial, threads, events);
    assert Allocation.Issued(s, s.minted[i].cookie) && Allocation.Issued(s, s.minted[j].cookie);
  }

  /** No handle is accepted by two owners made with issued identities, in any
      states they reach: no batch handle, no view, editor, output or iterator
      handle, and no writer handle. */
  lemma OwnersNeverMix(initial: nat, threads: nat, events: seq<Allocation.Event>, i: nat, j: nat,
                       ops: seq<Owners.OwnerOp>, others: seq<Owners.OwnerOp>, h: Handle)
    requires initial <= U64_MAX && i < j < |Allocation.Run(initial, threads, events).minted|
    ensures var minted := Allocation.Run(initial, threads, events).minted;
            && 0 < minted[i].cookie <= U64_MAX && 0 < minted[j].cookie <= U64_MAX
            && Owners.OwnerValid(Owners.NewOwner(minted[i].cookie))
               && Owners.OwnerValid(Owners.NewOwner(minted[j].cookie))
            && (var o, p := Owners.Run(Owners.NewOwner(minted[i].cookie), ops),
                Owners.Run(Owners.NewOwner(minted[j].cookie), others);
                && !(Owners.LiveCheck(o, h).Ok? && Owners.LiveCheck(p, h).Ok?)
                && !(Owners.ViewCheck(o, h).Ok? && Owners.ViewCheck(p, h).Ok?)
                && !(Owners.WriterCheck(o, h).Ok? && Owners.WriterCheck(p, h).Ok?))
  {
    IssuedApart(initial, threads, events, i, j);
    var minted := Allocation.Run(initial, threads, events).minted;
    NewIsValid(minted[i].cookie);
    NewIsValid(minted[j].cookie);
    hide Allocation.Run, Owners.OwnerValid;
    Owners.CountersGrow(Owners.NewOwner(minted[i].cookie), ops);
    Owners.CountersGrow(Owners.NewOwner(minted[j].cookie), others);
  }

  lemma NewIsValid(identity: U64)
    requires identity != 0
    ensures Owners.OwnerValid(Owners.NewOwner(identity))
  {
    Dispositions.OpenedTracks(0);
  }

  /** No lease is accepted by two pools made with issued identities. */
  lemma PoolsNeverMix(initial: nat, threads: nat, events: seq<Allocation.Event>, i: nat, j: nat,
                      p: Retention.Pool, q: Retention.Pool, lease: Handle)
    requires initial <= U64_MAX && i < j < |Allocation.Run(initial, threads, events).minted|
    requires var minted := Allocation.Run(initial, threads, events).minted;
             p.identity == minted[i].cookie && q.identity == minted[j].cookie
    ensures !(Retention.LeaseCheck(p, lease).Ok? && Retention.LeaseCheck(q, lease).Ok?)
  {
    IssuedApart(initial, threads, events, i, j);
  }
}
