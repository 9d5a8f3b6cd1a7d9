/** The retention pool updated in place, together with the owner and the token
    registries a retention changes. Every failing path is proved to change nothing. */
module RetentionPools {
  import opened Prelude
  import opened Handles
  import opened Owners
  import opened BatchOwner
  import Retention
  import Selection
  import Dispositions
  import Tokens
  import Allocation = Identity

  // ---- Several registries ------------------------------------------------------------------

  /** Each token names its registry by its place in `registries`: distinct
      trackers over distinct state arrays. */
  ghost predicate Separate(registries: seq<Tokens.TokenTracker>)
    reads registries
  {
    && (forall k :: 0 <= k < |registries| ==> registries[k].Valid())
    && (forall j, k :: 0 <= j < k < |registries| ==>
          registries[j] != registries[k] && registries[j].states != registries[k].states)
  }

  ghost function StateArrays(registries: seq<Tokens.TokenTracker>): set<object> {
    set k | 0 <= k < |registries| :: registries[k].states as object
  }

  ghost function AllStates(registries: seq<Tokens.TokenTracker>): (all: seq<seq<Tokens.TokenState>>)
    requires Separate(registries)
    reads registries, StateArrays(registries)
    ensures |all| == |registries|
  {
    seq(|registries|, k requires 0 <= k < |registries| && registries[k].Valid()
                        reads registries, StateArrays(registries) => registries[k].Model().states)
  }

  /** The world's tokens, one entry for each registered token. */
  ghost function TokensOf(all: seq<seq<Tokens.TokenState>>): Retention.TokenMap {
    map k: nat, id: nat | k < |all| && id < |all[k]| :: TokenRef(k, id) := all[k][id]
  }

  lemma TokenLookup(all: seq<seq<Tokens.TokenState>>, t: TokenRef)
    ensures t in TokensOf(all) <==> t.tracker < |all| && t.id < |all[t.tracker]|
    ensures t in TokensOf(all) ==> TokensOf(all)[t] == all[t.tracker][t.id]
  {
    if t.tracker < |all| && t.id < |all[t.tracker]| { assert t == TokenRef(t.tracker, t.id); }
  }

  lemma TokensUpdate(all: seq<seq<Tokens.TokenState>>, t: TokenRef, x: Tokens.TokenState)
    requires t.tracker < |all| && t.id < |all[t.tracker]|
    ensures TokensOf(all[t.tracker := all[t.tracker][t.id := x]]) == TokensOf(all)[t := x]
  {
    var next := all[t.tracker := all[t.tracker][t.id := x]];
    forall u: TokenRef
      ensures u in TokensOf(next) <==> u in TokensOf(all)[t := x]
      ensures u in TokensOf(next) ==> TokensOf(next)[u] == TokensOf(all)[t := x][u]
    {
      TokenLookup(next, u);
      TokenLookup(all, u);
    }
  }

  /** What one action does to all tokens. */
  ghost function Acted(all: seq<seq<Tokens.TokenState>>, t: TokenRef,
                       action: Tokens.TokenAction): seq<seq<Tokens.TokenState>>
    requires t.tracker < |all|
  {
    var states := all[t.tracker];
    if t.id < |states| && Tokens.Transitioned(states[t.id], action).Ok?
    then all[t.tracker := states[t.id := Tokens.Transitioned(states[t.id], action).value]] else all
  }

  /** A token's action goes to the registry it names; the others keep their tokens. */
  method ActOn(registries: seq<Tokens.TokenTracker>, t: TokenRef, action: Tokens.TokenAction)
    returns (r: Result<(), Tokens.TokenError>)
    requires Separate(registries) && t.tracker < |registries|
    modifies registries, StateArrays(registries)
    ensures Separate(registries)
    ensures AllStates(registries) == Acted(old(AllStates(registries)), t, action)
    ensures r.Ok? <==> t.id < |old(AllStates(registries))[t.tracker]|
                       && Tokens.Transitioned(old(AllStates(registries))[t.tracker][t.id], action).Ok?
  {
    ghost var all := AllStates(registries);
    var registry := registries[t.tracker];
    assert all[t.tracker] == registry.Model().states;
    hide Tokens.Transitioned;
    r := registry.ApplyAction(t.id, action);
    forall k | 0 <= k < |registries| && k != t.tracker ensures registries[k].Model().states == all[k] {
      assert registries[k] != registry && registries[k].states != registry.states;
    }
    assert AllStates(registries) == Acted(all, t, action);
  }

  /** A retention in a world of one owner and one pool. */
  lemma OneRetain(o: Owner, p: Retention.Pool, ts: Retention.TokenMap, writer: Handle, batch: Handle, index: nat)
    requires OwnerValid(o) && Retention.PoolValid(p)
    ensures var w := Retention.World(ts, [o], [p]);
            var check := Retention.RetainCheck(o, p, ts, writer, batch, index);
            && Retention.WorldShaped(w)
            && match check
               case Err(e) => Retention.RetainStep(w, 0, 0, writer, batch, index) == (w, Err(e))
               case Ok(i) =>
                 && i < |p.records| && index < |o.slots|
                 && var lease := Lease(p.identity, p.nextGeneration + 1, i);
                    var record := Retention.Record(p.nextGeneration + 1, Retention.Live, o.identity, o.liveGeneration,
                                                   index, o.slots[index].token);
                    Retention.RetainStep(w, 0, 0, writer, batch, index)
                    == (Retention.World(ts[o.slots[index].token := Tokens.Retained],
                                        [Retention.Bound(o, index, lease)], [Retention.Leased(p, i, record)]),
                                          Ok(lease))
  {
    Retention.FirstFreeIsFree(p.records);
    forall x: Owner, y: Retention.Pool ensures [o][0 := x] == [x] && [p][0 := y] == [y] {}
  }

  /** What an accepted retention has established. */
  lemma RetainFacts(o: Owner, p: Retention.Pool, all: seq<seq<Tokens.TokenState>>, writer: Handle, batch: Handle,
                    index: nat)
    requires OwnerValid(o) && Retention.PoolValid(p)
    ensures Retention.RetainCheck(o, p, TokensOf(all), writer, batch, index).Ok? ==>
              && index < |o.slots|
              && (var t := o.slots[index].token;
                  t.tracker < |all| && t.id < |all[t.tracker]| && all[t.tracker][t.id] == Tokens.WorkerOwned)
              && p.nextGeneration < MAX_GENERATION
              && Retention.RetainCheck(o, p, TokensOf(all), writer, batch, index).value < |p.records| <= 64
              && index < o.writer.batchLen <= 64 && !o.writer.values[index].IsTerminal()
  {
    hide TokensOf;
    Retention.FirstFreeIsFree(p.records);
    if index < |o.slots| { TokenLookup(all, o.slots[index].token); }
  }

  /** The owner after a lease, spelled out. */
  lemma BoundParts(o: Owner, index: nat, lease: Handle, next: Selection.Mask)
    requires index < |o.access| && |o.writer.values| == 64 && index < o.writer.batchLen <= 64
             && !o.writer.values[index].IsTerminal()
    requires Ok(next) == Selection.Without(o.writer.active, index, o.writer.batchLen)
    ensures Retention.Bound(o, index, lease) ==
            o.(access := o.access[index := Retained],
               writer := o.writer.(values := o.writer.values[index := Dispositions.Retain(lease)], active := next))
  {
  }

  /** Every token a live record holds is in one of `n` registries. */
  ghost predicate HeldWithin(p: Retention.Pool, n: nat) {
    forall i :: 0 <= i < |p.records| && p.records[i].state.Live? ==> p.records[i].token.tracker < n
  }

  lemma LeasedIsValid(p: Retention.Pool, i: nat, r: Retention.Record, n: nat)
    requires Retention.PoolValid(p) && i < |p.records| && p.nextGeneration < MAX_GENERATION
    requires r.generation == p.nextGeneration + 1 && !r.state.Free? && r.token.tracker < n
    ensures Retention.PoolValid(Retention.Leased(p, i, r))
    ensures HeldWithin(p, n) ==> HeldWithin(Retention.Leased(p, i, r), n)
  {
  }

  lemma LeaseFacts(p: Retention.Pool, lease: Handle)
    ensures var check := Retention.LeaseCheck(p, lease);
            check.Ok? ==> check.value < |p.records| && p.records[check.value].state.Live?
  {
  }

  /** A pool after record `i` has been completed. */
  ghost function Completed(p: Retention.Pool, i: nat): Retention.Pool
    requires i < |p.records|
  {
    p.(records := p.records[i := p.records[i].(state := Retention.Finished)])
  }

  lemma CompletedIsValid(p: Retention.Pool, i: nat, n: nat)
    requires Retention.PoolValid(p) && i < |p.records| && p.records[i].state.Live? && HeldWithin(p, n)
    ensures Retention.PoolValid(Completed(p, i)) && HeldWithin(Completed(p, i), n)
  {
  }

  lemma OneComplete(p: Retention.Pool, ts: Retention.TokenMap, lease: Handle)
    ensures var w := Retention.World(ts, [], [p]);
            Retention.CompleteStep(w, 0, lease) ==
            match Retention.LeaseCheck(p, lease)
            case Err(e) => (w, Err(e))
            case Ok(i) =>
              var record := p.records[i];
              if record.token !in ts || !ts[record.token].Retained? then (w, Err(TokenFailure))
              else (Retention.World(ts[record.token := Tokens.Completed], [], [Completed(p, i)]), Ok(lease))
  {
    forall y: Retention.Pool ensures [p][0 := y] == [y] {}
  }

  /** A retention: refused and nothing changed, or token, owner and pool have moved together. */
  ghost predicate Attempted(o: Owner, p: Retention.Pool, all: seq<seq<Tokens.TokenState>>, writer: Handle,
                            batch: Handle, index: nat,
                            o': Owner, p': Retention.Pool, all': seq<seq<Tokens.TokenState>>,
                            r: Result<Handle, OwnerError>)
    requires |o.access| == |o.borrowed| == |o.slots| && |o.writer.values| == 64
  {
    match Retention.RetainCheck(o, p, TokensOf(all), writer, batch, index)
    case Err(e) => o' == o && p' == p && all' == all && r == Err(e)
    case Ok(i) => r.Ok? && LeasedOut(o, p, all, i, index, o', p', all', r.value)
  }

  /** The pool once record `i` holds packet `index` of the live batch. */
  ghost function Lent(p: Retention.Pool, o: Owner, index: nat, i: nat): Retention.Pool
    requires i < |p.records| && index < |o.slots|
  {
    Retention.Leased(p, i, Retention.Record(p.nextGeneration + 1, Retention.Live, o.identity, o.liveGeneration,
                                            index, o.slots[index].token))
  }

  /** Packet `index` leased out of record `i`. */
  ghost predicate LeasedOut(o: Owner, p: Retention.Pool, all: seq<seq<Tokens.TokenState>>, i: nat, index: nat,
                            o': Owner, p': Retention.Pool, all': seq<seq<Tokens.TokenState>>, lease: Handle)
  {
    && i < |p.records| && i < 256 && index < |o.slots| == |o.access| && |o.writer.values| == 64
    && p.nextGeneration < MAX_GENERATION && o.slots[index].token.tracker < |all|
    && lease == Lease(p.identity, p.nextGeneration + 1, i)
    && o' == Retention.Bound(o, index, lease)
    && p' == Lent(p, o, index, i)
    && all' == Acted(all, o.slots[index].token, Tokens.Retain)
  }

  lemma LeasedOutFrom(o: Owner, p: Retention.Pool, all: seq<seq<Tokens.TokenState>>, i: nat, index: nat,
                      next: Selection.Mask, lease: Handle)
    requires OwnerValid(o) && Retention.PoolValid(p) && i < |p.records| && index < |o.slots|
    requires p.nextGeneration < MAX_GENERATION && o.slots[index].token.tracker < |all|
    requires index < o.writer.batchLen <= 64 && !o.writer.values[index].IsTerminal()
    requires Ok(next) == Selection.Without(o.writer.active, index, o.writer.batchLen)
    requires lease == Lease(p.identity, p.nextGeneration + 1, i)
    ensures var o' := o.(access := o.access[index := Retained],
                         writer := o.writer.(values := o.writer.values[index := Dispositions.Retain(lease)],
                                             active := next));
            var p' := Lent(p, o, index, i);
            && OwnerValid(o') && Retention.PoolValid(p') && (HeldWithin(p, |all|) ==> HeldWithin(p', |all|))
            && LeasedOut(o, p, all, i, index, o', p', Acted(all, o.slots[index].token, Tokens.Retain), lease)
  {
    Retention.BoundIsValid(o, index, lease);
    BoundParts(o, index, lease, next);
    LeasedIsValid(p, i, Retention.Record(p.nextGeneration + 1, Retention.Live, o.identity, o.liveGeneration, index,
                                         o.slots[index].token), |all|);
    hide Retention.Bound, Retention.Leased, Dispositions.Tracks;
  }

  lemma AttemptedIsStep(o: Owner, p: Retention.Pool, all: seq<seq<Tokens.TokenState>>, writer: Handle, batch: Handle,
                        index: nat,
                        o': Owner, p': Retention.Pool, all': seq<seq<Tokens.TokenState>>, r: Result<Handle, OwnerError>)
    requires OwnerValid(o) && Retention.PoolValid(p)
    requires Attempted(o, p, all, writer, batch, index, o', p', all', r)
    ensures var w := Retention.World(TokensOf(all), [o], [p]);
            && Retention.WorldShaped(w)
            && Retention.RetainStep(w, 0, 0, writer, batch, index) == (Retention.World(TokensOf(all'), [o'], [p']), r)
  {
    hide Retention.RetainStep, Retention.RetainCheck, OwnerValid, Retention.PoolValid, TokensOf, Retention.Bound,
      Retention.Leased;
    OneRetain(o, p, TokensOf(all), writer, batch, index);
    RetainFacts(o, p, all, writer, batch, index);
    if r.Ok? { TokensUpdate(all, o.slots[index].token, Tokens.Retained); }
  }

  /** A completion: refused and nothing changed, or token and record have ended together. */
  ghost predicate Finished(p: Retention.Pool, all: seq<seq<Tokens.TokenState>>, lease: Handle,
                           p': Retention.Pool, all': seq<seq<Tokens.TokenState>>, r: Result<Handle, OwnerError>)
  {
    match Retention.LeaseCheck(p, lease)
    case Err(e) => p' == p && all' == all && r == Err(e)
    case Ok(i) =>
      var t := p.records[i].token;
      && t.tracker < |all|
      && if t.id < |all[t.tracker]| && all[t.tracker][t.id].Retained?
         then p' == Completed(p, i) && all' == Acted(all, t, Tokens.CompleteRetained) && r == Ok(lease)
         else p' == p && all' == all && r == Err(TokenFailure)
  }

  lemma FinishedIsStep(p: Retention.Pool, all: seq<seq<Tokens.TokenState>>, lease: Handle,
                       p': Retention.Pool, all': seq<seq<Tokens.TokenState>>, r: Result<Handle, OwnerError>)
    requires Finished(p, all, lease, p', all', r)
    ensures Retention.CompleteStep(Retention.World(TokensOf(all), [], [p]), 0, lease)
            == (Retention.World(TokensOf(all'), [], [p']), r)
  {
    OneComplete(p, TokensOf(all), lease);
    var check := Retention.LeaseCheck(p, lease);
    if check.Ok? {
      var t := p.records[check.value].token;
      TokenLookup(all, t);
      if t.id < |all[t.tracker]| && all[t.tracker][t.id].Retained? { TokensUpdate(all, t, Tokens.Completed); }
    }
    hide Retention.CompleteStep, Retention.LeaseCheck, TokensOf, Completed;
  }

  class RetentionPool {
    const identity: U64
    var nextGeneration: nat
    const records: array<Retention.Record>

    ghost predicate Valid()
      reads this, records
    {
      Retention.PoolValid(Model())
    }

    ghost function Model(): Retention.Pool
      reads this, records
    {
      Retention.Pool(identity, records[..], nextGeneration)
    }

    constructor (id: U64, capacity: nat)
      requires id != 0 && capacity <= Selection.MAX_BATCH
      ensures Valid() && fresh(records) && records.Length == capacity && identity == id && nextGeneration == 0
      ensures forall i :: 0 <= i < capacity ==> records[i] == Retention.BLANK_RECORD
    {
      identity, nextGeneration := id, 0;
      records := new Retention.Record[capacity](_ => Retention.BLANK_RECORD);
    }

    method FindFree() returns (r: Option<nat>)
      ensures r == Retention.FirstFree(Model().records)
    {
      Retention.FirstFreeIsFree(records[..]);
      for i := 0 to records.Length
        invariant forall k :: 0 <= k < i ==> records[k].state.Live?
      {
        if !records[i].state.Live? {
          assert Retention.FirstFree(records[..]).Some?;
          return Some(i);
        }
      }
      r := None;
    }

    method LiveRecord(lease: Handle) returns (r: Result<nat, OwnerError>)
      ensures r == Retention.LeaseCheck(Model(), lease)
    {
      var index := LeaseIndex(lease);
      if LeasePool(lease) != identity { return Err(WrongPool); }
      if index >= records.Length { return Err(StaleLease); }
      if records[index].generation != LeaseGeneration(lease) { return Err(StaleLease); }
      r := match records[index].state
           case Live => Ok(index)
           case Finished => Err(LeaseCompleted)
           case Free => Err(StaleLease);
    }

    method VerifyShutdown() returns (r: Result<(), OwnerError>)
      ensures r == Retention.Shutdown(Model())
    {
      for i := 0 to records.Length
        invariant forall k :: 0 <= k < i ==> !records[k].state.Live?
      {
        if records[i].state.Live? {
          assert Model().records[i].state.Live?;
          return Err(LeakedRetention);
        }
      }
      r := Ok(());
    }

    /** Every fallible check of an acquisition; nothing is changed. */
    method CheckAcquire(owner: PacketBatchOwner, registries: seq<Tokens.TokenTracker>, batch: Handle, index: nat)
      returns (r: Result<nat, OwnerError>)
      requires Valid() && owner.Valid() && Separate(registries)
      requires forall i :: 0 <= i < |owner.slots| ==> owner.slots[i].token.tracker < |registries|
      ensures r == Retention.AcquireCheck(owner.Model(), Model(), TokensOf(AllStates(registries)), batch, index)
    {
      hide Dispositions.Tracks;
      var live := owner.EnsureLive(batch);
      if live.Err? { return Err(live.error); }
      if index >= |owner.slots| { return Err(IndexBounds); }
      if owner.access[index] != BatchOwned { return Err(AccessRevoked); }
      if owner.borrowed[index] { return Err(OutstandingBorrow); }
      var token := owner.slots[index].token;
      var registry := registries[token.tracker];
      assert AllStates(registries)[token.tracker] == registry.Model().states;
      TokenLookup(AllStates(registries), token);
      if token.id >= registry.registered { return Err(WrongProvenance); }
      if registry.states[token.id] != Tokens.WorkerOwned { return Err(WrongProvenance); }
      var free := FindFree();
      if free.None? { return Err(PoolExhausted); }
      if nextGeneration == MAX_GENERATION { return Err(GenerationExhausted); }
      r := Ok(free.value);
    }

    /** The suffix that cannot fail: token, record and access in turn. */
    method TakeLease(owner: PacketBatchOwner, registries: seq<Tokens.TokenTracker>, index: nat, i: nat)
      returns (lease: Handle)
      requires Valid() && owner.Valid() && Separate(registries)
      requires index < |owner.slots| && owner.slots[index].token.tracker < |registries|
      requires i < records.Length && nextGeneration < MAX_GENERATION
      modifies this, records, owner`access, registries, StateArrays(registries)
      ensures lease == Lease(identity, old(nextGeneration) + 1, i)
      ensures owner.Model() == old(owner.Model()).(access := old(owner.access)[index := Retained])
      ensures Model() == Lent(old(Model()), old(owner.Model()), index, i)
      ensures Separate(registries)
      ensures AllStates(registries) == Acted(old(AllStates(registries)), owner.slots[index].token, Tokens.Retain)
    {
      assert this !in StateArrays(registries) && records !in StateArrays(registries)
             && owner !in StateArrays(registries);
      hide AllStates, Separate, StateArrays, Acted, OwnerValid, Retention.PoolValid;
      var token := owner.slots[index].token;
      var transferred := ActOn(registries, token, Tokens.Retain);
      lease := PublishLease(owner, index, i);
    }

    /** The record is written and the slot withdrawn. */
    method PublishLease(owner: PacketBatchOwner, index: nat, i: nat) returns (lease: Handle)
      requires Valid() && owner.Valid() && index < |owner.slots| && i < records.Length
               && nextGeneration < MAX_GENERATION
      modifies this, records, owner`access
      ensures lease == Lease(identity, old(nextGeneration) + 1, i)
      ensures owner.Model() == old(owner.Model()).(access := old(owner.access)[index := Retained])
      ensures Model() == Lent(old(Model()), old(owner.Model()), index, i)
    {
      assert |owner.access| == |owner.slots| && records.Length <= 64;
      hide OwnerValid, Retention.PoolValid;
      nextGeneration := nextGeneration + 1;
      records[i] := Retention.Record(nextGeneration, Retention.Live, owner.identity, owner.liveGeneration, index,
                                     owner.slots[index].token);
      owner.access := owner.access[index := Retained];
      lease := Lease(identity, nextGeneration, i);
    }

    /** Pool, owner and registries as a world of one owner and one pool. */
    ghost function WorldOf(owner: PacketBatchOwner, registries: seq<Tokens.TokenTracker>): Retention.World
      requires Separate(registries)
      reads this, records, owner, owner.disposition, owner.disposition.values, registries, StateArrays(registries)
    {
      Retention.World(TokensOf(AllStates(registries)), [owner.Model()], [Model()])
    }

    /** Every fallible check of a retention, with the mask that will be stored. */
    method CheckRetain(writer: Handle, batch: Handle, owner: PacketBatchOwner, registries: seq<Tokens.TokenTracker>,
                       index: nat)
      returns (r: Result<nat, OwnerError>, next: Selection.Mask)
      requires Valid() && owner.Valid() && Separate(registries)
      requires forall i :: 0 <= i < |owner.slots| ==> owner.slots[i].token.tracker < |registries|
      ensures r == Retention.RetainCheck(owner.Model(), Model(), TokensOf(AllStates(registries)), writer, batch, index)
      ensures r.Ok? ==> index < 64 && Ok(next)
                        == Selection.Without(owner.disposition.active, index, owner.disposition.batchLen)
    {
      hide TokensOf, Retention.AcquireCheck, Dispositions.Tracks, Selection.Below;
      next := 0;
      var live := owner.CheckedState(writer);
      if live.Err? { return Err(live.error), 0; }
      var batchLive := owner.EnsureLive(batch);
      if batchLive.Err? { return Err(batchLive.error), 0; }
      if |owner.slots| != owner.disposition.batchLen
        || Tag(batch) != owner.writerBatch { return Err(BatchMismatch), 0; }
      if !Selection.InBatch(index, owner.disposition.batchLen) { return Err(PacketOutOfRange), 0; }
      if owner.disposition.values[index].IsTerminal() { return Err(PacketTerminal), 0; }
      var remaining := Selection.Without(owner.disposition.active, index, owner.disposition.batchLen);
      if remaining.Err? { return Err(PacketOutOfRange), 0; }
      next := remaining.value;
      r := CheckAcquire(owner, registries, batch, index);
    }

    /** Lease and disposition together, once every check has passed. */
    method Conclude(owner: PacketBatchOwner, registries: seq<Tokens.TokenTracker>, index: nat, i: nat,
                    next: Selection.Mask)
      returns (lease: Handle)
      requires Valid() && owner.Valid() && Separate(registries)
      requires index < |owner.slots| && owner.slots[index].token.tracker < |registries|
      requires i < records.Length && nextGeneration < MAX_GENERATION
      requires index < owner.disposition.batchLen <= 64 && !owner.disposition.values[index].IsTerminal()
      requires Ok(next) == Selection.Without(owner.disposition.active, index, owner.disposition.batchLen)
      modifies this, records, owner`access, owner.disposition, owner.disposition.values, registries,
               StateArrays(registries)
      ensures Valid() && owner.Valid() && owner.slots == old(owner.slots) && Separate(registries)
      ensures old(HeldWithin(Model(), |registries|)) ==> HeldWithin(Model(), |registries|)
      ensures LeasedOut(old(owner.Model()), old(Model()), old(AllStates(registries)), i, index,
                        owner.Model(), Model(), AllStates(registries), lease)
    {
      ghost var o, p, all := owner.Model(), Model(), AllStates(registries);
      LeasedOutFrom(o, p, all, i, index, next, Lease(identity, nextGeneration + 1, i));
      hide OwnerValid, Retention.PoolValid, Selection.Without, Lent, LeasedOut, AllStates, Separate, StateArrays,
        Acted, HeldWithin;
      lease := TakeLease(owner, registries, index, i);
      owner.disposition.Bind(index, next, lease);
    }

    /** Checks, then takes: what a retention does to owner, pool and tokens. */
    method TryRetain(writer: Handle, batch: Handle, owner: PacketBatchOwner, registries: seq<Tokens.TokenTracker>,
                     index: nat)
      returns (r: Result<Handle, OwnerError>)
      requires Valid() && owner.Valid() && Separate(registries)
      requires forall i :: 0 <= i < |owner.slots| ==> owner.slots[i].token.tracker < |registries|
      modifies this, records, owner, owner.disposition, owner.disposition.values, registries, StateArrays(registries)
      ensures Valid() && owner.Valid() && owner.slots == old(owner.slots) && Separate(registries)
      ensures old(HeldWithin(Model(), |registries|)) ==> HeldWithin(Model(), |registries|)
      ensures Attempted(old(owner.Model()), old(Model()), old(AllStates(registries)), writer, batch, index,
                        owner.Model(), Model(), AllStates(registries), r)
    {
      ghost var o, p, all := owner.Model(), Model(), AllStates(registries);
      RetainFacts(o, p, all, writer, batch, index);
      hide Retention.RetainCheck, OwnerValid, Retention.PoolValid, TokensOf, LeasedOut, Selection.Without, AllStates,
        Separate, StateArrays, HeldWithin;
      var check, next := CheckRetain(writer, batch, owner, registries, index);
      if check.Err? { return Err(check.error); }
      var lease := Conclude(owner, registries, index, check.value, next);
      r := Ok(lease);
    }

    /** Binds one live packet to a new lease. Any refusal leaves token,
        dispositions, pool and access as they were. */
    method Retain(writer: Handle, batch: Handle, owner: PacketBatchOwner, registries: seq<Tokens.TokenTracker>,
                  index: nat)
      returns (r: Result<Handle, OwnerError>)
      requires Valid() && owner.Valid() && Separate(registries)
      requires forall i :: 0 <= i < |owner.slots| ==> owner.slots[i].token.tracker < |registries|
      modifies this, records, owner, owner.disposition, owner.disposition.values, registries, StateArrays(registries)
      ensures Valid() && owner.Valid() && owner.slots == old(owner.slots) && Separate(registries)
      ensures old(HeldWithin(Model(), |registries|)) ==> HeldWithin(Model(), |registries|)
      ensures Retention.WorldShaped(old(WorldOf(owner, registries)))
      ensures (WorldOf(owner, registries), r)
              == Retention.RetainStep(old(WorldOf(owner, registries)), 0, 0, writer, batch, index)
    {
      ghost var o, p, all := owner.Model(), Model(), AllStates(registries);
      r := TryRetain(writer, batch, owner, registries, index);
      AttemptedIsStep(o, p, all, writer, batch, index, owner.Model(), Model(), AllStates(registries), r);
      hide Retention.RetainStep, Retention.RetainCheck, OwnerValid, Retention.PoolValid, TokensOf, Attempted,
        AllStates, Separate, StateArrays, HeldWithin, Retention.WorldShaped;
    }

    /** Checks, then ends: what a completion does to pool and tokens. */
    method TryComplete(lease: Handle, registries: seq<Tokens.TokenTracker>) returns (r: Result<Handle, OwnerError>)
      requires Valid() && Separate(registries) && HeldWithin(Model(), |registries|)
      modifies records, registries, StateArrays(registries)
      ensures Valid() && HeldWithin(Model(), |registries|) && Separate(registries)
      ensures Finished(old(Model()), old(AllStates(registries)), lease, Model(), AllStates(registries), r)
    {
      ghost var p, all := Model(), AllStates(registries);
      LeaseFacts(p, lease);
      hide Retention.LeaseCheck, Retention.PoolValid, AllStates, Separate, StateArrays;
      var found := LiveRecord(lease);
      if found.Err? { return Err(found.error); }
      CompletedIsValid(p, found.value, |registries|);
      hide HeldWithin;
      var record := records[found.value];
      var ended := ActOn(registries, record.token, Tokens.CompleteRetained);
      if ended.Err? { return Err(TokenFailure); }
      records[found.value] := record.(state := Retention.Finished);
      assert Model() == Completed(p, found.value);
      r := Ok(lease);
    }

    /** Completes a live lease once: the token ends, then the record does. */
    method Complete(lease: Handle, registries: seq<Tokens.TokenTracker>) returns (r: Result<Handle, OwnerError>)
      requires Valid() && Separate(registries) && HeldWithin(Model(), |registries|)
      modifies records, registries, StateArrays(registries)
      ensures Valid() && HeldWithin(Model(), |registries|) && Separate(registries)
      ensures var w := Retention.World(old(TokensOf(AllStates(registries))), [], [old(Model())]);
              (Retention.World(TokensOf(AllStates(registries)), [], [Model()]), r)
                == Retention.CompleteStep(w, 0, lease)
    {
      ghost var p, all := Model(), AllStates(registries);
      r := TryComplete(lease, registries);
      FinishedIsStep(p, all, lease, Model(), AllStates(registries), r);
      hide Retention.CompleteStep, Retention.PoolValid, TokensOf, Finished, AllStates, Separate, StateArrays,
        HeldWithin;
    }
  }

  /** Setup: the capacity bound first, then an identity the allocator has issued. */
  method MakePool(identity: Option<U64>, capacity: nat, ghost issued: Allocation.System, ghost initial: nat)
    returns (r: Result<RetentionPool, OwnerError>)
    requires Allocation.Consistent(issued, initial)
    requires if identity.Some? then Allocation.Issued(issued, identity.value) else issued.counter == U64_MAX
    ensures r.Ok? <==> capacity <= Selection.MAX_BATCH && identity.Some?
    ensures r.Ok? ==> fresh(r.value) && r.value.Valid() && r.value.records.Length == capacity
                      && HeldWithin(r.value.Model(), 0)
    ensures r.Ok? ==> Allocation.Issued(issued, r.value.identity) && initial < r.value.identity <= issued.counter
    ensures r.Err? ==> r.error == if capacity > Selection.MAX_BATCH then CapacityTooLarge else GenerationExhausted
    ensures r == Err(GenerationExhausted) ==> issued.counter == U64_MAX
  {
    if capacity > Selection.MAX_BATCH { return Err(CapacityTooLarge); }
    if identity.None? { return Err(GenerationExhausted); }
    Allocation.MintedIsBounded(issued, initial, identity.value);
    var pool := new RetentionPool(identity.value, capacity);
    r := Ok(pool);
  }
}
