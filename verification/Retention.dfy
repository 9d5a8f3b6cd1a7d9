/** Retention pools over whole runs: leases, the tokens they hold, and the slots
    they take away from their batch. Tokens enter and leave retention only
    through pools here. */
module Retention {
  import opened Prelude
  import opened Handles
  import opened Owners
  import Selection
  import Dispositions
  import Tokens

  datatype RecordState = Free | Live | Finished

  datatype Record = Record(generation: nat, state: RecordState, ownerIdentity: nat, batchGeneration: nat,
                           packetIndex: nat, token: TokenRef)

  datatype Pool = Pool(identity: U64, records: seq<Record>, nextGeneration: nat)

  const BLANK_RECORD := Record(0, Free, 0, 0, 0, TokenRef(0, 0))

  type TokenMap = map<TokenRef, Tokens.TokenState>

  // ---- One acquisition ----------------------------------------------------------------------

  function FirstFree(records: seq<Record>): Option<nat> {
    if records == [] then None
    else if !records[0].state.Live? then Some(0)
    else var rest := FirstFree(records[1..]); if rest.None? then None else Some(rest.value + 1)
  }

  lemma {:induction false} FirstFreeIsFree(records: seq<Record>)
    ensures FirstFree(records).Some?
            ==> FirstFree(records).value < |records| && !records[FirstFree(records).value].state.Live?
    ensures FirstFree(records).Some? ==> forall i :: 0 <= i < FirstFree(records).value ==> records[i].state.Live?
    ensures FirstFree(records).None? ==> forall i :: 0 <= i < |records| ==> records[i].state.Live?
  {
    if records != [] && records[0].state.Live? {
      FirstFreeIsFree(records[1..]);
      assert forall i :: 0 < i < |records| ==> records[i] == records[1..][i - 1];
    }
  }

  /** Every check of an acquisition, in order; `Ok` names the record to reuse. */
  function AcquireCheck(o: Owner, p: Pool, tokens: TokenMap, h: Handle, index: nat): Result<nat, OwnerError>
    requires |o.access| == |o.borrowed| == |o.slots|
  {
    if LiveCheck(o, h).Err? then Err(LiveCheck(o, h).error)
    else if SlotCheck(o, index).Err? then Err(SlotCheck(o, index).error)
    else if o.borrowed[index] then Err(OutstandingBorrow)
    else if o.slots[index].token !in tokens then Err(WrongProvenance)
    else if !tokens[o.slots[index].token].WorkerOwned? then Err(WrongProvenance)
    else if FirstFree(p.records).None? then Err(PoolExhausted)
    else if p.nextGeneration == MAX_GENERATION then Err(GenerationExhausted)
    else Ok(FirstFree(p.records).value)
  }

  /** The writer's own checks around an acquisition. */
  function RetainCheck(o: Owner, p: Pool, tokens: TokenMap, writer: Handle, h: Handle, index: nat)
    : Result<nat, OwnerError>
    requires |o.access| == |o.borrowed| == |o.slots| && |o.writer.values| == 64
  {
    if WriterCheck(o, writer).Err? then Err(WriterCheck(o, writer).error)
    else if LiveCheck(o, h).Err? then Err(LiveCheck(o, h).error)
    else if |o.slots| != o.writer.batchLen || Tag(h) != o.writerBatch then Err(BatchMismatch)
    else if !Selection.InBatch(index, o.writer.batchLen) then Err(PacketOutOfRange)
    else if o.writer.values[index].IsTerminal() then Err(PacketTerminal)
    else if Selection.Without(o.writer.active, index, o.writer.batchLen).Err? then Err(PacketOutOfRange)
    else AcquireCheck(o, p, tokens, h, index)
  }

  /** The lease record an acquisition writes. */
  function Leased(p: Pool, i: nat, r: Record): Pool
    requires i < |p.records|
  {
    p.(nextGeneration := p.nextGeneration + 1, records := p.records[i := r])
  }

  function LeaseCheck(p: Pool, lease: Handle): Result<nat, OwnerError> {
    var i := LeaseIndex(lease);
    if LeasePool(lease) != p.identity then Err(WrongPool)
    else if i >= |p.records| then Err(StaleLease)
    else if p.records[i].generation != LeaseGeneration(lease) then Err(StaleLease)
    else match p.records[i].state
         case Live => Ok(i)
         case Finished => Err(LeaseCompleted)
         case Free => Err(StaleLease)
  }

  // ---- The world ------------------------------------------------------------------------------

  datatype World = World(tokens: TokenMap, owners: seq<Owner>, pools: seq<Pool>)

  datatype Op =
    | RegisterToken(t: TokenRef)
    | Act(t: TokenRef, action: Tokens.TokenAction)
    | OnOwner(k: nat, op: OwnerOp)
    | RetainPacket(k: nat, p: nat, writer: Handle, batch: Handle, index: nat)
    | CompleteLease(p: nat, lease: Handle)

  /** Ordinary owner operations neither revoke slots nor record leases themselves. */
  predicate Ordinary(op: OwnerOp) {
    !op.Revoke? && !(op.Write? && op.op.Bind?)
  }

  function Step(w: World, op: Op): (World, Result<Handle, OwnerError>)
    requires WorldShaped(w)
  {
    match op
    case RegisterToken(t) =>
      if t in w.tokens then (w, Err(WrongProvenance)) else (w.(tokens := w.tokens[t := Tokens.InputOwned]), Ok(0))
    case Act(t, action) =>
      if t !in w.tokens || action.Retain? || action.CompleteRetained? then (w, Err(TokenFailure))
      else if Tokens.Transitioned(w.tokens[t], action).Err? then (w, Err(TokenFailure))
      else (w.(tokens := w.tokens[t := Tokens.Transitioned(w.tokens[t], action).value]), Ok(0))
    case OnOwner(k, op) =>
      if k >= |w.owners| || !Ordinary(op) then (w, Err(BatchReleased))
      else (w.(owners := w.owners[k := Owners.Step(w.owners[k], op)]), Ok(0))
    case RetainPacket(k, p, writer, batch, index) =>
      if k >= |w.owners| || p >= |w.pools| then (w, Err(BatchReleased))
      else RetainStep(w, k, p, writer, batch, index)
    case CompleteLease(p, lease) =>
      if p >= |w.pools| then (w, Err(WrongPool))
      else CompleteStep(w, p, lease)
  }

  function RetainStep(w: World, k: nat, p: nat, writer: Handle, batch: Handle, index: nat)
    : (World, Result<Handle, OwnerError>)
    requires WorldShaped(w) && k < |w.owners| && p < |w.pools|
  {
    var o, pool := w.owners[k], w.pools[p];
    var check := RetainCheck(o, pool, w.tokens, writer, batch, index);
    if check.Err? then (w, Err(check.error)) else
    FirstFreeIsFree(pool.records);
    var t, i, g := o.slots[index].token, check.value, pool.nextGeneration + 1;
    var lease := Lease(pool.identity, g, i);
    var record := Record(g, Live, o.identity, o.liveGeneration, index, t);
    (World(w.tokens[t := Tokens.Retained],
           w.owners[k := Bound(o, index, lease)],
           w.pools[p := Leased(pool, i, record)]), Ok(lease))
  }

  /** Access withdrawn and the disposition recorded. */
  function Bound(o: Owner, index: nat, lease: Handle): Owner
    requires index < |o.access| && |o.writer.values| == 64
  {
    o.(access := o.access[index := Retained], writer := Dispositions.RetainStep(o.writer, index, lease).0)
  }

  function CompleteStep(w: World, p: nat, lease: Handle): (World, Result<Handle, OwnerError>)
    requires p < |w.pools|
  {
    var check := LeaseCheck(w.pools[p], lease);
    if check.Err? then (w, Err(check.error)) else
    var record := w.pools[p].records[check.value];
    if record.token !in w.tokens || !w.tokens[record.token].Retained? then (w, Err(TokenFailure))
    else (w.(tokens := w.tokens[record.token := Tokens.Completed],
             pools := w.pools[p := w.pools[p].(records :=
                                               w.pools[p].records[check.value := record.(state := Finished)])]),
          Ok(lease))
  }

  predicate WorldShaped(w: World) {
    && (forall k :: 0 <= k < |w.owners| ==>
          |w.owners[k].access| == |w.owners[k].borrowed| == |w.owners[k].slots| <= 64
            && |w.owners[k].writer.values| == 64)
    && (forall p :: 0 <= p < |w.pools| ==> |w.pools[p].records| <= 64 && w.pools[p].nextGeneration <= MAX_GENERATION)
  }

  // ---- The invariant -----------------------------------------------------------------------------

  ghost predicate LiveAt(pools: seq<Pool>, p: nat, i: nat) {
    p < |pools| && i < |pools[p].records| && pools[p].records[i].state.Live?
  }

  ghost function TokenAt(pools: seq<Pool>, p: nat, i: nat): TokenRef
    requires LiveAt(pools, p, i)
  {
    pools[p].records[i].token
  }

  /** Record generations name their leases: fresh ones are larger, free ones are zero. */
  ghost predicate PoolValid(p: Pool) {
    && p.identity != 0 && |p.records| <= 64 && p.nextGeneration <= MAX_GENERATION
    && forall i :: 0 <= i < |p.records| ==>
         p.records[i].generation <= p.nextGeneration && (p.records[i].state.Free? <==> p.records[i].generation == 0)
  }

  /** Live records correspond one to one with retained tokens. */
  ghost predicate HeldExactly(tokens: TokenMap, pools: seq<Pool>) {
    && (forall p, i :: LiveAt(pools, p, i) ==> TokenAt(pools, p, i) in tokens && tokens[TokenAt(pools, p, i)].Retained?)
    && (forall p, i, q, j ::
          LiveAt(pools, p, i) && LiveAt(pools, q, j) && TokenAt(pools, p, i) == TokenAt(pools, q, j) ==>
            p == q && i == j)
    && (forall t :: t in tokens && tokens[t].Retained? ==>
          exists p, i :: LiveAt(pools, p, i) && TokenAt(pools, p, i) == t)
  }

  ghost predicate WorldValid(w: World) {
    && (forall k :: 0 <= k < |w.owners| ==> OwnerValid(w.owners[k]))
    && (forall p :: 0 <= p < |w.pools| ==> PoolValid(w.pools[p]))
    && HeldExactly(w.tokens, w.pools)
  }

  lemma ValidIsShaped(w: World)
    requires WorldValid(w)
    ensures WorldShaped(w)
  {
  }

  /** A token change outside retention keeps the correspondence. */
  lemma TokensKeepHeld(tokens: TokenMap, pools: seq<Pool>, t: TokenRef, state: Tokens.TokenState)
    requires HeldExactly(tokens, pools) && !state.Retained? && (t in tokens ==> !tokens[t].Retained?)
    ensures HeldExactly(tokens[t := state], pools)
  {
    var after := tokens[t := state];
    assert forall u :: u in after && after[u].Retained? ==> u in tokens && tokens[u].Retained?;
  }

  /** A new lease on an unretained token extends the correspondence by one pair. */
  lemma LeaseKeepsHeld(tokens: TokenMap, pools: seq<Pool>, p: nat, i: nat, r: Record)
    requires HeldExactly(tokens, pools) && p < |pools| && i < |pools[p].records| && !pools[p].records[i].state.Live?
    requires r.state.Live? && r.token in tokens && !tokens[r.token].Retained?
    ensures HeldExactly(tokens[r.token := Tokens.Retained], pools[p := Leased(pools[p], i, r)])
  {
    var after, ts := pools[p := Leased(pools[p], i, r)], tokens[r.token := Tokens.Retained];
    assert LiveAt(after, p, i) && TokenAt(after, p, i) == r.token;
    forall q, j | LiveAt(after, q, j) && !(q == p && j == i)
      ensures LiveAt(pools, q, j) && TokenAt(pools, q, j) == TokenAt(after, q, j) && TokenAt(after, q, j) != r.token {}
    forall u | u in ts && ts[u].Retained? ensures exists q, j :: LiveAt(after, q, j) && TokenAt(after, q, j) == u {
      if u != r.token {
        var q, j :| LiveAt(pools, q, j) && TokenAt(pools, q, j) == u;
        assert LiveAt(after, q, j) && TokenAt(after, q, j) == u;
      }
    }
  }

  /** Completing a lease removes exactly its pair. */
  lemma CompleteKeepsHeld(tokens: TokenMap, pools: seq<Pool>, p: nat, i: nat)
    requires HeldExactly(tokens, pools) && LiveAt(pools, p, i)
    ensures var t := TokenAt(pools, p, i);
            HeldExactly(tokens[t := Tokens.Completed],
                        pools[p := pools[p].(records :=
                                             pools[p].records[i := pools[p].records[i].(state := Finished)])])
  {
    var t := TokenAt(pools, p, i);
    var after := pools[p := pools[p].(records := pools[p].records[i := pools[p].records[i].(state := Finished)])];
    var ts := tokens[t := Tokens.Completed];
    forall q, j | LiveAt(after, q, j)
      ensures LiveAt(pools, q, j) && TokenAt(pools, q, j) == TokenAt(after, q, j) && TokenAt(after, q, j) != t {}
    forall u | u in ts && ts[u].Retained? ensures exists q, j :: LiveAt(after, q, j) && TokenAt(after, q, j) == u {
      var q, j :| LiveAt(pools, q, j) && TokenAt(pools, q, j) == u;
      assert LiveAt(after, q, j) && TokenAt(after, q, j) == u;
    }
  }

  lemma BoundIsValid(o: Owner, index: nat, lease: Handle)
    requires OwnerValid(o) && index < |o.access|
    ensures OwnerValid(Bound(o, index, lease))
  {
    Dispositions.RetainTracks(o.writer, index, lease);
  }

  lemma RetainIsValid(w: World, k: nat, p: nat, writer: Handle, batch: Handle, index: nat)
    requires WorldValid(w) && k < |w.owners| && p < |w.pools|
    ensures WorldShaped(w) && WorldValid(RetainStep(w, k, p, writer, batch, index).0)
  {
    ValidIsShaped(w);
    var o, pool := w.owners[k], w.pools[p];
    var check := RetainCheck(o, pool, w.tokens, writer, batch, index);
    if check.Ok? {
      FirstFreeIsFree(pool.records);
      var lease := Lease(pool.identity, pool.nextGeneration + 1, check.value);
      BoundIsValid(o, index, lease);
      LeaseKeepsHeld(w.tokens, w.pools, p, check.value,
                     Record(pool.nextGeneration + 1, Live, o.identity, o.liveGeneration, index, o.slots[index].token));
      hide OwnerValid, HeldExactly, Bound;
    }
  }

  lemma CompleteIsValid(w: World, p: nat, lease: Handle)
    requires WorldValid(w) && p < |w.pools|
    ensures WorldValid(CompleteStep(w, p, lease).0)
  {
    var check := LeaseCheck(w.pools[p], lease);
    if check.Ok? {
      assert LiveAt(w.pools, p, check.value);
      CompleteKeepsHeld(w.tokens, w.pools, p, check.value);
      hide OwnerValid, HeldExactly;
    }
  }

  lemma StepIsValid(w: World, op: Op)
    requires WorldValid(w)
    ensures WorldShaped(w) && WorldValid(Step(w, op).0)
  {
    ValidIsShaped(w);
    hide OwnerValid, PoolValid, HeldExactly;
    match op
    case RegisterToken(t) => if t !in w.tokens { TokensKeepHeld(w.tokens, w.pools, t, Tokens.InputOwned); }
    case Act(t, action) =>
      if t in w.tokens && !action.Retain? && !action.CompleteRetained? && Tokens.Transitioned(w.tokens[t], action).Ok? {
        TokensKeepHeld(w.tokens, w.pools, t, Tokens.Transitioned(w.tokens[t], action).value);
      }
    case OnOwner(k, op) => if k < |w.owners| && Ordinary(op) { Owners.StepIsValid(w.owners[k], op); }
    case RetainPacket(k, p, writer, batch, index) =>
      if k < |w.owners| && p < |w.pools| { RetainIsValid(w, k, p, writer, batch, index); }
    case CompleteLease(p, lease) => if p < |w.pools| { CompleteIsValid(w, p, lease); }
  }

  // ---- Whole runs ----------------------------------------------------------------------------------

  ghost function Run(w: World, ops: seq<Op>): (r: World)
    requires WorldValid(w)
    ensures WorldValid(r)
  {
    if ops == [] then w
    else
      var before := Run(w, ops[..|ops| - 1]);
      StepIsValid(before, ops[|ops| - 1]);
      Step(before, ops[|ops| - 1]).0
  }

  /** What a successful retention does, all at once. */
  lemma RetainEffect(w: World, k: nat, p: nat, writer: Handle, batch: Handle, index: nat)
    requires WorldValid(w) && WorldShaped(w) && k < |w.owners| && p < |w.pools|
    requires RetainStep(w, k, p, writer, batch, index).1.Ok?
    ensures var (after, lease) := (RetainStep(w, k, p, writer, batch, index).0,
                                   RetainStep(w, k, p, writer, batch, index).1.value);
            var o, n := w.owners[k], after.owners[k];
            && index < |o.slots| && o.slots[index].token in w.tokens
            && w.tokens[o.slots[index].token].WorkerOwned? && after.tokens[o.slots[index].token].Retained?
            && LeaseCheck(after.pools[p], lease).Ok?
            && after.pools[p].records[LeaseIndex(lease)]
               == Record(LeaseGeneration(lease), Live, o.identity, o.liveGeneration, index, o.slots[index].token)
            && LeaseGeneration(lease) > w.pools[p].nextGeneration
            && n.liveGeneration == o.liveGeneration != 0 && n.slots == o.slots
            && n.access[index] == Retained && !o.writer.values[index].IsTerminal()
            && n.writer.values[index] == Dispositions.Retain(lease)
            && Mint(n, batch, index) == Err(AccessRevoked)
  {
    var o, pool := w.owners[k], w.pools[p];
    var i := RetainCheck(o, pool, w.tokens, writer, batch, index).value;
    FirstFreeIsFree(pool.records);
    LeaseBijection(pool.identity, pool.nextGeneration + 1, i, 0);
    Dispositions.RetainTracks(o.writer, index, Lease(pool.identity, pool.nextGeneration + 1, i));
    hide Dispositions.Tracks, HeldExactly, Selection.Members;
  }

  /** The owner's part of a world operation, as operations of that owner. */
  ghost function Projected(w: World, op: Op, k: nat): seq<OwnerOp>
    requires WorldShaped(w)
  {
    if op.OnOwner? && op.k == k && Ordinary(op.op) then [op.op]
    else if op.RetainPacket? && op.k == k && Step(w, op).1.Ok? then
      [Revoke(op.index), Write(op.writer, Dispositions.Bind(op.index, Step(w, op).1.value))]
    else []
  }

  ghost function OwnerOps(w: World, ops: seq<Op>, k: nat): seq<OwnerOp>
    requires WorldValid(w)
  {
    if ops == [] then [] else
    ValidIsShaped(Run(w, ops[..|ops| - 1]));
    OwnerOps(w, ops[..|ops| - 1], k) + Projected(Run(w, ops[..|ops| - 1]), ops[|ops| - 1], k)
  }

  lemma {:induction false} RunAppends(o: Owner, a: seq<OwnerOp>, b: seq<OwnerOp>)
    requires OwnerValid(o)
    ensures Owners.Run(o, a + b) == Owners.Run(Owners.Run(o, a), b)
  {
    if b == [] {
      assert a + b == a;
    } else {
      RunAppends(o, a, b[..|b| - 1]);
      assert (a + b)[..|a + b| - 1] == a + b[..|b| - 1];
    }
  }

  lemma StepProjects(w: World, op: Op, k: nat)
    requires WorldValid(w) && WorldShaped(w) && k < |w.owners|
    ensures |Step(w, op).0.owners| == |w.owners|
    ensures Step(w, op).0.owners[k] == Owners.Run(w.owners[k], Projected(w, op, k))
  {
    hide OwnerValid, HeldExactly, PoolValid;
    var o := w.owners[k];
    if op.OnOwner? && op.k == k && Ordinary(op.op) {
      RunOne(o, op.op);
    } else if op.RetainPacket? && op.k == k && Step(w, op).1.Ok? {
      RunTwo(o, Revoke(op.index), Write(op.writer, Dispositions.Bind(op.index, Step(w, op).1.value)));
    }
  }

  lemma RunOne(o: Owner, a: OwnerOp)
    requires OwnerValid(o)
    ensures Owners.Run(o, [a]) == Owners.Step(o, a)
  {
    assert [a][..0] == [];
  }

  lemma RunTwo(o: Owner, a: OwnerOp, b: OwnerOp)
    requires OwnerValid(o)
    ensures OwnerValid(Owners.Step(o, a)) && Owners.Run(o, [a, b]) == Owners.Step(Owners.Step(o, a), b)
  {
    Owners.StepIsValid(o, a);
    assert [a, b][..1] == [a];
    RunOne(o, a);
  }

  /** Every owner of the world runs as an owner on its own: all its handle theorems apply. */
  lemma {:induction false} OwnersRunAlone(w: World, ops: seq<Op>, k: nat)
    requires WorldValid(w) && k < |w.owners|
    ensures |Run(w, ops).owners| == |w.owners|
    ensures Run(w, ops).owners[k] == Owners.Run(w.owners[k], OwnerOps(w, ops, k))
  {
    if ops != [] {
      var init := ops[..|ops| - 1];
      OwnersRunAlone(w, init, k);
      ValidIsShaped(Run(w, init));
      StepProjects(Run(w, init), ops[|ops| - 1], k);
      RunAppends(w.owners[k], OwnerOps(w, init, k), Projected(Run(w, init), ops[|ops| - 1], k));
    }
  }

  /** After a successful retention the slot stays out of its batch's reach until
      the generation ends, whatever else happens: no handle to it is minted or honoured. */
  lemma RetainedStaysRevoked(w: World, k: nat, p: nat, writer: Handle, batch: Handle, index: nat, ops: seq<Op>,
                             v: Handle)
    requires WorldValid(w) && WorldShaped(w) && k < |w.owners| && p < |w.pools|
    requires RetainStep(w, k, p, writer, batch, index).1.Ok? && TagIndex(Tag(v)) == index
    ensures WorldValid(RetainStep(w, k, p, writer, batch, index).0)
    ensures var t := Run(RetainStep(w, k, p, writer, batch, index).0, ops);
            && k < |t.owners| && |t.owners[k].access| == |t.owners[k].slots| <= 64
            && (t.owners[k].liveGeneration == w.owners[k].liveGeneration ==>
                  ViewCheck(t.owners[k], v).Err? && Mint(t.owners[k], batch, index) == Err(AccessRevoked))
  {
    RetainIsValid(w, k, p, writer, batch, index);
    RetainEffect(w, k, p, writer, batch, index);
    var after := RetainStep(w, k, p, writer, batch, index).0;
    OwnersRunAlone(after, ops, k);
    RevokedWhileLive(after.owners[k], index, OwnerOps(after, ops, k));
    CountersGrow(after.owners[k], OwnerOps(after, ops, k));
    hide Dispositions.Tracks, HeldExactly, RetainStep, Run, OwnerOps;
  }

  // ---- Leases over runs ----------------------------------------------------------------------------

  /** In a valid world a live lease can always be completed. */
  lemma LiveLeaseCompletes(w: World, p: nat, lease: Handle)
    requires WorldValid(w) && p < |w.pools|
    ensures CompleteStep(w, p, lease).1.Ok? <==> LeaseCheck(w.pools[p], lease).Ok?
    ensures LeaseCheck(w.pools[p], lease).Ok?
            ==> LeaseCheck(CompleteStep(w, p, lease).0.pools[p], lease) == Err(LeaseCompleted)
  {
    var check := LeaseCheck(w.pools[p], lease);
    if check.Ok? { assert LiveAt(w.pools, p, check.value); }
  }

  /** A lease of this pool, issued and no longer live, or of no record at all. */
  ghost predicate Dead(pool: Pool, lease: Handle) {
    LeaseCheck(pool, lease).Err? && (LeasePool(lease) == pool.identity
                                     ==> LeaseGeneration(lease) <= pool.nextGeneration)
  }

  /** What one operation does to one record: nothing, a lease with a fresh
      generation over a record that is not live, or the completion of its live lease. */
  ghost predicate RecordMoves(r: Record, s: Record, pool: Pool, completed: bool) {
    || (s == r && !completed)
    || (s.generation > pool.nextGeneration && !r.state.Live? && !completed)
    || (r.state.Live? && s == r.(state := Finished) && completed)
  }

  ghost predicate Completes(w: World, op: Op, p: nat, i: nat)
    requires WorldShaped(w)
  {
    op.CompleteLease? && op.p == p && Step(w, op).1.Ok? && LeaseIndex(op.lease) == i
  }

  lemma PoolMoves(w: World, op: Op, p: nat)
    requires WorldValid(w) && WorldShaped(w) && p < |w.pools|
    ensures var (a, b) := (w.pools[p], Step(w, op).0.pools);
            && |b| == |w.pools| && b[p].identity == a.identity && b[p].nextGeneration >= a.nextGeneration
            && |b[p].records| == |a.records|
            && forall i :: 0 <= i < |a.records| ==>
                 RecordMoves(a.records[i], b[p].records[i], a, Completes(w, op, p, i))
  {
    if op.RetainPacket? && Step(w, op).1.Ok? { FirstFreeIsFree(w.pools[op.p].records); }
    hide OwnerValid, HeldExactly, WorldShaped, Bound, RetainCheck, Owners.Step;
  }

  lemma DeadStays(w: World, op: Op, p: nat, lease: Handle)
    requires WorldValid(w) && WorldShaped(w) && p < |w.pools| && Dead(w.pools[p], lease)
    ensures |Step(w, op).0.pools| == |w.pools| && Dead(Step(w, op).0.pools[p], lease)
  {
    PoolMoves(w, op, p);
    hide Step, OwnerValid, HeldExactly, WorldShaped;
    var i := LeaseIndex(lease);
    if LeasePool(lease) == w.pools[p].identity && i < |w.pools[p].records| {
      assert RecordMoves(w.pools[p].records[i], Step(w, op).0.pools[p].records[i], w.pools[p], Completes(w, op, p, i));
    }
  }

  /** A lease that is no longer live is refused in every later state: recycled
      records reject every older lease. */
  lemma {:induction false} DeadForever(w: World, p: nat, lease: Handle, ops: seq<Op>)
    requires WorldValid(w) && p < |w.pools| && Dead(w.pools[p], lease)
    ensures |Run(w, ops).pools| == |w.pools| && Dead(Run(w, ops).pools[p], lease)
  {
    hide Step, Dead, OwnerValid, PoolValid, HeldExactly;
    if ops != [] {
      var init := ops[..|ops| - 1];
      DeadForever(w, p, lease, init);
      ValidIsShaped(Run(w, init));
      DeadStays(Run(w, init), ops[|ops| - 1], p, lease);
    }
  }

  /** How often this lease was successfully completed in a run. */
  ghost function Completions(w: World, ops: seq<Op>, p: nat, lease: Handle): nat
    requires WorldValid(w)
  {
    if ops == [] then 0 else
    var before := Run(w, ops[..|ops| - 1]);
    ValidIsShaped(before);
    Completions(w, ops[..|ops| - 1], p, lease)
    + if ops[|ops| - 1] == CompleteLease(p, lease) && Step(before, ops[|ops| - 1]).1.Ok? then 1 else 0
  }

  lemma LeaseMoves(w: World, op: Op, p: nat, lease: Handle)
    requires WorldValid(w) && WorldShaped(w) && p < |w.pools| && LeaseCheck(w.pools[p], lease).Ok?
    ensures var t := Step(w, op).0;
            |t.pools| == |w.pools| &&
            if op == CompleteLease(p, lease) then Step(w, op).1.Ok? && Dead(t.pools[p], lease)
            else LeaseCheck(t.pools[p], lease).Ok?
                 && t.pools[p].records[LeaseIndex(lease)] == w.pools[p].records[LeaseIndex(lease)]
  {
    PoolMoves(w, op, p);
    LiveLeaseCompletes(w, p, lease);
    var i := LeaseIndex(lease);
    LeaseBijection(0, 0, 0, lease);
    if op.CompleteLease? { LeaseBijection(0, 0, 0, op.lease); }
    assert RecordMoves(w.pools[p].records[i], Step(w, op).0.pools[p].records[i], w.pools[p], Completes(w, op, p, i));
    hide OwnerValid, HeldExactly, WorldShaped, RetainStep, Owners.Step;
  }

  /** A live lease stays live, with its record and its token, until it is
      completed; it is completed at most once, and refused ever after. */
  lemma {:induction false} LeaseCompletesOnce(w: World, p: nat, lease: Handle, ops: seq<Op>)
    requires WorldValid(w) && p < |w.pools| && LeaseCheck(w.pools[p], lease).Ok?
    ensures var (t, n) := (Run(w, ops), Completions(w, ops, p, lease));
            && |t.pools| == |w.pools| && n <= 1
            && (n == 0 <==> LeaseCheck(t.pools[p], lease).Ok?) && (n == 1 <==> Dead(t.pools[p], lease))
            && (n == 0 ==> t.pools[p].records[LeaseIndex(lease)] == w.pools[p].records[LeaseIndex(lease)])
  {
    if ops != [] {
      var init, op := ops[..|ops| - 1], ops[|ops| - 1];
      var before := Run(w, init);
      LeaseCompletesOnce(w, p, lease, init);
      ValidIsShaped(before);
      if LeaseCheck(before.pools[p], lease).Ok? {
        LeaseMoves(before, op, p, lease);
      } else {
        DeadStays(before, op, p, lease);
        if op == CompleteLease(p, lease) { LiveLeaseCompletes(before, p, lease); }
      }
      hide Step, OwnerValid, PoolValid, HeldExactly, LeaseCheck;
    }
  }

  // ---- Shutdown --------------------------------------------------------------------------------------

  ghost function Shutdown(p: Pool): Result<(), OwnerError> {
    if exists i :: 0 <= i < |p.records| && p.records[i].state.Live? then Err(LeakedRetention) else Ok(())
  }

  /** Pool `p` holds a retained token. */
  ghost predicate Holds(w: World, p: nat, t: TokenRef) {
    t in w.tokens && w.tokens[t].Retained? && exists i :: LiveAt(w.pools, p, i) && TokenAt(w.pools, p, i) == t
  }

  /** In every run the shutdown check of a pool passes exactly when the pool
      holds no retained token, and all pass exactly when no token is retained. */
  lemma ShutdownIsExact(w: World, ops: seq<Op>, p: nat)
    requires WorldValid(w) && p < |Run(w, ops).pools|
    ensures var t := Run(w, ops); Shutdown(t.pools[p]).Ok? <==> forall tok :: !Holds(t, p, tok)
    ensures var t := Run(w, ops);
            (forall q :: 0 <= q < |t.pools| ==> Shutdown(t.pools[q]).Ok?) <==>
            (forall tok :: tok in t.tokens ==> !t.tokens[tok].Retained?)
  {
    var t := Run(w, ops);
    hide Run, WorldValid;
    ShutdownOne(t, p);
    ShutdownAll(t);
  }

  lemma LeakIsHeld(w: World, q: nat) returns (tok: TokenRef)
    requires WorldValid(w) && q < |w.pools| && Shutdown(w.pools[q]).Err?
    ensures Holds(w, q, tok)
  {
    var i: nat :| i < |w.pools[q].records| && w.pools[q].records[i].state.Live?;
    assert LiveAt(w.pools, q, i);
    tok := TokenAt(w.pools, q, i);
  }

  lemma HeldIsLeak(w: World, tok: TokenRef) returns (q: nat)
    requires WorldValid(w) && tok in w.tokens && w.tokens[tok].Retained?
    ensures q < |w.pools| && Shutdown(w.pools[q]).Err?
  {
    var p: nat, i: nat :| LiveAt(w.pools, p, i) && TokenAt(w.pools, p, i) == tok;
    q := p;
  }

  lemma ShutdownAll(w: World)
    requires WorldValid(w)
    ensures (forall q :: 0 <= q < |w.pools| ==> Shutdown(w.pools[q]).Ok?) <==>
            (forall tok :: tok in w.tokens ==> !w.tokens[tok].Retained?)
  {
    if q: nat :| q < |w.pools| && Shutdown(w.pools[q]).Err? {
      var tok := LeakIsHeld(w, q);
    }
    if tok :| tok in w.tokens && w.tokens[tok].Retained? {
      var q := HeldIsLeak(w, tok);
    }
  }

  lemma ShutdownOne(w: World, p: nat)
    requires WorldValid(w) && p < |w.pools|
    ensures Shutdown(w.pools[p]).Ok? <==> forall tok :: !Holds(w, p, tok)
  {
    if Shutdown(w.pools[p]).Err? { var tok := LeakIsHeld(w, p); }
  }

  /** The lease of a live record of this pool. */
  predicate IsLiveLease(p: Pool, lease: Handle, i: nat) {
    && i < |p.records| && i < 256 && p.records[i].state.Live? && p.records[i].generation < TWO_56
    && lease == Lease(p.identity, p.records[i].generation, i)
  }

  /** A completion succeeds exactly for the lease of a live record. Its token is
      then completed, the record finished, and nothing else changes. */
  lemma CompleteAccepted(w: World, p: nat, lease: Handle)
    requires WorldValid(w) && p < |w.pools|
    ensures CompleteStep(w, p, lease).1.Ok? <==> exists i: nat :: IsLiveLease(w.pools[p], lease, i)
    ensures forall i: nat :: IsLiveLease(w.pools[p], lease, i) ==>
              var record := w.pools[p].records[i];
              CompleteStep(w, p, lease).0
              == World(w.tokens[record.token := Tokens.Completed], w.owners,
                       w.pools[p := w.pools[p].(records := w.pools[p].records[i := record.(state := Finished)])])
    ensures CompleteStep(w, p, lease).1.Err? ==> CompleteStep(w, p, lease).0 == w
  {
    LiveLeaseCompletes(w, p, lease);
    forall i: nat ensures LeaseCheck(w.pools[p], lease) == Ok(i) <==> IsLiveLease(w.pools[p], lease, i) {
      LeaseNames(w.pools[p], lease, i);
    }
    hide HeldExactly, OwnerValid, IsLiveLease, LeaseCheck, PoolValid;
  }

  lemma LeaseNames(p: Pool, lease: Handle, i: nat)
    requires PoolValid(p)
    ensures LeaseCheck(p, lease) == Ok(i) <==> IsLiveLease(p, lease, i)
  {
    LeaseBijection(0, 0, 0, lease);
    if i < |p.records| { LeaseBijection(p.identity, p.records[i].generation, i, lease); }
  }

  // ---- When a retention is accepted ----------------------------------------------------------------

  /** The packet can be retained: still undecided, still in its batch, and not borrowed. */
  predicate Retainable(o: Owner, tokens: TokenMap, index: nat) {
    && index < |o.slots| && |o.access| == |o.borrowed| == |o.slots| && |o.slots| <= 64 == |o.writer.values|
    && o.writer.values[index].Continue? && o.access[index].BatchOwned? && !o.borrowed[index]
    && o.slots[index].token in tokens && tokens[o.slots[index].token].WorkerOwned?
  }

  /** The pool can take one more lease. */
  predicate HasRecord(p: Pool) {
    (exists i :: 0 <= i < |p.records| && !p.records[i].state.Live?) && p.nextGeneration < 0xff_ffff_ffff_ffff
  }

  /** A retention succeeds exactly with the handles of the live batch and its
      writer, for a retainable packet, into a pool with a record to spare. A
      refusal changes nothing; a borrowed packet is refused as such. */
  lemma RetainAccepted(w: World, k: nat, p: nat, writer: Handle, batch: Handle, index: nat)
    requires WorldValid(w) && WorldShaped(w) && k < |w.owners| && p < |w.pools|
    ensures RetainStep(w, k, p, writer, batch, index).1.Ok? <==>
            && IsLiveWriter(w.owners[k], writer) && IsLiveHandle(w.owners[k], batch)
            && Retainable(w.owners[k], w.tokens, index) && HasRecord(w.pools[p])
    ensures RetainStep(w, k, p, writer, batch, index).1.Err? ==> RetainStep(w, k, p, writer, batch, index).0 == w
    ensures var o := w.owners[k];
            IsLiveWriter(o, writer) && IsLiveHandle(o, batch) && index < |o.slots| && o.writer.values[index].Continue?
            && o.access[index].BatchOwned? && o.borrowed[index]
            ==> RetainStep(w, k, p, writer, batch, index).1 == Err(OutstandingBorrow)
  {
    var o, pool := w.owners[k], w.pools[p];
    WriterExactly(o, writer);
    LiveExactly(o, batch);
    if IsLiveWriter(o, writer) && IsLiveHandle(o, batch) {
      HandleBijection(o.identity, o.liveGeneration, batch);
      WithoutAccepted(o.writer, index);
    }
    FirstFreeIsFree(pool.records);
    hide HeldExactly, Dispositions.Tracks, Selection.Without, WriterCheck, LiveCheck, IsLiveWriter, IsLiveHandle, Bound,
      Leased, FirstFree, Encode, PoolValid;
  }

  /** An undecided packet of the batch is still active. */
  lemma WithoutAccepted(w: Dispositions.WriterState, index: nat)
    requires Dispositions.Tracks(w)
    ensures Selection.InBatch(index, w.batchLen) <==> index < w.batchLen
    ensures index < w.batchLen ==> Selection.Without(w.active, index, w.batchLen).Ok?
  {
    assert Selection.Below(w.active, w.batchLen);
  }

  /** After an accepted borrow of a slot no retention of it succeeds, whatever
      else happens and wherever it is tried, until its owner begins another batch. */
  lemma BorrowBlocksRetention(w: World, k: nat, v: Handle, index: nat, ops: seq<Op>, p: nat, writer: Handle,
                              batch: Handle)
    requires WorldValid(w) && k < |w.owners| && IsLiveView(w.owners[k], v, index) && index < |w.owners[k].slots|
    requires w.owners[k].access[index].BatchOwned?
    ensures WorldShaped(w) && WorldValid(Step(w, OnOwner(k, Borrow(v))).0)
    ensures var w1 := Step(w, OnOwner(k, Borrow(v))).0;
            var t := Run(w1, ops);
            && k < |w1.owners| && k < |t.owners| && OwnerValid(w1.owners[k]) && WorldShaped(t)
            && (Begins(w1.owners[k], OwnerOps(w1, ops, k)) == 0 && p < |t.pools| ==>
                  RetainStep(t, k, p, writer, batch, index).1.Err? && RetainStep(t, k, p, writer, batch, index).0 == t)
  {
    StepIsValid(w, OnOwner(k, Borrow(v)));
    BorrowAccepted(w.owners[k], v, index);
    var w1 := Step(w, OnOwner(k, Borrow(v))).0;
    OwnersRunAlone(w1, ops, k);
    BorrowedUntilBegin(w1.owners[k], index, OwnerOps(w1, ops, k));
    ValidIsShaped(Run(w1, ops));
    hide HeldExactly, RetainStep, Run, OwnerOps, Begins, Dispositions.Tracks, IsLiveView;
    if p < |Run(w1, ops).pools| { RetainAccepted(Run(w1, ops), k, p, writer, batch, index); }
  }
}
