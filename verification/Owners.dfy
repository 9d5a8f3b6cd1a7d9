/** Batch owners: generations of packets reached only through handles that carry
    the owner's identity and a generation that never comes back. */
module Owners {
  import opened Prelude
  import opened Handles
  import Selection
  import Dispositions

  datatype Access = Unavailable | BatchOwned | Retained

  /** A token is named by its registry and its number there. */
  datatype TokenRef = TokenRef(tracker: nat, id: nat)

  datatype SlotInfo = SlotInfo(token: TokenRef, receiveOrder: nat)

  datatype OwnerError =
    | TooLargeBatch | ReceiveOrderViolation | BatchAlreadyLive | GenerationExhausted
    | BatchReleased | IndexBounds | AccessRevoked | OutstandingBorrow
    | StaleView | StaleWriter | AlreadyInitialized
    | BatchMismatch | PacketOutOfRange | PacketTerminal
    | WrongProvenance | PoolExhausted | WrongPool | StaleLease | LeaseCompleted | TokenFailure | LeakedRetention
    | CapacityTooLarge | OwnerIdentityExhausted

  /** The owner's private state; tables hold their used prefix. */
  datatype Owner = Owner(
    identity: U64, nextGeneration: nat, liveGeneration: nat,
    slots: seq<SlotInfo>, access: seq<Access>, borrowed: seq<bool>,
    nextWriter: nat, writerGeneration: nat, writerBatch: nat, writer: Dispositions.WriterState)

  function NewOwner(identity: U64): Owner {
    Owner(identity, 0, 0, [], [], [], 0, 0, 0, Dispositions.Opened(0))
  }

  // ---- Generations ------------------------------------------------------------------------

  predicate InReceiveOrder(slots: seq<SlotInfo>) {
    forall i :: 0 < i < |slots| ==> slots[i - 1].receiveOrder < slots[i].receiveOrder
  }

  function BeginCheck(o: Owner, slots: seq<SlotInfo>): Result<(), OwnerError> {
    if o.liveGeneration != 0 then Err(BatchAlreadyLive)
    else if |slots| > Selection.MAX_BATCH then Err(TooLargeBatch)
    else if !InReceiveOrder(slots) then Err(ReceiveOrderViolation)
    else if o.nextGeneration == MAX_GENERATION then Err(GenerationExhausted)
    else Ok(())
  }

  /** A new generation: every slot batch-owned, nothing borrowed, no writer yet. */
  function Begun(o: Owner, slots: seq<SlotInfo>): Owner {
    o.(nextGeneration := o.nextGeneration + 1, liveGeneration := o.nextGeneration + 1,
       slots := slots, access := seq(|slots|, _ => BatchOwned), borrowed := seq(|slots|, _ => false),
       writerGeneration := 0, writerBatch := 0, writer := Dispositions.Opened(0))
  }

  function LiveCheck(o: Owner, h: Handle): Result<(), OwnerError> {
    if Identity(h) == 0 || o.identity != Identity(h) then Err(BatchReleased)
    else if Tag(h) == 0 || o.liveGeneration != Tag(h) then Err(BatchReleased) else Ok(())
  }

  function SlotCheck(o: Owner, index: nat): Result<(), OwnerError>
    requires |o.access| == |o.slots|
  {
    if index >= |o.slots| then Err(IndexBounds)
    else if !o.access[index].BatchOwned? then Err(AccessRevoked) else Ok(())
  }

  /** Views, editors and output handles are minted alike. */
  function Mint(o: Owner, h: Handle, index: nat): Result<Handle, OwnerError>
    requires |o.access| == |o.slots| <= 64
  {
    if LiveCheck(o, h).Err? then Err(LiveCheck(o, h).error)
    else if SlotCheck(o, index).Err? then Err(SlotCheck(o, index).error)
    else Ok(Encode(o.identity, IndexTag(Tag(h), index)))
  }

  /** The slot a view reaches, or why it reaches none. */
  function ViewCheck(o: Owner, v: Handle): Result<nat, OwnerError>
    requires |o.access| == |o.slots|
  {
    if Identity(v) == 0 || o.identity != Identity(v) then Err(StaleView)
    else if TagGeneration(Tag(v)) == 0 || o.liveGeneration != TagGeneration(Tag(v)) then Err(StaleView)
    else if TagIndex(Tag(v)) >= |o.slots| then Err(StaleView)
    else if !o.access[TagIndex(Tag(v))].BatchOwned? then Err(AccessRevoked)
    else Ok(TagIndex(Tag(v)))
  }

  function WriterCheck(o: Owner, w: Handle): Result<(), OwnerError> {
    if Identity(w) == 0 || o.identity != Identity(w) then Err(StaleWriter)
    else if Tag(w) == 0 || o.writerGeneration != Tag(w) then Err(StaleWriter)
    else if o.liveGeneration == 0 || o.writerBatch != o.liveGeneration then Err(StaleWriter)
    else Ok(())
  }

  function OpenWriterCheck(o: Owner, h: Handle): Result<(), OwnerError> {
    if LiveCheck(o, h).Err? then LiveCheck(o, h)
    else if o.writerGeneration != 0 then Err(AlreadyInitialized)
    else if o.nextWriter == U64_MAX then Err(GenerationExhausted) else Ok(())
  }

  function WriterOpened(o: Owner): Owner
    requires |o.slots| <= Selection.MAX_BATCH
  {
    o.(nextWriter := o.nextWriter + 1, writerGeneration := o.nextWriter + 1,
       writerBatch := o.liveGeneration, writer := Dispositions.Opened(|o.slots|))
  }

  // ---- What every reachable owner keeps ------------------------------------------------------

  ghost predicate OwnerValid(o: Owner) {
    && o.identity != 0 && o.nextGeneration <= MAX_GENERATION
    && (o.liveGeneration == 0 || o.liveGeneration == o.nextGeneration)
    && |o.access| == |o.borrowed| == |o.slots| <= Selection.MAX_BATCH
    && o.writerGeneration <= o.nextWriter <= U64_MAX && o.writerBatch <= o.nextGeneration
    && (o.writerGeneration != 0 ==> o.writerBatch != 0)
    && Dispositions.Tracks(o.writer)
    && (o.writerGeneration != 0 && o.writerBatch == o.liveGeneration ==> o.writer.batchLen == |o.slots|)
  }

  /** What the batch's user, its adapters and its pools can do to an owner. */
  datatype OwnerOp =
    | Begin(slots: seq<SlotInfo>)
    | Invalidate(batch: Handle)
    | Borrow(view: Handle)
    | OpenWriter(batch: Handle)
    | Write(writer: Handle, op: Dispositions.WriterOp)
    | Revoke(index: nat)

  function Step(o: Owner, op: OwnerOp): Owner
    requires |o.access| == |o.borrowed| == |o.slots| <= Selection.MAX_BATCH && |o.writer.values| == 64
  {
    match op
    case Begin(slots) => if BeginCheck(o, slots).Ok? then Begun(o, slots) else o
    case Invalidate(h) => if LiveCheck(o, h).Ok? then o.(liveGeneration := 0) else o
    case Borrow(v) => if ViewCheck(o, v).Ok? then o.(borrowed := o.borrowed[ViewCheck(o, v).value := true]) else o
    case OpenWriter(h) => if OpenWriterCheck(o, h).Ok? then WriterOpened(o) else o
    case Write(w, op) => if WriterCheck(o, w).Ok? then o.(writer := Dispositions.Step(o.writer, op).0) else o
    case Revoke(i) => if i < |o.access| then o.(access := o.access[i := Retained]) else o
  }

  lemma StepIsValid(o: Owner, op: OwnerOp)
    requires OwnerValid(o)
    ensures OwnerValid(Step(o, op))
  {
    Dispositions.OpenedTracks(0);
    match op
    case OpenWriter(_) => Dispositions.OpenedTracks(|o.slots|);
    case Write(w, op) =>
      Dispositions.StepTracks(o.writer, op);
      SameBatchLen(o.writer, op);
    case _ =>
  }

  lemma SameBatchLen(w: Dispositions.WriterState, op: Dispositions.WriterOp)
    requires |w.values| == 64
    ensures Dispositions.Step(w, op).0.batchLen == w.batchLen
  {
  }

  ghost function Run(o: Owner, ops: seq<OwnerOp>): (r: Owner)
    requires OwnerValid(o)
    ensures OwnerValid(r)
  {
    if ops == [] then o
    else
      var before := Run(o, ops[..|ops| - 1]);
      StepIsValid(before, ops[|ops| - 1]);
      Step(before, ops[|ops| - 1])
  }

  // ---- Stale handles ----------------------------------------------------------------------------

  /** Generation `g` of this owner is over. */
  predicate Ended(o: Owner, g: nat) {
    g <= o.nextGeneration && o.liveGeneration != g
  }

  lemma StepCounts(o: Owner, op: OwnerOp)
    requires OwnerValid(o)
    ensures var r := Step(o, op);
            && r.identity == o.identity && r.nextGeneration >= o.nextGeneration && r.nextWriter >= o.nextWriter
            && (r.liveGeneration == o.liveGeneration || r.liveGeneration == 0 || r.liveGeneration > o.nextGeneration)
            && ((r.writerGeneration == o.writerGeneration && r.writerBatch == o.writerBatch)
                || (r.writerGeneration == 0 && r.liveGeneration > o.nextGeneration)
                || (r.writerGeneration > o.nextWriter && o.writerGeneration == 0
                    && r.writerBatch == o.liveGeneration && r.liveGeneration == o.liveGeneration))
  {
    hide Dispositions.Tracks, Dispositions.Opened, Dispositions.Step;
  }

  /** No later generation is an ended one: generations never come back, through exhaustion. */
  lemma {:induction false} EndedForever(o: Owner, g: nat, ops: seq<OwnerOp>)
    requires OwnerValid(o) && Ended(o, g) && g != 0
    ensures Ended(Run(o, ops), g) && Run(o, ops).identity == o.identity
            && Run(o, ops).nextGeneration >= o.nextGeneration
  {
    hide Step, OwnerValid;
    if ops != [] {
      EndedForever(o, g, ops[..|ops| - 1]);
      StepCounts(Run(o, ops[..|ops| - 1]), ops[|ops| - 1]);
    }
  }

  /** The identity stays, generation counters only grow. */
  lemma {:induction false} CountersGrow(o: Owner, ops: seq<OwnerOp>)
    requires OwnerValid(o)
    ensures var r := Run(o, ops);
            r.identity == o.identity && r.nextGeneration >= o.nextGeneration && r.nextWriter >= o.nextWriter
  {
    hide Step, OwnerValid;
    if ops != [] {
      CountersGrow(o, ops[..|ops| - 1]);
      StepCounts(Run(o, ops[..|ops| - 1]), ops[|ops| - 1]);
    }
  }

  /** A batch handle minted by `begin` is accepted by its owner exactly while
      that generation is live, and by no other owner. */
  lemma BatchHandleLives(o: Owner, slots: seq<SlotInfo>, ops: seq<OwnerOp>, other: Owner)
    requires OwnerValid(o) && BeginCheck(o, slots).Ok? && other.identity != o.identity
    ensures OwnerValid(Begun(o, slots))
    ensures var h := Encode(o.identity, o.nextGeneration + 1);
            && (LiveCheck(Run(Begun(o, slots), ops), h).Ok? <==>
                Run(Begun(o, slots), ops).liveGeneration == o.nextGeneration + 1)
            && LiveCheck(other, h).Err?
  {
    StepIsValid(o, Begin(slots));
    var g := o.nextGeneration + 1;
    HandleBijection(o.identity, g, 0);
    CountersGrow(Begun(o, slots), ops);
  }

  /** A batch handle of an ended generation is refused in every later state. */
  lemma BatchHandleDies(o: Owner, g: nat, ops: seq<OwnerOp>)
    requires OwnerValid(o) && Ended(o, g) && 0 < g
    ensures g <= MAX_GENERATION && LiveCheck(Run(o, ops), Encode(o.identity, g)) == Err(BatchReleased)
  {
    EndedForever(o, g, ops);
    HandleBijection(o.identity, g, 0);
  }

  /** A view, editor, output or iterator handle reaches exactly the slot it was
      minted for while its generation is live and the slot is batch-owned;
      afterwards nothing, and nothing in another owner ever. */
  lemma ViewHandleLives(o: Owner, h: Handle, index: nat, ops: seq<OwnerOp>, other: Owner)
    requires OwnerValid(o) && OwnerValid(other) && other.identity != o.identity && Mint(o, h, index).Ok?
    ensures var v, t := Mint(o, h, index).value, Run(o, ops);
            && (ViewCheck(t, v).Ok? <==> t.liveGeneration == o.liveGeneration && index < |t.slots|
                                         && t.access[index].BatchOwned?)
            && (ViewCheck(t, v).Ok? ==> ViewCheck(t, v).value == index)
            && ViewCheck(other, v) == Err(StaleView)
  {
    var g := o.liveGeneration;
    HandleBijection(o.identity, IndexTag(g, index), 0);
    TagBijection(g, index, 0);
    CountersGrow(o, ops);
  }

  lemma ViewHandleDies(o: Owner, g: nat, index: nat, ops: seq<OwnerOp>)
    requires OwnerValid(o) && Ended(o, g) && 0 < g && index < 256
    ensures g <= MAX_GENERATION && ViewCheck(Run(o, ops), Encode(o.identity, IndexTag(g, index))) == Err(StaleView)
  {
    EndedForever(o, g, ops);
    HandleBijection(o.identity, IndexTag(g, index), 0);
    TagBijection(g, index, 0);
  }

  /** Writer generation `d` was opened for batch generation `g`. */
  predicate WriterOf(o: Owner, d: nat, g: nat) {
    0 < d <= o.nextWriter && (o.writerGeneration == d ==> o.writerBatch == g)
  }

  lemma {:induction false} WriterHandleDies(o: Owner, d: nat, g: nat, ops: seq<OwnerOp>)
    requires OwnerValid(o) && WriterOf(o, d, g) && Ended(o, g) && 0 < g
    ensures WriterOf(Run(o, ops), d, g) && Ended(Run(o, ops), g) && Run(o, ops).identity == o.identity
    ensures d <= U64_MAX && WriterCheck(Run(o, ops), Encode(o.identity, d)) == Err(StaleWriter)
  {
    HandleBijection(o.identity, d, 0);
    ValidCounts(o);
    hide Step, OwnerValid;
    if ops != [] {
      WriterHandleDies(o, d, g, ops[..|ops| - 1]);
      StepCounts(Run(o, ops[..|ops| - 1]), ops[|ops| - 1]);
    }
  }

  lemma ValidCounts(o: Owner)
    requires OwnerValid(o)
    ensures o.nextGeneration <= MAX_GENERATION && o.writerGeneration <= o.nextWriter <= U64_MAX
    ensures o.identity != 0 && (o.liveGeneration == 0 || o.liveGeneration == o.nextGeneration)
  {
  }

  /** A writer handle is accepted by its owner while its batch is live, and by no other owner. */
  lemma {:induction false} WriterHandleLives(o: Owner, h: Handle, ops: seq<OwnerOp>, other: Owner)
    requires OwnerValid(o) && OpenWriterCheck(o, h).Ok? && other.identity != o.identity
    ensures OwnerValid(WriterOpened(o))
    ensures var t := Run(WriterOpened(o), ops);
            && t.identity == o.identity && o.nextWriter < t.nextWriter <= U64_MAX
               && t.nextGeneration >= o.nextGeneration
            && (t.writerGeneration == o.nextWriter + 1 ==> t.writerBatch == o.liveGeneration)
            && (t.liveGeneration == o.liveGeneration ==> t.writerGeneration == o.nextWriter + 1)
            && (WriterCheck(t, Encode(o.identity, o.nextWriter + 1)).Ok? <==> t.liveGeneration == o.liveGeneration)
            && WriterCheck(other, Encode(o.identity, o.nextWriter + 1)) == Err(StaleWriter)
  {
    StepIsValid(o, OpenWriter(h));
    HandleBijection(o.identity, o.nextWriter + 1, 0);
    ValidCounts(o);
    ValidCounts(Run(WriterOpened(o), ops));
    hide Step, OwnerValid;
    if ops != [] {
      WriterHandleLives(o, h, ops[..|ops| - 1], other);
      ValidCounts(Run(WriterOpened(o), ops[..|ops| - 1]));
      StepCounts(Run(WriterOpened(o), ops[..|ops| - 1]), ops[|ops| - 1]);
    }
  }

  /** Once the last generation has been used, no batch ever begins again. */
  lemma ExhaustionIsPermanent(o: Owner, ops: seq<OwnerOp>, slots: seq<SlotInfo>)
    requires OwnerValid(o) && o.nextGeneration == MAX_GENERATION
    ensures BeginCheck(Run(o, ops), slots).Err?
  {
    CountersGrow(o, ops);
  }

  /** Slot access is given only by `begin`: once revoked it stays so while the generation lives. */
  lemma {:induction false} RevokedWhileLive(o: Owner, index: nat, ops: seq<OwnerOp>)
    requires OwnerValid(o) && o.liveGeneration != 0 && index < |o.slots| && o.access[index].Retained?
    ensures var t := Run(o, ops);
            t.liveGeneration == o.liveGeneration ==> index < |t.slots| && t.access[index].Retained?
  {
    hide Dispositions.Step, Dispositions.Opened, Dispositions.Tracks;
    if ops != [] {
      var init := ops[..|ops| - 1];
      RevokedWhileLive(o, index, init);
      CountersGrow(o, init);
      if Run(o, init).liveGeneration != o.liveGeneration {
        EndedForever(Run(o, init), o.liveGeneration, [ops[|ops| - 1]]);
      }
    }
  }

  // ---- When each operation is accepted --------------------------------------------------------

  /** The handle of the live batch, and of its writer. */
  predicate IsLiveHandle(o: Owner, h: Handle) {
    0 < o.liveGeneration < TWO_64 && h == Encode(o.identity, o.liveGeneration)
  }

  predicate IsLiveWriter(o: Owner, w: Handle) {
    && 0 < o.liveGeneration == o.writerBatch && 0 < o.writerGeneration < TWO_64
    && w == Encode(o.identity, o.writerGeneration)
  }

  /** The handle of slot `index` of the live batch. */
  predicate IsLiveView(o: Owner, v: Handle, index: nat) {
    index < 256 && 0 < o.liveGeneration < TWO_56 && v == Encode(o.identity, o.liveGeneration * 256 + index)
  }

  lemma LiveExactly(o: Owner, h: Handle)
    requires OwnerValid(o)
    ensures LiveCheck(o, h).Ok? <==> IsLiveHandle(o, h)
    ensures LiveCheck(o, h).Err? ==> LiveCheck(o, h).error == BatchReleased
  {
    HandleBijection(o.identity, o.liveGeneration, h);
    hide Dispositions.Tracks;
  }

  lemma WriterExactly(o: Owner, w: Handle)
    requires OwnerValid(o)
    ensures WriterCheck(o, w).Ok? <==> IsLiveWriter(o, w)
    ensures WriterCheck(o, w).Err? ==> WriterCheck(o, w).error == StaleWriter
  {
    HandleBijection(o.identity, o.writerGeneration, w);
    hide Dispositions.Tracks;
  }

  lemma ViewExactly(o: Owner, v: Handle)
    requires OwnerValid(o)
    ensures forall i: nat ::
              ViewCheck(o, v) == Ok(i) <==> IsLiveView(o, v, i) && i < |o.slots| && o.access[i].BatchOwned?
    ensures ViewCheck(o, v) == Err(AccessRevoked)
            <==> exists i: nat :: IsLiveView(o, v, i) && i < |o.slots| && !o.access[i].BatchOwned?
  {
    hide IsLiveView, Dispositions.Tracks, Encode, Tag, TagGeneration, TagIndex;
    forall i: nat ensures IsLiveView(o, v, i)
                          <==> i == TagIndex(Tag(v)) && Identity(v) == o.identity
                               && TagGeneration(Tag(v)) == o.liveGeneration != 0
    {
      ViewNames(o, v, i);
    }
  }

  lemma ViewNames(o: Owner, v: Handle, i: nat)
    requires OwnerValid(o)
    ensures IsLiveView(o, v, i) <==> i == TagIndex(Tag(v)) && Identity(v) == o.identity
                                     && TagGeneration(Tag(v)) == o.liveGeneration != 0
  {
    hide Dispositions.Tracks;
    if i < 256 && 0 < o.liveGeneration { HandleBijection(o.identity, o.liveGeneration * 256 + i, v); }
    HandleBijection(0, 0, v);
  }

  /** A batch begins exactly when none is live, it holds at most 64 packets in
      strictly increasing receive order, and a generation is left; then every
      slot can be reached, none is borrowed, and no writer is open yet. */
  lemma BeginAccepted(o: Owner, slots: seq<SlotInfo>)
    requires OwnerValid(o)
    ensures var r := Step(o, Begin(slots));
            if o.liveGeneration == 0 && |slots| <= 64 && o.nextGeneration < 0xff_ffff_ffff_ffff
               && forall i, j :: 0 <= i < j < |slots| ==> slots[i].receiveOrder < slots[j].receiveOrder
            then && r.liveGeneration == r.nextGeneration == o.nextGeneration + 1 && r.slots == slots
                 && (forall i :: 0 <= i < |slots| ==> r.access[i].BatchOwned? && !r.borrowed[i])
                 && (forall w :: WriterCheck(r, w).Err?)
                 && (forall h :: IsLiveHandle(r, h) && r.nextWriter < U64_MAX ==> OpenWriterCheck(r, h).Ok?)
            else r == o && BeginCheck(o, slots).Err?
  {
    StepIsValid(o, Begin(slots));
    var r := Step(o, Begin(slots));
    forall w ensures BeginCheck(o, slots).Ok? ==> WriterCheck(r, w).Err? { WriterExactly(r, w); }
    forall h ensures LiveCheck(r, h).Ok? <==> IsLiveHandle(r, h) { LiveExactly(r, h); }
    hide Dispositions.Tracks, IsLiveWriter, IsLiveHandle, LiveCheck;
    if InReceiveOrder(slots) {
      forall i: nat, j: nat | i < j < |slots| ensures slots[i].receiveOrder < slots[j].receiveOrder {
        OrderSpreads(slots, i, j);
      }
    }
  }

  lemma {:induction false} OrderSpreads(slots: seq<SlotInfo>, i: nat, j: nat)
    requires InReceiveOrder(slots) && i < j < |slots|
    ensures slots[i].receiveOrder < slots[j].receiveOrder
  {
    if i + 1 < j { OrderSpreads(slots, i, j - 1); }
  }

  /** A generation ends exactly through its own handle. */
  lemma EndAccepted(o: Owner, h: Handle)
    requires OwnerValid(o)
    ensures Step(o, Invalidate(h)) == if IsLiveHandle(o, h) then o.(liveGeneration := 0) else o
  {
    LiveExactly(o, h);
  }

  /** A writer opens exactly for the live batch, at most once a generation, while
      writer generations are left; every packet of the batch is then active. */
  lemma WriterAccepted(o: Owner, h: Handle)
    requires OwnerValid(o)
    ensures var r := Step(o, OpenWriter(h));
            if IsLiveHandle(o, h) && o.writerGeneration == 0 && o.nextWriter < U64_MAX
            then && r.writerGeneration == r.nextWriter == o.nextWriter + 1 && r.writerBatch == o.liveGeneration
                 && r.writer.batchLen == |o.slots|
                 && (forall i :: 0 <= i < 64 ==> r.writer.values[i].Continue?)
                 && (forall i: nat :: i in Selection.Members(r.writer.active) <==> i < |o.slots|)
            else r == o && OpenWriterCheck(o, h).Err?
  {
    LiveExactly(o, h);
    Dispositions.OpenedTracks(|o.slots|);
    hide IsLiveHandle, LiveCheck;
  }

  /** A borrow marks exactly the slot its view reaches. */
  lemma BorrowAccepted(o: Owner, v: Handle, index: nat)
    requires OwnerValid(o) && index < |o.slots|
    ensures Step(o, Borrow(v)).borrowed[index]
            <==> o.borrowed[index] || (IsLiveView(o, v, index) && o.access[index].BatchOwned?)
    ensures Step(o, Borrow(v)) == o.(borrowed := Step(o, Borrow(v)).borrowed)
  {
    ViewExactly(o, v);
    hide IsLiveView, Dispositions.Tracks;
  }

  /** A handle to a slot is minted exactly by the live batch, for a slot it still owns. */
  lemma MintAccepted(o: Owner, h: Handle, index: nat)
    requires OwnerValid(o)
    ensures Mint(o, h, index).Ok? <==> IsLiveHandle(o, h) && index < |o.slots| && o.access[index].BatchOwned?
    ensures Mint(o, h, index).Ok? ==> IsLiveView(o, Mint(o, h, index).value, index)
    ensures Mint(o, h, index).Err? ==>
              Mint(o, h, index).error == if !IsLiveHandle(o, h) then BatchReleased
                                         else if index >= |o.slots| then IndexBounds else AccessRevoked
  {
    LiveExactly(o, h);
    if IsLiveHandle(o, h) && index < |o.slots| {
      HandleBijection(o.identity, o.liveGeneration, h);
      PlainTag(o.liveGeneration, index);
    }
    hide Dispositions.Tracks, LiveCheck, Encode, IndexTag;
  }

  lemma PlainTag(g: U64, index: nat)
    requires g < TWO_56 && index < 256
    ensures IndexTag(g, index) == g * 256 + index
  {
  }

  /** How many batches began in a run. */
  ghost function Begins(o: Owner, ops: seq<OwnerOp>): nat
    requires OwnerValid(o)
  {
    if ops == [] then 0 else
    var init, op := ops[..|ops| - 1], ops[|ops| - 1];
    Begins(o, init) + if op.Begin? && BeginCheck(Run(o, init), op.slots).Ok? then 1 else 0
  }

  /** A borrow mark outlives everything but the next accepted begin. */
  lemma {:induction false} BorrowedUntilBegin(o: Owner, index: nat, ops: seq<OwnerOp>)
    requires OwnerValid(o) && index < |o.slots| && o.borrowed[index]
    ensures Run(o, ops).nextGeneration == o.nextGeneration + Begins(o, ops)
    ensures Begins(o, ops) == 0 ==>
              var t := Run(o, ops); t.slots == o.slots && t.borrowed[index] && t.identity == o.identity
  {
    if ops != [] {
      BorrowedUntilBegin(o, index, ops[..|ops| - 1]);
      BorrowStep(Run(o, ops[..|ops| - 1]), ops[|ops| - 1]);
      hide Step, OwnerValid;
    }
  }

  lemma BorrowStep(o: Owner, op: OwnerOp)
    requires OwnerValid(o)
    ensures var r := Step(o, op);
            if op.Begin? && BeginCheck(o, op.slots).Ok? then r.nextGeneration == o.nextGeneration + 1
            else && r.nextGeneration == o.nextGeneration && r.slots == o.slots && r.identity == o.identity
                 && |r.borrowed| == |o.borrowed|
                 && forall i :: 0 <= i < |o.borrowed| && o.borrowed[i] ==> r.borrowed[i]
  {
    hide Dispositions.Tracks, Dispositions.Step, Dispositions.Opened;
  }
}
