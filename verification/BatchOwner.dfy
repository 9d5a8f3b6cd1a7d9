/** The batch owner updated in place: generations, handles, access and the
    disposition writer. Each method is proved to take its step of Owners. */
module BatchOwner {
  import opened Prelude
  import opened Handles
  import opened Owners
  import Selection
  import Dispositions
  import Resolution
  import Allocation = Identity

  class PacketBatchOwner {
    const identity: U64
    var nextGeneration: nat
    var liveGeneration: nat
    var slots: seq<SlotInfo>
    var access: seq<Access>
    var borrowed: seq<bool>
    var nextWriter: nat
    var writerGeneration: nat
    var writerBatch: nat
    const disposition: Dispositions.DispositionWriterState

    ghost predicate Valid()
      reads this, disposition, disposition.values
    {
      disposition.Valid() && OwnerValid(Model())
    }

    ghost function Model(): Owner
      reads this, disposition, disposition.values
    {
      Owner(identity, nextGeneration, liveGeneration, slots, access, borrowed,
            nextWriter, writerGeneration, writerBatch, disposition.Model())
    }

    /** `id` comes from the process-wide allocator, which never yields zero. */
    constructor (id: U64)
      requires id != 0
      ensures Valid() && Model() == NewOwner(id) && fresh(disposition) && fresh(disposition.values)
    {
      identity := id;
      nextGeneration, liveGeneration, slots, access, borrowed := 0, 0, [], [], [];
      nextWriter, writerGeneration, writerBatch := 0, 0, 0;
      disposition := new Dispositions.DispositionWriterState(0);
      new;
      Dispositions.OpenedTracks(0);
    }

    /** Starts a generation, or refuses and changes nothing. */
    method Begin(incoming: seq<SlotInfo>) returns (r: Result<Handle, OwnerError>)
      requires Valid()
      modifies this, disposition, disposition.values
      ensures Valid() && Model() == Step(old(Model()), Owners.Begin(incoming))
      ensures r == match BeginCheck(old(Model()), incoming)
                   case Err(e) => Err(e)
                   case Ok(_) => Ok(Encode(identity, liveGeneration))
    {
      StepIsValid(Model(), Owners.Begin(incoming));
      if liveGeneration != 0 { return Err(BatchAlreadyLive); }
      if |incoming| > Selection.MAX_BATCH { return Err(TooLargeBatch); }
      for i := 0 to |incoming|
        invariant Model() == old(Model())
        invariant forall k :: 0 < k < i ==> incoming[k - 1].receiveOrder < incoming[k].receiveOrder
      {
        if i != 0 && incoming[i].receiveOrder <= incoming[i - 1].receiveOrder { return Err(ReceiveOrderViolation); }
      }
      if nextGeneration == MAX_GENERATION { return Err(GenerationExhausted); }
      nextGeneration := nextGeneration + 1;
      liveGeneration := nextGeneration;
      slots := incoming;
      access := seq(|incoming|, _ => BatchOwned);
      borrowed := seq(|incoming|, _ => false);
      writerGeneration, writerBatch := 0, 0;
      disposition.Reset(0);
      r := Ok(Encode(identity, liveGeneration));
    }

    method EnsureLive(h: Handle) returns (r: Result<(), OwnerError>)
      ensures r == LiveCheck(Model(), h)
    {
      if Identity(h) == 0 || identity != Identity(h) { return Err(BatchReleased); }
      if Tag(h) == 0 || liveGeneration != Tag(h) { return Err(BatchReleased); }
      r := Ok(());
    }

    method EndGeneration(h: Handle) returns (r: Result<(), OwnerError>)
      requires Valid()
      modifies this`liveGeneration
      ensures Valid() && Model() == Step(old(Model()), Invalidate(h)) && r == LiveCheck(old(Model()), h)
    {
      r := EnsureLive(h);
      if r.Ok? { liveGeneration := 0; }
    }

    /** Mints a view, an editor or an output handle for one slot. */
    method View(h: Handle, index: nat) returns (r: Result<Handle, OwnerError>)
      requires Valid()
      ensures r == Mint(Model(), h, index)
    {
      var live := EnsureLive(h);
      if live.Err? { return Err(live.error); }
      if index >= |slots| { return Err(IndexBounds); }
      if access[index] != BatchOwned { return Err(AccessRevoked); }
      r := Ok(Encode(identity, IndexTag(Tag(h), index)));
    }

    method EnsureViewLive(v: Handle) returns (r: Result<nat, OwnerError>)
      requires Valid()
      ensures r == ViewCheck(Model(), v)
    {
      var generation, index := TagGeneration(Tag(v)), TagIndex(Tag(v));
      if Identity(v) == 0 || identity != Identity(v) { return Err(StaleView); }
      if generation == 0 || liveGeneration != generation { return Err(StaleView); }
      if index >= |slots| { return Err(StaleView); }
      if access[index] != BatchOwned { return Err(AccessRevoked); }
      r := Ok(index);
    }

    /** A raw slice or token escapes: the slot can no longer be retained. */
    method MarkBorrowed(v: Handle) returns (r: Result<nat, OwnerError>)
      requires Valid()
      modifies this`borrowed
      ensures Valid() && Model() == Step(old(Model()), Borrow(v)) && r == ViewCheck(old(Model()), v)
    {
      r := EnsureViewLive(v);
      if r.Ok? { borrowed := borrowed[r.value := true]; }
    }

    /** Passes exactly when no slot of the live batch has an escaped borrow. */
    method RequireRevocable(h: Handle) returns (r: Result<(), OwnerError>)
      requires Valid()
      ensures r == if LiveCheck(Model(), h).Err? then LiveCheck(Model(), h)
                   else if true in borrowed then Err(OutstandingBorrow) else Ok(())
    {
      r := EnsureLive(h);
      if r.Err? { return; }
      for i := 0 to |borrowed|
        invariant true !in borrowed[..i] && |borrowed| == |slots|
      {
        if borrowed[i] { return Err(OutstandingBorrow); }
      }
      assert borrowed[..|borrowed|] == borrowed;
      r := Ok(());
    }

    // ---- Disposition writer -----------------------------------------------------------

    method OpenWriter(h: Handle) returns (r: Result<Handle, OwnerError>)
      requires Valid()
      modifies this, disposition, disposition.values
      ensures Valid() && Model() == Step(old(Model()), Owners.OpenWriter(h))
      ensures r == match OpenWriterCheck(old(Model()), h)
                   case Err(e) => Err(e)
                   case Ok(_) => Ok(Encode(identity, writerGeneration))
    {
      StepIsValid(Model(), Owners.OpenWriter(h));
      var live := EnsureLive(h);
      if live.Err? { return Err(live.error); }
      if writerGeneration != 0 { return Err(AlreadyInitialized); }
      if nextWriter == U64_MAX { return Err(GenerationExhausted); }
      nextWriter := nextWriter + 1;
      writerGeneration, writerBatch := nextWriter, liveGeneration;
      disposition.Reset(|slots|);
      r := Ok(Encode(identity, writerGeneration));
    }

    method CheckedState(w: Handle) returns (r: Result<(), OwnerError>)
      ensures r == WriterCheck(Model(), w)
    {
      if Identity(w) == 0 || identity != Identity(w) { return Err(StaleWriter); }
      if Tag(w) == 0 || writerGeneration != Tag(w) { return Err(StaleWriter); }
      if liveGeneration == 0 || writerBatch != liveGeneration { return Err(StaleWriter); }
      r := Ok(());
    }

    /** Records through a live writer handle; a stale one changes nothing. */
    method SetDisposition(w: Handle, index: nat, d: Dispositions.Disposition)
      returns (r: Result<Dispositions.WriteOutcome, OwnerError>)
      requires Valid()
      modifies disposition, disposition.values
      ensures Valid() && Model() == Step(old(Model()), Write(w, Dispositions.Set(index, d)))
      ensures r == if WriterCheck(old(Model()), w).Err? then Err(WriterCheck(old(Model()), w).error)
                   else Ok(Dispositions.SetStep(old(Model()).writer, index, d).1)
    {
      StepIsValid(Model(), Write(w, Dispositions.Set(index, d)));
      var live := CheckedState(w);
      if live.Err? { return Err(live.error); }
      var outcome := disposition.SetOne(index, d);
      r := Ok(outcome);
    }

    method SetSelection(w: Handle, selected: Selection.Mask, d: Dispositions.Disposition)
      returns (r: Result<Dispositions.WriteOutcome, OwnerError>)
      requires Valid()
      modifies disposition, disposition.values
      ensures Valid() && Model() == Step(old(Model()), Write(w, Dispositions.SetMany(selected, d)))
      ensures r == if WriterCheck(old(Model()), w).Err? then Err(WriterCheck(old(Model()), w).error)
                   else Ok(Dispositions.SetSelectionStep(old(Model()).writer, selected, d).1)
    {
      StepIsValid(Model(), Write(w, Dispositions.SetMany(selected, d)));
      var live := CheckedState(w);
      if live.Err? { return Err(live.error); }
      var outcome := disposition.SetSelection(selected, d);
      r := Ok(outcome);
    }

    /** Resolves every packet of the live batch, or refuses a stale writer. */
    method ResolveBatch(w: Handle, config: Resolution.Config)
      returns (r: Result<Result<Resolution.Groups, Resolution.ConfigError>, OwnerError>)
      requires Valid()
      ensures r.Err? <==> WriterCheck(Model(), w).Err?
      ensures r.Err? ==> r.error == StaleWriter
      ensures r.Ok? ==>
                var values := Model().writer.values[..|slots|];
                if !Resolution.ConfigValid(config) then r.value == Err(Resolution.FirstDefect(config))
                else if forall i :: 0 <= i < |values| ==> Resolution.Routable(values[i], config)
                then r.value.Ok? && Resolution.AsRecorded(r.value.value, values, config)
                else r.value.Err? && exists i :: Resolution.FirstUnroutable(values, config, i, r.value.error)
    {
      var live := CheckedState(w);
      if live.Err? { return Err(live.error); }
      var groups := Resolution.Resolve(disposition.values[..], disposition.batchLen, config);
      hide Resolution.Routable, Resolution.AsRecorded, Resolution.RoutingError;
      r := Ok(groups);
    }
  }

  /** Setup: an owner needs an identity of its own, one the allocator has issued,
      and gets none once every identity has been issued. */
  method MakeOwner(identity: Option<U64>, ghost issued: Allocation.System, ghost initial: nat)
    returns (r: Result<PacketBatchOwner, OwnerError>)
    requires Allocation.Consistent(issued, initial)
    requires if identity.Some? then Allocation.Issued(issued, identity.value) else issued.counter == U64_MAX
    ensures r.Ok? ==> fresh(r.value) && r.value.Valid() && r.value.Model() == NewOwner(r.value.identity)
    ensures r.Ok? ==> Allocation.Issued(issued, r.value.identity) && initial < r.value.identity <= issued.counter
    ensures r.Err? ==> r.error == OwnerIdentityExhausted && issued.counter == U64_MAX
    ensures r.Ok? <==> identity.Some?
  {
    if identity.None? { return Err(OwnerIdentityExhausted); }
    Allocation.MintedIsBounded(issued, initial, identity.value);
    var owner := new PacketBatchOwner(identity.value);
    r := Ok(owner);
  }
}
