/** Recording one outcome per packet: an active mask kept in step with an array
    of dispositions. */
module Dispositions {
  import opened Prelude
  import opened Handles
  import opened Selection

  /** What becomes of one packet. Outputs, reasons and completions are stable numeric ids. */
  datatype Disposition =
    | Continue
    | Accept(output: Option<nat>)
    | Drop(reason: Option<nat>)
    | Redirect(to: nat, metadata: Option<nat>)
    | Retain(lease: Handle)
    | Complete(id: nat)
  {
    predicate IsTerminal() { !Continue? }
  }

  datatype WriteError =
    | OutOfRange | EmptySelection | StaleSelection | NotTerminal | AlreadyTerminal
    | BatchTooLarge | RetentionRequiresBinding

  // ---- The writer state as a value ------------------------------------------------------

  datatype WriterState = WriterState(batchLen: nat, active: Mask, values: seq<Disposition>)

  function Untouched(): seq<Disposition> { seq(64, _ => Continue) }

  /** Every packet of the batch starts active. */
  function Opened(batchLen: nat): WriterState
    requires batchLen <= MAX_BATCH
  {
    WriterState(batchLen, All(batchLen).value, Untouched())
  }

  function Assigned(values: seq<Disposition>, m: Mask, d: Disposition): (r: seq<Disposition>)
    ensures |r| == |values|
    ensures forall i :: 0 <= i < |values| ==> r[i] == if Bit(m, i) then d else values[i]
  {
    seq(|values|, i requires 0 <= i < |values| => if Bit(m, i) then d else values[i])
  }

  type WriteOutcome = Result<(), WriteError>

  function SetSelectionStep(w: WriterState, selected: Mask, d: Disposition): (WriterState, WriteOutcome) {
    if !d.IsTerminal() then (w, Err(NotTerminal))
    else if d.Retain? then (w, Err(RetentionRequiresBinding))
    else if All(w.batchLen).Err? then (w, Err(WriteError.BatchTooLarge))
    else if selected == 0 then (w, Err(EmptySelection))
    else if Removed(selected, All(w.batchLen).value) != 0 then (w, Err(WriteError.OutOfRange))
    else if Removed(selected, w.active) != 0 then (w, Err(StaleSelection))
    else (w.(values := Assigned(w.values, selected, d), active := Removed(w.active, selected)), Ok(()))
  }

  function SetStep(w: WriterState, index: nat, d: Disposition): (WriterState, WriteOutcome)
    requires |w.values| == 64
  {
    if !InBatch(index, w.batchLen) then (w, Err(WriteError.OutOfRange))
    else if w.values[index].IsTerminal() then (w, Err(AlreadyTerminal))
    else SetSelectionStep(w, Singleton(index, w.batchLen).value, d)
  }

  /** Recording a lease that binds packet `index`. */
  function RetainStep(w: WriterState, index: nat, lease: Handle): (WriterState, WriteOutcome)
    requires |w.values| == 64
  {
    if !InBatch(index, w.batchLen) then (w, Err(WriteError.OutOfRange))
    else if w.values[index].IsTerminal() then (w, Err(AlreadyTerminal))
    else
      var next := Without(w.active, index, w.batchLen);
      if next.Err? then (w, Err(WriteError.OutOfRange))
      else (w.(values := w.values[index := Retain(lease)], active := next.value), Ok(()))
  }

  // ---- The invariant ----------------------------------------------------------------------

  /** Bit `i` is set exactly when packet `i` of the batch is still `Continue`;
      no bit is at or past the batch length. */
  ghost predicate Tracks(w: WriterState) {
    && w.batchLen <= MAX_BATCH && |w.values| == 64
    && (forall i: nat :: i in Members(w.active) <==> i < w.batchLen && !w.values[i].IsTerminal())
    && (forall i :: w.batchLen <= i < 64 ==> !w.values[i].IsTerminal())
  }

  lemma OpenedTracks(n: nat)
    requires n <= MAX_BATCH
    ensures Tracks(Opened(n))
  {
    assert Exactly(All(n).value, n);
  }

  lemma SetSelectionTracks(w: WriterState, selected: Mask, d: Disposition)
    requires Tracks(w)
    ensures Tracks(SetSelectionStep(w, selected, d).0)
  {
    var next := SetSelectionStep(w, selected, d).0;
    if SetSelectionStep(w, selected, d).1.Ok? {
      PastBatch(selected, All(w.batchLen).value, w.batchLen);
      forall i: nat | i < 64 ensures Bit(selected, i) <==> i in Members(selected) {}
      assert Members(next.active) == Members(w.active) - Members(selected);
    }
  }

  /** Under the invariant a selection write is accepted exactly when it is a
      terminal, unbound outcome for a nonempty set of still active packets. */
  lemma SelectionAccepted(w: WriterState, selected: Mask, d: Disposition)
    requires Tracks(w)
    ensures SetSelectionStep(w, selected, d).1.Ok? <==>
            d.IsTerminal() && !d.Retain? && Members(selected) != {} && Members(selected) <= Members(w.active)
    ensures SetSelectionStep(w, selected, d).1.Ok? ==>
            forall i :: 0 <= i < 64 ==>
              SetSelectionStep(w, selected, d).0.values[i] == if i in Members(selected) then d else w.values[i]
  {
    ZeroIsEmpty(selected);
    PastBatch(selected, All(w.batchLen).value, w.batchLen);
    ZeroIsEmpty(Removed(selected, w.active));
    if Members(selected) <= Members(w.active) {
      assert Members(selected) - Members(w.active) == {};
      forall i | i in Members(selected) ensures i < w.batchLen { assert i in Members(w.active); }
    } else {
      var i :| i in Members(selected) && i !in Members(w.active);
      assert i in Members(selected) - Members(w.active);
    }
  }

  /** One outcome is recorded exactly for a packet of the batch that has none,
      and never a retention; the refusal says which of these fails first. */
  lemma SetAccepted(w: WriterState, index: nat, d: Disposition)
    requires Tracks(w)
    ensures SetStep(w, index, d).1 == if index >= w.batchLen then Err(WriteError.OutOfRange)
                                      else if !w.values[index].Continue? then Err(AlreadyTerminal)
                                      else if d.Continue? then Err(NotTerminal)
                                      else if d.Retain? then Err(RetentionRequiresBinding) else Ok(())
    ensures SetStep(w, index, d).1.Ok? ==>
              && SetStep(w, index, d).0.values == w.values[index := d]
              && Members(SetStep(w, index, d).0.active) == Members(w.active) - {index}
  {
    if InBatch(index, w.batchLen) {
      var m := Singleton(index, w.batchLen).value;
      SelectionAccepted(w, m, d);
      SelectionRefused(w, m, d);
      hide Tracks, Members, SetSelectionStep;
      if SetStep(w, index, d).1.Ok? { SelectionEffect(w, m, d); }
    }
  }

  lemma SelectionEffect(w: WriterState, m: Mask, d: Disposition)
    requires Tracks(w) && SetSelectionStep(w, m, d).1.Ok?
    ensures var r := SetSelectionStep(w, m, d).0;
            && |r.values| == 64 && Members(r.active) == Members(w.active) - Members(m)
            && r.values == Assigned(w.values, m, d)
            && forall i :: 0 <= i < 64 ==> r.values[i] == if i in Members(m) then d else w.values[i]
  {
    SelectionAccepted(w, m, d);
  }

  /** Why a selection write is refused, in the order of the checks. */
  lemma SelectionRefused(w: WriterState, m: Mask, d: Disposition)
    requires Tracks(w)
    ensures SetSelectionStep(w, m, d).1 == if d.Continue? then Err(NotTerminal)
                                           else if d.Retain? then Err(RetentionRequiresBinding)
                                           else if Members(m) == {} then Err(EmptySelection)
                                           else if exists i :: i in Members(m) && i >= w.batchLen
                                           then Err(WriteError.OutOfRange)
                                           else if !(Members(m) <= Members(w.active)) then Err(StaleSelection)
                                           else Ok(())
  {
    SelectionAccepted(w, m, d);
    ZeroIsEmpty(m);
    PastBatch(m, All(w.batchLen).value, w.batchLen);
    ZeroIsEmpty(Removed(m, w.active));
    if Members(m) <= Members(w.active) { assert Members(m) - Members(w.active) == {}; }
  }

  lemma RetainTracks(w: WriterState, index: nat, lease: Handle)
    requires Tracks(w)
    ensures Tracks(RetainStep(w, index, lease).0)
    ensures RetainStep(w, index, lease).1.Ok? <==> index in Members(w.active)
  {
    var next := RetainStep(w, index, lease).0;
    assert Below(w.active, w.batchLen);
    if RetainStep(w, index, lease).1.Ok? {
      assert Members(next.active) == Members(w.active) - {index};
    }
  }

  // ---- Runs of one generation ------------------------------------------------------------

  datatype WriterOp =
    | Set(index: nat, outcome: Disposition)
    | SetMany(selected: Mask, outcome: Disposition)
    | Bind(index: nat, lease: Handle)

  function Step(w: WriterState, op: WriterOp): (WriterState, WriteOutcome)
    requires |w.values| == 64
  {
    match op
    case Set(i, d) => SetStep(w, i, d)
    case SetMany(m, d) => SetSelectionStep(w, m, d)
    case Bind(i, lease) => RetainStep(w, i, lease)
  }

  lemma StepTracks(w: WriterState, op: WriterOp)
    requires Tracks(w)
    ensures Tracks(Step(w, op).0)
  {
    match op
    case Set(i, d) => if InBatch(i, w.batchLen) { SetSelectionTracks(w, Singleton(i, w.batchLen).value, d); }
    case SetMany(m, d) => SetSelectionTracks(w, m, d);
    case Bind(i, lease) => RetainTracks(w, i, lease);
  }

  ghost function Run(n: nat, ops: seq<WriterOp>): (w: WriterState)
    requires n <= MAX_BATCH
    ensures Tracks(w) && w.batchLen == n
  {
    if ops == [] then OpenedTracks(n); Opened(n)
    else
      var before := Run(n, ops[..|ops| - 1]);
      StepTracks(before, ops[|ops| - 1]);
      Step(before, ops[|ops| - 1]).0
  }

  /** A refused write changes nothing; an accepted one leaves every recorded
      outcome as it was and records only on packets that were active. */
  lemma StepKeepsOutcomes(w: WriterState, op: WriterOp)
    requires Tracks(w)
    ensures Step(w, op).1.Err? ==> Step(w, op).0 == w
    ensures forall i :: 0 <= i < 64 && w.values[i].IsTerminal() ==> Step(w, op).0.values[i] == w.values[i]
    ensures Members(Step(w, op).0.active) <= Members(w.active)
    ensures Step(w, op).1.Ok? ==> Members(Step(w, op).0.active) < Members(w.active)
  {
    match op
    case SetMany(m, d) =>
      SelectionAccepted(w, m, d);
      SelectionShrinks(w, m, d);
    case Set(i, d) =>
      if InBatch(i, w.batchLen) {
        SelectionAccepted(w, Singleton(i, w.batchLen).value, d);
        SelectionShrinks(w, Singleton(i, w.batchLen).value, d);
      }
    case Bind(i, lease) => RetainTracks(w, i, lease);
  }

  lemma SelectionShrinks(w: WriterState, m: Mask, d: Disposition)
    requires Tracks(w)
    ensures Members(SetSelectionStep(w, m, d).0.active) <= Members(w.active)
    ensures SetSelectionStep(w, m, d).1.Ok? ==> Members(SetSelectionStep(w, m, d).0.active) < Members(w.active)
  {
    SelectionAccepted(w, m, d);
    if SetSelectionStep(w, m, d).1.Ok? {
      var i :| i in Members(m);
      assert Members(SetSelectionStep(w, m, d).0.active) == Members(w.active) - Members(m);
      assert i in Members(w.active) && i !in Members(w.active) - Members(m);
    }
  }

  /** In every run an outcome once recorded is never overwritten. */
  lemma {:induction false} OutcomesAreFinal(n: nat, ops: seq<WriterOp>, more: seq<WriterOp>, i: nat)
    requires n <= MAX_BATCH && i < 64 && Run(n, ops).values[i].IsTerminal()
    ensures Run(n, ops + more).values[i] == Run(n, ops).values[i]
  {
    hide Step, Tracks, Members;
    if more == [] {
      assert ops + more == ops;
    } else {
      var init := more[..|more| - 1];
      OutcomesAreFinal(n, ops, init, i);
      assert (ops + more)[..|ops + more| - 1] == ops + init;
      StepKeepsOutcomes(Run(n, ops + init), more[|more| - 1]);
    }
  }

  /** How many writes of a run were accepted. */
  ghost function Accepted(n: nat, ops: seq<WriterOp>): nat
    requires n <= MAX_BATCH
  {
    if ops == [] then 0 else
    var init, op := ops[..|ops| - 1], ops[|ops| - 1];
    Accepted(n, init) + if Step(Run(n, init), op).1.Ok? then 1 else 0
  }

  lemma {:induction false} SizeBelow(s: set<nat>, n: nat)
    requires forall i :: i in s ==> i < n
    ensures |s| <= n
  {
    if n == 0 {
      assert s == {};
    } else {
      SizeBelow(s - {n - 1}, n - 1);
      assert s <= (s - {n - 1}) + {n - 1};
    }
  }

  lemma SizeGrows(a: set<nat>, b: set<nat>)
    requires a < b
    ensures |a| < |b|
  {
    assert b == a + (b - a) && b - a != {};
  }

  /** Each accepted write takes at least one packet out of the active ones, so a
      run accepts at most one write per packet that is no longer active. */
  lemma {:induction false} AcceptedBounded(n: nat, ops: seq<WriterOp>)
    requires n <= MAX_BATCH
    ensures Accepted(n, ops) + |Members(Run(n, ops).active)| <= n
  {
    if ops == [] {
      OpenedTracks(n);
      SizeBelow(Members(Opened(n).active), n);
    } else {
      var init, op := ops[..|ops| - 1], ops[|ops| - 1];
      AcceptedBounded(n, init);
      StepKeepsOutcomes(Run(n, init), op);
      hide Step, Members, Tracks;
      if Step(Run(n, init), op).1.Ok? { SizeGrows(Members(Run(n, ops).active), Members(Run(n, init).active)); }
    }
  }

  // ---- The writer state in place ------------------------------------------------------------

  /** Preallocated recorder for one bounded batch. */
  class DispositionWriterState {
    var batchLen: nat
    var active: Mask
    const values: array<Disposition>

    ghost predicate Valid()
      reads this
    {
      values.Length == 64
    }

    ghost function Model(): WriterState
      reads this, values
    {
      WriterState(batchLen, active, values[..])
    }

    constructor (n: nat)
      requires n <= MAX_BATCH
      ensures Valid() && fresh(values) && Model() == Opened(n)
    {
      batchLen, active := n, All(n).value;
      values := new Disposition[64](_ => Continue);
      new;
      assert values[..] == Untouched();
    }

    /** Forgets every outcome and opens a batch of `n` packets. */
    method Reset(n: nat)
      requires Valid() && n <= MAX_BATCH
      modifies this, values
      ensures Valid() && Model() == Opened(n)
    {
      batchLen, active := n, All(n).value;
      forall i | 0 <= i < 64 { values[i] := Continue; }
      assert values[..] == Untouched();
    }

    /** Records one binding made by a pool. */
    method Bind(index: nat, next: Mask, lease: Handle)
      requires Valid() && index < 64
      modifies this, values
      ensures Valid() && Model() == old(Model()).(values := old(values[..])[index := Retain(lease)], active := next)
    {
      values[index] := Retain(lease);
      active := next;
    }

    method SetSelection(selected: Mask, d: Disposition) returns (r: WriteOutcome)
      requires Valid()
      modifies this, values
      ensures Valid() && (Model(), r) == SetSelectionStep(old(Model()), selected, d)
    {
      if !d.IsTerminal() { return Err(NotTerminal); }
      if d.Retain? { return Err(RetentionRequiresBinding); }
      var valid := All(batchLen);
      if valid.Err? { return Err(WriteError.BatchTooLarge); }
      if selected == 0 { return Err(EmptySelection); }
      if Removed(selected, valid.value) != 0 { return Err(WriteError.OutOfRange); }
      if Removed(selected, active) != 0 { return Err(StaleSelection); }
      AssignSelected(selected, d);
      active := Removed(active, selected);
      r := Ok(());
    }

    /** Writes the outcome at every set bit, in ascending order. */
    method AssignSelected(selected: Mask, d: Disposition)
      requires Valid()
      modifies values
      ensures values[..] == Assigned(old(values[..]), selected, d)
    {
      ghost var was := values[..];
      var iterating := new SelectionIterator(selected);
      ghost var pending := selected;
      ZeroIsEmpty(selected);
      var next := iterating.Next();
      while next.Some?
        invariant next.None? ==> Members(pending) == {}
        invariant next.Some? ==> next.value in Members(pending)
                                 && Members(iterating.remaining) == Members(pending) - {next.value}
        invariant Members(pending) <= Members(selected)
        invariant forall k :: 0 <= k < 64 ==>
                    values[k] == if k in Members(selected) && k !in Members(pending) then d else was[k]
        decreases |Members(pending)|
      {
        values[next.value] := d;
        pending := iterating.remaining;
        ZeroIsEmpty(pending);
        next := iterating.Next();
      }
    }

    method SetOne(index: nat, d: Disposition) returns (r: WriteOutcome)
      requires Valid()
      modifies this, values
      ensures Valid() && (Model(), r) == SetStep(old(Model()), index, d)
    {
      if !InBatch(index, batchLen) { return Err(WriteError.OutOfRange); }
      if values[index].IsTerminal() { return Err(AlreadyTerminal); }
      var selected := Singleton(index, batchLen);
      r := SetSelection(selected.value, d);
    }
  }
}
