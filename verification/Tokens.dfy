/** Adapter tokens: who owns each received packet, and exact completion counts. */
module Tokens {
  import opened Prelude

  datatype TokenState = InputOwned | WorkerOwned | OutputOwned | Retained | ReturnedToInput | Completed {
    predicate Final() { Completed? || ReturnedToInput? }
    predicate Outstanding() { WorkerOwned? || OutputOwned? || Retained? }
  }

  datatype TokenAction = Receive | SubmitOutput | ReturnInput | Retain | CompleteOutput | CompleteRetained

  datatype TokenError = OutOfCapacity | InvalidToken | InvalidTransition | AlreadyCompleted | MissingCompletion

  function Transitioned(state: TokenState, action: TokenAction): Result<TokenState, TokenError> {
    if state.Final() then Err(AlreadyCompleted) else
    match (action, state)
    case (Receive, InputOwned) => Ok(WorkerOwned)
    case (SubmitOutput, WorkerOwned) => Ok(OutputOwned)
    case (ReturnInput, WorkerOwned) => Ok(ReturnedToInput)
    case (Retain, WorkerOwned) => Ok(Retained)
    case (CompleteOutput, OutputOwned) => Ok(Completed)
    case (CompleteRetained, Retained) => Ok(Completed)
    case _ => Err(InvalidTransition)
  }

  // ---- The tracker as a value --------------------------------------------------------

  datatype Tracker = Tracker(states: seq<TokenState>, capacity: nat, received: nat, finalCompletions: nat)

  datatype TokenOp = Register | Apply(id: nat, action: TokenAction)

  function Step(t: Tracker, op: TokenOp): (Tracker, Result<(), TokenError>) {
    match op
    case Register =>
      if |t.states| == t.capacity || |t.states| > 0xffff_ffff then (t, Err(OutOfCapacity))
      else (t.(states := t.states + [InputOwned]), Ok(()))
    case Apply(id, action) =>
      if id >= |t.states| then (t, Err(InvalidToken)) else
      match Transitioned(t.states[id], action)
      case Err(e) => (t, Err(e))
      case Ok(next) =>
        (t.(states := t.states[id := next],
            received := t.received + if action == Receive then 1 else 0,
            finalCompletions := t.finalCompletions + if next.Final() then 1 else 0), Ok(()))
  }

  /** The shutdown check: nothing outstanding, then the closing count comparison. */
  ghost function Verdict(t: Tracker): Result<(), TokenError> {
    if exists i :: 0 <= i < |t.states| && t.states[i].Outstanding() then Err(MissingCompletion)
    else if t.finalCompletions != t.received then Err(MissingCompletion) else Ok(())
  }

  // ---- Counting ------------------------------------------------------------------------

  function NotInput(states: seq<TokenState>): nat {
    if states == [] then 0 else NotInput(states[..|states| - 1]) + if states[|states| - 1].InputOwned? then 0 else 1
  }

  function Finals(states: seq<TokenState>): nat {
    if states == [] then 0 else Finals(states[..|states| - 1]) + if states[|states| - 1].Final() then 1 else 0
  }

  lemma {:induction false} CountUpdate(states: seq<TokenState>, i: nat, x: TokenState)
    requires i < |states|
    ensures NotInput(states[i := x]) + (if states[i].InputOwned? then 0 else 1)
            == NotInput(states) + if x.InputOwned? then 0 else 1
    ensures Finals(states[i := x]) + (if states[i].Final() then 1 else 0) == Finals(states) + if x.Final() then 1 else 0
  {
    var n := |states| - 1;
    if i == n {
      assert states[i := x][..n] == states[..n];
    } else {
      CountUpdate(states[..n], i, x);
      assert states[i := x][..n] == states[..n][i := x];
    }
  }

  /** Settled tokens are counted alike by both counts. */
  lemma {:induction false} SettledCounts(states: seq<TokenState>)
    ensures Finals(states) <= NotInput(states) <= |states|
    ensures Finals(states) == NotInput(states) <==> forall i :: 0 <= i < |states| ==> !states[i].Outstanding()
  {
    if states != [] {
      var init := states[..|states| - 1];
      SettledCounts(init);
      assert forall i :: 0 <= i < |init| ==> init[i] == states[i];
    }
  }

  /** `received` counts the tokens that left the input, `finalCompletions` those that ended. */
  ghost predicate Exact(t: Tracker) {
    && |t.states| <= t.capacity
    && t.received == NotInput(t.states) && t.finalCompletions == Finals(t.states)
  }

  lemma StepIsExact(t: Tracker, op: TokenOp)
    requires Exact(t)
    ensures Exact(Step(t, op).0)
  {
    match op
    case Register =>
      assert (t.states + [InputOwned])[..|t.states|] == t.states;
    case Apply(id, action) =>
      if id < |t.states| && Transitioned(t.states[id], action).Ok? {
        CountUpdate(t.states, id, Transitioned(t.states[id], action).value);
      }
  }

  /** A token is registered exactly while the table has room and 32-bit numbers
      are left; it gets the next number and belongs to the input. */
  lemma RegisterAccepted(t: Tracker)
    requires Exact(t)
    ensures Step(t, Register).1 == if |t.states| < t.capacity && |t.states| < 0x1_0000_0000 then Ok(())
                                   else Err(OutOfCapacity)
    ensures Step(t, Register).0.states == if Step(t, Register).1.Ok? then t.states + [InputOwned] else t.states
  {
  }

  // ---- Whole runs ----------------------------------------------------------------------

  function Empty(capacity: nat): Tracker { Tracker([], capacity, 0, 0) }

  function Run(capacity: nat, ops: seq<TokenOp>): Tracker {
    if ops == [] then Empty(capacity) else Step(Run(capacity, ops[..|ops| - 1]), ops[|ops| - 1]).0
  }

  /** How often token `id` was successfully received, and ended, in a run. */
  function Receives(capacity: nat, ops: seq<TokenOp>, id: nat): nat {
    if ops == [] then 0 else
    var init, op := ops[..|ops| - 1], ops[|ops| - 1];
    Receives(capacity, init, id) + if op == Apply(id, Receive) && Step(Run(capacity, init), op).1.Ok? then 1 else 0
  }

  function Ends(capacity: nat, ops: seq<TokenOp>, id: nat): nat {
    if ops == [] then 0 else
    var init, op := ops[..|ops| - 1], ops[|ops| - 1];
    Ends(capacity, init, id)
    + if op.Apply? && op.id == id && op.action in {ReturnInput, CompleteOutput, CompleteRetained}
         && Step(Run(capacity, init), op).1.Ok? then 1 else 0
  }

  /** In every run the counters are exact, and the shutdown check passes exactly
      when no token is outstanding: its closing comparison never decides. */
  lemma {:induction false} AccountingIsExact(capacity: nat, ops: seq<TokenOp>)
    ensures var t := Run(capacity, ops);
            && Exact(t)
            && (Verdict(t).Ok? <==> forall i :: 0 <= i < |t.states| ==> !t.states[i].Outstanding())
            && (t.received == t.finalCompletions <==> Verdict(t).Ok?)
  {
    if ops != [] {
      AccountingIsExact(capacity, ops[..|ops| - 1]);
      StepIsExact(Run(capacity, ops[..|ops| - 1]), ops[|ops| - 1]);
    }
    SettledCounts(Run(capacity, ops).states);
  }

  /** No token is received twice or ended twice, and its history is its state:
      one receipt once it left the input, one ending once it is final. */
  lemma {:induction false} HistoryIsState(capacity: nat, ops: seq<TokenOp>, id: nat)
    ensures var t := Run(capacity, ops);
            && Receives(capacity, ops, id) == (if id < |t.states| && !t.states[id].InputOwned? then 1 else 0)
            && Ends(capacity, ops, id) == (if id < |t.states| && t.states[id].Final() then 1 else 0)
  {
    if ops != [] {
      HistoryIsState(capacity, ops[..|ops| - 1], id);
    }
  }

  // ---- The life of one token -------------------------------------------------------------

  /** The actions accepted for token `id` in a run, in order. */
  function History(capacity: nat, ops: seq<TokenOp>, id: nat): seq<TokenAction> {
    if ops == [] then [] else
    var init, op := ops[..|ops| - 1], ops[|ops| - 1];
    History(capacity, init, id)
    + if op.Apply? && op.id == id && Step(Run(capacity, init), op).1.Ok? then [op.action] else []
  }

  const TO_OUTPUT: seq<TokenAction> := [Receive, SubmitOutput, CompleteOutput]
  const TO_INPUT: seq<TokenAction> := [Receive, ReturnInput]
  const TO_POOL: seq<TokenAction> := [Receive, Retain, CompleteRetained]

  /** A token is received, then sent out and completed, or returned, or retained and completed. */
  predicate Permitted(h: seq<TokenAction>) {
    h <= TO_OUTPUT || h <= TO_INPUT || h <= TO_POOL
  }

  predicate Ended(h: seq<TokenAction>) {
    h == TO_OUTPUT || h == TO_INPUT || h == TO_POOL
  }

  /** Who owns a token with this history. */
  function OwnerAfter(h: seq<TokenAction>): TokenState {
    if h == [] then InputOwned else
    match h[|h| - 1]
    case Receive => WorkerOwned
    case SubmitOutput => OutputOwned
    case ReturnInput => ReturnedToInput
    case Retain => Retained
    case CompleteOutput => Completed
    case CompleteRetained => Completed
  }

  /** One more action is accepted exactly when the history stays permitted. */
  lemma ActionPermitted(h: seq<TokenAction>, action: TokenAction)
    requires Permitted(h)
    ensures Transitioned(OwnerAfter(h), action).Ok? <==> Permitted(h + [action])
    ensures Permitted(h + [action]) ==> Transitioned(OwnerAfter(h), action).value == OwnerAfter(h + [action])
    ensures !Permitted(h + [action]) ==>
              Transitioned(OwnerAfter(h), action).error == if Ended(h) then AlreadyCompleted else InvalidTransition
  {
    var t := h + [action];
    PermittedCases(h);
    PermittedCases(t);
    assert t[..|h|] == h && t[|h|] == action;
    hide Permitted;
  }

  lemma PermittedCases(h: seq<TokenAction>)
    ensures Permitted(h) <==>
            || h == [] || h == [Receive]
            || h == [Receive, SubmitOutput] || h == [Receive, SubmitOutput, CompleteOutput]
            || h == [Receive, ReturnInput]
            || h == [Receive, Retain] || h == [Receive, Retain, CompleteRetained]
  {
    if |h| == 1 {
      assert h == [h[0]];
    } else if |h| == 2 {
      assert h == [h[0], h[1]];
    } else if |h| == 3 {
      assert h == [h[0], h[1], h[2]];
    }
  }

  /** The tracker holds token `id` where the history leaves it. */
  predicate Follows(t: Tracker, h: seq<TokenAction>, id: nat) {
    Permitted(h) && (id < |t.states| ==> t.states[id] == OwnerAfter(h)) && (id >= |t.states| ==> h == [])
  }

  /** In every run the history of every token is permitted, its state is where
      the history left it, and its next action is accepted exactly when that
      keeps the history permitted: every completed output was submitted, every
      submitted token can be completed, and nothing follows an ending. */
  lemma {:induction false} HistoriesArePermitted(capacity: nat, ops: seq<TokenOp>, id: nat, action: TokenAction)
    ensures var t, h := Run(capacity, ops), History(capacity, ops, id);
            && Follows(t, h, id)
            && Step(t, Apply(id, action)).1
               == if id >= |t.states| then Err(InvalidToken)
                  else if Permitted(h + [action]) then Ok(())
                  else Err(if Ended(h) then AlreadyCompleted else InvalidTransition)
  {
    hide Permitted, Ended, OwnerAfter, Transitioned, Step, Follows;
    if ops == [] {
      NothingFollows(capacity, id);
    } else {
      var init, op := ops[..|ops| - 1], ops[|ops| - 1];
      HistoriesArePermitted(capacity, init, id, action);
      FollowsStep(Run(capacity, init), History(capacity, init, id), op, id);
    }
    HistoryActs(Run(capacity, ops), History(capacity, ops, id), id, action);
  }

  lemma NothingFollows(capacity: nat, id: nat)
    ensures Follows(Empty(capacity), [], id)
  {
  }

  lemma FollowsStep(t: Tracker, h: seq<TokenAction>, op: TokenOp, id: nat)
    requires Follows(t, h, id)
    ensures Follows(Step(t, op).0, h + if op.Apply? && op.id == id && Step(t, op).1.Ok? then [op.action] else [], id)
  {
    assert h + [] == h;
    if op.Apply? { ActionPermitted(h, op.action); }
    hide Permitted, Transitioned, Ended;
  }

  lemma HistoryActs(t: Tracker, h: seq<TokenAction>, id: nat, action: TokenAction)
    requires Follows(t, h, id)
    ensures Step(t, Apply(id, action)).1
            == if id >= |t.states| then Err(InvalidToken)
               else if Permitted(h + [action]) then Ok(())
               else Err(if Ended(h) then AlreadyCompleted else InvalidTransition)
  {
    ActionPermitted(h, action);
  }

  // ---- The tracker in place --------------------------------------------------------------

  /** Single-adapter token registry. */
  class TokenTracker {
    const states: array<TokenState>
    var registered: nat
    var received: nat
    var finalCompletions: nat

    ghost predicate Valid()
      reads this
    {
      registered <= states.Length
    }

    ghost function Model(): Tracker
      requires Valid()
      reads this, states
    {
      Tracker(states[..registered], states.Length, received, finalCompletions)
    }

    constructor (capacity: nat)
      ensures Valid() && fresh(states) && Model() == Empty(capacity)
    {
      states := new TokenState[capacity](_ => InputOwned);
      registered, received, finalCompletions := 0, 0, 0;
    }

    method RegisterInput() returns (r: Result<nat, TokenError>)
      requires Valid()
      modifies this, states
      ensures Valid() && Model() == Step(old(Model()), Register).0
      ensures r == if Step(old(Model()), Register).1.Ok? then Ok(old(registered)) else Err(OutOfCapacity)
    {
      if registered == states.Length || registered > 0xffff_ffff { return Err(OutOfCapacity); }
      states[registered] := InputOwned;
      registered := registered + 1;
      r := Ok(registered - 1);
    }

    method ApplyAction(id: nat, action: TokenAction) returns (r: Result<(), TokenError>)
      requires Valid()
      modifies this, states
      ensures Valid() && (Model(), r) == Step(old(Model()), Apply(id, action))
    {
      if id >= registered { return Err(InvalidToken); }
      var next := Transitioned(states[id], action);
      if next.Err? { return Err(next.error); }
      states[id] := next.value;
      if action == Receive { received := received + 1; }
      if next.value.Final() { finalCompletions := finalCompletions + 1; }
      r := Ok(());
    }

    method VerifyReceivedCompleted() returns (r: Result<(), TokenError>)
      requires Valid()
      ensures r == Verdict(Model())
    {
      for i := 0 to registered
        invariant Valid() && registered <= states.Length
        invariant forall k :: 0 <= k < i ==> !states[k].Outstanding()
      {
        if states[i].Outstanding() {
          assert Model().states[i].Outstanding();
          return Err(MissingCompletion);
        }
      }
      if finalCompletions != received { return Err(MissingCompletion); }
      r := Ok(());
    }
  }
}
