/** Invocation identities under concurrency: any number of threads allocate from
    one counter by a weak compare-exchange loop, and each keeps its own active
    record. Steps of different threads interleave freely and a compare-exchange
    may fail spuriously. Owner and pool identities use the same loop. */
module Identity {
  import opened Prelude

  datatype IdentityError = InvocationAlreadyActive | InvocationInactive | InvocationExhausted | DescriptorMismatch

  /** The call a thread has in progress. `Loaded` holds the last value it saw. */
  datatype Call = Idle | Entered(context: nat) | Loaded(context: nat, current: nat)

  datatype Active = Active(cookie: nat, context: nat)

  datatype Thread = Thread(call: Call, active: Option<Active>)

  /** A cookie minted on a thread for a context type. */
  datatype Mint = Mint(thread: nat, cookie: nat, context: nat)

  /** The shared counter, the threads, and the history of mints and ends. */
  datatype System = System(counter: nat, threads: seq<Thread>, minted: seq<Mint>, ended: set<nat>)

  datatype Action =
    | Begin(context: nat)
    | Load
    | CompareExchange(spurious: bool)
    | End(cookie: nat)

  datatype Event = Event(thread: nat, action: Action)

  // ---- Steps ---------------------------------------------------------------------------

  function With(s: System, t: nat, thread: Thread): System
    requires t < |s.threads|
  {
    s.(threads := s.threads[t := thread])
  }

  /** One attempt of the loop: give up at the last value, otherwise try to move
      the counter; a failure, spurious or not, reloads what was observed. */
  function Attempt(s: System, t: nat, spurious: bool): (System, Result<nat, IdentityError>)
    requires t < |s.threads| && s.threads[t].call.Loaded?
  {
    var thread := s.threads[t];
    var current := thread.call.current;
    if current == U64_MAX then
      (With(s, t, thread.(call := Idle)), Err(InvocationExhausted))
    else if spurious || s.counter != current then
      (With(s, t, thread.(call := Loaded(thread.call.context, s.counter))), Ok(0))
    else
      var next := current + 1;
      var context := thread.call.context;
      (System(next, s.threads[t := Thread(Idle, Some(Active(next, context)))],
              s.minted + [Mint(t, next, context)], s.ended), Ok(next))
  }

  function EndCheck(thread: Thread, cookie: nat): Result<(), IdentityError> {
    if thread.active.None? then Err(InvocationInactive)
    else if cookie == 0 || thread.active.value.cookie != cookie then Err(InvocationInactive) else Ok(())
  }

  /** A thread runs one call at a time; an action it cannot take now changes nothing. */
  function Step(s: System, e: Event): System {
    if e.thread >= |s.threads| then s else
    var t, thread := e.thread, s.threads[e.thread];
    match e.action
    case Begin(context) =>
      if !thread.call.Idle? || thread.active.Some? then s else With(s, t, thread.(call := Entered(context)))
    case Load =>
      if !thread.call.Entered? then s else With(s, t, thread.(call := Loaded(thread.call.context, s.counter)))
    case CompareExchange(spurious) =>
      if !thread.call.Loaded? then s else Attempt(s, t, spurious).0
    case End(cookie) =>
      if !thread.call.Idle? || EndCheck(thread, cookie).Err? then s
      else With(s, t, thread.(active := None)).(ended := s.ended + {cookie})
  }

  /** What `authenticate` answers on thread `t`. */
  function Authenticate(s: System, t: nat, context: nat, cookie: nat): Result<(), IdentityError>
    requires t < |s.threads|
  {
    if s.threads[t].active.None? then Err(InvocationInactive) else
    var a := s.threads[t].active.value;
    if cookie == 0 || a.cookie != cookie then Err(InvocationInactive)
    else if a.context != context then Err(DescriptorMismatch) else Ok(())
  }

  function Start(initial: nat, threads: nat): System {
    System(initial, seq(threads, _ => Thread(Idle, None)), [], {})
  }

  function Run(initial: nat, threads: nat, events: seq<Event>): System {
    if events == [] then Start(initial, threads)
    else Step(Run(initial, threads, events[..|events| - 1]), events[|events| - 1])
  }

  // ---- What every interleaving keeps -----------------------------------------------------

  /** Issued cookies exactly fill the values after the initial one, in order. */
  ghost predicate Filled(s: System, initial: nat) {
    && s.counter <= U64_MAX && |s.minted| == s.counter - initial && s.counter >= initial
    && forall i :: 0 <= i < |s.minted| ==> s.minted[i].cookie == initial + 1 + i
  }

  ghost predicate Issued(s: System, cookie: nat) {
    exists m :: m in s.minted && m.cookie == cookie
  }

  /** A thread holds exactly the cookie minted on it and not yet ended. */
  ghost predicate HoldsMinted(s: System) {
    && (forall m :: m in s.minted ==> m.thread < |s.threads|)
    && (forall t, k, c :: 0 <= t < |s.threads| ==>
          (s.threads[t].active == Some(Active(k, c)) <==> Mint(t, k, c) in s.minted && k !in s.ended))
    && (forall k :: k in s.ended ==> Issued(s, k))
  }

  ghost predicate Consistent(s: System, initial: nat) {
    && Filled(s, initial) && HoldsMinted(s)
    && (forall t :: 0 <= t < |s.threads| && !s.threads[t].call.Idle? ==> s.threads[t].active.None?)
    && (forall t :: 0 <= t < |s.threads| && s.threads[t].call.Loaded? ==> s.threads[t].call.current <= s.counter)
  }

  /** A cookie names one mint. */
  lemma OneMint(s: System, initial: nat, a: Mint, b: Mint)
    requires Filled(s, initial) && a in s.minted && b in s.minted && a.cookie == b.cookie
    ensures a == b
  {
    var i :| 0 <= i < |s.minted| && s.minted[i] == a;
    var j :| 0 <= j < |s.minted| && s.minted[j] == b;
  }

  lemma MintedIsBounded(s: System, initial: nat, k: nat)
    requires Consistent(s, initial)
    ensures Issued(s, k) ==> initial < k <= s.counter
    ensures k in s.ended ==> initial < k <= s.counter
  {
  }

  lemma MintKeeps(s: System, initial: nat, t: nat)
    requires Consistent(s, initial) && t < |s.threads| && s.threads[t].call.Loaded?
    requires s.threads[t].call.current == s.counter < U64_MAX
    ensures Consistent(Attempt(s, t, false).0, initial)
  {
    var r := Attempt(s, t, false).0;
    var k, c := s.counter + 1, s.threads[t].call.context;
    MintedIsBounded(s, initial, k);
    assert Mint(t, k, c) in r.minted;
    forall u, x, y | 0 <= u < |r.threads|
      ensures r.threads[u].active == Some(Active(x, y)) <==> Mint(u, x, y) in r.minted && x !in r.ended
    {
      assert Mint(u, x, y) in r.minted <==> Mint(u, x, y) in s.minted || Mint(u, x, y) == Mint(t, k, c);
      assert s.threads[u].active == Some(Active(x, y)) <==> Mint(u, x, y) in s.minted && x !in s.ended;
    }
    forall x | x in r.ended ensures Issued(r, x) {
      var m :| m in s.minted && m.cookie == x;
      assert m in r.minted;
    }
  }

  lemma EndKeeps(s: System, initial: nat, t: nat, cookie: nat)
    requires Consistent(s, initial) && t < |s.threads| && s.threads[t].call.Idle? && EndCheck(s.threads[t], cookie).Ok?
    ensures Consistent(Step(s, Event(t, End(cookie))), initial)
  {
    var r, a := Step(s, Event(t, End(cookie))), s.threads[t].active.value;
    assert Mint(t, cookie, a.context) in s.minted;
    forall u, x, y | 0 <= u < |r.threads|
      ensures r.threads[u].active == Some(Active(x, y)) <==> Mint(u, x, y) in r.minted && x !in r.ended
    {
      assert s.threads[u].active == Some(Active(x, y)) <==> Mint(u, x, y) in s.minted && x !in s.ended;
      if x == cookie && Mint(u, x, y) in s.minted { OneMint(s, initial, Mint(u, x, y), Mint(t, cookie, a.context)); }
    }
  }

  lemma StepIsConsistent(s: System, initial: nat, e: Event)
    requires Consistent(s, initial)
    ensures Consistent(Step(s, e), initial)
  {
    if e.thread < |s.threads| {
      var thread := s.threads[e.thread];
      match e.action
      case CompareExchange(spurious) =>
        if thread.call.Loaded? && !spurious && thread.call.current == s.counter && s.counter < U64_MAX {
          MintKeeps(s, initial, e.thread);
        } else {
          CallKeeps(s, initial, e);
        }
      case End(cookie) =>
        if thread.call.Idle? && EndCheck(thread, cookie).Ok? { EndKeeps(s, initial, e.thread, cookie); }
      case _ => CallKeeps(s, initial, e);
    }
  }

  /** Steps that only move a call along. */
  lemma CallKeeps(s: System, initial: nat, e: Event)
    requires Consistent(s, initial) && !e.action.End?
    requires var r := Step(s, e); r.minted == s.minted && r.ended == s.ended && r.counter == s.counter
    ensures Consistent(Step(s, e), initial)
  {
    var r := Step(s, e);
    forall u, x, y | 0 <= u < |r.threads|
      ensures r.threads[u].active == Some(Active(x, y)) <==> Mint(u, x, y) in r.minted && x !in r.ended
    {
      assert r.threads[u].active == s.threads[u].active;
    }
  }

  lemma {:induction false} RunIsConsistent(initial: nat, threads: nat, events: seq<Event>)
    requires initial <= U64_MAX
    ensures Consistent(Run(initial, threads, events), initial) && |Run(initial, threads, events).threads| == threads
  {
    if events != [] {
      RunIsConsistent(initial, threads, events[..|events| - 1]);
      StepIsConsistent(Run(initial, threads, events[..|events| - 1]), initial, events[|events| - 1]);
    }
  }

  // ---- Theorems ------------------------------------------------------------------------------

  /** Over every interleaving the issued cookies are distinct, nonzero and
      exactly fill the values from the initial one to the counter. */
  lemma IssuedExactlyFill(initial: nat, threads: nat, events: seq<Event>)
    requires initial <= U64_MAX
    ensures var s := Run(initial, threads, events);
            && initial <= s.counter <= U64_MAX
            && (forall i, j :: 0 <= i < j < |s.minted| ==> s.minted[i].cookie != s.minted[j].cookie)
            && (forall k: nat :: Issued(s, k) <==> initial < k <= s.counter)
  {
    RunIsConsistent(initial, threads, events);
    var s := Run(initial, threads, events);
    forall k: nat ensures Issued(s, k) <==> initial < k <= s.counter {
      MintedIsBounded(s, initial, k);
      if initial < k <= s.counter {
        assert s.minted[k - initial - 1] in s.minted && s.minted[k - initial - 1].cookie == k;
      }
    }
  }

  /** A cookie authenticates exactly on the thread it was minted on, for its
      exact context, and while it has not been ended. */
  lemma AuthenticatesExactly(initial: nat, threads: nat, events: seq<Event>, t: nat, context: nat, cookie: nat)
    requires initial <= U64_MAX && t < threads
    ensures var s := Run(initial, threads, events);
            && t < |s.threads|
            && (Authenticate(s, t, context, cookie).Ok? <==> Mint(t, cookie, context) in s.minted && cookie !in s.ended)
  {
    RunIsConsistent(initial, threads, events);
    var s := Run(initial, threads, events);
    MintedIsBounded(s, initial, cookie);
    assert s.threads[t].active == Some(Active(cookie, context))
           <==> Mint(t, cookie, context) in s.minted && cookie !in s.ended;
    if Mint(t, cookie, context) in s.minted { assert cookie != 0; }
  }

  /** Histories only grow. */
  lemma {:induction false} HistoryGrows(initial: nat, threads: nat, events: seq<Event>, more: seq<Event>)
    ensures var (s, r) := (Run(initial, threads, events), Run(initial, threads, events + more));
            s.minted <= r.minted && s.ended <= r.ended && s.counter <= r.counter
  {
    if more == [] {
      assert events + more == events;
    } else {
      HistoryGrows(initial, threads, events, more[..|more| - 1]);
      assert (events + more)[..|events + more| - 1] == events + more[..|more| - 1];
    }
  }

  /** A successful `end` finishes its cookie for good: no later authentication
      succeeds with it, on any thread, for any context. */
  lemma EndedNeverAgain(initial: nat, threads: nat, events: seq<Event>, t: nat, cookie: nat, more: seq<Event>, u: nat,
                        context: nat)
    requires initial <= U64_MAX && t < threads && u < threads
    requires |Run(initial, threads, events).threads| == threads && Run(initial, threads, events).threads[t].call.Idle?
    requires EndCheck(Run(initial, threads, events).threads[t], cookie).Ok?
    ensures var s := Run(initial, threads, events + [Event(t, End(cookie))] + more);
            |s.threads| == threads && Authenticate(s, u, context, cookie).Err?
  {
    var ending := events + [Event(t, End(cookie))];
    RunStep(initial, threads, events, Event(t, End(cookie)));
    HistoryGrows(initial, threads, ending, more);
    RunIsConsistent(initial, threads, ending + more);
    AuthenticatesExactly(initial, threads, ending + more, u, context, cookie);
  }

  /** Exhaustion is permanent: at the last value no step ever mints again. */
  lemma {:induction false} ExhaustedForever(initial: nat, threads: nat, events: seq<Event>, more: seq<Event>)
    requires initial <= U64_MAX && Run(initial, threads, events).counter == U64_MAX
    ensures Run(initial, threads, events + more).counter == U64_MAX
    ensures Run(initial, threads, events + more).minted == Run(initial, threads, events).minted
  {
    if more == [] {
      assert events + more == events;
    } else {
      ExhaustedForever(initial, threads, events, more[..|more| - 1]);
      assert (events + more)[..|events + more| - 1] == events + more[..|more| - 1];
    }
  }

  /** Thread `t` has just seen the counter: its next compare-exchange expects this value. */
  predicate Observed(s: System, t: nat) {
    t < |s.threads| && s.threads[t].call.Loaded? && s.threads[t].call.current == s.counter
  }

  /** The load of an entered call observes the counter, and so does an attempt
      that did not mint and did not give up. */
  lemma StepObserves(s: System, t: nat, spurious: bool)
    requires t < |s.threads|
    ensures s.threads[t].call.Entered? ==> Observed(Step(s, Event(t, Load)), t)
    ensures s.threads[t].call.Loaded? && s.threads[t].call.current < U64_MAX ==>
              var r := Step(s, Event(t, CompareExchange(spurious)));
              if r.minted == s.minted then Observed(r, t)
                else r.minted == s.minted + [Mint(t, r.counter, s.threads[t].call.context)]
  {
  }

  /** Steps of other threads leave a thread alone and mint only for themselves. */
  lemma OthersStep(s: System, e: Event, t: nat)
    requires t < |s.threads| && e.thread != t
    ensures var r := Step(s, e);
            && |r.threads| == |s.threads| && r.threads[t] == s.threads[t]
            && (r.minted == s.minted || exists k, c :: r.minted == s.minted + [Mint(e.thread, k, c)])
  {
  }

  /** A compare-exchange that fails without a spurious failure lost to another
      thread. Between the observation of `t` and its attempt, whatever the other
      threads did: every mint since is another thread's, and the attempt mints
      if and only if there was none. */
  lemma {:induction false} FailureMeansOthersMinted(initial: nat, threads: nat, events: seq<Event>, more: seq<Event>,
                                                    t: nat)
    requires initial <= U64_MAX && t < threads
    requires var s := Run(initial, threads, events); Observed(s, t) && s.counter < U64_MAX
    requires forall i :: 0 <= i < |more| ==> more[i].thread != t
    ensures var (s, r) := (Run(initial, threads, events), Run(initial, threads, events + more));
            && |r.threads| == |s.threads| && r.threads[t] == s.threads[t] && s.minted <= r.minted
            && (forall i :: |s.minted| <= i < |r.minted| ==> r.minted[i].thread != t)
            && (r.minted == s.minted <==>
                Step(r, Event(t, CompareExchange(false))).minted
                == r.minted + [Mint(t, s.counter + 1, s.threads[t].call.context)])
            && (r.minted != s.minted <==> Observed(Step(r, Event(t, CompareExchange(false))), t))
    decreases |more|
  {
    hide Step, HoldsMinted;
    var s := Run(initial, threads, events);
    RunIsConsistent(initial, threads, events);
    RunIsConsistent(initial, threads, events + more);
    hide Consistent, Filled, Observed;
    if more == [] {
      assert events + more == events;
    } else {
      var init, last := more[..|more| - 1], more[|more| - 1];
      FailureMeansOthersMinted(initial, threads, events, init, t);
      assert (events + more)[..|events + more| - 1] == events + init;
      OthersStep(Run(initial, threads, events + init), last, t);
    }
    Attempted(s, Run(initial, threads, events + more), initial, t);
  }

  /** In particular an attempt that fails after a load, without a spurious failure,
      was overtaken: some other thread minted between the two. */
  lemma FailedLoadWasOvertaken(initial: nat, threads: nat, events: seq<Event>, more: seq<Event>, t: nat)
    requires initial <= U64_MAX && t < threads
    requires var s := Run(initial, threads, events);
             |s.threads| == threads && s.threads[t].call.Entered? && s.counter < U64_MAX
    requires forall i :: 0 <= i < |more| ==> more[i].thread != t
    requires var r := Run(initial, threads, events + [Event(t, Load)] + more);
             |r.threads| == threads && Step(r, Event(t, CompareExchange(false))).minted == r.minted
    ensures var (s, r) := (Run(initial, threads, events), Run(initial, threads, events + [Event(t, Load)] + more));
            |s.minted| < |r.minted| && forall i :: |s.minted| <= i < |r.minted| ==> r.minted[i].thread != t
  {
    RunStep(initial, threads, events, Event(t, Load));
    StepObserves(Run(initial, threads, events), t, false);
    FailureMeansOthersMinted(initial, threads, events + [Event(t, Load)], more, t);
  }

  /** The attempt mints exactly when the counter has not moved, which is when nothing was minted. */
  lemma Attempted(s: System, r: System, initial: nat, t: nat)
    requires Observed(s, t) && s.counter < U64_MAX && t < |r.threads| && r.threads[t] == s.threads[t]
    requires s.minted <= r.minted && Consistent(s, initial) && Consistent(r, initial)
    ensures r.minted == s.minted <==>
            Step(r, Event(t, CompareExchange(false))).minted == r.minted
              + [Mint(t, s.counter + 1, s.threads[t].call.context)]
    ensures r.minted != s.minted <==> Observed(Step(r, Event(t, CompareExchange(false))), t)
  {
    assert r.minted == s.minted <==> |r.minted| == |s.minted|;
  }

  /** An invocation ends exactly on the thread that holds its cookie; no other
      thread and no issued identity is touched. */
  lemma EndsExactly(initial: nat, threads: nat, events: seq<Event>, t: nat, cookie: nat)
    requires initial <= U64_MAX && t < threads
    ensures var s := Run(initial, threads, events);
            var r := Step(s, Event(t, End(cookie)));
            && |s.threads| == threads && r.minted == s.minted && r.counter == s.counter
            && if s.threads[t].call.Idle? && exists c :: s.threads[t].active == Some(Active(cookie, c))
               then && r.ended == s.ended + {cookie} && cookie !in s.ended
                    && r.threads == s.threads[t := Thread(Idle, None)]
               else r == s
  {
    RunIsConsistent(initial, threads, events);
    EndNames(Run(initial, threads, events), initial, t, cookie);
    hide Run, Consistent;
  }

  lemma EndNames(s: System, initial: nat, t: nat, cookie: nat)
    requires Consistent(s, initial) && t < |s.threads|
    ensures EndCheck(s.threads[t], cookie).Ok? <==> exists c :: s.threads[t].active == Some(Active(cookie, c))
    ensures EndCheck(s.threads[t], cookie).Ok? ==> cookie !in s.ended
  {
    if s.threads[t].active.Some? {
      var a := s.threads[t].active.value;
      assert Mint(t, a.cookie, a.context) in s.minted && a.cookie !in s.ended;
      assert Issued(s, a.cookie);
      MintedIsBounded(s, initial, a.cookie);
    }
  }

  /** A thread left alone begins in three steps: its cookie is the next value and authenticates. */
  lemma SoloBegins(initial: nat, threads: nat, events: seq<Event>, t: nat, context: nat)
    requires initial <= U64_MAX && t < threads
    requires var s := Run(initial, threads, events);
             |s.threads| == threads && s.threads[t] == Thread(Idle, None) && s.counter < U64_MAX
    ensures var (s, r) := (Run(initial, threads, events),
              Run(initial, threads, events + [Event(t, Begin(context)), Event(t, Load),
                                              Event(t, CompareExchange(false))]));
            && |r.threads| == threads && r.counter == s.counter + 1
               && r.minted == s.minted + [Mint(t, r.counter, context)]
            && Authenticate(r, t, context, r.counter).Ok?
  {
    hide Step, Authenticate;
    var a, b, c := Event(t, Begin(context)), Event(t, Load), Event(t, CompareExchange(false));
    SoloSteps(Run(initial, threads, events), t, context);
    RunStep(initial, threads, events, a);
    RunStep(initial, threads, events + [a], b);
    RunStep(initial, threads, events + [a] + [b], c);
    assert events + [a] + [b] + [c] == events + [a, b, c];
  }

  lemma SoloSteps(s: System, t: nat, context: nat)
    requires t < |s.threads| && s.threads[t] == Thread(Idle, None) && s.counter < U64_MAX
    ensures var r := Step(Step(Step(s, Event(t, Begin(context))), Event(t, Load)), Event(t, CompareExchange(false)));
            && |r.threads| == |s.threads| && r.counter == s.counter + 1
               && r.minted == s.minted + [Mint(t, r.counter, context)]
            && Authenticate(r, t, context, r.counter).Ok?
  {
  }

  lemma RunStep(initial: nat, threads: nat, events: seq<Event>, e: Event)
    ensures Run(initial, threads, events + [e]) == Step(Run(initial, threads, events), e)
  {
    assert (events + [e])[..|events|] == events;
  }
}
