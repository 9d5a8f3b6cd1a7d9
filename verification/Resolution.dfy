/** End-of-pipeline resolution: every packet of a batch goes to exactly one
    output, drop, completion or retention group, in receive order. */
module Resolution {
  import opened Prelude
  import opened Handles
  import opened Dispositions
  import Selection

  const MAX_OUTPUTS: nat := 16

  datatype ContinuePolicy = AcceptLeft(output: Option<nat>) | DropLeft(reason: Option<nat>) | CompleteLeft(id: nat)

  datatype ConfigError = TooManyOutputs | DuplicateOutput | UnknownOutput | MissingDefaultOutput

  datatype Config = Config(outputs: seq<nat>, defaultOutput: Option<nat>, policy: ContinuePolicy)

  // ---- Configuration ---------------------------------------------------------------------

  ghost predicate Distinct(outputs: seq<nat>) {
    forall i, j :: 0 <= i < j < |outputs| ==> outputs[i] != outputs[j]
  }

  /** The output a leftover packet would be accepted to, when the policy accepts. */
  function Leftover(config: Config): Option<nat>
    requires config.policy.AcceptLeft?
  {
    if config.policy.output.Some? then config.policy.output else config.defaultOutput
  }

  /** What the routing table must satisfy. */
  ghost predicate ConfigValid(config: Config) {
    && |config.outputs| <= MAX_OUTPUTS && Distinct(config.outputs)
    && (config.defaultOutput.Some? ==> config.defaultOutput.value in config.outputs)
    && (config.policy.AcceptLeft? ==>
          if config.policy.output.Some? then config.policy.output.value in config.outputs
          else config.defaultOutput.Some?)
  }

  /** The defect reported for an invalid table. */
  ghost function FirstDefect(config: Config): ConfigError {
    if |config.outputs| > MAX_OUTPUTS then TooManyOutputs
    else if !Distinct(config.outputs) then DuplicateOutput
    else if config.defaultOutput.Some? && config.defaultOutput.value !in config.outputs then UnknownOutput
    else if config.policy.AcceptLeft? && config.policy.output.None? && config.defaultOutput.None?
    then MissingDefaultOutput
    else UnknownOutput
  }

  method ContainsOutput(outputs: seq<nat>, output: nat) returns (found: bool)
    ensures found <==> output in outputs
  {
    for i := 0 to |outputs|
      invariant output !in outputs[..i]
    {
      if outputs[i] == output { return true; }
    }
    found := false;
  }

  /** Accepts exactly the valid routing tables; the error names the first defect. */
  method Validate(config: Config) returns (r: Result<(), ConfigError>)
    ensures r.Ok? <==> ConfigValid(config)
    ensures r.Err? ==> r.error == FirstDefect(config)
  {
    if |config.outputs| > MAX_OUTPUTS { return Err(TooManyOutputs); }
    for i := 0 to |config.outputs|
      invariant Distinct(config.outputs[..i])
    {
      for j := 0 to i
        invariant config.outputs[i] !in config.outputs[..j]
      {
        if config.outputs[j] == config.outputs[i] { return Err(DuplicateOutput); }
      }
    }
    assert config.outputs[..|config.outputs|] == config.outputs;
    if config.defaultOutput.Some? {
      var known := ContainsOutput(config.outputs, config.defaultOutput.value);
      if !known { return Err(UnknownOutput); }
    }
    if config.policy.AcceptLeft? {
      var output := Leftover(config);
      if output.None? { return Err(MissingDefaultOutput); }
      var known := ContainsOutput(config.outputs, output.value);
      if !known { return Err(UnknownOutput); }
    }
    r := Ok(());
  }

  // ---- Where one packet goes ------------------------------------------------------------

  datatype Destination =
    | ToOutput(group: nat, metadata: Option<nat>)
    | ToDrop(reason: Option<nat>)
    | ToCompletion(id: nat)
    | ToRetention(lease: Handle)

  /** A leftover packet takes the policy's outcome. */
  function Settled(d: Disposition, config: Config): (r: Disposition)
    ensures !r.Continue? && (!d.Continue? ==> r == d)
  {
    if !d.Continue? then d else
    match config.policy
    case AcceptLeft(output) => Accept(output)
    case DropLeft(reason) => Drop(reason)
    case CompleteLeft(id) => Complete(id)
  }

  function GroupOf(outputs: seq<nat>, output: nat): Result<nat, ConfigError> {
    if outputs == [] then Err(UnknownOutput)
    else if outputs[0] == output then Ok(0)
    else var rest := GroupOf(outputs[1..], output); if rest.Err? then rest else Ok(rest.value + 1)
  }

  lemma {:induction false} GroupIsFirst(outputs: seq<nat>, output: nat)
    ensures GroupOf(outputs, output).Ok? <==> output in outputs
    ensures GroupOf(outputs, output).Err? ==> GroupOf(outputs, output).error == UnknownOutput
    ensures var g := GroupOf(outputs, output);
            g.Ok? ==> g.value < |outputs| && outputs[g.value] == output && output !in outputs[..g.value]
  {
    if outputs != [] && outputs[0] != output {
      GroupIsFirst(outputs[1..], output);
      var g := GroupOf(outputs[1..], output);
      if g.Ok? { assert outputs[..g.value + 1] == [outputs[0]] + outputs[1..][..g.value]; }
    }
  }

  function DestinationOf(d: Disposition, config: Config): Result<Destination, ConfigError> {
    var s := Settled(d, config);
    if s.Accept? then
      var chosen := if s.output.Some? then s.output else config.defaultOutput;
      if chosen.None? then Err(MissingDefaultOutput) else
      var g := GroupOf(config.outputs, chosen.value);
      if g.Err? then Err(g.error) else Ok(ToOutput(g.value, None))
    else if s.Redirect? then
      var g := GroupOf(config.outputs, s.to);
      if g.Err? then Err(g.error) else Ok(ToOutput(g.value, s.metadata))
    else if s.Drop? then Ok(ToDrop(s.reason))
    else if s.Complete? then Ok(ToCompletion(s.id))
    else Ok(ToRetention(s.lease))
  }

  // ---- Groups ------------------------------------------------------------------------------

  datatype OutputItem = OutputItem(index: nat, metadata: Option<nat>)
  datatype OutputGroup = OutputGroup(output: nat, items: seq<OutputItem>)
  datatype DropItem = DropItem(index: nat, reason: Option<nat>)
  datatype CompletionItem = CompletionItem(index: nat, id: nat)
  datatype RetentionItem = RetentionItem(index: nat, lease: Handle)

  datatype Groups = Groups(outputs: seq<OutputGroup>, drops: seq<DropItem>,
                           completions: seq<CompletionItem>, retentions: seq<RetentionItem>)

  function EmptyGroups(outputs: seq<nat>): (g: Groups)
    ensures |g.outputs| == |outputs|
  {
    Groups(seq(|outputs|, i requires 0 <= i < |outputs| => OutputGroup(outputs[i], [])), [], [], [])
  }

  /** Packet `index` put at the end of its group. */
  function Placed(g: Groups, index: nat, d: Destination): (r: Groups)
    ensures |r.outputs| == |g.outputs|
  {
    match d
    case ToOutput(k, metadata) =>
      if k >= |g.outputs| then g else
      g.(outputs := g.outputs[k := g.outputs[k].(items := g.outputs[k].items + [OutputItem(index, metadata)])])
    case ToDrop(reason) => g.(drops := g.drops + [DropItem(index, reason)])
    case ToCompletion(id) => g.(completions := g.completions + [CompletionItem(index, id)])
    case ToRetention(lease) => g.(retentions := g.retentions + [RetentionItem(index, lease)])
  }

  /** The first `n` packets distributed in receive order. */
  function Distributed(outputs: seq<nat>, ds: seq<Destination>): (g: Groups)
    ensures |g.outputs| == |outputs|
  {
    if ds == [] then EmptyGroups(outputs)
    else Placed(Distributed(outputs, ds[..|ds| - 1]), |ds| - 1, ds[|ds| - 1])
  }

  // ---- The partition ---------------------------------------------------------------------

  function Held(groups: seq<OutputGroup>): nat {
    if groups == [] then 0 else Held(groups[..|groups| - 1]) + |groups[|groups| - 1].items|
  }

  /** How many packets the groups hold together. */
  function Total(g: Groups): nat {
    Held(g.outputs) + |g.drops| + |g.completions| + |g.retentions|
  }

  /** Every group lists, in strictly ascending order, exactly the packets bound
      for it, with what was recorded for them. */
  ghost predicate Sorted(g: Groups, ds: seq<Destination>) {
    && (forall k :: 0 <= k < |g.outputs| ==> OutputSorted(g.outputs[k].items, ds, k))
    && (forall i, j :: 0 <= i < j < |g.drops| ==> g.drops[i].index < g.drops[j].index)
    && (forall i: nat, v :: DropItem(i, v) in g.drops <==> i < |ds| && ds[i] == ToDrop(v))
    && (forall i, j :: 0 <= i < j < |g.completions| ==> g.completions[i].index < g.completions[j].index)
    && (forall i: nat, v :: CompletionItem(i, v) in g.completions <==> i < |ds| && ds[i] == ToCompletion(v))
    && (forall i, j :: 0 <= i < j < |g.retentions| ==> g.retentions[i].index < g.retentions[j].index)
    && (forall i: nat, v :: RetentionItem(i, v) in g.retentions <==> i < |ds| && ds[i] == ToRetention(v))
  }

  ghost predicate OutputSorted(items: seq<OutputItem>, ds: seq<Destination>, k: nat) {
    && (forall i, j :: 0 <= i < j < |items| ==> items[i].index < items[j].index)
    && (forall i: nat, v :: OutputItem(i, v) in items <==> i < |ds| && ds[i] == ToOutput(k, v))
  }

  ghost predicate Routed(outputs: seq<nat>, ds: seq<Destination>) {
    forall i :: 0 <= i < |ds| && ds[i].ToOutput? ==> ds[i].group < |outputs|
  }

  lemma {:induction false} HeldUpdate(groups: seq<OutputGroup>, k: nat, item: OutputItem)
    requires k < |groups|
    ensures Held(groups[k := groups[k].(items := groups[k].items + [item])]) == Held(groups) + 1
  {
    var n := |groups| - 1;
    var updated := groups[k := groups[k].(items := groups[k].items + [item])];
    if k == n {
      assert updated[..n] == groups[..n];
    } else {
      HeldUpdate(groups[..n], k, item);
      assert updated[..n] == groups[..n][k := groups[..n][k].(items := groups[..n][k].items + [item])];
    }
  }

  lemma {:induction false} HeldNone(groups: seq<OutputGroup>)
    requires forall k :: 0 <= k < |groups| ==> groups[k].items == []
    ensures Held(groups) == 0
  {
    if groups != [] { HeldNone(groups[..|groups| - 1]); }
  }

  /** The counts sum to the number of packets. */
  lemma {:induction false} CountsSum(outputs: seq<nat>, ds: seq<Destination>)
    requires Routed(outputs, ds)
    ensures Total(Distributed(outputs, ds)) == |ds|
  {
    if ds == [] {
      HeldNone(EmptyGroups(outputs).outputs);
    } else {
      var init, d := ds[..|ds| - 1], ds[|ds| - 1];
      CountsSum(outputs, init);
      if d.ToOutput? {
        HeldUpdate(Distributed(outputs, init).outputs, d.group, OutputItem(|ds| - 1, d.metadata));
      }
    }
  }

  /** Resolution is an ordered partition. */
  lemma {:induction false} PartitionIsOrdered(outputs: seq<nat>, ds: seq<Destination>)
    requires Routed(outputs, ds)
    ensures Sorted(Distributed(outputs, ds), ds)
    ensures forall k :: 0 <= k < |outputs| ==> Distributed(outputs, ds).outputs[k].output == outputs[k]
  {
    if ds != [] {
      var init, d := ds[..|ds| - 1], ds[|ds| - 1];
      PartitionIsOrdered(outputs, init);
      var before := Distributed(outputs, init);
      assert init + [d] == ds;
      PlacedSorted(before, init, d);
    } else {
      NothingSorted(outputs);
    }
  }

  lemma NothingSorted(outputs: seq<nat>)
    ensures Sorted(EmptyGroups(outputs), [])
  {
    forall k | 0 <= k < |outputs| ensures OutputSorted(EmptyGroups(outputs).outputs[k].items, [], k) {}
  }

  lemma PlacedSorted(before: Groups, init: seq<Destination>, d: Destination)
    requires Sorted(before, init) && (d.ToOutput? ==> d.group < |before.outputs|)
    ensures Sorted(Placed(before, |init|, d), init + [d])
  {
    hide OutputSorted;
    var after := Placed(before, |init|, d);
    forall k | 0 <= k < |after.outputs| ensures OutputSorted(after.outputs[k].items, init + [d], k) {
      OutputPlaced(before.outputs[k].items, after.outputs[k].items, init, d, k);
    }
    OthersPlaced(before, after, init, d);
  }

  lemma OutputPlaced(was: seq<OutputItem>, now: seq<OutputItem>, init: seq<Destination>, d: Destination, k: nat)
    requires OutputSorted(was, init, k)
    requires now == if d.ToOutput? && d.group == k then was + [OutputItem(|init|, d.metadata)] else was
    ensures OutputSorted(now, init + [d], k)
  {
  }

  lemma OthersPlaced(before: Groups, after: Groups, init: seq<Destination>, d: Destination)
    requires Sorted(before, init) && after == Placed(before, |init|, d)
    requires forall k :: 0 <= k < |after.outputs| ==> OutputSorted(after.outputs[k].items, init + [d], k)
    ensures Sorted(after, init + [d])
  {
    hide OutputSorted;
  }

  /** One position in the groups. */
  datatype Place = InOutput(group: nat, at: nat) | InDrops(at: nat) | InCompletions(at: nat) | InRetentions(at: nat)

  ghost predicate At(g: Groups, p: Place, i: nat) {
    match p
    case InOutput(k, at) => k < |g.outputs| && at < |g.outputs[k].items| && g.outputs[k].items[at].index == i
    case InDrops(at) => at < |g.drops| && g.drops[at].index == i
    case InCompletions(at) => at < |g.completions| && g.completions[at].index == i
    case InRetentions(at) => at < |g.retentions| && g.retentions[at].index == i
  }

  /** A position's kind and group are those of the packet it lists. */
  lemma PlaceFollows(g: Groups, ds: seq<Destination>, p: Place, i: nat)
    requires Sorted(g, ds) && At(g, p, i)
    ensures i < |ds|
    ensures match p
            case InOutput(k, _) => ds[i].ToOutput? && ds[i].group == k
            case InDrops(_) => ds[i].ToDrop?
            case InCompletions(_) => ds[i].ToCompletion?
            case InRetentions(_) => ds[i].ToRetention?
  {
    match p
    case InOutput(k, at) =>
      assert OutputSorted(g.outputs[k].items, ds, k);
      var item := g.outputs[k].items[at];
      assert OutputItem(i, item.metadata) in g.outputs[k].items;
    case InDrops(at) => assert DropItem(i, g.drops[at].reason) in g.drops;
    case InCompletions(at) => assert CompletionItem(i, g.completions[at].id) in g.completions;
    case InRetentions(at) => assert RetentionItem(i, g.retentions[at].lease) in g.retentions;
  }

  lemma PlaceExists(g: Groups, ds: seq<Destination>, i: nat) returns (p: Place)
    requires Sorted(g, ds) && i < |ds| && (ds[i].ToOutput? ==> ds[i].group < |g.outputs|)
    ensures At(g, p, i)
  {
    match ds[i]
    case ToOutput(k, metadata) =>
      assert OutputSorted(g.outputs[k].items, ds, k);
      assert OutputItem(i, metadata) in g.outputs[k].items;
      var at :| 0 <= at < |g.outputs[k].items| && g.outputs[k].items[at] == OutputItem(i, metadata);
      p := InOutput(k, at);
    case ToDrop(v) =>
      assert DropItem(i, v) in g.drops;
      var at :| 0 <= at < |g.drops| && g.drops[at] == DropItem(i, v);
      p := InDrops(at);
    case ToCompletion(v) =>
      assert CompletionItem(i, v) in g.completions;
      var at :| 0 <= at < |g.completions| && g.completions[at] == CompletionItem(i, v);
      p := InCompletions(at);
    case ToRetention(v) =>
      assert RetentionItem(i, v) in g.retentions;
      var at :| 0 <= at < |g.retentions| && g.retentions[at] == RetentionItem(i, v);
      p := InRetentions(at);
  }

  /** Each packet stands at exactly one position of the resolved groups. */
  lemma EachPacketOnce(outputs: seq<nat>, ds: seq<Destination>, i: nat)
    requires Routed(outputs, ds) && i < |ds|
    ensures exists p :: At(Distributed(outputs, ds), p, i) && forall q :: At(Distributed(outputs, ds), q, i) ==> q == p
  {
    var g := Distributed(outputs, ds);
    PartitionIsOrdered(outputs, ds);
    var p := PlaceExists(g, ds, i);
    forall q | At(g, q, i) ensures q == p {
      PlaceFollows(g, ds, p, i);
      PlaceFollows(g, ds, q, i);
      if p.InOutput? { assert OutputSorted(g.outputs[p.group].items, ds, p.group); }
    }
  }

  // ---- Destinations of a batch ---------------------------------------------------------------

  ghost predicate Resolves(values: seq<Disposition>, config: Config) {
    forall i :: 0 <= i < |values| ==> DestinationOf(values[i], config).Ok?
  }

  ghost function Destinations(values: seq<Disposition>, config: Config): (ds: seq<Destination>)
    requires Resolves(values, config)
    ensures |ds| == |values|
    ensures forall i :: 0 <= i < |ds| ==> ds[i] == DestinationOf(values[i], config).value
  {
    seq(|values|, i requires 0 <= i < |values| => DestinationOf(values[i], config).value)
  }

  lemma DestinationsRouted(values: seq<Disposition>, config: Config)
    requires Resolves(values, config)
    ensures Routed(config.outputs, Destinations(values, config))
  {
    var ds := Destinations(values, config);
    forall i | 0 <= i < |ds| && ds[i].ToOutput? ensures ds[i].group < |config.outputs| {
      var s := Settled(values[i], config);
      GroupIsFirst(config.outputs, if s.Redirect? then s.to else if s.output.Some? then s.output.value
                   else config.defaultOutput.value);
    }
  }

  // ---- What was recorded ---------------------------------------------------------------

  /** A packet with this recorded outcome is sent to output `o` with metadata `m`. */
  predicate GoesTo(v: Disposition, config: Config, o: nat, m: Option<nat>) {
    match v
    case Accept(Some(chosen)) => chosen == o && m.None?
    case Accept(None) => config.defaultOutput == Some(o) && m.None?
    case Redirect(to, metadata) => to == o && m == metadata
    case Continue =>
      config.policy.AcceptLeft? && m.None?
      && (config.policy.output == Some(o) || (config.policy.output.None? && config.defaultOutput == Some(o)))
    case Drop(_) => false
    case Retain(_) => false
    case Complete(_) => false
  }

  predicate DropsFor(v: Disposition, config: Config, reason: Option<nat>) {
    v == Drop(reason) || (v.Continue? && config.policy == DropLeft(reason))
  }

  predicate CompletesAs(v: Disposition, config: Config, id: nat) {
    v == Complete(id) || (v.Continue? && config.policy == CompleteLeft(id))
  }

  /** The table has what a packet with this outcome needs. */
  predicate Routable(v: Disposition, config: Config) {
    match v
    case Accept(Some(chosen)) => chosen in config.outputs
    case Accept(None) => config.defaultOutput.Some?
    case Redirect(to, _) => to in config.outputs
    case _ => true
  }

  function RoutingError(v: Disposition): ConfigError {
    if v == Accept(None) then MissingDefaultOutput else UnknownOutput
  }

  /** The groups hold each packet where its recorded outcome and the table send
      it, with what was recorded for it, and nothing else. */
  ghost predicate AsRecorded(g: Groups, values: seq<Disposition>, config: Config) {
    && |g.outputs| == |config.outputs|
    && (forall k :: 0 <= k < |g.outputs| ==> HoldsOutput(g.outputs[k], values, config, config.outputs[k]))
    && (forall i: nat, v :: DropItem(i, v) in g.drops <==> i < |values| && DropsFor(values[i], config, v))
    && (forall i: nat, v ::
          CompletionItem(i, v) in g.completions <==> i < |values| && CompletesAs(values[i], config, v))
    && (forall i: nat, v :: RetentionItem(i, v) in g.retentions <==> i < |values| && values[i] == Retain(v))
  }

  ghost predicate HoldsOutput(group: OutputGroup, values: seq<Disposition>, config: Config, o: nat) {
    && group.output == o
    && (forall i: nat, m :: OutputItem(i, m) in group.items <==> i < |values| && GoesTo(values[i], config, o, m))
  }

  /** One outcome under a valid table. */
  lemma DestinationMeans(v: Disposition, config: Config)
    requires ConfigValid(config)
    ensures DestinationOf(v, config).Ok? <==> Routable(v, config)
    ensures DestinationOf(v, config).Err? ==> DestinationOf(v, config).error == RoutingError(v)
    ensures forall k, m :: 0 <= k < |config.outputs| ==>
              (DestinationOf(v, config) == Ok(ToOutput(k, m)) <==>
               Routable(v, config) && GoesTo(v, config, config.outputs[k], m))
    ensures forall r :: DestinationOf(v, config) == Ok(ToDrop(r)) <==> DropsFor(v, config, r)
    ensures forall id :: DestinationOf(v, config) == Ok(ToCompletion(id)) <==> CompletesAs(v, config, id)
    ensures forall lease :: DestinationOf(v, config) == Ok(ToRetention(lease)) <==> v == Retain(lease)
  {
    var s := Settled(v, config);
    if s.Redirect? { GroupIsFirst(config.outputs, s.to); }
    if s.Accept? && s.output.Some? { GroupIsFirst(config.outputs, s.output.value); }
    if s.Accept? && s.output.None? && config.defaultOutput.Some? {
      GroupIsFirst(config.outputs, config.defaultOutput.value);
    }
  }

  /** Resolution in the recorded values' own terms. */
  lemma ResolvedAsRecorded(values: seq<Disposition>, config: Config)
    requires ConfigValid(config)
    ensures Resolves(values, config) <==> forall i :: 0 <= i < |values| ==> Routable(values[i], config)
    ensures Resolves(values, config) ==>
              AsRecorded(Distributed(config.outputs, Destinations(values, config)), values, config)
  {
    hide DestinationOf, ConfigValid, Routable, GoesTo, DropsFor, CompletesAs, OutputSorted, HoldsOutput;
    forall i | 0 <= i < |values| ensures DestinationOf(values[i], config).Ok? <==> Routable(values[i], config) {
      DestinationMeans(values[i], config);
    }
    if Resolves(values, config) {
      var ds := Destinations(values, config);
      var g := Distributed(config.outputs, ds);
      DestinationsRouted(values, config);
      PartitionIsOrdered(config.outputs, ds);
      forall k | 0 <= k < |g.outputs| ensures HoldsOutput(g.outputs[k], values, config, config.outputs[k]) {
        OutputHeld(g.outputs[k], values, config, k);
      }
      RestHeld(g, values, config);
    }
  }

  lemma OutputHeld(group: OutputGroup, values: seq<Disposition>, config: Config, k: nat)
    requires ConfigValid(config) && Resolves(values, config) && k < |config.outputs|
    requires group.output == config.outputs[k] && OutputSorted(group.items, Destinations(values, config), k)
    ensures HoldsOutput(group, values, config, config.outputs[k])
  {
    hide DestinationOf, ConfigValid, GoesTo;
    forall i: nat, m
      ensures OutputItem(i, m) in group.items <==> i < |values| && GoesTo(values[i], config, config.outputs[k], m)
    {
      if i < |values| { DestinationMeans(values[i], config); }
    }
  }

  lemma RestHeld(g: Groups, values: seq<Disposition>, config: Config)
    requires ConfigValid(config) && Resolves(values, config) && Sorted(g, Destinations(values, config))
    ensures forall i: nat, v :: DropItem(i, v) in g.drops <==> i < |values| && DropsFor(values[i], config, v)
    ensures forall i: nat, v ::
              CompletionItem(i, v) in g.completions <==> i < |values| && CompletesAs(values[i], config, v)
    ensures forall i: nat, v :: RetentionItem(i, v) in g.retentions <==> i < |values| && values[i] == Retain(v)
  {
    hide DestinationOf, ConfigValid, Routable, GoesTo, DropsFor, CompletesAs, OutputSorted;
    forall i: nat | i < |values|
      ensures forall r :: DestinationOf(values[i], config) == Ok(ToDrop(r)) <==> DropsFor(values[i], config, r)
      ensures forall id ::
                DestinationOf(values[i], config) == Ok(ToCompletion(id)) <==> CompletesAs(values[i], config, id)
      ensures forall l :: DestinationOf(values[i], config) == Ok(ToRetention(l)) <==> values[i] == Retain(l)
    {
      DestinationMeans(values[i], config);
    }
  }

  // ---- The resolver ------------------------------------------------------------------------

  /** The fixed group arrays have room for one more packet each. */
  ghost predicate HasRoom(g: Groups) {
    && (forall k :: 0 <= k < |g.outputs| ==> |g.outputs[k].items| < Selection.MAX_BATCH)
    && |g.drops| < Selection.MAX_BATCH && |g.completions| < Selection.MAX_BATCH && |g.retentions| < Selection.MAX_BATCH
  }

  lemma {:induction false} HeldBounds(groups: seq<OutputGroup>, k: nat)
    requires k < |groups|
    ensures |groups[k].items| <= Held(groups)
  {
    if k < |groups| - 1 { HeldBounds(groups[..|groups| - 1], k); }
  }

  lemma TotalBounds(g: Groups)
    requires Total(g) < Selection.MAX_BATCH
    ensures HasRoom(g)
  {
    forall k | 0 <= k < |g.outputs| ensures |g.outputs[k].items| < Selection.MAX_BATCH { HeldBounds(g.outputs, k); }
  }

  method FindOutput(groups: seq<OutputGroup>, ghost outputs: seq<nat>, output: nat)
    returns (r: Result<nat, ConfigError>)
    requires |groups| == |outputs| && forall k :: 0 <= k < |groups| ==> groups[k].output == outputs[k]
    ensures r == GroupOf(outputs, output)
  {
    GroupIsFirst(outputs, output);
    for k := 0 to |groups|
      invariant output !in outputs[..k]
    {
      if groups[k].output == output { return Ok(k); }
    }
    assert outputs[..|groups|] == outputs;
    r := Err(UnknownOutput);
  }

  method AppendOutput(g: Groups, ghost outputs: seq<nat>, output: nat, index: nat, metadata: Option<nat>)
    returns (r: Result<Groups, ConfigError>)
    requires |g.outputs| == |outputs| && HasRoom(g)
    requires forall k :: 0 <= k < |outputs| ==> g.outputs[k].output == outputs[k]
    ensures r == match GroupOf(outputs, output)
                 case Err(e) => Err(e)
                 case Ok(k) => Ok(Placed(g, index, ToOutput(k, metadata)))
  {
    GroupIsFirst(outputs, output);
    var found := FindOutput(g.outputs, outputs, output);
    if found.Err? { return Err(found.error); }
    var group := g.outputs[found.value];
    assert |group.items| < Selection.MAX_BATCH;
    group := group.(items := group.items + [OutputItem(index, metadata)]);
    r := Ok(g.(outputs := g.outputs[found.value := group]));
  }

  /** One packet resolved and placed; the first output it cannot resolve is the error. */
  method PlaceOne(g: Groups, config: Config, index: nat, recorded: Disposition) returns (r: Result<Groups, ConfigError>)
    requires |g.outputs| == |config.outputs| && HasRoom(g)
    requires forall k :: 0 <= k < |config.outputs| ==> g.outputs[k].output == config.outputs[k]
    ensures r == match DestinationOf(recorded, config)
                 case Err(e) => Err(e)
                 case Ok(d) => Ok(Placed(g, index, d))
  {
    var disposition := Settled(recorded, config);
    if disposition.Accept? {
      var output := if disposition.output.Some? then disposition.output else config.defaultOutput;
      if output.None? { return Err(MissingDefaultOutput); }
      r := AppendOutput(g, config.outputs, output.value, index, None);
    } else if disposition.Redirect? {
      r := AppendOutput(g, config.outputs, disposition.to, index, disposition.metadata);
    } else if disposition.Drop? {
      r := Ok(g.(drops := g.drops + [DropItem(index, disposition.reason)]));
    } else if disposition.Complete? {
      r := Ok(g.(completions := g.completions + [CompletionItem(index, disposition.id)]));
    } else {
      r := Ok(g.(retentions := g.retentions + [RetentionItem(index, disposition.lease)]));
    }
  }

  lemma ResolveStep(values: seq<Disposition>, i: nat, config: Config)
    requires i < |values| && Resolves(values[..i], config)
    ensures Resolves(values[..i + 1], config) <==> DestinationOf(values[i], config).Ok?
    ensures Resolves(values[..i + 1], config) ==>
              Distributed(config.outputs, Destinations(values[..i + 1], config))
              == Placed(Distributed(config.outputs, Destinations(values[..i], config)), i,
                        DestinationOf(values[i], config).value)
  {
    hide DestinationOf, Placed;
    var now := values[..i + 1];
    assert forall k :: 0 <= k < i ==> now[k] == values[..i][k];
    if Resolves(now, config) {
      assert DestinationOf(now[i], config).Ok?;
      assert Destinations(now, config)[..i] == Destinations(values[..i], config);
    }
  }

  lemma ResolvedSoFar(values: seq<Disposition>, i: nat, config: Config)
    requires i <= |values| && Resolves(values[..i], config)
    requires i < 64
    ensures var g := Distributed(config.outputs, Destinations(values[..i], config));
            HasRoom(g) && forall k :: 0 <= k < |config.outputs| ==> g.outputs[k].output == config.outputs[k]
  {
    var ds := Destinations(values[..i], config);
    DestinationsRouted(values[..i], config);
    CountsSum(config.outputs, ds);
    TotalBounds(Distributed(config.outputs, ds));
    PartitionIsOrdered(config.outputs, ds);
  }

  /** Packet `i` is the first whose outcome the table cannot route, and `e` says why. */
  ghost predicate FirstUnroutable(values: seq<Disposition>, config: Config, i: nat, e: ConfigError) {
    && i < |values| && !Routable(values[i], config) && e == RoutingError(values[i])
    && forall j :: 0 <= j < i ==> Routable(values[j], config)
  }

  /** Resolution succeeds exactly when the table is valid and can route every
      recorded outcome. The groups then hold each packet, in receive order, where
      its outcome and the table send it; otherwise the first defect of the table
      or the first outcome without a route is the error. No fixed array is
      overrun. */
  method Resolve(values: seq<Disposition>, batchLen: nat, config: Config) returns (r: Result<Groups, ConfigError>)
    requires |values| == 64 && batchLen <= Selection.MAX_BATCH
    ensures r.Ok? <==> ConfigValid(config) && forall i :: 0 <= i < batchLen ==> Routable(values[i], config)
    ensures r.Ok? ==> Resolves(values[..batchLen], config)
                      && r.value == Distributed(config.outputs, Destinations(values[..batchLen], config))
                      && AsRecorded(r.value, values[..batchLen], config)
    ensures !ConfigValid(config) ==> r == Err(FirstDefect(config))
    ensures r.Err? && ConfigValid(config) ==>
              exists i :: FirstUnroutable(values[..batchLen], config, i, r.error)
  {
    hide DestinationOf, Placed, Distributed, Resolves, Distinct, HasRoom, Routable, RoutingError, AsRecorded,
      ConfigValid;
    ghost var all := values[..batchLen];
    var checked := Validate(config);
    if checked.Err? { return Err(checked.error); }
    var result := EmptyGroups(config.outputs);
    NothingResolved(values, config);
    for i := 0 to batchLen
      invariant Resolves(values[..i], config)
                && result == Distributed(config.outputs, Destinations(values[..i], config))
    {
      ResolvedSoFar(values, i, config);
      ResolveStep(values, i, config);
      var placed := PlaceOne(result, config, i, values[i]);
      if placed.Err? {
        StoppedAt(values, i, batchLen, config);
        return Err(placed.error);
      }
      result := placed.value;
    }
    ResolvedAsRecorded(all, config);
    r := Ok(result);
  }

  /** The first outcome that does not resolve is the first without a route. */
  lemma StoppedAt(values: seq<Disposition>, i: nat, n: nat, config: Config)
    requires ConfigValid(config) && i < n <= |values| && Resolves(values[..i], config)
    requires DestinationOf(values[i], config).Err?
    ensures FirstUnroutable(values[..n], config, i, DestinationOf(values[i], config).error)
    ensures !Routable(values[i], config)
  {
    hide DestinationOf, ConfigValid, Routable;
    DestinationMeans(values[i], config);
    forall j | 0 <= j < i ensures Routable(values[j], config) {
      assert DestinationOf(values[..i][j], config).Ok?;
      DestinationMeans(values[j], config);
    }
  }

  lemma NothingResolved(values: seq<Disposition>, config: Config)
    ensures Resolves(values[..0], config)
    ensures Distributed(config.outputs, Destinations(values[..0], config)) == EmptyGroups(config.outputs)
  {
  }
}
