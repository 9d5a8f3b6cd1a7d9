/** Whole runs on real storage: any sequence of operations applied in place
    leaves exactly the state the flat machine reaches. */
module StorageRuns {
  import opened Prelude
  import opened PacketMachine
  import opened PacketRuns
  import opened PacketEditing
  import opened Storage
  import opened Finalizing

  /** One operation on the packet of a context. */
  method Apply(c: EditorContext, op: Op) returns (r: Outcome)
    requires c.Valid()
    modifies c, c.slot.MutableArrays()
    ensures c.Valid() && (c.Model(), r) == Step(old(c.Model()), op)
    ensures c.slot.Arrays() == old(c.slot.Arrays()) && c.slot.MutableArrays() == old(c.slot.MutableArrays())
  {
    hide ParseStep, EditStep, ResizeStep, RawStep, FinalizeStep, Good;
    match op {
      case DoParse(cfg) =>
        var parsed := c.ParsePacket(cfg);
        r := if parsed.Ok? then Ok(()) else Err(parsed.error);
      case DoEdit(edit, inject) => r := c.Edit(edit, inject);
      case DoResize(resize, inject) => r := c.Resize(resize, inject);
      case DoRaw(off, len, data, invalidates, full, inject) =>
        r := c.RawWrite(off, len, data, invalidates, full, inject);
      case DoFinalize => r := FinalizeContext(c);
    }
  }

  /** What a run answers, operation by operation. */
  ghost predicate OutcomesAre(s: PacketState, ops: seq<Op>, outcomes: seq<Outcome>)
    requires Good(s)
  {
    |outcomes| == |ops| && forall i :: 0 <= i < |ops| ==> outcomes[i] == OutcomeAt(s, ops, i)
  }

  /** A whole run. Its outcomes are those of the flat run, so every theorem about
      runs of the flat machine speaks of the packet in its storage. */
  method Replay(c: EditorContext, ops: seq<Op>) returns (outcomes: seq<Outcome>)
    requires c.Valid()
    modifies c, c.slot.MutableArrays()
    ensures c.Valid() && c.Model() == Run(old(c.Model()), ops)
    ensures OutcomesAre(old(c.Model()), ops, outcomes)
    ensures c.slot.Arrays() == old(c.slot.Arrays()) && c.slot.MutableArrays() == old(c.slot.MutableArrays())
    decreases |ops|
  {
    ghost var s := c.Model();
    hide Run, Step, Good, OutcomesAre;
    hide EditorContext.Model, Slot.Valid, Slot.Arrays, Slot.MutableArrays;
    if ops == [] {
      RunEmpty(s);
      return [];
    }
    var n := |ops| - 1;
    outcomes := Replay(c, ops[..n]);
    var last := Apply(c, ops[n]);
    RunSplit(s, ops, outcomes, c.Model(), last);
    outcomes := outcomes + [last];
  }

  lemma RunEmpty(s: PacketState)
    requires Good(s)
    ensures Run(s, []) == s && OutcomesAre(s, [], [])
  {
  }

  /** The last operation runs after the others, whose outcomes stay theirs. */
  lemma RunSplit(s: PacketState, ops: seq<Op>, outcomes: seq<Outcome>, r: PacketState, last: Outcome)
    requires Good(s) && ops != [] && OutcomesAre(s, ops[..|ops| - 1], outcomes)
    requires (r, last) == Step(Run(s, ops[..|ops| - 1]), ops[|ops| - 1])
    ensures Run(s, ops) == r && OutcomesAre(s, ops, outcomes + [last])
  {
    hide Step, Good;
    forall i | 0 <= i < |ops| - 1 ensures outcomes[i] == OutcomeAt(s, ops, i) { OutcomeOfPrefix(s, ops, i); }
  }
}
