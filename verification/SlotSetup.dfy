/** Turning untrusted descriptors into packet slots. */
module SlotSetup {
  import opened Prelude
  import opened Storage

  /** A descriptor whose rooms partition its storage, or the refusal. */
  method InitMutableSegment(storage: array<Byte>, activeOffset: nat, activeLen: nat, caps: Capabilities)
    returns (r: Result<MutableSegment, PacketError>)
    requires storage.Length <= USIZE_MAX
    ensures r.Ok? <==> activeOffset + activeLen <= storage.Length
    ensures r.Ok? ==> r.value.Valid() && r.value.storage == storage && r.value.caps == caps
                      && r.value.activeOffset == activeOffset && r.value.activeLen == activeLen
    ensures r.Err? ==> r.error == if activeOffset + activeLen > USIZE_MAX then Overflow else MalformedDescriptor
  {
    var end := activeOffset + activeLen;
    if end > USIZE_MAX { return Err(Overflow); }
    if end > storage.Length { return Err(MalformedDescriptor); }
    r := Ok(MutableSegment(storage, activeOffset, activeLen, activeOffset, storage.Length - end, caps));
  }

  lemma {:induction false} TotalGrows(ds: seq<Segment>, i: nat)
    requires i <= |ds|
    ensures TotalLen(ds[..i]) <= TotalLen(ds)
  {
    if i == |ds| {
      assert ds[..i] == ds;
    } else {
      TotalGrows(ds[..|ds| - 1], i);
      assert ds[..|ds| - 1][..i] == ds[..i];
    }
  }

  lemma TotalStep(ds: seq<Segment>, i: nat)
    requires i < |ds|
    ensures TotalLen(ds[..i + 1]) == TotalLen(ds[..i]) + ds[i].declaredLen
  {
    assert ds[..i + 1][..i] == ds[..i];
  }

  /** A read-only slot over untrusted descriptors. A sum too long to address is
      reported before any descriptor that overstates its own slice. */
  method InitSlot(ds: seq<Segment>, declaredTotal: nat) returns (r: Result<Slot, PacketError>)
    requires forall i :: 0 <= i < |ds| ==> ds[i].start + ds[i].sliceLen <= ds[i].storage.Length
    ensures r.Ok? <==> |ds| <= MAX_SEGMENTS && (forall i :: 0 <= i < |ds| ==> ds[i].Fits())
                       && TotalLen(ds) == declaredTotal <= USIZE_MAX
    ensures r.Ok? ==> r.value.Valid() && r.value.segments == ds
                      && forall i :: 0 <= i < |ds| ==> r.value.mutables[i].None?
    ensures r.Err? ==> r.error == if |ds| > MAX_SEGMENTS then TooManySegments
                                  else if TotalLen(ds) > USIZE_MAX then DescriptorOverflow else MalformedDescriptor
  {
    if |ds| > MAX_SEGMENTS { return Err(TooManySegments); }
    var total := 0;
    for i := 0 to |ds|
      invariant total == TotalLen(ds[..i]) <= USIZE_MAX
    {
      TotalStep(ds, i);
      TotalGrows(ds, i + 1);
      total := total + ds[i].declaredLen;
      if total > USIZE_MAX { return Err(DescriptorOverflow); }
    }
    assert ds[..|ds|] == ds;
    for i := 0 to |ds|
      invariant forall k :: 0 <= k < i ==> ds[k].Fits()
    {
      if ds[i].declaredLen > ds[i].sliceLen { return Err(MalformedDescriptor); }
    }
    if total != declaredTotal { return Err(MalformedDescriptor); }
    r := Ok(Slot(ds, seq(|ds|, _ => None), total));
  }

  lemma EmptyTotal(ds: seq<Segment>)
    ensures TotalLen(ds[..0]) == 0
  {
  }

  function Actives(ms: seq<MutableSegment>): (ds: seq<Segment>)
    ensures |ds| == |ms|
    ensures forall i :: 0 <= i < |ms| ==> ds[i] == ms[i].Active()
  {
    seq(|ms|, i requires 0 <= i < |ms| => ms[i].Active())
  }

  predicate AllValid(ms: seq<MutableSegment>, n: nat)
    requires n <= |ms|
  {
    forall i :: 0 <= i < n ==> ms[i].Valid()
  }

  function Slots(ms: seq<MutableSegment>): (r: seq<Option<MutableSegment>>)
    ensures |r| == |ms|
    ensures forall i :: 0 <= i < |ms| ==> r[i] == Some(ms[i])
  {
    seq(|ms|, i requires 0 <= i < |ms| => Some(ms[i]))
  }

  /** No two descriptors share their storage. */
  predicate Apart(ms: seq<MutableSegment>) {
    forall i, j :: 0 <= i < j < |ms| ==> ms[i].storage != ms[j].storage
  }

  /** Writable descriptors may be attached to the slot of their active windows. */
  lemma MutablesFit(slot: Slot, ms: seq<MutableSegment>)
    requires slot.Valid() && slot.segments == Actives(ms) && AllValid(ms, |ms|) && Apart(ms)
    ensures slot.(mutables := Slots(ms)).Valid()
  {
    hide TotalLen;
  }

  /** Some valid prefix is already too long to address. */
  ghost predicate OverflowsFirst(ms: seq<MutableSegment>) {
    exists n :: 0 <= n <= |ms| && AllValid(ms, n) && TotalLen(Actives(ms)[..n]) > USIZE_MAX
  }

  lemma NeverOverflows(ms: seq<MutableSegment>, i: nat)
    requires i <= |ms| && TotalLen(Actives(ms)[..i]) <= USIZE_MAX && (i < |ms| ==> !ms[i].Valid())
    ensures !OverflowsFirst(ms)
  {
    forall n | 0 <= n <= |ms| && AllValid(ms, n) ensures TotalLen(Actives(ms)[..n]) <= USIZE_MAX {
      assert n <= i;
      TotalGrows(Actives(ms)[..i], n);
      assert Actives(ms)[..i][..n] == Actives(ms)[..n];
    }
  }

  /** A writable slot over mutable descriptors. Descriptor `i` is validated
      before its length is added, so the first defect in order is reported. The slot is
      fit for editing when the descriptors do not share storage. */
  method InitMutableSlot(ms: seq<MutableSegment>, declaredTotal: nat) returns (r: Result<Slot, PacketError>)
    requires forall i :: 0 <= i < |ms| ==> ms[i].storage.Length <= USIZE_MAX
    ensures r.Ok? <==> |ms| <= MAX_SEGMENTS && AllValid(ms, |ms|) && TotalLen(Actives(ms)) == declaredTotal <= USIZE_MAX
    ensures r.Ok? && Apart(ms) ==> r.value.Valid()
    ensures r.Ok? ==> r.value.totalLen == declaredTotal && r.value.segments == Actives(ms) && |r.value.mutables| == |ms|
                      && forall i :: 0 <= i < |ms| ==> r.value.mutables[i] == Some(ms[i])
    ensures r == Err(TooManySegments) <==> |ms| > MAX_SEGMENTS
    ensures r == Err(DescriptorOverflow) <==> |ms| <= MAX_SEGMENTS && OverflowsFirst(ms)
    ensures r.Err? ==> r.error in {TooManySegments, DescriptorOverflow, MalformedDescriptor}
  {
    if |ms| > MAX_SEGMENTS { return Err(TooManySegments); }
    hide TotalLen;
    hide Slot.Valid;
    ghost var ds := Actives(ms);
    EmptyTotal(ds);
    var readonly: seq<Segment>, total := [], 0;
    for i := 0 to |ms|
      invariant AllValid(ms, i) && readonly == ds[..i] && total == TotalLen(ds[..i]) <= USIZE_MAX
    {
      TotalStep(ds, i);
      var m := ms[i];
      if m.headroom != m.activeOffset || m.activeOffset + m.activeLen > m.storage.Length
         || m.headroom + m.activeLen + m.tailroom != m.storage.Length
      {
        NeverOverflows(ms, i);
        return Err(MalformedDescriptor);
      }
      total := total + m.activeLen;
      if total > USIZE_MAX {
        assert AllValid(ms, i + 1);
        TotalGrows(ds, i + 1);
        return Err(DescriptorOverflow);
      }
      readonly := readonly + [m.Active()];
    }
    assert ds[..|ds|] == ds;
    NeverOverflows(ms, |ms|);
    if total != declaredTotal { return Err(MalformedDescriptor); }
    var slot := InitSlot(readonly, declaredTotal);
    if Apart(ms) { MutablesFit(slot.value, ms); }
    r := Ok(slot.value.(mutables := Slots(ms)));
  }
}
