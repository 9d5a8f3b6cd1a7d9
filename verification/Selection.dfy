/** One-word packet selections: bit `i` of a 64-bit word selects packet `i`.
    Words are numbers below 2^64 and the bitwise operators act digit by digit. */
module Selection {
  import opened Prelude

  const MAX_BATCH: nat := 64

  datatype SelectionError = BatchTooLarge | OutOfRange

  type Mask = m: int | 0 <= m < 0x1_0000_0000_0000_0000

  // ---- Binary digits -----------------------------------------------------------------

  predicate Bit(m: nat, i: nat) {
    if i == 0 then m % 2 == 1 else Bit(m / 2, i - 1)
  }

  function Pow2(i: nat): nat {
    if i == 0 then 1 else 2 * Pow2(i - 1)
  }

  /** Bitwise conjunction. */
  function And(a: nat, b: nat): nat {
    if a == 0 then 0 else 2 * And(a / 2, b / 2) + (if a % 2 == 1 && b % 2 == 1 then 1 else 0)
  }

  /** Bitwise `a & ~b`. */
  function Minus(a: nat, b: nat): nat {
    if a == 0 then 0 else 2 * Minus(a / 2, b / 2) + (if a % 2 == 1 && b % 2 == 0 then 1 else 0)
  }

  /** Number of trailing zeros. */
  function Ctz(m: nat): nat
    requires m != 0
  {
    if m % 2 == 1 then 0 else 1 + Ctz(m / 2)
  }

  /** Number of set bits. */
  function PopCount(m: nat): nat {
    if m == 0 then 0 else m % 2 + PopCount(m / 2)
  }

  lemma {:induction false} NoBits(i: nat)
    ensures !Bit(0, i)
  {
    if i > 0 { NoBits(i - 1); }
  }

  lemma {:induction false} AndBit(a: nat, b: nat, i: nat)
    ensures And(a, b) <= a && (Bit(And(a, b), i) <==> Bit(a, i) && Bit(b, i))
    decreases a
  {
    NoBits(i);
    if a > 0 {
      AndBit(a / 2, b / 2, if i == 0 then 0 else i - 1);
    }
  }

  lemma {:induction false} MinusBit(a: nat, b: nat, i: nat)
    ensures Minus(a, b) <= a && (Bit(Minus(a, b), i) <==> Bit(a, i) && !Bit(b, i))
    decreases a
  {
    NoBits(i);
    if a > 0 {
      MinusBit(a / 2, b / 2, if i == 0 then 0 else i - 1);
    }
  }

  /** `1 << k` has one bit; the number below it has all bits below `k`. */
  lemma {:induction false} Pow2Bits(k: nat, i: nat)
    ensures Pow2(k) > 0 && (Bit(Pow2(k), i) <==> i == k) && (Bit(Pow2(k) - 1, i) <==> i < k)
    decreases k
  {
    if k == 0 {
      NoBits(i);
      if i > 0 { NoBits(i - 1); }
    } else {
      Pow2Bits(k - 1, if i == 0 then 0 else i - 1);
      assert (Pow2(k) - 1) / 2 == Pow2(k - 1) - 1;
    }
  }

  /** A number below `2^k` has no bit from `k` on. */
  lemma {:induction false} HighBits(m: nat, k: nat, i: nat)
    requires m < Pow2(k) && k <= i
    ensures !Bit(m, i)
    decreases k
  {
    if k == 0 { NoBits(i); } else { HighBits(m / 2, k - 1, i - 1); }
  }

  lemma Pow2Byte(k: nat)
    ensures Pow2(k + 8) == 256 * Pow2(k)
  {
    assert Pow2(k + 8) == 2 * Pow2(k + 7) == 4 * Pow2(k + 6) == 8 * Pow2(k + 5) == 16 * Pow2(k + 4);
    assert Pow2(k + 4) == 2 * Pow2(k + 3) == 4 * Pow2(k + 2) == 8 * Pow2(k + 1) == 16 * Pow2(k);
  }

  lemma WordWidth()
    ensures Pow2(64) == 0x1_0000_0000_0000_0000
  {
    Pow2Byte(0);
    Pow2Byte(8);
    Pow2Byte(16);
    Pow2Byte(24);
    Pow2Byte(32);
    Pow2Byte(40);
    Pow2Byte(48);
    Pow2Byte(56);
  }

  /** Equal digits make equal numbers. */
  lemma {:induction false} SameBits(a: nat, b: nat)
    requires forall i: nat :: Bit(a, i) == Bit(b, i)
    ensures a == b
    decreases a + b
  {
    if a > 0 || b > 0 {
      assert Bit(a, 0) == Bit(b, 0);
      forall i: nat ensures Bit(a / 2, i) == Bit(b / 2, i) {
        assert Bit(a, i + 1) == Bit(b, i + 1);
      }
      SameBits(a / 2, b / 2);
    }
  }

  lemma {:induction false} LowestBit(m: nat, i: nat)
    requires m != 0
    ensures Bit(m, Ctz(m)) && (i < Ctz(m) ==> !Bit(m, i))
    decreases m
  {
    if m % 2 == 0 { LowestBit(m / 2, if i == 0 then 0 else i - 1); }
  }

  lemma {:induction false} AndSelf(m: nat)
    ensures And(m, m) == m
  {
    if m > 0 { AndSelf(m / 2); }
  }

  /** `m & (m - 1)` clears exactly the lowest set bit. */
  lemma {:induction false} ClearLowest(m: nat, i: nat)
    requires m != 0
    ensures And(m, m - 1) < m && (Bit(And(m, m - 1), i) <==> Bit(m, i) && i != Ctz(m))
    decreases m
  {
    var c := And(m, m - 1);
    if m % 2 == 1 {
      AndSelf(m / 2);
      assert (m - 1) / 2 == m / 2 && c == 2 * (m / 2);
    } else {
      assert (m - 1) / 2 == m / 2 - 1 && c == 2 * And(m / 2, m / 2 - 1);
      ClearLowest(m / 2, if i == 0 then 0 else i - 1);
    }
  }

  // ---- Selections ----------------------------------------------------------------------

  /** The packets a selection holds. */
  ghost function Members(m: Mask): set<nat> {
    set i: nat | i < 64 && Bit(m, i)
  }

  /** The packets below `n`, all of them and no others. */
  ghost predicate Exactly(m: Mask, n: nat) {
    forall i: nat :: i in Members(m) <==> i < n
  }

  /** Nothing at or past `n` is selected. */
  ghost predicate Below(m: Mask, n: nat) {
    forall i :: i in Members(m) ==> i < n
  }

  /** Every packet of a batch. */
  function All(batchLen: nat): (r: Result<Mask, SelectionError>)
    ensures r.Ok? <==> batchLen <= MAX_BATCH
    ensures r.Ok? ==> Exactly(r.value, batchLen)
    ensures r.Err? ==> r.error == BatchTooLarge
  {
    if batchLen > MAX_BATCH then Err(BatchTooLarge) else
    AllFits(batchLen);
    if batchLen == MAX_BATCH then Ok(0xffff_ffff_ffff_ffff)
    else Ok(Pow2(batchLen) - 1)
  }

  lemma {:induction false} Pow2Grows(a: nat, b: nat)
    requires a <= b
    ensures Pow2(a) <= Pow2(b)
    decreases b - a
  {
    if a < b { Pow2Grows(a, b - 1); }
  }

  lemma AllFits(n: nat)
    requires n <= 64
    ensures 0 < Pow2(n) <= 0x1_0000_0000_0000_0000 && (n == 64 <==> Pow2(n) == 0x1_0000_0000_0000_0000)
    ensures Exactly(Pow2(n) - 1, n)
  {
    WordWidth();
    Pow2Bits(n, 0);
    Pow2Grows(n, 64);
    if n < 64 { Pow2Grows(n, 63); }
    var m := Pow2(n) - 1;
    forall i: nat ensures i in Members(m) <==> i < n { Pow2Bits(n, i); }
  }

  /** The packet index check every indexed operation starts with. */
  predicate InBatch(index: nat, batchLen: nat) { batchLen <= MAX_BATCH && index < batchLen }

  /** The singleton selection. */
  function Singleton(index: nat, batchLen: nat): (r: Result<Mask, SelectionError>)
    ensures r.Ok? <==> InBatch(index, batchLen)
    ensures r.Ok? ==> Members(r.value) == {index}
  {
    if !InBatch(index, batchLen) then Err(OutOfRange) else
    SingleBit(index);
    Ok(Pow2(index))
  }

  lemma SingleBit(index: nat)
    requires index < 64
    ensures Pow2(index) < 0x1_0000_0000_0000_0000 && Members(Pow2(index)) == {index}
  {
    AllFits(index);
    forall i: nat ensures Bit(Pow2(index), i) <==> i == index { Pow2Bits(index, i); }
  }

  function Intersect(a: Mask, b: Mask): (m: Mask)
    ensures Members(m) == Members(a) * Members(b)
  {
    AndMembers(a, b);
    And(a, b)
  }

  lemma AndMembers(a: Mask, b: Mask)
    ensures And(a, b) <= a && Members(And(a, b)) == Members(a) * Members(b)
  {
    AndBit(a, b, 0);
    forall i: nat ensures Bit(And(a, b), i) <==> Bit(a, i) && Bit(b, i) { AndBit(a, b, i); }
  }

  function Removed(a: Mask, b: Mask): (m: Mask)
    ensures Members(m) == Members(a) - Members(b)
  {
    MinusMembers(a, b);
    Minus(a, b)
  }

  lemma MinusMembers(a: Mask, b: Mask)
    ensures Minus(a, b) <= a && Members(Minus(a, b)) == Members(a) - Members(b)
  {
    MinusBit(a, b, 0);
    forall i: nat ensures Bit(Minus(a, b), i) <==> Bit(a, i) && !Bit(b, i) { MinusBit(a, b, i); }
  }

  /** A word is zero exactly when it selects nothing. */
  lemma ZeroIsEmpty(m: Mask)
    ensures m == 0 <==> Members(m) == {}
    ensures m != 0 ==> Ctz(m) < 64
  {
    if m == 0 {
      forall i: nat ensures !Bit(0, i) { NoBits(i); }
    } else {
      LowestBit(m, 0);
      WordWidth();
      if Ctz(m) >= 64 { HighBits(m, 64, Ctz(m)); }
      assert Ctz(m) in Members(m);
    }
  }

  /** Selections with the same members are the same word. */
  lemma MembersDecide(a: Mask, b: Mask)
    requires Members(a) == Members(b)
    ensures a == b
  {
    WordWidth();
    forall i: nat ensures Bit(a, i) == Bit(b, i) {
      if i >= 64 {
        HighBits(a, 64, i);
        HighBits(b, 64, i);
      } else {
        assert i in Members(a) <==> i in Members(b);
      }
    }
    SameBits(a, b);
  }

  /** Bits outside the batch mask are exactly bits past the batch. */
  lemma PastBatch(m: Mask, valid: Mask, n: nat)
    requires Exactly(valid, n)
    ensures Removed(m, valid) == 0 <==> Below(m, n)
  {
    ZeroIsEmpty(Removed(m, valid));
    if Below(m, n) {
      assert Members(m) - Members(valid) == {};
    } else {
      var i :| i in Members(m) && i >= n;
      assert i in Members(m) - Members(valid);
    }
  }

  lemma HasBit(m: Mask, index: nat)
    requires index < 64
    ensures Pow2(index) < 0x1_0000_0000_0000_0000
    ensures Intersect(m, Pow2(index)) != 0 <==> index in Members(m)
  {
    SingleBit(index);
    ZeroIsEmpty(Intersect(m, Pow2(index)));
    assert index in Members(m) * {index} <==> index in Members(m);
  }

  /** Membership, refused for a selection that reaches past the batch. */
  function Contains(m: Mask, index: nat, batchLen: nat): (r: Result<bool, SelectionError>)
    ensures r.Ok? <==> InBatch(index, batchLen) && Below(m, batchLen)
    ensures r.Ok? ==> (r.value <==> index in Members(m))
  {
    var valid := All(batchLen);
    if valid.Err? then Err(valid.error)
    else if !InBatch(index, batchLen) then Err(OutOfRange) else
    PastBatch(m, valid.value, batchLen);
    if Removed(m, valid.value) != 0 then Err(OutOfRange) else
    HasBit(m, index);
    Ok(Intersect(m, Pow2(index)) != 0)
  }

  /** One packet taken out, refused for a selection that reaches past the batch. */
  function Without(m: Mask, index: nat, batchLen: nat): (r: Result<Mask, SelectionError>)
    ensures r.Ok? <==> InBatch(index, batchLen) && Below(m, batchLen)
    ensures r.Ok? ==> Members(r.value) == Members(m) - {index}
  {
    var valid := All(batchLen);
    if valid.Err? then Err(valid.error)
    else if !InBatch(index, batchLen) then Err(OutOfRange) else
    PastBatch(m, valid.value, batchLen);
    if Removed(m, valid.value) != 0 then Err(OutOfRange) else
    SingleBit(index);
    Ok(Removed(m, Pow2(index)))
  }

  // ---- Iteration -----------------------------------------------------------------------

  /** What the clear-lowest-bit loop yields. */
  ghost function Yields(m: Mask): seq<nat>
    decreases m
  {
    if m == 0 then [] else
    ClearLowest(m, 0);
    [Ctz(m)] + Yields(And(m, m - 1))
  }

  lemma StepMembers(m: Mask)
    requires m != 0
    ensures And(m, m - 1) < m && Members(And(m, m - 1)) == Members(m) - {Ctz(m)}
    ensures Ctz(m) in Members(m) && forall i :: i in Members(m) ==> Ctz(m) <= i
  {
    ClearLowest(m, 0);
    ZeroIsEmpty(m);
    LowestBit(m, 0);
    forall i: nat ensures Bit(And(m, m - 1), i) <==> Bit(m, i) && i != Ctz(m) { ClearLowest(m, i); }
    forall i | i in Members(m) ensures Ctz(m) <= i { LowestBit(m, i); }
  }

  /** The iterator yields exactly the selected packets, each once, ascending. */
  lemma {:induction false} YieldsAscending(m: Mask)
    ensures forall i :: i in Yields(m) <==> i in Members(m)
    ensures forall i, j :: 0 <= i < j < |Yields(m)| ==> Yields(m)[i] < Yields(m)[j]
    ensures |Yields(m)| == |Members(m)|
    decreases m
  {
    ZeroIsEmpty(m);
    if m != 0 {
      StepMembers(m);
      var rest := And(m, m - 1);
      YieldsAscending(rest);
      forall j | 0 <= j < |Yields(rest)| ensures Ctz(m) < Yields(rest)[j] {
        assert Yields(rest)[j] in Yields(rest);
      }
    }
  }

  /** Allocation-free ascending iterator over set bits. */
  class SelectionIterator {
    var remaining: Mask

    constructor (m: Mask)
      ensures remaining == m
    {
      remaining := m;
    }

    method Next() returns (r: Option<nat>)
      modifies this
      ensures r.None? <==> old(remaining) == 0
      ensures r.None? ==> remaining == 0
      ensures r.Some? ==> Yields(old(remaining)) == [r.value] + Yields(remaining)
      ensures r.Some? ==> r.value in Members(old(remaining))
                          && Members(remaining) == Members(old(remaining)) - {r.value}
      ensures r.Some? ==> remaining < old(remaining)
    {
      if remaining == 0 { return None; }
      StepMembers(remaining);
      var bit := Ctz(remaining);
      remaining := And(remaining, remaining - 1);
      r := Some(bit);
    }
  }

  lemma {:induction false} CountIsSize(m: Mask)
    ensures PopCount(m) == |Members(m)|
  {
    CountYields(m);
    YieldsAscending(m);
  }

  lemma {:induction false} CountClears(m: nat)
    requires m != 0
    ensures PopCount(m) == 1 + PopCount(And(m, m - 1))
  {
    if m % 2 == 1 {
      AndSelf(m / 2);
      assert (m - 1) / 2 == m / 2;
    } else {
      assert (m - 1) / 2 == m / 2 - 1;
      CountClears(m / 2);
    }
  }

  lemma {:induction false} CountYields(m: Mask)
    ensures PopCount(m) == |Yields(m)|
    decreases m
  {
    if m != 0 {
      CountClears(m);
      StepMembers(m);
      CountYields(And(m, m - 1));
    }
  }
}
