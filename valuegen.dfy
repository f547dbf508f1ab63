/**
  A pool of numValues payloads of valueSize bytes each, laid out in one
  buffer. NextValue cycles through the slots before the last one; the last
  slot is the tombstone, which LastValue returns. Offsets stand for the
  pointers into the buffer that the C++ ValueGenerator returns.
 */
module ValueGen {

  /**
    The slot the m-th call (counting from 0) of NextValue returns on a fresh
    generator: each call moves one slot on, and back to slot 0 once the next
    slot would be the last one. With one slot only, every call returns slot 0.
   */
  function CycleSlot(numValues: nat, m: nat): nat
    decreases m
  {
    if m == 0 then 0
    else
      var s := CycleSlot(numValues, m - 1) + 1;
      if s >= numValues - 1 then 0 else s
  }

  /** Comparing whole slots is comparing their offsets. */
  lemma ScaleCompare(a: nat, b: nat, valueSize: nat)
    requires valueSize >= 1
    ensures a * valueSize < b * valueSize <==> a < b
  {
    if a < b {
      assert b * valueSize == a * valueSize + (b - a) * valueSize;
    } else {
      assert a * valueSize == b * valueSize + (a - b) * valueSize;
    }
  }

  /** The offset arithmetic of one NextValue step, in whole slots. */
  lemma SlotArithmetic(valueSize: nat, numValues: nat, slot: nat)
    requires valueSize >= 1 && numValues >= 1
    requires if numValues >= 2 then slot < numValues - 1 else slot == 0
    ensures slot * valueSize + valueSize == (slot + 1) * valueSize
    ensures (slot * valueSize + valueSize >= valueSize * numValues - valueSize) <==> slot + 1 >= numValues - 1
    ensures slot * valueSize + valueSize <= valueSize * numValues
    ensures numValues >= 2 ==> slot * valueSize < valueSize * numValues - valueSize
    ensures numValues == 1 ==> slot * valueSize == valueSize * numValues - valueSize
  {
    assert valueSize * numValues - valueSize == (numValues - 1) * valueSize;
    ScaleCompare(slot + 1, numValues - 1, valueSize);
    ScaleCompare(slot, numValues - 1, valueSize);
    ScaleCompare(slot + 1, numValues + 1, valueSize);
  }

  /** With at least two slots the cycle stays below the last slot, which is the tombstone. */
  lemma {:induction false} CycleAvoidsTombstone(numValues: nat, m: nat)
    requires numValues >= 2
    ensures CycleSlot(numValues, m) < numValues - 1
  {
    if m > 0 {
      CycleAvoidsTombstone(numValues, m - 1);
    }
  }

  /** With one slot only, NextValue always returns slot 0, which is then also the last slot, the tombstone. */
  lemma SingleSlotIsTombstone(m: nat)
    ensures CycleSlot(1, m) == 0
  {
  }

  /** The first numValues - 1 calls return slots 0, 1, ..., numValues - 2 in order. */
  lemma {:induction false} CycleInOrder(numValues: nat, m: nat)
    requires numValues >= 2 && m < numValues - 1
    ensures CycleSlot(numValues, m) == m
  {
    if m > 0 {
      CycleInOrder(numValues, m - 1);
    }
  }

  /** j calls after call a, the slot has moved j places on, wrapping around the numValues - 1 cycled slots. */
  lemma {:induction false} CycleAdvance(numValues: nat, a: nat, j: nat)
    requires numValues >= 2 && j < numValues - 1
    ensures CycleSlot(numValues, a + j) ==
              if CycleSlot(numValues, a) + j < numValues - 1 then CycleSlot(numValues, a) + j
              else CycleSlot(numValues, a) + j - (numValues - 1)
  {
    if j > 0 {
      CycleAdvance(numValues, a, j - 1);
      CycleAvoidsTombstone(numValues, a);
    }
  }

  /** A positive multiple of p is at least p. */
  lemma {:induction false} MultipleAtLeast(d: nat, p: nat)
    requires d >= 1
    ensures d * p >= p
  {
    if d > 1 {
      MultipleAtLeast(d - 1, p);
      assert d * p == (d - 1) * p + p;
    }
  }

  /** x = q * p + r with 0 <= r < p determines r as x % p. */
  lemma ModUnique(x: nat, p: nat, q: nat, r: nat)
    requires p >= 1 && r < p && x == q * p + r
    ensures x % p == r
  {
    var q', r' := x / p, x % p;
    assert x == q' * p + r';
    if q > q' {
      assert q * p == (q - q') * p + q' * p;
      MultipleAtLeast(q - q', p);
    } else if q < q' {
      assert q' * p == (q' - q) * p + q * p;
      MultipleAtLeast(q' - q, p);
    }
  }

  /** Counting one further modulo p steps the remainder on by one, back to 0 at p. */
  lemma ModStep(a: nat, p: nat)
    requires p >= 1
    ensures (a + 1) % p == if a % p + 1 >= p then 0 else a % p + 1
  {
    var q, r := a / p, a % p;
    assert a == q * p + r;
    if r + 1 >= p {
      assert a + 1 == (q + 1) * p + 0;
      ModUnique(a + 1, p, q + 1, 0);
    } else {
      ModUnique(a + 1, p, q, r + 1);
    }
  }

  /** The closed form: with at least two slots, the m-th call returns slot m mod (numValues - 1). */
  lemma {:induction false} CycleSlotMod(numValues: nat, m: nat)
    requires numValues >= 2
    ensures CycleSlot(numValues, m) == m % (numValues - 1)
  {
    if m > 0 {
      CycleSlotMod(numValues, m - 1);
      ModStep(m - 1, numValues - 1);
    }
  }

  /** After numValues - 1 calls the cycle repeats. */
  lemma CyclePeriodic(numValues: nat, m: nat)
    requires numValues >= 2
    ensures CycleSlot(numValues, m + (numValues - 1)) == CycleSlot(numValues, m)
  {
    var p := numValues - 1;
    CycleAdvance(numValues, m, p - 1);
    CycleAvoidsTombstone(numValues, m);
    assert m + p == (m + (p - 1)) + 1;
  }

  /** Any numValues - 1 consecutive calls return pairwise distinct slots. */
  lemma CycleDistinct(numValues: nat, a: nat, b: nat)
    requires numValues >= 2
    requires a < b < a + (numValues - 1)
    ensures CycleSlot(numValues, a) != CycleSlot(numValues, b)
  {
    CycleAdvance(numValues, a, b - a);
    CycleAvoidsTombstone(numValues, a);
  }

  class ValueGenerator {
    const valueSize: nat
    ghost const numValues: nat
    const totalSize: nat
    const lastIndex: nat
    /** The payload bytes, filled with random bytes by the C++ constructor; opaque here. */
    const rawValues: array<bv8>

    var nextValueIndex: nat
    /** Number of NextValue calls so far. */
    ghost var calls: nat

    ghost predicate Valid()
      reads this
    {
      && numValues >= 1
      && valueSize >= 4
      && totalSize == valueSize * numValues
      && lastIndex == totalSize - valueSize
      && rawValues.Length == totalSize
      && nextValueIndex == CycleSlot(numValues, calls) * valueSize
    }

    /** Lays out numValues payloads of valueSize bytes; `bytes` stands for the random buffer contents. */
    constructor (valueSize: nat, numValues: nat, bytes: seq<bv8>)
      requires numValues >= 1
      requires valueSize >= 4
      requires |bytes| == valueSize * numValues
      ensures Valid() && fresh(rawValues)
      ensures this.valueSize == valueSize && this.numValues == numValues
      ensures totalSize == valueSize * numValues
      ensures lastIndex == totalSize - valueSize
      ensures nextValueIndex == 0 && calls == 0
      ensures rawValues[..] == bytes
    {
      this.valueSize := valueSize;
      this.numValues := numValues;
      totalSize := valueSize * numValues;
      nextValueIndex := 0;
      calls := 0;
      rawValues := new bv8[|bytes|](i requires 0 <= i < |bytes| => bytes[i]);
      lastIndex := valueSize * numValues - valueSize;
    }

    /**
      Returns the current offset and advances the cursor by one slot, back to
      slot 0 once it reaches the last slot or beyond.
     */
    method NextValue() returns (offset: nat)
      requires Valid()
      modifies this
      ensures Valid() && calls == old(calls) + 1
      ensures offset == old(nextValueIndex)
      ensures nextValueIndex == if offset + valueSize >= totalSize - valueSize then 0 else offset + valueSize
      ensures offset == CycleSlot(numValues, old(calls)) * valueSize
      ensures numValues >= 2 ==> offset == (old(calls) % (numValues - 1)) * valueSize
      ensures offset + valueSize <= rawValues.Length
      ensures numValues >= 2 ==> offset < lastIndex
      ensures numValues == 1 ==> offset == lastIndex
    {
      offset := nextValueIndex;
      if numValues >= 2 {
        CycleAvoidsTombstone(numValues, calls);
        CycleSlotMod(numValues, calls);
      }
      SlotArithmetic(valueSize, numValues, CycleSlot(numValues, calls));
      nextValueIndex := nextValueIndex + valueSize;
      if nextValueIndex >= totalSize - valueSize {
        nextValueIndex := 0;
      }
      calls := calls + 1;
    }

    /** The tombstone: always the last slot, whatever the cursor. */
    function LastValue(): (offset: nat)
      requires Valid()
      reads this
      ensures offset == (numValues - 1) * valueSize
      ensures offset + valueSize == rawValues.Length
    {
      lastIndex
    }

    function ValueSize(): (size: nat)
      requires Valid()
      reads this
      ensures size >= 4
      ensures size * numValues == rawValues.Length
    {
      valueSize
    }
  }
}
