/**
 The frame ring of `IngestQueue`: a power-of-two slot vector indexed by two 64-bit counters that are never
 reduced, only masked. This module holds the geometry of the ring and the class used by one thread at a time;
 module SpscRing interleaves a producer and a consumer over the same geometry.
 */
module IngestQueue {
  import opened Bits
  import opened Wrappers

  type Frame = string

  ghost predicate ValidCapacity(capacity: nat) {
    exists k: nat :: 3 <= k <= 63 && capacity == Pow2(k)
  }

  // ----- geometry: 64-bit counters agree with unbounded ones -----

  lemma CapacityBounds(capacity: nat)
    requires ValidCapacity(capacity)
    ensures 8 <= capacity <= Pow2(63) && capacity < TWO64
  {
    var k: nat :| 3 <= k <= 63 && capacity == Pow2(k);
    Pow2Values();
    Pow2Monotone(3, k);
    Pow2Monotone(k, 63);
  }

  /** The slot `counter & mask_` of a wrapped counter is the unbounded counter modulo the capacity. */
  lemma SlotOfCounter(counter: nat, capacity: nat)
    requires ValidCapacity(capacity)
    ensures And(counter % TWO64, capacity - 1) == counter % capacity
  {
    var k: nat :| 3 <= k <= 63 && capacity == Pow2(k);
    AndMask(counter % TWO64, k);
    Pow2Add(64 - k, k);
    Pow2Values();
    ModOfMod(counter, capacity, Pow2(64 - k));
  }

  /** The wrapped difference of two counters at most `capacity` apart is their exact difference. */
  lemma DistanceIsExact(head: nat, tail: nat, capacity: nat)
    requires ValidCapacity(capacity) && tail <= head <= tail + capacity
    ensures Sub64(head % TWO64, tail % TWO64) == head - tail
  {
    CapacityBounds(capacity);
    WrappedDifference(head, tail);
    DivModUnique(head - tail, TWO64, 0, head - tail);
  }

  lemma WrappedDifference(head: nat, tail: nat)
    ensures Sub64(head % TWO64, tail % TWO64) == (head - tail) % TWO64
  {
    var q := head / TWO64 - tail / TWO64;
    assert head % TWO64 - tail % TWO64 + q * TWO64 == head - tail;
    AddMultiple(head % TWO64 - tail % TWO64, TWO64, q);
  }

  lemma WrappedSuccessor(counter: nat)
    ensures Add64(counter % TWO64, 1) == (counter + 1) % TWO64
  {
    AddMultiple(counter % TWO64 + 1, TWO64, counter / TWO64);
  }

  // ----- next_pow2 -----

  /** Digits k - width + 1 .. k of n are ones and every digit above k is zero. */
  ghost predicate Smeared(n: nat, k: nat, width: nat) {
    && n < Pow2(k + 1)
    && forall p: nat :: k < p + width && p <= k ==> Bit(n, p)
  }

  lemma SmearDoubles(n: nat, k: nat, width: nat)
    requires Smeared(n, k, width)
    ensures Smeared(Or(n, Shr(n, width)), k, 2 * width)
  {
    ShrIsDivision(n, width);
    assert n / Pow2(width) <= n;
    OrBounded(n, Shr(n, width), k + 1);
    forall p: nat | k < p + 2 * width && p <= k
      ensures Bit(Or(n, Shr(n, width)), p)
    {
      OrBit(n, Shr(n, width), p);
      ShrBit(n, width, p);
      if k >= p + width {
        assert Bit(n, p + width);
      }
    }
  }

  /** r is the least power of two that is at least n and at least 8. */
  ghost predicate IsLeastCapacity(r: nat, n: nat) {
    && ValidCapacity(r)
    && n <= r
    && forall k: nat :: n <= Pow2(k) && 8 <= Pow2(k) ==> r <= Pow2(k)
  }

  /** The least power of two that is at least max(n0, 8); 0 once n0 exceeds 2^63, where `n + 1` wraps. */
  method NextPow2(n0: u64) returns (r: u64)
    ensures if n0 <= Pow2(63) then IsLeastCapacity(r, n0) else r == 0
  {
    if n0 < 8 {
      Pow2Values();
      return 8;
    }
    if IsPowerOfTwo(n0) {
      PowerOfTwoIsCapacity(n0);
      return n0;
    }
    ghost var k := LeadingOne(n0 - 1);
    LeadingPosition(n0 - 1, k);
    NoSmallerPower(n0, k);
    var n := Smear(n0 - 1, k);
    r := Add64(n, 1);
    WordCases(n, 1);
  }

  /** The loop of `next_pow2`: every digit below the leading one becomes a one. */
  method Smear(n0: u64, ghost k: nat) returns (n: u64)
    requires k <= 63 && n0 < Pow2(k + 1) && Bit(n0, k)
    ensures n == Pow2(k + 1) - 1
  {
    n := n0;
    var i := 1;
    ghost var round := 0;
    while i < 64
      invariant 0 <= round <= 6 && i == Pow2(round)
      invariant Smeared(n, k, i)
      decreases 6 - round
    {
      RoundBound(round);
      SmearDoubles(n, k, i);
      SmearedFits(Or(n, Shr(n, i)), k, 2 * i);
      n := Or(n, Shr(n, i));
      i := 2 * i;
      round := round + 1;
    }
    AllOnes(n, k + 1);
  }

  lemma SmearedFits(n: nat, k: nat, width: nat)
    requires k <= 63 && Smeared(n, k, width)
    ensures n < TWO64
  {
    Pow2Monotone(k + 1, 64);
    Pow2Values();
  }

  lemma RoundBound(round: nat)
    requires Pow2(round) < 64
    ensures round <= 5
  {
    Pow2Values();
    if round >= 6 {
      Pow2Monotone(6, round);
    }
  }

  lemma LeadingPosition(n: u64, k: nat)
    requires 7 <= n && Pow2(k) <= n
    ensures k <= 63
  {
    Pow2Values();
    if k >= 64 {
      Pow2Monotone(64, k);
    }
  }

  lemma PowerOfTwoIsCapacity(n: u64)
    requires n >= 8 && IsPowerOfTwo(n)
    ensures IsLeastCapacity(n, n) && n <= Pow2(63)
  {
    IsPowerOfTwoCorrect(n);
    var k: nat :| n == Pow2(k);
    Pow2Values();
    LeadingPosition(n, k);
    if k < 3 {
      Pow2Monotone(k, 2);
    }
    Pow2Monotone(k, 63);
  }

  /** A number that is no power of two and whose predecessor leads with digit k lies below 2^(k+1) and above 2^k. */
  lemma NoSmallerPower(n0: u64, k: nat)
    requires n0 >= 8 && !IsPowerOfTwo(n0) && k <= 63 && Pow2(k) <= n0 - 1 < Pow2(k + 1)
    ensures n0 <= Pow2(63) ==> IsLeastCapacity(Pow2(k + 1), n0) && Pow2(k + 1) < TWO64
    ensures n0 > Pow2(63) ==> Pow2(k + 1) == TWO64
  {
    Pow2Values();
    IsPowerOfTwoCorrect(n0);
    forall j: nat | n0 <= Pow2(j)
      ensures Pow2(k + 1) <= Pow2(j)
    {
      if j <= k {
        Pow2Monotone(j, k);
      } else {
        Pow2Monotone(k + 1, j);
      }
    }
    if n0 <= Pow2(63) {
      if k < 2 {
        Pow2Monotone(k + 1, 2);
      }
      assert k != 63;
      Pow2Monotone(k + 1, 63);
    } else {
      if k < 63 {
        Pow2Monotone(k + 1, 63);
      }
    }
  }

  lemma NoEmptyRing()
    ensures !ValidCapacity(0)
  {
    if ValidCapacity(0) {
      CapacityBounds(0);
    }
  }

  // ----- the ring, one thread at a time -----

  class IngestQueue {
    const buf: array<Frame>
    const mask: u64
    var head: u64
    var tail: u64

    ghost predicate Valid()
      reads this
    {
      && ValidCapacity(buf.Length)
      && mask == buf.Length - 1
      && Sub64(head, tail) <= buf.Length
    }

    function Capacity(): u64 {
      Add64(mask, 1)
    }

    lemma CapacityIsLength()
      requires Valid()
      ensures Capacity() == buf.Length
    {
      CapacityBounds(buf.Length);
      WordCases(mask, 1);
    }

    /** The queued frames, oldest first, read through the masked indices. */
    ghost function Contents(): (s: seq<Frame>)
      requires Valid()
      reads this, buf
    {
      seq(Sub64(head, tail), i reads this, buf requires Valid() => buf[And(Add64(tail, i), mask)])
    }

    /** A capacity above 2^63 gets no slots and a mask of all ones, which no operation below accepts. */
    constructor (capacity: u64)
      ensures fresh(buf)
      ensures capacity <= Pow2(63) ==> Valid() && Contents() == [] && IsLeastCapacity(buf.Length, capacity)
      ensures capacity > Pow2(63) ==> buf.Length == 0 && mask == TWO64 - 1 && !Valid()
    {
      var n := NextPow2(capacity);
      WordCases(n, 1);
      if capacity <= Pow2(63) {
        CapacityBounds(n);
      } else {
        NoEmptyRing();
      }
      buf := new Frame[n](_ => "");
      mask := Sub64(n, 1);
      head, tail := 0, 0;
    }

    /** Appends the frame unless the ring is full, and says which. */
    method TryPush(msg: Frame) returns (ok: bool)
      requires Valid()
      modifies this`head, buf
      ensures Valid()
      ensures ok == (|old(Contents())| < buf.Length)
      ensures Contents() == if ok then old(Contents()) + [msg] else old(Contents())
    {
      CapacityIsLength();
      if Sub64(head, tail) == Capacity() {
        return false;
      }
      HeadSlot(head, tail, buf.Length);
      buf[And(head, mask)] := msg;
      head := Add64(head, 1);
      return true;
    }

    /** Removes and returns the oldest frame, if there is one. The slot moved from is left with any string. */
    method TryPop() returns (out: Option<Frame>)
      requires Valid()
      modifies this`tail, buf
      ensures Valid()
      ensures out.None? <==> old(Contents()) == []
      ensures out.None? ==> Contents() == []
      ensures out.Some? ==> old(Contents()) == [out.value] + Contents()
    {
      if head == tail {
        return None;
      }
      TailSlot(head, tail, buf.Length);
      out := Some(buf[And(tail, mask)]);
      buf[And(tail, mask)] := *;
      tail := Add64(tail, 1);
    }

    method Size() returns (n: u64)
      requires Valid()
      ensures n == |Contents()| && n <= buf.Length
    {
      n := Sub64(head, tail);
    }

    method Empty() returns (b: bool)
      requires Valid()
      ensures b <==> Contents() == []
    {
      var n := Size();
      b := n == 0;
    }

    method Full() returns (b: bool)
      requires Valid()
      ensures b <==> |Contents()| == buf.Length
    {
      CapacityIsLength();
      var n := Size();
      b := n == Capacity();
    }

    method Clear()
      requires Valid()
      modifies this, buf
      ensures Valid() && Contents() == []
      ensures forall i :: 0 <= i < buf.Length ==> buf[i] == ""
    {
      head := 0;
      tail := 0;
      for i := 0 to buf.Length
        invariant head == 0 && tail == 0
        invariant forall j :: 0 <= j < i ==> buf[j] == ""
      {
        buf[i] := "";
      }
    }
  }

  /** Slots fewer than `capacity` apart, counted from any 64-bit position, are distinct. */
  lemma DistinctSlots(base: u64, i: nat, j: nat, capacity: nat)
    requires ValidCapacity(capacity) && i < capacity && j < capacity && i != j
    ensures And(Add64(base, i), capacity - 1) != And(Add64(base, j), capacity - 1)
  {
    SlotOfCounter(base + i, capacity);
    SlotOfCounter(base + j, capacity);
    if (base + i) % capacity == (base + j) % capacity {
      SameResidue(base + i, base + j, capacity);
    }
  }

  lemma OneMore(head: u64, tail: u64)
    requires Sub64(head, tail) < TWO64 - 1
    ensures Sub64(Add64(head, 1), tail) == Sub64(head, tail) + 1
    ensures Add64(tail, Sub64(head, tail)) == head
  {
    WordCases(head, tail);
    WordCases(tail, Sub64(head, tail));
    WordCases(head, 1);
    WordCases(Add64(head, 1), tail);
  }

  /** The slot for the next push is none of the occupied ones, and pushing adds exactly it. */
  lemma HeadSlot(head: u64, tail: u64, capacity: nat)
    requires ValidCapacity(capacity) && Sub64(head, tail) < capacity
    ensures Sub64(Add64(head, 1), tail) == Sub64(head, tail) + 1
    ensures Add64(tail, Sub64(head, tail)) == head
    ensures forall i :: 0 <= i < Sub64(head, tail) ==> And(Add64(tail, i), capacity - 1) != And(head, capacity - 1)
  {
    CapacityBounds(capacity);
    OneMore(head, tail);
    var n := Sub64(head, tail);
    forall i | 0 <= i < n
      ensures And(Add64(tail, i), capacity - 1) != And(head, capacity - 1)
    {
      DistinctSlots(tail, i, n, capacity);
    }
  }

  lemma AddInSteps(counter: u64, i: nat)
    ensures Add64(Add64(counter, 1), i) == Add64(counter, i + 1)
  {
    AddMultiple(Add64(counter, 1) + i, TWO64, (counter + 1) / TWO64);
  }

  lemma OneFewer(head: u64, tail: u64)
    requires head != tail
    ensures Sub64(head, Add64(tail, 1)) == Sub64(head, tail) - 1
    ensures Add64(tail, 0) == tail
  {
    WordCases(head, tail);
    WordCases(tail, 1);
    WordCases(tail, 0);
    WordCases(head, Add64(tail, 1));
  }

  /** Popping keeps every other occupied slot and drops exactly the oldest. */
  lemma TailSlot(head: u64, tail: u64, capacity: nat)
    requires ValidCapacity(capacity) && Sub64(head, tail) <= capacity && head != tail
    ensures Sub64(head, Add64(tail, 1)) == Sub64(head, tail) - 1
    ensures Add64(tail, 0) == tail
    ensures forall i :: 0 <= i < Sub64(head, tail) - 1 ==> Add64(Add64(tail, 1), i) == Add64(tail, i + 1)
    ensures forall i :: 0 < i < Sub64(head, tail) ==> And(Add64(tail, i), capacity - 1) != And(tail, capacity - 1)
  {
    OneFewer(head, tail);
    forall i | 0 <= i < Sub64(head, tail) - 1
      ensures Add64(Add64(tail, 1), i) == Add64(tail, i + 1)
    {
      AddInSteps(tail, i);
    }
    forall i | 0 < i < Sub64(head, tail)
      ensures And(Add64(tail, i), capacity - 1) != And(tail, capacity - 1)
    {
      DistinctSlots(tail, i, 0, capacity);
    }
  }
}
