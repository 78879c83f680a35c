/**
 One producer thread and one consumer thread on an `IngestQueue`, interleaved at every atomic load, slot access
 and atomic store of `try_push` and `try_pop`.

 Each atomic counter is the list of all values ever stored to it, in modification order. The thread that owns a
 counter reads its own last store; a load of the other thread's counter may return any store from the last one
 that thread has already seen onwards. Stores are releases and those loads are acquires: a store carries the
 number of slot accesses its thread had made, and loading it makes those accesses known to the loader. A slot
 remembers the last access of either thread, so that an unordered pair of accesses would be visible.
 */
module SpscRing {
  import opened Bits
  import opened IngestQueue
  import opened Wrappers

  /** `accesses` counts the slot accesses of the storing thread, `seen` is its position in the other counter's stores. */
  datatype Store = Store(value: u64, accesses: nat, seen: nat)

  /** `wrote` and `moved` number the last producer write and the last consumer move of the slot, from 1; 0 is none. */
  datatype Slot = Slot(frame: Frame, wrote: nat, moved: nat)

  datatype Pushing =
    | NotPushing
    | LoadedOwnHead(msg: Frame, head: u64)
    | LoadedTail(msg: Frame, head: u64, tail: u64)
    | WroteSlot(msg: Frame, head: u64)

  datatype Popping =
    | NotPopping
    | LoadedOwnTail(tail: u64)
    | LoadedHead(tail: u64, head: u64)
    | MovedSlot(tail: u64, out: Frame)

  /** `tailSeen` and `headSeen` are positions in the other thread's modification order. */
  datatype Ring = Ring(
    mask: u64,
    slots: seq<Slot>,
    heads: seq<Store>,
    tails: seq<Store>,
    pushing: Pushing,
    tailSeen: nat,
    movesKnown: nat,
    writes: nat,
    popping: Popping,
    headSeen: nat,
    writesKnown: nat,
    moves: nat,
    pushed: seq<Frame>,
    popped: seq<Frame>)

  datatype Action =
    | BeginPush(msg: Frame)
    | LoadTail(at: nat)
    | RejectFull
    | WriteSlot
    | StoreHead
    | BeginPop
    | LoadHead(at: nat)
    | RejectEmpty
    | MoveSlot(leftBehind: Frame)
    | StoreTail

  ghost predicate WellSized(r: Ring) {
    && ValidCapacity(|r.slots|)
    && r.mask == |r.slots| - 1
    && |r.heads| >= 1
    && |r.tails| >= 1
  }

  function Capacity(r: Ring): u64 {
    Add64(r.mask, 1)
  }

  function Last(stores: seq<Store>): u64
    requires |stores| >= 1
  {
    stores[|stores| - 1].value
  }

  function Index(counter: u64, r: Ring): (i: nat)
    ensures i <= r.mask
  {
    And(counter, r.mask)
  }

  ghost predicate Enabled(r: Ring, a: Action) {
    match a
    case BeginPush(_) => r.pushing.NotPushing?
    case LoadTail(at) => r.pushing.LoadedOwnHead? && r.tailSeen <= at < |r.tails|
    case RejectFull => r.pushing.LoadedTail? && Sub64(r.pushing.head, r.pushing.tail) == Capacity(r)
    case WriteSlot => r.pushing.LoadedTail? && Sub64(r.pushing.head, r.pushing.tail) != Capacity(r)
    case StoreHead => r.pushing.WroteSlot?
    case BeginPop => r.popping.NotPopping?
    case LoadHead(at) => r.popping.LoadedOwnTail? && r.headSeen <= at < |r.heads|
    case RejectEmpty => r.popping.LoadedHead? && r.popping.head == r.popping.tail
    case MoveSlot(_) => r.popping.LoadedHead? && r.popping.head != r.popping.tail
    case StoreTail => r.popping.MovedSlot?
  }

  function Max(a: nat, b: nat): nat {
    if a < b then b else a
  }

  ghost function Next(r: Ring, a: Action): Ring
    requires WellSized(r) && Enabled(r, a)
  {
    match a
    case BeginPush(msg) => r.(pushing := LoadedOwnHead(msg, Last(r.heads)))
    case LoadTail(at) =>
      r.(pushing := LoadedTail(r.pushing.msg, r.pushing.head, r.tails[at].value),
         tailSeen := at,
         movesKnown := Max(r.movesKnown, r.tails[at].accesses))
    case RejectFull => r.(pushing := NotPushing)
    case WriteSlot =>
      var i := Index(r.pushing.head, r);
      r.(slots := r.slots[i := r.slots[i].(frame := r.pushing.msg, wrote := r.writes + 1)],
         writes := r.writes + 1,
         pushing := WroteSlot(r.pushing.msg, r.pushing.head))
    case StoreHead =>
      r.(heads := r.heads + [Store(Add64(r.pushing.head, 1), r.writes, r.tailSeen)],
         pushed := r.pushed + [r.pushing.msg],
         pushing := NotPushing)
    case BeginPop => r.(popping := LoadedOwnTail(Last(r.tails)))
    case LoadHead(at) =>
      r.(popping := LoadedHead(r.popping.tail, r.heads[at].value),
         headSeen := at,
         writesKnown := Max(r.writesKnown, r.heads[at].accesses))
    case RejectEmpty => r.(popping := NotPopping)
    case MoveSlot(leftBehind) =>
      var i := Index(r.popping.tail, r);
      r.(slots := r.slots[i := r.slots[i].(frame := leftBehind, moved := r.moves + 1)],
         moves := r.moves + 1,
         popping := MovedSlot(r.popping.tail, r.slots[i].frame))
    case StoreTail =>
      r.(tails := r.tails + [Store(Add64(r.popping.tail, 1), r.moves, r.headSeen)],
         popped := r.popped + [r.popping.out],
         popping := NotPopping)
  }

  ghost function Init(capacity: nat): Ring
    requires ValidCapacity(capacity)
  {
    CapacityBounds(capacity);
    Ring(capacity - 1, seq(capacity, _ => Slot("", 0, 0)), [Store(0, 0, 0)], [Store(0, 0, 0)],
         NotPushing, 0, 0, 0, NotPopping, 0, 0, 0, [], [])
  }

  /** The ring after a run of the freshly constructed queue; None when some action of the run was not possible. */
  ghost function Run(capacity: nat, actions: seq<Action>): Option<Ring>
    requires ValidCapacity(capacity)
    decreases |actions|
  {
    if actions == [] then Some(Init(capacity))
    else
      var n := |actions| - 1;
      match Run(capacity, actions[..n])
      case None => None
      case Some(r) => if WellSized(r) && Enabled(r, actions[n]) then Some(Next(r, actions[n])) else None
  }

  // ----- the invariant -----

  /** The two modification orders count up from 0 modulo 2^64, and each store carries as many accesses. */
  ghost predicate CountsUp(stores: seq<Store>, n: nat) {
    && |stores| == n + 1
    && forall i :: 0 <= i < |stores| ==> stores[i].value == i % TWO64 && stores[i].accesses == i
  }

  ghost predicate ProducerInv(r: Ring) {
    var h, cap := |r.pushed|, |r.slots|;
    && CountsUp(r.heads, h)
    && r.movesKnown == r.tailSeen <= |r.popped|
    && h <= r.tailSeen + cap
    && r.writes == (if r.pushing.WroteSlot? then h + 1 else h)
    && (!r.pushing.NotPushing? ==> r.pushing.head == h % TWO64)
    && (r.pushing.LoadedTail? ==> r.pushing.tail == r.tailSeen % TWO64)
    && (r.pushing.WroteSlot? ==> h < r.tailSeen + cap)
  }

  ghost predicate ConsumerInv(r: Ring) {
    var t := |r.popped|;
    && CountsUp(r.tails, t)
    && t <= r.headSeen == r.writesKnown <= |r.pushed|
    && r.moves == (if r.popping.MovedSlot? then t + 1 else t)
    && (!r.popping.NotPopping? ==> r.popping.tail == t % TWO64)
    && (r.popping.LoadedHead? ==> r.popping.head == r.headSeen % TWO64)
    && (r.popping.MovedSlot? ==> t < r.headSeen && r.popping.out == r.pushed[t])
  }

  /** The slots between the moves made and the writes made hold the frames in push order. */
  ghost predicate SlotsInv(r: Ring) {
    && |r.slots| > 0
    && r.popped <= r.pushed
    && forall k :: r.moves <= k < r.writes ==> FrameNumber(r, k) == r.slots[k % |r.slots|].frame
  }

  ghost function FrameNumber(r: Ring, k: nat): Frame {
    if k < |r.pushed| then r.pushed[k] else if r.pushing.WroteSlot? then r.pushing.msg else ""
  }

  /** Each slot records the number of its latest move; an occupied slot records its own write. */
  ghost predicate MarksInv(r: Ring) {
    && |r.slots| > 0
    && (forall j :: 0 <= j < |r.slots| ==> Mark(r.slots[j].moved, j, r.moves, |r.slots|))
    && (forall k :: r.moves <= k < r.writes ==> r.slots[k % |r.slots|].wrote == k + 1)
  }

  /** Of the moves 1..done, the latest one out of the slot has number `mark`; 0 when there is none. */
  ghost predicate Mark(mark: nat, slot: nat, done: nat, capacity: nat)
    requires capacity > 0
  {
    if mark == 0 then done <= slot else mark <= done < mark + capacity && (mark - 1) % capacity == slot
  }

  lemma MarkStays(mark: nat, slot: nat, done: nat, capacity: nat)
    requires 0 < capacity && slot < capacity && Mark(mark, slot, done, capacity) && slot != done % capacity
    ensures Mark(mark, slot, done + 1, capacity)
  {
    if mark == 0 && done == slot {
      DivModUnique(done, capacity, 0, done);
    } else if mark > 0 && done + 1 == mark + capacity {
      AddMultiple(mark - 1, capacity, 1);
    }
  }

  lemma MarkMade(done: nat, capacity: nat)
    requires 0 < capacity
    ensures Mark(done + 1, done % capacity, done + 1, capacity)
  {
  }

  /** The latest move out of the slot of counter n, when all moves but the last `capacity` before n are made. */
  lemma MarkBefore(mark: nat, n: nat, done: nat, capacity: nat)
    requires 0 < capacity && Mark(mark, n % capacity, done, capacity) && done <= n < done + capacity
    ensures mark == if n < capacity then 0 else n - capacity + 1
  {
    if n < capacity {
      DivModUnique(n, capacity, 0, n);
      if mark > 0 {
        SameResidue(mark - 1, n, capacity);
      }
    } else {
      AddMultiple(n - capacity, capacity, 1);
      if mark == 0 {
        ResidueAtMost(n - capacity, capacity);
      } else {
        SameResidue(mark - 1, n - capacity, capacity);
      }
    }
  }

  lemma ResidueAtMost(x: nat, d: nat)
    requires d > 0
    ensures x % d <= x
  {
  }

  /** No push was made with more than `capacity` frames beyond the tail it had seen. */
  ghost predicate SeenInv(r: Ring) {
    && |r.heads| > 0
    && r.heads[0].seen == 0
    && forall i :: 0 <= i < |r.heads| ==> i <= r.heads[i].seen + |r.slots| && r.heads[i].seen <= r.tailSeen
  }

  ghost predicate Inv(r: Ring) {
    WellSized(r) && ProducerInv(r) && ConsumerInv(r) && SlotsInv(r) && MarksInv(r) && SeenInv(r)
  }

  // ----- every step keeps the invariant -----

  lemma InitInv(capacity: nat)
    requires ValidCapacity(capacity)
    ensures Inv(Init(capacity))
  {
    CapacityBounds(capacity);
  }

  /** The full test compares words for equality, and decides the exact unbounded comparison. */
  lemma FullTestIsExact(r: Ring)
    requires Inv(r) && r.pushing.LoadedTail?
    ensures Sub64(r.pushing.head, r.pushing.tail) == Capacity(r) <==> |r.pushed| == r.tailSeen + |r.slots|
    ensures |r.pushed| <= r.tailSeen + |r.slots|
  {
    CapacityBounds(|r.slots|);
    WordCases(r.mask, 1);
    DistanceIsExact(|r.pushed|, r.tailSeen, |r.slots|);
  }

  /** The empty test is exact although the loaded head may be stale. */
  lemma EmptyTestIsExact(r: Ring)
    requires Inv(r) && r.popping.LoadedHead?
    ensures r.popping.head == r.popping.tail <==> r.headSeen == |r.popped|
  {
    CapacityBounds(|r.slots|);
    DistanceIsExact(r.headSeen, |r.popped|, |r.slots|);
  }

  lemma ProducerStep(r: Ring, a: Action)
    requires Inv(r) && Enabled(r, a)
    ensures ProducerInv(Next(r, a))
  {
    match a
    case WriteSlot => FullTestIsExact(r);
    case StoreHead => WrappedSuccessor(|r.pushed|);
    case _ =>
  }

  lemma SeenStep(r: Ring, a: Action)
    requires Inv(r) && Enabled(r, a)
    ensures SeenInv(Next(r, a))
  {
  }

  lemma ConsumerStep(r: Ring, a: Action)
    requires Inv(r) && Enabled(r, a)
    ensures ConsumerInv(Next(r, a))
  {
    match a
    case StoreTail => WrappedSuccessor(|r.popped|);
    case MoveSlot(_) => EmptyTestIsExact(r); TailIndex(r);
    case _ =>
  }

  lemma HeadIndex(r: Ring)
    requires Inv(r) && !r.pushing.NotPushing?
    ensures Index(r.pushing.head, r) == |r.pushed| % |r.slots|
  {
    SlotOfCounter(|r.pushed|, |r.slots|);
  }

  lemma TailIndex(r: Ring)
    requires Inv(r) && !r.popping.NotPopping?
    ensures Index(r.popping.tail, r) == |r.popped| % |r.slots|
  {
    SlotOfCounter(|r.popped|, |r.slots|);
  }

  /** Frames in flight lie fewer than `capacity` counters apart, so they occupy distinct slots. */
  lemma InFlightSlotsDistinct(r: Ring, n: nat)
    requires Inv(r) && r.moves <= n < r.moves + |r.slots|
    ensures r.writes <= |r.popped| + |r.slots|
    ensures forall k :: r.moves <= k < r.moves + |r.slots| && k != n ==> k % |r.slots| != n % |r.slots|
  {
    forall k | r.moves <= k < r.moves + |r.slots| && k != n
      ensures k % |r.slots| != n % |r.slots|
    {
      if k % |r.slots| == n % |r.slots| {
        SameResidue(k, n, |r.slots|);
      }
    }
  }

  lemma WriteKeepsSlots(r: Ring)
    requires Inv(r) && Enabled(r, WriteSlot)
    ensures SlotsInv(Next(r, WriteSlot))
  {
    FullTestIsExact(r);
    HeadIndex(r);
    InFlightSlotsDistinct(r, r.writes);
  }

  lemma WriteKeepsMarks(r: Ring)
    requires Inv(r) && Enabled(r, WriteSlot)
    ensures MarksInv(Next(r, WriteSlot))
  {
    FullTestIsExact(r);
    HeadIndex(r);
    InFlightSlotsDistinct(r, r.writes);
  }

  lemma MoveKeepsSlots(r: Ring, a: Action)
    requires Inv(r) && Enabled(r, a) && a.MoveSlot?
    ensures SlotsInv(Next(r, a))
  {
    EmptyTestIsExact(r);
    TailIndex(r);
    InFlightSlotsDistinct(r, r.moves);
  }

  lemma MoveKeepsMarks(r: Ring, a: Action)
    requires Inv(r) && Enabled(r, a) && a.MoveSlot?
    ensures MarksInv(Next(r, a))
  {
    EmptyTestIsExact(r);
    TailIndex(r);
    InFlightSlotsDistinct(r, r.moves);
    MarkMade(r.moves, |r.slots|);
    forall j | 0 <= j < |r.slots| && j != r.moves % |r.slots|
      ensures Mark(r.slots[j].moved, j, r.moves + 1, |r.slots|)
    {
      MarkStays(r.slots[j].moved, j, r.moves, |r.slots|);
    }
  }

  lemma OtherStepsKeepSlots(r: Ring, a: Action)
    requires Inv(r) && Enabled(r, a) && !a.MoveSlot? && !a.WriteSlot?
    ensures SlotsInv(Next(r, a)) && MarksInv(Next(r, a))
  {
  }

  /** Every step of either thread keeps the invariant, whichever store its load returned. */
  lemma StepKeepsInv(r: Ring, a: Action)
    requires Inv(r) && Enabled(r, a)
    ensures Inv(Next(r, a))
  {
    ProducerStep(r, a);
    ConsumerStep(r, a);
    SeenStep(r, a);
    match a {
      case WriteSlot =>
        WriteKeepsSlots(r);
        WriteKeepsMarks(r);
      case MoveSlot(_) =>
        MoveKeepsSlots(r, a);
        MoveKeepsMarks(r, a);
      case _ => OtherStepsKeepSlots(r, a);
    }
  }

  lemma {:induction false} ReachableInv(capacity: nat, actions: seq<Action>)
    requires ValidCapacity(capacity) && Run(capacity, actions).Some?
    ensures Inv(Run(capacity, actions).value) && |Run(capacity, actions).value.slots| == capacity
    decreases |actions|
  {
    if actions == [] {
      InitInv(capacity);
    } else {
      var n := |actions| - 1;
      ReachableInv(capacity, actions[..n]);
      StepKeepsInv(Run(capacity, actions[..n]).value, actions[n]);
    }
  }

  // ----- the ring refines a bounded FIFO -----

  /**
   The frames still in the ring, as memory holds them: the occupied slots from the newest tail to the newest
   head, except that a frame already moved out by an unfinished pop is in the consumer's hands.
   */
  ghost function Contents(r: Ring): seq<Frame>
    requires WellSized(r)
  {
    seq(Sub64(Last(r.heads), Last(r.tails)), (i: nat) =>
      if i == 0 && r.popping.MovedSlot? then r.popping.out
      else r.slots[Index(Add64(Last(r.tails), i), r)].frame)
  }

  lemma LastCounters(r: Ring)
    requires Inv(r)
    ensures Last(r.heads) == |r.pushed| % TWO64 && Last(r.tails) == |r.popped| % TWO64
    ensures Sub64(Last(r.heads), Last(r.tails)) == |r.pushed| - |r.popped| <= |r.slots|
  {
    DistanceIsExact(|r.pushed|, |r.popped|, |r.slots|);
  }

  lemma OccupiedIndex(r: Ring, i: nat)
    requires Inv(r)
    ensures Index(Add64(Last(r.tails), i), r) == (|r.popped| + i) % |r.slots|
  {
    LastCounters(r);
    SlotFurtherOn(|r.popped|, i, |r.slots|);
  }

  lemma SlotFurtherOn(counter: nat, i: nat, capacity: nat)
    requires ValidCapacity(capacity)
    ensures And(Add64(counter % TWO64, i), capacity - 1) == (counter + i) % capacity
  {
    AddMultiple(counter % TWO64 + i, TWO64, counter / TWO64);
    SlotOfCounter(counter + i, capacity);
  }

  lemma ContentsAt(r: Ring, i: nat)
    requires Inv(r) && i < |Contents(r)|
    ensures |r.popped| + i < |r.pushed| && Contents(r)[i] == r.pushed[|r.popped| + i]
  {
    LastCounters(r);
    OccupiedIndex(r, i);
    var k := |r.popped| + i;
    if i > 0 || !r.popping.MovedSlot? {
      assert r.slots[k % |r.slots|].frame == FrameNumber(r, k);
    }
  }

  lemma ContentsInv(r: Ring)
    requires Inv(r)
    ensures r.popped + Contents(r) == r.pushed && |Contents(r)| <= |r.slots|
  {
    LastCounters(r);
    forall i: nat | i < |Contents(r)|
      ensures Contents(r)[i] == r.pushed[|r.popped| + i]
    {
      ContentsAt(r, i);
    }
  }

  /**
   In every interleaving, with any coherent stale loads, the frames popped so far followed by those still in the
   ring are the frames successfully pushed, in order; and there are never more than `capacity` of them.
   */
  lemma FifoOnEveryRun(capacity: nat, actions: seq<Action>)
    requires ValidCapacity(capacity) && Run(capacity, actions).Some?
    ensures
      var r := Run(capacity, actions).value;
      WellSized(r) && r.popped + Contents(r) == r.pushed && |Contents(r)| <= capacity
  {
    ReachableInv(capacity, actions);
    ContentsInv(Run(capacity, actions).value);
  }

  /** A bounded FIFO: a push that succeeds appends, a pop that succeeds takes the front, nothing else has effect. */
  ghost predicate FifoStep(capacity: nat, q: seq<Frame>, q': seq<Frame>, r: Ring, a: Action) {
    match a
    case StoreHead => r.pushing.WroteSlot? && |q| < capacity && q' == q + [r.pushing.msg]
    case StoreTail => r.popping.MovedSlot? && q != [] && r.popping.out == q[0] && q' == q[1..]
    case _ => q' == q
  }

  lemma FrontCancels<T>(a: seq<T>, b: seq<T>, c: seq<T>)
    requires a + b == a + c
    ensures b == c
  {
    assert b == (a + b)[|a|..] && c == (a + c)[|a|..];
  }

  lemma FifoStepFrom(capacity: nat, r: Ring, a: Action, q: seq<Frame>, q': seq<Frame>)
    requires WellSized(r) && Enabled(r, a)
    requires r.popped + q == r.pushed && Next(r, a).popped + q' == Next(r, a).pushed && |q'| <= capacity
    ensures FifoStep(capacity, q, q', r, a)
  {
    match a {
      case StoreHead =>
        Associative(r.popped, q, [r.pushing.msg]);
        FrontCancels(r.popped, q', q + [r.pushing.msg]);
      case StoreTail =>
        Associative(r.popped, [r.popping.out], q');
        FrontCancels(r.popped, q, [r.popping.out] + q');
      case _ => FrontCancels(r.popped, q', q);
    }
  }

  /** Each step of the ring is a step of the bounded FIFO; the two stores of counters are where it takes effect. */
  lemma RefinesFifo(r: Ring, a: Action)
    requires Inv(r) && Enabled(r, a)
    ensures WellSized(Next(r, a)) && FifoStep(|r.slots|, Contents(r), Contents(Next(r, a)), r, a)
  {
    StepKeepsInv(r, a);
    ContentsInv(r);
    ContentsInv(Next(r, a));
    FifoStepFrom(|r.slots|, r, a, Contents(r), Contents(Next(r, a)));
  }

  // ----- slot ownership -----

  /**
   The two threads never access one slot unordered. When the producer may write a slot, the last move out of it is
   that of the frame `capacity` pushes earlier, if there is one, and is already known to the producer; when the
   consumer may move out of a slot, the last write to it is the push being popped and is already known to the
   consumer.
   */
  lemma SlotAccessesAreOrdered(r: Ring, a: Action)
    requires Inv(r) && Enabled(r, a)
    ensures
      a.WriteSlot? ==>
        var moved := r.slots[Index(r.pushing.head, r)].moved;
        && moved == (if |r.pushed| < |r.slots| then 0 else |r.pushed| - |r.slots| + 1)
        && moved <= r.movesKnown
    ensures a.MoveSlot? ==> r.slots[Index(r.popping.tail, r)].wrote == |r.popped| + 1 <= r.writesKnown
  {
    match a
    case WriteSlot => WriteIsOrdered(r);
    case MoveSlot(_) => EmptyTestIsExact(r); TailIndex(r);
    case _ =>
  }

  lemma WriteIsOrdered(r: Ring)
    requires Inv(r) && Enabled(r, WriteSlot)
    ensures
      var moved := r.slots[Index(r.pushing.head, r)].moved;
      moved == (if |r.pushed| < |r.slots| then 0 else |r.pushed| - |r.slots| + 1) <= r.movesKnown
  {
    FullTestIsExact(r);
    HeadIndex(r);
    MarkBefore(r.slots[|r.pushed| % |r.slots|].moved, |r.pushed|, r.moves, |r.slots|);
  }

  /** A pending slot write and a pending slot move never target the same slot. */
  lemma PendingAccessesAreDisjoint(r: Ring, leftBehind: Frame)
    requires Inv(r) && Enabled(r, WriteSlot) && Enabled(r, MoveSlot(leftBehind))
    ensures Index(r.pushing.head, r) != Index(r.popping.tail, r)
  {
    FullTestIsExact(r);
    EmptyTestIsExact(r);
    HeadIndex(r);
    TailIndex(r);
    InFlightSlotsDistinct(r, r.moves);
  }

  /**
   What the results mean. A push is rejected exactly when the ring was full counting only the pops the producer
   has seen; a pop is refused exactly when the consumer has seen no further push. A push that is allowed to write
   never finds the ring full, so nothing is overwritten.
   */
  lemma ResultsAreExact(r: Ring)
    requires Inv(r)
    ensures r.pushing.LoadedTail? ==> (Enabled(r, RejectFull) <==> |r.pushed| - r.tailSeen == |r.slots|)
    ensures r.pushing.LoadedTail? && r.tailSeen == |r.popped| ==> (Enabled(r, RejectFull) <==> |Contents(r)| == |r.slots|)
    ensures Enabled(r, WriteSlot) ==> |Contents(r)| < |r.slots|
    ensures r.popping.LoadedHead? ==> (Enabled(r, RejectEmpty) <==> r.headSeen == |r.popped|)
    ensures r.popping.LoadedHead? && r.headSeen == |r.pushed| ==> (Enabled(r, RejectEmpty) <==> Contents(r) == [])
  {
    ContentsInv(r);
    if r.pushing.LoadedTail? {
      FullTestIsExact(r);
    }
    if r.popping.LoadedHead? {
      EmptyTestIsExact(r);
    }
  }

  // ----- size() -----

  /** `size()` as computed from one store of each counter. */
  ghost function SizeFrom(r: Ring, head: nat, tail: nat): u64
    requires head < |r.heads| && tail < |r.tails|
  {
    Sub64(r.heads[head].value, r.tails[tail].value)
  }

  /** On the producer thread `size()` lies in 0..capacity and never under-reports. */
  lemma ProducerSize(r: Ring, tail: nat)
    requires Inv(r) && r.tailSeen <= tail < |r.tails|
    ensures |Contents(r)| <= SizeFrom(r, |r.heads| - 1, tail) <= |r.slots|
  {
    ContentsInv(r);
    DistanceIsExact(|r.pushed|, tail, |r.slots|);
  }

  /** On the consumer thread `size()` lies in 0..capacity and never over-reports. */
  lemma ConsumerSize(r: Ring, head: nat)
    requires Inv(r) && r.headSeen <= head < |r.heads|
    ensures SizeFrom(r, head, |r.tails| - 1) <= |Contents(r)| <= |r.slots|
  {
    ContentsInv(r);
    DistanceIsExact(head, |r.popped|, |r.slots|);
  }

  /**
   The pairs of stores a thread that is neither producer nor consumer can read: loading a head makes the tail its
   push had loaded known, so the tail loaded afterwards is that one or a later one.
   */
  ghost predicate Observable(r: Ring, head: nat, tail: nat) {
    head < |r.heads| && r.heads[head].seen <= tail < |r.tails|
  }

  /**
   What such a thread computes, on runs of any length: the exact distance, which is within the capacity, unless the
   tail has passed the head between the two loads; then the distance by which it has, subtracted from 2^64.
   */
  lemma ObservedSize(r: Ring, head: nat, tail: nat)
    requires Inv(r) && Observable(r, head, tail)
    ensures tail <= head ==> SizeFrom(r, head, tail) == head - tail <= |r.slots|
    ensures tail > head ==> SizeFrom(r, head, tail) == (head - tail) % TWO64
    ensures tail > head && |r.popped| + |r.slots| < TWO64 ==> SizeFrom(r, head, tail) > |r.slots|
  {
    if tail <= head {
      DistanceIsExact(head, tail, |r.slots|);
    } else {
      WrappedDifference(head, tail);
      if |r.popped| + |r.slots| < TWO64 {
        DivModUnique(head - tail, TWO64, -1, head - tail + TWO64);
      }
    }
  }

  lemma AfterAPop(r: Ring)
    requires Inv(r) && r.popped != []
    ensures Observable(r, 0, 1) && SizeFrom(r, 0, 1) == TWO64 - 1
  {
    assert r.heads[0].value == 0 && r.tails[1].value == 1;
    WordCases(0, 1);
  }

  /** On any other thread `size()` is sure to lie in 0..capacity exactly while nothing has been popped. */
  lemma ObserverSize(r: Ring)
    requires Inv(r)
    ensures
      (forall head: nat, tail: nat :: Observable(r, head, tail) ==> SizeFrom(r, head, tail) <= |r.slots|)
      <==> r.popped == []
  {
    if r.popped == [] {
      forall head: nat, tail: nat | Observable(r, head, tail)
        ensures SizeFrom(r, head, tail) <= |r.slots|
      {
        ObservedSize(r, head, tail);
      }
    } else {
      CapacityBounds(|r.slots|);
      AfterAPop(r);
    }
  }

  lemma Extend(capacity: nat, actions: seq<Action>, r: Ring, a: Action) returns (done: seq<Action>, r': Ring)
    requires ValidCapacity(capacity) && Run(capacity, actions) == Some(r) && Inv(r) && Enabled(r, a)
    ensures done == actions + [a] && r' == Next(r, a) && Run(capacity, done) == Some(r') && Inv(r')
  {
    done, r' := actions + [a], Next(r, a);
    assert done[..|actions|] == actions;
    StepKeepsInv(r, a);
  }

  lemma ExtendTwice(capacity: nat, actions: seq<Action>, r: Ring, a: Action, b: Action)
    returns (done: seq<Action>, r': Ring)
    requires ValidCapacity(capacity) && Run(capacity, actions) == Some(r) && Inv(r) && Enabled(r, a)
    requires WellSized(Next(r, a)) && Enabled(Next(r, a), b)
    ensures done == actions + [a, b] && r' == Next(Next(r, a), b) && Run(capacity, done) == Some(r') && Inv(r')
  {
    done, r' := Extend(capacity, actions, r, a);
    done, r' := Extend(capacity, done, r', b);
    assert actions + [a] + [b] == actions + [a, b];
  }

  /** A push that is not interleaved and sees the newest tail succeeds whenever the ring has room. */
  lemma SoloPush(capacity: nat, actions: seq<Action>, r: Ring, msg: Frame) returns (done: seq<Action>, r': Ring)
    requires ValidCapacity(capacity) && Run(capacity, actions) == Some(r) && Inv(r)
    requires r.pushing.NotPushing? && |r.pushed| < |r.popped| + |r.slots|
    ensures Run(capacity, done) == Some(r') && Inv(r')
    ensures r'.pushing.NotPushing? && r'.popping == r.popping && |r'.slots| == |r.slots|
    ensures r'.pushed == r.pushed + [msg] && r'.popped == r.popped
    ensures r'.tailSeen == |r.popped| && r'.headSeen == r.headSeen
  {
    var seen: Ring;
    done, seen := ExtendTwice(capacity, actions, r, BeginPush(msg), LoadTail(|r.tails| - 1));
    FullTestIsExact(seen);
    done, r' := ExtendTwice(capacity, done, seen, WriteSlot, StoreHead);
  }

  /** A pop that is not interleaved and sees the newest head takes the oldest frame whenever there is one. */
  lemma SoloPop(capacity: nat, actions: seq<Action>, r: Ring) returns (done: seq<Action>, r': Ring)
    requires ValidCapacity(capacity) && Run(capacity, actions) == Some(r) && Inv(r)
    requires r.popping.NotPopping? && |r.popped| < |r.pushed|
    ensures Run(capacity, done) == Some(r') && Inv(r')
    ensures r'.popping.NotPopping? && r'.pushing == r.pushing && |r'.slots| == |r.slots|
    ensures r'.pushed == r.pushed && r'.popped == r.pushed[..|r.popped| + 1] && r'.tailSeen == r.tailSeen
  {
    var seen: Ring;
    done, seen := ExtendTwice(capacity, actions, r, BeginPop, LoadHead(|r.heads| - 1));
    EmptyTestIsExact(seen);
    done, r' := ExtendTwice(capacity, done, seen, MoveSlot(""), StoreTail);
  }

  /**
   `size()` on a third thread can wrap: load the head, let one push and one pop complete, load the tail, and the
   difference is 2^64 - 1.
   */
  lemma ObserverSizeCanWrap() returns (actions: seq<Action>, r: Ring)
    ensures ValidCapacity(8) && Run(8, actions) == Some(r)
    ensures Observable(r, 0, 1) && SizeFrom(r, 0, 1) == TWO64 - 1
  {
    Pow2Values();
    InitInv(8);
    actions, r := [], Init(8);
    actions, r := SoloPush(8, actions, r, "x");
    actions, r := SoloPop(8, actions, r);
    AfterAPop(r);
  }

  lemma {:induction false} PushMany(capacity: nat, n: nat) returns (actions: seq<Action>, r: Ring)
    requires ValidCapacity(capacity) && n <= capacity
    ensures Run(capacity, actions) == Some(r) && Inv(r) && |r.slots| == capacity
    ensures r.pushing.NotPushing? && r.popping.NotPopping?
    ensures |r.pushed| == n && r.popped == [] && r.tailSeen == 0 && r.headSeen == 0
  {
    if n == 0 {
      InitInv(capacity);
      actions, r := [], Init(capacity);
    } else {
      actions, r := PushMany(capacity, n - 1);
      actions, r := SoloPush(capacity, actions, r, "x");
    }
  }

  lemma {:induction false} FillThenPop(capacity: nat, n: nat) returns (actions: seq<Action>, r: Ring)
    requires ValidCapacity(capacity) && n <= capacity
    ensures Run(capacity, actions) == Some(r) && Inv(r) && |r.slots| == capacity
    ensures r.pushing.NotPushing? && r.popping.NotPopping?
    ensures |r.pushed| == capacity && |r.popped| == n && r.tailSeen == 0
  {
    if n == 0 {
      actions, r := PushMany(capacity, capacity);
    } else {
      actions, r := FillThenPop(capacity, n - 1);
      actions, r := SoloPop(capacity, actions, r);
    }
  }

  /**
   A stale view rejects a push with any amount of room: fill the ring, pop n frames, begin a push and load the
   tail as it was at first. With n == capacity the rejecting ring is empty.
   */
  lemma StaleRejection(capacity: nat, n: nat) returns (actions: seq<Action>, r: Ring)
    requires ValidCapacity(capacity) && n <= capacity
    ensures Run(capacity, actions) == Some(r)
    ensures WellSized(r) && Enabled(r, RejectFull) && |Contents(r)| == capacity - n
  {
    var filled: Ring;
    actions, filled := FillThenPop(capacity, n);
    LoadsFirstTail(filled);
    actions, r := ExtendTwice(capacity, actions, filled, BeginPush("x"), LoadTail(0));
    RejectsUnlessSeen(r);
  }

  lemma LoadsFirstTail(r: Ring)
    requires WellSized(r) && r.pushing.NotPushing? && r.tailSeen == 0
    ensures Enabled(Next(r, BeginPush("x")), LoadTail(0))
    ensures
      var r' := Next(Next(r, BeginPush("x")), LoadTail(0));
      && r'.pushing.LoadedTail? && r'.tailSeen == 0 && |r'.slots| == |r.slots|
      && r'.pushed == r.pushed && r'.popped == r.popped
  {
  }

  lemma RejectsUnlessSeen(r: Ring)
    requires Inv(r) && r.pushing.LoadedTail? && |r.pushed| == r.tailSeen + |r.slots|
    ensures Enabled(r, RejectFull) && |Contents(r)| == |r.pushed| - |r.popped|
  {
    FullTestIsExact(r);
    ContentsInv(r);
  }

  /**
   A stale view also refuses a pop with any number of frames waiting: push n frames, begin a pop and load the head as
   it was at first.
   */
  lemma StaleRefusal(capacity: nat, n: nat) returns (actions: seq<Action>, r: Ring)
    requires ValidCapacity(capacity) && n <= capacity
    ensures Run(capacity, actions) == Some(r)
    ensures WellSized(r) && Enabled(r, RejectEmpty) && |Contents(r)| == n
  {
    var filled: Ring;
    actions, filled := PushMany(capacity, n);
    LoadsFirstHead(filled);
    actions, r := ExtendTwice(capacity, actions, filled, BeginPop, LoadHead(0));
    EmptyTestIsExact(r);
    ContentsInv(r);
  }

  lemma LoadsFirstHead(r: Ring)
    requires WellSized(r) && r.popping.NotPopping? && r.headSeen == 0
    ensures Enabled(Next(r, BeginPop), LoadHead(0))
    ensures
      var r' := Next(Next(r, BeginPop), LoadHead(0));
      && r'.popping.LoadedHead? && r'.headSeen == 0 && |r'.slots| == |r.slots|
      && r'.pushed == r.pushed && r'.popped == r.popped
  {
  }
}
