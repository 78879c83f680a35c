/**
 What the threads can always still do: from every point of every run the consumers can be started, or started again,
 and bring every frame taken so far into the store, and a further frame can be brought there too.
 */
module Progress {
  import opened Bits
  import opened Wrappers
  import opened IngestQueue
  import opened Consumer
  import Pipeline
  import RingPipeline
  import SpscRing

  // ----- one step closer, on a bounded FIFO -----

  /** The queue is empty and the consumer has no frame and no value in its hands. */
  predicate Settled(l: Pipeline.Lane) {
    l.queue == [] && !l.phase.GotFrame? && !l.phase.Parsed? && !l.phase.Upserted?
  }

  /** How far the consumer is from its next pop. */
  function Rank(l: Pipeline.Lane): nat {
    match l.phase
    case InLoop => 0
    case AtLoopHead => if l.running then 1 else 4
    case NoThread => 2
    case Returned => 3
    case Upserted(_) => 5
    case Parsed(_) => 6
    case GotFrame(_) => 7
  }

  function Towards(l: Pipeline.Lane): Pipeline.Step {
    match l.phase
    case InLoop => Pipeline.TryPop(true)
    case AtLoopHead => Pipeline.LoadRunning
    case NoThread => Pipeline.Start
    case Returned => Pipeline.Join
    case Upserted(_) => Pipeline.CallSink
    case Parsed(_) => Pipeline.Upsert
    case GotFrame(_) => Pipeline.ParseFrame
  }

  ghost predicate Closer(l: Pipeline.Lane, l': Pipeline.Lane) {
    |l'.queue| < |l.queue| || (|l'.queue| == |l.queue| && Rank(l') < Rank(l))
  }

  lemma StepTowards(c: Pipeline.Config, l: Pipeline.Lane)
    requires Pipeline.LaneInv(c, l) && !Settled(l)
    ensures Pipeline.LaneEnabled(c, l, Towards(l))
    ensures var l' := Pipeline.LaneNext(c, l, Towards(l)); l'.offers == l.offers && Closer(l, l')
  {
  }

  /** `more` continues a run; it pushes nothing and, of all lanes, moves at most lane i. */
  ghost predicate Continues(c: Pipeline.Config, actions: seq<Pipeline.Action>, more: seq<Pipeline.Action>, i: nat) {
    && Pipeline.Run(c, actions).Some? && Pipeline.Run(c, actions + more).Some?
    && (forall k :: 0 <= k < |more| ==> !more[k].step.Push?)
    && var s, s' := Pipeline.Run(c, actions).value, Pipeline.Run(c, actions + more).value;
       && |s'.lanes| == |s.lanes| == c.lanes
       && forall j :: 0 <= j < c.lanes ==> s'.lanes[j].offers == s.lanes[j].offers && (j != i ==> s'.lanes[j] == s.lanes[j])
  }

  lemma ContinuesJoin(c: Pipeline.Config, actions: seq<Pipeline.Action>, first: seq<Pipeline.Action>,
                      second: seq<Pipeline.Action>, i: nat)
    requires Continues(c, actions, first, i) && Continues(c, actions + first, second, i)
    ensures Continues(c, actions, first + second, i) && actions + first + second == actions + (first + second)
  {
    assert actions + first + second == actions + (first + second);
  }

  /** Lane i after a run. */
  ghost function QueueLane(c: Pipeline.Config, actions: seq<Pipeline.Action>, i: nat): (l: Pipeline.Lane)
    requires Pipeline.Run(c, actions).Some? && i < c.lanes
    ensures |Pipeline.Run(c, actions).value.lanes| == c.lanes && l == Pipeline.Run(c, actions).value.lanes[i]
    ensures Pipeline.LaneInv(c, l)
  {
    Pipeline.LanesInv(c, actions, i);
    Pipeline.Run(c, actions).value.lanes[i]
  }

  lemma AdvanceLane(c: Pipeline.Config, actions: seq<Pipeline.Action>, i: nat) returns (more: seq<Pipeline.Action>)
    requires Pipeline.Run(c, actions).Some? && i < c.lanes && !Settled(QueueLane(c, actions, i))
    ensures Continues(c, actions, more, i)
    ensures Closer(QueueLane(c, actions, i), QueueLane(c, actions + more, i))
  {
    var l := QueueLane(c, actions, i);
    StepTowards(c, l);
    var a := Pipeline.Action(i, Towards(l));
    RingPipeline.PipelineExtend(c, actions, Pipeline.Run(c, actions).value, a);
    more := [a];
  }

  lemma {:induction false} DrainLane(c: Pipeline.Config, actions: seq<Pipeline.Action>, i: nat)
    returns (more: seq<Pipeline.Action>)
    requires Pipeline.Run(c, actions).Some? && i < c.lanes
    ensures Continues(c, actions, more, i) && Settled(QueueLane(c, actions + more, i))
    decreases |QueueLane(c, actions, i).queue|, Rank(QueueLane(c, actions, i))
  {
    if Settled(QueueLane(c, actions, i)) {
      more := [];
      assert actions + [] == actions;
    } else {
      var first := AdvanceLane(c, actions, i);
      var rest := DrainLane(c, actions + first, i);
      ContinuesJoin(c, actions, first, rest, i);
      more := first + rest;
    }
  }

  /** The lanes below n are settled, and no lane has been offered anything more. */
  ghost predicate SettledBelow(c: Pipeline.Config, actions: seq<Pipeline.Action>, more: seq<Pipeline.Action>, n: nat) {
    && Pipeline.Run(c, actions).Some? && Pipeline.Run(c, actions + more).Some?
    && (forall k :: 0 <= k < |more| ==> !more[k].step.Push?)
    && var s, s' := Pipeline.Run(c, actions).value, Pipeline.Run(c, actions + more).value;
       && |s'.lanes| == |s.lanes| == c.lanes
       && (forall j :: 0 <= j < c.lanes ==> s'.lanes[j].offers == s.lanes[j].offers)
       && (forall j :: 0 <= j < n && j < c.lanes ==> Settled(s'.lanes[j]))
  }

  lemma {:induction false} DrainLanes(c: Pipeline.Config, actions: seq<Pipeline.Action>, n: nat)
    returns (more: seq<Pipeline.Action>)
    requires Pipeline.Run(c, actions).Some? && n <= c.lanes
    ensures SettledBelow(c, actions, more, n)
  {
    Pipeline.LaneCount(c, actions);
    if n == 0 {
      more := [];
      assert actions + [] == actions;
    } else {
      var first := DrainLanes(c, actions, n - 1);
      var last := DrainLane(c, actions + first, n - 1);
      more := first + last;
      assert actions + first + last == actions + more;
    }
  }

  /** Everything a lane's ring took has been popped, parsed, filed and handed to the sink, in order, once. */
  ghost predicate Delivered(c: Pipeline.Config, l: Pipeline.Lane) {
    && l.queue == []
    && l.popped == Pipeline.Taken(l.offers)
    && l.written == Accepted(c.parse, Pipeline.Taken(l.offers))
    && (c.hasSink ==> l.sunk == l.written)
  }

  /**
   No run is ever stuck: whatever the threads have done, whether consumers were never started, are running, stopped or
   in the middle of a frame, the run can go on, without any further push, until every frame taken has been delivered.
   */
  lemma EverythingCanBeDelivered(c: Pipeline.Config, actions: seq<Pipeline.Action>)
    returns (more: seq<Pipeline.Action>)
    requires Pipeline.Run(c, actions).Some?
    ensures forall k :: 0 <= k < |more| ==> !more[k].step.Push?
    ensures Pipeline.Run(c, actions + more).Some?
    ensures
      var s, s' := Pipeline.Run(c, actions).value, Pipeline.Run(c, actions + more).value;
      && |s'.lanes| == |s.lanes| == c.lanes
      && forall i :: 0 <= i < c.lanes ==> s'.lanes[i].offers == s.lanes[i].offers && Delivered(c, s'.lanes[i])
  {
    more := DrainLanes(c, actions, c.lanes);
    forall i: nat | i < c.lanes
      ensures Delivered(c, Pipeline.Run(c, actions + more).value.lanes[i])
    {
      Pipeline.LanesInv(c, actions + more, i);
    }
  }

  // ----- a stop takes effect -----

  /** A lane not running pops at most once more before it is started again. */
  ghost predicate Stopping(l: Pipeline.Lane, bound: nat) {
    !l.running && |l.popped| + (if l.phase.InLoop? then 1 else 0) <= bound
  }

  lemma StoppingStep(c: Pipeline.Config, l: Pipeline.Lane, step: Pipeline.Step, bound: nat)
    requires Stopping(l, bound) && Pipeline.LaneEnabled(c, l, step) && !step.Start?
    ensures Stopping(Pipeline.LaneNext(c, l, step), bound)
  {
  }

  lemma StoppingNext(c: Pipeline.Config, s: Pipeline.System, a: Pipeline.Action, i: nat, bound: nat)
    requires i < |s.lanes| && Stopping(s.lanes[i], bound) && Pipeline.Enabled(c, s, a)
    requires !(a.lane == i && a.step.Start?)
    ensures Stopping(Pipeline.Next(c, s, a).lanes[i], bound)
  {
    if a.lane == i {
      StoppingStep(c, s.lanes[i], a.step, bound);
    }
  }

  /**
   After a stop is requested, and until the next start, a consumer takes at most one further frame: `before` is a run,
   and `more` what happens after the request.
   */
  lemma {:induction false} StopIsPrompt(c: Pipeline.Config, before: seq<Pipeline.Action>, i: nat,
                                        more: seq<Pipeline.Action>)
    requires Pipeline.Run(c, before).Some? && i < c.lanes
    requires Pipeline.Run(c, before + [Pipeline.Action(i, Pipeline.RequestStop)] + more).Some?
    requires forall k :: 0 <= k < |more| ==> !(more[k].lane == i && more[k].step.Start?)
    ensures
      var s' := Pipeline.Run(c, before + [Pipeline.Action(i, Pipeline.RequestStop)] + more).value;
      && |Pipeline.Run(c, before).value.lanes| == |s'.lanes| == c.lanes
      && Stopping(s'.lanes[i], |Pipeline.Run(c, before).value.lanes[i].popped| + 1)
    decreases |more|
  {
    var stop := [Pipeline.Action(i, Pipeline.RequestStop)];
    Pipeline.LaneCount(c, before);
    var bound := |Pipeline.Run(c, before).value.lanes[i].popped| + 1;
    if more == [] {
      RingPipeline.PipelineExtend(c, before, Pipeline.Run(c, before).value, stop[0]);
      assert before + stop + [] == before + stop;
    } else {
      var n := |more| - 1;
      var all := before + stop + more;
      assert all[..|all| - 1] == before + stop + more[..n] && all[|all| - 1] == more[n];
      StopIsPrompt(c, before, i, more[..n]);
      Pipeline.LaneCount(c, before + stop + more[..n]);
      StoppingNext(c, Pipeline.Run(c, before + stop + more[..n]).value, more[n], i, bound);
    }
  }

  // ----- one step closer, on the ring -----

  /** Nothing is being pushed, the ring is empty and the consumer has nothing in its hands. */
  ghost predicate RingSettled(l: RingPipeline.Lane) {
    && l.ring.pushing.NotPushing? && l.ring.popped == l.ring.pushed
    && !l.phase.GotFrame? && !l.phase.Parsed? && !l.phase.Upserted?
  }

  function PushRank(l: RingPipeline.Lane): nat {
    match l.ring.pushing
    case NotPushing => 0
    case WroteSlot(_, _) => 1
    case LoadedTail(_, _, _) => 2
    case LoadedOwnHead(_, _) => 3
  }

  function PopRank(l: RingPipeline.Lane): nat {
    match l.ring.popping
    case MovedSlot(_, _) => 0
    case LoadedHead(_, _) => if l.ring.headSeen > |l.ring.popped| then 1 else 11
    case LoadedOwnTail(_) => 2
    case NotPopping =>
      match l.phase
      case InLoop => 3
      case AtLoopHead => if l.running then 4 else 7
      case NoThread => 5
      case Returned => 6
      case Upserted(_) => 8
      case Parsed(_) => 9
      case GotFrame(_) => 10
  }

  ghost function PushTowards(r: SpscRing.Ring): SpscRing.Action
    requires !r.pushing.NotPushing?
  {
    match r.pushing
    case LoadedOwnHead(_, _) => if |r.tails| > 0 then SpscRing.LoadTail(|r.tails| - 1) else SpscRing.LoadTail(0)
    case LoadedTail(_, _, _) => if SpscRing.Enabled(r, SpscRing.RejectFull) then SpscRing.RejectFull else SpscRing.WriteSlot
    case WroteSlot(_, _) => SpscRing.StoreHead
  }

  ghost function PopTowards(r: SpscRing.Ring): SpscRing.Action {
    match r.popping
    case NotPopping => SpscRing.BeginPop
    case LoadedOwnTail(_) => if |r.heads| > 0 then SpscRing.LoadHead(|r.heads| - 1) else SpscRing.LoadHead(0)
    case LoadedHead(_, _) => if SpscRing.Enabled(r, SpscRing.RejectEmpty) then SpscRing.RejectEmpty else SpscRing.MoveSlot("")
    case MovedSlot(_, _) => SpscRing.StoreTail
  }

  ghost function RingTowards(l: RingPipeline.Lane): RingPipeline.Step {
    if !l.ring.pushing.NotPushing? then RingPipeline.RingStep(PushTowards(l.ring))
    else if l.phase.InLoop? then RingPipeline.RingStep(PopTowards(l.ring))
    else
      match l.phase
      case NoThread => RingPipeline.Control(Pipeline.Start)
      case Returned => RingPipeline.Control(Pipeline.Join)
      case Upserted(_) => RingPipeline.Control(Pipeline.CallSink)
      case Parsed(_) => RingPipeline.Control(Pipeline.Upsert)
      case GotFrame(_) => RingPipeline.Control(Pipeline.ParseFrame)
      case _ => RingPipeline.Control(Pipeline.LoadRunning)
  }

  /** The offers once the push under way has finished with the newest tail: it is taken unless the ring is full. */
  ghost function Completed(l: RingPipeline.Lane): seq<Pipeline.Offer> {
    var r := l.ring;
    match r.pushing
    case NotPushing => l.offers
    case LoadedOwnHead(msg, _) => l.offers + [Pipeline.Offer(msg, |r.pushed| < |r.popped| + |r.slots|)]
    case LoadedTail(msg, _, _) => l.offers + [Pipeline.Offer(msg, |r.pushed| < r.tailSeen + |r.slots|)]
    case WroteSlot(msg, _) => l.offers + [Pipeline.Offer(msg, true)]
  }

  ghost predicate RingCloser(l: RingPipeline.Lane, l': RingPipeline.Lane)
    requires |l.ring.popped| <= |l.ring.pushed| && |l'.ring.popped| <= |l'.ring.pushed|
  {
    var n, n' := |l.ring.pushed| - |l.ring.popped|, |l'.ring.pushed| - |l'.ring.popped|;
    || PushRank(l') < PushRank(l)
    || (PushRank(l') == PushRank(l) && (n' < n || (n' == n && PopRank(l') < PopRank(l))))
  }

  ghost predicate Fine(c: RingPipeline.Config, l: RingPipeline.Lane) {
    RingPipeline.LaneInv(c, l) && Pipeline.LaneInv(c, RingPipeline.Project(l))
  }

  /** The step is possible, brings the lane closer, and leaves what will have been offered as it is. */
  ghost predicate Advances(c: RingPipeline.Config, l: RingPipeline.Lane, s: RingPipeline.Step) {
    && RingPipeline.LaneEnabled(c, l, s)
    && var l' := RingPipeline.LaneNext(c, l, s);
       && Completed(l') == Completed(l)
       && |l.ring.popped| <= |l.ring.pushed| && |l'.ring.popped| <= |l'.ring.pushed|
       && RingCloser(l, l')
  }

  lemma LoadTailAdvances(c: RingPipeline.Config, l: RingPipeline.Lane)
    requires RingPipeline.LaneInv(c, l) && l.ring.pushing.LoadedOwnHead?
    ensures Advances(c, l, RingTowards(l))
  {
  }

  lemma TestAdvances(c: RingPipeline.Config, l: RingPipeline.Lane)
    requires RingPipeline.LaneInv(c, l) && l.ring.pushing.LoadedTail?
    ensures Advances(c, l, RingTowards(l))
  {
    SpscRing.FullTestIsExact(l.ring);
  }

  lemma StoreHeadAdvances(c: RingPipeline.Config, l: RingPipeline.Lane)
    requires RingPipeline.LaneInv(c, l) && l.ring.pushing.WroteSlot?
    ensures Advances(c, l, RingTowards(l))
  {
  }

  /** A consumer inside its loop whose ring is not empty, with no push under way. */
  ghost predicate CanPop(c: RingPipeline.Config, l: RingPipeline.Lane) {
    && RingPipeline.LaneInv(c, l) && l.ring.pushing.NotPushing? && l.phase.InLoop?
    && |l.ring.popped| < |l.ring.pushed|
  }

  lemma BeginPopAdvances(c: RingPipeline.Config, l: RingPipeline.Lane)
    requires CanPop(c, l) && l.ring.popping.NotPopping?
    ensures Advances(c, l, RingTowards(l))
  {
  }

  lemma LoadHeadAdvances(c: RingPipeline.Config, l: RingPipeline.Lane)
    requires CanPop(c, l) && l.ring.popping.LoadedOwnTail?
    ensures Advances(c, l, RingTowards(l))
  {
  }

  lemma EmptyTestAdvances(c: RingPipeline.Config, l: RingPipeline.Lane)
    requires CanPop(c, l) && l.ring.popping.LoadedHead?
    ensures Advances(c, l, RingTowards(l))
  {
    SpscRing.EmptyTestIsExact(l.ring);
  }

  lemma StoreTailAdvances(c: RingPipeline.Config, l: RingPipeline.Lane)
    requires CanPop(c, l) && l.ring.popping.MovedSlot?
    ensures Advances(c, l, RingTowards(l))
  {
  }

  lemma ControlAdvances(c: RingPipeline.Config, l: RingPipeline.Lane)
    requires Fine(c, l) && l.ring.pushing.NotPushing? && !l.phase.InLoop? && !RingSettled(l)
    ensures Advances(c, l, RingTowards(l))
  {
  }

  lemma RingStepTowards(c: RingPipeline.Config, l: RingPipeline.Lane)
    requires Fine(c, l) && !RingSettled(l)
    ensures Advances(c, l, RingTowards(l))
  {
    if l.ring.pushing.LoadedOwnHead? {
      LoadTailAdvances(c, l);
    } else if l.ring.pushing.LoadedTail? {
      TestAdvances(c, l);
    } else if l.ring.pushing.WroteSlot? {
      StoreHeadAdvances(c, l);
    } else if !l.phase.InLoop? {
      ControlAdvances(c, l);
    } else {
      assert l.ring.popped <= l.ring.pushed && l.ring.popped != l.ring.pushed;
      match l.ring.popping {
        case NotPopping => BeginPopAdvances(c, l);
        case LoadedOwnTail(_) => LoadHeadAdvances(c, l);
        case LoadedHead(_, _) => EmptyTestAdvances(c, l);
        case MovedSlot(_, _) => StoreTailAdvances(c, l);
      }
    }
  }

  lemma LaneIsFine(c: RingPipeline.Config, actions: seq<RingPipeline.Action>, i: nat)
    requires ValidCapacity(c.capacity) && RingPipeline.Run(c, actions).Some? && i < c.lanes
    ensures |RingPipeline.Run(c, actions).value.lanes| == c.lanes && Fine(c, RingPipeline.Run(c, actions).value.lanes[i])
  {
    RingPipeline.RefinesPipeline(c, actions);
    Pipeline.LanesInv(c, RingPipeline.ShadowRun(c, actions), i);
    var s := RingPipeline.Run(c, actions).value;
    assert RingPipeline.LaneInv(c, s.lanes[i]);
    assert RingPipeline.ProjectSystem(c, s).lanes[i] == RingPipeline.Project(s.lanes[i]);
  }

  lemma RingExtend(c: RingPipeline.Config, actions: seq<RingPipeline.Action>, a: RingPipeline.Action)
    requires ValidCapacity(c.capacity) && RingPipeline.Run(c, actions).Some?
    requires RingPipeline.Enabled(c, RingPipeline.Run(c, actions).value, a)
    ensures
      RingPipeline.Run(c, actions + [a]) == Some(RingPipeline.Next(c, RingPipeline.Run(c, actions).value, a))
  {
    assert (actions + [a])[..|actions|] == actions;
  }

  predicate BeginsPush(a: RingPipeline.Action) {
    a.step.RingStep? && a.step.a.BeginPush?
  }

  /** `more` continues a run of the rings; it begins no push and, of all lanes, moves at most lane i. */
  ghost predicate RingContinues(c: RingPipeline.Config, actions: seq<RingPipeline.Action>,
                                more: seq<RingPipeline.Action>, i: nat)
    requires ValidCapacity(c.capacity)
  {
    && RingPipeline.Run(c, actions).Some? && RingPipeline.Run(c, actions + more).Some?
    && (forall k :: 0 <= k < |more| ==> !BeginsPush(more[k]))
    && OnlyLane(c, RingPipeline.Run(c, actions).value, RingPipeline.Run(c, actions + more).value, i)
  }

  /** From s to s' no lane but i has moved, and no push has begun. */
  ghost predicate OnlyLane(c: RingPipeline.Config, s: RingPipeline.System, s': RingPipeline.System, i: nat) {
    && |s'.lanes| == |s.lanes| == c.lanes
    && forall j :: 0 <= j < c.lanes ==>
         Completed(s'.lanes[j]) == Completed(s.lanes[j]) && (j != i ==> s'.lanes[j] == s.lanes[j])
  }

  lemma OnlyLaneJoin(c: RingPipeline.Config, s: RingPipeline.System, s1: RingPipeline.System,
                     s2: RingPipeline.System, i: nat)
    requires OnlyLane(c, s, s1, i) && OnlyLane(c, s1, s2, i)
    ensures OnlyLane(c, s, s2, i)
  {
  }

  lemma RingContinuesJoin(c: RingPipeline.Config, actions: seq<RingPipeline.Action>, first: seq<RingPipeline.Action>,
                          second: seq<RingPipeline.Action>, i: nat)
    requires ValidCapacity(c.capacity)
    requires RingContinues(c, actions, first, i) && RingContinues(c, actions + first, second, i)
    ensures RingContinues(c, actions, first + second, i)
    ensures actions + first + second == actions + (first + second)
  {
    Associative(actions, first, second);
    OnlyLaneJoin(c, RingPipeline.Run(c, actions).value, RingPipeline.Run(c, actions + first).value,
                 RingPipeline.Run(c, actions + first + second).value, i);
  }

  lemma OneStepContinues(c: RingPipeline.Config, actions: seq<RingPipeline.Action>, a: RingPipeline.Action)
    requires ValidCapacity(c.capacity) && RingPipeline.Run(c, actions).Some?
    requires |RingPipeline.Run(c, actions).value.lanes| == c.lanes
    requires RingPipeline.Enabled(c, RingPipeline.Run(c, actions).value, a) && !BeginsPush(a)
    requires
      var l := RingPipeline.Run(c, actions).value.lanes[a.lane];
      Completed(RingPipeline.LaneNext(c, l, a.step)) == Completed(l)
    ensures RingContinues(c, actions, [a], a.lane)
    ensures
      RingPipeline.Run(c, actions + [a]).value.lanes[a.lane]
      == RingPipeline.LaneNext(c, RingPipeline.Run(c, actions).value.lanes[a.lane], a.step)
  {
    RingExtend(c, actions, a);
  }

  /** Lane i after a run. */
  ghost function LaneOf(c: RingPipeline.Config, actions: seq<RingPipeline.Action>, i: nat): (l: RingPipeline.Lane)
    requires ValidCapacity(c.capacity) && RingPipeline.Run(c, actions).Some? && i < c.lanes
    ensures |RingPipeline.Run(c, actions).value.lanes| == c.lanes && l == RingPipeline.Run(c, actions).value.lanes[i]
    ensures Fine(c, l) && |l.ring.popped| <= |l.ring.pushed|
  {
    LaneIsFine(c, actions, i);
    RingPipeline.Run(c, actions).value.lanes[i]
  }

  lemma AdvanceRing(c: RingPipeline.Config, actions: seq<RingPipeline.Action>, i: nat)
    returns (more: seq<RingPipeline.Action>)
    requires ValidCapacity(c.capacity) && RingPipeline.Run(c, actions).Some? && i < c.lanes
    requires !RingSettled(LaneOf(c, actions, i))
    ensures RingContinues(c, actions, more, i)
    ensures RingCloser(LaneOf(c, actions, i), LaneOf(c, actions + more, i))
  {
    var l := LaneOf(c, actions, i);
    RingStepTowards(c, l);
    var a := RingPipeline.Action(i, RingTowards(l));
    OneStepContinues(c, actions, a);
    more := [a];
  }

  lemma {:induction false} DrainRing(c: RingPipeline.Config, actions: seq<RingPipeline.Action>, i: nat)
    returns (more: seq<RingPipeline.Action>)
    requires ValidCapacity(c.capacity) && RingPipeline.Run(c, actions).Some? && i < c.lanes
    ensures RingContinues(c, actions, more, i) && RingSettled(LaneOf(c, actions + more, i))
    decreases
      PushRank(LaneOf(c, actions, i)),
      |LaneOf(c, actions, i).ring.pushed| - |LaneOf(c, actions, i).ring.popped|,
      PopRank(LaneOf(c, actions, i))
  {
    var l := LaneOf(c, actions, i);
    if RingSettled(l) {
      more := [];
      assert actions + [] == actions;
    } else {
      var first := AdvanceRing(c, actions, i);
      var rest := DrainRing(c, actions + first, i);
      RingContinuesJoin(c, actions, first, rest, i);
      more := first + rest;
    }
  }

  ghost predicate RingSettledBelow(c: RingPipeline.Config, actions: seq<RingPipeline.Action>,
                                   more: seq<RingPipeline.Action>, n: nat)
    requires ValidCapacity(c.capacity)
  {
    && RingPipeline.Run(c, actions).Some? && RingPipeline.Run(c, actions + more).Some?
    && (forall k :: 0 <= k < |more| ==> !BeginsPush(more[k]))
    && var s, s' := RingPipeline.Run(c, actions).value, RingPipeline.Run(c, actions + more).value;
       && |s'.lanes| == |s.lanes| == c.lanes
       && (forall j :: 0 <= j < c.lanes ==> Completed(s'.lanes[j]) == Completed(s.lanes[j]))
       && (forall j :: 0 <= j < n && j < c.lanes ==> RingSettled(s'.lanes[j]))
  }

  lemma SettledBelowNext(c: RingPipeline.Config, actions: seq<RingPipeline.Action>, first: seq<RingPipeline.Action>,
                         last: seq<RingPipeline.Action>, n: nat)
    requires ValidCapacity(c.capacity) && n < c.lanes
    requires RingSettledBelow(c, actions, first, n) && RingContinues(c, actions + first, last, n)
    requires RingSettled(RingPipeline.Run(c, actions + first + last).value.lanes[n])
    ensures RingSettledBelow(c, actions, first + last, n + 1)
  {
    assert actions + first + last == actions + (first + last);
  }

  lemma {:induction false} DrainRings(c: RingPipeline.Config, actions: seq<RingPipeline.Action>, n: nat)
    returns (more: seq<RingPipeline.Action>)
    requires ValidCapacity(c.capacity) && RingPipeline.Run(c, actions).Some? && n <= c.lanes
    ensures RingSettledBelow(c, actions, more, n)
  {
    if n == 0 {
      RingPipeline.RefinesPipeline(c, actions);
      more := [];
      assert actions + [] == actions;
    } else {
      var first := DrainRings(c, actions, n - 1);
      var last := DrainRing(c, actions + first, n - 1);
      SettledBelowNext(c, actions, first, last, n - 1);
      more := first + last;
    }
  }

  /** The ring is empty and everything it ever took has been parsed, filed and handed to the sink, in order, once. */
  ghost predicate RingDelivered(c: RingPipeline.Config, l: RingPipeline.Lane) {
    && SpscRing.WellSized(l.ring) && SpscRing.Contents(l.ring) == [] && l.ring.pushing.NotPushing?
    && l.ring.popped == l.ring.pushed == Pipeline.Taken(l.offers)
    && l.written == Accepted(c.parse, Pipeline.Taken(l.offers))
    && (c.hasSink ==> l.sunk == l.written)
  }

  lemma SettledIsDelivered(c: RingPipeline.Config, l: RingPipeline.Lane)
    requires Fine(c, l) && RingSettled(l)
    ensures RingDelivered(c, l)
  {
    SpscRing.ContentsInv(l.ring);
  }

  /** From s to s' every push under way has finished and everything taken has been delivered, in every lane. */
  ghost predicate AllDelivered(c: RingPipeline.Config, s: RingPipeline.System, s': RingPipeline.System) {
    && |s'.lanes| == |s.lanes| == c.lanes
    && forall i :: 0 <= i < c.lanes ==> s'.lanes[i].offers == Completed(s.lanes[i]) && RingDelivered(c, s'.lanes[i])
  }

  /**
   The same with the rings in place: from every point of every interleaving, mid-push and mid-pop included and
   however stale the loads so far, the pushes under way can finish and everything taken can be delivered, without a
   further push being begun. A push under way is taken unless the ring was full.
   */
  lemma RingsCanBeDelivered(c: RingPipeline.Config, actions: seq<RingPipeline.Action>)
    returns (more: seq<RingPipeline.Action>)
    requires ValidCapacity(c.capacity) && RingPipeline.Run(c, actions).Some?
    ensures forall k :: 0 <= k < |more| ==> !BeginsPush(more[k])
    ensures RingPipeline.Run(c, actions + more).Some?
    ensures AllDelivered(c, RingPipeline.Run(c, actions).value, RingPipeline.Run(c, actions + more).value)
  {
    more := DrainRings(c, actions, c.lanes);
    forall i: nat | i < c.lanes
      ensures RingDelivered(c, RingPipeline.Run(c, actions + more).value.lanes[i])
    {
      LaneIsFine(c, actions + more, i);
      SettledIsDelivered(c, RingPipeline.Run(c, actions + more).value.lanes[i]);
    }
  }

  /** From s to s' a push of f has begun in lane i, and in the other lanes nothing has. */
  ghost predicate PushBegun(c: RingPipeline.Config, s: RingPipeline.System, s': RingPipeline.System, i: nat, f: Frame) {
    && |s'.lanes| == |s.lanes| == c.lanes
    && forall j :: 0 <= j < c.lanes ==>
         Completed(s'.lanes[j]) == if j == i then s.lanes[j].offers + [Pipeline.Offer(f, true)] else s.lanes[j].offers
  }

  /** From s to s' everything under way and then f, in lane i, has been delivered. */
  ghost predicate DeliveredAfter(c: RingPipeline.Config, s: RingPipeline.System, s': RingPipeline.System, i: nat,
                                 f: Frame)
  {
    && |s'.lanes| == |s.lanes| == c.lanes
    && forall j :: 0 <= j < c.lanes ==>
         && RingDelivered(c, s'.lanes[j])
         && s'.lanes[j].offers
            == if j == i then Completed(s.lanes[j]) + [Pipeline.Offer(f, true)] else Completed(s.lanes[j])
  }

  lemma DeliveredChain(c: RingPipeline.Config, s0: RingPipeline.System, s1: RingPipeline.System,
                       s2: RingPipeline.System, s3: RingPipeline.System, i: nat, f: Frame)
    requires AllDelivered(c, s0, s1) && PushBegun(c, s1, s2, i, f) && AllDelivered(c, s2, s3)
    ensures DeliveredAfter(c, s0, s3, i, f)
  {
  }

  /** `more` takes the system from s to s', where s is the system after `actions`. */
  ghost predicate Leads(c: RingPipeline.Config, actions: seq<RingPipeline.Action>, s: RingPipeline.System,
                        more: seq<RingPipeline.Action>, s': RingPipeline.System)
  {
    && ValidCapacity(c.capacity)
    && RingPipeline.Run(c, actions) == Some(s) && RingPipeline.Run(c, actions + more) == Some(s')
  }

  lemma LeadsJoin(c: RingPipeline.Config, actions: seq<RingPipeline.Action>, s: RingPipeline.System,
                  first: seq<RingPipeline.Action>, s1: RingPipeline.System, second: seq<RingPipeline.Action>,
                  s2: RingPipeline.System)
    requires Leads(c, actions, s, first, s1) && Leads(c, actions + first, s1, second, s2)
    ensures Leads(c, actions, s, first + second, s2)
  {
    assert actions + first + second == actions + (first + second);
  }

  lemma Deliver(c: RingPipeline.Config, actions: seq<RingPipeline.Action>, s: RingPipeline.System)
    returns (more: seq<RingPipeline.Action>, s': RingPipeline.System)
    requires ValidCapacity(c.capacity) && RingPipeline.Run(c, actions) == Some(s)
    ensures Leads(c, actions, s, more, s') && AllDelivered(c, s, s')
  {
    more := RingsCanBeDelivered(c, actions);
    s' := RingPipeline.Run(c, actions + more).value;
  }

  lemma BeginFurtherPush(c: RingPipeline.Config, actions: seq<RingPipeline.Action>, s: RingPipeline.System, i: nat,
                         f: Frame)
    returns (more: seq<RingPipeline.Action>, s': RingPipeline.System)
    requires ValidCapacity(c.capacity) && RingPipeline.Run(c, actions) == Some(s) && i < c.lanes == |s.lanes|
    requires forall j :: 0 <= j < c.lanes ==> RingDelivered(c, s.lanes[j])
    ensures Leads(c, actions, s, more, s') && PushBegun(c, s, s', i, f)
  {
    var a := RingPipeline.Action(i, RingPipeline.RingStep(SpscRing.BeginPush(f)));
    PushCanBegin(c, s.lanes[i], f);
    RingExtend(c, actions, a);
    more, s' := [a], RingPipeline.Next(c, s, a);
    forall j | 0 <= j < c.lanes && j != i
      ensures Completed(s.lanes[j]) == s.lanes[j].offers
    {
      assert RingDelivered(c, s.lanes[j]);
    }
  }

  lemma DeliverThenBegin(c: RingPipeline.Config, actions: seq<RingPipeline.Action>, s: RingPipeline.System, i: nat,
                         f: Frame)
    returns (more: seq<RingPipeline.Action>, s1: RingPipeline.System, s2: RingPipeline.System)
    requires ValidCapacity(c.capacity) && RingPipeline.Run(c, actions) == Some(s) && i < c.lanes
    ensures Leads(c, actions, s, more, s2) && AllDelivered(c, s, s1) && PushBegun(c, s1, s2, i, f)
  {
    var first, second;
    first, s1 := Deliver(c, actions, s);
    second, s2 := BeginFurtherPush(c, actions + first, s1, i, f);
    LeadsJoin(c, actions, s, first, s1, second, s2);
    more := first + second;
  }

  /**
   And a further frame can be brought through: from every point of every run, any frame f can be pushed into the ring
   of any lane, taken, and delivered as the lane's last.
   */
  lemma AnotherFrameCanBeDelivered(c: RingPipeline.Config, actions: seq<RingPipeline.Action>, s: RingPipeline.System,
                                   i: nat, f: Frame)
    returns (more: seq<RingPipeline.Action>, s': RingPipeline.System)
    requires ValidCapacity(c.capacity) && RingPipeline.Run(c, actions) == Some(s) && i < c.lanes
    ensures Leads(c, actions, s, more, s') && DeliveredAfter(c, s, s', i, f)
  {
    var first, s1, s2 := DeliverThenBegin(c, actions, s, i, f);
    var last;
    last, s' := Deliver(c, actions + first, s2);
    LeadsJoin(c, actions, s, first, s2, last, s');
    DeliveredChain(c, s, s1, s2, s', i, f);
    more := first + last;
  }

  lemma PushCanBegin(c: RingPipeline.Config, l: RingPipeline.Lane, f: Frame)
    requires RingDelivered(c, l)
    ensures RingPipeline.LaneEnabled(c, l, RingPipeline.RingStep(SpscRing.BeginPush(f)))
    ensures
      Completed(RingPipeline.LaneNext(c, l, RingPipeline.RingStep(SpscRing.BeginPush(f))))
      == l.offers + [Pipeline.Offer(f, true)]
  {
    CapacityBounds(|l.ring.slots|);
  }
}
