/**
 The ingest pipeline with the ring itself in every lane: the producer and the consumer of a lane interleave at each
 load, slot access and store of `try_push` and `try_pop`, with stale loads, and with the steps of all other threads.
 Every run is projected to a run of module Pipeline, whose results then hold of the rings.
 */
module RingPipeline {
  import opened Wrappers
  import opened Parser
  import opened LtpStore
  import opened IngestQueue
  import opened Consumer
  import opened Chunking
  import Pipeline
  import Sharder
  import SpscRing

  type Config = Pipeline.Config

  datatype Lane = Lane(
    ring: SpscRing.Ring,
    running: bool,
    phase: Pipeline.Phase,
    offers: seq<Pipeline.Offer>,
    written: seq<Ltp>,
    sunk: seq<Ltp>)

  datatype System = System(lanes: seq<Lane>, store: map<Token, Ltp>, writes: seq<Ltp>)

  /** One step inside `try_push` or `try_pop`, or a step of the consumer thread outside them. */
  datatype Step = RingStep(a: SpscRing.Action) | Control(step: Pipeline.Step)

  datatype Action = Action(lane: nat, step: Step)

  /** The lane as module Pipeline sees it: the queue is what the memory of the ring holds. */
  ghost function Project(l: Lane): Pipeline.Lane
    requires SpscRing.WellSized(l.ring)
  {
    Pipeline.Lane(SpscRing.Contents(l.ring), l.running, l.phase, l.offers, l.ring.popped, l.written, l.sunk)
  }

  ghost predicate LaneEnabled(c: Config, l: Lane, s: Step) {
    && SpscRing.WellSized(l.ring)
    && match s
       case RingStep(a) => SpscRing.Enabled(l.ring, a) && (a.BeginPop? ==> l.phase.InLoop?)
       case Control(p) => !p.Push? && !p.TryPop? && Pipeline.LaneEnabled(c, Project(l), p)
  }

  ghost function LaneNext(c: Config, l: Lane, s: Step): Lane
    requires LaneEnabled(c, l, s)
  {
    match s
    case Control(p) =>
      var next := Pipeline.LaneNext(c, Project(l), p);
      l.(running := next.running, phase := next.phase, written := next.written, sunk := next.sunk)
    case RingStep(a) =>
      var r := SpscRing.Next(l.ring, a);
      match a
      case StoreHead => l.(ring := r, offers := l.offers + [Pipeline.Offer(l.ring.pushing.msg, true)])
      case RejectFull => l.(ring := r, offers := l.offers + [Pipeline.Offer(l.ring.pushing.msg, false)])
      case StoreTail => l.(ring := r, phase := Pipeline.GotFrame(l.ring.popping.out))
      case RejectEmpty => l.(ring := r, phase := Pipeline.AtLoopHead)
      case _ => l.(ring := r)
  }

  ghost predicate Enabled(c: Config, s: System, a: Action) {
    a.lane < |s.lanes| && LaneEnabled(c, s.lanes[a.lane], a.step)
  }

  ghost function Next(c: Config, s: System, a: Action): System
    requires Enabled(c, s, a)
  {
    var l := s.lanes[a.lane];
    var s' := s.(lanes := s.lanes[a.lane := LaneNext(c, l, a.step)]);
    if a.step == Control(Pipeline.Upsert) then
      s'.(store := s.store[l.phase.ltp.token := l.phase.ltp], writes := s.writes + [l.phase.ltp])
    else s'
  }

  ghost function Idle(capacity: nat): Lane
    requires ValidCapacity(capacity)
  {
    Lane(SpscRing.Init(capacity), false, Pipeline.NoThread, [], [], [])
  }

  ghost function Run(c: Config, actions: seq<Action>): Option<System>
    requires ValidCapacity(c.capacity)
    decreases |actions|
  {
    if actions == [] then
      var idle := Idle(c.capacity);
      Some(System(seq(c.lanes, _ => idle), map[], []))
    else
      var n := |actions| - 1;
      match Run(c, actions[..n])
      case None => None
      case Some(s) => if Enabled(c, s, actions[n]) then Some(Next(c, s, actions[n])) else None
  }

  // ----- every run is a run of module Pipeline -----

  /** What a step looks like in module Pipeline; None when nothing shows. */
  ghost function Shadow(l: Lane, s: Step): Option<Pipeline.Step>
    requires s.RingStep? ==> SpscRing.Enabled(l.ring, s.a)
  {
    match s
    case Control(p) => Some(p)
    case RingStep(a) =>
      match a
      case StoreHead => Some(Pipeline.Push(l.ring.pushing.msg, true))
      case RejectFull => Some(Pipeline.Push(l.ring.pushing.msg, false))
      case StoreTail => Some(Pipeline.TryPop(true))
      case RejectEmpty => Some(Pipeline.TryPop(false))
      case _ => None
  }

  ghost predicate LaneInv(c: Config, l: Lane) {
    && SpscRing.Inv(l.ring)
    && |l.ring.slots| == c.capacity
    && (!l.ring.popping.NotPopping? ==> l.phase.InLoop?)
    && Pipeline.Taken(l.offers) == l.ring.pushed
  }

  lemma RingStepKeepsInv(c: Config, l: Lane, a: SpscRing.Action)
    requires LaneInv(c, l) && LaneEnabled(c, l, RingStep(a))
    ensures LaneInv(c, LaneNext(c, l, RingStep(a)))
  {
    SpscRing.StepKeepsInv(l.ring, a);
    match a
    case StoreHead => Pipeline.OffersAppend(l.offers, Pipeline.Offer(l.ring.pushing.msg, true));
    case RejectFull => Pipeline.OffersAppend(l.offers, Pipeline.Offer(l.ring.pushing.msg, false));
    case _ =>
  }

  /** Between two lanes, a step happened that is s in module Pipeline, or nothing that shows. */
  ghost predicate Follows(c: Config, p: Pipeline.Lane, s: Option<Pipeline.Step>, p': Pipeline.Lane) {
    match s
    case None => p' == p
    case Some(step) => Pipeline.LaneEnabled(c, p, step) && p' == Pipeline.LaneNext(c, p, step)
  }

  lemma RingStepFollows(c: Config, l: Lane, a: SpscRing.Action)
    requires LaneInv(c, l) && LaneEnabled(c, l, RingStep(a))
    ensures SpscRing.WellSized(LaneNext(c, l, RingStep(a)).ring)
    ensures Follows(c, Project(l), Shadow(l, RingStep(a)), Project(LaneNext(c, l, RingStep(a))))
  {
    Pipeline.LaneQueueIsTheRing(c, Project(l), l.ring, a);
  }

  /** Each step of a lane keeps the lane's invariant and is one step of module Pipeline, or none. */
  lemma LaneStepRefines(c: Config, l: Lane, s: Step)
    requires LaneInv(c, l) && LaneEnabled(c, l, s)
    ensures LaneInv(c, LaneNext(c, l, s))
    ensures Follows(c, Project(l), Shadow(l, s), Project(LaneNext(c, l, s)))
  {
    if s.RingStep? {
      RingStepKeepsInv(c, l, s.a);
      RingStepFollows(c, l, s.a);
    }
  }

  ghost predicate SystemInv(c: Config, s: System) {
    && |s.lanes| == c.lanes
    && forall i :: 0 <= i < |s.lanes| ==> LaneInv(c, s.lanes[i])
  }

  ghost function ProjectLanes(c: Config, s: System): (r: seq<Pipeline.Lane>)
    requires SystemInv(c, s)
    ensures |r| == |s.lanes| && forall i :: 0 <= i < |r| ==> r[i] == Project(s.lanes[i])
  {
    seq(|s.lanes|, i requires 0 <= i < |s.lanes| => assert LaneInv(c, s.lanes[i]); Project(s.lanes[i]))
  }

  ghost function ProjectSystem(c: Config, s: System): Pipeline.System
    requires SystemInv(c, s)
  {
    Pipeline.System(ProjectLanes(c, s), s.store, s.writes)
  }

  ghost function LaneView(c: Config, s: System, i: nat): Pipeline.Lane
    requires SystemInv(c, s) && i < |s.lanes|
  {
    assert LaneInv(c, s.lanes[i]);
    Project(s.lanes[i])
  }

  /** The same for the whole system: some other lane's step leaves a lane as it was. */
  lemma StepRefines(c: Config, s: System, a: Action)
    requires SystemInv(c, s) && Enabled(c, s, a)
    ensures SystemInv(c, Next(c, s, a))
    ensures
      match Shadow(s.lanes[a.lane], a.step)
      case None => ProjectSystem(c, Next(c, s, a)) == ProjectSystem(c, s)
      case Some(p) =>
        && Pipeline.Enabled(c, ProjectSystem(c, s), Pipeline.Action(a.lane, p))
        && ProjectSystem(c, Next(c, s, a)) == Pipeline.Next(c, ProjectSystem(c, s), Pipeline.Action(a.lane, p))
  {
    LaneStepRefines(c, s.lanes[a.lane], a.step);
    var s' := Next(c, s, a);
    var before, after := ProjectLanes(c, s), ProjectLanes(c, s');
    assert after == before[a.lane := Project(LaneNext(c, s.lanes[a.lane], a.step))];
    if Shadow(s.lanes[a.lane], a.step).None? {
      assert after == before;
    }
  }

  /** The run of module Pipeline behind a run of the rings: the steps that show, in their order. */
  ghost function ShadowRun(c: Config, actions: seq<Action>): seq<Pipeline.Action>
    requires ValidCapacity(c.capacity) && Run(c, actions).Some?
    decreases |actions|
  {
    if actions == [] then []
    else
      var n := |actions| - 1;
      var l := Run(c, actions[..n]).value.lanes[actions[n].lane];
      ShadowRun(c, actions[..n])
      + match Shadow(l, actions[n].step)
        case None => []
        case Some(p) => [Pipeline.Action(actions[n].lane, p)]
  }

  lemma PipelineExtend(c: Config, run: seq<Pipeline.Action>, p: Pipeline.System, a: Pipeline.Action)
    requires Pipeline.Run(c, run) == Some(p) && Pipeline.Enabled(c, p, a)
    ensures Pipeline.Run(c, run + [a]) == Some(Pipeline.Next(c, p, a))
  {
    assert (run + [a])[..|run|] == run;
  }

  /**
   Every run of the rings, whatever the interleaving and however stale the loads, is a run of module Pipeline with
   the same offers, pops, upserts, sink calls and store.
   */
  lemma {:induction false} RefinesPipeline(c: Config, actions: seq<Action>)
    requires ValidCapacity(c.capacity) && Run(c, actions).Some?
    ensures SystemInv(c, Run(c, actions).value)
    ensures Pipeline.Run(c, ShadowRun(c, actions)) == Some(ProjectSystem(c, Run(c, actions).value))
    decreases |actions|
  {
    if actions == [] {
      InitialLane(c);
      assert ProjectLanes(c, Run(c, []).value) == seq(c.lanes, _ => Pipeline.Idle());
    } else {
      var n := |actions| - 1;
      var a := actions[n];
      RefinesPipeline(c, actions[..n]);
      var s := Run(c, actions[..n]).value;
      StepRefines(c, s, a);
      var shown := Shadow(s.lanes[a.lane], a.step);
      var run := ShadowRun(c, actions[..n]);
      if shown.Some? {
        PipelineExtend(c, run, ProjectSystem(c, s), Pipeline.Action(a.lane, shown.value));
      } else {
        assert run + [] == run;
      }
    }
  }

  lemma InitialLane(c: Config)
    requires ValidCapacity(c.capacity)
    ensures LaneInv(c, Idle(c.capacity)) && Project(Idle(c.capacity)) == Pipeline.Idle()
  {
    SpscRing.InitInv(c.capacity);
    SpscRing.ContentsInv(SpscRing.Init(c.capacity));
  }

  // ----- what follows for the rings -----

  /** Offers, ring, pops, upserts and sink calls of a lane fit together. */
  ghost predicate Balanced(c: Config, l: Lane) {
    && SpscRing.WellSized(l.ring)
    && Pipeline.Taken(l.offers) == l.ring.pushed == l.ring.popped + SpscRing.Contents(l.ring)
    && |l.offers| == |Pipeline.Dropped(l.offers)| + |SpscRing.Contents(l.ring)| + |l.ring.popped|
    && l.written == Accepted(c.parse, Pipeline.Handled(Project(l)))
    && (c.hasSink ==> l.sunk <= l.written && |l.written| <= |l.sunk| + 1)
    && (l.phase.AtLoopHead? || l.phase.InLoop? || l.phase.Returned? || l.phase.NoThread? ==>
          && l.written == Accepted(c.parse, l.ring.popped)
          && (c.hasSink ==> l.sunk == l.written))
  }

  /**
   Conservation with the rings: at every point of every interleaving each frame offered was dropped, is in the
   memory of the ring, or was popped, in order; what was popped was parsed, stored and sunk, in order, once.
   */
  lemma RingConservation(c: Config, actions: seq<Action>, i: nat)
    requires ValidCapacity(c.capacity) && Run(c, actions).Some? && i < c.lanes
    ensures |Run(c, actions).value.lanes| == c.lanes && Balanced(c, Run(c, actions).value.lanes[i])
  {
    RefinesPipeline(c, actions);
    Pipeline.Conservation(c, ShadowRun(c, actions), i);
    var l := Run(c, actions).value.lanes[i];
    SpscRing.ContentsInv(l.ring);
    assert ProjectSystem(c, Run(c, actions).value).lanes[i] == Project(l);
  }

  /** Lane i's ring only ever takes frames whose parses have tokens in own[i], and these sets are disjoint. */
  ghost predicate DisjointDelivery(c: Config, s: System, own: seq<set<Token>>) {
    && |own| == |s.lanes|
    && (forall i, j :: 0 <= i < j < |own| ==> own[i] !! own[j])
    && (forall i :: 0 <= i < |own| ==> Carries(c, s.lanes[i].ring, own[i]))
  }

  ghost predicate Carries(c: Config, r: SpscRing.Ring, own: set<Token>) {
    forall f :: f in r.pushed && c.parse(f).Some? ==> c.parse(f).value.token in own
  }

  lemma DeliveryProjects(c: Config, s: System, own: seq<set<Token>>)
    requires SystemInv(c, s) && DisjointDelivery(c, s, own)
    ensures Pipeline.DisjointDelivery(c, ProjectSystem(c, s), own)
  {
    forall i | 0 <= i < |own|
      ensures Pipeline.Delivers(c, ProjectSystem(c, s).lanes[i], own[i])
    {
      assert LaneInv(c, s.lanes[i]) && Carries(c, s.lanes[i].ring, own[i]);
    }
  }

  /** On every run of the rings the store holds, for each lane's tokens, the fold of the frames that lane handled. */
  lemma RingStoreIsUnionOfLanes(c: Config, actions: seq<Action>, own: seq<set<Token>>, i: nat, t: Token)
    requires ValidCapacity(c.capacity) && Run(c, actions).Some?
    requires DisjointDelivery(c, Run(c, actions).value, own) && i < |own| && t in own[i]
    ensures |own| == |Run(c, actions).value.lanes| && Balanced(c, Run(c, actions).value.lanes[i])
    ensures
      var s := Run(c, actions).value;
      Pipeline.Agrees(s.store, Stored(map[], Accepted(c.parse, Pipeline.Handled(Project(s.lanes[i])))), t)
  {
    RefinesPipeline(c, actions);
    DeliveryProjects(c, Run(c, actions).value, own);
    Pipeline.StoreIsUnionOfLanes(c, ShadowRun(c, actions), own);
    RingConservation(c, actions, i);
    assert ProjectSystem(c, Run(c, actions).value).lanes[i] == Project(Run(c, actions).value.lanes[i]);
  }

  /** Nothing is left in the ring or in the consumer's hands before its upsert. */
  ghost predicate LaneDrained(l: Lane) {
    l.ring.popped == l.ring.pushed && !l.phase.GotFrame? && !l.phase.Parsed?
  }

  ghost predicate Drained(s: System) {
    forall l :: l in s.lanes ==> LaneDrained(l)
  }

  lemma DrainedProjects(c: Config, s: System)
    requires SystemInv(c, s) && Drained(s)
    ensures Pipeline.Drained(ProjectSystem(c, s))
  {
    forall i | 0 <= i < |s.lanes|
      ensures Project(s.lanes[i]).queue == []
    {
      assert LaneDrained(s.lanes[i]) && LaneInv(c, s.lanes[i]);
      SpscRing.ContentsInv(s.lanes[i].ring);
    }
    forall p | p in ProjectLanes(c, s)
      ensures p.queue == [] && !p.phase.GotFrame? && !p.phase.Parsed?
    {
      var i :| 0 <= i < |s.lanes| && ProjectLanes(c, s)[i] == p;
      assert LaneDrained(s.lanes[i]);
    }
  }

  /**
   Neither the interleaving nor the staleness of any load matters: two drained runs whose rings took the same
   frames, lane by lane, end with the same store.
   */
  lemma RingScheduleDoesNotMatter(c: Config, a: seq<Action>, b: seq<Action>, own: seq<set<Token>>)
    requires ValidCapacity(c.capacity) && Run(c, a).Some? && Run(c, b).Some?
    requires Drained(Run(c, a).value) && Drained(Run(c, b).value)
    requires DisjointDelivery(c, Run(c, a).value, own) && DisjointDelivery(c, Run(c, b).value, own)
    requires forall i :: 0 <= i < |own| ==> Run(c, a).value.lanes[i].ring.pushed == Run(c, b).value.lanes[i].ring.pushed
    ensures Run(c, a).value.store == Run(c, b).value.store
  {
    var s, s' := Run(c, a).value, Run(c, b).value;
    RefinesPipeline(c, a);
    RefinesPipeline(c, b);
    DeliveryProjects(c, s, own);
    DeliveryProjects(c, s', own);
    DrainedProjects(c, s);
    DrainedProjects(c, s');
    forall i | 0 <= i < |own|
      ensures
        Pipeline.Taken(ProjectSystem(c, s).lanes[i].offers) == Pipeline.Taken(ProjectSystem(c, s').lanes[i].offers)
    {
      assert LaneInv(c, s.lanes[i]) && LaneInv(c, s'.lanes[i]);
    }
    Pipeline.ScheduleDoesNotMatter(c, ShadowRun(c, a), ShadowRun(c, b), own);
  }

  // ----- successive reads of one token -----

  lemma {:induction false} ShadowPrefix(c: Config, actions: seq<Action>, k: nat)
    requires ValidCapacity(c.capacity) && Run(c, actions).Some? && k <= |actions|
    ensures Run(c, actions[..k]).Some? && ShadowRun(c, actions[..k]) <= ShadowRun(c, actions)
    decreases |actions|
  {
    if k == |actions| {
      assert actions[..k] == actions;
    } else {
      var n := |actions| - 1;
      ShadowPrefix(c, actions[..n], k);
      assert actions[..n][..k] == actions[..k];
    }
  }

  /**
   Reads during a run of the rings: at any two points of it, a read of a token finds the last value its lane has
   written for it, the later one at the same or a later position of the lane's order.
   */
  lemma RingReadsFollowLaneOrder(c: Config, actions: seq<Action>, k: nat, own: seq<set<Token>>, i: nat, t: Token)
    requires ValidCapacity(c.capacity) && Run(c, actions).Some? && k <= |actions|
    requires DisjointDelivery(c, Run(c, actions).value, own) && i < |own| && t in own[i]
    ensures Run(c, actions[..k]).Some? && |Run(c, actions[..k]).value.lanes| == c.lanes == |own|
    ensures
      var early, late := Run(c, actions[..k]).value, Run(c, actions).value;
      var w0, w := early.lanes[i].written, late.lanes[i].written;
      && w0 <= w
      && LastWriteTo(w0, t) <= LastWriteTo(w, t)
      && Pipeline.ReadsLast(early.store, w0, t)
      && Pipeline.ReadsLast(late.store, w, t)
      && (t in early.store ==> early.store[t] == w[LastWriteTo(w0, t)])
  {
    ShadowPrefix(c, actions, k);
    RefinesPipeline(c, actions[..k]);
    RefinesPipeline(c, actions);
    DeliveryProjects(c, Run(c, actions).value, own);
    var before, whole := ShadowRun(c, actions[..k]), ShadowRun(c, actions);
    assert whole[..|before|] == before;
    Pipeline.ReadsFollowLaneOrder(c, whole, |before|, own, i, t);
  }

  // ----- with the lanes the sharder builds -----

  /** Rings that carry only their own worker's tokens are disjoint when the sharder cut a duplicate-free list. */
  lemma ShardedRingsAreDisjoint(c: Config, s: System, opts: Sharder.Options, tokens: seq<Token>)
    requires Distinct(tokens) && |s.lanes| == |Sharder.Shards(opts, tokens)|
    requires forall i :: 0 <= i < |s.lanes| ==> Carries(c, s.lanes[i].ring, SetOf(Sharder.Shards(opts, tokens)[i]))
    ensures DisjointDelivery(c, s, Pipeline.OwnTokens(Sharder.Shards(opts, tokens)))
  {
    Pipeline.ShardsOwnDisjoint(opts, tokens);
  }

  // ----- when frames can be dropped -----

  lemma {:induction false} DropsNeedAFullRing(c: Config, actions: seq<Action>, i: nat)
    requires ValidCapacity(c.capacity) && Run(c, actions).Some? && i < c.lanes
    ensures SystemInv(c, Run(c, actions).value)
    ensures
      var l := Run(c, actions).value.lanes[i];
      Pipeline.Dropped(l.offers) != [] ==> |l.ring.pushed| >= c.capacity
    decreases |actions|
  {
    RefinesPipeline(c, actions);
    if actions != [] {
      var n := |actions| - 1;
      RefinesPipeline(c, actions[..n]);
      DropsNeedAFullRing(c, actions[..n], i);
      if actions[n].lane == i {
        LaneDrops(c, Run(c, actions[..n]).value.lanes[i], actions[n].step);
      }
    }
  }

  lemma LaneDrops(c: Config, l: Lane, s: Step)
    requires LaneInv(c, l) && LaneEnabled(c, l, s)
    requires Pipeline.Dropped(l.offers) != [] ==> |l.ring.pushed| >= c.capacity
    ensures
      var l' := LaneNext(c, l, s);
      Pipeline.Dropped(l'.offers) != [] ==> |l'.ring.pushed| >= c.capacity
  {
    match s
    case RingStep(RejectFull) => SpscRing.FullTestIsExact(l.ring);
    case RingStep(StoreHead) => Pipeline.OffersAppend(l.offers, Pipeline.Offer(l.ring.pushing.msg, true));
    case _ =>
  }

  /** A lane that has been offered no more frames than its ring has slots has dropped none, however it was scheduled. */
  lemma NoDropsWithinCapacity(c: Config, actions: seq<Action>, i: nat)
    requires ValidCapacity(c.capacity) && Run(c, actions).Some? && i < c.lanes
    ensures SystemInv(c, Run(c, actions).value)
    ensures
      var l := Run(c, actions).value.lanes[i];
      |l.offers| <= c.capacity ==> Pipeline.Dropped(l.offers) == []
  {
    DropsNeedAFullRing(c, actions, i);
    RingConservation(c, actions, i);
    var l := Run(c, actions).value.lanes[i];
    SpscRing.ContentsInv(l.ring);
  }
}
