/**
 The ingest pipeline over many connections: each has its own ring and consumer thread, all share one store.
 Threads interleave at every read of `running_`, pop, parse, upsert and sink call; a ring is the bounded FIFO that
 module SpscRing proves it to be, whose push and pop may also fail on a stale view of the other side. Module
 RingPipeline puts the ring itself in the lanes and projects its runs to the runs here.
 */
module Pipeline {
  import opened Wrappers
  import opened Parser
  import opened LtpStore
  import opened IngestQueue
  import opened Consumer
  import opened Chunking
  import Sharder
  import SpscRing

  /** Where a consumer thread stands in `Consumer::run`. */
  datatype Phase =
    | NoThread
    | AtLoopHead
    | InLoop
    | GotFrame(frame: Frame)
    | Parsed(ltp: Ltp)
    | Upserted(ltp: Ltp)
    | Returned

  datatype Offer = Offer(frame: Frame, taken: bool)

  datatype Lane = Lane(
    queue: seq<Frame>,
    running: bool,
    phase: Phase,
    offers: seq<Offer>,
    popped: seq<Frame>,
    written: seq<Ltp>,
    sunk: seq<Ltp>)

  datatype Config = Config(parse: Parse, lanes: nat, capacity: nat, hasSink: bool)

  /** `writes` is the order in which the lanes' upserts reached the store. */
  datatype System = System(lanes: seq<Lane>, store: map<Token, Ltp>, writes: seq<Ltp>)

  datatype Step =
    | Push(frame: Frame, taken: bool)
    | Start
    | RequestStop
    | Join
    | LoadRunning
    | TryPop(found: bool)
    | ParseFrame
    | Upsert
    | CallSink

  datatype Action = Action(lane: nat, step: Step)

  predicate LaneEnabled(c: Config, l: Lane, a: Step) {
    match a
    case Push(_, taken) => taken ==> |l.queue| < c.capacity
    case Start => l.running || l.phase.NoThread?
    case RequestStop => true
    case Join => !l.running && l.phase.Returned?
    case LoadRunning => l.phase.AtLoopHead?
    case TryPop(found) => l.phase.InLoop? && (found ==> l.queue != [])
    case ParseFrame => l.phase.GotFrame?
    case Upsert => l.phase.Parsed?
    case CallSink => l.phase.Upserted?
  }

  function LaneNext(c: Config, l: Lane, a: Step): Lane
    requires LaneEnabled(c, l, a)
  {
    match a
    case Push(f, taken) => l.(queue := if taken then l.queue + [f] else l.queue, offers := l.offers + [Offer(f, taken)])
    case Start => if l.running then l else l.(running := true, phase := AtLoopHead)
    case RequestStop => l.(running := false)
    case Join => l.(phase := NoThread)
    case LoadRunning => l.(phase := if l.running then InLoop else Returned)
    case TryPop(found) =>
      if found then l.(queue := l.queue[1..], popped := l.popped + [l.queue[0]], phase := GotFrame(l.queue[0]))
      else l.(phase := AtLoopHead)
    case ParseFrame =>
      var ltp := c.parse(l.phase.frame);
      l.(phase := if ltp.None? then AtLoopHead else Parsed(ltp.value))
    case Upsert => l.(phase := Upserted(l.phase.ltp), written := l.written + [l.phase.ltp])
    case CallSink => l.(phase := AtLoopHead, sunk := if c.hasSink then l.sunk + [l.phase.ltp] else l.sunk)
  }

  predicate Enabled(c: Config, s: System, a: Action) {
    a.lane < |s.lanes| && LaneEnabled(c, s.lanes[a.lane], a.step)
  }

  function Next(c: Config, s: System, a: Action): System
    requires Enabled(c, s, a)
  {
    var l := s.lanes[a.lane];
    var s' := s.(lanes := s.lanes[a.lane := LaneNext(c, l, a.step)]);
    if a.step.Upsert? then
      s'.(store := s.store[l.phase.ltp.token := l.phase.ltp], writes := s.writes + [l.phase.ltp])
    else s'
  }

  function Idle(): Lane {
    Lane([], false, NoThread, [], [], [], [])
  }

  function Run(c: Config, actions: seq<Action>): Option<System>
    decreases |actions|
  {
    if actions == [] then Some(System(seq(c.lanes, _ => Idle()), map[], []))
    else
      var n := |actions| - 1;
      match Run(c, actions[..n])
      case None => None
      case Some(s) => if Enabled(c, s, actions[n]) then Some(Next(c, s, actions[n])) else None
  }

  // ----- one lane: nothing is lost, duplicated or reordered -----

  /** The frames that entered the ring, and those dropped because it was full. */
  function Taken(offers: seq<Offer>): seq<Frame> {
    if offers == [] then []
    else
      var n := |offers| - 1;
      Taken(offers[..n]) + if offers[n].taken then [offers[n].frame] else []
  }

  function Dropped(offers: seq<Offer>): seq<Frame> {
    if offers == [] then []
    else
      var n := |offers| - 1;
      Dropped(offers[..n]) + if offers[n].taken then [] else [offers[n].frame]
  }

  lemma OffersAppend(offers: seq<Offer>, o: Offer)
    ensures Taken(offers + [o]) == Taken(offers) + if o.taken then [o.frame] else []
    ensures Dropped(offers + [o]) == Dropped(offers) + if o.taken then [] else [o.frame]
  {
    assert (offers + [o])[..|offers|] == offers;
  }

  /** The frames offered, taken or not. */
  function Frames(offers: seq<Offer>): (r: seq<Frame>)
    ensures |r| == |offers| && forall i :: 0 <= i < |r| ==> r[i] == offers[i].frame
  {
    seq(|offers|, i requires 0 <= i < |offers| => offers[i].frame)
  }

  lemma FramesAppend(offers: seq<Offer>, o: Offer)
    ensures Frames(offers + [o]) == Frames(offers) + [o.frame]
  {
  }

  /** The pushes of lane i, read off the schedule. */
  function PushesOf(actions: seq<Action>, i: nat): seq<Offer> {
    if actions == [] then []
    else
      var n := |actions| - 1;
      PushesOf(actions[..n], i)
      + if actions[n].lane == i && actions[n].step.Push? then [Offer(actions[n].step.frame, actions[n].step.taken)] else []
  }

  /** Every push of a run is an offer of its lane, and there are no others. */
  lemma {:induction false} OffersAreThePushes(c: Config, actions: seq<Action>, i: nat)
    requires Run(c, actions).Some? && i < c.lanes
    ensures |Run(c, actions).value.lanes| == c.lanes && Run(c, actions).value.lanes[i].offers == PushesOf(actions, i)
    decreases |actions|
  {
    LaneCount(c, actions);
    if actions != [] {
      var n := |actions| - 1;
      OffersAreThePushes(c, actions[..n], i);
      LaneCount(c, actions[..n]);
      var s := Run(c, actions[..n]).value;
      if actions[n].lane == i {
        OffersOfStep(c, s.lanes[i], actions[n].step);
      }
    }
  }

  lemma OffersOfStep(c: Config, l: Lane, a: Step)
    requires LaneEnabled(c, l, a)
    ensures LaneNext(c, l, a).offers == l.offers + if a.Push? then [Offer(a.frame, a.taken)] else []
  {
  }

  /** The popped frames whose handling is complete: all but the one in the consumer's hands. */
  function Handled(l: Lane): seq<Frame> {
    if (l.phase.GotFrame? || l.phase.Parsed?) && l.popped != [] then l.popped[..|l.popped| - 1] else l.popped
  }

  ghost predicate LaneInv(c: Config, l: Lane) {
    && l.popped + l.queue == Taken(l.offers)
    && |l.queue| <= c.capacity
    && (l.running ==> !l.phase.NoThread? && !l.phase.Returned?)
    && (l.phase.GotFrame? ==> l.popped != [] && l.phase.frame == l.popped[|l.popped| - 1])
    && (l.phase.Parsed? ==> l.popped != [] && c.parse(l.popped[|l.popped| - 1]) == Some(l.phase.ltp))
    && l.written == Accepted(c.parse, Handled(l))
    && (if !c.hasSink then l.sunk == []
        else if l.phase.Upserted? then l.written == l.sunk + [l.phase.ltp]
        else l.sunk == l.written)
  }

  lemma PushKeepsInv(c: Config, l: Lane, a: Step)
    requires LaneInv(c, l) && LaneEnabled(c, l, a) && a.Push?
    ensures LaneInv(c, LaneNext(c, l, a))
  {
    OffersAppend(l.offers, Offer(a.frame, a.taken));
  }

  lemma PopKeepsInv(c: Config, l: Lane, a: Step)
    requires LaneInv(c, l) && LaneEnabled(c, l, a) && a.TryPop?
    ensures LaneInv(c, LaneNext(c, l, a))
  {
    if a.found {
      var l' := LaneNext(c, l, a);
      assert l'.popped + l'.queue == l.popped + l.queue;
      assert Handled(l') == l.popped;
    }
  }

  /** Completing the frame in hand adds what it parses to. */
  lemma LastHandled(c: Config, popped: seq<Frame>)
    requires popped != []
    ensures
      var n := |popped| - 1;
      Accepted(c.parse, popped)
      == Accepted(c.parse, popped[..n]) + if c.parse(popped[n]).Some? then [c.parse(popped[n]).value] else []
  {
  }

  lemma ParseKeepsInv(c: Config, l: Lane)
    requires LaneInv(c, l) && LaneEnabled(c, l, ParseFrame)
    ensures LaneInv(c, LaneNext(c, l, ParseFrame))
  {
    LastHandled(c, l.popped);
  }

  lemma UpsertKeepsInv(c: Config, l: Lane)
    requires LaneInv(c, l) && LaneEnabled(c, l, Upsert)
    ensures LaneInv(c, LaneNext(c, l, Upsert))
  {
    LastHandled(c, l.popped);
  }

  lemma OtherStepsKeepInv(c: Config, l: Lane, a: Step)
    requires LaneInv(c, l) && LaneEnabled(c, l, a) && !a.Push? && !a.TryPop? && !a.ParseFrame? && !a.Upsert?
    ensures LaneInv(c, LaneNext(c, l, a))
  {
  }

  lemma LaneStepKeepsInv(c: Config, l: Lane, a: Step)
    requires LaneInv(c, l) && LaneEnabled(c, l, a)
    ensures LaneInv(c, LaneNext(c, l, a))
  {
    if a.Push? {
      PushKeepsInv(c, l, a);
    } else if a.TryPop? {
      PopKeepsInv(c, l, a);
    } else if a.ParseFrame? {
      ParseKeepsInv(c, l);
    } else if a.Upsert? {
      UpsertKeepsInv(c, l);
    } else {
      OtherStepsKeepInv(c, l, a);
    }
  }

  lemma {:induction false} LanesInv(c: Config, actions: seq<Action>, i: nat)
    requires Run(c, actions).Some? && i < c.lanes
    ensures |Run(c, actions).value.lanes| == c.lanes && LaneInv(c, Run(c, actions).value.lanes[i])
    decreases |actions|
  {
    if actions == [] {
    } else {
      var n := |actions| - 1;
      LanesInv(c, actions[..n], i);
      var s := Run(c, actions[..n]).value;
      if actions[n].lane == i {
        LaneStepKeepsInv(c, s.lanes[i], actions[n].step);
      }
    }
  }

  /**
   Conservation on every run, across stops and restarts of the consumers. Every frame offered was dropped, is
   queued or was popped, and the popped frames followed by the queued ones are the frames taken, in order. The
   upserts of a lane are its popped frames parsed, in order, leaving out at most the one in the consumer's hands;
   the sink has seen the same values, at most one behind. A stopped consumer holds nothing back.
   */
  lemma Conservation(c: Config, actions: seq<Action>, i: nat)
    requires Run(c, actions).Some? && i < c.lanes
    ensures |Run(c, actions).value.lanes| == c.lanes
    ensures
      var l := Run(c, actions).value.lanes[i];
      && |l.offers| == |Dropped(l.offers)| + |l.queue| + |l.popped|
      && l.popped + l.queue == Taken(l.offers)
      && l.written == Accepted(c.parse, Handled(l))
      && (c.hasSink ==> l.sunk <= l.written && |l.written| <= |l.sunk| + 1)
      && (l.phase.AtLoopHead? || l.phase.InLoop? || l.phase.Returned? || l.phase.NoThread? ==>
            && l.written == Accepted(c.parse, l.popped)
            && (c.hasSink ==> l.sunk == l.written))
  {
    LanesInv(c, actions, i);
    OfferCount(Run(c, actions).value.lanes[i].offers);
  }

  lemma {:induction false} OfferCount(offers: seq<Offer>)
    ensures |Taken(offers)| + |Dropped(offers)| == |offers|
  {
    if offers != [] {
      OfferCount(offers[..|offers| - 1]);
    }
  }

  /**
   The queue of a lane is the ring of module SpscRing, step for step and whatever the consumer is doing when the
   producer acts: completing a push or a pop on the ring is a successful `Push` or `TryPop` of the lane, a rejection
   is a failed one, and no other ring step shows. Module RingPipeline chains these steps over whole runs.
   */
  lemma LaneQueueIsTheRing(c: Config, l: Lane, r: SpscRing.Ring, a: SpscRing.Action)
    requires SpscRing.Inv(r) && SpscRing.Enabled(r, a)
    requires l.queue == SpscRing.Contents(r) && c.capacity == |r.slots|
    requires a.StoreTail? || a.RejectEmpty? ==> l.phase.InLoop?
    ensures SpscRing.WellSized(SpscRing.Next(r, a))
    ensures
      var q' := SpscRing.Contents(SpscRing.Next(r, a));
      match a
      case StoreHead => LaneEnabled(c, l, Push(r.pushing.msg, true)) && LaneNext(c, l, Push(r.pushing.msg, true)).queue == q'
      case RejectFull => LaneEnabled(c, l, Push(r.pushing.msg, false)) && LaneNext(c, l, Push(r.pushing.msg, false)).queue == q'
      case StoreTail =>
        && LaneEnabled(c, l, TryPop(true))
        && LaneNext(c, l, TryPop(true)).queue == q'
        && LaneNext(c, l, TryPop(true)).phase == GotFrame(r.popping.out)
      case RejectEmpty => LaneEnabled(c, l, TryPop(false)) && LaneNext(c, l, TryPop(false)).queue == q'
      case _ => l.queue == q'
  {
    SpscRing.RefinesFifo(r, a);
  }

  // ----- the shared store -----

  /** The lane of each upsert, read off the schedule. */
  function Writers(actions: seq<Action>): seq<nat> {
    if actions == [] then []
    else
      var n := |actions| - 1;
      Writers(actions[..n]) + if actions[n].step.Upsert? then [actions[n].lane] else []
  }

  /** The upserts made by lane i. */
  function WrittenBy(writes: seq<Ltp>, writers: seq<nat>, i: nat): seq<Ltp>
    requires |writes| == |writers|
  {
    if writes == [] then []
    else
      var n := |writes| - 1;
      WrittenBy(writes[..n], writers[..n], i) + if writers[n] == i then [writes[n]] else []
  }

  lemma WrittenByAppend(writes: seq<Ltp>, writers: seq<nat>, v: Ltp, w: nat, i: nat)
    requires |writes| == |writers|
    ensures WrittenBy(writes + [v], writers + [w], i) == WrittenBy(writes, writers, i) + if w == i then [v] else []
  {
    assert (writes + [v])[..|writes|] == writes && (writers + [w])[..|writers|] == writers;
  }

  /** The log is an interleaving, given by the schedule, of what the lanes wrote. */
  ghost predicate Interleaves(s: System, writers: seq<nat>) {
    && |writers| == |s.writes|
    && forall i :: 0 <= i < |s.lanes| ==> WrittenBy(s.writes, writers, i) == s.lanes[i].written
  }

  lemma InterleavesStep(c: Config, s: System, a: Action, writers: seq<nat>)
    requires Enabled(c, s, a) && Interleaves(s, writers)
    ensures Interleaves(Next(c, s, a), writers + if a.step.Upsert? then [a.lane] else [])
  {
    var s' := Next(c, s, a);
    if a.step.Upsert? {
      var v := s.lanes[a.lane].phase.ltp;
      forall i | 0 <= i < |s'.lanes|
        ensures WrittenBy(s'.writes, writers + [a.lane], i) == s'.lanes[i].written
      {
        assert WrittenBy(s.writes, writers, i) == s.lanes[i].written;
        WrittenByAppend(s.writes, writers, v, a.lane, i);
      }
    } else {
      assert writers + [] == writers;
      forall i | 0 <= i < |s'.lanes|
        ensures WrittenBy(s'.writes, writers, i) == s'.lanes[i].written
      {
        assert s'.lanes[i].written == s.lanes[i].written;
      }
    }
  }

  lemma {:induction false} WritesInterleave(c: Config, actions: seq<Action>)
    requires Run(c, actions).Some?
    ensures Interleaves(Run(c, actions).value, Writers(actions))
    ensures forall k :: 0 <= k < |Writers(actions)| ==> Writers(actions)[k] < c.lanes
    decreases |actions|
  {
    if actions != [] {
      var n := |actions| - 1;
      var a := actions[n];
      WritesInterleave(c, actions[..n]);
      LaneCount(c, actions[..n]);
      InterleavesStep(c, Run(c, actions[..n]).value, a, Writers(actions[..n]));
    }
  }

  lemma {:induction false} StoreIsLog(c: Config, actions: seq<Action>)
    requires Run(c, actions).Some?
    ensures Run(c, actions).value.store == Stored(map[], Run(c, actions).value.writes)
    decreases |actions|
  {
    if actions != [] {
      var n := |actions| - 1;
      StoreIsLog(c, actions[..n]);
      var s := Run(c, actions[..n]).value;
      if actions[n].step.Upsert? {
        StoredAppend(map[], s.writes, s.lanes[actions[n].lane].phase.ltp);
      }
    }
  }

  /**
   Whether or not lanes share tokens, the store is the last-writer-wins fold of an interleaving of the lanes' own
   sequences of accepted frames; the schedule says which.
   */
  lemma StoreIsFold(c: Config, actions: seq<Action>)
    requires Run(c, actions).Some?
    ensures
      var s := Run(c, actions).value;
      && s.store == Stored(map[], s.writes)
      && |Writers(actions)| == |s.writes|
      && (forall k :: 0 <= k < |s.writes| ==> Writers(actions)[k] < |s.lanes| == c.lanes)
      && (forall i :: 0 <= i < |s.lanes| ==>
            WrittenBy(s.writes, Writers(actions), i) == Accepted(c.parse, Handled(s.lanes[i])))
  {
    StoreIsLog(c, actions);
    WritesInterleave(c, actions);
    LaneCount(c, actions);
    forall i: nat | i < c.lanes
      ensures LaneInv(c, Run(c, actions).value.lanes[i])
    {
      LanesInv(c, actions, i);
    }
  }

  lemma {:induction false} WrittenByTheOnlyOne(writes: seq<Ltp>, writers: seq<nat>)
    requires |writes| == |writers| && forall k :: 0 <= k < |writers| ==> writers[k] < 1
    ensures WrittenBy(writes, writers, 0) == writes
  {
    if writes != [] {
      WrittenByTheOnlyOne(writes[..|writes| - 1], writers[..|writes| - 1]);
    }
  }

  /** With one consumer the store is the fold of the frames it has handled, parsed. */
  lemma SingleConsumerStore(c: Config, actions: seq<Action>)
    requires Run(c, actions).Some? && c.lanes == 1
    ensures
      var s := Run(c, actions).value;
      |s.lanes| == 1 && s.store == Stored(map[], Accepted(c.parse, Handled(s.lanes[0])))
  {
    StoreIsFold(c, actions);
    LaneCount(c, actions);
    WrittenByTheOnlyOne(Run(c, actions).value.writes, Writers(actions));
  }

  /** The values a lane can ever write: the parses of the frames its ring took. */
  ghost predicate Delivers(c: Config, l: Lane, own: set<Token>) {
    forall f :: f in Taken(l.offers) && c.parse(f).Some? ==> c.parse(f).value.token in own
  }

  ghost predicate DisjointDelivery(c: Config, s: System, own: seq<set<Token>>) {
    && |own| == |s.lanes|
    && (forall i, j :: 0 <= i < j < |own| ==> own[i] !! own[j])
    && (forall i :: 0 <= i < |own| ==> Delivers(c, s.lanes[i], own[i]))
  }

  /** The store holds, for the tokens of each lane, the fold of that lane's own upserts, and no other token. */
  ghost predicate StoreByLane(s: System, own: seq<set<Token>>)
    requires |own| == |s.lanes|
  {
    && (forall i, t :: 0 <= i < |own| && t in own[i] ==> Agrees(s.store, Stored(map[], s.lanes[i].written), t))
    && (forall t :: t in s.store ==> exists i :: 0 <= i < |own| && t in own[i])
  }

  ghost predicate Agrees(a: map<Token, Ltp>, b: map<Token, Ltp>, t: Token) {
    if t in a then t in b && a[t] == b[t] else t !in b
  }

  lemma LaneWritesOwn(c: Config, l: Lane, own: set<Token>, v: Ltp)
    requires LaneInv(c, l) && Delivers(c, l, own)
    ensures v in l.written || (l.phase.Parsed? && v == l.phase.ltp) ==> v.token in own
  {
    AcceptedTokens(c.parse, Handled(l), v);
    var taken := Taken(l.offers);
    assert forall k :: 0 <= k < |l.popped| ==> l.popped[k] == taken[k];
    if v in l.written {
      var k :| 0 <= k < |Handled(l)| && c.parse(Handled(l)[k]) == Some(v);
      assert Handled(l)[k] == taken[k];
    }
    if l.phase.Parsed? && v == l.phase.ltp {
      assert taken[|l.popped| - 1] == l.popped[|l.popped| - 1];
    }
  }

  /** What a lane may have delivered so far is no more than what it has delivered by a later step. */
  lemma DeliversEarlier(c: Config, s: System, a: Action, own: seq<set<Token>>)
    requires Enabled(c, s, a) && DisjointDelivery(c, Next(c, s, a), own)
    ensures DisjointDelivery(c, s, own)
  {
    var s' := Next(c, s, a);
    forall i | 0 <= i < |own|
      ensures Delivers(c, s.lanes[i], own[i])
    {
      assert Delivers(c, s'.lanes[i], own[i]);
      match a.step {
        case Push(f, taken) =>
          OffersAppend(s.lanes[a.lane].offers, Offer(f, taken));
        case _ =>
      }
      assert forall f :: f in Taken(s.lanes[i].offers) ==> f in Taken(s'.lanes[i].offers);
    }
  }

  lemma WriterStillAgrees(store: map<Token, Ltp>, written: seq<Ltp>, v: Ltp, t: Token)
    requires Agrees(store, Stored(map[], written), t)
    ensures Agrees(store[v.token := v], Stored(map[], written + [v]), t)
  {
    StoredAppend(map[], written, v);
  }

  lemma OthersStillAgree(store: map<Token, Ltp>, written: seq<Ltp>, v: Ltp, t: Token)
    requires Agrees(store, Stored(map[], written), t) && t != v.token
    ensures Agrees(store[v.token := v], Stored(map[], written), t)
  {
  }

  lemma UpsertKeepsStoreByLane(c: Config, s: System, a: Action, own: seq<set<Token>>)
    requires Enabled(c, s, a) && a.step.Upsert? && DisjointDelivery(c, s, own) && StoreByLane(s, own)
    requires LaneInv(c, s.lanes[a.lane])
    ensures StoreByLane(Next(c, s, a), own)
  {
    var v := s.lanes[a.lane].phase.ltp;
    assert Delivers(c, s.lanes[a.lane], own[a.lane]);
    LaneWritesOwn(c, s.lanes[a.lane], own[a.lane], v);
    var s' := Next(c, s, a);
    forall i, t | 0 <= i < |own| && t in own[i]
      ensures Agrees(s'.store, Stored(map[], s'.lanes[i].written), t)
    {
      assert Agrees(s.store, Stored(map[], s.lanes[i].written), t);
      if i == a.lane {
        WriterStillAgrees(s.store, s.lanes[i].written, v, t);
      } else {
        assert own[i] !! own[a.lane];
        OthersStillAgree(s.store, s.lanes[i].written, v, t);
      }
    }
  }

  /**
   When the lanes deliver disjoint token sets, then on every run, at every point of it, the store is the union of
   the lanes' own folds, however their upserts were interleaved.
   */
  lemma {:induction false} StoreIsUnionOfLanes(c: Config, actions: seq<Action>, own: seq<set<Token>>)
    requires Run(c, actions).Some? && DisjointDelivery(c, Run(c, actions).value, own)
    ensures StoreByLane(Run(c, actions).value, own)
    decreases |actions|
  {
    if actions == [] {
      forall i, t | 0 <= i < |own| && t in own[i]
        ensures Agrees(map[], Stored(map[], []), t)
      {
      }
    } else {
      var n := |actions| - 1;
      var a := actions[n];
      var s := Run(c, actions[..n]).value;
      DeliversEarlier(c, s, a, own);
      StoreIsUnionOfLanes(c, actions[..n], own);
      LaneCount(c, actions[..n]);
      LanesInv(c, actions[..n], a.lane);
      if a.step.Upsert? {
        UpsertKeepsStoreByLane(c, s, a, own);
      } else {
        var s' := Next(c, s, a);
        forall i, t | 0 <= i < |own| && t in own[i]
          ensures Agrees(s'.store, Stored(map[], s'.lanes[i].written), t)
        {
          assert Agrees(s.store, Stored(map[], s.lanes[i].written), t);
        }
      }
    }
  }

  lemma {:induction false} LaneCount(c: Config, actions: seq<Action>)
    requires Run(c, actions).Some?
    ensures |Run(c, actions).value.lanes| == c.lanes
    decreases |actions|
  {
    if actions != [] {
      LaneCount(c, actions[..|actions| - 1]);
    }
  }

  ghost predicate Drained(s: System) {
    forall l :: l in s.lanes ==> l.queue == [] && !l.phase.GotFrame? && !l.phase.Parsed?
  }

  /**
   The thread schedule does not matter: any two runs in which the rings took the same frames, lane by lane, end
   with the same store once everything is drained.
   */
  lemma ScheduleDoesNotMatter(c: Config, a: seq<Action>, b: seq<Action>, own: seq<set<Token>>)
    requires Run(c, a).Some? && Run(c, b).Some?
    requires Drained(Run(c, a).value) && Drained(Run(c, b).value)
    requires DisjointDelivery(c, Run(c, a).value, own) && DisjointDelivery(c, Run(c, b).value, own)
    requires
      forall i :: 0 <= i < |own| ==> Taken(Run(c, a).value.lanes[i].offers) == Taken(Run(c, b).value.lanes[i].offers)
    ensures Run(c, a).value.store == Run(c, b).value.store
  {
    var s, s' := Run(c, a).value, Run(c, b).value;
    StoreIsUnionOfLanes(c, a, own);
    StoreIsUnionOfLanes(c, b, own);
    LaneCount(c, a);
    forall i | 0 <= i < |own|
      ensures s.lanes[i].written == s'.lanes[i].written
    {
      LanesInv(c, a, i);
      LanesInv(c, b, i);
      assert s.lanes[i] in s.lanes && s'.lanes[i] in s'.lanes;
      assert s.lanes[i].popped == Taken(s.lanes[i].offers) && s'.lanes[i].popped == Taken(s'.lanes[i].offers);
    }
    StoreDetermined(s, s', own);
  }

  lemma StoreDetermined(s: System, s': System, own: seq<set<Token>>)
    requires |own| == |s.lanes| == |s'.lanes| && StoreByLane(s, own) && StoreByLane(s', own)
    requires forall i :: 0 <= i < |own| ==> s.lanes[i].written == s'.lanes[i].written
    ensures s.store == s'.store
  {
    forall t | t in s.store || t in s'.store
      ensures t in s.store && t in s'.store && s.store[t] == s'.store[t]
    {
      var i :| 0 <= i < |own| && t in own[i];
      assert Agrees(s.store, Stored(map[], s.lanes[i].written), t);
      assert Agrees(s'.store, Stored(map[], s'.lanes[i].written), t);
    }
  }

  // ----- successive reads of one token -----

  lemma StepGrows(c: Config, s: System, a: Action, i: nat)
    requires Enabled(c, s, a) && i < |s.lanes|
    ensures s.lanes[i].written <= Next(c, s, a).lanes[i].written
  {
  }

  lemma {:induction false} LaneGrows(c: Config, actions: seq<Action>, k: nat, i: nat)
    requires Run(c, actions).Some? && k <= |actions| && i < c.lanes
    ensures Run(c, actions[..k]).Some?
    ensures |Run(c, actions[..k]).value.lanes| == c.lanes == |Run(c, actions).value.lanes|
    ensures Run(c, actions[..k]).value.lanes[i].written <= Run(c, actions).value.lanes[i].written
    decreases |actions|
  {
    LaneCount(c, actions);
    if k == |actions| {
      assert actions[..k] == actions;
    } else {
      var n := |actions| - 1;
      LaneGrows(c, actions[..n], k, i);
      assert actions[..n][..k] == actions[..k];
      StepGrows(c, Run(c, actions[..n]).value, actions[n], i);
    }
  }

  lemma LastWriteToGrows(writes: seq<Ltp>, more: seq<Ltp>, t: Token)
    requires writes <= more
    ensures LastWriteTo(writes, t) <= LastWriteTo(more, t)
  {
    var i := LastWriteTo(writes, t);
    if i >= 0 {
      assert more[i] == writes[i];
    }
  }

  /** What a read of t finds is the last of the values `written` for it; it finds none exactly when there is none. */
  ghost predicate ReadsLast(store: map<Token, Ltp>, written: seq<Ltp>, t: Token) {
    && (t in store <==> LastWriteTo(written, t) >= 0)
    && (t in store ==> store[t] == written[LastWriteTo(written, t)])
  }

  /**
   Two reads of one token, the second at a later point of the run: each finds the value at a definite position of
   the lane's order, and the later read's position is the same or a later one. Positions chain over any number of
   reads, also when the lane writes equal values.
   */
  lemma ReadsFollowLaneOrder(c: Config, actions: seq<Action>, k: nat, own: seq<set<Token>>, i: nat, t: Token)
    requires Run(c, actions).Some? && k <= |actions|
    requires DisjointDelivery(c, Run(c, actions).value, own) && i < |own| && t in own[i]
    ensures Run(c, actions[..k]).Some? && |Run(c, actions[..k]).value.lanes| == c.lanes == |own|
    ensures
      var early, late := Run(c, actions[..k]).value, Run(c, actions).value;
      var w0, w := early.lanes[i].written, late.lanes[i].written;
      && w0 <= w
      && LastWriteTo(w0, t) <= LastWriteTo(w, t)
      && ReadsLast(early.store, w0, t)
      && ReadsLast(late.store, w, t)
      && (t in early.store ==> early.store[t] == w[LastWriteTo(w0, t)])
  {
    LaneCount(c, actions);
    LaneGrows(c, actions, k, i);
    var early, late := Run(c, actions[..k]).value, Run(c, actions).value;
    DeliversBefore(c, actions, k, own);
    StoreIsUnionOfLanes(c, actions, own);
    StoreIsUnionOfLanes(c, actions[..k], own);
    var w0, w := early.lanes[i].written, late.lanes[i].written;
    AgreementReadsLast(early.store, w0, t);
    AgreementReadsLast(late.store, w, t);
    LastWriteToGrows(w0, w, t);
  }

  lemma AgreementReadsLast(store: map<Token, Ltp>, written: seq<Ltp>, t: Token)
    requires Agrees(store, Stored(map[], written), t)
    ensures ReadsLast(store, written, t)
  {
    LastWriterWins(map[], written, t);
  }

  lemma {:induction false} DeliversBefore(c: Config, actions: seq<Action>, k: nat, own: seq<set<Token>>)
    requires Run(c, actions).Some? && k <= |actions| && DisjointDelivery(c, Run(c, actions).value, own)
    ensures Run(c, actions[..k]).Some? && DisjointDelivery(c, Run(c, actions[..k]).value, own)
    decreases |actions|
  {
    if k == |actions| {
      assert actions[..k] == actions;
    } else {
      var n := |actions| - 1;
      DeliversEarlier(c, Run(c, actions[..n]).value, actions[n], own);
      DeliversBefore(c, actions[..n], k, own);
      assert actions[..n][..k] == actions[..k];
    }
  }

  // ----- with the lanes the sharder builds -----

  ghost function OwnTokens(shards: seq<seq<Token>>): (r: seq<set<Token>>)
    ensures |r| == |shards| && forall i :: 0 <= i < |r| ==> r[i] == SetOf(shards[i])
  {
    seq(|shards|, i requires 0 <= i < |shards| => SetOf(shards[i]))
  }

  lemma ShardsOwnDisjoint(opts: Sharder.Options, tokens: seq<Token>)
    requires Distinct(tokens)
    ensures
      var own := OwnTokens(Sharder.Shards(opts, tokens));
      forall i, j :: 0 <= i < j < |own| ==> own[i] !! own[j]
  {
    var shards := Sharder.Shards(opts, tokens);
    forall i, j | 0 <= i < j < |shards|
      ensures SetOf(shards[i]) !! SetOf(shards[j])
    {
      Sharder.ShardsDisjoint(opts, tokens, i, j);
    }
  }

  /**
   A duplicate-free token list, cut by the sharder, gives disjoint lanes as soon as each socket delivers only its
   own worker's tokens; every result above then applies.
   */
  lemma ShardedLanesAreDisjoint(c: Config, s: System, opts: Sharder.Options, tokens: seq<Token>)
    requires Distinct(tokens) && |s.lanes| == |Sharder.Shards(opts, tokens)|
    requires forall i :: 0 <= i < |s.lanes| ==> Delivers(c, s.lanes[i], SetOf(Sharder.Shards(opts, tokens)[i]))
    ensures DisjointDelivery(c, s, OwnTokens(Sharder.Shards(opts, tokens)))
  {
    ShardsOwnDisjoint(opts, tokens);
  }
}
