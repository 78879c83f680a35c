/**
 The callbacks that join the parts: a delivered message is pushed into the worker's ring, the reconnect hook offers
 the worker's subscriptions, and the worker's consumer moves what was read from the socket into the store.
 */
module Wiring {
  import opened Bits
  import opened Chunking
  import opened IngestQueue
  import opened Consumer
  import opened WebSocketClient
  import opened SubscriptionManager
  import Pipeline
  import RingPipeline
  import SpscRing
  import Sharder

  /** How often the hook was called. */
  function HookCalls(trace: seq<Event>): nat {
    if trace == [] then 0
    else
      var n := |trace| - 1;
      HookCalls(trace[..n]) + if trace[n].Resubscribe? then 1 else 0
  }

  lemma HookCallsAppend(trace: seq<Event>, e: Event)
    ensures HookCalls(trace + [e]) == HookCalls(trace) + if e.Resubscribe? then 1 else 0
  {
    assert (trace + [e])[..|trace|] == trace;
  }

  /** Everything the hook of one worker has offered: each call its whole token set. */
  ghost predicate HookOffers(opts: Sharder.Options, tokens: seq<Token>, sent: seq<seq<Payload>>, listed: seq<seq<Token>>) {
    |sent| == |listed| && forall k :: 0 <= k < |sent| ==> Sharder.Offer(opts, tokens, sent[k], listed[k])
  }

  /** What the message callback and the consumer have done for the events so far. */
  ghost predicate Fed(trace: seq<Event>, initial: seq<Frame>, queue: seq<Frame>, popped: seq<Frame>,
                      offers: seq<Pipeline.Offer>) {
    Pipeline.Frames(offers) == Delivered(trace) && popped + queue == initial + Pipeline.Taken(offers)
  }

  lemma FedPops(trace: seq<Event>, initial: seq<Frame>, queue: seq<Frame>, popped: seq<Frame>,
                offers: seq<Pipeline.Offer>, out: seq<Frame>, rest: seq<Frame>)
    requires Fed(trace, initial, queue, popped, offers) && queue == out + rest
    ensures Fed(trace, initial, rest, popped + out, offers)
  {
    Associative(popped, out, rest);
  }

  lemma JoinedLast<T>(a: seq<T>, b: seq<T>, c: seq<T>, d: seq<T>, x: T)
    requires a + b == c + d
    ensures a + (b + [x]) == c + (d + [x])
  {
    Associative(a, b, [x]);
    Associative(c, d, [x]);
  }

  lemma FedDelivers(trace: seq<Event>, initial: seq<Frame>, queue: seq<Frame>, popped: seq<Frame>,
                    offers: seq<Pipeline.Offer>, o: Pipeline.Offer)
    requires Fed(trace, initial, queue, popped, offers)
    ensures
      Fed(trace + [Deliver(o.frame)], initial, if o.taken then queue + [o.frame] else queue, popped, offers + [o])
  {
    DeliveredAppend(trace, Deliver(o.frame));
    Pipeline.FramesAppend(offers, o);
    Pipeline.OffersAppend(offers, o);
    JoinedLast(popped, queue, initial, Pipeline.Taken(offers), o.frame);
    assert Pipeline.Taken(offers) + [] == Pipeline.Taken(offers);
  }

  lemma FedOther(trace: seq<Event>, initial: seq<Frame>, queue: seq<Frame>, popped: seq<Frame>,
                 offers: seq<Pipeline.Offer>, e: Event)
    requires Fed(trace, initial, queue, popped, offers) && !e.Deliver?
    ensures Fed(trace + [e], initial, queue, popped, offers)
  {
    DeliveredAppend(trace, e);
  }

  /** What the reconnect hook has done for the events so far. */
  ghost predicate HookRan(trace: seq<Event>, opts: Sharder.Options, tokens: seq<Token>, sent: seq<seq<Payload>>,
                         listed: seq<seq<Token>>) {
    |sent| == HookCalls(trace) && HookOffers(opts, tokens, sent, listed)
  }

  lemma HookOffersMore(opts: Sharder.Options, tokens: seq<Token>, sent: seq<seq<Payload>>, listed: seq<seq<Token>>,
                       payloads: seq<Payload>, names: seq<Token>)
    requires HookOffers(opts, tokens, sent, listed) && Sharder.Offer(opts, tokens, payloads, names)
    ensures HookOffers(opts, tokens, sent + [payloads], listed + [names])
  {
    var sent', listed' := sent + [payloads], listed + [names];
    forall k | 0 <= k < |sent'|
      ensures Sharder.Offer(opts, tokens, sent'[k], listed'[k])
    {
      if k < |sent| {
        assert sent'[k] == sent[k] && listed'[k] == listed[k];
      }
    }
  }

  /** The consumer takes some frames, oldest first. */
  method PopSome(q: IngestQueue) returns (out: seq<Frame>)
    requires q.Valid()
    modifies q`tail, q.buf
    ensures q.Valid() && old(q.Contents()) == out + q.Contents()
  {
    out := [];
    var n :| 0 <= n;
    for i := 0 to n
      invariant q.Valid() && old(q.Contents()) == out + q.Contents()
    {
      var msg := q.TryPop();
      if msg.Some? {
        Associative(out, [msg.value], q.Contents());
        out := out + [msg.value];
      }
    }
  }

  /**
   The callbacks of one worker over a trace of its connection, with any number of pops by the consumer before each:
   every message is offered to the ring once, in order; the frames popped and queued are the earlier contents and
   the frames taken; and every call of the hook offers the worker's whole token set.
   */
  method RunCallbacks(trace: seq<Event>, sharder: Sharder.Sharder, w: Sharder.Worker, q: IngestQueue)
    returns (offers: seq<Pipeline.Offer>, popped: seq<Frame>, sent: seq<seq<Payload>>, ghost listed: seq<seq<Token>>)
    requires q.Valid() && Sharder.Wired(w, sharder.opts)
    modifies q`head, q`tail, q.buf
    ensures q.Valid() && Fed(trace, old(q.Contents()), q.Contents(), popped, offers)
    ensures HookRan(trace, sharder.opts, w.tokens, sent, listed)
  {
    ghost var initial := q.Contents();
    offers, popped, sent, listed := [], [], [], [];
    assert trace[..0] == [] && [] + initial == initial == initial + [];
    for i := 0 to |trace|
      invariant q.Valid() && Fed(trace[..i], initial, q.Contents(), popped, offers)
      invariant HookRan(trace[..i], sharder.opts, w.tokens, sent, listed)
    {
      assert trace[..i + 1] == trace[..i] + [trace[i]];
      HookCallsAppend(trace[..i], trace[i]);
      ghost var before := q.Contents();
      var out := PopSome(q);
      ghost var queue := q.Contents();
      FedPops(trace[..i], initial, before, popped, offers, out, queue);
      popped := popped + out;
      match trace[i]
      case Deliver(body) =>
        var ok := q.TryPush(body);
        FedDelivers(trace[..i], initial, queue, popped, offers, Pipeline.Offer(body, ok));
        offers := offers + [Pipeline.Offer(body, ok)];
      case Resubscribe =>
        FedOther(trace[..i], initial, queue, popped, offers, trace[i]);
        var payloads, names := sharder.Resubscribe(w);
        HookOffersMore(sharder.opts, w.tokens, sent, listed, payloads, names);
        sent, listed := sent + [payloads], listed + [names];
      case _ =>
        FedOther(trace[..i], initial, queue, popped, offers, trace[i]);
    }
    assert trace[..|trace|] == trace;
  }

  /** The tokens named by one round of payloads, with the prefix removed. */
  ghost function Named(opts: Sharder.Options, sent: seq<Payload>): set<Token> {
    SetOf(Sharder.OfferedTokens(opts, [sent]))
  }

  lemma OfferNamesAll(opts: Sharder.Options, tokens: seq<Token>, sent: seq<Payload>, listed: seq<Token>)
    requires Sharder.Offer(opts, tokens, sent, listed)
    ensures Named(opts, sent) == SetOf(tokens)
  {
    Sharder.OfferedAreListed(opts, [tokens], [sent], [listed]);
    assert [listed][..0] == [];
    assert Flatten([listed]) == listed;
  }

  /**
   Every connection the reconnect loop makes is followed at once by a call of the hook that offers the worker's
   entire token set, and no more than that; `HookCalls(trace[..i + 1])` is the number of that call.
   */
  lemma ReconnectsCoverTheWorker(o: Options, t: Tape, opts: Sharder.Options, tokens: seq<Token>,
                                 sent: seq<seq<Payload>>, listed: seq<seq<Token>>, i: nat)
    requires HookRan(Flat(o, Starting, t).trace, opts, tokens, sent, listed)
    requires 1 < i < |Flat(o, Starting, t).trace| && Flat(o, Starting, t).trace[i] == Connected
    ensures
      var trace := Flat(o, Starting, t).trace;
      && i + 1 < |trace| && trace[i + 1] == Resubscribe
      && HookCalls(trace[..i + 1]) < |sent|
      && Named(opts, sent[HookCalls(trace[..i + 1])]) == SetOf(tokens)
  {
    var trace := Flat(o, Starting, t).trace;
    OneResubscribePerReconnect(o, t, i);
    assert trace[..i + 2] == trace[..i + 1] + [trace[i + 1]];
    HookCallsAppend(trace[..i + 1], trace[i + 1]);
    HookCallsGrow(trace, i + 2);
    var k := HookCalls(trace[..i + 1]);
    OfferNamesAll(opts, tokens, sent[k], listed[k]);
  }

  lemma {:induction false} HookCallsGrow(trace: seq<Event>, k: nat)
    requires k <= |trace|
    ensures HookCalls(trace[..k]) <= HookCalls(trace)
    decreases |trace|
  {
    if k == |trace| {
      assert trace[..k] == trace;
    } else {
      var n := |trace| - 1;
      HookCallsGrow(trace[..n], k);
      assert trace[..n][..k] == trace[..k];
    }
  }

  lemma {:induction false} TakenUnlessDropped(offers: seq<Pipeline.Offer>)
    requires Pipeline.Dropped(offers) == []
    ensures Pipeline.Taken(offers) == Pipeline.Frames(offers)
  {
    if offers != [] {
      var n := |offers| - 1;
      TakenUnlessDropped(offers[..n]);
      assert Pipeline.Frames(offers) == Pipeline.Frames(offers[..n]) + [offers[n].frame];
    }
  }

  /** The messages among the outcomes that the reads of a client returned. */
  function MessagesRead(o: Options, t: Tape): seq<string> {
    Bodies(t.incoming[..ReadsMade(o, Starting, t)])
  }

  /** Lane by lane, the frames offered so far are a prefix of what the lane's client delivers over its tape. */
  ghost predicate FedBy(s: RingPipeline.System, o: Options, tapes: seq<Tape>) {
    && |tapes| == |s.lanes|
    && forall i :: 0 <= i < |tapes| ==> Pipeline.Frames(s.lanes[i].offers) <= Delivered(Flat(o, Starting, tapes[i]).trace)
  }

  /** The server sends on each connection only ticks of the tokens of that connection's worker. */
  ghost predicate ServesOwn(c: RingPipeline.Config, tapes: seq<Tape>, shards: seq<seq<Token>>) {
    && |tapes| == |shards|
    && forall i :: 0 <= i < |tapes| ==> OnlyTokens(c, Bodies(tapes[i].incoming), SetOf(shards[i]))
  }

  ghost predicate OnlyTokens(c: RingPipeline.Config, frames: seq<Frame>, own: set<Token>) {
    forall f :: f in frames && c.parse(f).Some? ==> c.parse(f).value.token in own
  }

  lemma {:induction false} BodiesOfPrefix(incoming: seq<ReadOutcome>, n: nat, f: Frame)
    requires n <= |incoming| && f in Bodies(incoming[..n])
    ensures f in Bodies(incoming)
  {
    assert incoming[..n][1..] == incoming[1..][..n - 1];
    if f in Bodies(incoming[..n][1..]) {
      BodiesOfPrefix(incoming[1..], n - 1, f);
    }
  }

  lemma {:induction false} TakenWereOffered(offers: seq<Pipeline.Offer>, f: Frame)
    requires f in Pipeline.Taken(offers)
    ensures f in Pipeline.Frames(offers)
  {
    var n := |offers| - 1;
    assert Pipeline.Frames(offers)[n] == offers[n].frame;
    if f in Pipeline.Taken(offers[..n]) {
      TakenWereOffered(offers[..n], f);
      var k :| 0 <= k < n && Pipeline.Frames(offers[..n])[k] == f;
      assert Pipeline.Frames(offers)[k] == f;
    }
  }

  /** Frames delivered from a tape on which only own tokens come carry only own tokens. */
  lemma FedRingCarriesOwn(c: RingPipeline.Config, l: RingPipeline.Lane, o: Options, t: Tape, own: set<Token>)
    requires RingPipeline.LaneInv(c, l) && Pipeline.Frames(l.offers) <= Delivered(Flat(o, Starting, t).trace)
    requires OnlyTokens(c, Bodies(t.incoming), own)
    ensures RingPipeline.Carries(c, l.ring, own)
  {
    var n := MessagesInOrder(o, Starting, t);
    forall f | f in l.ring.pushed
      ensures f in Bodies(t.incoming)
    {
      TakenWereOffered(l.offers, f);
      var k :| 0 <= k < |Pipeline.Frames(l.offers)| && Pipeline.Frames(l.offers)[k] == f;
      assert Delivered(Flat(o, Starting, t).trace)[k] == f;
      BodiesOfPrefix(t.incoming, n, f);
    }
  }

  /** Everything above about disjoint lanes holds of workers cut from a duplicate-free list. */
  lemma FedRingsAreDisjoint(c: RingPipeline.Config, actions: seq<RingPipeline.Action>, o: Options, tapes: seq<Tape>,
                            opts: Sharder.Options, tokens: seq<Token>)
    requires ValidCapacity(c.capacity) && RingPipeline.Run(c, actions).Some? && Distinct(tokens)
    requires FedBy(RingPipeline.Run(c, actions).value, o, tapes)
    requires ServesOwn(c, tapes, Sharder.Shards(opts, tokens))
    ensures
      RingPipeline.DisjointDelivery(c, RingPipeline.Run(c, actions).value,
                                    Pipeline.OwnTokens(Sharder.Shards(opts, tokens)))
  {
    RingPipeline.RefinesPipeline(c, actions);
    var s, shards := RingPipeline.Run(c, actions).value, Sharder.Shards(opts, tokens);
    forall i | 0 <= i < |s.lanes|
      ensures RingPipeline.Carries(c, s.lanes[i].ring, SetOf(shards[i]))
    {
      FedRingCarriesOwn(c, s.lanes[i], o, tapes[i], SetOf(shards[i]));
    }
    RingPipeline.ShardedRingsAreDisjoint(c, s, opts, tokens);
  }

  /** The values filed are the parses of `frames`, and a read of the token finds the last of them for it. */
  ghost predicate Filed(c: RingPipeline.Config, s: RingPipeline.System, l: RingPipeline.Lane, frames: seq<Frame>,
                        token: Token) {
    l.written == Accepted(c.parse, frames) && Pipeline.ReadsLast(s.store, Accepted(c.parse, frames), token)
  }

  /** Without drops, a lane has handled the first of the messages offered to it. */
  lemma HandledFirst(c: RingPipeline.Config, l: RingPipeline.Lane, messages: seq<Frame>)
    requires RingPipeline.LaneInv(c, l) && Pipeline.Dropped(l.offers) == [] && Pipeline.Frames(l.offers) <= messages
    ensures Pipeline.Handled(RingPipeline.Project(l)) <= messages
    ensures
      RingPipeline.LaneDrained(l) && Pipeline.Frames(l.offers) == messages ==> Pipeline.Handled(RingPipeline.Project(l)) == messages
  {
    TakenUnlessDropped(l.offers);
    SpscRing.ContentsInv(l.ring);
    assert l.ring.popped <= messages;
  }

  /** The consumer of lane i has filed the parses of the frames it has handled, and reads find the last of them. */
  lemma LaneFiled(c: RingPipeline.Config, actions: seq<RingPipeline.Action>, own: seq<set<Token>>, i: nat, token: Token)
    requires ValidCapacity(c.capacity) && RingPipeline.Run(c, actions).Some?
    requires RingPipeline.DisjointDelivery(c, RingPipeline.Run(c, actions).value, own) && i < |own| && token in own[i]
    ensures RingPipeline.SystemInv(c, RingPipeline.Run(c, actions).value)
    ensures
      var s := RingPipeline.Run(c, actions).value;
      |own| == |s.lanes| && Filed(c, s, s.lanes[i], Pipeline.Handled(RingPipeline.LaneView(c, s, i)), token)
  {
    RingPipeline.RefinesPipeline(c, actions);
    RingPipeline.RingStoreIsUnionOfLanes(c, actions, own, i, token);
    var s := RingPipeline.Run(c, actions).value;
    Pipeline.AgreementReadsLast(s.store, Accepted(c.parse, Pipeline.Handled(RingPipeline.LaneView(c, s, i))), token);
  }

  /**
   From the sockets to the store, for workers cut from a duplicate-free list, whatever the interleaving of all
   threads and the staleness of all loads. At every point of a run the frames offered to a lane are messages its
   client read, in order. If none was dropped, and none is while there are no more messages than slots, what the
   consumer has filed are the parses of the first messages, as many as it has handled; and when all of them have
   been offered and the lane is drained, of all the messages.
   */
  lemma SocketToStore(c: RingPipeline.Config, actions: seq<RingPipeline.Action>, o: Options, tapes: seq<Tape>,
                      opts: Sharder.Options, tokens: seq<Token>, i: nat, token: Token)
    requires ValidCapacity(c.capacity) && RingPipeline.Run(c, actions).Some? && Distinct(tokens)
    requires FedBy(RingPipeline.Run(c, actions).value, o, tapes)
    requires ServesOwn(c, tapes, Sharder.Shards(opts, tokens))
    requires i < |tapes| && token in Sharder.Shards(opts, tokens)[i]
    ensures RingPipeline.SystemInv(c, RingPipeline.Run(c, actions).value)
    ensures
      var s := RingPipeline.Run(c, actions).value;
      var l := s.lanes[i];
      var handled, messages := Pipeline.Handled(RingPipeline.LaneView(c, s, i)), MessagesRead(o, tapes[i]);
      && Pipeline.Frames(l.offers) <= messages
      && (|messages| <= c.capacity ==> Pipeline.Dropped(l.offers) == [])
      && Filed(c, s, l, handled, token)
      && (Pipeline.Dropped(l.offers) == [] ==> handled <= messages)
      && (Pipeline.Dropped(l.offers) == [] && RingPipeline.LaneDrained(l) && Pipeline.Frames(l.offers) == messages ==>
            handled == messages)
  {
    RingPipeline.RefinesPipeline(c, actions);
    FedRingsAreDisjoint(c, actions, o, tapes, opts, tokens);
    var s, own := RingPipeline.Run(c, actions).value, Pipeline.OwnTokens(Sharder.Shards(opts, tokens));
    var l := s.lanes[i];
    LaneFiled(c, actions, own, i, token);
    RingPipeline.NoDropsWithinCapacity(c, actions, i);
    var n := MessagesInOrder(o, Starting, tapes[i]);
    if Pipeline.Dropped(l.offers) == [] {
      HandledFirst(c, l, MessagesRead(o, tapes[i]));
    }
  }
}
