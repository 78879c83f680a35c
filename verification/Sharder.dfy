/**
 `Sharder`: cuts the token list over connections, gives every connection its own subscription manager, and on
 each start or reconnect offers the subscribe payloads of that manager to the socket.
 */
module Sharder {
  import opened Bits
  import opened Chunking
  import opened SubscriptionManager
  import opened Parser

  datatype Options = Options(maxTokensPerConn: u64, subscribeBatchSize: u64, tokenPrefix: string)

  function EffectiveMax(n: u64): u64 {
    if n == 0 then 800 else n
  }

  /** The token formatter wired into each worker: the token itself when there is no prefix, else prefix and token. */
  function Prefixed(prefix: string): string -> string {
    t => if prefix == "" then t else prefix + t
  }

  /** The token list of each worker; an empty list still gets one idle worker. */
  ghost function Shards(opts: Options, tokens: seq<Token>): (r: seq<seq<Token>>)
    ensures r != [] && Flatten(r) == tokens
  {
    var cut := ChunksOf(tokens, EffectiveMax(opts.maxTokensPerConn));
    if cut == [] then
      assert Flatten([[]]) == Flatten(cut) by {
        FlattenAppend<Token>([], []);
      }
      [[]]
    else cut
  }

  // ----- the sharder as a value -----

  datatype View = View(tokens: seq<Token>, workers: seq<seq<Token>>, running: bool)

  datatype Op = SetTokens(tokens: seq<Token>) | Start | Stop

  ghost function Apply(opts: Options, v: View, op: Op): View {
    match op
    case SetTokens(tokens) => v.(tokens := tokens)
    case Start => if v.running then v else v.(workers := Shards(opts, v.tokens), running := true)
    case Stop => if v.running then v.(workers := [], running := false) else v
  }

  ghost function History(opts: Options, ops: seq<Op>): View {
    if ops == [] then View([], [], false) else Apply(opts, History(opts, ops[..|ops| - 1]), ops[|ops| - 1])
  }

  /** The token list in force when the current (or latest) run was started. */
  ghost function TokensAtLastStart(opts: Options, ops: seq<Op>): seq<Token> {
    if ops == [] then []
    else
      var before := History(opts, ops[..|ops| - 1]);
      if ops[|ops| - 1].Start? && !before.running then before.tokens
      else TokensAtLastStart(opts, ops[..|ops| - 1])
  }

  /**
   After any sequence of calls: running holds exactly while there are workers; while running there are
   max(1, ceil(n / max)) of them, none holds more than max tokens, and their lists concatenate to the list at the
   last start, whatever has been set since. A start leaves the sharder running and a stop leaves it without workers;
   only setting tokens changes the pending list.
   */
  lemma {:induction false} RunningWorkers(opts: Options, ops: seq<Op>)
    ensures
      var v := History(opts, ops);
      var started := TokensAtLastStart(opts, ops);
      var max := if opts.maxTokensPerConn == 0 then 800 else opts.maxTokensPerConn;
      && (v.running <==> v.workers != [])
      && (v.running ==> Flatten(v.workers) == started)
      && (v.running ==> |v.workers| == if started == [] then 1 else (|started| + max - 1) / max)
      && (v.running ==> forall k :: 0 <= k < |v.workers| ==> |v.workers[k]| <= max)
    ensures
      ops != [] ==>
        var v, before, last := History(opts, ops), History(opts, ops[..|ops| - 1]), ops[|ops| - 1];
        && (last.Start? ==> v.running && (before.running ==> v.workers == before.workers))
        && (last.Stop? ==> !v.running && v.workers == [])
        && (last.SetTokens? ==> v.workers == before.workers && v.running == before.running)
        && v.tokens == if last.SetTokens? then last.tokens else before.tokens
  {
    if ops != [] {
      var n := |ops| - 1;
      RunningWorkers(opts, ops[..n]);
      var before := History(opts, ops[..n]);
      if ops[n].Start? && !before.running {
        ShardCount(opts, before.tokens);
      }
    }
  }

  lemma ShardCount(opts: Options, tokens: seq<Token>)
    ensures
      var max := EffectiveMax(opts.maxTokensPerConn);
      && |Shards(opts, tokens)| == (if tokens == [] then 1 else (|tokens| + max - 1) / max)
      && forall k :: 0 <= k < |Shards(opts, tokens)| ==> |Shards(opts, tokens)[k]| <= max
  {
    var max := EffectiveMax(opts.maxTokensPerConn);
    var cut := ChunksOf(tokens, max);
    ChunkCount(tokens, max, cut);
    if tokens == [] {
      DivModUnique(max - 1, max, 0, max - 1);
      assert cut == [];
    } else {
      assert cut != [];
    }
  }

  /** With no duplicate in the list, no token is given to two workers. */
  lemma ShardsDisjoint(opts: Options, tokens: seq<Token>, i: nat, j: nat)
    requires Distinct(tokens) && i < j < |Shards(opts, tokens)|
    ensures SetOf(Shards(opts, tokens)[i]) !! SetOf(Shards(opts, tokens)[j])
  {
    DistinctPieces(Shards(opts, tokens), i, j);
  }

  // ----- the class -----

  datatype Worker = Worker(tokens: seq<Token>, sub: SubscriptionManager)

  function WorkerTokens(workers: seq<Worker>): (r: seq<seq<Token>>)
    ensures |r| == |workers| && forall i :: 0 <= i < |r| ==> r[i] == workers[i].tokens
  {
    seq(|workers|, i requires 0 <= i < |workers| => workers[i].tokens)
  }

  class Sharder {
    const opts: Options
    var desiredTokens: seq<Token>
    var workers: seq<Worker>
    var running: bool

    ghost function Value(): View
      reads this
    {
      View(desiredTokens, WorkerTokens(workers), running)
    }

    /**
     What every operation keeps. Nothing in this wiring acknowledges a subscription, so each worker's active set
     stays empty and its desired set stays the set of its tokens.
     */
    ghost predicate Valid()
      reads this, set w | w in workers :: w.sub
    {
      && (running <==> workers != [])
      && forall w :: w in workers ==> Wired(w, opts)
    }

    constructor (opts: Options)
      ensures Valid() && this.opts == opts && Value() == History(opts, [])
    {
      this.opts := opts;
      desiredTokens, workers, running := [], [], false;
    }

    method SetTokens(tokens: seq<Token>)
      requires Valid()
      modifies this`desiredTokens
      ensures Valid() && Value() == Apply(opts, old(Value()), Op.SetTokens(tokens))
    {
      desiredTokens := tokens;
    }

    /** `sent` is what `send_initial_subscribes` offers to each worker's socket, `listed` the tokens behind it. */
    method Start() returns (sent: seq<seq<Payload>>, ghost listed: seq<seq<Token>>)
      requires Valid() && |desiredTokens| < TWO63
      modifies this
      ensures Valid() && Value() == Apply(opts, old(Value()), Op.Start)
      ensures if old(running) then sent == [] else Offers(opts, Shards(opts, desiredTokens), sent, listed)
      ensures !old(running) ==> forall i :: 0 <= i < |sent| ==> Subscribes(opts, sent[i], listed[i])
    {
      sent, listed := [], [];
      if running {
        return;
      }
      BuildWorkers();
      sent, listed := SendInitialSubscribes();
      running := true;
    }

    method BuildWorkers()
      requires |desiredTokens| < TWO63
      modifies this`workers
      ensures WorkerTokens(workers) == Shards(opts, desiredTokens)
      ensures forall w :: w in workers ==> Wired(w, opts)
    {
      var shards, _ := MakeChunks(desiredTokens, EffectiveMax(opts.maxTokensPerConn));
      if shards == [] {
        shards := [[]];
      }
      assert shards == Shards(opts, desiredTokens);
      workers := [];
      for i := 0 to |shards|
        invariant |workers| == i
        invariant forall k :: 0 <= k < i ==> workers[k].tokens == shards[k] && fresh(workers[k].sub)
        invariant forall k :: 0 <= k < i ==> Wired(workers[k], opts)
      {
        ShardLength(shards, i);
        var w := WireWorker(shards[i]);
        workers := workers + [w];
      }
      assert WorkerTokens(workers) == shards;
    }

    /** A new worker with a manager of its own that desires exactly the shard's tokens. */
    method WireWorker(tokens: seq<Token>) returns (w: Worker)
      requires |SetOf(tokens)| < TWO63
      ensures fresh(w.sub) && w.tokens == tokens && Wired(w, opts)
      ensures forall t :: w.sub.fmt(t) == opts.tokenPrefix + t
    {
      forall t
        ensures Prefixed(opts.tokenPrefix)(t) == opts.tokenPrefix + t
      {
        PrefixComesFirst(opts.tokenPrefix, t);
      }
      var sub := new SubscriptionManager(LTP, opts.subscribeBatchSize, Prefixed(opts.tokenPrefix));
      if tokens != [] {
        sub.AddMany(tokens);
      }
      w := Worker(tokens, sub);
    }

    method SendInitialSubscribes() returns (sent: seq<seq<Payload>>, ghost listed: seq<seq<Token>>)
      requires forall w :: w in workers ==> Wired(w, opts)
      ensures Offers(opts, WorkerTokens(workers), sent, listed)
      ensures forall i :: 0 <= i < |sent| ==> Subscribes(opts, sent[i], listed[i])
    {
      sent, listed := [], [];
      for i := 0 to |workers|
        invariant |sent| == |listed| == i
        invariant forall k :: 0 <= k < i ==> Offer(opts, workers[k].tokens, sent[k], listed[k])
        invariant forall k :: 0 <= k < i ==> Subscribes(opts, sent[k], listed[k])
      {
        var payloads, names := Resubscribe(workers[i]);
        sent, listed := sent + [payloads], listed + [names];
      }
    }

    /** The resubscribe hook of a worker: every call offers the worker's whole token set again. */
    method Resubscribe(w: Worker) returns (sent: seq<Payload>, ghost listed: seq<Token>)
      requires Wired(w, opts)
      ensures Offer(opts, w.tokens, sent, listed) && Subscribes(opts, sent, listed)
    {
      sent, listed := w.sub.BuildSubscribeBatches();
      assert w.sub.desired - w.sub.active == SetOf(w.tokens);
      OfferSubscribes(opts, w.tokens, sent, listed);
    }

    method Stop()
      requires Valid()
      modifies this
      ensures Valid() && Value() == Apply(opts, old(Value()), Op.Stop)
    {
      if !running {
        return;
      }
      workers := [];
      running := false;
    }
  }

  /** A worker's manager as wired by `build_workers_locked` and left by every later operation. */
  ghost predicate Wired(w: Worker, opts: Options)
    reads w.sub
  {
    && w.sub.Valid()
    && w.sub.desired == SetOf(w.tokens)
    && w.sub.active == {}
    && w.sub.mode == LTP
    && w.sub.batchSize == EffectiveBatch(opts.subscribeBatchSize)
    && w.sub.fmt == Prefixed(opts.tokenPrefix)
  }

  /** The payloads offered for one worker: its whole token set, prefixed, in any order, in full batches but the last. */
  ghost predicate Offer(opts: Options, tokens: seq<Token>, sent: seq<Payload>, listed: seq<Token>) {
    && Lists(listed, SetOf(tokens))
    && Announces(sent, "subscribe", LTP, Prefixed(opts.tokenPrefix), listed, EffectiveBatch(opts.subscribeBatchSize))
  }

  lemma PrefixComesFirst(prefix: string, t: Token)
    ensures Prefixed(prefix)(t) == prefix + t
  {
    assert "" + t == t;
  }

  /** The payloads themselves: the prefix before each token listed, in full batches, to subscribe in mode "ltp". */
  ghost predicate Subscribes(opts: Options, sent: seq<Payload>, listed: seq<Token>) {
    var names := Flatten(TokenLists(sent));
    var batch := if opts.subscribeBatchSize == 0 then 100 else opts.subscribeBatchSize;
    && |names| == |listed|
    && (forall i :: 0 <= i < |listed| ==> names[i] == opts.tokenPrefix + listed[i])
    && (forall k :: 0 <= k < |sent| ==> sent[k].action == "subscribe" && sent[k].mode == "ltp")
    && (forall k :: 0 <= k < |sent| ==> 1 <= |sent[k].tokens| <= batch && (k < |sent| - 1 ==> |sent[k].tokens| == batch))
  }

  /** What is offered names, with the prefix in front, exactly the tokens, each once. */
  lemma OfferSubscribes(opts: Options, tokens: seq<Token>, sent: seq<Payload>, listed: seq<Token>)
    requires Offer(opts, tokens, sent, listed)
    ensures Subscribes(opts, sent, listed)
    ensures Distinct(listed) && forall t :: t in listed <==> t in tokens
  {
    forall i | 0 <= i < |listed|
      ensures Map(Prefixed(opts.tokenPrefix), listed)[i] == opts.tokenPrefix + listed[i]
    {
      PrefixComesFirst(opts.tokenPrefix, listed[i]);
    }
    forall k | 0 <= k < |sent|
      ensures sent[k].tokens == TokenLists(sent)[k] && sent[k] in sent
    {
    }
    forall t
      ensures t in listed <==> t in tokens
    {
      assert t in SetOf(listed) <==> t in SetOf(tokens);
    }
  }

  ghost predicate Offers(opts: Options, shards: seq<seq<Token>>, sent: seq<seq<Payload>>, listed: seq<seq<Token>>) {
    && |sent| == |listed| == |shards|
    && forall i :: 0 <= i < |shards| ==> Offer(opts, shards[i], sent[i], listed[i])
  }

  lemma ShardLength(shards: seq<seq<Token>>, i: nat)
    requires i < |shards| && |Flatten(shards)| < TWO63
    ensures |SetOf(shards[i])| < TWO63
  {
    PieceLength(shards, i);
    SetOfLength(shards[i]);
  }

  lemma {:induction false} PieceLength(xss: seq<seq<Token>>, i: nat)
    requires i < |xss|
    ensures |xss[i]| <= |Flatten(xss)|
  {
    if i < |xss| - 1 {
      PieceLength(xss[..|xss| - 1], i);
    }
  }

  lemma {:induction false} SetOfLength(s: seq<Token>)
    ensures |SetOf(s)| <= |s|
  {
    if s != [] {
      var n := |s| - 1;
      SetOfLength(s[..n]);
      assert SetOf(s) == SetOf(s[..n]) + {s[n]};
    }
  }

  // ----- every desired token is offered -----

  /** All the names carried by all the payloads, with the prefix removed as the parser removes it. */
  ghost function OfferedTokens(opts: Options, sent: seq<seq<Payload>>): seq<Token> {
    Map(name => StripPrefix(opts.tokenPrefix, name), Flatten(AllNames(sent)))
  }

  function AllNames(sent: seq<seq<Payload>>): (r: seq<seq<string>>)
    ensures |r| == |sent| && forall i :: 0 <= i < |r| ==> r[i] == Flatten(TokenLists(sent[i]))
  {
    seq(|sent|, i requires 0 <= i < |sent| => Flatten(TokenLists(sent[i])))
  }

  lemma StripInvertsPrefix(prefix: string, t: Token)
    ensures StripPrefix(prefix, Prefixed(prefix)(t)) == t
  {
    assert (prefix + t)[|prefix|..] == t;
  }

  /** The names offered, stripped, are the tokens the managers listed. */
  lemma OfferedAreListed(opts: Options, shards: seq<seq<Token>>, sent: seq<seq<Payload>>, listed: seq<seq<Token>>)
    requires Offers(opts, shards, sent, listed)
    ensures OfferedTokens(opts, sent) == Flatten(listed)
  {
    var f, g := Prefixed(opts.tokenPrefix), (name: string) => StripPrefix(opts.tokenPrefix, name);
    assert AllNames(sent) == MapAll(f, listed);
    FlattenMap(f, listed);
    var tokens := Flatten(listed);
    forall i | 0 <= i < |tokens|
      ensures g(f(tokens[i])) == tokens[i]
    {
      StripInvertsPrefix(opts.tokenPrefix, tokens[i]);
    }
    assert OfferedTokens(opts, sent) == tokens;
  }

  /**
   For every token list, every limits and every hash-set iteration order: the tokens offered at start are exactly
   the tokens set, each exactly once when the list has no duplicates; no payload is empty or over the batch size.
   */
  lemma StartOffersEveryToken(opts: Options, tokens: seq<Token>, sent: seq<seq<Payload>>, listed: seq<seq<Token>>)
    requires Offers(opts, Shards(opts, tokens), sent, listed)
    ensures SetOf(OfferedTokens(opts, sent)) == SetOf(tokens)
    ensures Distinct(tokens) ==> Distinct(OfferedTokens(opts, sent))
    ensures
      forall i, p :: 0 <= i < |sent| && p in sent[i] ==>
        1 <= |p.tokens| <= if opts.subscribeBatchSize == 0 then 100 else opts.subscribeBatchSize
  {
    var shards := Shards(opts, tokens);
    OfferedAreListed(opts, shards, sent, listed);
    forall t
      ensures t in Flatten(listed) <==> t in tokens
    {
      FlattenMembers(listed, t);
      FlattenMembers(shards, t);
      forall i | 0 <= i < |shards|
        ensures t in listed[i] <==> t in shards[i]
      {
        assert t in SetOf(listed[i]) <==> t in SetOf(shards[i]);
      }
    }
    if Distinct(tokens) {
      ListedOnce(shards, listed);
    }
    forall i, p | 0 <= i < |sent| && p in sent[i]
      ensures 1 <= |p.tokens| <= EffectiveBatch(opts.subscribeBatchSize)
    {
      var k :| 0 <= k < |sent[i]| && sent[i][k] == p;
      assert TokenLists(sent[i])[k] == p.tokens;
    }
  }

  lemma {:induction false} ListedOnce(shards: seq<seq<Token>>, listed: seq<seq<Token>>)
    requires Distinct(Flatten(shards)) && |listed| == |shards|
    requires forall i :: 0 <= i < |shards| ==> Lists(listed[i], SetOf(shards[i]))
    ensures Distinct(Flatten(listed)) && SetOf(Flatten(listed)) == SetOf(Flatten(shards))
  {
    if shards != [] {
      var n := |shards| - 1;
      var f, g := Flatten(shards[..n]), Flatten(listed[..n]);
      NothingShared(f, shards[n]);
      ListedOnce(shards[..n], listed[..n]);
      JoinDistinct(g, listed[n]);
      assert SetOf(f + shards[n]) == SetOf(f) + SetOf(shards[n]);
      assert SetOf(g + listed[n]) == SetOf(g) + SetOf(listed[n]);
    }
  }

  lemma JoinDistinct<T>(f: seq<T>, g: seq<T>)
    requires Distinct(f) && Distinct(g) && SetOf(f) !! SetOf(g)
    ensures Distinct(f + g)
  {
    forall i, j | 0 <= i < j < |f + g|
      ensures (f + g)[i] != (f + g)[j]
    {
      if i < |f| <= j {
        assert f[i] in SetOf(f) && g[j - |f|] in SetOf(g);
      }
    }
  }
}
