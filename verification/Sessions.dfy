/**
 Which sessions of a connection are subscribed. `start` launches the client's thread and offers the first payloads at
 once; `send_text` turns a payload away unless `connected` is set, and the hook runs only after a reconnect. A
 payload sent after the k-th event of the client meets the flag as every callback finds it (`Emit`); one sent
 between a change of the flag and the notice of that change is counted after the notice.
 */
module Sessions {
  import opened Wrappers
  import opened Chunking
  import opened WebSocketClient
  import opened SubscriptionManager
  import opened Wiring
  import Sharder

  /** How many sessions have begun. */
  function Begun(trace: seq<Event>): nat {
    if trace == [] then 0
    else
      var n := |trace| - 1;
      Begun(trace[..n]) + if trace[n].Connected? then 1 else 0
  }

  /** The session whose socket takes a payload sent after a trace, from 1; 0 when the guard turns it away. */
  function SessionAfter(trace: seq<Event>): nat {
    if LastNotice(trace) == Some(Connected) then Begun(trace) else 0
  }

  /**
   Everything offered for one worker over one run of its client: the payloads of `send_initial_subscribes`, the k-th
   sent after `at[k]` events, and those of each call of the hook.
   */
  datatype Offered = Offered(
    opts: Sharder.Options,
    tokens: seq<Token>,
    initial: seq<Payload>,
    initialListed: seq<Token>,
    at: seq<nat>,
    hook: seq<seq<Payload>>,
    hookListed: seq<seq<Token>>)

  ghost predicate OfferedOver(w: Offered, trace: seq<Event>) {
    && Sharder.Offer(w.opts, w.tokens, w.initial, w.initialListed)
    && |w.at| == |w.initial|
    && (forall k :: 0 <= k < |w.at| ==> w.at[k] <= |trace|)
    && HookRan(trace, w.opts, w.tokens, w.hook, w.hookListed)
  }

  /** The payload subscribes to x. */
  predicate Names(opts: Sharder.Options, p: Payload, x: Token) {
    opts.tokenPrefix + x in p.tokens
  }

  /** A payload naming x was among the first ones and reached session n. */
  ghost predicate HandedAtStart(w: Offered, trace: seq<Event>, n: nat, x: Token)
    requires OfferedOver(w, trace)
  {
    exists k :: 0 <= k < |w.initial| && SessionAfter(trace[..w.at[k]]) == n && Names(w.opts, w.initial[k], x)
  }

  /** A call of the hook in session n sent a payload naming x. */
  ghost predicate HandedByHook(w: Offered, trace: seq<Event>, n: nat, x: Token)
    requires OfferedOver(w, trace)
  {
    exists j :: HookIn(trace, j, n) && HookCallNames(w, HookCalls(trace[..j]), x)
  }

  predicate HookIn(trace: seq<Event>, j: int, n: nat) {
    0 <= j < |trace| && trace[j].Resubscribe? && SessionAfter(trace[..j + 1]) == n
  }

  ghost predicate HookCallNames(w: Offered, call: nat, x: Token) {
    call < |w.hook| && exists k :: 0 <= k < |w.hook[call]| && Names(w.opts, w.hook[call][k], x)
  }

  ghost predicate Handed(w: Offered, trace: seq<Event>, n: nat, x: Token)
    requires OfferedOver(w, trace)
  {
    HandedAtStart(w, trace, n, x) || HandedByHook(w, trace, n, x)
  }

  // ----- payloads and names -----

  /** A round of payloads names exactly the worker's tokens. */
  lemma NamedAreTokens(opts: Sharder.Options, tokens: seq<Token>, sent: seq<Payload>, listed: seq<Token>, x: Token)
    requires Sharder.Offer(opts, tokens, sent, listed)
    ensures (exists k :: 0 <= k < |sent| && Names(opts, sent[k], x)) <==> x in tokens
  {
    var fmt := Sharder.Prefixed(opts.tokenPrefix);
    var lists := TokenLists(sent);
    Sharder.PrefixComesFirst(opts.tokenPrefix, x);
    FlattenMembers(lists, fmt(x));
    assert Flatten(lists) == Map(fmt, listed);
    assert x in SetOf(listed) <==> x in SetOf(tokens);
    if x in tokens {
      var i :| 0 <= i < |listed| && listed[i] == x;
      assert Map(fmt, listed)[i] == fmt(x);
      var k :| 0 <= k < |lists| && fmt(x) in lists[k];
      assert Names(opts, sent[k], x);
    }
    if k :| 0 <= k < |sent| && Names(opts, sent[k], x) {
      assert fmt(x) in lists[k];
      var i :| 0 <= i < |listed| && Map(fmt, listed)[i] == fmt(x);
      SameName(opts, listed[i], x);
    }
  }

  lemma SameName(opts: Sharder.Options, x: Token, y: Token)
    requires Sharder.Prefixed(opts.tokenPrefix)(x) == Sharder.Prefixed(opts.tokenPrefix)(y)
    ensures x == y
  {
    Sharder.StripInvertsPrefix(opts.tokenPrefix, x);
    Sharder.StripInvertsPrefix(opts.tokenPrefix, y);
  }

  /** Every payload names some token that no other payload of its round names. */
  lemma OwnToken(opts: Sharder.Options, tokens: seq<Token>, sent: seq<Payload>, listed: seq<Token>, k: nat)
    returns (x: Token)
    requires Sharder.Offer(opts, tokens, sent, listed) && k < |sent|
    ensures x in tokens
    ensures forall j :: 0 <= j < |sent| && Names(opts, sent[j], x) ==> j == k
  {
    var fmt := Sharder.Prefixed(opts.tokenPrefix);
    var lists := TokenLists(sent);
    var name := lists[k][0];
    FlattenMembers(lists, name);
    assert name in Map(fmt, listed);
    var i :| 0 <= i < |listed| && Map(fmt, listed)[i] == name;
    x := listed[i];
    assert x in SetOf(listed);
    Sharder.PrefixComesFirst(opts.tokenPrefix, x);
    FormattedDistinct(opts, listed);
    forall j | 0 <= j < |sent| && Names(opts, sent[j], x)
      ensures j == k
    {
      assert name in SetOf(lists[j]) && name in SetOf(lists[k]);
      if j < k {
        DistinctPieces(lists, j, k);
      } else if k < j {
        DistinctPieces(lists, k, j);
      }
    }
  }

  lemma FormattedDistinct(opts: Sharder.Options, listed: seq<Token>)
    requires Distinct(listed)
    ensures Distinct(Map(Sharder.Prefixed(opts.tokenPrefix), listed))
  {
    var fmt := Sharder.Prefixed(opts.tokenPrefix);
    forall i, j | 0 <= i < j < |listed|
      ensures Map(fmt, listed)[i] != Map(fmt, listed)[j]
    {
      if fmt(listed[i]) == fmt(listed[j]) {
        SameName(opts, listed[i], listed[j]);
      }
    }
  }

  // ----- where sessions begin -----

  lemma {:induction false} BegunGrows(trace: seq<Event>, k: nat)
    requires k <= |trace|
    ensures Begun(trace[..k]) <= Begun(trace)
    decreases |trace|
  {
    if k == |trace| {
      assert trace[..k] == trace;
    } else {
      var n := |trace| - 1;
      BegunGrows(trace[..n], k);
      assert trace[..n][..k] == trace[..k];
    }
  }

  lemma {:induction false} BeginningOf(trace: seq<Event>, n: nat) returns (i: nat)
    requires 1 <= n <= Begun(trace)
    ensures i < |trace| && trace[i] == Connected && Begun(trace[..i + 1]) == n
  {
    var last := |trace| - 1;
    if n <= Begun(trace[..last]) {
      i := BeginningOf(trace[..last], n);
      assert trace[..last][..i + 1] == trace[..i + 1];
    } else {
      i := last;
      assert trace[..i + 1] == trace;
    }
  }

  lemma StepForward(trace: seq<Event>, i: nat)
    requires i < |trace|
    ensures Begun(trace[..i + 1]) == Begun(trace[..i]) + if trace[i].Connected? then 1 else 0
    ensures HookCalls(trace[..i + 1]) == HookCalls(trace[..i]) + if trace[i].Resubscribe? then 1 else 0
    ensures trace[i].Connected? ==> LastNotice(trace[..i + 1]) == Some(Connected)
    ensures trace[i].Resubscribe? ==> LastNotice(trace[..i + 1]) == LastNotice(trace[..i])
  {
    assert trace[..i + 1][..i] == trace[..i];
  }

  /** The first two events hold the first connection, if it succeeded at once, and no other. */
  lemma FirstEvents(o: Options, t: Tape)
    ensures
      var trace := Flat(o, Starting, t).trace;
      |trace| >= 2 && Begun(trace[..1]) == 0 && Begun(trace[..2]) == if trace[1].Connected? then 1 else 0
  {
    var trace := Flat(o, Starting, t).trace;
    TraceShape(o, t, 0);
    assert trace[..0] == [];
    StepForward(trace, 0);
    StepForward(trace, 1);
  }

  // ----- sessions made by the reconnect loop -----

  /** A connection after the second event is made by the reconnect loop, whose hook names every token at once. */
  lemma RetriedSession(o: Options, t: Tape, w: Offered, i: nat, x: Token)
    requires OfferedOver(w, Flat(o, Starting, t).trace) && x in w.tokens
    requires 1 < i < |Flat(o, Starting, t).trace| && Flat(o, Starting, t).trace[i] == Connected
    ensures var trace := Flat(o, Starting, t).trace; HandedByHook(w, trace, Begun(trace[..i + 1]), x)
  {
    var trace := Flat(o, Starting, t).trace;
    OneResubscribePerReconnect(o, t, i);
    StepForward(trace, i);
    StepForward(trace, i + 1);
    HookCallsGrow(trace, i + 2);
    var call := HookCalls(trace[..i + 1]);
    NamedAreTokens(w.opts, w.tokens, w.hook[call], w.hookListed[call], x);
    assert HookIn(trace, i + 1, Begun(trace[..i + 1])) && HookCallNames(w, call, x);
  }

  /** When the first connection succeeds at once, every call of the hook falls in a later session. */
  lemma HookIsLater(o: Options, t: Tape, j: nat)
    requires |Flat(o, Starting, t).trace| >= 2 && Flat(o, Starting, t).trace[1].Connected?
    requires j < |Flat(o, Starting, t).trace| && Flat(o, Starting, t).trace[j].Resubscribe?
    ensures SessionAfter(Flat(o, Starting, t).trace[..j + 1]) > 1
  {
    var trace := Flat(o, Starting, t).trace;
    TraceShape(o, t, j);
    FirstEvents(o, t);
    StepForward(trace, j - 1);
    StepForward(trace, j);
    BegunGrows(trace[..j - 1], 2);
    assert trace[..j - 1][..2] == trace[..2];
  }

  lemma NothingByHook(o: Options, t: Tape, w: Offered, x: Token)
    requires |Flat(o, Starting, t).trace| >= 2 && Flat(o, Starting, t).trace[1].Connected?
    requires OfferedOver(w, Flat(o, Starting, t).trace)
    ensures !HandedByHook(w, Flat(o, Starting, t).trace, 1, x)
  {
    var trace := Flat(o, Starting, t).trace;
    forall j | 0 <= j < |trace| && trace[j].Resubscribe?
      ensures !HookIn(trace, j, 1)
    {
      HookIsLater(o, t, j);
    }
  }

  /** Every later session, and the first one when it was made by the reconnect loop, is handed every token. */
  lemma RetriedSessionsWhole(o: Options, t: Tape, w: Offered, n: nat, x: Token)
    requires OfferedOver(w, Flat(o, Starting, t).trace) && 1 <= n <= Begun(Flat(o, Starting, t).trace)
    requires x in w.tokens
    requires |Flat(o, Starting, t).trace| >= 2 && (n > 1 || !Flat(o, Starting, t).trace[1].Connected?)
    ensures HandedByHook(w, Flat(o, Starting, t).trace, n, x)
  {
    var trace := Flat(o, Starting, t).trace;
    FirstEvents(o, t);
    var i := BeginningOf(trace, n);
    TraceShape(o, t, i);
    RetriedSession(o, t, w, i, x);
  }

  /** The first payloads all reached session 1. */
  ghost predicate AllInFirstSession(w: Offered, trace: seq<Event>)
    requires OfferedOver(w, trace)
  {
    forall k :: 0 <= k < |w.initial| ==> SessionAfter(trace[..w.at[k]]) == 1
  }

  lemma FirstSessionByStart(w: Offered, trace: seq<Event>)
    requires OfferedOver(w, trace)
    ensures (forall x :: x in w.tokens ==> HandedAtStart(w, trace, 1, x)) <==> AllInFirstSession(w, trace)
  {
    if AllInFirstSession(w, trace) {
      forall x | x in w.tokens
        ensures HandedAtStart(w, trace, 1, x)
      {
        NamedAreTokens(w.opts, w.tokens, w.initial, w.initialListed, x);
        var k :| 0 <= k < |w.initial| && Names(w.opts, w.initial[k], x);
        assert SessionAfter(trace[..w.at[k]]) == 1;
      }
    } else {
      var k: nat :| k < |w.initial| && SessionAfter(trace[..w.at[k]]) != 1;
      var x := OwnToken(w.opts, w.tokens, w.initial, w.initialListed, k);
      assert !HandedAtStart(w, trace, 1, x);
    }
  }

  /**
   A session of a run is handed the worker's whole token set exactly when it is not the first, or the first attempt
   failed, so that the reconnect loop made it, or every payload sent at start was sent while it lasted. When the
   first attempt succeeds, its session is handed only what was sent at start while it lasted.
   */
  lemma SubscribedSessions(o: Options, t: Tape, w: Offered, n: nat)
    requires OfferedOver(w, Flat(o, Starting, t).trace) && 1 <= n <= Begun(Flat(o, Starting, t).trace)
    ensures |Flat(o, Starting, t).trace| >= 2
    ensures
      var trace := Flat(o, Starting, t).trace;
      (forall x :: x in w.tokens ==> Handed(w, trace, n, x))
      <==> n > 1 || !trace[1].Connected? || AllInFirstSession(w, trace)
    ensures
      var trace := Flat(o, Starting, t).trace;
      trace[1].Connected? ==> forall x :: Handed(w, trace, 1, x) <==> HandedAtStart(w, trace, 1, x)
  {
    var trace := Flat(o, Starting, t).trace;
    FirstEvents(o, t);
    if n > 1 || !trace[1].Connected? {
      forall x | x in w.tokens
        ensures Handed(w, trace, n, x)
      {
        RetriedSessionsWhole(o, t, w, n, x);
      }
    }
    if trace[1].Connected? {
      forall x
        ensures Handed(w, trace, 1, x) <==> HandedAtStart(w, trace, 1, x)
      {
        NothingByHook(o, t, w, x);
      }
      FirstSessionByStart(w, trace);
    }
  }

  /** Sent before the client's thread has announced anything, the first payloads reach no session at all. */
  lemma TooEarlyReachesNothing(o: Options, t: Tape, w: Offered, n: nat, x: Token)
    requires OfferedOver(w, Flat(o, Starting, t).trace) && n >= 1
    requires forall k :: 0 <= k < |w.at| ==> w.at[k] == 0
    ensures !HandedAtStart(w, Flat(o, Starting, t).trace, n, x)
  {
    assert Flat(o, Starting, t).trace[..0] == [];
  }

  /** A run whose one session never hears of a token: the first attempt succeeds after the payloads were sent. */
  lemma FirstSessionCanBeUnsubscribed(o: Options, w: Offered, x: Token) returns (t: Tape)
    requires Sharder.Offer(w.opts, w.tokens, w.initial, w.initialListed) && |w.at| == |w.initial|
    requires (forall k :: 0 <= k < |w.at| ==> w.at[k] == 0) && w.hook == [] && w.hookListed == []
    ensures Flat(o, Starting, t) == Outcome([Connecting, Connected], true)
    ensures OfferedOver(w, Flat(o, Starting, t).trace) && Begun(Flat(o, Starting, t).trace) == 1
    ensures !Handed(w, Flat(o, Starting, t).trace, 1, x)
  {
    t := Tape([true], [], 0);
    var trace := [Connecting, Connected];
    assert Flat(o, Starting, t).trace == trace;
    assert trace[..0] == [];
    StepForward(trace, 0);
    StepForward(trace, 1);
    assert trace[..2] == trace;
    TooEarlyReachesNothing(o, t, w, 1, x);
    SubscribedSessions(o, t, w, 1);
  }
}
