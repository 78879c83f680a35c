/**
 `SubscriptionManager`: a desired set, an active set, and payload batches that move the server from one to the
 other. Hash-set iteration order is unspecified, so every loop over a set picks an arbitrary remaining element.
 */
module SubscriptionManager {
  import opened Bits
  import opened Chunking
  import Parser

  type Token = Parser.Token

  datatype Mode = LTP | QUOTE | FULL

  datatype Payload = Payload(action: string, mode: string, tokens: seq<string>)

  function ModeString(mode: Mode): string {
    match mode
    case LTP => "ltp"
    case QUOTE => "quote"
    case FULL => "full"
  }

  function EffectiveBatch(n: u64): u64 {
    if n == 0 then 100 else n
  }

  function TokenLists(payloads: seq<Payload>): (r: seq<seq<string>>)
    ensures |r| == |payloads| && forall i :: 0 <= i < |r| ==> r[i] == payloads[i].tokens
  {
    seq(|payloads|, i requires 0 <= i < |payloads| => payloads[i].tokens)
  }

  /** The payloads announce exactly the listed tokens, formatted, in order, in full batches of n but the last. */
  ghost predicate Announces(payloads: seq<Payload>, action: string, mode: Mode, fmt: string -> string,
                            listed: seq<Token>, n: nat) {
    && IsChunking(Map(fmt, listed), n, TokenLists(payloads))
    && forall p :: p in payloads ==> p.action == action && p.mode == ModeString(mode)
  }

  class SubscriptionManager {
    var mode: Mode
    var batchSize: u64
    var fmt: string -> string
    var desired: set<Token>
    var active: set<Token>

    ghost predicate Valid()
      reads this
    {
      batchSize != 0 && |desired| < TWO63 && |active| < TWO63
    }

    constructor (mode: Mode, batchSize: u64, fmt: string -> string)
      ensures Valid() && desired == {} && active == {}
      ensures this.mode == mode && this.fmt == fmt && this.batchSize == if batchSize == 0 then 100 else batchSize
    {
      this.mode := mode;
      this.batchSize := EffectiveBatch(batchSize);
      this.fmt := fmt;
      desired, active := {}, {};
    }

    // A manager stays valid as long as its sets stay below 2^63 tokens.

    method Add(token: Token)
      modifies this`desired
      ensures desired == old(desired) + {token}
      ensures old(Valid()) ==> (Valid() <==> token in old(desired) || |old(desired)| + 1 < TWO63)
    {
      desired := desired + {token};
    }

    method AddMany(tokens: seq<Token>)
      modifies this`desired
      ensures desired == old(desired) + SetOf(tokens)
      ensures old(Valid()) ==> (Valid() <==> |old(desired)| + |SetOf(tokens) - old(desired)| < TWO63)
    {
      for i := 0 to |tokens|
        invariant desired == old(desired) + SetOf(tokens[..i])
      {
        assert SetOf(tokens[..i + 1]) == SetOf(tokens[..i]) + {tokens[i]};
        desired := desired + {tokens[i]};
      }
      assert tokens[..|tokens|] == tokens;
    }

    method Remove(token: Token)
      modifies this`desired
      ensures desired == old(desired) - {token}
      ensures old(Valid()) ==> Valid()
    {
      desired := desired - {token};
    }

    method ClearDesired()
      modifies this`desired
      ensures desired == {}
      ensures old(Valid()) ==> Valid()
    {
      desired := {};
    }

    method SetBatchSize(n: u64)
      modifies this`batchSize
      ensures batchSize == if n == 0 then 100 else n
      ensures old(Valid()) ==> Valid()
    {
      batchSize := EffectiveBatch(n);
    }

    method MarkSubscribed(tokens: seq<Token>)
      modifies this`active
      ensures active == old(active) + SetOf(tokens) == Acknowledge(old(active), Subscribed(tokens))
      ensures old(Valid()) ==> (Valid() <==> |old(active)| + |SetOf(tokens) - old(active)| < TWO63)
    {
      for i := 0 to |tokens|
        invariant active == old(active) + SetOf(tokens[..i])
      {
        assert SetOf(tokens[..i + 1]) == SetOf(tokens[..i]) + {tokens[i]};
        active := active + {tokens[i]};
      }
      assert tokens[..|tokens|] == tokens;
    }

    method MarkUnsubscribed(tokens: seq<Token>)
      modifies this`active
      ensures active == old(active) - SetOf(tokens) == Acknowledge(old(active), Unsubscribed(tokens))
      ensures old(Valid()) ==> Valid()
    {
      for i := 0 to |tokens|
        invariant active == old(active) - SetOf(tokens[..i])
      {
        assert SetOf(tokens[..i + 1]) == SetOf(tokens[..i]) + {tokens[i]};
        active := active - {tokens[i]};
      }
      assert tokens[..|tokens|] == tokens;
    }

    /** Subscribe payloads for every token that is desired but not active. */
    method BuildSubscribeBatches() returns (out: seq<Payload>, ghost listed: seq<Token>)
      requires Valid()
      ensures Lists(listed, desired - active)
      ensures Announces(out, "subscribe", mode, fmt, listed, batchSize)
      ensures
        forall p :: p in out ==> p.mode == if mode == LTP then "ltp" else if mode == QUOTE then "quote" else "full"
    {
      var need := Difference(desired, active);
      ListLength(need, desired - active, desired);
      out := Payloads(need, "subscribe");
      listed := need;
    }

    /** Unsubscribe payloads for every token that is active but not desired. */
    method BuildUnsubscribeBatches() returns (out: seq<Payload>, ghost listed: seq<Token>)
      requires Valid()
      ensures Lists(listed, active - desired)
      ensures Announces(out, "unsubscribe", mode, fmt, listed, batchSize)
      ensures
        forall p :: p in out ==> p.mode == if mode == LTP then "ltp" else if mode == QUOTE then "quote" else "full"
    {
      var need := Difference(active, desired);
      ListLength(need, active - desired, active);
      out := Payloads(need, "unsubscribe");
      listed := need;
    }

    method Payloads(need: seq<Token>, action: string) returns (out: seq<Payload>)
      requires Valid() && |need| < TWO63
      ensures Announces(out, action, mode, fmt, need, batchSize)
    {
      var batches, _ := MakeChunks(need, EffectiveBatch(batchSize));
      out := [];
      for i := 0 to |batches|
        invariant |out| == i
        invariant forall k :: 0 <= k < i ==> out[k] == Payload(action, ModeString(mode), Map(fmt, batches[k]))
      {
        out := out + [Payload(action, ModeString(mode), Map(fmt, batches[i]))];
      }
      FormattedChunks(need, batchSize, batches, fmt);
      assert TokenLists(out) == MapAll(fmt, batches);
    }
  }

  /** The elements of a that are not in b, in whatever order the set is iterated. */
  method Difference(a: set<Token>, b: set<Token>) returns (res: seq<Token>)
    ensures Lists(res, a - b)
  {
    var rest := a;
    res := [];
    while rest != {}
      invariant rest <= a && Lists(res, a - rest - b)
      decreases |rest|
    {
      var t :| t in rest;
      rest := rest - {t};
      ghost var listed := a - (rest + {t}) - b;
      if t !in b {
        ListsExtend(res, listed, t);
        res := res + [t];
        assert a - rest - b == listed + {t};
      } else {
        assert a - rest - b == listed;
      }
    }
  }

  lemma FormattedChunks(items: seq<Token>, n: nat, batches: seq<seq<Token>>, fmt: string -> string)
    requires IsChunking(items, n, batches)
    ensures IsChunking(Map(fmt, items), n, MapAll(fmt, batches))
  {
    FlattenMap(fmt, batches);
  }

  lemma {:induction false} ListLength<T>(s: seq<T>, x: set<T>, bound: set<T>)
    requires Lists(s, x) && x <= bound
    ensures |s| == |x| <= |bound|
  {
    if s == [] {
      assert x == {};
    } else {
      var n := |s| - 1;
      assert SetOf(s) == SetOf(s[..n]) + {s[n]};
      assert s[n] !in s[..n];
      ListLength(s[..n], x - {s[n]}, bound - {s[n]});
    }
  }

  // ----- reconciliation -----

  /** The server's acknowledgement of some tokens, in any order and possibly with repetitions. */
  datatype Ack = Subscribed(tokens: seq<Token>) | Unsubscribed(tokens: seq<Token>)

  function Acknowledge(active: set<Token>, ack: Ack): set<Token> {
    match ack
    case Subscribed(tokens) => active + SetOf(tokens)
    case Unsubscribed(tokens) => active - SetOf(tokens)
  }

  function AcknowledgeAll(active: set<Token>, acks: seq<Ack>): set<Token> {
    if acks == [] then active
    else Acknowledge(AcknowledgeAll(active, acks[..|acks| - 1]), acks[|acks| - 1])
  }

  /** How many tokens are still to be subscribed or unsubscribed. */
  ghost function Distance(desired: set<Token>, active: set<Token>): nat {
    |desired - active| + |active - desired|
  }

  /** The tokens an acknowledgement settles, and those it unsettles. */
  function Settled(desired: set<Token>, active: set<Token>, ack: Ack): set<Token> {
    match ack
    case Subscribed(tokens) => SetOf(tokens) * (desired - active)
    case Unsubscribed(tokens) => SetOf(tokens) * (active - desired)
  }

  function Unsettled(desired: set<Token>, active: set<Token>, ack: Ack): set<Token> {
    match ack
    case Subscribed(tokens) => SetOf(tokens) - desired - active
    case Unsubscribed(tokens) => SetOf(tokens) * desired * active
  }

  /** An acknowledgement lowers the distance by the distinct pending tokens it names, and by nothing else. */
  lemma AckProgress(desired: set<Token>, active: set<Token>, ack: Ack)
    ensures
      Distance(desired, Acknowledge(active, ack))
      == Distance(desired, active) - |Settled(desired, active, ack)| + |Unsettled(desired, active, ack)|
  {
    var active' := Acknowledge(active, ack);
    var s, u := Settled(desired, active, ack), Unsettled(desired, active, ack);
    match ack {
      case Subscribed(tokens) =>
        assert desired - active' == (desired - active) - s && s <= desired - active;
        assert active' - desired == (active - desired) + u && u !! active - desired;
      case Unsubscribed(tokens) =>
        assert active' - desired == (active - desired) - s && s <= active - desired;
        assert desired - active' == (desired - active) + u && u !! desired - active;
    }
  }

  /** Nothing is left to send exactly when the two sets agree. */
  lemma SettledIffEqual(desired: set<Token>, active: set<Token>, subs: seq<Token>, unsubs: seq<Token>)
    requires Lists(subs, desired - active) && Lists(unsubs, active - desired)
    ensures Distance(desired, active) == |subs| + |unsubs|
    ensures subs == [] && unsubs == [] <==> active == desired
    ensures SetOf(subs) !! SetOf(unsubs)
  {
    ListLength(subs, desired - active, desired - active);
    ListLength(unsubs, active - desired, active - desired);
    if subs == [] && unsubs == [] {
      assert desired - active == {} && active - desired == {};
      assert forall t :: t in desired ==> t in active;
    }
  }

  ghost function SubscribedTokens(acks: seq<Ack>): set<Token> {
    set i, t | 0 <= i < |acks| && acks[i].Subscribed? && t in acks[i].tokens :: t
  }

  ghost function UnsubscribedTokens(acks: seq<Ack>): set<Token> {
    set i, t | 0 <= i < |acks| && acks[i].Unsubscribed? && t in acks[i].tokens :: t
  }

  /**
   Acknowledgements that name only tokens pending in one snapshot act independently: in any order, however they
   are split or repeated, they leave the distance less the distinct tokens acknowledged; once all pending tokens
   have been acknowledged, the active set is the desired set.
   */
  lemma SnapshotAcksConverge(desired: set<Token>, active: set<Token>, acks: seq<Ack>)
    requires SubscribedTokens(acks) <= desired - active && UnsubscribedTokens(acks) <= active - desired
    ensures AcknowledgeAll(active, acks) == active + SubscribedTokens(acks) - UnsubscribedTokens(acks)
    ensures
      Distance(desired, AcknowledgeAll(active, acks))
      == Distance(desired, active) - |SubscribedTokens(acks)| - |UnsubscribedTokens(acks)|
    ensures
      SubscribedTokens(acks) == desired - active && UnsubscribedTokens(acks) == active - desired
      <==> AcknowledgeAll(active, acks) == desired
  {
    AcksAccumulate(desired, active, acks);
    PendingSplit(desired, active, SubscribedTokens(acks), UnsubscribedTokens(acks));
  }

  lemma PendingSplit(desired: set<Token>, active: set<Token>, s: set<Token>, u: set<Token>)
    requires s <= desired - active && u <= active - desired
    ensures Distance(desired, active + s - u) == Distance(desired, active) - |s| - |u|
    ensures s == desired - active && u == active - desired <==> active + s - u == desired
  {
    var active' := active + s - u;
    assert desired - active' == (desired - active) - s;
    assert active' - desired == (active - desired) - u;
    if active' == desired {
      assert desired - active <= s && active - desired <= u;
    }
  }

  lemma {:induction false} AcksAccumulate(desired: set<Token>, active: set<Token>, acks: seq<Ack>)
    requires SubscribedTokens(acks) <= desired - active && UnsubscribedTokens(acks) <= active - desired
    ensures AcknowledgeAll(active, acks) == active + SubscribedTokens(acks) - UnsubscribedTokens(acks)
  {
    if acks != [] {
      var front, last := acks[..|acks| - 1], acks[|acks| - 1];
      LastAck(acks);
      AcksAccumulate(desired, active, front);
    }
  }

  lemma LastAck(acks: seq<Ack>)
    requires acks != []
    ensures
      var front, last := acks[..|acks| - 1], acks[|acks| - 1];
      && SubscribedTokens(acks) == SubscribedTokens(front) + (if last.Subscribed? then SetOf(last.tokens) else {})
      && UnsubscribedTokens(acks) == UnsubscribedTokens(front) + (if last.Unsubscribed? then SetOf(last.tokens) else {})
  {
    var n := |acks| - 1;
    var front, last := acks[..n], acks[n];
    forall t
      ensures t in SubscribedTokens(acks) <==> t in SubscribedTokens(front) || (last.Subscribed? && t in last.tokens)
      ensures t in UnsubscribedTokens(acks) <==> t in UnsubscribedTokens(front) || (last.Unsubscribed? && t in last.tokens)
    {
      if t in SubscribedTokens(front) {
        var i :| 0 <= i < |front| && front[i].Subscribed? && t in front[i].tokens;
        assert acks[i] == front[i];
      }
      if t in UnsubscribedTokens(front) {
        var i :| 0 <= i < |front| && front[i].Unsubscribed? && t in front[i].tokens;
        assert acks[i] == front[i];
      }
      if t in SubscribedTokens(acks) {
        var i :| 0 <= i < |acks| && acks[i].Subscribed? && t in acks[i].tokens;
        assert i < n ==> front[i] == acks[i];
      }
      if t in UnsubscribedTokens(acks) {
        var i :| 0 <= i < |acks| && acks[i].Unsubscribed? && t in acks[i].tokens;
        assert i < n ==> front[i] == acks[i];
      }
    }
  }
}
