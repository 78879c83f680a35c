/** `Consumer`: the drain loop between one ring and the store. */
module Consumer {
  import opened Bits
  import opened Wrappers
  import opened Parser
  import opened LtpStore
  import opened IngestQueue

  type Parse = Frame -> Option<Ltp>

  /** The frames the parser accepts, parsed, in order. */
  function Accepted(parse: Parse, frames: seq<Frame>): seq<Ltp> {
    if frames == [] then []
    else
      var n := |frames| - 1;
      Accepted(parse, frames[..n]) + if parse(frames[n]).Some? then [parse(frames[n]).value] else []
  }

  lemma AcceptedAppend(parse: Parse, frames: seq<Frame>, f: Frame)
    ensures
      Accepted(parse, frames + [f])
      == Accepted(parse, frames) + if parse(f).Some? then [parse(f).value] else []
  {
    assert (frames + [f])[..|frames|] == frames;
  }

  lemma AcceptedOne(parse: Parse, f: Frame)
    ensures Accepted(parse, [f]) == if parse(f).Some? then [parse(f).value] else []
  {
    AcceptedAppend(parse, [], f);
    assert [] + [f] == [f];
  }

  lemma {:induction false} AcceptedConcat(parse: Parse, a: seq<Frame>, b: seq<Frame>)
    ensures Accepted(parse, a + b) == Accepted(parse, a) + Accepted(parse, b)
  {
    if b == [] {
      assert a + b == a;
    } else {
      var n := |b| - 1;
      AcceptedConcat(parse, a, b[..n]);
      AcceptedAppend(parse, a + b[..n], b[n]);
      assert a + b == a + b[..n] + [b[n]];
    }
  }

  lemma {:induction false} AcceptedTokens(parse: Parse, frames: seq<Frame>, v: Ltp)
    ensures v in Accepted(parse, frames) <==> exists i :: 0 <= i < |frames| && parse(frames[i]) == Some(v)
  {
    if frames != [] {
      var n := |frames| - 1;
      AcceptedTokens(parse, frames[..n], v);
      if v in Accepted(parse, frames[..n]) {
        var i :| 0 <= i < n && parse(frames[..n][i]) == Some(v);
        assert parse(frames[i]) == Some(v);
      }
      if i :| 0 <= i < |frames| && parse(frames[i]) == Some(v) {
        assert i < n ==> parse(frames[..n][i]) == Some(v);
        assert i == n ==> v in [parse(frames[n]).value];
      }
    }
  }

  /** The number of passes: the position of the first flag read that returns false. */
  function Iterations(loads: seq<bool>): (n: nat)
    ensures n <= |loads| && (n < |loads| ==> !loads[n])
    ensures forall i :: 0 <= i < n ==> loads[i]
  {
    if loads == [] || !loads[0] then 0 else 1 + Iterations(loads[1..])
  }

  class Consumer {
    const q: IngestQueue
    const store: LtpStore
    const parse: Parse
    const hasSink: bool
    var sunk: seq<Ltp>

    constructor (q: IngestQueue, store: LtpStore, parse: Parse, hasSink: bool)
      ensures this.q == q && this.store == store && this.parse == parse && this.hasSink == hasSink && sunk == []
    {
      this.q, this.store, this.parse, this.hasSink := q, store, parse, hasSink;
      sunk := [];
    }

    /** One pass through the loop body: the oldest frame, if any, is rejected, or stored and handed to the sink. */
    method Iterate() returns (ghost taken: seq<Frame>)
      requires q.Valid()
      modifies this`sunk, store, q`tail, q.buf
      ensures q.Valid() && Front(old(q.Contents()), taken, q.Contents())
      ensures |taken| == if |old(q.Contents())| == 0 then 0 else 1
      ensures Drained(parse, taken, hasSink, old(store.entries), store.entries, old(sunk), sunk)
    {
      var msg := q.TryPop();
      if msg.None? {
        taken := [];
        return;
      }
      taken := [msg.value];
      AcceptedOne(parse, msg.value);
      var ltp := parse(msg.value);
      if ltp.None? {
        return;
      }
      StoredAppend(store.entries, [], ltp.value);
      assert [] + [ltp.value] == [ltp.value];
      store.Upsert(ltp.value);
      if hasSink {
        sunk := sunk + [ltp.value];
      }
    }

    /**
     `run` while no other thread acts: `loads` is what the successive reads of `running_` return. The frames taken
     are the oldest, one per iteration while there are any, and the store is their fold.
     */
    method Run(loads: seq<bool>) returns (ghost taken: seq<Frame>)
      requires q.Valid()
      modifies this`sunk, store, q`tail, q.buf
      ensures q.Valid() && Front(old(q.Contents()), taken, q.Contents())
      ensures |taken| == Min(Iterations(loads), |old(q.Contents())|)
      ensures Drained(parse, taken, hasSink, old(store.entries), store.entries, old(sunk), sunk)
    {
      ghost var all, initial, before := q.Contents(), store.entries, sunk;
      taken := [];
      var i := 0;
      while i < |loads| && loads[i]
        invariant q.Valid() && LoopState(loads, i, all, q.Contents(), taken)
        invariant Drained(parse, taken, hasSink, initial, store.entries, before, sunk)
      {
        ghost var rest, entries, out := q.Contents(), store.entries, sunk;
        ghost var more := Iterate();
        LoopStep(loads, i, all, rest, q.Contents(), taken, more);
        DrainedConcat(parse, taken, more, hasSink, initial, entries, store.entries, before, out, sunk);
        taken := taken + more;
        i := i + 1;
      }
    }
  }

  /** After i iterations: what is left of the schedule, and the frames taken out of `all` so far. */
  ghost predicate LoopState(loads: seq<bool>, i: int, all: seq<Frame>, rest: seq<Frame>, taken: seq<Frame>) {
    && 0 <= i <= |loads|
    && Iterations(loads) == i + Iterations(loads[i..])
    && Front(all, taken, rest)
    && |taken| == Min(i, |all|)
  }

  lemma LoopStep(loads: seq<bool>, i: int, all: seq<Frame>, rest: seq<Frame>, rest': seq<Frame>, taken: seq<Frame>,
                 more: seq<Frame>)
    requires LoopState(loads, i, all, rest, taken) && i < |loads| && loads[i]
    requires Front(rest, more, rest') && |more| == if |rest| == 0 then 0 else 1
    ensures LoopState(loads, i + 1, all, rest', taken + more)
  {
    assert loads[i..][1..] == loads[i + 1..];
    Associative(taken, more, rest');
  }

  /** `taken` are the oldest frames of `all` and `rest` the others. */
  ghost predicate Front(all: seq<Frame>, taken: seq<Frame>, rest: seq<Frame>) {
    all == taken + rest
  }

  /** Taking these frames took the store from `initial` to `entries` and the sink from `before` to `sunk`. */
  ghost predicate Drained(parse: Parse, taken: seq<Frame>, hasSink: bool, initial: map<Token, Ltp>,
                          entries: map<Token, Ltp>, before: seq<Ltp>, sunk: seq<Ltp>) {
    && entries == Stored(initial, Accepted(parse, taken))
    && sunk == before + if hasSink then Accepted(parse, taken) else []
  }

  lemma DrainedConcat(parse: Parse, a: seq<Frame>, b: seq<Frame>, hasSink: bool, m0: map<Token, Ltp>, m1: map<Token, Ltp>,
                      m2: map<Token, Ltp>, s0: seq<Ltp>, s1: seq<Ltp>, s2: seq<Ltp>)
    requires Drained(parse, a, hasSink, m0, m1, s0, s1) && Drained(parse, b, hasSink, m1, m2, s1, s2)
    ensures Drained(parse, a + b, hasSink, m0, m2, s0, s2)
  {
    AcceptedConcat(parse, a, b);
    StoredConcat(m0, Accepted(parse, a), Accepted(parse, b));
  }
}
