/**
 The connection loop of `WebSocketClient`: `run`, `connect_once` and the mutually recursive `read_loop` and
 `reconnect_loop`. The network and the stopping thread are a tape: the outcomes of the successive connects and
 reads, and how many reads of `running` come before `stop` clears it. Every tape gives a run that ends, and every
 finite prefix of an unending run is the run of a tape that stops there.
 */
module WebSocketClient {
  import opened Bits
  import opened Wrappers

  datatype ReadOutcome = Message(body: string) | ClosedByPeer | Aborted | OtherError

  datatype Tape = Tape(connects: seq<bool>, incoming: seq<ReadOutcome>, loads: nat)

  datatype Options = Options(backoffInitial: int, backoffMax: int)

  /** State notifications, the points where the message and resubscribe hooks are called, and backoff sleeps. */
  datatype Event =
    | Connecting
    | Connected
    | Closed
    | Reconnecting
    | Deliver(body: string)
    | Resubscribe
    | Sleep(ms: int)

  function ConnectOutcome(t: Tape): bool {
    t.connects != [] && t.connects[0]
  }

  function AfterConnect(t: Tape): Tape {
    if t.connects == [] then t else t.(connects := t.connects[1..])
  }

  function NextRead(t: Tape): ReadOutcome {
    if t.incoming == [] then ClosedByPeer else t.incoming[0]
  }

  function AfterRead(t: Tape): Tape {
    if t.incoming == [] then t else t.(incoming := t.incoming[1..])
  }

  // ----- the flat automaton -----

  datatype Mode = Starting | Reading | Retrying(backoff: int)

  /** What a run has done when it is over. */
  datatype Outcome = Outcome(trace: seq<Event>, connected: bool)

  function After(events: seq<Event>, rest: Outcome): Outcome {
    rest.(trace := events + rest.trace)
  }

  function Flat(o: Options, m: Mode, t: Tape): Outcome
    decreases t.loads, if m.Starting? then 1 else 0
  {
    match m
    case Starting =>
      if ConnectOutcome(t) then After([Connecting, Connected], Flat(o, Reading, AfterConnect(t)))
      else After([Connecting, Reconnecting], Flat(o, Retrying(o.backoffInitial), AfterConnect(t)))
    case Reading =>
      if t.loads == 0 then Outcome([], true)
      else
        var t1 := AfterRead(t.(loads := t.loads - 1));
        var r := NextRead(t);
        if r.Message? then After([Deliver(r.body)], Flat(o, Reading, t1))
        else if t1.loads == 0 then Outcome([], true)
        else if r.OtherError? then
          After([Reconnecting], Flat(o, Retrying(o.backoffInitial), t1.(loads := t1.loads - 1)))
        else Outcome([Closed], false)
    case Retrying(backoff) =>
      if t.loads == 0 then Outcome([], false)
      else
        var t1 := AfterConnect(t.(loads := t.loads - 1));
        if ConnectOutcome(t) then After([Connecting, Connected, Resubscribe], Flat(o, Reading, t1))
        else After([Connecting, Sleep(backoff)], Flat(o, Retrying(Min(backoff * 2, o.backoffMax)), t1))
  }

  /** A run that has emitted `before` and stands in mode m will end as `whole`. */
  ghost predicate Leads(o: Options, m: Mode, t: Tape, before: seq<Event>, whole: Outcome) {
    whole == After(before, Flat(o, m, t))
  }

  lemma AfterJoin(a: seq<Event>, b: seq<Event>, rest: Outcome)
    ensures After(a, After(b, rest)) == After(a + b, rest)
  {
    assert a + (b + rest.trace) == a + b + rest.trace;
  }

  lemma ReadMessage(o: Options, t: Tape, before: seq<Event>, whole: Outcome)
    requires t.loads > 0 && NextRead(t).Message? && Leads(o, Reading, t, before, whole)
    ensures Leads(o, Reading, AfterRead(t.(loads := t.loads - 1)), before + [Deliver(NextRead(t).body)], whole)
  {
    AfterJoin(before, [Deliver(NextRead(t).body)], Flat(o, Reading, AfterRead(t.(loads := t.loads - 1))));
  }

  lemma ReadError(o: Options, t: Tape, before: seq<Event>, whole: Outcome)
    requires t.loads > 1 && NextRead(t).OtherError? && Leads(o, Reading, t, before, whole)
    ensures Leads(o, Retrying(o.backoffInitial), AfterRead(t).(loads := t.loads - 2), before + [Reconnecting], whole)
  {
    AfterJoin(before, [Reconnecting], Flat(o, Retrying(o.backoffInitial), AfterRead(t).(loads := t.loads - 2)));
  }

  lemma ReadEnds(o: Options, t: Tape, before: seq<Event>, whole: Outcome)
    requires Leads(o, Reading, t, before, whole)
    ensures t.loads == 0 || (t.loads == 1 && !NextRead(t).Message?) ==> whole == Outcome(before, true)
    ensures t.loads > 1 && (NextRead(t).ClosedByPeer? || NextRead(t).Aborted?) ==> whole == Outcome(before + [Closed], false)
  {
    assert before + [] == before;
  }

  lemma RetryStep(o: Options, backoff: int, t: Tape, before: seq<Event>, whole: Outcome)
    requires t.loads > 0 && Leads(o, Retrying(backoff), t, before, whole)
    ensures
      var t1 := AfterConnect(t.(loads := t.loads - 1));
      if ConnectOutcome(t) then Leads(o, Reading, t1, before + [Connecting, Connected] + [Resubscribe], whole)
      else Leads(o, Retrying(Min(backoff * 2, o.backoffMax)), t1, before + [Connecting] + [Sleep(backoff)], whole)
  {
    var t1 := AfterConnect(t.(loads := t.loads - 1));
    if ConnectOutcome(t) {
      AfterJoin(before, [Connecting, Connected, Resubscribe], Flat(o, Reading, t1));
      assert before + [Connecting, Connected, Resubscribe] == before + [Connecting, Connected] + [Resubscribe];
    } else {
      AfterJoin(before, [Connecting, Sleep(backoff)], Flat(o, Retrying(Min(backoff * 2, o.backoffMax)), t1));
      assert before + [Connecting, Sleep(backoff)] == before + [Connecting] + [Sleep(backoff)];
    }
  }

  lemma StartStep(o: Options, t: Tape, before: seq<Event>, whole: Outcome)
    requires Leads(o, Starting, t, before, whole)
    ensures
      var t1 := AfterConnect(t);
      if ConnectOutcome(t) then Leads(o, Reading, t1, before + [Connecting, Connected], whole)
      else Leads(o, Retrying(o.backoffInitial), t1, before + [Connecting] + [Reconnecting], whole)
  {
    var t1 := AfterConnect(t);
    if ConnectOutcome(t) {
      AfterJoin(before, [Connecting, Connected], Flat(o, Reading, t1));
    } else {
      AfterJoin(before, [Connecting, Reconnecting], Flat(o, Retrying(o.backoffInitial), t1));
      assert before + [Connecting, Reconnecting] == before + [Connecting] + [Reconnecting];
    }
  }

  lemma RetryEnds(o: Options, backoff: int, t: Tape, before: seq<Event>, whole: Outcome)
    requires Leads(o, Retrying(backoff), t, before, whole) && t.loads == 0
    ensures whole == Outcome(before, false)
  {
    assert before + [] == before;
  }

  // ----- the recursive code -----

  /** The latest of the notifications that change what the peer is told about the connection. */
  function LastNotice(trace: seq<Event>): Option<Event> {
    if trace == [] then None
    else
      NoticeWith(LastNotice(trace[..|trace| - 1]), trace[|trace| - 1])
  }

  function NoticeWith(before: Option<Event>, e: Event): Option<Event> {
    if e.Connected? || e.Closed? || e.Reconnecting? then Some(e) else before
  }

  class WebSocketClient {
    const opts: Options
    var tape: Tape
    var connected: bool
    var trace: seq<Event>

    constructor (opts: Options, tape: Tape)
      ensures this.opts == opts && this.tape == tape && !connected && trace == []
    {
      this.opts, this.tape, connected, trace := opts, tape, false, [];
    }

    /** `connected` is set exactly when the latest notice is "connected". */
    predicate Coherent()
      reads this
    {
      connected <==> LastNotice(trace) == Some(Connected)
    }

    /**
     A callback runs here. Whichever it is, it finds the flag set exactly when the latest notice, its own included, is
     "connected"; "connecting" alone is announced with flag and notice as they are.
     */
    method Emit(e: Event)
      requires e.Connecting? || (connected <==> NoticeWith(LastNotice(trace), e) == Some(Connected))
      modifies this`trace
      ensures trace == old(trace) + [e]
      ensures LastNotice(trace) == NoticeWith(LastNotice(old(trace)), e)
    {
      assert (trace + [e])[..|trace|] == trace;
      trace := trace + [e];
    }

    method LoadRunning() returns (b: bool)
      modifies this`tape
      ensures b == (old(tape).loads > 0)
      ensures tape == if b then old(tape).(loads := old(tape).loads - 1) else old(tape)
    {
      b := tape.loads > 0;
      if b {
        tape := tape.(loads := tape.loads - 1);
      }
    }

    /**
     One attempt, entered with the flag as it is: `dialling` is the flag while "connecting" is announced. A failed
     attempt clears the flag without a notice, so it leaves flag and notices at odds exactly when the latest notice
     was "connected".
     */
    method ConnectOnce() returns (ok: bool, ghost dialling: bool)
      modifies this
      ensures ok == ConnectOutcome(old(tape)) && tape == AfterConnect(old(tape))
      ensures trace == old(trace) + if ok then [Connecting, Connected] else [Connecting]
      ensures dialling == old(connected) && connected == ok
      ensures Coherent() <==> ok || LastNotice(old(trace)) != Some(Connected)
    {
      Emit(Connecting);
      dialling := connected;
      ok := ConnectOutcome(tape);
      tape := AfterConnect(tape);
      if ok {
        connected := true;
        Emit(Connected);
      } else {
        connected := false;
      }
    }

    method ReadLoop()
      requires connected && Coherent()
      modifies this
      ensures Leads(opts, Reading, old(tape), old(trace), Outcome(trace, connected)) && Coherent()
      decreases tape.loads
    {
      ghost var whole := After(trace, Flat(opts, Reading, tape));
      while true
        invariant tape.loads <= old(tape).loads
        invariant connected && Coherent()
        invariant Leads(opts, Reading, tape, trace, whole)
        decreases tape.loads
      {
        ghost var t, before := tape, trace;
        ReadEnds(opts, t, before, whole);
        var go := LoadRunning();
        if !go {
          break;
        }
        var r := NextRead(tape);
        tape := AfterRead(tape);
        if !r.Message? {
          var still := LoadRunning();
          if !still {
            break;
          }
          if r.ClosedByPeer? || r.Aborted? {
            connected := false;
            Emit(Closed);
            break;
          }
          connected := false;
          Emit(Reconnecting);
          ReadError(opts, t, before, whole);
          ReconnectLoop();
          break;
        }
        ReadMessage(opts, t, before, whole);
        Emit(Deliver(r.body));
      }
    }

    method ReconnectLoop()
      requires !connected && Coherent()
      modifies this
      ensures Leads(opts, Retrying(opts.backoffInitial), old(tape), old(trace), Outcome(trace, connected)) && Coherent()
      decreases tape.loads
    {
      var backoff := opts.backoffInitial;
      ghost var whole := After(trace, Flat(opts, Retrying(backoff), tape));
      while true
        invariant tape.loads <= old(tape).loads
        invariant !connected && Coherent()
        invariant Leads(opts, Retrying(backoff), tape, trace, whole)
        decreases tape.loads
      {
        ghost var t, before := tape, trace;
        var go := LoadRunning();
        if !go || connected {
          RetryEnds(opts, backoff, t, before, whole);
          break;
        }
        RetryStep(opts, backoff, t, before, whole);
        var ok, _ := ConnectOnce();
        if ok {
          Emit(Resubscribe);
          ReadLoop();
          return;
        }
        Emit(Sleep(backoff));
        backoff := Min(backoff * 2, opts.backoffMax);
      }
    }

    /**
     The recursive code does exactly what the flat automaton does, on every tape and whatever an earlier run left
     behind; `dialling` is the flag during the first attempt.
     */
    method Run() returns (ghost dialling: bool)
      modifies this
      ensures dialling == old(connected)
      ensures trace == old(trace) + Flat(opts, Starting, old(tape)).trace
      ensures connected == Flat(opts, Starting, old(tape)).connected
      ensures Coherent()
    {
      ghost var whole := After(trace, Flat(opts, Starting, tape));
      StartStep(opts, tape, trace, whole);
      var ok, flag := ConnectOnce();
      dialling := flag;
      if !ok {
        Emit(Reconnecting);
        ReconnectLoop();
        return;
      }
      ReadLoop();
    }

    /** The guard of `send_text`: a payload is handed to the socket exactly while the flag is set. */
    method SendText(written: bool) returns (ok: bool)
      ensures ok <==> connected && written
    {
      if !connected {
        return false;
      }
      return written;
    }

    /**
     A new run after a stop, on what the network does next. Its first attempt is made with `connected` still set
     exactly when the latest notice of the runs before it is "connected", that is after a stop inside a session.
     */
    method Restart(next: Tape) returns (ghost dialling: bool)
      requires Coherent()
      modifies this
      ensures dialling <==> LastNotice(old(trace)) == Some(Connected)
      ensures trace == old(trace) + Flat(opts, Starting, next).trace
      ensures connected == Flat(opts, Starting, next).connected
      ensures Coherent()
    {
      tape := next;
      dialling := Run();
    }
  }

  // ----- the language of traces -----

  datatype State = Fresh | FirstDial | Session | Outage(backoff: int) | Dial(backoff: int) | Hooked | Over

  function Delta(o: Options, q: State, e: Event): Option<State> {
    match q
    case Fresh => if e.Connecting? then Some(FirstDial) else None
    case FirstDial =>
      if e.Connected? then Some(Session) else if e.Reconnecting? then Some(Outage(o.backoffInitial)) else None
    case Session =>
      if e.Deliver? then Some(Session) else if e.Closed? then Some(Over)
      else if e.Reconnecting? then Some(Outage(o.backoffInitial)) else None
    case Outage(b) => if e.Connecting? then Some(Dial(b)) else None
    case Dial(b) =>
      if e.Connected? then Some(Hooked) else if e == Sleep(b) then Some(Outage(Min(b * 2, o.backoffMax))) else None
    case Hooked => if e.Resubscribe? then Some(Session) else None
    case Over => None
  }

  /** The state after a trace; None when the trace is not in the language. */
  function StateAfter(o: Options, trace: seq<Event>): Option<State> {
    if trace == [] then Some(Fresh)
    else
      match StateAfter(o, trace[..|trace| - 1])
      case None => None
      case Some(q) => Delta(o, q, trace[|trace| - 1])
  }

  /** A run may end inside a session, inside an outage, or after a graceful close. */
  predicate InLanguage(o: Options, trace: seq<Event>) {
    var q := StateAfter(o, trace);
    q.Some? && (q.value.Session? || q.value.Outage? || q.value.Over?)
  }

  function StateOf(m: Mode): State {
    match m
    case Starting => Fresh
    case Reading => Session
    case Retrying(b) => Outage(b)
  }

  lemma StepTo(o: Options, trace: seq<Event>, e: Event)
    ensures
      StateAfter(o, trace + [e])
      == (match StateAfter(o, trace) case None => None case Some(q) => Delta(o, q, e))
  {
    assert (trace + [e])[..|trace|] == trace;
  }

  lemma StepTwice(o: Options, trace: seq<Event>, e: Event, f: Event)
    requires StateAfter(o, trace).Some? && Delta(o, StateAfter(o, trace).value, e).Some?
    ensures StateAfter(o, trace + [e, f]) == Delta(o, Delta(o, StateAfter(o, trace).value, e).value, f)
  {
    StepTo(o, trace, e);
    StepTo(o, trace + [e], f);
    assert trace + [e] + [f] == trace + [e, f];
  }

  /** Soundness: whatever the tape, the trace stays in the language from the state of the mode it starts in. */
  lemma {:induction false} FlatStaysInLanguage(o: Options, m: Mode, t: Tape, before: seq<Event>)
    requires StateAfter(o, before) == Some(StateOf(m))
    ensures InLanguage(o, before + Flat(o, m, t).trace)
    decreases t.loads, if m.Starting? then 3 else 1
  {
    match m
    case Starting =>
      var ok := ConnectOutcome(t);
      var second := if ok then Connected else Reconnecting;
      StepTwice(o, before, Connecting, second);
      FlatContinues(o, before, [Connecting, second], if ok then Reading else Retrying(o.backoffInitial), AfterConnect(t));
    case Reading => ReadingStaysInLanguage(o, t, before);
    case Retrying(b) => RetryingStaysInLanguage(o, b, t, before);
  }

  lemma {:induction false} ReadingStaysInLanguage(o: Options, t: Tape, before: seq<Event>)
    requires StateAfter(o, before) == Some(Session)
    ensures InLanguage(o, before + Flat(o, Reading, t).trace)
    decreases t.loads, 0
  {
    assert before + [] == before;
    if t.loads > 0 {
      var t1 := AfterRead(t.(loads := t.loads - 1));
      var r := NextRead(t);
      if r.Message? {
        StepTo(o, before, Deliver(r.body));
        FlatContinues(o, before, [Deliver(r.body)], Reading, t1);
      } else if t1.loads > 0 {
        StepTo(o, before, if r.OtherError? then Reconnecting else Closed);
        if r.OtherError? {
          FlatContinues(o, before, [Reconnecting], Retrying(o.backoffInitial), t1.(loads := t1.loads - 1));
        }
      }
    }
  }

  lemma {:induction false} RetryingStaysInLanguage(o: Options, b: int, t: Tape, before: seq<Event>)
    requires StateAfter(o, before) == Some(Outage(b))
    ensures InLanguage(o, before + Flat(o, Retrying(b), t).trace)
    decreases t.loads, 0
  {
    assert before + [] == before;
    if t.loads > 0 {
      var t1 := AfterConnect(t.(loads := t.loads - 1));
      if ConnectOutcome(t) {
        StepTwice(o, before, Connecting, Connected);
        StepTo(o, before + [Connecting, Connected], Resubscribe);
        assert before + [Connecting, Connected] + [Resubscribe] == before + [Connecting, Connected, Resubscribe];
        FlatContinues(o, before, [Connecting, Connected, Resubscribe], Reading, t1);
      } else {
        StepTwice(o, before, Connecting, Sleep(b));
        FlatContinues(o, before, [Connecting, Sleep(b)], Retrying(Min(b * 2, o.backoffMax)), t1);
      }
    }
  }

  lemma {:induction false} FlatContinues(o: Options, before: seq<Event>, events: seq<Event>, m: Mode, t: Tape)
    requires StateAfter(o, before + events) == Some(StateOf(m)) && !m.Starting?
    ensures InLanguage(o, before + (events + Flat(o, m, t).trace))
    decreases t.loads, 2
  {
    FlatStaysInLanguage(o, m, t, before + events);
    assert before + (events + Flat(o, m, t).trace) == before + events + Flat(o, m, t).trace;
  }

  lemma {:induction false} PrefixesHaveStates(o: Options, trace: seq<Event>, k: nat)
    requires StateAfter(o, trace).Some? && k <= |trace|
    ensures StateAfter(o, trace[..k]).Some?
    ensures k < |trace| ==> StateAfter(o, trace[..k + 1]) == Delta(o, StateAfter(o, trace[..k]).value, trace[k])
    decreases |trace| - k
  {
    if k == |trace| {
      assert trace[..k] == trace;
    } else {
      PrefixesHaveStates(o, trace, k + 1);
      assert trace[..k + 1][..k] == trace[..k];
    }
  }

  // Each lemma below prepends to a tape what makes the automaton emit one more group of events first.

  lemma PrependMessage(o: Options, t: Tape, body: string)
    ensures
      Flat(o, Reading, Tape(t.connects, [Message(body)] + t.incoming, t.loads + 1)).trace
      == [Deliver(body)] + Flat(o, Reading, t).trace
  {
    assert ([Message(body)] + t.incoming)[1..] == t.incoming;
  }

  lemma PrependError(o: Options, t: Tape)
    ensures
      Flat(o, Reading, Tape(t.connects, [OtherError] + t.incoming, t.loads + 2)).trace
      == [Reconnecting] + Flat(o, Retrying(o.backoffInitial), t).trace
  {
    var t' := Tape(t.connects, [OtherError] + t.incoming, t.loads + 2);
    assert t'.incoming[1..] == t.incoming;
    var t1 := AfterRead(t'.(loads := t'.loads - 1));
    assert t1.(loads := t1.loads - 1) == t;
    assert Flat(o, Reading, t') == After([Reconnecting], Flat(o, Retrying(o.backoffInitial), t));
  }

  lemma PrependAttempt(o: Options, t: Tape, b: int, ok: bool)
    ensures
      Flat(o, Retrying(b), Tape([ok] + t.connects, t.incoming, t.loads + 1)).trace
      == if ok then [Connecting, Connected, Resubscribe] + Flat(o, Reading, t).trace
         else [Connecting, Sleep(b)] + Flat(o, Retrying(Min(b * 2, o.backoffMax)), t).trace
  {
    assert ([ok] + t.connects)[1..] == t.connects;
  }

  lemma PrependFirst(o: Options, t: Tape, ok: bool)
    ensures
      Flat(o, Starting, Tape([ok] + t.connects, t.incoming, t.loads)).trace
      == if ok then [Connecting, Connected] + Flat(o, Reading, t).trace
         else [Connecting, Reconnecting] + Flat(o, Retrying(o.backoffInitial), t).trace
  {
    assert ([ok] + t.connects)[1..] == t.connects;
  }

  /** Completeness: the rest of a trace in the language is what some tape makes the automaton do. */
  lemma {:induction false} TapeForSession(o: Options, trace: seq<Event>, k: nat) returns (t: Tape)
    requires InLanguage(o, trace) && k <= |trace| && StateAfter(o, trace[..k]) == Some(Session)
    ensures Flat(o, Reading, t).trace == trace[k..]
    decreases |trace| - k
  {
    t := Tape([], [], 0);
    if k < |trace| {
      var e := trace[k];
      assert trace[k..] == [e] + trace[k + 1..];
      PrefixesHaveStates(o, trace, k + 1);
      PrefixesHaveStates(o, trace, k);
      if e.Deliver? {
        t := TapeForSession(o, trace, k + 1);
        PrependMessage(o, t, e.body);
        t := Tape(t.connects, [Message(e.body)] + t.incoming, t.loads + 1);
      } else if e.Closed? {
        OverIsLast(o, trace, k + 1);
        t := Tape([], [ClosedByPeer], 2);
      } else {
        t := TapeForOutage(o, o.backoffInitial, trace, k + 1);
        PrependError(o, t);
        t := Tape(t.connects, [OtherError] + t.incoming, t.loads + 2);
      }
    }
  }

  /** In an outage a trace goes on with one whole attempt. */
  lemma NextAttempt(o: Options, b: int, trace: seq<Event>, k: nat)
    requires InLanguage(o, trace) && k < |trace| && StateAfter(o, trace[..k]) == Some(Outage(b))
    ensures k + 1 < |trace|
    ensures
      if trace[k + 1].Connected? then
        && k + 2 < |trace| && trace[k..] == [Connecting, Connected, Resubscribe] + trace[k + 3..]
        && StateAfter(o, trace[..k + 3]) == Some(Session)
      else
        && trace[k..] == [Connecting, Sleep(b)] + trace[k + 2..]
        && StateAfter(o, trace[..k + 2]) == Some(Outage(Min(b * 2, o.backoffMax)))
  {
    PrefixesHaveStates(o, trace, k);
    PrefixesHaveStates(o, trace, k + 1);
    DialIsNotLast(o, trace, k + 1);
    PrefixesHaveStates(o, trace, k + 2);
    if trace[k + 1].Connected? {
      DialIsNotLast(o, trace, k + 2);
      PrefixesHaveStates(o, trace, k + 3);
    }
  }

  lemma {:induction false} TapeForOutage(o: Options, b: int, trace: seq<Event>, k: nat) returns (t: Tape)
    requires InLanguage(o, trace) && k <= |trace| && StateAfter(o, trace[..k]) == Some(Outage(b))
    ensures Flat(o, Retrying(b), t).trace == trace[k..]
    decreases |trace| - k
  {
    t := Tape([], [], 0);
    if k < |trace| {
      NextAttempt(o, b, trace, k);
      var ok := trace[k + 1].Connected?;
      if ok {
        t := TapeForSession(o, trace, k + 3);
      } else {
        t := TapeForOutage(o, Min(b * 2, o.backoffMax), trace, k + 2);
      }
      PrependAttempt(o, t, b, ok);
      t := Tape([ok] + t.connects, t.incoming, t.loads + 1);
    }
  }

  lemma TapeFor(o: Options, trace: seq<Event>) returns (t: Tape)
    requires InLanguage(o, trace)
    ensures Flat(o, Starting, t).trace == trace
  {
    assert trace[..0] == [];
    PrefixesHaveStates(o, trace, 0);
    PrefixesHaveStates(o, trace, 1);
    DialIsNotLast(o, trace, 1);
    PrefixesHaveStates(o, trace, 2);
    var ok := trace[1].Connected?;
    if ok {
      t := TapeForSession(o, trace, 2);
    } else {
      t := TapeForOutage(o, o.backoffInitial, trace, 2);
    }
    assert trace == [Connecting, trace[1]] + trace[2..];
    PrependFirst(o, t, ok);
    t := Tape([ok] + t.connects, t.incoming, t.loads);
  }

  /** A trace in the language does not stop between "connecting" and its outcome, or before the hook is called. */
  lemma DialIsNotLast(o: Options, trace: seq<Event>, k: nat)
    requires InLanguage(o, trace) && k <= |trace| && StateAfter(o, trace[..k]).Some?
    requires var q := StateAfter(o, trace[..k]).value; q.Dial? || q.FirstDial? || q.Hooked?
    ensures k < |trace|
  {
    assert trace[..|trace|] == trace;
  }

  lemma OverIsLast(o: Options, trace: seq<Event>, k: nat)
    requires InLanguage(o, trace) && k <= |trace| && StateAfter(o, trace[..k]) == Some(Over)
    ensures k == |trace|
  {
    if k < |trace| {
      PrefixesHaveStates(o, trace, k + 1);
      PrefixesHaveStates(o, trace, k);
    }
  }

  /** The traces of the client, over all tapes, are exactly the language. */
  lemma TracesAreTheLanguage(o: Options, trace: seq<Event>)
    ensures InLanguage(o, trace) <==> exists t :: Flat(o, Starting, t).trace == trace
  {
    if t :| Flat(o, Starting, t).trace == trace {
      FlatStaysInLanguage(o, Starting, t, []);
      assert [] + trace == trace;
    }
    if InLanguage(o, trace) {
      var t := TapeFor(o, trace);
    }
  }

  // ----- what the language guarantees -----

  /** Failed attempts since the current outage began. */
  function SleepsInOutage(trace: seq<Event>): nat {
    if trace == [] then 0
    else
      var e := trace[|trace| - 1];
      if e.Reconnecting? then 0 else SleepsInOutage(trace[..|trace| - 1]) + if e.Sleep? then 1 else 0
  }

  /** The k-th sleep of an outage: the initial value, then doubling up to the maximum. */
  function BackoffAt(o: Options, k: nat): int {
    if k == 0 then o.backoffInitial else Min(o.backoffInitial * Pow2(k), o.backoffMax)
  }

  lemma BackoffDoubles(o: Options, k: nat)
    requires 0 <= o.backoffInitial && 0 <= o.backoffMax
    ensures BackoffAt(o, k + 1) == Min(BackoffAt(o, k) * 2, o.backoffMax)
    ensures 0 <= BackoffAt(o, k) <= if o.backoffInitial < o.backoffMax then o.backoffMax else o.backoffInitial
  {
    assert Pow2(k + 1) == 2 * Pow2(k);
    assert o.backoffInitial * Pow2(k + 1) == 2 * (o.backoffInitial * Pow2(k));
    assert o.backoffInitial * Pow2(k) >= 0;
  }

  /** What each state says about the events that led to it. */
  ghost predicate Means(trace: seq<Event>, q: State) {
    var n := |trace|;
    match q
    case Fresh => trace == []
    case FirstDial => trace == [Connecting]
    case Session => LastNotice(trace) == Some(Connected)
    case Outage(_) => LastNotice(trace) == Some(Reconnecting)
    case Dial(_) => n > 0 && trace[n - 1] == Connecting && LastNotice(trace) == Some(Reconnecting)
    case Hooked => n > 2 && trace[n - 1] == Connected && LastNotice(trace) == Some(Connected)
    case Over => LastNotice(trace) == Some(Closed)
  }

  lemma {:induction false} StatesMean(o: Options, trace: seq<Event>)
    requires StateAfter(o, trace).Some?
    ensures Means(trace, StateAfter(o, trace).value)
  {
    if trace != [] {
      StatesMean(o, trace[..|trace| - 1]);
    }
  }

  /** The backoff a state holds is the one due after the failed attempts of its outage. */
  lemma {:induction false} StateBackoff(o: Options, trace: seq<Event>)
    requires 0 <= o.backoffInitial && 0 <= o.backoffMax
    requires StateAfter(o, trace).Some? && (StateAfter(o, trace).value.Outage? || StateAfter(o, trace).value.Dial?)
    ensures StateAfter(o, trace).value.backoff == BackoffAt(o, SleepsInOutage(trace))
  {
    var n := |trace| - 1;
    var q := StateAfter(o, trace[..n]).value;
    if q.Outage? || q.Dial? {
      StateBackoff(o, trace[..n]);
      BackoffDoubles(o, SleepsInOutage(trace[..n]));
    }
  }

  /**
   Everything that can be said of position i of a trace: "connected" directly follows "connecting"; nothing follows
   "closed"; between two "reconnecting" there is a "connected"; a message is delivered only while the latest notice
   is "connected"; a connection made by the reconnect loop, and no other, is followed at once by the resubscribe
   hook; and sleeps come only in an outage.
   */
  ghost predicate Shaped(trace: seq<Event>, i: nat)
    requires i < |trace|
  {
    var last := LastNotice(trace[..i]);
    match trace[i]
    case Connecting => i == 0 || last == Some(Reconnecting)
    case Connected => i > 0 && trace[i - 1] == Connecting && (i == 1 || (i + 1 < |trace| && trace[i + 1] == Resubscribe))
    case Closed => i == |trace| - 1 && last == Some(Connected)
    case Reconnecting => last == Some(Connected) || i == 1
    case Deliver(_) => last == Some(Connected)
    case Resubscribe => i > 1 && trace[i - 1] == Connected && i - 1 != 1
    case Sleep(_) => last == Some(Reconnecting) && trace[i - 1] == Connecting
  }

  lemma LanguageIsShaped(o: Options, trace: seq<Event>, i: nat)
    requires InLanguage(o, trace) && i < |trace|
    ensures Shaped(trace, i)
  {
    PrefixesHaveStates(o, trace, i);
    StatesMean(o, trace[..i]);
    PrefixesHaveStates(o, trace, i + 1);
    var q' := StateAfter(o, trace[..i + 1]).value;
    if q'.Over? {
      OverIsLast(o, trace, i + 1);
    }
    if q'.Hooked? {
      DialIsNotLast(o, trace, i + 1);
      PrefixesHaveStates(o, trace, i + 2);
    }
  }

  /** On every tape, every position of the trace is shaped. */
  lemma TraceShape(o: Options, t: Tape, i: nat)
    requires i < |Flat(o, Starting, t).trace|
    ensures Shaped(Flat(o, Starting, t).trace, i)
  {
    var trace := Flat(o, Starting, t).trace;
    TracesAreTheLanguage(o, trace);
    LanguageIsShaped(o, trace, i);
  }

  /** On every tape, the k-th sleep of an outage lasts the k-th backoff. */
  lemma SleepsAreBackoffs(o: Options, t: Tape, i: nat)
    requires 0 <= o.backoffInitial && 0 <= o.backoffMax
    requires i < |Flat(o, Starting, t).trace| && Flat(o, Starting, t).trace[i].Sleep?
    ensures Flat(o, Starting, t).trace[i].ms == BackoffAt(o, SleepsInOutage(Flat(o, Starting, t).trace[..i]))
  {
    var trace := Flat(o, Starting, t).trace;
    TracesAreTheLanguage(o, trace);
    SleepHasBackoff(o, trace, i);
  }

  lemma SleepHasBackoff(o: Options, trace: seq<Event>, i: nat)
    requires 0 <= o.backoffInitial && 0 <= o.backoffMax
    requires InLanguage(o, trace) && i < |trace| && trace[i].Sleep?
    ensures trace[i].ms == BackoffAt(o, SleepsInOutage(trace[..i]))
  {
    PrefixesHaveStates(o, trace, i + 1);
    PrefixesHaveStates(o, trace, i);
    var q := StateAfter(o, trace[..i]).value;
    assert q.Dial? && trace[i] == Sleep(q.backoff);
    StateBackoff(o, trace[..i]);
  }

  /** A connection made by the reconnect loop gets one resubscribe call, before anything else happens on it. */
  lemma OneResubscribePerReconnect(o: Options, t: Tape, i: nat)
    requires i < |Flat(o, Starting, t).trace| && Flat(o, Starting, t).trace[i] == Connected
    ensures
      var trace := Flat(o, Starting, t).trace;
      && (i > 1 ==> i + 1 < |trace| && trace[i + 1] == Resubscribe)
      && (forall j :: (if i > 1 then i + 1 else i) < j < |trace| && trace[j] == Resubscribe ==>
            exists k :: i < k < j && trace[k] == Connected)
  {
    TraceShape(o, t, i);
    var trace := Flat(o, Starting, t).trace;
    forall j | (if i > 1 then i + 1 else i) < j < |trace| && trace[j] == Resubscribe
      ensures exists k :: i < k < j && trace[k] == Connected
    {
      TraceShape(o, t, j);
      assert trace[j - 1] == Connected && j - 1 > i;
    }
  }

  // ----- which messages are delivered -----

  function Delivered(trace: seq<Event>): seq<string> {
    if trace == [] then []
    else (if trace[0].Deliver? then [trace[0].body] else []) + Delivered(trace[1..])
  }

  lemma {:induction false} DeliveredAppend(trace: seq<Event>, e: Event)
    ensures Delivered(trace + [e]) == Delivered(trace) + if e.Deliver? then [e.body] else []
  {
    if trace == [] {
      assert [] + [e] == [e];
    } else {
      assert (trace + [e])[0] == trace[0] && (trace + [e])[1..] == trace[1..] + [e];
      DeliveredAppend(trace[1..], e);
      Associative(if trace[0].Deliver? then [trace[0].body] else [], Delivered(trace[1..]),
                  if e.Deliver? then [e.body] else []);
    }
  }

  function Bodies(incoming: seq<ReadOutcome>): seq<string> {
    if incoming == [] then []
    else (if incoming[0].Message? then [incoming[0].body] else []) + Bodies(incoming[1..])
  }

  /** How many of the incoming outcomes the reads of a run use up. */
  function ReadsMade(o: Options, m: Mode, t: Tape): (n: nat)
    ensures n <= |t.incoming|
    decreases t.loads, if m.Starting? then 1 else 0
  {
    match m
    case Starting => ReadsMade(o, if ConnectOutcome(t) then Reading else Retrying(o.backoffInitial), AfterConnect(t))
    case Reading =>
      if t.loads == 0 then 0
      else
        var t1 := AfterRead(t.(loads := t.loads - 1));
        var r := NextRead(t);
        (if t.incoming == [] then 0 else 1)
        + if r.Message? then ReadsMade(o, Reading, t1)
          else if t1.loads > 0 && r.OtherError? then ReadsMade(o, Retrying(o.backoffInitial), t1.(loads := t1.loads - 1))
          else 0
    case Retrying(backoff) =>
      if t.loads == 0 then 0
      else
        var next := if ConnectOutcome(t) then Reading else Retrying(Min(backoff * 2, o.backoffMax));
        ReadsMade(o, next, AfterConnect(t.(loads := t.loads - 1)))
  }

  /**
   The messages delivered over a whole run, across reconnects, are those among the outcomes its reads returned, in
   order: every message read is delivered once.
   */
  lemma {:induction false} MessagesInOrder(o: Options, m: Mode, t: Tape) returns (n: nat)
    ensures n == ReadsMade(o, m, t)
    ensures n <= |t.incoming| && Delivered(Flat(o, m, t).trace) == Bodies(t.incoming[..n])
    decreases t.loads, if m.Starting? then 2 else 1
  {
    match m
    case Starting =>
      var ok := ConnectOutcome(t);
      var next := if ok then Reading else Retrying(o.backoffInitial);
      n := MessagesInOrder(o, next, AfterConnect(t));
      NothingDelivered([Connecting, if ok then Connected else Reconnecting], Flat(o, next, AfterConnect(t)).trace);
    case Reading => n := SessionMessages(o, t);
    case Retrying(b) => n := OutageMessages(o, b, t);
  }

  /** The statement of `MessagesInOrder` for n reads. */
  ghost predicate InOrder(o: Options, m: Mode, t: Tape, n: nat) {
    n == ReadsMade(o, m, t) && n <= |t.incoming| && Delivered(Flat(o, m, t).trace) == Bodies(t.incoming[..n])
  }

  lemma {:induction false} SessionMessages(o: Options, t: Tape) returns (n: nat)
    ensures InOrder(o, Reading, t, n)
    decreases t.loads, 0
  {
    n := 0;
    if t.loads == 0 || t.incoming == [] {
      NothingToRead(o, t);
      return;
    }
    var t1 := AfterRead(t.(loads := t.loads - 1));
    if NextRead(t).Message? {
      n := MessagesInOrder(o, Reading, t1);
      MessageStep(o, t, n);
    } else if t1.loads > 0 && NextRead(t).OtherError? {
      n := MessagesInOrder(o, Retrying(o.backoffInitial), t1.(loads := t1.loads - 1));
      ErrorStep(o, t, n);
    } else {
      EndStep(o, t);
    }
    n := n + 1;
  }

  lemma MessageStep(o: Options, t: Tape, n: nat)
    requires t.loads > 0 && t.incoming != [] && NextRead(t).Message?
    requires InOrder(o, Reading, AfterRead(t.(loads := t.loads - 1)), n)
    ensures InOrder(o, Reading, t, n + 1)
  {
    BodiesFirst(t.incoming, n);
    MessageDelivered(NextRead(t).body, Flat(o, Reading, AfterRead(t.(loads := t.loads - 1))).trace);
  }

  lemma ErrorStep(o: Options, t: Tape, n: nat)
    requires t.loads > 1 && t.incoming != [] && NextRead(t).OtherError?
    requires InOrder(o, Retrying(o.backoffInitial), AfterRead(t).(loads := t.loads - 2), n)
    ensures InOrder(o, Reading, t, n + 1)
  {
    var rest := Flat(o, Retrying(o.backoffInitial), AfterRead(t).(loads := t.loads - 2)).trace;
    ErrorUnfolds(o, t);
    BodiesFirst(t.incoming, n);
    NothingDelivered([Reconnecting], rest);
  }

  lemma ErrorUnfolds(o: Options, t: Tape)
    requires t.loads > 1 && t.incoming != [] && NextRead(t).OtherError?
    ensures
      var m, t2 := Retrying(o.backoffInitial), AfterRead(t).(loads := t.loads - 2);
      && Flat(o, Reading, t).trace == [Reconnecting] + Flat(o, m, t2).trace
      && ReadsMade(o, Reading, t) == 1 + ReadsMade(o, m, t2)
  {
    var t1 := AfterRead(t.(loads := t.loads - 1));
    assert t1.(loads := t1.loads - 1) == AfterRead(t).(loads := t.loads - 2);
  }

  lemma NothingToRead(o: Options, t: Tape)
    requires t.loads == 0 || t.incoming == []
    ensures InOrder(o, Reading, t, 0)
  {
  }

  lemma EndStep(o: Options, t: Tape)
    requires t.loads > 0 && t.incoming != [] && !NextRead(t).Message? && (t.loads == 1 || !NextRead(t).OtherError?)
    ensures InOrder(o, Reading, t, 1)
  {
    BodiesFirst(t.incoming, 0);
  }

  lemma {:induction false} OutageMessages(o: Options, b: int, t: Tape) returns (n: nat)
    ensures n == ReadsMade(o, Retrying(b), t)
    ensures n <= |t.incoming| && Delivered(Flat(o, Retrying(b), t).trace) == Bodies(t.incoming[..n])
    decreases t.loads, 0
  {
    n := 0;
    if t.loads > 0 {
      var t1 := AfterConnect(t.(loads := t.loads - 1));
      var ok := ConnectOutcome(t);
      var next := if ok then Reading else Retrying(Min(b * 2, o.backoffMax));
      n := MessagesInOrder(o, next, t1);
      NothingDelivered(if ok then [Connecting, Connected, Resubscribe] else [Connecting, Sleep(b)], Flat(o, next, t1).trace);
    }
  }

  lemma MessageDelivered(body: string, rest: seq<Event>)
    ensures Delivered([Deliver(body)] + rest) == [body] + Delivered(rest)
  {
    assert ([Deliver(body)] + rest)[1..] == rest;
  }

  lemma {:induction false} NothingDelivered(events: seq<Event>, rest: seq<Event>)
    requires forall i :: 0 <= i < |events| ==> !events[i].Deliver?
    ensures Delivered(events + rest) == Delivered(rest)
  {
    if events == [] {
      assert events + rest == rest;
    } else {
      NothingDelivered(events[1..], rest);
      assert (events + rest)[1..] == events[1..] + rest;
    }
  }

  lemma BodiesFirst(incoming: seq<ReadOutcome>, n: nat)
    requires n < |incoming|
    ensures
      Bodies(incoming[..n + 1])
      == (if incoming[0].Message? then [incoming[0].body] else []) + Bodies(incoming[1..][..n])
  {
    assert incoming[..n + 1][1..] == incoming[1..][..n];
  }

  /** Doubling never leaves 64 bits when twice the initial value and twice the maximum fit. */
  lemma DoublingFits(o: Options, t: Tape, i: nat)
    requires 0 <= 2 * o.backoffInitial < TWO63 && 0 <= 2 * o.backoffMax < TWO63
    requires i < |Flat(o, Starting, t).trace| && Flat(o, Starting, t).trace[i].Sleep?
    ensures 0 <= Flat(o, Starting, t).trace[i].ms * 2 < TWO63
  {
    SleepsAreBackoffs(o, t, i);
    BackoffDoubles(o, SleepsInOutage(Flat(o, Starting, t).trace[..i]));
  }
}
