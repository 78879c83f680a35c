/** `LTPStore`: the last value per token. */
module LtpStore {
  import opened Wrappers
  import opened Parser

  /** What a map holds after overwriting the entry of each value's token, in order. */
  function Stored(initial: map<Token, Ltp>, writes: seq<Ltp>): map<Token, Ltp> {
    if writes == [] then initial
    else
      var last := writes[|writes| - 1];
      Stored(initial, writes[..|writes| - 1])[last.token := last]
  }

  /** Position of the last write to t, or -1. */
  function LastWriteTo(writes: seq<Ltp>, t: Token): (i: int)
    ensures -1 <= i < |writes|
    ensures i >= 0 ==> writes[i].token == t
    ensures forall k :: i < k < |writes| ==> writes[k].token != t
  {
    if writes == [] then -1
    else
      var n := |writes| - 1;
      if writes[n].token == t then n else LastWriteTo(writes[..n], t)
  }

  /** The fold is last-writer-wins, token by token, and keeps what it does not overwrite. */
  lemma {:induction false} LastWriterWins(initial: map<Token, Ltp>, writes: seq<Ltp>, t: Token)
    ensures t in Stored(initial, writes) <==> LastWriteTo(writes, t) >= 0 || t in initial
    ensures LastWriteTo(writes, t) >= 0 ==> Stored(initial, writes)[t] == writes[LastWriteTo(writes, t)]
    ensures LastWriteTo(writes, t) < 0 && t in initial ==> Stored(initial, writes)[t] == initial[t]
  {
    if writes != [] {
      LastWriterWins(initial, writes[..|writes| - 1], t);
    }
  }

  lemma StoredAppend(initial: map<Token, Ltp>, writes: seq<Ltp>, v: Ltp)
    ensures Stored(initial, writes + [v]) == Stored(initial, writes)[v.token := v]
  {
    assert (writes + [v])[..|writes|] == writes;
  }

  lemma {:induction false} StoredConcat(initial: map<Token, Ltp>, a: seq<Ltp>, b: seq<Ltp>)
    ensures Stored(initial, a + b) == Stored(Stored(initial, a), b)
  {
    if b == [] {
      assert a + b == a;
    } else {
      var n := |b| - 1;
      StoredConcat(initial, a, b[..n]);
      StoredAppend(initial, a + b[..n], b[n]);
      assert a + b == a + b[..n] + [b[n]];
    }
  }

  class LtpStore {
    var entries: map<Token, Ltp>

    constructor ()
      ensures entries == map[]
    {
      entries := map[];
    }

    method Upsert(v: Ltp)
      modifies this
      ensures entries == old(entries)[v.token := v]
    {
      entries := entries[v.token := v];
    }

    method Get(token: Token) returns (r: Option<Ltp>)
      ensures r.Some? <==> token in entries
      ensures r.Some? ==> r.value == entries[token]
    {
      if token !in entries {
        return None;
      }
      return Some(entries[token]);
    }

    method Snapshot() returns (copy: map<Token, Ltp>)
      ensures copy == entries
    {
      copy := entries;
    }

    method Size() returns (n: nat)
      ensures n == |entries.Keys|
    {
      n := |entries|;
    }
  }
}
