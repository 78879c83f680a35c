/**
 The loop that both `Sharder::Impl::shard` and `SubscriptionManager::make_batches` use to cut a vector into
 consecutive pieces, and the sequence vocabulary around it.
 */
module Chunking {
  import opened Bits

  function SetOf<T(==)>(s: seq<T>): set<T> {
    set x | x in s
  }

  ghost predicate Distinct<T>(s: seq<T>) {
    forall i, j :: 0 <= i < j < |s| ==> s[i] != s[j]
  }

  /** s holds every element of x once, in some order: what iterating over a hash set yields. */
  ghost predicate Lists<T>(s: seq<T>, x: set<T>) {
    Distinct(s) && SetOf(s) == x
  }

  function Map<A, B>(f: A -> B, s: seq<A>): (r: seq<B>)
    ensures |r| == |s| && forall i :: 0 <= i < |s| ==> r[i] == f(s[i])
  {
    seq(|s|, i requires 0 <= i < |s| => f(s[i]))
  }

  function Flatten<T>(xss: seq<seq<T>>): seq<T> {
    if xss == [] then [] else Flatten(xss[..|xss| - 1]) + xss[|xss| - 1]
  }

  lemma FlattenAppend<T>(xss: seq<seq<T>>, xs: seq<T>)
    ensures Flatten(xss + [xs]) == Flatten(xss) + xs
  {
    assert (xss + [xs])[..|xss|] == xss;
  }

  function MapAll<A, B>(f: A -> B, xss: seq<seq<A>>): (r: seq<seq<B>>)
    ensures |r| == |xss| && forall i :: 0 <= i < |xss| ==> r[i] == Map(f, xss[i])
  {
    seq(|xss|, i requires 0 <= i < |xss| => Map(f, xss[i]))
  }

  lemma {:induction false} FlattenMap<A, B>(f: A -> B, xss: seq<seq<A>>)
    ensures Flatten(MapAll(f, xss)) == Map(f, Flatten(xss))
  {
    if xss != [] {
      var n := |xss| - 1;
      FlattenMap(f, xss[..n]);
      assert MapAll(f, xss)[..n] == MapAll(f, xss[..n]);
      assert Map(f, Flatten(xss)) == Map(f, Flatten(xss[..n])) + Map(f, xss[n]);
    }
  }

  lemma ListsExtend<T>(s: seq<T>, x: set<T>, t: T)
    requires Lists(s, x) && t !in x
    ensures Lists(s + [t], x + {t})
  {
    assert SetOf(s + [t]) == SetOf(s) + {t};
    assert forall i :: 0 <= i < |s| ==> s[i] in SetOf(s);
  }

  lemma {:induction false} FlattenMembers<T>(xss: seq<seq<T>>, x: T)
    ensures x in Flatten(xss) <==> exists i :: 0 <= i < |xss| && x in xss[i]
  {
    if xss != [] {
      var n := |xss| - 1;
      FlattenMembers(xss[..n], x);
      if x in Flatten(xss[..n]) {
        var i :| 0 <= i < n && x in xss[..n][i];
        assert x in xss[i];
      }
      if i :| 0 <= i < |xss| && x in xss[i] {
        assert i < n ==> x in xss[..n][i];
      }
    }
  }

  lemma NothingShared<T>(f: seq<T>, g: seq<T>)
    requires Distinct(f + g)
    ensures Distinct(f) && Distinct(g) && SetOf(f) !! SetOf(g)
  {
    assert forall k :: 0 <= k < |f| ==> (f + g)[k] == f[k];
    assert forall l :: 0 <= l < |g| ==> (f + g)[|f| + l] == g[l];
    forall k, l | 0 <= k < |f| && 0 <= l < |g|
      ensures f[k] != g[l]
    {
      assert (f + g)[k] != (f + g)[|f| + l];
    }
  }

  lemma {:induction false} DistinctPieces<T>(xss: seq<seq<T>>, i: nat, j: nat)
    requires Distinct(Flatten(xss)) && i < j < |xss|
    ensures SetOf(xss[i]) !! SetOf(xss[j])
  {
    var n := |xss| - 1;
    NothingShared(Flatten(xss[..n]), xss[n]);
    if j < n {
      DistinctPieces(xss[..n], i, j);
    } else {
      forall x | x in xss[i]
        ensures x in Flatten(xss[..n])
      {
        assert x in xss[..n][i];
        FlattenMembers(xss[..n], x);
      }
    }
  }

  // ----- chunks -----

  /** Consecutive pieces of `items`, each of length n except that the last may be shorter; none is empty. */
  ghost predicate IsChunking<T>(items: seq<T>, n: nat, chunks: seq<seq<T>>) {
    && Flatten(chunks) == items
    && forall k :: 0 <= k < |chunks| ==> 1 <= |chunks[k]| <= n && (k < |chunks| - 1 ==> |chunks[k]| == n)
  }

  /** The number of chunks is the number of items over n, rounded up. */
  lemma {:induction false} ChunkCount<T>(items: seq<T>, n: nat, chunks: seq<seq<T>>)
    requires n > 0 && IsChunking(items, n, chunks)
    ensures |chunks| == (|items| + n - 1) / n
  {
    if chunks == [] {
      DivModUnique(n - 1, n, 0, n - 1);
    } else {
      var last := chunks[|chunks| - 1];
      FullChunks(chunks[..|chunks| - 1], n);
      DivModUnique(|items| + n - 1, n, |chunks|, |last| - 1);
    }
  }

  lemma {:induction false} FullChunks<T>(chunks: seq<seq<T>>, n: nat)
    requires forall k :: 0 <= k < |chunks| ==> |chunks[k]| == n
    ensures |Flatten(chunks)| == |chunks| * n
  {
    if chunks != [] {
      var k := |chunks| - 1;
      FullChunks(chunks[..k], n);
      assert |Flatten(chunks)| == k * n + n;
      OneMore(k, n);
    }
  }

  lemma OneMore(k: nat, n: nat)
    ensures k * n + n == (k + 1) * n
  {
  }

  /** A vector has one chunking only. */
  lemma {:induction false} ChunkingUnique<T>(items: seq<T>, n: nat, a: seq<seq<T>>, b: seq<seq<T>>)
    requires n > 0 && IsChunking(items, n, a) && IsChunking(items, n, b)
    ensures a == b
    decreases |a|
  {
    ChunkCount(items, n, a);
    ChunkCount(items, n, b);
    if a != [] {
      var k := |a| - 1;
      FullChunks(a[..k], n);
      FullChunks(b[..k], n);
      assert items == Flatten(a[..k]) + a[k] == Flatten(b[..k]) + b[k];
      assert Flatten(a[..k]) == items[..k * n] == Flatten(b[..k]);
      assert a[k] == items[k * n..] == b[k];
      ChunkingUnique(items[..k * n], n, a[..k], b[..k]);
    }
  }

  ghost function ChunksOf<T>(items: seq<T>, n: nat): (chunks: seq<seq<T>>)
    requires n > 0
    ensures IsChunking(items, n, chunks)
  {
    ChunkingExists(items, n);
    var chunks :| IsChunking(items, n, chunks);
    chunks
  }

  lemma {:induction false} ChunkingExists<T>(items: seq<T>, n: nat)
    requires n > 0
    ensures exists chunks :: IsChunking(items, n, chunks)
    decreases |items|
  {
    if items == [] {
      assert IsChunking(items, n, []);
    } else {
      CutFits(|items|, n);
      var cut := if |items| % n == 0 then |items| - n else |items| - |items| % n;
      ChunkingExists(items[..cut], n);
      var front :| IsChunking(items[..cut], n, front);
      AppendChunk(items, n, cut, front);
    }
  }

  lemma AppendChunk<T>(items: seq<T>, n: nat, cut: nat, front: seq<seq<T>>)
    requires n > 0 && cut < |items| <= cut + n && cut % n == 0 && IsChunking(items[..cut], n, front)
    ensures IsChunking(items, n, front + [items[cut..]])
  {
    if front != [] {
      AllButLastFull(items[..cut], n, front);
    }
    FlattenAppend(front, items[cut..]);
  }

  lemma CutFits(size: nat, n: nat)
    requires n > 0 && size > 0
    ensures size % n == 0 ==> size >= n && (size - n) % n == 0
    ensures size % n != 0 ==> (size - size % n) % n == 0
  {
    var q := size / n;
    assert size == q * n + size % n;
    DivModUnique(q * n, n, q, 0);
    if size % n == 0 {
      MultipleGap(q, n);
      DivModUnique((q - 1) * n, n, q - 1, 0);
    }
  }

  /** When n divides the number of items, the last chunk is full as well. */
  lemma AllButLastFull<T>(items: seq<T>, n: nat, chunks: seq<seq<T>>)
    requires n > 0 && IsChunking(items, n, chunks) && |items| % n == 0 && chunks != []
    ensures |chunks[|chunks| - 1]| == n
  {
    var k := |chunks| - 1;
    FullChunks(chunks[..k], n);
    var last := |chunks[k]|;
    assert |items| == k * n + last;
    if last < n {
      DivModUnique(|items|, n, k, last);
    }
  }

  /**
   The loop over a 64-bit index that steps by `n`. No step wraps and the storage reserved up front never exceeds
   the number of items, for any limit, as long as the vector has fewer than 2^63 elements.
   */
  method MakeChunks<T>(items: seq<T>, n: u64) returns (chunks: seq<seq<T>>, reserved: nat)
    requires n > 0 && |items| < TWO63
    ensures chunks == ChunksOf(items, n)
    ensures reserved <= |items|
  {
    chunks, reserved := [], 0;
    if items == [] {
      return;
    }
    reserved := Reservation(|items|, n);
    var i := 0;
    while i < |items|
      invariant 0 <= i < TWO64 && (i == 0 || i >= n)
      invariant i < |items| ==> AllFull(items[..i], n, chunks)
      invariant i >= |items| ==> IsChunking(items, n, chunks)
      decreases |items| - i
    {
      NoWrap(i, n, |items|);
      var last := Min(|items|, Add64(i, n));
      ChunkStep(items, n, chunks, i, last);
      chunks := chunks + [items[i..last]];
      i := Add64(i, n);
    }
    ChunkingUnique(items, n, chunks, ChunksOf(items, n));
  }

  ghost predicate AllFull<T>(items: seq<T>, n: nat, chunks: seq<seq<T>>) {
    Flatten(chunks) == items && forall k :: 0 <= k < |chunks| ==> |chunks[k]| == n
  }

  lemma ChunkStep<T>(items: seq<T>, n: nat, chunks: seq<seq<T>>, i: nat, last: nat)
    requires n > 0 && i < |items| && AllFull(items[..i], n, chunks) && last == Min(|items|, i + n)
    ensures i + n < |items| ==> AllFull(items[..last], n, chunks + [items[i..last]])
    ensures i + n >= |items| ==> IsChunking(items, n, chunks + [items[i..last]])
  {
    FlattenAppend(chunks, items[i..last]);
    assert items[..i] + items[i..last] == items[..last];
  }

  lemma NoWrap(i: u64, n: u64, size: nat)
    requires i < size < TWO63 && (i == 0 || i >= n)
    ensures Add64(i, n) == i + n
  {
    WordCases(i, n);
  }

  /** `(size + n - 1) / n` in 64-bit arithmetic. */
  function Reservation(size: nat, n: u64): (r: nat)
    requires 0 < size < TWO63 && n > 0
    ensures r <= size
  {
    ReservationSum(size, n);
    QuotientBound(Sub64(Add64(size, n), 1), n, size);
    Quotient(Sub64(Add64(size, n), 1), n)
  }

  function Quotient(x: nat, n: nat): nat
    requires n > 0
  {
    x / n
  }

  lemma ReservationSum(size: nat, n: u64)
    requires 0 < size < TWO63 && n > 0
    ensures Sub64(Add64(size, n), 1) < size + n
  {
    WordCases(size, n);
    WordCases(Add64(size, n), 1);
  }

  lemma QuotientBound(x: nat, n: nat, bound: nat)
    requires n > 0 && x < bound + n
    ensures Quotient(x, n) <= bound
  {
    assert x == (x / n) * n + x % n;
    LargerMultiple(x / n, n, bound);
  }

  lemma LargerMultiple(q: nat, n: nat, bound: nat)
    requires n > 0
    ensures q > bound ==> q * n >= bound + n
  {
    if q > bound {
      MultipleGap(q - bound, n);
      assert bound * (n - 1) >= 0;
      assert q * n == (q - bound) * n + bound + bound * (n - 1);
    }
  }
}
