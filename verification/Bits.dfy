/**
 Unsigned machine words as mathematical integers, with the C++ operators the repository applies to them:
 wrap-around addition and subtraction, `&`, `|` and `>>`. The bitwise operators are defined digit by digit, so
 that what they compute (a remainder, a sum, a quotient) has to be proved.
 */
module Bits {

  const TWO32: nat := 0x1_0000_0000
  const TWO63: int := 0x8000_0000_0000_0000
  const TWO64: nat := 0x1_0000_0000_0000_0000

  type byte = x: int | 0 <= x < 256
  type u32 = x: int | 0 <= x < 0x1_0000_0000
  type u64 = x: int | 0 <= x < 0x1_0000_0000_0000_0000

  function Min(a: int, b: int): int {
    if a < b then a else b
  }

  function Add64(a: int, b: int): u64 {
    (a + b) % TWO64
  }

  function Sub64(a: int, b: int): u64 {
    (a - b) % TWO64
  }

  function Pow2(k: nat): (p: nat)
    ensures p >= 1
  {
    if k == 0 then 1 else 2 * Pow2(k - 1)
  }

  /** Binary digit i of n, counted from the least significant. */
  predicate Bit(n: nat, i: nat) {
    if i == 0 then n % 2 == 1 else Bit(n / 2, i - 1)
  }

  function And(a: nat, b: nat): (r: nat)
    ensures r <= b
  {
    if a == 0 || b == 0 then 0
    else 2 * And(a / 2, b / 2) + if a % 2 == 1 && b % 2 == 1 then 1 else 0
  }

  function Or(a: nat, b: nat): nat
    decreases a + b
  {
    if a == 0 && b == 0 then 0
    else 2 * Or(a / 2, b / 2) + if a % 2 == 1 || b % 2 == 1 then 1 else 0
  }

  function Shr(a: nat, k: nat): nat {
    if k == 0 then a else Shr(a / 2, k - 1)
  }

  ghost predicate IsPow2(n: nat) {
    exists k: nat :: n == Pow2(k)
  }

  lemma Associative<T>(a: seq<T>, b: seq<T>, c: seq<T>)
    ensures a + (b + c) == (a + b) + c
  {
  }

  // ----- division and remainder -----

  lemma MultipleGap(e: int, d: int)
    requires d > 0
    ensures e >= 1 ==> e * d >= d
    ensures e <= -1 ==> e * d <= -d
  {
    if e >= 1 {
      assert (e - 1) * d >= 0;
    } else if e <= -1 {
      assert (-e - 1) * d >= 0;
    }
  }

  lemma ProductAtLeast(a: int, n: nat)
    requires n > 0
    ensures a >= 0 ==> a * n >= a
  {
    if a >= 0 {
      assert a * (n - 1) >= 0;
    }
  }

  lemma DivModUnique(x: int, d: int, q: int, r: int)
    requires 0 <= r < d && x == q * d + r
    ensures x / d == q && x % d == r
  {
    var e := x / d - q;
    assert x == (x / d) * d + x % d;
    assert e * d == r - x % d by {
      assert e * d == (x / d) * d - q * d;
    }
    MultipleGap(e, d);
  }

  /** Reducing modulo a multiple of d first does not change the remainder modulo d. */
  lemma ModOfMod(x: int, d: int, m: int)
    requires d > 0 && m > 0
    ensures (x % (m * d)) % d == x % d
  {
    assert m * d > 0;
    var w := m * d;
    var q, y := x / w, x % w;
    assert x == (q * m + y / d) * d + y % d by {
      assert y == (y / d) * d + y % d;
      assert q * w == (q * m) * d;
    }
    DivModUnique(x, d, q * m + y / d, y % d);
  }

  /** Two numbers fewer than d apart with the same remainder are equal. */
  lemma SameResidue(x: int, y: int, d: int)
    requires d > 0 && x % d == y % d && -d < x - y < d
    ensures x == y
  {
    var e := x / d - y / d;
    assert x - y == e * d by {
      assert x == (x / d) * d + x % d;
      assert y == (y / d) * d + y % d;
    }
    MultipleGap(e, d);
  }

  lemma AddMultiple(x: int, d: int, m: int)
    requires d > 0
    ensures (x + m * d) % d == x % d
    ensures (x + m * d) / d == x / d + m
  {
    assert x + m * d == (x / d + m) * d + x % d;
    DivModUnique(x + m * d, d, x / d + m, x % d);
  }

  /** On words, wrap-around adds or takes away 2^64 at most once. */
  lemma WordCases(a: u64, b: u64)
    ensures Sub64(a, b) == if a >= b then a - b else a - b + TWO64
    ensures Add64(a, b) == if a + b < TWO64 then a + b else a + b - TWO64
  {
    DivModUnique(a - b, TWO64, if a >= b then 0 else -1, if a >= b then a - b else a - b + TWO64);
    DivModUnique(a + b, TWO64, if a + b < TWO64 then 0 else 1, if a + b < TWO64 then a + b else a + b - TWO64);
  }

  // ----- powers of two -----

  lemma {:induction false} Pow2Add(a: nat, b: nat)
    ensures Pow2(a + b) == Pow2(a) * Pow2(b)
  {
    if a == 0 {
    } else {
      Pow2Add(a - 1, b);
      assert Pow2(a + b) == 2 * Pow2(a - 1 + b);
    }
  }

  lemma {:induction false} Pow2Monotone(a: nat, b: nat)
    requires a <= b
    ensures Pow2(a) <= Pow2(b)
    ensures a < b ==> 2 * Pow2(a) <= Pow2(b)
  {
    if a < b {
      Pow2Monotone(a, b - 1);
    }
  }

  lemma SmallPowers()
    ensures Pow2(1) == 2 && Pow2(2) == 4 && Pow2(3) == 8 && Pow2(4) == 16
    ensures Pow2(5) == 32 && Pow2(6) == 64 && Pow2(7) == 128 && Pow2(8) == 256
  {
    assert Pow2(2) == 4;
    assert Pow2(4) == 16;
    assert Pow2(6) == 64;
  }

  lemma Pow2Values()
    ensures Pow2(1) == 2 && Pow2(2) == 4 && Pow2(3) == 8 && Pow2(4) == 16
    ensures Pow2(5) == 32 && Pow2(6) == 64 && Pow2(7) == 128 && Pow2(8) == 256
    ensures Pow2(32) == TWO32 && Pow2(63) == 0x8000_0000_0000_0000 && Pow2(64) == TWO64
  {
    SmallPowers();
    Pow2Add(8, 8);
    Pow2Add(16, 16);
    Pow2Add(32, 32);
    assert Pow2(64) == 2 * Pow2(63);
  }

  lemma HalvesModulo(x: nat, p: nat)
    requires p > 0
    ensures x % (2 * p) == 2 * ((x / 2) % p) + x % 2
    ensures x / (2 * p) == (x / 2) / p
  {
    var h := x / 2;
    assert h == (h / p) * p + h % p;
    assert x == (h / p) * (2 * p) + (2 * (h % p) + x % 2);
    DivModUnique(x, 2 * p, h / p, 2 * (h % p) + x % 2);
  }

  // ----- what the bitwise operators compute -----

  lemma AndOdd(x: nat, m: nat)
    ensures And(x, 2 * m + 1) == 2 * And(x / 2, m) + x % 2
  {
    assert (2 * m + 1) / 2 == m;
  }

  /** Masking with 2^k - 1 takes the remainder modulo 2^k. */
  lemma {:induction false} AndMask(x: nat, k: nat)
    ensures And(x, Pow2(k) - 1) == x % Pow2(k)
  {
    if k == 0 {
    } else {
      var p := Pow2(k - 1);
      AndMask(x / 2, k - 1);
      HalvesModulo(x, p);
      AndOdd(x, p - 1);
    }
  }

  lemma {:induction false} AndSelf(a: nat)
    ensures And(a, a) == a
  {
    if a == 0 {
    } else {
      AndSelf(a / 2);
    }
  }

  lemma {:induction false} OrZero(a: nat)
    ensures Or(a, 0) == a && Or(0, a) == a
  {
    if a == 0 {
    } else {
      OrZero(a / 2);
    }
  }

  lemma TimesTwice(a: int, p: int)
    ensures a * (2 * p) == 2 * (a * p)
  {
  }

  lemma OrEven(x: nat, v: nat)
    ensures Or(2 * x, v) == 2 * Or(x, v / 2) + v % 2
  {
    assert (2 * x) / 2 == x;
  }

  /** `|` of a multiple of 2^k and a number below 2^k is their sum. */
  lemma {:induction false} OrDisjoint(a: nat, v: nat, k: nat)
    requires v < Pow2(k)
    ensures Or(a * Pow2(k), v) == a * Pow2(k) + v
  {
    if k == 0 {
      OrZero(a);
      assert a * Pow2(k) == a;
    } else {
      OrDisjoint(a, v / 2, k - 1);
      TimesTwice(a, Pow2(k - 1));
      OrEven(a * Pow2(k - 1), v);
    }
  }

  lemma {:induction false} OrBit(a: nat, b: nat, i: nat)
    ensures Bit(Or(a, b), i) == (Bit(a, i) || Bit(b, i))
    decreases i
  {
    if i == 0 {
    } else {
      OrBit(a / 2, b / 2, i - 1);
      assert Or(a, b) / 2 == Or(a / 2, b / 2);
    }
  }

  lemma {:induction false} ShrBit(a: nat, k: nat, i: nat)
    ensures Bit(Shr(a, k), i) == Bit(a, i + k)
  {
    if k == 0 {
    } else {
      ShrBit(a / 2, k - 1, i);
    }
  }

  lemma {:induction false} ShrIsDivision(a: nat, k: nat)
    ensures Shr(a, k) == a / Pow2(k)
  {
    if k == 0 {
    } else {
      ShrIsDivision(a / 2, k - 1);
      HalvesModulo(a, Pow2(k - 1));
    }
  }

  lemma {:induction false} OrBounded(a: nat, b: nat, m: nat)
    requires a < Pow2(m) && b < Pow2(m)
    ensures Or(a, b) < Pow2(m)
  {
    if m == 0 {
    } else {
      OrBounded(a / 2, b / 2, m - 1);
    }
  }

  /** Every positive number has a leading one. */
  lemma {:induction false} LeadingOne(n: nat) returns (k: nat)
    requires n > 0
    ensures Pow2(k) <= n < Pow2(k + 1) && Bit(n, k)
  {
    if n == 1 {
      k := 0;
      assert Pow2(1) == 2;
    } else {
      var j := LeadingOne(n / 2);
      k := j + 1;
    }
  }

  lemma {:induction false} AllOnes(n: nat, m: nat)
    requires n < Pow2(m) && forall i: nat :: i < m ==> Bit(n, i)
    ensures n == Pow2(m) - 1
  {
    if m == 0 {
    } else {
      assert Bit(n, 0);
      forall i: nat | i < m - 1
        ensures Bit(n / 2, i)
      {
        assert Bit(n, i + 1);
      }
      AllOnes(n / 2, m - 1);
    }
  }

  /** The test `x && (x & (x - 1)) == 0` recognises exactly the powers of two. */
  predicate IsPowerOfTwo(x: nat) {
    x != 0 && And(x, x - 1) == 0
  }

  lemma {:induction false} IsPowerOfTwoCorrect(x: nat)
    ensures IsPowerOfTwo(x) <==> IsPow2(x)
  {
    if x == 0 {
    } else if x == 1 {
      assert 1 == Pow2(0);
    } else if x % 2 == 1 {
      AndSelf(x / 2);
      assert (x - 1) / 2 == x / 2;
      forall k: nat
        ensures x != Pow2(k)
      {
        assert k > 0 ==> Pow2(k) % 2 == 0;
      }
    } else {
      IsPowerOfTwoCorrect(x / 2);
      assert (x - 1) / 2 == x / 2 - 1;
      if IsPow2(x / 2) {
        var k: nat :| x / 2 == Pow2(k);
        assert x == Pow2(k + 1);
      }
      if IsPow2(x) {
        var k: nat :| x == Pow2(k);
        assert x / 2 == Pow2(k - 1);
      }
    }
  }
}
