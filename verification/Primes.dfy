/** The first 64 primes, from which the constants of SHA-256 are taken. */
module Primes {

  predicate IsPrime(n: nat) {
    n >= 2 && forall d :: 2 <= d < n ==> n % d != 0
  }

  const PRIMES: seq<seq<nat>> := [
    [2, 3, 5, 7, 11, 13, 17, 19],
    [23, 29, 31, 37, 41, 43, 47, 53],
    [59, 61, 67, 71, 73, 79, 83, 89],
    [97, 101, 103, 107, 109, 113, 127, 131],
    [137, 139, 149, 151, 157, 163, 167, 173],
    [179, 181, 191, 193, 197, 199, 211, 223],
    [227, 229, 233, 239, 241, 251, 257, 263],
    [269, 271, 277, 281, 283, 293, 307, 311]]

  function Prime(t: nat): nat
    requires t < 64
  {
    PRIMES[t / 8][t % 8]
  }

  // ---------- Below 361 a sieve with the primes up to 17 is enough ----------

  /** No prime below 19 divides `n`, unless it is `n`. */
  predicate Sieved(n: nat) {
    && n >= 2 && (n == 2 || n % 2 != 0) && (n == 3 || n % 3 != 0) && (n == 5 || n % 5 != 0)
    && (n == 7 || n % 7 != 0) && (n == 11 || n % 11 != 0) && (n == 13 || n % 13 != 0) && (n == 17 || n % 17 != 0)
  }

  lemma NoRest(q: int, e: int, d: int)
    requires q * e == d && 0 <= d < q
    ensures d == 0
  {
    assert e >= 1 ==> q * (e - 1) >= 0;
    assert e < 0 ==> q * -(e + 1) >= 0;
  }

  lemma MultipleOf(q: nat, k: nat)
    requires q > 0
    ensures q * k % q == 0
  {
    var m := q * k;
    NoRest(q, k - m / q, m % q);
  }

  lemma DividesOn(n: nat, d: nat, q: nat)
    requires q > 0 && d > 0 && n % d == 0 && d % q == 0
    ensures n % q == 0
  {
    var a, b := n / d, d / q;
    assert n == d * a && d == q * b;
    assert n == q * (b * a);
    MultipleOf(q, b * a);
  }

  /** A number from 2 to 18 has one of those primes as a factor, and hands it on. */
  lemma SmallFactor(n: nat, d: nat)
    requires 2 <= d < 19 && d < n && n % d == 0
    ensures !Sieved(n)
  {
    var q := if d % 2 == 0 then 2 else if d % 3 == 0 then 3 else d;
    assert q == 2 || q == 3 || q == 5 || q == 7 || q == 11 || q == 13 || q == 17;
    DividesOn(n, d, q);
  }

  lemma Cofactor(n: nat, d: nat)
    requires 2 <= d < n < 361 && n % d == 0
    ensures 2 <= n / d < n && n % (n / d) == 0 && (d >= 19 ==> n / d < 19)
  {
    var e := n / d;
    assert n == d * e;
    MultipleOf(e, d);
    AtLeast(d, e, 2, n);
    AtLeast(d, e, 19, 19);
  }

  lemma AtLeast(d: nat, e: nat, x: nat, y: nat)
    ensures d >= x && e >= y ==> d * e >= x * y
  {
    if d >= x && e >= y {
      assert d * e == x * y + (d - x) * e + x * (e - y);
    }
  }

  lemma SieveFinds(n: nat)
    requires 2 <= n < 361
    ensures IsPrime(n) <==> Sieved(n)
  {
    if IsPrime(n) {
      assert n % 2 != 0 || n == 2;
      assert n % 3 != 0 || n <= 3;
      assert n % 5 != 0 || n <= 5;
      assert n % 7 != 0 || n <= 7;
      assert n % 11 != 0 || n <= 11;
      assert n % 13 != 0 || n <= 13;
      assert n % 17 != 0 || n <= 17;
    }
    forall d | Sieved(n) && 2 <= d < n
      ensures n % d != 0
    {
      if n % d == 0 {
        Cofactor(n, d);
        if d < 19 { SmallFactor(n, d); } else { SmallFactor(n, n / d); }
      }
    }
  }

  // ---------- The table against the sieve ----------

  lemma LowRows(t: nat)
    requires t < 32
    ensures Sieved(Prime(t)) && Prime(t) < Prime(t + 1) <= 311
  {
    var r, i := t / 8, t % 8;
    assert r == 0 || r == 1 || r == 2 || r == 3;
    assert i == 0 || i == 1 || i == 2 || i == 3 || i == 4 || i == 5 || i == 6 || i == 7;
  }

  lemma HighRows(t: nat)
    requires 32 <= t < 64
    ensures Sieved(Prime(t)) && Prime(t) <= 311 && (t < 63 ==> Prime(t) < Prime(t + 1))
  {
    var r, i := t / 8, t % 8;
    assert r == 4 || r == 5 || r == 6 || r == 7;
    assert i == 0 || i == 1 || i == 2 || i == 3 || i == 4 || i == 5 || i == 6 || i == 7;
  }

  /** What is left of a turn of thirty without the multiples of 2, 3 and 5. */
  predicate Spokes(n: nat, b: nat) {
    || n == b + 1 || n == b + 7 || n == b + 11 || n == b + 13
    || n == b + 17 || n == b + 19 || n == b + 23 || n == b + 29
  }

  lemma Residue(c: nat)
    requires c < 30 && c % 2 != 0 && c % 3 != 0 && c % 5 != 0
    ensures Spokes(c, 0)
  {
    assert c == 1 || c == 3 || c == 5 || c == 7 || c == 9 || c == 11 || c == 13 || c == 15
        || c == 17 || c == 19 || c == 21 || c == 23 || c == 25 || c == 27 || c == 29;
  }

  lemma Mod2(m: nat, c: nat)
    ensures (2 * m + c) % 2 == c % 2
  {
  }

  lemma Mod3(m: nat, c: nat)
    ensures (3 * m + c) % 3 == c % 3
  {
  }

  lemma Mod5(m: nat, c: nat)
    ensures (5 * m + c) % 5 == c % 5
  {
  }

  lemma OnSpoke(n: nat)
    requires n % 2 != 0 && n % 3 != 0 && n % 5 != 0
    ensures Spokes(n, 30 * (n / 30))
  {
    var k, c := n / 30, n % 30;
    Mod2(15 * k, c);
    Mod3(10 * k, c);
    Mod5(6 * k, c);
    Residue(c);
  }

  lemma LowTurns(n: nat, k: nat)
    requires k <= 5 && Spokes(n, 30 * k) && Sieved(n)
    ensures exists r :: 0 <= r < 8 && n in PRIMES[r]
  {
    if k == 0 {
      assert n in PRIMES[0] || n in PRIMES[1];
    } else if k == 1 {
      assert n in PRIMES[1] || n in PRIMES[2];
    } else if k == 2 {
      assert n in PRIMES[2];
    } else if k == 3 {
      assert n in PRIMES[3];
    } else if k == 4 {
      assert n in PRIMES[3] || n in PRIMES[4];
    } else {
      assert n in PRIMES[4] || n in PRIMES[5];
    }
  }

  lemma HighTurns(n: nat, k: nat)
    requires 6 <= k <= 10 && Spokes(n, 30 * k) && Sieved(n) && n <= 311
    ensures exists r :: 0 <= r < 8 && n in PRIMES[r]
  {
    if k == 6 {
      assert n in PRIMES[5];
    } else if k == 7 {
      assert n in PRIMES[5] || n in PRIMES[6];
    } else if k == 8 {
      assert n in PRIMES[6] || n in PRIMES[7];
    } else {
      assert n in PRIMES[7];
    }
  }

  lemma InRow(p: seq<seq<nat>>, n: nat, r: nat) returns (t: nat)
    requires |p| == 8 && r < 8 && |p[r]| == 8 && n in p[r]
    ensures t < 64 && t / 8 == r && p[t / 8][t % 8] == n
  {
    var i :| 0 <= i < 8 && p[r][i] == n;
    t := 8 * r + i;
    assert t / 8 == r && t % 8 == i;
  }

  lemma NoneMissing(n: nat) returns (t: nat)
    requires Sieved(n) && n <= 311
    ensures t < 64 && Prime(t) == n
  {
    if n <= 5 {
      assert n in PRIMES[0];
    } else {
      assert n % 2 != 0 && n % 3 != 0 && n % 5 != 0;
      OnSpoke(n);
      if n / 30 <= 5 { LowTurns(n, n / 30); } else { HighTurns(n, n / 30); }
    }
    hide Sieved;
    assert |PRIMES| == 8;
    var r :| 0 <= r < 8 && n in PRIMES[r];
    assert |PRIMES[r]| == 8;
    t := InRow(PRIMES, n, r);
  }

  /** The table holds exactly the primes up to 311, in increasing order. */
  lemma PrimesInOrder(t: nat, n: nat)
    requires t < 64 && n <= 311
    ensures IsPrime(Prime(t)) && (t < 63 ==> Prime(t) < Prime(t + 1))
    ensures IsPrime(n) ==> exists u :: 0 <= u < 64 && Prime(u) == n
  {
    hide Sieved, IsPrime;
    if t < 32 { LowRows(t); } else { HighRows(t); }
    AtLeastTwo(Prime(t));
    SieveFinds(Prime(t));
    if IsPrime(n) {
      AtLeastTwo(n);
      SieveFinds(n);
      var u := NoneMissing(n);
    }
  }

  lemma AtLeastTwo(n: nat)
    requires IsPrime(n) || Sieved(n)
    ensures n >= 2
  {
  }
}
