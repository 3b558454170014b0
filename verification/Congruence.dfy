/** Integer powers, remainders, and the one fact about primes everything else rests on (Euclid's lemma). */
module Congruence {

  function Pow(b: int, e: nat): int {
    if e == 0 then 1 else b * Pow(b, e - 1)
  }

  lemma {:induction false} PowAdd(b: int, e: nat, f: nat)
    ensures Pow(b, e + f) == Pow(b, e) * Pow(b, f)
  {
    if e == 0 {
    } else {
      PowAdd(b, e - 1, f);
      assert Pow(b, e + f) == b * Pow(b, e - 1 + f);
      assert b * (Pow(b, e - 1) * Pow(b, f)) == (b * Pow(b, e - 1)) * Pow(b, f);
    }
  }

  lemma Interchange(a: int, b: int, c: int, d: int)
    ensures (a * b) * (c * d) == (a * c) * (b * d)
  {
    var cd := c * d;
    assert (a * b) * cd == a * (b * cd);
    assert b * (c * d) == c * (b * d);
    var bd := b * d;
    assert a * (c * bd) == (a * c) * bd;
  }

  lemma {:induction false} PowDistributes(a: int, b: int, e: nat)
    ensures Pow(a * b, e) == Pow(a, e) * Pow(b, e)
  {
    if e == 0 {
    } else {
      PowDistributes(a, b, e - 1);
      Interchange(a, b, Pow(a, e - 1), Pow(b, e - 1));
    }
  }

  lemma {:induction false} PowDouble(b: int, e: nat)
    ensures Pow(b, 2 * e) == Pow(b * b, e)
  {
    PowAdd(b, e, e);
    PowDistributes(b, b, e);
  }

  lemma SmallMultipleIsZero(k: int, m: int)
    requires -m < k * m < m
    ensures k == 0
  {
  }

  /** Division with remainder has one answer. */
  lemma DivModUnique(a: int, m: int, q: int, r: int)
    requires m > 0 && 0 <= r < m && a == q * m + r
    ensures a / m == q && a % m == r
  {
    var k := a / m - q;
    assert a == (a / m) * m + a % m;
    assert k * m == (a / m) * m - q * m;
    assert k * m == r - a % m;
    SmallMultipleIsZero(k, m);
  }

  lemma AddMultiple(a: int, k: int, m: int)
    requires m > 0
    ensures (a + k * m) % m == a % m
  {
    assert a + k * m == (a / m + k) * m + a % m by {
      assert a == (a / m) * m + a % m;
      assert (a / m + k) * m == (a / m) * m + k * m;
    }
    DivModUnique(a + k * m, m, a / m + k, a % m);
  }

  lemma ModOfMultiple(k: int, m: int)
    requires m > 0
    ensures (k * m) % m == 0 && (m * k) % m == 0
  {
    AddMultiple(0, k, m);
  }

  lemma ModMod(a: int, m: int)
    requires m > 0
    ensures (a % m) % m == a % m
  {
  }

  lemma ModDifference(a: int, b: int, m: int)
    requires m > 0
    ensures a % m == b % m <==> (a - b) % m == 0
  {
    var k := a / m - b / m;
    assert a == (a / m) * m + a % m && b == (b / m) * m + b % m;
    assert a - b == k * m + (a % m - b % m) by {
      assert k * m == (a / m) * m - (b / m) * m;
    }
    AddMultiple(a % m - b % m, k, m);
    assert (a - b) % m == (a % m - b % m) % m;
    if a % m < b % m {
      DivModUnique(a % m - b % m, m, -1, a % m - b % m + m);
    } else {
      DivModUnique(a % m - b % m, m, 0, a % m - b % m);
    }
  }

  lemma CongruentBy(a: int, a': int, m: int) returns (k: int)
    requires m > 0 && a % m == a' % m
    ensures a == a' + k * m
  {
    k := a / m - a' / m;
    assert a == (a / m) * m + a % m && a' == (a' / m) * m + a' % m;
    assert k * m == (a / m) * m - (a' / m) * m;
  }

  lemma MultiplesAdd(k: int, l: int, m: int)
    ensures (k + l) * m == k * m + l * m && (k - l) * m == k * m - l * m
  {
  }

  lemma ModAdd(a: int, b: int, a': int, b': int, m: int)
    requires m > 0 && a % m == a' % m && b % m == b' % m
    ensures (a + b) % m == (a' + b') % m && (a - b) % m == (a' - b') % m
  {
    var k := CongruentBy(a, a', m);
    var l := CongruentBy(b, b', m);
    MultiplesAdd(k, l, m);
    AddMultiple(a' + b', k + l, m);
    AddMultiple(a' - b', k - l, m);
  }

  lemma ModMul(a: int, b: int, a': int, b': int, m: int)
    requires m > 0 && a % m == a' % m && b % m == b' % m
    ensures (a * b) % m == (a' * b') % m
  {
    var k := CongruentBy(a, a', m);
    var l := CongruentBy(b, b', m);
    ProductExpansion(a', b', k, l, m);
    AddMultiple(a' * b', a' * l + k * b' + k * l * m, m);
  }

  lemma ProductExpansion(a: int, b: int, k: int, l: int, m: int)
    ensures (a + k * m) * (b + l * m) == a * b + (a * l + k * b + k * l * m) * m
  {
    var km, lm := k * m, l * m;
    assert (a + km) * (b + lm) == a * b + a * lm + km * b + km * lm;
    assert a * (l * m) == (a * l) * m;
    assert (k * m) * b == (k * b) * m;
    assert (k * m) * (l * m) == (k * l * m) * m;
  }

  lemma {:induction false} ModPow(a: int, a': int, e: nat, m: int)
    requires m > 0 && a % m == a' % m
    ensures Pow(a, e) % m == Pow(a', e) % m
  {
    if e == 0 {
    } else {
      ModPow(a, a', e - 1, m);
      ModMul(a, Pow(a, e - 1), a', Pow(a', e - 1), m);
    }
  }

  ghost predicate IsPrime(p: int) {
    p >= 2 && forall d :: 1 < d < p ==> p % d != 0
  }

  /** A prime is no product of smaller factors. */
  lemma PrimeDoesNotFactor(a: nat, b: nat)
    requires IsPrime(a * b)
    ensures a == 1 || b == 1
  {
    if a > 1 && b > 1 {
      assert a < a * b by { assert a * b == a + a * (b - 1); }
      ModOfMultiple(b, a);
    }
  }

  /** And every number from 2 on has one below it. */
  lemma {:induction false} PrimeDivisorExists(n: nat) returns (p: nat)
    requires n >= 2
    ensures IsPrime(p) && p <= n && n % p == 0
  {
    if d: nat :| 1 < d < n && n % d == 0 {
      p := PrimeDivisorExists(d);
      var k, l := n / d, d / p;
      assert n == k * d && d == l * p;
      assert n == (k * l) * p by { assert k * (l * p) == (k * l) * p; }
      ModOfMultiple(k * l, p);
    } else {
      p := n;
    }
  }

  /** Euclid's lemma for a factor below p, by running the remainder sequence of p and a. */
  lemma {:induction false} EuclidBelow(p: int, a: int, b: int)
    requires IsPrime(p) && 0 < a < p && (a * b) % p == 0
    ensures b % p == 0
    decreases a
  {
    if a == 1 {
    } else {
      var q, r := p / a, p % a;
      assert p == q * a + r;
      assert 0 < r < a;
      assert r * b == p * b - q * (a * b) by {
        assert (q * a + r) * b == q * (a * b) + r * b;
      }
      ModOfMultiple(b, p);
      ModMul(q, a * b, q, 0, p);
      ModAdd(p * b, q * (a * b), 0, 0, p);
      EuclidBelow(p, r, b);
    }
  }

  lemma Euclid(p: int, a: int, b: int)
    requires IsPrime(p) && (a * b) % p == 0
    ensures a % p == 0 || b % p == 0
  {
    if a % p != 0 {
      ModMul(a, b, a % p, b, p);
      EuclidBelow(p, a % p, b);
    }
  }

  /** Two residues with equal squares are equal up to sign. */
  lemma EqualSquares(p: int, a: int, b: int)
    requires IsPrime(p) && (a * a) % p == (b * b) % p
    ensures a % p == b % p || a % p == (-b) % p
  {
    ModDifference(a * a, b * b, p);
    assert a * a - b * b == (a - b) * (a + b);
    Euclid(p, a - b, a + b);
    ModDifference(a, b, p);
    ModDifference(a, -b, p);
  }
}
