/** Fermat's little theorem, Euler's symbol, and Cipolla's square root for every odd prime. */
module Residues {
  import opened Congruence
  import opened Quadratic

  ghost predicate OddPrime(p: int) {
    IsPrime(p) && p % 2 == 1
  }

  /** Legendre as the field library computes it: z^((p-1)/2), read off as 0, 1 or anything else. */
  function Legendre(z: int, p: int): int
    requires p > 2
  {
    var e := Pow(z, (p - 1) / 2) % p;
    if e == 0 then 0 else if e == 1 then 1 else -1
  }

  lemma PrimePowerIsAdditive(a: int, b: int, p: int)
    requires IsPrime(p)
    ensures Pow(a + b, p) % p == (Pow(a, p) + Pow(b, p)) % p
  {
    var x, y := Complex(a, 0), Complex(b, 0);
    Frobenius(x, y, p, 0);
    assert Add(x, y) == Complex(a + b, 0);
    PowerOfReal(a + b, p, 0);
    PowerOfReal(a, p, 0);
    PowerOfReal(b, p, 0);
  }

  lemma {:induction false} FermatNat(a: nat, p: int)
    requires IsPrime(p)
    ensures Pow(a, p) % p == a % p
  {
    if a == 0 {
      assert Pow(0, p) == 0;
    } else {
      FermatNat(a - 1, p);
      PrimePowerIsAdditive(a - 1, 1, p);
      PowOfOne(p);
      var u, v := Pow(a - 1, p), Pow(a, p);
      ModAdd(u, 1, a - 1, 1, p);
    }
  }

  lemma {:induction false} PowOfOne(e: nat)
    ensures Pow(1, e) == 1
  {
    if e > 0 {
      PowOfOne(e - 1);
    }
  }

  /** Fermat's little theorem for every integer. */
  lemma Fermat(a: int, p: int)
    requires IsPrime(p)
    ensures Pow(a, p) % p == a % p
  {
    ModMod(a, p);
    ModPow(a, a % p, p, p);
    FermatNat(a % p, p);
  }

  lemma CancelUnit(a: int, e: int, p: int)
    requires IsPrime(p) && a % p != 0 && (a * e) % p == a % p
    ensures e % p == 1
  {
    ModDifference(a * e, a, p);
    assert a * e - a == a * (e - 1);
    Euclid(p, a, e - 1);
    ModDifference(e, 1, p);
    DivModUnique(1, p, 0, 1);
  }

  lemma FermatUnit(a: int, p: int)
    requires IsPrime(p) && a % p != 0
    ensures Pow(a, p - 1) % p == 1
  {
    Fermat(a, p);
    CancelUnit(a, Pow(a, p - 1), p);
  }

  function Inverse(a: int, p: int): int
    requires p >= 2
  {
    Pow(a, p - 2) % p
  }

  lemma InverseIsInverse(a: int, p: int)
    requires IsPrime(p) && a % p != 0
    ensures (a * Inverse(a, p)) % p == 1
  {
    FermatUnit(a, p);
    assert Pow(a, p - 1) == a * Pow(a, p - 2);
    ModMod(Pow(a, p - 2), p);
    ModMul(a, Inverse(a, p), a, Pow(a, p - 2), p);
  }

  lemma {:induction false} PowOfUnit(a: int, e: nat, p: int)
    requires IsPrime(p) && a % p != 0
    ensures Pow(a, e) % p != 0
  {
    if e > 0 {
      PowOfUnit(a, e - 1, p);
      if (a * Pow(a, e - 1)) % p == 0 {
        Euclid(p, a, Pow(a, e - 1));
      }
    }
  }

  lemma LegendreCongruent(z: int, z': int, p: int)
    requires p > 2 && z % p == z' % p
    ensures Legendre(z, p) == Legendre(z', p)
  {
    ModPow(z, z', (p - 1) / 2, p);
  }

  /** The symbol is 0 exactly on multiples of p, and on every other z Euler's power is 1 or -1. */
  lemma EulerPower(z: int, p: int)
    requires OddPrime(p)
    ensures Legendre(z, p) == 0 <==> z % p == 0
    ensures z % p != 0 ==> Pow(z, (p - 1) / 2) % p == if Legendre(z, p) == 1 then 1 else p - 1
  {
    if z % p == 0 {
      PowOfZeroResidue(z, (p - 1) / 2, p);
    } else {
      PowOfUnit(z, (p - 1) / 2, p);
      HalfPowerIsSign(z, p);
    }
  }

  lemma PowOfZeroResidue(z: int, e: nat, p: int)
    requires p > 0 && z % p == 0 && e > 0
    ensures Pow(z, e) % p == 0
  {
    ModMul(z, Pow(z, e - 1), 0, Pow(z, e - 1), p);
  }

  lemma HalfPowerIsSign(z: int, p: int)
    requires OddPrime(p) && z % p != 0
    ensures Pow(z, (p - 1) / 2) % p == 1 || Pow(z, (p - 1) / 2) % p == p - 1
  {
    var h := (p - 1) / 2;
    FermatUnit(z, p);
    PowAdd(z, h, h);
    assert h + h == p - 1;
    SquareRootOfOne(Pow(z, h), p);
  }

  lemma SquareRootOfOne(e: int, p: int)
    requires IsPrime(p) && (e * e) % p == 1
    ensures e % p == 1 || e % p == p - 1
  {
    DivModUnique(1, p, 0, 1);
    EqualSquares(p, e, 1);
    MinusOne(p);
  }

  lemma MinusOne(p: int)
    requires p >= 2
    ensures (-1) % p == p - 1
  {
    DivModUnique(-1, p, -1, p - 1);
  }

  lemma LegendreOfSquare(y: int, p: int)
    requires OddPrime(p) && y % p != 0
    ensures Legendre(y * y, p) == 1
  {
    var h := (p - 1) / 2;
    PowDouble(y, h);
    FermatUnit(y, p);
    assert 2 * h == p - 1;
  }

  ghost predicate NonzeroSquare(z: int, p: int)
    requires p > 0
  {
    exists y :: y % p != 0 && (y * y) % p == z % p
  }

  /** For p = 3 modulo 4 the power (p+1)/4 of a residue is one of its square roots. */
  lemma QuarterPowerIsRoot(z: int, p: int)
    requires OddPrime(p) && p % 4 == 3 && Legendre(z, p) == 1
    ensures var y := Pow(z, (p + 1) / 4); y % p != 0 && (y * y) % p == z % p
  {
    var q := (p + 1) / 4;
    EulerPower(z, p);
    PowOfUnit(z, q, p);
    PowAdd(z, q, q);
    assert q + q == (p - 1) / 2 + 1;
    TimesOne(z, Pow(z, (p - 1) / 2), p);
  }

  lemma TimesOne(z: int, e: int, p: int)
    requires p > 1 && e % p == 1
    ensures (z * e) % p == z % p
  {
    DivModUnique(1, p, 0, 1);
    ModMul(z, e, z, 1, p);
  }

  /** For p = 3 modulo 4, Euler's symbol is 1 exactly on the nonzero squares. */
  lemma LegendreIsSquareTest(z: int, p: int)
    requires OddPrime(p) && p % 4 == 3
    ensures Legendre(z, p) == 1 <==> NonzeroSquare(z, p)
  {
    if Legendre(z, p) == 1 {
      QuarterPowerIsRoot(z, p);
    } else if NonzeroSquare(z, p) {
      var y :| y % p != 0 && (y * y) % p == z % p;
      LegendreOfSquare(y, p);
      LegendreCongruent(y * y, z, p);
    }
  }

  lemma {:induction false} PowOfMinusOne(e: nat)
    ensures Pow(-1, e) == if e % 2 == 0 then 1 else -1
  {
    if e > 0 {
      PowOfMinusOne(e - 1);
    }
  }

  /** Negating a nonzero square leaves the squares exactly when p = 3 modulo 4. */
  lemma NegatedSquare(n: int, p: int)
    requires OddPrime(p) && Legendre(n, p) == 1
    ensures Legendre(-n, p) == if p % 4 == 3 then -1 else 1
  {
    var h := (p - 1) / 2;
    assert (-1) * n == -n;
    PowDistributes(-1, n, h);
    PowOfMinusOne(h);
    TimesOne(Pow(-1, h), Pow(n, h), p);
    MinusOne(p);
    DivModUnique(1, p, 0, 1);
  }

  /** Without a non-residue: a power (p+1)/2 of a + w whose imaginary part vanishes is a root of n. */
  lemma RealHalfPowerIsRoot(a: int, n: int, neg: int, p: int)
    requires OddPrime(p) && Legendre(n, p) == 1 && neg % p == (a * a - n) % p
    requires Power(Complex(a, 1), (p + 1) / 2, neg).im % p == 0
    ensures var re := Power(Complex(a, 1), (p + 1) / 2, neg).re; (re * re) % p == n % p
  {
    var h := Power(Complex(a, 1), (p + 1) / 2, neg);
    NormOfPower(Complex(a, 1), (p + 1) / 2, neg);
    assert Norm(Complex(a, 1), neg) == a * a - neg;
    ModAdd(a * a, neg, a * a, a * a - n, p);
    ModPow(a * a - neg, n, (p + 1) / 2, p);
    assert Pow(n, (p + 1) / 2) == n * Pow(n, (p - 1) / 2);
    ModMul(n, Pow(n, (p - 1) / 2), n, 1, p);
    assert Norm(h, neg) % p == n % p;
    NormCongruent(h, Complex(h.re, 0), neg, p);
    assert Norm(Complex(h.re, 0), neg) == h.re * h.re;
  }

  /** Frobenius conjugates a + w when neg is a non-residue. */
  lemma PrimePowerConjugates(a: int, neg: int, p: int)
    requires OddPrime(p) && Legendre(neg, p) == -1
    ensures Reduce(Power(Complex(a, 1), p, neg), p) == Reduce(Conjugate(Complex(a, 1)), p)
  {
    var h := (p - 1) / 2;
    Frobenius(Complex(a, 0), Complex(0, 1), p, neg);
    assert Add(Complex(a, 0), Complex(0, 1)) == Complex(a, 1);
    PowerOfReal(a, p, neg);
    PowerOfOmega(h, neg);
    assert 2 * h + 1 == p;
    Fermat(a, p);
    EulerPower(neg, p);
    MinusOne(p);
  }

  lemma FullPowerIsNorm(a: int, n: int, neg: int, p: int)
    requires OddPrime(p) && Legendre(neg, p) == -1 && neg % p == (a * a - n) % p
    ensures Reduce(Power(Complex(a, 1), p + 1, neg), p) == Reduce(Complex(n, 0), p)
  {
    var x := Complex(a, 1);
    PrimePowerConjugates(a, neg, p);
    ReduceCongruent(x, x, Power(x, p, neg), Conjugate(x), neg, p);
    assert Power(x, p + 1, neg) == Mul(x, Power(x, p, neg), neg);
    assert Mul(x, Conjugate(x), neg) == Complex(a * a - neg, 0);
    ModAdd(a * a, neg, a * a, a * a - n, p);
  }

  /** A square u + v*w that is a real nonzero square cannot have v != 0 when neg is a non-residue. */
  lemma RootIsReal(u: int, v: int, n: int, neg: int, p: int)
    requires OddPrime(p) && Legendre(n, p) == 1 && Legendre(neg, p) == -1
    requires (u * u + v * v * neg) % p == n % p && (u * v + u * v) % p == 0
    ensures v % p == 0
  {
    assert u * v + u * v == 2 * (u * v);
    Euclid(p, 2, u * v);
    DivModUnique(2, p, 0, 2);
    Euclid(p, u, v);
    if u % p == 0 && v % p != 0 {
      ModMul(u, u, 0, u, p);
      ModAdd(u * u, v * v * neg, 0, v * v * neg, p);
      LegendreCongruent(v * v * neg, n, p);
      LegendreTimesSquare(v, neg, p);
    }
  }

  lemma LegendreTimesSquare(v: int, z: int, p: int)
    requires OddPrime(p) && v % p != 0
    ensures Legendre(v * v * z, p) == Legendre(z, p)
  {
    var h := (p - 1) / 2;
    LegendreOfSquare(v, p);
    PowDistributes(v * v, z, h);
    ModMul(Pow(v * v, h), Pow(z, h), 1, Pow(z, h), p);
  }

  /** Cipolla's algorithm, for every odd prime, every residue n and every a with a*a - n a non-residue. */
  lemma Cipolla(a: int, n: int, neg: int, p: int)
    requires OddPrime(p) && Legendre(n, p) == 1
    requires neg % p == (a * a - n) % p && Legendre(neg, p) == -1
    ensures var h := Power(Complex(a, 1), (p + 1) / 2, neg); h.im % p == 0 && (h.re * h.re) % p == n % p
  {
    var x, e := Complex(a, 1), (p + 1) / 2;
    var h := Power(x, e, neg);
    FullPowerIsNorm(a, n, neg, p);
    PowerAdd(x, e, e, neg);
    assert e + e == p + 1;
    assert Mul(h, h, neg) == Power(x, p + 1, neg);
    RootIsReal(h.re, h.im, n, neg, p);
    RealHalfPowerIsRoot(a, n, neg, p);
  }
}
