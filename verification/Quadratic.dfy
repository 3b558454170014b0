/** The ring F_p[w] with w * w == neg in which the square root is computed.
    Proofs run in Z[w], where every law is an identity between integer polynomials, and reduce modulo p at the end. */
module Quadratic {
  import opened Congruence

  datatype Complex = Complex(re: int, im: int)

  const ONE := Complex(1, 0)

  /** The product as the code computes it: one reduction after each field operation. */
  function ComplexCurveMul(x: Complex, y: Complex, neg: int, p: int): Complex
    requires p > 0
  {
    Complex(((x.re * y.re) % p + (((y.im * neg) % p) * x.im) % p) % p,
            ((x.re * y.im) % p + (y.re * x.im) % p) % p)
  }

  function Reduce(x: Complex, p: int): Complex
    requires p > 0
  {
    Complex(x.re % p, x.im % p)
  }

  /** The product in Z[w], before any reduction. */
  function Mul(x: Complex, y: Complex, neg: int): Complex {
    Complex(x.re * y.re + x.im * y.im * neg, x.re * y.im + y.re * x.im)
  }

  function Add(x: Complex, y: Complex): Complex {
    Complex(x.re + y.re, x.im + y.im)
  }

  function Scale(c: int, x: Complex): Complex {
    Complex(c * x.re, c * x.im)
  }

  function Power(x: Complex, e: nat, neg: int): Complex {
    if e == 0 then ONE else Mul(x, Power(x, e - 1, neg), neg)
  }

  function Norm(x: Complex, neg: int): int {
    x.re * x.re - neg * (x.im * x.im)
  }

  function Conjugate(x: Complex): Complex {
    Complex(x.re, -x.im)
  }

  lemma ReducedProduct(x: Complex, y: Complex, neg: int, p: int)
    requires p > 0
    ensures ComplexCurveMul(x, y, neg, p) == Reduce(Mul(x, y, neg), p)
  {
    var (a1, b1, a2, b2) := (x.re, x.im, y.re, y.im);
    ModMod(b2 * neg, p);
    ModMul((b2 * neg) % p, b1, b2 * neg, b1, p);
    assert (b2 * neg) * b1 == b1 * b2 * neg;
    ModMod(a1 * a2, p);
    ModMod(((b2 * neg) % p) * b1, p);
    ModAdd((a1 * a2) % p, (((b2 * neg) % p) * b1) % p, a1 * a2, b1 * b2 * neg, p);
    ModMod(a1 * b2, p);
    ModMod(a2 * b1, p);
    ModAdd((a1 * b2) % p, (a2 * b1) % p, a1 * b2, a2 * b1, p);
  }

  lemma ReduceCongruent(x: Complex, x': Complex, y: Complex, y': Complex, neg: int, p: int)
    requires p > 0 && Reduce(x, p) == Reduce(x', p) && Reduce(y, p) == Reduce(y', p)
    ensures Reduce(Mul(x, y, neg), p) == Reduce(Mul(x', y', neg), p)
  {
    ModMul(x.re, y.re, x'.re, y'.re, p);
    ModMul(x.im, y.im, x'.im, y'.im, p);
    ModMul(x.im * y.im, neg, x'.im * y'.im, neg, p);
    ModAdd(x.re * y.re, x.im * y.im * neg, x'.re * y'.re, x'.im * y'.im * neg, p);
    ModMul(x.re, y.im, x'.re, y'.im, p);
    ModMul(y.re, x.im, y'.re, x'.im, p);
    ModAdd(x.re * y.im, y.re * x.im, x'.re * y'.im, y'.re * x'.im, p);
  }

  lemma ReduceIdempotent(x: Complex, p: int)
    requires p > 0
    ensures Reduce(Reduce(x, p), p) == Reduce(x, p)
  {
  }

  lemma Assoc(x: Complex, y: Complex, z: Complex, neg: int)
    ensures Mul(Mul(x, y, neg), z, neg) == Mul(x, Mul(y, z, neg), neg)
  {
    AssocRe(x.re, x.im, y.re, y.im, z.re, z.im, neg);
    AssocIm(x.re, x.im, y.re, y.im, z.re, z.im, neg);
  }

  lemma AssocRe(a: int, b: int, c: int, d: int, e: int, f: int, neg: int)
    ensures (a * c + b * d * neg) * e + (a * d + c * b) * f * neg
         == a * (c * e + d * f * neg) + b * (c * f + e * d) * neg
  {
    assert (a * c + b * d * neg) * e == (a * c) * e + (b * d * neg) * e;
    assert ((a * d + c * b) * f) * neg == ((a * d) * f) * neg + ((c * b) * f) * neg;
    assert a * (c * e + d * f * neg) == a * (c * e) + a * (d * f * neg);
    assert (b * (c * f + e * d)) * neg == (b * (c * f)) * neg + (b * (e * d)) * neg;
  }

  lemma AssocIm(a: int, b: int, c: int, d: int, e: int, f: int, neg: int)
    ensures (a * c + b * d * neg) * f + e * (a * d + c * b)
         == a * (c * f + e * d) + (c * e + d * f * neg) * b
  {
    assert (a * c + b * d * neg) * f == (a * c) * f + (b * d * neg) * f;
    assert (c * e + d * f * neg) * b == (c * e) * b + (d * f * neg) * b;
    assert e * (a * d + c * b) == e * (a * d) + e * (c * b);
    assert a * (c * f + e * d) == a * (c * f) + a * (e * d);
  }

  lemma Comm(x: Complex, y: Complex, neg: int)
    ensures Mul(x, y, neg) == Mul(y, x, neg)
  {
  }

  lemma Distributes(x: Complex, y: Complex, z: Complex, neg: int)
    ensures Mul(x, Add(y, z), neg) == Add(Mul(x, y, neg), Mul(x, z, neg))
    ensures Mul(Add(y, z), x, neg) == Add(Mul(y, x, neg), Mul(z, x, neg))
  {
    var (a, b, c, d, e, f) := (x.re, x.im, y.re, y.im, z.re, z.im);
    assert b * (d + f) * neg == b * d * neg + b * f * neg;
    assert (d + f) * b * neg == d * b * neg + f * b * neg;
  }

  lemma ScalePulls(c: int, x: Complex, y: Complex, neg: int)
    ensures Mul(x, Scale(c, y), neg) == Scale(c, Mul(x, y, neg))
  {
    var (a, b, d, e) := (x.re, x.im, y.re, y.im);
    assert a * (c * d) == c * (a * d);
    assert b * (c * e) * neg == c * (b * e * neg);
    assert a * (c * e) == c * (a * e);
    assert (c * d) * b == c * (d * b);
  }

  /** The code's product is a commutative, associative product with unit 1 on reduced elements. */
  lemma CurveMulIsCommutativeRing(x: Complex, y: Complex, z: Complex, neg: int, p: int)
    requires p > 1
    ensures ComplexCurveMul(x, y, neg, p) == ComplexCurveMul(y, x, neg, p)
    ensures ComplexCurveMul(ComplexCurveMul(x, y, neg, p), z, neg, p)
         == ComplexCurveMul(x, ComplexCurveMul(y, z, neg, p), neg, p)
    ensures ComplexCurveMul(ONE, x, neg, p) == Reduce(x, p)
  {
    ReducedProduct(x, y, neg, p);
    ReducedProduct(y, x, neg, p);
    Comm(x, y, neg);
    ReducedProduct(y, z, neg, p);
    ReducedProduct(Reduce(Mul(x, y, neg), p), z, neg, p);
    ReducedProduct(x, Reduce(Mul(y, z, neg), p), neg, p);
    ReduceIdempotent(Mul(x, y, neg), p);
    ReduceIdempotent(Mul(y, z, neg), p);
    ReduceCongruent(Reduce(Mul(x, y, neg), p), Mul(x, y, neg), z, z, neg, p);
    ReduceCongruent(x, x, Reduce(Mul(y, z, neg), p), Mul(y, z, neg), neg, p);
    Assoc(x, y, z, neg);
    ReducedProduct(ONE, x, neg, p);
  }

  lemma SquareOfSum(u: int, v: int)
    ensures (u + v) * (u + v) == u * u + 2 * (u * v) + v * v
  {
  }

  /** Brahmagupta's identity. */
  lemma NormMultiplicative(x: Complex, y: Complex, neg: int)
    ensures Norm(Mul(x, y, neg), neg) == Norm(x, neg) * Norm(y, neg)
  {
    var (a, b, c, d) := (x.re, x.im, y.re, y.im);
    NormSquares(a * c, b * d, a * d, c * b, neg) by { CrossTerms(a, b, c, d); }
    CrossTerms(a, b, c, d);
    NormProduct(a * a, b * b, c * c, d * d, neg);
  }

  lemma CrossTerms(a: int, b: int, c: int, d: int)
    ensures (a * c) * (b * d) == (a * d) * (c * b)
    ensures (a * c) * (a * c) == (a * a) * (c * c) && (b * d) * (b * d) == (b * b) * (d * d)
    ensures (a * d) * (a * d) == (a * a) * (d * d) && (c * b) * (c * b) == (b * b) * (c * c)
  {
    Interchange(a, c, b, d);
    Interchange(a, d, b, c);
    assert c * d == d * c && c * b == b * c;
    Interchange(a, c, a, c);
    Interchange(b, d, b, d);
    Interchange(a, d, a, d);
    Interchange(b, c, b, c);
  }

  lemma NormSquares(ac: int, bd: int, ad: int, cb: int, neg: int)
    requires ac * bd == ad * cb
    ensures (ac + bd * neg) * (ac + bd * neg) - neg * ((ad + cb) * (ad + cb))
         == ac * ac - neg * (ad * ad) - neg * (cb * cb) + neg * neg * (bd * bd)
  {
    SquareOfSum(ac, bd * neg);
    SquareOfSum(ad, cb);
    assert ac * (bd * neg) == neg * (ac * bd);
    assert (bd * neg) * (bd * neg) == neg * neg * (bd * bd);
    NormSides(ac * ac, bd * bd, ad * ad, cb * cb, ad * cb, neg);
  }

  lemma NormProduct(a: int, b: int, c: int, d: int, neg: int)
    ensures (a - neg * b) * (c - neg * d) == a * c - neg * (a * d) - neg * (b * c) + neg * neg * (b * d)
  {
    var u, v := neg * b, neg * d;
    assert (a - u) * (c - v) == a * c - a * v - u * c + u * v;
    assert a * (neg * d) == neg * (a * d) && (neg * b) * c == neg * (b * c);
    assert (neg * b) * (neg * d) == neg * neg * (b * d);
  }

  lemma NormSides(s: int, t: int, u: int, v: int, m: int, neg: int)
    ensures s + 2 * (neg * m) + neg * neg * t - neg * (u + 2 * m + v) == s - neg * u - neg * v + neg * neg * t
  {
  }

  lemma {:induction false} NormOfPower(x: Complex, e: nat, neg: int)
    ensures Norm(Power(x, e, neg), neg) == Pow(Norm(x, neg), e)
  {
    if e == 0 {
    } else {
      NormOfPower(x, e - 1, neg);
      NormMultiplicative(x, Power(x, e - 1, neg), neg);
    }
  }

  /** The norm the code's product computes is the product of the norms, modulo p. */
  lemma CurveMulNorm(x: Complex, y: Complex, neg: int, p: int)
    requires p > 0
    ensures Norm(ComplexCurveMul(x, y, neg, p), neg) % p == (Norm(x, neg) * Norm(y, neg)) % p
  {
    NormMultiplicative(x, y, neg);
    ReducedProduct(x, y, neg, p);
    NormOfReduced(ComplexCurveMul(x, y, neg, p), Mul(x, y, neg), neg, p);
  }

  lemma NormOfReduced(z': Complex, z: Complex, neg: int, p: int)
    requires p > 0 && z' == Reduce(z, p)
    ensures Norm(z', neg) % p == Norm(z, neg) % p
  {
    ModMod(z.re, p);
    ModMod(z.im, p);
    NormCongruent(z, z', neg, p);
  }

  lemma NormCongruent(x: Complex, x': Complex, neg: int, p: int)
    requires p > 0 && x.re % p == x'.re % p && x.im % p == x'.im % p
    ensures Norm(x, neg) % p == Norm(x', neg) % p
  {
    ModMul(x.re, x.re, x'.re, x'.re, p);
    ModMul(x.im, x.im, x'.im, x'.im, p);
    ModMul(neg, x.im * x.im, neg, x'.im * x'.im, p);
    ModAdd(x.re * x.re, neg * (x.im * x.im), x'.re * x'.re, neg * (x'.im * x'.im), p);
  }

  lemma {:induction false} PowerAdd(x: Complex, e: nat, f: nat, neg: int)
    ensures Power(x, e + f, neg) == Mul(Power(x, e, neg), Power(x, f, neg), neg)
  {
    if e == 0 {
    } else {
      PowerAdd(x, e - 1, f, neg);
      Assoc(x, Power(x, e - 1, neg), Power(x, f, neg), neg);
      assert e + f - 1 == e - 1 + f;
    }
  }

  /** Squaring the base halves the exponent. */
  lemma {:induction false} PowerOfSquare(x: Complex, e: nat, neg: int)
    ensures Power(Mul(x, x, neg), e, neg) == Power(x, 2 * e, neg)
  {
    if e == 0 {
    } else {
      PowerOfSquare(x, e - 1, neg);
      Assoc(x, x, Power(x, 2 * e - 2, neg), neg);
      assert 2 * (e - 1) == 2 * e - 2;
      assert Power(x, 2 * e, neg) == Mul(x, Power(x, 2 * e - 1, neg), neg);
      assert Power(x, 2 * e - 1, neg) == Mul(x, Power(x, 2 * e - 2, neg), neg);
    }
  }

  lemma {:induction false} PowerCongruent(x: Complex, x': Complex, e: nat, neg: int, p: int)
    requires p > 0 && Reduce(x, p) == Reduce(x', p)
    ensures Reduce(Power(x, e, neg), p) == Reduce(Power(x', e, neg), p)
  {
    if e == 0 {
    } else {
      PowerCongruent(x, x', e - 1, neg, p);
      ReduceCongruent(x, x', Power(x, e - 1, neg), Power(x', e - 1, neg), neg, p);
    }
  }

  lemma {:induction false} PowerOfReal(a: int, e: nat, neg: int)
    ensures Power(Complex(a, 0), e, neg) == Complex(Pow(a, e), 0)
  {
    if e == 0 {
    } else {
      PowerOfReal(a, e - 1, neg);
    }
  }

  /** Even powers of w are powers of neg; odd powers are those times w. */
  lemma {:induction false} PowerOfOmega(k: nat, neg: int)
    ensures Power(Complex(0, 1), 2 * k, neg) == Complex(Pow(neg, k), 0)
    ensures Power(Complex(0, 1), 2 * k + 1, neg) == Complex(0, Pow(neg, k))
  {
    PowerOfSquare(Complex(0, 1), k, neg);
    assert Mul(Complex(0, 1), Complex(0, 1), neg) == Complex(neg, 0);
    PowerOfReal(neg, k, neg);
    var w := Complex(0, 1);
    assert Power(w, 2 * k + 1, neg) == Mul(w, Power(w, 2 * k, neg), neg);
  }

  // ----- binomial theorem and its collapse at a prime exponent

  function Choose(n: nat, k: nat): nat {
    if k == 0 then 1 else if n == 0 then 0 else Choose(n - 1, k - 1) + Choose(n - 1, k)
  }

  lemma {:induction false} ChooseEnd(n: nat, k: nat)
    requires k >= n
    ensures Choose(n, k) == if k == n then 1 else 0
  {
    if n == 0 {
    } else {
      ChooseEnd(n - 1, k - 1);
      ChooseEnd(n - 1, k);
    }
  }

  lemma AbsorbStep(n: int, k: int, u: int, v: int, s: int, t: int)
    requires u == s + t && (k - 1) * u == (n - 1) * s && k * v == (n - 1) * t
    ensures k * (u + v) == n * u
  {
    assert k * (u + v) == u + (k - 1) * u + k * v;
    assert (n - 1) * u == (n - 1) * s + (n - 1) * t;
  }

  lemma {:induction false} ChooseAbsorbs(n: nat, k: nat)
    requires n >= 1 && k >= 1
    ensures k * Choose(n, k) == n * Choose(n - 1, k - 1)
  {
    if n == 1 {
      ChooseEnd(1, k);
      ChooseEnd(0, k - 1);
    } else {
      ChooseAbsorbs(n - 1, k);
      var u, v := Choose(n - 1, k - 1), Choose(n - 1, k);
      if k == 1 {
        assert Choose(n - 1, 0) == 1 && Choose(n - 2, 0) == 1;
      } else {
        ChooseAbsorbs(n - 1, k - 1);
        var s, t := Choose(n - 2, k - 2), Choose(n - 2, k - 1);
        AbsorbStep(n, k, u, v, s, t);
      }
    }
  }

  lemma PrimeDividesChoose(p: int, k: nat)
    requires IsPrime(p) && 0 < k < p
    ensures Choose(p, k) % p == 0
  {
    ChooseAbsorbs(p, k);
    ModOfMultiple(Choose(p - 1, k - 1), p);
    EuclidBelow(p, k, Choose(p, k));
  }

  function Monomial(x: Complex, y: Complex, n: nat, k: nat, neg: int): Complex
    requires k <= n
  {
    Mul(Power(x, k, neg), Power(y, n - k, neg), neg)
  }

  /** The first k + 1 terms of the expansion of (x + y)^n. */
  function Expansion(x: Complex, y: Complex, n: nat, k: nat, neg: int): Complex
    requires k <= n
  {
    var t := Scale(Choose(n, k), Monomial(x, y, n, k, neg));
    if k == 0 then t else Add(Expansion(x, y, n, k - 1, neg), t)
  }

  lemma MonomialStep(x: Complex, y: Complex, n: nat, k: nat, neg: int)
    requires k <= n
    ensures Mul(x, Monomial(x, y, n, k, neg), neg) == Monomial(x, y, n + 1, k + 1, neg)
    ensures Mul(y, Monomial(x, y, n, k, neg), neg) == Monomial(x, y, n + 1, k, neg)
  {
    var u, v := Power(x, k, neg), Power(y, n - k, neg);
    Assoc(x, u, v, neg);
    assert Power(x, k + 1, neg) == Mul(x, u, neg);
    Assoc(y, u, v, neg);
    Comm(y, u, neg);
    Assoc(u, y, v, neg);
    assert Power(y, n + 1 - k, neg) == Mul(y, v, neg);
  }

  /** (x + y) times one term gives two neighbouring monomials with the same coefficient. */
  lemma TermStep(x: Complex, y: Complex, n: nat, k: nat, neg: int)
    requires k <= n
    ensures Mul(Add(x, y), Scale(Choose(n, k), Monomial(x, y, n, k, neg)), neg)
         == Add(Scale(Choose(n, k), Monomial(x, y, n + 1, k + 1, neg)), Scale(Choose(n, k), Monomial(x, y, n + 1, k, neg)))
  {
    var c, t := Choose(n, k), Monomial(x, y, n, k, neg);
    MonomialStep(x, y, n, k, neg);
    ScalePulls(c, x, t, neg);
    ScalePulls(c, y, t, neg);
    Distributes(Scale(c, t), x, y, neg);
  }

  lemma ScaleSum(c: int, d: int, x: Complex)
    ensures Scale(c + d, x) == Add(Scale(c, x), Scale(d, x))
  {
  }

  lemma {:induction false} ExpansionStep(x: Complex, y: Complex, n: nat, k: nat, neg: int)
    requires k <= n
    ensures Mul(Add(x, y), Expansion(x, y, n, k, neg), neg)
         == Add(Expansion(x, y, n + 1, k, neg), Scale(Choose(n, k), Monomial(x, y, n + 1, k + 1, neg)))
  {
    TermStep(x, y, n, k, neg);
    if k == 0 {
      assert Choose(n + 1, 0) == 1;
    } else {
      ExpansionStep(x, y, n, k - 1, neg);
      Distributes(Add(x, y), Expansion(x, y, n, k - 1, neg), Scale(Choose(n, k), Monomial(x, y, n, k, neg)), neg);
      ScaleSum(Choose(n, k - 1), Choose(n, k), Monomial(x, y, n + 1, k, neg));
      assert Choose(n + 1, k) == Choose(n, k - 1) + Choose(n, k);
    }
  }

  lemma {:induction false} Binomial(x: Complex, y: Complex, n: nat, neg: int)
    ensures Power(Add(x, y), n, neg) == Expansion(x, y, n, n, neg)
  {
    if n == 0 {
      assert Monomial(x, y, 0, 0, neg) == ONE;
    } else {
      Binomial(x, y, n - 1, neg);
      ExpansionStep(x, y, n - 1, n - 1, neg);
      ChooseEnd(n, n);
      ChooseEnd(n - 1, n - 1);
    }
  }

  lemma {:induction false} MiddleTermsVanish(x: Complex, y: Complex, p: int, k: nat, neg: int)
    requires IsPrime(p) && k < p
    ensures Reduce(Expansion(x, y, p, k, neg), p) == Reduce(Power(y, p, neg), p)
  {
    var m := Monomial(x, y, p, k, neg);
    if k == 0 {
    } else {
      MiddleTermsVanish(x, y, p, k - 1, neg);
      PrimeDividesChoose(p, k);
      ModMul(Choose(p, k), m.re, 0, m.re, p);
      ModMul(Choose(p, k), m.im, 0, m.im, p);
      var e := Expansion(x, y, p, k - 1, neg);
      ModAdd(e.re, Choose(p, k) * m.re, e.re, 0, p);
      ModAdd(e.im, Choose(p, k) * m.im, e.im, 0, p);
    }
  }

  /** Raising to a prime power is additive modulo that prime. */
  lemma Frobenius(x: Complex, y: Complex, p: int, neg: int)
    requires IsPrime(p)
    ensures Reduce(Power(Add(x, y), p, neg), p) == Reduce(Add(Power(x, p, neg), Power(y, p, neg)), p)
  {
    Binomial(x, y, p, neg);
    ChooseEnd(p, p);
    MiddleTermsVanish(x, y, p, p - 1, neg);
    var e, u, v := Expansion(x, y, p, p - 1, neg), Power(x, p, neg), Power(y, p, neg);
    assert Expansion(x, y, p, p, neg) == Add(e, Scale(1, Mul(u, ONE, neg)));
    assert Scale(1, Mul(u, ONE, neg)) == u;
    ModAdd(e.re, u.re, v.re, u.re, p);
    ModAdd(e.im, u.im, v.im, u.im, p);
  }
}
