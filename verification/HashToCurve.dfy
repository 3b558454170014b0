/** rpbs/types.go: hashing a 32-byte digest to a point of y^2 = x^3 + 3.
    Field elements and big integers that the code updates through pointers are objects here, so that the
    alias between the search variable a and the constant zero is the program's own. */
module HashToCurve {
  import opened Congruence
  import opened Quadratic
  import opened Residues

  /** The field modulus of the curve EIP-196 calls alt_bn128. */
  const FIELD_MODULUS := 21888242871839275222246405745257275088696311157297823662689037894645226208583

  class Element {
    var v: int

    constructor (v: int)
      ensures this.v == v
    {
      this.v := v;
    }
  }

  class BigInt {
    var v: int

    constructor (v: int)
      ensures this.v == v
    {
      this.v := v;
    }
  }

  datatype Affine = Affine(x: int, y: int)

  datatype PointError = InvalidComplexExponent | PointConversionFailed

  datatype PointResult = Ok(point: Affine) | Err(error: PointError)

  // ----- square and multiply

  /** The part of the exponent the loop has consumed when the rest becomes a multiple of p. */
  ghost function ReadPart(n: nat, p: int): nat
    requires p > 1
  {
    if n % p == 0 then 0 else n % 2 + 2 * ReadPart(n / 2, p)
  }

  ghost function Unread(n: nat, p: int): nat
    requires p > 1
  {
    if n % p == 0 then n else Unread(n / 2, p)
  }

  lemma {:induction false} SmallExponentIsRead(n: nat, p: int)
    requires p > 1 && n < p
    ensures ReadPart(n, p) == n && Unread(n, p) == 0
  {
    DivModUnique(n, p, 0, n);
    if n > 0 {
      SmallExponentIsRead(n / 2, p);
    }
  }

  ghost predicate NoShiftIsNonzeroMultiple(n: nat, p: int)
    requires p > 1
  {
    forall j: nat :: Shift(n, j) % p == 0 ==> Shift(n, j) == 0
  }

  /** The loop reads the whole exponent exactly when no right shift of it is a nonzero multiple of p. */
  lemma WholeExponentIsRead(n: nat, p: int)
    requires p > 1
    ensures ReadPart(n, p) == n <==> NoShiftIsNonzeroMultiple(n, p)
  {
    ReadPartIsWhole(n, p);
    UnreadIsZero(n, p);
  }

  lemma {:induction false} ReadPartIsWhole(n: nat, p: int)
    requires p > 1
    ensures ReadPart(n, p) == n <==> Unread(n, p) == 0
    ensures ReadPart(n, p) <= n
  {
    if n % p != 0 {
      ReadPartIsWhole(n / 2, p);
    }
  }

  lemma {:induction false} UnreadIsZero(n: nat, p: int)
    requires p > 1
    ensures Unread(n, p) == 0 <==> NoShiftIsNonzeroMultiple(n, p)
  {
    assert Shift(n, 0) == n;
    if n == 0 {
      forall j: nat ensures Shift(n, j) == 0 { ShiftOfZero(j); }
    } else if n % p != 0 {
      UnreadIsZero(n / 2, p);
      forall j: nat ensures Shift(n, j + 1) == Shift(n / 2, j) {}
      if NoShiftIsNonzeroMultiple(n / 2, p) {
        forall j: nat | Shift(n, j) % p == 0 ensures Shift(n, j) == 0 {
          if j > 0 {
            assert Shift(n, j) == Shift(n / 2, j - 1);
          }
        }
      }
    }
  }

  ghost function Shift(n: nat, j: nat): nat {
    if j == 0 then n else Shift(n / 2, j - 1)
  }

  lemma {:induction false} ShiftOfZero(j: nat)
    ensures Shift(0, j) == 0
  {
    if j > 0 {
      ShiftOfZero(j - 1);
    }
  }

  lemma {:induction false} ShiftDivides(n: nat, j: nat)
    ensures Pow(2, j) > 0 && Shift(n, j) == n / Pow(2, j)
  {
    if j > 0 {
      ShiftDivides(n / 2, j - 1);
      var d := Pow(2, j - 1);
      HalveThenDivide(n, d);
    }
  }

  lemma HalveThenDivide(n: nat, d: nat)
    requires d > 0
    ensures (n / 2) / d == n / (2 * d)
  {
    var q, r := (n / 2) / d, (n / 2) % d;
    assert n == 2 * (q * d + r) + n % 2;
    assert 2 * (q * d) == q * (2 * d);
    DivModUnique(n, 2 * d, q, 2 * r + n % 2);
  }

  /** In general the loop stops at the first right shift that is a multiple of p, having read the bits shifted out. */
  lemma {:induction false} ReadsUpToFirstMultiple(n: nat, p: int) returns (j: nat)
    requires p > 1
    ensures Unread(n, p) == Shift(n, j) && Shift(n, j) % p == 0 && forall i: nat :: i < j ==> Shift(n, i) % p != 0
    ensures n == ReadPart(n, p) + Pow(2, j) * Shift(n, j)
  {
    if n % p == 0 {
      j := 0;
    } else {
      var k := ReadsUpToFirstMultiple(n / 2, p);
      j := k + 1;
      forall i: nat | i < j ensures Shift(n, i) % p != 0 {
        if i > 0 {
          assert Shift(n, i) == Shift(n / 2, i - 1);
        }
      }
      assert Pow(2, j) * Shift(n, j) == 2 * (Pow(2, k) * Shift(n / 2, k));
    }
  }

  /** The product still to come: what result * b^rest will be once the loop is done. */
  ghost function Pending(result: Complex, b: Complex, rest: nat, neg: int, p: int): Complex
    requires p > 1
  {
    Reduce(Mul(result, Power(b, rest, neg), neg), p)
  }

  lemma PendingEnds(x: Complex, b: Complex, e: nat, neg: int, p: int)
    requires p > 1
    ensures Pending(ONE, b, e, neg, p) == Reduce(Power(b, e, neg), p)
    ensures Pending(x, b, 0, neg, p) == Reduce(x, p)
  {
    UnitLaws(Power(b, e, neg), neg);
    UnitLaws(x, neg);
  }

  lemma UnitLaws(x: Complex, neg: int)
    ensures Mul(ONE, x, neg) == x && Mul(x, ONE, neg) == x
  {
  }

  /** Squaring the base halves what is pending. */
  lemma SquareStep(result: Complex, b: Complex, rest: nat, neg: int, p: int)
    requires p > 1
    ensures Pending(result, ComplexCurveMul(b, b, neg, p), rest, neg, p) == Pending(result, b, 2 * rest, neg, p)
  {
    var sq := Mul(b, b, neg);
    ReducedProduct(b, b, neg, p);
    ReduceIdempotent(sq, p);
    PowerCongruent(Reduce(sq, p), sq, rest, neg, p);
    PowerOfSquare(b, rest, neg);
    ReduceCongruent(result, result, Power(Reduce(sq, p), rest, neg), Power(sq, rest, neg), neg, p);
  }

  /** Folding in an odd bit moves one factor from what is pending into the result. */
  lemma OddStep(result: Complex, b: Complex, rest: nat, neg: int, p: int)
    requires p > 1
    ensures Pending(ComplexCurveMul(result, b, neg, p), b, rest, neg, p) == Pending(result, b, 1 + rest, neg, p)
  {
    var t := Power(b, rest, neg);
    ReducedProduct(result, b, neg, p);
    ReduceIdempotent(Mul(result, b, neg), p);
    ReduceCongruent(Reduce(Mul(result, b, neg), p), Mul(result, b, neg), t, t, neg, p);
    Assoc(result, b, t, neg);
    assert Power(b, 1 + rest, neg) == Mul(b, t, neg);
  }

  predicate InField(x: Complex, p: int) {
    0 <= x.re < p && 0 <= x.im < p
  }

  lemma ReduceInField(x: Complex, p: int)
    requires p > 0 && InField(x, p)
    ensures Reduce(x, p) == x
  {
    DivModUnique(x.re, p, 0, x.re);
    DivModUnique(x.im, p, 0, x.im);
  }

  /** One turn of the loop, on an exponent with lowest bit bit. */
  lemma BitStep(result: Complex, b: Complex, bit: nat, rest: nat, neg: int, p: int)
    requires p > 1 && bit < 2
    ensures (var r' := if bit == 1 then ComplexCurveMul(result, b, neg, p) else result;
             Pending(r', ComplexCurveMul(b, b, neg, p), rest, neg, p)) == Pending(result, b, bit + 2 * rest, neg, p)
  {
    if bit == 1 {
      OddStep(result, b, 2 * rest, neg, p);
      SquareStep(ComplexCurveMul(result, b, neg, p), b, rest, neg, p);
    } else {
      SquareStep(result, b, rest, neg, p);
    }
  }

  /** Consumes the exponent in place. The loop stops when the rest is 0 in the field, not when it is 0. */
  method ComplexExponent(base: Complex, n: BigInt, neg: int, p: int) returns (result: Complex)
    requires p > 1 && n.v >= 0
    modifies n
    ensures n.v == Unread(old(n.v), p)
    ensures result == Reduce(Power(base, ReadPart(old(n.v), p), neg), p)
    ensures old(n.v) < p ==> n.v == 0 && result == Reduce(Power(base, old(n.v), neg), p)
  {
    result := ONE;
    var baseRes := base;
    PendingEnds(ONE, base, ReadPart(n.v, p), neg, p);
    while n.v % p != 0
      invariant n.v >= 0
      invariant Unread(n.v, p) == Unread(old(n.v), p)
      invariant InField(result, p)
      invariant Pending(result, baseRes, ReadPart(n.v, p), neg, p) == Reduce(Power(base, ReadPart(old(n.v), p), neg), p)
      decreases n.v
    {
      BitStep(result, baseRes, n.v % 2, ReadPart(n.v / 2, p), neg, p);
      if n.v % 2 == 1 {
        result := ComplexCurveMul(result, baseRes, neg, p);
      }
      baseRes := ComplexCurveMul(baseRes, baseRes, neg, p);
      n.v := n.v / 2;
    }
    PendingEnds(result, baseRes, 0, neg, p);
    ReduceInField(result, p);
    if old(n.v) < p {
      SmallExponentIsRead(old(n.v), p);
    }
  }

  // ----- the curve

  function CurveRHS(x: int, p: int): int
    requires p > 0
  {
    ((((x * x) % p) * x) % p + 3) % p
  }

  lemma CurveRHSIsCubePlusThree(x: int, p: int)
    requires p > 0
    ensures CurveRHS(x, p) == (x * x * x + 3) % p
  {
    ModMod(x * x, p);
    ModMul((x * x) % p, x, x * x, x, p);
    ModMod(((x * x) % p) * x, p);
    ModAdd((((x * x) % p) * x) % p, 3, x * x * x, 3, p);
  }

  predicate IsOnCurve(point: Affine, p: int)
    requires p > 0
  {
    (point.y * point.y) % p == CurveRHS(point.x, p)
  }

  /** x = 1 always ends the search: 1 + 3 is the square of 2. */
  lemma SearchEndsAtOne(p: int)
    requires OddPrime(p)
    ensures Legendre(CurveRHS(1, p), p) == 1
  {
    CurveRHSIsCubePlusThree(1, p);
    LegendreOfSquare(2, p) by { DivModUnique(2, p, 0, 2); }
    ModMod(4, p);
    LegendreCongruent(CurveRHS(1, p), 4, p);
  }

  ghost predicate IsDigest(bytes: seq<nat>) {
    |bytes| == 32 && forall i :: 0 <= i < 32 ==> bytes[i] < 256
  }

  function FromBytes(bytes: seq<nat>): nat {
    if bytes == [] then 0 else FromBytes(bytes[..|bytes| - 1]) * 256 + bytes[|bytes| - 1]
  }

  /** The first byte weighs most, and a byte alone counts as itself. */
  lemma {:induction false} FromBytesAppends(a: seq<nat>, b: seq<nat>)
    ensures FromBytes(a + b) == FromBytes(a) * Pow(256, |b|) + FromBytes(b)
    ensures |b| == 1 ==> FromBytes(b) == b[0]
  {
    if b == [] {
      assert a + b == a;
    } else {
      var n := |b| - 1;
      FromBytesAppends(a, b[..n]);
      assert (a + b)[..|a + b| - 1] == a + b[..n];
      assert (FromBytes(a) * Pow(256, n)) * 256 == FromBytes(a) * (256 * Pow(256, n));
    }
  }

  /** No two digests are read as the same number. */
  lemma {:induction false} FromBytesInjective(a: seq<nat>, b: seq<nat>)
    requires |a| == |b| && FromBytes(a) == FromBytes(b)
    requires forall i :: 0 <= i < |a| ==> a[i] < 256 && b[i] < 256
    ensures a == b
  {
    if a != [] {
      var n := |a| - 1;
      DivModUnique(FromBytes(a), 256, FromBytes(a[..n]), a[n]);
      DivModUnique(FromBytes(b), 256, FromBytes(b[..n]), b[n]);
      FromBytesInjective(a[..n], b[..n]);
      assert a == a[..n] + [a[n]] && b == b[..n] + [b[n]];
    }
  }

  /** The closing checks, with the value the variable zero holds by then. */
  function Finish(x: int, exponent: Complex, zero: int, p: int): PointResult
    requires p > 0
  {
    if exponent.im != zero then Err(InvalidComplexExponent)
    else if !IsOnCurve(Affine(x, exponent.re), p) then Err(PointConversionFailed)
    else Ok(Affine(x, exponent.re))
  }

  /** The search variable a and zero are one object, so the closing check passes exactly when the search for a
      non-residue never moved it. */
  lemma FinishAcceptsOnlyAnUnmovedZero(x: int, a: int, p: int)
    requires OddPrime(p) && 0 <= a < p
    requires Legendre(CurveRHS(x, p), p) == 1 && Legendre((a * a - CurveRHS(x, p)) % p, p) == -1
    ensures var neg := (a * a - CurveRHS(x, p)) % p;
            var exponent := Reduce(Power(Complex(a, 1), (p + 1) / 2, neg), p);
            Finish(x, exponent, a, p) == if a == 0 then Ok(Affine(x, exponent.re)) else Err(InvalidComplexExponent)
  {
    var n := CurveRHS(x, p);
    var neg := (a * a - n) % p;
    ModMod(a * a - n, p);
    Cipolla(a, n, neg, p);
    var h := Power(Complex(a, 1), (p + 1) / 2, neg);
    ReducedRoot(h.re, n, p);
  }

  lemma ReducedRoot(y: int, n: int, p: int)
    requires p > 0 && (y * y) % p == n % p && 0 <= n < p
    ensures ((y % p) * (y % p)) % p == n
  {
    ModMod(y, p);
    ModMul(y % p, y % p, y, y, p);
    DivModUnique(n, p, 0, n);
  }

  /** The abscissa k steps after d, cyclically, carries a point with nonzero ordinate. */
  ghost predicate Admissible(d: int, k: nat, p: int)
    requires p > 2
  {
    Legendre(CurveRHS((d + k) % p, p), p) == 1
  }

  ghost predicate FirstAdmissible(d: int, k: nat, p: int)
    requires p > 2
  {
    Admissible(d, k, p) && forall j: nat :: j < k ==> !Admissible(d, j, p)
  }

  /** What the digest d is mapped to: the first admissible abscissa, and one fixed root above it. */
  ghost predicate IsImage(d: int, point: Affine, p: int)
    requires p > 2
  {
    && (exists k: nat :: FirstAdmissible(d, k, p) && point.x == (d + k) % p)
    && IsOnCurve(point, p)
    && point.y == Pow(-CurveRHS(point.x, p), (p + 1) / 4) % p
  }

  /** The image is a function of the digest. */
  lemma ImageIsUnique(d: int, u: Affine, v: Affine, p: int)
    requires p > 2 && IsImage(d, u, p) && IsImage(d, v, p)
    ensures u == v
  {
    var k: nat :| FirstAdmissible(d, k, p) && u.x == (d + k) % p;
    var l: nat :| FirstAdmissible(d, l, p) && v.x == (d + l) % p;
    assert k == l;
  }

  lemma AdmissibleIsSquare(d: int, k: nat, p: int)
    requires OddPrime(p) && p % 4 == 3
    ensures Admissible(d, k, p) <==> exists y :: y % p != 0 && IsOnCurve(Affine((d + k) % p, y), p)
  {
    var z := CurveRHS((d + k) % p, p);
    LegendreIsSquareTest(z, p);
    ModMod((((d + k) % p) * ((d + k) % p)) % p * ((d + k) % p) % p + 3, p);
    assert z % p == z;
    if NonzeroSquare(z, p) {
      var y :| y % p != 0 && (y * y) % p == z % p;
      assert IsOnCurve(Affine((d + k) % p, y), p);
    }
  }

  /** Read as an equation: the image lies on y^2 = x^3 + 3 and never has order two. */
  lemma ImageSolvesTheCurve(d: int, point: Affine, p: int)
    requires OddPrime(p) && p % 4 == 3 && IsImage(d, point, p)
    ensures (point.y * point.y) % p == (point.x * point.x * point.x + 3) % p
    ensures point.y % p != 0
  {
    CurveRHSIsCubePlusThree(point.x, p);
    EulerPower(CurveRHS(point.x, p), p);
    ModMod(point.x * point.x * point.x + 3, p);
    if point.y % p == 0 {
      ModMul(point.y, point.y, 0, point.y, p);
    }
  }

  ghost function Shifted(a: int, n: int, p: int): int
    requires p > 0
  {
    (a * a - n) % p
  }

  lemma UnshiftedIsNonResidue(n: int, p: int)
    requires OddPrime(p) && p % 4 == 3 && Legendre(n, p) == 1
    ensures Legendre(Shifted(0, n, p), p) == -1
  {
    NegatedSquare(n, p);
    ModMod(-n, p);
    LegendreCongruent(-n, (-n) % p, p);
  }

  lemma NextResidue(d: int, p: int)
    requires p > 2
    ensures (d % p + 1) % p == (d + 1) % p
    ensures (d % p + 1) % p == if d % p + 1 == p then 0 else d % p + 1
  {
    ModMod(d, p);
    ModAdd(d % p, 1, d, 1, p);
    if d % p + 1 == p {
      DivModUnique(p, p, 1, 0);
    } else {
      DivModUnique(d % p + 1, p, 0, d % p + 1);
    }
  }

  /** The curve has a point of nonzero ordinate above the abscissa k steps after d, cyclically. */
  ghost predicate HasPoint(d: int, k: nat, p: int)
    requires p > 0
  {
    var x := (d + k) % p;
    exists y :: y % p != 0 && (y * y) % p == (x * x * x + 3) % p
  }

  ghost predicate FirstWithPoint(d: int, k: nat, p: int)
    requires p > 0
  {
    HasPoint(d, k, p) && forall j: nat :: j < k ==> !HasPoint(d, j, p)
  }

  lemma AdmissibleMeans(d: int, k: nat, p: int)
    requires OddPrime(p) && p % 4 == 3
    ensures Admissible(d, k, p) <==> HasPoint(d, k, p)
  {
    var x := (d + k) % p;
    CurveRHSIsCubePlusThree(x, p);
    LegendreIsSquareTest(CurveRHS(x, p), p);
    ModMod(x * x * x + 3, p);
  }

  lemma FirstMeans(d: int, k: nat, p: int)
    requires OddPrime(p) && p % 4 == 3
    ensures FirstAdmissible(d, k, p) <==> FirstWithPoint(d, k, p)
  {
    AdmissibleMeans(d, k, p);
    forall j: nat | j < k ensures Admissible(d, j, p) <==> HasPoint(d, j, p) {
      AdmissibleMeans(d, j, p);
    }
  }

  /** The fixed root, written without the intermediate reductions. */
  lemma RootMeans(x: int, p: int)
    requires p > 2
    ensures Pow(-CurveRHS(x, p), (p + 1) / 4) % p == Pow(-(x * x * x + 3), (p + 1) / 4) % p
  {
    var a := x * x * x + 3;
    CurveRHSIsCubePlusThree(x, p);
    AddMultiple(-a, a / p, p);
    assert -(a % p) == -a + (a / p) * p;
    ModPow(-CurveRHS(x, p), -a, (p + 1) / 4, p);
  }

  /** In plain arithmetic, and in both directions: starting from the digest itself, x is the first abscissa above which
      the curve has a point of nonzero ordinate, and y is a fixed one of its two ordinates. */
  lemma ImageMeans(d: int, point: Affine, p: int)
    requires OddPrime(p) && p % 4 == 3
    ensures var x, y := point.x, point.y;
      IsImage(d, point, p) <==>
        && (exists k: nat :: x == (d + k) % p && FirstWithPoint(d, k, p))
        && (y * y) % p == (x * x * x + 3) % p
        && y == Pow(-(x * x * x + 3), (p + 1) / 4) % p
  {
    RootMeans(point.x, p);
    CurveRHSIsCubePlusThree(point.x, p);
    forall k: nat ensures FirstAdmissible(d, k, p) <==> FirstWithPoint(d, k, p) {
      FirstMeans(d, k, p);
    }
  }

  lemma NonResidueExists(n: int, p: int) returns (w: nat)
    requires OddPrime(p) && p % 4 == 3 && Legendre(n, p) == 1
    ensures w < p && Legendre(Shifted(w, n, p), p) == -1
  {
    w := 0;
    UnshiftedIsNonResidue(n, p);
  }

  /** With a = 0 the power is real and equals the fixed root. */
  lemma HalfPowerOfOmega(n: int, neg: int, p: int)
    requires OddPrime(p) && p % 4 == 3 && neg % p == (-n) % p
    ensures Reduce(Power(Complex(0, 1), (p + 1) / 2, neg), p) == Complex(Pow(-n, (p + 1) / 4) % p, 0)
  {
    PowerOfOmega((p + 1) / 4, neg);
    assert 2 * ((p + 1) / 4) == (p + 1) / 2;
    ModPow(neg, -n, (p + 1) / 4, p);
  }

  /** The tail of the code, reached with a still 0. */
  lemma FinishAtZero(x: int, p: int)
    requires OddPrime(p) && p % 4 == 3 && Legendre(CurveRHS(x, p), p) == 1
    ensures var neg := (0 * 0 - CurveRHS(x, p)) % p;
            Finish(x, Reduce(Power(Complex(0, 1), (p + 1) / 2, neg), p), 0, p)
              == Ok(Affine(x, Pow(-CurveRHS(x, p), (p + 1) / 4) % p))
  {
    var n := CurveRHS(x, p);
    var neg := (0 * 0 - n) % p;
    ModMod(-n, p);
    NegatedSquare(n, p);
    LegendreCongruent(-n, neg, p);
    FinishAcceptsOnlyAnUnmovedZero(x, 0, p);
    HalfPowerOfOmega(n, neg, p);
  }

  lemma ShiftedResidue(a: int, n: int, p: int)
    requires p > 0
    ensures ((a * a) % p - n) % p == (a * a - n) % p
  {
    ModMod(a * a, p);
    ModAdd((a * a) % p, n, a * a, n, p);
  }

  lemma {:induction false} FirstExists(d: int, k: nat, p: int)
    requires p > 2 && Admissible(d, k, p)
    ensures exists j: nat :: FirstAdmissible(d, j, p)
  {
    if j: nat :| j < k && Admissible(d, j, p) {
      FirstExists(d, j, p);
    } else {
      assert FirstAdmissible(d, k, p);
    }
  }

  /** Every digest has an image. */
  lemma ImageExists(d: int, p: int)
    requires OddPrime(p) && p % 4 == 3
    ensures exists point :: IsImage(d, point, p)
  {
    var k: nat := (1 - d) % p;
    ModMod(1 - d, p);
    ModAdd(d, k, d, 1 - d, p);
    DivModUnique(1, p, 0, 1);
    assert (d + k) % p == 1;
    SearchEndsAtOne(p);
    FirstExists(d, k, p);
    var j: nat :| FirstAdmissible(d, j, p);
    var x := (d + j) % p;
    FinishAtZero(x, p);
    assert IsImage(d, Affine(x, Pow(-CurveRHS(x, p), (p + 1) / 4) % p), p);
  }

  /** The image of a digest, as a function. */
  ghost function Image(d: int, p: int): (point: Affine)
    requires OddPrime(p) && p % 4 == 3
    ensures IsImage(d, point, p)
  {
    ImageExists(d, p);
    var point :| IsImage(d, point, p);
    point
  }

  method BytesToPoint(hash: seq<nat>, p: int) returns (r: PointResult)
    requires IsDigest(hash) && OddPrime(p) && p % 4 == 3
    ensures r.Ok? && IsImage(FromBytes(hash), r.point, p)
  {
    var hashToBigInt := FromBytes(hash);
    var x := new Element(hashToBigInt % p);
    var n := CurveRHS(x.v, p);

    ghost var k: nat := 0;
    SearchEndsAtOne(p);
    while Legendre(n, p) != 1
      invariant 0 <= x.v < p && n == CurveRHS(x.v, p)
      invariant x.v == (hashToBigInt + k) % p
      invariant forall j: nat :: j < k ==> !Admissible(hashToBigInt, j, p)
      decreases if x.v <= 1 then 1 - x.v else p + 1 - x.v
    {
      NextResidue(hashToBigInt + k, p);
      assert !Admissible(hashToBigInt, k, p);
      x.v := (x.v + 1) % p;
      n := CurveRHS(x.v, p);
      k := k + 1;
    }
    assert FirstAdmissible(hashToBigInt, k, p);

    var zero := new Element(0);
    var a := zero;
    var neg := new Element((-n) % p);
    ghost var w := NonResidueExists(n, p);
    while Legendre(neg.v, p) != -1
      invariant a == zero && 0 <= a.v <= w
      invariant x.v == (hashToBigInt + k) % p && n == CurveRHS(x.v, p) && Legendre(n, p) == 1
      invariant neg.v == Shifted(a.v, n, p)
      invariant forall j: nat :: j < a.v ==> Legendre(Shifted(j, n, p), p) != -1
      decreases w - a.v
    {
      DivModUnique(a.v + 1, p, 0, a.v + 1);
      ShiftedResidue(a.v + 1, n, p);
      a.v := (a.v + 1) % p;
      neg.v := (((a.v * a.v) % p) - n) % p;
    }
    UnshiftedIsNonResidue(n, p);
    var base := Complex(a.v, 1);
    var exp := new BigInt((p + 1) / 2);
    var exponent := ComplexExponent(base, exp, neg.v, p);
    FinishAtZero(x.v, p);
    r := Finish(x.v, exponent, zero.v, p);
  }

  /** The modulus in use meets every numeric hypothesis above except primality, which stays a hypothesis. */
  lemma ModulusInUse()
    ensures FIELD_MODULUS > 2 && FIELD_MODULUS % 4 == 3 && FIELD_MODULUS % 2 == 1
  {
  }
}
