/** rpbs/types.go: the check that accepts a restrictive partially blind signature.
    The curve group is any commutative group in which multiplying by the prime order gives the identity, with any
    reading of affine points as elements of it. */
module Signature {
  import opened Congruence
  import opened Residues
  import HashToCurve

  datatype Group<!P(!new)> = Group(add: (P, P) -> P, neg: P -> P, zero: P, gen: P)

  /** The surroundings of one verification: the group and its order, the modulus of the field, the group element of an
      affine point, the digest of a string, and the digest of the eight points written to the hash. */
  datatype Setting<!P(!new)> = Setting(
    group: Group<P>, order: int, modulus: int, embed: HashToCurve.Affine -> P, sha: string -> seq<nat>, digest: seq<P> -> nat)

  datatype Signature<P> = Signature(z1: P, c1: int, s1: int, c2: int, s2: int, m1: P)

  class Point<P> {
    var v: P

    constructor (v: P)
      ensures this.v == v
    {
      this.v := v;
    }
  }

  class HashState<P> {
    var written: seq<P>

    constructor ()
      ensures written == []
    {
      written := [];
    }

    method Write(point: P)
      modifies this
      ensures written == old(written) + [point]
    {
      written := written + [point];
    }
  }

  // One predicate per law, so that a proof names the instances it uses.

  ghost predicate Commutes<P(!new)>(g: Group<P>, a: P, b: P) {
    g.add(a, b) == g.add(b, a)
  }

  ghost predicate Associates<P(!new)>(g: Group<P>, a: P, b: P, c: P) {
    g.add(g.add(a, b), c) == g.add(a, g.add(b, c))
  }

  ghost predicate HasUnit<P(!new)>(g: Group<P>, a: P) {
    g.add(g.zero, a) == a
  }

  ghost predicate HasInverse<P(!new)>(g: Group<P>, a: P) {
    g.add(a, g.neg(a)) == g.zero
  }

  ghost predicate IsGroup<P(!new)>(g: Group<P>) {
    && (forall a, b :: Commutes(g, a, b))
    && (forall a, b, c :: Associates(g, a, b, c))
    && (forall a :: HasUnit(g, a))
    && (forall a :: HasInverse(g, a))
  }

  function Times<P(!new)>(g: Group<P>, k: nat, a: P): P {
    if k == 0 then g.zero else g.add(a, Times(g, k - 1, a))
  }

  ghost predicate KilledByOrder<P(!new)>(e: Setting<P>, a: P) {
    e.order >= 0 && Times(e.group, e.order, a) == e.group.zero
  }

  ghost predicate CurveField<P(!new)>(e: Setting<P>) {
    OddPrime(e.modulus) && e.modulus % 4 == 3
  }

  ghost predicate Lawful<P(!new)>(e: Setting<P>) {
    && IsGroup(e.group)
    && IsPrime(e.order)
    && (forall a :: KilledByOrder(e, a))
    && CurveField(e)
    && (forall info :: HashToCurve.IsDigest(e.sha(info)))
  }

  /** Scalar multiplication by any integer. */
  function Mult<P(!new)>(e: Setting<P>, k: int, a: P): P
    requires e.order > 0
  {
    Times(e.group, k % e.order, a)
  }

  function Sub<P(!new)>(g: Group<P>, a: P, b: P): P {
    g.add(a, g.neg(b))
  }

  // ----- scalar multiplication is an action of the integers modulo the order

  lemma {:induction false} TimesAdd<P(!new)>(g: Group<P>, k: nat, l: nat, a: P)
    requires IsGroup(g)
    ensures Times(g, k + l, a) == g.add(Times(g, k, a), Times(g, l, a))
  {
    if k == 0 {
      assert HasUnit(g, Times(g, l, a));
    } else {
      TimesAdd(g, k - 1, l, a);
      assert k + l - 1 == k - 1 + l;
      assert Associates(g, a, Times(g, k - 1, a), Times(g, l, a));
    }
  }

  lemma {:induction false} TimesMul<P(!new)>(g: Group<P>, k: nat, l: nat, a: P)
    requires IsGroup(g)
    ensures k * l >= 0 && Times(g, k * l, a) == Times(g, k, Times(g, l, a))
  {
    if k > 0 {
      TimesMul(g, k - 1, l, a);
      assert k * l == l + (k - 1) * l;
      TimesAdd(g, l, (k - 1) * l, a);
    }
  }

  lemma {:induction false} TimesMod<P(!new)>(e: Setting<P>, k: nat, a: P)
    requires Lawful(e)
    ensures Times(e.group, k, a) == Mult(e, k, a)
    decreases k
  {
    if k < e.order {
      DivModUnique(k, e.order, 0, k);
    } else {
      TimesMod(e, k - e.order, a);
      TimesAdd(e.group, e.order, k - e.order, a);
      assert e.order + (k - e.order) == k;
      assert KilledByOrder(e, a) && HasUnit(e.group, Times(e.group, k - e.order, a));
      AddMultiple(k - e.order, 1, e.order);
    }
  }

  lemma MultAdd<P(!new)>(e: Setting<P>, k: int, l: int, a: P)
    requires Lawful(e)
    ensures Mult(e, k + l, a) == e.group.add(Mult(e, k, a), Mult(e, l, a))
  {
    var r := e.order;
    TimesAdd(e.group, k % r, l % r, a);
    TimesMod(e, k % r + l % r, a);
    ModMod(k, r);
    ModMod(l, r);
    ModAdd(k % r, l % r, k, l, r);
  }

  lemma MultMult<P(!new)>(e: Setting<P>, k: int, l: int, a: P)
    requires Lawful(e)
    ensures Mult(e, k, Mult(e, l, a)) == Mult(e, k * l, a)
  {
    var r := e.order;
    TimesMul(e.group, k % r, l % r, a);
    TimesMod(e, (k % r) * (l % r), a);
    ModMod(k, r);
    ModMod(l, r);
    ModMul(k % r, l % r, k, l, r);
  }

  lemma MultCongruent<P(!new)>(e: Setting<P>, k: int, l: int, a: P)
    requires e.order > 0 && k % e.order == l % e.order
    ensures Mult(e, k, a) == Mult(e, l, a)
  {
  }

  lemma MultOne<P(!new)>(e: Setting<P>, k: int, a: P)
    requires Lawful(e) && k % e.order == 1
    ensures Mult(e, k, a) == a
  {
    assert Times(e.group, 1, a) == e.group.add(a, Times(e.group, 0, a));
    assert Commutes(e.group, a, e.group.zero) && HasUnit(e.group, a);
  }

  lemma SubAdds<P(!new)>(g: Group<P>, a: P, b: P)
    requires IsGroup(g)
    ensures g.add(Sub(g, a, b), b) == a
    ensures Sub(g, g.add(a, b), b) == a
  {
    assert Associates(g, a, g.neg(b), b) && Commutes(g, g.neg(b), b) && HasInverse(g, b);
    assert Associates(g, a, b, g.neg(b));
    assert Commutes(g, a, g.zero) && HasUnit(g, a);
  }

  /** Equal differences stay equal when the middle terms are exchanged. */
  lemma DifferencesCross<P(!new)>(g: Group<P>, a: P, b: P, c: P, d: P)
    requires IsGroup(g) && Sub(g, a, b) == Sub(g, c, d)
    ensures Sub(g, a, c) == Sub(g, b, d)
  {
    var x, z := Sub(g, c, d), Sub(g, b, d);
    SubAdds(g, a, b);
    SubAdds(g, c, d);
    SubAdds(g, b, d);
    assert a == g.add(x, g.add(z, d));
    assert Associates(g, x, z, d) && Commutes(g, x, z) && Associates(g, z, x, d);
    assert a == g.add(z, c);
    SubAdds(g, z, c);
  }

  lemma NegUnique<P(!new)>(g: Group<P>, a: P, b: P)
    requires IsGroup(g) && g.add(a, b) == g.zero
    ensures b == g.neg(a)
  {
    SubAdds(g, b, a);
    assert Commutes(g, a, b) && HasUnit(g, g.neg(a));
  }

  /** The canonical representative of the additive inverse, for any integer and not only reduced ones. */
  function NegateBigInt(input: int, r: int): (n: int)
    requires r > 0
    ensures 0 <= n < r && (n + input) % r == 0
  {
    ModMod(input, r);
    ModMod(-(input % r), r);
    ModAdd((-(input % r)) % r, input, -(input % r), input % r, r);
    (-(input % r)) % r
  }

  lemma MultNegate<P(!new)>(e: Setting<P>, c: int, a: P)
    requires Lawful(e)
    ensures Mult(e, NegateBigInt(c, e.order), a) == e.group.neg(Mult(e, c, a))
  {
    var n := NegateBigInt(c, e.order);
    MultAdd(e, c, n, a);
    assert Mult(e, c + n, a) == e.group.zero;
    NegUnique(e.group, Mult(e, c, a), Mult(e, n, a));
  }

  lemma MultSub<P(!new)>(e: Setting<P>, k: int, l: int, a: P)
    requires Lawful(e)
    ensures Mult(e, k - l, a) == Sub(e.group, Mult(e, k, a), Mult(e, l, a))
  {
    var r, n := e.order, NegateBigInt(l, e.order);
    MultNegate(e, l, a);
    MultAdd(e, k, n, a);
    assert (k + n) - (k - l) == n + l;
    ModDifference(k + n, k - l, r);
  }

  // ----- the check

  /** base times the response, less key times the challenge. */
  function Commitment<P(!new)>(e: Setting<P>, response: int, challenge: int, base: P, key: P): P
    requires e.order > 0
  {
    Sub(e.group, Mult(e, response, base), Mult(e, challenge, key))
  }

  function Commitments<P(!new)>(e: Setting<P>, y1: P, y2: P, sig: Signature<P>): (P, P, P)
    requires e.order > 0
  {
    (Commitment(e, sig.s1, sig.c1, e.group.gen, y1),
     Commitment(e, sig.s1, sig.c1, sig.m1, sig.z1),
     Commitment(e, sig.s2, sig.c2, e.group.gen, y2))
  }

  function Transcript<P(!new)>(e: Setting<P>, y1: P, y2: P, sig: Signature<P>): seq<P>
    requires e.order > 0
  {
    var (t1, t2, t3) := Commitments(e, y1, y2, sig);
    [y1, y2, sig.m1, sig.z1, t1, t2, t3, e.group.gen]
  }

  /** The point an info string hashes to. */
  ghost function InfoPoint<P(!new)>(e: Setting<P>, info: string): P
    requires CurveField(e)
  {
    e.embed(HashToCurve.Image(HashToCurve.FromBytes(e.sha(info)), e.modulus))
  }

  lemma InfoPointIsThePoint<P(!new)>(e: Setting<P>, info: string, point: HashToCurve.Affine)
    requires CurveField(e) && HashToCurve.IsImage(HashToCurve.FromBytes(e.sha(info)), point, e.modulus)
    ensures InfoPoint(e, info) == e.embed(point)
  {
    var d := HashToCurve.FromBytes(e.sha(info));
    HashToCurve.ImageIsUnique(d, point, HashToCurve.Image(d, e.modulus), e.modulus);
  }

  /** The verification equation: the challenges multiply to the digest of the recomputed transcript. */
  ghost predicate Accepts<P(!new)>(e: Setting<P>, y1: P, info: string, sig: Signature<P>)
    requires e.order > 0 && CurveField(e)
  {
    (sig.c1 * sig.c2) % e.order == e.digest(Transcript(e, y1, InfoPoint(e, info), sig)) % e.order
  }

  /** Read as an equation between the eight points, for the point above the digest of this very string. */
  lemma AcceptedEquation<P(!new)>(e: Setting<P>, y1: P, info: string, sig: Signature<P>)
    requires e.order > 0 && CurveField(e)
    ensures forall point :: HashToCurve.IsImage(HashToCurve.FromBytes(e.sha(info)), point, e.modulus) ==>
      var g, y2 := e.group, e.embed(point);
      var transcript := [y1, y2, sig.m1, sig.z1,
                         Sub(g, Mult(e, sig.s1, g.gen), Mult(e, sig.c1, y1)),
                         Sub(g, Mult(e, sig.s1, sig.m1), Mult(e, sig.c1, sig.z1)),
                         Sub(g, Mult(e, sig.s2, g.gen), Mult(e, sig.c2, y2)), g.gen];
      Accepts(e, y1, info, sig) <==> (sig.c1 * sig.c2) % e.order == e.digest(transcript) % e.order
  {
    forall point | HashToCurve.IsImage(HashToCurve.FromBytes(e.sha(info)), point, e.modulus)
      ensures InfoPoint(e, info) == e.embed(point)
    {
      InfoPointIsThePoint(e, info, point);
    }
  }

  /** Reducing the scalars and the digest, however often, does not change the equation. */
  lemma EquationReduces(c1: int, c2: int, d: int, r: int)
    requires r > 0
    ensures ((c1 % r) * (c2 % r)) % r == (c1 * c2) % r && ((d % r) % r) % r == d % r
  {
    ModMod(c1, r);
    ModMod(c2, r);
    ModMul(c1 % r, c2 % r, c1, c2, r);
    ModMod(d, r);
  }

  method VerifySignature<P(!new)>(e: Setting<P>, y1: P, info: string, sig: Signature<P>) returns (ok: bool)
    requires Lawful(e)
    ensures ok <==> Accepts(e, y1, info, sig)
    ensures forall point :: HashToCurve.IsImage(HashToCurve.FromBytes(e.sha(info)), point, e.modulus) ==>
      var g, y2 := e.group, e.embed(point);
      var transcript := [y1, y2, sig.m1, sig.z1,
                         Sub(g, Mult(e, sig.s1, g.gen), Mult(e, sig.c1, y1)),
                         Sub(g, Mult(e, sig.s1, sig.m1), Mult(e, sig.c1, sig.z1)),
                         Sub(g, Mult(e, sig.s2, g.gen), Mult(e, sig.c2, y2)), g.gen];
      ok <==> (sig.c1 * sig.c2) % e.order == e.digest(transcript) % e.order
  {
    var r := e.order;
    // The error is discarded: there never is one.
    var hashed := HashToCurve.BytesToPoint(e.sha(info), e.modulus);
    InfoPointIsThePoint(e, info, hashed.point);
    var y2 := e.embed(hashed.point);
    ghost var (t1, t2, t3) := Commitments(e, y1, y2, sig);
    var hash := new HashState<P>();
    hash.Write(y1);
    hash.Write(y2);
    hash.Write(sig.m1);
    hash.Write(sig.z1);

    var p1 := new Point(Mult(e, sig.s1, e.group.gen));
    var p2 := new Point(Mult(e, NegateBigInt(sig.c1, r), y1));
    MultNegate(e, sig.c1, y1);
    p1.v := e.group.add(p1.v, p2.v);
    assert p1.v == t1;
    hash.Write(p1.v);
    assert hash.written == [y1, y2, sig.m1, sig.z1, t1];

    p1.v := Mult(e, sig.s1, sig.m1);
    p2.v := Mult(e, NegateBigInt(sig.c1, r), sig.z1);
    MultNegate(e, sig.c1, sig.z1);
    p1.v := e.group.add(p1.v, p2.v);
    assert p1.v == t2;
    hash.Write(p1.v);
    assert hash.written == [y1, y2, sig.m1, sig.z1, t1, t2];

    p1.v := Mult(e, sig.s2, e.group.gen);
    p2.v := Mult(e, NegateBigInt(sig.c2, r), y2);
    MultNegate(e, sig.c2, y2);
    p1.v := e.group.add(p1.v, p2.v);
    assert p1.v == t3;
    hash.Write(p1.v);
    assert hash.written == [y1, y2, sig.m1, sig.z1, t1, t2, t3];

    hash.Write(e.group.gen);
    assert hash.written == [y1, y2, sig.m1, sig.z1, t1, t2, t3, e.group.gen];

    var rhs := e.digest(hash.written) % r;
    var z := rhs % r;
    rhs := z % r;
    var lhs := ((sig.c1 % r) * (sig.c2 % r)) % r;
    EquationReduces(sig.c1, sig.c2, e.digest(Transcript(e, y1, y2, sig)), r);
    ok := lhs == rhs;
    AcceptedEquation(e, y1, info, sig);
  }

  // ----- completeness: either secret is enough

  ghost predicate OpensKey<P(!new)>(e: Setting<P>, x: int, y1: P, m1: P, z1: P)
    requires e.order > 0
  {
    y1 == Mult(e, x, e.group.gen) && z1 == Mult(e, x, m1)
  }

  ghost predicate OpensInfo<P(!new)>(e: Setting<P>, w: int, y2: P)
    requires e.order > 0
  {
    y2 == Mult(e, w, e.group.gen)
  }

  /** A response u + c*x against key x*base recomputes the commitment u*base. */
  lemma ResponseCommits<P(!new)>(e: Setting<P>, u: int, c: int, x: int, base: P)
    requires Lawful(e)
    ensures Commitment(e, u + c * x, c, base, Mult(e, x, base)) == Mult(e, u, base)
  {
    MultMult(e, c, x, base);
    MultSub(e, u + c * x, c * x, base);
    assert u + c * x - c * x == u;
  }

  /** h * c^-1 is the cofactor that makes the product of the challenges h. */
  lemma ChallengeSplits(h: int, c: int, r: int)
    requires IsPrime(r) && c % r != 0
    ensures ((h * Inverse(c, r)) * c) % r == h % r
  {
    InverseIsInverse(c, r);
    TimesOne(h, c * Inverse(c, r), r);
    assert (h * Inverse(c, r)) * c == h * (c * Inverse(c, r));
  }

  /** The holder of x with y1 = x*G and z1 = x*m1 produces an accepted signature, simulating the other branch. */
  lemma CompleteWithKey<P(!new)>(e: Setting<P>, y1: P, info: string, point: HashToCurve.Affine, m1: P, z1: P,
                                 x: int, u: int, c2: int, s2: int)
    requires Lawful(e) && OpensKey(e, x, y1, m1, z1) && c2 % e.order != 0
    requires HashToCurve.IsImage(HashToCurve.FromBytes(e.sha(info)), point, e.modulus)
    ensures var y2 := e.embed(point);
            var t3 := Commitment(e, s2, c2, e.group.gen, y2);
            var h := e.digest([y1, y2, m1, z1, Mult(e, u, e.group.gen), Mult(e, u, m1), t3, e.group.gen]);
            var c1 := h * Inverse(c2, e.order);
            Accepts(e, y1, info, Signature(z1, c1, u + c1 * x, c2, s2, m1))
  {
    InfoPointIsThePoint(e, info, point);
    var y2 := e.embed(point);
    var t3 := Commitment(e, s2, c2, e.group.gen, y2);
    var h := e.digest([y1, y2, m1, z1, Mult(e, u, e.group.gen), Mult(e, u, m1), t3, e.group.gen]);
    var c1 := h * Inverse(c2, e.order);
    ResponseCommits(e, u, c1, x, e.group.gen);
    ResponseCommits(e, u, c1, x, m1);
    ChallengeSplits(h, c2, e.order);
  }

  /** So does the holder of w with y2 = w*G, simulating the branch of the key. */
  lemma CompleteWithInfo<P(!new)>(e: Setting<P>, y1: P, info: string, point: HashToCurve.Affine, m1: P, z1: P,
                                  w: int, u: int, c1: int, s1: int)
    requires Lawful(e) && OpensInfo(e, w, e.embed(point)) && c1 % e.order != 0
    requires HashToCurve.IsImage(HashToCurve.FromBytes(e.sha(info)), point, e.modulus)
    ensures var y2 := e.embed(point);
            var t1, t2 := Commitment(e, s1, c1, e.group.gen, y1), Commitment(e, s1, c1, m1, z1);
            var h := e.digest([y1, y2, m1, z1, t1, t2, Mult(e, u, e.group.gen), e.group.gen]);
            var c2 := h * Inverse(c1, e.order);
            Accepts(e, y1, info, Signature(z1, c1, s1, c2, u + c2 * w, m1))
  {
    InfoPointIsThePoint(e, info, point);
    var y2 := e.embed(point);
    var t1, t2 := Commitment(e, s1, c1, e.group.gen, y1), Commitment(e, s1, c1, m1, z1);
    var h := e.digest([y1, y2, m1, z1, t1, t2, Mult(e, u, e.group.gen), e.group.gen]);
    var c2 := h * Inverse(c1, e.order);
    ResponseCommits(e, u, c2, w, e.group.gen);
    ChallengeSplits(h, c1, e.order);
    assert c1 * c2 == c2 * c1;
  }

  // ----- soundness: two answers to one commitment reveal a secret

  function Extract(s: int, s': int, c: int, c': int, r: int): int
    requires r >= 2
  {
    Inverse(c - c', r) * (s - s')
  }

  /** Two answers to the same commitment under different challenges solve for the key. */
  lemma TwoAnswersSolve<P(!new)>(e: Setting<P>, s: int, s': int, c: int, c': int, base: P, key: P)
    requires Lawful(e) && c % e.order != c' % e.order
    requires Commitment(e, s, c, base, key) == Commitment(e, s', c', base, key)
    ensures key == Mult(e, Extract(s, s', c, c', e.order), base)
  {
    var r, i := e.order, Inverse(c - c', e.order);
    DifferencesCross(e.group, Mult(e, s, base), Mult(e, c, key), Mult(e, s', base), Mult(e, c', key));
    MultSub(e, s, s', base);
    MultSub(e, c, c', key);
    MultMult(e, i, s - s', base);
    MultMult(e, i, c - c', key);
    ModDifference(c, c', r);
    InverseIsInverse(c - c', r);
    assert i * (c - c') == (c - c') * i;
    MultOne(e, i * (c - c'), key);
  }

  /** Under the same challenge the answer itself is determined, because a nonzero base has order exactly r. */
  lemma TwoAnswersAgree<P(!new)>(e: Setting<P>, s: int, s': int, c: int, c': int, base: P, key: P)
    requires Lawful(e) && c % e.order == c' % e.order && base != e.group.zero
    requires Commitment(e, s, c, base, key) == Commitment(e, s', c', base, key)
    ensures s % e.order == s' % e.order
  {
    var r, d := e.order, s - s';
    MultCongruent(e, c, c', key);
    DifferencesCross(e.group, Mult(e, s, base), Mult(e, c, key), Mult(e, s', base), Mult(e, c', key));
    MultSub(e, s, s', base);
    assert HasInverse(e.group, Mult(e, c, key));
    assert Mult(e, d, base) == e.group.zero;
    ModDifference(s, s', r);
    if d % r != 0 {
      var i := Inverse(d, r);
      InverseIsInverse(d, r);
      MultMult(e, i, d, base);
      assert i * d == d * i;
      MultOne(e, i * d, base);
      TimesZero(e.group, i % r);
    }
  }

  lemma {:induction false} TimesZero<P(!new)>(g: Group<P>, k: nat)
    requires IsGroup(g)
    ensures Times(g, k, g.zero) == g.zero
  {
    if k > 0 {
      TimesZero(g, k - 1);
      assert HasUnit(g, g.zero);
    }
  }

  /** Two signatures over one transcript are the same up to the order, or their scalars alone yield x or w. */
  lemma OneTranscriptOneSignature<P(!new)>(e: Setting<P>, y1: P, y2: P, a: Signature<P>, b: Signature<P>)
    requires Lawful(e) && e.group.gen != e.group.zero
    requires Transcript(e, y1, y2, a) == Transcript(e, y1, y2, b)
    ensures (a.c1 % e.order == b.c1 % e.order && a.s1 % e.order == b.s1 % e.order
             && a.c2 % e.order == b.c2 % e.order && a.s2 % e.order == b.s2 % e.order)
         || OpensKey(e, Extract(a.s1, b.s1, a.c1, b.c1, e.order), y1, a.m1, a.z1)
         || OpensInfo(e, Extract(a.s2, b.s2, a.c2, b.c2, e.order), y2)
  {
    var t, t' := Transcript(e, y1, y2, a), Transcript(e, y1, y2, b);
    assert t[2] == t'[2] && t[3] == t'[3] && t[4] == t'[4] && t[5] == t'[5] && t[6] == t'[6];
    if a.c1 % e.order != b.c1 % e.order {
      TwoAnswersSolve(e, a.s1, b.s1, a.c1, b.c1, e.group.gen, y1);
      TwoAnswersSolve(e, a.s1, b.s1, a.c1, b.c1, a.m1, a.z1);
    } else if a.c2 % e.order != b.c2 % e.order {
      TwoAnswersSolve(e, a.s2, b.s2, a.c2, b.c2, e.group.gen, y2);
    } else {
      TwoAnswersAgree(e, a.s1, b.s1, a.c1, b.c1, e.group.gen, y1);
      TwoAnswersAgree(e, a.s2, b.s2, a.c2, b.c2, e.group.gen, y2);
    }
  }

  /** Forking: the same transcript accepted under two digests with different values on it always reveals x or w.
      (Under one digest the two products would be equal, so two digests are what the statement needs.) */
  lemma ForkRevealsSecret<P(!new)>(e: Setting<P>, digest': seq<P> -> nat, y1: P, info: string, point: HashToCurve.Affine,
                                   a: Signature<P>, b: Signature<P>)
    requires Lawful(e) && HashToCurve.IsImage(HashToCurve.FromBytes(e.sha(info)), point, e.modulus)
    requires Accepts(e, y1, info, a) && Accepts(e.(digest := digest'), y1, info, b)
    requires Transcript(e, y1, e.embed(point), a) == Transcript(e, y1, e.embed(point), b)
    requires var t := Transcript(e, y1, e.embed(point), a); e.digest(t) % e.order != digest'(t) % e.order
    ensures OpensKey(e, Extract(a.s1, b.s1, a.c1, b.c1, e.order), y1, a.m1, a.z1)
         || OpensInfo(e, Extract(a.s2, b.s2, a.c2, b.c2, e.order), e.embed(point))
  {
    InfoPointIsThePoint(e, info, point);
    InfoPointIsThePoint(e.(digest := digest'), info, point);
    var y2 := e.embed(point);
    var t, t' := Transcript(e, y1, y2, a), Transcript(e, y1, y2, b);
    SameTranscript(e, digest', y1, y2, b);
    assert t[2] == t'[2] && t[3] == t'[3] && t[4] == t'[4] && t[5] == t'[5] && t[6] == t'[6];
    if a.c1 % e.order != b.c1 % e.order {
      TwoAnswersSolve(e, a.s1, b.s1, a.c1, b.c1, e.group.gen, y1);
      TwoAnswersSolve(e, a.s1, b.s1, a.c1, b.c1, a.m1, a.z1);
    } else if a.c2 % e.order != b.c2 % e.order {
      TwoAnswersSolve(e, a.s2, b.s2, a.c2, b.c2, e.group.gen, y2);
    } else {
      ModMul(a.c1, a.c2, b.c1, b.c2, e.order);
      assert false;
    }
  }

  lemma SameTranscript<P(!new)>(e: Setting<P>, digest': seq<P> -> nat, y1: P, y2: P, b: Signature<P>)
    requires e.order > 0
    ensures Transcript(e.(digest := digest'), y1, y2, b) == Transcript(e, y1, y2, b)
  {
  }
}
