/** Curve points as members of a commutative group: the language in which the multi-scalar kernels, which
    compute on coordinates, are specified. */
module CurveGroup {
  import opened Modular
  import opened Field
  import opened Curve
  import opened Group

  /** A commutative group g that the points of y^2 = x^3 + b modulo p are read in. */
  datatype Reading<!G(!new)> = Reading(g: Group<G>, point: Affine -> G, b: int, p: int)

  ghost predicate Additive<G(!new)>(c: Reading<G>)
    requires c.p > 0
  {
    forall a, d :: OnCurve(a, c.b, c.p) && OnCurve(d, c.b, c.p) ==>
      c.point(AffAdd(a, d, c.p)) == c.g.add(c.point(a), c.point(d))
  }

  /** The affine law is read as the group's addition. */
  ghost predicate Homomorphic<G(!new)>(c: Reading<G>) {
    && IsPrime(c.p) && c.p > 3 && !Cong(c.b, 0, c.p)
    && IsAbelian(c.g) && c.point(Infinity) == c.g.zero && Additive(c)
  }

  lemma HomomorphicParts<G(!new)>(c: Reading<G>)
    requires Homomorphic(c)
    ensures IsPrime(c.p) && c.p > 3 && IsAbelian(c.g) && c.point(Infinity) == c.g.zero
  {
  }

  // ------------------------------------------------------------ what coordinates stand for

  ghost predicate Stands<G(!new)>(c: Reading<G>, j: Jacobian, a: Affine) {
    c.p > 0 && Represents(j, a, c.p) && OnCurve(a, c.b, c.p)
  }

  ghost predicate StandsPair<G(!new)>(c: Reading<G>, q: AffinePair, a: Affine) {
    c.p > 0 && PairRepresents(q, a, c.p) && OnCurve(a, c.b, c.p)
  }

  /** The coordinates of some point of the curve. */
  ghost predicate Good<G(!new)>(c: Reading<G>, j: Jacobian) {
    exists a :: Stands(c, j, a)
  }

  ghost predicate GoodPair<G(!new)>(c: Reading<G>, q: AffinePair) {
    exists a :: StandsPair(c, q, a)
  }

  /** The group member the coordinates stand for; zero if they stand for none. */
  ghost function Value<G(!new)>(c: Reading<G>, j: Jacobian): G {
    if Good(c, j) then
      var a :| Stands(c, j, a);
      c.point(a)
    else c.g.zero
  }

  ghost function PairValue<G(!new)>(c: Reading<G>, q: AffinePair): G {
    if GoodPair(c, q) then
      var a :| StandsPair(c, q, a);
      c.point(a)
    else c.g.zero
  }

  /** j stands for the group member x. */
  ghost predicate Is<G(!new)>(c: Reading<G>, j: Jacobian, x: G) {
    Good(c, j) && Value(c, j) == x
  }

  ghost predicate PairIs<G(!new)>(c: Reading<G>, q: AffinePair, x: G) {
    GoodPair(c, q) && PairValue(c, q) == x
  }

  ghost function Values<G(!new)>(c: Reading<G>, s: seq<Jacobian>): (v: seq<G>)
    ensures |v| == |s| && forall i :: 0 <= i < |s| ==> v[i] == Value(c, s[i])
  {
    seq(|s|, i requires 0 <= i < |s| => Value(c, s[i]))
  }

  ghost function PairValues<G(!new)>(c: Reading<G>, s: seq<AffinePair>): (v: seq<G>)
    ensures |v| == |s| && forall i :: 0 <= i < |s| ==> v[i] == PairValue(c, s[i])
  {
    seq(|s|, i requires 0 <= i < |s| => PairValue(c, s[i]))
  }

  /** Coordinates determine their affine point. */
  lemma StandsUnique<G(!new)>(c: Reading<G>, j: Jacobian, a: Affine, d: Affine)
    requires IsPrime(c.p) && Stands(c, j, a) && Stands(c, j, d)
    ensures a == d
  {
    hide Res, IsPrime;
    if a.Point? {
      var z, p := j.z, c.p;
      Nonzero(z, p);
      ProductNonzero(z, z, p);
      ProductNonzero(z * z, z, p);
      assert a.x * (z * z) == (z * z) * a.x && d.x * (z * z) == (z * z) * d.x;
      CancelLeft(z * z, a.x, d.x, p);
      ElementsEqual(a.x, d.x, p);
      assert a.y * (z * z * z) == (z * z * z) * a.y && d.y * (z * z * z) == (z * z * z) * d.y;
      CancelLeft(z * z * z, a.y, d.y, p);
      ElementsEqual(a.y, d.y, p);
    }
  }

  lemma GoodIs<G(!new)>(c: Reading<G>, j: Jacobian)
    requires Good(c, j)
    ensures Is(c, j, Value(c, j))
  {
  }

  lemma IsPoint<G(!new)>(c: Reading<G>, j: Jacobian, a: Affine)
    requires IsPrime(c.p) && Stands(c, j, a)
    ensures Is(c, j, c.point(a))
  {
    hide Stands;
    var d :| Stands(c, j, d) && Value(c, j) == c.point(d);
    StandsUnique(c, j, a, d);
  }

  lemma PointOf<G(!new)>(c: Reading<G>, j: Jacobian, x: G) returns (a: Affine)
    requires Is(c, j, x)
    ensures Stands(c, j, a) && c.point(a) == x
  {
    hide Stands;
    a :| Stands(c, j, a) && Value(c, j) == c.point(a);
  }

  lemma GoodInField<G(!new)>(c: Reading<G>, j: Jacobian)
    requires Good(c, j)
    ensures InField(j, c.p)
  {
  }

  lemma GoodPairIs<G(!new)>(c: Reading<G>, q: AffinePair)
    requires GoodPair(c, q)
    ensures PairIs(c, q, PairValue(c, q))
  {
  }

  lemma PairIsPoint<G(!new)>(c: Reading<G>, q: AffinePair, a: Affine)
    requires StandsPair(c, q, a)
    ensures PairIs(c, q, c.point(a))
  {
  }

  lemma PairPointOf<G(!new)>(c: Reading<G>, q: AffinePair, x: G) returns (a: Affine)
    requires PairIs(c, q, x)
    ensures StandsPair(c, q, a) && c.point(a) == x
  {
    hide StandsPair;
    a :| StandsPair(c, q, a) && PairValue(c, q) == c.point(a);
  }

  // ------------------------------------------------------------ the formulas on group members

  lemma AdditiveAt<G(!new)>(c: Reading<G>, a: Affine, d: Affine)
    requires Homomorphic(c) && OnCurve(a, c.b, c.p) && OnCurve(d, c.b, c.p)
    ensures c.point(AffAdd(a, d, c.p)) == c.g.add(c.point(a), c.point(d))
  {
    hide IsPrime, IsAbelian, OnCurve, AffAdd;
  }

  lemma IdentityIs<G(!new)>(c: Reading<G>)
    requires Homomorphic(c)
    ensures Is(c, G1Identity(c.p), c.g.zero)
  {
    hide IsPrime, IsAbelian, Additive, Is;
    IdentityRepresents(c.p);
    IsPoint(c, G1Identity(c.p), Infinity);
  }

  /** Addition in Jacobian coordinates is addition in the group. */
  lemma AddIs<G(!new)>(c: Reading<G>, j: Jacobian, l: Jacobian, x: G, y: G)
    requires Homomorphic(c) && Is(c, j, x) && Is(c, l, y)
    ensures Is(c, G1Add(j, l, c.p), c.g.add(x, y))
  {
    hide IsPrime, IsAbelian, Additive, Is, Represents, OnCurve, G1Add, AffAdd;
    var a := PointOf(c, j, x);
    var d := PointOf(c, l, y);
    AddCorrect(j, l, a, d, c.b, c.p);
    AddOnCurve(a, d, c.b, c.p);
    AdditiveAt(c, a, d);
    IsPoint(c, G1Add(j, l, c.p), AffAdd(a, d, c.p));
  }

  lemma MaddIs<G(!new)>(c: Reading<G>, j: Jacobian, q: AffinePair, x: G, y: G)
    requires Homomorphic(c) && Is(c, j, x) && PairIs(c, q, y)
    ensures Is(c, G1Madd(j, q, c.p), c.g.add(x, y))
  {
    hide IsPrime, IsAbelian, Additive, Is, PairIs, Represents, PairRepresents, OnCurve, G1Madd, AffAdd;
    var a := PointOf(c, j, x);
    var d := PairPointOf(c, q, y);
    MaddCorrect(j, q, a, d, c.b, c.p);
    AddOnCurve(a, d, c.b, c.p);
    AdditiveAt(c, a, d);
    IsPoint(c, G1Madd(j, q, c.p), AffAdd(a, d, c.p));
  }

  lemma DblIs<G(!new)>(c: Reading<G>, j: Jacobian, x: G)
    requires Homomorphic(c) && Is(c, j, x)
    ensures Is(c, G1Dbl(j, c.p), c.g.add(x, x))
  {
    hide IsPrime, IsAbelian, Additive, Is, Represents, OnCurve, G1Dbl, AffAdd;
    var a := PointOf(c, j, x);
    DblCorrect(j, a, c.p);
    AddOnCurve(a, a, c.b, c.p);
    AdditiveAt(c, a, a);
    IsPoint(c, G1Dbl(j, c.p), AffAdd(a, a, c.p));
  }

  /** The reflected point is read as the negative. */
  lemma NegPoint<G(!new)>(c: Reading<G>, a: Affine)
    requires Homomorphic(c) && OnCurve(a, c.b, c.p)
    ensures OnCurve(AffNeg(a, c.p), c.b, c.p) && c.point(AffNeg(a, c.p)) == c.g.neg(c.point(a))
  {
    hide IsPrime, IsAbelian, Additive, OnCurve, AffNeg, AffAdd;
    NegOnCurve(a, c.b, c.p);
    AffineLaws(a, a, c.b, c.p);
    AdditiveAt(c, a, AffNeg(a, c.p));
    NegUnique(c.g, c.point(a), c.point(AffNeg(a, c.p)));
  }

  lemma SubIs<G(!new)>(c: Reading<G>, j: Jacobian, l: Jacobian, x: G, y: G)
    requires Homomorphic(c) && Is(c, j, x) && Is(c, l, y)
    ensures Is(c, G1Sub(j, l, c.p), Sub(c.g, x, y))
  {
    hide IsPrime, IsAbelian, Additive, Is, Represents, OnCurve, G1Sub, AffAdd, AffNeg;
    var a := PointOf(c, j, x);
    var d := PointOf(c, l, y);
    SubCorrect(j, l, a, d, c.b, c.p);
    NegPoint(c, d);
    AddOnCurve(a, AffNeg(d, c.p), c.b, c.p);
    AdditiveAt(c, a, AffNeg(d, c.p));
    IsPoint(c, G1Sub(j, l, c.p), AffAdd(a, AffNeg(d, c.p), c.p));
  }

  /** The sign flip of the accumulation kernels: the affine pair with its y negated. */
  function PairNeg(q: AffinePair, p: int): AffinePair
    requires p > 0
  {
    AffinePair(q.x, FpNeg(q.y, p))
  }

  lemma PairNegRepresents(q: AffinePair, a: Affine, p: int)
    requires p > 0 && PairRepresents(q, a, p)
    ensures PairRepresents(PairNeg(q, p), AffNeg(a, p), p)
  {
    hide Res;
    FpNegIs(q.y, p);
    if a.Point? {
      TrackSub(0, 0, q.y, q.y, p);
      ElementsEqual(FpNeg(q.y, p), FrNeg(q.y, p), p);
    }
  }

  lemma PairNegIs<G(!new)>(c: Reading<G>, q: AffinePair, x: G)
    requires Homomorphic(c) && PairIs(c, q, x)
    ensures PairIs(c, PairNeg(q, c.p), c.g.neg(x))
  {
    hide IsPrime, IsAbelian, Additive, PairIs, PairRepresents, OnCurve, PairNeg, AffNeg;
    var a := PairPointOf(c, q, x);
    PairNegRepresents(q, a, c.p);
    NegPoint(c, a);
    PairIsPoint(c, PairNeg(q, c.p), AffNeg(a, c.p));
  }
}
