/** Jacobian point arithmetic on y^2 = x^3 + b against the affine chord-and-tangent law. */
module Curve {
  import opened Modular
  import opened Field

  // ------------------------------------------------------------ tracking values through field operations

  lemma TrackMul(a: int, A: int, b: int, B: int, p: int)
    requires p > 0 && Cong(a, A, p) && Cong(b, B, p)
    ensures Cong(FrMul(a, b, p), A * B, p)
  {
    hide Res;
    CongMul(a, A, b, B, p);
  }

  lemma TrackAdd(a: int, A: int, b: int, B: int, p: int)
    requires p > 0 && Cong(a, A, p) && Cong(b, B, p)
    ensures Cong(FrAdd(a, b, p), A + B, p)
  {
    hide Res;
    CongAdd(a, A, b, B, p);
  }

  lemma TrackSub(a: int, A: int, b: int, B: int, p: int)
    requires p > 0 && Cong(a, A, p) && Cong(b, B, p)
    ensures Cong(FrSub(a, b, p), A - B, p)
  {
    hide Res;
    CongSub(a, A, b, B, p);
  }

  function Sqr(a: int, p: int): int
    requires p > 0
  {
    FrMul(a, a, p)
  }

  function Dbl(a: int, p: int): int
    requires p > 0
  {
    FrAdd(a, a, p)
  }

  lemma TrackDbl(a: int, A: int, p: int)
    requires p > 0 && Cong(a, A, p)
    ensures Cong(Dbl(a, p), 2 * A, p)
  {
    TrackAdd(a, A, a, A, p);
  }

  // ------------------------------------------------------------ points

  /** The kernels' points: z == 0 is the point at infinity. */
  datatype Jacobian = Jacobian(x: int, y: int, z: int)

  /** The kernels' affine points: (0, 0) is the point at infinity. */
  datatype AffinePair = AffinePair(x: int, y: int)

  datatype Affine = Infinity | Point(x: int, y: int)

  ghost predicate InField(j: Jacobian, p: int) {
    Element(j.x, p) && Element(j.y, p) && Element(j.z, p)
  }

  ghost predicate OnCurve(a: Affine, b: int, p: int)
    requires p > 0
  {
    a.Point? ==> Element(a.x, p) && Element(a.y, p) && Cong(a.y * a.y, a.x * a.x * a.x + b, p)
  }

  /** X == x Z^2 and Y == y Z^3. */
  ghost predicate Represents(j: Jacobian, a: Affine, p: int)
    requires p > 0
  {
    && InField(j, p)
    && (j.z == 0 <==> a.Infinity?)
    && (a.Point? ==> Element(a.x, p) && Element(a.y, p)
                     && Cong(j.x, a.x * (j.z * j.z), p) && Cong(j.y, a.y * (j.z * j.z * j.z), p))
  }

  ghost predicate PairRepresents(q: AffinePair, a: Affine, p: int) {
    && Element(q.x, p) && Element(q.y, p)
    && a == if q.x == 0 && q.y == 0 then Infinity else Point(q.x, q.y)
  }

  // ------------------------------------------------------------ the affine law

  /** The third point of the line with slope lam through (x1, y1) that also meets the curve at x2, reflected. */
  function ThirdPoint(lam: int, x1: int, y1: int, x2: int, p: int): Affine
    requires p > 0
  {
    var x3 := FrSub(FrSub(FrMul(lam, lam, p), x1, p), x2, p);
    Point(x3, FrSub(FrMul(lam, FrSub(x1, x3, p), p), y1, p))
  }

  function TangentSlope(x: int, y: int, p: int): int
    requires p > 0
  {
    FrMul(FrMul(3, FrMul(x, x, p), p), FrInv(FrMul(2, y, p), p), p)
  }

  function ChordSlope(x1: int, y1: int, x2: int, y2: int, p: int): int
    requires p > 0
  {
    FrMul(FrSub(y2, y1, p), FrInv(FrSub(x2, x1, p), p), p)
  }

  function AffNeg(a: Affine, p: int): Affine
    requires p > 0
  {
    if a.Infinity? then a else Point(a.x, FrNeg(a.y, p))
  }

  function AffAdd(a: Affine, c: Affine, p: int): Affine
    requires p > 0
  {
    if a.Infinity? then c
    else if c.Infinity? then a
    else if a.x == c.x && FrAdd(a.y, c.y, p) == 0 then Infinity
    else if a.x == c.x then ThirdPoint(TangentSlope(a.x, a.y, p), a.x, a.y, a.x, p)
    else ThirdPoint(ChordSlope(a.x, a.y, c.x, c.y, p), a.x, a.y, c.x, p)
  }

  // ------------------------------------------------------------ slopes

  /** A nonzero element is not congruent to zero. */
  lemma Nonzero(a: int, p: int)
    requires Element(a, p)
    ensures Cong(a, 0, p) <==> a == 0
  {
    ResSmall(a, p);
    ResSmall(0, p);
  }

  /** Dividing by d and multiplying back. */
  lemma DivideBack(n: int, d: int, D: int, p: int)
    requires IsPrime(p) && Cong(d, D, p) && !Cong(D, 0, p)
    ensures Cong(FrMul(n, FrInv(d, p), p) * D, n, p)
  {
    hide Res, Pow, FrInv, FrMul;
    InverseCancels(d, p);
    var i := FrInv(d, p);
    var q := FrMul(n, i, p);
    CongMul(q, n * i, D, d, p);
    CongMul(n, n, d * i, 1, p);
    MulAssoc(n, i, d);
    assert i * d == d * i;
  }

  lemma ChordSlopeIs(x1: int, y1: int, x2: int, y2: int, p: int)
    requires IsPrime(p) && Element(x1, p) && Element(x2, p) && x1 != x2
    ensures Cong(ChordSlope(x1, y1, x2, y2, p) * (x2 - x1), y2 - y1, p)
  {
    hide Res, Pow, FrInv, FrMul, FrSub;
    if Cong(x2 - x1, 0, p) {
      CongAdd(x2 - x1, 0, x1, x1, p);
      ElementsEqual(x1, x2, p);
      assert false;
    }
    DivideBack(FrSub(y2, y1, p), FrSub(x2, x1, p), x2 - x1, p);
  }

  /** Twice a nonzero y is nonzero in odd characteristic. */
  lemma TwiceNonzero(y: int, p: int)
    requires IsPrime(p) && p > 3 && Element(y, p) && y != 0
    ensures !Cong(2 * y, 0, p) && FrAdd(y, y, p) != 0
  {
    hide Res, FrAdd;
    Nonzero(y, p);
    Nonzero(2, p);
    if Cong(2 * y, 0, p) {
      NoZeroDivisors(2, y, p);
      assert false;
    }
    Nonzero(0, p);
    TrackAdd(y, y, y, y, p);
  }

  lemma TangentSlopeIs(x: int, y: int, p: int)
    requires IsPrime(p) && p > 3 && Element(y, p) && y != 0
    ensures Cong(TangentSlope(x, y, p) * (2 * y), 3 * (x * x), p)
  {
    hide Res, Pow, FrInv, FrMul;
    TwiceNonzero(y, p);
    TrackMul(x, x, x, x, p);
    TrackMul(3, 3, FrMul(x, x, p), x * x, p);
    TrackMul(2, 2, y, y, p);
    DivideBack(FrMul(3, FrMul(x, x, p), p), FrMul(2, y, p), 2 * y, p);
  }

  // ------------------------------------------------------------ doubling

  /** dbl-2009-l, for a curve without linear term. */
  function G1Dbl(q: Jacobian, p: int): Jacobian
    requires p > 0
  {
    if q.z == 0 then q
    else
      var A := Sqr(q.x, p);
      var B := Sqr(q.y, p);
      var C := Sqr(B, p);
      var t0 := FrSub(FrSub(Sqr(FrAdd(q.x, B, p), p), A, p), C, p);
      var D := Dbl(t0, p);
      var E := FrAdd(Dbl(A, p), A, p);
      var F := Sqr(E, p);
      var x := FrSub(F, Dbl(D, p), p);
      var t1 := FrMul(E, FrSub(D, x, p), p);
      var t2 := Dbl(Dbl(Dbl(C, p), p), p);
      Jacobian(x, FrSub(t1, t2, p), Dbl(FrMul(q.y, q.z, p), p))
  }

  /** The doubling formulas as integer polynomials in the coordinates. */
  lemma DblPolynomials(q: Jacobian, p: int)
    requires p > 0 && q.z != 0
    ensures var e, d := 3 * (q.x * q.x), 4 * (q.x * (q.y * q.y));
      && Cong(G1Dbl(q, p).z, 2 * (q.y * q.z), p)
      && Cong(G1Dbl(q, p).x, e * e - 2 * d, p)
      && Cong(G1Dbl(q, p).y, e * (d - (e * e - 2 * d)) - 8 * ((q.y * q.y) * (q.y * q.y)), p)
  {
    hide Res, FrMul, FrAdd, FrSub;
    var X, Y, Z := q.x, q.y, q.z;
    var A, B := Sqr(X, p), Sqr(Y, p);
    TrackMul(X, X, X, X, p);
    TrackMul(Y, Y, Y, Y, p);
    var xx, yy := X * X, Y * Y;
    var C := Sqr(B, p);
    TrackMul(B, yy, B, yy, p);
    var s := FrAdd(X, B, p);
    TrackAdd(X, X, B, yy, p);
    TrackMul(s, X + yy, s, X + yy, p);
    TrackSub(Sqr(s, p), (X + yy) * (X + yy), A, xx, p);
    var t := FrSub(Sqr(s, p), A, p);
    TrackSub(t, (X + yy) * (X + yy) - xx, C, yy * yy, p);
    var t0 := FrSub(t, C, p);
    SquareOfSum(X, yy);
    TrackDbl(t0, 2 * (X * yy), p);
    var D, d := Dbl(t0, p), 4 * (X * yy);
    TrackDbl(A, xx, p);
    TrackAdd(Dbl(A, p), 2 * xx, A, xx, p);
    var E, e := FrAdd(Dbl(A, p), A, p), 3 * xx;
    TrackMul(E, e, E, e, p);
    TrackDbl(D, d, p);
    TrackSub(Sqr(E, p), e * e, Dbl(D, p), 2 * d, p);
    var x := FrSub(Sqr(E, p), Dbl(D, p), p);
    TrackSub(D, d, x, e * e - 2 * d, p);
    TrackMul(E, e, FrSub(D, x, p), d - (e * e - 2 * d), p);
    TrackDbl(C, yy * yy, p);
    TrackDbl(Dbl(C, p), 2 * (yy * yy), p);
    TrackDbl(Dbl(Dbl(C, p), p), 2 * (2 * (yy * yy)), p);
    TrackSub(FrMul(E, FrSub(D, x, p), p), e * (d - (e * e - 2 * d)), Dbl(Dbl(Dbl(C, p), p), p), 8 * (yy * yy), p);
    TrackMul(Y, Y, Z, Z, p);
    TrackDbl(FrMul(Y, Z, p), Y * Z, p);
  }

  lemma SquareOfSum(a: int, b: int)
    ensures (a + b) * (a + b) - a * a - b * b == 2 * (a * b)
  {
  }

  /** The x coordinate of a point given by slope lam, scaled by z3. */
  lemma ScaledX(lam: int, x1: int, x2: int, z3: int, K: int, V: int, U: int, p: int)
    requires p > 0 && Cong(K, lam * z3, p) && Cong(V, x1 * (z3 * z3), p) && Cong(U, x2 * (z3 * z3), p)
    ensures Cong(K * K - V - U, (lam * lam - x1 - x2) * (z3 * z3), p)
  {
    hide Res;
    var zz := z3 * z3;
    CongMul(K, lam * z3, K, lam * z3, p);
    CongSub(K * K, (lam * z3) * (lam * z3), V, x1 * zz, p);
    CongSub(K * K - V, (lam * z3) * (lam * z3) - x1 * zz, U, x2 * zz, p);
    MulSwap(lam, z3, lam, z3);
    MulDistrib(lam * lam, x1, zz);
    MulDistrib(lam * lam - x1, x2, zz);
  }

  /** The y coordinate, from the scaled x. */
  lemma ScaledY(lam: int, x1: int, y1: int, x3: int, z3: int, K: int, V: int, X3: int, S: int, p: int)
    requires p > 0 && Cong(K, lam * z3, p) && Cong(V, x1 * (z3 * z3), p) && Cong(X3, x3 * (z3 * z3), p)
    requires Cong(S, y1 * (z3 * z3 * z3), p)
    ensures Cong(K * (V - X3) - S, (lam * (x1 - x3) - y1) * (z3 * z3 * z3), p)
  {
    hide Res;
    var zz, zzz := z3 * z3, z3 * z3 * z3;
    CongSub(V, x1 * zz, X3, x3 * zz, p);
    CongMul(K, lam * z3, V - X3, x1 * zz - x3 * zz, p);
    MulDistrib(x1, x3, zz);
    MulSwap(lam, z3, x1 - x3, zz);
    MulAssoc(z3, z3, z3);
    CongSub(K * (V - X3), (lam * (x1 - x3)) * zzz, S, y1 * zzz, p);
    MulDistrib(lam * (x1 - x3), y1, zzz);
  }

  /** A point given by slope lam, scaled by z3: common to doubling and both additions. */
  lemma ScaledThirdPoint(lam: int, x1: int, y1: int, x2: int, z3: int, K: int, V: int, U: int, S: int, p: int)
    requires p > 0 && Cong(K, lam * z3, p) && Cong(V, x1 * (z3 * z3), p) && Cong(U, x2 * (z3 * z3), p)
    requires Cong(S, y1 * (z3 * z3 * z3), p)
    ensures var x3 := lam * lam - x1 - x2;
      && Cong(K * K - V - U, x3 * (z3 * z3), p)
      && Cong(K * (V - (K * K - V - U)) - S, (lam * (x1 - x3) - y1) * (z3 * z3 * z3), p)
  {
    hide Cong;
    ScaledX(lam, x1, x2, z3, K, V, U, p);
    ScaledY(lam, x1, y1, lam * lam - x1 - x2, z3, K, V, K * K - V - U, S, p);
  }

  /** The three scaled quantities of doubling. */
  lemma DblScaled(X: int, Y: int, Z: int, x: int, y: int, lam: int, p: int)
    requires p > 0 && Cong(X, x * (Z * Z), p) && Cong(Y, y * (Z * Z * Z), p) && Cong(lam * (2 * y), 3 * (x * x), p)
    ensures var z3 := 2 * (Y * Z);
      && Cong(3 * (X * X), lam * z3, p)
      && Cong(4 * (X * (Y * Y)), x * (z3 * z3), p)
      && Cong(8 * ((Y * Y) * (Y * Y)), y * (z3 * z3 * z3), p)
  {
    hide Res;
    var zz, zzz, z3 := Z * Z, Z * Z * Z, 2 * (Y * Z);
    // slope
    CongMul(Y, y * zzz, Z, Z, p);
    CongMul(2 * lam, 2 * lam, Y * Z, (y * zzz) * Z, p);
    CongMul(lam * (2 * y), 3 * (x * x), zz * zz, zz * zz, p);
    CongMul(X, x * zz, X, x * zz, p);
    CongMul(3, 3, X * X, (x * zz) * (x * zz), p);
    DblSlopeForms(lam, Y, Z, x, y);
    // x
    CongMul(X, x * zz, Y * Y, Y * Y, p);
    CongMul(4, 4, X * (Y * Y), (x * zz) * (Y * Y), p);
    DblXForm(x, Y, Z);
    // y
    CongMul(Y, y * zzz, Y * Y * Y, Y * Y * Y, p);
    CongMul(8, 8, Y * (Y * Y * Y), (y * zzz) * (Y * Y * Y), p);
    DblYForm(y, Y, Z);
  }

  lemma DblSlopeForms(lam: int, Y: int, Z: int, x: int, y: int)
    ensures (2 * lam) * (Y * Z) == lam * (2 * (Y * Z))
    ensures (2 * lam) * ((y * (Z * Z * Z)) * Z) == (lam * (2 * y)) * ((Z * Z) * (Z * Z))
    ensures (3 * (x * x)) * ((Z * Z) * (Z * Z)) == 3 * ((x * (Z * Z)) * (x * (Z * Z)))
  {
  }

  lemma DblXForm(x: int, Y: int, Z: int)
    ensures 4 * ((x * (Z * Z)) * (Y * Y)) == x * ((2 * (Y * Z)) * (2 * (Y * Z)))
  {
  }

  lemma DblYForm(y: int, Y: int, Z: int)
    ensures 8 * ((Y * Y) * (Y * Y)) == 8 * (Y * (Y * Y * Y))
    ensures 8 * ((y * (Z * Z * Z)) * (Y * Y * Y)) == y * ((2 * (Y * Z)) * (2 * (Y * Z)) * (2 * (Y * Z)))
  {
  }

  lemma ThirdPointIs(lam: int, x1: int, y1: int, x2: int, p: int)
    requires p > 0
    ensures var t := ThirdPoint(lam, x1, y1, x2, p); var x3 := lam * lam - x1 - x2;
      t.Point? && Element(t.x, p) && Element(t.y, p) && Cong(t.x, x3, p) && Cong(t.y, lam * (x1 - x3) - y1, p)
  {
    hide Res, FrMul, FrSub;
    TrackMul(lam, lam, lam, lam, p);
    TrackSub(FrMul(lam, lam, p), lam * lam, x1, x1, p);
    TrackSub(FrSub(FrMul(lam, lam, p), x1, p), lam * lam - x1, x2, x2, p);
    var x := ThirdPoint(lam, x1, y1, x2, p).x;
    var x3 := lam * lam - x1 - x2;
    TrackSub(x1, x1, x, x3, p);
    TrackMul(lam, lam, FrSub(x1, x, p), x1 - x3, p);
    TrackSub(FrMul(lam, FrSub(x1, x, p), p), lam * (x1 - x3), y1, y1, p);
  }

  /** Coordinates congruent to a scaled third point represent it. */
  lemma ScaledRepresents(r: Jacobian, lam: int, x1: int, y1: int, x2: int, z3: int, X3: int, Y3: int, p: int)
    requires p > 0 && InField(r, p) && !Cong(z3, 0, p) && Cong(r.z, z3, p) && Cong(r.x, X3, p) && Cong(r.y, Y3, p)
    requires var x3 := lam * lam - x1 - x2;
      Cong(X3, x3 * (z3 * z3), p) && Cong(Y3, (lam * (x1 - x3) - y1) * (z3 * z3 * z3), p)
    ensures Represents(r, ThirdPoint(lam, x1, y1, x2, p), p)
  {
    hide Res, ThirdPoint;
    ThirdPointIs(lam, x1, y1, x2, p);
    var t, x3 := ThirdPoint(lam, x1, y1, x2, p), lam * lam - x1 - x2;
    Nonzero(r.z, p);
    CongMul(r.z, z3, r.z, z3, p);
    CongMul(r.z * r.z, z3 * z3, r.z, z3, p);
    CongMul(t.x, x3, r.z * r.z, z3 * z3, p);
    CongMul(t.y, lam * (x1 - x3) - y1, r.z * r.z * r.z, z3 * z3 * z3, p);
  }

  lemma ProductNonzero(a: int, c: int, p: int)
    requires IsPrime(p) && !Cong(a, 0, p) && !Cong(c, 0, p)
    ensures !Cong(a * c, 0, p)
  {
    hide Res;
    if Cong(a * c, 0, p) {
      NoZeroDivisors(a, c, p);
    }
  }

  lemma TwoNonzero(p: int)
    requires p > 3
    ensures !Cong(2, 0, p)
  {
    Nonzero(2, p);
  }

  lemma DblInField(q: Jacobian, p: int)
    requires p > 0 && InField(q, p)
    ensures InField(G1Dbl(q, p), p)
  {
    hide FrMul, FrAdd, FrSub;
  }

  /** Doubling, on every representable point: identity in, a point of order two, the general case. */
  lemma DblCorrect(q: Jacobian, a: Affine, p: int)
    requires IsPrime(p) && p > 3 && Represents(q, a, p)
    ensures Represents(G1Dbl(q, p), AffAdd(a, a, p), p)
  {
    hide Res, FrMul, FrAdd, FrSub, G1Dbl, ThirdPoint, TangentSlope, IsPrime;
    if q.z == 0 {
      DblOfIdentity(q, p);
    } else {
      var X, Y, Z := q.x, q.y, q.z;
      var r := G1Dbl(q, p);
      DblInField(q, p);
      DblPolynomials(q, p);
      Nonzero(Z, p);
      Nonzero(Y, p);
      Nonzero(a.y, p);
      Nonzero(r.z, p);
      if a.y == 0 {
        CongMul(a.y, 0, Z * Z * Z, Z * Z * Z, p);
        CongMul(2 * Z, 2 * Z, Y, 0, p);
        assert (2 * Z) * Y == 2 * (Y * Z);
        TrackAdd(a.y, 0, a.y, 0, p);
        Nonzero(FrAdd(a.y, a.y, p), p);
      } else {
        TwiceNonzero(a.y, p);
        ProductNonzero(Z, Z, p);
        ProductNonzero(Z * Z, Z, p);
        ProductNonzero(a.y, Z * Z * Z, p);
        TwoNonzero(p);
        ProductNonzero(Y, Z, p);
        ProductNonzero(2, Y * Z, p);
        var lam := TangentSlope(a.x, a.y, p);
        TangentSlopeIs(a.x, a.y, p);
        DblScaled(X, Y, Z, a.x, a.y, lam, p);
        var z3, e, d := 2 * (Y * Z), 3 * (X * X), 4 * (X * (Y * Y));
        ScaledThirdPoint(lam, a.x, a.y, a.x, z3, e, d, d, 8 * ((Y * Y) * (Y * Y)), p);
        ScaledRepresents(r, lam, a.x, a.y, a.x, z3, e * e - d - d, e * (d - (e * e - d - d)) - 8 * ((Y * Y) * (Y * Y)),
                         p);
      }
    }
  }

  lemma DblOfIdentity(q: Jacobian, p: int)
    requires p > 0 && q.z == 0
    ensures G1Dbl(q, p) == q
  {
  }

  // ------------------------------------------------------------ addition

  function G1Identity(p: int): Jacobian
    requires p > 0
  {
    Jacobian(0, Res(1, p), 0)
  }

  /** The common tail of both additions, from H, I, S1, K and V on. */
  function AddTail(H: int, I: int, S1: int, K: int, V: int, z: int, p: int): Jacobian
    requires p > 0
  {
    var J := FrMul(H, I, p);
    var x := FrSub(FrSub(Sqr(K, p), J, p), Dbl(V, p), p);
    var t := FrMul(K, FrSub(V, x, p), p);
    Jacobian(x, FrSub(t, Dbl(FrMul(S1, J, p), p), p), z)
  }

  /** add-2007-bl */
  function G1Add(a: Jacobian, c: Jacobian, p: int): Jacobian
    requires p > 0
  {
    if a.z == 0 then c
    else if c.z == 0 then a
    else
      var Z1Z1 := Sqr(a.z, p);
      var Z2Z2 := Sqr(c.z, p);
      var U1 := FrMul(a.x, Z2Z2, p);
      var U2 := FrMul(c.x, Z1Z1, p);
      var S1 := FrMul(a.y, FrMul(c.z, Z2Z2, p), p);
      var S2 := FrMul(c.y, FrMul(a.z, Z1Z1, p), p);
      if U1 == U2 then
        if S1 == S2 then G1Dbl(a, p) else G1Identity(p)
      else
        var H := FrSub(U2, U1, p);
        var I := Sqr(Dbl(H, p), p);
        var K := Dbl(FrSub(S2, S1, p), p);
        var V := FrMul(U1, I, p);
        var z := FrSub(FrSub(Sqr(FrAdd(a.z, c.z, p), p), Z1Z1, p), Z2Z2, p);
        AddTail(H, I, S1, K, V, FrMul(z, H, p), p)
  }

  /** madd-2007-bl: Jacobian plus affine. */
  function G1Madd(a: Jacobian, c: AffinePair, p: int): Jacobian
    requires p > 0
  {
    if c.x == 0 && c.y == 0 then a
    else if a.z == 0 then Jacobian(c.x, c.y, Res(1, p))
    else
      var Z1Z1 := Sqr(a.z, p);
      var U2 := FrMul(c.x, Z1Z1, p);
      var S2 := FrMul(c.y, FrMul(a.z, Z1Z1, p), p);
      if a.x == U2 then
        if a.y == S2 then G1Dbl(a, p) else G1Identity(p)
      else
        var H := FrSub(U2, a.x, p);
        var HH := Sqr(H, p);
        var I := Dbl(Dbl(HH, p), p);
        var K := Dbl(FrSub(S2, a.y, p), p);
        var V := FrMul(a.x, I, p);
        var z := FrSub(FrSub(Sqr(FrAdd(a.z, H, p), p), Z1Z1, p), HH, p);
        AddTail(H, I, a.y, K, V, z, p)
  }

  function G1Neg(a: Jacobian, p: int): Jacobian
    requires p > 0
  {
    Jacobian(a.x, FpNeg(a.y, p), a.z)
  }

  function FpNeg(y: int, p: int): int
    requires p > 0
  {
    if y == 0 then y else FrSub(0, y, p)
  }

  function G1Sub(a: Jacobian, c: Jacobian, p: int): Jacobian
    requires p > 0
  {
    G1Add(a, G1Neg(c, p), p)
  }

  lemma AddTailPolynomials(H: int, h: int, I: int, i: int, S1: int, s1: int, K: int, k: int, V: int, v: int, z: int,
                           p: int)
    requires p > 0 && Cong(H, h, p) && Cong(I, i, p) && Cong(S1, s1, p) && Cong(K, k, p) && Cong(V, v, p)
    ensures var r := AddTail(H, I, S1, K, V, z, p); var x := k * k - h * i - 2 * v;
      Cong(r.x, x, p) && Cong(r.y, k * (v - x) - 2 * (s1 * (h * i)), p) && Element(r.x, p) && Element(r.y, p) && r.z == z
  {
    hide Res, FrMul, FrAdd, FrSub;
    var J := FrMul(H, I, p);
    TrackMul(H, h, I, i, p);
    TrackMul(K, k, K, k, p);
    TrackSub(Sqr(K, p), k * k, J, h * i, p);
    TrackDbl(V, v, p);
    TrackSub(FrSub(Sqr(K, p), J, p), k * k - h * i, Dbl(V, p), 2 * v, p);
    var xc, x := FrSub(FrSub(Sqr(K, p), J, p), Dbl(V, p), p), k * k - h * i - 2 * v;
    TrackSub(V, v, xc, x, p);
    TrackMul(K, k, FrSub(V, xc, p), v - x, p);
    TrackMul(S1, s1, J, h * i, p);
    TrackDbl(FrMul(S1, J, p), s1 * (h * i), p);
    TrackSub(FrMul(K, FrSub(V, xc, p), p), k * (v - x), Dbl(FrMul(S1, J, p), p), 2 * (s1 * (h * i)), p);
  }

  /** The four scaled quantities of addition. */
  lemma AddScaled(u1: int, u2: int, s1: int, s2: int, W: int, x1: int, y1: int, x2: int, y2: int, lam: int, p: int)
    requires p > 0 && Cong(u1, x1 * (W * W), p) && Cong(u2, x2 * (W * W), p)
    requires Cong(s1, y1 * (W * W * W), p) && Cong(s2, y2 * (W * W * W), p) && Cong(lam * (x2 - x1), y2 - y1, p)
    ensures var h := u2 - u1; var z3, i := 2 * (W * h), 4 * (h * h);
      && Cong(2 * (s2 - s1), lam * z3, p)
      && Cong(u1 * i, x1 * (z3 * z3), p) && Cong(u2 * i, x2 * (z3 * z3), p)
      && Cong(2 * (s1 * (h * i)), y1 * (z3 * z3 * z3), p)
  {
    hide Res;
    var h := u2 - u1;
    var z3, i := 2 * (W * h), 4 * (h * h);
    var ww, www := W * W, W * W * W;
    CongMul(u1, x1 * ww, i, i, p);
    CongMul(u2, x2 * ww, i, i, p);
    AddXForm(x1, W, h);
    AddXForm(x2, W, h);
    CongMul(s1, y1 * www, 2 * (h * i), 2 * (h * i), p);
    AddYForm(s1, y1, W, h);
    CongSub(u2, x2 * ww, u1, x1 * ww, p);
    MulDistrib(x2, x1, ww);
    CongMul((2 * lam) * W, (2 * lam) * W, h, (x2 - x1) * ww, p);
    CongMul(lam * (x2 - x1), y2 - y1, 2 * www, 2 * www, p);
    CongSub(s2, y2 * www, s1, y1 * www, p);
    MulDistrib(y2, y1, www);
    CongMul(2, 2, s2 - s1, (y2 - y1) * www, p);
    AddSlopeForms(lam, W, h, x2 - x1, y2 - y1);
  }

  lemma AddXForm(x: int, W: int, h: int)
    ensures (x * (W * W)) * (4 * (h * h)) == x * ((2 * (W * h)) * (2 * (W * h)))
  {
  }

  lemma AddYForm(s: int, y: int, W: int, h: int)
    ensures s * (2 * (h * (4 * (h * h)))) == 2 * (s * (h * (4 * (h * h))))
    ensures (y * (W * W * W)) * (2 * (h * (4 * (h * h)))) == y * ((2 * (W * h)) * (2 * (W * h)) * (2 * (W * h)))
  {
  }

  lemma AddSlopeForms(lam: int, W: int, h: int, dx: int, dy: int)
    ensures ((2 * lam) * W) * h == lam * (2 * (W * h))
    ensures ((2 * lam) * W) * (dx * (W * W)) == (lam * dx) * (2 * (W * W * W))
    ensures dy * (2 * (W * W * W)) == 2 * (dy * (W * W * W))
  {
  }

  /** A tail fed with scaled quantities represents the third point of the chord. */
  lemma TailRepresents(r: Jacobian, h: int, i: int, s1: int, k: int, v: int, u2: int, z3: int, lam: int, x1: int,
                       y1: int, x2: int, p: int)
    requires p > 0 && InField(r, p) && !Cong(z3, 0, p) && Cong(r.z, z3, p)
    requires h * i == u2 - v
    requires Cong(r.x, k * k - h * i - 2 * v, p) && Cong(r.y, k * (v - (k * k - h * i - 2 * v)) - 2 * (s1 * (h * i)), p)
    requires Cong(k, lam * z3, p) && Cong(v, x1 * (z3 * z3), p) && Cong(u2, x2 * (z3 * z3), p)
    requires Cong(2 * (s1 * (h * i)), y1 * (z3 * z3 * z3), p)
    ensures Represents(r, ThirdPoint(lam, x1, y1, x2, p), p)
  {
    hide Res, ThirdPoint;
    var S := 2 * (s1 * (h * i));
    ScaledThirdPoint(lam, x1, y1, x2, z3, k, v, u2, S, p);
    ScaledRepresents(r, lam, x1, y1, x2, z3, k * k - v - u2, k * (v - (k * k - v - u2)) - S, p);
  }

  /** Both additions in the general case: U and S are the cross-scaled coordinates, W the scale. */
  lemma ChordPart(U1: int, U2: int, S1: int, S2: int, W: int, x1: int, y1: int, x2: int, y2: int, H: int, I: int,
                  z: int, p: int)
    requires IsPrime(p) && p > 3 && Element(x1, p) && Element(x2, p) && x1 != x2 && Element(U1, p) && Element(U2, p)
    requires U1 != U2
    requires Cong(U1, x1 * (W * W), p) && Cong(U2, x2 * (W * W), p) && Cong(S1, y1 * (W * W * W), p)
    requires Cong(S2, y2 * (W * W * W), p)
    requires !Cong(W, 0, p) && Cong(H, U2 - U1, p) && Cong(I, 4 * ((U2 - U1) * (U2 - U1)), p)
    requires Element(z, p) && Cong(z, 2 * (W * (U2 - U1)), p)
    ensures Represents(AddTail(H, I, S1, Dbl(FrSub(S2, S1, p), p), FrMul(U1, I, p), z, p),
                       ThirdPoint(ChordSlope(x1, y1, x2, y2, p), x1, y1, x2, p), p)
  {
    hide Res, FrMul, FrAdd, FrSub, AddTail, ThirdPoint, ChordSlope, IsPrime;
    var lam := ChordSlope(x1, y1, x2, y2, p);
    ChordSlopeIs(x1, y1, x2, y2, p);
    var h := U2 - U1;
    var i, z3, k := 4 * (h * h), 2 * (W * h), 2 * (S2 - S1);
    AddScaled(U1, U2, S1, S2, W, x1, y1, x2, y2, lam, p);
    DifferenceNonzero(U1, U2, p);
    TwoNonzero(p);
    ProductNonzero(W, h, p);
    ProductNonzero(2, W * h, p);
    TrackSub(S2, S2, S1, S1, p);
    TrackDbl(FrSub(S2, S1, p), S2 - S1, p);
    TrackMul(U1, U1, I, i, p);
    MulDistrib(U2, U1, i);
    var r := AddTail(H, I, S1, Dbl(FrSub(S2, S1, p), p), FrMul(U1, I, p), z, p);
    AddTailPolynomials(H, h, I, i, S1, S1, Dbl(FrSub(S2, S1, p), p), k, FrMul(U1, I, p), U1 * i, z, p);
    TailRepresents(r, h, i, S1, k, U1 * i, U2 * i, z3, lam, x1, y1, x2, p);
  }

  lemma DifferenceNonzero(a: int, c: int, p: int)
    requires p > 0 && Element(a, p) && Element(c, p) && a != c
    ensures !Cong(c - a, 0, p)
  {
    hide Res;
    if Cong(c - a, 0, p) {
      CongAdd(c - a, 0, a, a, p);
      ElementsEqual(c, a, p);
    }
  }

  /** Scaling by a nonzero factor separates elements. */
  lemma ScaledEqual(u1: int, u2: int, x1: int, x2: int, w: int, p: int)
    requires IsPrime(p) && Element(u1, p) && Element(u2, p) && Element(x1, p) && Element(x2, p)
    requires !Cong(w, 0, p) && Cong(u1, x1 * w, p) && Cong(u2, x2 * w, p)
    ensures u1 == u2 <==> x1 == x2
  {
    hide Res;
    if u1 == u2 {
      assert x1 * w == w * x1 && x2 * w == w * x2;
      CancelLeft(w, x1, x2, p);
      ElementsEqual(x1, x2, p);
    }
    if x1 == x2 {
      ElementsEqual(u1, u2, p);
    }
  }

  /** Multiplying through by the other point's scale. */
  lemma CrossScaled(X: int, Y: int, Z: int, x: int, y: int, T: int, p: int)
    requires p > 0 && Cong(X, x * (Z * Z), p) && Cong(Y, y * (Z * Z * Z), p)
    ensures var W := Z * T; Cong(X * (T * T), x * (W * W), p) && Cong(Y * (T * (T * T)), y * (W * W * W), p)
  {
    hide Res;
    CongMul(X, x * (Z * Z), T * T, T * T, p);
    CongMul(Y, y * (Z * Z * Z), T * (T * T), T * (T * T), p);
    CrossForms(x, y, Z, T);
  }

  lemma CrossForms(x: int, y: int, Z: int, T: int)
    ensures (x * (Z * Z)) * (T * T) == x * ((Z * T) * (Z * T))
    ensures (y * (Z * Z * Z)) * (T * (T * T)) == y * ((Z * T) * (Z * T) * (Z * T))
  {
  }

  /** Two points of the curve with the same x are equal or opposite. */
  lemma SameX(a: Affine, c: Affine, b: int, p: int)
    requires IsPrime(p) && OnCurve(a, b, p) && OnCurve(c, b, p) && a.Point? && c.Point? && a.x == c.x && a.y != c.y
    ensures FrAdd(a.y, c.y, p) == 0
  {
    hide Res, FrAdd;
    CongSub(a.y * a.y, a.x * a.x * a.x + b, c.y * c.y, a.x * a.x * a.x + b, p);
    assert a.y * a.y - c.y * c.y == (a.y - c.y) * (a.y + c.y) by {
      MulDistrib(a.y, c.y, a.y + c.y);
      MulDistrib(a.y, c.y, a.y);
      MulDistrib(a.y, c.y, c.y);
    }
    NoZeroDivisors(a.y - c.y, a.y + c.y, p);
    DifferenceNonzero(c.y, a.y, p);
    TrackAdd(a.y, a.y, c.y, c.y, p);
    Nonzero(FrAdd(a.y, c.y, p), p);
  }

  lemma IdentityRepresents(p: int)
    requires p > 0
    ensures Represents(G1Identity(p), Infinity, p)
  {
    ResRange(1, p);
  }

  /** Coordinates of the full addition, cross-scaled. */
  lemma AddFront(j: Jacobian, l: Jacobian, a: Affine, c: Affine, p: int)
    requires IsPrime(p) && Represents(j, a, p) && Represents(l, c, p) && a.Point? && c.Point?
    ensures var Z1Z1, Z2Z2, W := Sqr(j.z, p), Sqr(l.z, p), j.z * l.z;
      && !Cong(W, 0, p)
      && Cong(FrMul(j.x, Z2Z2, p), a.x * (W * W), p) && Cong(FrMul(j.y, FrMul(l.z, Z2Z2, p), p), a.y * (W * W * W), p)
      && Cong(FrMul(l.x, Z1Z1, p), c.x * (W * W), p) && Cong(FrMul(l.y, FrMul(j.z, Z1Z1, p), p), c.y * (W * W * W), p)
      && Cong(FrSub(FrSub(Sqr(FrAdd(j.z, l.z, p), p), Z1Z1, p), Z2Z2, p), 2 * W, p)
  {
    hide Res, FrMul, FrAdd, FrSub, IsPrime;
    Nonzero(j.z, p);
    Nonzero(l.z, p);
    ProductNonzero(j.z, l.z, p);
    CrossHalf(j.x, j.y, j.z, a.x, a.y, l.z, p);
    CrossHalf(l.x, l.y, l.z, c.x, c.y, j.z, p);
    assert l.z * j.z == j.z * l.z;
    var Z1Z1, Z2Z2, s := Sqr(j.z, p), Sqr(l.z, p), FrAdd(j.z, l.z, p);
    TrackMul(j.z, j.z, j.z, j.z, p);
    TrackMul(l.z, l.z, l.z, l.z, p);
    TrackAdd(j.z, j.z, l.z, l.z, p);
    TrackMul(s, j.z + l.z, s, j.z + l.z, p);
    TrackSub(Sqr(s, p), (j.z + l.z) * (j.z + l.z), Z1Z1, j.z * j.z, p);
    TrackSub(FrSub(Sqr(s, p), Z1Z1, p), (j.z + l.z) * (j.z + l.z) - j.z * j.z, Z2Z2, l.z * l.z, p);
    SquareOfSum(j.z, l.z);
  }

  lemma CrossHalf(X: int, Y: int, Z: int, x: int, y: int, T: int, p: int)
    requires p > 0 && Cong(X, x * (Z * Z), p) && Cong(Y, y * (Z * Z * Z), p)
    ensures var W := Z * T;
      Cong(FrMul(X, Sqr(T, p), p), x * (W * W), p) && Cong(FrMul(Y, FrMul(T, Sqr(T, p), p), p), y * (W * W * W), p)
  {
    hide Res, FrMul;
    CrossScaled(X, Y, Z, x, y, T, p);
    TrackMul(T, T, T, T, p);
    TrackMul(X, X, Sqr(T, p), T * T, p);
    TrackMul(T, T, Sqr(T, p), T * T, p);
    TrackMul(Y, Y, FrMul(T, Sqr(T, p), p), T * (T * T), p);
  }

  /** H, I and z of the full addition. */
  lemma AddMiddle(U1: int, U2: int, z: int, W: int, p: int)
    requires p > 0 && Cong(z, 2 * W, p)
    ensures var H := FrSub(U2, U1, p); var h := U2 - U1;
      && Cong(H, h, p) && Cong(Sqr(Dbl(H, p), p), 4 * (h * h), p) && Cong(FrMul(z, H, p), 2 * (W * h), p)
  {
    hide Res, FrMul, FrAdd, FrSub;
    var H, h := FrSub(U2, U1, p), U2 - U1;
    TrackSub(U2, U2, U1, U1, p);
    TrackDbl(H, h, p);
    TrackMul(Dbl(H, p), 2 * h, Dbl(H, p), 2 * h, p);
    MulSwap(2, h, 2, h);
    TrackMul(z, 2 * W, H, h, p);
    MulAssoc(2, W, h);
  }

  /** Addition, on every pair of representable points of the curve: identities, equal points, opposite
      points, and the general case. */
  lemma AddCorrect(j: Jacobian, l: Jacobian, a: Affine, c: Affine, b: int, p: int)
    requires IsPrime(p) && p > 3 && Represents(j, a, p) && Represents(l, c, p) && OnCurve(a, b, p) && OnCurve(c, b, p)
    ensures Represents(G1Add(j, l, p), AffAdd(a, c, p), p)
  {
    hide Res, FrMul, FrAdd, FrSub, AddTail, ThirdPoint, ChordSlope, TangentSlope, G1Dbl, G1Identity, IsPrime;
    if j.z != 0 && l.z != 0 {
      AddFront(j, l, a, c, p);
      var W := j.z * l.z;
      var U1, U2 := FrMul(j.x, Sqr(l.z, p), p), FrMul(l.x, Sqr(j.z, p), p);
      var S1, S2 := FrMul(j.y, FrMul(l.z, Sqr(l.z, p), p), p), FrMul(l.y, FrMul(j.z, Sqr(j.z, p), p), p);
      ProductNonzero(W, W, p);
      ProductNonzero(W * W, W, p);
      ScaledEqual(U1, U2, a.x, c.x, W * W, p);
      ScaledEqual(S1, S2, a.y, c.y, W * W * W, p);
      if U1 == U2 {
        if S1 == S2 {
          assert a == c;
          DblCorrect(j, a, p);
        } else {
          SameX(a, c, b, p);
          IdentityRepresents(p);
        }
      } else {
        var H := FrSub(U2, U1, p);
        var z := FrSub(FrSub(Sqr(FrAdd(j.z, l.z, p), p), Sqr(j.z, p), p), Sqr(l.z, p), p);
        AddMiddle(U1, U2, z, W, p);
        ChordPart(U1, U2, S1, S2, W, a.x, a.y, c.x, c.y, H, Sqr(Dbl(H, p), p), FrMul(z, H, p), p);
      }
    }
  }

  /** U2, S2, H, I and z of the mixed addition. */
  lemma MaddFront(j: Jacobian, q: AffinePair, p: int)
    requires p > 0
    ensures var Z, Z1Z1 := j.z, Sqr(j.z, p);
      var U2 := FrMul(q.x, Z1Z1, p);
      var H, h := FrSub(U2, j.x, p), U2 - j.x;
      && Cong(U2, q.x * (Z * Z), p) && Cong(FrMul(q.y, FrMul(Z, Z1Z1, p), p), q.y * (Z * Z * Z), p)
      && Cong(H, h, p) && Cong(Dbl(Dbl(Sqr(H, p), p), p), 4 * (h * h), p)
      && Cong(FrSub(FrSub(Sqr(FrAdd(Z, H, p), p), Z1Z1, p), Sqr(H, p), p), 2 * (Z * h), p)
  {
    hide Res, FrMul, FrAdd, FrSub;
    var Z, Z1Z1 := j.z, Sqr(j.z, p);
    TrackMul(Z, Z, Z, Z, p);
    var U2 := FrMul(q.x, Z1Z1, p);
    TrackMul(q.x, q.x, Z1Z1, Z * Z, p);
    TrackMul(Z, Z, Z1Z1, Z * Z, p);
    TrackMul(q.y, q.y, FrMul(Z, Z1Z1, p), Z * (Z * Z), p);
    var H, h := FrSub(U2, j.x, p), U2 - j.x;
    TrackSub(U2, U2, j.x, j.x, p);
    TrackMul(H, h, H, h, p);
    TrackDbl(Sqr(H, p), h * h, p);
    TrackDbl(Dbl(Sqr(H, p), p), 2 * (h * h), p);
    var s := FrAdd(Z, H, p);
    TrackAdd(Z, Z, H, h, p);
    TrackMul(s, Z + h, s, Z + h, p);
    TrackSub(Sqr(s, p), (Z + h) * (Z + h), Z1Z1, Z * Z, p);
    TrackSub(FrSub(Sqr(s, p), Z1Z1, p), (Z + h) * (Z + h) - Z * Z, Sqr(H, p), h * h, p);
    SquareOfSum(Z, h);
  }

  /** Mixed addition, on every representable point and every affine pair of the curve. */
  lemma MaddCorrect(j: Jacobian, q: AffinePair, a: Affine, c: Affine, b: int, p: int)
    requires IsPrime(p) && p > 3 && Represents(j, a, p) && PairRepresents(q, c, p) && OnCurve(a, b, p)
    requires OnCurve(c, b, p)
    ensures Represents(G1Madd(j, q, p), AffAdd(a, c, p), p)
  {
    hide Res, FrMul, FrAdd, FrSub, AddTail, ThirdPoint, ChordSlope, TangentSlope, G1Dbl, G1Identity, IsPrime;
    if c.Point? {
      if j.z == 0 {
        ResSmall(1, p);
      } else {
        MaddFront(j, q, p);
        var Z := j.z;
        var U2, S2 := FrMul(q.x, Sqr(Z, p), p), FrMul(q.y, FrMul(Z, Sqr(Z, p), p), p);
        Nonzero(Z, p);
        ProductNonzero(Z, Z, p);
        ProductNonzero(Z * Z, Z, p);
        ScaledEqual(j.x, U2, a.x, c.x, Z * Z, p);
        ScaledEqual(j.y, S2, a.y, c.y, Z * Z * Z, p);
        if j.x == U2 {
          if j.y == S2 {
            assert a == c;
            DblCorrect(j, a, p);
          } else {
            SameX(a, c, b, p);
            IdentityRepresents(p);
          }
        } else {
          var H := FrSub(U2, j.x, p);
          var z := FrSub(FrSub(Sqr(FrAdd(Z, H, p), p), Sqr(Z, p), p), Sqr(H, p), p);
          ChordPart(j.x, U2, j.y, S2, Z, a.x, a.y, c.x, c.y, H, Dbl(Dbl(Sqr(H, p), p), p), z, p);
        }
      }
    }
  }

  /** Flipping y negates, and subtraction adds the negation. */
  lemma NegCorrect(j: Jacobian, a: Affine, p: int)
    requires p > 0 && Represents(j, a, p)
    ensures Represents(G1Neg(j, p), AffNeg(a, p), p)
  {
    hide Res;
    if a.Point? {
      var k := j.z * j.z * j.z;
      TrackSub(0, 0, a.y, a.y, p);
      CongMul(FrNeg(a.y, p), 0 - a.y, k, k, p);
      CongSub(0, 0, j.y, a.y * k, p);
      MulDistrib(0, a.y, k);
      FpNegIs(j.y, p);
    } else {
      FpNegIs(j.y, p);
    }
  }

  lemma FpNegIs(y: int, p: int)
    requires p > 0 && Element(y, p)
    ensures Element(FpNeg(y, p), p) && Cong(FpNeg(y, p), 0 - y, p)
    ensures FpNeg(y, p) == if y == 0 then 0 else p - y
  {
    hide Res;
    if y != 0 {
      TrackSub(0, 0, y, y, p);
      CongIntro(p - y, 0 - y, 1, p);
      ElementsEqual(FrSub(0, y, p), p - y, p);
    }
  }

  lemma SubCorrect(j: Jacobian, l: Jacobian, a: Affine, c: Affine, b: int, p: int)
    requires IsPrime(p) && p > 3 && Represents(j, a, p) && Represents(l, c, p) && OnCurve(a, b, p) && OnCurve(c, b, p)
    ensures Represents(G1Sub(j, l, p), AffAdd(a, AffNeg(c, p), p), p)
  {
    hide Res, FrMul, FrSub, FrAdd, G1Add, AffAdd;
    NegCorrect(l, c, p);
    NegOnCurve(c, b, p);
    AddCorrect(j, G1Neg(l, p), a, AffNeg(c, p), b, p);
  }

  lemma NegOnCurve(c: Affine, b: int, p: int)
    requires p > 0 && OnCurve(c, b, p)
    ensures OnCurve(AffNeg(c, p), b, p)
  {
    hide Res;
    if c.Point? {
      TrackSub(0, 0, c.y, c.y, p);
      var n := FrNeg(c.y, p);
      CongMul(n, 0 - c.y, n, 0 - c.y, p);
      assert (0 - c.y) * (0 - c.y) == c.y * c.y;
    }
  }

  // ------------------------------------------------------------ the law stays on the curve

  /** The line t -> lam t + c meets the cubic where the linear remainder alpha t + beta vanishes. */
  lemma LineRemainder(lam: int, c: int, x1: int, x2: int, x3: int, b: int, t: int)
    requires x1 + x2 + x3 == lam * lam
    ensures var alpha, beta := -2 * (lam * c) - (x1 * x2 + x1 * x3 + x2 * x3), b - c * c + x1 * x2 * x3;
      t * t * t + b - (lam * t + c) * (lam * t + c) == (t - x1) * ((t - x2) * (t - x3)) + (alpha * t + beta)
  {
    assert (lam * t + c) * (lam * t + c) == lam * lam * (t * t) + 2 * (lam * c) * t + c * c by {
      LineSquare(lam, c, t);
    }
    CubicExpand(x1, x2, x3, t);
    assert lam * lam * (t * t) == (x1 + x2 + x3) * (t * t);
    var s2 := x1 * x2 + x1 * x3 + x2 * x3;
    MulDistrib(-2 * (lam * c), s2, t);
    assert (-2 * (lam * c)) * t == -(2 * (lam * c) * t);
  }

  lemma LineSquare(lam: int, c: int, t: int)
    ensures (lam * t + c) * (lam * t + c) == lam * lam * (t * t) + 2 * (lam * c) * t + c * c
  {
  }

  lemma CubicExpand(x1: int, x2: int, x3: int, t: int)
    ensures (t - x1) * ((t - x2) * (t - x3))
         == t * t * t - (x1 + x2 + x3) * (t * t) + (x1 * x2 + x1 * x3 + x2 * x3) * t - x1 * x2 * x3
  {
    var u, v, tt := x2 + x3, x2 * x3, t * t;
    Quadratic(x2, x3, t);
    var q := (t - x2) * (t - x3);
    assert q == tt - u * t + v;
    MulDistrib(t, x1, q);
    MulDistrib(tt - u * t, v, t);
    MulDistrib(tt, u * t, t);
    MulDistrib(tt - u * t, v, x1);
    MulDistrib(tt, u * t, x1);
    MulAssoc(u, t, t);
    MulAssoc(x1, u, t);
    MulDistrib(x2, x3, x1);
    MulDistrib(x1, u, tt);
    MulDistrib(x1 * u, v, t);
    MulAssoc(x1, x2, x3);
  }

  lemma Quadratic(x2: int, x3: int, t: int)
    ensures (t - x2) * (t - x3) == t * t - (x2 + x3) * t + x2 * x3
  {
    MulDistrib(t, x2, t - x3);
    MulDistrib(t, x3, t);
    MulDistrib(t, x3, x2);
    MulDistrib(x2, x3, t);
  }

  /** When the remainder vanishes at the third root, the reflected third point is on the curve. */
  lemma ThirdOnCurve(lam: int, x1: int, y1: int, x2: int, b: int, p: int)
    requires p > 0
    requires var x3, c := lam * lam - x1 - x2, y1 - lam * x1;
      var alpha, beta := -2 * (lam * c) - (x1 * x2 + x1 * x3 + x2 * x3), b - c * c + x1 * x2 * x3;
      Cong(alpha, 0, p) && Cong(beta, 0, p)
    ensures OnCurve(ThirdPoint(lam, x1, y1, x2, p), b, p)
  {
    hide Res, ThirdPoint;
    var x3, c := lam * lam - x1 - x2, y1 - lam * x1;
    var alpha, beta := -2 * (lam * c) - (x1 * x2 + x1 * x3 + x2 * x3), b - c * c + x1 * x2 * x3;
    LineRemainder(lam, c, x1, x2, x3, b, x3);
    CongMul(alpha, 0, x3, x3, p);
    CongAdd(alpha * x3, 0, beta, 0, p);
    var line := lam * x3 + c;
    assert (x3 - x1) * ((x3 - x2) * (x3 - x3)) == 0;
    CongSub(x3 * x3 * x3 + b, x3 * x3 * x3 + b, alpha * x3 + beta, 0, p);
    assert Cong(line * line, x3 * x3 * x3 + b, p);
    ThirdPointIs(lam, x1, y1, x2, p);
    var t := ThirdPoint(lam, x1, y1, x2, p);
    assert lam * (x1 - x3) - y1 == -line by {
      MulDistrib(x1, x3, lam);
    }
    CongMul(t.y, -line, t.y, -line, p);
    assert (-line) * (-line) == line * line;
    CongMul(t.x, x3, t.x, x3, p);
    CongMul(t.x * t.x, x3 * x3, t.x, x3, p);
    CongAdd(t.x * t.x * t.x, x3 * x3 * x3, b, b, p);
  }

  /** A point of the curve on the line is a zero of the remainder, given that it is one of the listed roots. */
  lemma RemainderVanishes(lam: int, c: int, x1: int, x2: int, x3: int, b: int, t: int, y: int, p: int)
    requires p > 0 && x1 + x2 + x3 == lam * lam && (t == x1 || t == x2)
    requires Cong(lam * t + c, y, p) && Cong(y * y, t * t * t + b, p)
    ensures var alpha, beta := -2 * (lam * c) - (x1 * x2 + x1 * x3 + x2 * x3), b - c * c + x1 * x2 * x3;
      Cong(alpha * t + beta, 0, p)
  {
    hide Res;
    LineRemainder(lam, c, x1, x2, x3, b, t);
    assert (t - x1) * ((t - x2) * (t - x3)) == 0 by {
      if t == x2 {
        assert (t - x2) * (t - x3) == 0;
      }
    }
    CongMul(lam * t + c, y, lam * t + c, y, p);
    CongSub(t * t * t + b, y * y, (lam * t + c) * (lam * t + c), y * y, p);
  }

  /** The remainder of the line through two points of the curve with different x vanishes. */
  lemma ChordRemainder(a: Affine, c: Affine, lam: int, b: int, p: int)
    requires IsPrime(p) && OnCurve(a, b, p) && OnCurve(c, b, p) && a.Point? && c.Point? && a.x != c.x
    requires Cong(lam * (c.x - a.x), c.y - a.y, p)
    ensures var x3, k := lam * lam - a.x - c.x, a.y - lam * a.x;
      var alpha, beta := -2 * (lam * k) - (a.x * c.x + a.x * x3 + c.x * x3), b - k * k + a.x * c.x * x3;
      Cong(alpha, 0, p) && Cong(beta, 0, p)
  {
    hide Res, IsPrime;
    var x1, x2 := a.x, c.x;
    var x3, k := lam * lam - x1 - x2, a.y - lam * x1;
    var alpha, beta := -2 * (lam * k) - (x1 * x2 + x1 * x3 + x2 * x3), b - k * k + x1 * x2 * x3;
    RemainderVanishes(lam, k, x1, x2, x3, b, x1, a.y, p);
    MulDistrib(x2, x1, lam);
    CongAdd(lam * (x2 - x1), c.y - a.y, a.y, a.y, p);
    RemainderVanishes(lam, k, x1, x2, x3, b, x2, c.y, p);
    CongSub(alpha * x2 + beta, 0, alpha * x1 + beta, 0, p);
    MulDistrib(x2, x1, alpha);
    assert alpha * x2 + beta - (alpha * x1 + beta) == alpha * (x2 - x1);
    DifferenceNonzero(x1, x2, p);
    NoZeroDivisors(alpha, x2 - x1, p);
    CongMul(alpha, 0, x1, x1, p);
    CongSub(alpha * x1 + beta, 0, alpha * x1, 0, p);
  }

  lemma ChordOnCurve(a: Affine, c: Affine, b: int, p: int)
    requires IsPrime(p) && OnCurve(a, b, p) && OnCurve(c, b, p) && a.Point? && c.Point? && a.x != c.x
    ensures OnCurve(ThirdPoint(ChordSlope(a.x, a.y, c.x, c.y, p), a.x, a.y, c.x, p), b, p)
  {
    hide Res, ThirdPoint, ChordSlope, OnCurve;
    var lam := ChordSlope(a.x, a.y, c.x, c.y, p);
    OnCurveElements(a, b, p);
    OnCurveElements(c, b, p);
    ChordSlopeIs(a.x, a.y, c.x, c.y, p);
    ChordRemainder(a, c, lam, b, p);
    ThirdOnCurve(lam, a.x, a.y, c.x, b, p);
  }

  lemma OnCurveElements(a: Affine, b: int, p: int)
    requires p > 0 && OnCurve(a, b, p) && a.Point?
    ensures Element(a.x, p) && Element(a.y, p) && Cong(a.y * a.y, a.x * a.x * a.x + b, p)
  {
  }

  /** The remainder of the tangent vanishes. */
  lemma TangentRemainder(a: Affine, lam: int, b: int, p: int)
    requires p > 0 && OnCurve(a, b, p) && a.Point? && Cong(lam * (2 * a.y), 3 * (a.x * a.x), p)
    ensures var x3, k := lam * lam - a.x - a.x, a.y - lam * a.x;
      var alpha, beta := -2 * (lam * k) - (a.x * a.x + a.x * x3 + a.x * x3), b - k * k + a.x * a.x * x3;
      Cong(alpha, 0, p) && Cong(beta, 0, p)
  {
    hide Res;
    var x := a.x;
    var x3, k := lam * lam - x - x, a.y - lam * x;
    var alpha, beta := -2 * (lam * k) - (x * x + x * x3 + x * x3), b - k * k + x * x * x3;
    RemainderVanishes(lam, k, x, x, x3, b, x, a.y, p);
    TangentAlpha(lam, x, a.y, k, x3);
    CongSub(3 * (x * x), 3 * (x * x), lam * (2 * a.y), 3 * (x * x), p);
    CongMul(alpha, 0, x, x, p);
    CongSub(alpha * x + beta, 0, alpha * x, 0, p);
  }

  lemma TangentOnCurve(a: Affine, b: int, p: int)
    requires IsPrime(p) && p > 3 && OnCurve(a, b, p) && a.Point? && a.y != 0
    ensures OnCurve(ThirdPoint(TangentSlope(a.x, a.y, p), a.x, a.y, a.x, p), b, p)
  {
    hide Res, ThirdPoint, TangentSlope, IsPrime, OnCurve;
    var lam := TangentSlope(a.x, a.y, p);
    OnCurveElements(a, b, p);
    TangentSlopeIs(a.x, a.y, p);
    TangentRemainder(a, lam, b, p);
    ThirdOnCurve(lam, a.x, a.y, a.x, b, p);
  }

  /** At a double root the slope of the remainder is the derivative condition. */
  lemma TangentAlpha(lam: int, x: int, y: int, c: int, x3: int)
    requires c == y - lam * x && x3 == lam * lam - x - x
    ensures -2 * (lam * c) - (x * x + x * x3 + x * x3) == 3 * (x * x) - lam * (2 * y)
  {
    MulDistrib(y, lam * x, lam);
    assert lam * (lam * x) == lam * lam * x;
    assert x * x3 == lam * lam * x - x * x - x * x;
    assert lam * (2 * y) == 2 * (lam * y);
  }

  /** Sums of points of the curve are points of the curve. */
  lemma AddOnCurve(a: Affine, c: Affine, b: int, p: int)
    requires IsPrime(p) && p > 3 && OnCurve(a, b, p) && OnCurve(c, b, p)
    ensures OnCurve(AffAdd(a, c, p), b, p)
  {
    hide Res, ThirdPoint, TangentSlope, ChordSlope, IsPrime, FrAdd;
    if a.Point? && c.Point? {
      if a.x != c.x {
        ChordOnCurve(a, c, b, p);
      } else if FrAdd(a.y, c.y, p) != 0 {
        if a.y != c.y {
          SameX(a, c, b, p);
        }
        if a.y == 0 {
          TrackAdd(0, 0, 0, 0, p);
          Nonzero(FrAdd(a.y, c.y, p), p);
        }
        TangentOnCurve(a, b, p);
      }
    }
  }

  // ------------------------------------------------------------ group laws of the affine law

  /** Commutative, with neutral element and inverses. Associativity is not proved here. */
  lemma AffineLaws(a: Affine, c: Affine, b: int, p: int)
    requires IsPrime(p) && p > 3 && OnCurve(a, b, p) && OnCurve(c, b, p)
    ensures AffAdd(a, Infinity, p) == a && AffAdd(a, AffNeg(a, p), p) == Infinity
    ensures AffAdd(a, c, p) == AffAdd(c, a, p)
  {
    hide Res, ThirdPoint, TangentSlope, ChordSlope, IsPrime, FrAdd, FrSub;
    if a.Point? {
      var n := FrNeg(a.y, p);
      TrackSub(0, 0, a.y, a.y, p);
      TrackAdd(a.y, a.y, n, 0 - a.y, p);
      Nonzero(FrAdd(a.y, n, p), p);
      if c.Point? {
        FrAddCommutes(a.y, c.y, p);
        if a.x != c.x {
          ChordCommutes(a, c, b, p);
        } else if FrAdd(a.y, c.y, p) != 0 && a.y != c.y {
          SameX(a, c, b, p);
        }
      }
    }
  }

  lemma FrAddCommutes(x: int, y: int, p: int)
    requires p > 0
    ensures FrAdd(x, y, p) == FrAdd(y, x, p)
  {
    hide Res;
    ElementsEqual(FrAdd(x, y, p), FrAdd(y, x, p), p);
  }

  /** The chord is the same line from either end. */
  lemma ChordCommutes(a: Affine, c: Affine, b: int, p: int)
    requires IsPrime(p) && OnCurve(a, b, p) && OnCurve(c, b, p) && a.Point? && c.Point? && a.x != c.x
    ensures ThirdPoint(ChordSlope(a.x, a.y, c.x, c.y, p), a.x, a.y, c.x, p)
         == ThirdPoint(ChordSlope(c.x, c.y, a.x, a.y, p), c.x, c.y, a.x, p)
  {
    hide Res, ThirdPoint, ChordSlope, IsPrime;
    var l, m := ChordSlope(a.x, a.y, c.x, c.y, p), ChordSlope(c.x, c.y, a.x, a.y, p);
    ChordSlopeIs(a.x, a.y, c.x, c.y, p);
    ChordSlopeIs(c.x, c.y, a.x, a.y, p);
    var d := c.x - a.x;
    CongSub(0, 0, m * (a.x - c.x), a.y - c.y, p);
    assert 0 - m * (a.x - c.x) == d * m && l * d == d * l by {
      MulDistrib(a.x, c.x, m);
      MulDistrib(c.x, a.x, m);
    }
    DifferenceNonzero(a.x, c.x, p);
    CancelLeft(d, l, m, p);
    ThirdPointIs(l, a.x, a.y, c.x, p);
    ThirdPointIs(m, c.x, c.y, a.x, p);
    var s, t := ThirdPoint(l, a.x, a.y, c.x, p), ThirdPoint(m, c.x, c.y, a.x, p);
    CongMul(l, m, l, m, p);
    CongSub(l * l, m * m, a.x + c.x, a.x + c.x, p);
    ElementsEqual(s.x, t.x, p);
    var x3, x3' := l * l - a.x - c.x, m * m - c.x - a.x;
    CongSub(a.x, a.x, x3, x3', p);
    CongMul(l, m, a.x - x3, a.x - x3', p);
    CongSub(l * (a.x - x3), m * (a.x - x3'), a.y, a.y, p);
    CongMul(l, m, d, d, p);
    CongSub(m * d, c.y - a.y, c.y - a.y, c.y - a.y, p);
    assert m * (c.x - x3') - c.y == (m * (a.x - x3') - a.y) + (m * d - (c.y - a.y)) by {
      MulDistrib(c.x, x3', m);
      MulDistrib(a.x, x3', m);
      MulDistrib(c.x, a.x, m);
    }
    CongAdd(m * (a.x - x3') - a.y, m * (a.x - x3') - a.y, m * d - (c.y - a.y), 0, p);
    ElementsEqual(s.y, t.y, p);
  }
}
