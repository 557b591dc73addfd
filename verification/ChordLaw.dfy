/** What the affine law means on the curve: the line through two points, or the tangent at one, meets the curve once
    more, and the sum is the reflection of that point. */
module ChordLaw {
  import opened Modular
  import opened Field
  import opened Curve

  /** The line of slope lam through (x1, y1). */
  function Line(lam: int, x1: int, y1: int, t: int): int {
    y1 + lam * (t - x1)
  }

  /** As polynomials in t, the cubic less the square of the line is the product over x1, x2 and x3: these are the
      points at which the line meets the curve, counted with multiplicity. */
  ghost predicate MeetsIn(lam: int, x1: int, y1: int, x2: int, x3: int, b: int, p: int)
    requires p > 0
  {
    forall t :: Cong(t * t * t + b - Line(lam, x1, y1, t) * Line(lam, x1, y1, t), (t - x1) * ((t - x2) * (t - x3)), p)
  }

  /** A line through a and c meets the curve in a, c and the reflection of r. */
  ghost predicate Collinear(lam: int, a: Affine, c: Affine, r: Affine, b: int, p: int)
    requires p > 0 && a.Point? && c.Point? && r.Point?
  {
    && Cong(Line(lam, a.x, a.y, c.x), c.y, p)
    && MeetsIn(lam, a.x, a.y, c.x, r.x, b, p)
    && Cong(Line(lam, a.x, a.y, r.x), -r.y, p)
  }

  /** The two points do not cancel. */
  ghost predicate Apart(a: Affine, c: Affine, p: int)
    requires p > 0
  {
    a.Point? && c.Point? && (a.x != c.x || FrAdd(a.y, c.y, p) != 0)
  }

  // ------------------------------------------------------------ the sum lies on the line

  /** The slope the law uses. */
  function Slope(a: Affine, c: Affine, p: int): int
    requires p > 0 && a.Point? && c.Point?
  {
    if a.x == c.x then TangentSlope(a.x, a.y, p) else ChordSlope(a.x, a.y, c.x, c.y, p)
  }

  /** Points with the same x that do not cancel are the same point, not of order two. */
  lemma Doubled(a: Affine, c: Affine, b: int, p: int)
    requires IsPrime(p) && p > 3 && OnCurve(a, b, p) && OnCurve(c, b, p) && Apart(a, c, p) && a.x == c.x
    ensures a == c && a.y != 0
  {
    hide Res, IsPrime, FrAdd;
    if a.y != c.y {
      SameX(a, c, b, p);
    }
    if a.y == 0 {
      TrackAdd(0, 0, 0, 0, p);
      Nonzero(FrAdd(a.y, c.y, p), p);
    }
  }

  /** The slope of the chord runs to c, and a double root has the slope of the tangent. */
  lemma SlopeIs(a: Affine, c: Affine, b: int, p: int)
    requires IsPrime(p) && p > 3 && OnCurve(a, b, p) && OnCurve(c, b, p) && Apart(a, c, p)
    ensures Cong(Slope(a, c, p) * (c.x - a.x), c.y - a.y, p)
    ensures a.x == c.x ==> Cong(Slope(a, c, p) * (2 * a.y), 3 * (a.x * a.x), p)
    ensures AffAdd(a, c, p) == ThirdPoint(Slope(a, c, p), a.x, a.y, c.x, p)
  {
    hide Res, ThirdPoint, TangentSlope, ChordSlope, IsPrime, FrAdd;
    if a.x == c.x {
      Doubled(a, c, b, p);
      TangentSlopeIs(a.x, a.y, p);
      assert Slope(a, c, p) * (c.x - a.x) == 0;
    } else {
      ChordSlopeIs(a.x, a.y, c.x, c.y, p);
    }
  }

  lemma SumIsCollinear(a: Affine, c: Affine, b: int, p: int)
    requires IsPrime(p) && p > 3 && OnCurve(a, b, p) && OnCurve(c, b, p) && Apart(a, c, p)
    ensures AffAdd(a, c, p).Point? && Collinear(Slope(a, c, p), a, c, AffAdd(a, c, p), b, p)
  {
    hide Res, ThirdPoint, Slope, IsPrime, FrAdd, AffAdd;
    var lam := Slope(a, c, p);
    SlopeIs(a, c, b, p);
    if a.x == c.x {
      Doubled(a, c, b, p);
      TangentRemainder(a, lam, b, p);
    } else {
      ChordRemainder(a, c, lam, b, p);
    }
    ThirdPointIs(lam, a.x, a.y, c.x, p);
    var r, x3 := AffAdd(a, c, p), lam * lam - a.x - c.x;
    CongAdd(lam * (c.x - a.x), c.y - a.y, a.y, a.y, p);
    forall t ensures Cong(t * t * t + b - Line(lam, a.x, a.y, t) * Line(lam, a.x, a.y, t),
                          (t - a.x) * ((t - c.x) * (t - r.x)), p) {
      MeetsAt(lam, a.x, a.y, c.x, r.x, b, t, p);
    }
    CongSub(r.x, x3, a.x, a.x, p);
    CongMul(lam, lam, r.x - a.x, x3 - a.x, p);
    CongAdd(a.y, a.y, lam * (r.x - a.x), lam * (x3 - a.x), p);
    CongSub(0, 0, r.y, lam * (a.x - x3) - a.y, p);
    assert a.y + lam * (x3 - a.x) == 0 - (lam * (a.x - x3) - a.y) by {
      MulNegate(lam, a.x - x3);
    }
  }

  lemma MulNegate(a: int, d: int)
    ensures a * -d == -(a * d)
  {
  }

  lemma MeetsAt(lam: int, x1: int, y1: int, x2: int, r: int, b: int, t: int, p: int)
    requires p > 0
    requires var x3, k := lam * lam - x1 - x2, y1 - lam * x1;
      var alpha, beta := -2 * (lam * k) - (x1 * x2 + x1 * x3 + x2 * x3), b - k * k + x1 * x2 * x3;
      Cong(alpha, 0, p) && Cong(beta, 0, p) && Cong(r, x3, p)
    ensures Cong(t * t * t + b - Line(lam, x1, y1, t) * Line(lam, x1, y1, t), (t - x1) * ((t - x2) * (t - r)), p)
  {
    hide Res;
    var x3, k := lam * lam - x1 - x2, y1 - lam * x1;
    var alpha, beta := -2 * (lam * k) - (x1 * x2 + x1 * x3 + x2 * x3), b - k * k + x1 * x2 * x3;
    LineRemainder(lam, k, x1, x2, x3, b, t);
    assert Line(lam, x1, y1, t) == lam * t + k by {
      MulDistrib(t, x1, lam);
    }
    CongMul(alpha, 0, t, t, p);
    CongAdd(alpha * t, 0, beta, 0, p);
    CongSub(t, t, r, x3, p);
    CongMul(t - x2, t - x2, t - r, t - x3, p);
    CongMul(t - x1, t - x1, (t - x2) * (t - r), (t - x2) * (t - x3), p);
    CongAdd((t - x1) * ((t - x2) * (t - x3)), (t - x1) * ((t - x2) * (t - r)), alpha * t + beta, 0, p);
  }

  // ------------------------------------------------------------ and nothing else does

  /** Two values of the polynomial identity determine the third root, and the slope at a double one. */
  lemma MeetsDetermines(lam: int, x1: int, y1: int, x2: int, x3: int, b: int, p: int)
    requires IsPrime(p) && p > 3 && MeetsIn(lam, x1, y1, x2, x3, b, p) && Cong(y1 * y1, x1 * x1 * x1 + b, p)
    ensures Cong(x3, lam * lam - x1 - x2, p)
    ensures x1 == x2 ==> Cong(lam * (2 * y1), 3 * (x1 * x1), p)
  {
    hide Res, IsPrime, MeetsIn;
    var u, v := x1 - x2, x1 - x3;
    var e, f := Excess(lam, x1, y1, x2, x3, b, 1), Excess(lam, x1, y1, x2, x3, b, -1);
    ExcessVanishes(lam, x1, y1, x2, x3, b, 1, p);
    ExcessVanishes(lam, x1, y1, x2, x3, b, -1, p);
    CongAdd(e, 0, f, 0, p);
    CongSub(e, 0, f, 0, p);
    TwoValues(lam, x1, y1, x2, x3, b);
    CongSub(x1 * x1 * x1 + b, x1 * x1 * x1 + b, y1 * y1, x1 * x1 * x1 + b, p);
    var n, A, B := x1 * x1 * x1 + b - y1 * y1, 3 * x1 - lam * lam - u - v, 3 * (x1 * x1) - lam * (2 * y1) - u * v;
    CongMul(2, 2, n, 0, p);
    CongSub(2 * n + 2 * A, 0, 2 * n, 0, p);
    HalfOf(A, p);
    HalfOf(B, p);
    CongAdd(A, 0, lam * lam - x1 - x2, lam * lam - x1 - x2, p);
    assert A + (lam * lam - x1 - x2) == x3;
    if x1 == x2 {
      assert u * v == 0;
      CongSub(3 * (x1 * x1), 3 * (x1 * x1), B, 0, p);
    }
  }

  /** The difference of the two sides of the identity at t = x1 + s. */
  function Excess(lam: int, x1: int, y1: int, x2: int, x3: int, b: int, s: int): int {
    var t := x1 + s;
    t * t * t + b - Line(lam, x1, y1, t) * Line(lam, x1, y1, t) - (t - x1) * ((t - x2) * (t - x3))
  }

  lemma ExcessVanishes(lam: int, x1: int, y1: int, x2: int, x3: int, b: int, s: int, p: int)
    requires p > 0 && MeetsIn(lam, x1, y1, x2, x3, b, p)
    ensures Cong(Excess(lam, x1, y1, x2, x3, b, s), 0, p)
  {
    hide Res;
    var t := x1 + s;
    var l, m := t * t * t + b - Line(lam, x1, y1, t) * Line(lam, x1, y1, t), (t - x1) * ((t - x2) * (t - x3));
    assert Cong(l, m, p);
    CongSub(l, m, m, m, p);
  }

  lemma TwoValues(lam: int, x1: int, y1: int, x2: int, x3: int, b: int)
    ensures var u, v := x1 - x2, x1 - x3;
      var e, f := Excess(lam, x1, y1, x2, x3, b, 1), Excess(lam, x1, y1, x2, x3, b, -1);
      && e + f == 2 * (x1 * x1 * x1 + b - y1 * y1) + 2 * (3 * x1 - lam * lam - u - v)
      && e - f == 2 * (3 * (x1 * x1) - lam * (2 * y1) - u * v)
  {
    var u, v := x1 - x2, x1 - x3;
    ExcessAt(lam, x1, y1, x2, x3, b, 1);
    ExcessAt(lam, x1, y1, x2, x3, b, -1);
  }

  /** The excess for a step of one either way. */
  lemma ExcessAt(lam: int, x1: int, y1: int, x2: int, x3: int, b: int, s: int)
    requires s == 1 || s == -1
    ensures var u, v := x1 - x2, x1 - x3;
      Excess(lam, x1, y1, x2, x3, b, s)
      == (x1 * x1 * x1 + b - y1 * y1) + (3 * x1 - lam * lam - u - v) + s * (3 * (x1 * x1) - lam * (2 * y1) - u * v)
  {
    var u, v, t := x1 - x2, x1 - x3, x1 + s;
    CubeStep(x1, s);
    LineStep(lam, y1, s);
    assert (t - x2) * (t - x3) == s * s + s * u + s * v + u * v by {
      MulSum(s, u, s, v);
    }
  }

  lemma CubeStep(x: int, s: int)
    requires s == 1 || s == -1
    ensures (x + s) * (x + s) * (x + s) == x * x * x + 3 * x + s * (3 * (x * x)) + s
  {
    assert (x + s) * (x + s) == x * x + 2 * s * x + 1;
  }

  lemma LineStep(lam: int, y: int, s: int)
    requires s == 1 || s == -1
    ensures (y + lam * s) * (y + lam * s) == y * y + lam * lam + s * (lam * (2 * y))
  {
  }

  lemma MulSum(a: int, u: int, d: int, v: int)
    ensures (a + u) * (d + v) == a * d + u * d + a * v + u * v
  {
  }

  lemma HalfOf(a: int, p: int)
    requires IsPrime(p) && p > 3 && Cong(2 * a, 0, p)
    ensures Cong(a, 0, p)
  {
    hide Res;
    TwoNonzero(p);
    NoZeroDivisors(2, a, p);
  }

  /** Any line that meets the curve in a, c and a third point has the slope of the law. */
  lemma SlopeUnique(lam: int, a: Affine, c: Affine, r: Affine, b: int, p: int)
    requires IsPrime(p) && p > 3 && OnCurve(a, b, p) && OnCurve(c, b, p) && Apart(a, c, p) && r.Point?
    requires Collinear(lam, a, c, r, b, p)
    ensures Cong(lam, Slope(a, c, p), p)
  {
    hide Res, Slope, IsPrime, FrAdd, AffAdd, ThirdPoint, MeetsIn;
    var w := Slope(a, c, p);
    SlopeIs(a, c, b, p);
    MeetsDetermines(lam, a.x, a.y, c.x, r.x, b, p);
    if a.x == c.x {
      Doubled(a, c, b, p);
      SameFactor(lam, w, 2 * a.y, 3 * (a.x * a.x), p) by {
        TwiceNonzero(a.y, p);
      }
    } else {
      CongSub(a.y + lam * (c.x - a.x), c.y, a.y, a.y, p);
      DifferenceNonzero(a.x, c.x, p);
      SameFactor(lam, w, c.x - a.x, c.y - a.y, p);
    }
  }

  /** A nonzero factor cancels. */
  lemma SameFactor(k: int, w: int, d: int, n: int, p: int)
    requires IsPrime(p) && Cong(k * d, n, p) && Cong(w * d, n, p) && !Cong(d, 0, p)
    ensures Cong(k, w, p)
  {
    hide Res;
    CongSub(k * d, n, w * d, n, p);
    MulDistrib(k, w, d);
    NoZeroDivisors(k - w, d, p);
    CongAdd(k - w, 0, w, w, p);
  }

  lemma CollinearIsSum(lam: int, a: Affine, c: Affine, r: Affine, b: int, p: int)
    requires IsPrime(p) && p > 3 && OnCurve(a, b, p) && OnCurve(c, b, p) && Apart(a, c, p)
    requires r.Point? && Element(r.x, p) && Element(r.y, p) && Collinear(lam, a, c, r, b, p)
    ensures r == AffAdd(a, c, p)
  {
    hide Res, Slope, IsPrime, FrAdd, AffAdd, ThirdPoint, MeetsIn;
    var w, s := Slope(a, c, p), AffAdd(a, c, p);
    SlopeIs(a, c, b, p);
    SlopeUnique(lam, a, c, r, b, p);
    MeetsDetermines(lam, a.x, a.y, c.x, r.x, b, p);
    ThirdPointIs(w, a.x, a.y, c.x, p);
    var x3 := w * w - a.x - c.x;
    CongMul(lam, w, lam, w, p);
    CongSub(lam * lam, w * w, a.x, a.x, p);
    CongSub(lam * lam - a.x, w * w - a.x, c.x, c.x, p);
    ElementsEqual(r.x, s.x, p);
    CongSub(a.x, a.x, r.x, x3, p);
    CongMul(lam, w, a.x - r.x, a.x - x3, p);
    CongSub(0, 0, a.y + lam * (r.x - a.x), -r.y, p);
    MulNegate(lam, a.x - r.x);
    CongSub(lam * (a.x - r.x), w * (a.x - x3), a.y, a.y, p);
    ElementsEqual(r.y, s.y, p);
  }

  /** The law is the chord and tangent construction and nothing else: r is the sum of two points that do not cancel
      exactly if some line through them meets the curve, in all, in a, c and the reflection of r. */
  lemma ChordAndTangent(a: Affine, c: Affine, r: Affine, b: int, p: int)
    requires IsPrime(p) && p > 3 && OnCurve(a, b, p) && OnCurve(c, b, p) && Apart(a, c, p)
    requires r.Point? && Element(r.x, p) && Element(r.y, p)
    ensures r == AffAdd(a, c, p) <==> exists lam :: Collinear(lam, a, c, r, b, p)
  {
    hide Collinear, AffAdd, OnCurve, Slope, FrAdd;
    SumIsCollinear(a, c, b, p);
    if lam :| Collinear(lam, a, c, r, b, p) {
      CollinearIsSum(lam, a, c, r, b, p);
    }
  }

  /** Without the slope: the reflected sum lies on the line of the summands, or on the tangent. */
  lemma SumOnLine(a: Affine, c: Affine, b: int, p: int)
    requires IsPrime(p) && p > 3 && OnCurve(a, b, p) && OnCurve(c, b, p) && Apart(a, c, p)
    ensures AffAdd(a, c, p).Point?
    ensures a.x != c.x ==>
      Cong((AffAdd(a, c, p).y + a.y) * (c.x - a.x), (c.y - a.y) * (a.x - AffAdd(a, c, p).x), p)
    ensures a.x == c.x ==>
      Cong((AffAdd(a, c, p).y + a.y) * (2 * a.y), 3 * (a.x * a.x) * (a.x - AffAdd(a, c, p).x), p)
  {
    hide Res, Slope, IsPrime, FrAdd, AffAdd, ThirdPoint;
    var lam, r := Slope(a, c, p), AffAdd(a, c, p);
    SlopeIs(a, c, b, p);
    SumIsCollinear(a, c, b, p);
    CongSub(0, 0, a.y + lam * (r.x - a.x), -r.y, p);
    MulNegate(lam, a.x - r.x);
    CongAdd(lam * (a.x - r.x) - a.y, r.y, a.y, a.y, p);
    if a.x != c.x {
      OnChord(r.y + a.y, lam, a.x - r.x, c.x - a.x, c.y - a.y, p);
    } else {
      OnChord(r.y + a.y, lam, a.x - r.x, 2 * a.y, 3 * (a.x * a.x), p);
    }
  }

  lemma OnChord(h: int, lam: int, e: int, d: int, n: int, p: int)
    requires p > 0 && Cong(lam * e, h, p) && Cong(lam * d, n, p)
    ensures Cong(h * d, n * e, p)
  {
    hide Res;
    CongMul(lam * e, h, d, d, p);
    CongMul(lam * d, n, e, e, p);
    assert (lam * e) * d == (lam * d) * e by {
      MulAssoc(lam, e, d);
      MulAssoc(lam, d, e);
    }
  }
}
