/** The hypotheses the theorems rest on can be met: small instances of the recovery domain, of both sets of field
    constants and of a curve with its group. */
module Consistency {
  import opened Layout
  import opened Modular
  import opened Dft
  import opened Field
  import opened RecoveryMath
  import opened ChordLaw
  import opened Curve
  import opened Group
  import opened CurveGroup
  import opened CellBytes
  import opened NttPass
  import Z = Compress
  import L = Limbs
  import M = Montgomery

  const P: int := 40961
  const ROOT: int := 243

  // ------------------------------------------------------------ a prime with an 8192nd root of unity

  /** One squaring of a known power. */
  lemma Squared(w: int, e: nat, a: int, b: int)
    requires Cong(Pow(w, e), a, P) && a * a % P == b % P
    ensures Cong(Pow(w, 2 * e), b, P)
  {
    CongMul(Pow(w, e), a, Pow(w, e), a, P);
    PowAdd(w, e, e);
  }

  lemma RootPowers()
    ensures Cong(Pow(ROOT, 4096), -1, P)
  {
    hide Pow;
    assert Cong(Pow(ROOT, 1), 243, P) by { FirstPower(ROOT); }
    Squared(ROOT, 1, 243, 18088);
    Squared(ROOT, 2, 18088, 20237);
    Squared(ROOT, 4, 20237, 8091);
    Squared(ROOT, 8, 8091, 8603);
    Squared(ROOT, 16, 8603, 36043);
    Squared(ROOT, 32, 36043, 19734);
    Squared(ROOT, 64, 19734, 14529);
    Squared(ROOT, 128, 14529, 19808);
    Squared(ROOT, 256, 19808, 32406);
    Squared(ROOT, 512, 32406, 31679);
    Squared(ROOT, 1024, 31679, 14541);
    Squared(ROOT, 2048, 14541, -1);
  }

  lemma PowersOfShift()
    ensures Cong(Pow(2, 512), 24376, P)
  {
    hide Pow;
    assert Cong(Pow(2, 1), 2, P) by { FirstPower(2); }
    Squared(2, 1, 2, 4);
    Squared(2, 2, 4, 16);
    Squared(2, 4, 16, 256);
    Squared(2, 8, 256, 24575);
    Squared(2, 16, 24575, 1641);
    Squared(2, 32, 1641, 30416);
    Squared(2, 64, 30416, 28871);
    Squared(2, 128, 28871, 19252);
    Squared(2, 256, 19252, 24376);
  }

  lemma ShiftPowers()
    ensures Cong(Pow(2, 8192), 25078, P)
  {
    hide Pow;
    PowersOfShift();
    Squared(2, 512, 24376, 9110);
    Squared(2, 1024, 9110, 5114);
    Squared(2, 2048, 5114, 19878);
    Squared(2, 4096, 19878, 25078);
  }

  /** If the half-order power of w is -1, no smaller positive power of w is 1. */
  lemma {:induction false} NoSmallerPower(w: int, h: nat, e: nat, q: int)
    requires q > 2 && h > 0 && Cong(Pow(w, h), -1, q) && 0 < e < 2 * h && HalvesToOne(h)
    ensures !Cong(Pow(w, e), 1, q)
    decreases h
  {
    hide Res, Pow;
    if Cong(Pow(w, e), 1, q) {
      if e % 2 == 1 {
        PowPow(w, e, h);
        PowPow(w, h, e);
        assert e * h == h * e;
        CongPow(Pow(w, e), 1, h, q);
        PowOne(h);
        CongPow(Pow(w, h), -1, e, q);
        MinusOneOdd(e / 2);
        OneIsNotMinusOne(q);
      } else {
        PowPow(w, 2, e / 2);
        PowPow(w, 2, h / 2);
        NoSmallerPower(Pow(w, 2), h / 2, e / 2, q);
      }
    }
  }

  /** h is a power of two. */
  predicate HalvesToOne(h: nat) {
    h == 1 || (h > 1 && h % 2 == 0 && HalvesToOne(h / 2))
  }

  lemma {:induction false} MinusOneOdd(k: nat)
    ensures Pow(-1, 2 * k + 1) == -1
  {
    if k > 0 {
      MinusOneOdd(k - 1);
      assert Pow(-1, 2 * k + 1) == -1 * Pow(-1, 2 * k) && Pow(-1, 2 * k) == -1 * Pow(-1, 2 * k - 1);
    } else {
      FirstPower(-1);
    }
  }

  lemma OneIsNotMinusOne(q: int)
    requires q > 2
    ensures !Cong(1, -1, q)
  {
    if Cong(1, -1, q) {
      var k := CongElim(1, -1, q);
      SmallMultiple(k, q);
    }
  }

  // ------------------------------------------------------------ the modulus is prime

  /** The least divisor above 1. */
  function LeastDivisor(n: int, d: int): (q: int)
    requires 1 < d <= n
    ensures d <= q <= n && n % q == 0 && forall e :: d <= e < q ==> n % e != 0
    decreases n - d
  {
    if d == n then n else if n % d == 0 then d else LeastDivisor(n, d + 1)
  }

  lemma DividesThrough(n: int, q: int, d: int)
    requires n > 0 && 0 < d && 0 < q && n % q == 0 && q % d == 0
    ensures n % d == 0
  {
    var a, c := n / q, q / d;
    assert n == a * q && q == c * d;
    MulAssoc(a, c, d);
    DivModUnique(n, d, a * c, 0);
  }

  lemma LeastDivisorPrime(n: int)
    requires n > 1
    ensures IsPrime(LeastDivisor(n, 2))
  {
    var q := LeastDivisor(n, 2);
    forall d | 1 < d < q ensures q % d != 0 {
      if q % d == 0 {
        DividesThrough(n, q, d);
      }
    }
  }

  lemma CongBelow(a: int, b: int, n: int, q: int)
    requires n > 0 && q > 0 && n % q == 0 && Cong(a, b, n)
    ensures Cong(a, b, q)
  {
    hide Res;
    var k := CongElim(a, b, n);
    assert n == n / q * q;
    MulAssoc(k, n / q, q);
    CongIntro(a, b, k * (n / q), q);
  }

  /** A prime factor of P keeps the order of the root, so by Fermat it is too large to be a proper factor. */
  lemma FactorIsLarge(q: int)
    requires IsPrime(q) && q > 2 && P % q == 0
    ensures q > 8192
  {
    hide Res, Pow;
    RootPowers();
    CongBelow(Pow(ROOT, 4096), -1, P, q);
    if Cong(ROOT, 0, q) {
      CongPow(ROOT, 0, 4096, q);
      ZeroPower(4096);
      MinusOneNotZero(q);
    }
    Fermat(ROOT, q);
    if q <= 8192 {
      PowersOfTwo();
      NoSmallerPower(ROOT, 4096, q - 1, q);
    }
  }

  lemma ZeroPower(e: nat)
    requires e > 0
    ensures Pow(0, e) == 0
  {
  }

  lemma MinusOneNotZero(q: int)
    requires q > 1
    ensures !Cong(0, -1, q)
  {
    if Cong(0, -1, q) {
      var k := CongElim(0, -1, q);
      SmallMultiple(k, q);
    }
  }

  lemma PowersOfTwo()
    ensures HalvesToOne(4096)
  {
    assert HalvesToOne(64);
    assert HalvesToOne(512);
  }

  lemma PIsPrime()
    ensures IsPrime(P)
  {
    var q := LeastDivisor(P, 2);
    LeastDivisorPrime(P);
    assert q != 2;
    FactorIsLarge(q);
    if q < P {
      var m := P / q;
      assert P == m * q;
      assert m >= 2 by {
        if m <= 1 {
          MulMono(m, 1, q);
        }
      }
      assert m < q by {
        if m >= q {
          MulMono(8192, m, q);
        }
      }
      DivModUnique(P, m, q, 0);
    }
  }

  lemma RootIsPrimitive()
    ensures PrimitiveRoot(ROOT, EXT_BLOB, P)
  {
    hide Pow, Res, IsPrime;
    PIsPrime();
    RootPowers();
    CongMul(Pow(ROOT, 4096), -1, Pow(ROOT, 4096), -1, P);
    PowAdd(ROOT, 4096, 4096);
    PowersOfTwo();
    forall e | 0 < e < EXT_BLOB ensures !Cong(Pow(ROOT, e), 1, P) {
      NoSmallerPower(ROOT, 4096, e, P);
    }
  }

  lemma Inverses()
    ensures Cong(ROOT * 15845, 1, P) && Cong(EXT_BLOB * 40956, 1, P) && Cong(2 * 20481, 1, P) && !Cong(25078, 1, P)
  {
  }

  function SmallDomain(): Domain {
    Domain(P, ROOT, 15845, 40956, 2, 20481)
  }

  /** A recovery domain exists. */
  lemma DomainExists()
    ensures ValidDomain(SmallDomain())
  {
    hide Pow, PrimitiveRoot, Res;
    RootIsPrimitive();
    ShiftPowers();
    Inverses();
  }

  lemma PowersTable(roots: seq<int>, w: int)
    requires roots == Powers(w, EXT_BLOB, P)
    ensures TableOf(roots, w, EXT_BLOB, P)
  {
  }

  // ------------------------------------------------------------ field constants

  /** A small number in n limbs. */
  function SmallLimbs(x: int, n: nat): (s: seq<int>)
    requires n > 0
    ensures |s| == n
  {
    [x] + L.Zeros(n - 1)
  }

  lemma SmallLimbsVal(x: int, n: nat)
    requires n > 0 && 0 <= x < L.WORD
    ensures L.Words(SmallLimbs(x, n), n) && L.Val(SmallLimbs(x, n)) == x
  {
    hide Pow, L.Val;
    L.ValCons(SmallLimbs(x, n));
    assert SmallLimbs(x, n)[1..] == L.Zeros(n - 1);
    L.ZerosVal(n - 1);
  }

  lemma ScaleIsLarge(n: nat)
    requires n > 0
    ensures Pow(L.WORD, n) >= L.WORD
  {
    hide Pow;
    L.WordPower(n - 1);
    MulMono(1, Pow(L.WORD, n - 1), L.WORD);
  }

  /** Constants of the field modulo a small prime q, in n limbs. */
  function SmallConstants(q: int, n: nat, n0: int, r2: int): M.FieldConstants
    requires n > 0
  {
    M.FieldConstants(n, SmallLimbs(q, n), n0, SmallLimbs(r2, n), SmallLimbs(q - 2, n))
  }

  lemma SmallConstantsValid(q: int, n: nat, n0: int, r2: int)
    requires n > 0 && IsPrime(q) && 2 < q < 0x1_0000 && 0 <= n0 < L.WORD && (n0 * q + 1) % L.WORD == 0
    requires r2 == Res(Pow(L.WORD, n) * Pow(L.WORD, n), q)
    ensures M.ValidConstants(SmallConstants(q, n, n0, r2)) && L.Val(SmallConstants(q, n, n0, r2).p) == q
  {
    hide Pow, L.Val, IsPrime, Res;
    ResRange(Pow(L.WORD, n) * Pow(L.WORD, n), q);
    SmallLimbsVal(q, n);
    SmallLimbsVal(r2, n);
    SmallLimbsVal(q - 2, n);
    ScaleIsLarge(n);
  }

  /** 2^512 is 24376 modulo P. */
  lemma ScalarScale()
    ensures Res(Pow(L.WORD, 8) * Pow(L.WORD, 8), P) == 24376
  {
    hide Pow, Res;
    PowersOfShift();
    PowAdd(L.WORD, 8, 8);
    M.TwoTo32();
    PowPow(2, 32, 16);
    ResSmall(24376, P);
  }

  /** 2^768 is 1 modulo 7. */
  lemma CurveScale()
    ensures Res(Pow(L.WORD, 12) * Pow(L.WORD, 12), 7) == 1
  {
    assert Cong(L.WORD, 4, 7) && Cong(64, 1, 7);
    PowAdd(L.WORD, 12, 12);
    CongPow(L.WORD, 4, 24, 7);
    PowPow(4, 3, 8);
    assert Pow(4, 3) == 64;
    hide Pow, Res;
    CongPow(64, 1, 8, 7);
    PowOne(8);
    ResSmall(1, 7);
  }

  function ScalarConstants(): M.FieldConstants {
    SmallConstants(P, 8, 2617286655, 24376)
  }

  function CurveConstants(): M.FieldConstants {
    SmallConstants(7, 12, 1227133513, 1)
  }

  /** Eight-limb constants of the field with 40961 elements. */
  lemma ScalarConstantsExist()
    ensures FrConstants(ScalarConstants()) && L.Val(ScalarConstants().p) == P
  {
    hide Pow, L.Val, IsPrime, Res, M.ValidConstants;
    PIsPrime();
    ScalarScale();
    assert (2617286655 * P + 1) % L.WORD == 0;
    SmallConstantsValid(P, 8, 2617286655, 24376);
  }

  /** Twelve-limb constants of the field with seven elements, with room for the flags. */
  lemma CurveConstantsExist()
    ensures Z.FpConstants(CurveConstants(), SmallLimbs(3, 12)) && L.Val(CurveConstants().p) == 7
  {
    hide Pow, L.Val, Res, M.ValidConstants;
    SevenIsPrime();
    CurveScale();
    assert (1227133513 * 7 + 1) % L.WORD == 0;
    SmallConstantsValid(7, 12, 1227133513, 1);
    SmallLimbsVal(3, 12);
    PowPositive(256, 47);
  }

  lemma ElevenIsPrime()
    ensures IsPrime(11)
  {
    assert forall d :: 1 < d < 11 ==> 11 % d != 0;
  }

  /** A chord on y^2 = x^3 + 4 modulo 11: the line of slope 2 through (0, 2) and (1, 4) meets the curve in (3, 8). */
  lemma SmallChord()
    ensures AffAdd(Point(0, 2), Point(1, 4), 11) == Point(3, 3)
  {
    hide IsPrime, AffAdd;
    ElevenIsPrime();
    forall t ensures Cong(t * t * t + 4 - Line(2, 0, 2, t) * Line(2, 0, 2, t), (t - 0) * ((t - 1) * (t - 3)), 11) {
      CongIntro(t * t * t + 4 - Line(2, 0, 2, t) * Line(2, 0, 2, t), (t - 0) * ((t - 1) * (t - 3)), -t, 11) by {
        CubicExpand(0, 1, 3, t);
        LineSquare(2, 2, t);
      }
    }
    assert Cong(Line(2, 0, 2, 1), 4, 11) && Cong(Line(2, 0, 2, 3), -3, 11);
    assert OnCurve(Point(0, 2), 4, 11) && OnCurve(Point(1, 4), 4, 11);
    ChordAndTangent(Point(0, 2), Point(1, 4), Point(3, 3), 4, 11) by {
      assert Apart(Point(0, 2), Point(1, 4), 11);
    }
    assert Collinear(2, Point(0, 2), Point(1, 4), Point(3, 3), 4, 11);
  }

  lemma SevenIsPrime()
    ensures IsPrime(7)
  {
  }

  // ------------------------------------------------------------ a curve and its group

  /** The group of y^2 = x^3 + 4 modulo 7: infinity, (0, 2) and (0, 5). */
  datatype Three = Zero | One | Two

  function AddThree(a: Three, b: Three): Three {
    match (a, b)
    case (Zero, _) => b
    case (_, Zero) => a
    case (One, One) => Two
    case (Two, Two) => One
    case _ => Zero
  }

  function NegThree(a: Three): Three {
    match a
    case Zero => Zero
    case One => Two
    case Two => One
  }

  function PointThree(a: Affine): Three {
    if a.Infinity? then Zero else if a.y == 2 then One else Two
  }

  ghost function SmallCurve(): Reading<Three> {
    Reading(Group(Zero, AddThree, NegThree), PointThree, 4, 7)
  }

  /** Cubes modulo 7 are 0, 1 and 6, and squares 0, 1, 2 and 4, which leaves two points with x == 0. */
  lemma PointsOfSmallCurve(a: Affine)
    requires OnCurve(a, 4, 7)
    ensures a == Infinity || a == Point(0, 2) || a == Point(0, 5)
  {
    if a.Point? {
      var x, y := a.x, a.y;
      assert x == 0 || x == 1 || x == 2 || x == 3 || x == 4 || x == 5 || x == 6;
      assert y == 0 || y == 1 || y == 2 || y == 3 || y == 4 || y == 5 || y == 6;
    }
  }

  /** The tangent at x == 0 is flat, so doubling gives the opposite point. */
  lemma FlatTangent(y: int)
    requires y == 2 || y == 5
    ensures AffAdd(Point(0, y), Point(0, y), 7) == Point(0, 7 - y)
  {
    hide TangentSlope, ThirdPoint;
    FlatSlope(y);
    FlatThird(y);
    assert FrAdd(y, y, 7) != 0;
  }

  lemma FlatSlope(y: int)
    ensures TangentSlope(0, y, 7) == 0
  {
    hide FrInv, Res;
    ResSmall(0, 7);
    ZeroTimes(FrInv(FrMul(2, y, 7), 7));
  }

  lemma ZeroTimes(x: int)
    ensures FrMul(0, x, 7) == 0 && FrMul(3, 0, 7) == 0
  {
  }

  lemma FlatThird(y: int)
    requires y == 2 || y == 5
    ensures ThirdPoint(0, 0, y, 0, 7) == Point(0, 7 - y)
  {
  }

  lemma SmallCurveReads()
    ensures Homomorphic(SmallCurve())
  {
    SevenIsPrime();
    hide IsPrime, AffAdd, OnCurve;
    var c := SmallCurve();
    assert !Cong(4, 0, 7);
    forall a, d | OnCurve(a, 4, 7) && OnCurve(d, 4, 7)
      ensures PointThree(AffAdd(a, d, 7)) == AddThree(PointThree(a), PointThree(d))
    {
      SmallSum(a, d);
    }
  }

  lemma SmallSum(a: Affine, d: Affine)
    requires OnCurve(a, 4, 7) && OnCurve(d, 4, 7)
    ensures PointThree(AffAdd(a, d, 7)) == AddThree(PointThree(a), PointThree(d))
  {
    hide OnCurve, ThirdPoint, TangentSlope, ChordSlope;
    PointsOfSmallCurve(a);
    PointsOfSmallCurve(d);
    FlatTangent(2);
    FlatTangent(5);
  }

  /** 256 copies of a point of order three are the point. */
  lemma {:induction false} PlaceValue(d: nat, x: Three)
    ensures Smul(SmallCurve().g, Pow(256, d), x) == x
  {
    hide Smul, IsAbelian, Homomorphic, Pow;
    SmallCurveReads();
    HomomorphicParts(SmallCurve());
    var g := SmallCurve().g;
    if d == 0 {
      FirstPlace();
      SmulOne(g, x);
    } else {
      PlaceValue(d - 1, x);
      NextPlace(d - 1);
      FourTimes(x);
      SmulMul(g, 4, 4, x);
      SmulMul(g, 16, 16, x);
      SmulMul(g, 256, Pow(256, d - 1), x);
    }
  }

  lemma FirstPlace()
    ensures Pow(256, 0) == 1
  {
  }

  lemma NextPlace(d: nat)
    ensures Pow(256, d + 1) == 256 * Pow(256, d)
  {
  }

  lemma FourTimes(x: Three)
    ensures Smul(SmallCurve().g, 4, x) == x
  {
    var g := SmallCurve().g;
    assert Multiple(g, 2, x) == AddThree(AddThree(Zero, x), x);
    assert Multiple(g, 4, x) == AddThree(AddThree(Multiple(g, 2, x), x), x);
  }
}
