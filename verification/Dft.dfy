/** The discrete Fourier transform as a sum over the integers, compared modulo a prime p. */
module Dft {
  import opened Modular
  import opened Sums

  /** s[i], with 0 outside the sequence. */
  function At(s: seq<int>, i: int): int {
    if 0 <= i < |s| then s[i] else 0
  }

  function Term(x: seq<int>, off: int, stride: int, w: int, k: int, j: int): int {
    At(x, off + stride * j) * Pow(w, j * k)
  }

  /** Output k of the n-point transform with root w of the elements off, off + stride, ... of x. */
  function Strided(x: seq<int>, off: int, stride: int, n: nat, w: int, k: int): int {
    Sum(n, j => Term(x, off, stride, w, k, j))
  }

  /** The n-point transform of x: x as a polynomial evaluated at w^k. */
  function Transform(x: seq<int>, n: nat, w: int, k: int): int {
    Strided(x, 0, 1, n, w, k)
  }

  /** w has multiplicative order exactly n modulo the prime p. */
  ghost predicate PrimitiveRoot(w: int, n: nat, p: int) {
    && IsPrime(p)
    && n > 0
    && Cong(Pow(w, n), 1, p)
    && forall e :: 0 < e < n ==> !Cong(Pow(w, e), 1, p)
  }

  // ------------------------------------------------------------ orders

  lemma PowPeriod(w: int, n: nat, q: nat, r: nat, p: int)
    requires p > 0 && Cong(Pow(w, n), 1, p)
    ensures n * q >= 0 && Cong(Pow(w, n * q + r), Pow(w, r), p)
  {
    hide Res, Pow;
    MulNonneg(n, q);
    PowAdd(w, n * q, r);
    PowPow(w, n, q);
    CongPow(Pow(w, n), 1, q, p);
    PowOne(q);
    CongMul(Pow(w, n * q), 1, Pow(w, r), Pow(w, r), p);
  }

  lemma PowModOrder(w: int, n: nat, e: nat, p: int)
    requires p > 0 && n > 0 && Cong(Pow(w, n), 1, p)
    ensures Cong(Pow(w, e), Pow(w, e % n), p)
  {
    hide Res, Pow;
    assert n * (e / n) + e % n == e;
    PowPeriod(w, n, e / n, e % n, p);
  }

  lemma RootNonzero(w: int, n: nat, p: int)
    requires PrimitiveRoot(w, n, p)
    ensures !Cong(w, 0, p)
  {
    hide Res;
    OneNotZero(p);
    if Cong(w, 0, p) {
      CongMul(w, 0, Pow(w, n - 1), Pow(w, n - 1), p);
    }
  }

  /** Two powers of w agree exactly when their exponents agree modulo n. */
  lemma PowEqual(w: int, n: nat, e: nat, f: nat, p: int)
    requires PrimitiveRoot(w, n, p)
    ensures Cong(Pow(w, e), Pow(w, f), p) <==> e % n == f % n
  {
    hide Res, Pow;
    PowModOrder(w, n, e, p);
    PowModOrder(w, n, f, p);
    if e % n < f % n {
      PowDistinct(w, n, e % n, f % n, p);
    } else if f % n < e % n {
      PowDistinct(w, n, f % n, e % n, p);
    }
  }

  lemma PowDistinct(w: int, n: nat, a: nat, b: nat, p: int)
    requires PrimitiveRoot(w, n, p) && a < b < n
    ensures !Cong(Pow(w, a), Pow(w, b), p)
  {
    hide Res, Pow;
    if Cong(Pow(w, a), Pow(w, b), p) {
      PowAdd(w, a, b - a);
      RootNonzero(w, n, p);
      PowNonzero(w, a, p);
      assert Pow(w, a) * 1 == Pow(w, a);
      CancelLeft(Pow(w, a), Pow(w, b - a), 1, p);
    }
  }

  /** The s-th power of a primitive n-th root is a primitive (n/s)-th root. */
  lemma SubRoot(w: int, n: nat, s: nat, m: nat, p: int)
    requires PrimitiveRoot(w, n, p) && s > 0 && m > 0 && n == s * m
    ensures PrimitiveRoot(Pow(w, s), m, p)
  {
    hide Res, Pow;
    PowPow(w, s, m);
    forall e | 0 < e < m ensures !Cong(Pow(Pow(w, s), e), 1, p) {
      PowPow(w, s, e);
      MulMono(1, e, s);
      MulMono(e, m - 1, s);
      MulDistrib(m, 1, s);
      assert 0 < s * e < n;
    }
  }

  /** Half way round the circle is -1. */
  lemma HalfTurn(w: int, m: nat, p: int)
    requires m > 0 && PrimitiveRoot(w, 2 * m, p)
    ensures Cong(Pow(w, m), -1, p)
  {
    hide Res, Pow;
    var h := Pow(w, m);
    PowAdd(w, m, m);
    CongSub(h * h, 1, 1, 1, p);
    MulDistrib(h, 1, h - 1);
    assert (h - 1) * (h + 1) == h * h - 1;
    NoZeroDivisors(h - 1, h + 1, p);
    if Cong(h - 1, 0, p) {
      CongAdd(h - 1, 0, 1, 1, p);
      assert false;
    }
    CongSub(h + 1, 0, 1, 1, p);
  }

  // ------------------------------------------------------------ decimation in time

  /** An even-sized transform from the transforms of its even and odd elements. */
  lemma Decimate(x: seq<int>, off: int, stride: int, m: nat, w: int, k: nat)
    ensures Strided(x, off, stride, 2 * m, w, k)
         == Strided(x, off, 2 * stride, m, w * w, k)
          + Pow(w, k) * Strided(x, off + stride, 2 * stride, m, w * w, k)
  {
    hide Pow, Term;
    var f := j => Term(x, off, stride, w, k, j);
    var even := j => Term(x, off, 2 * stride, w * w, k, j);
    var odd := j => Term(x, off + stride, 2 * stride, w * w, k, j);
    SumEvenOdd(m, f);
    forall j | 0 <= j < m ensures f(2 * j) == even(j) && f(2 * j + 1) == Pow(w, k) * odd(j) {
      DecimateTerm(x, off, stride, w, k, j);
    }
    SumEq(m, j => f(2 * j), even);
    SumEq(m, j => f(2 * j + 1), j => Pow(w, k) * odd(j));
    SumScale(m, Pow(w, k), odd);
  }

  lemma DecimateTerm(x: seq<int>, off: int, stride: int, w: int, k: nat, j: nat)
    ensures Term(x, off, stride, w, k, 2 * j) == Term(x, off, 2 * stride, w * w, k, j)
    ensures Term(x, off, stride, w, k, 2 * j + 1) == Pow(w, k) * Term(x, off + stride, 2 * stride, w * w, k, j)
  {
    hide Pow;
    DecimatePower(w, k, j);
    MulAssoc(stride, 2, j);
    MulAssoc(2, stride, j);
    MulDistrib(2 * j, 1, stride);
    MulLeftSwap(At(x, off + stride + 2 * stride * j), Pow(w, k), Pow(w * w, j * k));
  }

  lemma DecimatePower(w: int, k: nat, j: nat)
    ensures Pow(w, 2 * j * k) == Pow(w * w, j * k)
    ensures Pow(w, (2 * j + 1) * k) == Pow(w, k) * Pow(w * w, j * k)
  {
    MulNonneg(j, k);
    PowPow(w, 2, j * k);
    assert Pow(w, 2) == w * Pow(w, 1) == w * w;
    MulAssoc(2, j, k);
    MulDistrib(2 * j, 1, k);
    PowAdd(w, k, 2 * (j * k));
  }

  /** A transform is periodic in its output index. */
  lemma StridedPeriod(x: seq<int>, off: int, stride: int, n: nat, w: int, k: nat, p: int)
    requires p > 0 && Cong(Pow(w, n), 1, p)
    ensures Cong(Strided(x, off, stride, n, w, k + n), Strided(x, off, stride, n, w, k), p)
  {
    hide Res, Pow;
    forall j | 0 <= j < n ensures Cong(Term(x, off, stride, w, k + n, j), Term(x, off, stride, w, k, j), p) {
      MulDistrib(k, n, j);
      MulNonneg(j, k);
      PowPeriod(w, n, j, j * k, p);
      var c := At(x, off + stride * j);
      CongMul(c, c, Pow(w, j * (k + n)), Pow(w, j * k), p);
    }
    hide Term;
    SumCong(n, j => Term(x, off, stride, w, k + n, j), j => Term(x, off, stride, w, k, j), p);
  }

  /** The lower half of the outputs takes the difference. */
  lemma DecimateHigh(x: seq<int>, off: int, stride: int, m: nat, w: int, k: nat, p: int)
    requires p > 0 && Cong(Pow(w, m), -1, p)
    ensures Cong(Strided(x, off, stride, 2 * m, w, k + m),
                 Strided(x, off, 2 * stride, m, w * w, k)
                 - Pow(w, k) * Strided(x, off + stride, 2 * stride, m, w * w, k), p)
  {
    hide Res, Pow, Strided;
    Decimate(x, off, stride, m, w, k + m);
    var w2 := w * w;
    var e, o := Strided(x, off, 2 * stride, m, w2, k), Strided(x, off + stride, 2 * stride, m, w2, k);
    var e', o' := Strided(x, off, 2 * stride, m, w2, k + m), Strided(x, off + stride, 2 * stride, m, w2, k + m);
    HalfTurnSquared(w, k, m, p);
    StridedPeriod(x, off, 2 * stride, m, w2, k, p);
    StridedPeriod(x, off + stride, 2 * stride, m, w2, k, p);
    CongMul(Pow(w, k + m), -Pow(w, k), o', o, p);
    CongAdd(e', e, Pow(w, k + m) * o', -Pow(w, k) * o, p);
    assert -Pow(w, k) * o == -(Pow(w, k) * o);
  }

  lemma HalfTurnSquared(w: int, k: nat, m: nat, p: int)
    requires p > 0 && Cong(Pow(w, m), -1, p)
    ensures Cong(Pow(w * w, m), 1, p) && Cong(Pow(w, k + m), -Pow(w, k), p)
  {
    hide Res, Pow;
    PowMulBase(w, w, m);
    CongMul(Pow(w, m), -1, Pow(w, m), -1, p);
    PowAdd(w, k, m);
    CongMul(Pow(w, k), Pow(w, k), Pow(w, m), -1, p);
  }

  // ------------------------------------------------------------ inversion

  /** w^j / w^i for a root w with inverse v. */
  function Quotient(w: int, v: int, i: int, j: int): int {
    Pow(w, j) * Pow(v, i)
  }

  /** Sum of the k-th powers of w^j / w^i over a full turn: n when i == j, 0 otherwise. */
  lemma Orthogonality(w: int, v: int, n: nat, i: nat, j: nat, p: int)
    requires PrimitiveRoot(w, n, p) && Cong(w * v, 1, p) && i < n && j < n
    ensures Cong(Sum(n, k => Pow(Quotient(w, v, i, j), k)), if i == j then n else 0, p)
  {
    hide Res, Pow, Quotient;
    var q := Quotient(w, v, i, j);
    var s := Sum(n, k => Pow(q, k));
    QuotientIsOne(w, v, n, i, j, p);
    if i == j {
      GeometricOfOne(q, n, p);
    } else {
      Geometric(n, q);
      QuotientPower(w, v, n, i, j, p);
      CongSub(Pow(q, n), 1, 1, 1, p);
      NoZeroDivisors(q - 1, s, p);
      if Cong(q - 1, 0, p) {
        CongAdd(q - 1, 0, 1, 1, p);
        assert false;
      }
    }
  }

  lemma QuotientIsOne(w: int, v: int, n: nat, i: nat, j: nat, p: int)
    requires PrimitiveRoot(w, n, p) && Cong(w * v, 1, p) && i < n && j < n
    ensures Cong(Quotient(w, v, i, j), 1, p) <==> i == j
  {
    hide Res, Pow;
    var a, b, c := Pow(w, i), Pow(w, j), Pow(v, i);
    assert Cong(a * (b * c), b, p) by {
      PowMulBase(w, v, i);
      CongPow(w * v, 1, i, p);
      PowOne(i);
      MulLeftSwap(a, b, c);
      CongMul(b, b, a * c, 1, p);
    }
    if Cong(b * c, 1, p) {
      CongMul(a, a, b * c, 1, p);
      PowEqual(w, n, i, j, p);
    } else if i == j {
      RootNonzero(w, n, p);
      PowNonzero(w, i, p);
      CancelLeft(a, b * c, 1, p);
    }
  }

  lemma {:induction false} GeometricOfOne(q: int, n: nat, p: int)
    requires p > 0 && Cong(q, 1, p)
    ensures Cong(Sum(n, k => Pow(q, k)), n, p)
  {
    hide Res, Pow;
    if n > 0 {
      GeometricOfOne(q, n - 1, p);
      CongPow(q, 1, n - 1, p);
      PowOne(n - 1);
      CongAdd(Sum(n - 1, k => Pow(q, k)), n - 1, Pow(q, n - 1), 1, p);
    }
  }

  lemma QuotientPower(w: int, v: int, n: nat, i: nat, j: nat, p: int)
    requires PrimitiveRoot(w, n, p) && Cong(w * v, 1, p)
    ensures Cong(Pow(Quotient(w, v, i, j), n), 1, p)
  {
    hide Res, Pow;
    PowMulBase(Pow(w, j), Pow(v, i), n);
    InverseRoot(w, v, n, p);
    PowerOfPower(w, j, n, p);
    PowerOfPower(v, i, n, p);
    CongMul(Pow(Pow(w, j), n), 1, Pow(Pow(v, i), n), 1, p);
  }

  lemma PowerOfPower(w: int, j: nat, n: nat, p: int)
    requires p > 0 && Cong(Pow(w, n), 1, p)
    ensures Cong(Pow(Pow(w, j), n), 1, p)
  {
    hide Res;
    PowPow(w, j, n);
    PowPeriod(w, n, j, 0, p);
    assert n * j + 0 == j * n;
  }

  /** The inverse of a primitive root is a primitive root of the same order. */
  lemma InverseRoot(w: int, v: int, n: nat, p: int)
    requires PrimitiveRoot(w, n, p) && Cong(w * v, 1, p)
    ensures PrimitiveRoot(v, n, p)
  {
    hide Res, Pow;
    forall e: nat | e <= n ensures Cong(Pow(v, e), 1, p) <==> Cong(Pow(w, e), 1, p) {
      PowMulBase(w, v, e);
      CongPow(w * v, 1, e, p);
      PowOne(e);
      if Cong(Pow(v, e), 1, p) {
        CongMul(Pow(w, e), Pow(w, e), Pow(v, e), 1, p);
      }
      if Cong(Pow(w, e), 1, p) {
        CongMul(Pow(w, e), 1, Pow(v, e), Pow(v, e), p);
      }
    }
  }

  /** Transforming back with the inverse root multiplies every element by n. */
  lemma InverseTransform(x: seq<int>, y: seq<int>, n: nat, w: int, v: int, i: nat, p: int)
    requires PrimitiveRoot(w, n, p) && Cong(w * v, 1, p) && i < n
    requires |y| == n
    requires forall k :: 0 <= k < n ==> Cong(y[k], Transform(x, n, w, k), p)
    ensures Cong(Transform(y, n, v, i), n * At(x, i), p)
  {
    hide Res, Pow, Strided, Term, Quotient;
    var h := (k, j) => At(x, j) * Pow(Quotient(w, v, i, j), k);
    forall k | 0 <= k < n ensures Cong(Term(y, 0, 1, v, i, k), Sum(n, j => h(k, j)), p) {
      InverseTerm(x, y, n, w, v, i, k, p);
      SumEq(n, j => h(k, j), j => At(x, j) * Pow(Quotient(w, v, i, j), k));
    }
    SumCong(n, k => Term(y, 0, 1, v, i, k), k => Sum(n, j => h(k, j)), p);
    StridedSum(y, n, v, i);
    SumSwap(n, n, h);
    var c := j => Sum(n, k => h(k, j));
    forall j | 0 <= j < n ensures Cong(c(j), At(x, j) * (if i == j then n else 0), p) {
      var g := k => Pow(Quotient(w, v, i, j), k);
      SumScale(n, At(x, j), g);
      SumEq(n, k => h(k, j), k => At(x, j) * g(k));
      Orthogonality(w, v, n, i, j, p);
      SumEq(n, g, k => Pow(Quotient(w, v, i, j), k));
      CongMul(At(x, j), At(x, j), Sum(n, g), if i == j then n else 0, p);
    }
    SumSingle(n, i, c, p);
    SumEq(n, c, j => Sum(n, k => h(k, j)));
  }

  lemma StridedSum(y: seq<int>, n: nat, v: int, i: int)
    ensures Transform(y, n, v, i) == Sum(n, k => Term(y, 0, 1, v, i, k))
  {
  }

  lemma InverseTerm(x: seq<int>, y: seq<int>, n: nat, w: int, v: int, i: nat, k: nat, p: int)
    requires p > 0 && k < n == |y| && Cong(y[k], Transform(x, n, w, k), p)
    ensures Cong(Term(y, 0, 1, v, i, k), Sum(n, j => At(x, j) * Pow(Quotient(w, v, i, j), k)), p)
  {
    hide Res, Pow, Quotient, Transform, Sum, At;
    var c := Pow(v, k * i);
    var f := j => At(x, j) * Pow(w, j * k);
    var g := j => At(x, j) * Pow(Quotient(w, v, i, j), k);
    TransformIsSum(x, n, w, k);
    CongMul(y[k], Transform(x, n, w, k), c, c, p);
    forall j | 0 <= j < n ensures c * f(j) == g(j) {
      InversePower(w, v, i, j, k);
      MulLeftSwap(c, At(x, j), Pow(w, j * k));
    }
    SumScale(n, c, f);
    SumEq(n, j => c * f(j), g);
    SoleTerm(y, v, i, k);
    assert Transform(x, n, w, k) * c == c * Sum(n, f);
  }

  lemma TransformIsSum(x: seq<int>, n: nat, w: int, k: int)
    ensures Transform(x, n, w, k) == Sum(n, j => At(x, j) * Pow(w, j * k))
  {
    SumEq(n, j => Term(x, 0, 1, w, k, j), j => At(x, j) * Pow(w, j * k)) by {
      hide Pow, At;
      forall j ensures Term(x, 0, 1, w, k, j) == At(x, j) * Pow(w, j * k) {
      }
    }
  }

  lemma SoleTerm(y: seq<int>, v: int, i: int, k: nat)
    requires k < |y|
    ensures Term(y, 0, 1, v, i, k) == y[k] * Pow(v, k * i)
  {
    hide Pow;
  }

  lemma InversePower(w: int, v: int, i: nat, j: nat, k: nat)
    ensures Pow(Quotient(w, v, i, j), k) == Pow(v, k * i) * Pow(w, j * k)
  {
    hide Pow;
    PowMulBase(Pow(w, j), Pow(v, i), k);
    PowPow(w, j, k);
    PowPow(v, i, k);
    assert k * i == i * k;
  }
}
