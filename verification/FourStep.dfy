/** Four-step factorisation of an N1 * N2 point transform into two passes of smaller ones. */
module FourStep {
  import opened Modular
  import opened Sums
  import opened Dft

  /** What pass 1 leaves in slot n2 + N2 * k1: a twiddled N1-point transform of every N2-th element. */
  function PassOneValue(x: seq<int>, n1: nat, n2: nat, w: int, t: int, k1: int): int {
    Strided(x, t, n2, n1, Pow(w, n2), k1) * Pow(w, t * k1)
  }

  /** A term of the big transform: index n2 * i + t, output k1 + n1 * k2. */
  lemma ExponentSplit(w: int, n1: nat, n2: nat, i: nat, t: nat, k1: nat, k2: nat, p: int)
    requires p > 0 && Cong(Pow(w, n1 * n2), 1, p)
    ensures Cong(Pow(w, (n2 * i + t) * (k1 + n1 * k2)),
                 Pow(Pow(w, n2), i * k1) * Pow(w, t * k1) * Pow(Pow(w, n1), t * k2), p)
  {
    hide Res, Pow;
    MulNonneg(i, k1);
    MulNonneg(t, k1);
    MulNonneg(t, k2);
    MulNonneg(i, k2);
    var a, b, c := n2 * (i * k1), t * k1, n1 * (t * k2);
    MulNonneg(n2, i * k1);
    MulNonneg(n1, t * k2);
    assert (n2 * i + t) * (k1 + n1 * k2) == (n1 * n2) * (i * k2) + (a + b + c) by {
      ExpandExponent(n1, n2, i, t, k1, k2);
    }
    PowPeriod(w, n1 * n2, i * k2, a + b + c, p);
    PowAdd(w, a + b, c);
    PowAdd(w, a, b);
    PowPow(w, n2, i * k1);
    PowPow(w, n1, t * k2);
  }

  lemma ExpandExponent(n1: int, n2: int, i: int, t: int, k1: int, k2: int)
    ensures (n2 * i + t) * (k1 + n1 * k2) == (n1 * n2) * (i * k2) + (n2 * (i * k1) + t * k1 + n1 * (t * k2))
  {
    MulDistrib(n2 * i, t, k1 + n1 * k2);
    MulDistrib(k1, n1 * k2, n2 * i);
    MulDistrib(k1, n1 * k2, t);
    MulAssoc(n2, i, k1);
    MulSwap(n2, i, n1, k2);
    MulLeftSwap(t, n1, k2);
    assert n2 * n1 == n1 * n2;
  }

  /** Pass 2 over the slots left by pass 1 gives the whole transform in natural order. */
  lemma FourStepCorrect(x: seq<int>, mid: seq<int>, n1: nat, n2: nat, w: int, k1: nat, k2: nat, p: int)
    requires p > 0 && Cong(Pow(w, n1 * n2), 1, p) && k1 < n1
    requires forall t :: 0 <= t < n2 ==> Cong(At(mid, n2 * k1 + t), PassOneValue(x, n1, n2, w, t, k1), p)
    ensures n1 * n2 >= 0
    ensures Cong(Strided(mid, n2 * k1, 1, n2, Pow(w, n1), k2), Transform(x, n1 * n2, w, k1 + n1 * k2), p)
  {
    hide Res, Pow, Term, Strided, PassOneValue, Sum;
    var k := k1 + n1 * k2;
    var f := j => Term(x, 0, 1, w, k, j);
    var h := (i, t) => f(n2 * i + t);
    MulNonneg(n1, n2);
    StridedSum(x, n1 * n2, w, k);
    SumBlocks(n1, n2, f);
    forall i | 0 <= i < n1 ensures Sum(n2, j => f(n2 * i + j)) == Sum(n2, t => h(i, t)) {
      SumEq(n2, j => f(n2 * i + j), t => h(i, t));
    }
    SumEq(n1, i => Sum(n2, j => f(n2 * i + j)), i => Sum(n2, t => h(i, t)));
    SumSwap(n1, n2, h);
    var g := t => Sum(n1, i => h(i, t));
    SumEq(n2, g, t => Sum(n1, i => h(i, t)));
    forall t | 0 <= t < n2 ensures Cong(g(t), Term(mid, n2 * k1, 1, Pow(w, n1), k2, t), p) {
      Column(x, mid, n1, n2, w, t, k1, k2, p);
      SumEq(n1, i => h(i, t), i => Term(x, 0, 1, w, k, n2 * i + t));
    }
    SumCong(n2, g, t => Term(mid, n2 * k1, 1, Pow(w, n1), k2, t), p);
    StridedIsSum(mid, n2 * k1, 1, n2, Pow(w, n1), k2);
  }

  lemma StridedIsSum(x: seq<int>, off: int, stride: int, n: nat, w: int, k: int)
    ensures Strided(x, off, stride, n, w, k) == Sum(n, j => Term(x, off, stride, w, k, j))
  {
  }

  /** The terms of one column of the input, all inputs congruent to t modulo n2. */
  lemma Column(x: seq<int>, mid: seq<int>, n1: nat, n2: nat, w: int, t: nat, k1: nat, k2: nat, p: int)
    requires p > 0 && Cong(Pow(w, n1 * n2), 1, p) && t < n2
    requires Cong(At(mid, n2 * k1 + t), PassOneValue(x, n1, n2, w, t, k1), p)
    ensures Cong(Sum(n1, i => Term(x, 0, 1, w, k1 + n1 * k2, n2 * i + t)),
                 Term(mid, n2 * k1, 1, Pow(w, n1), k2, t), p)
  {
    hide Res, Pow, Strided;
    var c := Pow(w, t * k1) * Pow(Pow(w, n1), t * k2);
    var f := i => Term(x, t, n2, Pow(w, n2), k1, i);
    var g := i => Term(x, 0, 1, w, k1 + n1 * k2, n2 * i + t);
    forall i | 0 <= i < n1 ensures Cong(g(i), c * f(i), p) {
      ColumnTerm(x, n1, n2, w, t, k1, k2, i, p);
    }
    SumCong(n1, g, i => c * f(i), p);
    SumScale(n1, c, f);
    StridedIsSum(x, t, n2, n1, Pow(w, n2), k1);
    var s, r := Strided(x, t, n2, n1, Pow(w, n2), k1), Pow(Pow(w, n1), t * k2);
    assert c * s == s * Pow(w, t * k1) * r by {
      MulAssoc(s, Pow(w, t * k1), r);
    }
    CongMul(At(mid, n2 * k1 + t), s * Pow(w, t * k1), r, r, p);
  }

  lemma ColumnTerm(x: seq<int>, n1: nat, n2: nat, w: int, t: nat, k1: nat, k2: nat, i: nat, p: int)
    requires p > 0 && Cong(Pow(w, n1 * n2), 1, p)
    ensures Cong(Term(x, 0, 1, w, k1 + n1 * k2, n2 * i + t),
                 Pow(w, t * k1) * Pow(Pow(w, n1), t * k2) * Term(x, t, n2, Pow(w, n2), k1, i), p)
  {
    hide Res, Pow;
    ExponentSplit(w, n1, n2, i, t, k1, k2, p);
    var a := At(x, n2 * i + t);
    var u, v, y := Pow(Pow(w, n2), i * k1), Pow(w, t * k1), Pow(Pow(w, n1), t * k2);
    CongMul(a, a, Pow(w, (n2 * i + t) * (k1 + n1 * k2)), u * v * y, p);
    MulAssoc(u, v, y);
    MulLeftSwap(a, v * y, u);
    assert u * (v * y) == v * y * u;
    assert 0 + 1 * (n2 * i + t) == n2 * i + t == t + n2 * i;
  }
}
