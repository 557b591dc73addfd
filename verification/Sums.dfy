/** Finite sums of integers, the language in which transforms and products are specified. */
module Sums {
  import opened Modular

  /** f(0) + ... + f(n - 1). */
  function Sum(n: nat, f: int -> int): int {
    if n == 0 then 0 else Sum(n - 1, f) + f(n - 1)
  }

  lemma {:induction false} SumEq(n: nat, f: int -> int, g: int -> int)
    requires forall i :: 0 <= i < n ==> f(i) == g(i)
    ensures Sum(n, f) == Sum(n, g)
  {
    if n > 0 {
      SumEq(n - 1, f, g);
    }
  }

  lemma {:induction false} SumCong(n: nat, f: int -> int, g: int -> int, p: int)
    requires p > 0
    requires forall i :: 0 <= i < n ==> Cong(f(i), g(i), p)
    ensures Cong(Sum(n, f), Sum(n, g), p)
  {
    hide Res;
    if n > 0 {
      SumCong(n - 1, f, g, p);
      CongAdd(Sum(n - 1, f), Sum(n - 1, g), f(n - 1), g(n - 1), p);
    }
  }

  lemma {:induction false} SumZero(n: nat, f: int -> int)
    requires forall i :: 0 <= i < n ==> f(i) == 0
    ensures Sum(n, f) == 0
  {
    if n > 0 {
      SumZero(n - 1, f);
    }
  }

  lemma {:induction false} SumAdd(n: nat, f: int -> int, g: int -> int)
    ensures Sum(n, i => f(i) + g(i)) == Sum(n, f) + Sum(n, g)
  {
    if n > 0 {
      SumAdd(n - 1, f, g);
    }
  }

  lemma {:induction false} SumScale(n: nat, c: int, f: int -> int)
    ensures Sum(n, i => c * f(i)) == c * Sum(n, f)
  {
    if n > 0 {
      SumScale(n - 1, c, f);
      MulDistrib(Sum(n - 1, f), f(n - 1), c);
    }
  }

  lemma {:induction false} SumSplit(n: nat, m: nat, f: int -> int)
    ensures Sum(n + m, f) == Sum(n, f) + Sum(m, i => f(n + i))
    decreases m
  {
    if m > 0 {
      SumSplit(n, m - 1, f);
    }
  }

  lemma {:induction false} SumFirst(n: nat, f: int -> int)
    requires n > 0
    ensures Sum(n, f) == f(0) + Sum(n - 1, i => f(i + 1))
  {
    if n > 1 {
      SumFirst(n - 1, f);
    }
  }

  lemma {:induction false} SumEvenOdd(n: nat, f: int -> int)
    ensures Sum(2 * n, f) == Sum(n, i => f(2 * i)) + Sum(n, i => f(2 * i + 1))
  {
    if n > 0 {
      SumEvenOdd(n - 1, f);
      assert Sum(2 * n, f) == Sum(2 * n - 1, f) + f(2 * n - 1);
      assert Sum(2 * n - 1, f) == Sum(2 * (n - 1), f) + f(2 * (n - 1));
    }
  }

  /** Exchanges the order of a double sum. */
  lemma {:induction false} SumSwap(n: nat, m: nat, h: (int, int) -> int)
    ensures Sum(n, i => Sum(m, j => h(i, j))) == Sum(m, j => Sum(n, i => h(i, j)))
  {
    if n == 0 {
      SumZero(m, j => Sum(n, i => h(i, j)));
    } else {
      SumSwap(n - 1, m, h);
      SumAdd(m, j => Sum(n - 1, i => h(i, j)), j => h(n - 1, j));
      SumEq(m, j => Sum(n, i => h(i, j)),
            j => (j => Sum(n - 1, i => h(i, j)))(j) + (j => h(n - 1, j))(j));
    }
  }

  /** A sum over n * m indices, block by block. */
  lemma {:induction false} SumBlocks(n: nat, m: nat, f: int -> int)
    ensures n * m >= 0 && Sum(n * m, f) == Sum(n, i => Sum(m, j => f(m * i + j)))
  {
    if n > 0 {
      SumBlocks(n - 1, m, f);
      assert n * m == (n - 1) * m + m;
      SumSplit((n - 1) * m, m, f);
      SumEq(m, j => f((n - 1) * m + j), j => f(m * (n - 1) + j));
    } else {
      assert n * m == 0;
    }
  }

  /** All terms but the k-th vanish modulo p. */
  lemma {:induction false} SumSingle(n: nat, k: nat, f: int -> int, p: int)
    requires p > 0 && k < n
    requires forall i :: 0 <= i < n && i != k ==> Cong(f(i), 0, p)
    ensures Cong(Sum(n, f), f(k), p)
  {
    hide Res;
    if k == n - 1 {
      SumCong(n - 1, f, i => 0, p);
      SumZero(n - 1, i => 0);
      CongAdd(Sum(n - 1, f), 0, f(k), f(k), p);
    } else {
      SumSingle(n - 1, k, f, p);
      CongAdd(Sum(n - 1, f), f(k), f(n - 1), 0, p);
    }
  }

  /** (q - 1) * (1 + q + ... + q^(n-1)) == q^n - 1. */
  lemma {:induction false} Geometric(n: nat, q: int)
    ensures (q - 1) * Sum(n, i => Pow(q, i)) == Pow(q, n) - 1
  {
    if n > 0 {
      Geometric(n - 1, q);
      var s := Sum(n - 1, i => Pow(q, i));
      MulDistrib(s, Pow(q, n - 1), q - 1);
      MulDistrib(q, 1, Pow(q, n - 1));
    }
  }
}
