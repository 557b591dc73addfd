/** Commutative groups, integer multiples and finite sums: the language of multi-scalar multiplication.
    The kernels compute on coordinates; CurveGroup reads those as members of such a group. */
module Group {

  datatype Group<!G(!new)> = Group(zero: G, add: (G, G) -> G, neg: G -> G)

  ghost predicate Laws<G(!new)>(g: Group<G>, a: G, b: G, c: G) {
    && g.add(a, g.add(b, c)) == g.add(g.add(a, b), c)
    && g.add(a, b) == g.add(b, a)
    && g.add(a, g.zero) == a
    && g.add(a, g.neg(a)) == g.zero
  }

  ghost predicate IsAbelian<G(!new)>(g: Group<G>) {
    forall a, b, c :: Laws(g, a, b, c)
  }

  lemma LawsAt<G(!new)>(g: Group<G>, a: G, b: G, c: G)
    requires IsAbelian(g)
    ensures Laws(g, a, b, c)
  {
  }

  function Sub<G(!new)>(g: Group<G>, a: G, b: G): G {
    g.add(a, g.neg(b))
  }

  /** Exchanges the inner summands. */
  lemma Interchange<G(!new)>(g: Group<G>, a: G, b: G, c: G, d: G)
    requires IsAbelian(g)
    ensures g.add(g.add(a, b), g.add(c, d)) == g.add(g.add(a, c), g.add(b, d))
  {
    LawsAt(g, g.add(a, b), c, d);
    LawsAt(g, a, b, c);
    LawsAt(g, b, c, d);
    LawsAt(g, a, c, b);
    LawsAt(g, g.add(a, c), b, d);
  }

  lemma AddZeros<G(!new)>(g: Group<G>, a: G)
    requires IsAbelian(g)
    ensures g.add(g.zero, a) == a && g.add(a, g.zero) == a
  {
    LawsAt(g, a, g.zero, a);
  }

  lemma NegUnique<G(!new)>(g: Group<G>, a: G, b: G)
    requires IsAbelian(g) && g.add(a, b) == g.zero
    ensures b == g.neg(a)
  {
    LawsAt(g, g.neg(a), a, b);
    LawsAt(g, a, a, a);
    AddZeros(g, b);
    AddZeros(g, g.neg(a));
  }

  lemma NegZero<G(!new)>(g: Group<G>)
    requires IsAbelian(g)
    ensures g.neg(g.zero) == g.zero
  {
    AddZeros(g, g.zero);
    NegUnique(g, g.zero, g.zero);
  }

  lemma NegNeg<G(!new)>(g: Group<G>, a: G)
    requires IsAbelian(g)
    ensures g.neg(g.neg(a)) == a
  {
    LawsAt(g, a, g.neg(a), a);
    NegUnique(g, g.neg(a), a);
  }

  lemma NegAdd<G(!new)>(g: Group<G>, a: G, b: G)
    requires IsAbelian(g)
    ensures g.neg(g.add(a, b)) == g.add(g.neg(a), g.neg(b))
  {
    Interchange(g, a, b, g.neg(a), g.neg(b));
    LawsAt(g, a, a, a);
    LawsAt(g, b, b, b);
    AddZeros(g, g.zero);
    NegUnique(g, g.add(a, b), g.add(g.neg(a), g.neg(b)));
  }

  // ------------------------------------------------------------ multiples

  function Multiple<G(!new)>(g: Group<G>, k: nat, a: G): G {
    if k == 0 then g.zero else g.add(Multiple(g, k - 1, a), a)
  }

  /** k times a, for any integer k. */
  function Smul<G(!new)>(g: Group<G>, k: int, a: G): G {
    if k >= 0 then Multiple(g, k, a) else g.neg(Multiple(g, -k, a))
  }

  lemma {:induction false} SmulSucc<G(!new)>(g: Group<G>, k: int, a: G)
    requires IsAbelian(g)
    ensures Smul(g, k + 1, a) == g.add(Smul(g, k, a), a)
  {
    if k < 0 {
      var m := Multiple(g, -k - 1, a);
      assert Multiple(g, -k, a) == g.add(m, a);
      NegAdd(g, m, a);
      LawsAt(g, g.neg(m), g.neg(a), a);
      LawsAt(g, g.neg(a), a, a);
      LawsAt(g, a, a, a);
      AddZeros(g, g.neg(m));
      if k == -1 {
        NegZero(g);
      }
    }
  }

  lemma {:induction false} SmulPred<G(!new)>(g: Group<G>, k: int, a: G)
    requires IsAbelian(g)
    ensures Smul(g, k - 1, a) == g.add(Smul(g, k, a), g.neg(a))
  {
    SmulSucc(g, k - 1, a);
    var x := Smul(g, k - 1, a);
    LawsAt(g, x, a, g.neg(a));
    LawsAt(g, a, a, a);
    AddZeros(g, x);
  }

  lemma {:induction false} SmulAdd<G(!new)>(g: Group<G>, j: int, k: int, a: G)
    requires IsAbelian(g)
    ensures Smul(g, j + k, a) == g.add(Smul(g, j, a), Smul(g, k, a))
    decreases if k >= 0 then k else -k
  {
    if k == 0 {
      AddZeros(g, Smul(g, j, a));
    } else if k > 0 {
      SmulAdd(g, j, k - 1, a);
      SmulSucc(g, j + k - 1, a);
      SmulSucc(g, k - 1, a);
      LawsAt(g, Smul(g, j, a), Smul(g, k - 1, a), a);
    } else {
      SmulAdd(g, j, k + 1, a);
      SmulPred(g, j + k + 1, a);
      SmulPred(g, k + 1, a);
      LawsAt(g, Smul(g, j, a), Smul(g, k + 1, a), g.neg(a));
    }
  }

  lemma {:induction false} SmulPoint<G(!new)>(g: Group<G>, k: int, a: G, b: G)
    requires IsAbelian(g)
    ensures Smul(g, k, g.add(a, b)) == g.add(Smul(g, k, a), Smul(g, k, b))
    decreases if k >= 0 then k else -k
  {
    if k == 0 {
      AddZeros(g, g.zero);
    } else if k > 0 {
      SmulPoint(g, k - 1, a, b);
      SmulSucc(g, k - 1, g.add(a, b));
      SmulSucc(g, k - 1, a);
      SmulSucc(g, k - 1, b);
      Interchange(g, Smul(g, k - 1, a), Smul(g, k - 1, b), a, b);
    } else {
      SmulPoint(g, k + 1, a, b);
      SmulPred(g, k + 1, g.add(a, b));
      SmulPred(g, k + 1, a);
      SmulPred(g, k + 1, b);
      NegAdd(g, a, b);
      Interchange(g, Smul(g, k + 1, a), Smul(g, k + 1, b), g.neg(a), g.neg(b));
    }
  }

  lemma {:induction false} SmulMul<G(!new)>(g: Group<G>, j: int, k: int, a: G)
    requires IsAbelian(g)
    ensures Smul(g, j * k, a) == Smul(g, j, Smul(g, k, a))
    decreases if j >= 0 then j else -j
  {
    if j == 0 {
      assert j * k == 0;
    } else if j > 0 {
      assert j * k == (j - 1) * k + k;
      SmulMul(g, j - 1, k, a);
      SmulAdd(g, (j - 1) * k, k, a);
      SmulSucc(g, j - 1, Smul(g, k, a));
    } else {
      assert j * k == (j + 1) * k - k;
      SmulMul(g, j + 1, k, a);
      SmulAdd(g, (j + 1) * k, -k, a);
      SmulNeg(g, k, a);
      SmulPred(g, j + 1, Smul(g, k, a));
    }
  }

  lemma SmulNeg<G(!new)>(g: Group<G>, k: int, a: G)
    requires IsAbelian(g)
    ensures Smul(g, -k, a) == g.neg(Smul(g, k, a))
  {
    SmulAdd(g, k, -k, a);
    NegUnique(g, Smul(g, k, a), Smul(g, -k, a));
  }

  lemma SmulOne<G(!new)>(g: Group<G>, a: G)
    requires IsAbelian(g)
    ensures Smul(g, 1, a) == a && Smul(g, -1, a) == g.neg(a) && Smul(g, 0, a) == g.zero
  {
    AddZeros(g, a);
    SmulSucc(g, 0, a);
    SmulNeg(g, 1, a);
  }

  lemma SmulTwo<G(!new)>(g: Group<G>, a: G)
    requires IsAbelian(g)
    ensures Smul(g, 2, a) == g.add(a, a)
  {
    SmulOne(g, a);
    SmulSucc(g, 1, a);
  }

  lemma SmulZeroPoint<G(!new)>(g: Group<G>, k: int)
    requires IsAbelian(g)
    ensures Smul(g, k, g.zero) == g.zero
  {
    SmulMul(g, k, 0, g.zero);
    SmulOne(g, g.zero);
    assert k * 0 == 0;
  }

  // ------------------------------------------------------------ sums over a range

  /** f(0) + ... + f(n - 1). */
  function GSum<G(!new)>(g: Group<G>, n: nat, f: int -> G): G {
    if n == 0 then g.zero else g.add(GSum(g, n - 1, f), f(n - 1))
  }

  lemma {:induction false} GSumEq<G(!new)>(g: Group<G>, n: nat, f: int -> G, h: int -> G)
    requires forall i :: 0 <= i < n ==> f(i) == h(i)
    ensures GSum(g, n, f) == GSum(g, n, h)
  {
    if n > 0 {
      GSumEq(g, n - 1, f, h);
    }
  }

  lemma {:induction false} GSumZero<G(!new)>(g: Group<G>, n: nat, f: int -> G)
    requires IsAbelian(g) && forall i :: 0 <= i < n ==> f(i) == g.zero
    ensures GSum(g, n, f) == g.zero
  {
    if n > 0 {
      GSumZero(g, n - 1, f);
      AddZeros(g, g.zero);
    }
  }

  lemma {:induction false} GSumAdd<G(!new)>(g: Group<G>, n: nat, f: int -> G, h: int -> G)
    requires IsAbelian(g)
    ensures GSum(g, n, i => g.add(f(i), h(i))) == g.add(GSum(g, n, f), GSum(g, n, h))
  {
    if n == 0 {
      AddZeros(g, g.zero);
    } else {
      GSumAdd(g, n - 1, f, h);
      Interchange(g, GSum(g, n - 1, f), GSum(g, n - 1, h), f(n - 1), h(n - 1));
    }
  }

  lemma GSumPointwise<G(!new)>(g: Group<G>, n: nat, f: int -> G, a: int -> G, b: int -> G)
    requires IsAbelian(g) && forall i :: 0 <= i < n ==> f(i) == g.add(a(i), b(i))
    ensures GSum(g, n, f) == g.add(GSum(g, n, a), GSum(g, n, b))
  {
    hide IsAbelian, GSum;
    GSumEq(g, n, f, i => g.add(a(i), b(i)));
    GSumAdd(g, n, a, b);
  }

  lemma {:induction false} GSumSmul<G(!new)>(g: Group<G>, n: nat, k: int, f: int -> G)
    requires IsAbelian(g)
    ensures GSum(g, n, i => Smul(g, k, f(i))) == Smul(g, k, GSum(g, n, f))
  {
    hide Smul;
    if n == 0 {
      SmulZeroPoint(g, k);
    } else {
      GSumSmul(g, n - 1, k, f);
      SmulPoint(g, k, GSum(g, n - 1, f), f(n - 1));
    }
  }

  lemma {:induction false} GSumSplit<G(!new)>(g: Group<G>, n: nat, m: nat, f: int -> G)
    requires IsAbelian(g)
    ensures GSum(g, n + m, f) == g.add(GSum(g, n, f), GSum(g, m, i => f(n + i)))
    decreases m
  {
    if m == 0 {
      AddZeros(g, GSum(g, n, f));
    } else {
      GSumSplit(g, n, m - 1, f);
      LawsAt(g, GSum(g, n, f), GSum(g, m - 1, i => f(n + i)), f(n + m - 1));
    }
  }

  lemma {:induction false} GSumFirst<G(!new)>(g: Group<G>, n: nat, f: int -> G)
    requires IsAbelian(g) && n > 0
    ensures GSum(g, n, f) == g.add(f(0), GSum(g, n - 1, i => f(i + 1)))
  {
    if n == 1 {
      AddZeros(g, f(0));
    } else {
      GSumFirst(g, n - 1, f);
      LawsAt(g, f(0), GSum(g, n - 2, i => f(i + 1)), f(n - 1));
    }
  }

  /** All terms but the k-th are zero. */
  lemma {:induction false} GSumSingle<G(!new)>(g: Group<G>, n: nat, k: nat, f: int -> G)
    requires IsAbelian(g) && k < n && forall i :: 0 <= i < n && i != k ==> f(i) == g.zero
    ensures GSum(g, n, f) == f(k)
  {
    if k == n - 1 {
      GSumZero(g, n - 1, f);
    } else {
      GSumSingle(g, n - 1, k, f);
    }
    AddZeros(g, f(k));
  }

  /** A sum of n blocks of m terms. */
  lemma {:induction false} GSumBlocks<G(!new)>(g: Group<G>, n: nat, m: nat, f: int -> G)
    requires IsAbelian(g)
    ensures n * m >= 0 && GSum(g, n * m, f) == GSum(g, n, i => GSum(g, m, j => f(i * m + j)))
  {
    if n > 0 {
      GSumBlocks(g, n - 1, m, f);
      assert n * m == (n - 1) * m + m;
      GSumSplit(g, (n - 1) * m, m, f);
    } else {
      assert n * m == 0;
    }
  }

  // ------------------------------------------------------------ sums over a list, in any order

  function SeqSum<G(!new), T>(g: Group<G>, s: seq<T>, f: T -> G): G {
    if s == [] then g.zero else g.add(SeqSum(g, s[..|s| - 1], f), f(s[|s| - 1]))
  }

  lemma {:induction false} SeqSumAppend<G(!new), T>(g: Group<G>, s: seq<T>, t: seq<T>, f: T -> G)
    requires IsAbelian(g)
    ensures SeqSum(g, s + t, f) == g.add(SeqSum(g, s, f), SeqSum(g, t, f))
    decreases |t|
  {
    if t == [] {
      assert s + t == s;
      AddZeros(g, SeqSum(g, s, f));
    } else {
      var t' := t[..|t| - 1];
      SeqSumAppend(g, s, t', f);
      assert (s + t)[..|s + t| - 1] == s + t';
      LawsAt(g, SeqSum(g, s, f), SeqSum(g, t', f), f(t[|t| - 1]));
    }
  }

  lemma {:induction false} SeqSumEq<G(!new), T>(g: Group<G>, s: seq<T>, f: T -> G, h: T -> G)
    requires forall x :: x in s ==> f(x) == h(x)
    ensures SeqSum(g, s, f) == SeqSum(g, s, h)
    decreases |s|
  {
    if s != [] {
      SeqSumEq(g, s[..|s| - 1], f, h);
    }
  }

  lemma SeqSumPush<G(!new), T>(g: Group<G>, s: seq<T>, x: T, f: T -> G)
    ensures SeqSum(g, s + [x], f) == g.add(SeqSum(g, s, f), f(x))
  {
    assert (s + [x])[..|s|] == s;
  }

  lemma SeqSumOne<G(!new), T>(g: Group<G>, x: T, f: T -> G)
    requires IsAbelian(g)
    ensures SeqSum(g, [x], f) == f(x)
  {
    SeqSumPush(g, [], x, f);
    assert [] + [x] == [x];
    AddZeros(g, f(x));
  }

  ghost function Without<T>(s: seq<T>, i: nat): (r: seq<T>)
    requires i < |s|
    ensures |r| == |s| - 1 && multiset(r) == multiset(s) - multiset{s[i]}
  {
    assert s == s[..i] + [s[i]] + s[i + 1..];
    s[..i] + s[i + 1..]
  }

  lemma SumWithout<G(!new), T>(g: Group<G>, s: seq<T>, i: nat, f: T -> G)
    requires IsAbelian(g) && i < |s|
    ensures SeqSum(g, s, f) == g.add(SeqSum(g, Without(s, i), f), f(s[i]))
  {
    hide SeqSum;
    var x := s[i];
    assert s == s[..i] + ([x] + s[i + 1..]);
    SeqSumAppend(g, s[..i], [x] + s[i + 1..], f);
    SeqSumAppend(g, [x], s[i + 1..], f);
    SeqSumAppend(g, s[..i], s[i + 1..], f);
    SeqSumOne(g, x, f);
    var p, q := SeqSum(g, s[..i], f), SeqSum(g, s[i + 1..], f);
    LawsAt(g, f(x), q, p);
    LawsAt(g, p, q, f(x));
  }

  /** The order of a list does not matter to its sum. */
  lemma {:induction false} SeqSumPermuted<G(!new), T>(g: Group<G>, s: seq<T>, t: seq<T>, f: T -> G)
    requires IsAbelian(g) && multiset(s) == multiset(t)
    ensures SeqSum(g, s, f) == SeqSum(g, t, f)
    decreases |s|
  {
    assert |s| == |multiset(s)| == |t|;
    if s != [] {
      assert s[0] in multiset(t);
      var i :| 0 <= i < |t| && t[i] == s[0];
      SeqSumPermuted(g, Without(s, 0), Without(t, i), f);
      hide SeqSum;
      SumWithout(g, s, 0, f);
      SumWithout(g, t, i, f);
    }
  }
}
