/** Integer arithmetic modulo p: powers, congruence, primes and Fermat's little theorem.
    Field elements are modelled as residues in [0, p). Specifications are written over
    the integers and compared with what the code computes modulo p. */
module Modular {

  /** b to the e, with every exponent below 1 giving 1 so that the function is total. */
  function Pow(b: int, e: int): (r: int)
    decreases e
  {
    if e <= 0 then 1 else b * Pow(b, e - 1)
  }

  /** The residue of a. Most proofs hide this definition: they need only that congruence
      is an equality of residues, and the laws below. */
  function Res(a: int, p: int): int
    requires p > 0
  {
    a % p
  }

  ghost predicate Cong(a: int, b: int, p: int)
    requires p > 0
  {
    Res(a, p) == Res(b, p)
  }

  ghost predicate IsPrime(p: int) {
    p > 1 && forall d :: 1 < d < p ==> p % d != 0
  }

  // ------------------------------------------------------------ division basics

  lemma MulNonneg(a: int, b: int)
    requires a >= 0 && b >= 0
    ensures a * b >= 0
  {
  }

  lemma MulAssoc(a: int, b: int, c: int)
    ensures a * b * c == a * (b * c) == (a * c) * b
  {
  }

  lemma MulLeftSwap(a: int, b: int, c: int)
    ensures a * (b * c) == b * (a * c)
  {
  }

  lemma MulDistrib(a: int, b: int, c: int)
    ensures (a + b) * c == a * c + b * c && c * (a + b) == c * a + c * b
    ensures (a - b) * c == a * c - b * c && c * (a - b) == c * a - c * b
  {
  }

  lemma MulMono(a: int, b: int, c: int)
    requires a <= b && c >= 0
    ensures a * c <= b * c
  {
    MulNonneg(b - a, c);
    assert (b - a) * c == b * c - a * c;
  }

  lemma SmallMultiple(k: int, p: int)
    requires p > 0 && -p < k * p < p
    ensures k == 0
  {
    if k > 0 {
      MulMono(1, k, p);
    } else if k < 0 {
      MulMono(k, -1, p);
    }
  }

  /** Swaps the two inner factors of a product of products. */
  lemma MulSwap(a: int, b: int, c: int, d: int)
    ensures (a * b) * (c * d) == (a * c) * (b * d)
  {
  }

  lemma DivModUnique(a: int, p: int, q: int, r: int)
    requires p > 0 && 0 <= r < p && a == q * p + r
    ensures a / p == q && a % p == r
  {
    var q', r' := a / p, a % p;
    assert 0 <= r' < p && a == p * q' + r';
    assert (q - q') * p == r' - r by {
      assert (q - q') * p == q * p - p * q';
    }
    SmallMultiple(q - q', p);
  }

  lemma DivNonneg(a: int, b: int)
    requires a >= 0 && b > 0
    ensures a / b >= 0 && 0 <= a % b < b && a == a / b * b + a % b
  {
  }

  lemma ResRange(a: int, p: int)
    requires p > 0
    ensures 0 <= Res(a, p) < p
  {
  }

  lemma ResSmall(a: int, p: int)
    requires 0 <= a < p
    ensures Res(a, p) == a
  {
    DivModUnique(a, p, 0, a);
  }

  lemma CongIntro(a: int, b: int, k: int, p: int)
    requires p > 0 && a == b + k * p
    ensures Cong(a, b, p)
  {
    var q := b / p;
    assert a == (q + k) * p + b % p;
    DivModUnique(a, p, q + k, b % p);
  }

  lemma CongElim(a: int, b: int, p: int) returns (k: int)
    requires p > 0 && Cong(a, b, p)
    ensures a == b + k * p
  {
    k := a / p - b / p;
    assert a == (a / p) * p + a % p;
    assert b == (b / p) * p + b % p;
  }

  lemma CongRes(a: int, p: int)
    requires p > 0
    ensures Cong(Res(a, p), a, p) && 0 <= Res(a, p) < p
  {
    CongIntro(a % p, a, -(a / p), p);
  }

  lemma CongAdd(a: int, a': int, b: int, b': int, p: int)
    requires p > 0 && Cong(a, a', p) && Cong(b, b', p)
    ensures Cong(a + b, a' + b', p)
  {
    hide Res;
    var k := CongElim(a, a', p);
    var l := CongElim(b, b', p);
    CongIntro(a + b, a' + b', k + l, p);
  }

  lemma CongSub(a: int, a': int, b: int, b': int, p: int)
    requires p > 0 && Cong(a, a', p) && Cong(b, b', p)
    ensures Cong(a - b, a' - b', p)
  {
    hide Res;
    var k := CongElim(a, a', p);
    var l := CongElim(b, b', p);
    CongIntro(a - b, a' - b', k - l, p);
  }

  lemma CongMul(a: int, a': int, b: int, b': int, p: int)
    requires p > 0 && Cong(a, a', p) && Cong(b, b', p)
    ensures Cong(a * b, a' * b', p)
  {
    hide Res;
    var k := CongElim(a, a', p);
    var l := CongElim(b, b', p);
    MulAssoc(k, p, b);
    MulAssoc(a', l, p);
    MulDistrib(a', k * p, b);
    MulDistrib(k * b, a' * l, p);
    CongIntro(a * b, a' * b', k * b + a' * l, p);
  }

  lemma {:induction false} CongPow(a: int, b: int, e: int, p: int)
    requires p > 0 && Cong(a, b, p)
    ensures Cong(Pow(a, e), Pow(b, e), p)
    decreases e
  {
    hide Res;
    if e > 0 {
      CongPow(a, b, e - 1, p);
      CongMul(a, b, Pow(a, e - 1), Pow(b, e - 1), p);
    }
  }

  // ------------------------------------------------------------ powers

  lemma FirstPower(x: int)
    ensures Pow(x, 1) == x
  {
    assert Pow(x, 0) == 1;
  }

  lemma {:induction false} PowAdd(b: int, e: int, f: int)
    requires e >= 0 && f >= 0
    ensures Pow(b, e + f) == Pow(b, e) * Pow(b, f)
    decreases e
  {
    if e > 0 {
      PowAdd(b, e - 1, f);
      assert b * (Pow(b, e - 1) * Pow(b, f)) == (b * Pow(b, e - 1)) * Pow(b, f);
    }
  }

  lemma {:induction false} PowMulBase(a: int, b: int, e: int)
    ensures Pow(a * b, e) == Pow(a, e) * Pow(b, e)
    decreases e
  {
    if e > 0 {
      PowMulBase(a, b, e - 1);
      MulSwap(a, b, Pow(a, e - 1), Pow(b, e - 1));
    }
  }

  lemma {:induction false} PowPow(b: int, e: int, f: int)
    requires e >= 0 && f >= 0
    ensures e * f >= 0 && Pow(b, e * f) == Pow(Pow(b, e), f)
    decreases f
  {
    if f > 0 {
      PowPow(b, e, f - 1);
      assert e * f == e + e * (f - 1);
      PowAdd(b, e, e * (f - 1));
    } else {
      assert e * f == 0;
    }
  }

  lemma {:induction false} PowOne(e: int)
    ensures Pow(1, e) == 1
    decreases e
  {
    if e > 0 {
      PowOne(e - 1);
    }
  }

  lemma {:induction false} PowPositive(b: int, e: int)
    requires b > 0
    ensures Pow(b, e) > 0
    decreases e
  {
    if e > 0 {
      PowPositive(b, e - 1);
    }
  }

  // ------------------------------------------------------------ primes

  lemma {:induction false} EuclidPos(a: int, b: int, p: int)
    requires IsPrime(p) && 0 < a < p && Cong(a * b, 0, p)
    ensures Cong(b, 0, p)
    decreases a
  {
    hide Res;
    if a > 1 {
      var q, r := p / a, p % a;
      assert p == a * q + r && 0 < r < a;
      var k := CongElim(a * b, 0, p);
      assert r * b == (b - q * k) * p by {
        MulDistrib(p, a * q, b);
        MulAssoc(q, a, b);
        MulAssoc(q, k, p);
        MulDistrib(b, q * k, p);
      }
      CongIntro(r * b, 0, b - q * k, p);
      EuclidPos(r, b, p);
    }
  }

  /** Euclid's lemma: a prime field has no zero divisors. */
  lemma NoZeroDivisors(a: int, b: int, p: int)
    requires IsPrime(p) && Cong(a * b, 0, p)
    ensures Cong(a, 0, p) || Cong(b, 0, p)
  {
    hide Res;
    CongRes(a, p);
    ResSmall(0, p);
    if Res(a, p) != 0 {
      CongMul(Res(a, p), a, b, b, p);
      EuclidPos(Res(a, p), b, p);
    }
  }

  lemma CancelLeft(c: int, a: int, b: int, p: int)
    requires IsPrime(p) && !Cong(c, 0, p) && Cong(c * a, c * b, p)
    ensures Cong(a, b, p)
  {
    hide Res;
    CongSub(c * a, c * b, c * b, c * b, p);
    MulDistrib(a, b, c);
    NoZeroDivisors(c, a - b, p);
    CongAdd(a - b, 0, b, b, p);
  }

  lemma OneNotZero(p: int)
    requires p > 1
    ensures !Cong(1, 0, p)
  {
    ResSmall(0, p);
    ResSmall(1, p);
  }

  lemma {:induction false} PowNonzero(a: int, e: int, p: int)
    requires IsPrime(p) && !Cong(a, 0, p)
    ensures !Cong(Pow(a, e), 0, p)
    decreases e
  {
    hide Res;
    if e > 0 {
      PowNonzero(a, e - 1, p);
      if Cong(Pow(a, e), 0, p) {
        NoZeroDivisors(a, Pow(a, e - 1), p);
      }
    } else {
      OneNotZero(p);
    }
  }

  // ------------------------------------------------------------ Fermat's little theorem

  function Product(s: seq<int>): int {
    if s == [] then 1 else s[0] * Product(s[1..])
  }

  function Factorial(n: nat): int {
    if n == 0 then 1 else n * Factorial(n - 1)
  }

  ghost predicate Distinct(s: seq<int>) {
    forall i, j :: 0 <= i < j < |s| ==> s[i] != s[j]
  }

  ghost predicate Within(s: seq<int>, m: int) {
    forall i :: 0 <= i < |s| ==> 1 <= s[i] <= m
  }

  function Remove(s: seq<int>, i: nat): (r: seq<int>)
    requires i < |s|
    ensures |r| == |s| - 1 && forall j :: 0 <= j < |r| ==> r[j] == s[if j < i then j else j + 1]
  {
    s[..i] + s[i + 1..]
  }

  lemma {:induction false} ProductRemove(s: seq<int>, i: nat)
    requires i < |s|
    ensures Product(s) == s[i] * Product(Remove(s, i))
    decreases |s|
  {
    if i == 0 {
      assert Remove(s, i) == s[1..];
    } else {
      var t := Remove(s[1..], i - 1);
      ProductRemove(s[1..], i - 1);
      assert Remove(s, i)[1..] == t;
      MulLeftSwap(s[0], s[i], Product(t));
    }
  }

  /** m distinct numbers in 1..m-1 do not exist. */
  lemma {:induction false} Pigeonhole(s: seq<int>, m: nat)
    requires Distinct(s) && Within(s, m)
    ensures |s| <= m
    decreases m
  {
    if s == [] {
    } else if i :| 0 <= i < |s| && s[i] == m {
      Pigeonhole(Remove(s, i), m - 1);
    } else {
      assert 1 <= s[0];
      Pigeonhole(s, m - 1);
    }
  }

  lemma {:induction false} ProductOfPermutation(s: seq<int>, m: nat)
    requires |s| == m && Distinct(s) && Within(s, m)
    ensures Product(s) == Factorial(m)
    decreases m
  {
    if m > 0 {
      if !exists i :: 0 <= i < |s| && s[i] == m {
        Pigeonhole(s, m - 1);
        assert false;
      }
      var i :| 0 <= i < |s| && s[i] == m;
      ProductRemove(s, i);
      ProductOfPermutation(Remove(s, i), m - 1);
    }
  }

  /** The residues of a*1, ..., a*m. */
  ghost function Multiples(a: int, m: nat, p: int): (s: seq<int>)
    requires p > 0
    ensures |s| == m && forall i :: 0 <= i < m ==> s[i] == Res(a * (i + 1), p)
  {
    seq(m, i requires 0 <= i < m => Res(a * (i + 1), p))
  }

  lemma {:induction false} ProductOfMultiples(a: int, m: nat, p: int)
    requires p > 0
    ensures Cong(Product(Multiples(a, m, p)), Pow(a, m) * Factorial(m), p)
    decreases m
  {
    hide Res;
    if m > 0 {
      var s, s' := Multiples(a, m, p), Multiples(a, m - 1, p);
      ProductRemove(s, m - 1);
      assert Remove(s, m - 1) == s';
      ProductOfMultiples(a, m - 1, p);
      CongRes(a * m, p);
      CongMul(s[m - 1], a * m, Product(s'), Pow(a, m - 1) * Factorial(m - 1), p);
      MulSwap(a, m, Pow(a, m - 1), Factorial(m - 1));
    }
  }

  lemma {:induction false} FactorialNonzero(m: nat, p: int)
    requires IsPrime(p) && m < p
    ensures !Cong(Factorial(m), 0, p)
    decreases m
  {
    hide Res;
    if m > 0 {
      FactorialNonzero(m - 1, p);
      if Cong(Factorial(m), 0, p) {
        NoZeroDivisors(m, Factorial(m - 1), p);
        ResSmall(m, p);
        ResSmall(0, p);
      }
    } else {
      OneNotZero(p);
    }
  }

  lemma MultiplesPermute(a: int, p: int)
    requires IsPrime(p) && !Cong(a, 0, p)
    ensures Distinct(Multiples(a, p - 1, p)) && Within(Multiples(a, p - 1, p), p - 1)
  {
    hide Res;
    var s := Multiples(a, p - 1, p);
    forall i, j | 0 <= i < j < |s| ensures s[i] != s[j] {
      if s[i] == s[j] {
        CancelLeft(a, i + 1, j + 1, p);
        ResSmall(i + 1, p);
        ResSmall(j + 1, p);
        assert false;
      }
    }
    forall i | 0 <= i < |s| ensures 1 <= s[i] <= p - 1 {
      CongRes(a * (i + 1), p);
      ResSmall(0, p);
      if s[i] == 0 {
        NoZeroDivisors(a, i + 1, p);
        ResSmall(i + 1, p);
      }
    }
  }

  /** Fermat's little theorem. */
  lemma Fermat(a: int, p: int)
    requires IsPrime(p) && !Cong(a, 0, p)
    ensures Cong(Pow(a, p - 1), 1, p)
  {
    hide Res;
    MultiplesPermute(a, p);
    ProductOfPermutation(Multiples(a, p - 1, p), p - 1);
    ProductOfMultiples(a, p - 1, p);
    FactorialNonzero(p - 1, p);
    var f, w := Factorial(p - 1), Pow(a, p - 1);
    assert w * f == f * w && f * 1 == f;
    CancelLeft(f, w, 1, p);
  }
}
