/** Polynomials as coefficient sequences, lowest degree first. */
module Poly {
  import opened Modular
  import opened Sums
  import opened Dft

  function Eval(c: seq<int>, x: int): int {
    if c == [] then 0 else c[0] + x * Eval(c[1..], x)
  }

  function AddPoly(a: seq<int>, b: seq<int>): (r: seq<int>)
    ensures |r| == if |a| > |b| then |a| else |b|
    ensures forall i :: At(r, i) == At(a, i) + At(b, i)
  {
    seq(if |a| > |b| then |a| else |b|, i => At(a, i) + At(b, i))
  }

  function ScalePoly(k: int, a: seq<int>): (r: seq<int>)
    ensures |r| == |a| && forall i :: At(r, i) == k * At(a, i)
  {
    seq(|a|, i => k * At(a, i))
  }

  function MulPoly(a: seq<int>, b: seq<int>): (r: seq<int>)
    ensures |a| > 0 && |b| > 0 ==> |r| <= |a| + |b| - 1
  {
    if a == [] then [] else AddPoly(ScalePoly(a[0], b), [0] + MulPoly(a[1..], b))
  }

  lemma {:induction false} EvalAdd(a: seq<int>, b: seq<int>, x: int)
    ensures Eval(AddPoly(a, b), x) == Eval(a, x) + Eval(b, x)
    decreases |a| + |b|
  {
    if a == [] {
      assert AddPoly(a, b) == b by {
        forall i | 0 <= i < |b| ensures AddPoly(a, b)[i] == b[i] {
          assert At(AddPoly(a, b), i) == At(b, i);
        }
      }
    } else if b == [] {
      assert AddPoly(a, b) == a by {
        forall i | 0 <= i < |a| ensures AddPoly(a, b)[i] == a[i] {
          assert At(AddPoly(a, b), i) == At(a, i);
        }
      }
    } else {
      var s, t := AddPoly(a, b)[1..], AddPoly(a[1..], b[1..]);
      assert s == t by {
        forall i | 0 <= i < |t| ensures s[i] == t[i] {
          assert At(AddPoly(a, b), i + 1) == At(a, i + 1) + At(b, i + 1);
          assert At(t, i) == At(a[1..], i) + At(b[1..], i);
        }
      }
      assert At(AddPoly(a, b), 0) == a[0] + b[0];
      EvalAdd(a[1..], b[1..], x);
      MulDistrib(Eval(a[1..], x), Eval(b[1..], x), x);
    }
  }

  lemma {:induction false} EvalScale(k: int, a: seq<int>, x: int)
    ensures Eval(ScalePoly(k, a), x) == k * Eval(a, x)
    decreases |a|
  {
    if a != [] {
      var s, t := ScalePoly(k, a)[1..], ScalePoly(k, a[1..]);
      assert s == t by {
        forall i | 0 <= i < |t| ensures s[i] == t[i] {
          assert At(ScalePoly(k, a), i + 1) == k * At(a, i + 1);
          assert At(t, i) == k * At(a[1..], i);
        }
      }
      assert At(ScalePoly(k, a), 0) == k * a[0];
      EvalScale(k, a[1..], x);
      MulLeftSwap(x, k, Eval(a[1..], x));
      MulDistrib(a[0], x * Eval(a[1..], x), k);
    }
  }

  lemma EvalShift(a: seq<int>, x: int)
    ensures Eval([0] + a, x) == x * Eval(a, x)
  {
    assert ([0] + a)[1..] == a;
  }

  /** Evaluation is multiplicative. */
  lemma {:induction false} EvalMul(a: seq<int>, b: seq<int>, x: int)
    ensures Eval(MulPoly(a, b), x) == Eval(a, x) * Eval(b, x)
    decreases |a|
  {
    if a != [] {
      var m := MulPoly(a[1..], b);
      EvalMul(a[1..], b, x);
      EvalAdd(ScalePoly(a[0], b), [0] + m, x);
      EvalScale(a[0], b, x);
      EvalShift(m, x);
      MulAssoc(x, Eval(a[1..], x), Eval(b, x));
      MulDistrib(a[0], x * Eval(a[1..], x), Eval(b, x));
    }
  }

  lemma {:induction false} EvalIsSum(c: seq<int>, x: int)
    ensures Eval(c, x) == Sum(|c|, i => At(c, i) * Pow(x, i))
    decreases |c|
  {
    if c != [] {
      var d := c[1..];
      EvalIsSum(d, x);
      var f, g := i => At(c, i) * Pow(x, i), i => At(d, i) * Pow(x, i);
      SumFirst(|c|, f);
      assert f(0) == c[0] by {
        assert Pow(x, 0) == 1;
      }
      forall i | 0 <= i < |d| ensures f(i + 1) == x * g(i) {
        MulLeftSwap(x, At(d, i), Pow(x, i));
      }
      SumScale(|d|, x, g);
      SumEq(|d|, i => f(i + 1), i => x * g(i));
    }
  }

  /** Coefficients that agree modulo p give values that agree, even if one has extra zeros on top. */
  lemma EvalCong(a: seq<int>, b: seq<int>, x: int, p: int)
    requires p > 0 && |a| <= |b| && forall i :: 0 <= i < |b| ==> Cong(At(a, i), b[i], p)
    ensures Cong(Eval(a, x), Eval(b, x), p)
  {
    hide Res, Pow, Eval;
    var f, g := i => At(a, i) * Pow(x, i), i => At(b, i) * Pow(x, i);
    EvalIsSum(a, x);
    EvalIsSum(b, x);
    assert Sum(|b|, f) == Sum(|a|, f) by {
      SumSplit(|a|, |b| - |a|, f);
      SumZero(|b| - |a|, i => f(|a| + i));
    }
    forall i | 0 <= i < |b| ensures Cong(f(i), g(i), p) {
      CongMul(At(a, i), b[i], Pow(x, i), Pow(x, i), p);
    }
    SumCong(|b|, f, g, p);
  }

  /** A transform evaluates the polynomial at the powers of the root. */
  lemma TransformIsEval(x: seq<int>, n: nat, w: int, k: nat)
    requires |x| <= n
    ensures Transform(x, n, w, k) == Eval(x, Pow(w, k))
  {
    hide Pow, Eval;
    var f, g := j => Term(x, 0, 1, w, k, j), j => At(x, j) * Pow(Pow(w, k), j);
    forall j | 0 <= j < n ensures f(j) == g(j) {
      PowPow(w, k, j);
      assert k * j == j * k;
    }
    SumEq(n, f, g);
    SumSplit(|x|, n - |x|, g);
    SumZero(n - |x|, i => g(|x| + i));
    EvalIsSum(x, Pow(w, k));
    StridedSum(x, n, w, k);
  }

  /** Multiplying coefficient i by s^i evaluates at s * x instead of x. */
  lemma EvalShifted(c: seq<int>, d: seq<int>, s: int, x: int, p: int)
    requires p > 0 && |c| <= |d| && forall i :: 0 <= i < |d| ==> Cong(d[i], At(c, i) * Pow(s, i), p)
    ensures Cong(Eval(d, x), Eval(c, s * x), p)
  {
    hide Res, Pow, Eval;
    var f, g := i => At(d, i) * Pow(x, i), i => At(c, i) * Pow(s * x, i);
    forall i | 0 <= i < |d| ensures Cong(f(i), g(i), p) {
      PowMulBase(s, x, i);
      MulAssoc(At(c, i), Pow(s, i), Pow(x, i));
      CongMul(d[i], At(c, i) * Pow(s, i), Pow(x, i), Pow(x, i), p);
    }
    SumCong(|d|, f, g, p);
    EvalIsSum(d, x);
    EvalIsSum(c, s * x);
    SumSplit(|c|, |d| - |c|, g);
    SumZero(|d| - |c|, i => g(|c| + i));
  }

  // ------------------------------------------------------------ products of linear factors

  /** (x - r) * c. */
  function MulLinear(c: seq<int>, r: int): (d: seq<int>)
    ensures |d| == |c| + 1 && forall i :: At(d, i) == At(c, i - 1) + -r * At(c, i)
  {
    assert forall i :: At([0] + c, i) == At(c, i - 1);
    AddPoly([0] + c, ScalePoly(-r, c))
  }

  lemma EvalMulLinear(c: seq<int>, r: int, x: int)
    ensures Eval(MulLinear(c, r), x) == (x - r) * Eval(c, x)
  {
    hide Eval, AddPoly, ScalePoly;
    EvalAdd([0] + c, ScalePoly(-r, c), x);
    EvalShift(c, x);
    EvalScale(-r, c, x);
    MulDistrib(x, -r, Eval(c, x));
  }

  /** The monic polynomial whose roots, with multiplicity, are rs. */
  function RootsPoly(rs: seq<int>): (c: seq<int>)
    ensures |c| == |rs| + 1 && c[|rs|] == 1
  {
    if rs == [] then [1] else
      var c := RootsPoly(rs[..|rs| - 1]);
      var d := MulLinear(c, rs[|rs| - 1]);
      assert At(d, |rs|) == At(c, |rs| - 1) + -rs[|rs| - 1] * At(c, |rs|);
      d
  }

  /** Over a prime field its zeros are exactly the given roots. */
  lemma {:induction false} RootsPolyZeros(rs: seq<int>, x: int, p: int)
    requires IsPrime(p)
    ensures Cong(Eval(RootsPoly(rs), x), 0, p) <==> exists i :: 0 <= i < |rs| && Cong(x, rs[i], p)
    decreases |rs|
  {
    hide Res, MulLinear;
    if rs == [] {
      assert Eval([1], x) == 1 + x * Eval([1][1..], x) == 1;
      OneNotZero(p);
    } else {
      var front, r := rs[..|rs| - 1], rs[|rs| - 1];
      var v := Eval(RootsPoly(front), x);
      RootsPolyZeros(front, x, p);
      EvalMulLinear(RootsPoly(front), r, x);
      if Cong((x - r) * v, 0, p) {
        NoZeroDivisors(x - r, v, p);
        if Cong(x - r, 0, p) {
          CongAdd(x - r, 0, r, r, p);
          assert Cong(x, rs[|rs| - 1], p);
        } else {
          var i :| 0 <= i < |front| && Cong(x, front[i], p);
          assert Cong(x, rs[i], p);
        }
      }
      if i :| 0 <= i < |rs| && Cong(x, rs[i], p) {
        if i == |rs| - 1 {
          CongSub(x, r, r, r, p);
          CongMul(x - r, 0, v, v, p);
        } else {
          assert Cong(x, front[i], p);
          CongMul(x - r, x - r, v, 0, p);
        }
      }
    }
  }

  /** Coefficient i moved to slot i * step, with blocks * step slots in all. */
  ghost predicate IsSpread(z: seq<int>, c: seq<int>, step: nat, blocks: nat) {
    && step > 0 && |c| <= blocks && |z| == blocks * step
    && forall q :: 0 <= q < |z| ==> z[q] == if q % step == 0 then At(c, q / step) else 0
  }

  lemma SpreadAt(z: seq<int>, c: seq<int>, step: nat, blocks: nat, i: nat, j: nat)
    requires IsSpread(z, c, step, blocks) && i < blocks && j < step
    ensures At(z, step * i + j) == if j == 0 then At(c, i) else 0
  {
    DivModUnique(step * i + j, step, i, j);
    MulNonneg(step, i);
    MulMono(i + 1, blocks, step);
    MulDistrib(i, 1, step);
  }

  /** A spread polynomial evaluates the original at x^step. */
  lemma EvalSpread(z: seq<int>, c: seq<int>, step: nat, blocks: nat, x: int)
    requires IsSpread(z, c, step, blocks)
    ensures Eval(z, x) == Eval(c, Pow(x, step))
  {
    hide Pow, Eval, IsSpread;
    var g := i => At(c, i) * Pow(Pow(x, step), i);
    SpreadSizes(z, c, step, blocks);
    assert Eval(z, x) == Sum(blocks, g) by {
      var f := i => At(z, i) * Pow(x, i);
      EvalIsSum(z, x);
      SumBlocks(blocks, step, f);
      forall i | 0 <= i < blocks ensures Sum(step, j => f(step * i + j)) == g(i) {
        SpreadBlock(z, c, step, blocks, x, i);
      }
      SumEq(blocks, i => Sum(step, j => f(step * i + j)), g);
    }
    assert Sum(blocks, g) == Sum(|c|, g) by {
      SumSplit(|c|, blocks - |c|, g);
      SumZero(blocks - |c|, i => g(|c| + i));
    }
    EvalIsSum(c, Pow(x, step));
  }

  lemma SpreadSizes(z: seq<int>, c: seq<int>, step: nat, blocks: nat)
    requires IsSpread(z, c, step, blocks)
    ensures step > 0 && |c| <= blocks && |z| == blocks * step
  {
  }

  lemma SpreadBlock(z: seq<int>, c: seq<int>, step: nat, blocks: nat, x: int, i: nat)
    requires IsSpread(z, c, step, blocks) && i < blocks
    ensures var f := q => At(z, q) * Pow(x, q);
      Sum(step, j => f(step * i + j)) == At(c, i) * Pow(Pow(x, step), i)
  {
    hide Pow, IsSpread, At;
    SpreadSizes(z, c, step, blocks);
    var f := q => At(z, q) * Pow(x, q);
    var h := j => f(step * i + j);
    SumFirst(step, h);
    var rest := j => h(j + 1);
    forall j | 0 <= j < step - 1 ensures rest(j) == 0 {
      SpreadAt(z, c, step, blocks, i, j + 1);
    }
    SumZero(step - 1, rest);
    SpreadAt(z, c, step, blocks, i, 0);
    PowPow(x, step, i);
  }
}
