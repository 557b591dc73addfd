/** Why erasure decoding works: each stage of the recovery pipeline in terms of the unknown
    polynomial, from the masked product to the recovered evaluations. */
module RecoveryMath {
  import opened Layout
  import opened Modular
  import opened Dft
  import opened Poly
  import opened Field
  import opened Transforms
  import opened Vanishing

  /** The constants the prover's tables are built from. */
  datatype Domain = Domain(p: int, root: int, rootInv: int, invN: int, shift: int, shiftInv: int)

  ghost predicate ValidDomain(d: Domain) {
    && PrimitiveRoot(d.root, EXT_BLOB, d.p)
    && Cong(d.root * d.rootInv, 1, d.p)
    && Cong(EXT_BLOB * d.invN, 1, d.p)
    && Cong(d.shift * d.shiftInv, 1, d.p)
    && !Cong(Pow(d.shift, EXT_BLOB), 1, d.p)
  }

  ghost function Pointwise(a: seq<int>, b: seq<int>, p: int): (r: seq<int>)
    requires p > 0 && |a| == |b|
    ensures |r| == |a| && forall i :: 0 <= i < |a| ==> r[i] == FrMul(a[i], b[i], p)
  {
    seq(|a|, i requires 0 <= i < |a| => FrMul(a[i], b[i], p))
  }

  ghost function Scaled(a: seq<int>, c: int, p: int): (r: seq<int>)
    requires p > 0
    ensures |r| == |a| && forall i :: 0 <= i < |a| ==> r[i] == FrMul(a[i], c, p)
  {
    seq(|a|, i requires 0 <= i < |a| => FrMul(a[i], c, p))
  }

  ghost function Quotients(a: seq<int>, b: seq<int>, p: int): (r: seq<int>)
    requires p > 0 && |a| == |b|
    ensures |r| == |a| && forall i :: 0 <= i < |a| ==> r[i] == FrMul(a[i], FrInv(b[i], p), p)
  {
    seq(|a|, i requires 0 <= i < |a| => FrMul(a[i], FrInv(b[i], p), p))
  }

  ghost function Powers(s: int, n: nat, p: int): (r: seq<int>)
    requires p > 0
    ensures |r| == n && forall i :: 0 <= i < n ==> r[i] == Res(Pow(s, i), p)
  {
    seq(n, i requires 0 <= i < n => Res(Pow(s, i), p))
  }

  /** y holds the values of the polynomial c at the powers of the root. */
  ghost predicate Evaluates(y: seq<int>, c: seq<int>, d: Domain)
    requires d.p > 0
  {
    |y| == EXT_BLOB && forall m :: 0 <= m < EXT_BLOB ==> Cong(y[m], Eval(c, Pow(d.root, m)), d.p)
  }

  /** y holds the coefficients of c, padded with zeros. */
  ghost predicate Coefficients(y: seq<int>, c: seq<int>, p: int)
    requires p > 0
  {
    |y| == EXT_BLOB && |c| <= EXT_BLOB && forall i :: 0 <= i < EXT_BLOB ==> Cong(y[i], At(c, i), p)
  }

  // ------------------------------------------------------------ transforms

  /** A forward transform of coefficients evaluates. */
  lemma ForwardEvaluates(y: seq<int>, c: seq<int>, d: Domain)
    requires d.p > 0 && Coefficients(y, c, d.p)
    ensures Evaluates(TransformBlob(y, EXT_BLOB, d.root, 1, d.p), c, d)
  {
    hide Res, Pow, Eval, Strided;
    forall m | 0 <= m < EXT_BLOB
      ensures Cong(TransformBlob(y, EXT_BLOB, d.root, 1, d.p)[m], Eval(c, Pow(d.root, m)), d.p)
    {
      CongRes(Transform(y, EXT_BLOB, d.root, m) * 1, d.p);
      TransformIsEval(y, EXT_BLOB, d.root, m);
      EvalCong(c, y, Pow(d.root, m), d.p);
    }
  }

  /** An inverse transform of values, scaled by 1/N, interpolates. */
  lemma InverseInterpolates(y: seq<int>, c: seq<int>, d: Domain)
    requires ValidDomain(d) && Evaluates(y, c, d) && |c| <= EXT_BLOB
    ensures Coefficients(Scaled(TransformBlob(y, EXT_BLOB, d.rootInv, 1, d.p), d.invN, d.p), c, d.p)
  {
    hide Res, Pow, Eval, Strided, FrMul;
    var n, p := EXT_BLOB, d.p;
    forall k | 0 <= k < n ensures Cong(y[k], Transform(c, n, d.root, k), p) {
      TransformIsEval(c, n, d.root, k);
    }
    forall i | 0 <= i < n
      ensures Cong(Scaled(TransformBlob(y, n, d.rootInv, 1, p), d.invN, p)[i], At(c, i), p)
    {
      InverseTransform(c, y, n, d.root, d.rootInv, i, p);
      CongRes(Transform(y, n, d.rootInv, i) * 1, p);
      UndoScale(TransformBlob(y, n, d.rootInv, 1, p)[i], d.invN, n, At(c, i), p);
    }
  }

  lemma UndoScale(t: int, invN: int, n: int, a: int, p: int)
    requires p > 0 && Cong(t, n * a, p) && Cong(n * invN, 1, p)
    ensures Cong(FrMul(t, invN, p), a, p)
  {
    hide Res;
    CongMul(t, n * a, invN, invN, p);
    MulAssoc(n, a, invN);
    CongMul(n * invN, 1, a, a, p);
  }

  // ------------------------------------------------------------ the masked product

  /** The vanishing polynomial without its zero top coefficients. */
  ghost function Trimmed(missing: seq<int>, w: int): (c: seq<int>)
    requires |missing| <= CELL
    ensures |c| == CELL * |missing| + 1
  {
    VanishingPoly(missing, w)[..CELL * |missing| + 1]
  }

  lemma TrimmedSame(missing: seq<int>, w: int, p: int)
    requires |missing| <= CELL && p > 0
    ensures forall q :: 0 <= q < EXT_BLOB ==> At(Trimmed(missing, w), q) == VanishingPoly(missing, w)[q]
    ensures forall x :: Cong(Eval(Trimmed(missing, w), x), Eval(VanishingPoly(missing, w), x), p)
  {
    hide Res, Eval, VanishingPoly, RootsPoly;
    var c, z := Trimmed(missing, w), VanishingPoly(missing, w);
    forall q | 0 <= q < EXT_BLOB ensures At(c, q) == z[q] {
      if q > CELL * |missing| && q % CELL == 0 {
        assert q / CELL > |missing|;
      }
    }
    forall x ensures Cong(Eval(c, x), Eval(z, x), p) {
      EvalCong(c, z, x, p);
    }
  }

  /** The cells that are present carry values of P; the others hold anything. */
  ghost predicate Agrees(y: seq<int>, poly: seq<int>, missing: seq<int>, d: Domain)
    requires d.p > 0
  {
    |y| == EXT_BLOB &&
    forall m :: 0 <= m < EXT_BLOB && m % CELLS !in missing ==> Cong(y[m], Eval(poly, Pow(d.root, m)), d.p)
  }

  /** Multiplying by Z wipes out whatever the missing cells held: E * Z == P * Z on the whole domain. */
  lemma MaskedProduct(y: seq<int>, z: seq<int>, poly: seq<int>, missing: seq<int>, d: Domain)
    requires ValidDomain(d) && CellIndices(missing) && Agrees(y, poly, missing, d)
    requires Represents(z, VanishingPoly(missing, d.root), d.p)
    ensures Evaluates(Pointwise(y, TransformBlob(z, EXT_BLOB, d.root, 1, d.p), d.p),
                      MulPoly(poly, Trimmed(missing, d.root)), d)
  {
    hide Res, Pow, Eval, FrMul, MulPoly, VanishingPoly, Trimmed;
    var zv, zt := VanishingPoly(missing, d.root), Trimmed(missing, d.root);
    var p := d.p;
    assert forall i :: 0 <= i < EXT_BLOB ==> At(zv, i) == zv[i];
    ForwardEvaluates(z, zv, d);
    var ze := TransformBlob(z, EXT_BLOB, d.root, 1, p);
    forall m | 0 <= m < EXT_BLOB
      ensures Cong(Pointwise(y, ze, p)[m], Eval(MulPoly(poly, zt), Pow(d.root, m)), p)
    {
      var x := Pow(d.root, m);
      EvalMul(poly, zt, x);
      TrimmedSame(missing, d.root, p);
      CongMul(Eval(poly, x), Eval(poly, x), Eval(zt, x), Eval(zv, x), p);
      VanishesExactlyOnMissing(missing, d.root, m, p);
      if m % CELLS in missing {
        CongMul(y[m], y[m], ze[m], 0, p);
        CongMul(Eval(poly, x), Eval(poly, x), Eval(zv, x), 0, p);
      } else {
        CongMul(y[m], Eval(poly, x), ze[m], Eval(zv, x), p);
      }
    }
  }

  // ------------------------------------------------------------ the coset

  /** Coefficient i times s^i. */
  ghost function Shifted(c: seq<int>, s: int): (r: seq<int>)
    ensures |r| == |c| && forall i :: At(r, i) == At(c, i) * Pow(s, i)
  {
    seq(|c|, i requires 0 <= i < |c| => c[i] * Pow(s, i))
  }

  lemma ShiftTable(y: seq<int>, c: seq<int>, s: int, p: int)
    requires p > 0 && Coefficients(y, c, p)
    ensures Coefficients(Pointwise(y, Powers(s, EXT_BLOB, p), p), Shifted(c, s), p)
  {
    hide Res, Pow, FrMul;
    forall i | 0 <= i < EXT_BLOB
      ensures Cong(Pointwise(y, Powers(s, EXT_BLOB, p), p)[i], At(Shifted(c, s), i), p)
    {
      CongRes(Pow(s, i), p);
      CongMul(y[i], At(c, i), Powers(s, EXT_BLOB, p)[i], Pow(s, i), p);
    }
  }

  lemma EvalOfShifted(c: seq<int>, s: int, x: int, p: int)
    requires p > 0
    ensures Cong(Eval(Shifted(c, s), x), Eval(c, s * x), p)
  {
    hide Res, Pow, Eval;
    var d := Shifted(c, s);
    assert forall i :: 0 <= i < |d| ==> d[i] == At(d, i);
    EvalShifted(c, d, s, x, p);
  }

  /** On the coset the division is exact and gives the values of P there. */
  lemma CosetDivision(a: seq<int>, b: seq<int>, poly: seq<int>, missing: seq<int>, d: Domain)
    requires ValidDomain(d) && CellIndices(missing)
    requires Evaluates(a, Shifted(MulPoly(poly, Trimmed(missing, d.root)), d.shift), d)
    requires Evaluates(b, Shifted(VanishingPoly(missing, d.root), d.shift), d)
    ensures Evaluates(Quotients(a, b, d.p), Shifted(poly, d.shift), d)
  {
    hide Res, Pow, Eval, FrMul, FrInv, MulPoly, VanishingPoly, Trimmed, Shifted;
    var p := d.p;
    var zv, zt := VanishingPoly(missing, d.root), Trimmed(missing, d.root);
    forall k | 0 <= k < EXT_BLOB
      ensures Cong(Quotients(a, b, p)[k], Eval(Shifted(poly, d.shift), Pow(d.root, k)), p)
    {
      var x := Pow(d.root, k);
      var c := d.shift * x;
      EvalOfShifted(MulPoly(poly, zt), d.shift, x, p);
      EvalOfShifted(zv, d.shift, x, p);
      EvalOfShifted(poly, d.shift, x, p);
      EvalMul(poly, zt, c);
      TrimmedSame(missing, d.root, p);
      CongMul(Eval(poly, c), Eval(poly, c), Eval(zt, c), Eval(zv, c), p);
      NonzeroOnCoset(missing, d.root, d.shift, k, p);
      ExactQuotient(a[k], b[k], Eval(poly, c), Eval(zv, c), p);
    }
  }

  lemma ExactQuotient(a: int, b: int, v: int, z: int, p: int)
    requires IsPrime(p) && Cong(a, v * z, p) && Cong(b, z, p) && !Cong(z, 0, p)
    ensures Cong(FrMul(a, FrInv(b, p), p), v, p)
  {
    hide Res, Pow, FrInv;
    InverseCancels(b, p);
    var i := FrInv(b, p);
    CongMul(v, v, b, z, p);
    CongMul(a, v * b, i, i, p);
    MulAssoc(v, b, i);
    CongMul(v, v, b * i, 1, p);
  }

  /** The inverse shift undoes the shift. */
  lemma Unshift(y: seq<int>, c: seq<int>, d: Domain)
    requires ValidDomain(d) && Coefficients(y, Shifted(c, d.shift), d.p)
    ensures Coefficients(Pointwise(y, Powers(d.shiftInv, EXT_BLOB, d.p), d.p), c, d.p)
  {
    hide Res, Pow, FrMul;
    var p := d.p;
    ShiftTable(y, Shifted(c, d.shift), d.shiftInv, p);
    forall i | 0 <= i < EXT_BLOB
      ensures Cong(At(Shifted(Shifted(c, d.shift), d.shiftInv), i), At(c, i), p)
    {
      PowMulBase(d.shift, d.shiftInv, i);
      CongPow(d.shift * d.shiftInv, 1, i, p);
      PowOne(i);
      MulAssoc(At(c, i), Pow(d.shift, i), Pow(d.shiftInv, i));
      CongMul(At(c, i), At(c, i), Pow(d.shift, i) * Pow(d.shiftInv, i), 1, p);
    }
  }

  // ------------------------------------------------------------ the whole pipeline

  /** Steps 3 to 5: the coefficients of E * Z. */
  ghost function MaskedCoefficients(y: seq<int>, z: seq<int>, d: Domain): (r: seq<int>)
    requires d.p > 0 && |y| == EXT_BLOB && |z| == EXT_BLOB
    ensures |r| == EXT_BLOB
  {
    var zEval := TransformBlob(z, EXT_BLOB, d.root, 1, d.p);
    Scaled(TransformBlob(Pointwise(y, zEval, d.p), EXT_BLOB, d.rootInv, 1, d.p), d.invN, d.p)
  }

  /** Steps 6 and 7: both polynomials on the coset, divided there. */
  ghost function CosetQuotient(ezCoeff: seq<int>, z: seq<int>, d: Domain): (r: seq<int>)
    requires d.p > 0 && |ezCoeff| == EXT_BLOB && |z| == EXT_BLOB
    ensures |r| == EXT_BLOB
  {
    var table := Powers(d.shift, EXT_BLOB, d.p);
    Quotients(TransformBlob(Pointwise(ezCoeff, table, d.p), EXT_BLOB, d.root, 1, d.p),
              TransformBlob(Pointwise(z, table, d.p), EXT_BLOB, d.root, 1, d.p), d.p)
  }

  /** Steps 8 and 9: back to coefficients, off the coset, and out to the whole domain. */
  ghost function FinalValues(pCoset: seq<int>, d: Domain): (r: seq<int>)
    requires d.p > 0 && |pCoset| == EXT_BLOB
    ensures |r| == EXT_BLOB
  {
    var pCoeffU := Scaled(TransformBlob(pCoset, EXT_BLOB, d.rootInv, 1, d.p), d.invN, d.p);
    TransformBlob(Pointwise(pCoeffU, Powers(d.shiftInv, EXT_BLOB, d.p), d.p), EXT_BLOB, d.root, 1, d.p)
  }

  /** The recovery pipeline on one blob: values in domain order in, values on the whole domain out. */
  ghost function RecoverValues(y: seq<int>, z: seq<int>, d: Domain): (r: seq<int>)
    requires d.p > 0 && |y| == EXT_BLOB && |z| == EXT_BLOB
    ensures |r| == EXT_BLOB
  {
    FinalValues(CosetQuotient(MaskedCoefficients(y, z, d), z, d), d)
  }

  /** Whenever the present cells agree with a polynomial of degree below 4096 and at most half of
      the cells are missing, the pipeline returns that polynomial's value everywhere. */
  lemma RecoveryCorrect(y: seq<int>, z: seq<int>, poly: seq<int>, missing: seq<int>, d: Domain)
    requires ValidDomain(d) && CellIndices(missing) && |poly| <= BLOB
    requires Agrees(y, poly, missing, d)
    requires Represents(z, VanishingPoly(missing, d.root), d.p)
    ensures Evaluates(RecoverValues(y, z, d), poly, d)
  {
    hide Res, Pow, Eval, FrMul, FrInv, MulPoly, VanishingPoly, Trimmed, Shifted, Pointwise, Scaled, Quotients,
      TransformBlob, Powers;
    var n, p := EXT_BLOB, d.p;
    var zv := VanishingPoly(missing, d.root);
    var q := if poly == [] then [] else MulPoly(poly, Trimmed(missing, d.root));
    assert |q| <= n;
    assert MulPoly([], Trimmed(missing, d.root)) == [] by { EmptyMul(Trimmed(missing, d.root)); }
    var zEval := TransformBlob(z, n, d.root, 1, p);
    MaskedProduct(y, z, poly, missing, d);
    InverseInterpolates(Pointwise(y, zEval, p), q, d);
    var ezCoeff := Scaled(TransformBlob(Pointwise(y, zEval, p), n, d.rootInv, 1, p), d.invN, p);
    ShiftTable(ezCoeff, q, d.shift, p);
    ForwardEvaluates(Pointwise(ezCoeff, Powers(d.shift, n, p), p), Shifted(q, d.shift), d);
    var cosetA := TransformBlob(Pointwise(ezCoeff, Powers(d.shift, n, p), p), n, d.root, 1, p);
    assert forall i :: 0 <= i < n ==> At(zv, i) == zv[i];
    ShiftTable(z, zv, d.shift, p);
    ForwardEvaluates(Pointwise(z, Powers(d.shift, n, p), p), Shifted(zv, d.shift), d);
    var cosetB := TransformBlob(Pointwise(z, Powers(d.shift, n, p), p), n, d.root, 1, p);
    CosetDivision(cosetA, cosetB, poly, missing, d);
    InverseInterpolates(Quotients(cosetA, cosetB, p), Shifted(poly, d.shift), d);
    var pCoeffU := Scaled(TransformBlob(Quotients(cosetA, cosetB, p), n, d.rootInv, 1, p), d.invN, p);
    Unshift(pCoeffU, poly, d);
    ForwardEvaluates(Pointwise(pCoeffU, Powers(d.shiftInv, n, p), p), poly, d);
  }

  lemma EmptyMul(b: seq<int>)
    ensures MulPoly([], b) == []
  {
  }
}
