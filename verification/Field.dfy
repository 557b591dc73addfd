/** Field operations as the kernels see them: residues in, residue out. The module Montgomery
    proves that the multi-word routines of Limbs compute exactly these functions. */
module Field {
  import opened Modular

  ghost predicate Element(a: int, p: int) {
    0 <= a < p
  }

  function FrAdd(a: int, b: int, p: int): (r: int)
    requires p > 0
    ensures Element(r, p) && Cong(r, a + b, p)
  {
    CongRes(a + b, p);
    Res(a + b, p)
  }

  function FrSub(a: int, b: int, p: int): (r: int)
    requires p > 0
    ensures Element(r, p) && Cong(r, a - b, p)
  {
    CongRes(a - b, p);
    Res(a - b, p)
  }

  function FrMul(a: int, b: int, p: int): (r: int)
    requires p > 0
    ensures Element(r, p) && Cong(r, a * b, p)
  {
    CongRes(a * b, p);
    Res(a * b, p)
  }

  function FrNeg(a: int, p: int): (r: int)
    requires p > 0
    ensures Element(r, p) && Cong(r, -a, p)
  {
    FrSub(0, a, p)
  }

  /** The Fermat inverse a^(p-2); zero for zero. */
  function FrInv(a: int, p: int): (r: int)
    requires p > 0
    ensures Element(r, p) && Cong(r, Pow(a, p - 2), p)
  {
    CongRes(Pow(a, p - 2), p);
    Res(Pow(a, p - 2), p)
  }

  lemma InverseCancels(a: int, p: int)
    requires IsPrime(p) && !Cong(a, 0, p)
    ensures Cong(a * FrInv(a, p), 1, p)
  {
    hide Res;
    Fermat(a, p);
    var i := FrInv(a, p);
    CongMul(a, a, i, Pow(a, p - 2), p);
  }

  lemma ElementsEqual(a: int, b: int, p: int)
    requires p > 0 && Element(a, p) && Element(b, p) && Cong(a, b, p)
    ensures a == b
  {
    ResSmall(a, p);
    ResSmall(b, p);
  }

  /** An element congruent to b is the residue of b. */
  lemma IsResidue(a: int, b: int, p: int)
    requires p > 0 && Element(a, p) && Cong(a, b, p)
    ensures a == Res(b, p)
  {
    ResSmall(a, p);
  }
}
