/** Why the host's bound is the right one: the cells that came in determine the polynomial exactly when at least
    half of them did. */
module Erasures {
  import opened Layout
  import opened Modular
  import opened Bits
  import opened Dft
  import opened Poly
  import opened Field
  import opened Transforms
  import opened Vanishing
  import opened RecoveryMath
  import opened Elementwise
  import opened Recovery

  /** Two polynomials of degree below 4096 with the same values in the present cells have the same values at all
      8192 points. */
  ghost predicate Determined(present: seq<int>, d: Domain)
    requires d.p > 0 && |present| == CELLS
  {
    forall cells: seq<int>, a: seq<int>, b: seq<int> ::
      |cells| == EXT_BLOB && Consistent(cells, present, a, d) && Consistent(cells, present, b, d) ==>
      SameValues(a, b, d)
  }

  ghost predicate SameValues(a: seq<int>, b: seq<int>, d: Domain)
    requires d.p > 0
  {
    forall i: nat :: i < EXT_BLOB ==> Cong(Eval(a, Pow(d.root, Brev13(i))), Eval(b, Pow(d.root, Brev13(i))), d.p)
  }

  /** Recovery is asked for exactly what the present cells determine. */
  lemma RecoverableExactly(present: seq<int>, d: Domain)
    requires ValidDomain(d) && |present| == CELLS
    ensures Recoverable(present) <==> Determined(present, d)
  {
    hide ValidDomain, Recoverable, Consistent, SameValues;
    PositiveModulus(d);
    if Recoverable(present) {
      forall cells: seq<int>, a: seq<int>, b: seq<int> | |cells| == EXT_BLOB
          && Consistent(cells, present, a, d) && Consistent(cells, present, b, d)
        ensures SameValues(a, b, d)
      {
        OnePolynomial(cells, present, a, b, d);
      }
    } else {
      TwoPolynomials(present, d);
    }
  }

  lemma PositiveModulus(d: Domain)
    requires ValidDomain(d)
    ensures d.p > 0
  {
  }

  lemma OnePolynomial(cells: seq<int>, present: seq<int>, a: seq<int>, b: seq<int>, d: Domain)
    requires ValidDomain(d) && |cells| == EXT_BLOB && |present| == CELLS && Recoverable(present)
    requires Consistent(cells, present, a, d) && Consistent(cells, present, b, d)
    ensures SameValues(a, b, d)
  {
    hide Res, Pow, Eval, RecoverElements, Brev13, ValidDomain, Recoverable, Consistent;
    RecoverElementsCorrect(cells, present, a, d);
    RecoverElementsCorrect(cells, present, b, d);
  }

  /** With every cell marked present recovery is possible, with none it is not. */
  lemma ExtremeMasks(present: seq<int>)
    requires |present| == CELLS
    ensures (forall c :: 0 <= c < CELLS ==> present[c] != 0) ==> Recoverable(present)
    ensures (forall c :: 0 <= c < CELLS ==> present[c] == 0) ==> !Recoverable(present)
  {
    RecoverableCount(present);
    if forall c :: 0 <= c < CELLS ==> present[c] != 0 {
      NoneMissing(present, CELLS);
    }
    if forall c :: 0 <= c < CELLS ==> present[c] == 0 {
      assert PresentCells(present, CELLS) == {};
    }
  }

  lemma {:induction false} NoneMissing(present: seq<int>, n: nat)
    requires n <= |present| && forall c :: 0 <= c < n ==> present[c] != 0
    ensures MissingCells(present, n) == []
  {
    if n > 0 {
      NoneMissing(present, n - 1);
    }
  }

  /** The other way round, the missing cells marked and the present ones not. */
  ghost function Complement(present: seq<int>): (r: seq<int>)
    ensures |r| == |present|
  {
    seq(|present|, c requires 0 <= c < |present| => if present[c] == 0 then 1 else 0)
  }

  /** The reversed indices of the cells that came in. */
  ghost function PresentIndices(present: seq<int>): seq<int> {
    MissingCells(Complement(present), |present|)
  }

  lemma {:induction false} CountPresent(present: seq<int>, n: nat)
    requires n <= |present|
    ensures |MissingCells(Complement(present), n)| + |MissingCells(present, n)| == n
  {
    if n > 0 {
      CountPresent(present, n - 1);
    }
  }

  /** Fewer than 64 present cells leave room for two polynomials: zero, and one that vanishes on them only. */
  lemma TwoPolynomials(present: seq<int>, d: Domain)
    requires ValidDomain(d) && |present| == CELLS && !Recoverable(present)
    ensures !Determined(present, d)
  {
    hide Res, Pow, Eval, Brev, Brev13, ValidDomain, MissingCells, VanishingPoly, Consistent, SameValues;
    PositiveModulus(d);
    FewPresent(present);
    var list := PresentIndices(present);
    var zeros := seq(EXT_BLOB, _ => 0);
    var z := Trimmed(list, d.root);
    NoughtConsistent(present, d);
    VanisherConsistent(present, d);
    VanisherDiffers(present, d);
    assert Consistent(zeros, present, [], d) && Consistent(zeros, present, z, d) && !SameValues([], z, d);
  }

  lemma FewPresent(present: seq<int>)
    requires |present| == CELLS && !Recoverable(present)
    ensures |PresentIndices(present)| < CELL && CellIndices(PresentIndices(present))
    ensures |MissingCells(present, CELLS)| > 0
  {
    hide Brev;
    RecoverableCount(present);
    CountPresent(present, CELLS);
    MissingCellsMembers(Complement(present), CELLS);
    var m := PresentIndices(present);
    assert forall i :: 0 <= i < |m| ==> m[i] in m;
  }

  lemma NoughtConsistent(present: seq<int>, d: Domain)
    requires d.p > 0 && |present| == CELLS
    ensures Consistent(seq(EXT_BLOB, _ => 0), present, [], d)
  {
    hide Pow, Brev13;
  }

  /** It vanishes at every position of a present cell. */
  lemma VanisherConsistent(present: seq<int>, d: Domain)
    requires ValidDomain(d) && |present| == CELLS
    requires |PresentIndices(present)| < CELL && CellIndices(PresentIndices(present))
    ensures Consistent(seq(EXT_BLOB, _ => 0), present, Trimmed(PresentIndices(present), d.root), d)
  {
    hide Res, Pow, Eval, Brev, Brev13, MissingCells, VanishingPoly;
    var list := PresentIndices(present);
    var z := Trimmed(list, d.root);
    forall i: nat | i < EXT_BLOB && present[i / CELL] != 0
      ensures Cong(0, Eval(z, Pow(d.root, Brev13(i))), d.p)
    {
      VanisherAt(present, d, i);
    }
  }

  lemma VanisherAt(present: seq<int>, d: Domain, i: nat)
    requires ValidDomain(d) && |present| == CELLS && i < EXT_BLOB
    requires |PresentIndices(present)| < CELL && CellIndices(PresentIndices(present))
    ensures Cong(Eval(Trimmed(PresentIndices(present), d.root), Pow(d.root, Brev13(i))), 0, d.p)
       <==> present[i / CELL] != 0
  {
    hide Res, Pow, Eval, Brev, Brev13, MissingCells, VanishingPoly, Trimmed;
    var list := PresentIndices(present);
    CellOfSlot(i);
    TrimmedSame(list, d.root, d.p);
    VanishesExactlyOnMissing(list, d.root, Brev13(i), d.p);
    ListedExactly(present, i / CELL);
  }

  lemma ListedExactly(present: seq<int>, c: nat)
    requires |present| == CELLS && c < CELLS
    ensures Brev(c, 7) in PresentIndices(present) <==> present[c] != 0
  {
    hide Brev;
    MissingCellsMembers(Complement(present), CELLS);
    Pow2Of7();
    forall e: nat | e < CELLS && Brev(e, 7) == Brev(c, 7) ensures e == c {
      BrevInvolution(c, 7);
      BrevInvolution(e, 7);
    }
  }

  /** It does not vanish in a missing cell. */
  lemma VanisherDiffers(present: seq<int>, d: Domain)
    requires ValidDomain(d) && |present| == CELLS && |MissingCells(present, CELLS)| > 0
    requires |PresentIndices(present)| < CELL && CellIndices(PresentIndices(present))
    ensures !SameValues([], Trimmed(PresentIndices(present), d.root), d)
  {
    hide Res, Pow, Brev, Brev13, Trimmed;
    var z := Trimmed(PresentIndices(present), d.root);
    MissingCellsMembers(present, CELLS);
    var first := MissingCells(present, CELLS)[0];
    assert first in MissingCells(present, CELLS);
    var c: nat :| c < CELLS && present[c] == 0 && first == Brev(c, 7);
    VanisherAt(present, d, c * CELL);
    var x := Pow(d.root, Brev13(c * CELL));
    assert Eval([], x) == 0;
    assert !Cong(Eval(z, x), Eval([], x), d.p);
  }
}
