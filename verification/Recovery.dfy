/** What cell recovery returns for one blob, from its bytes to its bytes, and why that is the polynomial. */
module Recovery {
  import opened Layout
  import opened Modular
  import opened Bits
  import opened Dft
  import opened Poly
  import opened Field
  import opened Transforms
  import opened Vanishing
  import opened RecoveryMath
  import opened Elementwise
  import opened CellBytes

  // ------------------------------------------------------------ what recovery means for one blob

  /** The reversed indices of the missing cells among the first n; a zero byte marks a missing cell. */
  ghost function MissingCells(present: seq<int>, n: nat): (m: seq<int>)
    requires n <= |present|
    ensures |m| <= n
  {
    if n == 0 then [] else MissingCells(present, n - 1) + if present[n - 1] == 0 then [Brev(n - 1, 7) as int] else []
  }

  lemma {:induction false} MissingCellsMembers(present: seq<int>, n: nat)
    requires n <= |present| && n <= CELLS
    ensures forall j :: j in MissingCells(present, n) <==> exists c: nat :: c < n && present[c] == 0 && j == Brev(c, 7)
    ensures forall j :: j in MissingCells(present, n) ==> 0 <= j < CELLS
  {
    if n > 0 {
      MissingCellsMembers(present, n - 1);
      assert Pow2(7) == CELLS by { Pow2Of7(); }
    }
  }

  /** The cells that came in, of the first n. */
  ghost function PresentCells(present: seq<int>, n: nat): set<nat>
    requires n <= |present|
  {
    set c: nat | c < n && present[c] != 0
  }

  /** At least 64 of the 128 cells came in, counted as a set. */
  ghost predicate Recoverable(present: seq<int>)
    requires |present| == CELLS
  {
    |PresentCells(present, CELLS)| >= 64
  }

  lemma {:induction false} CountCells(present: seq<int>, n: nat)
    requires n <= |present|
    ensures |MissingCells(present, n)| + |PresentCells(present, n)| == n
  {
    if n == 0 {
      assert PresentCells(present, 0) == {};
    } else {
      CountCells(present, n - 1);
      var before: set<nat> := PresentCells(present, n - 1);
      assert PresentCells(present, n) == if present[n - 1] == 0 then before else before + {n - 1};
    }
  }

  /** The count the host keeps decides: recoverable with a list of at most 64 missing cells, not with 65. */
  lemma RecoverableCount(present: seq<int>)
    requires |present| == CELLS
    ensures Recoverable(present) <==> |MissingCells(present, CELLS)| <= CELL
  {
    CountCells(present, CELLS);
  }

  lemma Pow2Of7()
    ensures Pow2(7) == 128 && Pow2(6) == 64
  {
    assert Pow2(3) == 8;
    Pow2Add(3, 3);
  }

  /** Wire index i lies in cell i / 64, which the reversed load spreads over the slots congruent to its reversed index. */
  lemma CellOfSlot(i: nat)
    requires i < EXT_BLOB
    ensures Brev13(i) % CELLS == Brev(i / CELL, 7)
  {
    Pow2Of7();
    BrevFields(i / CELL, i % CELL, 7, 6);
    assert i / CELL * CELL + i % CELL == i;
    DivModUnique(Brev13(i), CELLS, Brev(i % CELL, 6), Brev(i / CELL, 7));
  }

  ghost function Residues(c: seq<int>, p: int): (r: seq<int>)
    requires p > 0
    ensures |r| == |c| && forall i :: 0 <= i < |c| ==> r[i] == Res(c[i], p)
  {
    seq(|c|, i requires 0 <= i < |c| => Res(c[i], p))
  }

  /** What recovery computes for one blob, from the numbers its cells spell and its presence bytes. */
  ghost function RecoverElements(cells: seq<int>, present: seq<int>, d: Domain): (r: seq<int>)
    requires d.p > 0 && |cells| == EXT_BLOB && |present| == CELLS
    ensures |r| == EXT_BLOB
  {
    var z := Residues(VanishingPoly(MissingCells(present, CELLS), d.root), d.p);
    ToCells(RecoverValues(FromCells(cells, d.p), z, d))
  }

  /** What recovery returns for one blob: bytes, as a function of its own cell bytes and presence bytes only. */
  ghost function RecoverCells(cells: seq<int>, present: seq<int>, d: Domain): (r: seq<int>)
    requires d.p > 0 && |present| == CELLS
    ensures |r| == EXT_BYTES
  {
    CellSpelling(RecoverElements(CellValues(cells), present, d))
  }

  /** Every present cell carries the polynomial's values; missing cells carry anything. */
  ghost predicate Consistent(cells: seq<int>, present: seq<int>, poly: seq<int>, d: Domain)
    requires d.p > 0 && |cells| == EXT_BLOB && |present| == CELLS
  {
    |poly| <= BLOB &&
    forall i: nat :: i < EXT_BLOB && present[i / CELL] != 0 ==> Cong(cells[i], Eval(poly, Pow(d.root, Brev13(i))), d.p)
  }

  /** The same of cell bytes: the 32 bytes at every present position spell the polynomial's value there, reduced
      or not. */
  ghost predicate BytesConsistent(cells: seq<int>, present: seq<int>, poly: seq<int>, d: Domain)
    requires d.p > 0 && |present| == CELLS
  {
    Consistent(CellValues(cells), present, poly, d)
  }

  /** The bytes spell the polynomial's value at every wire position. */
  ghost predicate SpellsValues(bytes: seq<int>, poly: seq<int>, d: Domain)
    requires d.p > 0
  {
    forall i: nat :: i < EXT_BLOB ==>
      Item(bytes, i, FR_BYTES) == BytesOf(Res(Eval(poly, Pow(d.root, Brev13(i))), d.p), FR_BYTES)
  }

  /** Recovery returns the bytes of the values of any polynomial of degree below 4096 that the present cells
      agree with, at every wire position, provided at least 64 of the 128 cells came in; the bytes of the missing
      cells are arbitrary. */
  lemma RecoverCellsCorrect(cells: seq<int>, present: seq<int>, poly: seq<int>, d: Domain)
    requires ValidDomain(d) && |present| == CELLS
    requires Recoverable(present) && BytesConsistent(cells, present, poly, d)
    ensures SpellsValues(RecoverCells(cells, present, d), poly, d)
  {
    hide Res, Pow, Eval, RecoverElements, Brev13, BytesOf, Item, CellSpelling, CellValues, Consistent;
    var values := RecoverElements(CellValues(cells), present, d);
    SpelledItems(RecoverCells(cells, present, d), values);
    forall i: nat | i < EXT_BLOB
      ensures Item(RecoverCells(cells, present, d), i, FR_BYTES)
           == BytesOf(Res(Eval(poly, Pow(d.root, Brev13(i))), d.p), FR_BYTES)
    {
      RecoveredElement(CellValues(cells), present, poly, d, i);
    }
  }

  /** The present cells come out byte for byte as they went in when they were canonical. */
  lemma PresentCellsKept(cells: seq<int>, present: seq<int>, poly: seq<int>, d: Domain, i: nat)
    requires ValidDomain(d) && |present| == CELLS && i < EXT_BLOB
    requires Recoverable(present) && BytesConsistent(cells, present, poly, d)
    requires Bytes(Item(cells, i, FR_BYTES), FR_BYTES)
    requires present[i / CELL] != 0 && WireValue(cells, i) < d.p
    ensures Item(RecoverCells(cells, present, d), i, FR_BYTES) == Item(cells, i, FR_BYTES)
  {
    hide Res, Pow, Eval, RecoverElements, Brev13, BytesOf, Item, CellSpelling, Consistent;
    RecoverCellsCorrect(cells, present, poly, d);
    NonnegBytes(Item(cells, i, FR_BYTES));
    RecoveredElement(CellValues(cells), present, poly, d, i);
    BytesSpell(Item(cells, i, FR_BYTES), FR_BYTES);
  }

  /** In values: recovery agrees with the polynomial on the whole domain. */
  lemma RecoverElementsCorrect(cells: seq<int>, present: seq<int>, poly: seq<int>, d: Domain)
    requires ValidDomain(d) && |cells| == EXT_BLOB && |present| == CELLS
    requires Recoverable(present) && Consistent(cells, present, poly, d)
    ensures forall i: nat :: i < EXT_BLOB ==>
      Cong(RecoverElements(cells, present, d)[i], Eval(poly, Pow(d.root, Brev13(i))), d.p)
  {
    hide Res, Pow, Eval, VanishingPoly, RecoverValues, Brev13;
    var p := d.p;
    var missing := MissingCells(present, CELLS);
    RecoverableCount(present);
    MissingCellsMembers(present, CELLS);
    var y := FromCells(cells, p);
    forall m | 0 <= m < EXT_BLOB && m % CELLS !in missing ensures Cong(y[m], Eval(poly, Pow(d.root, m)), p) {
      var i := Brev13(m);
      Brev13Involution(m);
      CellOfSlot(i);
      assert present[i / CELL] != 0;
      CongRes(cells[i], p);
    }
    var zv := VanishingPoly(missing, d.root);
    ResiduesRepresent(zv, p);
    assert CellIndices(missing) by {
      assert forall i :: 0 <= i < |missing| ==> missing[i] in missing;
    }
    RecoveryCorrect(y, Residues(zv, p), poly, missing, d);
  }

  /** The values come out as residues, canonical present ones unchanged. */
  lemma RecoveredElement(cells: seq<int>, present: seq<int>, poly: seq<int>, d: Domain, i: nat)
    requires ValidDomain(d) && |cells| == EXT_BLOB && |present| == CELLS && i < EXT_BLOB
    requires Recoverable(present) && Consistent(cells, present, poly, d)
    ensures RecoverElements(cells, present, d)[i] == Res(Eval(poly, Pow(d.root, Brev13(i))), d.p)
    ensures present[i / CELL] != 0 && Element(cells[i], d.p) ==> RecoverElements(cells, present, d)[i] == cells[i]
  {
    hide Res, Pow, Eval, RecoverElements, Brev13;
    ElementsRecovered(cells, present, d);
    RecoverElementsCorrect(cells, present, poly, d);
    IsResidue(RecoverElements(cells, present, d)[i], Eval(poly, Pow(d.root, Brev13(i))), d.p);
    if present[i / CELL] != 0 && Element(cells[i], d.p) {
      ElementsEqual(RecoverElements(cells, present, d)[i], cells[i], d.p);
    }
  }

  lemma ElementsRecovered(cells: seq<int>, present: seq<int>, d: Domain)
    requires d.p > 0 && |cells| == EXT_BLOB && |present| == CELLS
    ensures Elements(RecoverElements(cells, present, d), d.p)
  {
    hide Res, Pow, VanishingPoly, Brev13, Transform, FinalValues, MaskedCoefficients, CosetQuotient, Elements;
    var z := Residues(VanishingPoly(MissingCells(present, CELLS), d.root), d.p);
    var q := CosetQuotient(MaskedCoefficients(FromCells(cells, d.p), z, d), z, d);
    FinalElements(q, d);
    ReorderedElements(FinalValues(q, d), d.p);
  }

  lemma ReorderedElements(values: seq<int>, p: int)
    requires |values| == EXT_BLOB && Elements(values, p)
    ensures Elements(ToCells(values), p)
  {
    hide Brev13;
  }

  lemma ResiduesRepresent(c: seq<int>, p: int)
    requires p > 0
    ensures Represents(Residues(c, p), c, p) && Elements(Residues(c, p), p)
  {
    forall q | 0 <= q < |c| ensures Element(Residues(c, p)[q], p) && Cong(Residues(c, p)[q], c[q], p) {
      CongRes(c[q], p);
    }
  }

  lemma RepresentsUnique(s: seq<int>, c: seq<int>, p: int)
    requires p > 0 && Represents(s, c, p)
    ensures s == Residues(c, p)
  {
    forall q | 0 <= q < |c| ensures s[q] == Residues(c, p)[q] {
      IsResidue(s[q], c[q], p);
    }
  }

  // ------------------------------------------------------------ results are field elements

  lemma FinalElements(q: seq<int>, d: Domain)
    requires d.p > 0 && |q| == EXT_BLOB
    ensures Elements(FinalValues(q, d), d.p)
  {
    var u := Scaled(TransformBlob(q, EXT_BLOB, d.rootInv, 1, d.p), d.invN, d.p);
    TransformElements(Pointwise(u, Powers(d.shiftInv, EXT_BLOB, d.p), d.p), EXT_BLOB, d.root, 1, d.p);
  }

  lemma PointwiseElements(a: seq<int>, b: seq<int>, p: int)
    requires p > 0 && |a| == |b|
    ensures Elements(Pointwise(a, b, p), p) && Elements(Quotients(a, b, p), p)
  {
  }

  lemma ScaledIsPointwise(a: seq<int>, s: seq<int>, b: nat, p: int)
    requires p > 0 && |a| == EXT_BLOB && 0 < |s|
    ensures Pointwise(a, Operand(Broadcast, s, b), p) == Scaled(a, s[0], p)
  {
  }
}
