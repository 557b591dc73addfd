/** The scalar stage of proof computation: blob values to coefficients, and the circulant columns with
    their size-128 transforms, stored so that each output finds its scalars side by side. */
module Circulant {
  import opened Layout
  import opened Modular
  import opened Bits
  import opened Dft
  import opened Field
  import opened Poly
  import opened Dispatch
  import opened NttPass
  import opened Transforms

  // ------------------------------------------------------------ values to coefficients

  /** The 4096-point inverse transform: two passes over the inverse roots, the second one scaled. */
  method InverseBlob(polyExt: array<int>, work: array<int>, lagrange: array<int>, rootsInv: array<int>, invBlob: int,
                     batch: nat, p: int, ghost w: int, ghost v: int)
    requires work != lagrange && work != polyExt && work != rootsInv && polyExt != rootsInv
    requires p > 0 && PrimitiveRoot(w, EXT_BLOB, p) && Cong(w * v, 1, p) && TableOf(rootsInv[..], v, EXT_BLOB, p)
    requires batch * BLOB <= lagrange.Length && batch * EXT_BLOB <= work.Length && batch * EXT_BLOB <= polyExt.Length
    requires forall b: nat :: b < batch ==> Elements(Blob(lagrange[..], b, BLOB, BLOB), p)
    modifies work, polyExt
    ensures forall b: nat :: b < batch ==>
      Blob(polyExt[..], b, EXT_BLOB, BLOB)
      == TransformBlob(Blob(old(lagrange[..]), b, BLOB, BLOB), BLOB, Pow(v, 2), invBlob, p)
  {
    hide PrimitiveRoot, TableOf, Sizes, Blob, Elements, TransformBlob;
    BlobSizes();
    InverseRoot(w, v, EXT_BLOB, p);
    FourStepTransform(polyExt, work, lagrange, rootsInv, BLOB, 64, 64, BLOB, EXT_BLOB, EXT_BLOB, true, invBlob, batch,
                      p, 2, v);
  }

  lemma BlobSizes()
    ensures Sizes(BLOB, 64, 64, 2)
  {
    assert Pow2(6) == 64 by {
      assert Pow2(3) == 8;
      Pow2Add(3, 3);
    }
    LogOfPow2(6);
  }

  /** Applied to the values of a polynomial at the 4096 powers of the squared root, it returns its coefficients. */
  lemma InverseBlobCorrect(y: seq<int>, c: seq<int>, invBlob: int, w: int, v: int, p: int, i: nat)
    requires PrimitiveRoot(w, EXT_BLOB, p) && Cong(w * v, 1, p) && Cong(BLOB * invBlob, 1, p)
    requires |y| == BLOB && i < BLOB
    requires forall k :: 0 <= k < BLOB ==> Cong(y[k], Transform(c, BLOB, Pow(w, 2), k), p)
    ensures Cong(TransformBlob(y, BLOB, Pow(v, 2), invBlob, p)[i], Dft.At(c, i), p)
  {
    assert p > 1;
    hide Res, PrimitiveRoot, Transform, TransformBlob, Pow, Dft.At;
    var t := Transform(y, BLOB, Pow(v, 2), i);
    SquaredRoots(w, v, p);
    InverseTransform(c, y, BLOB, Pow(w, 2), Pow(v, 2), i, p);
    CongMul(t, BLOB * Dft.At(c, i), invBlob, invBlob, p);
    CongMul(BLOB * invBlob, 1, Dft.At(c, i), Dft.At(c, i), p);
    MulAssoc(BLOB, Dft.At(c, i), invBlob);
    CongRes(t * invBlob, p);
    assert TransformBlob(y, BLOB, Pow(v, 2), invBlob, p)[i] == Res(t * invBlob, p);
  }

  lemma SquaredRoots(w: int, v: int, p: int)
    requires PrimitiveRoot(w, EXT_BLOB, p) && Cong(w * v, 1, p)
    ensures PrimitiveRoot(Pow(w, 2), BLOB, p) && Cong(Pow(w, 2) * Pow(v, 2), 1, p)
  {
    SubRoot(w, EXT_BLOB, 2, BLOB, p);
    hide Res, PrimitiveRoot;
    PowMulBase(w, v, 2);
    CongPow(w * v, 1, 2, p);
    PowOne(2);
  }

  // ------------------------------------------------------------ circulant columns

  const COLUMN: nat := 128
  const DEGREE: nat := 4095

  /** The coefficient entry tid of column i takes; entries 1 to 65 are zero. */
  function Source(i: nat, tid: nat): (s: int)
    requires i < CELL && tid < COLUMN
    ensures -1 <= s < BLOB
  {
    if tid == 0 then DEGREE - i
    else if tid >= 66 then DEGREE - i - (COLUMN - tid) * CELL
    else -1
  }

  ghost function FirstColumn(poly: seq<int>, i: nat): (c: seq<int>)
    requires |poly| == BLOB && i < CELL
    ensures |c| == COLUMN && forall t :: 0 <= t < COLUMN ==> c[t] == if Source(i, t) < 0 then 0 else poly[Source(i, t)]
  {
    seq(COLUMN, t requires 0 <= t < COLUMN => if Source(i, t) < 0 then 0 else poly[Source(i, t)])
  }

  /** Every coefficient from 64 up to the degree is in exactly one entry of exactly one column, and the
      64 lowest are in none. */
  lemma CoefficientPlaced(m: nat, i: nat, tid: nat)
    requires m < BLOB && i < CELL && tid < COLUMN
    ensures Source(i, tid) == m <==>
      m >= CELL && i == (DEGREE - m) % CELL && tid == (COLUMN - (DEGREE - m) / CELL) % COLUMN
  {
    var r, q := (DEGREE - m) % CELL, (DEGREE - m) / CELL;
    assert DEGREE - m == q * CELL + r && 0 <= q <= 63;
    if tid >= 66 && Source(i, tid) == m {
      DivModUnique(DEGREE - m, CELL, COLUMN - tid, i);
    } else if tid == 0 && Source(i, tid) == m {
      DivModUnique(DEGREE - m, CELL, 0, i);
    }
  }

  /** Scalar i of output j of blob b: the transposed place. */
  function CoeffSlot(b: nat, j: nat, i: nat): nat {
    (b * COLUMN + j) * CELL + i
  }

  lemma CoeffSlotFits(b: nat, j: nat, i: nat, batch: nat)
    requires b < batch && j < COLUMN && i < CELL
    ensures CoeffSlot(b, j, i) < batch * COLUMN * CELL
  {
  }

  lemma CoeffSlotUnique(b: nat, j: nat, i: nat, b': nat, j': nat, i': nat)
    requires j < COLUMN && j' < COLUMN && i < CELL && i' < CELL
    ensures CoeffSlot(b, j, i) == CoeffSlot(b', j', i') ==> b == b' && j == j' && i == i'
  {
    if CoeffSlot(b, j, i) == CoeffSlot(b', j', i') {
      DivModUnique(CoeffSlot(b, j, i), CELL, b * COLUMN + j, i);
      DivModUnique(CoeffSlot(b', j', i'), CELL, b' * COLUMN + j', i');
      DivModUnique(b * COLUMN + j, COLUMN, b, j);
      DivModUnique(b' * COLUMN + j', COLUMN, b', j');
    }
  }

  /** Only the slots of column i of blob b may differ. */
  ghost predicate OthersSame(now: seq<int>, was: seq<int>, b: nat, i: nat) {
    |now| == |was| &&
    forall q: nat :: q < |now| && (forall j: nat :: j < COLUMN ==> CoeffSlot(b, j, i) != q) ==> now[q] == was[q]
  }

  lemma SameByWrite(now: seq<int>, was: seq<int>, b: nat, i: nat, j: nat, v: int)
    requires OthersSame(now, was, b, i) && j < COLUMN && CoeffSlot(b, j, i) < |now|
    ensures OthersSame(now[CoeffSlot(b, j, i) := v], was, b, i)
  {
    hide CoeffSlot;
  }

  lemma SameStart(s: seq<int>, b: nat, i: nat)
    ensures OthersSame(s, s, b, i)
  {
  }

  /** What scalar i of output j is: entry j of the transform of column i. */
  ghost function Scalar(poly: seq<int>, i: nat, j: nat, w: int, p: int): int
    requires p > 0 && |poly| == BLOB && i < CELL
  {
    Res(Transform(FirstColumn(poly, i), COLUMN, Pow(w, 64), j), p)
  }

  /** That is the column, read as a polynomial, evaluated at a power of the 128th root of unity. */
  lemma ScalarIsEval(poly: seq<int>, i: nat, j: nat, w: int, p: int)
    requires p > 0 && |poly| == BLOB && i < CELL && j < COLUMN
    ensures Element(Scalar(poly, i, j, w, p), p)
    ensures Cong(Scalar(poly, i, j, w, p), Eval(FirstColumn(poly, i), Pow(w, 64 * j)), p)
  {
    hide Pow, Eval, Transform, FirstColumn, Res;
    TransformIsEval(FirstColumn(poly, i), COLUMN, Pow(w, 64), j);
    PowPow(w, 64, j);
    ResRange(Transform(FirstColumn(poly, i), COLUMN, Pow(w, 64), j), p);
    CongRes(Transform(FirstColumn(poly, i), COLUMN, Pow(w, 64), j), p);
  }

  /** What thread tid loads. */
  method ColumnEntry(poly: array<int>, i: nat, b: nat, tid: nat) returns (v: int)
    requires i < CELL && tid < COLUMN && (b + 1) * EXT_BLOB <= poly.Length
    ensures v == FirstColumn(Blob(poly[..], b, EXT_BLOB, BLOB), i)[tid]
  {
    BlobFits(poly[..], b, EXT_BLOB, BLOB, b + 1);
    var pBase := b * EXT_BLOB;
    v := 0;
    if tid == 0 {
      v := poly[pBase + (DEGREE - i)];
    } else if tid >= 66 {
      var j := COLUMN - tid;
      v := poly[pBase + (DEGREE - i - j * CELL)];
    }
  }

  /** The column in the tile, every thread placing its entry at its 7-bit reversal. */
  method LoadColumn(tile: array<int>, poly: array<int>, i: nat, b: nat, ghost data: seq<int>)
    requires tile != poly && tile.Length == COLUMN && i < CELL && (b + 1) * EXT_BLOB <= poly.Length
    requires data == Blob(poly[..], b, EXT_BLOB, BLOB)
    modifies tile
    ensures forall q: nat :: q < COLUMN ==> Brev(q, 7) < COLUMN && tile[q] == FirstColumn(data, i)[Brev(q, 7)]
  {
    hide Brev, Blob, FirstColumn, PlacedReversed;
    ghost var c := FirstColumn(data, i);
    var pending: set<nat> := Invocations(COLUMN);
    NonePlaced(tile[..], c, pending);
    while pending != {}
      invariant forall t: nat :: t in pending ==> t < COLUMN
      invariant PlacedReversed(tile[..], c, pending)
      decreases |pending|
    {
      var tid :| tid in pending;
      var v := ColumnEntry(poly, i, b, tid);
      PlaceStep(tile[..], c, pending, tid);
      ghost var was := tile[..];
      tile[Brev(tid, 7)] := v;
      assert tile[..] == was[Brev(tid, 7) := v];
      pending := pending - {tid};
    }
    AllPlaced(tile[..], c);
  }

  /** The entries of the threads outside pending are at their reversed places. */
  ghost predicate PlacedReversed(tile: seq<int>, c: seq<int>, pending: set<nat>) {
    |tile| == COLUMN && |c| == COLUMN &&
    forall t: nat :: t < COLUMN && t !in pending ==> Brev(t, 7) < COLUMN && tile[Brev(t, 7)] == c[t]
  }

  lemma NonePlaced(tile: seq<int>, c: seq<int>, pending: set<nat>)
    requires |tile| == COLUMN && |c| == COLUMN && pending == Invocations(COLUMN)
    ensures PlacedReversed(tile, c, pending)
  {
  }

  lemma PlaceStep(tile: seq<int>, c: seq<int>, pending: set<nat>, tid: nat)
    requires PlacedReversed(tile, c, pending) && tid < COLUMN
    ensures |tile| == COLUMN && |c| == COLUMN && Brev(tid, 7) < COLUMN
    ensures PlacedReversed(tile[Brev(tid, 7) := c[tid]], c, pending - {tid})
  {
    hide Brev, Pow2;
    SevenBits();
    forall t: nat | t < COLUMN && t !in pending - {tid}
      ensures Brev(t, 7) < COLUMN && tile[Brev(tid, 7) := c[tid]][Brev(t, 7)] == c[t]
    {
      if Brev(t, 7) == Brev(tid, 7) {
        BrevInjective(t, tid, 7);
      }
    }
  }

  lemma AllPlaced(tile: seq<int>, c: seq<int>)
    requires PlacedReversed(tile, c, {})
    ensures |tile| == COLUMN && |c| == COLUMN
    ensures forall q: nat :: q < COLUMN ==> Brev(q, 7) < COLUMN && tile[q] == c[Brev(q, 7)]
  {
    hide Brev, Pow2;
    SevenBits();
    forall q: nat | q < COLUMN ensures Brev(q, 7) < COLUMN && tile[q] == c[Brev(q, 7)] {
      BrevInvolution(q, 7);
      var t := Brev(q, 7);
      assert t !in {};
      assert tile[Brev(t, 7)] == c[t];
    }
  }

  lemma SevenBits()
    ensures Pow2(7) == COLUMN
  {
    assert Pow2(3) == 8;
    Pow2Add(3, 3);
  }

  /** One workgroup: column i of blob b, transformed in place and stored transposed. */
  method ColumnWorkgroup(coeffs: array<int>, poly: array<int>, roots: array<int>, i: nat, b: nat, batch: nat, p: int,
                         ghost w: int)
    requires i < CELL && b < batch && coeffs != poly && coeffs != roots
    requires PrimitiveRoot(w, EXT_BLOB, p) && p > 0 && TableOf(roots[..], w, EXT_BLOB, p)
    requires batch * EXT_BLOB <= poly.Length && batch * COLUMN * CELL <= coeffs.Length
    requires Elements(Blob(poly[..], b, EXT_BLOB, BLOB), p)
    modifies coeffs
    ensures forall j: nat :: j < COLUMN ==>
      coeffs[CoeffSlot(b, j, i)] == Scalar(Blob(poly[..], b, EXT_BLOB, BLOB), i, j, w, p)
    ensures OthersSame(coeffs[..], old(coeffs[..]), b, i)
  {
    ghost var data := Blob(poly[..], b, EXT_BLOB, BLOB);
    ghost var c := FirstColumn(data, i);
    forall t | 0 <= t < COLUMN ensures Element(c[t], p) {
    }
    var tile := new int[COLUMN];
    SevenBits();
    hide Blob, FirstColumn, PrimitiveRoot, TableOf, Elements, Brev, Pow2;
    MulMono(b + 1, batch, EXT_BLOB);
    LoadColumn(tile, poly, i, b, data);
    Stages(tile, roots, COLUMN, EXT_BLOB / COLUMN, p, 7, w, c);
    StoreColumn(coeffs, tile, data, i, b, batch, p, w);
  }

  method StoreColumn(coeffs: array<int>, tile: array<int>, ghost data: seq<int>, i: nat, b: nat, batch: nat, p: int,
                     ghost w: int)
    requires i < CELL && b < batch && coeffs != tile && tile.Length == COLUMN && p > 0 && |data| == BLOB
    requires batch * COLUMN * CELL <= coeffs.Length
    requires forall j: nat :: j < COLUMN ==>
      Element(tile[j], p) && Cong(tile[j], Transform(FirstColumn(data, i), COLUMN, Pow(w, 64), j), p)
    modifies coeffs
    ensures forall j: nat :: j < COLUMN ==> coeffs[CoeffSlot(b, j, i)] == Scalar(data, i, j, w, p)
    ensures OthersSame(coeffs[..], old(coeffs[..]), b, i)
  {
    hide CoeffSlot, Transform, FirstColumn, Res, Pow, OthersSame, Stored, Scalar;
    forall j: nat | j < COLUMN ensures tile[j] == Scalar(data, i, j, w, p) {
      ScalarIs(tile[j], data, i, j, w, p);
    }
    ghost var values := tile[..];
    var pending: set<nat> := Invocations(COLUMN);
    NoneStored(coeffs[..], values, b, i, batch, pending);
    SameStart(coeffs[..], b, i);
    while pending != {}
      invariant forall t: nat :: t in pending ==> t < COLUMN
      invariant tile[..] == values && Stored(coeffs[..], values, b, i, pending) && OthersSame(coeffs[..], old(coeffs[..]), b, i)
      decreases |pending|
    {
      var tid :| tid in pending;
      CoeffSlotFits(b, tid, i, batch);
      StoreStep(coeffs[..], values, b, i, pending, tid);
      SameByWrite(coeffs[..], old(coeffs[..]), b, i, tid, tile[tid]);
      ghost var before := coeffs[..];
      coeffs[CoeffSlot(b, tid, i)] := tile[tid];
      assert coeffs[..] == before[CoeffSlot(b, tid, i) := tile[tid]];
      pending := pending - {tid};
    }
    AllStored(coeffs[..], values, b, i);
  }

  /** The values of the threads outside pending are stored at their transposed slots. */
  ghost predicate Stored(coeffs: seq<int>, values: seq<int>, b: nat, i: nat, pending: set<nat>) {
    |values| == COLUMN && forall j: nat :: j < COLUMN ==>
      CoeffSlot(b, j, i) < |coeffs| && (j !in pending ==> coeffs[CoeffSlot(b, j, i)] == values[j])
  }

  lemma NoneStored(coeffs: seq<int>, values: seq<int>, b: nat, i: nat, batch: nat, pending: set<nat>)
    requires |values| == COLUMN && b < batch && i < CELL && batch * COLUMN * CELL <= |coeffs|
    requires pending == Invocations(COLUMN)
    ensures Stored(coeffs, values, b, i, pending)
  {
    hide CoeffSlot;
    forall j: nat | j < COLUMN ensures CoeffSlot(b, j, i) < |coeffs| {
      CoeffSlotFits(b, j, i, batch);
    }
  }

  lemma StoreStep(coeffs: seq<int>, values: seq<int>, b: nat, i: nat, pending: set<nat>, tid: nat)
    requires Stored(coeffs, values, b, i, pending) && tid < COLUMN && i < CELL
    ensures |values| == COLUMN && CoeffSlot(b, tid, i) < |coeffs|
    ensures Stored(coeffs[CoeffSlot(b, tid, i) := values[tid]], values, b, i, pending - {tid})
  {
    hide CoeffSlot;
    forall j: nat | j < COLUMN ensures CoeffSlot(b, j, i) == CoeffSlot(b, tid, i) ==> j == tid {
      CoeffSlotUnique(b, j, i, b, tid, i);
    }
  }

  lemma AllStored(coeffs: seq<int>, values: seq<int>, b: nat, i: nat)
    requires Stored(coeffs, values, b, i, {})
    ensures |values| == COLUMN && forall j: nat :: j < COLUMN ==>
      CoeffSlot(b, j, i) < |coeffs| && coeffs[CoeffSlot(b, j, i)] == values[j]
  {
    hide CoeffSlot;
  }

  lemma ScalarIs(v: int, data: seq<int>, i: nat, j: nat, w: int, p: int)
    requires p > 0 && |data| == BLOB && i < CELL && Element(v, p)
    requires Cong(v, Transform(FirstColumn(data, i), COLUMN, Pow(w, 64), j), p)
    ensures v == Scalar(data, i, j, w, p)
  {
    IsResidue(v, Transform(FirstColumn(data, i), COLUMN, Pow(w, 64), j), p);
  }

  ghost predicate ScalarsDone(coeffs: seq<int>, poly: seq<int>, batch: nat, w: int, p: int, pending: set<(nat, nat)>)
    requires p > 0
  {
    forall i: nat, b: nat :: i < CELL && b < batch && (i, b) !in pending ==> ColumnDone(coeffs, poly, i, b, w, p)
  }

  ghost predicate ColumnDone(coeffs: seq<int>, poly: seq<int>, i: nat, b: nat, w: int, p: int)
    requires p > 0 && i < CELL
  {
    forall j: nat :: j < COLUMN ==>
      CoeffSlot(b, j, i) < |coeffs| && coeffs[CoeffSlot(b, j, i)] == Scalar(Blob(poly, b, EXT_BLOB, BLOB), i, j, w, p)
  }

  lemma ColumnKept(now: seq<int>, was: seq<int>, poly: seq<int>, i: nat, b: nat, i': nat, b': nat, w: int, p: int)
    requires p > 0 && i < CELL && i' < CELL && (i', b') != (i, b) && ColumnDone(was, poly, i', b', w, p)
    requires OthersSame(now, was, b, i)
    ensures ColumnDone(now, poly, i', b', w, p)
  {
    hide CoeffSlot, Scalar, Blob;
    forall j': nat | j' < COLUMN
      ensures CoeffSlot(b', j', i') < |now|
      ensures now[CoeffSlot(b', j', i')] == Scalar(Blob(poly, b', EXT_BLOB, BLOB), i', j', w, p)
    {
      forall j: nat | j < COLUMN ensures CoeffSlot(b, j, i) != CoeffSlot(b', j', i') {
        CoeffSlotUnique(b, j, i, b', j', i');
      }
    }
  }

  /** The whole dispatch, workgroups in any order. */
  method BuildCirculant(coeffs: array<int>, poly: array<int>, roots: array<int>, batch: nat, p: int, ghost w: int)
    requires coeffs != poly && coeffs != roots
    requires PrimitiveRoot(w, EXT_BLOB, p) && p > 0 && TableOf(roots[..], w, EXT_BLOB, p)
    requires batch * EXT_BLOB <= poly.Length && batch * COLUMN * CELL <= coeffs.Length
    requires forall b: nat :: b < batch ==> Elements(Blob(poly[..], b, EXT_BLOB, BLOB), p)
    modifies coeffs
    ensures ScalarsDone(coeffs[..], poly[..], batch, w, p, {})
  {
    hide PrimitiveRoot, TableOf, Elements, Blob, Scalar, CoeffSlot;
    ghost var data, table := poly[..], roots[..];
    var pending: set<(nat, nat)> := Grid(CELL, batch);
    while pending != {}
      invariant forall g :: g in pending ==> 0 <= g.0 < CELL && 0 <= g.1 < batch
      invariant poly[..] == data && roots[..] == table && ScalarsDone(coeffs[..], data, batch, w, p, pending)
      decreases |pending|
    {
      var g :| g in pending;
      var (i, b) := g;
      ghost var was := coeffs[..];
      forall j: nat | j < COLUMN ensures CoeffSlot(b, j, i) < coeffs.Length {
        CoeffSlotFits(b, j, i, batch);
      }
      ColumnWorkgroup(coeffs, poly, roots, i, b, batch, p, w);
      forall i': nat, b': nat | i' < CELL && b' < batch && (i', b') !in pending
        ensures ColumnDone(coeffs[..], data, i', b', w, p)
      {
        ColumnKept(coeffs[..], was, data, i, b, i', b', w, p);
      }
      pending := pending - {g};
    }
  }
}
