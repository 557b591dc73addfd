/** The curve half of proof computation: phase A, phase B and the buffers they share. */
module ProofPoints {
  import opened Modular
  import opened Curve
  import opened Group
  import opened CurveGroup
  import opened Recode
  import opened BucketSort
  import opened BucketReduce
  import opened PhaseA
  import opened PhaseB
  import Transforms
  import C = Circulant
  import M = Montgomery

  /** Proof a of blob b: tap e of the kernel against the multi-scalar product of output a - e, modulo 128. */
  ghost function ProofTerm<G(!new)>(g: Group<G>, plus: HalfTable, minus: HalfTable, xs: seq<int>,
                                    base: (int, int) -> G, b: nat, a: nat, e: int): G {
    Smul(g, Tap(plus, minus, e), Msm(g, xs, base, b * SIZE + (a - e) % SIZE))
  }

  ghost function ProofPoint<G(!new)>(g: Group<G>, plus: HalfTable, minus: HalfTable, xs: seq<int>,
                                     base: (int, int) -> G, b: nat, a: nat): G {
    GSum(g, SIZE, e => ProofTerm(g, plus, minus, xs, base, b, a, e))
  }

  lemma CirculantOfProducts<G(!new)>(g: Group<G>, plus: HalfTable, minus: HalfTable, u: seq<G>, xs: seq<int>,
                                     base: (int, int) -> G, batch: nat, b: nat, a: nat)
    requires batch * SIZE <= |u| && b < batch && a < SIZE
    requires forall q: nat :: q < batch * COLUMNS ==> u[q] == Msm(g, xs, base, q)
    ensures Circulant(g, plus, minus, u, b, a) == ProofPoint(g, plus, minus, xs, base, b, a)
  {
    hide Smul, GSum, Msm, Tap;
    forall e | 0 <= e < SIZE
      ensures CirculantTerm(g, plus, minus, u, b, a, e) == ProofTerm(g, plus, minus, xs, base, b, a, e)
    {
      var j := (a - e) % SIZE;
      assert b * SIZE + j < batch * SIZE;
    }
    GSumEq(g, SIZE, e => CirculantTerm(g, plus, minus, u, b, a, e), e => ProofTerm(g, plus, minus, xs, base, b, a, e));
  }

  /** Both phases in sequence. The bucket buffer serves both, and the points buffer carries phase A's
      products and then phase B's reduced halves; no stale content of any buffer shows in the result. */
  method ComputePoints<G(!new)>(proofs: array<Jacobian>, points: array<Jacobian>, buckets: array<Jacobian>,
                                ladder: array<Jacobian>, folded: array<Jacobian>, affine: array<AffinePair>,
                                scratch: array<int>, items: array<int>, starts: array<int>, perms: array<int>,
                                coeffs: array<int>, table: seq<AffinePair>, plus: HalfTable, minus: HalfTable,
                                batch: nat, log: nat, undefA: Garbage, undefB: Garbage, f: M.FieldConstants,
                                p: int, ghost c: Reading<G>, ghost xs: seq<int>, ghost base: (int, int) -> G)
    requires Homomorphic(c) && c.p == p && TableReady(c, table, base) && CoeffsHold(coeffs[..], xs, f)
    requires |xs| == batch * COLUMNS * TERMS && ValidTable(plus) && ValidTable(minus)
    requires log <= 5 && forall x: nat, b: nat :: Shaped(undefA(x, b), log, WORKGROUP)
    requires forall x: nat, b: nat :: Shaped(undefB(x, b), log, WORKGROUP)
    requires SortBuffers(items.Length, starts.Length, perms.Length, batch * COLUMNS)
    requires items != starts && starts != perms && items != perms && coeffs != items && coeffs != starts
    requires coeffs != perms
    requires proofs != points && points != buckets && points != ladder && points != folded && ladder != folded
    requires batch * SIZE <= proofs.Length && batch * SIZE <= points.Length
    requires batch * SIZE * NUM_BUCKETS <= buckets.Length
    requires batch * SIZE * LADDER <= ladder.Length && batch * SIZE * LADDER <= folded.Length
    requires batch * SIZE * LADDER <= affine.Length && batch * SIZE * LADDER <= scratch.Length
    modifies proofs, points, buckets, ladder, folded, affine, scratch, items, starts, perms
    ensures forall a: nat, b: nat :: a < SIZE && b < batch ==>
      b * SIZE + a < proofs.Length &&
      Is(c, proofs[b * SIZE + a], ProofPoint(c.g, plus, minus, xs, base, b, a))
  {
    hide Homomorphic, TableReady, CoeffsHold, ValidTable, Msm, PhaseB.Circulant, ProofPoint, Shaped, Good, Value;
    PhaseA.PhaseA(points, buckets, items, starts, perms, coeffs, table, batch, log, undefA, f, p, c, xs, base);
    ghost var u := points[..];
    PhaseB.PhaseB(proofs, points, buckets, ladder, folded, affine, scratch, plus, minus, batch, log, undefB, p, c);
    forall a: nat, b: nat | a < SIZE && b < batch
      ensures b * SIZE + a < proofs.Length &&
        Is(c, proofs[b * SIZE + a], ProofPoint(c.g, plus, minus, xs, base, b, a))
    {
      CirculantOfProducts(c.g, plus, minus, Values(c, u), xs, base, batch, b, a);
    }
  }

  // ------------------------------------------------------------ in terms of the blob's polynomial

  /** Scalar i of output j is entry j of the transform of circulant column i. */
  ghost function ColumnTerm<G(!new)>(g: Group<G>, poly: seq<int>, base: (int, int) -> G, j: int, i: int, w: int,
                                     p: int): G
    requires p > 0 && |poly| == 4096
  {
    if 0 <= i < TERMS && 0 <= j then Smul(g, C.Scalar(poly, i, j, w, p), base(j, i)) else g.zero
  }

  /** The multi-scalar product of output j. */
  ghost function ColumnProduct<G(!new)>(g: Group<G>, poly: seq<int>, base: (int, int) -> G, j: int, w: int, p: int): G
    requires p > 0 && |poly| == 4096
  {
    GSum(g, TERMS, i => ColumnTerm(g, poly, base, j, i, w, p))
  }

  ghost function ProofTermOf<G(!new)>(g: Group<G>, plus: HalfTable, minus: HalfTable, poly: seq<int>,
                                      base: (int, int) -> G, a: nat, w: int, p: int, e: int): G
    requires p > 0 && |poly| == 4096
  {
    Smul(g, Tap(plus, minus, e), ColumnProduct(g, poly, base, (a - e) % SIZE, w, p))
  }

  /** Proof a of a polynomial: the 128-tap kernel applied to the products of its circulant columns. */
  ghost function ProofOf<G(!new)>(g: Group<G>, plus: HalfTable, minus: HalfTable, poly: seq<int>,
                                  base: (int, int) -> G, a: nat, w: int, p: int): G
    requires p > 0 && |poly| == 4096
  {
    GSum(g, SIZE, e => ProofTermOf(g, plus, minus, poly, base, a, w, p, e))
  }

  /** The scalars of phase A are the transformed circulant columns, found at the transposed places. */
  lemma ScalarsFeedPhaseA<G(!new)>(g: Group<G>, xs: seq<int>, poly: seq<int>, base: (int, int) -> G, batch: nat,
                                   b: nat, j: nat, w: int, p: int)
    requires p > 0 && C.ScalarsDone(xs, poly, batch, w, p, {}) && b < batch && j < COLUMNS
    ensures Msm(g, xs, base, b * COLUMNS + j) == ColumnProduct(g, Transforms.Blob(poly, b, 8192, 4096), base, j, w, p)
  {
    hide Smul, GSum, C.Scalar;
    var q := b * COLUMNS + j;
    var own := Transforms.Blob(poly, b, 8192, 4096);
    DivModUnique(q, COLUMNS, b, j);
    forall i | 0 <= i < TERMS ensures MsmTerm(g, xs, base, q, i) == ColumnTerm(g, own, base, j, i, w, p) {
      assert C.ColumnDone(xs, poly, i, b, w, p);
      assert C.CoeffSlot(b, j, i) == CoeffIndex(q, i);
    }
    GSumEq(g, TERMS, i => MsmTerm(g, xs, base, q, i), i => ColumnTerm(g, own, base, j, i, w, p));
  }

  /** So each proof depends on the polynomial of its own blob only. */
  lemma ProofOfBlob<G(!new)>(g: Group<G>, plus: HalfTable, minus: HalfTable, xs: seq<int>, poly: seq<int>,
                             base: (int, int) -> G, batch: nat, b: nat, a: nat, w: int, p: int)
    requires p > 0 && C.ScalarsDone(xs, poly, batch, w, p, {}) && b < batch && a < SIZE
    ensures ProofPoint(g, plus, minus, xs, base, b, a)
         == ProofOf(g, plus, minus, Transforms.Blob(poly, b, 8192, 4096), base, a, w, p)
  {
    hide Smul, GSum, Msm, Tap, ColumnProduct, C.ScalarsDone;
    var own := Transforms.Blob(poly, b, 8192, 4096);
    forall e | 0 <= e < SIZE
      ensures ProofTerm(g, plus, minus, xs, base, b, a, e) == ProofTermOf(g, plus, minus, own, base, a, w, p, e)
    {
      ScalarsFeedPhaseA(g, xs, poly, base, batch, b, (a - e) % SIZE, w, p);
    }
    GSumEq(g, SIZE, e => ProofTerm(g, plus, minus, xs, base, b, a, e),
           e => ProofTermOf(g, plus, minus, own, base, a, w, p, e));
  }
}
