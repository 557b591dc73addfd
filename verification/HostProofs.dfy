/** The host side of proof computation: the buffers, the stages of one chunk from blob bytes to proof bytes, and
    the chunk loop. */
module HostProofs {
  import opened Layout
  import opened Modular
  import opened Bits
  import opened Dft
  import opened Field
  import opened Curve
  import opened CurveGroup
  import opened Recode
  import opened NttPass
  import opened Transforms
  import opened CellBytes
  import opened BucketSort
  import opened BucketReduce
  import opened PhaseA
  import opened PhaseB
  import opened ProofPoints
  import opened HostBuffers
  import Z = Compress
  import C = Circulant
  import N = Normalize
  import L = Limbs
  import M = Montgomery

  const BLOB_BYTES: nat := 131072
  const PROOFS_BYTES: nat := 6144

  datatype Status = Ok | InvalidBlob

  /** What setup loads or derives: the constants of both fields, the root, 1/4096, the fixed-base table and the
      two half-kernels. */
  datatype Setup = Setup(fr: M.FieldConstants, fp: M.FieldConstants, half: seq<int>, r: int, p: int, root: int,
                         rootInv: int, invBlob: int, table: seq<AffinePair>, plus: HalfTable, minus: HalfTable)

  /** The scalar field's part of the setup. */
  ghost predicate ScalarsReady(s: Setup) {
    && FrConstants(s.fr) && L.Val(s.fr.p) == s.r > 1
    && PrimitiveRoot(s.root, EXT_BLOB, s.r) && Cong(s.root * s.rootInv, 1, s.r)
  }

  /** The curve's part. */
  ghost predicate CurveReady<G(!new)>(s: Setup, c: Reading<G>, base: (int, int) -> G) {
    && Z.FpConstants(s.fp, s.half) && L.Val(s.fp.p) == s.p == c.p && Homomorphic(c)
    && TableReady(c, s.table, base) && ValidTable(s.plus) && ValidTable(s.minus)
  }

  // ------------------------------------------------------------ what the proofs of one blob are

  /** The coefficients the scalar stage computes from a blob's bytes. */
  ghost function Coefficients(blob: seq<int>, s: Setup): (poly: seq<int>)
    requires s.r > 0
    ensures |poly| == BLOB
  {
    TransformBlob(FromWire(blob, 12, s.r), BLOB, Pow(s.rootInv, 2), s.invBlob, s.r)
  }

  /** The 48 bytes are a valid encoding of a curve point read as x. */
  ghost predicate Encodes<G(!new)>(c: Reading<G>, bytes: seq<int>, x: G) {
    c.p > 0 && exists a :: Z.Decodes(bytes, a, c.b, c.p) && c.point(a) == x
  }

  /** All 128 proofs of a blob, each encoded at its 7-bit reversed place. */
  ghost predicate Proved<G(!new)>(c: Reading<G>, base: (int, int) -> G, s: Setup, out: seq<int>, poly: seq<int>) {
    s.r > 0 && |poly| == BLOB && forall a: nat :: a < SIZE ==>
      Encodes(c, Item(out, Brev(a, 7), Z.PROOF_BYTES), ProofOf(c.g, s.plus, s.minus, poly, base, a, s.root, s.r))
  }

  /** The blob's 4096 items, in bit-reversed order, are canonical spellings of the values of the polynomial with
      these coefficients at the powers of the squared root. */
  ghost predicate Spells(blob: seq<int>, poly: seq<int>, s: Setup) {
    && s.r > 0 && |poly| == BLOB && Elements(poly, s.r)
    && forall k: nat :: k < BLOB ==>
      WireValue(blob, Brev(k, 12)) == Res(Transform(poly, BLOB, Pow(s.root, 2), k), s.r)
  }

  /** From a blob that spells a polynomial the scalar stage recovers exactly its coefficients. */
  lemma CoefficientsOf(blob: seq<int>, poly: seq<int>, s: Setup)
    requires ScalarsReady(s) && Cong(BLOB * s.invBlob, 1, s.r) && Spells(blob, poly, s)
    ensures Coefficients(blob, s) == poly
  {
    hide Res, PrimitiveRoot, FrConstants, L.Val, Transform, TransformBlob, Pow, WireValue, Brev;
    Pow2Of12();
    var y := FromWire(blob, 12, s.r);
    forall k | 0 <= k < BLOB ensures Cong(y[k], Transform(poly, BLOB, Pow(s.root, 2), k), s.r) {
      ResidueTwice(Transform(poly, BLOB, Pow(s.root, 2), k), s.r);
    }
    forall i: nat | i < BLOB ensures Coefficients(blob, s)[i] == poly[i] {
      C.InverseBlobCorrect(y, poly, s.invBlob, s.root, s.rootInv, s.r, i);
      TransformElements(y, BLOB, Pow(s.rootInv, 2), s.invBlob, s.r);
      ElementsEqual(Coefficients(blob, s)[i], poly[i], s.r);
    }
  }

  /** So the proofs returned for such a blob are the proofs of its polynomial. */
  lemma ProofsOfPolynomial<G(!new)>(c: Reading<G>, base: (int, int) -> G, s: Setup, out: seq<int>, blob: seq<int>,
                                    poly: seq<int>)
    requires ScalarsReady(s) && Cong(BLOB * s.invBlob, 1, s.r) && Spells(blob, poly, s)
    requires Proved(c, base, s, out, Coefficients(blob, s))
    ensures Proved(c, base, s, out, poly)
  {
    hide Proved, ScalarsReady, Spells, Coefficients;
    CoefficientsOf(blob, poly, s);
  }

  /** No byte string encodes two members of the group. */
  lemma EncodesOne<G(!new)>(c: Reading<G>, bytes: seq<int>, x: G, y: G)
    requires Homomorphic(c) && Encodes(c, bytes, x) && Encodes(c, bytes, y)
    ensures x == y
  {
    hide IsPrime, Additive, Z.Decodes;
    var a :| Z.Decodes(bytes, a, c.b, c.p) && c.point(a) == x;
    var d :| Z.Decodes(bytes, d, c.b, c.p) && c.point(d) == y;
    Z.DecodeUnique(bytes, a, d, c.b, c.p);
  }

  lemma ResidueTwice(a: int, p: int)
    requires p > 0
    ensures Cong(Res(Res(a, p), p), a, p)
  {
    CongRes(Res(a, p), p);
    CongRes(a, p);
  }

  lemma Pow2Of12()
    ensures Pow2(12) == 4096
  {
    assert Pow2(6) == 64 by {
      assert Pow2(3) == 8;
      Pow2Add(3, 3);
    }
    Pow2Add(6, 6);
  }

  // ------------------------------------------------------------ the device

  /** What the device decides: the lane count for a batch size, as a power of two, and what the out-of-range
      shuffles of the two reductions of a chunk return. */
  datatype Device = Device(log: nat -> nat, undef: (nat, nat, bool) -> Garbage)

  /** Any choice of at most 32 lanes and any undefined values. */
  ghost predicate Admissible(dev: Device) {
    && (forall batch: nat :: dev.log(batch) <= 5)
    && forall first: nat, batch: nat, second: bool, x: nat, b: nat ::
         Shaped(dev.undef(first, batch, second)(x, b), dev.log(batch), WORKGROUP)
  }

  lemma AdmissibleAt(dev: Device, first: nat, batch: nat, second: bool)
    requires Admissible(dev)
    ensures dev.log(batch) <= 5
    ensures forall x: nat, b: nat :: Shaped(dev.undef(first, batch, second)(x, b), dev.log(batch), WORKGROUP)
  {
    hide Shaped;
  }

  // ------------------------------------------------------------ the buffers

  class Prover {
    const s: Setup
    const maxBatch: nat
    const bufRootsFwd: array<int>
    const bufRootsInv: array<int>
    const bufBlob: array<int>
    const bufLagrange: array<int>
    const bufWorkA: array<int>
    const bufPolyExt: array<int>
    const bufCoeffs: array<int>
    const bufItems: array<int>
    const bufStarts: array<int>
    const bufPerm: array<int>
    const bufNormScratch: array<int>
    const bufProofBytes: array<int>
    const bufBuckets: array<Jacobian>
    const bufPoints: array<Jacobian>
    const bufLadderJac: array<Jacobian>
    const bufLadderJacFolded: array<Jacobian>
    const bufProofs: array<Jacobian>
    const bufLadderAff: array<AffinePair>
    const bufProofsAff: array<AffinePair>
    /** Numbers the integer buffers, so that no two are the same allocation. */
    ghost const bufferId: array<int> -> int

    ghost predicate Separate() {
      && bufferId(bufRootsFwd) == 0 && bufferId(bufRootsInv) == 1 && bufferId(bufBlob) == 2
      && bufferId(bufLagrange) == 3 && bufferId(bufWorkA) == 4 && bufferId(bufPolyExt) == 5
      && bufferId(bufCoeffs) == 6 && bufferId(bufItems) == 7 && bufferId(bufStarts) == 8 && bufferId(bufPerm) == 9
      && bufferId(bufNormScratch) == 10 && bufferId(bufProofBytes) == 11
      && bufProofs != bufPoints && bufPoints != bufBuckets && bufPoints != bufLadderJac
      && bufPoints != bufLadderJacFolded && bufLadderJac != bufLadderJacFolded
      && bufProofs != bufBuckets && bufProofs != bufLadderJac && bufProofs != bufLadderJacFolded
      && bufBuckets != bufLadderJac && bufBuckets != bufLadderJacFolded
    }

    ghost predicate Allocated() {
      var outputs := maxBatch * SIZE;
      && bufBlob.Length == maxBatch * BLOB_BYTES && bufLagrange.Length == maxBatch * BLOB
      && bufWorkA.Length == maxBatch * EXT_BLOB && bufPolyExt.Length == maxBatch * EXT_BLOB
      && bufCoeffs.Length == outputs * TERMS * FR_LIMBS
      && bufItems.Length == outputs * ITEMS && bufStarts.Length == outputs * STARTS
      && bufPerm.Length == outputs * NUM_BUCKETS
      && bufNormScratch.Length == outputs * LADDER && bufProofBytes.Length == maxBatch * PROOFS_BYTES
      && bufBuckets.Length == outputs * NUM_BUCKETS && bufPoints.Length == outputs
      && bufLadderJac.Length == outputs * LADDER && bufLadderJacFolded.Length == outputs * LADDER
      && bufProofs.Length == outputs && bufLadderAff.Length == outputs * LADDER && bufProofsAff.Length == outputs
    }

    ghost predicate Tables()
      reads bufRootsFwd, bufRootsInv
    {
      && ScalarsReady(s)
      && TableOf(bufRootsFwd[..], s.root, EXT_BLOB, s.r) && TableOf(bufRootsInv[..], s.rootInv, EXT_BLOB, s.r)
    }

    ghost predicate Valid()
      reads bufRootsFwd, bufRootsInv
    {
      maxBatch >= 1 && Separate() && Allocated() && Tables()
    }

    /** Every integer array the prover works with. */
    ghost function Buffers(): set<array<int>> {
      {bufRootsFwd, bufRootsInv} + Working()
    }

    /** The integer arrays it allocates for itself. */
    ghost function Working(): set<array<int>> {
      {bufBlob, bufLagrange, bufWorkA, bufPolyExt, bufCoeffs, bufItems, bufStarts, bufPerm, bufNormScratch,
       bufProofBytes}
    }

    /** Allocates the working set; the root tables come from the precomputed file. */
    constructor (setup: Setup, batch: nat, rootsFwd: array<int>, rootsInv: array<int>)
      requires rootsFwd != rootsInv
      ensures Separate() && Allocated() && s == setup && maxBatch == batch
      ensures bufRootsFwd == rootsFwd && bufRootsInv == rootsInv && fresh(Working())
      ensures fresh({bufBuckets, bufPoints, bufLadderJac, bufLadderJacFolded, bufProofs})
      ensures fresh({bufLadderAff, bufProofsAff})
    {
      var outputs := batch * SIZE;
      var n := batch * EXT_BLOB;
      var bs := NewBuffers([batch * BLOB_BYTES, batch * BLOB, n, n, outputs * TERMS * FR_LIMBS, outputs * ITEMS,
                            outputs * STARTS, outputs * NUM_BUCKETS, outputs * LADDER, batch * PROOFS_BYTES]);
      ghost var all := [rootsFwd, rootsInv] + bs;
      NumbersOf(rootsFwd, rootsInv, bs);
      hide Number;
      s, maxBatch, bufRootsFwd, bufRootsInv := setup, batch, rootsFwd, rootsInv;
      bufBlob, bufLagrange, bufWorkA, bufPolyExt, bufCoeffs := bs[0], bs[1], bs[2], bs[3], bs[4];
      bufItems, bufStarts, bufPerm, bufNormScratch, bufProofBytes := bs[5], bs[6], bs[7], bs[8], bs[9];
      bufferId := (a: array<int>) => Number(all, a);
      var origin := Jacobian(0, 0, 0);
      bufBuckets := new Jacobian[outputs * NUM_BUCKETS](_ => origin);
      bufPoints := new Jacobian[outputs](_ => origin);
      bufLadderJac := new Jacobian[outputs * LADDER](_ => origin);
      bufLadderJacFolded := new Jacobian[outputs * LADDER](_ => origin);
      bufProofs := new Jacobian[outputs](_ => origin);
      bufLadderAff := new AffinePair[outputs * LADDER](_ => AffinePair(0, 0));
      bufProofsAff := new AffinePair[outputs](_ => AffinePair(0, 0));
    }

    // ---------------------------------------------------------- the stages

    /** Steps 1 to 3: blob bytes to Lagrange values, to coefficients, to the circulant columns' scalars in
        Montgomery form. */
    method ScalarStage(batch: nat) returns (invalid: bool, ghost xs: seq<int>)
      requires Valid() && batch <= maxBatch && ByteBuffer(bufBlob[..batch * BLOB_BYTES])
      modifies bufLagrange, bufWorkA, bufPolyExt, bufCoeffs
      ensures Valid() && CoeffsHold(bufCoeffs[..], xs, s.fr) && |xs| == batch * COLUMNS * TERMS
      ensures C.ScalarsDone(xs, bufPolyExt[..], batch, s.root, s.r, {})
      ensures forall b: nat :: b < batch ==>
        Blob(bufPolyExt[..], b, EXT_BLOB, BLOB) == Coefficients(Blob(bufBlob[..], b, BLOB_BYTES, BLOB_BYTES), s)
      ensures invalid <==> !AllCanonical(bufBlob[..], BLOB, batch, s.r)
    {
      hide FrConstants, PrimitiveRoot, TableOf, ByteBuffer, Blob, FromWire, TransformBlob, Elements, AllCanonical,
        C.ScalarsDone, L.Val, HoldsAll, Pow2;
      ghost var bytes := bufBlob[..];
      Pow2Of12();
      MulMono(batch, maxBatch, BLOB_BYTES);
      assert batch * BLOB * FR_BYTES == batch * BLOB_BYTES;
      invalid := LoadBlobs(bufLagrange, bufBlob, 12, batch, true, s.fr);
      LoadedElements(bufLagrange[..], bytes, batch, s.r);
      ghost var lagrange := bufLagrange[..];
      C.InverseBlob(bufPolyExt, bufWorkA, bufLagrange, bufRootsInv, s.invBlob, batch, s.r, s.root, s.rootInv);
      CoefficientElements(bufPolyExt[..], lagrange, batch, s);
      var scalars := new int[batch * COLUMNS * TERMS];
      C.BuildCirculant(scalars, bufPolyExt, bufRootsFwd, batch, s.r, s.root);
      ScalarElements(scalars[..], bufPolyExt[..], batch, s.root, s.r);
      LimbsFor(bufCoeffs, scalars[..], s.fr);
      xs := scalars[..];
    }

    /** Step 7: the proofs in affine coordinates, compressed into bytes at reversed places. */
    method EncodeStage<G(!new)>(batch: nat, ghost c: Reading<G>, ghost base: (int, int) -> G)
      requires Valid() && batch <= maxBatch && CurveReady(s, c, base)
      requires forall k: nat :: k < batch * SIZE ==> Good(c, bufProofs[k])
      modifies bufProofsAff, bufNormScratch, bufProofBytes
      ensures Valid()
      ensures forall a: nat, b: nat :: a < SIZE && b < batch ==>
        Encodes(c, Item(bufProofBytes[..], Reversed(b, a, 7), Z.PROOF_BYTES), Value(c, bufProofs[b * SIZE + a]))
    {
      hide Good, CurveReady, Homomorphic, Tables, N.NormalRange, N.AllInField, Z.FpConstants, Z.HoldsPairs, L.Val, Item,
        Reversed, Encodes, Pow2, M.ValidConstants, IsPrime, CellBytes.At, Z.Encode, N.InversionChunk;
      CurveParts(s, c, base);
      Pow2Of7();
      MulMono(batch, maxBatch, SIZE);
      var n := batch * SIZE;
      ghost var points := bufProofs[..n];
      PointsInField(c, points);
      var chunk := N.InversionChunk(n, 4, 32, 2048);
      N.Normalize(bufProofsAff, bufNormScratch, bufProofs[..n], n, chunk, s.p);
      var pairs := bufProofsAff[..n];
      PairsInField(pairs, bufProofsAff[..], points, n, s.p);
      var words := new int[n * Z.AFFINE_WORDS];
      Z.WordsFor(words, pairs, s.fp);
      Z.Compress(bufProofBytes, words, batch, s.fp, s.half, pairs);
      EncodedAll(c, s, base, bufProofBytes[..], pairs, bufProofsAff[..], bufProofs[..], batch);
    }

    /** All stages of one chunk, from the uploaded bytes to the proof bytes. */
    method RunStages<G(!new)>(batch: nat, log: nat, undefA: Garbage, undefB: Garbage, ghost c: Reading<G>,
                              ghost base: (int, int) -> G)
      returns (invalid: bool)
      requires Valid() && batch <= maxBatch && ByteBuffer(bufBlob[..batch * BLOB_BYTES]) && CurveReady(s, c, base)
      requires log <= 5 && forall x: nat, b: nat :: Shaped(undefA(x, b), log, WORKGROUP)
      requires forall x: nat, b: nat :: Shaped(undefB(x, b), log, WORKGROUP)
      modifies bufLagrange, bufWorkA, bufPolyExt, bufCoeffs, bufItems, bufStarts, bufPerm, bufNormScratch,
        bufProofBytes, bufBuckets, bufPoints, bufLadderJac, bufLadderJacFolded, bufProofs, bufLadderAff, bufProofsAff
      ensures Valid()
      ensures invalid <==> !AllCanonical(bufBlob[..], BLOB, batch, s.r)
      ensures forall b: nat :: b < batch ==>
        Proved(c, base, s, Blob(bufProofBytes[..], b, PROOFS_BYTES, PROOFS_BYTES),
               Coefficients(Blob(bufBlob[..], b, BLOB_BYTES, BLOB_BYTES), s))
    {
      hide TableOf, PrimitiveRoot, FrConstants, ByteBuffer, Blob, Coefficients, AllCanonical, CoeffsHold, TableReady,
        ValidTable, Homomorphic, Shaped, C.ScalarsDone, Is, Proved, ProofPoint, Encodes, Item, Reversed,
        Z.FpConstants, L.Val;
      ghost var bytes := bufBlob[..];
      MulMono(batch, maxBatch, SIZE);
      ghost var xs;
      invalid, xs := ScalarStage(batch);
      ghost var poly := bufPolyExt[..];
      ComputePoints(bufProofs, bufPoints, bufBuckets, bufLadderJac, bufLadderJacFolded, bufLadderAff, bufNormScratch,
                    bufItems, bufStarts, bufPerm, bufCoeffs, s.table, s.plus, s.minus, batch, log, undefA, undefB,
                    s.fr, s.p, c, xs, base);
      ProofsGood(c, bufProofs[..], s, xs, base, batch);
      EncodeStage(batch, c, base);
      forall b: nat | b < batch
        ensures Proved(c, base, s, Blob(bufProofBytes[..], b, PROOFS_BYTES, PROOFS_BYTES),
                       Coefficients(Blob(bytes, b, BLOB_BYTES, BLOB_BYTES), s))
      {
        BlobProved(c, base, s, bufProofBytes[..], bufProofs[..], xs, poly, batch, b);
      }
    }

    // ---------------------------------------------------------- the host side

    /** Blob b of the caller's bytes has only canonical items. */
    ghost predicate Acceptable(blobs: seq<int>, b: nat) {
      CanonicalBlob(Blob(blobs, b, BLOB_BYTES, BLOB_BYTES), BLOB, s.r)
    }

    /** Blob b's slice of out holds the encoded proofs of blob b. */
    ghost predicate ProvedBlob<G(!new)>(c: Reading<G>, base: (int, int) -> G, out: seq<int>, blobs: seq<int>, b: nat) {
      s.r > 0 && Proved(c, base, s, Blob(out, b, PROOFS_BYTES, PROOFS_BYTES),
                        Coefficients(Blob(blobs, b, BLOB_BYTES, BLOB_BYTES), s))
    }

    /** Proofs of one chunk of at most maxBatch blobs, blobs first to first + batch of the caller's arrays. */
    method ComputeBatch<G(!new)>(proofs: array<int>, blobs: seq<int>, first: nat, batch: nat, dev: Device,
                                 ghost c: Reading<G>, ghost base: (int, int) -> G)
      returns (rc: Status)
      requires Valid() && batch <= maxBatch && CurveReady(s, c, base) && Admissible(dev)
      requires proofs !in Buffers() && ByteBuffer(blobs)
      requires (first + batch) * BLOB_BYTES <= |blobs| && (first + batch) * PROOFS_BYTES <= proofs.Length
      modifies proofs, bufBlob, bufLagrange, bufWorkA, bufPolyExt, bufCoeffs, bufItems, bufStarts, bufPerm,
        bufNormScratch, bufProofBytes, bufBuckets, bufPoints, bufLadderJac, bufLadderJacFolded, bufProofs, bufLadderAff,
        bufProofsAff
      ensures Valid()
      ensures rc.Ok? <==> forall b: nat :: first <= b < first + batch ==> Acceptable(blobs, b)
      ensures !rc.Ok? ==> proofs[..] == old(proofs[..])
      ensures rc.Ok? ==> forall b: nat :: first <= b < first + batch ==> ProvedBlob(c, base, proofs[..], blobs, b)
      ensures forall q :: 0 <= q < first * PROOFS_BYTES || (first + batch) * PROOFS_BYTES <= q < proofs.Length ==>
        proofs[q] == old(proofs[q])
    {
      hide Tables, ByteBuffer, Blob, Coefficients, AllCanonical, CurveReady, Admissible, Shaped, Proved, Acceptable,
        ProvedBlob;
      ScalarsPositive();
      Upload(blobs, first, batch);
      ghost var bytes := bufBlob[..];
      AdmissibleAt(dev, first, batch, false);
      AdmissibleAt(dev, first, batch, true);
      var invalid := RunStages(batch, dev.log(batch), dev.undef(first, batch, false), dev.undef(first, batch, true), c,
                               base);
      ChunkCanonical(bytes, blobs, first, batch);
      if invalid {
        return InvalidBlob;
      }
      Download(proofs, first, batch);
      ChunkProved(c, base, proofs[..], bufProofBytes[..], bytes, blobs, first, batch);
      rc := Ok;
    }

    /** The copy of the chunk's blobs to the device. */
    method Upload(blobs: seq<int>, first: nat, batch: nat)
      requires Separate() && Allocated() && batch <= maxBatch && ByteBuffer(blobs)
      requires (first + batch) * BLOB_BYTES <= |blobs|
      modifies bufBlob
      ensures ByteBuffer(bufBlob[..batch * BLOB_BYTES])
      ensures forall b: nat :: b < batch ==>
        Blob(bufBlob[..], b, BLOB_BYTES, BLOB_BYTES) == Blob(blobs, first + b, BLOB_BYTES, BLOB_BYTES)
    {
      hide ByteBuffer, Blob;
      MulMono(batch, maxBatch, BLOB_BYTES);
      MulDistrib(first, batch, BLOB_BYTES);
      CopyChunk(bufBlob, blobs, 0, first * BLOB_BYTES, batch * BLOB_BYTES);
      CopiedIn(bufBlob[..], blobs, first, batch, BLOB_BYTES);
      CopiedBytes(bufBlob[..], blobs, first * BLOB_BYTES, batch * BLOB_BYTES);
    }

    /** The copy of the chunk's proofs back to the caller. */
    method Download(proofs: array<int>, first: nat, batch: nat)
      requires Separate() && Allocated() && batch <= maxBatch && proofs != bufProofBytes
      requires (first + batch) * PROOFS_BYTES <= proofs.Length
      modifies proofs
      ensures forall b: nat :: first <= b < first + batch ==>
        Blob(proofs[..], b, PROOFS_BYTES, PROOFS_BYTES)
             == Blob(bufProofBytes[..], b - first, PROOFS_BYTES, PROOFS_BYTES)
      ensures forall q :: 0 <= q < first * PROOFS_BYTES || (first + batch) * PROOFS_BYTES <= q < proofs.Length ==>
        proofs[q] == old(proofs[q])
    {
      hide Blob;
      MulMono(batch, maxBatch, PROOFS_BYTES);
      MulDistrib(first, batch, PROOFS_BYTES);
      CopyChunk(proofs, bufProofBytes[..], first * PROOFS_BYTES, 0, batch * PROOFS_BYTES);
      CopiedOut(proofs[..], bufProofBytes[..], first, batch, PROOFS_BYTES);
    }

    lemma ScalarsPositive()
      requires Valid()
      ensures s.r > 0 && maxBatch >= 1
    {
    }

    lemma ChunkCanonical(bytes: seq<int>, blobs: seq<int>, first: nat, batch: nat)
      requires forall b: nat :: b < batch ==>
        Blob(bytes, b, BLOB_BYTES, BLOB_BYTES) == Blob(blobs, first + b, BLOB_BYTES, BLOB_BYTES)
      ensures AllCanonical(bytes, BLOB, batch, s.r)
        <==> forall b: nat :: first <= b < first + batch ==> Acceptable(blobs, b)
    {
      hide Blob, CanonicalBlob;
      assert BLOB * FR_BYTES == BLOB_BYTES;
      if forall b: nat :: first <= b < first + batch ==> Acceptable(blobs, b) {
        forall b: nat | b < batch ensures CanonicalBlob(Blob(bytes, b, BLOB_BYTES, BLOB_BYTES), BLOB, s.r) {
          assert Acceptable(blobs, first + b);
        }
      }
      if AllCanonical(bytes, BLOB, batch, s.r) {
        forall b: nat | first <= b < first + batch ensures Acceptable(blobs, b) {
          var k: nat := b - first;
          assert CanonicalBlob(Blob(bytes, k, BLOB_BYTES, BLOB_BYTES), BLOB, s.r);
        }
      }
    }

    lemma ChunkProved<G(!new)>(c: Reading<G>, base: (int, int) -> G, out: seq<int>, device: seq<int>, bytes: seq<int>,
                               blobs: seq<int>, first: nat, batch: nat)
      requires s.r > 0
      requires forall b: nat :: b < batch ==>
        Blob(bytes, b, BLOB_BYTES, BLOB_BYTES) == Blob(blobs, first + b, BLOB_BYTES, BLOB_BYTES)
      requires forall b: nat :: first <= b < first + batch ==>
        Blob(out, b, PROOFS_BYTES, PROOFS_BYTES) == Blob(device, b - first, PROOFS_BYTES, PROOFS_BYTES)
      requires forall b: nat :: b < batch ==>
        Proved(c, base, s, Blob(device, b, PROOFS_BYTES, PROOFS_BYTES),
               Coefficients(Blob(bytes, b, BLOB_BYTES, BLOB_BYTES), s))
      ensures forall b: nat :: first <= b < first + batch ==> ProvedBlob(c, base, out, blobs, b)
    {
      hide Blob, Coefficients, Proved;
      forall b: nat | first <= b < first + batch ensures ProvedBlob(c, base, out, blobs, b) {
        var k: nat := b - first;
        assert first + k == b;
      }
    }

    /** The first `done` blobs are acceptable and out holds their proofs. */
    ghost predicate ProvedUpTo<G(!new)>(c: Reading<G>, base: (int, int) -> G, out: seq<int>, blobs: seq<int>,
                                        done: nat) {
      forall b: nat :: b < done ==> Acceptable(blobs, b) && ProvedBlob(c, base, out, blobs, b)
    }

    lemma ChunkAppended<G(!new)>(c: Reading<G>, base: (int, int) -> G, was: seq<int>, now: seq<int>, blobs: seq<int>,
                                 done: nat, next: nat)
      requires ProvedUpTo(c, base, was, blobs, done)
      requires forall b: nat :: b < done ==>
        Blob(now, b, PROOFS_BYTES, PROOFS_BYTES) == Blob(was, b, PROOFS_BYTES, PROOFS_BYTES)
      requires forall b: nat :: done <= b < next ==> Acceptable(blobs, b)
      requires forall b: nat :: done <= b < next ==> ProvedBlob(c, base, now, blobs, b)
      ensures ProvedUpTo(c, base, now, blobs, next)
    {
      hide Acceptable, Proved, Blob, Coefficients;
      forall b: nat | b < next ensures Acceptable(blobs, b) && ProvedBlob(c, base, now, blobs, b) {
        if b < done {
          assert ProvedBlob(c, base, was, blobs, b);
        }
      }
    }

    /** One turn of the chunk loop. */
    method NextChunk<G(!new)>(proofs: array<int>, blobs: seq<int>, done: nat, numBlobs: nat, dev: Device,
                              ghost c: Reading<G>, ghost base: (int, int) -> G)
      returns (rc: Status, next: nat)
      requires Valid() && done < numBlobs && CurveReady(s, c, base) && Admissible(dev)
      requires proofs !in Buffers() && ByteBuffer(blobs)
      requires numBlobs * BLOB_BYTES <= |blobs| && numBlobs * PROOFS_BYTES <= proofs.Length
      requires ProvedUpTo(c, base, proofs[..], blobs, done)
      modifies proofs, bufBlob, bufLagrange, bufWorkA, bufPolyExt, bufCoeffs, bufItems, bufStarts, bufPerm,
        bufNormScratch, bufProofBytes, bufBuckets, bufPoints, bufLadderJac, bufLadderJacFolded, bufProofs, bufLadderAff,
        bufProofsAff
      ensures Valid()
      ensures rc.Ok? ==> next == if done + maxBatch < numBlobs then done + maxBatch else numBlobs
      ensures !rc.Ok? ==> next == done && proofs[..] == old(proofs[..])
      ensures !rc.Ok? ==> exists b: nat :: done <= b < numBlobs && b < done + maxBatch && !Acceptable(blobs, b)
      ensures ProvedUpTo(c, base, proofs[..], blobs, next)
      ensures KeptFrom(proofs[..], old(proofs[..]), next, PROOFS_BYTES)
    {
      hide Tables, ByteBuffer, Blob, CurveReady, Admissible, Acceptable, ProvedBlob, ProvedUpTo;
      var batch := if maxBatch < numBlobs - done then maxBatch else numBlobs - done;
      MulMono(done + batch, numBlobs, BLOB_BYTES);
      MulMono(done + batch, numBlobs, PROOFS_BYTES);
      ghost var was := proofs[..];
      rc := ComputeBatch(proofs, blobs, done, batch, dev, c, base);
      if rc.Ok? {
        next := done + batch;
        EarlierBlobs(was, proofs[..], done, PROOFS_BYTES);
        ChunkAppended(c, base, was, proofs[..], blobs, done, next);
      } else {
        next := done;
      }
    }

    /** The public entry point: the batch is cut into chunks of at most maxBatch blobs. A successful call leaves the
        encoded proofs of every blob, each from its own bytes alone, whatever maxBatch, the lane counts and earlier
        calls; a failing one has written exactly the whole chunks before the one with an item that is not canonical. */
    method ComputeProofsBatch<G(!new)>(proofs: array<int>, blobs: seq<int>, numBlobs: nat, dev: Device,
                                       ghost c: Reading<G>, ghost base: (int, int) -> G)
      returns (rc: Status, done: nat)
      requires Valid() && CurveReady(s, c, base) && Admissible(dev)
      requires proofs !in Buffers() && ByteBuffer(blobs)
      requires numBlobs * BLOB_BYTES <= |blobs| && numBlobs * PROOFS_BYTES <= proofs.Length
      modifies proofs, bufBlob, bufLagrange, bufWorkA, bufPolyExt, bufCoeffs, bufItems, bufStarts, bufPerm,
        bufNormScratch, bufProofBytes, bufBuckets, bufPoints, bufLadderJac, bufLadderJacFolded, bufProofs, bufLadderAff,
        bufProofsAff
      ensures Valid()
      ensures rc.Ok? <==> forall b: nat :: b < numBlobs ==> Acceptable(blobs, b)
      ensures done <= numBlobs && (rc.Ok? ==> done == numBlobs) && (!rc.Ok? ==> WholeChunks(done, maxBatch))
      ensures ProvedUpTo(c, base, proofs[..], blobs, done)
      ensures KeptFrom(proofs[..], old(proofs[..]), done, PROOFS_BYTES)
      ensures !rc.Ok? ==> exists b: nat :: done <= b < numBlobs && b < done + maxBatch && !Acceptable(blobs, b)
    {
      hide *;
      ScalarsPositive();
      AtStart(c, base, proofs[..], blobs);
      rc, done := Ok, 0;
      while done < numBlobs
        invariant Valid() && rc.Ok? && done <= numBlobs
        invariant done == numBlobs || WholeChunks(done, maxBatch)
        invariant ProvedUpTo(c, base, proofs[..], blobs, done)
        invariant KeptFrom(proofs[..], old(proofs[..]), done, PROOFS_BYTES)
      {
        ghost var before, was := done, proofs[..];
        rc, done := NextChunk(proofs, blobs, done, numBlobs, dev, c, base);
        KeptThrough(old(proofs[..]), was, proofs[..], before, done, PROOFS_BYTES);
        if !rc.Ok? {
          return;
        }
        NextBoundary(before, maxBatch);
      }
      AllAcceptable(c, base, proofs[..], blobs, done);
    }

    lemma AtStart<G(!new)>(c: Reading<G>, base: (int, int) -> G, out: seq<int>, blobs: seq<int>)
      requires maxBatch >= 1
      ensures ProvedUpTo(c, base, out, blobs, 0) && WholeChunks(0, maxBatch) && KeptFrom(out, out, 0, PROOFS_BYTES)
    {
    }

    lemma AllAcceptable<G(!new)>(c: Reading<G>, base: (int, int) -> G, out: seq<int>, blobs: seq<int>, n: nat)
      requires ProvedUpTo(c, base, out, blobs, n)
      ensures forall b: nat :: b < n ==> Acceptable(blobs, b)
    {
      hide Acceptable, ProvedBlob;
    }
  }

  /** Loaded values are residues. */
  lemma LoadedElements(lagrange: seq<int>, bytes: seq<int>, batch: nat, r: int)
    requires r > 0
    requires forall b: nat :: b < batch ==>
      Blob(lagrange, b, BLOB, BLOB) == FromWire(Blob(bytes, b, BLOB_BYTES, BLOB_BYTES), 12, r)
    ensures forall b: nat :: b < batch ==> Elements(Blob(lagrange, b, BLOB, BLOB), r)
  {
    hide Blob, WireValue, Brev, Pow2;
    forall b: nat | b < batch ensures Elements(Blob(lagrange, b, BLOB, BLOB), r) {
      forall m | 0 <= m < BLOB ensures Element(Blob(lagrange, b, BLOB, BLOB)[m], r) {
        ResRange(WireValue(Blob(bytes, b, BLOB_BYTES, BLOB_BYTES), Brev(m, 12)), r);
      }
    }
  }

  lemma CoefficientElements(poly: seq<int>, lagrange: seq<int>, batch: nat, s: Setup)
    requires s.r > 0
    requires forall b: nat :: b < batch ==>
      Blob(poly, b, EXT_BLOB, BLOB)
      == TransformBlob(Blob(lagrange, b, BLOB, BLOB), BLOB, Pow(s.rootInv, 2), s.invBlob, s.r)
    ensures forall b: nat :: b < batch ==> Elements(Blob(poly, b, EXT_BLOB, BLOB), s.r)
  {
    hide Blob, TransformBlob, Pow;
    forall b: nat | b < batch ensures Elements(Blob(poly, b, EXT_BLOB, BLOB), s.r) {
      TransformElements(Blob(lagrange, b, BLOB, BLOB), BLOB, Pow(s.rootInv, 2), s.invBlob, s.r);
    }
  }

  /** Every slot is the place of some scalar, which is a residue. */
  lemma ScalarElements(xs: seq<int>, poly: seq<int>, batch: nat, w: int, r: int)
    requires r > 0 && |xs| == batch * COLUMNS * TERMS && C.ScalarsDone(xs, poly, batch, w, r, {})
    ensures forall k :: 0 <= k < |xs| ==> Element(xs[k], r)
  {
    hide Blob, Transform, C.FirstColumn, Pow;
    forall k | 0 <= k < |xs| ensures Element(xs[k], r) {
      var q, i := k / TERMS, k % TERMS;
      var b, j := q / COLUMNS, q % COLUMNS;
      SlotsOf(k, batch);
      assert C.ColumnDone(xs, poly, i, b, w, r);
      assert xs[C.CoeffSlot(b, j, i)] == C.Scalar(Blob(poly, b, EXT_BLOB, BLOB), i, j, w, r);
      ResRange(Transform(C.FirstColumn(Blob(poly, b, EXT_BLOB, BLOB), i), C.COLUMN, Pow(w, 64), j), r);
    }
  }

  lemma SlotsOf(k: nat, batch: nat)
    requires k < batch * COLUMNS * TERMS
    ensures 0 <= k / TERMS / COLUMNS < batch && 0 <= k / TERMS % COLUMNS < COLUMNS && 0 <= k % TERMS < TERMS
    ensures C.CoeffSlot(k / TERMS / COLUMNS, k / TERMS % COLUMNS, k % TERMS) == k
  {
    DivNonneg(k, TERMS);
    DivNonneg(k / TERMS, COLUMNS);
  }

  lemma CurveParts<G(!new)>(s: Setup, c: Reading<G>, base: (int, int) -> G)
    requires CurveReady(s, c, base)
    ensures Homomorphic(c) && IsPrime(s.p) && s.p == c.p == L.Val(s.fp.p) > 3 && Z.FpConstants(s.fp, s.half)
    ensures s.fp.n == Z.FP_LIMBS && M.ValidConstants(s.fp) && Z.FlagRoom(s.p)
  {
  }

  lemma Pow2Of7()
    ensures Pow2(7) == 128
  {
    assert Pow2(3) == 8;
    Pow2Add(3, 4);
    assert Pow2(4) == 16;
  }

  lemma PointsInField<G(!new)>(c: Reading<G>, points: seq<Jacobian>)
    requires forall k: nat :: k < |points| ==> Good(c, points[k])
    ensures N.AllInField(points, c.p)
  {
    hide Good;
    forall k: nat | k < |points| ensures InField(points[k], c.p) {
      GoodInField(c, points[k]);
    }
  }

  /** Normalized coordinates are residues. */
  lemma PairsInField(pairs: seq<AffinePair>, out: seq<AffinePair>, points: seq<Jacobian>, n: nat, p: int)
    requires p > 0 && N.NormalRange(out, points, 0, n, p) && n <= |out| && pairs == out[..n]
    ensures forall k :: 0 <= k < n ==> Element(pairs[k].x, p) && Element(pairs[k].y, p)
  {
    hide Cong;
    forall k: nat | k < n ensures Element(pairs[k].x, p) && Element(pairs[k].y, p) {
      assert N.IsNormal(out[k], points[k], p);
    }
  }

  lemma PairAt(pairs: seq<AffinePair>, points: seq<Jacobian>, out: seq<AffinePair>, n: nat, b: nat, a: nat, batch: nat,
               p: int)
    requires p > 0 && N.NormalRange(out, points, 0, n, p) && n <= |out| && pairs == out[..n] && a < SIZE && b < batch
    requires n == batch * SIZE
    ensures b * SIZE + a < n <= |points| && N.IsNormal(pairs[b * SIZE + a], points[b * SIZE + a], p)
    ensures Pow2(7) == SIZE && CellBytes.At(b, a, Pow2(7)) == b * SIZE + a
  {
    hide N.IsNormal;
    Pow2Of7();
    MulMono(b + 1, batch, SIZE);
    assert N.IsNormal(out[b * SIZE + a], points[b * SIZE + a], p);
  }

  /** The bytes written for a normalized point encode the group member it stands for. */
  lemma EncodedPoint<G(!new)>(c: Reading<G>, q: AffinePair, j: Jacobian, s: Setup, base: (int, int) -> G)
    requires CurveReady(s, c, base) && Good(c, j) && c.p > 0 && N.IsNormal(q, j, c.p)
    ensures Encodes(c, Z.Encode(q, c.p), Value(c, j))
  {
    hide Good, Value, N.IsNormal, IsPrime, Additive, OnCurve, Represents, PairRepresents, Z.Encode, Z.Decodes,
      TableReady, ValidTable, L.Val, Z.FlagRoom;
    CurveParts(s, c, base);
    GoodIs(c, j);
    var a := PointOf(c, j, Value(c, j));
    N.NormalRepresents(q, j, a, c.b, c.p);
    Z.EncodeDecodes(q, a, c.b, c.p);
  }

  lemma EncodedAll<G(!new)>(c: Reading<G>, s: Setup, base: (int, int) -> G, out: seq<int>, pairs: seq<AffinePair>,
                            affine: seq<AffinePair>, proofs: seq<Jacobian>, batch: nat)
    requires CurveReady(s, c, base) && c.p > 0 && batch * SIZE <= |affine| && batch * SIZE <= |proofs|
    requires pairs == affine[..batch * SIZE] && N.NormalRange(affine, proofs[..batch * SIZE], 0, batch * SIZE, c.p)
    requires forall k: nat :: k < batch * SIZE ==> Good(c, proofs[k])
    requires forall i: nat, b: nat :: i < Pow2(7) && b < batch ==>
      CellBytes.At(b, i, Pow2(7)) < |pairs| &&
      Item(out, Reversed(b, i, 7), Z.PROOF_BYTES) == Z.Encode(pairs[CellBytes.At(b, i, Pow2(7))], c.p)
    ensures forall a: nat, b: nat :: a < SIZE && b < batch ==>
      Encodes(c, Item(out, Reversed(b, a, 7), Z.PROOF_BYTES), Value(c, proofs[b * SIZE + a]))
  {
    hide Good, Value, CurveReady, N.NormalRange, Item, Reversed, Encodes, Pow2, Z.Encode, CellBytes.At;
    var points := proofs[..batch * SIZE];
    forall a: nat, b: nat | a < SIZE && b < batch
      ensures Encodes(c, Item(out, Reversed(b, a, 7), Z.PROOF_BYTES), Value(c, proofs[b * SIZE + a]))
    {
      PairAt(pairs, points, affine, batch * SIZE, b, a, batch, c.p);
      EncodedPoint(c, pairs[b * SIZE + a], points[b * SIZE + a], s, base);
    }
  }

  lemma ProofsGood<G(!new)>(c: Reading<G>, proofs: seq<Jacobian>, s: Setup, xs: seq<int>, base: (int, int) -> G,
                            batch: nat)
    requires batch * SIZE <= |proofs|
    requires forall a: nat, b: nat :: a < SIZE && b < batch ==>
      b * SIZE + a < |proofs| && Is(c, proofs[b * SIZE + a], ProofPoint(c.g, s.plus, s.minus, xs, base, b, a))
    ensures forall k: nat :: k < batch * SIZE ==> Good(c, proofs[k])
  {
    hide Good, Value, ProofPoint;
    forall k: nat | k < batch * SIZE ensures Good(c, proofs[k]) {
      DivNonneg(k, SIZE);
      var b: nat, a: nat := k / SIZE, k % SIZE;
      var x := ProofPoint(c.g, s.plus, s.minus, xs, base, b, a);
      assert b * SIZE + a == k;
      assert Is(c, proofs[k], x);
    }
  }

  /** Gathers what the stages leave for blob b. */
  lemma BlobProved<G(!new)>(c: Reading<G>, base: (int, int) -> G, s: Setup, out: seq<int>, proofs: seq<Jacobian>,
                            xs: seq<int>, poly: seq<int>, batch: nat, b: nat)
    requires s.r > 0 && C.ScalarsDone(xs, poly, batch, s.root, s.r, {}) && b < batch
    requires batch * PROOFS_BYTES <= |out| && batch * SIZE <= |proofs|
    requires forall a: nat, b: nat :: a < SIZE && b < batch ==>
      b * SIZE + a < |proofs| && Is(c, proofs[b * SIZE + a], ProofPoint(c.g, s.plus, s.minus, xs, base, b, a))
    requires forall a: nat, b: nat :: a < SIZE && b < batch ==>
      Encodes(c, Item(out, Reversed(b, a, 7), Z.PROOF_BYTES), Value(c, proofs[b * SIZE + a]))
    ensures Proved(c, base, s, Blob(out, b, PROOFS_BYTES, PROOFS_BYTES), Blob(poly, b, EXT_BLOB, BLOB))
  {
    hide C.ScalarsDone, Good, Value, ProofPoint, ProofOf, Encodes, Item, Blob, Reversed, Brev, Pow2;
    Pow2Of7();
    forall a: nat | a < SIZE
      ensures Encodes(c, Item(Blob(out, b, PROOFS_BYTES, PROOFS_BYTES), Brev(a, 7), Z.PROOF_BYTES),
                      ProofOf(c.g, s.plus, s.minus, Blob(poly, b, EXT_BLOB, BLOB), base, a, s.root, s.r))
    {
      BlobItem(out, b, Brev(a, 7), SIZE, Z.PROOF_BYTES, batch);
      ReversedIs(b, a, 7);
      ProofOfBlob(c.g, s.plus, s.minus, xs, poly, base, batch, b, a, s.root, s.r);
      assert Is(c, proofs[b * SIZE + a], ProofPoint(c.g, s.plus, s.minus, xs, base, b, a));
      assert Encodes(c, Item(out, Reversed(b, a, 7), Z.PROOF_BYTES), Value(c, proofs[b * SIZE + a]));
    }
  }
}
