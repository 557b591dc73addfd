/** Both host objects can be built, set up and called: nothing in their contracts stands in a caller's way. */
module Clients {
  import opened Layout
  import opened Modular
  import opened Curve
  import opened Group
  import opened CurveGroup
  import opened Recode
  import opened BucketSort
  import opened Dft
  import opened NttPass
  import opened Transforms
  import opened RecoveryMath
  import opened Elementwise
  import opened CellBytes
  import opened Recovery
  import opened BucketReduce
  import opened PhaseA
  import opened Consistency
  import B = PhaseB
  import R = HostRecovery
  import H = HostProofs

  // ------------------------------------------------------------ recovery

  /** The tables a setup file holds for the small domain. */
  method RootTables() returns (rootsFwd: array<int>, rootsInv: array<int>)
    ensures fresh(rootsFwd) && fresh(rootsInv) && rootsFwd != rootsInv
    ensures TableOf(rootsFwd[..], ROOT, EXT_BLOB, P) && TableOf(rootsInv[..], 15845, EXT_BLOB, P)
  {
    hide TableOf, Powers;
    rootsFwd, rootsInv := new int[EXT_BLOB], new int[EXT_BLOB];
    PowSeq(rootsFwd, ROOT, P);
    PowSeq(rootsInv, 15845, P);
    PowersTable(rootsFwd[..], ROOT);
    PowersTable(rootsInv[..], 15845);
  }

  /** Recovers any batch of cell bytes into any array of the caller's. */
  method BuildAndRecover(cellsOut: array<int>, cells: seq<int>, present: seq<int>, numBlobs: nat, maxBatch: nat)
    returns (rc: R.Status, done: nat)
    requires maxBatch >= 1 && ByteBuffer(cells)
    requires numBlobs * EXT_BYTES <= |cells| && numBlobs * CELLS <= |present|
    requires numBlobs * EXT_BYTES <= cellsOut.Length
    modifies cellsOut
    ensures rc.Ok? <==> forall b: nat :: b < numBlobs ==> Recoverable(R.PresentOf(present, b))
    ensures rc.Ok? ==> forall b: nat :: b < numBlobs ==>
      Blob(cellsOut[..], b, EXT_BYTES, EXT_BYTES)
      == RecoverCells(Blob(cells, b, EXT_BYTES, EXT_BYTES), R.PresentOf(present, b), SmallDomain())
  {
    hide ValidDomain, Powers, TableOf, Recoverable, R.PresentOf, RecoverCells, Blob, ByteBuffer, FrConstants;
    DomainExists();
    ScalarConstantsExist();
    var rootsFwd, rootsInv := RootTables();
    var prover := new R.Prover(SmallDomain(), ScalarConstants(), maxBatch, rootsFwd, rootsInv);
    prover.PopulateCosetShiftTables();
    rc, done := prover.RecoverCellsBatch(cellsOut, cells, present, numBlobs);
  }

  // ------------------------------------------------------------ proofs

  /** One tap, in the lowest bucket. */
  function SmallTable(): B.HalfTable {
    B.HalfTable([0], [0] + seq(128, _ => 1), seq(128, i => i))
  }

  lemma SmallTableValid()
    ensures B.ValidTable(SmallTable())
  {
    var h := SmallTable();
    forall k | 0 <= k < NUM_BUCKETS ensures k in h.perm {
      assert h.perm[k] == k;
    }
  }

  function SmallSetup(): H.Setup {
    H.Setup(ScalarConstants(), CurveConstants(), SmallLimbs(3, 12), P, 7, ROOT, 15845, 40951,
            seq(262144, _ => AffinePair(0, 2)), SmallTable(), SmallTable())
  }

  ghost function Generator(): (int, int) -> Three {
    (j, t) => One
  }

  lemma SmallTableReady()
    ensures TableReady(SmallCurve(), SmallSetup().table, Generator())
  {
    hide Smul, Pow, PairIs;
    var c, table := SmallCurve(), SmallSetup().table;
    GeneratorPair();
    forall j: nat, t: nat, d: nat | j < COLUMNS && t < TERMS && d < NUM_DIGITS
      ensures TableIndex(j, t, d) < |table|
      ensures PairIs(c, table[TableIndex(j, t, d)], Smul(c.g, Pow(256, d), Generator()(j, t)))
    {
      PlaceValue(d, One);
    }
  }

  lemma GeneratorPair()
    ensures PairIs(SmallCurve(), AffinePair(0, 2), One)
  {
    hide PairIs;
    PairIsPoint(SmallCurve(), AffinePair(0, 2), Point(0, 2));
  }

  lemma SmallSetupReady()
    ensures H.ScalarsReady(SmallSetup()) && H.CurveReady(SmallSetup(), SmallCurve(), Generator())
  {
    hide FrConstants, PrimitiveRoot, Res, B.ValidTable, TableReady, Homomorphic;
    ScalarConstantsExist();
    CurveConstantsExist();
    RootIsPrimitive();
    Inverses();
    SmallTableValid();
    SmallTableReady();
    SmallCurveReads();
  }

  function NoLane(): Lane {
    Lane(Jacobian(0, 0, 0), Jacobian(0, 0, 0), Jacobian(0, 0, 0))
  }

  /** Four lanes, and zeros from beyond the subgroup. */
  function SmallDevice(): H.Device {
    H.Device((batch: nat) => 2, (first: nat, batch: nat, second: bool) => SmallGarbage())
  }

  function SmallGarbage(): Garbage {
    (x: nat, b: nat) => seq(2, _ => seq(32, _ => NoLane()))
  }

  lemma SmallDeviceAdmissible()
    ensures H.Admissible(SmallDevice())
  {
  }

  /** Proves any batch of blobs into any array of the caller's. */
  method BuildAndProve(proofs: array<int>, blobs: seq<int>, numBlobs: nat, maxBatch: nat)
    returns (rc: H.Status, done: nat)
    requires maxBatch >= 1 && ByteBuffer(blobs)
    requires numBlobs * H.BLOB_BYTES <= |blobs| && numBlobs * H.PROOFS_BYTES <= proofs.Length
    modifies proofs
    ensures rc.Ok? <==>
      forall b: nat :: b < numBlobs ==> CanonicalBlob(Blob(blobs, b, H.BLOB_BYTES, H.BLOB_BYTES), BLOB, P)
    ensures rc.Ok? ==> forall b: nat :: b < numBlobs ==>
      H.Proved(SmallCurve(), Generator(), SmallSetup(), Blob(proofs[..], b, H.PROOFS_BYTES, H.PROOFS_BYTES),
               H.Coefficients(Blob(blobs, b, H.BLOB_BYTES, H.BLOB_BYTES), SmallSetup()))
  {
    hide H.ScalarsReady, H.CurveReady, H.Admissible, H.Proved, H.Coefficients, CanonicalBlob, Blob, ByteBuffer, TableOf,
      SmallCurve, Generator;
    SmallSetupReady();
    SmallDeviceAdmissible();
    var rootsFwd, rootsInv := RootTables();
    var prover := new H.Prover(SmallSetup(), maxBatch, rootsFwd, rootsInv);
    rc, done := prover.ComputeProofsBatch(proofs, blobs, numBlobs, SmallDevice(), SmallCurve(), Generator());
    forall b: nat | b < numBlobs
      ensures prover.Acceptable(blobs, b) <==> CanonicalBlob(Blob(blobs, b, H.BLOB_BYTES, H.BLOB_BYTES), BLOB, P)
    {
    }
    if rc.Ok? {
      forall b: nat | b < numBlobs
        ensures H.Proved(SmallCurve(), Generator(), SmallSetup(), Blob(proofs[..], b, H.PROOFS_BYTES, H.PROOFS_BYTES),
                         H.Coefficients(Blob(blobs, b, H.BLOB_BYTES, H.BLOB_BYTES), SmallSetup()))
      {
        assert prover.ProvedBlob(SmallCurve(), Generator(), proofs[..], blobs, b);
      }
    }
  }
}
