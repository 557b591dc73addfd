/** The prover object: its device buffers, the recovery sequence over them and the chunk loop. */
module HostRecovery {
  import opened Layout
  import opened Modular
  import opened Bits
  import opened Dft
  import opened Field
  import opened NttPass
  import opened Transforms
  import opened Vanishing
  import opened RecoveryMath
  import opened Elementwise
  import opened CellBytes
  import opened Recovery
  import opened HostBuffers
  import opened Flatten
  import L = Limbs
  import M = Montgomery

  datatype Status = Ok | BadArgs

  class Prover {
    const d: Domain
    const f: M.FieldConstants
    const maxBatch: nat
    const bufRootsFwd: array<int>
    const bufRootsInv: array<int>
    const bufCosetShiftFwd: array<int>
    const bufCosetShiftInv: array<int>
    const bufInvExtBlob: array<int>
    const bufRecMissing: array<int>
    const bufRecScratch: array<int>
    const bufRecBrp: array<int>
    const bufRecZCoeff: array<int>
    const bufRecZEval: array<int>
    const bufRecEZEval: array<int>
    const bufRecEZCoeff: array<int>
    const bufRecShiftedA: array<int>
    const bufRecCosetA: array<int>
    const bufRecCosetB: array<int>
    const bufRecPCoset: array<int>
    const bufRecPCoeffU: array<int>
    const bufRecPCoeff: array<int>
    const bufRecPFull: array<int>
    const bufRecOut: array<int>
    /** Numbers the buffers, so that no two are the same allocation. */
    ghost const bufferId: array<int> -> int

    ghost predicate Separate() {
      && bufferId(bufRootsFwd) == 0 && bufferId(bufRootsInv) == 1
      && bufferId(bufCosetShiftFwd) == 2 && bufferId(bufCosetShiftInv) == 3 && bufferId(bufInvExtBlob) == 4
      && bufferId(bufRecMissing) == 5 && bufferId(bufRecScratch) == 6 && bufferId(bufRecBrp) == 7
      && bufferId(bufRecZCoeff) == 8 && bufferId(bufRecZEval) == 9 && bufferId(bufRecEZEval) == 10
      && bufferId(bufRecEZCoeff) == 11 && bufferId(bufRecShiftedA) == 12 && bufferId(bufRecCosetA) == 13
      && bufferId(bufRecCosetB) == 14 && bufferId(bufRecPCoset) == 15 && bufferId(bufRecPCoeffU) == 16
      && bufferId(bufRecPCoeff) == 17 && bufferId(bufRecPFull) == 18 && bufferId(bufRecOut) == 19
    }

    ghost predicate Allocated() {
      && bufCosetShiftFwd.Length == EXT_BLOB && bufCosetShiftInv.Length == EXT_BLOB && bufInvExtBlob.Length == 1
      && bufRecMissing.Length == maxBatch * MISSING_WORDS
      && bufRecScratch.Length == maxBatch * EXT_BYTES && bufRecBrp.Length == maxBatch * EXT_BLOB
      && bufRecZCoeff.Length == maxBatch * EXT_BLOB && bufRecZEval.Length == maxBatch * EXT_BLOB
      && bufRecEZEval.Length == maxBatch * EXT_BLOB && bufRecEZCoeff.Length == maxBatch * EXT_BLOB
      && bufRecShiftedA.Length == maxBatch * EXT_BLOB && bufRecCosetA.Length == maxBatch * EXT_BLOB
      && bufRecCosetB.Length == maxBatch * EXT_BLOB && bufRecPCoset.Length == maxBatch * EXT_BLOB
      && bufRecPCoeffU.Length == maxBatch * EXT_BLOB && bufRecPCoeff.Length == maxBatch * EXT_BLOB
      && bufRecPFull.Length == maxBatch * EXT_BLOB && bufRecOut.Length == maxBatch * EXT_BYTES
    }

    /** The tables every call shares: powers of the root and its inverse, powers of the coset shift and
        its inverse, and 1/8192. */
    ghost predicate Tables()
      reads bufRootsFwd, bufRootsInv, bufCosetShiftFwd, bufCosetShiftInv, bufInvExtBlob
    {
      && d.p > 1 && ValidDomain(d)
      && TableOf(bufRootsFwd[..], d.root, EXT_BLOB, d.p)
      && TableOf(bufRootsInv[..], d.rootInv, EXT_BLOB, d.p)
      && bufCosetShiftFwd[..] == Powers(d.shift, EXT_BLOB, d.p)
      && bufCosetShiftInv[..] == Powers(d.shiftInv, EXT_BLOB, d.p)
      && bufInvExtBlob[..] == [d.invN]
    }

    ghost predicate Valid()
      reads bufRootsFwd, bufRootsInv, bufCosetShiftFwd, bufCosetShiftInv, bufInvExtBlob
    {
      maxBatch >= 1 && Separate() && Allocated() && Constants() && Tables()
    }

    /** The limb constants are those of the domain's field. */
    ghost predicate Constants() {
      FrConstants(f) && L.Val(f.p) == d.p
    }

    /** Every array the prover works with. */
    ghost function Buffers(): set<array<int>> {
      {bufRootsFwd, bufRootsInv} + Working()
    }

    /** The arrays it allocates for itself. */
    ghost function Working(): set<array<int>> {
      {bufCosetShiftFwd, bufCosetShiftInv, bufInvExtBlob, bufRecMissing, bufRecScratch, bufRecBrp, bufRecZCoeff,
       bufRecZEval, bufRecEZEval, bufRecEZCoeff, bufRecShiftedA, bufRecCosetA, bufRecCosetB, bufRecPCoset,
       bufRecPCoeffU, bufRecPCoeff, bufRecPFull, bufRecOut}
    }

    /** Allocates the working set; the root tables come from the precomputed file. */
    constructor (domain: Domain, fr: M.FieldConstants, batch: nat, rootsFwd: array<int>, rootsInv: array<int>)
      requires rootsFwd != rootsInv
      ensures Separate() && Allocated() && d == domain && f == fr && maxBatch == batch
      ensures bufRootsFwd == rootsFwd && bufRootsInv == rootsInv && fresh(Working())
    {
      var n, m := batch * EXT_BLOB, batch * EXT_BYTES;
      var bs := NewBuffers([EXT_BLOB, EXT_BLOB, 1, batch * MISSING_WORDS, m, n, n, n, n, n, n, n, n, n, n, n, n, m]);
      ghost var all := [rootsFwd, rootsInv] + bs;
      NumbersOf(rootsFwd, rootsInv, bs);
      hide Number;
      d, f, maxBatch, bufRootsFwd, bufRootsInv := domain, fr, batch, rootsFwd, rootsInv;
      bufCosetShiftFwd, bufCosetShiftInv, bufInvExtBlob := bs[0], bs[1], bs[2];
      bufRecMissing, bufRecScratch, bufRecBrp, bufRecZCoeff := bs[3], bs[4], bs[5], bs[6];
      bufRecZEval, bufRecEZEval, bufRecEZCoeff, bufRecShiftedA := bs[7], bs[8], bs[9], bs[10];
      bufRecCosetA, bufRecCosetB, bufRecPCoset, bufRecPCoeffU := bs[11], bs[12], bs[13], bs[14];
      bufRecPCoeff, bufRecPFull, bufRecOut := bs[15], bs[16], bs[17];
      bufferId := (a: array<int>) => Number(all, a);
    }

    /** Fills the coset tables, once; until then no recovery call is possible. */
    method PopulateCosetShiftTables()
      requires maxBatch >= 1 && Separate() && Allocated() && Constants() && d.p > 1 && ValidDomain(d)
      requires TableOf(bufRootsFwd[..], d.root, EXT_BLOB, d.p) && TableOf(bufRootsInv[..], d.rootInv, EXT_BLOB, d.p)
      modifies bufCosetShiftFwd, bufCosetShiftInv, bufInvExtBlob
      ensures Valid()
    {
      hide Powers, ValidDomain, TableOf;
      bufInvExtBlob[0] := d.invN;
      PowSeq(bufCosetShiftFwd, d.shift, d.p);
      bufInvExtBlob[0] := d.invN;
      PowSeq(bufCosetShiftInv, d.shiftInv, d.p);
    }

    // ---------------------------------------------------------- transforms and products on the buffers

    /** One unscaled 8192-point transform through the scratch buffer. */
    method RecoverNtt(out: array<int>, input: array<int>, roots: array<int>, batch: nat, ghost w: int)
      requires Valid() && batch <= maxBatch && PrimitiveRoot(w, EXT_BLOB, d.p)
      requires bufferId(out) > 6 && bufferId(input) > 6 && (roots == bufRootsFwd || roots == bufRootsInv)
      requires TableOf(roots[..], w, EXT_BLOB, d.p)
      requires out.Length == maxBatch * EXT_BLOB && input.Length == maxBatch * EXT_BLOB
      requires forall b: nat :: b < batch ==> Elements(Blob(input[..], b, EXT_BLOB, EXT_BLOB), d.p)
      modifies out, bufRecScratch
      ensures forall b: nat :: b < batch ==>
        Blob(out[..], b, EXT_BLOB, EXT_BLOB)
        == TransformBlob(Blob(old(input[..]), b, EXT_BLOB, EXT_BLOB), EXT_BLOB, w, 1, d.p)
    {
      hide Blob, TransformBlob, PrimitiveRoot, TableOf, Elements;
      MulMono(batch, maxBatch, EXT_BLOB);
      RecoverySizes();
      FourStepTransform(out, bufRecScratch, input, roots, EXT_BLOB, 128, 64, EXT_BLOB, EXT_BLOB, EXT_BLOB,
                        false, 0, batch, d.p, 1, w);
      assert Pow(w, 1) == w * Pow(w, 0) == w;
    }

    /** Pointwise product of two working buffers or of one with a shared table. */
    method RecoverEwMul(out: array<int>, a: array<int>, bb: array<int>, mode: BMode, batch: nat)
      requires Valid() && batch <= maxBatch && out != bb && bufferId(out) > 6
      requires out.Length == maxBatch * EXT_BLOB && a.Length == maxBatch * EXT_BLOB
      requires OperandReady(mode, bb[..], batch)
      modifies out
      ensures forall b: nat :: b < batch ==>
        Blob(out[..], b, EXT_BLOB, EXT_BLOB)
        == Pointwise(Blob(old(a[..]), b, EXT_BLOB, EXT_BLOB), Operand(mode, bb[..], b), d.p)
      ensures forall b: nat :: b < batch ==> Elements(Blob(out[..], b, EXT_BLOB, EXT_BLOB), d.p)
    {
      hide Blob, Pointwise, Operand, Elements;
      MulMono(batch, maxBatch, EXT_BLOB);
      EwMul(out, a, bb, mode, batch, d.p);
      forall b: nat | b < batch ensures Elements(Blob(out[..], b, EXT_BLOB, EXT_BLOB), d.p) {
        PointwiseElements(Blob(old(a[..]), b, EXT_BLOB, EXT_BLOB), Operand(mode, bb[..], b), d.p);
      }
    }

    /** An inverse transform followed by the in-place 1/N scale. */
    method RecoverInverse(out: array<int>, input: array<int>, batch: nat)
      requires Valid() && batch <= maxBatch
      requires bufferId(out) > 6 && bufferId(input) > 6
      requires out.Length == maxBatch * EXT_BLOB && input.Length == maxBatch * EXT_BLOB
      requires AllElements(input[..], batch)
      modifies out, bufRecScratch
      ensures forall b: nat :: b < batch ==>
        Blob(out[..], b, EXT_BLOB, EXT_BLOB)
        == Scaled(TransformBlob(Blob(old(input[..]), b, EXT_BLOB, EXT_BLOB), EXT_BLOB, d.rootInv, 1, d.p), d.invN, d.p)
      ensures AllElements(out[..], batch)
    {
      hide Blob, Elements, TransformBlob, Pointwise, Scaled;
      InverseRoot(d.root, d.rootInv, EXT_BLOB, d.p);
      RecoverNtt(out, input, bufRootsInv, batch, d.rootInv);
      ghost var raw := out[..];
      RecoverEwMul(out, out, bufInvExtBlob, Broadcast, batch);
      forall b: nat | b < batch
        ensures Pointwise(Blob(raw, b, EXT_BLOB, EXT_BLOB), Operand(Broadcast, bufInvExtBlob[..], b), d.p)
             == Scaled(Blob(raw, b, EXT_BLOB, EXT_BLOB), d.invN, d.p)
      {
        ScaledIsPointwise(Blob(raw, b, EXT_BLOB, EXT_BLOB), bufInvExtBlob[..], b, d.p);
      }
    }

    // ---------------------------------------------------------- the ten steps

    /** The vanishing polynomial of blob b, as the kernel stores it. */
    ghost function ZOf(missing: seq<int>, b: nat): (z: seq<int>)
      requires d.p > 0
      ensures |z| == EXT_BLOB
    {
      Residues(VanishingPoly(Listed(Words(missing, b)), d.root), d.p)
    }

    ghost predicate AllElements(s: seq<int>, batch: nat) {
      forall b: nat :: b < batch ==> Elements(Blob(s, b, EXT_BLOB, EXT_BLOB), d.p)
    }

    /** Step 2: Z in coefficient form. */
    method BuildZ(batch: nat)
      requires Valid() && batch <= maxBatch
      requires forall b: nat :: b < batch ==> ListReady(Words(bufRecMissing[..], b))
      modifies bufRecZCoeff
      ensures forall b: nat :: b < batch ==> Blob(bufRecZCoeff[..], b, EXT_BLOB, EXT_BLOB) == ZOf(bufRecMissing[..], b)
      ensures AllElements(bufRecZCoeff[..], batch)
    {
      hide Blob, VanishingPoly, Represents, Residues, ListReady, Words, Listed;
      MulMono(batch, maxBatch, EXT_BLOB);
      VanishingDispatch(bufRecZCoeff, bufRootsFwd, bufRecMissing, batch, d.p, d.root);
      forall b: nat | b < batch
        ensures Blob(bufRecZCoeff[..], b, EXT_BLOB, EXT_BLOB) == ZOf(bufRecMissing[..], b)
        ensures Elements(Blob(bufRecZCoeff[..], b, EXT_BLOB, EXT_BLOB), d.p)
      {
        var zv := VanishingPoly(Listed(Words(bufRecMissing[..], b)), d.root);
        RepresentsUnique(Blob(bufRecZCoeff[..], b, EXT_BLOB, EXT_BLOB), zv, d.p);
        ResiduesRepresent(zv, d.p);
      }
    }

    /** Steps 1 to 5. The scratch buffer carries the cells in, and is then the transforms' handoff buffer. */
    method MaskedStage(batch: nat)
      requires Valid() && batch <= maxBatch && ByteBuffer(bufRecScratch[..batch * EXT_BYTES])
      requires forall b: nat :: b < batch ==> ListReady(Words(bufRecMissing[..], b))
      modifies bufRecScratch, bufRecBrp, bufRecZCoeff, bufRecZEval, bufRecEZEval, bufRecEZCoeff
      ensures Valid()
      ensures AllElements(bufRecZCoeff[..], batch)
      ensures forall b: nat :: b < batch ==>
        && Blob(bufRecZCoeff[..], b, EXT_BLOB, EXT_BLOB) == ZOf(bufRecMissing[..], b)
        && Blob(bufRecEZCoeff[..], b, EXT_BLOB, EXT_BLOB)
           == MaskedCoefficients(FromCells(CellValues(Blob(old(bufRecScratch[..]), b, EXT_BYTES, EXT_BYTES)), d.p),
                                 ZOf(bufRecMissing[..], b), d)
    {
      hide Blob, Elements, VanishingPoly, Residues, ListReady, Words, Listed, TransformBlob, Pointwise, Scaled,
        FromCells, TableOf, PrimitiveRoot, Powers, ZOf, CellValues, FrConstants, ByteBuffer, L.Val;
      MulMono(batch, maxBatch, EXT_BLOB);
      MulMono(batch, maxBatch, EXT_BYTES);
      ghost var cells := bufRecScratch[..];
      LoadCells(bufRecBrp, bufRecScratch, batch, f);
      ghost var brp := bufRecBrp[..];
      BuildZ(batch);
      ghost var zCoeff := bufRecZCoeff[..];
      RecoverNtt(bufRecZEval, bufRecZCoeff, bufRootsFwd, batch, d.root);
      ghost var zEval := bufRecZEval[..];
      assert bufRecBrp[..] == brp;
      RecoverEwMul(bufRecEZEval, bufRecBrp, bufRecZEval, Batched, batch);
      ghost var ezEval := bufRecEZEval[..];
      RecoverInverse(bufRecEZCoeff, bufRecEZEval, batch);
      assert bufRecZCoeff[..] == zCoeff;
    }

    /** Steps 6 and 7. The shifted buffer serves both polynomials in turn. */
    method CosetStage(batch: nat)
      requires Valid() && batch <= maxBatch
      requires AllElements(bufRecZCoeff[..], batch)
      modifies bufRecScratch, bufRecShiftedA, bufRecCosetA, bufRecCosetB, bufRecPCoset
      ensures Valid()
      ensures AllElements(bufRecPCoset[..], batch)
      ensures forall b: nat :: b < batch ==>
        Blob(bufRecPCoset[..], b, EXT_BLOB, EXT_BLOB)
        == CosetQuotient(Blob(bufRecEZCoeff[..], b, EXT_BLOB, EXT_BLOB), Blob(bufRecZCoeff[..], b, EXT_BLOB, EXT_BLOB), d)
    {
      hide Blob, Elements, TransformBlob, Pointwise, Quotients, Powers, TableOf, PrimitiveRoot;
      MulMono(batch, maxBatch, EXT_BLOB);
      ghost var table := Powers(d.shift, EXT_BLOB, d.p);
      assert table[..EXT_BLOB] == table;
      RecoverEwMul(bufRecShiftedA, bufRecEZCoeff, bufCosetShiftFwd, SharedTable, batch);
      RecoverNtt(bufRecCosetA, bufRecShiftedA, bufRootsFwd, batch, d.root);
      ghost var cosetA := bufRecCosetA[..];
      RecoverEwMul(bufRecShiftedA, bufRecZCoeff, bufCosetShiftFwd, SharedTable, batch);
      RecoverNtt(bufRecCosetB, bufRecShiftedA, bufRootsFwd, batch, d.root);
      assert bufRecCosetA[..] == cosetA;
      EwDiv(bufRecPCoset, bufRecCosetA, bufRecCosetB, batch, d.p);
      forall b: nat | b < batch ensures Elements(Blob(bufRecPCoset[..], b, EXT_BLOB, EXT_BLOB), d.p) {
        PointwiseElements(Blob(cosetA, b, EXT_BLOB, EXT_BLOB), Blob(bufRecCosetB[..], b, EXT_BLOB, EXT_BLOB), d.p);
      }
    }

    /** Steps 8 to 10. */
    method FinalStage(batch: nat)
      requires Valid() && batch <= maxBatch
      requires AllElements(bufRecPCoset[..], batch)
      modifies bufRecScratch, bufRecPCoeffU, bufRecPCoeff, bufRecPFull, bufRecOut
      ensures Valid()
      ensures forall b: nat :: b < batch ==>
        Blob(bufRecOut[..], b, EXT_BYTES, EXT_BYTES)
        == CellSpelling(ToCells(FinalValues(Blob(bufRecPCoset[..], b, EXT_BLOB, EXT_BLOB), d)))
    {
      hide Blob, Elements, TransformBlob, Pointwise, Scaled, Powers, ToCells, TableOf, PrimitiveRoot, CellSpelling,
        FrConstants, L.Val;
      MulMono(batch, maxBatch, EXT_BLOB);
      MulMono(batch, maxBatch, EXT_BYTES);
      ghost var table := Powers(d.shiftInv, EXT_BLOB, d.p);
      assert table[..EXT_BLOB] == table;
      RecoverInverse(bufRecPCoeffU, bufRecPCoset, batch);
      RecoverEwMul(bufRecPCoeff, bufRecPCoeffU, bufCosetShiftInv, SharedTable, batch);
      ghost var unshifted := bufRecPCoeff[..];
      RecoverNtt(bufRecPFull, bufRecPCoeff, bufRootsFwd, batch, d.root);
      TransformedElements(bufRecPFull[..], unshifted, batch);
      StoreCells(bufRecOut, bufRecPFull, batch, f);
    }

    /** A transformed buffer holds residues. */
    lemma TransformedElements(out: seq<int>, input: seq<int>, batch: nat)
      requires d.p > 0 && batch * EXT_BLOB <= |out|
      requires forall b: nat :: b < batch ==>
        Blob(out, b, EXT_BLOB, EXT_BLOB) == TransformBlob(Blob(input, b, EXT_BLOB, EXT_BLOB), EXT_BLOB, d.root, 1, d.p)
      ensures forall k :: 0 <= k < batch * EXT_BLOB ==> Element(out[k], d.p)
    {
      hide Blob, TransformBlob;
      forall k | 0 <= k < batch * EXT_BLOB ensures Element(out[k], d.p) {
        var b := k / EXT_BLOB;
        BlobFits(out, b, EXT_BLOB, EXT_BLOB, batch);
        TransformElements(Blob(input, b, EXT_BLOB, EXT_BLOB), EXT_BLOB, d.root, 1, d.p);
        assert Blob(out, b, EXT_BLOB, EXT_BLOB)[k % EXT_BLOB] == out[k];
      }
    }

    // ---------------------------------------------------------- the host side

    /** Lists the missing cells of every blob of the chunk; false as soon as one has more than 64. */
    method ListMissing(present: seq<int>, first: nat, batch: nat) returns (ok: bool)
      requires Separate() && Allocated() && batch <= maxBatch && (first + batch) * CELLS <= |present|
      modifies bufRecMissing
      ensures ok <==> forall b: nat :: first <= b < first + batch ==> Recoverable(PresentOf(present, b))
      ensures ok ==> forall b: nat :: b < batch ==>
        ListsMissing(Words(bufRecMissing[..], b), PresentOf(present, first + b))
    {
      hide Recoverable, PresentOf, ListsMissing, Words;
      var missing := new int[batch * MISSING_WORDS](_ => 0);
      for b := 0 to batch
        invariant forall a: nat :: first <= a < first + b ==> Recoverable(PresentOf(present, a))
        invariant forall a: nat :: a < b ==> ListsMissing(Words(missing[..], a), PresentOf(present, first + a))
      {
        BlocksFit(b, batch, MISSING_WORDS, missing.Length);
        BlocksFit(first + b, first + batch, CELLS, |present|);
        var fits := ListNext(missing, b, present, first + b);
        if !fits {
          return false;
        }
      }
      MulMono(batch, maxBatch, MISSING_WORDS);
      ghost var listed := missing[..];
      CopyChunk(bufRecMissing, missing[..], 0, 0, batch * MISSING_WORDS);
      SameWords(listed, bufRecMissing[..], batch);
      ok := true;
    }

    /** Recovers one chunk of at most maxBatch blobs, blobs first to first + batch of the caller's arrays. */
    method RecoverBatch(cellsOut: array<int>, cells: seq<int>, present: seq<int>, first: nat, batch: nat)
      returns (rc: Status)
      requires Valid() && batch <= maxBatch
      requires cellsOut !in Buffers() && ByteBuffer(cells)
      requires (first + batch) * EXT_BYTES <= |cells| && (first + batch) * CELLS <= |present|
      requires (first + batch) * EXT_BYTES <= cellsOut.Length
      modifies cellsOut, bufRecMissing, bufRecScratch, bufRecBrp, bufRecZCoeff, bufRecZEval, bufRecEZEval,
        bufRecEZCoeff, bufRecShiftedA, bufRecCosetA, bufRecCosetB, bufRecPCoset, bufRecPCoeffU, bufRecPCoeff, bufRecPFull, bufRecOut
      ensures Valid()
      ensures rc.Ok? <==> forall b: nat :: first <= b < first + batch ==> Recoverable(PresentOf(present, b))
      ensures !rc.Ok? ==> cellsOut[..] == old(cellsOut[..])
      ensures rc.Ok? ==> forall b: nat :: first <= b < first + batch ==>
        Blob(cellsOut[..], b, EXT_BYTES, EXT_BYTES)
        == RecoverCells(Blob(cells, b, EXT_BYTES, EXT_BYTES), PresentOf(present, b), d)
      ensures forall q :: 0 <= q < first * EXT_BYTES || (first + batch) * EXT_BYTES <= q < cellsOut.Length ==>
        cellsOut[q] == old(cellsOut[q])
    {
      hide Blob, Tables, RecoverCells, PresentOf, Recoverable, ByteBuffer;
      var ok := ChunkOnDevice(cells, present, first, batch);
      if !ok {
        return BadArgs;
      }
      MulMono(batch, maxBatch, EXT_BYTES);
      MulDistrib(first, batch, EXT_BYTES);
      CopyChunk(cellsOut, bufRecOut[..], first * EXT_BYTES, 0, batch * EXT_BYTES);
      CopiedOut(cellsOut[..], bufRecOut[..], first, batch, EXT_BYTES);
      rc := Ok;
    }

    /** Copies the chunk in, lists its missing cells and runs the ten steps. */
    method ChunkOnDevice(cells: seq<int>, present: seq<int>, first: nat, batch: nat) returns (ok: bool)
      requires Valid() && batch <= maxBatch && ByteBuffer(cells)
      requires (first + batch) * EXT_BYTES <= |cells| && (first + batch) * CELLS <= |present|
      modifies bufRecMissing, bufRecScratch, bufRecBrp, bufRecZCoeff, bufRecZEval, bufRecEZEval, bufRecEZCoeff,
        bufRecShiftedA, bufRecCosetA, bufRecCosetB, bufRecPCoset, bufRecPCoeffU, bufRecPCoeff, bufRecPFull, bufRecOut
      ensures Valid()
      ensures ok <==> forall b: nat :: first <= b < first + batch ==> Recoverable(PresentOf(present, b))
      ensures ok ==> forall b: nat :: b < batch ==>
        Blob(bufRecOut[..], b, EXT_BYTES, EXT_BYTES)
        == RecoverCells(Blob(cells, first + b, EXT_BYTES, EXT_BYTES), PresentOf(present, first + b), d)
    {
      hide Blob, ListsMissing, Words, MissingCells, FromCells, ToCells, RecoverValues, RecoverCells, PresentOf,
        Recoverable, CellSpelling, CellValues, ByteBuffer, Constants, Tables, ZOf;
      Usable();
      Upload(cells, first, batch);
      ghost var bytes := bufRecScratch[..];
      ok := ListMissing(present, first, batch);
      if ok {
        ghost var missing := bufRecMissing[..];
        ListsReady(missing, present, first, batch);
        RunPipeline(batch);
        forall b: nat | b < batch
          ensures Blob(bufRecOut[..], b, EXT_BYTES, EXT_BYTES)
               == RecoverCells(Blob(cells, first + b, EXT_BYTES, EXT_BYTES), PresentOf(present, first + b), d)
        {
          BlobRecovered(Blob(cells, first + b, EXT_BYTES, EXT_BYTES), missing, present, first, b, batch);
        }
      }
    }

    /** The copy of the chunk's cells to the device. */
    method Upload(cells: seq<int>, first: nat, batch: nat)
      requires Separate() && Allocated() && batch <= maxBatch && ByteBuffer(cells)
      requires (first + batch) * EXT_BYTES <= |cells|
      modifies bufRecScratch
      ensures ByteBuffer(bufRecScratch[..batch * EXT_BYTES])
      ensures forall b: nat :: b < batch ==>
        Blob(bufRecScratch[..], b, EXT_BYTES, EXT_BYTES) == Blob(cells, first + b, EXT_BYTES, EXT_BYTES)
    {
      hide ByteBuffer, Blob;
      MulMono(batch, maxBatch, EXT_BYTES);
      MulDistrib(first, batch, EXT_BYTES);
      CopyChunk(bufRecScratch, cells, 0, first * EXT_BYTES, batch * EXT_BYTES);
      CopiedIn(bufRecScratch[..], cells, first, batch, EXT_BYTES);
      CopiedBytes(bufRecScratch[..], cells, first * EXT_BYTES, batch * EXT_BYTES);
    }

    /** The first `done` blobs are recoverable and out holds their recovery. */
    ghost predicate Recovered(out: seq<int>, cells: seq<int>, present: seq<int>, done: nat) {
      d.p > 0 && forall b: nat :: b < done ==>
        && Recoverable(PresentOf(present, b))
        && Blob(out, b, EXT_BYTES, EXT_BYTES) == RecoverCells(Blob(cells, b, EXT_BYTES, EXT_BYTES), PresentOf(present, b), d)
    }

    /** One turn of the chunk loop. */
    method NextChunk(cellsOut: array<int>, cells: seq<int>, present: seq<int>, done: nat, numBlobs: nat)
      returns (rc: Status, next: nat)
      requires Valid() && done < numBlobs
      requires cellsOut !in Buffers() && ByteBuffer(cells)
      requires numBlobs * EXT_BYTES <= |cells| && numBlobs * CELLS <= |present|
      requires numBlobs * EXT_BYTES <= cellsOut.Length
      requires Recovered(cellsOut[..], cells, present, done)
      modifies cellsOut, bufRecMissing, bufRecScratch, bufRecBrp, bufRecZCoeff, bufRecZEval, bufRecEZEval,
        bufRecEZCoeff, bufRecShiftedA, bufRecCosetA, bufRecCosetB, bufRecPCoset, bufRecPCoeffU, bufRecPCoeff, bufRecPFull, bufRecOut
      ensures Valid()
      ensures rc.Ok? ==> next == if done + maxBatch < numBlobs then done + maxBatch else numBlobs
      ensures !rc.Ok? ==> next == done && cellsOut[..] == old(cellsOut[..])
      ensures !rc.Ok? ==>
        exists b: nat :: done <= b < numBlobs && b < done + maxBatch && !Recoverable(PresentOf(present, b))
      ensures Recovered(cellsOut[..], cells, present, next)
      ensures KeptFrom(cellsOut[..], old(cellsOut[..]), next, EXT_BYTES)
    {
      hide Blob, Tables, RecoverCells, PresentOf, Recoverable, ByteBuffer, Constants;
      var batch := if maxBatch < numBlobs - done then maxBatch else numBlobs - done;
      ChunkFits(done, batch, numBlobs);
      ghost var was := cellsOut[..];
      rc := RecoverBatch(cellsOut, cells, present, done, batch);
      if rc.Ok? {
        next := done + batch;
        EarlierBlobs(was, cellsOut[..], done, EXT_BYTES);
      } else {
        next := done;
      }
    }

    /** The public entry point: the batch is cut into chunks of at most maxBatch blobs. Every blob of a
        successful call is recovered from its own cells alone, whatever maxBatch is and whatever earlier calls
        left in the buffers. A failing call has written exactly the whole chunks before the offending one. */
    method RecoverCellsBatch(cellsOut: array<int>, cells: seq<int>, present: seq<int>, numBlobs: nat)
      returns (rc: Status, done: nat)
      requires Valid()
      requires cellsOut !in Buffers() && ByteBuffer(cells)
      requires numBlobs * EXT_BYTES <= |cells| && numBlobs * CELLS <= |present|
      requires numBlobs * EXT_BYTES <= cellsOut.Length
      modifies cellsOut, bufRecMissing, bufRecScratch, bufRecBrp, bufRecZCoeff, bufRecZEval, bufRecEZEval,
        bufRecEZCoeff, bufRecShiftedA, bufRecCosetA, bufRecCosetB, bufRecPCoset, bufRecPCoeffU, bufRecPCoeff, bufRecPFull, bufRecOut
      ensures Valid()
      ensures rc.Ok? <==> forall b: nat :: b < numBlobs ==> Recoverable(PresentOf(present, b))
      ensures done <= numBlobs && (rc.Ok? ==> done == numBlobs) && (!rc.Ok? ==> WholeChunks(done, maxBatch))
      ensures Recovered(cellsOut[..], cells, present, done)
      ensures forall b: nat, poly: seq<int> ::
        b < done && BytesConsistent(Blob(cells, b, EXT_BYTES, EXT_BYTES), PresentOf(present, b), poly, d) ==>
        SpellsValues(Blob(cellsOut[..], b, EXT_BYTES, EXT_BYTES), poly, d)
      ensures KeptFrom(cellsOut[..], old(cellsOut[..]), done, EXT_BYTES)
      ensures !rc.Ok? ==>
        exists b: nat :: done <= b < numBlobs && b < done + maxBatch && !Recoverable(PresentOf(present, b))
    {
      hide *;
      Usable();
      AtStart(cellsOut[..], cells, present);
      rc, done := Ok, 0;
      while done < numBlobs
        invariant Valid() && rc.Ok? && done <= numBlobs
        invariant done == numBlobs || WholeChunks(done, maxBatch)
        invariant Recovered(cellsOut[..], cells, present, done)
        invariant KeptFrom(cellsOut[..], old(cellsOut[..]), done, EXT_BYTES)
      {
        ghost var before, was := done, cellsOut[..];
        rc, done := NextChunk(cellsOut, cells, present, done, numBlobs);
        KeptThrough(old(cellsOut[..]), was, cellsOut[..], before, done, EXT_BYTES);
        if !rc.Ok? {
          break;
        }
        NextBoundary(before, maxBatch);
      }
      AllPolynomials(cellsOut[..], cells, present, done);
      AllRecoverable(cellsOut[..], cells, present, done);
    }

    lemma Usable()
      requires Valid()
      ensures d.p > 0 && maxBatch >= 1
    {
    }

    lemma AtStart(out: seq<int>, cells: seq<int>, present: seq<int>)
      requires d.p > 0 && maxBatch >= 1
      ensures Recovered(out, cells, present, 0) && WholeChunks(0, maxBatch) && KeptFrom(out, out, 0, EXT_BYTES)
    {
    }

    lemma AllRecoverable(out: seq<int>, cells: seq<int>, present: seq<int>, n: nat)
      requires Recovered(out, cells, present, n)
      ensures forall b: nat :: b < n ==> Recoverable(PresentOf(present, b))
    {
      hide Blob, RecoverCells, PresentOf, Recoverable;
    }

    /** A recovered blob spells whatever polynomial its present cells agree with. */
    lemma AllPolynomials(out: seq<int>, cells: seq<int>, present: seq<int>, n: nat)
      requires Valid() && Recovered(out, cells, present, n)
      ensures forall b: nat, poly: seq<int> ::
        b < n && BytesConsistent(Blob(cells, b, EXT_BYTES, EXT_BYTES), PresentOf(present, b), poly, d) ==>
        SpellsValues(Blob(out, b, EXT_BYTES, EXT_BYTES), poly, d)
    {
      hide Blob, RecoverCells, PresentOf, Recoverable, ValidDomain, BytesConsistent, SpellsValues, TableOf,
        Powers, Constants;
      forall b: nat, poly: seq<int> | b < n
          && BytesConsistent(Blob(cells, b, EXT_BYTES, EXT_BYTES), PresentOf(present, b), poly, d)
        ensures SpellsValues(Blob(out, b, EXT_BYTES, EXT_BYTES), poly, d)
      {
        RecoverCellsCorrect(Blob(cells, b, EXT_BYTES, EXT_BYTES), PresentOf(present, b), poly, d);
      }
    }

    lemma BlobRecovered(cells: seq<int>, missing: seq<int>, present: seq<int>, first: nat, b: nat, batch: nat)
      requires d.p > 0 && b < batch
      requires forall a: nat :: a < batch ==> ListsMissing(Words(missing, a), PresentOf(present, first + a))
      ensures CellSpelling(ToCells(RecoverValues(FromCells(CellValues(cells), d.p), ZOf(missing, b), d)))
           == RecoverCells(cells, PresentOf(present, first + b), d)
    {
      hide ToCells, RecoverValues, FromCells, VanishingPoly, Residues, MissingCells, PresentOf, CellSpelling,
        CellValues;
      assert ListsMissing(Words(missing, b), PresentOf(present, first + b));
    }

    /** The ten steps on the device, from the loaded scratch buffer and missing lists to the output buffer. */
    method RunPipeline(batch: nat)
      requires Valid() && batch <= maxBatch && ByteBuffer(bufRecScratch[..batch * EXT_BYTES])
      requires forall b: nat :: b < batch ==> ListReady(Words(bufRecMissing[..], b))
      modifies bufRecScratch, bufRecBrp, bufRecZCoeff, bufRecZEval, bufRecEZEval, bufRecEZCoeff,
        bufRecShiftedA, bufRecCosetA, bufRecCosetB, bufRecPCoset, bufRecPCoeffU, bufRecPCoeff, bufRecPFull, bufRecOut
      ensures Valid()
      ensures forall b: nat :: b < batch ==>
        Blob(bufRecOut[..], b, EXT_BYTES, EXT_BYTES)
        == CellSpelling(ToCells(RecoverValues(
             FromCells(CellValues(Blob(old(bufRecScratch[..]), b, EXT_BYTES, EXT_BYTES)), d.p),
             ZOf(bufRecMissing[..], b), d)))
    {
      hide Blob, Words, ListReady, MaskedCoefficients, CosetQuotient, FinalValues, FromCells, ToCells, ZOf, Tables,
        CellSpelling, CellValues, Constants, ByteBuffer;
      ghost var missing := bufRecMissing[..];
      MaskedStage(batch);
      ghost var z, ez := bufRecZCoeff[..], bufRecEZCoeff[..];
      CosetStage(batch);
      ghost var coset := bufRecPCoset[..];
      FinalStage(batch);
      assert bufRecMissing[..] == missing;
    }
  }

  /** The presence bytes of one blob. */
  ghost function PresentOf(present: seq<int>, b: nat): (r: seq<int>)
    ensures |r| == CELLS
  {
    if b * CELLS + CELLS <= |present| then present[b * CELLS..b * CELLS + CELLS] else seq(CELLS, _ => 1)
  }

  /** The presence bytes of blobs written one after the other. */
  lemma PresentOfFlat(rows: seq<seq<int>>, b: nat)
    requires Even(rows, CELLS) && b < |rows|
    ensures PresentOf(Flat(rows), b) == rows[b]
  {
    hide Flat;
    FlatRow(rows, CELLS, b);
  }

  lemma {:induction false} MissingGrows(present: seq<int>, n: nat, m: nat)
    requires n <= m <= |present|
    ensures |MissingCells(present, n)| <= |MissingCells(present, m)|
    decreases m
  {
    if n < m {
      MissingGrows(present, n, m - 1);
    }
  }

  /** The words list exactly the missing cells. */
  ghost predicate ListsMissing(words: seq<int>, present: seq<int>)
    requires |present| == CELLS
  {
    ListReady(words) && Listed(words) == MissingCells(present, CELLS)
  }

  lemma ListsReady(missing: seq<int>, present: seq<int>, first: nat, batch: nat)
    requires forall b: nat :: b < batch ==> ListsMissing(Words(missing, b), PresentOf(present, first + b))
    ensures forall b: nat :: b < batch ==> ListReady(Words(missing, b))
  {
    hide ListReady, Words, PresentOf, MissingCells;
    forall b: nat | b < batch ensures ListReady(Words(missing, b)) {
      assert ListsMissing(Words(missing, b), PresentOf(present, first + b));
    }
  }

  lemma PresentSlice(present: seq<int>, b: nat)
    requires b * CELLS + CELLS <= |present|
    ensures PresentOf(present, b) == present[b * CELLS..b * CELLS + CELLS]
  {
  }

  lemma WordsSlice(buf: seq<int>, b: nat)
    requires b * MISSING_WORDS + MISSING_WORDS <= |buf|
    ensures Words(buf, b) == buf[b * MISSING_WORDS..b * MISSING_WORDS + MISSING_WORDS]
  {
  }

  lemma InnerSlice(s: seq<int>, base: nat, width: nat, lo: nat, hi: nat)
    requires lo <= hi <= width && base + width <= |s|
    ensures s[base..base + width][lo..hi] == s[base + lo..base + hi]
  {
    var inner, direct := s[base..base + width][lo..hi], s[base + lo..base + hi];
    assert forall i :: 0 <= i < hi - lo ==> inner[i] == direct[i];
  }

  lemma NoCellYet(present: seq<int>)
    ensures MissingCells(present, 0) == []
  {
  }

  lemma NextCell(present: seq<int>, i: nat)
    requires i < |present|
    ensures MissingCells(present, i + 1)
         == MissingCells(present, i) + if present[i] == 0 then [Brev(i, 7) as int] else []
  {
  }

  /** The host loop over one blob's presence bytes, which start at presentAt; its words start at base. */
  method ListBlob(missing: array<int>, base: nat, present: seq<int>, presentAt: nat) returns (ok: bool)
    requires base + MISSING_WORDS <= missing.Length && presentAt + CELLS <= |present|
    modifies missing
    ensures ok <==> Recoverable(present[presentAt..presentAt + CELLS])
    ensures ok ==> ListsMissing(missing[base..base + MISSING_WORDS], present[presentAt..presentAt + CELLS])
    ensures forall q :: 0 <= q < base || base + MISSING_WORDS <= q < missing.Length ==> missing[q] == old(missing[q])
  {
    hide MissingCells, CellIndices, Brev, Recoverable;
    ghost var bytes := present[presentAt..presentAt + CELLS];
    var count := 0;
    NoCellYet(bytes);
    RecoverableCount(bytes);
    for i := 0 to CELLS
      invariant 0 <= count <= CELL
      invariant missing[base + 1..base + 1 + count] == MissingCells(bytes, i)
      invariant forall q :: 0 <= q < base || base + MISSING_WORDS <= q < missing.Length ==>
        missing[q] == old(missing[q])
    {
      NextCell(bytes, i);
      if present[presentAt + i] == 0 {
        if count >= CELL {
          MissingGrows(bytes, i + 1, CELLS);
          return false;
        }
        var r := BrevCell(i);
        ghost var was := missing[base + 1..base + 1 + count];
        missing[base + 1 + count] := r;
        count := count + 1;
        assert missing[base + 1..base + 1 + count] == was + [r as int];
      }
    }
    missing[base] := count;
    InnerSlice(missing[..], base, MISSING_WORDS, 1, 1 + count);
    assert missing[base..base + MISSING_WORDS] == missing[..][base..base + MISSING_WORDS];
    assert missing[base + 1..base + 1 + count] == missing[..][base + 1..base + 1 + count];
    MissingCellsIndices(bytes);
    ok := true;
  }

  /** Lists blob `blob` of the caller's presence bytes as blob b of the chunk. */
  method ListNext(missing: array<int>, b: nat, present: seq<int>, blob: nat) returns (ok: bool)
    requires 0 <= b * MISSING_WORDS && b * MISSING_WORDS + MISSING_WORDS <= missing.Length
    requires 0 <= blob * CELLS && blob * CELLS + CELLS <= |present|
    modifies missing
    ensures ok <==> Recoverable(PresentOf(present, blob))
    ensures ok ==> ListsMissing(Words(missing[..], b), PresentOf(present, blob))
    ensures forall a: nat :: a < b ==> Words(missing[..], a) == Words(old(missing[..]), a)
  {
    hide Recoverable, ListsMissing;
    ghost var was := missing[..];
    ok := ListBlob(missing, b * MISSING_WORDS, present, blob * CELLS);
    PresentSlice(present, blob);
    OtherWords(was, missing[..], b);
    WordsSlice(missing[..], b);
  }

  lemma MissingCellsIndices(present: seq<int>)
    requires |present| == CELLS && |MissingCells(present, CELLS)| <= CELL
    ensures CellIndices(MissingCells(present, CELLS))
  {
    var m := MissingCells(present, CELLS);
    MissingCellsMembers(present, CELLS);
    assert forall i :: 0 <= i < |m| ==> m[i] in m;
  }

  /** Writing blob b's words leaves the earlier blobs' words alone. */
  lemma OtherWords(was: seq<int>, now: seq<int>, b: nat)
    requires |was| == |now|
    requires forall q :: 0 <= q < b * MISSING_WORDS && q < |was| ==> now[q] == was[q]
    ensures forall a: nat :: a < b ==> Words(now, a) == Words(was, a)
  {
    forall a: nat | a < b ensures Words(now, a) == Words(was, a) {
      MulMono(a + 1, b, MISSING_WORDS);
      MulDistrib(a, 1, MISSING_WORDS);
    }
  }

  lemma SameWords(was: seq<int>, now: seq<int>, batch: nat)
    requires 0 <= batch * MISSING_WORDS <= |was| && batch * MISSING_WORDS <= |now|
    requires forall q :: 0 <= q < batch * MISSING_WORDS ==> now[q] == was[q]
    ensures forall b: nat :: b < batch ==> Words(now, b) == Words(was, b)
  {
    forall b: nat | b < batch ensures Words(now, b) == Words(was, b) {
      MulMono(b + 1, batch, MISSING_WORDS);
      MulDistrib(b, 1, MISSING_WORDS);
      MulNonneg(b, MISSING_WORDS);
      var lo := b * MISSING_WORDS;
      assert now[lo..lo + MISSING_WORDS] == was[lo..lo + MISSING_WORDS];
    }
  }

  lemma ChunkFits(done: nat, batch: nat, numBlobs: nat)
    requires done + batch <= numBlobs
    ensures (done + batch) * EXT_BYTES <= numBlobs * EXT_BYTES && (done + batch) * CELLS <= numBlobs * CELLS
  {
    MulMono(done + batch, numBlobs, EXT_BYTES);
    MulMono(done + batch, numBlobs, CELLS);
  }

  lemma RecoverySizes()
    ensures Sizes(EXT_BLOB, 128, 64, 1)
  {
    Pow2Of7();
    LogOfPow2(7);
    LogOfPow2(6);
  }
}
