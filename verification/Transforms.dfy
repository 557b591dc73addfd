/** The dispatches that make up a transform: one kernel over a grid of workgroups, and the
    two passes of the four-step form. */
module Transforms {
  import opened Layout
  import opened Modular
  import opened Bits
  import opened Sums
  import opened Dft
  import opened FourStep
  import opened Field
  import opened Dispatch
  import opened NttPass
  import opened Flatten

  // ------------------------------------------------------------ one workgroup

  ghost predicate ReadsReady(pc: NttParams, input: seq<int>, t: nat, b: nat, p: int) {
    forall i: nat :: i < pc.n ==> Src(pc, t, b, i) < |input| && Element(input[Src(pc, t, b, i)], p)
  }

  /** No two invocations of the dispatch store to the same slot. */
  ghost predicate StoresDisjoint(pc: NttParams, count: nat, batch: nat, size: nat) {
    && (forall t: nat, b: nat, i: nat :: t < count && b < batch && i < pc.n ==> Dst(pc, t, b, i) < size)
    && (forall t: nat, b: nat, i: nat, t': nat, b': nat, i': nat ::
          t < count && b < batch && i < pc.n && t' < count && b' < batch && i' < pc.n
          ==> (Dst(pc, t, b, i) == Dst(pc, t', b', i') ==> t == t' && b == b' && i == i'))
  }

  /** The value one invocation stores. */
  method Finish(v0: int, roots: array<int>, pc: NttParams, t: nat, i: nat, p: int, ghost w: int, ghost c: int)
    returns (v: int)
    requires p > 0 && Configured(pc, roots[..], w, p)
    requires Element(v0, p) && Cong(v0, c, p)
    ensures v == Res(c * Twiddle(pc, w, t, i) * Scale(pc), p)
  {
    hide Res, Pow;
    v := v0;
    ghost var expected := c;
    if pc.twiddleStride != 0 {
      var e := t * i % pc.fullN;
      TwiddleInTable(pc, t, i);
      var r := roots[e * pc.twiddleStride];
      assert roots[..][e * pc.twiddleStride] == r;
      CongRes(Pow(w, e * pc.twiddleStride), p);
      CongMul(v, expected, r, Twiddle(pc, w, t, i), p);
      v := FrMul(v, r, p);
    }
    expected := c * Twiddle(pc, w, t, i);
    assert Cong(v, expected, p);
    if pc.scale {
      CongMul(v, expected, pc.scaleVal, pc.scaleVal, p);
      v := FrMul(v, pc.scaleVal, p);
    }
    expected := expected * Scale(pc);
    IsResidue(v, expected, p);
  }

  lemma TwiddleInTable(pc: NttParams, t: nat, i: nat)
    requires pc.fullN > 0
    ensures t * i >= 0 && 0 <= t * i % pc.fullN * pc.twiddleStride
    ensures pc.twiddleStride > 0 ==> t * i % pc.fullN * pc.twiddleStride < pc.fullN * pc.twiddleStride
  {
    MulNonneg(t, i);
    var e := t * i % pc.fullN;
    MulNonneg(e, pc.twiddleStride);
    MulMono(e, pc.fullN - 1, pc.twiddleStride);
    MulDistrib(pc.fullN, 1, pc.twiddleStride);
  }

  /** No invocation of workgroup (t, b) stores to slot q. */
  ghost predicate Untouched(pc: NttParams, t: nat, b: nat, q: int) {
    forall i: nat :: i < pc.n ==> q != Dst(pc, t, b, i)
  }

  /** Every invocation stores its tile slot, in any order. */
  method StoreTile(out: array<int>, tile: array<int>, roots: array<int>, pc: NttParams, t: nat, b: nat, p: int,
                   ghost w: int, ghost c: seq<int>)
    requires out != tile && out != roots
    requires p > 0 && Configured(pc, roots[..], w, p) && pc.n <= tile.Length && |c| == pc.n
    requires forall i: nat :: i < pc.n ==> Element(tile[i], p) && Cong(tile[i], c[i], p)
    requires StoresDisjoint(pc, t + 1, b + 1, out.Length)
    modifies out
    ensures forall i: nat :: i < pc.n ==> out[Dst(pc, t, b, i)] == Res(c[i] * Twiddle(pc, w, t, i) * Scale(pc), p)
    ensures forall q :: 0 <= q < out.Length && Untouched(pc, t, b, q) ==> out[q] == old(out[q])
  {
    hide Res, Pow, Dst, Configured, Twiddle, Scale;
    ghost var table := roots[..];
    var pending: set<nat> := Invocations(pc.n);
    while pending != {}
      invariant forall i :: i in pending ==> 0 <= i < pc.n
      invariant roots[..] == table
      invariant forall i: nat :: i < pc.n && i !in pending ==>
        out[Dst(pc, t, b, i)] == Res(c[i] * Twiddle(pc, w, t, i) * Scale(pc), p)
      invariant forall q :: 0 <= q < out.Length && Untouched(pc, t, b, q) ==> out[q] == old(out[q])
      decreases |pending|
    {
      var tid :| tid in pending;
      var v := Finish(tile[tid], roots, pc, t, tid, p, w, c[tid]);
      out[Dst(pc, t, b, tid)] := v;
      pending := pending - {tid};
    }
  }

  /** One workgroup: sub-transform in a tile, then every invocation stores its result. */
  method Workgroup(out: array<int>, input: array<int>, roots: array<int>, pc: NttParams, t: nat, b: nat, p: int,
                   ghost w: int)
    requires out != input && out != roots
    requires p > 0 && Configured(pc, roots[..], w, p)
    requires ReadsReady(pc, input[..], t, b, p)
    requires StoresDisjoint(pc, t + 1, b + 1, out.Length)
    modifies out
    ensures forall i: nat :: i < pc.n ==> out[Dst(pc, t, b, i)] == Res(PassValue(pc, input[..], w, t, b, i), p)
    ensures forall q :: 0 <= q < out.Length && Untouched(pc, t, b, q) ==> out[q] == old(out[q])
  {
    hide Res, Pow, Src, Dst, Strided, PassValue;
    ghost var data := input[..];
    ghost var c := SubTransformValues(pc, data, w, t, b);
    var tile := new int[pc.n];
    SubTransform(tile, input, roots, pc, t, b, p, w);
    StoreTile(out, tile, roots, pc, t, b, p, w, c);
  }

  ghost function SubTransformValues(pc: NttParams, data: seq<int>, w: int, t: nat, b: nat): (c: seq<int>)
    ensures |c| == pc.n
    ensures forall i: nat :: i < pc.n ==>
      && c[i] == Strided(data, Src(pc, t, b, 0), pc.inStrideI, pc.n, Pow(w, pc.rootStride), i)
      && c[i] * Twiddle(pc, w, t, i) * Scale(pc) == PassValue(pc, data, w, t, b, i)
  {
    seq(pc.n, i requires 0 <= i < pc.n =>
      Strided(data, Src(pc, t, b, 0), pc.inStrideI, pc.n, Pow(w, pc.rootStride), i))
  }

  // ------------------------------------------------------------ one dispatch

  /** All workgroups of a dispatch, in any order. */
  method NttDispatch(out: array<int>, input: array<int>, roots: array<int>, pc: NttParams, count: nat, batch: nat,
                     p: int, ghost w: int)
    requires out != input && out != roots
    requires p > 0 && Configured(pc, roots[..], w, p)
    requires forall t: nat, b: nat :: t < count && b < batch ==> ReadsReady(pc, input[..], t, b, p)
    requires StoresDisjoint(pc, count, batch, out.Length)
    modifies out
    ensures forall t: nat, b: nat, i: nat :: t < count && b < batch && i < pc.n ==>
      out[Dst(pc, t, b, i)] == Res(PassValue(pc, input[..], w, t, b, i), p)
  {
    hide Res, Pow, Src, Dst, PassValue, ReadsReady, Configured;
    var pending: set<(nat, nat)> := Grid(count, batch);
    while pending != {}
      invariant forall g :: g in pending ==> 0 <= g.0 < count && 0 <= g.1 < batch
      invariant forall t: nat, b: nat, i: nat :: t < count && b < batch && i < pc.n && (t, b) !in pending ==>
        out[Dst(pc, t, b, i)] == Res(PassValue(pc, input[..], w, t, b, i), p)
      decreases |pending|
    {
      var g :| g in pending;
      Workgroup(out, input, roots, pc, g.0, g.1, p, w);
      pending := pending - {g};
    }
  }

  // ------------------------------------------------------------ the two passes

  /** First pass of an N = N1 * N2 transform over a table of EXT_BLOB roots. */
  function NttPass1(n: nat, n1: nat, n2: nat, inBatch: nat, outBatch: nat): NttParams
    requires n > 0 && n1 > 0
  {
    NttParams(n := n1, logN := CeilLog2(n1),
              inStrideT := 1, inStrideI := n2, outStrideT := 1, outStrideI := n2,
              rootStride := EXT_BLOB / n1, twiddleStride := EXT_BLOB / n, fullN := n,
              inBatch := inBatch, outBatch := outBatch, scale := false, scaleVal := 0)
  }

  function NttPass2(n: nat, n1: nat, n2: nat, inBatch: nat, outBatch: nat): NttParams
    requires n2 > 0
  {
    NttParams(n := n2, logN := CeilLog2(n2),
              inStrideT := n2, inStrideI := 1, outStrideT := 1, outStrideI := n1,
              rootStride := EXT_BLOB / n2, twiddleStride := 0, fullN := n,
              inBatch := inBatch, outBatch := outBatch, scale := false, scaleVal := 0)
  }

  /** The sizes of a transform: N1 and N2 are powers of two and N divides the table size. */
  ghost predicate Sizes(n: nat, n1: nat, n2: nat, ratio: nat) {
    && ratio > 0
    && n1 == Pow2(CeilLog2(n1)) && n2 == Pow2(CeilLog2(n2))
    && n == n1 * n2 && n * ratio == EXT_BLOB
  }

  lemma SizesDivide(n: nat, n1: nat, n2: nat, ratio: nat)
    requires Sizes(n, n1, n2, ratio)
    ensures n1 > 0 && n2 > 0 && n > 0
    ensures EXT_BLOB / n == ratio && EXT_BLOB / n1 == n2 * ratio && EXT_BLOB / n2 == n1 * ratio
    ensures n1 * (n2 * ratio) == EXT_BLOB && n2 * (n1 * ratio) == EXT_BLOB
  {
    MulMono(1, n1, n2);
    MulAssoc(n1, n2, ratio);
    MulLeftSwap(n1, n2, ratio);
    DivModUnique(EXT_BLOB, n, ratio, 0);
    DivModUnique(EXT_BLOB, n1, n2 * ratio, 0);
    DivModUnique(EXT_BLOB, n2, n1 * ratio, 0);
  }

  /** b * size + (t + i * width) determines b, t and i when t < width and the block fits. */
  lemma IndexUnique(b: nat, t: nat, i: nat, b': nat, t': nat, i': nat, width: nat, height: nat, size: nat)
    requires t < width && t' < width && i < height && i' < height && width * height <= size
    requires b * size + (t + i * width) == b' * size + (t' + i' * width)
    ensures b == b' && t == t' && i == i'
  {
    IndexInBlock(t, i, width, height);
    IndexInBlock(t', i', width, height);
    DivModUnique(b * size + (t + i * width), size, b, t + i * width);
    DivModUnique(b' * size + (t' + i' * width), size, b', t' + i' * width);
    DivModUnique(t + i * width, width, i, t);
    DivModUnique(t' + i' * width, width, i', t');
  }

  lemma IndexInBlock(t: nat, i: nat, width: nat, height: nat)
    requires t < width && i < height
    ensures 0 <= t + i * width < width * height
  {
    MulNonneg(i, width);
    MulMono(i + 1, height, width);
    MulDistrib(i, 1, width);
  }

  lemma BlockInRange(b: nat, batch: nat, size: nat, q: nat)
    requires b < batch && q < size
    ensures 0 <= b * size + q < batch * size
  {
    MulNonneg(b, size);
    MulMono(b + 1, batch, size);
    MulDistrib(b, 1, size);
  }

  /** Both passes store to slot t + i * count of their blob. */
  lemma PassStoresDisjoint(pc: NttParams, count: nat, batch: nat, size: nat)
    requires pc.outStrideT == 1 && pc.outStrideI == count
    requires count * pc.n <= pc.outBatch && batch * pc.outBatch <= size
    ensures StoresDisjoint(pc, count, batch, size)
  {
    forall t: nat, b: nat, i: nat | t < count && b < batch && i < pc.n ensures Dst(pc, t, b, i) < size {
      IndexInBlock(t, i, count, pc.n);
      BlockInRange(b, batch, pc.outBatch, t + i * count);
    }
    forall t: nat, b: nat, i: nat, t': nat, b': nat, i': nat |
      t < count && b < batch && i < pc.n && t' < count && b' < batch && i' < pc.n
      && Dst(pc, t, b, i) == Dst(pc, t', b', i')
      ensures t == t' && b == b' && i == i'
    {
      IndexUnique(b, t, i, b', t', i', count, pc.n, pc.outBatch);
    }
  }

  /** The buffer holds batch blobs of `size` slots, of which the first n are used. */
  ghost predicate Sized(s: seq<int>, size: nat, n: nat, batch: nat) {
    n <= size && batch * size <= |s|
  }

  /** Slots b * size .. b * size + n of a buffer. */
  ghost function Blob(s: seq<int>, b: nat, size: nat, n: nat): (r: seq<int>)
    ensures |r| == n
  {
    if 0 <= b * size && b * size + n <= |s| then s[b * size..b * size + n] else seq(n, _ => 0)
  }

  /** The blobs of a buffer written one after the other. */
  lemma BlobOfFlat(blobs: seq<seq<int>>, b: nat, size: nat)
    requires Even(blobs, size) && b < |blobs|
    ensures Blob(Flat(blobs), b, size, size) == blobs[b]
  {
    hide Flat;
    FlatRow(blobs, size, b);
  }

  lemma BlobFits(s: seq<int>, b: nat, size: nat, n: nat, batch: nat)
    requires b < batch && Sized(s, size, n, batch)
    ensures 0 <= b * size && b * size + n <= |s| && Blob(s, b, size, n) == s[b * size..b * size + n]
    ensures forall i :: 0 <= i < n ==> Blob(s, b, size, n)[i] == s[b * size + i]
  {
    MulNonneg(b, size);
    MulMono(b + 1, batch, size);
    MulDistrib(b, 1, size);
  }

  lemma StridedInBlob(s: seq<int>, b: nat, size: nat, n: nat, off: nat, stride: nat, m: nat, w: int, k: int)
    requires 0 <= b * size && b * size + n <= |s|
    requires forall j: nat :: j < m ==> 0 <= off + stride * j < n
    ensures Strided(s, b * size + off, stride, m, w, k) == Strided(Blob(s, b, size, n), off, stride, m, w, k)
  {
    var r := Blob(s, b, size, n);
    forall j | 0 <= j < m
      ensures Term(s, b * size + off, stride, w, k, j) == Term(r, off, stride, w, k, j)
    {
      assert At(s, b * size + (off + stride * j)) == At(r, off + stride * j);
    }
    hide Term;
    SumEq(m, j => Term(s, b * size + off, stride, w, k, j), j => Term(r, off, stride, w, k, j));
  }

  ghost predicate Elements(s: seq<int>, p: int) {
    forall i :: 0 <= i < |s| ==> Element(s[i], p)
  }

  lemma PassesConfigured(n: nat, n1: nat, n2: nat, ratio: nat, inBatch: nat, midBatch: nat, outBatch: nat,
                         roots: seq<int>, w: int, p: int)
    requires Sizes(n, n1, n2, ratio) && n > 0 && n1 > 0 && n2 > 0
    requires PrimitiveRoot(w, EXT_BLOB, p) && TableOf(roots, w, EXT_BLOB, p)
    ensures Configured(NttPass1(n, n1, n2, inBatch, midBatch), roots, w, p)
    ensures Configured(NttPass2(n, n1, n2, midBatch, outBatch), roots, w, p)
  {
    hide Res, Pow;
    SizesDivide(n, n1, n2, ratio);
    MulMono(1, n2, ratio);
    MulMono(1, n1, ratio);
  }

  /** Pass 1 computes the twiddled column transforms of the four-step form. */
  lemma PassOneMeaning(n: nat, n1: nat, n2: nat, ratio: nat, inBatch: nat, midBatch: nat, data: seq<int>, w: int,
                       t: nat, b: nat, i: nat, p: int)
    requires Sizes(n, n1, n2, ratio) && n > 0 && n1 > 0 && PrimitiveRoot(w, EXT_BLOB, p)
    requires t < n2 && i < n1 && 0 <= b * inBatch && b * inBatch + n <= |data|
    ensures Cong(PassValue(NttPass1(n, n1, n2, inBatch, midBatch), data, w, t, b, i),
                 PassOneValue(Blob(data, b, inBatch, n), n1, n2, Pow(w, ratio), t, i), p)
  {
    hide Res, Pow, Strided;
    var pc := NttPass1(n, n1, n2, inBatch, midBatch);
    var x := Blob(data, b, inBatch, n);
    var u := Pow(w, ratio);
    SizesDivide(n, n1, n2, ratio);
    MulNonneg(t, i);
    assert Src(pc, t, b, 0) == b * inBatch + t;
    forall j: nat | j < n1 ensures 0 <= t + n2 * j < n {
      IndexInBlock(t, j, n2, n1);
      assert n2 * n1 == n1 * n2 && j * n2 == n2 * j;
    }
    StridedInBlob(data, b, inBatch, n, t, n2, n1, Pow(w, pc.rootStride), i);
    RootPower(w, ratio, n2, n1);
    assert Cong(Twiddle(pc, w, t, i), Pow(u, t * i), p) by {
      var e := t * i % n;
      DivNonneg(t * i, n);
      PowPow(w, ratio, e);
      assert e * ratio == ratio * e;
      assert ratio * n == n * ratio;
      PowPow(w, ratio, n);
      PowModOrder(u, n, t * i, p);
    }
    var c := Strided(x, t, n2, n1, Pow(u, n2), i);
    CongMul(c, c, Twiddle(pc, w, t, i), Pow(u, t * i), p);
    assert c * Twiddle(pc, w, t, i) * 1 == c * Twiddle(pc, w, t, i);
  }

  lemma RootPower(w: int, ratio: nat, n1: nat, n2: nat)
    ensures n1 * ratio >= 0 && Pow(w, n1 * ratio) == Pow(Pow(w, ratio), n1)
    ensures n1 * n2 >= 0 && n1 * n2 * ratio >= 0 && Pow(w, n1 * n2 * ratio) == Pow(Pow(w, ratio), n1 * n2)
  {
    hide Pow;
    PowPow(w, ratio, n1);
    assert ratio * n1 == n1 * ratio;
    MulNonneg(n1, n2);
    PowPow(w, ratio, n1 * n2);
    assert ratio * (n1 * n2) == n1 * n2 * ratio;
  }

  lemma RowInBlob(n: nat, n1: nat, n2: nat, size: nat, mid: seq<int>, u: int, t: nat, b: nat, i: nat)
    requires n == n1 * n2 && t < n1 && 0 <= b * size && b * size + n <= |mid|
    ensures Strided(mid, b * size + n2 * t, 1, n2, u, i) == Strided(Blob(mid, b, size, n), n2 * t, 1, n2, u, i)
  {
    hide Strided;
    forall j: nat | j < n2 ensures 0 <= n2 * t + 1 * j < n {
      IndexInBlock(j, t, n2, n1);
      assert n2 * n1 == n1 * n2 && t * n2 == n2 * t;
    }
    MulNonneg(n2, t);
    StridedInBlob(mid, b, size, n, n2 * t, 1, n2, u, i);
  }

  /** Pass 2 over pass 1's output computes the transform, in natural order, times the scale. */
  lemma PassTwoMeaning(n: nat, n1: nat, n2: nat, ratio: nat, midBatch: nat, outBatch: nat, scale: bool, scaleVal: int,
                       x: seq<int>, mid: seq<int>, w: int, t: nat, b: nat, i: nat, p: int)
    requires Sizes(n, n1, n2, ratio) && n > 0 && n2 > 0 && PrimitiveRoot(w, EXT_BLOB, p)
    requires t < n1 && i < n2 && 0 <= b * midBatch && b * midBatch + n <= |mid|
    requires forall j :: 0 <= j < n2 ==>
      At(Blob(mid, b, midBatch, n), n2 * t + j) == Res(PassOneValue(x, n1, n2, Pow(w, ratio), j, t), p)
    ensures var pc := NttPass2(n, n1, n2, midBatch, outBatch).(scale := scale, scaleVal := scaleVal);
      Cong(PassValue(pc, mid, w, t, b, i), Transform(x, n, Pow(w, ratio), t + n1 * i) * Scale(pc), p)
  {
    hide Res, Pow, Strided, PassOneValue, Blob, Transform;
    var pc := NttPass2(n, n1, n2, midBatch, outBatch).(scale := scale, scaleVal := scaleVal);
    var u := Pow(w, ratio);
    var m := Blob(mid, b, midBatch, n);
    var c := Strided(m, n2 * t, 1, n2, Pow(u, n1), i);
    assert PassValue(pc, mid, w, t, b, i) == c * 1 * Scale(pc) by {
      SizesDivide(n, n1, n2, ratio);
      RootPower(w, ratio, n1, n2);
      assert Src(pc, t, b, 0) == b * midBatch + n2 * t;
      RowInBlob(n, n1, n2, midBatch, mid, Pow(u, n1), t, b, i);
    }
    assert Cong(Pow(u, n1 * n2), 1, p) by {
      RootPower(w, ratio, n1, n2);
    }
    hide PassValue, Sizes, NttPass2;
    forall j | 0 <= j < n2 ensures Cong(At(m, n2 * t + j), PassOneValue(x, n1, n2, u, j, t), p) {
      CongRes(PassOneValue(x, n1, n2, u, j, t), p);
    }
    FourStepCorrect(x, m, n1, n2, u, t, i, p);
    CongMul(c, Transform(x, n, u, t + n1 * i), Scale(pc), Scale(pc), p);
  }

  /** The whole transform of a blob, scaled, as residues in natural order. */
  ghost function TransformBlob(x: seq<int>, n: nat, w: int, c: int, p: int): (y: seq<int>)
    requires p > 0
    ensures |y| == n && forall k :: 0 <= k < n ==> y[k] == Res(Transform(x, n, w, k) * c, p)
  {
    seq(n, k requires 0 <= k < n => Res(Transform(x, n, w, k) * c, p))
  }

  /** A transformed blob holds residues. */
  lemma TransformElements(x: seq<int>, n: nat, w: int, c: int, p: int)
    requires p > 0
    ensures Elements(TransformBlob(x, n, w, c, p), p)
  {
    forall k | 0 <= k < n ensures Element(TransformBlob(x, n, w, c, p)[k], p) {
      ResRange(Transform(x, n, w, k) * c, p);
    }
  }

  lemma PassOneReads(n: nat, n1: nat, n2: nat, inBatch: nat, midBatch: nat, batch: nat, data: seq<int>, p: int)
    requires n > 0 && n1 > 0 && n == n1 * n2 && Sized(data, inBatch, n, batch)
    requires forall b: nat :: b < batch ==> Elements(Blob(data, b, inBatch, n), p)
    ensures forall t: nat, b: nat :: t < n2 && b < batch ==>
      ReadsReady(NttPass1(n, n1, n2, inBatch, midBatch), data, t, b, p)
  {
    var pc := NttPass1(n, n1, n2, inBatch, midBatch);
    forall t: nat, b: nat, i: nat | t < n2 && b < batch && i < n1
      ensures Src(pc, t, b, i) < |data| && Element(data[Src(pc, t, b, i)], p)
    {
      BlobFits(data, b, inBatch, n, batch);
      IndexInBlock(t, i, n2, n1);
      assert n2 * n1 == n1 * n2;
      assert Src(pc, t, b, i) == b * inBatch + (t + i * n2);
      assert Element(Blob(data, b, inBatch, n)[t + i * n2], p);
    }
  }

  /** Slot j + t * n2 of every blob of the handoff buffer holds pass 1's value (j, t). */
  ghost predicate Handoff(held: seq<int>, data: seq<int>, n: nat, n1: nat, n2: nat, inBatch: nat, midBatch: nat,
                          batch: nat, u: int, p: int)
    requires p > 0
  {
    forall b: nat, j: nat, t: nat :: b < batch && j < n2 && t < n1 ==>
      At(Blob(held, b, midBatch, n), n2 * t + j) == Res(PassOneValue(Blob(data, b, inBatch, n), n1, n2, u, j, t), p)
  }

  lemma PassTwoReads(n: nat, n1: nat, n2: nat, pc: NttParams, batch: nat, held: seq<int>, data: seq<int>,
                     inBatch: nat, u: int, p: int)
    requires p > 0 && pc.n == n2 && pc.inStrideT == n2 && pc.inStrideI == 1 && n == n1 * n2
    requires Sized(held, pc.inBatch, n, batch) && Handoff(held, data, n, n1, n2, inBatch, pc.inBatch, batch, u, p)
    ensures forall t: nat, b: nat :: t < n1 && b < batch ==> ReadsReady(pc, held, t, b, p)
  {
    hide Res, PassOneValue;
    forall t: nat, b: nat, i: nat | t < n1 && b < batch && i < n2
      ensures Src(pc, t, b, i) < |held| && Element(held[Src(pc, t, b, i)], p)
    {
      BlobFits(held, b, pc.inBatch, n, batch);
      IndexInBlock(i, t, n2, n1);
      assert n2 * n1 == n1 * n2 && t * n2 == n2 * t;
      assert Src(pc, t, b, i) == b * pc.inBatch + (n2 * t + i);
      CongRes(PassOneValue(Blob(data, b, inBatch, n), n1, n2, u, i, t), p);
      assert At(Blob(held, b, pc.inBatch, n), n2 * t + i) == held[Src(pc, t, b, i)];
    }
  }

  /** The first dispatch: column transforms into the handoff buffer. */
  method PassOne(mid: array<int>, input: array<int>, roots: array<int>, n: nat, n1: nat, n2: nat, inBatch: nat,
                 midBatch: nat, batch: nat, p: int, ghost ratio: nat, ghost w: int)
    requires mid != input && mid != roots
    requires Sizes(n, n1, n2, ratio) && n > 0 && n1 > 0 && n2 > 0
    requires p > 0 && PrimitiveRoot(w, EXT_BLOB, p) && TableOf(roots[..], w, EXT_BLOB, p)
    requires Sized(input[..], inBatch, n, batch) && Sized(mid[..], midBatch, n, batch)
    requires forall b: nat :: b < batch ==> Elements(Blob(input[..], b, inBatch, n), p)
    modifies mid
    ensures Handoff(mid[..], input[..], n, n1, n2, inBatch, midBatch, batch, Pow(w, ratio), p)
  {
    hide Res, Pow, Strided, PassOneValue, Configured, TableOf, PrimitiveRoot, PassValue, Elements;
    ghost var data := input[..];
    var pc := NttPass1(n, n1, n2, inBatch, midBatch);
    PassesConfigured(n, n1, n2, ratio, inBatch, midBatch, midBatch, roots[..], w, p);
    PassOneReads(n, n1, n2, inBatch, midBatch, batch, data, p);
    assert n2 * n1 == n1 * n2;
    PassStoresDisjoint(pc, n2, batch, mid.Length);
    NttDispatch(mid, input, roots, pc, n2, batch, p, w);
    forall b: nat, j: nat, t: nat | b < batch && j < n2 && t < n1
      ensures At(Blob(mid[..], b, midBatch, n), n2 * t + j)
           == Res(PassOneValue(Blob(data, b, inBatch, n), n1, n2, Pow(w, ratio), j, t), p)
    {
      BlobFits(mid[..], b, midBatch, n, batch);
      BlobFits(data, b, inBatch, n, batch);
      IndexInBlock(j, t, n2, n1);
      assert t * n2 == n2 * t;
      assert Dst(pc, j, b, t) == b * midBatch + (n2 * t + j);
      PassOneMeaning(n, n1, n2, ratio, inBatch, midBatch, data, w, j, b, t, p);
    }
  }

  /** The second dispatch: row transforms, stored so that the output is in natural order. */
  method PassTwo(out: array<int>, mid: array<int>, roots: array<int>, n: nat, n1: nat, n2: nat, midBatch: nat,
                 outBatch: nat, scale: bool, scaleVal: int, batch: nat, p: int, ghost ratio: nat, ghost w: int,
                 ghost data: seq<int>, ghost inBatch: nat)
    requires out != mid && out != roots
    requires Sizes(n, n1, n2, ratio) && n > 0 && n1 > 0 && n2 > 0
    requires p > 0 && PrimitiveRoot(w, EXT_BLOB, p) && TableOf(roots[..], w, EXT_BLOB, p)
    requires Sized(mid[..], midBatch, n, batch) && Sized(out[..], outBatch, n, batch)
    requires Handoff(mid[..], data, n, n1, n2, inBatch, midBatch, batch, Pow(w, ratio), p)
    modifies out
    ensures forall b: nat :: b < batch ==>
      Blob(out[..], b, outBatch, n)
      == TransformBlob(Blob(data, b, inBatch, n), n, Pow(w, ratio), if scale then scaleVal else 1, p)
  {
    hide Res, Pow, Strided, PassOneValue, Configured, TableOf, PrimitiveRoot, PassValue, Elements;
    ghost var held := mid[..];
    var pc := NttPass2(n, n1, n2, midBatch, outBatch).(scale := scale, scaleVal := scaleVal);
    assert Configured(pc, roots[..], w, p) by {
      PassesConfigured(n, n1, n2, ratio, midBatch, midBatch, outBatch, roots[..], w, p);
      ScaledConfigured(NttPass2(n, n1, n2, midBatch, outBatch), scale, scaleVal, roots[..], w, p);
    }
    PassTwoReads(n, n1, n2, pc, batch, held, data, inBatch, Pow(w, ratio), p);
    PassStoresDisjoint(pc, n1, batch, out.Length);
    NttDispatch(out, mid, roots, pc, n1, batch, p, w);
    forall b: nat, k: nat | b < batch && k < n
      ensures Blob(out[..], b, outBatch, n)[k]
           == Res(Transform(Blob(data, b, inBatch, n), n, Pow(w, ratio), k) * Scale(pc), p)
    {
      BlobFits(out[..], b, outBatch, n, batch);
      BlobFits(held, b, midBatch, n, batch);
      var i, t := SplitIndex(k, n1, n2);
      PassTwoMeaning(n, n1, n2, ratio, midBatch, outBatch, scale, scaleVal,
                     Blob(data, b, inBatch, n), held, w, t, b, i, p);
      assert n1 * i == i * n1;
      assert Dst(pc, t, b, i) == b * outBatch + k;
    }
  }

  /** Two dispatches, with mid handing pass 1's output to pass 2. Every blob of out receives
      the transform of the same blob of input, in natural order, whatever mid and out held before. */
  method FourStepTransform(out: array<int>, mid: array<int>, input: array<int>, roots: array<int>, n: nat, n1: nat,
                           n2: nat, inBatch: nat, midBatch: nat, outBatch: nat, scale: bool, scaleVal: int,
                           batch: nat, p: int, ghost ratio: nat, ghost w: int)
    requires mid != input && mid != out && mid != roots && out != roots
    requires Sizes(n, n1, n2, ratio) && n > 0 && n1 > 0 && n2 > 0
    requires p > 0 && PrimitiveRoot(w, EXT_BLOB, p) && TableOf(roots[..], w, EXT_BLOB, p)
    requires Sized(input[..], inBatch, n, batch) && Sized(mid[..], midBatch, n, batch)
    requires Sized(out[..], outBatch, n, batch)
    requires forall b: nat :: b < batch ==> Elements(Blob(input[..], b, inBatch, n), p)
    modifies mid, out
    ensures forall b: nat :: b < batch ==>
      Blob(out[..], b, outBatch, n)
      == TransformBlob(Blob(old(input[..]), b, inBatch, n), n, Pow(w, ratio), if scale then scaleVal else 1, p)
  {
    hide PrimitiveRoot, TableOf, Sizes, Blob, Elements, Handoff, TransformBlob;
    ghost var data := input[..];
    PassOne(mid, input, roots, n, n1, n2, inBatch, midBatch, batch, p, ratio, w);
    PassTwo(out, mid, roots, n, n1, n2, midBatch, outBatch, scale, scaleVal, batch, p, ratio, w, data, inBatch);
  }

  lemma SplitIndex(k: nat, n1: nat, n2: nat) returns (i: nat, t: nat)
    requires n1 > 0 && k < n1 * n2
    ensures t < n1 && i < n2 && k == t + i * n1
  {
    DivNonneg(k, n1);
    i, t := k / n1, k % n1;
    if i >= n2 {
      MulMono(n2, i, n1);
    }
  }

  lemma ScaledConfigured(pc: NttParams, scale: bool, scaleVal: int, roots: seq<int>, w: int, p: int)
    requires p > 0 && Configured(pc, roots, w, p)
    ensures Configured(pc.(scale := scale, scaleVal := scaleVal), roots, w, p)
  {
  }
}
