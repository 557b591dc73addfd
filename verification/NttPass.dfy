/** One pass of the transform: a workgroup holds one sub-transform in a shared tile and runs
    radix-2 stages in place. Threads between two barriers run in an arbitrary order: each
    loop below takes any thread that has not run yet. */
module NttPass {
  import opened Modular
  import opened Sums
  import opened Bits
  import opened Dft
  import opened Field
  import opened Dispatch

  /** The push-constant block. */
  datatype NttParams = NttParams(
    n: nat, logN: nat,
    inStrideT: nat, inStrideI: nat, outStrideT: nat, outStrideI: nat,
    rootStride: nat, twiddleStride: nat, fullN: nat,
    inBatch: nat, outBatch: nat,
    scale: bool, scaleVal: int)

  // ------------------------------------------------------------ butterfly slots

  /** The two slots of thread tid when half-blocks have h slots. */
  function Lo(tid: nat, h: nat): nat
    requires h > 0
  {
    tid + tid / h * h
  }

  function Hi(tid: nat, h: nat): nat
    requires h > 0
  {
    Lo(tid, h) + h
  }

  lemma SlotShape(tid: nat, h: nat) returns (blk: nat, j: nat)
    requires h > 0
    ensures blk == tid / h && j < h && tid == blk * h + j
    ensures Lo(tid, h) == 2 * blk * h + j && Hi(tid, h) == (2 * blk + 1) * h + j
  {
    blk, j := tid / h, tid % h;
    MulAssoc(2, blk, h);
    MulDistrib(2 * blk, 1, h);
  }

  lemma SlotsDistinct(t: nat, u: nat, h: nat)
    requires h > 0 && t != u
    ensures Lo(t, h) != Lo(u, h) && Hi(t, h) != Hi(u, h) && Lo(t, h) != Hi(u, h) && Hi(t, h) != Lo(u, h)
  {
    hide Lo, Hi;
    var b, j := SlotShape(t, h);
    var c, i := SlotShape(u, h);
    DivModUnique(Lo(t, h), h, 2 * b, j);
    DivModUnique(Hi(t, h), h, 2 * b + 1, j);
    DivModUnique(Lo(u, h), h, 2 * c, i);
    DivModUnique(Hi(u, h), h, 2 * c + 1, i);
  }

  lemma OthersDistinct(u: nat, h: nat)
    requires h > 0
    ensures forall t: nat :: t != u ==>
      Lo(t, h) != Lo(u, h) && Hi(t, h) != Hi(u, h) && Lo(t, h) != Hi(u, h) && Hi(t, h) != Lo(u, h)
  {
    forall t: nat | t != u
      ensures Lo(t, h) != Lo(u, h) && Hi(t, h) != Hi(u, h) && Lo(t, h) != Hi(u, h) && Hi(t, h) != Lo(u, h)
    {
      SlotsDistinct(t, u, h);
    }
  }

  lemma SlotsInRange(tid: nat, h: nat, blocks: nat)
    requires h > 0 && tid < blocks * h
    ensures tid / h < blocks && Hi(tid, h) < 2 * blocks * h
  {
    var b, j := SlotShape(tid, h);
    if b >= blocks {
      MulMono(blocks, b, h);
    }
    MulMono(2 * b + 2, 2 * blocks, h);
    MulDistrib(2 * b + 1, 1, h);
  }

  /** Every slot belongs to a thread. */
  lemma SlotOwner(q: nat, h: nat, blocks: nat) returns (tid: nat)
    requires h > 0 && q < 2 * blocks * h
    ensures tid < blocks * h && (q == Lo(tid, h) || q == Hi(tid, h))
  {
    hide Lo;
    DivNonneg(q, h);
    var c, j := q / h, q % h;
    var b := c / 2;
    if c >= 2 * blocks {
      MulMono(2 * blocks, c, h);
    }
    MulMono(b + 1, blocks, h);
    MulDistrib(b, 1, h);
    MulNonneg(b, h);
    tid := b * h + j;
    DivModUnique(tid, h, b, j);
    var b', j' := SlotShape(tid, h);
    assert c == 2 * b || c == 2 * b + 1;
  }

  /** The slot indices as the kernel computes them. */
  lemma SlotAddresses(tid: nat, h: nat)
    requires h > 0
    ensures tid / h >= 0 && tid - tid / h * h == tid % h >= 0
    ensures tid / h * (2 * h) + (tid - tid / h * h) == Lo(tid, h)
    ensures tid / h * (2 * h) + (tid - tid / h * h) + h == Hi(tid, h)
  {
    DivNonneg(tid, h);
    MulLeftSwap(tid / h, 2, h);
  }

  // ------------------------------------------------------------ stages

  /** What slot q holds after s stages over the bit-reversed input x of 2^k elements. */
  function StageValue(x: seq<int>, k: nat, s: nat, w: int, q: nat): int
    requires s <= k
  {
    DivNonneg(q, Pow2(s));
    Strided(x, Brev(q / Pow2(s), k - s), Pow2(k - s), Pow2(s), Pow(w, Pow2(k - s)), q % Pow2(s))
  }

  lemma StageZero(x: seq<int>, k: nat, w: int, q: nat)
    requires q < Pow2(k)
    ensures StageValue(x, k, 0, w, q) == At(x, Brev(q, k))
  {
    var off, u := Brev(q, k), Pow(w, Pow2(k));
    assert Pow2(0) == 1 && q / 1 == q && q % 1 == 0;
    StridedOne(x, off, Pow2(k), u);
  }

  lemma StridedOne(x: seq<int>, off: int, stride: int, u: int)
    ensures Strided(x, off, stride, 1, u, 0) == At(x, off)
  {
    assert Pow(u, 0) == 1;
    assert Term(x, off, stride, u, 0, 0) == At(x, off);
  }

  lemma StageLast(x: seq<int>, k: nat, w: int, q: nat)
    requires q < Pow2(k)
    ensures StageValue(x, k, k, w, q) == Transform(x, Pow2(k), w, q)
  {
    DivModUnique(q, Pow2(k), 0, q);
    assert Pow2(0) == 1 && Pow(w, 1) == w * Pow(w, 0) == w;
  }

  /** One butterfly takes both of its slots from stage s to stage s + 1. */
  lemma ButterflyStep(x: seq<int>, k: nat, s: nat, w: int, tid: nat, a: int, c: int, root: int, p: int)
    requires s < k && PrimitiveRoot(w, Pow2(k), p)
    requires tid < Pow2(k - s - 1) * Pow2(s)
    requires Cong(a, StageValue(x, k, s, w, Lo(tid, Pow2(s))), p)
    requires Cong(c, StageValue(x, k, s, w, Hi(tid, Pow2(s))), p)
    requires Cong(root, Pow(Pow(w, Pow2(k - s - 1)), tid % Pow2(s)), p)
    ensures Cong(a + c * root, StageValue(x, k, s + 1, w, Lo(tid, Pow2(s))), p)
    ensures Cong(a - c * root, StageValue(x, k, s + 1, w, Hi(tid, Pow2(s))), p)
  {
    hide Res, Pow, Strided;
    var h, st := Pow2(s), Pow2(k - s - 1);
    var b, j := SlotShape(tid, h);
    var u := Pow(w, st);
    DivModUnique(tid, h, b, j);
    DivModUnique(Lo(tid, h), h, 2 * b, j);
    DivModUnique(Hi(tid, h), h, 2 * b + 1, j);
    SlotsNextStage(tid, h, b, j);
    assert Pow2(s + 1) == 2 * h && Pow2(k - s) == 2 * st;
    PowAdd(w, st, st);
    var off := Brev(b, k - s - 1);
    assert Brev(2 * b, k - s) == off && Brev(2 * b + 1, k - s) == st + off by {
      assert 2 * b / 2 == b && (2 * b + 1) / 2 == b;
    }
    var e, o := Strided(x, off, 2 * st, h, u * u, j), Strided(x, off + st, 2 * st, h, u * u, j);
    Decimate(x, off, st, h, u, j);
    Pow2Add(k - s - 1, s + 1);
    SubRoot(w, Pow2(k), st, 2 * h, p);
    HalfTurn(u, h, p);
    DecimateHigh(x, off, st, h, u, j, p);
    CongMul(root, Pow(u, j), c, o, p);
    assert c * root == root * c;
    CongAdd(a, e, c * root, Pow(u, j) * o, p);
    CongSub(a, e, c * root, Pow(u, j) * o, p);
  }

  lemma SlotsNextStage(tid: nat, h: nat, b: nat, j: nat)
    requires h > 0 && j < h && Lo(tid, h) == 2 * b * h + j && Hi(tid, h) == (2 * b + 1) * h + j
    ensures Lo(tid, h) / (2 * h) == b && Lo(tid, h) % (2 * h) == j
    ensures Hi(tid, h) / (2 * h) == b && Hi(tid, h) % (2 * h) == j + h
  {
    MulAssoc(2, b, h);
    MulLeftSwap(2, b, h);
    MulDistrib(2 * b, 1, h);
    DivModUnique(Lo(tid, h), 2 * h, b, j);
    DivModUnique(Hi(tid, h), 2 * h, b, j + h);
  }

  /** The root a thread loads in the stage with half-blocks of h slots. */
  function RootIndex(tid: nat, h: nat, step: nat, rootStride: nat): nat
    requires h > 0
  {
    SlotAddresses(tid, h);
    MulNonneg(tid % h, step);
    MulNonneg(tid % h * step, rootStride);
    (tid - tid / h * h) * step * rootStride
  }

  /** One thread's butterfly. */
  method Butterfly(tile: array<int>, roots: array<int>, tid: nat, len: nat, step: nat, rootStride: nat, p: int)
    requires p > 0 && tile != roots && len > 0 && len % 2 == 0
    requires Hi(tid, len / 2) < tile.Length && RootIndex(tid, len / 2, step, rootStride) < roots.Length
    modifies tile
    ensures var h := len / 2;
      var c := FrMul(old(tile[Hi(tid, h)]), roots[RootIndex(tid, h, step, rootStride)], p);
      && tile[Lo(tid, h)] == FrAdd(old(tile[Lo(tid, h)]), c, p)
      && tile[Hi(tid, h)] == FrSub(old(tile[Lo(tid, h)]), c, p)
    ensures forall q :: 0 <= q < tile.Length && q != Lo(tid, len / 2) && q != Hi(tid, len / 2) ==>
      tile[q] == old(tile[q])
  {
    hide Lo, RootIndex, FrAdd, FrSub, FrMul;
    var hlen := len / 2;
    SlotAddresses(tid, hlen);
    RootAddress(tid, hlen, step, rootStride);
    var blk := tid / hlen;
    var j := tid - blk * hlen;
    var base := blk * len;
    var w := roots[j * step * rootStride];
    var a := tile[base + j];
    var c := tile[base + j + hlen];
    c := FrMul(c, w, p);
    var s := FrAdd(a, c, p);
    var d := FrSub(a, c, p);
    tile[base + j] := s;
    tile[base + j + hlen] := d;
  }

  /** One stage: every thread below n / 2 runs one butterfly, in any order. */
  method Stage(tile: array<int>, roots: array<int>, n: nat, len: nat, rootStride: nat, p: int, ghost blocks: nat)
    requires p > 0 && tile != roots && n <= tile.Length
    requires len > 0 && len % 2 == 0 && n == blocks * len
    requires n * rootStride <= roots.Length
    requires rootStride > 0
    modifies tile
    ensures forall t: nat :: t < n / 2 ==>
      && Lo(t, len / 2) < Hi(t, len / 2) < n && RootIndex(t, len / 2, blocks, rootStride) < roots.Length
      && var c := FrMul(old(tile[Hi(t, len / 2)]), roots[RootIndex(t, len / 2, blocks, rootStride)], p);
      && tile[Lo(t, len / 2)] == FrAdd(old(tile[Lo(t, len / 2)]), c, p)
      && tile[Hi(t, len / 2)] == FrSub(old(tile[Lo(t, len / 2)]), c, p)
  {
    hide Lo, Hi, RootIndex, FrAdd, FrSub, FrMul;
    var hlen := len / 2;
    var step := n / len;
    StageThreads(n, len, blocks, rootStride);
    var pending: set<nat> := Invocations(n / 2);
    while pending != {}
      invariant forall t :: t in pending ==> 0 <= t < n / 2
      invariant forall t: nat :: t < n / 2 && t in pending ==>
        tile[Lo(t, hlen)] == old(tile[Lo(t, hlen)]) && tile[Hi(t, hlen)] == old(tile[Hi(t, hlen)])
      invariant forall t: nat :: t < n / 2 && t !in pending ==>
        var c := FrMul(old(tile[Hi(t, hlen)]), roots[RootIndex(t, hlen, step, rootStride)], p);
        && tile[Lo(t, hlen)] == FrAdd(old(tile[Lo(t, hlen)]), c, p)
        && tile[Hi(t, hlen)] == FrSub(old(tile[Lo(t, hlen)]), c, p)
      decreases |pending|
    {
      var tid :| tid in pending;
      Butterfly(tile, roots, tid, len, step, rootStride, p);
      OthersDistinct(tid, hlen);
      pending := pending - {tid};
    }
  }

  lemma RootAddress(tid: nat, h: nat, step: nat, rootStride: nat)
    requires h > 0
    ensures RootIndex(tid, h, step, rootStride) == (tid - tid / h * h) * step * rootStride
  {
  }

  lemma StageThreads(n: nat, len: nat, blocks: nat, rootStride: nat)
    requires len > 0 && len % 2 == 0 && n == blocks * len && rootStride > 0
    ensures n / len == blocks
    ensures forall t: nat :: t < n / 2 ==>
      && Lo(t, len / 2) < Hi(t, len / 2) < n
      && RootIndex(t, len / 2, blocks, rootStride) < n * rootStride
  {
    var h := len / 2;
    DivModUnique(n, len, blocks, 0);
    MulAssoc(blocks, 2, h);
    MulLeftSwap(blocks, 2, h);
    assert n == 2 * (blocks * h);
    forall t: nat | t < n / 2 ensures Lo(t, h) < Hi(t, h) < n && RootIndex(t, h, blocks, rootStride) < n * rootStride {
      SlotsInRange(t, h, blocks);
      RootInRange(t, h, blocks, rootStride);
      MulAssoc(2, blocks, h);
    }
  }

  lemma RootInRange(tid: nat, h: nat, blocks: nat, rootStride: nat)
    requires h > 0 && tid < blocks * h && rootStride > 0
    ensures 0 <= tid - tid / h * h == tid % h < h
    ensures RootIndex(tid, h, blocks, rootStride) < 2 * (blocks * h) * rootStride
  {
    var j := tid % h;
    assert tid == tid / h * h + j;
    MulNonneg(tid / h, h);
    MulMono(j, h - 1, blocks);
    MulDistrib(h, 1, blocks);
    assert blocks > 0;
    MulMono(j * blocks, blocks * h - 1, rootStride);
    MulDistrib(blocks * h, 1, rootStride);
    MulNonneg(blocks * h, rootStride);
    MulAssoc(2, blocks * h, rootStride);
  }

  // ------------------------------------------------------------ the workgroup

  /** Element index read, and written, by invocation i of workgroup (t, b). */
  function Src(pc: NttParams, t: nat, b: nat, i: nat): nat {
    b * pc.inBatch + (t * pc.inStrideT + i * pc.inStrideI)
  }

  function Dst(pc: NttParams, t: nat, b: nat, i: nat): nat {
    b * pc.outBatch + (t * pc.outStrideT + i * pc.outStrideI)
  }

  /** The factor applied between the passes. */
  function Twiddle(pc: NttParams, w: int, t: nat, i: nat): int {
    if pc.twiddleStride != 0 && pc.fullN != 0 then Pow(w, t * i % pc.fullN * pc.twiddleStride) else 1
  }

  function Scale(pc: NttParams): int {
    if pc.scale then pc.scaleVal else 1
  }

  /** What a pass must leave in slot Dst(pc, t, b, i): a transform of the strided input,
      twiddled and scaled. The table root is w. */
  function PassValue(pc: NttParams, input: seq<int>, w: int, t: nat, b: nat, i: nat): int {
    Strided(input, Src(pc, t, b, 0), pc.inStrideI, pc.n, Pow(w, pc.rootStride), i)
    * Twiddle(pc, w, t, i) * Scale(pc)
  }

  ghost predicate TableOf(roots: seq<int>, w: int, size: nat, p: int)
    requires p > 0
  {
    size <= |roots| && forall e :: 0 <= e < size ==> roots[e] == Res(Pow(w, e), p)
  }

  /** The table holds the powers of a primitive root and the strides match its size. */
  ghost predicate Configured(pc: NttParams, roots: seq<int>, w: int, p: int) {
    && pc.rootStride > 0
    && pc.n == Pow2(pc.logN)
    && PrimitiveRoot(w, pc.n * pc.rootStride, p)
    && TableOf(roots, w, pc.n * pc.rootStride, p)
    && (pc.twiddleStride != 0 ==> pc.fullN > 0 && pc.fullN * pc.twiddleStride == pc.n * pc.rootStride)
  }

  /** Gathers the strided input into the tile in bit-reversed order. */
  method Load(tile: array<int>, input: array<int>, pc: NttParams, t: nat, b: nat)
    requires tile != input && pc.n == Pow2(pc.logN) <= tile.Length
    requires forall i: nat :: i < pc.n ==> Src(pc, t, b, i) < input.Length
    modifies tile
    ensures forall q: nat :: q < pc.n ==>
      Brev(q, pc.logN) < pc.n && tile[q] == input[Src(pc, t, b, Brev(q, pc.logN))]
  {
    hide Src;
    var pending: set<nat> := Invocations(pc.n);
    while pending != {}
      invariant forall i :: i in pending ==> 0 <= i < pc.n
      invariant forall i: nat :: i < pc.n && i !in pending ==>
        tile[Brev(i, pc.logN)] == input[Src(pc, t, b, i)]
      decreases |pending|
    {
      var tid :| tid in pending;
      var j := Brev(tid, pc.logN);
      tile[j] := input[Src(pc, t, b, tid)];
      forall i: nat | i < pc.n && i != tid ensures Brev(i, pc.logN) != j {
        if Brev(i, pc.logN) == j {
          BrevInjective(i, tid, pc.logN);
        }
      }
      pending := pending - {tid};
    }
    forall q: nat | q < pc.n ensures tile[q] == input[Src(pc, t, b, Brev(q, pc.logN))] {
      BrevInvolution(q, pc.logN);
    }
  }

  /** The strided input of a workgroup, gathered. */
  ghost function Gather(input: seq<int>, pc: NttParams, t: nat, b: nat): (g: seq<int>)
    requires forall i: nat :: i < pc.n ==> Src(pc, t, b, i) < |input|
    ensures |g| == pc.n && forall i: nat :: i < pc.n ==> g[i] == input[Src(pc, t, b, i)]
  {
    seq(pc.n, i requires 0 <= i < pc.n => input[Src(pc, t, b, i)])
  }

  lemma GatherTransform(input: seq<int>, pc: NttParams, t: nat, b: nat, u: int, k: int)
    requires forall i: nat :: i < pc.n ==> Src(pc, t, b, i) < |input|
    ensures Transform(Gather(input, pc, t, b), pc.n, u, k)
         == Strided(input, Src(pc, t, b, 0), pc.inStrideI, pc.n, u, k)
  {
    var g := Gather(input, pc, t, b);
    forall j | 0 <= j < pc.n
      ensures Term(g, 0, 1, u, k, j) == Term(input, Src(pc, t, b, 0), pc.inStrideI, u, k, j)
    {
      assert j * pc.inStrideI == pc.inStrideI * j;
      assert Src(pc, t, b, j) == Src(pc, t, b, 0) + pc.inStrideI * j;
    }
    SumEq(pc.n, j => Term(g, 0, 1, u, k, j), j => Term(input, Src(pc, t, b, 0), pc.inStrideI, u, k, j));
  }

  /** The tile after s stages. */
  ghost predicate AfterStages(tile: seq<int>, x: seq<int>, k: nat, s: nat, w: int, p: int)
    requires p > 0 && s <= k
  {
    |tile| >= Pow2(k)
    && forall q: nat :: q < Pow2(k) ==> Element(tile[q], p) && Cong(tile[q], StageValue(x, k, s, w, q), p)
  }

  /** A full stage of butterflies, whatever the order in which they ran, advances the tile by one stage. */
  lemma StageAdvances(was: seq<int>, now: seq<int>, roots: seq<int>, x: seq<int>, k: nat, s: nat, w: int,
                      rootStride: nat, p: int)
    requires s < k && rootStride > 0 && PrimitiveRoot(w, Pow2(k) * rootStride, p)
    requires TableOf(roots, w, Pow2(k) * rootStride, p)
    requires AfterStages(was, x, k, s, Pow(w, rootStride), p) && |now| == |was|
    requires forall t: nat :: t < Pow2(k) / 2 ==>
      && Lo(t, Pow2(s)) < Hi(t, Pow2(s)) < Pow2(k) && RootIndex(t, Pow2(s), Pow2(k - s - 1), rootStride) < |roots|
      && var c := FrMul(was[Hi(t, Pow2(s))], roots[RootIndex(t, Pow2(s), Pow2(k - s - 1), rootStride)], p);
      && now[Lo(t, Pow2(s))] == FrAdd(was[Lo(t, Pow2(s))], c, p)
      && now[Hi(t, Pow2(s))] == FrSub(was[Lo(t, Pow2(s))], c, p)
    ensures AfterStages(now, x, k, s + 1, Pow(w, rootStride), p)
  {
    hide Res, Pow, StageValue, FrAdd, FrSub, FrMul, RootIndex, Lo, Hi;
    var h, st := Pow2(s), Pow2(k - s - 1);
    var u := Pow(w, rootStride);
    assert Pow2(k) == 2 * st * h && Pow2(k) / 2 == st * h by {
      Pow2Add(k - s - 1, s + 1);
      MulLeftSwap(st, 2, h);
      MulAssoc(2, st, h);
    }
    forall q: nat | q < Pow2(k)
      ensures Element(now[q], p) && Cong(now[q], StageValue(x, k, s + 1, u, q), p)
    {
      var t := SlotOwner(q, h, st);
      ThreadAdvances(was[Lo(t, h)], was[Hi(t, h)], roots, x, k, s, w, rootStride, t, p);
    }
  }

  lemma ThreadAdvances(a: int, c: int, roots: seq<int>, x: seq<int>, k: nat, s: nat, w: int, rootStride: nat, t: nat,
                       p: int)
    requires s < k && rootStride > 0 && PrimitiveRoot(w, Pow2(k) * rootStride, p)
    requires TableOf(roots, w, Pow2(k) * rootStride, p)
    requires t < Pow2(k - s - 1) * Pow2(s)
    requires Cong(a, StageValue(x, k, s, Pow(w, rootStride), Lo(t, Pow2(s))), p)
    requires Cong(c, StageValue(x, k, s, Pow(w, rootStride), Hi(t, Pow2(s))), p)
    ensures var u := Pow(w, rootStride);
      var r := RootIndex(t, Pow2(s), Pow2(k - s - 1), rootStride);
      && r < |roots|
      && Cong(FrAdd(a, FrMul(c, roots[r], p), p), StageValue(x, k, s + 1, u, Lo(t, Pow2(s))), p)
      && Cong(FrSub(a, FrMul(c, roots[r], p), p), StageValue(x, k, s + 1, u, Hi(t, Pow2(s))), p)
  {
    hide Res, Pow, StageValue, FrAdd, FrSub, FrMul, RootIndex, Lo, Hi;
    var h, st := Pow2(s), Pow2(k - s - 1);
    var u := Pow(w, rootStride);
    RootLoaded(roots, k, s, w, rootStride, t, p);
    var root := roots[RootIndex(t, h, st, rootStride)];
    assert PrimitiveRoot(u, Pow2(k), p) by {
      assert Pow2(k) * rootStride == rootStride * Pow2(k);
      SubRoot(w, Pow2(k) * rootStride, rootStride, Pow2(k), p);
    }
    ButterflyStep(x, k, s, u, t, a, c, root, p);
    var m := FrMul(c, root, p);
    CongAdd(a, a, m, c * root, p);
    CongSub(a, a, m, c * root, p);
  }

  /** The table entry a thread loads is the right power of the sub-transform's root. */
  lemma RootLoaded(roots: seq<int>, k: nat, s: nat, w: int, rootStride: nat, t: nat, p: int)
    requires s < k && rootStride > 0 && p > 0
    requires TableOf(roots, w, Pow2(k) * rootStride, p)
    requires t < Pow2(k - s - 1) * Pow2(s)
    ensures var r := RootIndex(t, Pow2(s), Pow2(k - s - 1), rootStride);
      && r < |roots|
      && Cong(roots[r], Pow(Pow(Pow(w, rootStride), Pow2(k - s - 1)), t % Pow2(s)), p)
  {
    hide Res, Pow;
    var h, st := Pow2(s), Pow2(k - s - 1);
    var r := RootIndex(t, h, st, rootStride);
    assert r < Pow2(k) * rootStride by {
      Pow2Add(k - s - 1, s + 1);
      MulLeftSwap(st, 2, h);
      RootInRange(t, h, st, rootStride);
    }
    CongRes(Pow(w, r), p);
    hide RootIndex;
    RootExponent(t, h, st, rootStride);
    DivNonneg(t, h);
    MulNonneg(st, t % h);
    PowPow(w, rootStride, st * (t % h));
    PowPow(Pow(w, rootStride), st, t % h);
  }

  lemma RootExponent(t: nat, h: nat, st: nat, rootStride: nat)
    requires h > 0
    ensures RootIndex(t, h, st, rootStride) == rootStride * (st * (t % h))
  {
    SlotAddresses(t, h);
    var j := t % h;
    assert j * st == st * j;
  }

  /** All stages over a tile that holds x in bit-reversed order. */
  method Stages(tile: array<int>, roots: array<int>, n: nat, rootStride: nat, p: int, ghost k: nat, ghost w: int,
                ghost x: seq<int>)
    requires tile != roots && n == Pow2(k) <= tile.Length && rootStride > 0 && |x| == n
    requires PrimitiveRoot(w, n * rootStride, p) && TableOf(roots[..], w, n * rootStride, p)
    requires forall q: nat :: q < n ==> Element(tile[q], p) && Brev(q, k) < n && tile[q] == x[Brev(q, k)]
    modifies tile
    ensures forall i: nat :: i < n ==> Element(tile[i], p) && Cong(tile[i], Transform(x, n, Pow(w, rootStride), i), p)
  {
    hide StageValue, FrAdd, FrSub, FrMul, Lo, Hi, RootIndex;
    ghost var u := Pow(w, rootStride);
    forall q: nat | q < n ensures Element(tile[q], p) && Cong(tile[q], StageValue(x, k, 0, u, q), p) {
      StageZero(x, k, u, q);
    }
    ghost var s: nat := 0;
    var len := 2;
    while len <= n
      invariant s <= k && len == Pow2(s + 1)
      invariant AfterStages(tile[..], x, k, s, u, p)
      decreases k - s
    {
      StageShape(k, s, len, n);
      ghost var was := tile[..];
      Stage(tile, roots, n, len, rootStride, p, Pow2(k - s - 1));
      StageAdvances(was, tile[..], roots[..], x, k, s, w, rootStride, p);
      len := 2 * len;
      s := s + 1;
    }
    assert s == k by {
      if s < k {
        Pow2Mono(s + 1, k);
      }
    }
    forall i: nat | i < n ensures Element(tile[i], p) && Cong(tile[i], Transform(x, n, u, i), p) {
      assert tile[..][i] == tile[i];
      StageLast(x, k, u, i);
    }
  }

  /** The sub-transform of one workgroup, in the shared tile. */
  method SubTransform(tile: array<int>, input: array<int>, roots: array<int>, pc: NttParams, t: nat, b: nat, p: int,
                      ghost w: int)
    requires tile != input && tile != roots
    requires Configured(pc, roots[..], w, p) && pc.n <= tile.Length
    requires forall i: nat :: i < pc.n ==> Src(pc, t, b, i) < input.Length && Element(input[Src(pc, t, b, i)], p)
    modifies tile
    ensures forall i: nat :: i < pc.n ==>
      && Element(tile[i], p)
      && Cong(tile[i], Strided(input[..], Src(pc, t, b, 0), pc.inStrideI, pc.n, Pow(w, pc.rootStride), i), p)
  {
    hide Src, Res, Pow;
    ghost var x := Gather(input[..], pc, t, b);
    Load(tile, input, pc, t, b);
    Stages(tile, roots, pc.n, pc.rootStride, p, pc.logN, w, x);
    forall i: nat | i < pc.n
      ensures Element(tile[i], p)
           && Cong(tile[i], Strided(input[..], Src(pc, t, b, 0), pc.inStrideI, pc.n, Pow(w, pc.rootStride), i), p)
    {
      GatherTransform(input[..], pc, t, b, Pow(w, pc.rootStride), i);
    }
  }

  lemma StageShape(k: nat, s: nat, len: nat, n: nat)
    requires s <= k && len == Pow2(s + 1) <= n == Pow2(k)
    ensures s < k && n == Pow2(k - s - 1) * len && len / 2 == Pow2(s) && len % 2 == 0
  {
    assert Pow2(s + 1) == 2 * Pow2(s);
    assert s < k;
    Pow2Add(k - s - 1, s + 1);
  }
}
