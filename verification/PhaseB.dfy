/** Phase B: the 128-point circulant applied to the points of phase A, computed as a 64-point cyclic
    and a 64-point negacyclic half over a doubling ladder. */
module PhaseB {
  import opened Modular
  import opened Bits
  import opened Dispatch
  import opened Curve
  import opened Group
  import opened CurveGroup
  import opened Recode
  import opened BucketReduce
  import opened PhaseA
  import N = Normalize

  const SIZE: nat := 128
  const HALF: nat := 64
  const LADDER: nat := 32

  /** Position d of ladder j of blob b. */
  function Rung(b: nat, j: nat, d: nat): nat {
    (b * SIZE + j) * LADDER + d
  }

  lemma RungFits(b: nat, j: nat, d: nat, batch: nat)
    requires b < batch && j < SIZE && d < LADDER
    ensures Rung(b, j, d) < batch * SIZE * LADDER
  {
  }

  lemma RungUnique(b: nat, j: nat, d: nat, b': nat, j': nat, d': nat)
    requires j < SIZE && j' < SIZE && d < LADDER && d' < LADDER
    ensures Rung(b, j, d) == Rung(b', j', d') ==> b == b' && j == j' && d == d'
  {
    if Rung(b, j, d) == Rung(b', j', d') {
      DivModUnique(Rung(b, j, d), LADDER, b * SIZE + j, d);
      DivModUnique(Rung(b', j', d'), LADDER, b' * SIZE + j', d');
      DivModUnique(b * SIZE + j, SIZE, b, j);
      DivModUnique(b' * SIZE + j', SIZE, b', j');
    }
  }

  // ------------------------------------------------------------ the ladder

  /** Position d of ladder o = 128 b + j stands for 256^d times its point. */
  ghost predicate RungHolds<G(!new)>(c: Reading<G>, ladder: seq<Jacobian>, u: seq<Jacobian>, o: nat, d: nat) {
    && o * LADDER + d < |ladder| && o < |u|
    && Is(c, ladder[o * LADDER + d], Smul(c.g, Pow(256, d), Value(c, u[o])))
  }

  /** For every ladder below n not in pending. */
  ghost predicate LadderHolds<G(!new)>(c: Reading<G>, ladder: seq<Jacobian>, u: seq<Jacobian>, n: nat,
                                       pending: set<nat>) {
    forall o: nat, d: nat :: o < n && o !in pending && d < LADDER ==> RungHolds(c, ladder, u, o, d)
  }

  /** One thread: 32 stores, eight doublings after each. */
  method LadderThread<G(!new)>(ladder: array<Jacobian>, u: array<Jacobian>, o: nat, p: int, ghost c: Reading<G>)
    requires Homomorphic(c) && c.p == p && (o + 1) * LADDER <= ladder.Length && o < u.Length && ladder != u
    requires Good(c, u[o])
    modifies ladder
    ensures forall d: nat :: d < LADDER ==> RungHolds(c, ladder[..], u[..], o, d)
    ensures forall q: nat :: q < ladder.Length && q / LADDER != o ==> ladder[q] == old(ladder[q])
  {
    hide Homomorphic, Is, Value, Good, Smul, Pow, Doubled;
    HomomorphicParts(c);
    var acc := u[o];
    ghost var x := Value(c, u[o]);
    GoodIs(c, acc);
    LadderStart(c.g, x);
    for d := 0 to LADDER
      invariant Is(c, acc, Smul(c.g, Pow(256, d), x))
      invariant forall q: nat :: q < d ==> Is(c, ladder[o * LADDER + q], Smul(c.g, Pow(256, q), x))
      invariant forall q: nat :: q < ladder.Length && q / LADDER != o ==> ladder[q] == old(ladder[q])
    {
      DivModUnique(o * LADDER + d, LADDER, o, d);
      ladder[o * LADDER + d] := acc;
      DoubledIs(c, acc, 8, Smul(c.g, Pow(256, d), x));
      acc := DoubleTimes(acc, 8, p);
      EightDoublings(c.g, x, d);
    }
  }

  lemma LadderStart<G(!new)>(g: Group<G>, x: G)
    requires IsAbelian(g)
    ensures Smul(g, Pow(256, 0), x) == x
  {
    SmulOne(g, x);
  }

  lemma EightDoublings<G(!new)>(g: Group<G>, x: G, d: nat)
    requires IsAbelian(g)
    ensures Smul(g, Pow2(8), Smul(g, Pow(256, d), x)) == Smul(g, Pow(256, d + 1), x)
  {
    hide Smul, IsAbelian;
    Pow2Of8();
    SmulMul(g, 256, Pow(256, d), x);
  }

  lemma Pow2Of8()
    ensures Pow2(8) == 256
  {
    assert Pow2(4) == 16;
    Pow2Add(4, 4);
  }

  /** The ladder dispatch: threads in any order. */
  method Ladder<G(!new)>(ladder: array<Jacobian>, u: array<Jacobian>, n: nat, p: int, ghost c: Reading<G>)
    requires Homomorphic(c) && c.p == p && n * LADDER <= ladder.Length && n <= u.Length && ladder != u
    requires forall o: nat :: o < n ==> Good(c, u[o])
    modifies ladder
    ensures LadderHolds(c, ladder[..], u[..], n, {})
  {
    hide Homomorphic, Good, RungHolds;
    var pending: set<nat> := Invocations(n);
    while pending != {}
      invariant forall o: nat :: o in pending ==> o < n
      invariant LadderHolds(c, ladder[..], u[..], n, pending)
      decreases |pending|
    {
      var o :| o in pending;
      ghost var was := ladder[..];
      LadderThread(ladder, u, o, p, c);
      LadderStep(c, ladder[..], was, u[..], n, pending, o);
      pending := pending - {o};
    }
  }

  lemma LadderStep<G(!new)>(c: Reading<G>, now: seq<Jacobian>, was: seq<Jacobian>, u: seq<Jacobian>, n: nat,
                            pending: set<nat>, o: nat)
    requires LadderHolds(c, was, u, n, pending) && |now| == |was| && o < n && (o + 1) * LADDER <= |now|
    requires forall d: nat :: d < LADDER ==> RungHolds(c, now, u, o, d)
    requires forall q: nat :: q < |now| && q / LADDER != o ==> now[q] == was[q]
    ensures LadderHolds(c, now, u, n, pending - {o})
  {
    hide Is, Value, Smul, Pow;
    forall o': nat, d: nat | o' < n && o' !in pending - {o} && d < LADDER
      ensures RungHolds(c, now, u, o', d)
    {
      if o' != o {
        assert RungHolds(c, was, u, o', d);
        DivModUnique(o' * LADDER + d, LADDER, o', d);
      }
    }
  }

  // ------------------------------------------------------------ the fold

  /** u[j] + u[j + 64] in the first 64 places, u[j] - u[j + 64] in the rest. */
  ghost function Folded<G(!new)>(g: Group<G>, u: seq<G>, b: nat, j: int): G {
    if !(0 <= j < SIZE) || b * SIZE + SIZE > |u| then g.zero
    else if j < HALF then g.add(u[b * SIZE + j], u[b * SIZE + j + HALF])
    else Sub(g, u[b * SIZE + j - HALF], u[b * SIZE + j])
  }

  ghost predicate FoldHolds<G(!new)>(g: Group<G>, folded: seq<G>, u: seq<G>, batch: nat) {
    forall b: nat, j: nat, d: nat :: b < batch && j < SIZE && d < LADDER ==>
      Rung(b, j, d) < |folded| && folded[Rung(b, j, d)] == Smul(g, Pow(256, d), Folded(g, u, b, j))
  }

  /** The folded ladders in Jacobian coordinates. */
  ghost predicate FoldDone<G(!new)>(c: Reading<G>, folded: seq<Jacobian>, u: seq<G>, batch: nat) {
    forall b: nat, j: nat, d: nat :: b < batch && j < SIZE && d < LADDER ==>
      Rung(b, j, d) < |folded| && Is(c, folded[Rung(b, j, d)], Smul(c.g, Pow(256, d), Folded(c.g, u, b, j)))
  }

  /** Thread (jd, b) reads two rungs of the ladder and writes the same two places of the other buffer. */
  ghost predicate FoldedPair(out: seq<Jacobian>, ladder: seq<Jacobian>, jd: nat, b: nat, p: int)
    requires jd < HALF * LADDER && p > 0
  {
    var lo, hi := Rung(b, jd / LADDER, jd % LADDER), Rung(b, jd / LADDER + HALF, jd % LADDER);
    && lo < |out| && hi < |out| && lo < |ladder| && hi < |ladder|
    && out[lo] == G1Add(ladder[lo], ladder[hi], p) && out[hi] == G1Sub(ladder[lo], ladder[hi], p)
  }

  method FoldThread(out: array<Jacobian>, ladder: array<Jacobian>, jd: nat, b: nat, batch: nat, p: int)
    requires jd < HALF * LADDER && b < batch && out != ladder && p > 0
    requires batch * SIZE * LADDER <= out.Length && batch * SIZE * LADDER <= ladder.Length
    modifies out
    ensures FoldedPair(out[..], ladder[..], jd, b, p)
    ensures forall jd': nat, b': nat :: jd' < HALF * LADDER && (jd', b') != (jd, b) && old(FoldedPair(out[..], ladder[..], jd', b', p)) ==>
      FoldedPair(out[..], ladder[..], jd', b', p)
  {
    hide G1Add, G1Sub;
    var j, d := jd / LADDER, jd % LADDER;
    RungFits(b, j, d, batch);
    RungFits(b, j + HALF, d, batch);
    var lo, hi := Rung(b, j, d), Rung(b, j + HALF, d);
    var a, c := ladder[lo], ladder[hi];
    ghost var was, rungs := out[..], ladder[..];
    out[lo] := G1Add(a, c, p);
    out[hi] := G1Sub(a, c, p);
    assert out[..] == was[lo := G1Add(a, c, p)][hi := G1Sub(a, c, p)];
    RungUnique(b, j, d, b, j + HALF, d);
    forall jd': nat, b': nat | jd' < HALF * LADDER && (jd', b') != (jd, b) && FoldedPair(was, rungs, jd', b', p)
      ensures FoldedPair(out[..], rungs, jd', b', p)
    {
      PairsApart(jd, b, jd', b');
    }
  }

  lemma PairsApart(jd: nat, b: nat, jd': nat, b': nat)
    requires jd < HALF * LADDER && jd' < HALF * LADDER && (jd', b') != (jd, b)
    ensures var lo, hi := Rung(b, jd / LADDER, jd % LADDER), Rung(b, jd / LADDER + HALF, jd % LADDER);
      var lo', hi' := Rung(b', jd' / LADDER, jd' % LADDER), Rung(b', jd' / LADDER + HALF, jd' % LADDER);
      lo != lo' && lo != hi' && hi != lo' && hi != hi'
  {
    hide Rung;
    var j, d, j', d' := jd / LADDER, jd % LADDER, jd' / LADDER, jd' % LADDER;
    RungUnique(b, j, d, b', j', d');
    RungUnique(b, j + HALF, d, b', j' + HALF, d');
    RungUnique(b, j, d, b', j' + HALF, d');
    RungUnique(b, j + HALF, d, b', j', d');
  }

  ghost predicate PairsDone(out: seq<Jacobian>, ladder: seq<Jacobian>, batch: nat, pending: set<(nat, nat)>, p: int)
    requires p > 0
  {
    forall jd: nat, b: nat :: jd < HALF * LADDER && b < batch && (jd, b) !in pending ==>
      FoldedPair(out, ladder, jd, b, p)
  }

  /** The fold dispatch, threads in any order, into a separate buffer. */
  method Fold<G(!new)>(out: array<Jacobian>, ladder: array<Jacobian>, batch: nat, p: int, ghost c: Reading<G>,
                       ghost u: seq<Jacobian>)
    requires Homomorphic(c) && c.p == p && out != ladder && LadderHolds(c, ladder[..], u, batch * SIZE, {})
    requires batch * SIZE * LADDER <= out.Length && batch * SIZE * LADDER <= ladder.Length
    modifies out
    ensures FoldDone(c, out[..], Values(c, u), batch)
  {
    hide Homomorphic, LadderHolds, FoldedPair, FoldDone, Values;
    HomomorphicParts(c);
    ghost var rungs := ladder[..];
    var pending: set<(nat, nat)> := Grid(HALF * LADDER, batch);
    while pending != {}
      invariant forall w :: w in pending ==> 0 <= w.0 < HALF * LADDER && 0 <= w.1 < batch
      invariant ladder[..] == rungs && PairsDone(out[..], rungs, batch, pending, p)
      decreases |pending|
    {
      var w :| w in pending;
      FoldThread(out, ladder, w.0, w.1, batch, p);
      pending := pending - {w};
    }
    FoldFromPairs(c, out[..], rungs, u, batch);
  }

  lemma FoldFromPairs<G(!new)>(c: Reading<G>, out: seq<Jacobian>, ladder: seq<Jacobian>, u: seq<Jacobian>, batch: nat)
    requires Homomorphic(c) && c.p > 0
    requires PairsDone(out, ladder, batch, {}, c.p) && LadderHolds(c, ladder, u, batch * SIZE, {})
    ensures FoldDone(c, out, Values(c, u), batch)
  {
    hide Homomorphic, Is, Value, Values, Smul, Pow, FoldedPair, Folded;
    forall b: nat, j: nat, d: nat | b < batch && j < SIZE && d < LADDER
      ensures Rung(b, j, d) < |out|
      ensures Is(c, out[Rung(b, j, d)], Smul(c.g, Pow(256, d), Folded(c.g, Values(c, u), b, j)))
    {
      var j0 := j % HALF;
      var jd := j0 * LADDER + d;
      DivModUnique(jd, LADDER, j0, d);
      assert FoldedPair(out, ladder, jd, b, c.p);
      var o := b * SIZE + j0;
      assert o + HALF < batch * SIZE;
      assert RungHolds(c, ladder, u, o, d);
      assert RungHolds(c, ladder, u, o + HALF, d);
      assert RungHolds(c, ladder, u, b * SIZE + 127, d);
      FoldedRung(c, out, ladder, u, b, j0, d);
    }
  }

  /** The two rungs a thread writes. */
  lemma FoldedRung<G(!new)>(c: Reading<G>, out: seq<Jacobian>, ladder: seq<Jacobian>, u: seq<Jacobian>, b: nat, j: nat,
                            d: nat)
    requires Homomorphic(c) && c.p > 0 && j < HALF && d < LADDER && FoldedPair(out, ladder, j * LADDER + d, b, c.p)
    requires RungHolds(c, ladder, u, b * SIZE + j, d) && RungHolds(c, ladder, u, b * SIZE + j + HALF, d)
    requires b * SIZE + SIZE <= |u|
    ensures Rung(b, j, d) < |out| && Rung(b, j + HALF, d) < |out|
    ensures Is(c, out[Rung(b, j, d)], Smul(c.g, Pow(256, d), Folded(c.g, Values(c, u), b, j)))
    ensures Is(c, out[Rung(b, j + HALF, d)], Smul(c.g, Pow(256, d), Folded(c.g, Values(c, u), b, j + HALF)))
  {
    hide Homomorphic, Is, Value, Smul, Pow, G1Add, G1Sub;
    HomomorphicParts(c);
    DivModUnique(j * LADDER + d, LADDER, j, d);
    var o, w := b * SIZE + j, Pow(256, d);
    var x, y := Value(c, u[o]), Value(c, u[o + HALF]);
    AddIs(c, ladder[Rung(b, j, d)], ladder[Rung(b, j + HALF, d)], Smul(c.g, w, x), Smul(c.g, w, y));
    SubIs(c, ladder[Rung(b, j, d)], ladder[Rung(b, j + HALF, d)], Smul(c.g, w, x), Smul(c.g, w, y));
    SmulSubPoint(c.g, w, x, y);
  }

  lemma SmulSubPoint<G(!new)>(g: Group<G>, k: int, a: G, b: G)
    requires IsAbelian(g)
    ensures Smul(g, k, g.add(a, b)) == g.add(Smul(g, k, a), Smul(g, k, b))
    ensures Smul(g, k, Sub(g, a, b)) == Sub(g, Smul(g, k, a), Smul(g, k, b))
  {
    hide Smul, IsAbelian;
    SmulPoint(g, k, a, b);
    SmulPoint(g, k, a, g.neg(b));
    SmulOfNeg(g, k, b);
  }

  lemma SmulOfNeg<G(!new)>(g: Group<G>, k: int, b: G)
    requires IsAbelian(g)
    ensures Smul(g, k, g.neg(b)) == g.neg(Smul(g, k, b)) == Smul(g, -k, b)
  {
    hide Smul, IsAbelian;
    SmulOne(g, b);
    SmulMul(g, k, -1, b);
    assert k * -1 == -k;
    SmulNeg(g, k, b);
  }

  // ------------------------------------------------------------ the ladders in affine coordinates

  /** The rungs the accumulation reads are points of the curve. */
  ghost predicate RungsGood<G(!new)>(c: Reading<G>, affine: seq<AffinePair>, batch: nat) {
    forall b: nat, j: nat, d: nat :: b < batch && j < SIZE && d < LADDER ==>
      Rung(b, j, d) < |affine| && GoodPair(c, affine[Rung(b, j, d)])
  }

  /** Normalization changes the coordinates and not the points. */
  lemma NormalizedFold<G(!new)>(c: Reading<G>, affine: seq<AffinePair>, folded: seq<Jacobian>, u: seq<G>, batch: nat)
    requires Homomorphic(c) && c.p > 0 && FoldDone(c, folded, u, batch) && batch * SIZE * LADDER <= |folded|
    requires N.NormalRange(affine, folded, 0, batch * SIZE * LADDER, c.p)
    ensures RungsGood(c, affine, batch) && FoldHolds(c.g, PairValues(c, affine), u, batch)
  {
    hide Homomorphic, Is, GoodPair, PairValue, Smul, Pow, Folded, N.IsNormal, Rung;
    forall b: nat, j: nat, d: nat | b < batch && j < SIZE && d < LADDER
      ensures Rung(b, j, d) < |affine| && GoodPair(c, affine[Rung(b, j, d)])
      ensures PairValues(c, affine)[Rung(b, j, d)] == Smul(c.g, Pow(256, d), Folded(c.g, u, b, j))
    {
      var r := Rung(b, j, d);
      RungFits(b, j, d, batch);
      N.NormalIs(c, affine[r], folded[r], Smul(c.g, Pow(256, d), Folded(c.g, u, b, j)));
    }
  }

  // ------------------------------------------------------------ the kernel tables

  /** One half of the convolution kernel as the file stores it: packed taps sorted by bucket. */
  datatype HalfTable = HalfTable(items: seq<int>, offsets: seq<int>, perm: seq<int>)

  function TapIndex(packed: int): int {
    packed % 0x100
  }

  function TapPosition(packed: int): int {
    packed / 0x100 % 0x100
  }

  function TapSign(packed: int): int {
    packed / 0x1_0000 % 2
  }

  ghost predicate ValidTap(packed: int) {
    0 <= packed && TapIndex(packed) < HALF && TapPosition(packed) < LADDER
  }

  ghost predicate ValidTable(h: HalfTable) {
    && |h.offsets| == NUM_BUCKETS + 1 && |h.perm| == NUM_BUCKETS
    && (forall j, k :: 0 <= j <= k < |h.offsets| ==> 0 <= h.offsets[j] <= h.offsets[k] <= |h.items|)
    && (forall t :: 0 <= t < NUM_BUCKETS ==> 0 <= h.perm[t] < NUM_BUCKETS)
    && (forall k :: 0 <= k < NUM_BUCKETS ==> k in h.perm)
    && (forall i :: 0 <= i < |h.items| ==> ValidTap(h.items[i]))
  }

  /** The signed digit place a packed tap stands for. */
  ghost function TapWeight(packed: int): int {
    var w := Pow(256, TapPosition(packed));
    if TapSign(packed) != 0 then -w else w
  }

  ghost function TapPart(x: int, e: int): int {
    if TapIndex(x) == e then TapWeight(x) else 0
  }

  /** What the taps in a list contribute to tap e. */
  ghost function TapSum(s: seq<int>, e: int): int {
    if s == [] then 0 else TapSum(s[..|s| - 1], e) + TapPart(s[|s| - 1], e)
  }

  ghost function TableBucket(h: HalfTable, k: int): seq<int> {
    if 0 <= k && k + 1 < |h.offsets| && 0 <= h.offsets[k] <= h.offsets[k + 1] <= |h.items|
    then h.items[h.offsets[k]..h.offsets[k + 1]] else []
  }

  /** The half-kernel's tap e over the first n buckets: bucket k counts k + 1 times. */
  ghost function TapUpTo(h: HalfTable, n: nat, e: int): int {
    if n == 0 then 0 else TapUpTo(h, n - 1, e) + n * TapSum(TableBucket(h, n - 1), e)
  }

  /** The tap the table encodes. */
  ghost function HalfTap(h: HalfTable, e: int): int {
    TapUpTo(h, NUM_BUCKETS, e)
  }

  // ------------------------------------------------------------ what a table encodes

  /** The item for digit place d of tap e, negative if s is 1. */
  function PackTap(e: nat, d: nat, s: nat): nat {
    e + 0x100 * d + 0x1_0000 * s
  }

  /** Every item decodes to the three fields it was packed from. */
  lemma TapDecodes(e: nat, d: nat, s: nat)
    requires e < HALF && d < LADDER && s < 2
    ensures var x := PackTap(e, d, s); ValidTap(x) && TapIndex(x) == e && TapPosition(x) == d && TapSign(x) == s
  {
    assert PackTap(e, d, s) / 0x100 == d + 0x100 * s;
    assert PackTap(e, d, s) / 0x1_0000 == s;
  }

  /** And no other item decodes to them, below 2^17. */
  lemma TapUnique(x: nat)
    requires ValidTap(x) && x < 0x2_0000
    ensures x == PackTap(TapIndex(x), TapPosition(x), TapSign(x))
  {
    assert x / 0x1_0000 == x / 0x100 / 0x100;
  }

  /** An empty table encodes the zero kernel. */
  lemma {:induction false} NoItems(h: HalfTable, n: nat, e: int)
    requires forall k: nat :: k < n ==> TableBucket(h, k) == []
    ensures TapUpTo(h, n, e) == 0
  {
    hide TableBucket;
    if n > 0 {
      NoItems(h, n - 1, e);
    }
  }

  /** An item added at the end of bucket k. */
  ghost predicate ItemAdded(now: HalfTable, was: HalfTable, k: nat, x: int) {
    forall q: nat :: q < NUM_BUCKETS ==> TableBucket(now, q) == TableBucket(was, q) + if q == k then [x] else []
  }

  lemma {:induction false} AddedUpTo(now: HalfTable, was: HalfTable, k: nat, x: int, n: nat, e: int)
    requires ItemAdded(now, was, k, x) && n <= NUM_BUCKETS
    ensures TapUpTo(now, n, e) == TapUpTo(was, n, e) + if k < n then (k + 1) * TapPart(x, e) else 0
    decreases n
  {
    hide TableBucket, TapPart;
    if n > 0 {
      AddedUpTo(now, was, k, x, n - 1, e);
      var s, t := TableBucket(was, n - 1), TableBucket(now, n - 1);
      assert t == s + if n - 1 == k then [x] else [];
      if n - 1 == k {
        TapSumPush(s, x, e);
        MulDistrib(TapSum(s, e), TapPart(x, e), n);
      } else {
        assert t == s;
      }
    }
  }

  lemma TapSumPush(s: seq<int>, x: int, e: int)
    ensures TapSum(s + [x], e) == TapSum(s, e) + TapPart(x, e)
  {
    assert (s + [x])[..|s|] == s;
  }

  /** What one item of bucket k adds to the kernel: k + 1 at its digit place, with its sign, to its own tap only. */
  lemma ItemCounts(now: HalfTable, was: HalfTable, k: nat, e0: nat, d: nat, s: nat, e: int)
    requires k < NUM_BUCKETS && e0 < HALF && d < LADDER && s < 2 && ItemAdded(now, was, k, PackTap(e0, d, s))
    ensures HalfTap(now, e) - HalfTap(was, e)
         == if e != e0 then 0 else if s == 1 then -((k + 1) * Pow(256, d)) else (k + 1) * Pow(256, d)
  {
    hide TapUpTo, ItemAdded, TapIndex, TapPosition, TapSign, Pow;
    var x := PackTap(e0, d, s);
    TapDecodes(e0, d, s);
    AddedUpTo(now, was, k, x, NUM_BUCKETS, e);
    assert TapPart(x, e) == if e != e0 then 0 else if s == 1 then -Pow(256, d) else Pow(256, d);
  }

  /** The kernel of a table with a single item. */
  lemma OneItem(h: HalfTable, k: nat, e0: nat, d: nat, s: nat, e: int)
    requires k < NUM_BUCKETS && e0 < HALF && d < LADDER && s < 2 && h.items == [PackTap(e0, d, s)]
    requires |h.offsets| == NUM_BUCKETS + 1 && forall q :: 0 <= q <= NUM_BUCKETS ==> h.offsets[q] == if q <= k then 0 else 1
    ensures HalfTap(h, e) == if e != e0 then 0 else if s == 1 then -((k + 1) * Pow(256, d)) else (k + 1) * Pow(256, d)
  {
    hide TapUpTo, Pow, PackTap;
    var empty := HalfTable([], h.offsets, h.perm);
    NoItems(empty, NUM_BUCKETS, e);
    assert ItemAdded(h, empty, k, PackTap(e0, d, s));
    ItemCounts(h, empty, k, e0, d, s, e);
  }

  // ------------------------------------------------------------ one output of one half

  /** (a - e) in 32-bit arithmetic, masked to the half size. */
  function WrappedIndex(a: nat, e: int): int {
    (a - e) % 0x1_0000_0000 % HALF
  }

  lemma WrappedIndexIs(a: nat, e: int)
    requires a < HALF && 0 <= e < HALF
    ensures WrappedIndex(a, e) == if e > a then a - e + HALF else a - e
  {
    if e > a {
      DivModUnique(a - e, 0x1_0000_0000, -1, 0x1_0000_0000 + a - e);
    }
  }

  /** The folded point that tap e of output a multiplies: the negacyclic half negates the taps that wrapped. */
  ghost function HalfPoint<G(!new)>(g: Group<G>, u: seq<G>, b: nat, minus: bool, a: nat, e: int): G {
    if minus then
      if e > a then g.neg(Folded(g, u, b, WrappedIndex(a, e) + HALF)) else Folded(g, u, b, WrappedIndex(a, e) + HALF)
    else Folded(g, u, b, WrappedIndex(a, e))
  }

  /** The ladder point a packed tap selects, with its sign and the wrap sign. */
  ghost function TapPoint<G(!new)>(g: Group<G>, folded: seq<G>, b: nat, minus: bool, a: nat, packed: int): G {
    var j := WrappedIndex(a, TapIndex(packed)) + if minus then HALF else 0;
    if !(ValidTap(packed) && 0 <= j && Rung(b, j, TapPosition(packed)) < |folded|) then g.zero
    else
      var pt := folded[Rung(b, j, TapPosition(packed))];
      var signed := if TapSign(packed) != 0 then g.neg(pt) else pt;
      if minus && TapIndex(packed) > a then g.neg(signed) else signed
  }

  lemma TapPointIs<G(!new)>(g: Group<G>, folded: seq<G>, u: seq<G>, batch: nat, b: nat, minus: bool, a: nat,
                            packed: int)
    requires IsAbelian(g) && FoldHolds(g, folded, u, batch) && b < batch && a < HALF && ValidTap(packed)
    ensures TapPoint(g, folded, b, minus, a, packed)
         == Smul(g, TapWeight(packed), HalfPoint(g, u, b, minus, a, TapIndex(packed)))
  {
    var e, d := TapIndex(packed), TapPosition(packed);
    WrappedIndexIs(a, e);
    var j := WrappedIndex(a, e) + if minus then HALF else 0;
    var w, x := Pow(256, d), Folded(g, u, b, j);
    assert Rung(b, j, d) < |folded| && folded[Rung(b, j, d)] == Smul(g, w, x);
    hide Smul, IsAbelian, Pow, Folded, Rung, FoldHolds, WrappedIndex;
    SmulOfNeg(g, w, x);
    SmulOfNeg(g, -w, x);
    SmulNeg(g, -w, x);
    NegNeg(g, Smul(g, w, x));
  }

  /** Tap sums against points, tap by tap. */
  ghost function TapTerms<G(!new)>(g: Group<G>, s: seq<int>, v: int -> G): int -> G {
    e => Smul(g, TapSum(s, e), v(e))
  }

  ghost function PartTerms<G(!new)>(g: Group<G>, x: int, v: int -> G): int -> G {
    e => Smul(g, TapPart(x, e), v(e))
  }

  /** A bucket of taps adds up to its tap sums against the points. */
  lemma {:induction false} BucketOfTaps<G(!new)>(g: Group<G>, s: seq<int>, f: int -> G, v: int -> G)
    requires IsAbelian(g) && forall i :: 0 <= i < |s| ==>
      ValidTap(s[i]) && f(s[i]) == Smul(g, TapWeight(s[i]), v(TapIndex(s[i])))
    ensures SeqSum(g, s, f) == GSum(g, HALF, TapTerms(g, s, v))
    decreases |s|
  {
    hide Smul, IsAbelian, SeqSum, TapSum, TapWeight, GSum, TapTerms, PartTerms;
    if s == [] {
      EmptyBucket(g, f, v);
    } else {
      var n := |s| - 1;
      var x := s[n];
      assert s == s[..n] + [x];
      SeqSumPush(g, s[..n], x, f);
      assert ValidTap(x) && f(x) == Smul(g, TapWeight(x), v(TapIndex(x)));
      BucketOfTaps(g, s[..n], f, v);
      OneMoreTap(g, s, v);
    }
  }

  lemma EmptyBucket<G(!new)>(g: Group<G>, f: int -> G, v: int -> G)
    requires IsAbelian(g)
    ensures SeqSum(g, [], f) == GSum(g, HALF, TapTerms(g, [], v))
  {
    forall e | 0 <= e < HALF ensures TapTerms(g, [], v)(e) == g.zero {
      SmulOne(g, v(e));
    }
    GSumZero(g, HALF, TapTerms(g, [], v));
  }

  lemma OneMoreTap<G(!new)>(g: Group<G>, s: seq<int>, v: int -> G)
    requires IsAbelian(g) && s != [] && ValidTap(s[|s| - 1])
    ensures var n := |s| - 1;
      GSum(g, HALF, TapTerms(g, s, v))
           == g.add(GSum(g, HALF, TapTerms(g, s[..n], v)), Smul(g, TapWeight(s[n]), v(TapIndex(s[n]))))
  {
    hide *;
    var n := |s| - 1;
    forall e ensures TapTerms(g, s, v)(e) == g.add(TapTerms(g, s[..n], v)(e), PartTerms(g, s[n], v)(e)) {
      LastTap(g, s, e, v);
    }
    GSumPointwise(g, HALF, TapTerms(g, s, v), TapTerms(g, s[..n], v), PartTerms(g, s[n], v));
    OneTap(g, s[n], v);
  }

  lemma LastTap<G(!new)>(g: Group<G>, s: seq<int>, e: int, v: int -> G)
    requires IsAbelian(g) && s != []
    ensures var n := |s| - 1; TapTerms(g, s, v)(e) == g.add(TapTerms(g, s[..n], v)(e), PartTerms(g, s[n], v)(e))
  {
    hide Smul, IsAbelian, TapWeight;
    SmulAdd(g, TapSum(s[..|s| - 1], e), TapPart(s[|s| - 1], e), v(e));
  }

  lemma OneTap<G(!new)>(g: Group<G>, x: int, v: int -> G)
    requires IsAbelian(g) && ValidTap(x)
    ensures GSum(g, HALF, PartTerms(g, x, v)) == Smul(g, TapWeight(x), v(TapIndex(x)))
  {
    hide Smul, IsAbelian, TapWeight, GSum;
    forall e | 0 <= e < HALF && e != TapIndex(x) ensures PartTerms(g, x, v)(e) == g.zero {
      SmulOne(g, v(e));
    }
    GSumSingle(g, HALF, TapIndex(x), PartTerms(g, x, v));
  }

  lemma TapTermAt<G(!new)>(g: Group<G>, s: seq<int>, e: int, v: int -> G)
    ensures TapTerms(g, s, v)(e) == Smul(g, TapSum(s, e), v(e))
  {
  }

  lemma TapStep<G(!new)>(g: Group<G>, h: HalfTable, n: nat, e: int, x: G)
    requires IsAbelian(g)
    ensures Smul(g, TapUpTo(h, n + 1, e), x)
         == g.add(Smul(g, TapUpTo(h, n, e), x), Smul(g, n + 1, Smul(g, TapSum(TableBucket(h, n), e), x)))
  {
    hide Smul, IsAbelian, TapSum, TableBucket;
    var t := TapSum(TableBucket(h, n), e);
    SmulAdd(g, TapUpTo(h, n, e), (n + 1) * t, x);
    SmulMul(g, n + 1, t, x);
  }

  lemma NoTaps<G(!new)>(g: Group<G>, h: HalfTable, buckets: int -> G, v: int -> G)
    requires IsAbelian(g)
    ensures Weighted(g, 0, buckets) == GSum(g, HALF, e => Smul(g, TapUpTo(h, 0, e), v(e)))
  {
    forall e | 0 <= e < HALF ensures Smul(g, TapUpTo(h, 0, e), v(e)) == g.zero {
      SmulOne(g, v(e));
    }
    GSumZero(g, HALF, e => Smul(g, TapUpTo(h, 0, e), v(e)));
  }

  lemma WeightedLast<G(!new)>(g: Group<G>, n: nat, buckets: int -> G)
    ensures Weighted(g, n + 1, buckets) == g.add(Weighted(g, n, buckets), Smul(g, n + 1, buckets(n)))
  {
    hide Smul;
  }

  /** Index-weighted buckets of taps add up to the half-kernel applied to the points. */
  lemma {:induction false} BucketsOfTaps<G(!new)>(g: Group<G>, h: HalfTable, n: nat, buckets: int -> G, v: int -> G)
    requires IsAbelian(g)
    requires forall k :: 0 <= k < n ==> buckets(k) == GSum(g, HALF, TapTerms(g, TableBucket(h, k), v))
    ensures Weighted(g, n, buckets) == GSum(g, HALF, e => Smul(g, TapUpTo(h, n, e), v(e)))
  {
    hide *;
    if n == 0 {
      NoTaps(g, h, buckets, v);
    } else {
      BucketsOfTaps(g, h, n - 1, buckets, v);
      WeightedLast(g, n - 1, buckets);
      var was, own := (e => Smul(g, TapUpTo(h, n - 1, e), v(e))), TapTerms(g, TableBucket(h, n - 1), v);
      GSumSmul(g, HALF, n, own);
      var scaled := e => Smul(g, n, own(e));
      forall e | 0 <= e < HALF ensures Smul(g, TapUpTo(h, n, e), v(e)) == g.add(was(e), scaled(e)) {
        TapStep(g, h, n - 1, e, v(e));
        TapTermAt(g, TableBucket(h, n - 1), e, v);
      }
      GSumPointwise(g, HALF, e => Smul(g, TapUpTo(h, n, e), v(e)), was, scaled);
    }
  }

  // ------------------------------------------------------------ the split kernel

  ghost function Taps<G(!new)>(g: Group<G>, folded: seq<G>, b: nat, minus: bool, a: nat): int -> G {
    packed => TapPoint(g, folded, b, minus, a, packed)
  }

  /** The taps of one half, read off the affine ladder. */
  ghost function LadderTaps<G(!new)>(c: Reading<G>, affine: seq<AffinePair>, b: nat, minus: bool, a: nat): int -> G {
    Taps(c.g, PairValues(c, affine), b, minus, a)
  }

  /** Unpacks a tap and loads its ladder point, with the sign of the digit and, in the negacyclic half,
      the sign of the wrap. */
  method ReadTap<G(!new)>(affine: seq<AffinePair>, packed: int, b: nat, minus: bool, aa: nat, batch: nat, p: int,
                          ghost c: Reading<G>)
    returns (pt: AffinePair)
    requires Homomorphic(c) && c.p == p && RungsGood(c, affine, batch) && ValidTap(packed) && aa < HALF && b < batch
    ensures PairIs(c, pt, LadderTaps(c, affine, b, minus, aa)(packed))
  {
    hide Homomorphic, GoodPair, PairValue, PairIs, PairNeg, TapSign;
    HomomorphicParts(c);
    var e, d, sign := TapIndex(packed), TapPosition(packed), TapSign(packed);
    WrappedIndexIs(aa, e);
    var src := WrappedIndex(aa, e);
    var halfOffset := if minus then HALF * LADDER else 0;
    var lbase := b * SIZE * LADDER + halfOffset;
    ghost var j := src + if minus then HALF else 0;
    RungFits(b, j, d, batch);
    assert lbase + src * LADDER + d == Rung(b, j, d);
    pt := affine[lbase + src * LADDER + d];
    ghost var x := PairValue(c, pt);
    GoodPairIs(c, pt);
    if sign != 0 {
      PairNegIs(c, pt, x);
      pt := PairNeg(pt, p);
      x := c.g.neg(x);
    }
    if minus && e > aa {
      PairNegIs(c, pt, x);
      pt := PairNeg(pt, p);
    }
  }

  /** One thread: the taps of one bucket, read from the folded ladder. */
  method AccumulateTaps<G(!new)>(affine: seq<AffinePair>, items: seq<int>, lo: int, hi: int, b: nat, minus: bool,
                                 aa: nat, batch: nat, p: int, ghost c: Reading<G>)
    returns (acc: Jacobian)
    requires Homomorphic(c) && c.p == p && RungsGood(c, affine, batch) && 0 <= lo <= hi <= |items| && aa < HALF
    requires b < batch && forall i :: 0 <= i < |items| ==> ValidTap(items[i])
    ensures Is(c, acc, SeqSum(c.g, items[lo..hi], LadderTaps(c, affine, b, minus, aa)))
  {
    hide Homomorphic, RungsGood, ValidTap, LadderTaps, Is, PairIs, SeqSum, G1Madd, G1Identity;
    HomomorphicParts(c);
    ghost var f := LadderTaps(c, affine, b, minus, aa);
    acc := G1Identity(p);
    IdentityIs(c);
    EmptySum(c.g, items[lo..lo], f);
    for it := lo to hi
      invariant Is(c, acc, SeqSum(c.g, items[lo..it], f))
    {
      var packed := items[it];
      var pt := ReadTap(affine, packed, b, minus, aa, batch, p, c);
      assert items[lo..it + 1] == items[lo..it] + [packed];
      SeqSumPush(c.g, items[lo..it], packed, f);
      MaddIs(c, acc, pt, SeqSum(c.g, items[lo..it], f), f(packed));
      acc := G1Madd(acc, pt, p);
    }
  }

  /** Which half, and which of its outputs, workgroup a computes. */
  function IsMinus(a: nat): bool {
    a >= HALF
  }

  function HalfIndex(a: nat): nat {
    if IsMinus(a) then a - HALF else a
  }

  function TableFor(plus: HalfTable, minus: HalfTable, a: nat): HalfTable {
    if IsMinus(a) then minus else plus
  }

  /** What bucket k of workgroup (a, b) accumulates. */
  ghost function SplitValue<G(!new)>(c: Reading<G>, affine: seq<AffinePair>, h: HalfTable, b: nat, a: nat, k: int): G {
    BucketSum(c.g, LadderTaps(c, affine, b, IsMinus(a), HalfIndex(a)), h.items, h.offsets, k)
  }

  lemma TableBounds(h: HalfTable, k: nat)
    requires ValidTable(h) && k < NUM_BUCKETS
    ensures |h.offsets| == NUM_BUCKETS + 1 && 0 <= h.offsets[k] <= h.offsets[k + 1] <= |h.items|
    ensures forall i :: 0 <= i < |h.items| ==> ValidTap(h.items[i])
  {
  }

  lemma TablePerm(h: HalfTable)
    requires ValidTable(h)
    ensures |h.perm| == NUM_BUCKETS && (forall t :: 0 <= t < NUM_BUCKETS ==> 0 <= h.perm[t] < NUM_BUCKETS)
    ensures |h.offsets| == NUM_BUCKETS + 1 && forall k :: 0 <= k < NUM_BUCKETS ==> k in h.perm
  {
  }

  /** One thread of workgroup (a, b). */
  method SplitThread<G(!new)>(affine: seq<AffinePair>, h: HalfTable, a: nat, b: nat, bucket: nat, batch: nat, p: int,
                              ghost c: Reading<G>)
    returns (acc: Jacobian)
    requires Homomorphic(c) && c.p == p && RungsGood(c, affine, batch)
    requires ValidTable(h) && a < SIZE && b < batch && bucket < NUM_BUCKETS
    ensures Is(c, acc, SplitValue(c, affine, h, b, a, bucket))
  {
    hide Homomorphic, RungsGood, ValidTable, ValidTap, LadderTaps, SeqSum, Is;
    TableBounds(h, bucket);
    acc := AccumulateTaps(affine, h.items, h.offsets[bucket], h.offsets[bucket + 1], b, IsMinus(a), HalfIndex(a), batch,
                          p, c);
    BucketSumIs(c.g, LadderTaps(c, affine, b, IsMinus(a), HalfIndex(a)), h.items, h.offsets, bucket);
  }

  /** Only output o's buckets may differ. */
  ghost predicate OthersKept<G>(now: seq<G>, was: seq<G>, o: nat) {
    |now| == |was| && forall q: nat :: q < |now| && q / NUM_BUCKETS != o ==> now[q] == was[q]
  }

  lemma KeptByWrite<G>(now: seq<G>, was: seq<G>, o: nat, k: nat, x: G)
    requires OthersKept(now, was, o) && k < NUM_BUCKETS && Place(o, k) < |now|
    ensures OthersKept(now[Place(o, k) := x], was, o)
  {
    PlacesOf(o);
  }

  lemma NothingChanged<G>(s: seq<G>, o: nat)
    ensures OthersKept(s, s, o)
  {
  }

  /** The buckets of workgroup (a, b) listed in the table's order outside pending are done, and no other output is
      touched. */
  ghost predicate SplitDone<G(!new)>(c: Reading<G>, now: seq<Jacobian>, was: seq<Jacobian>, affine: seq<AffinePair>,
                                     h: HalfTable, b: nat, a: nat, pending: set<nat>) {
    && BucketsDone(c, now, LadderTaps(c, affine, b, IsMinus(a), HalfIndex(a)), b * SIZE + a, h.items, h.offsets, h.perm, pending)
    && OthersKept(now, was, b * SIZE + a)
  }

  lemma SplitStarts<G(!new)>(c: Reading<G>, was: seq<Jacobian>, affine: seq<AffinePair>, h: HalfTable, b: nat, a: nat)
    requires ValidTable(h)
    ensures SplitDone(c, was, was, affine, h, b, a, Invocations(NUM_BUCKETS))
  {
    hide BucketsDone, OthersKept, LadderTaps;
    NoneDone(c, was, LadderTaps(c, affine, b, IsMinus(a), HalfIndex(a)), b * SIZE + a, h.items, h.offsets, h.perm,
             Invocations(NUM_BUCKETS));
    NothingChanged(was, b * SIZE + a);
  }

  lemma SplitWritten<G(!new)>(c: Reading<G>, now: seq<Jacobian>, was: seq<Jacobian>, affine: seq<AffinePair>,
                              h: HalfTable, b: nat, a: nat, pending: set<nat>, tid: nat, acc: Jacobian)
    requires ValidTable(h) && tid < NUM_BUCKETS && Place(b * SIZE + a, NUM_BUCKETS) <= |now|
    requires SplitDone(c, now, was, affine, h, b, a, pending)
    requires 0 <= h.perm[tid] && Is(c, acc, SplitValue(c, affine, h, b, a, h.perm[tid]))
    ensures h.perm[tid] < NUM_BUCKETS && Place(b * SIZE + a, h.perm[tid]) < |now|
    ensures SplitDone(c, now[Place(b * SIZE + a, h.perm[tid]) := acc], was, affine, h, b, a, pending - {tid})
  {
    hide BucketsDone, OthersKept, BucketSum, LadderTaps, Is;
    BucketWritten(c, now, LadderTaps(c, affine, b, IsMinus(a), HalfIndex(a)), b * SIZE + a, h.items, h.offsets, h.perm,
                  pending, tid, acc);
    KeptByWrite(now, was, b * SIZE + a, h.perm[tid], acc);
  }

  lemma SplitFinished<G(!new)>(c: Reading<G>, now: seq<Jacobian>, was: seq<Jacobian>, affine: seq<AffinePair>,
                               h: HalfTable, b: nat, a: nat)
    requires ValidTable(h) && SplitDone(c, now, was, affine, h, b, a, {})
    ensures OutputReady(c, now, affine, h, b, a) && OthersKept(now, was, b * SIZE + a)
  {
    hide BucketsDone, OthersKept, BucketSum, LadderTaps, Is;
    AllDone(c, now, LadderTaps(c, affine, b, IsMinus(a), HalfIndex(a)), b * SIZE + a, h.items, h.offsets, h.perm);
  }

  /** Workgroup (a, b): its 128 threads in any order. */
  method SplitWorkgroup<G(!new)>(buckets: array<Jacobian>, affine: seq<AffinePair>, plus: HalfTable, minus: HalfTable,
                                 a: nat, b: nat, batch: nat, p: int, ghost c: Reading<G>)
    requires Homomorphic(c) && c.p == p && RungsGood(c, affine, batch)
    requires ValidTable(plus) && ValidTable(minus) && a < SIZE && b < batch
    requires Place(b * SIZE + a, NUM_BUCKETS) <= buckets.Length
    modifies buckets
    ensures OutputReady(c, buckets[..], affine, TableFor(plus, minus, a), b, a)
    ensures OthersKept(buckets[..], old(buckets[..]), b * SIZE + a)
  {
    hide Homomorphic, RungsGood, ValidTable, SplitDone, SplitValue, OutputReady, OthersKept, Is, IsMinus, HalfIndex;
    var h := TableFor(plus, minus, a);
    TablePerm(h);
    SplitStarts(c, buckets[..], affine, h, b, a);
    var pending: set<nat> := Invocations(NUM_BUCKETS);
    while pending != {}
      invariant forall t: nat :: t in pending ==> t < NUM_BUCKETS
      invariant SplitDone(c, buckets[..], old(buckets[..]), affine, h, b, a, pending)
      decreases |pending|
    {
      var tid :| tid in pending;
      var bucket := h.perm[tid];
      var acc := SplitThread(affine, h, a, b, bucket, batch, p, c);
      SplitWritten(c, buckets[..], old(buckets[..]), affine, h, b, a, pending, tid, acc);
      ghost var was := buckets[..];
      buckets[Place(b * SIZE + a, bucket)] := acc;
      assert buckets[..] == was[Place(b * SIZE + a, bucket) := acc];
      pending := pending - {tid};
    }
    SplitFinished(c, buckets[..], old(buckets[..]), affine, h, b, a);
  }

  ghost predicate SplitReady<G(!new)>(c: Reading<G>, buckets: seq<Jacobian>, affine: seq<AffinePair>, plus: HalfTable,
                                      minus: HalfTable, batch: nat, pending: set<(nat, nat)>) {
    forall a: nat, b: nat :: a < SIZE && b < batch && (a, b) !in pending ==>
      OutputReady(c, buckets, affine, TableFor(plus, minus, a), b, a)
  }

  ghost predicate OutputReady<G(!new)>(c: Reading<G>, buckets: seq<Jacobian>, affine: seq<AffinePair>, h: HalfTable,
                                       b: nat, a: nat) {
    forall k: nat :: k < NUM_BUCKETS ==> BucketReady(c, buckets, affine, h, b, a, k)
  }

  ghost predicate BucketReady<G(!new)>(c: Reading<G>, buckets: seq<Jacobian>, affine: seq<AffinePair>, h: HalfTable,
                                       b: nat, a: nat, k: nat) {
    && Place(b * SIZE + a, k) < |buckets|
    && Is(c, buckets[Place(b * SIZE + a, k)], SplitValue(c, affine, h, b, a, k))
  }

  lemma OutputKept<G(!new)>(c: Reading<G>, now: seq<Jacobian>, was: seq<Jacobian>, affine: seq<AffinePair>,
                            h: HalfTable, b: nat, a: nat, o: nat)
    requires OutputReady(c, was, affine, h, b, a) && b * SIZE + a != o && OthersKept(now, was, o)
    ensures OutputReady(c, now, affine, h, b, a)
  {
    hide SplitValue, Is;
    PlacesOf(b * SIZE + a);
    forall k: nat | k < NUM_BUCKETS ensures BucketReady(c, now, affine, h, b, a, k) {
      assert BucketReady(c, was, affine, h, b, a, k);
    }
  }

  /** The split dispatch, workgroups in any order. */
  method SplitDispatch<G(!new)>(buckets: array<Jacobian>, affine: array<AffinePair>, plus: HalfTable, minus: HalfTable,
                                batch: nat, p: int, ghost c: Reading<G>)
    requires Homomorphic(c) && c.p == p && RungsGood(c, affine[..], batch)
    requires ValidTable(plus) && ValidTable(minus) && batch * SIZE * NUM_BUCKETS <= buckets.Length
    modifies buckets
    ensures affine[..] == old(affine[..]) && SplitReady(c, buckets[..], affine[..], plus, minus, batch, {})
  {
    hide Homomorphic, RungsGood, ValidTable, OutputReady, OthersKept;
    ghost var rungs := affine[..];
    var pending: set<(nat, nat)> := Grid(SIZE, batch);
    while pending != {}
      invariant forall w :: w in pending ==> 0 <= w.0 < SIZE && 0 <= w.1 < batch
      invariant affine[..] == rungs && SplitReady(c, buckets[..], rungs, plus, minus, batch, pending)
      decreases |pending|
    {
      var w :| w in pending;
      var (a, b) := w;
      ghost var was := buckets[..];
      PlaceFits(b * SIZE + a, batch * SIZE);
      SplitWorkgroup(buckets, affine[..], plus, minus, a, b, batch, p, c);
      forall a': nat, b': nat | a' < SIZE && b' < batch && (a', b') !in pending
        ensures OutputReady(c, buckets[..], rungs, TableFor(plus, minus, a'), b', a')
      {
        OutputUnique(a, b, a', b');
        OutputKept(c, buckets[..], was, rungs, TableFor(plus, minus, a'), b', a', b * SIZE + a);
      }
      pending := pending - {w};
    }
  }

  lemma OutputUnique(a: nat, b: nat, a': nat, b': nat)
    requires a < SIZE && a' < SIZE
    ensures b * SIZE + a == b' * SIZE + a' ==> a == a' && b == b'
  {
    DivModUnique(b * SIZE + a, SIZE, b, a);
    DivModUnique(b' * SIZE + a', SIZE, b', a');
  }

  // ------------------------------------------------------------ what each half computes

  /** Output a of one half: its taps against the (sign-adjusted) folded points. */
  ghost function HalfOutput<G(!new)>(g: Group<G>, h: HalfTable, u: seq<G>, b: nat, minus: bool, a: nat): G {
    GSum(g, HALF, e => Smul(g, HalfTap(h, e), HalfPoint(g, u, b, minus, a, e)))
  }

  ghost function HalfPoints<G(!new)>(g: Group<G>, u: seq<G>, b: nat, minus: bool, a: nat): int -> G {
    e => HalfPoint(g, u, b, minus, a, e)
  }

  lemma SplitBucket<G(!new)>(c: Reading<G>, affine: seq<AffinePair>, u: seq<G>, h: HalfTable, batch: nat, b: nat,
                             a: nat, k: nat)
    requires IsAbelian(c.g) && FoldHolds(c.g, PairValues(c, affine), u, batch)
    requires ValidTable(h) && a < SIZE && b < batch && k < NUM_BUCKETS
    ensures SplitValue(c, affine, h, b, a, k)
         == GSum(c.g, HALF, TapTerms(c.g, TableBucket(h, k), HalfPoints(c.g, u, b, IsMinus(a), HalfIndex(a))))
  {
    hide Smul, IsAbelian, FoldHolds, ValidTap, TapPoint, HalfPoint, TapWeight, TapSum, GSum, SeqSum, TapIndex,
      BucketSum, TapTerms, PairValues;
    var g, folded := c.g, PairValues(c, affine);
    var f, v := Taps(g, folded, b, IsMinus(a), HalfIndex(a)), HalfPoints(g, u, b, IsMinus(a), HalfIndex(a));
    var s := TableBucket(h, k);
    BucketSumIs(g, f, h.items, h.offsets, k);
    forall i | 0 <= i < |s| ensures ValidTap(s[i]) && f(s[i]) == Smul(g, TapWeight(s[i]), v(TapIndex(s[i]))) {
      assert s[i] == h.items[h.offsets[k] + i];
      TapPointIs(g, folded, u, batch, b, IsMinus(a), HalfIndex(a), s[i]);
    }
    BucketOfTaps(g, s, f, v);
  }

  lemma HalfReduced<G(!new)>(c: Reading<G>, buckets: seq<Jacobian>, affine: seq<AffinePair>, u: seq<G>,
                             plus: HalfTable, minus: HalfTable, batch: nat, b: nat, a: nat)
    requires IsAbelian(c.g) && FoldHolds(c.g, PairValues(c, affine), u, batch)
    requires ValidTable(plus) && ValidTable(minus) && a < SIZE && b < batch
    requires SplitReady(c, buckets, affine, plus, minus, batch, {})
    ensures Reduced(c.g, Values(c, buckets), b * SIZE + a)
         == HalfOutput(c.g, TableFor(plus, minus, a), u, b, IsMinus(a), HalfIndex(a))
  {
    hide Smul, IsAbelian, FoldHolds, ValidTable, HalfPoint, TapSum, GSum, SplitValue, TapUpTo, TableBucket, Weighted,
      PairValues, Good, Value;
    var g, h, v := c.g, TableFor(plus, minus, a), HalfPoints(c.g, u, b, IsMinus(a), HalfIndex(a));
    assert OutputReady(c, buckets, affine, h, b, a);
    var family := BucketsOf(g, Values(c, buckets), b * SIZE + a);
    forall k | 0 <= k < NUM_BUCKETS ensures family(k) == GSum(g, HALF, TapTerms(g, TableBucket(h, k), v)) {
      assert BucketReady(c, buckets, affine, h, b, a, k);
      SplitBucket(c, affine, u, h, batch, b, a, k);
    }
    BucketsOfTaps(g, h, NUM_BUCKETS, family, v);
    GSumEq(g, HALF, e => Smul(g, TapUpTo(h, NUM_BUCKETS, e), v(e)),
           e => Smul(g, HalfTap(h, e), HalfPoint(g, u, b, IsMinus(a), HalfIndex(a), e)));
  }

  // ------------------------------------------------------------ recombination

  ghost predicate Combined(out: seq<Jacobian>, reduced: seq<Jacobian>, a: nat, b: nat, p: int)
    requires a < HALF && p > 0
  {
    var lo := b * SIZE + a;
    && lo + HALF < |out| && lo + HALF < |reduced|
    && out[lo] == G1Add(reduced[lo], reduced[lo + HALF], p) && out[lo + HALF] == G1Sub(reduced[lo], reduced[lo + HALF], p)
  }

  ghost predicate CombinedExcept(out: seq<Jacobian>, reduced: seq<Jacobian>, batch: nat, pending: set<(nat, nat)>,
                                 p: int)
    requires p > 0
  {
    forall a: nat, b: nat :: a < HALF && b < batch && (a, b) !in pending ==> Combined(out, reduced, a, b, p)
  }

  method Combine(out: array<Jacobian>, reduced: array<Jacobian>, batch: nat, p: int)
    requires p > 0 && out != reduced && batch * SIZE <= out.Length && batch * SIZE <= reduced.Length
    modifies out
    ensures CombinedExcept(out[..], reduced[..], batch, {}, p)
  {
    hide Combined;
    ghost var cs := reduced[..];
    var pending: set<(nat, nat)> := Grid(HALF, batch);
    while pending != {}
      invariant forall w :: w in pending ==> 0 <= w.0 < HALF && 0 <= w.1 < batch
      invariant reduced[..] == cs && CombinedExcept(out[..], cs, batch, pending, p)
      decreases |pending|
    {
      var w :| w in pending;
      var (a, b) := w;
      CombineThread(out, reduced, a, b, batch, p);
      pending := pending - {w};
    }
  }

  method CombineThread(out: array<Jacobian>, reduced: array<Jacobian>, a: nat, b: nat, batch: nat, p: int)
    requires out != reduced && batch * SIZE <= out.Length && batch * SIZE <= reduced.Length && a < HALF && b < batch
    requires p > 0
    modifies out
    ensures Combined(out[..], reduced[..], a, b, p)
    ensures forall a': nat, b': nat :: a' < HALF && (a', b') != (a, b) && old(Combined(out[..], reduced[..], a', b', p)) ==>
      Combined(out[..], reduced[..], a', b', p)
  {
    hide G1Add, G1Sub;
    var lo := b * SIZE + a;
    ghost var was, cs := out[..], reduced[..];
    var cp, cm := reduced[lo], reduced[lo + HALF];
    out[lo] := G1Add(cp, cm, p);
    out[lo + HALF] := G1Sub(cp, cm, p);
    assert out[..] == was[lo := G1Add(cp, cm, p)][lo + HALF := G1Sub(cp, cm, p)];
    forall a': nat, b': nat | a' < HALF && (a', b') != (a, b) && Combined(was, cs, a', b', p)
      ensures Combined(out[..], cs, a', b', p)
    {
      OutputUnique(a, b, a', b');
      OutputUnique(a, b, a' + HALF, b');
      OutputUnique(a + HALF, b, a', b');
    }
  }

  // ------------------------------------------------------------ the circulant

  /** The full kernel the two halves stand for. */
  ghost function Tap(plus: HalfTable, minus: HalfTable, e: int): int {
    if e < HALF then HalfTap(plus, e) + HalfTap(minus, e) else HalfTap(plus, e - HALF) - HalfTap(minus, e - HALF)
  }

  /** The half-kernels are half the sum and half the difference of the kernel's two halves. */
  lemma TapHalves(plus: HalfTable, minus: HalfTable, e: nat)
    requires e < HALF
    ensures Tap(plus, minus, e) + Tap(plus, minus, e + HALF) == 2 * HalfTap(plus, e)
    ensures Tap(plus, minus, e) - Tap(plus, minus, e + HALF) == 2 * HalfTap(minus, e)
  {
    hide HalfTap;
  }

  ghost function PointAt<G(!new)>(g: Group<G>, u: seq<G>, b: nat, j: int): G {
    if 0 <= j < SIZE && b * SIZE + j < |u| then u[b * SIZE + j] else g.zero
  }

  ghost function CirculantTerm<G(!new)>(g: Group<G>, plus: HalfTable, minus: HalfTable, u: seq<G>, b: nat, a: nat,
                                        e: int): G {
    Smul(g, Tap(plus, minus, e), PointAt(g, u, b, (a - e) % SIZE))
  }

  /** Output a of the circulant: tap e multiplies point a - e, indices modulo 128. */
  ghost function Circulant<G(!new)>(g: Group<G>, plus: HalfTable, minus: HalfTable, u: seq<G>, b: nat, a: nat): G {
    GSum(g, SIZE, e => CirculantTerm(g, plus, minus, u, b, a, e))
  }

  /** A kernel moves the point at j to output j + e with the weight of tap e: what one point contributes, by output. */
  lemma Impulse<G(!new)>(g: Group<G>, plus: HalfTable, minus: HalfTable, u: seq<G>, b: nat, j: nat, e: nat)
    requires IsAbelian(g) && j < SIZE && e < SIZE && 0 <= b * SIZE && b * SIZE + SIZE <= |u|
    requires forall q: nat :: b * SIZE <= q < b * SIZE + SIZE && q != b * SIZE + j ==> u[q] == g.zero
    ensures Circulant(g, plus, minus, u, b, (j + e) % SIZE) == Smul(g, Tap(plus, minus, e), u[b * SIZE + j])
  {
    hide Smul, IsAbelian, Tap, GSum;
    var a := (j + e) % SIZE;
    forall i | 0 <= i < SIZE && i != e ensures CirculantTerm(g, plus, minus, u, b, a, i) == g.zero {
      var q := (a - i) % SIZE;
      assert q != j;
      assert PointAt(g, u, b, q) == g.zero by {
        assert b * SIZE + q != b * SIZE + j;
      }
      SmulZeroPoint(g, Tap(plus, minus, i));
    }
    assert (a - e) % SIZE == j;
    GSumSingle(g, SIZE, e, i => CirculantTerm(g, plus, minus, u, b, a, i));
  }

  /** hp (x + y) + hm (x - y) == (hp + hm) x + (hp - hm) y. */
  lemma SplitTerm<G(!new)>(g: Group<G>, hp: int, hm: int, x: G, y: G)
    requires IsAbelian(g)
    ensures g.add(Smul(g, hp, g.add(x, y)), Smul(g, hm, Sub(g, x, y)))
         == g.add(Smul(g, hp + hm, x), Smul(g, hp - hm, y))
  {
    hide Smul, IsAbelian;
    SmulPoint(g, hp, x, y);
    SmulPoint(g, hm, x, g.neg(y));
    SmulOfNeg(g, hm, y);
    Interchange(g, Smul(g, hp, x), Smul(g, hp, y), Smul(g, hm, x), Smul(g, -hm, y));
    SmulAdd(g, hp, hm, x);
    SmulAdd(g, hp, -hm, y);
  }

  lemma NegSub<G(!new)>(g: Group<G>, x: G, y: G)
    requires IsAbelian(g)
    ensures g.neg(Sub(g, x, y)) == Sub(g, y, x) && g.add(x, y) == g.add(y, x)
  {
    hide IsAbelian;
    NegAdd(g, x, g.neg(y));
    NegNeg(g, y);
    LawsAt(g, g.neg(x), y, x);
    LawsAt(g, x, y, x);
  }

  /** Where tap e and tap e + 64 of the circulant reach, for output a below 64. */
  lemma Reach(a: nat, e: nat)
    requires a < HALF && e < HALF
    ensures (a - e) % SIZE == if e > a then WrappedIndex(a, e) + HALF else WrappedIndex(a, e)
    ensures (a - (HALF + e)) % SIZE == if e > a then WrappedIndex(a, e) else WrappedIndex(a, e) + HALF
    ensures (a + HALF - e) % SIZE == if e > a then WrappedIndex(a, e) else WrappedIndex(a, e) + HALF
    ensures (a + HALF - (HALF + e)) % SIZE == if e > a then WrappedIndex(a, e) + HALF else WrappedIndex(a, e)
    ensures 0 <= WrappedIndex(a, e) < HALF
  {
    WrappedIndexIs(a, e);
  }

  /** Tap e of the halves, recombined, is taps e and e + 64 of the circulant. */
  lemma TermsAgree<G(!new)>(g: Group<G>, plus: HalfTable, minus: HalfTable, u: seq<G>, b: nat, a: nat, e: nat)
    requires IsAbelian(g) && a < HALF && e < HALF && b * SIZE + SIZE <= |u|
    ensures var hp, hm := Smul(g, HalfTap(plus, e), HalfPoint(g, u, b, false, a, e)), Smul(g, HalfTap(minus, e), HalfPoint(g, u, b, true, a, e));
      && g.add(hp, hm) == g.add(CirculantTerm(g, plus, minus, u, b, a, e), CirculantTerm(g, plus, minus, u, b, a, HALF + e))
      && Sub(g, hp, hm) == g.add(CirculantTerm(g, plus, minus, u, b, a + HALF, e), CirculantTerm(g, plus, minus, u, b, a + HALF, HALF + e))
  {
    Reach(a, e);
    var s := WrappedIndex(a, e);
    var x, y := u[b * SIZE + s], u[b * SIZE + s + HALF];
    var tp, tm := HalfTap(plus, e), HalfTap(minus, e);
    FoldedAt(g, u, b, s);
    var plusPoint, minusPoint := HalfPoint(g, u, b, false, a, e), HalfPoint(g, u, b, true, a, e);
    assert plusPoint == g.add(x, y);
    if e > a {
      assert minusPoint == g.neg(Sub(g, x, y));
      hide *;
      NegSub(g, x, y);
      RecombinedTerm(g, tp, tm, y, x);
    } else {
      assert minusPoint == Sub(g, x, y);
      hide *;
      RecombinedTerm(g, tp, tm, x, y);
    }
  }

  lemma FoldedAt<G(!new)>(g: Group<G>, u: seq<G>, b: nat, s: nat)
    requires s < HALF && b * SIZE + SIZE <= |u|
    ensures Folded(g, u, b, s) == g.add(u[b * SIZE + s], u[b * SIZE + s + HALF])
    ensures Folded(g, u, b, s + HALF) == Sub(g, u[b * SIZE + s], u[b * SIZE + s + HALF])
    ensures PointAt(g, u, b, s) == u[b * SIZE + s] && PointAt(g, u, b, s + HALF) == u[b * SIZE + s + HALF]
  {
  }

  /** Sum and difference of the two half terms. */
  lemma RecombinedTerm<G(!new)>(g: Group<G>, hp: int, hm: int, x: G, y: G)
    requires IsAbelian(g)
    ensures g.add(Smul(g, hp, g.add(x, y)), Smul(g, hm, Sub(g, x, y)))
         == g.add(Smul(g, hp + hm, x), Smul(g, hp - hm, y))
    ensures Sub(g, Smul(g, hp, g.add(x, y)), Smul(g, hm, Sub(g, x, y)))
         == g.add(Smul(g, hp + hm, y), Smul(g, hp - hm, x))
  {
    hide Smul, IsAbelian;
    SplitTerm(g, hp, hm, x, y);
    SplitTerm(g, hp, -hm, x, y);
    SmulOfNeg(g, hm, Sub(g, x, y));
    LawsAt(g, Smul(g, hp + hm, y), Smul(g, hp - hm, x), x);
  }

  lemma HalvesAgree<G(!new)>(g: Group<G>, plus: HalfTable, minus: HalfTable, u: seq<G>, b: nat, a: nat)
    requires IsAbelian(g) && a < HALF && b * SIZE + SIZE <= |u|
    ensures var cp, cm := HalfOutput(g, plus, u, b, false, a), HalfOutput(g, minus, u, b, true, a);
      g.add(cp, cm) == Circulant(g, plus, minus, u, b, a) && Sub(g, cp, cm) == Circulant(g, plus, minus, u, b, a + HALF)
  {
    hide Smul, IsAbelian, HalfTap, HalfPoint, CirculantTerm, GSum;
    var p := e => Smul(g, HalfTap(plus, e), HalfPoint(g, u, b, false, a, e));
    var m := e => Smul(g, HalfTap(minus, e), HalfPoint(g, u, b, true, a, e));
    forall e: nat | e < HALF
      ensures g.add(p(e), m(e))
           == g.add(CirculantTerm(g, plus, minus, u, b, a, e), CirculantTerm(g, plus, minus, u, b, a, HALF + e))
      ensures Sub(g, p(e), m(e))
           == g.add(CirculantTerm(g, plus, minus, u, b, a + HALF, e), CirculantTerm(g, plus, minus, u, b, a + HALF, HALF + e))
    {
      TermsAgree(g, plus, minus, u, b, a, e);
    }
    GSumAdd(g, HALF, p, m);
    GSumSub(g, HALF, p, m);
    TwoHalves(g, HALF, e => g.add(p(e), m(e)), e => CirculantTerm(g, plus, minus, u, b, a, e));
    TwoHalves(g, HALF, e => Sub(g, p(e), m(e)), e => CirculantTerm(g, plus, minus, u, b, a + HALF, e));
  }

  /** Folding a sum of 2n terms onto n. */
  lemma TwoHalves<G(!new)>(g: Group<G>, n: nat, f: int -> G, t: int -> G)
    requires IsAbelian(g) && forall e: nat :: e < n ==> f(e) == g.add(t(e), t(n + e))
    ensures GSum(g, n, f) == GSum(g, n + n, t)
  {
    hide IsAbelian;
    GSumSplit(g, n, n, t);
    GSumAdd(g, n, t, e => t(n + e));
    GSumEq(g, n, f, e => g.add(t(e), (e => t(n + e))(e)));
  }

  lemma GSumSub<G(!new)>(g: Group<G>, n: nat, f: int -> G, h: int -> G)
    requires IsAbelian(g)
    ensures GSum(g, n, i => Sub(g, f(i), h(i))) == Sub(g, GSum(g, n, f), GSum(g, n, h))
  {
    hide IsAbelian, GSum, Smul;
    GSumSmul(g, n, -1, h);
    GSumAdd(g, n, f, i => Smul(g, -1, h(i)));
    SmulOne(g, GSum(g, n, h));
    forall i | 0 <= i < n ensures Sub(g, f(i), h(i)) == g.add(f(i), Smul(g, -1, h(i))) {
      SmulOne(g, h(i));
    }
    GSumEq(g, n, i => Sub(g, f(i), h(i)), i => g.add(f(i), (i => Smul(g, -1, h(i)))(i)));
  }

  // ------------------------------------------------------------ phase B

  /** The folded ladders in affine coordinates: doubling ladder, fold and batched inversion. */
  method AffineLadder<G(!new)>(affine: array<AffinePair>, points: array<Jacobian>, ladder: array<Jacobian>,
                               folded: array<Jacobian>, scratch: array<int>, batch: nat, p: int, ghost c: Reading<G>)
    requires Homomorphic(c) && c.p == p && points != ladder && points != folded && ladder != folded
    requires batch * SIZE <= points.Length && forall o: nat :: o < batch * SIZE ==> Good(c, points[o])
    requires batch * SIZE * LADDER <= ladder.Length && batch * SIZE * LADDER <= folded.Length
    requires batch * SIZE * LADDER <= affine.Length && batch * SIZE * LADDER <= scratch.Length
    modifies affine, ladder, folded, scratch
    ensures points[..] == old(points[..])
    ensures RungsGood(c, affine[..], batch) && FoldHolds(c.g, PairValues(c, affine[..]), Values(c, points[..]), batch)
  {
    hide Homomorphic, Good, LadderHolds, FoldDone, FoldHolds, Values, PairValues, RungsGood, N.NormalRange,
      N.AllInField;
    HomomorphicParts(c);
    ghost var u := points[..];
    Ladder(ladder, points, batch * SIZE, p, c);
    Fold(folded, ladder, batch, p, c, u);
    var count := batch * SIZE * LADDER;
    ghost var jacobian := folded[..count];
    FoldPrefix(c, folded[..], Values(c, u), batch);
    N.Normalize(affine, scratch, folded[..count], count, N.InversionChunk(count, 32, 128, 8192), p);
    NormalizedFold(c, affine[..], jacobian, Values(c, u), batch);
  }

  /** The first rungs are all the folded ladders, and their coordinates are residues. */
  lemma FoldPrefix<G(!new)>(c: Reading<G>, folded: seq<Jacobian>, u: seq<G>, batch: nat)
    requires FoldDone(c, folded, u, batch) && batch * SIZE * LADDER <= |folded|
    ensures FoldDone(c, folded[..batch * SIZE * LADDER], u, batch)
    ensures N.AllInField(folded[..batch * SIZE * LADDER], c.p)
  {
    hide Good, Value, Smul, Pow, Folded, Rung;
    var count := batch * SIZE * LADDER;
    forall b: nat, j: nat, d: nat | b < batch && j < SIZE && d < LADDER ensures Rung(b, j, d) < count {
      RungFits(b, j, d, batch);
    }
    forall i: nat | i < count ensures InField(folded[i], c.p) {
      RungOf(i, batch);
      var b, j, d := i / LADDER / SIZE, i / LADDER % SIZE, i % LADDER;
      assert Is(c, folded[Rung(b, j, d)], Smul(c.g, Pow(256, d), Folded(c.g, u, b, j)));
      GoodInField(c, folded[i]);
    }
  }

  lemma RungOf(i: nat, batch: nat)
    requires i < batch * SIZE * LADDER
    ensures 0 <= i / LADDER / SIZE < batch && Rung(i / LADDER / SIZE, i / LADDER % SIZE, i % LADDER) == i
  {
    DivNonneg(i, LADDER);
    DivNonneg(i / LADDER, SIZE);
  }

  /** Ladder, fold, normalization, split accumulation, reduction and recombination: every output stands for the
      circulant of the input points, for whatever half-kernels the tables encode. The points buffer is reused for
      the reduced halves. */
  method PhaseB<G(!new)>(proofs: array<Jacobian>, points: array<Jacobian>, buckets: array<Jacobian>,
                         ladder: array<Jacobian>, folded: array<Jacobian>, affine: array<AffinePair>,
                         scratch: array<int>, plus: HalfTable, minus: HalfTable, batch: nat, log: nat,
                         undef: Garbage, p: int, ghost c: Reading<G>)
    requires Homomorphic(c) && c.p == p && ValidTable(plus) && ValidTable(minus)
    requires log <= 5 && forall x: nat, b: nat :: Shaped(undef(x, b), log, WORKGROUP)
    requires proofs != points && points != buckets && points != ladder && points != folded && ladder != folded
    requires batch * SIZE <= proofs.Length && batch * SIZE <= points.Length
    requires forall o: nat :: o < batch * SIZE ==> Good(c, points[o])
    requires batch * SIZE * NUM_BUCKETS <= buckets.Length
    requires batch * SIZE * LADDER <= ladder.Length && batch * SIZE * LADDER <= folded.Length
    requires batch * SIZE * LADDER <= affine.Length && batch * SIZE * LADDER <= scratch.Length
    modifies proofs, points, buckets, ladder, folded, affine, scratch
    ensures forall a: nat, b: nat :: a < SIZE && b < batch ==>
      b * SIZE + a < proofs.Length &&
      Is(c, proofs[b * SIZE + a], Circulant(c.g, plus, minus, Values(c, old(points[..])), b, a))
  {
    hide Homomorphic, Good, ValidTable, FoldHolds, RungsGood, SplitReady, Reduced, CombinedExcept, Circulant, Values,
      PairValues, Shaped, BlobGood, Stored, Is;
    HomomorphicParts(c);
    ghost var u := Values(c, points[..]);
    AffineLadder(affine, points, ladder, folded, scratch, batch, p, c);
    SplitDispatch(buckets, affine, plus, minus, batch, p, c);
    ghost var rungs, sums, was := affine[..], buckets[..], points[..];
    SplitGood(c, sums, rungs, plus, minus, batch);
    Reduce(points, buckets, SIZE, batch, log, undef, p, c);
    Combine(proofs, points, batch, p);
    forall a: nat, b: nat | a < SIZE && b < batch
      ensures b * SIZE + a < proofs.Length && Is(c, proofs[b * SIZE + a], Circulant(c.g, plus, minus, u, b, a))
    {
      HalvesStored(c, points[..], was, sums, batch, b, a % HALF);
      OutputIsCirculant(c, proofs[..], points[..], sums, rungs, u, plus, minus, batch, b, a % HALF);
    }
  }

  lemma SplitGood<G(!new)>(c: Reading<G>, buckets: seq<Jacobian>, affine: seq<AffinePair>, plus: HalfTable,
                           minus: HalfTable, batch: nat)
    requires SplitReady(c, buckets, affine, plus, minus, batch, {})
    ensures forall b: nat :: b < batch ==> BlobGood(c, buckets, b, SIZE)
  {
    hide SplitValue, Value, Good;
    forall b: nat | b < batch ensures BlobGood(c, buckets, b, SIZE) {
      forall q: nat | q / OUTPUTS == b ensures OutputGood(c, buckets, q) {
        var a := q % OUTPUTS;
        assert OutputReady(c, buckets, affine, TableFor(plus, minus, a), b, a);
        forall k: nat | k < NUM_BUCKETS ensures Place(q, k) < |buckets| && Good(c, buckets[Place(q, k)]) {
          assert BucketReady(c, buckets, affine, TableFor(plus, minus, a), b, a, k);
        }
      }
    }
  }

  /** The reduction has left both halves of an output pair. */
  lemma HalvesStored<G(!new)>(c: Reading<G>, now: seq<Jacobian>, was: seq<Jacobian>, buckets: seq<Jacobian>,
                              batch: nat, b: nat, a: nat)
    requires |now| == |was| && batch * SIZE <= |now| && b < batch && a < HALF
    requires forall q: nat :: q < |now| ==> Stored(c, now, was, Values(c, buckets), q, IsOutput(q, batch, SIZE))
    ensures b * SIZE + a + HALF < |now|
    ensures Is(c, now[b * SIZE + a], Reduced(c.g, Values(c, buckets), b * SIZE + a))
    ensures Is(c, now[b * SIZE + a + HALF], Reduced(c.g, Values(c, buckets), b * SIZE + a + HALF))
  {
    hide Stored, Is, Reduced, Values;
    assert b * SIZE + SIZE <= batch * SIZE;
    StoredOutput(c, now, was, Values(c, buckets), b * SIZE + a, batch);
    StoredOutput(c, now, was, Values(c, buckets), b * SIZE + a + HALF, batch);
  }

  lemma OutputIsCirculant<G(!new)>(c: Reading<G>, out: seq<Jacobian>, reduced: seq<Jacobian>, buckets: seq<Jacobian>,
                                   affine: seq<AffinePair>, u: seq<G>, plus: HalfTable, minus: HalfTable, batch: nat,
                                   b: nat, a: nat)
    requires Homomorphic(c) && c.p > 0 && FoldHolds(c.g, PairValues(c, affine), u, batch)
    requires ValidTable(plus) && ValidTable(minus) && a < HALF && b < batch && batch * SIZE <= |u|
    requires SplitReady(c, buckets, affine, plus, minus, batch, {}) && CombinedExcept(out, reduced, batch, {}, c.p)
    requires b * SIZE + a + HALF < |reduced|
    requires Is(c, reduced[b * SIZE + a], Reduced(c.g, Values(c, buckets), b * SIZE + a))
    requires Is(c, reduced[b * SIZE + a + HALF], Reduced(c.g, Values(c, buckets), b * SIZE + a + HALF))
    ensures b * SIZE + a + HALF < |out|
    ensures Is(c, out[b * SIZE + a], Circulant(c.g, plus, minus, u, b, a))
    ensures Is(c, out[b * SIZE + a + HALF], Circulant(c.g, plus, minus, u, b, a + HALF))
  {
    hide Homomorphic, Is, FoldHolds, SplitReady, Reduced, Circulant, ValidTable, HalfOutput, Values, PairValues, G1Add,
      G1Sub;
    HomomorphicParts(c);
    assert Combined(out, reduced, a, b, c.p);
    HalfReduced(c, buckets, affine, u, plus, minus, batch, b, a);
    HalfReduced(c, buckets, affine, u, plus, minus, batch, b, a + HALF);
    var cp, cm := HalfOutput(c.g, plus, u, b, false, a), HalfOutput(c.g, minus, u, b, true, a);
    AddIs(c, reduced[b * SIZE + a], reduced[b * SIZE + a + HALF], cp, cm);
    SubIs(c, reduced[b * SIZE + a], reduced[b * SIZE + a + HALF], cp, cm);
    HalvesAgree(c.g, plus, minus, u, b, a);
  }
}
