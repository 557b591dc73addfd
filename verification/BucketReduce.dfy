/** Bucket reduction: teams of lanes collapse 128 buckets into the index-weighted sum by a serial
    pass per lane and a subgroup shuffle tree. */
module BucketReduce {
  import opened Modular
  import opened Bits
  import opened Dispatch
  import opened Curve
  import opened Group
  import opened CurveGroup
  import opened Recode

  // ------------------------------------------------------------ what lanes hold

  /** The index-weighted sum the reduction is for: f(0) + 2 f(1) + ... + n f(n - 1). */
  ghost function Weighted<G(!new)>(g: Group<G>, n: nat, f: int -> G): G {
    GSum(g, n, k => Smul(g, k + 1, f(k)))
  }

  /** Lane p's slice of `per` buckets, summed. */
  ghost function SliceSum<G(!new)>(g: Group<G>, per: nat, p: int, f: int -> G): G {
    GSum(g, per, i => f(p * per + i))
  }

  ghost function SliceWeighted<G(!new)>(g: Group<G>, per: nat, p: int, f: int -> G): G {
    Weighted(g, per, i => f(p * per + i))
  }

  /** Over a block of n lanes from p: plain sums, running sums, and sums weighted by the lane's place in the block. */
  ghost function BlockSum<G(!new)>(g: Group<G>, per: nat, p: int, n: nat, f: int -> G): G {
    GSum(g, n, q => SliceSum(g, per, p + q, f))
  }

  ghost function BlockWeighted<G(!new)>(g: Group<G>, per: nat, p: int, n: nat, f: int -> G): G {
    GSum(g, n, q => SliceWeighted(g, per, p + q, f))
  }

  ghost function BlockPlace<G(!new)>(g: Group<G>, per: nat, p: int, n: nat, f: int -> G): G {
    GSum(g, n, q => Smul(g, q, SliceSum(g, per, p + q, f)))
  }

  /** Three registers of a lane. */
  datatype Lane = Lane(s: Jacobian, w: Jacobian, rs: Jacobian)

  /** The registers of a block leader stand for the block's three sums. */
  ghost predicate HoldsBlock<G(!new)>(c: Reading<G>, lane: Lane, per: nat, pos: int, n: nat, f: int -> G) {
    && Is(c, lane.s, BlockSum(c.g, per, pos, n, f))
    && Is(c, lane.w, BlockPlace(c.g, per, pos, n, f))
    && Is(c, lane.rs, BlockWeighted(c.g, per, pos, n, f))
  }

  // ------------------------------------------------------------ the serial pass

  /** One step of the running sum, from the top bucket down. */
  lemma RunningStep<G(!new)>(g: Group<G>, n: nat, f: int -> G)
    requires IsAbelian(g)
    ensures GSum(g, n + 1, f) == g.add(GSum(g, n, i => f(i + 1)), f(0))
    ensures Weighted(g, n + 1, f) == g.add(Weighted(g, n, i => f(i + 1)), GSum(g, n + 1, f))
  {
    hide Smul, IsAbelian, GSum;
    var h := i => f(i + 1);
    GSumFirst(g, n + 1, f);
    LawsAt(g, f(0), GSum(g, n, h), f(0));
    var wf := k => Smul(g, k + 1, f(k));
    GSumFirst(g, n + 1, wf);
    SmulOne(g, f(0));
    forall i | 0 <= i < n ensures wf(i + 1) == g.add(Smul(g, i + 1, h(i)), h(i)) {
      SmulAdd(g, i + 1, 1, h(i));
      SmulOne(g, h(i));
    }
    var u := k => Smul(g, k + 1, h(k));
    GSumEq(g, n, i => wf(i + 1), i => g.add(u(i), h(i)));
    GSumAdd(g, n, u, h);
    var a, b, c := f(0), GSum(g, n, u), GSum(g, n, h);
    LawsAt(g, a, b, c);
    LawsAt(g, b, a, c);
    LawsAt(g, a, c, b);
  }

  ghost function Shifted<G>(f: int -> G, i: int): int -> G {
    q => f(i + q)
  }

  /** Taking in bucket i on top of the buckets above it. */
  lemma SerialStep<G(!new)>(g: Group<G>, n: nat, i: int, f: int -> G)
    requires IsAbelian(g)
    ensures GSum(g, n + 1, Shifted(f, i)) == g.add(GSum(g, n, Shifted(f, i + 1)), f(i))
    ensures Weighted(g, n + 1, Shifted(f, i)) == g.add(Weighted(g, n, Shifted(f, i + 1)), GSum(g, n + 1, Shifted(f, i)))
  {
    hide IsAbelian, GSum, Weighted, Smul;
    var now, was := Shifted(f, i), Shifted(f, i + 1);
    RunningStep(g, n, now);
    forall q ensures now(q + 1) == was(q) {
      assert i + (q + 1) == i + 1 + q;
    }
    GSumEq(g, n, q => now(q + 1), was);
    WeightedEq(g, n, q => now(q + 1), was);
    assert now(0) == f(i);
  }

  /** The lane's slice collapsed serially. */
  method SerialPass<G(!new)>(buckets: seq<Jacobian>, per: nat, p: int, ghost c: Reading<G>, ghost f: int -> G)
    returns (s: Jacobian, rs: Jacobian)
    requires Homomorphic(c) && c.p == p && |buckets| == per && SliceHolds(c, buckets, f)
    ensures Is(c, s, GSum(c.g, per, f)) && Is(c, rs, Weighted(c.g, per, f))
  {
    hide Homomorphic, Is, Smul, IsAbelian, GSum, Weighted, Shifted, G1Add, G1Identity;
    HomomorphicParts(c);
    s, rs := G1Identity(p), G1Identity(p);
    var i := per;
    EmptySums(c.g, Shifted(f, per));
    IdentityIs(c);
    while i > 0
      invariant 0 <= i <= per
      invariant Is(c, s, GSum(c.g, per - i, Shifted(f, i))) && Is(c, rs, Weighted(c.g, per - i, Shifted(f, i)))
    {
      i := i - 1;
      SerialStep(c.g, per - i - 1, i, f);
      AddIs(c, s, buckets[i], GSum(c.g, per - i - 1, Shifted(f, i + 1)), f(i));
      s := G1Add(s, buckets[i], p);
      AddIs(c, rs, s, Weighted(c.g, per - i - 1, Shifted(f, i + 1)), GSum(c.g, per - i, Shifted(f, i)));
      rs := G1Add(rs, s, p);
    }
    Unshifted(c.g, per, f);
  }

  lemma EmptySums<G(!new)>(g: Group<G>, f: int -> G)
    ensures GSum(g, 0, f) == g.zero && Weighted(g, 0, f) == g.zero
  {
  }

  lemma Unshifted<G(!new)>(g: Group<G>, n: nat, f: int -> G)
    ensures GSum(g, n, Shifted(f, 0)) == GSum(g, n, f) && Weighted(g, n, Shifted(f, 0)) == Weighted(g, n, f)
  {
    hide GSum, Weighted;
    GSumEq(g, n, Shifted(f, 0), f);
    WeightedEq(g, n, Shifted(f, 0), f);
  }

  lemma WeightedEq<G(!new)>(g: Group<G>, n: nat, f: int -> G, h: int -> G)
    requires forall i :: 0 <= i < n ==> f(i) == h(i)
    ensures Weighted(g, n, f) == Weighted(g, n, h)
  {
    GSumEq(g, n, k => Smul(g, k + 1, f(k)), k => Smul(g, k + 1, h(k)));
  }

  // ------------------------------------------------------------ the shuffle tree

  function Doubled(x: Jacobian, n: nat, p: int): Jacobian
    requires p > 0
  {
    if n == 0 then x else G1Dbl(Doubled(x, n - 1, p), p)
  }

  method DoubleTimes(x: Jacobian, n: nat, p: int) returns (r: Jacobian)
    requires p > 0
    ensures r == Doubled(x, n, p)
  {
    hide G1Dbl;
    r := x;
    for t := 0 to n
      invariant r == Doubled(x, t, p)
    {
      r := G1Dbl(r, p);
    }
  }

  /** n doublings multiply by 2^n. */
  lemma {:induction false} DoubledIs<G(!new)>(c: Reading<G>, x: Jacobian, n: nat, v: G)
    requires Homomorphic(c) && Is(c, x, v)
    ensures Is(c, Doubled(x, n, c.p), Smul(c.g, Pow2(n), v))
    decreases n
  {
    hide Homomorphic, Is, Smul, IsAbelian, G1Dbl;
    HomomorphicParts(c);
    if n == 0 {
      SmulOne(c.g, v);
      assert Pow2(0) == 1;
    } else {
      var w := Smul(c.g, Pow2(n - 1), v);
      DoubledIs(c, x, n - 1, v);
      DblIs(c, Doubled(x, n - 1, c.p), w);
      SmulTwo(c.g, w);
      SmulMul(c.g, 2, Pow2(n - 1), v);
    }
  }

  /** The three sums of two neighbouring blocks of n lanes. */
  lemma JoinSums<G(!new)>(g: Group<G>, per: nat, pos: int, n: nat, f: int -> G)
    requires IsAbelian(g)
    ensures BlockSum(g, per, pos, 2 * n, f) == g.add(BlockSum(g, per, pos, n, f), BlockSum(g, per, pos + n, n, f))
    ensures BlockWeighted(g, per, pos, 2 * n, f)
         == g.add(BlockWeighted(g, per, pos, n, f), BlockWeighted(g, per, pos + n, n, f))
    ensures BlockPlace(g, per, pos, 2 * n, f)
         == g.add(BlockPlace(g, per, pos, n, f),
                  g.add(BlockPlace(g, per, pos + n, n, f), Smul(g, n, BlockSum(g, per, pos + n, n, f))))
  {
    hide Smul, SliceSum, SliceWeighted, IsAbelian, GSum;
    var s := q => SliceSum(g, per, pos + q, f);
    var r := q => SliceWeighted(g, per, pos + q, f);
    var w := q => Smul(g, q, SliceSum(g, per, pos + q, f));
    GSumSplit(g, n, n, s);
    GSumSplit(g, n, n, r);
    GSumSplit(g, n, n, w);
    GSumEq(g, n, q => s(n + q), q => SliceSum(g, per, pos + n + q, f));
    GSumEq(g, n, q => r(n + q), q => SliceWeighted(g, per, pos + n + q, f));
    var own := q => Smul(g, q, SliceSum(g, per, pos + n + q, f));
    var shift := q => Smul(g, n, SliceSum(g, per, pos + n + q, f));
    forall q | 0 <= q < n ensures w(n + q) == g.add(own(q), shift(q)) {
      assert pos + (n + q) == pos + n + q;
      var x := SliceSum(g, per, pos + n + q, f);
      SmulAdd(g, q, n, x);
      assert n + q == q + n;
    }
    GSumEq(g, n, q => w(n + q), q => g.add(own(q), shift(q)));
    GSumAdd(g, n, own, shift);
    var t := q => SliceSum(g, per, pos + n + q, f);
    GSumSmul(g, n, n, t);
    GSumEq(g, n, shift, q => Smul(g, n, t(q)));
  }

  /** What a committing lane computes from its own registers and those of the lane it reads. */
  function Joined(lo: Lane, hi: Lane, level: nat, p: int): Lane
    requires p > 0
  {
    Lane(G1Add(lo.s, hi.s, p), G1Add(lo.w, G1Add(hi.w, Doubled(hi.s, level, p), p), p), G1Add(lo.rs, hi.rs, p))
  }

  /** Joining the block of 2^level lanes at pos with the next one. */
  lemma JoinBlocks<G(!new)>(c: Reading<G>, lo: Lane, hi: Lane, per: nat, pos: int, level: nat, f: int -> G)
    requires Homomorphic(c) && HoldsBlock(c, lo, per, pos, Pow2(level), f)
    requires HoldsBlock(c, hi, per, pos + Pow2(level), Pow2(level), f)
    ensures c.p > 0 && HoldsBlock(c, Joined(lo, hi, level, c.p), per, pos, 2 * Pow2(level), f)
  {
    hide Homomorphic, Is, Smul, IsAbelian, BlockSum, BlockPlace, BlockWeighted, G1Add, Doubled, Pow2;
    HomomorphicParts(c);
    var g, n := c.g, Pow2(level);
    JoinSums(g, per, pos, n, f);
    var next := pos + n;
    DoubledIs(c, hi.s, level, BlockSum(g, per, next, n, f));
    AddIs(c, lo.s, hi.s, BlockSum(g, per, pos, n, f), BlockSum(g, per, next, n, f));
    AddIs(c, lo.rs, hi.rs, BlockWeighted(g, per, pos, n, f), BlockWeighted(g, per, next, n, f));
    var scaled := Smul(g, n, BlockSum(g, per, next, n, f));
    AddIs(c, hi.w, Doubled(hi.s, level, c.p), BlockPlace(g, per, next, n, f), scaled);
    AddIs(c, lo.w, G1Add(hi.w, Doubled(hi.s, level, c.p), c.p), BlockPlace(g, per, pos, n, f),
          g.add(BlockPlace(g, per, next, n, f), scaled));
  }

  /** Which bucket family a lane's team works on: src(team, k) is bucket k. */
  ghost function TeamOf<G(!new)>(src: (int, int) -> G, team: int): int -> G {
    k => src(team, k)
  }

  /** At level l every lane at a multiple of 2^l in its team holds the sums of its 2^l-lane block. */
  ghost predicate TreeLevel<G(!new)>(c: Reading<G>, lanes: seq<Lane>, width: nat, per: nat, n: nat,
                                     src: (int, int) -> G)
    requires width > 0 && n > 0
  {
    forall tid: nat :: tid < |lanes| && tid % width % n == 0 ==>
      HoldsBlock(c, lanes[tid], per, tid % width, n, TeamOf(src, tid / width))
  }

  /** A shuffle down by h: a lane that reaches past the end of the subgroup reads an undefined value of its own. */
  function Shuffled(lanes: seq<Lane>, h: nat, tid: nat, undef: seq<Lane>): Lane
    requires |undef| == |lanes| && tid < |lanes|
  {
    if tid + h < |lanes| then lanes[tid + h] else undef[tid]
  }

  /** The lane a committing lane reads from is in its own team and is itself a block leader. */
  lemma PartnerInTeam(tid: nat, width: nat, n: nat, m: nat, teams: nat, size: nat)
    requires width > 0 && n > 0 && width == m * (2 * n) && size == teams * width && tid < size
    requires tid % width % (2 * n) == 0
    ensures tid + n < size && (tid + n) / width == tid / width && (tid + n) % width == tid % width + n
    ensures tid % width % n == 0 && (tid % width + n) % n == 0
  {
    var team, pos := tid / width, tid % width;
    DivNonneg(tid, width);
    var c := pos / (2 * n);
    DivNonneg(pos, 2 * n);
    assert pos == c * (2 * n) < m * (2 * n);
    if c >= m {
      MulMono(m, c, 2 * n);
    }
    MulMono(c + 1, m, 2 * n);
    MulDistrib(c, 1, 2 * n);
    assert pos + 2 * n <= width;
    DivModUnique(tid + n, width, team, pos + n);
    MulAssoc(c, 2, n);
    MulDistrib(2 * c, 1, n);
    DivModUnique(pos, n, 2 * c, 0);
    DivModUnique(pos + n, n, 2 * c + 1, 0);
    if team >= teams {
      MulMono(teams, team, width);
    }
    MulMono(team + 1, teams, width);
    MulDistrib(team, 1, width);
  }

  /** One level, all lanes in step: every lane takes part in the shuffle, block leaders of the next level commit. */
  method TreeStep<G(!new)>(lanes: seq<Lane>, width: nat, per: nat, level: nat, undef: seq<Lane>, p: int,
                           ghost m: nat, ghost teams: nat, ghost c: Reading<G>, ghost src: (int, int) -> G)
    returns (next: seq<Lane>)
    requires Homomorphic(c) && c.p == p > 0 && |undef| == |lanes|
    requires width > 0 && width == m * (2 * Pow2(level)) && |lanes| == teams * width
    requires TreeLevel(c, lanes, width, per, Pow2(level), src)
    ensures |next| == |lanes| && TreeLevel(c, next, width, per, 2 * Pow2(level), src)
  {
    hide Homomorphic, HoldsBlock, Joined, Pow2;
    var h := Pow2(level);
    next := [];
    for tid := 0 to |lanes|
      invariant |next| == tid
      invariant forall q: nat :: q < tid && q % width % (2 * h) == 0 ==>
        HoldsBlock(c, next[q], per, q % width, 2 * h, TeamOf(src, q / width))
    {
      var lane := lanes[tid];
      var other := Shuffled(lanes, h, tid, undef);
      var joined := JoinLanes(lane, other, level, p);
      if tid % width % (2 * h) == 0 {
        PartnerInTeam(tid, width, h, m, teams, |lanes|);
        assert HoldsBlock(c, lanes[tid + h], per, tid % width + h, h, TeamOf(src, tid / width));
        JoinBlocks(c, lane, other, per, tid % width, level, TeamOf(src, tid / width));
        next := next + [joined];
      } else {
        next := next + [lane];
      }
    }
  }

  /** Every lane computes first, on whatever the shuffle returned. */
  method JoinLanes(lane: Lane, other: Lane, level: nat, p: int) returns (joined: Lane)
    requires p > 0
    ensures joined == Joined(lane, other, level, p)
  {
    hide G1Add;
    var hs := DoubleTimes(other.s, level, p);
    var nw := G1Add(lane.w, G1Add(other.w, hs, p), p);
    joined := Lane(G1Add(lane.s, other.s, p), nw, G1Add(lane.rs, other.rs, p));
  }

  /** The total a team leader ends with does not depend on the lane count. */
  lemma TeamTotal<G(!new)>(g: Group<G>, per: nat, width: nat, f: int -> G)
    requires IsAbelian(g)
    ensures width * per >= 0
    ensures g.add(BlockWeighted(g, per, 0, width, f), Smul(g, per, BlockPlace(g, per, 0, width, f)))
         == Weighted(g, width * per, f)
  {
    hide Smul, SliceSum, SliceWeighted, IsAbelian, GSum;
    var place := q => Smul(g, q, SliceSum(g, per, 0 + q, f));
    GSumSmul(g, width, per, place);
    var r := q => SliceWeighted(g, per, 0 + q, f);
    GSumAdd(g, width, r, q => Smul(g, per, place(q)));
    var wf := k => Smul(g, k + 1, f(k));
    forall q | 0 <= q < width ensures g.add(r(q), Smul(g, per, place(q))) == GSum(g, per, i => wf(q * per + i)) {
      SliceTotal(g, per, q, f);
      GSumEq(g, per, i => Smul(g, q * per + i + 1, f(q * per + i)), i => wf(q * per + i));
      assert 0 + q == q;
    }
    GSumEq(g, width, q => g.add(r(q), (q => Smul(g, per, place(q)))(q)), q => GSum(g, per, i => wf(q * per + i)));
    GSumBlocks(g, width, per, wf);
  }

  lemma SliceTotal<G(!new)>(g: Group<G>, per: nat, q: int, f: int -> G)
    requires IsAbelian(g)
    ensures g.add(SliceWeighted(g, per, q, f), Smul(g, per, Smul(g, q, SliceSum(g, per, q, f))))
         == GSum(g, per, i => Smul(g, q * per + i + 1, f(q * per + i)))
  {
    hide Smul, IsAbelian, GSum;
    var h := i => f(q * per + i);
    SmulMul(g, per, q, SliceSum(g, per, q, f));
    assert per * q == q * per;
    GSumSmul(g, per, q * per, h);
    var a, b := (i => Smul(g, i + 1, h(i))), (i => Smul(g, q * per, h(i)));
    GSumAdd(g, per, a, b);
    forall i | 0 <= i < per ensures g.add(a(i), b(i)) == Smul(g, q * per + i + 1, f(q * per + i)) {
      SmulAdd(g, i + 1, q * per, h(i));
      assert i + 1 + q * per == q * per + i + 1;
    }
    GSumEq(g, per, i => g.add(a(i), b(i)), i => Smul(g, q * per + i + 1, f(q * per + i)));
  }

  // ------------------------------------------------------------ one workgroup

  /** The slot of bucket k of output o. */
  function Place(o: nat, k: nat): nat {
    o * NUM_BUCKETS + k
  }

  /** Bucket k of output o. */
  ghost function BucketAt<G(!new)>(g: Group<G>, buckets: seq<G>, o: int, k: int): G {
    if 0 <= o && 0 <= k && Place(o, k) < |buckets| then buckets[Place(o, k)] else g.zero
  }

  ghost function BucketsOf<G(!new)>(g: Group<G>, buckets: seq<G>, o: int): int -> G {
    k => BucketAt(g, buckets, o, k)
  }

  /** What output o reduces to. */
  ghost function Reduced<G(!new)>(g: Group<G>, buckets: seq<G>, o: int): G {
    Weighted(g, NUM_BUCKETS, BucketsOf(g, buckets, o))
  }

  /** The lowest set bit of a positive word. */
  function FindLsb(x: nat): nat
    requires x > 0
  {
    if x % 2 == 1 then 0 else 1 + FindLsb(x / 2)
  }

  lemma {:induction false} LsbOfPow2(k: nat)
    ensures FindLsb(Pow2(k)) == k
  {
    if k > 0 {
      LsbOfPow2(k - 1);
    }
  }

  /** The 128 buckets divided among the lanes of a team. */
  lemma LaneCounts(log: nat)
    requires log <= 7
    ensures 128 / Pow2(log) == Pow2(7 - log) && Pow2(log) * Pow2(7 - log) == 128
  {
    Pow2Add(log, 7 - log);
    assert Pow2(7) == 128 by {
      assert Pow2(4) == 16;
    }
    DivModUnique(128, Pow2(log), Pow2(7 - log), 0);
  }

  /** All 128 buckets of output q stand for curve points. */
  ghost predicate OutputGood<G(!new)>(c: Reading<G>, buckets: seq<Jacobian>, q: nat) {
    forall k: nat :: k < NUM_BUCKETS ==> Place(q, k) < |buckets| && Good(c, buckets[Place(q, k)])
  }

  ghost predicate TeamOutputs<G(!new)>(c: Reading<G>, buckets: seq<Jacobian>, teamOut: seq<nat>) {
    forall t :: 0 <= t < |teamOut| ==> OutputGood(c, buckets, teamOut[t])
  }

  /** Bucket families by team. */
  ghost function Source<G(!new)>(g: Group<G>, buckets: seq<G>, teamOut: seq<nat>): (int, int) -> G {
    (team, k) => if 0 <= team < |teamOut| then BucketAt(g, buckets, teamOut[team], k) else g.zero
  }

  lemma LanePlace(tid: nat, log: nat, teams: nat)
    requires log <= 7 && tid < teams * Pow2(log)
    ensures Pow2(log) > 0 && 0 <= tid / Pow2(log) < teams && 0 <= tid % Pow2(log) < Pow2(log)
    ensures 0 <= tid % Pow2(log) * Pow2(7 - log) && (tid % Pow2(log) + 1) * Pow2(7 - log) <= NUM_BUCKETS
  {
    LaneCounts(log);
    hide Pow2;
    DivNonneg(tid, Pow2(log));
    if tid / Pow2(log) >= teams {
      MulMono(teams, tid / Pow2(log), Pow2(log));
    }
    MulNonneg(tid % Pow2(log), Pow2(7 - log));
    MulMono(tid % Pow2(log) + 1, Pow2(log), Pow2(7 - log));
  }

  /** A single lane before the tree: its own slice. */
  lemma SingleLane<G(!new)>(c: Reading<G>, s: Jacobian, rs: Jacobian, per: nat, pos: int, f: int -> G)
    requires Homomorphic(c) && Is(c, s, SliceSum(c.g, per, pos, f)) && Is(c, rs, SliceWeighted(c.g, per, pos, f))
    ensures c.p > 0 && HoldsBlock(c, Lane(s, G1Identity(c.p), rs), per, pos, 1, f)
  {
    hide Homomorphic, Is, Smul, SliceSum, SliceWeighted, IsAbelian, G1Identity;
    HomomorphicParts(c);
    IdentityIs(c);
    SingleSums(c.g, per, pos, f);
  }

  lemma SingleSums<G(!new)>(g: Group<G>, per: nat, pos: int, f: int -> G)
    requires IsAbelian(g)
    ensures BlockSum(g, per, pos, 1, f) == SliceSum(g, per, pos, f)
    ensures BlockWeighted(g, per, pos, 1, f) == SliceWeighted(g, per, pos, f)
    ensures BlockPlace(g, per, pos, 1, f) == g.zero
  {
    hide Smul, SliceSum, SliceWeighted, IsAbelian;
    SmulOne(g, SliceSum(g, per, pos + 0, f));
    assert pos + 0 == pos;
    GSumOne(g, q => SliceSum(g, per, pos + q, f));
    GSumOne(g, q => SliceWeighted(g, per, pos + q, f));
    GSumOne(g, q => Smul(g, q, SliceSum(g, per, pos + q, f)));
  }

  lemma GSumOne<G(!new)>(g: Group<G>, f: int -> G)
    requires IsAbelian(g)
    ensures GSum(g, 1, f) == f(0)
  {
    AddZeros(g, f(0));
  }

  /** The slice lane pos of a team works on, in the buffer and as group members. */
  lemma SliceReady<G(!new)>(c: Reading<G>, buckets: seq<Jacobian>, teamOut: seq<nat>, team: nat, pos: nat, per: nat)
    requires team < |teamOut| && TeamOutputs(c, buckets, teamOut)
    requires per > 0 && 0 <= pos * per && (pos + 1) * per <= NUM_BUCKETS
    ensures var lo := Place(teamOut[team], pos * per);
      lo + per <= |buckets| &&
      SliceHolds(c, buckets[lo..lo + per], Slice(TeamOf(Source(c.g, Values(c, buckets), teamOut), team), pos * per))
  {
    hide Is, Value, Good;
    assert OutputGood(c, buckets, teamOut[team]);
    MulDistrib(pos, 1, per);
    var o, lo := teamOut[team], Place(teamOut[team], pos * per);
    assert Place(o, pos * per + per - 1) < |buckets|;
    forall i: nat | i < per
      ensures Is(c, buckets[lo..lo + per][i],
                 Slice(TeamOf(Source(c.g, Values(c, buckets), teamOut), team), pos * per)(i))
    {
      assert Good(c, buckets[Place(o, pos * per + i)]);
      GoodIs(c, buckets[lo + i]);
    }
  }

  ghost predicate SliceHolds<G(!new)>(c: Reading<G>, s: seq<Jacobian>, f: int -> G) {
    forall i: nat :: i < |s| ==> Is(c, s[i], f(i))
  }

  method LaneStart<G(!new)>(buckets: seq<Jacobian>, teamOut: seq<nat>, log: nat, tid: nat, p: int, ghost c: Reading<G>)
    returns (lane: Lane)
    requires Homomorphic(c) && c.p == p && log <= 7 && tid < |teamOut| * Pow2(log) && TeamOutputs(c, buckets, teamOut)
    ensures HoldsBlock(c, lane, Pow2(7 - log), tid % Pow2(log), 1,
                       TeamOf(Source(c.g, Values(c, buckets), teamOut), tid / Pow2(log)))
  {
    hide Homomorphic, Is, Source, TeamOf, Pow2, HoldsBlock, TeamOutputs, SliceSum, SliceWeighted, G1Identity, Values,
      SliceHolds, Slice;
    HomomorphicParts(c);
    LaneCounts(log);
    LanePlace(tid, log, |teamOut|);
    var per := 128 / Pow2(log);
    var team, pos := tid / Pow2(log), tid % Pow2(log);
    SliceReady(c, buckets, teamOut, team, pos, per);
    var lo := Place(teamOut[team], pos * per);
    var slice := buckets[lo..lo + per];
    ghost var f := TeamOf(Source(c.g, Values(c, buckets), teamOut), team);
    ghost var h := Slice(f, pos * per);
    var s, rs := SerialPass(slice, per, p, c, h);
    SliceIs(c.g, per, pos, f);
    SingleLane(c, s, rs, per, pos, f);
    lane := Lane(s, G1Identity(p), rs);
  }

  ghost function Slice<G>(f: int -> G, lo: int): int -> G {
    i => f(lo + i)
  }

  lemma SliceIs<G(!new)>(g: Group<G>, per: nat, pos: int, f: int -> G)
    ensures GSum(g, per, Slice(f, pos * per)) == SliceSum(g, per, pos, f)
    ensures Weighted(g, per, Slice(f, pos * per)) == SliceWeighted(g, per, pos, f)
  {
    hide Smul, GSum;
    GSumEq(g, per, Slice(f, pos * per), i => f(pos * per + i));
    WeightedEq(g, per, Slice(f, pos * per), i => f(pos * per + i));
  }

  /** What the out-of-range shuffles of each workgroup return. */
  type Garbage = (nat, nat) -> seq<seq<Lane>>

  /** One value per level and lane. */
  ghost predicate Shaped(undef: seq<seq<Lane>>, log: nat, size: int) {
    |undef| == log && forall l :: 0 <= l < log ==> |undef[l]| == size
  }

  /** reduce_buckets on all lanes of a subgroup of any number of teams: each team leader ends with its output's
      weighted sum, for every lane count up to the 128 buckets and whatever the out-of-range shuffles read. */
  method SubgroupReduce<G(!new)>(buckets: seq<Jacobian>, teamOut: seq<nat>, log: nat, undef: seq<seq<Lane>>, p: int,
                                 ghost c: Reading<G>)
    returns (total: seq<Jacobian>)
    requires Homomorphic(c) && c.p == p && log <= 7 && TeamOutputs(c, buckets, teamOut)
    requires Shaped(undef, log, |teamOut| * Pow2(log))
    ensures |total| == |teamOut|
    ensures forall t: nat :: t < |teamOut| ==> Is(c, total[t], Reduced(c.g, Values(c, buckets), teamOut[t]))
  {
    hide Homomorphic, HoldsBlock, TeamOf, Source, Reduced, TreeLevel, TeamOutputs, Is, Values, Pow2;
    HomomorphicParts(c);
    var width := Pow2(log);
    LaneCounts(log);
    MulNonneg(|teamOut|, width);
    ghost var src := Source(c.g, Values(c, buckets), teamOut);
    var per := 128 / width;
    var lanes: seq<Lane> := [];
    for tid := 0 to |teamOut| * width
      invariant |lanes| == tid
      invariant forall q: nat :: q < tid ==> HoldsBlock(c, lanes[q], per, q % width, 1, TeamOf(src, q / width))
    {
      var lane := LaneStart(buckets, teamOut, log, tid, p, c);
      lanes := lanes + [lane];
    }
    TreeStarts(c, lanes, width, per, src);
    for level := 0 to log
      invariant |lanes| == |teamOut| * width && TreeLevel(c, lanes, width, per, Pow2(level), src)
    {
      LevelSizes(log, level);
      lanes := TreeStep(lanes, width, per, level, undef[level], p, Pow2(log - level - 1), |teamOut|, c, src);
    }
    total := TeamTotals(buckets, teamOut, lanes, log, p, c);
  }

  /** Every leader scales its place-weighted sum by the slice length and adds its running sum. */
  method TeamTotals<G(!new)>(buckets: seq<Jacobian>, teamOut: seq<nat>, lanes: seq<Lane>, log: nat, p: int,
                             ghost c: Reading<G>)
    returns (total: seq<Jacobian>)
    requires Homomorphic(c) && c.p == p && log <= 7 && |lanes| == |teamOut| * Pow2(log)
    requires TreeLevel(c, lanes, Pow2(log), Pow2(7 - log), Pow2(log), Source(c.g, Values(c, buckets), teamOut))
    ensures |total| == |teamOut|
    ensures forall t: nat :: t < |teamOut| ==> Is(c, total[t], Reduced(c.g, Values(c, buckets), teamOut[t]))
  {
    hide Homomorphic, HoldsBlock, TeamOf, Source, Reduced, TreeLevel, Is, Values, Pow2, FindLsb, G1Add, Doubled;
    HomomorphicParts(c);
    LaneCounts(log);
    var width, per := Pow2(log), 128 / Pow2(log);
    total := [];
    for t := 0 to |teamOut|
      invariant |total| == t
      invariant forall q: nat :: q < t ==> Is(c, total[q], Reduced(c.g, Values(c, buckets), teamOut[q]))
    {
      TreeRoot(c, lanes, t, log, |teamOut|, Source(c.g, Values(c, buckets), teamOut));
      var lane := lanes[t * width];
      LsbOfPow2(7 - log);
      var w := DoubleTimes(lane.w, FindLsb(per), p);
      TotalOfBlock(c, buckets, teamOut, lane, t, log);
      total := total + [G1Add(lane.rs, w, p)];
    }
  }

  lemma LevelSizes(log: nat, level: nat)
    requires level < log
    ensures Pow2(log) == Pow2(log - level - 1) * (2 * Pow2(level)) && Pow2(level + 1) == 2 * Pow2(level)
  {
    Pow2Add(log - level - 1, level + 1);
  }

  lemma LeaderLane(t: nat, log: nat, teams: nat)
    requires t < teams
    ensures 0 <= t * Pow2(log) < teams * Pow2(log)
    ensures t * Pow2(log) / Pow2(log) == t && t * Pow2(log) % Pow2(log) == 0
    ensures t * Pow2(log) % Pow2(log) % Pow2(log) == 0
  {
    hide Pow2;
    MulNonneg(t, Pow2(log));
    MulMono(t + 1, teams, Pow2(log));
    MulDistrib(t, 1, Pow2(log));
    DivModUnique(t * Pow2(log), Pow2(log), t, 0);
    DivModUnique(0, Pow2(log), 0, 0);
  }

  lemma TreeRoot<G(!new)>(c: Reading<G>, lanes: seq<Lane>, t: nat, log: nat, teams: nat, src: (int, int) -> G)
    requires log <= 7 && t < teams && |lanes| == teams * Pow2(log)
    requires TreeLevel(c, lanes, Pow2(log), Pow2(7 - log), Pow2(log), src)
    ensures 0 <= t * Pow2(log) < |lanes|
    ensures HoldsBlock(c, lanes[t * Pow2(log)], Pow2(7 - log), 0, Pow2(log), TeamOf(src, t))
  {
    hide HoldsBlock, Pow2;
    LeaderLane(t, log, teams);
  }

  lemma TreeStarts<G(!new)>(c: Reading<G>, lanes: seq<Lane>, width: nat, per: nat, src: (int, int) -> G)
    requires width > 0
    requires forall q: nat :: q < |lanes| ==> HoldsBlock(c, lanes[q], per, q % width, 1, TeamOf(src, q / width))
    ensures Pow2(0) == 1 && TreeLevel(c, lanes, width, per, 1, src)
  {
    hide HoldsBlock;
  }

  lemma TotalOfBlock<G(!new)>(c: Reading<G>, buckets: seq<Jacobian>, teamOut: seq<nat>, lane: Lane, t: nat, log: nat)
    requires Homomorphic(c) && log <= 7 && t < |teamOut|
    requires HoldsBlock(c, lane, Pow2(7 - log), 0, Pow2(log), TeamOf(Source(c.g, Values(c, buckets), teamOut), t))
    ensures c.p > 0
    ensures Is(c, G1Add(lane.rs, Doubled(lane.w, 7 - log, c.p), c.p), Reduced(c.g, Values(c, buckets), teamOut[t]))
  {
    hide Homomorphic, Is, Smul, IsAbelian, G1Add, Doubled, Pow2, Values, BlockSum, BlockPlace, BlockWeighted, Weighted;
    HomomorphicParts(c);
    var g, per, width := c.g, Pow2(7 - log), Pow2(log);
    var f := TeamOf(Source(g, Values(c, buckets), teamOut), t);
    LaneCounts(log);
    DoubledIs(c, lane.w, 7 - log, BlockPlace(g, per, 0, width, f));
    AddIs(c, lane.rs, Doubled(lane.w, 7 - log, c.p), BlockWeighted(g, per, 0, width, f),
          Smul(g, per, BlockPlace(g, per, 0, width, f)));
    TeamTotal(g, per, width, f);
    WeightedEq(g, NUM_BUCKETS, f, BucketsOf(g, Values(c, buckets), teamOut[t]));
  }

  // ------------------------------------------------------------ the dispatch

  const OUTPUTS: nat := 128
  const WORKGROUP: nat := 32

  /** Workgroup x of blob b is the one that stores output slot q. */
  ghost predicate Covers(x: nat, b: nat, perGroup: nat, count: nat, q: nat)
    requires perGroup > 0
  {
    q / OUTPUTS == b && q % OUTPUTS < count && q % OUTPUTS / perGroup == x
  }

  /** Lane counts a 32-lane workgroup can be divided into. */
  lemma TeamCounts(log: nat)
    requires log <= 5
    ensures WORKGROUP / Pow2(log) == Pow2(5 - log) && Pow2(5 - log) * Pow2(log) == WORKGROUP
  {
    Pow2Add(5 - log, log);
    assert Pow2(5) == 32;
    DivModUnique(32, Pow2(log), Pow2(5 - log), 0);
  }

  /** Slot q holds its output's weighted sum if the workgroup is done with it, and what it held before otherwise. */
  ghost predicate Stored<G(!new)>(c: Reading<G>, now: seq<Jacobian>, was: seq<Jacobian>, content: seq<G>, q: nat,
                                  done: bool)
    requires q < |now| == |was|
  {
    if done then Is(c, now[q], Reduced(c.g, content, q)) else now[q] == was[q]
  }

  ghost predicate Between(q: int, lo: int, hi: int, end: int) {
    lo <= q < hi && q < end
  }

  /** Slot q belongs to one of the outputs reduced. */
  ghost predicate IsOutput(q: nat, batch: nat, count: nat) {
    q / OUTPUTS < batch && q % OUTPUTS < count
  }

  /** The outputs a workgroup's teams work on: past the last one they are clamped onto it. */
  function Clamped(x: nat, b: nat, count: nat, perGroup: nat): (teamOut: seq<nat>)
    requires count > 0
    ensures |teamOut| == perGroup
  {
    MulNonneg(x, perGroup);
    seq(perGroup, t requires 0 <= t => b * OUTPUTS + if x * perGroup + t < count then x * perGroup + t else count - 1)
  }

  lemma ClampedAt(x: nat, b: nat, count: nat, perGroup: nat, t: nat)
    requires 0 < count <= OUTPUTS && t < perGroup
    ensures 0 <= x * perGroup && Clamped(x, b, count, perGroup)[t] / OUTPUTS == b
    ensures Clamped(x, b, count, perGroup)[t] % OUTPUTS < count
    ensures x * perGroup + t < count ==> Clamped(x, b, count, perGroup)[t] == b * OUTPUTS + (x * perGroup + t)
  {
    MulNonneg(x, perGroup);
    var j := Clamped(x, b, count, perGroup)[t] - b * OUTPUTS;
    DivModUnique(Clamped(x, b, count, perGroup)[t], OUTPUTS, b, j);
  }

  ghost predicate BlobGood<G(!new)>(c: Reading<G>, buckets: seq<Jacobian>, b: nat, count: nat) {
    forall q: nat :: q / OUTPUTS == b && q % OUTPUTS < count ==> OutputGood(c, buckets, q)
  }

  lemma ClampedGood<G(!new)>(c: Reading<G>, buckets: seq<Jacobian>, x: nat, b: nat, count: nat, perGroup: nat)
    requires 0 < count <= OUTPUTS && BlobGood(c, buckets, b, count)
    ensures TeamOutputs(c, buckets, Clamped(x, b, count, perGroup))
  {
    hide OutputGood, Clamped;
    forall t | 0 <= t < perGroup ensures OutputGood(c, buckets, Clamped(x, b, count, perGroup)[t]) {
      ClampedAt(x, b, count, perGroup, t);
    }
  }

  /** One workgroup: teams past the last output are clamped onto it for the shuffles and store nothing. */
  method ReduceWorkgroup<G(!new)>(out: array<Jacobian>, buckets: seq<Jacobian>, x: nat, b: nat, count: nat, log: nat,
                                  undef: seq<seq<Lane>>, p: int, ghost c: Reading<G>)
    requires Homomorphic(c) && c.p == p && log <= 5 && Shaped(undef, log, WORKGROUP) && 0 < count <= OUTPUTS
    requires (b + 1) * OUTPUTS <= out.Length && BlobGood(c, buckets, b, count)
    modifies out
    ensures GroupStored(c, out[..], old(out[..]), Values(c, buckets), x, b, Pow2(5 - log), count)
  {
    hide Reduced, Homomorphic, Pow2, Is, Shaped, BlobGood, TeamOutputs, Clamped, RangeStored, GroupStored, Values;
    RangeStarts(c, out[..], Values(c, buckets), b * OUTPUTS + x * Pow2(5 - log), b * OUTPUTS + count);
    TeamCounts(log);
    var outputsPerTg := WORKGROUP / Pow2(log);
    MulNonneg(x, outputsPerTg);
    var raw := x * outputsPerTg;
    ClampedGood(c, buckets, x, b, count, outputsPerTg);
    var total := SubgroupReduce(buckets, Clamped(x, b, count, outputsPerTg), log, undef, p, c);
    ghost var lo, content, was := b * OUTPUTS + raw, Values(c, buckets), out[..];
    for t := 0 to outputsPerTg
      invariant RangeStored(c, out[..], was, content, lo, lo + t, b * OUTPUTS + count)
    {
      ClampedAt(x, b, count, outputsPerTg, t);
      ghost var before := out[..];
      if raw + t < count {
        out[b * OUTPUTS + (raw + t)] := total[t];
        assert out[..] == before[lo + t := total[t]];
      }
      RangeStep(c, out[..], before, was, content, lo, lo + t, b * OUTPUTS + count);
    }
    RangeIsGroup(c, out[..], was, content, x, b, outputsPerTg, count);
  }

  /** A workgroup has stored the outputs it covers and nothing else. */
  ghost predicate GroupStored<G(!new)>(c: Reading<G>, now: seq<Jacobian>, was: seq<Jacobian>, content: seq<G>, x: nat,
                                       b: nat, perGroup: nat, count: nat)
    requires perGroup > 0
  {
    |now| == |was| &&
    forall q: nat :: q < |now| ==> Stored(c, now, was, content, q, Covers(x, b, perGroup, count, q))
  }

  ghost predicate RangeStored<G(!new)>(c: Reading<G>, now: seq<Jacobian>, was: seq<Jacobian>, content: seq<G>, lo: int,
                                       hi: int, end: int) {
    |now| == |was| && forall q: nat :: q < |now| ==> Stored(c, now, was, content, q, Between(q, lo, hi, end))
  }

  lemma RangeStarts<G(!new)>(c: Reading<G>, was: seq<Jacobian>, content: seq<G>, lo: int, end: int)
    ensures RangeStored(c, was, was, content, lo, lo, end)
  {
    hide Is, Reduced;
  }

  lemma RangeStep<G(!new)>(c: Reading<G>, now: seq<Jacobian>, before: seq<Jacobian>, was: seq<Jacobian>,
                           content: seq<G>, lo: int, hi: nat, end: int)
    requires RangeStored(c, before, was, content, lo, hi, end) && lo <= hi
    requires if hi < end && hi < |before|
      then |now| == |before| && now == before[hi := now[hi]] && Is(c, now[hi], Reduced(c.g, content, hi))
      else now == before
    ensures RangeStored(c, now, was, content, lo, hi + 1, end)
  {
    hide Is, Reduced;
    var next := hi + 1;
    forall q: nat | q < |now| ensures Stored(c, now, was, content, q, Between(q, lo, next, end)) {
      assert Stored(c, before, was, content, q, Between(q, lo, hi, end));
    }
  }

  lemma RangeIsGroup<G(!new)>(c: Reading<G>, now: seq<Jacobian>, was: seq<Jacobian>, content: seq<G>, x: nat, b: nat,
                              perGroup: nat, count: nat)
    requires perGroup > 0 && count <= OUTPUTS
    requires RangeStored(c, now, was, content, b * OUTPUTS + x * perGroup, b * OUTPUTS + x * perGroup + perGroup,
                         b * OUTPUTS + count)
    ensures GroupStored(c, now, was, content, x, b, perGroup, count)
  {
    hide Stored;
    var lo := b * OUTPUTS + x * perGroup;
    forall q: nat | q < |now| ensures Stored(c, now, was, content, q, Covers(x, b, perGroup, count, q)) {
      CoversRange(x, b, perGroup, count, q);
      assert Stored(c, now, was, content, q, Between(q, lo, lo + perGroup, b * OUTPUTS + count));
    }
  }

  lemma CoversRange(x: nat, b: nat, perGroup: nat, count: nat, q: nat)
    requires perGroup > 0 && count <= OUTPUTS
    ensures Covers(x, b, perGroup, count, q)
      <==> b * OUTPUTS + x * perGroup <= q < b * OUTPUTS + x * perGroup + perGroup && q < b * OUTPUTS + count
  {
    MulNonneg(x, perGroup);
    var j := q % OUTPUTS;
    DivNonneg(q, OUTPUTS);
    if Covers(x, b, perGroup, count, q) {
      DivNonneg(j, perGroup);
    }
    if b * OUTPUTS + x * perGroup <= q < b * OUTPUTS + x * perGroup + perGroup && q < b * OUTPUTS + count {
      DivModUnique(q, OUTPUTS, b, q - b * OUTPUTS);
      DivModUnique(j, perGroup, x, j - x * perGroup);
    }
  }

  /** The whole dispatch, workgroups in any order: every output gets its weighted sum, exactly one workgroup
      covers it, and nothing else is written, for every lane count and whatever the out-of-range shuffles of
      each workgroup return. */
  method Reduce<G(!new)>(out: array<Jacobian>, buckets: array<Jacobian>, count: nat, batch: nat, log: nat,
                         undef: Garbage, p: int, ghost c: Reading<G>)
    requires Homomorphic(c) && c.p == p && log <= 5 && count <= OUTPUTS && out != buckets
    requires forall x: nat, b: nat :: Shaped(undef(x, b), log, WORKGROUP)
    requires batch * OUTPUTS <= out.Length && forall b: nat :: b < batch ==> BlobGood(c, buckets[..], b, count)
    modifies out
    ensures forall q: nat :: q < out.Length ==>
      Stored(c, out[..], old(out[..]), Values(c, buckets[..]), q, IsOutput(q, batch, count))
  {
    hide Stored, Homomorphic, Pow2, Written, BlobGood, Values, Shaped;
    TeamCounts(log);
    var outputsPerTg := WORKGROUP / Pow2(log);
    var groups := (count + outputsPerTg - 1) / outputsPerTg;
    DivNonneg(count + outputsPerTg - 1, outputsPerTg);
    ghost var points, was := buckets[..], out[..];
    ghost var content := Values(c, points);
    var pending: set<(nat, nat)> := Grid(groups, batch);
    NothingWritten(c, was, content, batch, count, outputsPerTg, groups, pending);
    while pending != {}
      invariant forall w :: w in pending ==> 0 <= w.0 < groups && 0 <= w.1 < batch
      invariant Written(c, out[..], was, content, batch, count, outputsPerTg, groups, pending)
      decreases |pending|
    {
      var w :| w in pending;
      GroupInRange(w.1, batch, w.0, groups, count, outputsPerTg);
      ghost var before := out[..];
      ReduceWorkgroup(out, buckets[..], w.0, w.1, count, log, undef(w.0, w.1), p, c);
      GroupWritten(c, out[..], before, was, content, batch, count, outputsPerTg, groups, pending, w.0, w.1);
      pending := pending - {w};
    }
    AllWritten(c, out[..], was, content, batch, count, outputsPerTg, groups);
  }

  /** Slots covered by workgroups outside pending hold their sums, the others what they held before. */
  ghost predicate Written<G(!new)>(c: Reading<G>, now: seq<Jacobian>, was: seq<Jacobian>, content: seq<G>, batch: nat,
                                   count: nat, perGroup: nat, groups: nat, pending: set<(nat, nat)>)
    requires perGroup > 0
  {
    |now| == |was| && forall q: nat :: q < |now| ==>
      Stored(c, now, was, content, q, Done(q, batch, count, perGroup, groups, pending))
  }

  lemma NothingWritten<G(!new)>(c: Reading<G>, was: seq<Jacobian>, content: seq<G>, batch: nat, count: nat,
                                perGroup: nat, groups: nat, pending: set<(nat, nat)>)
    requires perGroup > 0 && pending == Grid(groups, batch)
    ensures Written(c, was, was, content, batch, count, perGroup, groups, pending)
  {
    hide Reduced, Is;
    forall q: nat ensures !Done(q, batch, count, perGroup, groups, pending) {
      DivNonneg(q, OUTPUTS);
      DivNonneg(q % OUTPUTS, perGroup);
    }
  }

  lemma GroupWritten<G(!new)>(c: Reading<G>, now: seq<Jacobian>, before: seq<Jacobian>, was: seq<Jacobian>,
                              content: seq<G>, batch: nat, count: nat, perGroup: nat, groups: nat,
                              pending: set<(nat, nat)>, x: nat, b: nat)
    requires perGroup > 0 && Written(c, before, was, content, batch, count, perGroup, groups, pending) && x < groups
    requires b < batch && GroupStored(c, now, before, content, x, b, perGroup, count)
    ensures Written(c, now, was, content, batch, count, perGroup, groups, pending - {(x, b)})
  {
    hide Reduced, Is;
    forall q: nat | q < |now|
      ensures Stored(c, now, was, content, q, Done(q, batch, count, perGroup, groups, pending - {(x, b)}))
    {
      assert Stored(c, before, was, content, q, Done(q, batch, count, perGroup, groups, pending));
      assert Stored(c, now, before, content, q, Covers(x, b, perGroup, count, q));
    }
  }

  lemma AllWritten<G(!new)>(c: Reading<G>, now: seq<Jacobian>, was: seq<Jacobian>, content: seq<G>, batch: nat,
                            count: nat, perGroup: nat, groups: nat)
    requires perGroup > 0 && groups == (count + perGroup - 1) / perGroup
    requires Written(c, now, was, content, batch, count, perGroup, groups, {})
    ensures |now| == |was| && forall q: nat :: q < |now| ==>
      Stored(c, now, was, content, q, IsOutput(q, batch, count))
  {
    hide Stored;
    forall q: nat | q < |now|
      ensures Stored(c, now, was, content, q, IsOutput(q, batch, count))
    {
      if q % OUTPUTS < count {
        GroupExists(q % OUTPUTS, count, perGroup);
      }
      assert Stored(c, now, was, content, q, Done(q, batch, count, perGroup, groups, {}));
    }
  }

  ghost predicate Done(q: nat, batch: nat, count: nat, perGroup: nat, groups: nat, pending: set<(nat, nat)>)
    requires perGroup > 0
  {
    && q / OUTPUTS < batch && q % OUTPUTS < count && q % OUTPUTS / perGroup < groups
    && (q % OUTPUTS / perGroup, q / OUTPUTS) !in pending
  }

  lemma GroupInRange(b: nat, batch: nat, x: nat, groups: nat, count: nat, perGroup: nat)
    requires b < batch && x < groups && perGroup > 0 && groups == (count + perGroup - 1) / perGroup
    ensures (b + 1) * OUTPUTS <= batch * OUTPUTS && count > 0
  {
    if count == 0 {
      DivModUnique(perGroup - 1, perGroup, 0, perGroup - 1);
    }
  }

  lemma GroupExists(j: nat, count: nat, perGroup: nat)
    requires j < count && perGroup > 0
    ensures j / perGroup < (count + perGroup - 1) / perGroup
  {
    var x, n := j / perGroup, (count + perGroup - 1) / perGroup;
    DivNonneg(j, perGroup);
    DivNonneg(count + perGroup - 1, perGroup);
    if x >= n {
      MulMono(n, x, perGroup);
    }
  }
}
