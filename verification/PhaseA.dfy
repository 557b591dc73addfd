/** Phase A: from scalars in Montgomery form to one multi-scalar product per output. */
module PhaseA {
  import opened Modular
  import opened Dispatch
  import opened Curve
  import opened Group
  import opened CurveGroup
  import opened Recode
  import opened BucketSort
  import opened BucketReduce
  import opened CellBytes
  import opened Flatten
  import L = Limbs
  import M = Montgomery

  // ------------------------------------------------------------ what an item stands for

  /** The precomputed point for term t and digit position d, negated for a negative digit. */
  ghost function ItemPoint<G(!new)>(g: Group<G>, table: (int, int) -> G, c: int): G {
    var pt := table(c / 64, c / 2 % 32);
    if c % 2 == 1 then g.neg(pt) else pt
  }

  ghost function Points<G(!new)>(g: Group<G>, table: (int, int) -> G): int -> G {
    c => ItemPoint(g, table, c)
  }

  /** table(t, d) is 256^d times the base point of term t. */
  ghost predicate TableHolds<G(!new)>(g: Group<G>, table: (int, int) -> G, base: int -> G) {
    forall t: nat, d: nat :: t < TERMS && d < NUM_DIGITS ==> table(t, d) == Smul(g, Pow(256, d), base(t))
  }

  /** A digit of magnitude k + 1 in bucket k contributes v times its table point. */
  lemma DigitContribution<G(!new)>(g: Group<G>, table: (int, int) -> G, base: int -> G, t: nat, d: nat, v: int)
    requires IsAbelian(g) && TableHolds(g, table, base) && t < TERMS && d < NUM_DIGITS && v != 0
    ensures Smul(g, Magnitude(v), ItemPoint(g, table, Pack(t, d, v))) == Smul(g, v * Pow(256, d), base(t))
  {
    hide *;
    ItemPointOf(g, table, t, d, v);
    TablePoint(g, table, base, t, d);
    MagnitudeIs(v);
    var pt := table(t, d);
    SmulMul(g, v, Pow(256, d), base(t));
    if v < 0 {
      FlipSign(g, v, pt);
    }
  }

  lemma FlipSign<G(!new)>(g: Group<G>, v: int, pt: G)
    requires IsAbelian(g)
    ensures Smul(g, -v, g.neg(pt)) == Smul(g, v, pt)
  {
    SmulOne(g, pt);
    SmulMul(g, -v, -1, pt);
    assert -v * -1 == v;
  }

  lemma ItemPointOf<G(!new)>(g: Group<G>, table: (int, int) -> G, t: nat, d: nat, v: int)
    requires t < TERMS && d < NUM_DIGITS
    ensures ItemPoint(g, table, Pack(t, d, v)) == if v < 0 then g.neg(table(t, d)) else table(t, d)
  {
    hide Pack;
    PackDecodes(t, d, v);
  }

  lemma TablePoint<G(!new)>(g: Group<G>, table: (int, int) -> G, base: int -> G, t: nat, d: nat)
    requires TableHolds(g, table, base) && t < TERMS && d < NUM_DIGITS
    ensures table(t, d) == Smul(g, Pow(256, d), base(t))
  {
    hide Smul, Pow;
  }

  lemma MagnitudeIs(v: int)
    ensures Magnitude(v) == if v < 0 then -v else v
  {
  }

  // ------------------------------------------------------------ buckets to digits

  /** The weight of a thread's first n digits, gathered by bucket. */
  ghost function ThreadWeight<G(!new)>(g: Group<G>, f: int -> G, scalar: seq<int>, t: nat, n: nat): G
    requires |scalar| == 8 && t < TERMS && n <= NUM_DIGITS
  {
    Weighted(g, NUM_BUCKETS, k => BucketPart(g, f, scalar, t, n, k))
  }

  ghost function BucketPart<G(!new)>(g: Group<G>, f: int -> G, scalar: seq<int>, t: nat, n: nat, k: int): G
    requires |scalar| == 8 && t < TERMS && n <= NUM_DIGITS
  {
    if k < 0 then g.zero else SeqSum(g, ThreadCodes(scalar, t, n, k), f)
  }

  /** What digit n adds to bucket k. */
  ghost function DigitPart<G(!new)>(g: Group<G>, f: int -> G, scalar: seq<int>, t: nat, n: nat, k: int): G
    requires |scalar| == 8 && t < TERMS && n < NUM_DIGITS
  {
    var v := DigitAt(scalar, n);
    if Magnitude(v) == k + 1 then f(Pack(t, n, v)) else g.zero
  }

  lemma BucketPartStep<G(!new)>(g: Group<G>, f: int -> G, scalar: seq<int>, t: nat, n: nat, k: nat)
    requires IsAbelian(g) && |scalar| == 8 && t < TERMS && n < NUM_DIGITS
    ensures BucketPart(g, f, scalar, t, n + 1, k)
         == g.add(BucketPart(g, f, scalar, t, n, k), DigitPart(g, f, scalar, t, n, k))
  {
    hide SeqSum, DigitAt, Pack, Magnitude, IsAbelian;
    var v := DigitAt(scalar, n);
    var was := ThreadCodes(scalar, t, n, k);
    AddZeros(g, SeqSum(g, was, f));
    if Magnitude(v) == k + 1 {
      SeqSumPush(g, was, Pack(t, n, v) as int, f);
    } else {
      assert was + [] == was;
    }
  }

  /** Weighting distributes over bucketwise addition. */
  lemma WeightedAdd<G(!new)>(g: Group<G>, n: nat, a: int -> G, b: int -> G, c: int -> G)
    requires IsAbelian(g) && forall k :: 0 <= k < n ==> c(k) == g.add(a(k), b(k))
    ensures Weighted(g, n, c) == g.add(Weighted(g, n, a), Weighted(g, n, b))
  {
    hide Smul, IsAbelian, GSum;
    var wa, wb := (k => Smul(g, k + 1, a(k))), (k => Smul(g, k + 1, b(k)));
    forall k | 0 <= k < n ensures Smul(g, k + 1, c(k)) == g.add(wa(k), wb(k)) {
      SmulPoint(g, k + 1, a(k), b(k));
    }
    GSumEq(g, n, k => Smul(g, k + 1, c(k)), k => g.add(wa(k), wb(k)));
    GSumAdd(g, n, wa, wb);
  }

  lemma WeightedZero<G(!new)>(g: Group<G>, n: nat, a: int -> G)
    requires IsAbelian(g) && forall k :: 0 <= k < n ==> a(k) == g.zero
    ensures Weighted(g, n, a) == g.zero
  {
    hide Smul, IsAbelian, GSum;
    forall k | 0 <= k < n ensures Smul(g, k + 1, a(k)) == g.zero {
      SmulZeroPoint(g, k + 1);
    }
    GSumZero(g, n, k => Smul(g, k + 1, a(k)));
  }

  /** A single nonzero bucket. */
  lemma WeightedSingle<G(!new)>(g: Group<G>, n: nat, j: nat, a: int -> G)
    requires IsAbelian(g) && j < n && forall k :: 0 <= k < n && k != j ==> a(k) == g.zero
    ensures Weighted(g, n, a) == Smul(g, j + 1, a(j))
  {
    hide Smul, IsAbelian, GSum;
    forall k | 0 <= k < n && k != j ensures Smul(g, k + 1, a(k)) == g.zero {
      SmulZeroPoint(g, k + 1);
    }
    GSumSingle(g, n, j, k => Smul(g, k + 1, a(k)));
  }

  ghost function DigitValue(scalar: seq<int>, n: nat): int
    requires n / 4 < |scalar|
  {
    DigitAt(scalar, n) * Pow(256, n)
  }

  lemma DigitWeight<G(!new)>(g: Group<G>, table: (int, int) -> G, base: int -> G, scalar: seq<int>, t: nat, n: nat)
    requires IsAbelian(g) && TableHolds(g, table, base) && |scalar| == 8 && t < TERMS && n < NUM_DIGITS
    ensures Weighted(g, NUM_BUCKETS, k => DigitPart(g, Points(g, table), scalar, t, n, k))
         == Smul(g, DigitValue(scalar, n), base(t))
  {
    hide Smul, Pow, IsAbelian, DigitAt, Pack, TableHolds, Weighted;
    DigitRange(scalar, n);
    var v := DigitAt(scalar, n);
    var part := k => DigitPart(g, Points(g, table), scalar, t, n, k);
    if v == 0 {
      WeightedZero(g, NUM_BUCKETS, part);
      SmulOne(g, base(t));
      assert 0 * Pow(256, n) == 0;
    } else {
      WeightedSingle(g, NUM_BUCKETS, Magnitude(v) - 1, part);
      DigitContribution(g, table, base, t, n, v);
    }
  }

  lemma ThreadWeightStep<G(!new)>(g: Group<G>, table: (int, int) -> G, base: int -> G, scalar: seq<int>, t: nat, n: nat)
    requires IsAbelian(g) && TableHolds(g, table, base) && |scalar| == 8 && t < TERMS && n < NUM_DIGITS
    ensures ThreadWeight(g, Points(g, table), scalar, t, n + 1)
         == g.add(ThreadWeight(g, Points(g, table), scalar, t, n), Smul(g, DigitValue(scalar, n), base(t)))
  {
    hide *;
    var f := Points(g, table);
    forall k: nat
      ensures BucketPart(g, f, scalar, t, n + 1, k)
           == g.add(BucketPart(g, f, scalar, t, n, k), DigitPart(g, f, scalar, t, n, k))
    {
      BucketPartStep(g, f, scalar, t, n, k);
    }
    WeightedAdd(g, NUM_BUCKETS, k => BucketPart(g, f, scalar, t, n, k), k => DigitPart(g, f, scalar, t, n, k),
                k => BucketPart(g, f, scalar, t, n + 1, k));
    DigitWeight(g, table, base, scalar, t, n);
    ThreadWeightIs(g, f, scalar, t, n);
    ThreadWeightIs(g, f, scalar, t, n + 1);
  }

  /** Gathered by bucket, the digits of a scalar weigh the scalar times its base point. */
  lemma {:induction false} ThreadTotalWeight<G(!new)>(g: Group<G>, table: (int, int) -> G, base: int -> G,
      scalar: seq<int>, t: nat, n: nat)
    requires IsAbelian(g) && TableHolds(g, table, base) && |scalar| == 8 && t < TERMS && n <= NUM_DIGITS
    ensures ThreadWeight(g, Points(g, table), scalar, t, n) == Smul(g, DigitSum(scalar, n), base(t))
    decreases n
  {
    hide *;
    DigitPositions(scalar, n);
    if n == 0 {
      ThreadTotalStart(g, table, base, scalar, t);
    } else {
      ThreadTotalWeight(g, table, base, scalar, t, n - 1);
      ThreadTotalStep(g, table, base, scalar, t, n - 1);
    }
  }

  lemma DigitPositions(scalar: seq<int>, n: nat)
    requires |scalar| == 8
    ensures NUM_DIGITS == 4 * |scalar| && (n < NUM_DIGITS ==> n / 4 < |scalar|)
  {
  }

  lemma ThreadTotalStart<G(!new)>(g: Group<G>, table: (int, int) -> G, base: int -> G, scalar: seq<int>, t: nat)
    requires IsAbelian(g) && |scalar| == 8 && t < TERMS
    ensures ThreadWeight(g, Points(g, table), scalar, t, 0) == Smul(g, DigitSum(scalar, 0), base(t))
  {
    hide *;
    NoDigits(g, Points(g, table), scalar, t);
    SmulOne(g, base(t));
    NoDigitSum(scalar);
  }

  lemma ThreadTotalStep<G(!new)>(g: Group<G>, table: (int, int) -> G, base: int -> G, scalar: seq<int>, t: nat, n: nat)
    requires IsAbelian(g) && TableHolds(g, table, base) && |scalar| == 8 && t < TERMS && n < NUM_DIGITS
    requires ThreadWeight(g, Points(g, table), scalar, t, n) == Smul(g, DigitSum(scalar, n), base(t))
    ensures ThreadWeight(g, Points(g, table), scalar, t, n + 1) == Smul(g, DigitSum(scalar, n + 1), base(t))
  {
    hide *;
    DigitPositions(scalar, n);
    ThreadWeightStep(g, table, base, scalar, t, n);
    DigitSumStep(scalar, n);
    SmulAdd(g, DigitSum(scalar, n), DigitValue(scalar, n), base(t));
  }

  lemma ThreadWeightIs<G(!new)>(g: Group<G>, f: int -> G, scalar: seq<int>, t: nat, n: nat)
    requires |scalar| == 8 && t < TERMS && n <= NUM_DIGITS
    ensures ThreadWeight(g, f, scalar, t, n) == Weighted(g, NUM_BUCKETS, k => BucketPart(g, f, scalar, t, n, k))
  {
  }

  lemma NoDigits<G(!new)>(g: Group<G>, f: int -> G, scalar: seq<int>, t: nat)
    requires IsAbelian(g) && |scalar| == 8 && t < TERMS
    ensures ThreadWeight(g, f, scalar, t, 0) == g.zero
  {
    forall k: nat ensures BucketPart(g, f, scalar, t, 0, k) == g.zero {
      assert ThreadCodes(scalar, t, 0, k) == [];
    }
    hide BucketPart, IsAbelian, Weighted;
    WeightedZero(g, NUM_BUCKETS, k => BucketPart(g, f, scalar, t, 0, k));
  }

  lemma NoDigitSum(scalar: seq<int>)
    ensures DigitSum(scalar, 0) == 0
  {
  }

  lemma DigitSumStep(scalar: seq<int>, n: nat)
    requires n < 4 * |scalar|
    ensures DigitSum(scalar, n + 1) == DigitSum(scalar, n) + DigitValue(scalar, n)
  {
  }

  /** Bucket k over the first m threads. */
  ghost function CodesPart<G(!new)>(g: Group<G>, f: int -> G, sc: seq<seq<int>>, m: nat, k: int): G
    requires Scalars(sc) && m <= TERMS
  {
    if k < 0 then g.zero else SeqSum(g, Codes(sc, Finished(), m, k), f)
  }

  ghost predicate BelowHalf(sc: seq<seq<int>>)
    requires Scalars(sc)
  {
    forall t :: 0 <= t < TERMS ==> L.Words(sc[t], 8) && 2 * L.Val(sc[t]) < Pow(L.WORD, 8)
  }

  ghost function Term<G(!new)>(g: Group<G>, sc: seq<seq<int>>, base: int -> G, t: int): G
    requires Scalars(sc)
  {
    if 0 <= t < TERMS then Smul(g, L.Val(sc[t]), base(t)) else g.zero
  }

  lemma {:induction false} AllThreadsWeight<G(!new)>(g: Group<G>, table: (int, int) -> G, base: int -> G,
      sc: seq<seq<int>>, m: nat)
    requires IsAbelian(g) && TableHolds(g, table, base) && Scalars(sc) && BelowHalf(sc) && m <= TERMS
    ensures Weighted(g, NUM_BUCKETS, k => CodesPart(g, Points(g, table), sc, m, k))
         == GSum(g, m, t => Term(g, sc, base, t))
  {
    var f := Points(g, table);
    if m == 0 {
      WeightedZero(g, NUM_BUCKETS, k => CodesPart(g, f, sc, 0, k));
    } else {
      assert L.Words(sc[m - 1], 8) && 2 * L.Val(sc[m - 1]) < Pow(L.WORD, 8);
      assert GSum(g, m, t => Term(g, sc, base, t))
           == g.add(GSum(g, m - 1, t => Term(g, sc, base, t)), Term(g, sc, base, m - 1));
      hide Pow, IsAbelian, TableHolds, Weighted, BucketPart, CodesPart, Points, BelowHalf, DigitSum, GSum, L.Val,
        CarryIn;
      AllThreadsWeight(g, table, base, sc, m - 1);
      RecodeScalar(sc[m - 1]);
      ThreadTotalWeight(g, table, base, sc[m - 1], m - 1, NUM_DIGITS);
      forall k: nat
        ensures CodesPart(g, f, sc, m, k)
             == g.add(CodesPart(g, f, sc, m - 1, k), BucketPart(g, f, sc[m - 1], m - 1, NUM_DIGITS, k))
      {
        CodesPartStep(g, f, sc, m, k);
      }
      WeightedAdd(g, NUM_BUCKETS, k => CodesPart(g, f, sc, m - 1, k), k => BucketPart(g, f, sc[m - 1], m - 1, NUM_DIGITS, k),
                  k => CodesPart(g, f, sc, m, k));
    }
  }

  lemma CodesPartStep<G(!new)>(g: Group<G>, f: int -> G, sc: seq<seq<int>>, m: nat, k: nat)
    requires IsAbelian(g) && Scalars(sc) && 0 < m <= TERMS
    ensures CodesPart(g, f, sc, m, k)
         == g.add(CodesPart(g, f, sc, m - 1, k), BucketPart(g, f, sc[m - 1], m - 1, NUM_DIGITS, k))
  {
    hide SeqSum, IsAbelian, ThreadCodes;
    SeqSumAppend(g, Codes(sc, Finished(), m - 1, k), ThreadCodes(sc[m - 1], m - 1, NUM_DIGITS, k), f);
  }

  /** The index-weighted sum of the sorted buckets is the multi-scalar product. */
  lemma SortedWeight<G(!new)>(g: Group<G>, table: (int, int) -> G, base: int -> G, sc: seq<seq<int>>, items: seq<int>,
                              start: seq<int>, perm: seq<int>, buckets: int -> G)
    requires IsAbelian(g) && TableHolds(g, table, base) && Scalars(sc) && BelowHalf(sc)
    requires Sorted(sc, items, start, perm)
    requires forall k: nat :: k < NUM_BUCKETS ==> buckets(k) == BucketSum(g, Points(g, table), items, start, k)
    ensures Weighted(g, NUM_BUCKETS, buckets) == GSum(g, TERMS, t => Term(g, sc, base, t))
  {
    hide IsAbelian, TableHolds, Weighted, Points, BelowHalf, GSum, SeqSum, Codes;
    var f := Points(g, table);
    forall k: nat | k < NUM_BUCKETS ensures buckets(k) == CodesPart(g, f, sc, TERMS, k) {
      SectionOf(sc, items, start, perm, k);
      SeqSumPermuted(g, items[start[k]..start[k + 1]], BucketCodes(sc, k), f);
    }
    WeightedEq(g, NUM_BUCKETS, buckets, k => CodesPart(g, f, sc, TERMS, k));
    AllThreadsWeight(g, table, base, sc, TERMS);
  }

  // ------------------------------------------------------------ the curve pass

  /** The points of bucket k's section, added up. */
  ghost function BucketSum<G(!new)>(g: Group<G>, f: int -> G, items: seq<int>, start: seq<int>, k: int): G {
    if 0 <= k && k + 1 < |start| && 0 <= start[k] <= start[k + 1] <= |items|
    then SeqSum(g, items[start[k]..start[k + 1]], f) else g.zero
  }

  /** The table as stored: term-major for each output column j. */
  function TableIndex(j: nat, t: nat, d: nat): nat {
    (j * TERMS + t) * NUM_DIGITS + d
  }

  ghost function Column<G(!new)>(g: Group<G>, table: seq<G>, j: nat): (int, int) -> G {
    (t, d) => if 0 <= t && 0 <= d && TableIndex(j, t, d) < |table| then table[TableIndex(j, t, d)] else g.zero
  }

  /** The table entries of output column j are points of the curve. */
  ghost predicate ColumnGood<G(!new)>(c: Reading<G>, table: seq<AffinePair>, j: nat) {
    forall t: nat, d: nat :: t < TERMS && d < NUM_DIGITS ==>
      TableIndex(j, t, d) < |table| && GoodPair(c, table[TableIndex(j, t, d)])
  }

  /** What an item of column j stands for, read off the stored table. */
  ghost function TablePoints<G(!new)>(c: Reading<G>, table: seq<AffinePair>, j: nat): int -> G {
    Points(c.g, Column(c.g, PairValues(c, table), j))
  }

  /** Loads the table entry of an item, its y negated for a negative digit. */
  method ReadItem<G(!new)>(table: seq<AffinePair>, j: nat, packed: int, p: int, ghost c: Reading<G>)
    returns (pt: AffinePair)
    requires Homomorphic(c) && c.p == p && ColumnGood(c, table, j) && 0 <= packed < 64 * TERMS
    ensures PairIs(c, pt, TablePoints(c, table, j)(packed))
  {
    hide Homomorphic, GoodPair, PairValue, PairIs, TableIndex, PairNeg;
    HomomorphicParts(c);
    var t, d := packed / 64, packed / 2 % 32;
    pt := table[TableIndex(j, t, d)];
    GoodPairIs(c, pt);
    if packed % 2 == 1 {
      PairNegIs(c, pt, PairValue(c, pt));
      pt := PairNeg(pt, p);
    }
  }

  /** One thread: the bucket the load order assigns to it. */
  method Accumulate<G(!new)>(table: seq<AffinePair>, j: nat, items: seq<int>, lo: int, hi: int, p: int,
                             ghost c: Reading<G>)
    returns (acc: Jacobian)
    requires Homomorphic(c) && c.p == p && ColumnGood(c, table, j) && 0 <= lo <= hi <= |items|
    requires forall i :: lo <= i < hi ==> 0 <= items[i] < 64 * TERMS
    ensures Is(c, acc, SeqSum(c.g, items[lo..hi], TablePoints(c, table, j)))
  {
    hide Homomorphic, ColumnGood, Is, PairIs, TablePoints, SeqSum, G1Madd, G1Identity;
    HomomorphicParts(c);
    ghost var f := TablePoints(c, table, j);
    acc := G1Identity(p);
    IdentityIs(c);
    EmptySum(c.g, items[lo..lo], f);
    for it := lo to hi
      invariant Is(c, acc, SeqSum(c.g, items[lo..it], f))
    {
      var packed := items[it];
      var pt := ReadItem(table, j, packed, p, c);
      assert items[lo..it + 1] == items[lo..it] + [packed];
      SeqSumPush(c.g, items[lo..it], packed, f);
      MaddIs(c, acc, pt, SeqSum(c.g, items[lo..it], f), f(packed));
      acc := G1Madd(acc, pt, p);
    }
  }

  lemma EmptySum<G(!new), T>(g: Group<G>, s: seq<T>, f: T -> G)
    requires s == []
    ensures SeqSum(g, s, f) == g.zero
  {
  }

  lemma SectionOf(sc: seq<seq<int>>, items: seq<int>, start: seq<int>, perm: seq<int>, k: nat)
    requires Scalars(sc) && Sorted(sc, items, start, perm) && k < NUM_BUCKETS
    ensures k + 1 < |start| && 0 <= start[k] <= start[k + 1] <= |items|
    ensures multiset(items[start[k]..start[k + 1]]) == multiset(BucketCodes(sc, k))
  {
    hide ByLoad, BucketCodes, Fitted, Sizes;
    assert BucketHolds(items, start, k, BucketCodes(sc, k));
  }

  lemma ItemsNameDigits(sc: seq<seq<int>>, items: seq<int>, start: seq<int>, perm: seq<int>, k: nat)
    requires Scalars(sc) && Sorted(sc, items, start, perm) && k < NUM_BUCKETS
    ensures k + 1 < |start| && 0 <= start[k] <= start[k + 1] <= |items|
    ensures forall i :: start[k] <= i < start[k + 1] ==> 0 <= items[i] < 64 * TERMS
  {
    hide *;
    SectionOf(sc, items, start, perm, k);
    var section := items[start[k]..start[k + 1]];
    SectionNames(sc, section, k);
    forall i | start[k] <= i < start[k + 1] ensures 0 <= items[i] < 64 * TERMS {
      assert items[i] == section[i - start[k]];
    }
  }

  lemma SectionNames(sc: seq<seq<int>>, section: seq<int>, k: nat)
    requires Scalars(sc) && multiset(section) == multiset(BucketCodes(sc, k))
    ensures forall i :: 0 <= i < |section| ==> 0 <= section[i] < 64 * TERMS
  {
    hide *;
    forall i | 0 <= i < |section| ensures 0 <= section[i] < 64 * TERMS {
      assert section[i] in multiset(section);
      BucketExactly(sc, k, section[i]);
      NamesRange(sc, k, section[i]);
    }
  }

  lemma PermOnto(sc: seq<seq<int>>, items: seq<int>, start: seq<int>, perm: seq<int>)
    requires Scalars(sc) && Sorted(sc, items, start, perm)
    ensures |perm| == NUM_BUCKETS && (forall t :: 0 <= t < NUM_BUCKETS ==> 0 <= perm[t] < NUM_BUCKETS)
    ensures forall k :: 0 <= k < NUM_BUCKETS ==> k in perm
  {
    var load := Sizes(sc);
    assert perm == ByLoad(load, 0);
    OrderIsOnto(load);
    hide Sorted, ByLoad, Scalars;
  }

  /** Output o's buckets hold the sums of their sections, for the buckets listed in perm at places outside pending. */
  ghost predicate BucketsDone<G(!new)>(c: Reading<G>, out: seq<Jacobian>, f: int -> G, o: nat, items: seq<int>,
                                       start: seq<int>, perm: seq<int>, pending: set<nat>) {
    forall t: nat :: t < |perm| && t !in pending && 0 <= perm[t] ==>
      Place(o, perm[t]) < |out| && Is(c, out[Place(o, perm[t])], BucketSum(c.g, f, items, start, perm[t]))
  }

  /** A write of one bucket's own sum keeps the rest. */
  lemma BucketWritten<G(!new)>(c: Reading<G>, out: seq<Jacobian>, f: int -> G, o: nat, items: seq<int>,
                               start: seq<int>, perm: seq<int>, pending: set<nat>, tid: nat, acc: Jacobian)
    requires BucketsDone(c, out, f, o, items, start, perm, pending)
    requires tid < |perm| && 0 <= perm[tid] && Place(o, perm[tid]) < |out|
    requires Is(c, acc, BucketSum(c.g, f, items, start, perm[tid]))
    ensures BucketsDone(c, out[Place(o, perm[tid]) := acc], f, o, items, start, perm, pending - {tid})
  {
    hide BucketSum, Is;
  }

  /** One workgroup of the curve pass, its 128 threads in any order. */
  method CurveWorkgroup<G(!new)>(out: array<Jacobian>, o: nat, j: nat, table: seq<AffinePair>, items: seq<int>,
                                 start: seq<int>, perm: seq<int>, p: int, ghost c: Reading<G>,
                                 ghost sc: seq<seq<int>>)
    requires Homomorphic(c) && c.p == p && ColumnGood(c, table, j)
    requires Scalars(sc) && Sorted(sc, items, start, perm) && Place(o, NUM_BUCKETS) <= out.Length
    modifies out
    ensures forall k: nat :: k < NUM_BUCKETS ==>
      Is(c, out[Place(o, k)], BucketSum(c.g, TablePoints(c, table, j), items, start, k))
    ensures forall q: nat :: q < out.Length && q / NUM_BUCKETS != o ==> out[q] == old(out[q])
  {
    hide Homomorphic, Is, ColumnGood, Sorted, TablePoints, SeqSum, BucketSum, BucketsDone;
    ghost var f := TablePoints(c, table, j);
    PermOnto(sc, items, start, perm);
    PlacesOf(o);
    var pending: set<nat> := Invocations(NUM_BUCKETS);
    NoneDone(c, out[..], f, o, items, start, perm, pending);
    while pending != {}
      invariant forall t: nat :: t in pending ==> t < NUM_BUCKETS
      invariant BucketsDone(c, out[..], f, o, items, start, perm, pending)
      invariant forall q: nat :: q < out.Length && q / NUM_BUCKETS != o ==> out[q] == old(out[q])
      decreases |pending|
    {
      var tid :| tid in pending;
      var bucket := perm[tid];
      ItemsNameDigits(sc, items, start, perm, bucket);
      var acc := Accumulate(table, j, items, start[bucket], start[bucket + 1], p, c);
      BucketSumIs(c.g, f, items, start, bucket);
      BucketWritten(c, out[..], f, o, items, start, perm, pending, tid, acc);
      ghost var was := out[..];
      out[Place(o, bucket)] := acc;
      assert out[..] == was[Place(o, bucket) := acc];
      pending := pending - {tid};
    }
    AllDone(c, out[..], f, o, items, start, perm);
  }

  lemma NoneDone<G(!new)>(c: Reading<G>, out: seq<Jacobian>, f: int -> G, o: nat, items: seq<int>, start: seq<int>,
                          perm: seq<int>, pending: set<nat>)
    requires |perm| == NUM_BUCKETS && pending == Invocations(NUM_BUCKETS)
    ensures BucketsDone(c, out, f, o, items, start, perm, pending)
  {
    hide Is, BucketSum;
  }

  lemma AllDone<G(!new)>(c: Reading<G>, out: seq<Jacobian>, f: int -> G, o: nat, items: seq<int>, start: seq<int>,
                         perm: seq<int>)
    requires BucketsDone(c, out, f, o, items, start, perm, {})
    requires forall k :: 0 <= k < NUM_BUCKETS ==> k in perm
    ensures forall k: nat :: k < NUM_BUCKETS ==>
      Place(o, k) < |out| && Is(c, out[Place(o, k)], BucketSum(c.g, f, items, start, k))
  {
    hide BucketSum, Is;
    forall k: nat | k < NUM_BUCKETS
      ensures Place(o, k) < |out| && Is(c, out[Place(o, k)], BucketSum(c.g, f, items, start, k))
    {
      assert (k as int) in perm;
      var t: nat :| t < |perm| && perm[t] == k;
      assert t !in {};
    }
  }

  lemma BucketSumIs<G(!new)>(g: Group<G>, f: int -> G, items: seq<int>, start: seq<int>, k: nat)
    requires k + 1 < |start| && 0 <= start[k] <= start[k + 1] <= |items|
    ensures BucketSum(g, f, items, start, k) == SeqSum(g, items[start[k]..start[k + 1]], f)
  {
  }

  lemma PlacesOf(o: nat)
    ensures forall k: nat :: k < NUM_BUCKETS ==> Place(o, k) / NUM_BUCKETS == o
    ensures forall k: nat, k': nat :: Place(o, k) == Place(o, k') ==> k == k'
  {
    forall k: nat | k < NUM_BUCKETS ensures Place(o, k) / NUM_BUCKETS == o {
      DivModUnique(Place(o, k), NUM_BUCKETS, o, k);
    }
  }

  // ------------------------------------------------------------ the dispatches

  const COLUMNS: nat := 128
  const STARTS: nat := 129

  /** Scalar t of output o. */
  function CoeffIndex(o: nat, t: nat): nat {
    o * TERMS + t
  }

  lemma CoeffFits(o: nat, t: nat, outputs: nat)
    requires o < outputs && t < TERMS
    ensures CoeffIndex(o, t) < outputs * TERMS
  {
  }

  /** The canonical limbs of output o's 64 scalars. */
  ghost function ScalarsOf(xs: seq<int>, o: nat): (sc: seq<seq<int>>)
    ensures Scalars(sc) && forall t: nat :: t < TERMS ==> sc[t] == ScalarAt(xs, CoeffIndex(o, t))
  {
    seq(TERMS, t requires 0 <= t => ScalarAt(xs, CoeffIndex(o, t)))
  }

  ghost function ScalarAt(xs: seq<int>, i: nat): (s: seq<int>)
    ensures |s| == 8
  {
    if i < |xs| && xs[i] >= 0 then M.LimbsOf(xs[i], 8) else M.LimbsOf(0, 8)
  }

  /** The coefficient buffer holds the scalars xs in Montgomery form. */
  ghost predicate CoeffsHold(coeffs: seq<int>, xs: seq<int>, f: M.FieldConstants) {
    && FrConstants(f) && L.Val(f.p) > 0
    && |xs| * FR_LIMBS <= |coeffs| && HoldsAll(coeffs, xs, f)
  }

  lemma ScalarMeaning(coeffs: seq<int>, xs: seq<int>, f: M.FieldConstants, i: nat)
    requires CoeffsHold(coeffs, xs, f) && i < |xs|
    ensures 0 <= xs[i] < L.Val(f.p) && 2 * xs[i] < Pow(L.WORD, 8)
    ensures L.Words(ScalarAt(xs, i), 8) && L.Val(ScalarAt(xs, i)) == xs[i]
    ensures M.Holds(Item(coeffs, i, FR_LIMBS), xs[i], f)
  {
    hide L.Val, Pow, Item, Res;
    assert M.Holds(Item(coeffs, i, FR_LIMBS), xs[i], f);
    M.LimbsSpell(xs[i], 8);
  }

  /** Thread t loads its scalar and leaves Montgomery form. */
  method LoadScalar(coeffs: array<int>, i: nat, f: M.FieldConstants, ghost xs: seq<int>) returns (s: seq<int>)
    requires CoeffsHold(coeffs[..], xs, f) && i < |xs|
    ensures s == ScalarAt(xs, i)
  {
    hide L.Val, Pow, M.Holds, M.ValidConstants, Item, HoldsAll;
    ScalarMeaning(coeffs[..], xs, f, i);
    ItemFits(i, |xs|, FR_LIMBS, coeffs[..]);
    var v := coeffs[i * FR_LIMBS..i * FR_LIMBS + FR_LIMBS];
    assert v == coeffs[..][i * FR_LIMBS..i * FR_LIMBS + FR_LIMBS];
    s := M.ToCanonical(v, f, xs[i]);
    L.ValInjective(s, ScalarAt(xs, i), 8);
  }

  method LoadScalars(coeffs: array<int>, o: nat, outputs: nat, f: M.FieldConstants, ghost xs: seq<int>)
    returns (sc: seq<seq<int>>)
    requires CoeffsHold(coeffs[..], xs, f) && |xs| == outputs * TERMS && o < outputs
    ensures sc == ScalarsOf(xs, o)
  {
    hide CoeffsHold;
    sc := [];
    for t := 0 to TERMS
      invariant |sc| == t && forall q: nat :: q < t ==> sc[q] == ScalarAt(xs, CoeffIndex(o, q))
    {
      CoeffFits(o, t, outputs);
      var s := LoadScalar(coeffs, CoeffIndex(o, t), f, xs);
      sc := sc + [s];
    }
  }

  /** Every output's slice of the three sort buffers is sorted, for the outputs outside pending. */
  ghost predicate SortedExcept(items: seq<int>, starts: seq<int>, perms: seq<int>, xs: seq<int>, outputs: nat,
                               pending: set<nat>) {
    forall o: nat :: o < outputs && o !in pending ==> SortedAt(items, starts, perms, xs, o)
  }

  ghost predicate SortedAt(items: seq<int>, starts: seq<int>, perms: seq<int>, xs: seq<int>, o: nat) {
    Sorted(ScalarsOf(xs, o), Item(items, o, ITEMS), Item(starts, o, STARTS), Item(perms, o, NUM_BUCKETS))
  }

  ghost predicate SortBuffers(items: nat, starts: nat, perms: nat, outputs: nat) {
    outputs * ITEMS <= items && outputs * STARTS <= starts && outputs * NUM_BUCKETS <= perms
  }

  /** One workgroup of the sort. */
  method SortWorkgroup(items: array<int>, starts: array<int>, perms: array<int>, coeffs: array<int>, o: nat,
                       outputs: nat, f: M.FieldConstants, ghost xs: seq<int>)
    requires CoeffsHold(coeffs[..], xs, f) && |xs| == outputs * TERMS && o < outputs
    requires SortBuffers(items.Length, starts.Length, perms.Length, outputs)
    requires items != starts && starts != perms && items != perms && coeffs != items && coeffs != starts
    requires coeffs != perms
    modifies items, starts, perms
    ensures SortedAt(items[..], starts[..], perms[..], xs, o)
    ensures forall q: nat :: q != o ==> Item(items[..], q, ITEMS) == old(Item(items[..], q, ITEMS))
    ensures forall q: nat :: q != o ==> Item(starts[..], q, STARTS) == old(Item(starts[..], q, STARTS))
    ensures forall q: nat :: q != o ==> Item(perms[..], q, NUM_BUCKETS) == old(Item(perms[..], q, NUM_BUCKETS))
  {
    hide Sorted, CoeffsHold, Item, ByLoad;
    var sc := LoadScalars(coeffs, o, outputs, f, xs);
    ItemFits(o, outputs, ITEMS, items[..]);
    var base := o * ITEMS;
    var local := new int[ITEMS](q requires 0 <= q < ITEMS && base + q < items.Length reads items => items[base + q]);
    var start, perm := SortOutput(sc, local);
    SortedSizes(sc, local[..], start, perm);
    assert items[..] == old(items[..]);
    StoreItem(items, o, local[..], ITEMS, outputs);
    ghost var items1 := items[..];
    assert starts[..] == old(starts[..]);
    StoreItem(starts, o, start, STARTS, outputs);
    ghost var starts1 := starts[..];
    assert perms[..] == old(perms[..]);
    StoreItem(perms, o, perm, NUM_BUCKETS, outputs);
    assert items[..] == items1 && starts[..] == starts1;
  }

  lemma SortedSizes(sc: seq<seq<int>>, items: seq<int>, start: seq<int>, perm: seq<int>)
    requires Scalars(sc) && Sorted(sc, items, start, perm)
    ensures |items| == ITEMS && |start| == NUM_BUCKETS + 1 && |perm| == NUM_BUCKETS
  {
    PermOnto(sc, items, start, perm);
  }

  /** The scalar pass over all outputs, workgroups in any order. */
  method SortDispatch(items: array<int>, starts: array<int>, perms: array<int>, coeffs: array<int>, outputs: nat,
                      f: M.FieldConstants, ghost xs: seq<int>)
    requires CoeffsHold(coeffs[..], xs, f) && |xs| == outputs * TERMS
    requires SortBuffers(items.Length, starts.Length, perms.Length, outputs)
    requires items != starts && starts != perms && items != perms && coeffs != items && coeffs != starts
    requires coeffs != perms
    modifies items, starts, perms
    ensures SortedExcept(items[..], starts[..], perms[..], xs, outputs, {})
  {
    hide Sorted, CoeffsHold, Item, ScalarsOf;
    var pending: set<nat> := Invocations(outputs);
    while pending != {}
      invariant forall o: nat :: o in pending ==> o < outputs
      invariant SortedExcept(items[..], starts[..], perms[..], xs, outputs, pending)
      decreases |pending|
    {
      var o :| o in pending;
      SortWorkgroup(items, starts, perms, coeffs, o, outputs, f, xs);
      pending := pending - {o};
    }
  }

  // ------------------------------------------------------------ curve pass over all outputs

  /** Section k of a buffer of w-wide sections. */
  method LoadItem(buf: array<int>, k: nat, w: nat, count: nat) returns (s: seq<int>)
    requires k < count && count * w <= buf.Length
    ensures s == Item(buf[..], k, w)
  {
    ItemFits(k, count, w, buf[..]);
    s := buf[k * w..k * w + w];
    assert s == buf[..][k * w..k * w + w];
  }

  /** The table as the file is meant to hold it: 256^d times the base point of column j, term t. */
  ghost predicate TableReady<G(!new)>(c: Reading<G>, table: seq<AffinePair>, base: (int, int) -> G) {
    forall j: nat, t: nat, d: nat :: j < COLUMNS && t < TERMS && d < NUM_DIGITS ==>
      TableIndex(j, t, d) < |table| && PairIs(c, table[TableIndex(j, t, d)], Smul(c.g, Pow(256, d), base(j, t)))
  }

  /** The 128 columns of 64 terms of 32 points each. */
  ghost predicate TableShape<T>(nested: seq<seq<seq<T>>>) {
    && |nested| == COLUMNS && Even(nested, TERMS)
    && forall j: nat, t: nat :: j < COLUMNS && t < TERMS ==> |nested[j][t]| == NUM_DIGITS
  }

  lemma InFileOrder<T>(nested: seq<seq<seq<T>>>, j: nat, t: nat, d: nat)
    requires TableShape(nested) && j < COLUMNS && t < TERMS && d < NUM_DIGITS
    ensures TableIndex(j, t, d) < |Flat(Flat(nested))| && Flat(Flat(nested))[TableIndex(j, t, d)] == nested[j][t][d]
  {
    TermsEven(nested);
    FlatAt(nested, TERMS, j, t);
    FlatAt(Flat(nested), NUM_DIGITS, j * TERMS + t, d);
  }

  lemma TermsEven<T>(nested: seq<seq<seq<T>>>)
    requires TableShape(nested)
    ensures Even(Flat(nested), NUM_DIGITS)
  {
    hide Flat;
    FlatLength(nested, TERMS);
    forall i | 0 <= i < |Flat(nested)| ensures |Flat(nested)[i]| == NUM_DIGITS {
      FlatAt(nested, TERMS, i / TERMS, i % TERMS);
    }
  }

  /** A table before it is flattened: entry d of term t of column j is 256^d times its base point. */
  ghost predicate NestedReady<G(!new)>(c: Reading<G>, nested: seq<seq<seq<AffinePair>>>, base: (int, int) -> G)
    requires TableShape(nested)
  {
    forall j: nat, t: nat, d: nat :: j < COLUMNS && t < TERMS && d < NUM_DIGITS ==>
      PairIs(c, nested[j][t][d], Smul(c.g, Pow(256, d), base(j, t)))
  }

  /** The file is right exactly if the table it was written from, column by column, term by term, lowest digit
      first, holds the multiples. */
  lemma TableInFileOrder<G(!new)>(c: Reading<G>, nested: seq<seq<seq<AffinePair>>>, base: (int, int) -> G)
    requires TableShape(nested)
    ensures TableReady(c, Flat(Flat(nested)), base) <==> NestedReady(c, nested, base)
  {
    hide Flat, PairIs, Smul, Pow, TableIndex;
    var table := Flat(Flat(nested));
    forall j: nat, t: nat, d: nat | j < COLUMNS && t < TERMS && d < NUM_DIGITS
      ensures TableIndex(j, t, d) < |table| && table[TableIndex(j, t, d)] == nested[j][t][d]
    {
      InFileOrder(nested, j, t, d);
    }
    if TableReady(c, table, base) {
      forall j: nat, t: nat, d: nat | j < COLUMNS && t < TERMS && d < NUM_DIGITS
        ensures PairIs(c, nested[j][t][d], Smul(c.g, Pow(256, d), base(j, t)))
      {
        assert PairIs(c, table[TableIndex(j, t, d)], Smul(c.g, Pow(256, d), base(j, t)));
      }
    }
    if NestedReady(c, nested, base) {
      forall j: nat, t: nat, d: nat | j < COLUMNS && t < TERMS && d < NUM_DIGITS
        ensures PairIs(c, table[TableIndex(j, t, d)], Smul(c.g, Pow(256, d), base(j, t)))
      {
        assert PairIs(c, nested[j][t][d], Smul(c.g, Pow(256, d), base(j, t)));
      }
    }
  }

  ghost function BaseOf<G(!new)>(base: (int, int) -> G, j: int): int -> G {
    t => base(j, t)
  }

  lemma ColumnHolds<G(!new)>(c: Reading<G>, table: seq<AffinePair>, base: (int, int) -> G, j: nat)
    requires TableReady(c, table, base) && j < COLUMNS
    ensures ColumnGood(c, table, j) && TableHolds(c.g, Column(c.g, PairValues(c, table), j), BaseOf(base, j))
  {
    hide Smul, Pow, TableIndex, GoodPair, PairValue;
    forall t: nat, d: nat | t < TERMS && d < NUM_DIGITS
      ensures TableIndex(j, t, d) < |table| && GoodPair(c, table[TableIndex(j, t, d)])
      ensures Column(c.g, PairValues(c, table), j)(t, d) == Smul(c.g, Pow(256, d), base(j, t))
    {
      assert PairIs(c, table[TableIndex(j, t, d)], Smul(c.g, Pow(256, d), base(j, t)));
    }
  }

  /** What bucket k of output o holds after the curve pass. */
  ghost function BucketValue<G(!new)>(c: Reading<G>, table: seq<AffinePair>, items: seq<int>, starts: seq<int>, o: nat,
                                      k: nat): G {
    BucketSum(c.g, TablePoints(c, table, o % COLUMNS), Item(items, o, ITEMS), Item(starts, o, STARTS), k)
  }

  ghost predicate BucketsReady<G(!new)>(c: Reading<G>, buckets: seq<Jacobian>, table: seq<AffinePair>, items: seq<int>,
                                        starts: seq<int>, outputs: nat, pending: set<nat>) {
    forall o: nat, k: nat :: o < outputs && o !in pending && k < NUM_BUCKETS ==>
      Place(o, k) < |buckets| && Is(c, buckets[Place(o, k)], BucketValue(c, table, items, starts, o, k))
  }

  method CurveDispatch<G(!new)>(buckets: array<Jacobian>, items: array<int>, starts: array<int>, perms: array<int>,
                                table: seq<AffinePair>, outputs: nat, p: int, ghost c: Reading<G>,
                                ghost xs: seq<int>, ghost base: (int, int) -> G)
    requires Homomorphic(c) && c.p == p && TableReady(c, table, base)
    requires SortedExcept(items[..], starts[..], perms[..], xs, outputs, {})
    requires SortBuffers(items.Length, starts.Length, perms.Length, outputs)
    requires outputs * NUM_BUCKETS <= buckets.Length
    modifies buckets
    ensures items[..] == old(items[..]) && starts[..] == old(starts[..]) && perms[..] == old(perms[..])
    ensures BucketsReady(c, buckets[..], table, items[..], starts[..], outputs, {})
  {
    hide Homomorphic, TableReady, ColumnGood, Sorted, Item, ScalarsOf, BucketSum, TablePoints, BucketsReady;
    var pending: set<nat> := Invocations(outputs);
    ghost var allItems, allStarts, allPerms := items[..], starts[..], perms[..];
    NoOutputDone(c, buckets[..], table, allItems, allStarts, outputs);
    while pending != {}
      invariant forall o: nat :: o in pending ==> o < outputs
      invariant BucketsReady(c, buckets[..], table, allItems, allStarts, outputs, pending)
      invariant items[..] == allItems && starts[..] == allStarts && perms[..] == allPerms
      decreases |pending|
    {
      var o :| o in pending;
      assert SortedAt(allItems, allStarts, allPerms, xs, o);
      var section := LoadItem(items, o, ITEMS, outputs);
      var start := LoadItem(starts, o, STARTS, outputs);
      var perm := LoadItem(perms, o, NUM_BUCKETS, outputs);
      PlaceFits(o, outputs);
      ColumnHolds(c, table, base, o % COLUMNS);
      ghost var was := buckets[..];
      CurveWorkgroup(buckets, o, o % COLUMNS, table, section, start, perm, p, c, ScalarsOf(xs, o));
      OutputDone(c, buckets[..], was, table, allItems, allStarts, outputs, pending, o);
      pending := pending - {o};
    }
  }

  lemma NoOutputDone<G(!new)>(c: Reading<G>, was: seq<Jacobian>, table: seq<AffinePair>, items: seq<int>,
                              starts: seq<int>, outputs: nat)
    ensures BucketsReady(c, was, table, items, starts, outputs, Invocations(outputs))
  {
    hide Is, BucketValue;
  }

  lemma PlaceFits(o: nat, outputs: nat)
    requires o < outputs
    ensures Place(o, NUM_BUCKETS) <= outputs * NUM_BUCKETS
  {
  }

  lemma OutputDone<G(!new)>(c: Reading<G>, now: seq<Jacobian>, was: seq<Jacobian>, table: seq<AffinePair>,
                            items: seq<int>, starts: seq<int>, outputs: nat, pending: set<nat>, o: nat)
    requires BucketsReady(c, was, table, items, starts, outputs, pending) && |now| == |was|
    requires Place(o, NUM_BUCKETS) <= |now|
    requires forall k: nat :: k < NUM_BUCKETS ==>
      Is(c, now[Place(o, k)], BucketValue(c, table, items, starts, o, k))
    requires forall q: nat :: q < |now| && q / NUM_BUCKETS != o ==> now[q] == was[q]
    ensures BucketsReady(c, now, table, items, starts, outputs, pending - {o})
  {
    hide BucketValue, Is;
    forall o': nat, k: nat | o' < outputs && o' !in pending - {o} && k < NUM_BUCKETS
      ensures Place(o', k) < |now| && Is(c, now[Place(o', k)], BucketValue(c, table, items, starts, o', k))
    {
      PlacesOf(o');
    }
  }

  // ------------------------------------------------------------ phase A

  /** The product phase A is for: the scalars of output q against the base points of its column. */
  ghost function Msm<G(!new)>(g: Group<G>, xs: seq<int>, base: (int, int) -> G, q: nat): G {
    GSum(g, TERMS, t => MsmTerm(g, xs, base, q, t))
  }

  ghost function MsmTerm<G(!new)>(g: Group<G>, xs: seq<int>, base: (int, int) -> G, q: nat, t: int): G {
    if 0 <= t && CoeffIndex(q, t) < |xs| then Smul(g, xs[CoeffIndex(q, t)], base(q % COLUMNS, t)) else g.zero
  }

  /** Sort, accumulate, reduce: every output stands for its multi-scalar product, for all scalars, whatever the
      interleavings, the lane count and the stale buffer contents. */
  method PhaseA<G(!new)>(out: array<Jacobian>, buckets: array<Jacobian>, items: array<int>, starts: array<int>,
                         perms: array<int>, coeffs: array<int>, table: seq<AffinePair>, batch: nat, log: nat,
                         undef: Garbage, f: M.FieldConstants, p: int, ghost c: Reading<G>,
                         ghost xs: seq<int>, ghost base: (int, int) -> G)
    requires Homomorphic(c) && c.p == p && TableReady(c, table, base) && CoeffsHold(coeffs[..], xs, f)
    requires |xs| == batch * COLUMNS * TERMS
    requires SortBuffers(items.Length, starts.Length, perms.Length, batch * COLUMNS)
    requires items != starts && starts != perms && items != perms && coeffs != items && coeffs != starts
    requires coeffs != perms
    requires out != buckets && batch * COLUMNS <= out.Length && batch * COLUMNS * NUM_BUCKETS <= buckets.Length
    requires log <= 5 && forall x: nat, b: nat :: Shaped(undef(x, b), log, WORKGROUP)
    modifies out, buckets, items, starts, perms
    ensures forall q: nat :: q < batch * COLUMNS ==> Is(c, out[q], Msm(c.g, xs, base, q))
  {
    hide Homomorphic, TableReady, CoeffsHold, SortedExcept, BucketsReady, Reduced, Msm, Is, Shaped, BlobGood, Stored,
      Values;
    ghost var coeffs0 := coeffs[..];
    SortDispatch(items, starts, perms, coeffs, batch * COLUMNS, f, xs);
    CurveDispatch(buckets, items, starts, perms, table, batch * COLUMNS, p, c, xs, base);
    ghost var allItems, allStarts, allPerms, allBuckets := items[..], starts[..], perms[..], buckets[..];
    BucketsGood(c, allBuckets, table, allItems, allStarts, batch);
    ghost var was := out[..];
    Reduce(out, buckets, COLUMNS, batch, log, undef, p, c);
    forall q: nat | q < batch * COLUMNS ensures Is(c, out[q], Msm(c.g, xs, base, q)) {
      StoredOutput(c, out[..], was, Values(c, allBuckets), q, batch);
      ReducedIsMsm(c, allBuckets, table, allItems, allStarts, allPerms, batch * COLUMNS, f, coeffs0, xs, base, q);
    }
  }

  lemma BucketsGood<G(!new)>(c: Reading<G>, buckets: seq<Jacobian>, table: seq<AffinePair>, items: seq<int>,
                             starts: seq<int>, batch: nat)
    requires BucketsReady(c, buckets, table, items, starts, batch * COLUMNS, {})
    ensures forall b: nat :: b < batch ==> BlobGood(c, buckets, b, COLUMNS)
  {
    hide BucketValue, Value, Good;
    forall b: nat | b < batch ensures BlobGood(c, buckets, b, COLUMNS) {
      forall q: nat | q / OUTPUTS == b ensures OutputGood(c, buckets, q) {
        OutputInBatch(q, batch);
        forall k: nat | k < NUM_BUCKETS ensures Place(q, k) < |buckets| && Good(c, buckets[Place(q, k)]) {
          assert Is(c, buckets[Place(q, k)], BucketValue(c, table, items, starts, q, k));
        }
      }
    }
  }

  lemma OutputInBatch(q: nat, batch: nat)
    ensures q < batch * OUTPUTS <==> IsOutput(q, batch, OUTPUTS)
  {
    DivNonneg(q, OUTPUTS);
  }

  /** What the reduction leaves for an output of the batch. */
  lemma StoredOutput<G(!new)>(c: Reading<G>, now: seq<Jacobian>, was: seq<Jacobian>, content: seq<G>, q: nat,
                              batch: nat)
    requires q < |now| == |was| && q < batch * OUTPUTS
    requires Stored(c, now, was, content, q, IsOutput(q, batch, OUTPUTS))
    ensures Is(c, now[q], Reduced(c.g, content, q))
  {
    hide Is, Reduced;
    OutputInBatch(q, batch);
  }

  lemma ScalarsBelowHalf(coeffs: seq<int>, xs: seq<int>, f: M.FieldConstants, outputs: nat, q: nat)
    requires CoeffsHold(coeffs, xs, f) && |xs| == outputs * TERMS && q < outputs
    ensures BelowHalf(ScalarsOf(xs, q))
    ensures forall t: nat :: t < TERMS ==> CoeffIndex(q, t) < |xs| && L.Val(ScalarsOf(xs, q)[t]) == xs[CoeffIndex(q, t)]
  {
    hide L.Val, Pow, CoeffsHold, ScalarAt;
    forall t: nat | t < TERMS
      ensures L.Words(ScalarsOf(xs, q)[t], 8) && 2 * L.Val(ScalarsOf(xs, q)[t]) < Pow(L.WORD, 8)
      ensures CoeffIndex(q, t) < |xs| && L.Val(ScalarsOf(xs, q)[t]) == xs[CoeffIndex(q, t)]
    {
      CoeffFits(q, t, outputs);
      ScalarMeaning(coeffs, xs, f, CoeffIndex(q, t));
    }
  }

  lemma ReducedIsMsm<G(!new)>(c: Reading<G>, buckets: seq<Jacobian>, table: seq<AffinePair>, items: seq<int>,
                              starts: seq<int>, perms: seq<int>, outputs: nat, f: M.FieldConstants, coeffs: seq<int>,
                              xs: seq<int>, base: (int, int) -> G, q: nat)
    requires Homomorphic(c) && TableReady(c, table, base) && CoeffsHold(coeffs, xs, f) && |xs| == outputs * TERMS
    requires q < outputs
    requires SortedExcept(items, starts, perms, xs, outputs, {})
    requires BucketsReady(c, buckets, table, items, starts, outputs, {})
    ensures Reduced(c.g, Values(c, buckets), q) == Msm(c.g, xs, base, q)
  {
    hide Homomorphic, IsAbelian, TableReady, CoeffsHold, BelowHalf, Sorted, Item, ScalarsOf, TablePoints, BucketSum,
      Weighted, GSum, Smul, TableHolds, L.Val, Good, Value;
    HomomorphicParts(c);
    var g, j := c.g, q % COLUMNS;
    var sc := ScalarsOf(xs, q);
    assert SortedAt(items, starts, perms, xs, q);
    ScalarsBelowHalf(coeffs, xs, f, outputs, q);
    ColumnHolds(c, table, base, j);
    forall k: nat | k < NUM_BUCKETS
      ensures BucketsOf(g, Values(c, buckets), q)(k)
           == BucketSum(g, TablePoints(c, table, j), Item(items, q, ITEMS), Item(starts, q, STARTS), k)
    {
      assert Is(c, buckets[Place(q, k)], BucketValue(c, table, items, starts, q, k));
    }
    TablePointsAre(c, table, j);
    SortedWeight(g, Column(g, PairValues(c, table), j), BaseOf(base, j), sc, Item(items, q, ITEMS),
                 Item(starts, q, STARTS), Item(perms, q, NUM_BUCKETS), BucketsOf(g, Values(c, buckets), q));
    GSumEq(g, TERMS, t => Term(g, sc, BaseOf(base, j), t), t => MsmTerm(g, xs, base, q, t));
  }

  lemma TablePointsAre<G(!new)>(c: Reading<G>, table: seq<AffinePair>, j: nat)
    ensures TablePoints(c, table, j) == Points(c.g, Column(c.g, PairValues(c, table), j))
  {
  }
}
