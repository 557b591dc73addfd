/** The scalar pass of phase A for one output: histogram of digit magnitudes, bucket boundaries, load
    ordering and scatter, with the atomic steps of the 64 threads interleaved in any order. */
module BucketSort {
  import opened Dispatch
  import opened Recode

  const TERMS: nat := 64
  const ITEMS: nat := 2048
  const LOAD_CLASSES: nat := 64

  ghost predicate Scalars(sc: seq<seq<int>>) {
    |sc| == TERMS && forall t :: 0 <= t < TERMS ==> |sc[t]| == 8
  }

  /** How many digits each thread has handled. */
  ghost predicate Progress(next: seq<nat>) {
    |next| == TERMS && forall t :: 0 <= t < TERMS ==> next[t] <= NUM_DIGITS
  }

  ghost function Finished(): (next: seq<nat>)
    ensures Progress(next) && forall t :: 0 <= t < TERMS ==> next[t] == NUM_DIGITS
  {
    seq(TERMS, _ => NUM_DIGITS)
  }

  function ZeroEach(): (z: seq<nat>)
    ensures |z| == TERMS && forall t :: 0 <= t < TERMS ==> z[t] == 0
  {
    seq(TERMS, _ => 0)
  }

  function Magnitude(v: int): nat {
    if v < 0 then -v else v
  }

  // ------------------------------------------------------------ which digits fall into a bucket

  /** The packed digits of magnitude k + 1 among the first n of one thread. */
  ghost function ThreadCodes(scalar: seq<int>, t: nat, n: nat, k: nat): seq<int>
    requires |scalar| == 8 && n <= NUM_DIGITS && t < TERMS
  {
    if n == 0 then []
    else ThreadCodes(scalar, t, n - 1, k) +
         if Magnitude(DigitAt(scalar, n - 1)) == k + 1 then [Pack(t, n - 1, DigitAt(scalar, n - 1)) as int] else []
  }

  /** Over the first m threads, each at its own progress. */
  ghost function Codes(sc: seq<seq<int>>, next: seq<nat>, m: nat, k: nat): seq<int>
    requires Scalars(sc) && Progress(next) && m <= TERMS
  {
    if m == 0 then [] else Codes(sc, next, m - 1, k) + ThreadCodes(sc[m - 1], m - 1, next[m - 1], k)
  }

  /** The contents of bucket k, up to order. */
  ghost function BucketCodes(sc: seq<seq<int>>, k: nat): seq<int>
    requires Scalars(sc)
  {
    Codes(sc, Finished(), TERMS, k)
  }

  lemma {:induction false} CodesUnaffected(sc: seq<seq<int>>, next: seq<nat>, t: nat, m: nat, k: nat)
    requires Scalars(sc) && Progress(next) && m <= t < TERMS && next[t] < NUM_DIGITS
    ensures Progress(next[t := next[t] + 1]) && Codes(sc, next[t := next[t] + 1], m, k) == Codes(sc, next, m, k)
  {
    if m > 0 {
      CodesUnaffected(sc, next, t, m - 1, k);
    }
  }

  /** What handling digit n of thread t adds to bucket k. */
  ghost function Added(scalar: seq<int>, t: nat, n: nat, k: nat): multiset<int>
    requires |scalar| == 8 && n < NUM_DIGITS && t < TERMS
  {
    if Magnitude(DigitAt(scalar, n)) == k + 1 then multiset{Pack(t, n, DigitAt(scalar, n)) as int} else multiset{}
  }

  lemma ThreadStep(scalar: seq<int>, t: nat, n: nat, k: nat)
    requires |scalar| == 8 && n < NUM_DIGITS && t < TERMS
    ensures multiset(ThreadCodes(scalar, t, n + 1, k))
         == multiset(ThreadCodes(scalar, t, n, k)) + Added(scalar, t, n, k)
  {
    hide DigitAt, Pack, Magnitude;
    assert ThreadCodes(scalar, t, n + 1, k) == ThreadCodes(scalar, t, n, k) +
      if Magnitude(DigitAt(scalar, n)) == k + 1 then [Pack(t, n, DigitAt(scalar, n)) as int] else [];
  }

  lemma CodesUnfold(sc: seq<seq<int>>, next: seq<nat>, m: nat, k: nat)
    requires Scalars(sc) && Progress(next) && 0 < m <= TERMS
    ensures multiset(Codes(sc, next, m, k))
         == multiset(Codes(sc, next, m - 1, k)) + multiset(ThreadCodes(sc[m - 1], m - 1, next[m - 1], k))
  {
  }

  /** One step of one thread adds its digit to the bucket of its magnitude and to no other. */
  lemma {:induction false} CodesStep(sc: seq<seq<int>>, next: seq<nat>, t: nat, m: nat, k: nat)
    requires Scalars(sc) && Progress(next) && t < m <= TERMS && next[t] < NUM_DIGITS
    ensures Progress(next[t := next[t] + 1])
    ensures multiset(Codes(sc, next[t := next[t] + 1], m, k))
         == multiset(Codes(sc, next, m, k)) + Added(sc[t], t, next[t], k)
  {
    hide Codes, ThreadCodes, Added;
    var next' := next[t := next[t] + 1];
    CodesUnfold(sc, next, m, k);
    CodesUnfold(sc, next', m, k);
    if t == m - 1 {
      CodesUnaffected(sc, next, t, m - 1, k);
      ThreadStep(sc[t], t, next[t], k);
    } else {
      CodesStep(sc, next, t, m - 1, k);
      assert next'[m - 1] == next[m - 1];
    }
  }

  lemma CountStep(sc: seq<seq<int>>, next: seq<nat>, t: nat, k: nat)
    requires Scalars(sc) && Progress(next) && t < TERMS && next[t] < NUM_DIGITS
    ensures Progress(next[t := next[t] + 1])
    ensures |Codes(sc, next[t := next[t] + 1], TERMS, k)|
         == |Codes(sc, next, TERMS, k)| + if Magnitude(DigitAt(sc[t], next[t])) == k + 1 then 1 else 0
  {
    hide Codes, DigitAt, Pack;
    CodesStep(sc, next, t, TERMS, k);
    var next' := next[t := next[t] + 1];
    assert |multiset(Codes(sc, next', TERMS, k))| == |Codes(sc, next', TERMS, k)|;
    assert |multiset(Codes(sc, next, TERMS, k))| == |Codes(sc, next, TERMS, k)|;
  }

  lemma {:induction false} ThreadCodesGrow(scalar: seq<int>, t: nat, n: nat, n': nat, k: nat)
    requires |scalar| == 8 && n <= n' <= NUM_DIGITS && t < TERMS
    ensures |ThreadCodes(scalar, t, n, k)| <= |ThreadCodes(scalar, t, n', k)|
    decreases n'
  {
    if n < n' {
      ThreadCodesGrow(scalar, t, n, n' - 1, k);
    }
  }

  lemma {:induction false} CodesGrow(sc: seq<seq<int>>, next: seq<nat>, m: nat, k: nat)
    requires Scalars(sc) && Progress(next) && m <= TERMS
    ensures |Codes(sc, next, m, k)| <= |Codes(sc, Finished(), m, k)|
  {
    if m > 0 {
      CodesGrow(sc, next, m - 1, k);
      ThreadCodesGrow(sc[m - 1], m - 1, next[m - 1], NUM_DIGITS, k);
    }
  }

  lemma {:induction false} NothingDone(sc: seq<seq<int>>, next: seq<nat>, m: nat, k: nat)
    requires Scalars(sc) && Progress(next) && m <= TERMS && forall t :: 0 <= t < TERMS ==> next[t] == 0
    ensures Codes(sc, next, m, k) == []
  {
    if m > 0 {
      NothingDone(sc, next, m - 1, k);
    }
  }

  // ------------------------------------------------------------ the threads

  /** Digits still to be handled. */
  ghost function Left(next: seq<nat>, m: nat): int
    requires Progress(next) && m <= TERMS
  {
    if m == 0 then 0 else Left(next, m - 1) + (NUM_DIGITS - next[m - 1])
  }

  lemma {:induction false} LeftStep(next: seq<nat>, t: nat, m: nat)
    requires Progress(next) && t < TERMS && m <= TERMS && next[t] < NUM_DIGITS
    ensures Progress(next[t := next[t] + 1])
    ensures Left(next[t := next[t] + 1], m) == Left(next, m) - if t < m then 1 else 0
  {
    if m > 0 {
      LeftStep(next, t, m - 1);
    }
  }

  lemma {:induction false} LeftNonneg(next: seq<nat>, m: nat)
    requires Progress(next) && m <= TERMS
    ensures Left(next, m) >= 0
  {
    if m > 0 {
      LeftNonneg(next, m - 1);
    }
  }

  /** Threads between two barriers: where each one is, its carry, and who is still running. */
  ghost predicate Running(sc: seq<seq<int>>, next: seq<nat>, carry: seq<int>, active: set<nat>)
    requires Scalars(sc)
  {
    && Progress(next) && |carry| == TERMS
    && (forall t :: 0 <= t < TERMS ==> carry[t] == CarryIn(sc[t], next[t]))
    && (forall t: nat :: t in active <==> t < TERMS && next[t] < NUM_DIGITS)
  }

  /** The running thread t recodes its next digit. */
  method NextDigit(sc: seq<seq<int>>, next: seq<nat>, carry: seq<int>, active: set<nat>, t: nat)
    returns (v: int, next': seq<nat>, carry': seq<int>, active': set<nat>)
    requires Scalars(sc) && Running(sc, next, carry, active) && t in active
    ensures t < TERMS && next[t] < NUM_DIGITS && v == DigitAt(sc[t], next[t]) && next' == next[t := next[t] + 1]
    ensures Progress(next') && Running(sc, next', carry', active') && 0 <= Left(next', TERMS) < Left(next, TERMS)
  {
    var c;
    LeftStep(next, t, TERMS);
    LeftNonneg(next[t := next[t] + 1], TERMS);
    v, c := RecodeDigit(sc[t], next[t], carry[t]);
    next' := next[t := next[t] + 1];
    carry' := carry[t := c];
    active' := if next'[t] < NUM_DIGITS then active else active - {t};
  }

  lemma AllFinished(sc: seq<seq<int>>, next: seq<nat>, carry: seq<int>)
    requires Scalars(sc) && Running(sc, next, carry, {})
    ensures next == Finished()
  {
    forall t: nat | t < TERMS ensures next[t] == NUM_DIGITS {
      assert t !in {};
    }
  }

  /** The counters hold the bucket sizes of the digits handled so far. */
  ghost predicate Counted(sc: seq<seq<int>>, next: seq<nat>, count: seq<int>)
    requires Scalars(sc) && Progress(next)
  {
    |count| == NUM_BUCKETS && forall k: nat :: k < NUM_BUCKETS ==> count[k] == |Codes(sc, next, TERMS, k)|
  }

  function Incremented(count: seq<int>, v: int): seq<int>
    requires Magnitude(v) <= |count|
  {
    if v == 0 then count else count[Magnitude(v) - 1 := count[Magnitude(v) - 1] + 1]
  }

  /** The atomic increment of a digit's counter; a zero digit has none. */
  method Increment(count: array<int>, v: int)
    requires Magnitude(v) <= count.Length
    modifies count
    ensures count[..] == Incremented(old(count[..]), v)
  {
    if v != 0 {
      count[Magnitude(v) - 1] := count[Magnitude(v) - 1] + 1;
    }
  }

  lemma CountedStep(sc: seq<seq<int>>, next: seq<nat>, t: nat, count: seq<int>)
    requires Scalars(sc) && Progress(next) && t < TERMS && next[t] < NUM_DIGITS && Counted(sc, next, count)
    ensures Progress(next[t := next[t] + 1]) && Magnitude(DigitAt(sc[t], next[t])) <= NUM_BUCKETS
    ensures Counted(sc, next[t := next[t] + 1], Incremented(count, DigitAt(sc[t], next[t])))
  {
    hide Codes, DigitAt;
    DigitRange(sc[t], next[t]);
    forall k: nat | k < NUM_BUCKETS
      ensures Incremented(count, DigitAt(sc[t], next[t]))[k] == |Codes(sc, next[t := next[t] + 1], TERMS, k)|
    {
      CountStep(sc, next, t, k);
    }
  }

  ghost predicate CountState(sc: seq<seq<int>>, next: seq<nat>, carry: seq<int>, active: set<nat>, count: seq<int>)
    requires Scalars(sc)
  {
    Progress(next) && Running(sc, next, carry, active) && Counted(sc, next, count)
  }

  ghost function StepsLeft(next: seq<nat>): int {
    if Progress(next) then Left(next, TERMS) else 0
  }

  /** One step of a running thread. */
  method CountStepOf(sc: seq<seq<int>>, count: array<int>, t: nat, next: seq<nat>, carry: seq<int>, active: set<nat>)
    returns (next': seq<nat>, carry': seq<int>, active': set<nat>)
    requires Scalars(sc) && t in active && CountState(sc, next, carry, active, count[..])
    modifies count
    ensures CountState(sc, next', carry', active', count[..]) && 0 <= StepsLeft(next') < StepsLeft(next)
  {
    assert |sc| == TERMS && |count[..]| == NUM_BUCKETS;
    hide DigitAt, Digit, ByteAt, CarryIn, Left, Running, Counted, Progress, Scalars, Incremented, Magnitude;
    ActiveThread(sc, next, carry, active, t);
    CountedStep(sc, next, t, count[..]);
    var v;
    v, next', carry', active' := NextDigit(sc, next, carry, active, t);
    Increment(count, v);
  }

  /** The histogram: every thread adds its digits with atomic increments, in any interleaving. */
  method Histogram(sc: seq<seq<int>>) returns (count: array<int>)
    requires Scalars(sc)
    ensures fresh(count) && Counted(sc, Finished(), count[..])
  {
    hide *;
    count := new int[NUM_BUCKETS](_ => 0);
    var next: seq<nat> := ZeroEach();
    var carry: seq<int> := ZeroEach();
    var active: set<nat> := Invocations(TERMS);
    StartRunning(sc, next, carry, active);
    NothingCounted(sc, next, count[..]);
    assert CountState(sc, next, carry, active, count[..]) by {
      StartState(sc, next, carry, active, count[..]);
    }
    while active != {}
      invariant fresh(count) && CountState(sc, next, carry, active, count[..])
      decreases StepsLeft(next)
    {
      SomeInvocation(active);
      var t :| t in active;
      next, carry, active := CountStepOf(sc, count, t, next, carry, active);
    }
    AllCounted(sc, next, carry, count[..]);
  }

  lemma StartState(sc: seq<seq<int>>, next: seq<nat>, carry: seq<int>, active: set<nat>, count: seq<int>)
    requires Scalars(sc) && Progress(next) && Running(sc, next, carry, active) && Counted(sc, next, count)
    ensures CountState(sc, next, carry, active, count)
  {
  }

  lemma AllCounted(sc: seq<seq<int>>, next: seq<nat>, carry: seq<int>, count: seq<int>)
    requires Scalars(sc) && CountState(sc, next, carry, {}, count)
    ensures Counted(sc, Finished(), count)
  {
    hide Counted;
    AllFinished(sc, next, carry);
  }

  lemma ActiveThread(sc: seq<seq<int>>, next: seq<nat>, carry: seq<int>, active: set<nat>, t: nat)
    requires Scalars(sc) && Running(sc, next, carry, active) && t in active
    ensures Progress(next) && t < TERMS && next[t] < NUM_DIGITS
  {
  }

  lemma NothingCounted(sc: seq<seq<int>>, next: seq<nat>, count: seq<int>)
    requires Scalars(sc) && next == ZeroEach() && count == seq(NUM_BUCKETS, _ => 0)
    ensures Progress(next) && Counted(sc, next, count)
  {
    forall k: nat | k < NUM_BUCKETS ensures |Codes(sc, next, TERMS, k)| == 0 {
      NothingDone(sc, next, TERMS, k);
    }
  }

  lemma StartRunning(sc: seq<seq<int>>, next: seq<nat>, carry: seq<int>, active: set<nat>)
    requires Scalars(sc) && next == ZeroEach() && carry == ZeroEach() && active == Invocations(TERMS)
    ensures Progress(next) && Running(sc, next, carry, active)
  {
  }

  // ------------------------------------------------------------ bucket boundaries

  /** c[0] + ... + c[k - 1]. */
  ghost function Prefix(c: seq<int>, k: nat): int
    requires k <= |c|
  {
    if k == 0 then 0 else Prefix(c, k - 1) + c[k - 1]
  }

  ghost predicate Counts(c: seq<int>) {
    |c| == NUM_BUCKETS && forall k :: 0 <= k < NUM_BUCKETS ==> c[k] >= 0
  }

  lemma {:induction false} PrefixMono(c: seq<int>, j: nat, k: nat)
    requires Counts(c) && j <= k <= NUM_BUCKETS
    ensures 0 <= Prefix(c, j) <= Prefix(c, k)
    decreases k
  {
    if j < k {
      PrefixMono(c, j, k - 1);
    } else if k > 0 {
      PrefixMono(c, 0, k - 1);
    }
  }

  /** Boundaries from counts; the counters are reset to the boundaries for use as write cursors. */
  method Boundaries(count: array<int>) returns (start: array<int>)
    requires count.Length == NUM_BUCKETS
    modifies count
    ensures fresh(start) && start.Length == NUM_BUCKETS + 1
    ensures forall k: nat :: k <= NUM_BUCKETS ==> start[k] == Prefix(old(count[..]), k)
    ensures forall k: nat :: k < NUM_BUCKETS ==> count[k] == start[k]
  {
    start := new int[NUM_BUCKETS + 1];
    var acc := 0;
    for k := 0 to NUM_BUCKETS
      invariant acc == Prefix(old(count[..]), k)
      invariant forall q: nat :: q < k ==> start[q] == Prefix(old(count[..]), q) && count[q] == start[q]
      invariant forall q: nat :: k <= q < NUM_BUCKETS ==> count[q] == old(count[..])[q]
    {
      start[k] := acc;
      acc := acc + count[k];
      count[k] := start[k];
    }
    start[NUM_BUCKETS] := acc;
  }

  // ------------------------------------------------------------ load ordering

  function LoadClass(load: int): (c: int)
    ensures load >= 0 ==> 0 <= c < LOAD_CLASSES
  {
    if load < LOAD_CLASSES - 1 then load else LOAD_CLASSES - 1
  }

  /** The buckets below n of class c, ascending. */
  ghost function ClassList(load: seq<int>, n: nat, c: int): (s: seq<int>)
    requires n <= |load|
    ensures |s| <= n
  {
    if n == 0 then [] else ClassList(load, n - 1, c) + if LoadClass(load[n - 1]) == c then [n - 1] else []
  }

  /** Heaviest class first, ascending within a class: classes c and above. */
  ghost function ByLoad(load: seq<int>, c: nat): seq<int>
    requires c <= LOAD_CLASSES
    decreases LOAD_CLASSES - c
  {
    if c == LOAD_CLASSES then [] else ByLoad(load, c + 1) + ClassList(load, |load|, c)
  }

  /** Where class c begins in the ordering. */
  ghost function ClassStart(load: seq<int>, c: nat): nat
    requires c < LOAD_CLASSES
  {
    |ByLoad(load, c + 1)|
  }

  lemma {:induction false} ClassListGrows(load: seq<int>, n: nat, n': nat, c: int)
    requires n <= n' <= |load|
    ensures |ClassList(load, n, c)| <= |ClassList(load, n', c)|
    decreases n'
  {
    if n < n' {
      ClassListGrows(load, n, n' - 1, c);
    }
  }

  lemma {:induction false} ByLoadGrows(load: seq<int>, c: nat, c': nat)
    requires c <= c' <= LOAD_CLASSES
    ensures ByLoad(load, c') <= ByLoad(load, c)
    decreases c' - c
  {
    if c < c' {
      ByLoadGrows(load, c + 1, c');
    }
  }

  /** The sections of two classes do not meet. */
  lemma ClassesApart(load: seq<int>, c: nat, c': nat)
    requires c' < c < LOAD_CLASSES
    ensures ClassStart(load, c) + |ClassList(load, |load|, c)| <= ClassStart(load, c')
  {
    ByLoadGrows(load, c' + 1, c);
  }

  /** How many of the buckets below n are in a class below c. */
  ghost function ClassTotal(load: seq<int>, n: nat, c: nat): int
    requires n <= |load|
  {
    if c == 0 then 0 else ClassTotal(load, n, c - 1) + |ClassList(load, n, c - 1)|
  }

  lemma {:induction false} ClassTotalStep(load: seq<int>, n: nat, c: nat)
    requires n < |load| && load[n] >= 0
    ensures ClassTotal(load, n + 1, c) == ClassTotal(load, n, c) + if LoadClass(load[n]) < c then 1 else 0
    decreases c
  {
    if c > 0 {
      ClassTotalStep(load, n, c - 1);
    }
  }

  /** Every bucket is in exactly one class. */
  lemma {:induction false} ClassSizes(load: seq<int>, n: nat)
    requires n <= |load| && forall k :: 0 <= k < |load| ==> load[k] >= 0
    ensures ClassTotal(load, n, LOAD_CLASSES) == n
  {
    if n > 0 {
      ClassSizes(load, n - 1);
      ClassTotalStep(load, n - 1, LOAD_CLASSES);
    } else {
      NoClasses(load, LOAD_CLASSES);
    }
  }

  lemma {:induction false} NoClasses(load: seq<int>, c: nat)
    ensures ClassTotal(load, 0, c) == 0
  {
    if c > 0 {
      NoClasses(load, c - 1);
    }
  }

  lemma {:induction false} ByLoadLength(load: seq<int>, c: nat)
    requires c <= LOAD_CLASSES
    ensures |ByLoad(load, c)| + ClassTotal(load, |load|, c) == ClassTotal(load, |load|, LOAD_CLASSES)
    decreases LOAD_CLASSES - c
  {
    hide ClassList;
    if c < LOAD_CLASSES {
      ByLoadLength(load, c + 1);
    }
  }

  lemma ByLoadTotal(load: seq<int>)
    requires forall k :: 0 <= k < |load| ==> load[k] >= 0
    ensures |ByLoad(load, 0)| == |load|
  {
    ClassSizes(load, |load|);
    ByLoadLength(load, 0);
  }

  lemma ClassStep(load: seq<int>, n: nat, c: int)
    requires n < |load|
    ensures |ClassList(load, n + 1, c)| == |ClassList(load, n, c)| + if LoadClass(load[n]) == c then 1 else 0
  {
  }

  /** Class sizes. */
  method ClassHistogram(load: seq<int>) returns (hist: array<int>)
    requires |load| == NUM_BUCKETS && forall k :: 0 <= k < |load| ==> load[k] >= 0
    ensures fresh(hist) && hist.Length == LOAD_CLASSES
    ensures forall c: nat :: c < LOAD_CLASSES ==> hist[c] == |ClassList(load, NUM_BUCKETS, c)|
  {
    hide ClassList, LoadClass;
    hist := new int[LOAD_CLASSES](_ => 0);
    NoClassMembers(load);
    for k := 0 to NUM_BUCKETS
      invariant forall c: nat :: c < LOAD_CLASSES ==> hist[c] == |ClassList(load, k, c)|
    {
      var cls := LoadClass(load[k]);
      ClassInRange(load[k]);
      forall c: nat ensures |ClassList(load, k + 1, c)| == |ClassList(load, k, c)| + if cls == c then 1 else 0 {
        ClassStep(load, k, c);
      }
      hist[cls] := hist[cls] + 1;
    }
  }

  lemma NoClassMembers(load: seq<int>)
    ensures forall c: nat :: ClassList(load, 0, c) == []
  {
  }

  /** Class sizes become first positions, from the heaviest class down. */
  method ClassPositions(load: seq<int>) returns (hist: array<int>)
    requires |load| == NUM_BUCKETS && forall k :: 0 <= k < |load| ==> load[k] >= 0
    ensures fresh(hist) && hist.Length == LOAD_CLASSES
    ensures forall c: nat :: c < LOAD_CLASSES ==> hist[c] == ClassStart(load, c)
  {
    hide ClassList, ByLoad, ClassStart;
    hist := ClassHistogram(load);
    var pos := 0;
    var c := LOAD_CLASSES;
    ByLoadUnfold(load, c);
    while c > 0
      invariant 0 <= c <= LOAD_CLASSES && pos == |ByLoad(load, c)|
      invariant forall q: nat :: q < c ==> hist[q] == |ClassList(load, NUM_BUCKETS, q)|
      invariant forall q: nat :: c <= q < LOAD_CLASSES ==> hist[q] == ClassStart(load, q)
    {
      c := c - 1;
      ByLoadUnfold(load, c);
      ClassStartIs(load, c);
      var n := hist[c];
      hist[c] := pos;
      pos := pos + n;
    }
  }

  lemma ClassStartIs(load: seq<int>, c: nat)
    requires c < LOAD_CLASSES
    ensures ClassStart(load, c) == |ByLoad(load, c + 1)|
  {
  }

  /** What the placement has done after the first n buckets: each class filled up to its cursor. */
  ghost predicate Placed(load: seq<int>, perm: seq<int>, hist: seq<int>, n: nat)
    requires n <= |load| == NUM_BUCKETS && |perm| == NUM_BUCKETS && |hist| == LOAD_CLASSES
  {
    forall c: nat :: c < LOAD_CLASSES ==> PlacedClass(load, perm, hist, n, c)
  }

  ghost predicate PlacedClass(load: seq<int>, perm: seq<int>, hist: seq<int>, n: nat, c: nat)
    requires n <= |load| == NUM_BUCKETS && |perm| == NUM_BUCKETS && |hist| == LOAD_CLASSES && c < LOAD_CLASSES
  {
    var lo := ClassStart(load, c);
    && hist[c] == lo + |ClassList(load, n, c)| <= NUM_BUCKETS
    && perm[lo..hist[c]] == ClassList(load, n, c)
  }

  lemma PlaceOne(load: seq<int>, perm: seq<int>, hist: seq<int>, n: nat)
    requires n < |load| == NUM_BUCKETS && |perm| == NUM_BUCKETS && |hist| == LOAD_CLASSES
    requires (forall k :: 0 <= k < |load| ==> load[k] >= 0) && Placed(load, perm, hist, n)
    ensures var cls := LoadClass(load[n]);
      && 0 <= hist[cls] < NUM_BUCKETS
      && Placed(load, perm[hist[cls] := n], hist[cls := hist[cls] + 1], n + 1)
  {
    hide LoadClass, ByLoad, ClassStart;
    var cls := LoadClass(load[n]);
    assert PlacedClass(load, perm, hist, n, cls);
    ClassFits(load, n, cls);
    var perm', hist' := perm[hist[cls] := n], hist[cls := hist[cls] + 1];
    var m := n + 1;
    forall c: nat | c < LOAD_CLASSES ensures PlacedClass(load, perm', hist', m, c) {
      assert PlacedClass(load, perm, hist, n, c);
      var lo := ClassStart(load, c);
      if c == cls {
        assert perm'[lo..hist'[c]] == perm[lo..hist[c]] + [n];
      } else {
        if c < cls {
          ClassesApart(load, cls, c);
        } else {
          ClassesApart(load, c, cls);
          ClassListGrows(load, n, NUM_BUCKETS, c);
        }
        assert perm'[lo..hist'[c]] == perm[lo..hist[c]];
      }
    }
  }

  /** The class of bucket n still has room for it. */
  lemma ClassFits(load: seq<int>, n: nat, cls: nat)
    requires n < |load| == NUM_BUCKETS && cls < LOAD_CLASSES && cls == LoadClass(load[n])
    requires forall k :: 0 <= k < |load| ==> load[k] >= 0
    ensures ClassStart(load, cls) + |ClassList(load, n, cls)| < ClassStart(load, cls) + |ClassList(load, NUM_BUCKETS, cls)| <= NUM_BUCKETS
  {
    ClassListGrows(load, n + 1, NUM_BUCKETS, cls);
    ByLoadTotal(load);
    ByLoadGrows(load, 0, cls);
  }

  lemma {:induction false} PlacedPrefix(load: seq<int>, perm: seq<int>, hist: seq<int>, c: nat)
    requires |load| == NUM_BUCKETS && |perm| == NUM_BUCKETS && |hist| == LOAD_CLASSES && c <= LOAD_CLASSES
    requires Placed(load, perm, hist, NUM_BUCKETS)
    ensures ByLoad(load, c) <= perm
    decreases LOAD_CLASSES - c
  {
    if c < LOAD_CLASSES {
      PlacedPrefix(load, perm, hist, c + 1);
      assert PlacedClass(load, perm, hist, NUM_BUCKETS, c);
    }
  }

  /** Counting sort of the buckets into load classes. */
  method LoadOrder(load: seq<int>) returns (perm: array<int>)
    requires |load| == NUM_BUCKETS && forall k :: 0 <= k < |load| ==> load[k] >= 0
    ensures fresh(perm) && perm[..] == ByLoad(load, 0)
  {
    hide ByLoad, LoadClass, ClassStart, PlacedClass, Placed;
    var hist := ClassPositions(load);
    perm := new int[NUM_BUCKETS];
    NothingPlaced(load, perm[..], hist[..]);
    for k := 0 to NUM_BUCKETS
      invariant Placed(load, perm[..], hist[..], k)
    {
      PlaceOne(load, perm[..], hist[..], k);
      var cls := LoadClass(load[k]);
      ClassInRange(load[k]);
      ghost var perm0, hist0 := perm[..], hist[..];
      perm[hist[cls]] := k;
      hist[cls] := hist[cls] + 1;
      assert perm[..] == perm0[hist0[cls] := k] && hist[..] == hist0[cls := hist0[cls] + 1];
    }
    PlacedPrefix(load, perm[..], hist[..], 0);
    ByLoadTotal(load);
  }

  lemma ClassInRange(load: int)
    requires load >= 0
    ensures 0 <= LoadClass(load) < LOAD_CLASSES
  {
  }

  lemma NothingPlaced(load: seq<int>, perm: seq<int>, hist: seq<int>)
    requires |load| == NUM_BUCKETS && |perm| == NUM_BUCKETS && |hist| == LOAD_CLASSES
    requires forall k :: 0 <= k < |load| ==> load[k] >= 0
    requires forall c: nat :: c < LOAD_CLASSES ==> hist[c] == ClassStart(load, c)
    ensures Placed(load, perm, hist, 0)
  {
    hide ByLoad, LoadClass;
    ByLoadTotal(load);
    forall c: nat | c < LOAD_CLASSES ensures PlacedClass(load, perm, hist, 0, c) {
      ByLoadGrows(load, 0, c + 1);
    }
  }

  // ------------------------------------------------------------ what the ordering is

  lemma {:induction false} ClassListMembers(load: seq<int>, n: nat, c: int, k: int)
    requires n <= |load|
    ensures multiset(ClassList(load, n, c))[k] == if 0 <= k < n && LoadClass(load[k]) == c then 1 else 0
  {
    hide LoadClass, ClassList;
    if n > 0 {
      ClassListMembers(load, n - 1, c, k);
      ClassListUnfold(load, n, c);
    } else {
      ClassListEmpty(load, c);
    }
  }

  lemma ClassListEmpty(load: seq<int>, c: int)
    ensures ClassList(load, 0, c) == []
  {
  }

  lemma ClassListUnfold(load: seq<int>, n: nat, c: int)
    requires 0 < n <= |load|
    ensures var tail: seq<int> := if LoadClass(load[n - 1]) == c then [n - 1] else [];
      multiset(ClassList(load, n, c)) == multiset(ClassList(load, n - 1, c)) + multiset(tail)
  {
    hide LoadClass;
    var tail: seq<int> := if LoadClass(load[n - 1]) == c then [n - 1] else [];
    assert ClassList(load, n, c) == ClassList(load, n - 1, c) + tail;
  }

  lemma ByLoadUnfold(load: seq<int>, c: nat)
    requires c <= LOAD_CLASSES
    ensures c == LOAD_CLASSES ==> ByLoad(load, c) == []
    ensures c < LOAD_CLASSES ==> ByLoad(load, c) == ByLoad(load, c + 1) + ClassList(load, |load|, c)
    ensures c < LOAD_CLASSES ==>
      multiset(ByLoad(load, c)) == multiset(ByLoad(load, c + 1)) + multiset(ClassList(load, |load|, c))
  {
  }

  lemma {:induction false} ByLoadMembers(load: seq<int>, c: nat, k: int)
    requires c <= LOAD_CLASSES && forall q :: 0 <= q < |load| ==> load[q] >= 0
    ensures multiset(ByLoad(load, c))[k] == if 0 <= k < |load| && LoadClass(load[k]) >= c then 1 else 0
    decreases LOAD_CLASSES - c
  {
    hide LoadClass, ClassList, ByLoad;
    if c == LOAD_CLASSES {
      ByLoadUnfold(load, c);
      if 0 <= k < |load| {
        ClassInRange(load[k]);
      }
    } else {
      ByLoadMembers(load, c + 1, k);
      ClassListMembers(load, |load|, c, k);
      ByLoadUnfold(load, c);
    }
  }

  /** No bucket comes after a lighter one, except that 63 items or more all weigh the same. */
  ghost predicate HeaviestFirst(load: seq<int>, perm: seq<int>) {
    && (forall i :: 0 <= i < |perm| ==> 0 <= perm[i] < |load|)
    && forall i, j :: 0 <= i < j < |perm| ==> load[perm[i]] >= load[perm[j]] || load[perm[i]] >= 63
  }

  ghost predicate ClassesDescend(load: seq<int>, perm: seq<int>) {
    && (forall i :: 0 <= i < |perm| ==> 0 <= perm[i] < |load|)
    && forall i, j :: 0 <= i < j < |perm| ==> LoadClass(load[perm[i]]) >= LoadClass(load[perm[j]])
  }

  lemma DescendingIsHeaviest(load: seq<int>, perm: seq<int>)
    requires ClassesDescend(load, perm)
    ensures HeaviestFirst(load, perm)
  {
    forall i, j | 0 <= i < j < |perm| ensures load[perm[i]] >= load[perm[j]] || load[perm[i]] >= 63 {
      assert LoadClass(load[perm[i]]) >= LoadClass(load[perm[j]]);
    }
  }

  ghost predicate ClassAtLeast(load: seq<int>, s: seq<int>, c: int) {
    forall i :: 0 <= i < |s| ==> 0 <= s[i] < |load| && LoadClass(load[s[i]]) >= c
  }

  lemma HeaviestAppend(load: seq<int>, s: seq<int>, t: seq<int>, c: int)
    requires ClassesDescend(load, s) && ClassAtLeast(load, s, c)
    requires forall i :: 0 <= i < |t| ==> 0 <= t[i] < |load| && LoadClass(load[t[i]]) == c
    ensures ClassesDescend(load, s + t) && ClassAtLeast(load, s + t, c)
  {
    hide LoadClass;
  }

  lemma ClassListClass(load: seq<int>, c: int)
    ensures forall i :: 0 <= i < |ClassList(load, |load|, c)| ==>
      var k := ClassList(load, |load|, c)[i]; 0 <= k < |load| && LoadClass(load[k]) == c
  {
    hide LoadClass, ClassList;
    var s := ClassList(load, |load|, c);
    forall i | 0 <= i < |s| ensures 0 <= s[i] < |load| && LoadClass(load[s[i]]) == c {
      ClassListMembers(load, |load|, c, s[i]);
      assert s[i] in multiset(s);
    }
  }

  lemma {:induction false} ByLoadDescends(load: seq<int>, c: nat)
    requires c <= LOAD_CLASSES
    ensures ClassesDescend(load, ByLoad(load, c)) && ClassAtLeast(load, ByLoad(load, c), c)
    decreases LOAD_CLASSES - c
  {
    if c < LOAD_CLASSES {
      hide LoadClass, ClassList, ByLoad;
      ByLoadDescends(load, c + 1);
      ClassListClass(load, c);
      ByLoadUnfold(load, c);
      HeaviestAppend(load, ByLoad(load, c + 1), ClassList(load, |load|, c), c);
    }
  }

  /** The ordering lists every bucket exactly once, in non-increasing load clamped at the last class. */
  lemma LoadOrderMeaning(load: seq<int>)
    requires forall q :: 0 <= q < |load| ==> load[q] >= 0
    ensures HeaviestFirst(load, ByLoad(load, 0)) && |ByLoad(load, 0)| == |load|
    ensures forall k :: 0 <= k < |load| ==> multiset(ByLoad(load, 0))[k] == 1
  {
    hide ByLoad, LoadClass, HeaviestFirst, ClassesDescend, ClassAtLeast;
    ByLoadDescends(load, 0);
    DescendingIsHeaviest(load, ByLoad(load, 0));
    ByLoadTotal(load);
    forall k | 0 <= k < |load| ensures multiset(ByLoad(load, 0))[k] == 1 {
      ByLoadMembers(load, 0, k);
    }
  }

  /** The ordering of 128 buckets, read as a table from lanes to buckets, reaches every bucket. */
  lemma OrderIsOnto(load: seq<int>)
    requires Counts(load)
    ensures Onto(ByLoad(load, 0))
  {
    hide ByLoad;
    assert |load| == NUM_BUCKETS && forall q :: 0 <= q < |load| ==> load[q] >= 0;
    LoadOrderMeaning(load);
    OntoFromCounts(load, ByLoad(load, 0));
  }

  ghost predicate Onto(perm: seq<int>) {
    && |perm| == NUM_BUCKETS && (forall t :: 0 <= t < NUM_BUCKETS ==> 0 <= perm[t] < NUM_BUCKETS)
    && forall k :: 0 <= k < NUM_BUCKETS ==> k in perm
  }

  lemma OntoFromCounts(load: seq<int>, perm: seq<int>)
    requires |load| == NUM_BUCKETS == |perm| && HeaviestFirst(load, perm)
    requires forall k :: 0 <= k < NUM_BUCKETS ==> multiset(perm)[k] == 1
    ensures Onto(perm)
  {
    hide LoadClass;
    forall k | 0 <= k < NUM_BUCKETS ensures k in perm {
      CountedOnce(perm, k);
    }
  }

  lemma CountedOnce(s: seq<int>, k: int)
    ensures multiset(s)[k] == 1 ==> k in s
  {
  }

  // ------------------------------------------------------------ scatter

  ghost function Sizes(sc: seq<seq<int>>): (c: seq<int>)
    requires Scalars(sc)
    ensures Counts(c) && forall k: nat :: k < NUM_BUCKETS ==> c[k] == |BucketCodes(sc, k)|
  {
    seq(NUM_BUCKETS, k requires 0 <= k => |BucketCodes(sc, k)|)
  }

  /** Bucket boundaries fitted to the digits. */
  ghost predicate Fitted(sc: seq<seq<int>>, start: seq<int>)
    requires Scalars(sc)
  {
    && |start| == NUM_BUCKETS + 1
    && forall k: nat :: k <= NUM_BUCKETS ==> start[k] == Prefix(Sizes(sc), k)
  }

  lemma SectionBounds(sc: seq<seq<int>>, start: seq<int>, j: nat, k: nat)
    requires Scalars(sc) && Fitted(sc, start) && j < k <= NUM_BUCKETS
    ensures 0 <= start[j] && start[j] + |BucketCodes(sc, j)| == start[j + 1] <= start[k]
  {
    PrefixMono(Sizes(sc), 0, j);
    PrefixMono(Sizes(sc), j + 1, k);
  }

  /** Bucket k so far: filled from its boundary to its cursor with exactly the digits handled. */
  ghost predicate Filled(sc: seq<seq<int>>, next: seq<nat>, items: seq<int>, cursor: seq<int>, start: seq<int>, k: nat)
    requires Scalars(sc) && Progress(next) && |cursor| == NUM_BUCKETS && |start| == NUM_BUCKETS + 1 && k < NUM_BUCKETS
  {
    && 0 <= start[k] <= cursor[k] <= start[k + 1] <= |items|
    && cursor[k] == start[k] + |Codes(sc, next, TERMS, k)|
    && multiset(items[start[k]..cursor[k]]) == multiset(Codes(sc, next, TERMS, k))
  }

  ghost predicate Scattered(sc: seq<seq<int>>, next: seq<nat>, items: seq<int>, cursor: seq<int>, start: seq<int>)
    requires Scalars(sc) && Progress(next)
  {
    && |cursor| == NUM_BUCKETS && Fitted(sc, start)
    && forall k: nat :: k < NUM_BUCKETS ==> Filled(sc, next, items, cursor, start, k)
  }

  /** The slot an atomic increment hands out lies in the digit's own section and is still free. */
  lemma SlotFree(sc: seq<seq<int>>, next: seq<nat>, t: nat, items: seq<int>, cursor: seq<int>, start: seq<int>)
    requires Scalars(sc) && Progress(next) && Scattered(sc, next, items, cursor, start)
    requires t < TERMS && next[t] < NUM_DIGITS && DigitAt(sc[t], next[t]) != 0
    ensures var k := Magnitude(DigitAt(sc[t], next[t])) - 1;
      0 <= k < NUM_BUCKETS && start[k] <= cursor[k] < start[k + 1] <= |items|
  {
    hide DigitAt, Codes;
    DigitRange(sc[t], next[t]);
    var k := Magnitude(DigitAt(sc[t], next[t])) - 1;
    assert Filled(sc, next, items, cursor, start, k);
    CountStep(sc, next, t, k);
    CodesGrow(sc, next[t := next[t] + 1], TERMS, k);
    SectionBounds(sc, start, k, k + 1);
  }

  lemma ScatterStep(sc: seq<seq<int>>, next: seq<nat>, t: nat, items: seq<int>, cursor: seq<int>, start: seq<int>)
    requires Scalars(sc) && Progress(next) && Scattered(sc, next, items, cursor, start)
    requires t < TERMS && next[t] < NUM_DIGITS && DigitAt(sc[t], next[t]) != 0
    ensures Progress(next[t := next[t] + 1])
    ensures var v := DigitAt(sc[t], next[t]); var k := Magnitude(v) - 1;
      && 0 <= k < NUM_BUCKETS && 0 <= cursor[k] < |items|
      && Scattered(sc, next[t := next[t] + 1], items[cursor[k] := Pack(t, next[t], v)], cursor[k := cursor[k] + 1], start)
  {
    hide DigitAt, Codes, Pack;
    SlotFree(sc, next, t, items, cursor, start);
    var v, next' := DigitAt(sc[t], next[t]), next[t := next[t] + 1];
    var k := Magnitude(v) - 1;
    SectionBounds(sc, start, k, k + 1);
    var code := Pack(t, next[t], v) as int;
    var items', cursor' := items[cursor[k] := code], cursor[k := cursor[k] + 1];
    forall q: nat | q < NUM_BUCKETS ensures Filled(sc, next', items', cursor', start, q) {
      FilledStep(sc, next, t, items, cursor, start, k, code, q);
    }
  }

  lemma FilledStep(sc: seq<seq<int>>, next: seq<nat>, t: nat, items: seq<int>, cursor: seq<int>, start: seq<int>,
                   k: nat, code: int, q: nat)
    requires Scalars(sc) && Progress(next) && Scattered(sc, next, items, cursor, start) && q < NUM_BUCKETS
    requires |start| == NUM_BUCKETS + 1 && t < TERMS && next[t] < NUM_DIGITS && k < NUM_BUCKETS
    requires Magnitude(DigitAt(sc[t], next[t])) == k + 1
    requires code == Pack(t, next[t], DigitAt(sc[t], next[t])) && start[k] <= cursor[k] < start[k + 1] <= |items|
    requires 0 <= start[k]
    ensures Progress(next[t := next[t] + 1])
    ensures Filled(sc, next[t := next[t] + 1], items[cursor[k] := code], cursor[k := cursor[k] + 1], start, q)
  {
    hide DigitAt, Codes, Pack, Magnitude, Fitted, Scattered, Filled;
    FilledAt(sc, next, items, cursor, start, q);
    FilledBounds(sc, next, items, cursor, start, q);
    CodesStep(sc, next, t, TERMS, q);
    CountStep(sc, next, t, q);
    if q == k {
      FilledOwn(sc, next, next[t := next[t] + 1], items, cursor, start, k, code);
    } else {
      if q < k {
        SectionBounds(sc, start, q, k);
      } else {
        SectionBounds(sc, start, k, q);
      }
      FilledOther(sc, next, next[t := next[t] + 1], items, cursor, start, k, code, q);
    }
  }

  /** The bucket that takes the digit grows by it. */
  lemma FilledOwn(sc: seq<seq<int>>, next: seq<nat>, next': seq<nat>, items: seq<int>, cursor: seq<int>,
                  start: seq<int>, k: nat, code: int)
    requires Scalars(sc) && Progress(next) && Progress(next') && |cursor| == NUM_BUCKETS && k < NUM_BUCKETS
    requires |start| == NUM_BUCKETS + 1 && Filled(sc, next, items, cursor, start, k)
    requires cursor[k] < start[k + 1] && |Codes(sc, next', TERMS, k)| == |Codes(sc, next, TERMS, k)| + 1
    requires multiset(Codes(sc, next', TERMS, k)) == multiset(Codes(sc, next, TERMS, k)) + multiset{code}
    ensures 0 <= cursor[k] < |items|
    ensures Filled(sc, next', items[cursor[k] := code], cursor[k := cursor[k] + 1], start, k)
  {
    hide Codes;
    SectionGrows(items, start[k], cursor[k], code);
  }

  /** Every other bucket stays as it is. */
  lemma FilledOther(sc: seq<seq<int>>, next: seq<nat>, next': seq<nat>, items: seq<int>, cursor: seq<int>,
                    start: seq<int>, k: nat, code: int, q: nat)
    requires Scalars(sc) && Progress(next) && Progress(next') && |cursor| == NUM_BUCKETS && k < NUM_BUCKETS
    requires |start| == NUM_BUCKETS + 1 && q < NUM_BUCKETS && q != k && Filled(sc, next, items, cursor, start, q)
    requires 0 <= cursor[k] < |items| && !(start[q] <= cursor[k] < cursor[q])
    requires |Codes(sc, next', TERMS, q)| == |Codes(sc, next, TERMS, q)|
    requires multiset(Codes(sc, next', TERMS, q)) == multiset(Codes(sc, next, TERMS, q))
    ensures Filled(sc, next', items[cursor[k] := code], cursor[k := cursor[k] + 1], start, q)
  {
    hide Codes;
    OtherSection(items, cursor[k], code, start[q], cursor[q]);
  }

  lemma FilledAt(sc: seq<seq<int>>, next: seq<nat>, items: seq<int>, cursor: seq<int>, start: seq<int>, q: nat)
    requires Scalars(sc) && Progress(next) && Scattered(sc, next, items, cursor, start) && q < NUM_BUCKETS
    ensures |cursor| == NUM_BUCKETS && Fitted(sc, start) && Filled(sc, next, items, cursor, start, q)
  {
    hide Filled, Fitted;
  }

  lemma SectionGrows(items: seq<int>, lo: int, slot: int, x: int)
    requires 0 <= lo <= slot < |items|
    ensures multiset(items[slot := x][lo..slot + 1]) == multiset(items[lo..slot]) + multiset{x}
  {
    assert items[slot := x][lo..slot + 1] == items[lo..slot] + [x];
  }

  lemma OtherSection(items: seq<int>, slot: int, x: int, lo: int, hi: int)
    requires 0 <= slot < |items| && 0 <= lo <= hi <= |items| && !(lo <= slot < hi)
    ensures items[slot := x][lo..hi] == items[lo..hi]
  {
  }

  /** A zero digit goes nowhere. */
  lemma ZeroStep(sc: seq<seq<int>>, next: seq<nat>, t: nat, items: seq<int>, cursor: seq<int>, start: seq<int>)
    requires Scalars(sc) && Progress(next) && Scattered(sc, next, items, cursor, start)
    requires t < TERMS && next[t] < NUM_DIGITS && DigitAt(sc[t], next[t]) == 0
    ensures Progress(next[t := next[t] + 1]) && Scattered(sc, next[t := next[t] + 1], items, cursor, start)
  {
    hide DigitAt, Codes;
    var next' := next[t := next[t] + 1];
    forall q: nat | q < NUM_BUCKETS ensures Filled(sc, next', items, cursor, start, q) {
      assert Filled(sc, next, items, cursor, start, q);
      CodesStep(sc, next, t, TERMS, q);
      CountStep(sc, next, t, q);
    }
  }

  ghost function Tail(items: seq<int>, start: seq<int>): seq<int> {
    if |start| == NUM_BUCKETS + 1 && 0 <= start[NUM_BUCKETS] <= |items| then items[start[NUM_BUCKETS]..] else []
  }

  // ------------------------------------------------------------ slots handed out and stores still to come

  /** What a thread holds between its atomic increment and its store. */
  datatype Pending = Idle | Held(bucket: nat, slot: int, code: int)

  /** image is what the items will be once every held store has been made, in whatever order. */
  ghost predicate Shadows(image: seq<int>, items: seq<int>, held: seq<Pending>) {
    && |image| == |items| && |held| == TERMS
    && (forall t :: 0 <= t < TERMS && held[t].Held? ==>
          0 <= held[t].slot < |image| && image[held[t].slot] == held[t].code)
    && forall q :: 0 <= q < |image| && image[q] != items[q] ==>
         exists t :: 0 <= t < TERMS && held[t].Held? && held[t].slot == q
  }

  /** Held slots lie below their bucket's cursor: they have been handed out. */
  ghost predicate HandedOut(held: seq<Pending>, cursor: seq<int>, start: seq<int>) {
    |cursor| == NUM_BUCKETS && |start| == NUM_BUCKETS + 1 &&
    forall t :: 0 <= t < |held| && held[t].Held? ==>
      held[t].bucket < NUM_BUCKETS && start[held[t].bucket] <= held[t].slot < cursor[held[t].bucket]
  }

  /** The slot an increment returns is held by no other thread. */
  lemma SlotUnheld(sc: seq<seq<int>>, held: seq<Pending>, cursor: seq<int>, start: seq<int>, image: seq<int>,
                   next: seq<nat>, k: nat, t: nat)
    requires Scalars(sc) && Progress(next) && Scattered(sc, next, image, cursor, start)
    requires HandedOut(held, cursor, start)
    requires k < NUM_BUCKETS && start[k] <= cursor[k] < start[k + 1] && t < |held| && held[t].Held?
    ensures held[t].slot != cursor[k]
  {
    hide Codes, Filled, Fitted;
    var j := held[t].bucket;
    FilledAt(sc, next, image, cursor, start, j);
    FilledBounds(sc, next, image, cursor, start, j);
    if j < k {
      SectionBounds(sc, start, j, k);
    } else if k < j {
      SectionBounds(sc, start, k, j);
    }
  }

  lemma FilledBounds(sc: seq<seq<int>>, next: seq<nat>, items: seq<int>, cursor: seq<int>, start: seq<int>, k: nat)
    requires Scalars(sc) && Progress(next) && |cursor| == NUM_BUCKETS && |start| == NUM_BUCKETS + 1 && k < NUM_BUCKETS
    requires Filled(sc, next, items, cursor, start, k)
    ensures 0 <= start[k] <= cursor[k] <= start[k + 1] <= |items|
  {
    hide Codes;
  }

  lemma HeldTaken(image: seq<int>, items: seq<int>, held: seq<Pending>, cursor: seq<int>, start: seq<int>, t: nat,
                  k: nat, code: int)
    requires Shadows(image, items, held) && HandedOut(held, cursor, start) && t < TERMS && held[t].Idle?
    requires k < NUM_BUCKETS && start[k] <= cursor[k] && 0 <= cursor[k] < |image|
    requires forall q: nat :: q < TERMS && held[q].Held? ==> held[q].slot != cursor[k]
    ensures Shadows(image[cursor[k] := code], items, held[t := Held(k, cursor[k], code)])
    ensures HandedOut(held[t := Held(k, cursor[k], code)], cursor[k := cursor[k] + 1], start)
  {
    var held' := held[t := Held(k, cursor[k], code)];
    var image' := image[cursor[k] := code];
    forall q | 0 <= q < |image| && image'[q] != items[q]
      ensures exists u :: 0 <= u < TERMS && held'[u].Held? && held'[u].slot == q
    {
      if q == cursor[k] {
        assert held'[t].slot == q;
      } else {
        var u :| 0 <= u < TERMS && held[u].Held? && held[u].slot == q;
        assert held'[u] == held[u];
      }
    }
  }

  lemma HeldStored(image: seq<int>, items: seq<int>, held: seq<Pending>, t: nat)
    requires Shadows(image, items, held) && t < TERMS && held[t].Held?
    ensures 0 <= held[t].slot < |items| && Shadows(image, items[held[t].slot := held[t].code], held[t := Idle])
  {
    var items', held' := items[held[t].slot := held[t].code], held[t := Idle];
    forall q | 0 <= q < |image| && image[q] != items'[q]
      ensures exists u :: 0 <= u < TERMS && held'[u].Held? && held'[u].slot == q
    {
      var u :| 0 <= u < TERMS && held[u].Held? && held[u].slot == q;
      assert held'[u] == held[u];
    }
  }

  lemma NothingHeld(image: seq<int>, items: seq<int>, held: seq<Pending>)
    requires Shadows(image, items, held) && forall t :: 0 <= t < TERMS ==> held[t].Idle?
    ensures image == items
  {
  }

  /** The first half of a step: thread t's digit v takes the next slot of its bucket by an atomic increment; a zero
      digit takes none. */
  method TakeSlot(sc: seq<seq<int>>, start: seq<int>, cursor: array<int>, held: seq<Pending>, t: nat, dd: nat, v: int,
                  ghost next: seq<nat>, ghost image: seq<int>, ghost items: seq<int>)
    returns (held': seq<Pending>, ghost image': seq<int>)
    requires Scalars(sc) && Progress(next) && Scattered(sc, next, image, cursor[..], start)
    requires t < TERMS && dd == next[t] && dd < NUM_DIGITS && v == DigitAt(sc[t], dd)
    requires Shadows(image, items, held) && HandedOut(held, cursor[..], start) && held[t].Idle?
    modifies cursor
    ensures Progress(next[t := dd + 1]) && Scattered(sc, next[t := dd + 1], image', cursor[..], start)
    ensures Shadows(image', items, held') && HandedOut(held', cursor[..], start)
    ensures held' == held[t := held'[t]] && (v == 0 <==> held'[t].Idle?)
    ensures Tail(image', start) == Tail(image, start)
  {
    hide DigitAt, Pack, PackItem, Scattered, Progress, Shadows, HandedOut;
    ShadowSizes(image, items, held);
    ghost var cursor0 := cursor[..];
    if v == 0 {
      ZeroStep(sc, next, t, image, cursor0, start);
      held', image' := held, image;
    } else {
      ScatterStep(sc, next, t, image, cursor0, start);
      SlotBelowEnd(sc, next, t, image, cursor0, start);
      SlotFree(sc, next, t, image, cursor0, start);
      var k := Magnitude(v) - 1;
      forall q: nat | q < TERMS && held[q].Held? ensures held[q].slot != cursor0[k] {
        SlotUnheld(sc, held, cursor0, start, image, next, k, q);
      }
      var slot := cursor[k];
      cursor[k] := slot + 1;
      PackItemIs(t, dd, v);
      var code := PackItem(t, dd, if v < 0 then 1 else 0);
      HeldTaken(image, items, held, cursor0, start, t, k, code);
      held' := held[t := Held(k, slot, code)];
      image' := image[slot := code];
      assert cursor[..] == cursor0[k := slot + 1];
    }
  }

  lemma ShadowSizes(image: seq<int>, items: seq<int>, held: seq<Pending>)
    requires Shadows(image, items, held)
    ensures |image| == |items| && |held| == TERMS
  {
  }

  /** Threads and buffers between two steps of the scatter. */
  ghost predicate ScatterState(sc: seq<seq<int>>, next: seq<nat>, carry: seq<int>, active: set<nat>,
                               held: seq<Pending>, holding: set<nat>, image: seq<int>, items: seq<int>,
                               cursor: seq<int>, start: seq<int>)
    requires Scalars(sc)
  {
    && Progress(next) && Running(sc, next, carry, active) && Scattered(sc, next, image, cursor, start)
    && Shadows(image, items, held) && HandedOut(held, cursor, start)
    && forall t: nat :: t in holding <==> t < |held| && held[t].Held?
  }

  /** The first half of a step of a thread that holds nothing. */
  method IncrementStep(sc: seq<seq<int>>, start: seq<int>, cursor: array<int>, t: nat, next: seq<nat>, carry: seq<int>,
                       active: set<nat>, held: seq<Pending>, holding: set<nat>, ghost image: seq<int>,
                       ghost items: seq<int>)
    returns (next': seq<nat>, carry': seq<int>, active': set<nat>, held': seq<Pending>, holding': set<nat>,
             ghost image': seq<int>)
    requires Scalars(sc) && t in active && t !in holding
    requires ScatterState(sc, next, carry, active, held, holding, image, items, cursor[..], start)
    modifies cursor
    ensures ScatterState(sc, next', carry', active', held', holding', image', items, cursor[..], start)
    ensures 0 <= StepsLeft(next') < StepsLeft(next)
    ensures Tail(image', start) == Tail(image, start)
  {
    hide DigitAt, Digit, ByteAt, CarryIn, Left, Running, Scattered, Progress, Tail, Scalars, Shadows, HandedOut;
    ScalarCount(sc);
    ActiveThread(sc, next, carry, active, t);
    ShadowSizes(image, items, held);
    var v;
    v, next', carry', active' := NextDigit(sc, next, carry, active, t);
    held', image' := TakeSlot(sc, start, cursor, held, t, next[t], v, next, image, items);
    holding' := if v == 0 then holding else holding + {t};
  }

  lemma ScalarCount(sc: seq<seq<int>>)
    requires Scalars(sc)
    ensures |sc| == TERMS
  {
  }

  /** The second half: a thread stores the item it holds into the slot it was given. */
  method StoreStep(sc: seq<seq<int>>, start: seq<int>, items: array<int>, t: nat, held: seq<Pending>,
                   holding: set<nat>, ghost next: seq<nat>, ghost carry: seq<int>, ghost active: set<nat>,
                   ghost image: seq<int>, ghost cursor: seq<int>)
    returns (held': seq<Pending>, holding': set<nat>)
    requires Scalars(sc) && t in holding
    requires ScatterState(sc, next, carry, active, held, holding, image, items[..], cursor, start)
    modifies items
    ensures ScatterState(sc, next, carry, active, held', holding', image, items[..], cursor, start)
    ensures holding' == holding - {t}
  {
    hide Running, Scattered, Progress, Scalars, Shadows;
    ShadowSizes(image, items[..], held);
    HeldStored(image, items[..], held, t);
    ghost var was := items[..];
    items[held[t].slot] := held[t].code;
    assert items[..] == was[held[t].slot := held[t].code];
    held' := held[t := Idle];
    holding' := holding - {t};
  }

  /** The scatter: every thread recodes its scalar again, takes a slot for each digit by an atomic increment of its
      bucket's cursor and stores the digit there, all threads interleaved in any order. */
  method ScatterThreads(sc: seq<seq<int>>, start: seq<int>, cursor: array<int>, items: array<int>)
    requires Scalars(sc) && cursor != items && Scattered(sc, ZeroEach(), items[..], cursor[..], start)
    modifies cursor, items
    ensures Scattered(sc, Finished(), items[..], cursor[..], start)
    ensures Tail(items[..], start) == old(Tail(items[..], start))
  {
    hide *;
    var next: seq<nat> := ZeroEach();
    var carry: seq<int> := ZeroEach();
    var active: set<nat> := Invocations(TERMS);
    var held, holding: set<nat> := AllIdle(), {};
    ghost var image, tail := items[..], Tail(items[..], start);
    ScatterStarts(sc, next, carry, active, image, cursor[..], start);
    while active + holding != {}
      invariant ScatterState(sc, next, carry, active, held, holding, image, items[..], cursor[..], start)
      invariant Tail(image, start) == tail
      decreases StepsLeft(next), |holding|
    {
      SomeInvocation(active + holding);
      var t :| t in active + holding;
      if t in holding {
        held, holding := StoreStep(sc, start, items, t, held, holding, next, carry, active, image, cursor[..]);
      } else {
        next, carry, active, held, holding, image :=
          IncrementStep(sc, start, cursor, t, next, carry, active, held, holding, image, items[..]);
      }
    }
    AllStepsDone(sc, next, carry, held, image, items[..], cursor[..], start);
  }

  function AllIdle(): (held: seq<Pending>)
    ensures |held| == TERMS && forall t :: 0 <= t < TERMS ==> held[t].Idle?
  {
    seq(TERMS, _ => Idle)
  }

  lemma ScatterStarts(sc: seq<seq<int>>, next: seq<nat>, carry: seq<int>, active: set<nat>, items: seq<int>,
                      cursor: seq<int>, start: seq<int>)
    requires Scalars(sc) && next == ZeroEach() && carry == ZeroEach() && active == Invocations(TERMS)
    requires Scattered(sc, next, items, cursor, start)
    ensures ScatterState(sc, next, carry, active, AllIdle(), {}, items, items, cursor, start)
  {
    hide Running, Filled;
    StartRunning(sc, next, carry, active);
    ScatteredSizes(sc, next, items, cursor, start);
  }

  lemma ScatteredSizes(sc: seq<seq<int>>, next: seq<nat>, items: seq<int>, cursor: seq<int>, start: seq<int>)
    requires Scalars(sc) && Progress(next) && Scattered(sc, next, items, cursor, start)
    ensures |cursor| == NUM_BUCKETS && |start| == NUM_BUCKETS + 1
  {
    hide Filled;
  }

  lemma AllStepsDone(sc: seq<seq<int>>, next: seq<nat>, carry: seq<int>, held: seq<Pending>, image: seq<int>,
                     items: seq<int>, cursor: seq<int>, start: seq<int>)
    requires Scalars(sc) && ScatterState(sc, next, carry, {}, held, {}, image, items, cursor, start)
    ensures image == items && Scattered(sc, Finished(), items, cursor, start)
  {
    hide Scattered, Shadows, HandedOut, Running;
    AllFinished(sc, next, carry);
    ShadowSizes(image, items, held);
    forall t: nat | t < TERMS ensures held[t].Idle? {
      assert t !in {};
    }
    NothingHeld(image, items, held);
  }

  method Scatter(sc: seq<seq<int>>, start: seq<int>, cursor: array<int>, items: array<int>)
    requires Scalars(sc) && cursor != items && cursor.Length == NUM_BUCKETS && Fitted(sc, start)
    requires 0 <= start[NUM_BUCKETS] <= items.Length && forall k: nat :: k < NUM_BUCKETS ==> cursor[k] == start[k]
    modifies cursor, items
    ensures forall k: nat :: k < NUM_BUCKETS ==> BucketHolds(items[..], start, k, BucketCodes(sc, k))
    ensures items[start[NUM_BUCKETS]..] == old(items[start[NUM_BUCKETS]..])
  {
    NothingScattered(sc, ZeroEach(), items[..], cursor[..], start);
    TailIs(items[..], start);
    hide *;
    ScatterThreads(sc, start, cursor, items);
    AllScattered(sc, items[..], cursor[..], start);
    TailIs(items[..], start);
  }

  lemma TailIs(items: seq<int>, start: seq<int>)
    requires |start| == NUM_BUCKETS + 1 && 0 <= start[NUM_BUCKETS] <= |items|
    ensures Tail(items, start) == items[start[NUM_BUCKETS]..]
  {
  }

  /** Section k of the items is a rearrangement of the given codes. */
  ghost predicate BucketHolds(items: seq<int>, start: seq<int>, k: nat, codes: seq<int>) {
    && k + 1 < |start| && 0 <= start[k] <= start[k + 1] <= |items|
    && multiset(items[start[k]..start[k + 1]]) == multiset(codes)
  }

  lemma SlotBelowEnd(sc: seq<seq<int>>, next: seq<nat>, t: nat, items: seq<int>, cursor: seq<int>, start: seq<int>)
    requires Scalars(sc) && Progress(next) && Scattered(sc, next, items, cursor, start)
    requires t < TERMS && next[t] < NUM_DIGITS && DigitAt(sc[t], next[t]) != 0
    ensures var k := Magnitude(DigitAt(sc[t], next[t])) - 1;
      0 <= k < |cursor| && 0 <= cursor[k] < |items| && |start| == NUM_BUCKETS + 1 && cursor[k] < start[NUM_BUCKETS]
  {
    hide DigitAt, Codes, Filled;
    SlotFree(sc, next, t, items, cursor, start);
    var k := Magnitude(DigitAt(sc[t], next[t])) - 1;
    SectionBounds(sc, start, k, NUM_BUCKETS);
  }

  lemma NothingScattered(sc: seq<seq<int>>, next: seq<nat>, items: seq<int>, cursor: seq<int>, start: seq<int>)
    requires Scalars(sc) && next == ZeroEach() && |cursor| == NUM_BUCKETS && Fitted(sc, start)
    requires start[NUM_BUCKETS] <= |items| && forall k: nat :: k < NUM_BUCKETS ==> cursor[k] == start[k]
    ensures Progress(next) && Scattered(sc, next, items, cursor, start)
  {
    hide DigitAt;
    forall k: nat | k < NUM_BUCKETS ensures Filled(sc, next, items, cursor, start, k) {
      NothingDone(sc, next, TERMS, k);
      SectionBounds(sc, start, k, NUM_BUCKETS);
    }
  }

  lemma AllScattered(sc: seq<seq<int>>, items: seq<int>, cursor: seq<int>, start: seq<int>)
    requires Scalars(sc) && Scattered(sc, Finished(), items, cursor, start)
    ensures forall k: nat :: k < NUM_BUCKETS ==> BucketHolds(items, start, k, BucketCodes(sc, k))
  {
    hide DigitAt, Codes;
    forall k: nat | k < NUM_BUCKETS ensures BucketHolds(items, start, k, BucketCodes(sc, k)) {
      assert Filled(sc, Finished(), items, cursor, start, k);
      SectionBounds(sc, start, k, k + 1);
    }
  }

  // ------------------------------------------------------------ every nonzero digit once

  /** The packed code c names a digit of magnitude k + 1 of its thread, with that digit's sign. */
  ghost predicate Names(sc: seq<seq<int>>, k: nat, c: int)
    requires Scalars(sc)
  {
    0 <= c < 64 * TERMS && NamesDigit(sc[c / 64], c / 64, k, c)
  }

  ghost predicate NamesDigit(scalar: seq<int>, t: nat, k: nat, c: int)
    requires |scalar| == 8 && t < TERMS
  {
    var dd := c / 2 % 32;
    Magnitude(DigitAt(scalar, dd)) == k + 1 && c == Pack(t, dd, DigitAt(scalar, dd))
  }

  lemma AddedIsNamed(scalar: seq<int>, t: nat, n: nat, k: nat, c: int)
    requires |scalar| == 8 && n < NUM_DIGITS && t < TERMS
    ensures Added(scalar, t, n, k)[c] == if c / 2 % 32 == n && NamesDigit(scalar, t, k, c) then 1 else 0
  {
    hide DigitAt, Pack, Magnitude;
    PackDecodes(t, n, DigitAt(scalar, n));
  }

  lemma NoThreadCodes(scalar: seq<int>, t: nat, k: nat)
    requires |scalar| == 8 && t < TERMS
    ensures ThreadCodes(scalar, t, 0, k) == []
  {
  }

  lemma {:induction false} ThreadCodesMembers(scalar: seq<int>, t: nat, n: nat, k: nat, c: int)
    requires |scalar| == 8 && n <= NUM_DIGITS && t < TERMS
    ensures multiset(ThreadCodes(scalar, t, n, k))[c] == if c / 2 % 32 < n && NamesDigit(scalar, t, k, c) then 1 else 0
  {
    hide ThreadCodes, NamesDigit, Added;
    var dd := c / 2 % 32;
    if n == 0 {
      NoThreadCodes(scalar, t, k);
    } else {
      ThreadCodesMembers(scalar, t, n - 1, k, c);
      ThreadStep(scalar, t, n - 1, k);
      AddedIsNamed(scalar, t, n - 1, k, c);
    }
  }

  lemma NamedThread(sc: seq<seq<int>>, t: nat, k: nat, c: int)
    requires Scalars(sc) && t < TERMS
    ensures NamesDigit(sc[t], t, k, c) <==> c / 64 == t && Names(sc, k, c)
  {
    hide DigitAt, Magnitude;
    if NamesDigit(sc[t], t, k, c) {
      PackDecodes(t, c / 2 % 32, DigitAt(sc[t], c / 2 % 32));
    }
  }

  lemma NoCodes(sc: seq<seq<int>>, next: seq<nat>, k: nat)
    requires Scalars(sc) && Progress(next)
    ensures Codes(sc, next, 0, k) == []
  {
  }

  lemma {:induction false} CodesMembers(sc: seq<seq<int>>, m: nat, k: nat, c: int)
    requires Scalars(sc) && m <= TERMS
    ensures multiset(Codes(sc, Finished(), m, k))[c] == if c / 64 < m && Names(sc, k, c) then 1 else 0
  {
    hide ThreadCodes, Codes, NamesDigit, Names;
    if m == 0 {
      NoCodes(sc, Finished(), k);
      assert Names(sc, k, c) ==> c >= 0 by { NamesRange(sc, k, c); }
    } else {
      CodesMembers(sc, m - 1, k, c);
      CodesUnfold(sc, Finished(), m, k);
      ThreadCodesMembers(sc[m - 1], m - 1, NUM_DIGITS, k, c);
      NamedThread(sc, m - 1, k, c);
    }
  }

  lemma NamesRange(sc: seq<seq<int>>, k: nat, c: int)
    requires Scalars(sc)
    ensures Names(sc, k, c) ==> 0 <= c < 64 * TERMS
  {
  }

  /** Bucket k holds each digit of magnitude k + 1 exactly once, and nothing else. */
  lemma BucketExactly(sc: seq<seq<int>>, k: nat, c: int)
    requires Scalars(sc)
    ensures multiset(BucketCodes(sc, k))[c] == if Names(sc, k, c) then 1 else 0
  {
    CodesMembers(sc, TERMS, k, c);
    NamesRange(sc, k, c);
  }

  // ------------------------------------------------------------ the items fit their buffer

  ghost function ThreadTotal(scalar: seq<int>, t: nat, n: nat, b: nat): int
    requires |scalar| == 8 && n <= NUM_DIGITS && t < TERMS
    decreases b
  {
    if b == 0 then 0 else ThreadTotal(scalar, t, n, b - 1) + |ThreadCodes(scalar, t, n, b - 1)|
  }

  lemma {:induction false} ThreadTotalStep(scalar: seq<int>, t: nat, n: nat, b: nat)
    requires |scalar| == 8 && n < NUM_DIGITS && t < TERMS
    ensures ThreadTotal(scalar, t, n + 1, b)
         == ThreadTotal(scalar, t, n, b) + if 1 <= Magnitude(DigitAt(scalar, n)) <= b then 1 else 0
    decreases b
  {
    hide DigitAt, Magnitude;
    if b > 0 {
      ThreadTotalStep(scalar, t, n, b - 1);
    }
  }

  lemma {:induction false} ThreadTotalBound(scalar: seq<int>, t: nat, n: nat, b: nat)
    requires |scalar| == 8 && n <= NUM_DIGITS && t < TERMS
    ensures ThreadTotal(scalar, t, n, b) <= n
    decreases n, b
  {
    hide ThreadCodes, DigitAt, Magnitude;
    if n > 0 {
      ThreadTotalBound(scalar, t, n - 1, b);
      ThreadTotalStep(scalar, t, n - 1, b);
    } else if b > 0 {
      ThreadTotalBound(scalar, t, n, b - 1);
      NoThreadCodes(scalar, t, b - 1);
    }
  }

  ghost function CodesTotal(sc: seq<seq<int>>, m: nat, b: nat): int
    requires Scalars(sc) && m <= TERMS
    decreases b
  {
    if b == 0 then 0 else CodesTotal(sc, m, b - 1) + |Codes(sc, Finished(), m, b - 1)|
  }

  lemma {:induction false} CodesTotalSplit(sc: seq<seq<int>>, m: nat, b: nat)
    requires Scalars(sc) && 0 < m <= TERMS
    ensures CodesTotal(sc, m, b) == CodesTotal(sc, m - 1, b) + ThreadTotal(sc[m - 1], m - 1, NUM_DIGITS, b)
    decreases b
  {
    if b > 0 {
      CodesTotalSplit(sc, m, b - 1);
    }
  }

  lemma {:induction false} CodesTotalBound(sc: seq<seq<int>>, m: nat, b: nat)
    requires Scalars(sc) && m <= TERMS
    ensures CodesTotal(sc, m, b) <= 32 * m
    decreases m, b
  {
    if m > 0 {
      CodesTotalBound(sc, m - 1, b);
      CodesTotalSplit(sc, m, b);
      ThreadTotalBound(sc[m - 1], m - 1, NUM_DIGITS, b);
    } else if b > 0 {
      CodesTotalBound(sc, m, b - 1);
    }
  }

  lemma {:induction false} TotalIsPrefix(sc: seq<seq<int>>, b: nat)
    requires Scalars(sc) && b <= NUM_BUCKETS
    ensures Prefix(Sizes(sc), b) == CodesTotal(sc, TERMS, b)
  {
    if b > 0 {
      TotalIsPrefix(sc, b - 1);
    }
  }

  /** The items of one output never exceed its 2048 slots. */
  lemma ItemsFit(sc: seq<seq<int>>)
    requires Scalars(sc)
    ensures 0 <= Prefix(Sizes(sc), NUM_BUCKETS) <= ITEMS
  {
    TotalIsPrefix(sc, NUM_BUCKETS);
    CodesTotalBound(sc, TERMS, NUM_BUCKETS);
    PrefixMono(Sizes(sc), 0, NUM_BUCKETS);
  }

  // ------------------------------------------------------------ the whole pass

  /** What the curve pass relies on. */
  ghost predicate Sorted(sc: seq<seq<int>>, items: seq<int>, start: seq<int>, perm: seq<int>)
    requires Scalars(sc)
  {
    && Fitted(sc, start) && |items| == ITEMS
    && (forall k: nat :: k < NUM_BUCKETS ==> BucketHolds(items, start, k, BucketCodes(sc, k)))
    && perm == ByLoad(Sizes(sc), 0)
  }

  /** One output: whatever the interleaving, the same boundaries, the same load order, and each
      section a rearrangement of the same digits. Slots past the last boundary keep what they held. */
  method SortOutput(sc: seq<seq<int>>, items: array<int>) returns (start: seq<int>, perm: seq<int>)
    requires Scalars(sc) && items.Length == ITEMS
    modifies items
    ensures Sorted(sc, items[..], start, perm)
    ensures 0 <= start[NUM_BUCKETS] <= ITEMS && items[start[NUM_BUCKETS]..] == old(items[start[NUM_BUCKETS]..])
  {
    hide Codes, ByLoad, DigitAt, Finished, Prefix;
    ItemsFit(sc);
    var count := Histogram(sc);
    CountedAreSizes(sc, count[..]);
    var bounds := Boundaries(count);
    start := bounds[..];
    LoadsAreSizes(sc, start);
    var load := seq(NUM_BUCKETS, k requires 0 <= k < NUM_BUCKETS && k + 1 < |start| => start[k + 1] - start[k]);
    assert load == Sizes(sc);
    var order := LoadOrder(load);
    perm := order[..];
    Scatter(sc, start, count, items);
  }

  lemma CountedAreSizes(sc: seq<seq<int>>, count: seq<int>)
    requires Scalars(sc) && Counted(sc, Finished(), count)
    ensures count == Sizes(sc)
  {
    forall k: nat | k < NUM_BUCKETS ensures count[k] == Sizes(sc)[k] {
    }
  }

  lemma LoadsAreSizes(sc: seq<seq<int>>, start: seq<int>)
    requires Scalars(sc) && |start| == NUM_BUCKETS + 1
    requires forall k: nat :: k <= NUM_BUCKETS ==> start[k] == Prefix(Sizes(sc), k)
    ensures forall k: nat :: k < NUM_BUCKETS ==> start[k + 1] - start[k] == Sizes(sc)[k]
  {
  }
}
