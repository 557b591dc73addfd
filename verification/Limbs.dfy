/** Multi-word arithmetic on little-endian 32-bit limbs: carry and borrow chains, Montgomery
    multiplication, canonical form, and inversion by square-and-multiply. Generic in the limb
    count and the modulus, so it covers both fields. */
module Limbs {
  import opened Modular
  import opened Field

  const WORD: int := 0x1_0000_0000
  const DWORD: int := 0x1_0000_0000_0000_0000

  ghost predicate Words(s: seq<int>, n: nat) {
    |s| == n && forall i :: 0 <= i < n ==> 0 <= s[i] < WORD
  }

  /** The number spelled by the limbs. */
  function Val(s: seq<int>): int {
    if s == [] then 0 else Val(s[..|s| - 1]) + s[|s| - 1] * Pow(WORD, |s| - 1)
  }

  lemma ValSnoc(s: seq<int>, j: nat)
    requires j < |s|
    ensures Val(s[..j + 1]) == Val(s[..j]) + s[j] * Pow(WORD, j)
  {
    assert s[..j + 1][..j] == s[..j];
  }

  lemma ValPush(s: seq<int>, x: int)
    ensures Val(s + [x]) == Val(s) + x * Pow(WORD, |s|)
  {
    assert (s + [x])[..|s|] == s;
  }

  lemma EmptyVal(s: seq<int>)
    requires s == []
    ensures Val(s) == 0
  {
  }

  lemma WordPower(j: nat)
    ensures Pow(WORD, j + 1) == WORD * Pow(WORD, j) && Pow(WORD, j) > 0
  {
    PowPositive(WORD, j);
  }

  lemma {:induction false} ValBound(s: seq<int>, n: nat)
    requires Words(s, n)
    ensures 0 <= Val(s) < Pow(WORD, n)
    decreases n
  {
    if n > 0 {
      ValBound(s[..n - 1], n - 1);
      WordPower(n - 1);
      MulMono(0, s[n - 1], Pow(WORD, n - 1));
      MulMono(s[n - 1], WORD - 1, Pow(WORD, n - 1));
      MulDistrib(WORD, 1, Pow(WORD, n - 1));
    }
  }

  lemma {:induction false} ValCons(s: seq<int>)
    requires |s| > 0
    ensures Val(s) == s[0] + WORD * Val(s[1..])
    decreases |s|
  {
    var n := |s|;
    if n == 1 {
      assert s[..0] == [] && s[1..] == [];
      assert Pow(WORD, 0) == 1;
    } else {
      ValCons(s[..n - 1]);
      assert s[..n - 1][1..] == s[1..][..n - 2];
      WordPower(n - 2);
      MulLeftSwap(s[n - 1], WORD, Pow(WORD, n - 2));
      MulDistrib(Val(s[1..][..n - 2]), s[n - 1] * Pow(WORD, n - 2), WORD);
    }
  }

  /** Equal numbers have equal limbs. */
  lemma {:induction false} ValInjective(a: seq<int>, b: seq<int>, n: nat)
    requires Words(a, n) && Words(b, n) && Val(a) == Val(b)
    ensures a == b
  {
    if n > 0 {
      ValCons(a);
      ValCons(b);
      hide Val;
      DivModUnique(Val(a), WORD, Val(a[1..]), a[0]);
      DivModUnique(Val(b), WORD, Val(b[1..]), b[0]);
      ValInjective(a[1..], b[1..], n - 1);
      assert a == [a[0]] + a[1..] && b == [b[0]] + b[1..];
    }
  }

  /** A word is its four bytes. */
  lemma WordBytes(w: int)
    requires 0 <= w < WORD
    ensures w == w % 0x100 + 0x100 * (w / 0x100 % 0x100) + 0x1_0000 * (w / 0x1_0000 % 0x100)
                 + 0x100_0000 * (w / 0x100_0000 % 0x100)
  {
    var q1 := w / 0x100;
    var q2 := q1 / 0x100;
    var q3 := q2 / 0x100;
    DivModUnique(w, 0x1_0000, q2, q1 % 256 * 256 + w % 256);
    DivModUnique(w, 0x100_0000, q3, q2 % 256 * 0x1_0000 + q1 % 256 * 256 + w % 256);
    DivModUnique(q3, 256, 0, q3);
  }

  /** 4n bytes make n words. */
  lemma {:induction false} BytesPerWord(n: nat)
    ensures Pow(256, 4 * n) == Pow(WORD, n)
  {
    PowPow(256, 4, n);
    assert Pow(256, 2) == 256 * 256;
    PowAdd(256, 2, 2);
  }

  // ------------------------------------------------------------ 64-bit accumulator steps

  /** s split into its low word and carry. */
  lemma SplitWord(s: int)
    requires 0 <= s
    ensures s == s % WORD + WORD * (s / WORD) && 0 <= s % WORD < WORD && 0 <= s / WORD
  {
  }

  /** The accumulator of the product rows. */
  function MulAdd(x: int, y: int, t: int, c: int): int {
    x * y + t + c
  }

  /** It never overflows 64 bits, and splits into a word and a carry word. */
  lemma MulAddFits(x: int, y: int, t: int, c: int)
    requires 0 <= x < WORD && 0 <= y < WORD && 0 <= t < WORD && 0 <= c < WORD
    ensures var s := MulAdd(x, y, t, c);
      0 <= s < DWORD && s == s % WORD + WORD * (s / WORD) && 0 <= s % WORD < WORD && 0 <= s / WORD < WORD
  {
    MulNonneg(x, y);
    MulMono(x, WORD - 1, y);
    MulMono(y, WORD - 1, WORD - 1);
  }

  /** A 64-bit difference of words, wrapped: low word and borrow bit. */
  function WrapSub(x: int, y: int, borrow: int): (r: (int, int)) {
    var e := x - y - borrow;
    var d := if e < 0 then e + DWORD else e;
    (d % WORD, d / WORD % 2)
  }

  lemma WrapSubMeaning(x: int, y: int, borrow: int)
    requires 0 <= x < WORD && 0 <= y < WORD && 0 <= borrow <= 1
    ensures var (t, b) := WrapSub(x, y, borrow);
      0 <= t < WORD && 0 <= b <= 1 && t - WORD * b == x - y - borrow
  {
    var e := x - y - borrow;
    if e < 0 {
      var d := e + DWORD;
      assert DWORD == WORD * WORD;
      DivModUnique(d, WORD, WORD - 1, e + WORD);
    } else {
      DivModUnique(e, WORD, 0, e);
    }
  }

  // ------------------------------------------------------------ carry and borrow chains

  /** One step of a chain: the partial values stay equal when a word and its carry are split off. */
  lemma ChainStep(lhs: int, rhs: int, word: int, carryOut: int, added: int, carryIn: int, w: int)
    requires lhs + carryIn * w == rhs && added + carryIn == word + WORD * carryOut
    ensures lhs + word * w + carryOut * (WORD * w) == rhs + added * w
  {
    MulDistrib(added, carryIn, w);
    MulDistrib(word, WORD * carryOut, w);
    MulAssoc(WORD, carryOut, w);
    MulLeftSwap(carryOut, WORD, w);
  }

  /** t := a + b, word by word. */
  method AddChain(a: seq<int>, b: seq<int>, n: nat) returns (t: array<int>, carry: int)
    requires Words(a, n) && Words(b, n)
    ensures fresh(t) && Words(t[..], n) && 0 <= carry <= 1
    ensures Val(t[..]) + carry * Pow(WORD, n) == Val(a) + Val(b)
  {
    hide Pow, Val;
    t := new int[n];
    carry := 0;
    EmptyVal(t[..0]);
    EmptyVal(a[..0]);
    EmptyVal(b[..0]);
    for i := 0 to n
      invariant 0 <= carry <= 1
      invariant Words(t[..i], i)
      invariant Val(t[..i]) + carry * Pow(WORD, i) == Val(a[..i]) + Val(b[..i])
    {
      var s := a[i] + b[i] + carry;
      SplitWord(s);
      ghost var was := t[..i];
      ghost var carryIn := carry;
      t[i] := s % WORD;
      carry := s / WORD;
      assert t[..i + 1] == was + [t[i]];
      ValPush(was, t[i]);
      ValSnoc(a, i);
      ValSnoc(b, i);
      WordPower(i);
      ChainStep(Val(was), Val(a[..i]) + Val(b[..i]), t[i], carry, a[i] + b[i], carryIn, Pow(WORD, i));
      MulDistrib(a[i], b[i], Pow(WORD, i));
    }
    assert t[..n] == t[..] && a[..n] == a && b[..n] == b;
  }

  lemma BorrowStep(vt: int, va: int, vb: int, word: int, borrow: int, ai: int, bi: int, borrowIn: int, i: nat)
    requires vt - borrowIn * Pow(WORD, i) == va - vb && word - WORD * borrow == ai - bi - borrowIn
    ensures vt + word * Pow(WORD, i) - borrow * Pow(WORD, i + 1) == (va + ai * Pow(WORD, i)) - (vb + bi * Pow(WORD, i))
  {
    hide Pow;
    var w := Pow(WORD, i);
    WordPower(i);
    ChainStep(vt, va - vb, word, -borrow, ai - bi, -borrowIn, w);
    MulDistrib(ai, bi, w);
    assert -borrow * (WORD * w) == -(borrow * (WORD * w));
    assert -borrowIn * w == -(borrowIn * w);
  }

  /** t := a - b, word by word. */
  method SubChain(a: seq<int>, b: seq<int>, n: nat) returns (t: array<int>, borrow: int)
    requires Words(a, n) && Words(b, n)
    ensures fresh(t) && Words(t[..], n) && 0 <= borrow <= 1
    ensures Val(t[..]) - borrow * Pow(WORD, n) == Val(a) - Val(b)
  {
    hide Pow, Val, WrapSub;
    t := new int[n];
    borrow := 0;
    EmptyVal(t[..0]);
    EmptyVal(a[..0]);
    EmptyVal(b[..0]);
    for i := 0 to n
      invariant 0 <= borrow <= 1
      invariant Words(t[..i], i)
      invariant Val(t[..i]) - borrow * Pow(WORD, i) == Val(a[..i]) - Val(b[..i])
    {
      WrapSubMeaning(a[i], b[i], borrow);
      var d := WrapSub(a[i], b[i], borrow);
      ghost var was := t[..i];
      ghost var borrowIn := borrow;
      t[i] := d.0;
      borrow := d.1;
      assert t[..i + 1] == was + [t[i]];
      ValPush(was, t[i]);
      ValSnoc(a, i);
      ValSnoc(b, i);
      BorrowStep(Val(was), Val(a[..i]), Val(b[..i]), t[i], borrow, a[i], b[i], borrowIn, i);
    }
    assert t[..n] == t[..] && a[..n] == a && b[..n] == b;
  }

  // ------------------------------------------------------------ addition and subtraction modulo p

  /** Two numbers below r whose difference is a multiple of r are equal; here the multiple is a dropped carry. */
  lemma CarryDropped(v: int, carry: int, r: int, total: int, expected: int)
    requires 0 <= v < r && v + carry * r == total && 0 <= expected < r
    requires total == expected || total == expected + r
    ensures v == expected
  {
    MulDistrib(carry, 1, r);
    if total == expected {
      assert carry * r == expected - v;
      SmallMultiple(carry, r);
    } else {
      assert (carry - 1) * r == expected - v;
      SmallMultiple(carry - 1, r);
    }
  }

  /** Modular addition; the modulus has room in the top limb, so the sum never overflows. */
  method ModAdd(a: seq<int>, b: seq<int>, p: seq<int>, n: nat) returns (r: seq<int>)
    requires Words(a, n) && Words(b, n) && Words(p, n)
    requires Val(a) < Val(p) && Val(b) < Val(p) && 2 * Val(p) <= Pow(WORD, n)
    ensures Words(r, n) && 0 < Val(p) && Val(r) == FrAdd(Val(a), Val(b), Val(p))
  {
    hide Pow, Val, Res;
    var t, carry := AddChain(a, b, n);
    var s2, borrow := SubChain(t[..], p, n);
    r := if borrow != 0 then t[..] else s2[..];
    ValBound(a, n);
    ValBound(b, n);
    ValBound(t[..], n);
    ValBound(s2[..], n);
    CarryDropped(Val(t[..]), carry, Pow(WORD, n), Val(a) + Val(b), Val(a) + Val(b));
    var sum := Val(a) + Val(b);
    if borrow == 0 {
      assert Val(r) == sum - Val(p);
      CongIntro(Val(r), sum, -1, Val(p));
    } else {
      assert Val(r) == sum < Val(p);
    }
    IsResidue(Val(r), sum, Val(p));
  }

  method ModSub(a: seq<int>, b: seq<int>, p: seq<int>, n: nat) returns (r: seq<int>)
    requires Words(a, n) && Words(b, n) && Words(p, n)
    requires Val(a) < Val(p) && Val(b) < Val(p)
    ensures Words(r, n) && 0 < Val(p) && Val(r) == FrSub(Val(a), Val(b), Val(p))
  {
    hide Pow, Val, Res;
    var t, borrow := SubChain(a, b, n);
    var masked := if borrow != 0 then p else Zeros(n);
    ZerosVal(n);
    var u, carry := AddChain(t[..], masked, n);
    r := u[..];
    ValBound(a, n);
    ValBound(b, n);
    ValBound(p, n);
    ValBound(r, n);
    ValBound(t[..], n);
    var diff := Val(a) - Val(b);
    if borrow == 0 {
      CarryDropped(Val(r), carry, Pow(WORD, n), diff, diff);
    } else {
      CarryDropped(Val(r), carry, Pow(WORD, n), diff + Val(p) + Pow(WORD, n), diff + Val(p));
      CongIntro(Val(r), diff, 1, Val(p));
    }
    IsResidue(Val(r), diff, Val(p));
  }

  function Zeros(n: nat): (z: seq<int>)
    ensures |z| == n && forall i :: 0 <= i < n ==> z[i] == 0
  {
    seq(n, _ => 0)
  }

  lemma {:induction false} ZerosVal(n: nat)
    ensures Val(Zeros(n)) == 0 && Words(Zeros(n), n)
  {
    if n > 0 {
      ZerosVal(n - 1);
      assert Zeros(n)[..n - 1] == Zeros(n - 1);
    }
  }

  // ------------------------------------------------------------ Montgomery multiplication

  /** t := t + a * bi over n + 2 words. No step overflows its 64-bit accumulator. */
  method MulRow(t: array<int>, a: seq<int>, bi: int, n: nat)
    requires Words(a, n) && 0 <= bi < WORD && t.Length == n + 2 && Words(t[..n + 1], n + 1)
    modifies t
    ensures Words(t[..], n + 2) && t[n + 1] <= 1
    ensures Val(t[..]) == Val(old(t[..n + 1])) + Val(a) * bi
  {
    hide Pow, Val, MulAdd;
    ghost var before := t[..];
    var c := 0;
    EmptyVal(t[..0]);
    EmptyVal(before[..0]);
    EmptyVal(a[..0]);
    for j := 0 to n
      invariant 0 <= c < WORD
      invariant forall q :: j <= q < n + 1 ==> t[q] == before[q]
      invariant Words(t[..j], j)
      invariant Val(t[..j]) + c * Pow(WORD, j) == Val(before[..j]) + Val(a[..j]) * bi
    {
      MulAddFits(a[j], bi, t[j], c);
      var s := MulAdd(a[j], bi, t[j], c);
      assert s < DWORD;
      ghost var was := t[..j];
      ghost var carryIn := c;
      t[j] := s % WORD;
      c := s / WORD;
      assert t[..j + 1] == was + [t[j]];
      ValPush(was, t[j]);
      ValSnoc(a, j);
      ValSnoc(before, j);
      MulRowStep(Val(was), Val(before[..j]), Val(a[..j]), bi, t[j], c, a[j], before[j], carryIn, j);
    }
    var s := t[n] + c;
    SplitWord(s);
    ghost var was := t[..n];
    t[n] := s % WORD;
    t[n + 1] := s / WORD;
    assert t[..] == was + [t[n]] + [t[n + 1]];
    ValPush(was, t[n]);
    ValPush(was + [t[n]], t[n + 1]);
    ValSnoc(before, n);
    assert a[..n] == a;
    WordPower(n);
    ChainStep(Val(was), Val(before[..n]) + Val(a) * bi, t[n], t[n + 1], before[n], c, Pow(WORD, n));
  }

  lemma MulRowStep(vt: int, vb: int, va: int, bi: int, word: int, c: int, aj: int, tj: int, carryIn: int, j: nat)
    requires vt + carryIn * Pow(WORD, j) == vb + va * bi && MulAdd(aj, bi, tj, carryIn) == word + WORD * c
    ensures vt + word * Pow(WORD, j) + c * Pow(WORD, j + 1) == vb + tj * Pow(WORD, j) + (va + aj * Pow(WORD, j)) * bi
  {
    hide Pow;
    var w := Pow(WORD, j);
    WordPower(j);
    ChainStep(vt, vb + va * bi, word, c, aj * bi + tj, carryIn, w);
    MulDistrib(aj * bi, tj, w);
    MulDistrib(va, aj * w, bi);
    MulAssoc(aj, bi, w);
  }

  /** The words below the top two: each lands one place lower, and the last carry is returned. */
  method ReduceWords(t: array<int>, p: seq<int>, m: int, n: nat) returns (c: int)
    requires n > 0 && Words(p, n) && 0 <= m < WORD && t.Length == n + 2 && Words(t[..], n + 2)
    requires (t[0] + m * p[0]) % WORD == 0
    modifies t
    ensures 0 <= c < WORD && Words(t[..n - 1], n - 1) && t[n] == old(t[n]) && t[n + 1] == old(t[n + 1])
    ensures WORD * Val(t[..n - 1]) + c * Pow(WORD, n) == Val(old(t[..n])) + Val(p) * m
  {
    hide Pow, Val, MulAdd;
    ghost var before := t[..];
    MulAddFits(m, p[0], t[0], 0);
    var s0 := MulAdd(m, p[0], t[0], 0);
    assert s0 < DWORD;
    c := s0 / WORD;
    FirstWord(before, p, m, c);
    for j := 1 to n
      invariant 0 <= c < WORD
      invariant forall q :: j <= q < n + 2 ==> t[q] == before[q]
      invariant Words(t[..j - 1], j - 1)
      invariant WORD * Val(t[..j - 1]) + c * Pow(WORD, j) == Val(before[..j]) + Val(p[..j]) * m
    {
      MulAddFits(m, p[j], t[j], c);
      var sj := MulAdd(m, p[j], t[j], c);
      assert sj < DWORD;
      ghost var was := t[..j - 1];
      ghost var carryIn := c;
      t[j - 1] := sj % WORD;
      c := sj / WORD;
      assert t[..j] == was + [t[j - 1]];
      ValPush(was, t[j - 1]);
      ValSnoc(p, j);
      ValSnoc(before, j);
      ReduceStep(Val(was), Val(before[..j]), Val(p[..j]), m, t[j - 1], c, p[j], before[j], carryIn, j);
    }
    assert p[..n] == p && before[..n] == old(t[..n]);
  }

  /** t := (t + m * p) / WORD, exact because m clears the low word. */
  method ReduceRow(t: array<int>, p: seq<int>, m: int, n: nat)
    requires n > 0 && Words(p, n) && 0 <= m < WORD && t.Length == n + 2 && Words(t[..], n + 2) && t[n + 1] <= 1
    requires (t[0] + m * p[0]) % WORD == 0
    modifies t
    ensures Words(t[..n + 1], n + 1)
    ensures WORD * Val(t[..n + 1]) == Val(old(t[..])) + m * Val(p)
  {
    hide Pow, Val;
    ghost var before := t[..];
    assert before[..n + 1] == before[..n] + [before[n]] && before == before[..n + 1] + [before[n + 1]];
    ValPush(before[..n], before[n]);
    ValPush(before[..n + 1], before[n + 1]);
    var c := ReduceWords(t, p, m, n);
    var sn := t[n] + c;
    SplitWord(sn);
    ghost var was := t[..n - 1];
    t[n - 1] := sn % WORD;
    t[n] := t[n + 1] + sn / WORD;
    assert t[..n + 1] == was + [t[n - 1]] + [t[n]];
    ValPush(was, t[n - 1]);
    ValPush(was + [t[n - 1]], t[n]);
    ReduceTop(Val(was), Val(before[..n]) + Val(p) * m, before[n], before[n + 1], c, t[n - 1], sn / WORD, n);
    assert Val(p) * m == m * Val(p);
  }

  lemma FirstWord(t: seq<int>, p: seq<int>, m: int, c: int)
    requires |t| > 0 && |p| > 0 && (t[0] + m * p[0]) % WORD == 0 && c == MulAdd(m, p[0], t[0], 0) / WORD
    ensures WORD * Val([]) + c * Pow(WORD, 1) == Val(t[..1]) + Val(p[..1]) * m
    ensures t[..0] == [] && Val(t[..0]) == Val([])
  {
    assert Pow(WORD, 1) == WORD * Pow(WORD, 0) == WORD;
    ValSnoc(t, 0);
    ValSnoc(p, 0);
    assert m * p[0] == p[0] * m;
  }

  lemma ReduceStep(vt: int, vb: int, vp: int, m: int, word: int, c: int, pj: int, tj: int, carryIn: int, j: nat)
    requires j > 0 && WORD * vt + carryIn * Pow(WORD, j) == vb + vp * m && MulAdd(m, pj, tj, carryIn) == word + WORD * c
    ensures WORD * (vt + word * Pow(WORD, j - 1)) + c * Pow(WORD, j + 1)
         == vb + tj * Pow(WORD, j) + (vp + pj * Pow(WORD, j)) * m
  {
    hide Pow;
    assert pj * m == m * pj;
    MulRowStep(WORD * vt, vb, vp, m, word, c, pj, tj, carryIn, j);
    WordPower(j - 1);
    MulLeftSwap(WORD, word, Pow(WORD, j - 1));
    MulDistrib(vt, word * Pow(WORD, j - 1), WORD);
  }

  lemma ReduceTop(vt: int, rhs: int, tn: int, tn1: int, c: int, word: int, high: int, n: nat)
    requires n > 0 && WORD * vt + c * Pow(WORD, n) == rhs && tn + c == word + WORD * high
    ensures WORD * (vt + word * Pow(WORD, n - 1) + (tn1 + high) * Pow(WORD, n))
         == rhs + tn * Pow(WORD, n) + tn1 * Pow(WORD, n + 1)
  {
    hide Pow;
    var w := Pow(WORD, n);
    ChainStep(WORD * vt, rhs, word, high, tn, c, w);
    WordPower(n - 1);
    WordPower(n);
    MulLeftSwap(WORD, word, Pow(WORD, n - 1));
    MulLeftSwap(WORD, tn1 + high, w);
    MulDistrib(tn1, high, WORD * w);
    MulDistrib(vt + word * Pow(WORD, n - 1), (tn1 + high) * w, WORD);
    MulDistrib(vt, word * Pow(WORD, n - 1), WORD);
  }

  /** The Montgomery factor: one more word below p clears. */
  ghost predicate ClearsLowWord(n0: int, p: seq<int>) {
    |p| > 0 && 0 <= n0 < WORD && (n0 * p[0] + 1) % WORD == 0
  }

  lemma FactorClears(t0: int, n0: int, p0: int)
    requires (n0 * p0 + 1) % WORD == 0
    ensures (t0 + t0 * n0 % WORD * p0) % WORD == 0
  {
    var x := t0 * n0;
    var q := x / WORD;
    var k := (n0 * p0 + 1) / WORD;
    assert x == q * WORD + x % WORD && n0 * p0 + 1 == k * WORD;
    MulDistrib(x, q * WORD, p0);
    MulAssoc(q, WORD, p0);
    MulAssoc(t0, n0, p0);
    MulDistrib(n0 * p0, 1, t0);
    MulLeftSwap(t0, k, WORD);
    assert t0 + x % WORD * p0 == (t0 * k - q * p0) * WORD by {
      MulAssoc(t0, k, WORD);
      MulDistrib(t0 * k, q * p0, WORD);
      assert t0 * (n0 * p0) + t0 == t0 * (k * WORD);
    }
    DivModUnique(t0 + x % WORD * p0, WORD, t0 * k - q * p0, 0);
  }

  /** After i rows the accumulator, scaled back, is a times the low part of b plus a multiple of p below p * WORD^i. */
  ghost predicate RowsDone(t: int, a: int, b: int, mult: int, p: int, w: int) {
    && t * w == a * b + mult * p
    && 0 <= mult < w && 0 <= b < w && 0 <= t < a + p
  }

  lemma RowStep(t: int, a: int, b: int, mult: int, p: int, i: nat, bi: int, m: int, u: int)
    requires RowsDone(t, a, b, mult, p, Pow(WORD, i)) && 0 <= bi < WORD && 0 <= m < WORD && 0 <= a && 0 < p
    requires WORD * u == t + a * bi + m * p && 0 <= u
    ensures RowsDone(u, a, b + bi * Pow(WORD, i), mult + m * Pow(WORD, i), p, Pow(WORD, i + 1))
  {
    hide Pow;
    var w := Pow(WORD, i);
    WordPower(i);
    assert u * (WORD * w) == a * (b + bi * w) + (mult + m * w) * p by {
      MulAssoc(WORD, u, w);
      MulLeftSwap(u, WORD, w);
      MulDistrib(t, a * bi, w);
      MulDistrib(t + a * bi, m * p, w);
      MulDistrib(b, bi * w, a);
      MulDistrib(mult, m * w, p);
      MulAssoc(a, bi, w);
      MulAssoc(m, p, w);
    }
    DigitBound(b, bi, w);
    DigitBound(mult, m, w);
    assert u < a + p by {
      MulMono(bi, WORD - 1, a);
      MulMono(m, WORD - 1, p);
      assert a * bi == bi * a;
      assert (WORD - 1) * a + (WORD - 1) * p + (a + p) == WORD * (a + p);
    }
  }

  lemma DigitBound(b: int, d: int, w: int)
    requires 0 <= b < w && 0 <= d < WORD
    ensures 0 <= b + d * w < WORD * w
  {
    MulNonneg(d, w);
    MulMono(d, WORD - 1, w);
    MulDistrib(WORD, 1, w);
  }

  /** The rows of the multiplication, before the final subtraction. */
  method MontRows(a: seq<int>, b: seq<int>, p: seq<int>, n0: int, n: nat) returns (t: array<int>, ghost mult: int)
    requires n > 0 && Words(a, n) && Words(b, n) && Words(p, n) && ClearsLowWord(n0, p) && 0 < Val(p)
    ensures fresh(t) && t.Length == n + 2 && Words(t[..n + 1], n + 1)
    ensures RowsDone(Val(t[..n + 1]), Val(a), Val(b), mult, Val(p), Pow(WORD, n))
  {
    hide Pow, Val, RowsDone;
    t := new int[n + 2](_ => 0);
    mult := 0;
    StartRows(t[..n + 1], a, b, p, n);
    for i := 0 to n
      invariant Words(t[..n + 1], n + 1)
      invariant RowsDone(Val(t[..n + 1]), Val(a), Val(b[..i]), mult, Val(p), Pow(WORD, i))
    {
      ghost var v := Val(t[..n + 1]);
      MulRow(t, a, b[i], n);
      var m := t[0] * n0 % WORD;
      FactorClears(t[0], n0, p[0]);
      ReduceRow(t, p, m, n);
      ValSnoc(b, i);
      ValBound(a, n);
      ValBound(t[..n + 1], n + 1);
      RowStep(v, Val(a), Val(b[..i]), mult, Val(p), i, b[i], m, Val(t[..n + 1]));
      mult := mult + m * Pow(WORD, i);
    }
    assert b[..n] == b;
  }

  lemma StartRows(t: seq<int>, a: seq<int>, b: seq<int>, p: seq<int>, n: nat)
    requires |t| == n + 1 && (forall q :: 0 <= q < n + 1 ==> t[q] == 0) && Words(a, n) && Words(p, n) && 0 < Val(p)
    ensures |b| >= 0 && Words(t, n + 1) && RowsDone(Val(t), Val(a), Val(b[..0]), 0, Val(p), Pow(WORD, 0))
  {
    assert t == Zeros(n + 1);
    ZerosVal(n + 1);
    ValBound(a, n);
  }

  lemma ProductBelow(x: int, y: int, w: int, p: int)
    requires 0 <= x < w && 0 <= y < p
    ensures x * y < w * p && y * x < w * p
  {
    MulMono(x, w, y);
    MulMono(y + 1, p, w);
    MulDistrib(y, 1, w);
  }

  lemma BelowTwice(t: int, a: int, b: int, mult: int, p: int, w: int)
    requires RowsDone(t, a, b, mult, p, w) && 0 <= a < w && 0 < p && (a < p || b < p)
    ensures 0 <= t < 2 * p
  {
    if b < p {
      ProductBelow(a, b, w, p);
    } else {
      ProductBelow(b, a, w, p);
    }
    assert a * b < w * p;
    MulMono(mult, w - 1, p);
    MulDistrib(w, 1, p);
    if t >= 2 * p {
      MulMono(2 * p, t, w);
      MulAssoc(2, p, w);
    }
  }

  /** One conditional subtraction brings a value below 2p to its residue. */
  lemma FinalSubtraction(total: int, low: int, top: int, diff: int, borrow: int, p: int, w: int)
    requires total == low + top * w && 0 <= low < w && 0 <= diff < w && 0 <= top && 0 <= borrow <= 1
    requires diff - borrow * w == low - p && 0 <= total < 2 * p && p < w
    ensures top < borrow ==> low == total < p
    ensures top >= borrow ==> diff == total - p
  {
    if top >= borrow {
      MulDistrib(top, borrow, w);
      if top > borrow {
        MulMono(1, top - borrow, w);
      }
    }
  }

  /** Montgomery product: below p, and a * b once multiplied back by WORD^n. One operand may be
      any n-limb number as long as the other is below p. */
  method MontMul(a: seq<int>, b: seq<int>, p: seq<int>, n0: int, n: nat) returns (r: seq<int>)
    requires n > 0 && Words(a, n) && Words(b, n) && Words(p, n) && ClearsLowWord(n0, p) && 0 < Val(p)
    requires Val(a) < Val(p) || Val(b) < Val(p)
    ensures Words(r, n) && 0 <= Val(r) < Val(p)
    ensures Cong(Val(r) * Pow(WORD, n), Val(a) * Val(b), Val(p))
  {
    hide Pow, Val, Res;
    var t;
    ghost var mult;
    t, mult := MontRows(a, b, p, n0, n);
    ghost var total := Val(t[..n + 1]);
    assert t[..n + 1] == t[..n] + [t[n]];
    ValPush(t[..n], t[n]);
    var s2, borrow := SubChain(t[..n], p, n);
    ghost var chainBorrow := borrow;
    borrow := if t[n] < borrow then 1 else 0;
    r := if borrow != 0 then t[..n] else s2[..];
    ValBound(a, n);
    ValBound(b, n);
    ValBound(p, n);
    ValBound(t[..n], n);
    ValBound(s2[..], n);
    BelowTwice(total, Val(a), Val(b), mult, Val(p), Pow(WORD, n));
    FinalSubtraction(total, Val(t[..n]), t[n], Val(s2[..]), chainBorrow, Val(p), Pow(WORD, n));
    CongIntro(total * Pow(WORD, n), Val(a) * Val(b), mult, Val(p));
    if borrow == 0 {
      CongIntro(Val(r), total, -1, Val(p));
    }
    CongMul(Val(r), total, Pow(WORD, n), Pow(WORD, n), Val(p));
  }
}
