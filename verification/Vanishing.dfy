/** The polynomial that vanishes on every missing cell, built by in-place long multiplication
    and spread over every 64th coefficient. */
module Vanishing {
  import opened Layout
  import opened Modular
  import opened Dft
  import opened Poly
  import opened Field
  import opened Dispatch
  import opened NttPass
  import opened Transforms

  /** Words per blob in the list of missing cells: a count, then at most 64 reversed indices. */
  const MISSING_WORDS: nat := 65

  ghost predicate CellIndices(m: seq<int>) {
    |m| <= CELL && forall i :: 0 <= i < |m| ==> 0 <= m[i] < CELLS
  }

  /** The words of blob b in the list buffer. */
  ghost function Words(buf: seq<int>, b: nat): seq<int> {
    if 0 <= b * MISSING_WORDS && b * MISSING_WORDS + MISSING_WORDS <= |buf|
    then buf[b * MISSING_WORDS..b * MISSING_WORDS + MISSING_WORDS] else []
  }

  /** The indices listed in one blob's words. */
  ghost function Listed(words: seq<int>): seq<int> {
    if |words| == MISSING_WORDS && 0 <= words[0] <= CELL then words[1..1 + words[0]] else []
  }

  ghost predicate ListReady(words: seq<int>) {
    |words| == MISSING_WORDS && 0 <= words[0] <= CELL && CellIndices(Listed(words))
  }

  /** One root of the short polynomial per missing cell. */
  ghost function CellRoots(missing: seq<int>, w: int): (rs: seq<int>)
    ensures |rs| == |missing| && forall i :: 0 <= i < |rs| ==> rs[i] == Pow(w, missing[i] * CELL)
  {
    seq(|missing|, i requires 0 <= i < |missing| => Pow(w, missing[i] * CELL))
  }

  /** The product of x^64 - w^(64 * i) over the missing cells i, as 8192 coefficients. */
  ghost function VanishingPoly(missing: seq<int>, w: int): (z: seq<int>)
    ensures |z| == EXT_BLOB
    ensures forall q :: 0 <= q < EXT_BLOB ==>
      z[q] == if q % CELL == 0 then At(RootsPoly(CellRoots(missing, w)), q / CELL) else 0
  {
    seq(EXT_BLOB, q => if q % CELL == 0 then At(RootsPoly(CellRoots(missing, w)), q / CELL) else 0)
  }

  ghost predicate Represents(s: seq<int>, c: seq<int>, p: int)
    requires p > 0
  {
    |s| == |c| && forall q :: 0 <= q < |s| ==> Element(s[q], p) && Cong(s[q], c[q], p)
  }

  // ------------------------------------------------------------ the kernel

  /** One turn of the outer loop: the product takes in the factor x - rs[i]. */
  method NextFactor(sp: array<int>, negRoot: int, i: nat, ghost rs: seq<int>, p: int)
    requires p > 0 && 0 < i < |rs| && i < sp.Length && Cong(negRoot, -rs[i], p)
    requires forall q :: 0 <= q < i ==> Element(sp[q], p) && Cong(sp[q], RootsPoly(rs[..i])[q], p)
    modifies sp
    ensures forall q :: 0 <= q <= i ==> Element(sp[q], p) && Cong(sp[q], RootsPoly(rs[..i + 1])[q], p)
  {
    hide Res, Pow, FrAdd, FrMul, FrNeg, MulLinear;
    ghost var c, d := RootsPoly(rs[..i]), RootsPoly(rs[..i + 1]);
    NextRoot(rs, i);
    CongAdd(negRoot, -rs[i], sp[i - 1], c[i - 1], p);
    sp[i] := FrAdd(negRoot, sp[i - 1], p);
    var j := i - 1;
    while j > 0
      invariant 0 <= j < i
      invariant forall q :: 0 <= q <= j ==> Cong(sp[q], c[q], p)
      invariant forall q :: j < q <= i ==> Element(sp[q], p) && Cong(sp[q], d[q], p)
    {
      ProductTerm(sp[j], sp[j - 1], negRoot, c[j], c[j - 1], rs[i], p);
      var pj := FrMul(sp[j], negRoot, p);
      pj := FrAdd(pj, sp[j - 1], p);
      sp[j] := pj;
      j := j - 1;
    }
    ProductTerm(sp[0], 0, negRoot, c[0], 0, rs[i], p);
    sp[0] := FrMul(sp[0], negRoot, p);
  }

  /** The in-place product: sp receives the coefficients of the product of (x - root) over the missing cells. */
  method ShortProduct(sp: array<int>, missing: seq<int>, roots: array<int>, p: int, ghost w: int)
    requires p > 1 && sp != roots && sp.Length == MISSING_WORDS && missing != [] && CellIndices(missing)
    requires TableOf(roots[..], w, EXT_BLOB, p)
    modifies sp
    ensures Represents(sp[..|missing| + 1], RootsPoly(CellRoots(missing, w)), p)
  {
    hide Res, Pow, FrAdd, FrMul, FrNeg, MulLinear;
    ghost var rs := CellRoots(missing, w);
    var count := |missing|;
    assert roots[..][missing[0] * CELL] == roots[missing[0] * CELL];
    CongRes(rs[0], p);
    CongSub(0, 0, roots[missing[0] * CELL], rs[0], p);
    sp[0] := FrNeg(roots[missing[0] * CELL], p);
    FirstRoot(rs);
    for i := 1 to count
      invariant forall q :: 0 <= q < i ==> Element(sp[q], p) && Cong(sp[q], RootsPoly(rs[..i])[q], p)
    {
      assert roots[..][missing[i] * CELL] == roots[missing[i] * CELL];
      var negRoot := FrNeg(roots[missing[i] * CELL], p);
      assert Cong(negRoot, -rs[i], p) by {
        CongRes(rs[i], p);
        CongSub(0, 0, roots[missing[i] * CELL], rs[i], p);
      }
      NextFactor(sp, negRoot, i, rs, p);
    }
    assert rs[..count] == rs;
    sp[count] := 1;
  }

  /** One coefficient of the product with x - r. */
  lemma ProductTerm(high: int, low: int, negRoot: int, c: int, d: int, r: int, p: int)
    requires p > 0 && Cong(high, c, p) && Cong(low, d, p) && Cong(negRoot, -r, p)
    ensures Cong(FrAdd(FrMul(high, negRoot, p), low, p), d + -r * c, p)
    ensures Cong(FrMul(high, negRoot, p), -r * c, p)
  {
    hide Res, FrAdd, FrMul;
    CongMul(high, c, negRoot, -r, p);
    assert c * -r == -r * c;
    CongAdd(FrMul(high, negRoot, p), -r * c, low, d, p);
  }

  lemma FirstRoot(rs: seq<int>)
    requires |rs| > 0
    ensures RootsPoly(rs[..1]) == [-rs[0], 1]
  {
    var d := RootsPoly(rs[..1]);
    assert rs[..1][..0] == [];
    assert At(d, 0) == At([1], -1) + -rs[0] * At([1], 0) == -rs[0];
  }

  lemma NextRoot(rs: seq<int>, i: nat)
    requires 0 < i < |rs|
    ensures var c, d := RootsPoly(rs[..i]), RootsPoly(rs[..i + 1]);
      && d[i] == c[i - 1] + -rs[i]
      && d[0] == -rs[i] * c[0]
      && forall q :: 0 < q < i ==> d[q] == c[q - 1] + -rs[i] * c[q]
  {
    var c, d := RootsPoly(rs[..i]), RootsPoly(rs[..i + 1]);
    assert rs[..i + 1][..i] == rs[..i];
    assert d == MulLinear(c, rs[i]);
    hide MulLinear, RootsPoly;
    LinearCoefficients(c, rs[i]);
  }

  lemma LinearCoefficients(c: seq<int>, r: int)
    requires |c| > 0
    ensures var d := MulLinear(c, r);
      && d[0] == -r * c[0]
      && forall q :: 0 < q < |c| ==> d[q] == c[q - 1] + -r * c[q]
  {
    hide MulLinear;
    var d := MulLinear(c, r);
    forall q | 0 <= q < |c| ensures d[q] == At(c, q - 1) + -r * c[q] {
      assert At(d, q) == At(c, q - 1) + -r * At(c, q);
    }
  }

  /** The thread that zeroes slot q. */
  function Owner(q: int, outBase: nat): int {
    (q - outBase) % 128
  }

  /** One thread zeroes every 128th slot of the blob starting at outBase. */
  method ZeroThread(out: array<int>, outBase: nat, tid: nat)
    requires outBase + EXT_BLOB <= out.Length && tid < 128
    modifies out
    ensures forall q :: 0 <= q < out.Length ==>
      out[q] == if outBase <= q < outBase + EXT_BLOB && Owner(q, outBase) == tid then 0 else old(out[q])
  {
    var k := tid;
    while k < EXT_BLOB
      invariant 0 <= k && k % 128 == tid
      invariant forall q :: 0 <= q < out.Length ==>
        out[q] == if outBase <= q < outBase + EXT_BLOB && Owner(q, outBase) == tid && q - outBase < k then 0 else old(out[q])
    {
      out[outBase + k] := 0;
      k := k + 128;
    }
  }

  lemma OwnerRange(outBase: nat)
    ensures forall q :: 0 <= Owner(q, outBase) < 128
  {
  }

  /** 128 threads zero the blob, in any order. */
  method ZeroBlob(out: array<int>, outBase: nat)
    requires outBase + EXT_BLOB <= out.Length
    modifies out
    ensures forall q :: 0 <= q < out.Length ==> out[q] == if outBase <= q < outBase + EXT_BLOB then 0 else old(out[q])
  {
    hide Owner;
    OwnerRange(outBase);
    var pending: set<nat> := Invocations(128);
    while pending != {}
      invariant forall t :: t in pending ==> 0 <= t < 128
      invariant forall q :: 0 <= q < out.Length ==>
        out[q] == if outBase <= q < outBase + EXT_BLOB && Owner(q, outBase) !in pending then 0 else old(out[q])
      decreases |pending|
    {
      var tid :| tid in pending;
      ZeroThread(out, outBase, tid);
      pending := pending - {tid};
    }
  }

  /** Stores coefficient i of the short polynomial in slot 64 * i. */
  method SpreadCoefficients(out: array<int>, outBase: nat, sp: array<int>, count: nat)
    requires outBase + EXT_BLOB <= out.Length && out != sp && count <= CELL && count < sp.Length
    requires forall q :: outBase <= q < outBase + EXT_BLOB ==> out[q] == 0
    modifies out
    ensures forall q :: 0 <= q < out.Length ==>
      out[q] == if outBase <= q < outBase + EXT_BLOB && (q - outBase) % CELL == 0
                then At(sp[..count + 1], (q - outBase) / CELL) else old(out[q])
  {
    for i := 0 to count + 1
      invariant forall q :: 0 <= q < out.Length ==>
        out[q] == if outBase <= q < outBase + EXT_BLOB && (q - outBase) % CELL == 0
                  then At(sp[..i], (q - outBase) / CELL) else old(out[q])
    {
      ghost var was := sp[..i];
      out[outBase + i * CELL] := sp[i];
      assert sp[..i + 1] == was + [sp[i]];
    }
  }

  /** The workgroup of one blob: a sequential product on one thread between the zero fill and the store. */
  method VanishingGroup(out: array<int>, roots: array<int>, missBuf: array<int>, outBase: nat, b: nat, p: int,
                        ghost w: int)
    requires p > 1 && out != roots && out != missBuf
    requires TableOf(roots[..], w, EXT_BLOB, p) && ListReady(Words(missBuf[..], b))
    requires outBase + EXT_BLOB <= out.Length
    modifies out
    ensures Represents(out[outBase..outBase + EXT_BLOB], VanishingPoly(Listed(Words(missBuf[..], b)), w), p)
    ensures forall q :: 0 <= q < out.Length && !(outBase <= q < outBase + EXT_BLOB) ==> out[q] == old(out[q])
  {
    hide Res, Pow, TableOf, RootsPoly, VanishingPoly, Element;
    ghost var missing := Listed(Words(missBuf[..], b));
    ghost var coeffs;
    ZeroBlob(out, outBase);
    SmallElements(p);
    var missBase := b * MISSING_WORDS;
    ghost var words := missBuf[missBase..missBase + MISSING_WORDS];
    var count := missBuf[missBase];
    if count == 0 {
      out[outBase] := 1;
      coeffs := [1];
      EmptyProduct(CellRoots(missing, w));
    } else {
      var sp := new int[MISSING_WORDS];
      assert missBuf[missBase + 1..missBase + 1 + count] == words[1..1 + count] == missing;
      ShortProduct(sp, missBuf[missBase + 1..missBase + 1 + count], roots, p, w);
      coeffs := sp[..count + 1];
      SpreadCoefficients(out, outBase, sp, count);
    }
    SpreadRepresents(out[..], outBase, coeffs, missing, w, p);
  }

  lemma SpreadRepresents(out: seq<int>, outBase: nat, coeffs: seq<int>, missing: seq<int>, w: int, p: int)
    requires p > 1 && outBase + EXT_BLOB <= |out|
    requires Represents(coeffs, RootsPoly(CellRoots(missing, w)), p)
    requires forall q :: outBase <= q < outBase + EXT_BLOB ==>
      out[q] == if (q - outBase) % CELL == 0 then At(coeffs, (q - outBase) / CELL) else 0
    ensures Represents(out[outBase..outBase + EXT_BLOB], VanishingPoly(missing, w), p)
  {
    hide Res, RootsPoly, VanishingPoly;
    var s := out[outBase..outBase + EXT_BLOB];
    var z := VanishingPoly(missing, w);
    forall k | 0 <= k < EXT_BLOB ensures Element(s[k], p) && Cong(s[k], z[k], p) {
      assert s[k] == out[outBase + k];
    }
  }

  lemma EmptyProduct(rs: seq<int>)
    requires rs == []
    ensures RootsPoly(rs) == [1]
  {
  }

  lemma SmallElements(p: int)
    requires p > 1
    ensures Element(0, p) && Element(1, p)
  {
  }

  /** One workgroup per blob, in any order. */
  method VanishingDispatch(out: array<int>, roots: array<int>, missBuf: array<int>, batch: nat, p: int, ghost w: int)
    requires p > 1 && out != roots && out != missBuf
    requires TableOf(roots[..], w, EXT_BLOB, p) && Sized(out[..], EXT_BLOB, EXT_BLOB, batch)
    requires forall b: nat :: b < batch ==> ListReady(Words(missBuf[..], b))
    modifies out
    ensures forall b: nat :: b < batch ==>
      Represents(Blob(out[..], b, EXT_BLOB, EXT_BLOB), VanishingPoly(Listed(Words(missBuf[..], b)), w), p)
  {
    hide Represents, VanishingPoly, Words, Listed, TableOf, ListReady;
    ghost var words := missBuf[..];
    var pending: set<nat> := Invocations(batch);
    while pending != {}
      invariant forall b :: b in pending ==> 0 <= b < batch
      invariant forall b: nat :: b < batch && b !in pending ==>
        Represents(Blob(out[..], b, EXT_BLOB, EXT_BLOB), VanishingPoly(Listed(Words(words, b)), w), p)
      decreases |pending|
    {
      var b :| b in pending;
      ghost var was := out[..];
      VanishingGroup(out, roots, missBuf, b * EXT_BLOB, b, p, w);
      assert Blob(out[..], b, EXT_BLOB, EXT_BLOB) == out[b * EXT_BLOB..b * EXT_BLOB + EXT_BLOB];
      forall a: nat | a < batch && a != b
        ensures Blob(out[..], a, EXT_BLOB, EXT_BLOB) == Blob(was, a, EXT_BLOB, EXT_BLOB)
      {
        BlobFits(was, a, EXT_BLOB, EXT_BLOB, batch);
      }
      pending := pending - {b};
    }
  }

  // ------------------------------------------------------------ what it vanishes on

  lemma VanishingEval(missing: seq<int>, w: int, x: int)
    requires |missing| <= CELL
    ensures Eval(VanishingPoly(missing, w), x) == Eval(RootsPoly(CellRoots(missing, w)), Pow(x, CELL))
  {
    var z, c := VanishingPoly(missing, w), RootsPoly(CellRoots(missing, w));
    assert IsSpread(z, c, CELL, CELLS);
    EvalSpread(z, c, CELL, CELLS, x);
  }

  /** Among the points w^m of the domain it is zero exactly where m modulo 128 is a missing cell's index. */
  lemma VanishesExactlyOnMissing(missing: seq<int>, w: int, m: nat, p: int)
    requires PrimitiveRoot(w, EXT_BLOB, p) && CellIndices(missing)
    ensures Cong(Eval(VanishingPoly(missing, w), Pow(w, m)), 0, p) <==> m % CELLS in missing
  {
    hide Res, Pow, Eval, RootsPoly, VanishingPoly, PrimitiveRoot;
    assert p > 1 by { RootModulus(w, EXT_BLOB, p); }
    var rs := CellRoots(missing, w);
    VanishingEval(missing, w, Pow(w, m));
    PowPow(w, m, CELL);
    RootModulus(w, EXT_BLOB, p);
    RootsPolyZeros(rs, Pow(w, m * CELL), p);
    forall i | 0 <= i < |rs| ensures Cong(Pow(w, m * CELL), rs[i], p) <==> m % CELLS == missing[i] {
      RootHit(missing[i], w, m, p);
    }
  }

  lemma RootModulus(w: int, n: nat, p: int)
    requires PrimitiveRoot(w, n, p)
    ensures IsPrime(p) && p > 1
  {
  }

  /** w^(64 m) is the root of cell c exactly when m is c modulo 128. */
  lemma RootHit(c: nat, w: int, m: nat, p: int)
    requires PrimitiveRoot(w, EXT_BLOB, p) && c < CELLS
    ensures p > 0 && (Cong(Pow(w, m * CELL), Pow(w, c * CELL), p) <==> m % CELLS == c)
  {
    hide Res, Pow, PrimitiveRoot;
    RootModulus(w, EXT_BLOB, p);
    PowEqual(w, EXT_BLOB, m * CELL, c * CELL, p);
    DivModUnique(m * CELL, EXT_BLOB, m / CELLS, m % CELLS * CELL);
    DivModUnique(c * CELL, EXT_BLOB, 0, c * CELL);
  }

  /** On the coset s * w^k it is never zero when s^8192 is not 1. */
  lemma NonzeroOnCoset(missing: seq<int>, w: int, s: int, k: nat, p: int)
    requires PrimitiveRoot(w, EXT_BLOB, p) && CellIndices(missing)
    requires !Cong(Pow(s, EXT_BLOB), 1, p)
    ensures !Cong(Eval(VanishingPoly(missing, w), s * Pow(w, k)), 0, p)
  {
    hide Res, Pow, Eval, RootsPoly, VanishingPoly;
    var rs := CellRoots(missing, w);
    var x := s * Pow(w, k);
    VanishingEval(missing, w, x);
    RootsPolyZeros(rs, Pow(x, CELL), p);
    if i :| 0 <= i < |rs| && Cong(Pow(x, CELL), rs[i], p) {
      CosetPower(w, s, k, missing[i], p);
    }
  }

  lemma CosetPower(w: int, s: int, k: nat, i: nat, p: int)
    requires p > 0 && Cong(Pow(w, EXT_BLOB), 1, p)
    requires Cong(Pow(s * Pow(w, k), CELL), Pow(w, i * CELL), p)
    ensures Cong(Pow(s, EXT_BLOB), 1, p)
  {
    hide Res, Pow;
    var x := s * Pow(w, k);
    assert Cong(Pow(x, EXT_BLOB), 1, p) by {
      PowPow(x, CELL, CELLS);
      CongPow(Pow(x, CELL), Pow(w, i * CELL), CELLS, p);
      PowPow(w, i * CELL, CELLS);
      FullTurns(w, i, p);
    }
    PowMulBase(s, Pow(w, k), EXT_BLOB);
    PowPow(w, k, EXT_BLOB);
    FullTurns(w, k, p);
    CongMul(Pow(s, EXT_BLOB), Pow(s, EXT_BLOB), Pow(Pow(w, k), EXT_BLOB), 1, p);
  }

  lemma FullTurns(w: int, i: nat, p: int)
    requires p > 0 && Cong(Pow(w, EXT_BLOB), 1, p)
    ensures Cong(Pow(w, i * EXT_BLOB), 1, p)
  {
    hide Res;
    PowPeriod(w, EXT_BLOB, i, 0, p);
    assert i * EXT_BLOB == EXT_BLOB * i + 0;
  }
}
