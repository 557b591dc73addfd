/** Limbs in Montgomery form as field elements: every multi-word routine refines the operation on
    residues that the kernels are specified with. */
module Montgomery {
  import opened Modular
  import opened Bits
  import opened Field
  import opened Limbs

  /** The generated constants of one field: modulus limbs, word inverse, WORD^(2n) and the Fermat exponent. */
  datatype FieldConstants = FieldConstants(n: nat, p: seq<int>, n0: int, r2: seq<int>, pMinus2: seq<int>)

  ghost predicate ValidConstants(f: FieldConstants) {
    && f.n > 0 && Words(f.p, f.n) && Words(f.r2, f.n) && Words(f.pMinus2, f.n)
    && IsPrime(Val(f.p)) && Val(f.p) > 2
    && ClearsLowWord(f.n0, f.p)
    && 2 * Val(f.p) <= Pow(WORD, f.n)
    && Val(f.r2) == Res(Pow(WORD, f.n) * Pow(WORD, f.n), Val(f.p))
    && Val(f.pMinus2) == Val(f.p) - 2
  }

  /** The limbs a hold the field element x in Montgomery form. */
  ghost predicate Holds(a: seq<int>, x: int, f: FieldConstants)
    requires Val(f.p) > 0
  {
    && Words(a, f.n) && Val(a) < Val(f.p) && Element(x, Val(f.p))
    && Cong(Val(a), x * Pow(WORD, f.n), Val(f.p))
  }

  lemma ScaleNonzero(f: FieldConstants)
    requires ValidConstants(f)
    ensures !Cong(Pow(WORD, f.n), 0, Val(f.p))
  {
    hide Res, Pow, Val;
    var p := Val(f.p);
    if Cong(2, 0, p) {
      ResSmall(2, p);
      ResSmall(0, p);
    }
    PowNonzero(2, 32, p);
    assert Pow(2, 32) == WORD by {
      TwoTo32();
    }
    PowNonzero(WORD, f.n, p);
  }

  lemma TwoTo32()
    ensures Pow(2, 32) == WORD
  {
    PowAdd(2, 16, 16);
    PowAdd(2, 8, 8);
    assert Pow(2, 8) == 256;
  }

  /** A limb array holds at most one element, and an element has at most one limb array. */
  lemma HoldsUnique(a: seq<int>, x: int, b: seq<int>, y: int, f: FieldConstants)
    requires ValidConstants(f) && Holds(a, x, f) && Holds(b, y, f)
    ensures x == y <==> a == b
  {
    hide Res, Pow, Val;
    var p, r := Val(f.p), Pow(WORD, f.n);
    ValBound(a, f.n);
    ValBound(b, f.n);
    if x == y {
      ElementsEqual(Val(a), Val(b), p);
      ValInjective(a, b, f.n);
    }
    if a == b {
      ScaleNonzero(f);
      assert x * r == r * x && y * r == r * y;
      CancelLeft(r, x, y, p);
      ElementsEqual(x, y, p);
    }
  }

  /** Multiplication. */
  method Mul(a: seq<int>, b: seq<int>, f: FieldConstants, ghost x: int, ghost y: int) returns (r: seq<int>)
    requires ValidConstants(f) && Holds(a, x, f) && Holds(b, y, f)
    ensures Holds(r, FrMul(x, y, Val(f.p)), f)
  {
    hide Res, Pow, Val;
    r := MontMul(a, b, f.p, f.n0, f.n);
    ghost var p, k := Val(f.p), Pow(WORD, f.n);
    CongMul(Val(a), x * k, Val(b), y * k, p);
    MulSwap(x, k, y, k);
    MulAssoc(x * y, k, k);
    StripScale(Val(r), x * y * k, f);
    CongMul(FrMul(x, y, p), x * y, k, k, p);
  }

  /** Equal after scaling means equal. */
  lemma StripScale(u: int, v: int, f: FieldConstants)
    requires ValidConstants(f) && Cong(u * Pow(WORD, f.n), v * Pow(WORD, f.n), Val(f.p))
    ensures Cong(u, v, Val(f.p))
  {
    hide Res, Pow, Val;
    var k := Pow(WORD, f.n);
    ScaleNonzero(f);
    assert u * k == k * u && v * k == k * v;
    CancelLeft(k, u, v, Val(f.p));
  }

  method Add(a: seq<int>, b: seq<int>, f: FieldConstants, ghost x: int, ghost y: int) returns (r: seq<int>)
    requires ValidConstants(f) && Holds(a, x, f) && Holds(b, y, f)
    ensures Holds(r, FrAdd(x, y, Val(f.p)), f)
  {
    hide Res, Pow, Val;
    r := ModAdd(a, b, f.p, f.n);
    ghost var p, k := Val(f.p), Pow(WORD, f.n);
    CongAdd(Val(a), x * k, Val(b), y * k, p);
    MulDistrib(x, y, k);
    CongMul(FrAdd(x, y, p), x + y, k, k, p);
  }

  method Sub(a: seq<int>, b: seq<int>, f: FieldConstants, ghost x: int, ghost y: int) returns (r: seq<int>)
    requires ValidConstants(f) && Holds(a, x, f) && Holds(b, y, f)
    ensures Holds(r, FrSub(x, y, Val(f.p)), f)
  {
    hide Res, Pow, Val;
    r := ModSub(a, b, f.p, f.n);
    ghost var p, k := Val(f.p), Pow(WORD, f.n);
    CongSub(Val(a), x * k, Val(b), y * k, p);
    MulDistrib(x, y, k);
    CongMul(FrSub(x, y, p), x - y, k, k, p);
  }

  // ------------------------------------------------------------ canonical form

  /** Enters Montgomery form: any n-limb number, reduced or not, becomes its residue. */
  method FromCanonical(a: seq<int>, f: FieldConstants) returns (r: seq<int>)
    requires ValidConstants(f) && Words(a, f.n)
    ensures Holds(r, Res(Val(a), Val(f.p)), f)
  {
    hide Pow, Val, Res;
    ghost var p, k := Val(f.p), Pow(WORD, f.n);
    CongRes(k * k, p);
    r := MontMul(a, f.r2, f.p, f.n0, f.n);
    CongMul(Val(a), Val(a), Val(f.r2), k * k, p);
    MulAssoc(Val(a), k, k);
    StripScale(Val(r), Val(a) * k, f);
    CongRes(Val(a), p);
    CongMul(Res(Val(a), p), Val(a), k, k, p);
  }

  function One(n: nat): (s: seq<int>)
    requires n > 0
    ensures |s| == n
  {
    [1] + Zeros(n - 1)
  }

  lemma OneVal(n: nat)
    requires n > 0
    ensures Words(One(n), n) && Val(One(n)) == 1
  {
    ValCons(One(n));
    assert One(n)[1..] == Zeros(n - 1);
    ZerosVal(n - 1);
  }

  /** Leaves Montgomery form: the limbs of the result spell the element itself. */
  method ToCanonical(a: seq<int>, f: FieldConstants, ghost x: int) returns (r: seq<int>)
    requires ValidConstants(f) && Holds(a, x, f)
    ensures Words(r, f.n) && Val(r) == x
  {
    hide Pow, Val, Res;
    OneVal(f.n);
    r := MontMul(a, One(f.n), f.p, f.n0, f.n);
    assert Val(a) * 1 == Val(a);
    StripScale(Val(r), x, f);
    ElementsEqual(Val(r), x, Val(f.p));
  }

  /** Through Montgomery form and back is reduction modulo p, hence the identity on canonical values. */
  method RoundTrip(a: seq<int>, f: FieldConstants) returns (r: seq<int>)
    requires ValidConstants(f) && Words(a, f.n)
    ensures Words(r, f.n) && Val(r) == Res(Val(a), Val(f.p))
    ensures Val(a) < Val(f.p) ==> Val(r) == Val(a)
  {
    hide Pow, Val, Res;
    var m := FromCanonical(a, f);
    r := ToCanonical(m, f, Res(Val(a), Val(f.p)));
    ValBound(a, f.n);
    if Val(a) < Val(f.p) {
      ResSmall(Val(a), Val(f.p));
    }
  }

  /** Compares limb by limb from the top. */
  method Less(a: seq<int>, b: seq<int>, n: nat) returns (less: bool)
    requires Words(a, n) && Words(b, n)
    ensures less <==> Val(a) < Val(b)
  {
    hide Pow, Val;
    var i := n;
    assert a[n..] == b[n..];
    while i > 0
      invariant 0 <= i <= n && a[i..] == b[i..]
    {
      i := i - 1;
      if a[i] != b[i] {
        TopDiffers(a, b, i, n);
        return a[i] < b[i];
      }
      assert a[i..] == [a[i]] + a[i + 1..] && b[i..] == [b[i]] + b[i + 1..];
    }
    assert a == a[0..] == b[0..] == b;
    less := false;
  }

  /** All limbs zero: the element is zero. */
  method IsZero(a: seq<int>, f: FieldConstants, ghost x: int) returns (zero: bool)
    requires ValidConstants(f) && Holds(a, x, f)
    ensures zero <==> x == 0
  {
    hide Pow, Val, Res;
    zero := true;
    for i := 0 to f.n
      invariant zero <==> forall q :: 0 <= q < i ==> a[q] == 0
    {
      zero := zero && a[i] == 0;
    }
    ZeroLimbs(a, f.n);
    ghost var k := Pow(WORD, f.n);
    ZerosVal(f.n);
    assert 0 * k == 0;
    ResSmall(0, Val(f.p));
    assert Holds(Zeros(f.n), 0, f);
    HoldsUnique(a, x, Zeros(f.n), 0, f);
  }

  /** Only the all-zero limbs spell zero. */
  lemma {:induction false} ZeroLimbs(a: seq<int>, n: nat)
    requires Words(a, n)
    ensures Val(a) == 0 <==> forall q :: 0 <= q < n ==> a[q] == 0
    decreases n
  {
    if n > 0 {
      ZeroLimbs(a[..n - 1], n - 1);
      ValBound(a[..n - 1], n - 1);
      WordPower(n - 1);
      MulNonneg(a[n - 1], Pow(WORD, n - 1));
      hide Pow;
      if a[n - 1] > 0 {
        MulMono(1, a[n - 1], Pow(WORD, n - 1));
      }
      assert a == a[..n - 1] + [a[n - 1]];
    }
  }

  /** The highest differing limb decides. */
  lemma {:induction false} TopDiffers(a: seq<int>, b: seq<int>, i: nat, n: nat)
    requires Words(a, n) && Words(b, n) && i < n && a[i] != b[i] && a[i + 1..] == b[i + 1..]
    ensures Val(a) < Val(b) <==> a[i] < b[i]
    ensures Val(a) != Val(b)
    decreases n
  {
    if i == n - 1 {
      ValBound(a[..i], i);
      ValBound(b[..i], i);
      DigitDecides(Val(a[..i]), a[i], Val(b[..i]), b[i], Pow(WORD, i));
    } else {
      assert a[n - 1] == a[i + 1..][n - 2 - i] == b[n - 1];
      assert a[..n - 1][i + 1..] == a[i + 1..][..n - 2 - i] == b[..n - 1][i + 1..];
      TopDiffers(a[..n - 1], b[..n - 1], i, n - 1);
    }
  }

  lemma DigitDecides(x: int, d: int, y: int, e: int, w: int)
    requires 0 <= x < w && 0 <= y < w && d != e
    ensures x + d * w < y + e * w <==> d < e
    ensures x + d * w != y + e * w
  {
    if d < e {
      MulMono(d + 1, e, w);
      MulDistrib(d, 1, w);
    } else {
      MulMono(e + 1, d, w);
      MulDistrib(e, 1, w);
    }
  }

  // ------------------------------------------------------------ inversion

  /** The value of the limbs from i up. */
  ghost function High(e: seq<int>, i: nat): int
    requires i <= |e|
  {
    Val(e[i..])
  }

  lemma HighStep(e: seq<int>, i: nat)
    requires i < |e|
    ensures High(e, i) == High(e, i + 1) * WORD + e[i]
  {
    ValCons(e[i..]);
    assert e[i..][1..] == e[i + 1..];
  }

  /** The exponent read so far: the higher limbs and the top 32 - b bits of limb i. */
  ghost function Prefix(e: seq<int>, i: nat, b: nat): int
    requires i < |e| && b <= 32 && e[i] >= 0
  {
    High(e, i + 1) * Pow2(32 - b) + Shr(e[i], b)
  }

  lemma {:induction false} ShrPow(x: nat, b: nat)
    requires x < Pow2(b)
    ensures Shr(x, b) == 0
  {
    ShrBound(x, b, b);
  }

  lemma {:induction false} ShrBound(x: nat, b: nat, c: nat)
    requires x < Pow2(c) && b <= c
    ensures Shr(x, b) < Pow2(c - b)
    decreases b
  {
    if b > 0 {
      ShrBound(x, b - 1, c);
      assert Pow2(c - b + 1) == 2 * Pow2(c - b);
    }
  }

  lemma PrefixStart(e: seq<int>, i: nat)
    requires i < |e| && 0 <= e[i] < WORD
    ensures Prefix(e, i, 32) == High(e, i + 1)
    ensures Prefix(e, i, 0) == High(e, i)
  {
    Pow2Pow(32);
    TwoTo32();
    ShrPow(e[i], 32);
    assert Pow2(0) == 1;
    HighStep(e, i);
  }

  lemma PrefixStep(e: seq<int>, i: nat, b: nat)
    requires i < |e| && b < 32 && e[i] >= 0
    ensures Prefix(e, i, b) == 2 * Prefix(e, i, b + 1) + Bit(e[i], b)
  {
    assert Pow2(32 - b) == 2 * Pow2(31 - b);
    MulLeftSwap(2, High(e, i + 1), Pow2(31 - b));
    assert Shr(e[i], b) == 2 * Shr(e[i], b + 1) + Bit(e[i], b);
  }

  /** acc is a to the exponent bits consumed; nothing has been accumulated while they are all zero. */
  ghost predicate PowerSoFar(acc: seq<int>, started: bool, a: seq<int>, x: int, e: int, f: FieldConstants)
    requires Val(f.p) > 0
  {
    if started then e > 0 && Holds(acc, Res(Pow(x, e), Val(f.p)), f) else e == 0 && acc == a
  }

  /** One exponent bit of the square-and-multiply loop. */
  method PowerBit(acc0: seq<int>, started0: bool, a: seq<int>, bit: nat, f: FieldConstants, ghost x: int, ghost e: int)
    returns (acc: seq<int>, started: bool)
    requires ValidConstants(f) && Holds(a, x, f) && bit <= 1 && e >= 0
    requires PowerSoFar(acc0, started0, a, x, e, f)
    ensures PowerSoFar(acc, started, a, x, 2 * e + bit, f)
  {
    hide Res, Pow, Val, Holds;
    ghost var p := Val(f.p);
    acc, started := acc0, started0;
    if started {
      acc := Mul(acc, acc, f, Res(Pow(x, e), p), Res(Pow(x, e), p));
      PowerProduct(x, e, e, p);
    }
    if bit != 0 {
      if started {
        AlreadyResidue(a, x, f);
        FirstPower(x);
        acc := Mul(acc, a, f, Res(Pow(x, 2 * e), p), x);
        PowerProduct(x, 2 * e, 1, p);
      } else {
        AlreadyResidue(a, x, f);
        FirstPower(x);
        acc := a;
        started := true;
      }
    }
  }

  lemma AlreadyResidue(a: seq<int>, x: int, f: FieldConstants)
    requires Val(f.p) > 0 && Holds(a, x, f)
    ensures x == Res(x, Val(f.p))
  {
    ResSmall(x, Val(f.p));
  }

  lemma PowerProduct(x: int, d: int, e: int, p: int)
    requires p > 0 && d >= 0 && e >= 0
    ensures FrMul(Res(Pow(x, d), p), Res(Pow(x, e), p), p) == Res(Pow(x, d + e), p)
  {
    hide Res, Pow;
    PowAdd(x, d, e);
    CongRes(Pow(x, d), p);
    CongRes(Pow(x, e), p);
    var u, v := Res(Pow(x, d), p), Res(Pow(x, e), p);
    CongMul(u, Pow(x, d), v, Pow(x, e), p);
    IsResidue(FrMul(u, v, p), Pow(x, d + e), p);
  }

  /** Inversion: the element raised to p - 2, read bit by bit from the limb table. */
  method Inv(a: seq<int>, f: FieldConstants, ghost x: int) returns (acc: seq<int>)
    requires ValidConstants(f) && Holds(a, x, f)
    ensures Holds(acc, FrInv(x, Val(f.p)), f)
  {
    hide Res, Pow, Holds, PowerSoFar, Prefix, High, Shr;
    var e := f.pMinus2;
    acc := a;
    var started := false;
    StartPower(a, x, f);
    var i := f.n;
    while i > 0
      invariant 0 <= i <= f.n
      invariant High(e, i) >= 0 && PowerSoFar(acc, started, a, x, High(e, i), f)
    {
      i := i - 1;
      PrefixStart(e, i);
      ValBound(e[i..], f.n - i);
      var b := 32;
      while b > 0
        invariant 0 <= b <= 32
        invariant Prefix(e, i, b) >= 0 && PowerSoFar(acc, started, a, x, Prefix(e, i, b), f)
      {
        b := b - 1;
        PrefixStep(e, i, b);
        acc, started := PowerBit(acc, started, a, Bit(e[i], b), f, x, Prefix(e, i, b + 1));
      }
      assert High(e, i) == Prefix(e, i, 0);
      HighNonneg(e, i, f.n);
    }
    FinishPower(acc, started, a, x, e, f);
  }

  lemma HighNonneg(e: seq<int>, i: nat, n: nat)
    requires Words(e, n) && i <= n
    ensures High(e, i) >= 0
  {
    ValBound(e[i..], n - i);
  }

  lemma StartPower(a: seq<int>, x: int, f: FieldConstants)
    requires ValidConstants(f)
    ensures High(f.pMinus2, f.n) == 0 && PowerSoFar(a, false, a, x, High(f.pMinus2, f.n), f)
  {
    assert f.pMinus2[f.n..] == [];
  }

  lemma FinishPower(acc: seq<int>, started: bool, a: seq<int>, x: int, e: seq<int>, f: FieldConstants)
    requires ValidConstants(f) && e == f.pMinus2 && PowerSoFar(acc, started, a, x, High(e, 0), f)
    ensures Holds(acc, FrInv(x, Val(f.p)), f)
  {
    assert e[0..] == e;
  }

  /** In Montgomery form the inverse really inverts, for every nonzero element. */
  lemma InvCorrect(x: int, f: FieldConstants)
    requires ValidConstants(f) && Element(x, Val(f.p)) && x != 0
    ensures FrMul(x, FrInv(x, Val(f.p)), Val(f.p)) == 1
  {
    hide Res, Pow, Val, FrInv, FrMul;
    var p := Val(f.p);
    ResSmall(x, p);
    ResSmall(0, p);
    InverseCancels(x, p);
    ElementsEqual(FrMul(x, FrInv(x, p), p), 1, p);
  }

  // ------------------------------------------------------------ the generated constants

  /** The limbs of x, least significant first; higher limbs are cut off. */
  function LimbsOf(x: nat, n: nat): (s: seq<int>)
    ensures |s| == n
  {
    if n == 0 then [] else DivNonneg(x, WORD); [x % WORD] + LimbsOf(x / WORD, n - 1)
  }

  lemma {:induction false} LimbsSpell(x: nat, n: nat)
    requires x < Pow(WORD, n)
    ensures Words(LimbsOf(x, n), n) && Val(LimbsOf(x, n)) == x
    decreases n
  {
    if n > 0 {
      DivNonneg(x, WORD);
      LimbsSpell(x / WORD, n - 1);
      ValCons(LimbsOf(x, n));
      assert LimbsOf(x, n)[1..] == LimbsOf(x / WORD, n - 1);
    }
  }

  /** The generated Montgomery constants hold the elements they were generated from. */
  lemma ToMontHolds(x: nat, f: FieldConstants)
    requires ValidConstants(f) && x < Val(f.p)
    ensures Res(x * Pow(WORD, f.n), Val(f.p)) >= 0 && Holds(LimbsOf(Res(x * Pow(WORD, f.n), Val(f.p)), f.n), x, f)
  {
    hide Res, Pow, Val;
    CongRes(x * Pow(WORD, f.n), Val(f.p));
    ValBound(f.p, f.n);
    LimbsSpell(Res(x * Pow(WORD, f.n), Val(f.p)), f.n);
  }


  /** -mod^(-1) mod 2^bits by ten Newton steps. */
  method N0(mod: int, bits: nat) returns (r: int)
    requires mod > 0
    ensures 0 <= r < Pow(2, bits)
    ensures (r * mod + 1) % Pow(2, bits) == 0 <==> Cong(Pow(1 - mod, 1024), 0, Pow(2, bits))
    ensures 1 <= bits <= 1024 ==> ((r * mod + 1) % Pow(2, bits) == 0 <==> mod % 2 == 1)
  {
    hide Res, Pow;
    var m := Pow(2, bits);
    PowPositive(2, bits);
    var inv := 1;
    ghost var e := 1;
    FirstPower(1 - mod);
    for k := 0 to 10
      invariant e == Pow2(k)
      invariant Cong(1 - mod * inv, Pow(1 - mod, e), m)
    {
      NewtonStep(mod, inv, e, m);
      inv := inv * (2 - mod * inv) % m;
      e := 2 * e;
    }
    assert Pow2(10) == 1024 by {
      assert Pow2(5) == 32;
      Pow2Add(5, 5);
    }
    r := -inv % m;
    DivNonneg(0, m);
    NegatedInverse(mod, inv, r, Pow(1 - mod, 1024), m);
    if 1 <= bits <= 1024 {
      if mod % 2 == 1 {
        NewtonEnough(mod, bits);
      } else {
        NewtonEvenFails(mod, bits);
      }
    }
  }

  /** The word inverse of an odd modulus is what the multiplication rows need to clear their low word. */
  lemma N0Clears(r: int, mod: int, p: seq<int>, n: nat)
    requires n > 0 && Words(p, n) && Val(p) == mod && 0 <= r < WORD && (r * mod + 1) % WORD == 0
    ensures ClearsLowWord(r, p)
  {
    hide Pow, Val;
    ValCons(p);
    var high := Val(p[1..]);
    var k := (r * mod + 1) / WORD;
    MulDistrib(p[0], WORD * high, r);
    MulLeftSwap(r, WORD, high);
    DivModUnique(r * p[0] + 1, WORD, k - r * high, 0);
  }

  /** Each step squares the error. */
  lemma NewtonStep(mod: int, inv: int, e: nat, m: int)
    requires m > 0 && Cong(1 - mod * inv, Pow(1 - mod, e), m)
    ensures Cong(1 - mod * (inv * (2 - mod * inv) % m), Pow(1 - mod, 2 * e), m)
  {
    hide Res, Pow;
    var y := mod * inv;
    var next := inv * (2 - y);
    CongResMod(next, m);
    CongMul(mod, mod, next % m, next, m);
    CongSub(1, 1, mod * (next % m), mod * next, m);
    assert 1 - mod * next == (1 - y) * (1 - y) by {
      MulAssoc(mod, inv, 2 - y);
      MulDistrib(2, y, y);
      MulDistrib(1, y, 1 - y);
    }
    CongMul(1 - y, Pow(1 - mod, e), 1 - y, Pow(1 - mod, e), m);
    PowAdd(1 - mod, e, e);
  }

  lemma CongResMod(a: int, m: int)
    requires m > 0
    ensures Cong(a % m, a, m) && 0 <= a % m < m
  {
    CongRes(a, m);
  }

  lemma NegatedInverse(mod: int, inv: int, r: int, err: int, m: int)
    requires m > 0 && r == -inv % m && Cong(1 - mod * inv, err, m)
    ensures 0 <= r < m
    ensures (r * mod + 1) % m == 0 <==> Cong(err, 0, m)
  {
    CongResMod(-inv, m);
    CongMul(r, -inv, mod, mod, m);
    CongAdd(r * mod, -inv * mod, 1, 1, m);
    assert -inv * mod + 1 == 1 - mod * inv;
    ResSmall(0, m);
  }

  /** For every odd modulus ten steps are enough up to 1024 bits. */
  lemma NewtonEnough(mod: int, bits: nat)
    requires mod > 0 && mod % 2 == 1 && bits <= 1024
    ensures Pow(2, bits) > 0 && Cong(Pow(1 - mod, 1024), 0, Pow(2, bits))
  {
    hide Res, Pow;
    PowPositive(2, bits);
    var h := (1 - mod) / 2;
    assert 1 - mod == 2 * h;
    PowMulBase(2, h, 1024);
    PowAdd(2, bits, 1024 - bits);
    MulAssoc(Pow(2, bits), Pow(2, 1024 - bits), Pow(h, 1024));
    var k := Pow(2, 1024 - bits) * Pow(h, 1024);
    assert Pow(1 - mod, 1024) == 0 + k * Pow(2, bits);
    CongIntro(Pow(1 - mod, 1024), 0, k, Pow(2, bits));
  }

  /** An even modulus has no inverse, and the iteration never pretends otherwise. */
  lemma NewtonEvenFails(mod: int, bits: nat)
    requires mod > 0 && mod % 2 == 0 && bits > 0
    ensures Pow(2, bits) > 0 && !Cong(Pow(1 - mod, 1024), 0, Pow(2, bits))
  {
    hide Res, Pow;
    PowPositive(2, bits);
    OddPower(1 - mod, 1024);
    if Cong(Pow(1 - mod, 1024), 0, Pow(2, bits)) {
      var k := CongElim(Pow(1 - mod, 1024), 0, Pow(2, bits));
      PowAdd(2, 1, bits - 1);
      FirstPower(2);
      MulLeftSwap(k, 2, Pow(2, bits - 1));
    }
  }

  lemma {:induction false} OddPower(a: int, e: nat)
    requires a % 2 == 1
    ensures Pow(a, e) % 2 == 1
  {
    if e > 0 {
      OddPower(a, e - 1);
      OddProduct(a, Pow(a, e - 1));
    }
  }

  lemma OddProduct(a: int, b: int)
    requires a % 2 == 1 && b % 2 == 1
    ensures a * b % 2 == 1
  {
    var x, y := a / 2, b / 2;
    OddTimesOdd(x, y);
    DivModUnique(a * b, 2, 2 * (x * y) + x + y, 1);
  }

  lemma OddTimesOdd(x: int, y: int)
    ensures (2 * x + 1) * (2 * y + 1) == 2 * (2 * (x * y) + x + y) + 1
  {
    MulDistrib(2 * x, 1, 2 * y + 1);
    MulDistrib(2 * y, 1, 2 * x);
    MulSwap(2, x, 2, y);
  }

  /** Beyond 1024 bits ten steps fall short for some odd modulus: 3 is one. */
  lemma NewtonFallsShort()
    ensures Pow(2, 1025) > 0 && !Cong(Pow(1 - 3, 1024), 0, Pow(2, 1025))
  {
    hide Res, Pow;
    PowPositive(2, 1025);
    PowMulBase(-1, 2, 1024);
    PowMinusOne(512);
    assert Pow(-2, 1024) == Pow(2, 1024);
    PowPositive(2, 1024);
    PowAdd(2, 1, 1024);
    FirstPower(2);
    ResSmall(Pow(2, 1024), Pow(2, 1025));
    ResSmall(0, Pow(2, 1025));
  }

  lemma {:induction false} PowMinusOne(k: nat)
    ensures Pow(-1, 2 * k) == 1
  {
    if k > 0 {
      PowMinusOne(k - 1);
      assert Pow(-1, 2 * k) == -1 * Pow(-1, 2 * k - 1);
      assert Pow(-1, 2 * k - 1) == -1 * Pow(-1, 2 * k - 2);
    }
  }
}
