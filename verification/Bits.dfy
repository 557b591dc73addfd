/** Powers of two, bit reversal and binary logarithm on unsigned words. */
module Bits {
  import opened Modular

  function Pow2(k: nat): (r: nat)
    ensures r > 0
  {
    if k == 0 then 1 else 2 * Pow2(k - 1)
  }

  lemma {:induction false} Pow2Pow(k: nat)
    ensures Pow2(k) == Pow(2, k)
  {
    if k > 0 {
      Pow2Pow(k - 1);
    }
  }

  lemma {:induction false} Pow2Add(a: nat, b: nat)
    ensures Pow2(a + b) == Pow2(a) * Pow2(b)
  {
    if a > 0 {
      Pow2Add(a - 1, b);
      MulAssoc(2, Pow2(a - 1), Pow2(b));
    }
  }

  /** The low `bits` bits of x in reverse order (bitfieldReverse(x) >> (32 - bits)). */
  function Brev(x: nat, bits: nat): (r: nat)
    ensures r < Pow2(bits)
  {
    if bits == 0 then 0 else x % 2 * Pow2(bits - 1) + Brev(x / 2, bits - 1)
  }

  /** Reversing a + b bits reverses the two fields and swaps them. */
  lemma {:induction false} BrevFields(hi: nat, lo: nat, a: nat, b: nat)
    requires lo < Pow2(b)
    ensures Brev(hi * Pow2(b) + lo, a + b) == Brev(lo, b) * Pow2(a) + Brev(hi, a)
    decreases b
  {
    if b > 0 {
      BrevUnfold(lo, b);
      hide Brev, Pow2;
      BrevFields(hi, lo / 2, a, b - 1);
      BrevFieldsStep(hi, lo, a, b);
    } else {
      assert Pow2(0) == 1;
    }
  }

  /** One more bit in the low field. */
  lemma BrevFieldsStep(hi: nat, lo: nat, a: nat, b: nat)
    requires b > 0 && Brev(hi * Pow2(b - 1) + lo / 2, a + b - 1) == Brev(lo / 2, b - 1) * Pow2(a) + Brev(hi, a)
    ensures Brev(hi * Pow2(b) + lo, a + b) == Brev(lo, b) * Pow2(a) + Brev(hi, a)
  {
    hide Brev, Pow2;
    var x := hi * Pow2(b) + lo;
    FieldsHalve(hi, lo, b);
    BrevUnfold(x, a + b);
    BrevUnfold(lo, b);
    Pow2Add(b - 1, a);
    assert b - 1 + a == a + b - 1;
    FieldsRegroup(lo % 2, Pow2(b - 1), Pow2(a), Brev(lo / 2, b - 1), Brev(hi, a));
  }

  lemma FieldsRegroup(bit: int, h: int, w: int, q: int, r: int)
    ensures bit * (h * w) + (q * w + r) == (bit * h + q) * w + r
  {
    MulAssoc(bit, h, w);
    MulDistrib(bit * h, q, w);
  }

  lemma FieldsHalve(hi: nat, lo: nat, b: nat)
    requires b > 0
    ensures (hi * Pow2(b) + lo) / 2 == hi * Pow2(b - 1) + lo / 2 && (hi * Pow2(b) + lo) % 2 == lo % 2
  {
    assert Pow2(b) == 2 * Pow2(b - 1);
    hide Pow2;
    MulLeftSwap(hi, 2, Pow2(b - 1));
    HalfOfEvenPlus(hi * Pow2(b - 1), lo);
  }

  lemma BrevUnfold(x: nat, bits: nat)
    requires bits > 0
    ensures Brev(x, bits) == x % 2 * Pow2(bits - 1) + Brev(x / 2, bits - 1) && Pow2(bits) == 2 * Pow2(bits - 1)
  {
  }

  lemma HalfOfEvenPlus(y: nat, lo: nat)
    ensures (2 * y + lo) / 2 == y + lo / 2 && (2 * y + lo) % 2 == lo % 2
  {
  }

  lemma BrevTop(hi: nat, lo: nat, bits: nat)
    requires bits > 0 && hi < 2 && lo < Pow2(bits - 1)
    ensures Brev(hi * Pow2(bits - 1) + lo, bits) == 2 * Brev(lo, bits - 1) + hi
  {
    BrevFields(hi, lo, 1, bits - 1);
    assert Pow2(1) == 2 && Brev(hi, 1) == hi;
  }

  /** Bit reversal undoes itself. */
  lemma {:induction false} BrevInvolution(x: nat, bits: nat)
    requires x < Pow2(bits)
    ensures Brev(Brev(x, bits), bits) == x
  {
    if bits > 0 {
      var b, y := x % 2, Brev(x / 2, bits - 1);
      BrevInvolution(x / 2, bits - 1);
      BrevTop(b, y, bits);
      assert Brev(x, bits) == b * Pow2(bits - 1) + y;
      hide Brev, Pow2;
    }
  }

  lemma BrevInjective(x: nat, y: nat, bits: nat)
    requires x < Pow2(bits) && y < Pow2(bits) && Brev(x, bits) == Brev(y, bits)
    ensures x == y
  {
    BrevInvolution(x, bits);
    BrevInvolution(y, bits);
  }

  // ------------------------------------------------------------ bitwise or

  /** Bitwise or of two words. */
  function Or(a: nat, b: nat): nat
    decreases a + b
  {
    if a == 0 && b == 0 then 0
    else (if a % 2 == 1 || b % 2 == 1 then 1 else 0) + 2 * Or(a / 2, b / 2)
  }

  lemma {:induction false} OrZero(a: nat)
    ensures Or(a, 0) == a && Or(0, a) == a
  {
    if a > 0 {
      OrZero(a / 2);
    }
  }

  /** Or-ing a field into the bits above it is addition. */
  lemma {:induction false} OrDisjoint(hi: nat, lo: nat, k: nat)
    requires lo < Pow2(k)
    ensures Or(hi * Pow2(k), lo) == hi * Pow2(k) + lo && Or(lo, hi * Pow2(k)) == hi * Pow2(k) + lo
    decreases k
  {
    if k == 0 {
      OrZero(hi);
      assert hi * Pow2(0) == hi;
    } else {
      var h := hi * Pow2(k - 1);
      assert hi * Pow2(k) == 2 * h by {
        MulLeftSwap(hi, 2, Pow2(k - 1));
      }
      OrDisjoint(hi, lo / 2, k - 1);
      hide Pow2;
      assert 2 * h / 2 == h && 2 * h % 2 == 0;
    }
  }

  // ------------------------------------------------------------ host helpers

  /** The least r with n <= 2^r. */
  function CeilLog2(n: nat): (r: nat)
    ensures n <= Pow2(r) && (r > 0 ==> Pow2(r - 1) < n)
  {
    if n <= 1 then 0 else 1 + CeilLog2((n + 1) / 2)
  }

  method ILog2(n: nat) returns (r: nat)
    ensures n <= Pow2(r) && (r > 0 ==> Pow2(r - 1) < n)
    ensures r == CeilLog2(n)
  {
    r := 0;
    while Pow2(r) < n
      invariant r > 0 ==> Pow2(r - 1) < n
      decreases n - Pow2(r)
    {
      r := r + 1;
    }
    LogUnique(n, r, CeilLog2(n));
  }

  lemma {:induction false} Pow2Mono(a: nat, b: nat)
    requires a <= b
    ensures Pow2(a) <= Pow2(b)
    decreases b
  {
    if a < b {
      Pow2Mono(a, b - 1);
    }
  }

  lemma LogUnique(n: nat, r: nat, s: nat)
    requires n <= Pow2(r) && (r > 0 ==> Pow2(r - 1) < n)
    requires n <= Pow2(s) && (s > 0 ==> Pow2(s - 1) < n)
    ensures r == s
  {
    if r < s {
      Pow2Mono(r, s - 1);
    } else if s < r {
      Pow2Mono(s, r - 1);
    }
  }

  lemma {:induction false} LogOfPow2(k: nat)
    ensures CeilLog2(Pow2(k)) == k
  {
    hide CeilLog2;
    LogUnique(Pow2(k), k, CeilLog2(Pow2(k)));
  }

  /** x >> b. */
  function Shr(x: nat, b: nat): nat {
    if b == 0 then x else Shr(x, b - 1) / 2
  }

  /** (x >> b) & 1. */
  function Bit(x: nat, b: nat): nat {
    Shr(x, b) % 2
  }

  lemma {:induction false} ShrStep(x: nat, b: nat)
    ensures Shr(x, b + 1) == Shr(x / 2, b)
  {
    if b > 0 {
      ShrStep(x, b - 1);
    }
  }

  /** Shifting out part of the lower of two fields. */
  lemma {:induction false} ShrFields(hi: nat, lo: nat, k: nat, j: nat)
    requires j <= k && lo < Pow2(k)
    ensures Shr(hi * Pow2(k) + lo, j) == hi * Pow2(k - j) + Shr(lo, j) && Shr(lo, j) < Pow2(k - j)
    decreases j
  {
    hide Pow2, Shr;
    if j == 0 {
      NoShift(hi * Pow2(k) + lo);
      NoShift(lo);
    } else {
      ShrFields(hi, lo, k, j - 1);
      BrevUnfold(0, k - (j - 1));
      MulLeftSwap(hi, 2, Pow2(k - j));
      HalfOfEvenPlus(hi * Pow2(k - j), Shr(lo, j - 1));
      BitIs(hi * Pow2(k) + lo, j - 1);
      BitIs(lo, j - 1);
    }
  }

  lemma NoShift(x: nat)
    ensures Shr(x, 0) == x
  {
  }

  /** The bits of the upper field follow those of the lower. */
  lemma FieldBits(hi: nat, lo: nat, k: nat, j: nat)
    requires j <= k && lo < Pow2(k)
    ensures Bit(hi * Pow2(k) + lo, j) == if j == k then hi % 2 else Bit(lo, j)
  {
    hide Shr, Pow2;
    ShrFields(hi, lo, k, j);
    if j == k {
      OneIsPow2();
    } else {
      Pow2Add(1, k - j - 1);
      TwoIsPow2();
      MulLeftSwap(hi, 2, Pow2(k - j - 1));
      HalfOfEvenPlus(hi * Pow2(k - j - 1), Shr(lo, j));
    }
  }

  lemma OneIsPow2()
    ensures Pow2(0) == 1
  {
  }

  lemma TwoIsPow2()
    ensures Pow2(1) == 2
  {
  }

  lemma BitStep(x: nat, j: nat)
    ensures Bit(x, j + 1) == Bit(x / 2, j) && Bit(x, 0) == x % 2
  {
    ShrStep(x, j);
  }

  /** Bit j of the reversal is the bit as far from the other end. */
  lemma {:induction false} BrevBits(x: nat, bits: nat, j: nat)
    requires j < bits
    ensures Bit(Brev(x, bits), j) == Bit(x, bits - 1 - j)
    decreases bits
  {
    hide Shr, Bit, Pow2, Brev;
    BrevUnfold(x, bits);
    FieldBits(x % 2, Brev(x / 2, bits - 1), bits - 1, j);
    BitStep(x, bits - 1 - j);
    if j < bits - 1 {
      BrevBits(x / 2, bits - 1, j);
      BitStep(x, bits - 2 - j);
    }
  }

  /** Every bit of an or is the or of the bits. */
  lemma {:induction false} OrBits(a: nat, b: nat, j: nat)
    ensures Bit(Or(a, b), j) == if Bit(a, j) == 1 || Bit(b, j) == 1 then 1 else 0
    decreases j
  {
    assert Or(a, b) / 2 == Or(a / 2, b / 2);
    if j > 0 {
      OrBits(a / 2, b / 2, j - 1);
      ShrStep(a, j - 1);
      ShrStep(b, j - 1);
      ShrStep(Or(a, b), j - 1);
    }
  }

  /** The 7-bit reversal of a cell index, or-ed together bit by bit. */
  method BrevCell(i: nat) returns (r: nat)
    ensures r == Brev(i, 7)
  {
    hide Pow2, Or, Bit;
    r := 0;
    ghost var top := 0;
    for b := 0 to 7
      invariant Brev(i, 7) == r + Brev(Shr(i, b), 7 - b)
      invariant top >= 0 && r == top * Pow2(7 - b)
    {
      BitIs(i, b);
      OrBit(top, Bit(i, b), 6 - b);
      r := Or(r, Bit(i, b) * Pow2(6 - b));
      top := 2 * top + Bit(i, b);
    }
  }

  lemma BitIs(i: nat, b: nat)
    ensures Bit(i, b) == Shr(i, b) % 2 < 2 && Shr(i, b + 1) == Shr(i, b) / 2
  {
  }

  lemma OrBit(top: nat, bit: nat, k: nat)
    requires bit < 2
    ensures Or(top * Pow2(k + 1), bit * Pow2(k)) == top * Pow2(k + 1) + bit * Pow2(k)
    ensures top * Pow2(k + 1) + bit * Pow2(k) == (2 * top + bit) * Pow2(k)
  {
    MulMono(bit, 1, Pow2(k));
    assert Pow2(k + 1) == 2 * Pow2(k);
    OrDisjoint(top, bit * Pow2(k), k + 1);
    MulAssoc(top, 2, Pow2(k));
    MulDistrib(2 * top, bit, Pow2(k));
  }
}
