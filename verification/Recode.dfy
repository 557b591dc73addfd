/** Signed-digit recoding of a scalar: 32 digits in [-127, 128] to base 256, and the packed form in
    which the bucket sort stores a digit. */
module Recode {
  import opened Modular
  import opened Bits
  import opened Limbs

  const NUM_BUCKETS: nat := 128
  const NUM_DIGITS: nat := 32

  /** Byte d of the limbs, shifted and masked out of its word. */
  function ByteAt(scalar: seq<int>, d: nat): int
    requires d / 4 < |scalar|
  {
    var w := scalar[d / 4];
    if d % 4 == 0 then w % 0x100
    else if d % 4 == 1 then w / 0x100 % 0x100
    else if d % 4 == 2 then w / 0x1_0000 % 0x100
    else w / 0x100_0000 % 0x100
  }

  /** The digit for a byte plus incoming carry: past half the window it borrows from the next digit. */
  function Digit(x: int): int {
    if x > NUM_BUCKETS then x - 2 * NUM_BUCKETS else x
  }

  /** The carry into digit d. */
  function CarryIn(scalar: seq<int>, d: nat): (c: int)
    requires d <= 4 * |scalar|
    ensures 0 <= c <= 1
  {
    if d == 0 then 0
    else if ByteAt(scalar, d - 1) + CarryIn(scalar, d - 1) > NUM_BUCKETS then 1 else 0
  }

  function DigitAt(scalar: seq<int>, d: nat): int
    requires d / 4 < |scalar|
  {
    Digit(ByteAt(scalar, d) + CarryIn(scalar, d))
  }

  /** One call of the recoder, threading the carry. */
  method RecodeDigit(scalar: seq<int>, dd: nat, carry: int) returns (v: int, carryOut: int)
    requires dd / 4 < |scalar| && carry == CarryIn(scalar, dd)
    ensures v == DigitAt(scalar, dd) && carryOut == CarryIn(scalar, dd + 1)
  {
    v := ByteAt(scalar, dd) + carry;
    carryOut := 0;
    if v > NUM_BUCKETS {
      v := v - 2 * NUM_BUCKETS;
      carryOut := 1;
    }
  }

  /** The number spelled by the low n bytes. */
  ghost function LowBytes(scalar: seq<int>, n: nat): int
    requires n <= 4 * |scalar|
  {
    if n == 0 then 0 else LowBytes(scalar, n - 1) + ByteAt(scalar, n - 1) * Pow(256, n - 1)
  }

  /** The number spelled by the low n digits. */
  ghost function DigitSum(scalar: seq<int>, n: nat): int
    requires n <= 4 * |scalar|
  {
    if n == 0 then 0 else DigitSum(scalar, n - 1) + DigitAt(scalar, n - 1) * Pow(256, n - 1)
  }

  lemma DigitRange(scalar: seq<int>, d: nat)
    requires d / 4 < |scalar|
    ensures -127 <= DigitAt(scalar, d) <= 128
  {
    var w := scalar[d / 4];
    assert 0 <= ByteAt(scalar, d) < 256;
  }

  /** Threading the carry conserves the scalar: digits plus outgoing carry spell the bytes consumed. */
  lemma {:induction false} RecodeConserves(scalar: seq<int>, n: nat)
    requires n <= 4 * |scalar|
    ensures DigitSum(scalar, n) + CarryIn(scalar, n) * Pow(256, n) == LowBytes(scalar, n)
  {
    if n > 0 {
      RecodeConserves(scalar, n - 1);
      hide Pow, ByteAt;
      var x, c, c', w := ByteAt(scalar, n - 1), CarryIn(scalar, n - 1), CarryIn(scalar, n), Pow(256, n - 1);
      assert DigitAt(scalar, n - 1) == x + c - 256 * c';
      MulDistrib(x, c - 256 * c', w);
      MulDistrib(c, 256 * c', w);
      MulAssoc(256, c', w);
      MulAssoc(c', 256, w);
      PowerOf256(n - 1);
    }
  }

  lemma PowerOf256(n: nat)
    ensures Pow(256, n + 1) == 256 * Pow(256, n) && Pow(256, n) > 0
  {
    PowPositive(256, n);
  }

  /** The digits alone stay within the range an all-minimal or all-maximal digit string spells. */
  lemma {:induction false} DigitSumBounds(scalar: seq<int>, n: nat)
    requires n <= 4 * |scalar|
    ensures -127 * (Pow(256, n) - 1) <= 255 * DigitSum(scalar, n) <= 128 * (Pow(256, n) - 1)
  {
    if n > 0 {
      DigitSumBounds(scalar, n - 1);
      DigitRange(scalar, n - 1);
      hide Pow, DigitAt;
      var w := Pow(256, n - 1);
      PowerOf256(n - 1);
      MulMono(-127, DigitAt(scalar, n - 1), w);
      MulMono(DigitAt(scalar, n - 1), 128, w);
    } else {
      assert Pow(256, 0) == 1;
    }
  }

  /** No carry is left over exactly when the scalar is at most the number with every digit 128. */
  lemma NoFinalCarry(scalar: seq<int>, n: nat)
    requires n <= 4 * |scalar|
    ensures CarryIn(scalar, n) == 0 <==> 255 * LowBytes(scalar, n) <= 128 * (Pow(256, n) - 1)
  {
    hide Pow, DigitSum, LowBytes;
    RecodeConserves(scalar, n);
    DigitSumBounds(scalar, n);
    PowerOf256(n);
  }

  lemma OneMoreByte(scalar: seq<int>, n: nat)
    requires n < 4 * |scalar|
    ensures LowBytes(scalar, n + 1) == LowBytes(scalar, n) + ByteAt(scalar, n) * Pow(256, n)
    ensures Pow(256, n + 1) == 256 * Pow(256, n)
  {
  }

  lemma BytesOfWord(scalar: seq<int>, m: nat)
    requires Words(scalar, |scalar|) && m < |scalar|
    ensures scalar[m] == ByteAt(scalar, 4 * m) + 0x100 * ByteAt(scalar, 4 * m + 1)
      + 0x1_0000 * ByteAt(scalar, 4 * m + 2) + 0x100_0000 * ByteAt(scalar, 4 * m + 3)
  {
    WordBytes(scalar[m]);
  }

  lemma FourMore(scalar: seq<int>, m: nat)
    requires Words(scalar, |scalar|) && m < |scalar|
    ensures LowBytes(scalar, 4 * m + 4) == LowBytes(scalar, 4 * m) + scalar[m] * Pow(256, 4 * m)
  {
    hide Pow, LowBytes, ByteAt, Words;
    var n := 4 * m;
    BytesOfWord(scalar, m);
    OneMoreByte(scalar, n);
    OneMoreByte(scalar, n + 1);
    OneMoreByte(scalar, n + 2);
    OneMoreByte(scalar, n + 3);
    FourDigits(ByteAt(scalar, n), ByteAt(scalar, n + 1), ByteAt(scalar, n + 2), ByteAt(scalar, n + 3), Pow(256, n));
  }

  lemma FourDigits(b0: int, b1: int, b2: int, b3: int, p: int)
    ensures b0 * p + b1 * (256 * p) + b2 * (256 * (256 * p)) + b3 * (256 * (256 * (256 * p)))
         == (b0 + 0x100 * b1 + 0x1_0000 * b2 + 0x100_0000 * b3) * p
  {
    MulDistrib(b0, 0x100 * b1, p);
    MulDistrib(b0 + 0x100 * b1, 0x1_0000 * b2, p);
    MulDistrib(b0 + 0x100 * b1 + 0x1_0000 * b2, 0x100_0000 * b3, p);
    MulLeftSwap(b1, 256, p);
    MulLeftSwap(b2, 0x1_0000, p);
    MulLeftSwap(b3, 0x100_0000, p);
    MulAssoc(0x100, b1, p);
    MulAssoc(0x1_0000, b2, p);
    MulAssoc(0x100_0000, b3, p);
  }

  lemma {:induction false} BytesSpellLimbs(scalar: seq<int>, m: nat)
    requires Words(scalar, |scalar|) && m <= |scalar|
    ensures LowBytes(scalar, 4 * m) == Val(scalar[..m])
  {
    if m > 0 {
      BytesSpellLimbs(scalar, m - 1);
      hide Pow, Val, LowBytes;
      FourMore(scalar, m - 1);
      ValSnoc(scalar, m - 1);
      BytesPerWord(m - 1);
    }
  }

  /** For every scalar below 2^255, that is with 2 * scalar < 2^256, the 32 digits spell it and no 33rd is needed. */
  lemma RecodeScalar(scalar: seq<int>)
    requires Words(scalar, 8) && 2 * Val(scalar) < Pow(WORD, 8)
    ensures DigitSum(scalar, NUM_DIGITS) == Val(scalar) && CarryIn(scalar, NUM_DIGITS) == 0
  {
    hide Pow, Val, DigitSum, LowBytes;
    BytesSpellLimbs(scalar, 8);
    assert scalar[..8] == scalar;
    BytesPerWord(8);
    NoFinalCarry(scalar, NUM_DIGITS);
    RecodeConserves(scalar, NUM_DIGITS);
    PowerOf256(NUM_DIGITS);
    assert LowBytes(scalar, NUM_DIGITS) == Val(scalar) && Pow(256, NUM_DIGITS) == Pow(WORD, 8);
    assert CarryIn(scalar, NUM_DIGITS) == 0;
    assert 0 * Pow(256, NUM_DIGITS) == 0;
  }

  // ------------------------------------------------------------ packed items

  /** Term, digit position and sign in one number. */
  function Pack(tid: nat, dd: nat, v: int): (c: nat)
    requires tid < 64 && dd < NUM_DIGITS
    ensures c < 0x1_0000
  {
    tid * 64 + dd * 2 + if v < 0 then 1 else 0
  }

  /** (tid << 6) | (dd << 1) | neg. */
  function PackItem(tid: nat, dd: nat, neg: nat): nat {
    Or(Or(tid * 64, dd * 2), neg)
  }

  lemma FieldShifts()
    ensures Pow2(6) == 64 && Pow2(1) == 2
  {
    assert Pow2(3) == 8;
    Pow2Add(3, 3);
  }

  /** The fields do not overlap. */
  lemma PackItemIs(tid: nat, dd: nat, v: int)
    requires tid < 64 && dd < NUM_DIGITS
    ensures PackItem(tid, dd, if v < 0 then 1 else 0) == Pack(tid, dd, v)
  {
    hide Or, Pow2;
    FieldShifts();
    OrDisjoint(tid, dd * 2, 6);
    OrDisjoint(tid * 32 + dd, if v < 0 then 1 else 0, 1);
  }

  /** The packing fits sixteen bits and decodes to exactly one term, digit and sign. */
  lemma PackDecodes(tid: nat, dd: nat, v: int)
    requires tid < 64 && dd < NUM_DIGITS
    ensures var c := Pack(tid, dd, v); c / 64 == tid && c / 2 % 32 == dd && (c % 2 == 1 <==> v < 0)
  {
  }
}
