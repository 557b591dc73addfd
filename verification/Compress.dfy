/** The 48-byte compressed encoding of points: big-endian x with the compression, infinity and sign
    flags in the top bits, as in the ZCash serialization of BLS12-381 (Appendix C of
    draft-irtf-cfrg-pairing-friendly-curves), and the reversed placement of the proofs. */
module Compress {
  import opened Modular
  import opened Bits
  import opened Field
  import opened Dispatch
  import opened Curve
  import opened CellBytes
  import L = Limbs
  import M = Montgomery

  const FP_LIMBS: nat := 12
  const PROOF_BYTES: nat := 48
  const AFFINE_WORDS: nat := 24
  const PROOFS: nat := 128

  // ------------------------------------------------------------ the encoding

  /** The canonical y above (p - 1) / 2. */
  ghost predicate LexLargest(y: int, p: int) {
    y > (p - 1) / 2
  }

  function Flags(largest: bool): int {
    if largest then 0xa0 else 0x80
  }

  ghost function Encode(q: AffinePair, p: int): (s: seq<int>)
    ensures |s| == PROOF_BYTES
  {
    if q.x == 0 && q.y == 0 then [0xc0] + seq(PROOF_BYTES - 1, _ => 0)
    else
      var x := BytesOf(q.x, PROOF_BYTES);
      [x[0] + Flags(LexLargest(q.y, p))] + x[1..]
  }

  /** The modulus leaves the three top bits of the first byte free. */
  ghost predicate FlagRoom(p: int) {
    p <= 0x20 * Pow(256, PROOF_BYTES - 1)
  }

  lemma {:induction false} TopByte(x: int, n: nat, t: int)
    requires 0 < t <= 256 && 0 <= x < t * Pow(256, n)
    ensures 0 <= BytesOf(x, n + 1)[0] < t
    decreases n
  {
    if n == 0 {
      assert Pow(256, 0) == 1;
      assert BytesOf(x, 1) == BytesOf(x / 256, 0) + [x % 256];
    } else {
      DivNonneg(x, 256);
      assert Pow(256, n) == 256 * Pow(256, n - 1);
      MulLeftSwap(t, 256, Pow(256, n - 1));
      TopByte(x / 256, n - 1, t);
      assert BytesOf(x, n + 1)[0] == BytesOf(x / 256, n)[0];
    }
  }

  /** The flags land on zero bits: or-ing them in is addition, and the byte still fits. */
  lemma FlagsDisjoint(byte: nat, largest: bool)
    requires byte < 0x20
    ensures Or(byte, Flags(largest)) == byte + Flags(largest) < 256
    ensures Or(0x80, 0x20) == 0xa0
  {
    assert Pow2(5) == 32;
    OrDisjoint(if largest then 5 else 4, byte, 5);
    OrDisjoint(4, 0x20, 7) by {
      Pow2Add(5, 2);
      assert Pow2(2) == 4;
    }
    Pow2Add(5, 2);
    assert Pow2(2) == 4;
  }

  // ------------------------------------------------------------ the decoder of the format

  /** Some other point of the curve has the same x and a smaller y. */
  ghost predicate LargerRoot(a: Affine, b: int, p: int)
    requires p > 0
  {
    a.Point? && exists z: int :: z < a.y && OnCurve(Point(a.x, z), b, p)
  }

  /** s is a valid encoding of the curve point a: compression flag set; for infinity nothing but its flag;
      otherwise x in the low 381 bits and the sign flag set exactly for the larger of two square roots. */
  ghost predicate Decodes(s: seq<int>, a: Affine, b: int, p: int)
    requires p > 0
  {
    && Bytes(s, PROOF_BYTES) && s[0] >= 0x80 && OnCurve(a, b, p)
    && if s[0] / 0x40 % 2 == 1 then a == Infinity && s == [0xc0] + seq(PROOF_BYTES - 1, _ => 0)
       else a.Point? && a.x == BigEndian([s[0] % 0x20] + s[1..]) && (s[0] / 0x20 % 2 == 1 <==> LargerRoot(a, b, p))
  }

  lemma PointEncoding(x: int, p: int)
    requires Element(x, p) && FlagRoom(p)
    ensures var s := BytesOf(x, PROOF_BYTES); Bytes(s, PROOF_BYTES) && s[0] < 0x20 && BigEndian(s) == x
  {
    hide Pow, BytesOf, BigEndian;
    var w := Pow(256, PROOF_BYTES - 1);
    assert Pow(256, PROOF_BYTES) == 256 * w by { PowStep(PROOF_BYTES - 1); }
    PowPositive(256, PROOF_BYTES - 1);
    SpellBytes(x, PROOF_BYTES);
    TopByte(x, PROOF_BYTES - 1, 0x20);
  }

  lemma PowStep(n: nat)
    ensures Pow(256, n + 1) == 256 * Pow(256, n)
  {
  }

  /** Comparing with (p - 1) / 2 finds the larger of y and p - y; these differ, so exactly one of them carries
      the sign. */
  lemma LexLargestIs(y: int, p: int)
    requires 0 < y < p && p % 2 == 1
    ensures LexLargest(y, p) <==> y > p - y
    ensures LexLargest(y, p) <==> !LexLargest(p - y, p)
  {
  }

  lemma OddPrime(p: int)
    requires IsPrime(p) && p > 3
    ensures p % 2 == 1
  {
    assert p % 2 != 0;
  }

  /** On the curve the comparison tells whether another root is smaller. */
  lemma LargestIsLargerRoot(a: Affine, b: int, p: int)
    requires IsPrime(p) && p > 3 && OnCurve(a, b, p) && a.Point?
    ensures LexLargest(a.y, p) <==> LargerRoot(a, b, p)
  {
    hide Res, IsPrime, LexLargest;
    OddPrime(p);
    if a.y == 0 {
      assert !LexLargest(0, p) by { ZeroNotLargest(p); }
    } else {
      LexLargestIs(a.y, p);
      NegOnCurve(a, b, p);
      NegIsDifference(a.y, p);
      if z :| z < a.y && OnCurve(Point(a.x, z), b, p) {
        SameX(Point(a.x, z), a, b, p);
        SumIsModulus(z, a.y, p);
      }
    }
  }

  lemma ZeroNotLargest(p: int)
    requires p > 0
    ensures !LexLargest(0, p)
  {
  }

  lemma NegIsDifference(y: int, p: int)
    requires 0 < y < p
    ensures FrNeg(y, p) == p - y
  {
    ResSmall(p - y, p);
  }

  lemma SumIsModulus(y: int, z: int, p: int)
    requires p > 0 && Element(y, p) && Element(z, p) && y != z && FrAdd(y, z, p) == 0
    ensures y + z == p && y > 0
  {
    var k := CongElim(y + z, 0, p) by {
      hide Res;
      ResSmall(0, p);
      TrackAdd(y, y, z, z, p);
    }
    assert 0 < k * p < 2 * p;
    if k <= 0 {
      MulMono(k, 0, p);
    } else if k >= 2 {
      MulMono(2, k, p);
    }
  }

  /** What the kernel writes is a valid encoding of the point it was given. */
  lemma EncodeDecodes(q: AffinePair, a: Affine, b: int, p: int)
    requires IsPrime(p) && p > 3 && FlagRoom(p) && PairRepresents(q, a, p) && OnCurve(a, b, p)
    ensures Decodes(Encode(q, p), a, b, p)
  {
    hide Pow, Res, IsPrime, LexLargest, LargerRoot;
    if a.Point? {
      LargestIsLargerRoot(a, b, p);
      PointEncoding(q.x, p);
      var x := BytesOf(q.x, PROOF_BYTES);
      var s := Encode(q, p);
      assert s[1..] == x[1..];
      var f := Flags(LexLargest(q.y, p));
      FlagBits(x[0], LexLargest(q.y, p));
      assert [x[0]] + x[1..] == x;
      assert Bytes(s, PROOF_BYTES) by {
        forall i | 0 <= i < PROOF_BYTES ensures 0 <= s[i] < 256 {
          if i > 0 {
            assert s[i] == x[i];
          }
        }
      }
    }
  }

  lemma {:induction false} BytesArePowers(n: nat)
    ensures Pow(256, n) == Pow2(8 * n)
  {
    if n > 0 {
      BytesArePowers(n - 1);
      Pow2Add(8, 8 * (n - 1));
      ByteShifts();
    }
  }

  /** The flags are the top three bits of the 384-bit number the bytes spell: 383 on every encoding, 382 on that of
      infinity, 381 where y exceeds p - y. */
  lemma EncodedNumber(q: AffinePair, p: int)
    requires p % 2 == 1 && Element(q.x, p) && Element(q.y, p)
    requires FlagRoom(p)
    ensures BigEndian(Encode(q, p)) ==
      if q.x == 0 && q.y == 0 then Pow2(383) + Pow2(382)
      else q.x + Pow2(383) + if q.y > p - q.y then Pow2(381) else 0
  {
    hide Pow, Pow2, Res, BytesOf, BigEndian;
    TopBits();
    if q.x == 0 && q.y == 0 {
      LeadingByte([0], seq(PROOF_BYTES - 1, _ => 0), 0xc0);
      ZeroBytes(PROOF_BYTES);
      assert [0] + seq(PROOF_BYTES - 1, _ => 0) == seq(PROOF_BYTES, _ => 0);
    } else {
      PointEncoding(q.x, p);
      var x := BytesOf(q.x, PROOF_BYTES);
      LeadingByte([x[0]], x[1..], Flags(LexLargest(q.y, p)));
      assert [x[0]] + x[1..] == x;
      if q.y > 0 {
        LexLargestIs(q.y, p);
      }
    }
  }

  lemma TopBits()
    ensures var w := Pow(256, PROOF_BYTES - 1);
      0x80 * w == Pow2(383) && 0xc0 * w == Pow2(383) + Pow2(382) && 0xa0 * w == Pow2(383) + Pow2(381)
  {
    hide Pow, Pow2;
    BytesArePowers(47);
    SmallPowers();
    Pow2Add(7, 376);
    Pow2Add(6, 376);
    Pow2Add(5, 376);
  }

  lemma SmallPowers()
    ensures Pow2(5) == 0x20 && Pow2(6) == 0x40 && Pow2(7) == 0x80
  {
    assert Pow2(3) == 8;
    Pow2Add(3, 2);
    Pow2Add(3, 3);
    Pow2Add(3, 4);
  }

  /** Adding to the leading byte adds at its weight. */
  lemma LeadingByte(head: seq<int>, rest: seq<int>, f: int)
    requires |head| == 1
    ensures BigEndian([head[0] + f] + rest) == BigEndian(head + rest) + f * Pow(256, |rest|)
  {
    hide Pow, BigEndian;
    BigEndianAppend(head, rest);
    BigEndianAppend([head[0] + f], rest);
    OneByte(head);
    OneByte([head[0] + f]);
    MulDistrib(head[0], f, Pow(256, |rest|));
  }

  lemma OneByte(s: seq<int>)
    requires |s| == 1
    ensures BigEndian(s) == s[0]
  {
    assert s == [] + [s[0]];
    NoBytes([]);
    BigEndianPush([], s[0]);
  }

  lemma {:induction false} ZeroBytes(n: nat)
    ensures BigEndian(seq(n, _ => 0)) == 0
  {
    if n > 0 {
      ZeroBytes(n - 1);
      assert seq(n, _ => 0)[..n - 1] == seq(n - 1, _ => 0);
    }
  }

  lemma FlagBits(byte: int, largest: bool)
    requires 0 <= byte < 0x20
    ensures var t := byte + Flags(largest);
      0x80 <= t < 256 && t / 0x40 % 2 == 0 && t % 0x20 == byte && (t / 0x20 % 2 == 1 <==> largest)
  {
  }

  /** Of two points with one x only the upper has a smaller root below it. */
  lemma SmallerRootIsLeast(a: Affine, c: Affine, b: int, p: int)
    requires IsPrime(p) && p > 3 && OnCurve(a, b, p) && OnCurve(c, b, p)
    requires a.Point? && c.Point? && a.x == c.x && a.y < c.y
    ensures LargerRoot(c, b, p) && !LargerRoot(a, b, p)
  {
    hide Res, IsPrime;
    assert OnCurve(Point(c.x, a.y), b, p);
    SameX(a, c, b, p);
    SumIsModulus(a.y, c.y, p);
    if z :| z < a.y && OnCurve(Point(a.x, z), b, p) {
      SameX(Point(a.x, z), a, b, p);
      SumIsModulus(z, a.y, p);
    }
  }

  /** No byte string decodes to two points of the curve. */
  lemma DecodeUnique(s: seq<int>, a: Affine, c: Affine, b: int, p: int)
    requires IsPrime(p) && p > 3 && Decodes(s, a, b, p) && Decodes(s, c, b, p)
    ensures a == c
  {
    if a.Point? && c.Point? && a.y < c.y {
      SmallerRootIsLeast(a, c, b, p);
    } else if a.Point? && c.Point? && c.y < a.y {
      SmallerRootIsLeast(c, a, b, p);
    }
  }

  /** Injectivity: different points of the curve have different encodings. */
  lemma EncodeInjective(q: AffinePair, r: AffinePair, a: Affine, c: Affine, b: int, p: int)
    requires IsPrime(p) && p > 3 && FlagRoom(p) && PairRepresents(q, a, p) && PairRepresents(r, c, p)
    requires OnCurve(a, b, p) && OnCurve(c, b, p) && Encode(q, p) == Encode(r, p)
    ensures a == c && q == r
  {
    hide Encode, Decodes, IsPrime, Pow, FlagRoom;
    EncodeDecodes(q, a, b, p);
    EncodeDecodes(r, c, b, p);
    DecodeUnique(Encode(q, p), a, c, b, p);
  }

  // ------------------------------------------------------------ the kernel

  ghost predicate FpConstants(f: M.FieldConstants, half: seq<int>) {
    && M.ValidConstants(f) && f.n == FP_LIMBS && L.Words(half, FP_LIMBS)
    && L.Val(half) == (L.Val(f.p) - 1) / 2 && FlagRoom(L.Val(f.p))
  }

  /** Compares with (p - 1) / 2 limb by limb from the top. */
  method IsLexLargest(canonical: seq<int>, f: M.FieldConstants, half: seq<int>) returns (larger: bool)
    requires FpConstants(f, half) && L.Words(canonical, FP_LIMBS)
    ensures larger <==> LexLargest(L.Val(canonical), L.Val(f.p))
    ensures 0 < L.Val(canonical) < L.Val(f.p) && L.Val(f.p) % 2 == 1 ==>
      (larger <==> L.Val(canonical) > L.Val(f.p) - L.Val(canonical))
  {
    hide Pow, L.Val;
    larger := M.Less(half, canonical, FP_LIMBS);
    if 0 < L.Val(canonical) < L.Val(f.p) && L.Val(f.p) % 2 == 1 {
      LexLargestIs(L.Val(canonical), L.Val(f.p));
    }
  }

  /** The limbs of an affine pair in Montgomery form. */
  ghost predicate HoldsPair(words: seq<int>, q: AffinePair, f: M.FieldConstants)
    requires L.Val(f.p) > 0
  {
    |words| == AFFINE_WORDS && M.Holds(words[..FP_LIMBS], q.x, f) && M.Holds(words[FP_LIMBS..], q.y, f)
  }

  lemma HoldsElement(a: seq<int>, x: int, f: M.FieldConstants)
    requires L.Val(f.p) > 0 && M.Holds(a, x, f)
    ensures Element(x, L.Val(f.p))
  {
  }

  /** The affine buffer holds these pairs. */
  ghost predicate HoldsPairs(words: seq<int>, qs: seq<AffinePair>, f: M.FieldConstants)
    requires L.Val(f.p) > 0
  {
    forall k: nat :: k < |qs| ==> HoldsPair(Item(words, k, AFFINE_WORDS), qs[k], f)
  }

  /** The load of one point: its two coordinates in Montgomery form. */
  method LoadPair(affine: array<int>, src: nat, count: nat, f: M.FieldConstants, ghost qs: seq<AffinePair>)
    returns (x: seq<int>, y: seq<int>)
    requires L.Val(f.p) > 0 && src < count == |qs| && count * AFFINE_WORDS <= affine.Length
    requires HoldsPairs(affine[..], qs, f)
    ensures M.Holds(x, qs[src].x, f) && M.Holds(y, qs[src].y, f)
  {
    hide L.Val, M.Holds;
    assert HoldsPair(Item(affine[..], src, AFFINE_WORDS), qs[src], f);
    ItemFits(src, count, AFFINE_WORDS, affine[..]);
    var words := affine[src * AFFINE_WORDS..src * AFFINE_WORDS + AFFINE_WORDS];
    assert words == affine[..][src * AFFINE_WORDS..src * AFFINE_WORDS + AFFINE_WORDS];
    x, y := words[..FP_LIMBS], words[FP_LIMBS..];
  }

  /** The 48 bytes of one point, from its Montgomery limbs. */
  method EncodePoint(affine: array<int>, src: nat, count: nat, f: M.FieldConstants, half: seq<int>,
                     ghost qs: seq<AffinePair>)
    returns (s: seq<int>)
    requires FpConstants(f, half) && L.Val(f.p) > 0 && src < count == |qs|
    requires count * AFFINE_WORDS <= affine.Length && HoldsPairs(affine[..], qs, f)
    ensures s == Encode(qs[src], L.Val(f.p))
  {
    hide L.Val, Pow, Res, M.ValidConstants, M.Holds, BytesOf, BigEndian, FlagRoom, Or, HoldsPairs;
    ghost var q := qs[src];
    var xw, yw := LoadPair(affine, src, count, f, qs);
    var xZero := M.IsZero(xw, f, q.x);
    var yZero := M.IsZero(yw, f, q.y);
    if xZero && yZero {
      s := seq(PROOF_BYTES, _ => 0);
      s := s[0 := 0xc0];
      assert s == Encode(q, L.Val(f.p));
      return;
    }
    var x := M.ToCanonical(xw, f, q.x);
    var y := M.ToCanonical(yw, f, q.y);
    s := StoreLimbs(x, FP_LIMBS);
    HoldsElement(xw, q.x, f);
    PointEncoding(q.x, L.Val(f.p));
    var flags := 0x80;
    var larger := IsLexLargest(y, f, half);
    FlagsDisjoint(s[0], larger);
    if larger {
      flags := Or(flags, 0x20);
    }
    s := s[0 := Or(s[0], flags)];
    assert s == [s[0]] + s[1..];
  }

  /** Writes affine pairs as limbs in Montgomery form: the second view of a buffer of points. */
  method WordsFor(words: array<int>, pairs: seq<AffinePair>, f: M.FieldConstants)
    requires f.n == FP_LIMBS && M.ValidConstants(f) && L.Val(f.p) > 0 && |pairs| * AFFINE_WORDS <= words.Length
    requires forall k :: 0 <= k < |pairs| ==> Element(pairs[k].x, L.Val(f.p)) && Element(pairs[k].y, L.Val(f.p))
    modifies words
    ensures HoldsPairs(words[..], pairs, f)
  {
    hide Item, L.Val, M.Holds, M.ValidConstants, HoldsPair;
    for k := 0 to |pairs|
      invariant forall q: nat :: q < k ==> HoldsPair(Item(words[..], q, AFFINE_WORDS), pairs[q], f)
    {
      var v := PairWords(pairs[k], f);
      PairLength(v, pairs[k], f);
      StoreItem(words, k, v, AFFINE_WORDS, |pairs|);
    }
  }

  method PairWords(q: AffinePair, f: M.FieldConstants) returns (v: seq<int>)
    requires f.n == FP_LIMBS && M.ValidConstants(f) && L.Val(f.p) > 0
    requires Element(q.x, L.Val(f.p)) && Element(q.y, L.Val(f.p))
    ensures HoldsPair(v, q, f)
  {
    hide L.Val, M.Holds, M.ValidConstants;
    var x := EnterElement(q.x, f);
    var y := EnterElement(q.y, f);
    HoldsLength(x, q.x, f);
    HoldsLength(y, q.y, f);
    v := x + y;
    assert v[..FP_LIMBS] == x && v[FP_LIMBS..] == y;
  }

  lemma PairLength(v: seq<int>, q: AffinePair, f: M.FieldConstants)
    requires L.Val(f.p) > 0 && HoldsPair(v, q, f)
    ensures |v| == AFFINE_WORDS
  {
  }

  /** One invocation: point src encoded at position dst. */
  method CompressAt(out: array<int>, affine: array<int>, src: nat, dst: nat, count: nat, f: M.FieldConstants,
                    half: seq<int>, ghost qs: seq<AffinePair>)
    requires FpConstants(f, half) && L.Val(f.p) > 0 && out != affine && src < count && dst < count && |qs| == count
    requires count * AFFINE_WORDS <= affine.Length && count * PROOF_BYTES <= out.Length && HoldsPairs(affine[..], qs, f)
    modifies out
    ensures Item(out[..], dst, PROOF_BYTES) == Encode(qs[src], L.Val(f.p))
    ensures forall j: nat :: j != dst ==> Item(out[..], j, PROOF_BYTES) == old(Item(out[..], j, PROOF_BYTES))
  {
    hide HoldsPairs, FpConstants, Item, L.Val, Encode;
    var s := EncodePoint(affine, src, count, f, half, qs);
    StoreItem(out, dst, s, PROOF_BYTES, count);
  }

  /** All proofs of all blobs, invocations in any order: proof i lands at the 7-bit reversal of i. */
  method Compress(out: array<int>, affine: array<int>, batch: nat, f: M.FieldConstants, half: seq<int>,
                  ghost qs: seq<AffinePair>)
    requires FpConstants(f, half) && L.Val(f.p) > 0 && out != affine && |qs| == batch * Pow2(7)
    requires batch * Pow2(7) * AFFINE_WORDS <= affine.Length && batch * Pow2(7) * PROOF_BYTES <= out.Length
    requires HoldsPairs(affine[..], qs, f)
    modifies out
    ensures forall i: nat, b: nat :: i < Pow2(7) && b < batch ==>
      At(b, i, Pow2(7)) < |qs| && Item(out[..], Reversed(b, i, 7), PROOF_BYTES) == Encode(qs[At(b, i, Pow2(7))], L.Val(f.p))
  {
    hide FpConstants, HoldsPairs, Item, L.Val, Encode, Pow2, At, Reversed;
    var pending: set<(nat, nat)> := Grid(Pow2(7), batch);
    while pending != {}
      invariant forall g :: g in pending ==> 0 <= g.0 < Pow2(7) && 0 <= g.1 < batch
      invariant forall i: nat, b: nat :: i < Pow2(7) && b < batch && (i, b) !in pending ==>
        At(b, i, Pow2(7)) < |qs| && Item(out[..], Reversed(b, i, 7), PROOF_BYTES) == Encode(qs[At(b, i, Pow2(7))], L.Val(f.p))
      decreases |pending|
    {
      var g :| g in pending;
      var (i, b) := g;
      AtFits(b, i, Pow2(7), batch);
      ReversedFits(b, i, 7, batch);
      OtherReversed(i, b, 7);
      CompressAt(out, affine, At(b, i, Pow2(7)), Reversed(b, i, 7), batch * Pow2(7), f, half, qs);
      pending := pending - {g};
    }
  }
}
