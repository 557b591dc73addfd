/** The byte side of the element-wise kernels: 32 big-endian bytes to eight limbs in Montgomery
    form at the bit-reversed slot, and back. */
module CellBytes {
  import opened Layout
  import opened Modular
  import opened Bits
  import opened Field
  import opened Dispatch
  import opened Transforms
  import opened Elementwise
  import opened Flatten
  import L = Limbs
  import M = Montgomery

  const FR_LIMBS: nat := 8
  const FR_BYTES: nat := 32

  ghost predicate Bytes(s: seq<int>, n: nat) {
    |s| == n && forall i :: 0 <= i < n ==> 0 <= s[i] < 256
  }

  /** The number spelled by big-endian bytes. */
  ghost function BigEndian(s: seq<int>): int {
    if s == [] then 0 else BigEndian(s[..|s| - 1]) * 256 + s[|s| - 1]
  }

  /** The n low bytes of x, most significant first. */
  ghost function BytesOf(x: int, n: nat): (s: seq<int>)
    ensures |s| == n
    decreases n
  {
    if n == 0 then [] else BytesOf(x / 256, n - 1) + [x % 256]
  }

  lemma {:induction false} BytesSpell(s: seq<int>, n: nat)
    requires Bytes(s, n)
    ensures BytesOf(BigEndian(s), n) == s
    decreases n
  {
    if n > 0 {
      BytesSpell(s[..n - 1], n - 1);
      DivModUnique(BigEndian(s), 256, BigEndian(s[..n - 1]), s[n - 1]);
    }
  }

  lemma {:induction false} SpellBytes(x: int, n: nat)
    requires 0 <= x < Pow(256, n)
    ensures Bytes(BytesOf(x, n), n) && BigEndian(BytesOf(x, n)) == x
    decreases n
  {
    if n > 0 {
      DivNonneg(x, 256);
      SpellBytes(x / 256, n - 1);
      assert BytesOf(x, n)[..n - 1] == BytesOf(x / 256, n - 1);
    }
  }

  /** The number spelled by four bytes. */
  function PackWord(b0: int, b1: int, b2: int, b3: int): int {
    b0 * 0x100_0000 + b1 * 0x1_0000 + b2 * 0x100 + b3
  }

  /** Four bytes shifted into place and or-ed together. */
  function OrWord(b0: nat, b1: nat, b2: nat, b3: nat): nat {
    Or(Or(Or(b0 * 0x100_0000, b1 * 0x1_0000), b2 * 0x100), b3)
  }

  /** The shifted bytes do not overlap. */
  lemma OrWordIs(b0: nat, b1: nat, b2: nat, b3: nat)
    requires b0 < 256 && b1 < 256 && b2 < 256 && b3 < 256
    ensures OrWord(b0, b1, b2, b3) == PackWord(b0, b1, b2, b3)
  {
    hide Or, Pow2;
    ByteShifts();
    OrDisjoint(b0, b1 * 0x1_0000, 24);
    OrDisjoint(b0 * 0x100 + b1, b2 * 0x100, 16);
    OrDisjoint(b0 * 0x1_0000 + b1 * 0x100 + b2, b3, 8);
  }

  lemma ByteShifts()
    ensures Pow2(8) == 0x100 && Pow2(16) == 0x1_0000 && Pow2(24) == 0x100_0000
  {
    assert Pow2(4) == 16;
    Pow2Add(4, 4);
    Pow2Add(8, 8);
    Pow2Add(16, 8);
  }

  lemma BigEndianPush(s: seq<int>, x: int)
    ensures BigEndian(s + [x]) == BigEndian(s) * 256 + x
  {
    assert (s + [x])[..|s|] == s;
  }

  lemma FourBytes(s: seq<int>)
    requires |s| == 4
    ensures BigEndian(s) == PackWord(s[0], s[1], s[2], s[3])
  {
    assert s == [] + [s[0]] + [s[1]] + [s[2]] + [s[3]];
    BigEndianPush([], s[0]);
    BigEndianPush([] + [s[0]], s[1]);
    BigEndianPush([] + [s[0]] + [s[1]], s[2]);
    BigEndianPush([] + [s[0]] + [s[1]] + [s[2]], s[3]);
  }

  lemma BigEndianSplit(s: seq<int>, n: nat)
    requires |s| == 4 + n
    ensures BigEndian(s) == PackWord(s[0], s[1], s[2], s[3]) * Pow(256, n) + BigEndian(s[4..])
  {
    hide Pow, BigEndian, PackWord;
    BigEndianAppend(s[..4], s[4..]);
    assert s == s[..4] + s[4..];
    FourBytes(s[..4]);
  }

  lemma {:induction false} BigEndianAppend(s: seq<int>, t: seq<int>)
    ensures BigEndian(s + t) == BigEndian(s) * Pow(256, |t|) + BigEndian(t)
    decreases |t|
  {
    if t == [] {
      assert s + t == s;
    } else {
      var t' := t[..|t| - 1];
      BigEndianAppend(s, t');
      assert (s + t)[..|s + t| - 1] == s + t';
      MulLeftSwap(256, BigEndian(s), Pow(256, |t'|));
    }
  }

  // ------------------------------------------------------------ one element

  /** n limbs from 4n big-endian bytes at the start of s. */
  method LoadLimbs(s: seq<int>, n: nat) returns (v: seq<int>)
    requires Bytes(s, 4 * n)
    ensures L.Words(v, n) && L.Val(v) == BigEndian(s)
  {
    hide Pow, BigEndian, L.Val, OrWord;
    var limbs := new int[n];
    L.EmptyVal(limbs[..0]);
    NoBytes(s[4 * n..]);
    for limb := 0 to n
      invariant L.Words(limbs[..limb], limb)
      invariant L.Val(limbs[..limb]) == BigEndian(s[4 * n - 4 * limb..])
    {
      var off := (n - 1 - limb) * 4;
      ghost var was := limbs[..limb];
      ghost var tail := s[off..];
      OrWordIs(s[off], s[off + 1], s[off + 2], s[off + 3]);
      limbs[limb] := OrWord(s[off], s[off + 1], s[off + 2], s[off + 3]);
      assert limbs[..limb + 1] == was + [limbs[limb]];
      L.ValPush(was, limbs[limb]);
      BigEndianSplit(tail, 4 * limb);
      L.BytesPerWord(limb);
      assert tail[4..] == s[4 * n - 4 * limb..];
    }
    v := limbs[..];
    assert limbs[..n] == v && s[0..] == s;
  }

  lemma NoBytes(s: seq<int>)
    requires s == []
    ensures BigEndian(s) == 0
  {
  }

  /** The four bytes of one word, shifted out from the top; each store keeps the low eight bits. */
  function UnpackWord(w: int): (b: seq<int>)
    ensures |b| == 4
  {
    [w / 0x100_0000 % 256, w / 0x1_0000 % 256, w / 0x100 % 256, w % 256]
  }

  lemma UnpackedWord(w: int)
    requires 0 <= w < L.WORD
    ensures var b := UnpackWord(w); Bytes(b, 4) && PackWord(b[0], b[1], b[2], b[3]) == w
  {
    L.WordBytes(w);
  }

  /** n limbs as 4n big-endian bytes. */
  method StoreLimbs(c: seq<int>, n: nat) returns (s: seq<int>)
    requires L.Words(c, n)
    ensures s == BytesOf(L.Val(c), 4 * n)
  {
    hide Pow, BigEndian, BytesOf, L.Val, UnpackWord;
    s := [];
    L.EmptyVal(c[..0]);
    NoBytes(s);
    for limb := 0 to n
      invariant Bytes(s, 4 * limb)
      invariant BigEndian(s) == L.Val(c[..limb])
    {
      ghost var was := s;
      UnpackedWord(c[limb]);
      s := UnpackWord(c[limb]) + s;
      L.ValSnoc(c, limb);
      BigEndianSplit(s, 4 * limb);
      L.BytesPerWord(limb);
      assert s[4..] == was;
    }
    assert c[..n] == c;
    BytesSpell(s, 4 * n);
  }

  // ------------------------------------------------------------ buffers of fixed-width items

  /** Item k of a buffer of w-wide items. */
  ghost function Item(s: seq<int>, k: nat, w: nat): seq<int> {
    if 0 <= k * w && k * w + w <= |s| then s[k * w..k * w + w] else []
  }

  /** The items of a buffer written one after the other. */
  lemma ItemOfFlat(items: seq<seq<int>>, k: nat, w: nat)
    requires Even(items, w) && k < |items|
    ensures Item(Flat(items), k, w) == items[k]
  {
    hide Flat;
    FlatRow(items, w, k);
  }

  lemma ItemFits(k: nat, count: nat, w: nat, s: seq<int>)
    requires k < count && count * w <= |s|
    ensures 0 <= k * w && k * w + w <= |s| && Item(s, k, w) == s[k * w..k * w + w]
  {
    MulNonneg(k, w);
    MulMono(k + 1, count, w);
    MulDistrib(k, 1, w);
  }

  method StoreItem(out: array<int>, k: nat, v: seq<int>, w: nat, count: nat)
    requires k < count && |v| == w && count * w <= out.Length
    modifies out
    ensures Item(out[..], k, w) == v
    ensures forall j: nat :: j != k ==> Item(out[..], j, w) == old(Item(out[..], j, w))
  {
    ItemFits(k, count, w, out[..]);
    var base := k * w;
    ghost var was := out[..];
    for q := 0 to w
      invariant forall r :: 0 <= r < q ==> out[base + r] == v[r]
      invariant forall r :: 0 <= r < out.Length && !(base <= r < base + q) ==> out[r] == was[r]
    {
      out[base + q] := v[q];
    }
    assert Item(out[..], k, w) == v;
    OtherItems(out[..], was, k, w);
  }

  lemma OtherItems(s: seq<int>, was: seq<int>, k: nat, w: nat)
    requires |s| == |was| && 0 <= k * w && k * w + w <= |s|
    requires forall r :: 0 <= r < |s| && !(k * w <= r < k * w + w) ==> s[r] == was[r]
    ensures forall j: nat :: j != k ==> Item(s, j, w) == Item(was, j, w)
  {
    forall j: nat | j != k ensures Item(s, j, w) == Item(was, j, w) {
      if j < k {
        MulMono(j + 1, k, w);
        MulDistrib(j, 1, w);
      } else {
        MulMono(k + 1, j, w);
        MulDistrib(k, 1, w);
      }
      hide Item;
      SameItem(s, was, k * w, j, w);
    }
  }

  lemma SameItem(s: seq<int>, was: seq<int>, base: int, j: nat, w: nat)
    requires |s| == |was| && (j * w + w <= base || base + w <= j * w)
    requires forall r :: 0 <= r < |s| && !(base <= r < base + w) ==> s[r] == was[r]
    ensures Item(s, j, w) == Item(was, j, w)
  {
    var lo := j * w;
    if 0 <= lo && lo + w <= |s| {
      assert s[lo..lo + w] == was[lo..lo + w];
    }
  }

  // ------------------------------------------------------------ the kernels

  ghost predicate ByteBuffer(s: seq<int>) {
    forall i :: 0 <= i < |s| ==> 0 <= s[i] < 256
  }

  /** The first count items hold bytes. */
  ghost predicate ItemsAreBytes(s: seq<int>, count: nat) {
    forall k: nat :: k < count ==> Bytes(Item(s, k, FR_BYTES), FR_BYTES)
  }

  /** What memcpy brings in are bytes. */
  lemma CopiedBytes(dst: seq<int>, src: seq<int>, at: nat, n: nat)
    requires n <= |dst| && at + n <= |src| && ByteBuffer(src)
    requires forall q :: 0 <= q < n ==> dst[q] == src[at + q]
    ensures ByteBuffer(dst[..n])
  {
  }

  lemma BytesInItems(s: seq<int>, count: nat)
    requires count * FR_BYTES <= |s| && ByteBuffer(s[..count * FR_BYTES])
    ensures ItemsAreBytes(s, count)
  {
    forall k: nat | k < count ensures Bytes(Item(s, k, FR_BYTES), FR_BYTES) {
      ItemFits(k, count, FR_BYTES, s);
      forall i | 0 <= i < FR_BYTES ensures 0 <= Item(s, k, FR_BYTES)[i] < 256 {
        assert Item(s, k, FR_BYTES)[i] == s[..count * FR_BYTES][k * FR_BYTES + i];
      }
    }
  }

  /** The 256-bit number at wire position k. */
  ghost function WireValue(bytes: seq<int>, k: nat): int {
    BigEndian(Item(bytes, k, FR_BYTES))
  }

  ghost predicate FrConstants(f: M.FieldConstants) {
    M.ValidConstants(f) && f.n == FR_LIMBS
  }

  /** One invocation: decode, enter Montgomery form, store at slot dst. */
  method DecodeAt(out: array<int>, bytes: array<int>, src: nat, dst: nat, count: nat, f: M.FieldConstants)
    returns (canonical: bool)
    requires FrConstants(f) && out != bytes && Bytes(Item(bytes[..], src, FR_BYTES), FR_BYTES) && src < count
    requires dst < count && count * FR_BYTES <= bytes.Length && count * FR_LIMBS <= out.Length
    modifies out
    ensures canonical <==> WireValue(bytes[..], src) < L.Val(f.p)
    ensures M.Holds(Item(out[..], dst, FR_LIMBS), Res(WireValue(bytes[..], src), L.Val(f.p)), f)
    ensures forall j: nat :: j != dst ==> Item(out[..], j, FR_LIMBS) == old(Item(out[..], j, FR_LIMBS))
  {
    hide Res, Pow, Item, BigEndian, L.Val, M.Holds, M.ValidConstants;
    ItemFits(src, count, FR_BYTES, bytes[..]);
    var v := LoadLimbs(bytes[src * FR_BYTES..src * FR_BYTES + FR_BYTES], FR_LIMBS);
    assert bytes[src * FR_BYTES..src * FR_BYTES + FR_BYTES] == bytes[..][src * FR_BYTES..src * FR_BYTES + FR_BYTES];
    ConstantsArePositive(f);
    canonical := M.Less(v, f.p, FR_LIMBS);
    var m := M.FromCanonical(v, f);
    HoldsLength(m, Res(L.Val(v), L.Val(f.p)), f);
    StoreItem(out, dst, m, FR_LIMBS, count);
  }

  lemma ConstantsArePositive(f: M.FieldConstants)
    requires FrConstants(f)
    ensures L.Val(f.p) > 1 && L.Words(f.p, FR_LIMBS)
  {
  }

  lemma HoldsLength(a: seq<int>, x: int, f: M.FieldConstants)
    requires L.Val(f.p) > 0 && M.Holds(a, x, f)
    ensures L.Words(a, f.n) && Element(x, L.Val(f.p))
  {
  }

  /** Position i of blob b. */
  function At(b: nat, i: nat, size: nat): (k: nat)
  {
    MulNonneg(b, size);
    b * size + i
  }

  lemma AtFits(b: nat, i: nat, size: nat, batch: nat)
    requires b < batch && i < size
    ensures At(b, i, size) < batch * size
  {
    MulMono(b + 1, batch, size);
    MulDistrib(b, 1, size);
  }

  lemma AtUnique(b: nat, i: nat, b': nat, i': nat, size: nat)
    requires i < size && i' < size && At(b, i, size) == At(b', i', size)
    ensures b == b' && i == i'
  {
    DivModUnique(At(b, i, size), size, b, i);
    DivModUnique(At(b', i', size), size, b', i');
  }

  /** Where the load of wire position i of blob b puts its element, and the store takes it back from. */
  function Reversed(b: nat, i: nat, bits: nat): nat {
    At(b, Brev(i, bits), Pow2(bits))
  }

  /** Distinct invocations write distinct slots. */
  lemma OtherReversed(i: nat, b: nat, bits: nat)
    requires i < Pow2(bits)
    ensures forall i': nat, b': nat :: i' < Pow2(bits) && (i', b') != (i, b) ==>
      Reversed(b', i', bits) != Reversed(b, i, bits)
  {
    hide At, Brev, Pow2;
    forall i': nat, b': nat | i' < Pow2(bits) && (i', b') != (i, b)
      ensures Reversed(b', i', bits) != Reversed(b, i, bits)
    {
      if Reversed(b', i', bits) == Reversed(b, i, bits) {
        AtUnique(b, Brev(i, bits), b', Brev(i', bits), Pow2(bits));
        BrevInjective(i, i', bits);
      }
    }
  }

  /** The decoding kernels over a whole grid, in any order: slot Brev(i) of each blob ends up holding the
      value at wire position i modulo r. When canonicity is checked (blobs, not cells) the flag is set
      exactly if some value is not canonical. */
  method Decode(out: array<int>, bytes: array<int>, bits: nat, batch: nat, checked: bool, f: M.FieldConstants)
    returns (err: bool)
    requires FrConstants(f) && out != bytes && ItemsAreBytes(bytes[..], batch * Pow2(bits))
    requires batch * Pow2(bits) * FR_BYTES <= bytes.Length && batch * Pow2(bits) * FR_LIMBS <= out.Length
    modifies out
    ensures L.Val(f.p) > 1
    ensures forall i: nat, b: nat :: i < Pow2(bits) && b < batch ==>
      M.Holds(Item(out[..], Reversed(b, i, bits), FR_LIMBS),
              Res(WireValue(bytes[..], At(b, i, Pow2(bits))), L.Val(f.p)), f)
    ensures err <==> checked && exists i: nat, b: nat ::
      i < Pow2(bits) && b < batch && WireValue(bytes[..], At(b, i, Pow2(bits))) >= L.Val(f.p)
  {
    hide Res, Item, WireValue, L.Val, M.Holds, M.ValidConstants, At, Brev, Pow2, Reversed;
    ConstantsArePositive(f);
    ghost var p, wire := L.Val(f.p), bytes[..];
    err := false;
    var pending: set<(nat, nat)> := Grid(Pow2(bits), batch);
    while pending != {}
      invariant forall g :: g in pending ==> 0 <= g.0 < Pow2(bits) && 0 <= g.1 < batch
      invariant forall i: nat, b: nat :: i < Pow2(bits) && b < batch && (i, b) !in pending ==>
        M.Holds(Item(out[..], Reversed(b, i, bits), FR_LIMBS), Res(WireValue(wire, At(b, i, Pow2(bits))), p), f)
      invariant err <==> checked && exists i: nat, b: nat ::
        i < Pow2(bits) && b < batch && (i, b) !in pending && WireValue(wire, At(b, i, Pow2(bits))) >= p
      decreases |pending|
    {
      var g :| g in pending;
      var (i, b) := g;
      AtFits(b, i, Pow2(bits), batch);
      ReversedFits(b, i, bits, batch);
      OtherReversed(i, b, bits);
      var canonical := DecodeAt(out, bytes, At(b, i, Pow2(bits)), Reversed(b, i, bits), batch * Pow2(bits), f);
      err := err || (checked && !canonical);
      pending := pending - {g};
    }
  }

  lemma ReversedFits(b: nat, i: nat, bits: nat, batch: nat)
    requires b < batch && i < Pow2(bits)
    ensures Reversed(b, i, bits) < batch * Pow2(bits)
  {
    AtFits(b, Brev(i, bits), Pow2(bits), batch);
  }

  /** The limbs of every slot hold the given elements. */
  ghost predicate HoldsAll(limbs: seq<int>, xs: seq<int>, f: M.FieldConstants)
    requires L.Val(f.p) > 0
  {
    forall k: nat :: k < |xs| ==> M.Holds(Item(limbs, k, FR_LIMBS), xs[k], f)
  }

  lemma HoldsAt(limbs: seq<int>, xs: seq<int>, f: M.FieldConstants, k: nat)
    requires L.Val(f.p) > 0 && HoldsAll(limbs, xs, f) && k < |xs|
    ensures M.Holds(Item(limbs, k, FR_LIMBS), xs[k], f)
  {
  }

  /** One invocation of the store: leave Montgomery form and write 32 bytes at position dst. */
  method EncodeAt(out: array<int>, limbs: array<int>, src: nat, dst: nat, count: nat, f: M.FieldConstants,
                  ghost xs: seq<int>)
    requires FrConstants(f) && src < count && dst < count && |xs| == count
    requires count * FR_LIMBS <= limbs.Length && count * FR_BYTES <= out.Length && out != limbs
    requires L.Val(f.p) > 0 && HoldsAll(limbs[..], xs, f)
    modifies out
    ensures Item(out[..], dst, FR_BYTES) == BytesOf(xs[src], FR_BYTES)
    ensures forall j: nat :: j != dst ==> Item(out[..], j, FR_BYTES) == old(Item(out[..], j, FR_BYTES))
  {
    hide Res, Pow, Item, BytesOf, L.Val, M.Holds, M.ValidConstants;
    ghost var x := xs[src];
    assert M.Holds(Item(limbs[..], src, FR_LIMBS), x, f) by {
      hide *;
      HoldsAt(limbs[..], xs, f, src);
    }
    ItemFits(src, count, FR_LIMBS, limbs[..]);
    var v := limbs[src * FR_LIMBS..src * FR_LIMBS + FR_LIMBS];
    assert v == limbs[..][src * FR_LIMBS..src * FR_LIMBS + FR_LIMBS];
    var c := M.ToCanonical(v, f, x);
    var bytes := StoreLimbs(c, FR_LIMBS);
    StoreItem(out, dst, bytes, FR_BYTES, count);
  }

  /** The encoding kernel over a whole grid: wire position Brev(i) receives the element of slot i. */
  method Encode(out: array<int>, limbs: array<int>, bits: nat, batch: nat, f: M.FieldConstants, ghost xs: seq<int>)
    requires FrConstants(f) && out != limbs && L.Val(f.p) > 0
    requires batch * Pow2(bits) * FR_LIMBS <= limbs.Length && batch * Pow2(bits) * FR_BYTES <= out.Length
    requires |xs| == batch * Pow2(bits) && HoldsAll(limbs[..], xs, f)
    modifies out
    ensures forall i: nat, b: nat :: i < Pow2(bits) && b < batch ==>
      At(b, i, Pow2(bits)) < |xs| && Item(out[..], Reversed(b, i, bits), FR_BYTES) == BytesOf(xs[At(b, i, Pow2(bits))], FR_BYTES)
  {
    hide Item, BytesOf, L.Val, M.Holds, M.ValidConstants, At, Brev, Pow2, Reversed;
    var pending: set<(nat, nat)> := Grid(Pow2(bits), batch);
    while pending != {}
      invariant forall g :: g in pending ==> 0 <= g.0 < Pow2(bits) && 0 <= g.1 < batch
      invariant forall i: nat, b: nat :: i < Pow2(bits) && b < batch && (i, b) !in pending ==>
        At(b, i, Pow2(bits)) < |xs| && Item(out[..], Reversed(b, i, bits), FR_BYTES) == BytesOf(xs[At(b, i, Pow2(bits))], FR_BYTES)
      decreases |pending|
    {
      var g :| g in pending;
      var (i, b) := g;
      AtFits(b, i, Pow2(bits), batch);
      ReversedFits(b, i, bits, batch);
      OtherReversed(i, b, bits);
      EncodeAt(out, limbs, At(b, i, Pow2(bits)), Reversed(b, i, bits), batch * Pow2(bits), f, xs);
      pending := pending - {g};
    }
  }

  // ------------------------------------------------------------ what the two kernels do together

  /** Slot k after the load. */
  ghost function Loaded(wire: seq<int>, bits: nat, p: int, k: nat): int
    requires p > 0
  {
    DivNonneg(k, Pow2(bits));
    Res(WireValue(wire, Reversed(k / Pow2(bits), k % Pow2(bits), bits)), p)
  }

  ghost function LoadedAll(wire: seq<int>, bits: nat, batch: nat, p: int): (xs: seq<int>)
    requires p > 0
    ensures |xs| == batch * Pow2(bits) && forall k: nat :: k < |xs| ==> xs[k] == Loaded(wire, bits, p, k)
  {
    seq(batch * Pow2(bits), k requires 0 <= k => Loaded(wire, bits, p, k))
  }

  /** Slot i of blob b holds the value at the reversed wire position, for both directions of the reversal. */
  lemma LoadedAt(wire: seq<int>, bits: nat, batch: nat, p: int, b: nat, i: nat)
    requires p > 0 && b < batch && i < Pow2(bits)
    ensures At(b, i, Pow2(bits)) < batch * Pow2(bits)
    ensures LoadedAll(wire, bits, batch, p)[At(b, i, Pow2(bits))] == Res(WireValue(wire, Reversed(b, i, bits)), p)
    ensures Reversed(b, Brev(i, bits), bits) == At(b, i, Pow2(bits))
  {
    AtFits(b, i, Pow2(bits), batch);
    DivModUnique(At(b, i, Pow2(bits)), Pow2(bits), b, i);
    BrevInvolution(i, bits);
  }

  lemma DecodedAll(limbs: seq<int>, wire: seq<int>, bits: nat, batch: nat, f: M.FieldConstants)
    requires L.Val(f.p) > 0
    requires forall i: nat, b: nat :: i < Pow2(bits) && b < batch ==>
      M.Holds(Item(limbs, Reversed(b, i, bits), FR_LIMBS), Res(WireValue(wire, At(b, i, Pow2(bits))), L.Val(f.p)), f)
    ensures HoldsAll(limbs, LoadedAll(wire, bits, batch, L.Val(f.p)), f)
  {
    var p, size := L.Val(f.p), Pow2(bits);
    forall k: nat | k < batch * size ensures M.Holds(Item(limbs, k, FR_LIMBS), LoadedAll(wire, bits, batch, p)[k], f) {
      var b, i := k / size, k % size;
      DivNonneg(k, size);
      BlockIndex(k, size, batch);
      assert k == At(b, i, size);
      hide Res, Item, WireValue, L.Val, M.Holds, At, Brev, Pow2, Reversed, LoadedAll;
      LoadedAt(wire, bits, batch, p, b, i);
      LoadedAt(wire, bits, batch, p, b, Brev(i, bits));
      assert Reversed(b, Brev(i, bits), bits) == k;
    }
  }

  lemma BlockIndex(k: nat, size: nat, batch: nat)
    requires size > 0 && k < batch * size
    ensures k / size < batch
  {
    DivNonneg(k, size);
    if k / size >= batch {
      MulMono(batch, k / size, size);
    }
  }

  /** Bytes to field elements to bytes: reduction modulo r, the identity on canonical input, position by position. */
  method DecodeThenEncode(out: array<int>, limbs: array<int>, bytes: array<int>, bits: nat, batch: nat,
                          f: M.FieldConstants)
    requires FrConstants(f) && limbs != bytes && limbs != out && out != bytes
    requires ItemsAreBytes(bytes[..], batch * Pow2(bits))
    requires batch * Pow2(bits) * FR_BYTES <= bytes.Length && batch * Pow2(bits) * FR_LIMBS <= limbs.Length
    requires batch * Pow2(bits) * FR_BYTES <= out.Length
    modifies limbs, out
    ensures L.Val(f.p) > 1
    ensures forall i: nat, b: nat :: i < Pow2(bits) && b < batch ==>
      Item(out[..], At(b, i, Pow2(bits)), FR_BYTES)
           == BytesOf(Res(WireValue(bytes[..], At(b, i, Pow2(bits))), L.Val(f.p)), FR_BYTES)
    ensures forall i: nat, b: nat :: i < Pow2(bits) && b < batch && WireValue(bytes[..], At(b, i, Pow2(bits))) < L.Val(f.p) ==>
      Item(out[..], At(b, i, Pow2(bits)), FR_BYTES) == Item(bytes[..], At(b, i, Pow2(bits)), FR_BYTES)
  {
    hide *;
    ghost var wire := bytes[..];
    ConstantsArePositive(f);
    var err := Decode(limbs, bytes, bits, batch, false, f);
    DecodedAll(limbs[..], wire, bits, batch, f);
    Encode(out, limbs, bits, batch, f, LoadedAll(wire, bits, batch, L.Val(f.p)));
    forall i: nat, b: nat | i < Pow2(bits) && b < batch
      ensures Item(out[..], At(b, i, Pow2(bits)), FR_BYTES)
           == BytesOf(Res(WireValue(wire, At(b, i, Pow2(bits))), L.Val(f.p)), FR_BYTES)
      ensures WireValue(wire, At(b, i, Pow2(bits))) < L.Val(f.p) ==>
        Item(out[..], At(b, i, Pow2(bits)), FR_BYTES) == Item(wire, At(b, i, Pow2(bits)), FR_BYTES)
    {
      LoadedAt(wire, bits, batch, L.Val(f.p), b, i);
      LoadedAt(wire, bits, batch, L.Val(f.p), b, Brev(i, bits));
      if WireValue(wire, At(b, i, Pow2(bits))) < L.Val(f.p) {
        CanonicalItem(wire, At(b, i, Pow2(bits)), batch * Pow2(bits), L.Val(f.p));
      }
    }
  }

  /** Re-encoding a canonical value gives back its bytes. */
  lemma CanonicalItem(wire: seq<int>, k: nat, count: nat, p: int)
    requires p > 0 && ItemsAreBytes(wire, count) && k < count && WireValue(wire, k) < p
    ensures BytesOf(Res(WireValue(wire, k), p), FR_BYTES) == Item(wire, k, FR_BYTES)
  {
    hide Res;
    var item := Item(wire, k, FR_BYTES);
    assert Bytes(item, FR_BYTES);
    BytesSpell(item, FR_BYTES);
    NonnegBytes(item);
    ResSmall(WireValue(wire, k), p);
  }

  lemma {:induction false} NonnegBytes(s: seq<int>)
    requires Bytes(s, |s|)
    ensures BigEndian(s) >= 0
  {
    if s != [] {
      NonnegBytes(s[..|s| - 1]);
    }
  }

  // ------------------------------------------------------------ limbs and residues: two views of one buffer

  /** Reads a buffer of limbs as the elements it holds. Together with LimbsFor this is no stage of the program: it
      is where the kernels stated over limbs meet the kernels stated over residues. */
  method ElementsOf(values: array<int>, limbs: array<int>, n: nat, f: M.FieldConstants, ghost xs: seq<int>)
    requires FrConstants(f) && L.Val(f.p) > 0 && values != limbs && |xs| == n
    requires n <= values.Length && n * FR_LIMBS <= limbs.Length && HoldsAll(limbs[..], xs, f)
    modifies values
    ensures values[..n] == xs && forall q :: n <= q < values.Length ==> values[q] == old(values[q])
  {
    hide Item, L.Val, M.Holds, M.ValidConstants, HoldsAll;
    for k := 0 to n
      invariant values[..k] == xs[..k] && forall q :: n <= q < values.Length ==> values[q] == old(values[q])
    {
      HoldsAt(limbs[..], xs, f, k);
      ItemFits(k, n, FR_LIMBS, limbs[..]);
      var v := limbs[k * FR_LIMBS..k * FR_LIMBS + FR_LIMBS];
      assert v == limbs[..][k * FR_LIMBS..k * FR_LIMBS + FR_LIMBS];
      var c := M.ToCanonical(v, f, xs[k]);
      values[k] := L.Val(c);
      assert values[..k + 1] == values[..k] + [xs[k]];
    }
  }

  /** Writes elements as limbs in Montgomery form. */
  method LimbsFor(limbs: array<int>, values: seq<int>, f: M.FieldConstants)
    requires FrConstants(f) && L.Val(f.p) > 0 && |values| * FR_LIMBS <= limbs.Length
    requires forall k :: 0 <= k < |values| ==> Element(values[k], L.Val(f.p))
    modifies limbs
    ensures HoldsAll(limbs[..], values, f)
  {
    hide Item, L.Val, M.Holds, M.ValidConstants, Res;
    for k := 0 to |values|
      invariant forall q: nat :: q < k ==> M.Holds(Item(limbs[..], q, FR_LIMBS), values[q], f)
    {
      var m := EnterElement(values[k], f);
      HoldsLength(m, values[k], f);
      StoreItem(limbs, k, m, FR_LIMBS, |values|);
    }
  }

  method EnterElement(x: int, f: M.FieldConstants) returns (m: seq<int>)
    requires f.n > 0 && M.ValidConstants(f) && L.Val(f.p) > 0 && Element(x, L.Val(f.p))
    ensures M.Holds(m, x, f)
  {
    hide L.Val, M.Holds, Res, Pow, IsPrime;
    M.LimbsSpell(x, f.n);
    ResSmall(x, L.Val(f.p));
    m := M.FromCanonical(M.LimbsOf(x, f.n), f);
  }

  // ------------------------------------------------------------ whole blobs of cells

  /** The numbers the 8192 items of a blob's cells spell. */
  ghost function CellValues(cells: seq<int>): (v: seq<int>)
    ensures |v| == EXT_BLOB && forall k: nat :: k < EXT_BLOB ==> v[k] == WireValue(cells, k)
  {
    seq(EXT_BLOB, k requires 0 <= k => WireValue(cells, k))
  }

  /** The cells that spell 8192 values. */
  ghost function CellSpelling(values: seq<int>): (s: seq<int>)
    requires |values| == EXT_BLOB
    ensures |s| == EXT_BYTES && forall q: nat :: q < EXT_BYTES ==> s[q] == SpelledByte(values, q)
  {
    seq(EXT_BYTES, q requires 0 <= q < EXT_BYTES => SpelledByte(values, q))
  }

  ghost function SpelledByte(values: seq<int>, q: nat): int
    requires |values| == EXT_BLOB && q < EXT_BYTES
  {
    BytesOf(values[q / FR_BYTES], FR_BYTES)[q % FR_BYTES]
  }

  /** A byte string whose items spell the values is their spelling, and the other way round. */
  lemma SpelledItems(s: seq<int>, values: seq<int>)
    requires |values| == EXT_BLOB && |s| == EXT_BYTES
    ensures s == CellSpelling(values) <==>
      forall k: nat :: k < EXT_BLOB ==> Item(s, k, FR_BYTES) == BytesOf(values[k], FR_BYTES)
  {
    hide BytesOf, Item;
    if s == CellSpelling(values) {
      forall k: nat | k < EXT_BLOB ensures Item(s, k, FR_BYTES) == BytesOf(values[k], FR_BYTES) {
        ItemFits(k, EXT_BLOB, FR_BYTES, s);
        forall i: nat | i < FR_BYTES ensures Item(s, k, FR_BYTES)[i] == BytesOf(values[k], FR_BYTES)[i] {
          DivModUnique(k * FR_BYTES + i, FR_BYTES, k, i);
          assert s[k * FR_BYTES + i] == SpelledByte(values, k * FR_BYTES + i);
        }
      }
    }
    if forall k: nat :: k < EXT_BLOB ==> Item(s, k, FR_BYTES) == BytesOf(values[k], FR_BYTES) {
      forall q: nat | q < EXT_BYTES ensures s[q] == SpelledByte(values, q) {
        var k := q / FR_BYTES;
        ItemFits(k, EXT_BLOB, FR_BYTES, s);
        assert Item(s, k, FR_BYTES)[q % FR_BYTES] == s[q];
      }
    }
  }

  /** Item k of blob b's bytes is item (b, k) of the buffer. */
  lemma BlobItem(s: seq<int>, b: nat, k: nat, size: nat, w: nat, batch: nat)
    requires b < batch && size * w >= 0 && batch * (size * w) <= |s| && k < size
    ensures Item(Blob(s, b, size * w, size * w), k, w) == Item(s, At(b, k, size), w)
  {
    BlobFits(s, b, size * w, size * w, batch);
    var blob := Blob(s, b, size * w, size * w);
    ItemFits(k, size, w, blob);
    MulAssoc(b, size, w);
    MulDistrib(b * size, k, w);
    var lo, from := b * (size * w), k * w;
    assert blob[from..from + w] == s[lo + from..lo + from + w];
  }

  lemma ReversedIs13(b: nat, i: nat)
    ensures Reversed(b, i, 13) == Slot(b, Brev13(i)) && At(b, i, Pow2(13)) == Slot(b, i) && Pow2(13) == EXT_BLOB
  {
    Pow2Of13();
  }

  // ------------------------------------------------------------ the load, blob by blob

  /** Slot m of a blob takes the residue of the item at the reversed place. */
  ghost function FromWire(blob: seq<int>, bits: nat, p: int): (xs: seq<int>)
    requires p > 0
    ensures |xs| == Pow2(bits)
    ensures forall m: nat :: m < Pow2(bits) ==> xs[m] == Res(WireValue(blob, Brev(m, bits)), p)
  {
    seq(Pow2(bits), m requires 0 <= m => Res(WireValue(blob, Brev(m, bits)), p))
  }

  /** What the load leaves in the slots of each blob depends on the bytes of that blob only. */
  lemma LoadRefines(bytes: seq<int>, bits: nat, batch: nat, b: nat, p: int)
    requires p > 0 && b < batch && batch * (Pow2(bits) * FR_BYTES) <= |bytes|
    ensures Blob(LoadedAll(bytes, bits, batch, p), b, Pow2(bits), Pow2(bits))
         == FromWire(Blob(bytes, b, Pow2(bits) * FR_BYTES, Pow2(bits) * FR_BYTES), bits, p)
  {
    hide Res, Brev, Pow2, Blob, LoadedAll, Item, BigEndian, Reversed;
    var size := Pow2(bits);
    var xs, blob := LoadedAll(bytes, bits, batch, p), Blob(bytes, b, size * FR_BYTES, size * FR_BYTES);
    forall m: nat | m < size ensures Blob(xs, b, size, size)[m] == FromWire(blob, bits, p)[m] {
      LoadedAt(bytes, bits, batch, p, b, m);
      BlobFits(xs, b, size, size, batch);
      BlobItem(bytes, b, Brev(m, bits), size, FR_BYTES, batch);
      ReversedIs(b, m, bits);
    }
  }

  lemma ReversedIs(b: nat, i: nat, bits: nat)
    ensures Reversed(b, i, bits) == At(b, Brev(i, bits), Pow2(bits))
  {
  }

  /** Every 32-byte item of a blob spells a number below p. */
  ghost predicate CanonicalBlob(blob: seq<int>, size: nat, p: int) {
    forall k: nat :: k < size ==> WireValue(blob, k) < p
  }

  ghost predicate AllCanonical(bytes: seq<int>, size: nat, batch: nat, p: int) {
    forall b: nat :: b < batch ==> CanonicalBlob(Blob(bytes, b, size * FR_BYTES, size * FR_BYTES), size, p)
  }

  /** The two load kernels, bytes to elements: whatever the items spell, each slot takes its residue; when canonicity
      is checked the flag is raised exactly if some blob has an item that is not canonical. */
  method LoadBlobs(out: array<int>, bytes: array<int>, bits: nat, batch: nat, checked: bool, f: M.FieldConstants)
    returns (err: bool)
    requires FrConstants(f) && out != bytes
    requires batch * Pow2(bits) <= out.Length && batch * Pow2(bits) * FR_BYTES <= bytes.Length
    requires 0 <= batch * Pow2(bits) * FR_BYTES && ByteBuffer(bytes[..batch * Pow2(bits) * FR_BYTES])
    modifies out
    ensures L.Val(f.p) > 1
    ensures forall b: nat :: b < batch ==>
      Blob(out[..], b, Pow2(bits), Pow2(bits))
      == FromWire(Blob(bytes[..], b, Pow2(bits) * FR_BYTES, Pow2(bits) * FR_BYTES), bits, L.Val(f.p))
    ensures err <==> checked && !AllCanonical(bytes[..], Pow2(bits), batch, L.Val(f.p))
  {
    hide FrConstants, ByteBuffer, ItemsAreBytes, HoldsAll, L.Val, Blob, FromWire, LoadedAll, Pow2, Item, M.Holds, Res,
      WireValue, CanonicalBlob, At, Reversed;
    ConstantsArePositive(f);
    MulNonneg(batch, Pow2(bits));
    var size, n := Pow2(bits), batch * Pow2(bits);
    ghost var wire, p := bytes[..], L.Val(f.p);
    MulAssoc(batch, size, FR_BYTES);
    BytesInItems(wire, n);
    var limbs := new int[n * FR_LIMBS];
    err := Decode(limbs, bytes, bits, batch, checked, f);
    ghost var xs := LoadedAll(wire, bits, batch, p);
    DecodedAll(limbs[..], wire, bits, batch, f);
    ElementsOf(out, limbs, n, f, xs);
    forall b: nat | b < batch
      ensures Blob(out[..], b, size, size) == FromWire(Blob(wire, b, size * FR_BYTES, size * FR_BYTES), bits, p)
    {
      LoadRefines(wire, bits, batch, b, p);
      PrefixBlob(out[..], xs, b, size, batch);
    }
    CanonicalItems(wire, size, batch, p);
  }

  /** Some item is not canonical exactly if some blob is not. */
  lemma CanonicalItems(wire: seq<int>, size: nat, batch: nat, p: int)
    requires batch * (size * FR_BYTES) <= |wire|
    ensures (exists i: nat, b: nat :: i < size && b < batch && WireValue(wire, At(b, i, size)) >= p)
      <==> !AllCanonical(wire, size, batch, p)
  {
    hide Blob, Item, BigEndian, At;
    forall i: nat, b: nat | i < size && b < batch
      ensures WireValue(wire, At(b, i, size)) == WireValue(Blob(wire, b, size * FR_BYTES, size * FR_BYTES), i)
    {
      BlobItem(wire, b, i, size, FR_BYTES, batch);
    }
    if b: nat :| b < batch && !CanonicalBlob(Blob(wire, b, size * FR_BYTES, size * FR_BYTES), size, p) {
      var i: nat :| i < size && WireValue(Blob(wire, b, size * FR_BYTES, size * FR_BYTES), i) >= p;
      assert WireValue(wire, At(b, i, size)) >= p;
    }
    if i: nat, b: nat :| i < size && b < batch && WireValue(wire, At(b, i, size)) >= p {
      assert !CanonicalBlob(Blob(wire, b, size * FR_BYTES, size * FR_BYTES), size, p);
    }
  }

  lemma PrefixBlob(s: seq<int>, xs: seq<int>, b: nat, size: nat, batch: nat)
    requires b < batch && |xs| == batch * size <= |s| && s[..|xs|] == xs
    ensures Blob(s, b, size, size) == Blob(xs, b, size, size)
  {
    BlobFits(s, b, size, size, batch);
    BlobFits(xs, b, size, size, batch);
    MulMono(b + 1, batch, size);
    MulDistrib(b, 1, size);
    var lo := b * size;
    assert s[..|xs|][lo..lo + size] == s[lo..lo + size];
  }

  lemma FromWireIsFromCells(cells: seq<int>, p: int)
    requires p > 0
    ensures FromWire(cells, 13, p) == FromCells(CellValues(cells), p)
  {
    hide Res, WireValue, Brev, Pow2;
    Pow2Of13();
    forall m: nat | m < EXT_BLOB ensures FromWire(cells, 13, p)[m] == FromCells(CellValues(cells), p)[m] {
      ReversedIs13(0, m);
      BrevIs13(m);
    }
  }

  lemma BrevIs13(m: nat)
    ensures Brev13(m) == Brev(m, 13)
  {
  }

  /** The load of recovery: cell bytes in wire order to field elements in domain order. */
  method LoadCells(out: array<int>, bytes: array<int>, batch: nat, f: M.FieldConstants)
    requires FrConstants(f) && out != bytes && batch * EXT_BLOB <= out.Length && batch * EXT_BYTES <= bytes.Length
    requires ByteBuffer(bytes[..batch * EXT_BYTES])
    modifies out
    ensures L.Val(f.p) > 1
    ensures forall b: nat :: b < batch ==>
      Blob(out[..], b, EXT_BLOB, EXT_BLOB)
      == FromCells(CellValues(Blob(bytes[..], b, EXT_BYTES, EXT_BYTES)), L.Val(f.p))
  {
    hide FrConstants, ByteBuffer, L.Val, Blob, FromCells, CellValues, FromWire, Pow2, CanonicalBlob;
    Pow2Of13();
    assert batch * EXT_BLOB * FR_BYTES == batch * EXT_BYTES;
    var err := LoadBlobs(out, bytes, 13, batch, false, f);
    forall b: nat | b < batch
      ensures Blob(out[..], b, EXT_BLOB, EXT_BLOB)
           == FromCells(CellValues(Blob(bytes[..], b, EXT_BYTES, EXT_BYTES)), L.Val(f.p))
    {
      FromWireIsFromCells(Blob(bytes[..], b, EXT_BYTES, EXT_BYTES), L.Val(f.p));
    }
  }

  // ------------------------------------------------------------ the store, blob by blob

  /** What the store leaves in the bytes of each blob depends on the slots of that blob only. */
  lemma StoreRefines(out: seq<int>, xs: seq<int>, batch: nat, b: nat)
    requires b < batch && |xs| == batch * EXT_BLOB && batch * EXT_BYTES <= |out|
    requires forall i: nat, b: nat :: i < EXT_BLOB && b < batch ==>
      Slot(b, i) < |xs| && Item(out, Slot(b, Brev13(i)), FR_BYTES) == BytesOf(xs[Slot(b, i)], FR_BYTES)
    ensures Blob(out, b, EXT_BYTES, EXT_BYTES) == CellSpelling(ToCells(Blob(xs, b, EXT_BLOB, EXT_BLOB)))
  {
    hide Brev13, Slot, Blob, CellSpelling, ToCells, Item, BytesOf;
    var blob, values := Blob(out, b, EXT_BYTES, EXT_BYTES), ToCells(Blob(xs, b, EXT_BLOB, EXT_BLOB));
    forall k: nat | k < EXT_BLOB ensures Item(blob, k, FR_BYTES) == BytesOf(values[k], FR_BYTES) {
      BlobItem(out, b, k, EXT_BLOB, FR_BYTES, batch);
      SlotIsAt(b, k);
      Brev13Involution(k);
      SlotInRange(b, Brev13(k), batch, xs);
    }
    SpelledItems(blob, values);
  }

  lemma SlotIsAt(b: nat, k: nat)
    ensures At(b, k, EXT_BLOB) == Slot(b, k)
  {
  }

  /** The store of recovery: field elements in domain order to cell bytes in wire order. */
  method StoreCells(out: array<int>, input: array<int>, batch: nat, f: M.FieldConstants)
    requires FrConstants(f) && L.Val(f.p) > 0 && out != input
    requires batch * EXT_BYTES <= out.Length && batch * EXT_BLOB <= input.Length
    requires forall k :: 0 <= k < batch * EXT_BLOB ==> Element(input[k], L.Val(f.p))
    modifies out
    ensures forall b: nat :: b < batch ==>
      Blob(out[..], b, EXT_BYTES, EXT_BYTES) == CellSpelling(ToCells(Blob(input[..], b, EXT_BLOB, EXT_BLOB)))
  {
    hide FrConstants, HoldsAll, L.Val, Blob, CellSpelling, ToCells, Pow2, Item, M.Holds, BytesOf, Slot, Brev13;
    Pow2Of13();
    var n := batch * EXT_BLOB;
    var xs := input[..n];
    var limbs := new int[n * FR_LIMBS];
    LimbsFor(limbs, xs, f);
    Encode(out, limbs, 13, batch, f, xs);
    forall i: nat, b: nat | i < EXT_BLOB && b < batch
      ensures Slot(b, i) < |xs| && Item(out[..], Slot(b, Brev13(i)), FR_BYTES) == BytesOf(xs[Slot(b, i)], FR_BYTES)
    {
      ReversedIs13(b, i);
    }
    forall b: nat | b < batch
      ensures Blob(out[..], b, EXT_BYTES, EXT_BYTES) == CellSpelling(ToCells(Blob(input[..], b, EXT_BLOB, EXT_BLOB)))
    {
      StoreRefines(out[..], xs, batch, b);
      PrefixBlob(input[..], xs, b, EXT_BLOB, batch);
    }
  }
}
