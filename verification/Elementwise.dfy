/** The kernels that treat every slot on its own: one invocation (i, b) per slot, in any order. */
module Elementwise {
  import opened Layout
  import opened Modular
  import opened Bits
  import opened Field
  import opened Dispatch
  import opened Transforms
  import opened RecoveryMath

  /** Slot i of blob b. */
  function Slot(b: nat, i: nat): nat {
    b * EXT_BLOB + i
  }

  lemma SlotUnique(b: nat, i: nat, b': nat, i': nat)
    requires i < EXT_BLOB && i' < EXT_BLOB && Slot(b, i) == Slot(b', i')
    ensures b == b' && i == i'
  {
    DivModUnique(Slot(b, i), EXT_BLOB, b, i);
    DivModUnique(Slot(b', i'), EXT_BLOB, b', i');
  }

  lemma SlotInRange(b: nat, i: nat, batch: nat, s: seq<int>)
    requires b < batch && i < EXT_BLOB && batch * EXT_BLOB <= |s|
    ensures Slot(b, i) < |s| && Blob(s, b, EXT_BLOB, EXT_BLOB)[i] == s[Slot(b, i)]
  {
    BlobFits(s, b, EXT_BLOB, EXT_BLOB, batch);
  }

  /** The rest of the grid writes to other slots. */
  lemma OtherSlots(i: nat, b: nat)
    requires i < EXT_BLOB
    ensures forall i': nat, b': nat :: i' < EXT_BLOB && (i', b') != (i, b) ==> Slot(b', i') != Slot(b, i)
  {
    forall i': nat, b': nat | i' < EXT_BLOB && (i', b') != (i, b) ensures Slot(b', i') != Slot(b, i) {
      if Slot(b', i') == Slot(b, i) {
        SlotUnique(b, i, b', i');
      }
    }
  }

  lemma SlotsInRange(batch: nat, s: seq<int>)
    requires batch * EXT_BLOB <= |s|
    ensures forall i: nat, b: nat :: i < EXT_BLOB && b < batch ==> Slot(b, i) < |s|
  {
    forall i: nat, b: nat | i < EXT_BLOB && b < batch ensures Slot(b, i) < |s| {
      SlotInRange(b, i, batch, s);
    }
  }

  // ------------------------------------------------------------ multiply and divide

  /** How the second operand is addressed. */
  datatype BMode = Batched | SharedTable | Broadcast

  function BIndex(mode: BMode, b: nat, i: nat): nat {
    match mode
    case Batched => Slot(b, i)
    case SharedTable => i
    case Broadcast => 0
  }

  ghost predicate OperandReady(mode: BMode, s: seq<int>, batch: nat) {
    match mode
    case Batched => batch * EXT_BLOB <= |s|
    case SharedTable => EXT_BLOB <= |s|
    case Broadcast => 0 < |s|
  }

  /** The second operand as blob b sees it. */
  ghost function Operand(mode: BMode, s: seq<int>, b: nat): (r: seq<int>)
    requires mode.SharedTable? ==> EXT_BLOB <= |s|
    requires mode.Broadcast? ==> 0 < |s|
    ensures |r| == EXT_BLOB
  {
    match mode
    case Batched => Blob(s, b, EXT_BLOB, EXT_BLOB)
    case SharedTable => s[..EXT_BLOB]
    case Broadcast => seq(EXT_BLOB, _ => s[0])
  }

  lemma OperandAt(mode: BMode, s: seq<int>, b: nat, i: nat, batch: nat)
    requires OperandReady(mode, s, batch) && b < batch && i < EXT_BLOB
    ensures BIndex(mode, b, i) < |s| && s[BIndex(mode, b, i)] == Operand(mode, s, b)[i]
  {
    if mode.Batched? {
      SlotInRange(b, i, batch, s);
    }
  }

  /** One invocation of the multiply kernel. */
  method EwMulAt(out: array<int>, a: array<int>, bb: array<int>, mode: BMode, i: nat, b: nat, p: int)
    requires p > 0 && out != bb
    requires Slot(b, i) < out.Length && Slot(b, i) < a.Length && BIndex(mode, b, i) < bb.Length
    modifies out
    ensures out[Slot(b, i)] == FrMul(old(a[Slot(b, i)]), bb[BIndex(mode, b, i)], p)
    ensures forall q :: 0 <= q < out.Length && q != Slot(b, i) ==> out[q] == old(out[q])
  {
    hide FrMul;
    var base := b * EXT_BLOB;
    var bIndex := BIndex(mode, b, i);
    var av := a[base + i];
    var bv := bb[bIndex];
    out[base + i] := FrMul(av, bv, p);
  }

  /** Every slot a dispatch of the multiply kernel touches exists. */
  ghost predicate MulInRange(outLen: nat, aLen: nat, bLen: nat, mode: BMode, batch: nat) {
    forall i: nat, b: nat :: i < EXT_BLOB && b < batch ==>
      Slot(b, i) < outLen && Slot(b, i) < aLen && BIndex(mode, b, i) < bLen
  }

  /** The whole grid, in any order. Reading slot (i, b) before writing it is all that makes
      working in place over the input safe. */
  method EwMulGrid(out: array<int>, a: array<int>, bb: array<int>, mode: BMode, batch: nat, p: int)
    requires p > 0 && out != bb && MulInRange(out.Length, a.Length, bb.Length, mode, batch)
    modifies out
    ensures forall i: nat, b: nat :: i < EXT_BLOB && b < batch ==>
      out[Slot(b, i)] == FrMul(old(a[Slot(b, i)]), bb[BIndex(mode, b, i)], p)
  {
    hide FrMul, Slot, BIndex;
    var pending: set<(nat, nat)> := Grid(EXT_BLOB, batch);
    while pending != {}
      invariant forall g :: g in pending ==> 0 <= g.0 < EXT_BLOB && 0 <= g.1 < batch
      invariant forall i: nat, b: nat :: i < EXT_BLOB && b < batch && (i, b) in pending ==>
        a[Slot(b, i)] == old(a[Slot(b, i)])
      invariant forall i: nat, b: nat :: i < EXT_BLOB && b < batch && (i, b) !in pending ==>
        out[Slot(b, i)] == FrMul(old(a[Slot(b, i)]), bb[BIndex(mode, b, i)], p)
      decreases |pending|
    {
      var g :| g in pending;
      OtherSlots(g.0, g.1);
      EwMulAt(out, a, bb, mode, g.0, g.1, p);
      pending := pending - {g};
    }
  }

  /** out := a * operand. out may be a itself. */
  method EwMul(out: array<int>, a: array<int>, bb: array<int>, mode: BMode, batch: nat, p: int)
    requires p > 0 && out != bb
    requires batch * EXT_BLOB <= out.Length && batch * EXT_BLOB <= a.Length && OperandReady(mode, bb[..], batch)
    modifies out
    ensures forall b: nat :: b < batch ==>
      Blob(out[..], b, EXT_BLOB, EXT_BLOB)
      == Pointwise(Blob(old(a[..]), b, EXT_BLOB, EXT_BLOB), Operand(mode, bb[..], b), p)
  {
    hide FrMul, Slot, BIndex, Blob, Operand, Pointwise;
    ghost var was, table := a[..], bb[..];
    SlotsInRange(batch, out[..]);
    SlotsInRange(batch, was);
    forall i: nat, b: nat | i < EXT_BLOB && b < batch ensures BIndex(mode, b, i) < |table| {
      OperandAt(mode, table, b, i, batch);
    }
    EwMulGrid(out, a, bb, mode, batch, p);
    MulFromSlots(out[..], was, table, mode, batch, p);
  }

  lemma MulFromSlots(out: seq<int>, was: seq<int>, table: seq<int>, mode: BMode, batch: nat, p: int)
    requires p > 0 && batch * EXT_BLOB <= |out| && batch * EXT_BLOB <= |was| && OperandReady(mode, table, batch)
    requires forall i: nat, b: nat :: i < EXT_BLOB && b < batch ==>
      && Slot(b, i) < |out| && Slot(b, i) < |was| && BIndex(mode, b, i) < |table|
      && out[Slot(b, i)] == FrMul(was[Slot(b, i)], table[BIndex(mode, b, i)], p)
    ensures forall b: nat :: b < batch ==>
      Blob(out, b, EXT_BLOB, EXT_BLOB) == Pointwise(Blob(was, b, EXT_BLOB, EXT_BLOB), Operand(mode, table, b), p)
  {
    hide FrMul, Slot, BIndex, Blob, Operand;
    forall b: nat, i: nat | b < batch && i < EXT_BLOB
      ensures Blob(out, b, EXT_BLOB, EXT_BLOB)[i]
           == Pointwise(Blob(was, b, EXT_BLOB, EXT_BLOB), Operand(mode, table, b), p)[i]
    {
      SlotInRange(b, i, batch, out);
      SlotInRange(b, i, batch, was);
      OperandAt(mode, table, b, i, batch);
    }
  }

  /** out := a / b. */
  method EwDiv(out: array<int>, a: array<int>, bb: array<int>, batch: nat, p: int)
    requires p > 0 && out != bb && out != a
    requires batch * EXT_BLOB <= out.Length && batch * EXT_BLOB <= a.Length && batch * EXT_BLOB <= bb.Length
    modifies out
    ensures forall b: nat :: b < batch ==>
      Blob(out[..], b, EXT_BLOB, EXT_BLOB)
      == Quotients(Blob(a[..], b, EXT_BLOB, EXT_BLOB), Blob(bb[..], b, EXT_BLOB, EXT_BLOB), p)
  {
    hide FrMul, FrInv, Slot;
    ghost var num, den := a[..], bb[..];
    SlotsInRange(batch, out[..]);
    SlotsInRange(batch, num);
    SlotsInRange(batch, den);
    var pending: set<(nat, nat)> := Grid(EXT_BLOB, batch);
    while pending != {}
      invariant forall g :: g in pending ==> 0 <= g.0 < EXT_BLOB && 0 <= g.1 < batch
      invariant forall i: nat, b: nat :: i < EXT_BLOB && b < batch && (i, b) !in pending ==>
        out[Slot(b, i)] == FrMul(num[Slot(b, i)], FrInv(den[Slot(b, i)], p), p)
      decreases |pending|
    {
      var g :| g in pending;
      OtherSlots(g.0, g.1);
      out[Slot(g.1, g.0)] := FrMul(a[Slot(g.1, g.0)], FrInv(bb[Slot(g.1, g.0)], p), p);
      pending := pending - {g};
    }
    forall b: nat, i: nat | b < batch && i < EXT_BLOB
      ensures Blob(out[..], b, EXT_BLOB, EXT_BLOB)[i]
           == Quotients(Blob(num, b, EXT_BLOB, EXT_BLOB), Blob(den, b, EXT_BLOB, EXT_BLOB), p)[i]
    {
      SlotInRange(b, i, batch, out[..]);
      SlotInRange(b, i, batch, num);
      SlotInRange(b, i, batch, den);
    }
  }

  // ------------------------------------------------------------ cells to field elements and back

  /** Bit reversal of all 13 index bits. */
  function Brev13(i: nat): (r: nat)
    ensures r < EXT_BLOB
  {
    assert Pow2(13) == EXT_BLOB by { Pow2Of13(); }
    Brev(i, 13)
  }

  lemma Pow2Of13()
    ensures Pow2(13) == 8192
  {
    assert Pow2(5) == 32;
    Pow2Add(5, 5);
    Pow2Add(10, 3);
    assert Pow2(3) == 8;
  }

  lemma Brev13Involution(i: nat)
    requires i < EXT_BLOB
    ensures Brev13(Brev13(i)) == i
  {
    Pow2Of13();
    BrevInvolution(i, 13);
  }

  /** Slot m of the natural-order blob takes the value at wire index Brev13(m), reduced. */
  ghost function FromCells(cells: seq<int>, p: int): (r: seq<int>)
    requires p > 0 && |cells| == EXT_BLOB
    ensures |r| == EXT_BLOB && forall m :: 0 <= m < EXT_BLOB ==> r[m] == Res(cells[Brev13(m)], p)
  {
    seq(EXT_BLOB, m requires 0 <= m < EXT_BLOB => Res(cells[Brev13(m)], p))
  }

  ghost function ToCells(values: seq<int>): (r: seq<int>)
    requires |values| == EXT_BLOB
    ensures |r| == EXT_BLOB && forall i :: 0 <= i < EXT_BLOB ==> r[i] == values[Brev13(i)]
  {
    seq(EXT_BLOB, i requires 0 <= i < EXT_BLOB => values[Brev13(i)])
  }

  // ------------------------------------------------------------ the coset tables

  /** One thread fills the table of consecutive powers of a factor. */
  method PowSeq(out: array<int>, factor: int, p: int)
    requires p > 0 && out.Length == EXT_BLOB
    modifies out
    ensures out[..] == Powers(factor, EXT_BLOB, p)
  {
    hide Res;
    var acc := Res(1, p);
    out[0] := acc;
    for i := 1 to EXT_BLOB
      invariant acc == Res(Pow(factor, i - 1), p)
      invariant forall j :: 0 <= j < i ==> out[j] == Res(Pow(factor, j), p)
    {
      PowerStep(acc, factor, i, p);
      acc := FrMul(acc, factor, p);
      out[i] := acc;
    }
  }

  lemma PowerStep(acc: int, factor: int, i: nat, p: int)
    requires p > 0 && i > 0 && acc == Res(Pow(factor, i - 1), p)
    ensures FrMul(acc, factor, p) == Res(Pow(factor, i), p)
  {
    hide Res, FrMul;
    CongRes(Pow(factor, i - 1), p);
    CongMul(acc, Pow(factor, i - 1), factor, factor, p);
    assert Pow(factor, i) == Pow(factor, i - 1) * factor;
    IsResidue(FrMul(acc, factor, p), Pow(factor, i), p);
  }
}
