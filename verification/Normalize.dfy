/** Batched inversion: Jacobian points to affine pairs with one field inversion per chunk, points at
    infinity skipped. */
module Normalize {
  import opened Modular
  import opened Field
  import opened Dispatch
  import opened Curve
  import opened CurveGroup

  // ------------------------------------------------------------ what normalization means

  /** (x / z^2, y / z^3), or (0, 0) at infinity. */
  ghost predicate IsNormal(q: AffinePair, j: Jacobian, p: int)
    requires p > 0
  {
    if j.z == 0 then q == AffinePair(0, 0)
    else Element(q.x, p) && Element(q.y, p) && Cong(q.x * (j.z * j.z), j.x, p) && Cong(q.y * (j.z * j.z * j.z), j.y, p)
  }

  /** The pair normalization yields stands for the same point of the curve; (0, 0) is free to mean
      infinity because b is nonzero. */
  lemma NormalRepresents(q: AffinePair, j: Jacobian, a: Affine, b: int, p: int)
    requires IsPrime(p) && !Cong(b, 0, p) && Represents(j, a, p) && OnCurve(a, b, p) && IsNormal(q, j, p)
    ensures PairRepresents(q, a, p)
  {
    hide Res;
    if a.Point? {
      var z := j.z;
      Nonzero(z, p);
      ProductNonzero(z, z, p);
      ProductNonzero(z * z, z, p);
      assert q.x * (z * z) == (z * z) * q.x && a.x * (z * z) == (z * z) * a.x;
      CancelLeft(z * z, q.x, a.x, p);
      ElementsEqual(q.x, a.x, p);
      assert q.y * (z * z * z) == (z * z * z) * q.y && a.y * (z * z * z) == (z * z * z) * a.y;
      CancelLeft(z * z * z, q.y, a.y, p);
      ElementsEqual(q.y, a.y, p);
    }
  }

  /** The pair stands for the same group member. */
  lemma NormalIs<G(!new)>(c: Reading<G>, q: AffinePair, j: Jacobian, x: G)
    requires Homomorphic(c) && c.p > 0 && Is(c, j, x) && IsNormal(q, j, c.p)
    ensures PairIs(c, q, x)
  {
    hide Is, PairIs, IsPrime, Additive, OnCurve, Represents, PairRepresents, IsNormal;
    var a := PointOf(c, j, x);
    NormalRepresents(q, j, a, c.b, c.p);
    PairIsPoint(c, q, a);
  }

  // ------------------------------------------------------------ one chunk

  /** The product of the nonzero z among points lo..i-1. */
  ghost function PrefixProduct(pts: seq<Jacobian>, lo: nat, i: nat, p: int): (r: int)
    requires p > 0 && lo <= i <= |pts|
    ensures Element(r, p)
    decreases i
  {
    ResRange(1, p);
    if i == lo then Res(1, p)
    else if pts[i - 1].z == 0 then PrefixProduct(pts, lo, i - 1, p)
    else FrMul(PrefixProduct(pts, lo, i - 1, p), pts[i - 1].z, p)
  }

  ghost predicate AllInField(pts: seq<Jacobian>, p: int) {
    forall i :: 0 <= i < |pts| ==> InField(pts[i], p)
  }

  lemma {:induction false} PrefixNonzero(pts: seq<Jacobian>, lo: nat, i: nat, p: int)
    requires IsPrime(p) && lo <= i <= |pts| && AllInField(pts, p)
    ensures !Cong(PrefixProduct(pts, lo, i, p), 0, p)
    decreases i
  {
    hide Res, FrMul;
    if i == lo {
      CongRes(1, p);
      OneNotZero(p);
    } else {
      PrefixNonzero(pts, lo, i - 1, p);
      var z := pts[i - 1].z;
      if z != 0 {
        assert Element(z, p);
        Nonzero(z, p);
        ProductNonzero(PrefixProduct(pts, lo, i - 1, p), z, p);
      }
    }
  }

  /** Stepping back over point i - 1: its own inverse, and the inverse of the shorter prefix. */
  lemma BackStep(pts: seq<Jacobian>, lo: nat, i: nat, inv: int, p: int)
    requires p > 0 && lo < i <= |pts| && Cong(inv * PrefixProduct(pts, lo, i, p), 1, p)
    ensures var z, pre := pts[i - 1].z, PrefixProduct(pts, lo, i - 1, p);
      if z == 0 then Cong(inv * pre, 1, p)
      else Cong(FrMul(pre, inv, p) * z, 1, p) && Cong(FrMul(inv, z, p) * pre, 1, p)
  {
    hide Res, FrMul;
    var z, pre := pts[i - 1].z, PrefixProduct(pts, lo, i - 1, p);
    if z != 0 {
      CongMul(inv, inv, FrMul(pre, z, p), pre * z, p);
      CongMul(FrMul(pre, inv, p), pre * inv, z, z, p);
      CongMul(FrMul(inv, z, p), inv * z, pre, pre, p);
      assert inv * (pre * z) == (pre * inv) * z == (inv * z) * pre;
    }
  }

  /** Scaling by the powers of an inverse of z undoes scaling by the powers of z. */
  lemma NormalFromInverse(j: Jacobian, zinv: int, p: int)
    requires p > 0 && j.z != 0 && Cong(zinv * j.z, 1, p)
    ensures var z2 := FrMul(zinv, zinv, p); var z3 := FrMul(z2, zinv, p);
      IsNormal(AffinePair(FrMul(j.x, z2, p), FrMul(j.y, z3, p)), j, p)
  {
    hide Res, FrMul;
    var z := j.z;
    var z2 := FrMul(zinv, zinv, p);
    var z3 := FrMul(z2, zinv, p);
    TrackMul(zinv, zinv, zinv, zinv, p);
    TrackMul(z2, zinv * zinv, zinv, zinv, p);
    TrackMul(j.x, j.x, z2, zinv * zinv, p);
    TrackMul(j.y, j.y, z3, zinv * zinv * zinv, p);
    CongMul(FrMul(j.x, z2, p), j.x * (zinv * zinv), z * z, z * z, p);
    CongMul(FrMul(j.y, z3, p), j.y * (zinv * zinv * zinv), z * z * z, z * z * z, p);
    InverseForms(j.x, j.y, zinv, z);
    var u := zinv * z;
    CongMul(u, 1, u, 1, p);
    CongMul(u * u, 1, u, 1, p);
    CongMul(j.x, j.x, u * u, 1, p);
    CongMul(j.y, j.y, u * u * u, 1, p);
  }

  lemma InverseForms(x: int, y: int, i: int, z: int)
    ensures (x * (i * i)) * (z * z) == x * ((i * z) * (i * z))
    ensures (y * (i * i * i)) * (z * z * z) == y * ((i * z) * (i * z) * (i * z))
  {
  }

  /** Slots lo..hi-1 of the output are the normal forms of the points there. */
  ghost predicate NormalRange(out: seq<AffinePair>, pts: seq<Jacobian>, lo: nat, hi: nat, p: int)
    requires p > 0
  {
    hi <= |out| && hi <= |pts| && forall i: nat :: lo <= i < hi ==> IsNormal(out[i], pts[i], p)
  }

  /** The forward pass: running products into the scratch buffer. */
  method ForwardPass(scratch: array<int>, pts: seq<Jacobian>, lo: nat, hi: nat, p: int) returns (acc: int)
    requires p > 0 && lo <= hi <= |pts| && hi <= scratch.Length
    modifies scratch
    ensures acc == PrefixProduct(pts, lo, hi, p)
    ensures forall i: nat :: lo <= i < hi ==> scratch[i] == PrefixProduct(pts, lo, i, p)
    ensures forall i: nat :: i < scratch.Length && !(lo <= i < hi) ==> scratch[i] == old(scratch[i])
  {
    hide FrMul;
    acc := Res(1, p);
    for i := lo to hi
      invariant acc == PrefixProduct(pts, lo, i, p)
      invariant forall q: nat :: lo <= q < i ==> scratch[q] == PrefixProduct(pts, lo, q, p)
      invariant forall q: nat :: q < scratch.Length && !(lo <= q < hi) ==> scratch[q] == old(scratch[q])
    {
      var z := pts[i].z;
      scratch[i] := acc;
      if z != 0 {
        acc := FrMul(acc, z, p);
      }
    }
  }

  /** The backward pass: peel one inverse off per nonzero point. */
  method BackwardPass(out: array<AffinePair>, scratch: array<int>, pts: seq<Jacobian>, lo: nat, hi: nat, inv0: int,
                      p: int)
    requires p > 0 && lo <= hi <= |pts| && hi <= scratch.Length && hi <= out.Length
    requires Cong(inv0 * PrefixProduct(pts, lo, hi, p), 1, p)
    requires forall i: nat :: lo <= i < hi ==> scratch[i] == PrefixProduct(pts, lo, i, p)
    modifies out
    ensures NormalRange(out[..], pts, lo, hi, p)
    ensures forall i: nat :: i < out.Length && !(lo <= i < hi) ==> out[i] == old(out[i])
  {
    hide Res, FrMul, IsNormal, PrefixProduct;
    var inv := inv0;
    var i := hi;
    while i > lo
      invariant lo <= i <= hi
      invariant Cong(inv * PrefixProduct(pts, lo, i, p), 1, p)
      invariant forall q: nat :: lo <= q < hi ==> scratch[q] == PrefixProduct(pts, lo, q, p)
      invariant forall q: nat :: i <= q < hi ==> IsNormal(out[q], pts[q], p)
      invariant forall q: nat :: q < out.Length && !(lo <= q < hi) ==> out[q] == old(out[q])
    {
      BackStep(pts, lo, i, inv, p);
      i := i - 1;
      var z := pts[i].z;
      if z == 0 {
        out[i] := AffinePair(0, 0);
        InfinityNormal(pts[i], p);
      } else {
        var pre := scratch[i];
        var zinv := FrMul(pre, inv, p);
        inv := FrMul(inv, z, p);
        var z2 := FrMul(zinv, zinv, p);
        var z3 := FrMul(z2, zinv, p);
        NormalFromInverse(pts[i], zinv, p);
        out[i] := AffinePair(FrMul(pts[i].x, z2, p), FrMul(pts[i].y, z3, p));
      }
    }
  }

  lemma InfinityNormal(j: Jacobian, p: int)
    requires p > 0 && j.z == 0
    ensures IsNormal(AffinePair(0, 0), j, p)
  {
  }

  /** The thread point i belongs to. */
  function Owner(i: nat, chunk: nat): (gid: nat)
    requires chunk > 0
  {
    DivNonneg(i, chunk);
    i / chunk
  }

  /** A thread's range is exactly the points it owns, so the ranges partition the points. */
  lemma OwnerIs(i: nat, gid: nat, chunk: nat)
    requires chunk > 0
    ensures Owner(i, chunk) == gid <==> gid * chunk <= i < gid * chunk + chunk
  {
    DivNonneg(i, chunk);
    if gid * chunk <= i < gid * chunk + chunk {
      DivModUnique(i, chunk, gid, i - gid * chunk);
    }
  }

  /** One thread. */
  method NormalizeThread(out: array<AffinePair>, scratch: array<int>, pts: seq<Jacobian>, gid: nat, count: nat,
                         chunk: nat, p: int)
    requires chunk > 0 && IsPrime(p) && AllInField(pts, p) && count <= |pts| && count <= scratch.Length
    requires count <= out.Length
    modifies out, scratch
    ensures forall i: nat :: i < count && Owner(i, chunk) == gid ==> IsNormal(out[i], pts[i], p)
    ensures forall i: nat :: i < out.Length && !(i < count && Owner(i, chunk) == gid) ==> out[i] == old(out[i])
  {
    hide Res, FrMul, FrInv, IsNormal, PrefixProduct, IsPrime, Pow, Owner;
    PrimePositive(p);
    forall i: nat ensures Owner(i, chunk) == gid <==> gid * chunk <= i < gid * chunk + chunk {
      OwnerIs(i, gid, chunk);
    }
    MulNonneg(gid, chunk);
    var lo := gid * chunk;
    if lo >= count {
      return;
    }
    var hi := if lo + chunk < count then lo + chunk else count;
    var acc := ForwardPass(scratch, pts, lo, hi, p);
    PrefixNonzero(pts, lo, hi, p);
    InverseCancels(acc, p);
    var inv := FrInv(acc, p);
    assert inv * acc == acc * inv;
    BackwardPass(out, scratch, pts, lo, hi, inv, p);
    assert NormalRange(out[..], pts, lo, hi, p);
  }

  lemma PrimePositive(p: int)
    requires IsPrime(p)
    ensures p > 1
  {
  }

  // ------------------------------------------------------------ the dispatch

  /** The thread of every point is dispatched; threads past the last full workgroup exist and do nothing. */
  lemma OwnerDispatched(i: nat, count: nat, chunk: nat)
    requires chunk > 0 && i < count
    ensures Owner(i, chunk) < (count + chunk - 1) / chunk <= ((count + chunk - 1) / chunk + 63) / 64 * 64
  {
    DivNonneg(i, chunk);
    var threads := (count + chunk - 1) / chunk;
    DivNonneg(count + chunk - 1, chunk);
    if i / chunk >= threads {
      MulMono(threads, i / chunk, chunk);
    }
  }

  /** The number of points one thread handles. */
  function InversionChunk(count: nat, floorChunk: nat, ceilChunk: nat, targetThreads: nat): (chunk: nat)
    requires targetThreads > 0
    ensures chunk <= ceilChunk && (floorChunk <= ceilChunk ==> floorChunk <= chunk)
    ensures 0 < floorChunk && 0 < ceilChunk ==> 0 < chunk
  {
    var chunk := count / targetThreads;
    var raised := if chunk < floorChunk then floorChunk else chunk;
    if raised > ceilChunk then ceilChunk else raised
  }

  /** The whole dispatch: every point normalized, for every count and chunk size, threads in any order,
      whatever the scratch buffer held. */
  method Normalize(out: array<AffinePair>, scratch: array<int>, pts: seq<Jacobian>, count: nat, chunk: nat, p: int)
    requires IsPrime(p) && AllInField(pts, p) && chunk > 0
    requires count <= |pts| && count <= scratch.Length && count <= out.Length
    modifies out, scratch
    ensures p > 0 && NormalRange(out[..], pts, 0, count, p)
    ensures forall i: nat :: count <= i < out.Length ==> out[i] == old(out[i])
  {
    hide IsNormal, IsPrime, Owner;
    PrimePositive(p);
    var threads := (count + chunk - 1) / chunk;
    DivNonneg(count + chunk - 1, chunk);
    var groups := (threads + 63) / 64;
    forall i: nat | i < count ensures Owner(i, chunk) < groups * 64 {
      OwnerDispatched(i, count, chunk);
    }
    var pending: set<nat> := Invocations(groups * 64);
    while pending != {}
      invariant forall t: nat :: t in pending ==> t < groups * 64
      invariant forall i: nat :: i < count && Owner(i, chunk) !in pending ==> IsNormal(out[i], pts[i], p)
      invariant forall i: nat :: count <= i < out.Length ==> out[i] == old(out[i])
      decreases |pending|
    {
      var gid :| gid in pending;
      NormalizeThread(out, scratch, pts, gid, count, chunk, p);
      pending := pending - {gid};
    }
  }
}
