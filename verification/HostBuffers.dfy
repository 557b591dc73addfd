/** Host side memory: copies of chunks of blobs, what a chunk loop leaves alone, and allocation. */
module HostBuffers {
  import opened Modular
  import opened Transforms

  /** memcpy of n slots. */
  method CopyChunk(dst: array<int>, src: seq<int>, dstAt: nat, srcAt: nat, n: nat)
    requires dstAt + n <= dst.Length && srcAt + n <= |src|
    modifies dst
    ensures forall q :: 0 <= q < dst.Length ==>
      dst[q] == if dstAt <= q < dstAt + n then src[srcAt + (q - dstAt)] else old(dst[q])
  {
    for i := 0 to n
      invariant forall q :: 0 <= q < dst.Length ==>
        dst[q] == if dstAt <= q < dstAt + i then src[srcAt + (q - dstAt)] else old(dst[q])
    {
      dst[dstAt + i] := src[srcAt + i];
    }
  }

  lemma BlocksFit(b: nat, batch: nat, size: nat, length: nat)
    requires b < batch && batch * size <= length
    ensures 0 <= b * size && b * size + size <= length
  {
    MulNonneg(b, size);
    MulMono(b + 1, batch, size);
    MulDistrib(b, 1, size);
  }

  lemma CopiedBlob(dst: seq<int>, src: seq<int>, at: nat, b: nat, srcAt: nat, c: nat, batch: nat, size: nat)
    requires at <= b < at + batch && srcAt <= c < srcAt + batch && b - at == c - srcAt
    requires (at + batch) * size <= |dst| && (srcAt + batch) * size <= |src|
    requires forall q :: at * size <= q < (at + batch) * size ==> dst[q] == src[srcAt * size + (q - at * size)]
    ensures Blob(dst, b, size, size) == Blob(src, c, size, size)
  {
    BlobFits(dst, b, size, size, at + batch);
    BlobFits(src, c, size, size, srcAt + batch);
    MulMono(at, b, size);
    MulMono(b + 1, at + batch, size);
    MulDistrib(b, 1, size);
    MulDistrib(b, at, size);
    MulDistrib(c, srcAt, size);
    var x, y := Blob(dst, b, size, size), Blob(src, c, size, size);
    forall i | 0 <= i < size ensures x[i] == y[i] {
      assert dst[b * size + i] == src[c * size + i];
    }
  }

  lemma CopiedIn(dst: seq<int>, src: seq<int>, first: nat, batch: nat, size: nat)
    requires batch * size <= |dst| && (first + batch) * size <= |src|
    requires forall q :: 0 <= q < batch * size ==> dst[q] == src[first * size + q]
    ensures forall b: nat :: b < batch ==> Blob(dst, b, size, size) == Blob(src, first + b, size, size)
  {
    forall b: nat | b < batch ensures Blob(dst, b, size, size) == Blob(src, first + b, size, size) {
      CopiedBlob(dst, src, 0, b, first, first + b, batch, size);
    }
  }

  lemma CopiedOut(dst: seq<int>, src: seq<int>, first: nat, batch: nat, size: nat)
    requires (first + batch) * size <= |dst| && batch * size <= |src|
    requires forall q :: first * size <= q < (first + batch) * size ==> dst[q] == src[q - first * size]
    ensures forall b: nat :: first <= b < first + batch ==>
      Blob(dst, b, size, size) == Blob(src, b - first, size, size)
  {
    forall b: nat | first <= b < first + batch ensures Blob(dst, b, size, size) == Blob(src, b - first, size, size) {
      CopiedBlob(dst, src, first, b, 0, b - first, batch, size);
    }
  }

  lemma EarlierBlobs(was: seq<int>, now: seq<int>, done: nat, size: nat)
    requires |was| == |now| && done * size <= |was|
    requires forall q :: 0 <= q < done * size ==> now[q] == was[q]
    ensures forall b: nat :: b < done ==> Blob(now, b, size, size) == Blob(was, b, size, size)
  {
    forall b: nat | b < done ensures Blob(now, b, size, size) == Blob(was, b, size, size) {
      BlobFits(now, b, size, size, done);
      BlobFits(was, b, size, size, done);
      MulMono(b + 1, done, size);
      MulDistrib(b, 1, size);
      var lo := b * size;
      assert now[lo..lo + size] == was[lo..lo + size];
    }
  }

  /** Nothing from blob `done` on has been written. */
  ghost predicate KeptFrom(now: seq<int>, was: seq<int>, done: nat, size: nat) {
    |now| == |was| && forall q :: done * size <= q < |now| ==> now[q] == was[q]
  }

  lemma KeptThrough(a: seq<int>, b: seq<int>, c: seq<int>, first: nat, second: nat, size: nat)
    requires KeptFrom(b, a, first, size) && KeptFrom(c, b, second, size) && first <= second
    ensures KeptFrom(c, a, second, size)
  {
    MulMono(first, second, size);
  }

  // ------------------------------------------------------------ chunks

  /** `done` blobs are a whole number of chunks. */
  ghost predicate WholeChunks(done: nat, maxBatch: nat) {
    maxBatch > 0 && done % maxBatch == 0
  }

  lemma NextBoundary(done: nat, maxBatch: nat)
    requires WholeChunks(done, maxBatch)
    ensures WholeChunks(done + maxBatch, maxBatch)
  {
    DivNonneg(done, maxBatch);
    MulDistrib(done / maxBatch, 1, maxBatch);
    DivModUnique(done + maxBatch, maxBatch, done / maxBatch + 1, 0);
  }

  // ------------------------------------------------------------ allocation

  /** Fresh arrays of the given sizes, no two the same. */
  method NewBuffers(sizes: seq<nat>) returns (bs: seq<array<int>>)
    ensures |bs| == |sizes| && Distinguished(bs)
    ensures forall i: nat :: i < |bs| ==> fresh(bs[i]) && bs[i].Length == sizes[i]
  {
    bs := [];
    for i := 0 to |sizes|
      invariant |bs| == i && Distinguished(bs)
      invariant forall q: nat :: q < i ==> fresh(bs[q]) && bs[q].Length == sizes[q]
    {
      var b := new int[sizes[i]];
      bs := bs + [b];
    }
  }

  ghost predicate Distinguished(bs: seq<array<int>>) {
    forall i, j :: 0 <= i < j < |bs| ==> bs[i] != bs[j]
  }

  /** The place of an array in a list, or the list's length. */
  ghost function Number(bs: seq<array<int>>, a: array<int>): nat {
    if bs == [] then 0 else if bs[0] == a then 0 else 1 + Number(bs[1..], a)
  }

  lemma {:induction false} NumberOf(bs: seq<array<int>>, i: nat)
    requires Distinguished(bs) && i < |bs|
    ensures Number(bs, bs[i]) == i
  {
    if i > 0 {
      NumberOf(bs[1..], i - 1);
    }
  }

  lemma NumbersOf(first: array<int>, second: array<int>, bs: seq<array<int>>)
    requires Distinguished([first, second] + bs)
    ensures Number([first, second] + bs, first) == 0 && Number([first, second] + bs, second) == 1
    ensures forall i: nat :: i < |bs| ==> Number([first, second] + bs, bs[i]) == i + 2
  {
    hide Number, Distinguished;
    var all := [first, second] + bs;
    NumberOf(all, 0);
    NumberOf(all, 1);
    forall i: nat | i < |bs| ensures Number(all, bs[i]) == i + 2 {
      assert all[i + 2] == bs[i];
      NumberOf(all, i + 2);
    }
  }
}
