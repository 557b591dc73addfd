/** Nested tables written out one row after the other, as files and buffers hold them. */
module Flatten {
  import opened Modular

  /** The rows, one after the other. */
  function Flat<T>(rows: seq<seq<T>>): seq<T> {
    if rows == [] then [] else Flat(rows[..|rows| - 1]) + rows[|rows| - 1]
  }

  ghost predicate Even<T>(rows: seq<seq<T>>, width: nat) {
    forall i :: 0 <= i < |rows| ==> |rows[i]| == width
  }

  lemma {:induction false} FlatLength<T>(rows: seq<seq<T>>, width: nat)
    requires Even(rows, width)
    ensures |Flat(rows)| == |rows| * width
    decreases |rows|
  {
    if rows != [] {
      FlatLength(rows[..|rows| - 1], width);
      MulDistrib(|rows| - 1, 1, width);
    }
  }

  /** Entry k of row i is found at i * width + k. */
  lemma {:induction false} FlatAt<T>(rows: seq<seq<T>>, width: nat, i: nat, k: nat)
    requires Even(rows, width) && i < |rows| && k < width
    ensures 0 <= i * width + k < |Flat(rows)| && Flat(rows)[i * width + k] == rows[i][k]
    decreases |rows|
  {
    var front, n := rows[..|rows| - 1], |rows| - 1;
    FlatLength(front, width);
    if i < n {
      FlatAt(front, width, i, k);
    } else {
      MulNonneg(i, width);
      assert |rows[n]| == width;
    }
  }

  /** Row i is the i-th slice of its width. */
  lemma FlatRow<T>(rows: seq<seq<T>>, width: nat, i: nat)
    requires Even(rows, width) && i < |rows|
    ensures 0 <= i * width && i * width + width <= |Flat(rows)|
    ensures Flat(rows)[i * width..i * width + width] == rows[i]
  {
    FlatLength(rows, width);
    MulNonneg(i, width);
    MulMono(i + 1, |rows|, width);
    MulDistrib(i, 1, width);
    forall k: nat | k < width ensures Flat(rows)[i * width + k] == rows[i][k] {
      FlatAt(rows, width, i, k);
    }
  }
}
