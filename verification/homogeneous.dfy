/** `makeHomogeneous` from dcpcr/utils/utils.py: keep the first three
    coordinates of every row and append a constant 1. */
module Homogeneous {
  import opened Arrays

  /** The slice `p[:3]`: the first three entries, or the whole row when it is shorter. */
  function Xyz(p: Row): Row {
    if |p| <= 3 then p else p[..3]
  }

  /** One row of a homogeneous array: the leading coordinates of `p`, then 1. */
  function Lift(p: Row): (h: Row)
    ensures |h| == Min(|p|, 3) + 1
    ensures forall k :: 0 <= k < |h| - 1 ==> h[k] == p[k]
    ensures h[|h| - 1] == 1.0
  {
    Xyz(p) + [1.0]
  }

  /** `makeHomogeneous` on a two-dimensional array. */
  function MakeHomogeneous(a: Matrix): (r: Matrix)
    requires a.Valid()
    ensures r.Valid() && |r.rows| == |a.rows|
    ensures r.width == Min(a.width, 3) + 1
    ensures forall i, k :: 0 <= i < |a.rows| && 0 <= k < r.width - 1 ==> r.rows[i][k] == a.rows[i][k]
    ensures forall i :: 0 <= i < |a.rows| ==> r.rows[i][r.width - 1] == 1.0
  {
    Matrix(Min(a.width, 3) + 1, seq(|a.rows|, i requires 0 <= i < |a.rows| => Lift(a.rows[i])))
  }

  /** `makeHomogeneous` on a three-dimensional array: the batch axis and the
      point axis are kept, the last axis becomes the homogeneous one. */
  function MakeHomogeneousBatch(b: Batch): (r: Batch)
    requires b.Valid()
    ensures r.Valid() && |r.items| == |b.items| && r.points == b.points
    ensures r.width == Min(b.width, 3) + 1
    ensures forall j, i, k :: 0 <= j < |b.items| && 0 <= i < b.points && 0 <= k < r.width - 1 ==>
      r.items[j][i][k] == b.items[j][i][k]
    ensures forall j, i :: 0 <= j < |b.items| && 0 <= i < b.points ==> r.items[j][i][r.width - 1] == 1.0
  {
    var items := seq(|b.items|, j requires 0 <= j < |b.items| => MakeHomogeneous(b.Item(j)).rows);
    assert forall j :: 0 <= j < |items| ==> items[j] == MakeHomogeneous(b.Item(j)).rows;
    Batch(b.points, Min(b.width, 3) + 1, items)
  }

  /** Dropping the homogeneous coordinate of a lifted row gives back its first
      three coordinates, that is, the whole row when it is a 3D point. */
  lemma HomogeneousRoundTrip(a: Matrix)
    requires a.Valid() && a.width >= 3
    ensures forall i :: 0 <= i < |a.rows| ==> Xyz(MakeHomogeneous(a).rows[i]) == a.rows[i][..3]
    ensures a.width == 3 ==> forall i :: 0 <= i < |a.rows| ==> Xyz(MakeHomogeneous(a).rows[i]) == a.rows[i]
  {
  }

  /** Lifting an array that is already homogeneous changes nothing. */
  lemma HomogeneousIdempotent(a: Matrix)
    requires a.Valid() && a.width >= 3
    ensures MakeHomogeneous(MakeHomogeneous(a)) == MakeHomogeneous(a)
  {
  }
}
