/** `transform` from dcpcr/utils/utils.py: lift points to homogeneous form,
    multiply every point by the pose `T` as a column vector, and return the
    first three coordinates of the first batch element. */
module Transforms {
  import opened Results
  import opened Arrays
  import opened Homogeneous

  function Dot(u: Row, v: Row): real
    requires |u| == |v|
    decreases |u|
  {
    if |u| == 0 then 0.0 else u[0] * v[0] + Dot(u[1..], v[1..])
  }

  /** The matrix-vector product `T @ v`. */
  function Apply(T: Matrix, v: Row): Row
    requires T.Valid() && |v| == T.width
  {
    seq(|T.rows|, i requires 0 <= i < |T.rows| => Dot(T.rows[i], v))
  }

  /** `transform(points, T, device)` (utils.py:135-141). The product fails when
      the columns of `T` do not match the homogeneous width; taking element 0
      fails on an empty batch. */
  function Transform(points: Batch, T: Matrix): (r: Result<seq<Row>>)
    requires points.Valid() && T.Valid()
    ensures r.Err? <==> T.width != Min(points.width, 3) + 1 || |points.items| == 0
    ensures r == Err(MatmulShapeMismatch) <==> T.width != Min(points.width, 3) + 1
    ensures r.Ok? ==> |r.value| == points.points
    ensures r.Ok? ==> forall i :: 0 <= i < |r.value| ==> |r.value[i]| == Min(|T.rows|, 3)
  {
    var h := MakeHomogeneousBatch(points);
    if T.width != h.width then Err(MatmulShapeMismatch)
    else if |h.items| == 0 then Err(IndexOutOfRange)
    else Ok(seq(h.points, i requires 0 <= i < h.points => Xyz(Apply(T, h.items[0][i]))))
  }

  /** A 4 x 4 pose. */
  predicate IsPose(T: Matrix) {
    T.Valid() && T.width == 4 && |T.rows| == 4
  }

  function Identity(): (I: Matrix)
    ensures IsPose(I)
  {
    Matrix(4, [[1.0, 0.0, 0.0, 0.0], [0.0, 1.0, 0.0, 0.0], [0.0, 0.0, 1.0, 0.0], [0.0, 0.0, 0.0, 1.0]])
  }

  /** The pose that moves every point by `t`. */
  function Translation(t: Row): (T: Matrix)
    requires |t| == 3
    ensures IsPose(T)
  {
    Matrix(4, [[1.0, 0.0, 0.0, t[0]], [0.0, 1.0, 0.0, t[1]], [0.0, 0.0, 1.0, t[2]], [0.0, 0.0, 0.0, 1.0]])
  }

  lemma Dot4(u: Row, v: Row)
    requires |u| == 4 && |v| == 4
    ensures Dot(u, v) == u[0] * v[0] + u[1] * v[1] + u[2] * v[2] + u[3] * v[3]
  {
    assert Dot(u[3..], v[3..]) == u[3] * v[3] + Dot(u[4..], v[4..]);
    assert Dot(u[2..], v[2..]) == u[2] * v[2] + Dot(u[3..], v[3..]);
    assert Dot(u[1..], v[1..]) == u[1] * v[1] + Dot(u[2..], v[2..]);
  }

  /** Each output row is the first three components of `T (x, y, z, 1)`. */
  lemma TransformPoint(points: Batch, T: Matrix, i: nat)
    requires points.Valid() && IsPose(T)
    requires points.width >= 3 && |points.items| > 0 && i < points.points
    ensures Transform(points, T).Ok?
    ensures
      var p := points.items[0][i];
      var q := Transform(points, T).value[i];
      forall c :: 0 <= c < 3 ==> q[c] == T.rows[c][0] * p[0] + T.rows[c][1] * p[1] + T.rows[c][2] * p[2] + T.rows[c][3]
  {
    var h := MakeHomogeneousBatch(points).items[0][i];
    forall c | 0 <= c < 3 {
      Dot4(T.rows[c], h);
    }
  }

  /** The identity pose returns the xyz of the first batch element unchanged. */
  lemma TransformIdentity(points: Batch)
    requires points.Valid() && points.width >= 3 && |points.items| > 0
    ensures Transform(points, Identity()).Ok?
    ensures forall i :: 0 <= i < points.points ==> Transform(points, Identity()).value[i] == points.items[0][i][..3]
    ensures points.width == 3 ==> Transform(points, Identity()) == Ok(points.items[0])
  {
    forall i | 0 <= i < points.points
      ensures Transform(points, Identity()).value[i] == points.items[0][i][..3]
    {
      TransformPoint(points, Identity(), i);
    }
    if points.width == 3 {
      var out := Transform(points, Identity()).value;
      assert |points.items[0]| == points.points && points.Item(0).Valid();
      assert forall i :: 0 <= i < points.points ==> points.items[0][i][..3] == points.items[0][i];
      assert out == points.items[0];
    }
  }

  /** A translation pose moves every point of the first batch element by `t`. */
  lemma TransformTranslation(points: Batch, t: Row)
    requires points.Valid() && points.width >= 3 && |points.items| > 0 && |t| == 3
    ensures Transform(points, Translation(t)).Ok?
    ensures forall i, c :: 0 <= i < points.points && 0 <= c < 3 ==>
      Transform(points, Translation(t)).value[i][c] == points.items[0][i][c] + t[c]
  {
    forall i | 0 <= i < points.points {
      TransformPoint(points, Translation(t), i);
    }
  }

  /** Column `k` of a matrix. */
  function Column(B: Matrix, k: nat): Row
    requires B.Valid() && k < B.width
  {
    seq(|B.rows|, j requires 0 <= j < |B.rows| => B.rows[j][k])
  }

  /** The row vector `a @ B`. */
  function RowTimes(a: Row, B: Matrix): Row
    requires B.Valid() && |a| == |B.rows|
  {
    seq(B.width, k requires 0 <= k < B.width => Dot(a, Column(B, k)))
  }

  /** The matrix product `A @ B`. */
  function Product(A: Matrix, B: Matrix): (C: Matrix)
    requires A.Valid() && B.Valid() && A.width == |B.rows|
    ensures C.Valid() && C.width == B.width && |C.rows| == |A.rows|
  {
    Matrix(B.width, seq(|A.rows|, i requires 0 <= i < |A.rows| => RowTimes(A.rows[i], B)))
  }

  /** A pose whose last row is `(0, 0, 0, 1)`: it maps homogeneous points to
      homogeneous points (rigid motions, scalings and shears are of this kind). */
  predicate IsAffine(B: Matrix) {
    IsPose(B) && B.rows[3] == [0.0, 0.0, 0.0, 1.0]
  }

  lemma {:induction false} DotZero(w: Row, h: Row)
    requires |w| == |h|
    requires forall k :: 0 <= k < |w| ==> w[k] == 0.0
    ensures Dot(w, h) == 0.0
    decreases |w|
  {
    if |w| > 0 {
      DotZero(w[1..], h[1..]);
    }
  }

  /** The row `x r + v`. */
  function Axpy(x: real, r: Row, v: Row): Row
    requires |r| == |v|
  {
    seq(|r|, k requires 0 <= k < |r| => x * r[k] + v[k])
  }

  /** Dropping the first entry of `x r + v` drops it from `r` and `v`. */
  lemma AxpyTail(x: real, r: Row, v: Row)
    requires |r| == |v| > 0
    ensures Axpy(x, r, v)[1..] == Axpy(x, r[1..], v[1..])
  {
    var tail := Axpy(x, r[1..], v[1..]);
    forall k | 0 <= k < |tail| ensures Axpy(x, r, v)[1..][k] == tail[k] {
      assert r[1..][k] == r[k + 1] && v[1..][k] == v[k + 1];
    }
  }

  /** The distributive step of `DotLinear`, over plain reals. */
  lemma {:induction false} Distribute(x: real, r0: real, v0: real, h0: real, rh: real, vh: real)
    ensures (x * r0 + v0) * h0 + (x * rh + vh) == x * (r0 * h0 + rh) + (v0 * h0 + vh)
  {
  }

  /** The dot product is linear in its first argument. */
  lemma {:induction false} DotLinear(x: real, r: Row, v: Row, h: Row)
    requires |r| == |v| == |h|
    ensures Dot(Axpy(x, r, v), h) == x * Dot(r, h) + Dot(v, h)
    decreases |r|
  {
    if |r| > 0 {
      AxpyTail(x, r, v);
      DotLinear(x, r[1..], v[1..], h[1..]);
      Distribute(x, r[0], v[0], h[0], Dot(r[1..], h[1..]), Dot(v[1..], h[1..]));
    }
  }

  /** Without its first row, `B h` is the product of the remaining rows with `h`. */
  lemma ApplyTail(B: Matrix, h: Row)
    requires B.Valid() && |B.rows| > 0 && |h| == B.width
    ensures Apply(B, h)[1..] == Apply(Matrix(B.width, B.rows[1..]), h)
  {
  }

  /** `a B` is `a[0]` times the first row of `B` plus the product of the
      tails. */
  lemma RowTimesTail(a: Row, B: Matrix)
    requires B.Valid() && |a| == |B.rows| > 0
    ensures RowTimes(a, B) == Axpy(a[0], B.rows[0], RowTimes(a[1..], Matrix(B.width, B.rows[1..])))
  {
    var rest := Matrix(B.width, B.rows[1..]);
    var split := Axpy(a[0], B.rows[0], RowTimes(a[1..], rest));
    forall k | 0 <= k < B.width
      ensures RowTimes(a, B)[k] == split[k]
    {
      assert Column(B, k)[1..] == Column(rest, k);
    }
  }

  /** Peeling the first row of `B`: `a . (B h)` splits into the head term and
      the same product over the tails. */
  lemma {:induction false} DotApplyHead(a: Row, B: Matrix, h: Row)
    requires B.Valid() && |a| == |B.rows| > 0 && |h| == B.width
    ensures Dot(a, Apply(B, h))
         == a[0] * Dot(B.rows[0], h) + Dot(a[1..], Apply(Matrix(B.width, B.rows[1..]), h))
  {
    ApplyTail(B, h);
  }

  /** Peeling the first row of `B`: `(a B) . h` splits into the head term and
      the same product over the tails. */
  lemma {:induction false} RowTimesHead(a: Row, B: Matrix, h: Row)
    requires B.Valid() && |a| == |B.rows| > 0 && |h| == B.width
    ensures Dot(RowTimes(a, B), h)
         == a[0] * Dot(B.rows[0], h) + Dot(RowTimes(a[1..], Matrix(B.width, B.rows[1..])), h)
  {
    RowTimesTail(a, B);
    DotLinear(a[0], B.rows[0], RowTimes(a[1..], Matrix(B.width, B.rows[1..])), h);
  }

  /** `a . (B h) == (a B) . h` */
  lemma {:induction false} DotApply(a: Row, B: Matrix, h: Row)
    requires B.Valid() && |a| == |B.rows| && |h| == B.width
    ensures Dot(a, Apply(B, h)) == Dot(RowTimes(a, B), h)
    decreases |a|
  {
    if |a| == 0 {
      DotZero(RowTimes(a, B), h);
    } else {
      DotApply(a[1..], Matrix(B.width, B.rows[1..]), h);
      DotApplyHead(a, B, h);
      RowTimesHead(a, B, h);
    }
  }

  /** Multiplying by `B` and then by `A` is multiplying by `A @ B`. */
  lemma ApplyProduct(A: Matrix, B: Matrix, h: Row)
    requires A.Valid() && B.Valid() && A.width == |B.rows| && |h| == B.width
    ensures Apply(A, Apply(B, h)) == Apply(Product(A, B), h)
  {
    forall c | 0 <= c < |A.rows|
      ensures Apply(A, Apply(B, h))[c] == Apply(Product(A, B), h)[c]
    {
      DotApply(A.rows[c], B, h);
    }
  }

  /** An affine pose keeps the homogeneous coordinate of a lifted point at 1. */
  lemma AffineKeepsHomogeneous(B: Matrix, h: Row)
    requires IsAffine(B) && |h| == 4 && h[3] == 1.0
    ensures Lift(Xyz(Apply(B, h))) == Apply(B, h)
  {
    Dot4(B.rows[3], h);
  }

  /** Applying `B` and then `A` is applying the single pose `A @ B`, when `B`
      is affine. */
  lemma TransformCompose(points: Batch, A: Matrix, B: Matrix)
    requires points.Valid() && points.width >= 3 && |points.items| > 0
    requires IsPose(A) && IsAffine(B)
    ensures Transform(points, B).Ok?
    ensures
      var moved := Batch(points.points, 3, [Transform(points, B).value]);
      && moved.Valid()
      && Transform(moved, A) == Transform(points, Product(A, B))
  {
    var once := Transform(points, B).value;
    var moved := Batch(points.points, 3, [once]);
    var both := Transform(points, Product(A, B)).value;
    var h := MakeHomogeneousBatch(points).items[0];
    assert moved.Valid();
    var twice := Transform(moved, A).value;
    forall i | 0 <= i < points.points
      ensures twice[i] == both[i]
    {
      AffineKeepsHomogeneous(B, h[i]);
      assert MakeHomogeneousBatch(moved).items[0][i] == Apply(B, h[i]);
      ApplyProduct(A, B, h[i]);
    }
    assert |twice| == |both| == points.points;
    assert twice == both;
  }
}
