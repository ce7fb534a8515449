/** Numeric arrays as the point-cloud utilities see them. A two-dimensional
    array is a sequence of rows of one common width; a three-dimensional array
    stacks such matrices along a leading batch axis. Entries are exact reals:
    the float32/float64 element types of utils.py are not modelled. */
module Arrays {

  /** One row of an array: one point with its channels. */
  type Row = seq<real>

  /** A validity mask of shape `[n x 1]`: `[true]` marks a real point,
      `[false]` a padding row. */
  type Mask = seq<seq<bool>>

  function Min(a: int, b: int): int {
    if a <= b then a else b
  }

  /** An `[n x width]` array. The width is kept explicitly, because an array
      with no rows still has one. */
  datatype Matrix = Matrix(width: nat, rows: seq<Row>) {

    predicate Valid() {
      forall i :: 0 <= i < |rows| ==> |rows[i]| == width
    }
  }

  /** A `[batch x points x width]` array. */
  datatype Batch = Batch(points: nat, width: nat, items: seq<seq<Row>>) {

    predicate Valid() {
      forall j :: 0 <= j < |items| ==> |items[j]| == points && Matrix(width, items[j]).Valid()
    }

    /** Batch element `j` as a two-dimensional array. */
    function Item(j: nat): Matrix
      requires j < |items|
    {
      Matrix(width, items[j])
    }
  }

  function ZeroRow(width: nat): Row {
    seq(width, _ => 0.0)
  }

  predicate IsZeroRow(r: Row) {
    forall k :: 0 <= k < |r| ==> r[k] == 0.0
  }

  /** `np.zeros((count, width))` */
  function Zeros(count: nat, width: nat): seq<Row> {
    seq(count, _ => ZeroRow(width))
  }

  /** `np.ones((count, 1), dtype='bool')` */
  function AllValid(count: nat): Mask {
    seq(count, _ => [true])
  }
}
