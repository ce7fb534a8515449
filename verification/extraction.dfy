/** `extractPc` from dcpcr/utils/utils.py with `normalize=False`: pack the
    xyz and rgb rows of a point cloud into one `[1 x length x 6]` array. */
module Extraction {
  import opened Results
  import opened Arrays

  /** The part of a point cloud object the packing reads: its point and colour
      rows, three entries each. A cloud without colours has no colour rows. */
  datatype PointCloud = PointCloud(points: seq<Row>, colors: seq<Row>) {

    predicate Valid() {
      && (forall i :: 0 <= i < |points| ==> |points[i]| == 3)
      && (forall i :: 0 <= i < |colors| ==> |colors[i]| == 3)
    }
  }

  /** The three results of `extractPc`: the packed array and the xyz and rgb arrays. */
  datatype Extracted = Extracted(data: Batch, xyz: seq<Row>, clr: seq<Row>)

  /** `extractPc(pcd, normalize=False)` (utils.py:121-133). The colour slice
      `clr[:length]` is assigned into `length` rows under numpy broadcasting:
      it fits when it has `length` rows, a single colour row is repeated for
      every point, and any other row count raises. */
  function ExtractPc(pcd: PointCloud): (r: Result<Extracted>)
    requires pcd.Valid()
    ensures r.Err? <==> |pcd.colors| < |pcd.points| && |pcd.colors| != 1
    ensures r.Err? ==> r.error == BroadcastMismatch
    ensures r.Ok? ==>
      && r.value.data.Valid()
      && |r.value.data.items| == 1
      && r.value.data.points == |pcd.points|
      && r.value.data.width == 6
    ensures r.Ok? ==> r.value.xyz == pcd.points && r.value.clr == pcd.colors
    ensures r.Ok? ==> forall i :: 0 <= i < |pcd.points| ==> r.value.data.items[0][i][..3] == pcd.points[i]
    ensures r.Ok? && |pcd.points| <= |pcd.colors| ==>
      forall i :: 0 <= i < |pcd.points| ==> r.value.data.items[0][i][3..] == pcd.colors[i]
    ensures r.Ok? && |pcd.colors| < |pcd.points| ==>
      forall i :: 0 <= i < |pcd.points| ==> r.value.data.items[0][i][3..] == pcd.colors[0]
  {
    var length := |pcd.points|;
    var clr := pcd.colors[..Min(length, |pcd.colors|)];
    if |clr| != length && |clr| != 1 then
      Err(BroadcastMismatch)
    else
      var rows := seq(length, i requires 0 <= i < length =>
        pcd.points[i] + (if |clr| == length then clr[i] else clr[0]));
      Ok(Extracted(Batch(length, 6, [rows]), pcd.points, pcd.colors))
  }
}
