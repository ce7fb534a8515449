/** How the utilities compose when a point cloud is prepared for the
    registration network and then moved by its pose. */
module Pipeline {
  import opened Results
  import opened Arrays
  import opened Extraction
  import opened Transforms

  /** Moving a packed cloud by the identity pose returns the cloud's points:
      `transform` reads the xyz channels that `extractPc` wrote. The packed
      array is taken to be converted to a tensor first (inference.py:51-52). */
  lemma IdentityPoseReturnsPoints(pcd: PointCloud)
    requires pcd.Valid() && ExtractPc(pcd).Ok?
    ensures Transform(ExtractPc(pcd).value.data, Identity()) == Ok(pcd.points)
  {
    var data := ExtractPc(pcd).value.data;
    TransformIdentity(data);
    var out := Transform(data, Identity()).value;
    assert forall i :: 0 <= i < |pcd.points| ==> out[i] == pcd.points[i];
    assert out == pcd.points;
  }
}
