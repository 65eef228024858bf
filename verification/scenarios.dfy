/** Concrete cases of the SpatialImage behaviour, worked out in full. */
module Scenarios {
  import opened Wrappers
  import opened Flatten
  import opened SpatialImage

  /** Two 2x2 slices [1,1,1,1] and [2,2,2,2] flatten to their concatenation. */
  lemma FlattenTwoSlices()
    ensures CopyPlanes([[1, 1, 1, 1], [2, 2, 2, 2]], 2 * 2, 2) == Success([1, 1, 1, 1, 2, 2, 2, 2])
  {
    var planes: seq<Plane> := [[1, 1, 1, 1], [2, 2, 2, 2]];
    assert CopyPlanes(planes, 4, 0) == Success([]);
    assert planes[0][..4] == planes[0] && planes[1][..4] == planes[1];
    assert [] + planes[0] == planes[0];
    assert CopyPlanes(planes, 4, 1) == Success(planes[0]);
    assert CopyPlanes(planes, 4, 2) == Success(planes[0] + planes[1]);
    assert planes[0] + planes[1] == [1, 1, 1, 1, 2, 2, 2, 2];
  }

  /** The four classification cases on a plane image and on a stack. */
  lemma ClassifyNames()
    ensures DomainType("cyto", 1) == 2
    ensures DomainType("cell_membrane", 1) == 1
    ensures DomainType("cyto", 5) == 3
    ensures DomainType("cell_membrane", 5) == 2
  {
  }

  /** A nucleus and an outer membrane in a three-slice stack. */
  lemma ClassifyTable()
    ensures DomainTypes(map["nucleus" := 1, "membrane_outer" := 2], 3) == map["nucleus" := 3, "membrane_outer" := 2]
  {
  }

  /** Nanometre spacing is rescaled; micrometre and missing units are not. */
  lemma SpacingCases()
    ensures InitialDelta(FileInfo(1000.0, 1000.0, 1000.0, Some("nm"))) == Point3d(1.0, 1.0, 1.0)
    ensures InitialDelta(FileInfo(2.0, 2.0, 5.0, Some("um"))) == Point3d(2.0, 2.0, 5.0)
    ensures InitialDelta(FileInfo(2.0, 2.0, 5.0, None)) == Point3d(2.0, 2.0, 5.0)
  {
  }
}
