/** The segment and ray overloads side by side. The ray overload is the segment code with
    the far-end x rejection dropped; it also keeps the segment's cut of the window at
    parameter 1, which is wrong for a ray. */
module Overloads {
  import opened Geometry
  import opened DoIntersect

  /** Every coordinate fits. */
  predicate AllFit(v: real) {
    true
  }

  /** The two overloads on the same two points give the same verdict, except when the
      segment is rejected on x and the ray is not (the ray goes on past the segment's
      far end). A ray rejected on x has its segment rejected too. */
  lemma RayAsWrittenFollowsSegment(p: Point3, q: Point3, b: Bbox3, fit: real -> bool, eps: real)
    ensures RayXRejects(p.x, q.x, b.xmin, b.xmax) ==> SegmentXRejects(p.x, q.x, b.xmin, b.xmax)
    ensures !SegmentXRejects(p.x, q.x, b.xmin, b.xmax) || RayXRejects(p.x, q.x, b.xmin, b.xmax) ==>
              FilterRayAsWritten(Ray3(p, q), b, fit, eps) == FilterSegment(Segment3(p, q), b, fit, eps)
  {
    hide XStage, YZStages;
    if !SegmentXRejects(p.x, q.x, b.xmin, b.xmax) {
      assert !RayXRejects(p.x, q.x, b.xmin, b.xmax);
    }
  }

  /** The ray from the origin through (1, 1, 0) against the box [-1, 10] x [5, 6] x [-1, 1]
      passes (5.5, 5.5, 0), inside the box. The x stage as written certifies
      `tmax = 10 > dmax = 1` and cuts the window at parameter 1; the y stage then
      certifies that the slab starts (at 5) after the window ends (at 1) and answers
      `false`. The corrected filter answers `true`. */
  lemma RayCutAtOneMissesHit()
    ensures var r := Ray3(Point3(0.0, 0.0, 0.0), Point3(1.0, 1.0, 0.0));
            var b := Bbox3(-1.0, 5.0, -1.0, 10.0, 6.0, 1.0);
            && RayMeetsBox(r, b)
            && FilterRayAsWritten(r, b, AllFit, Eps1) == Verdict(Definite(false), YSeparated)
            && FilterRay(r, b, AllFit, Eps1) == Verdict(Definite(true), ZInside)
  {
    var r := Ray3(Point3(0.0, 0.0, 0.0), Point3(1.0, 1.0, 0.0));
    var b := Bbox3(-1.0, 5.0, -1.0, 10.0, 6.0, 1.0);
    assert MeetsAt(r.source, r.second, b, 5.5);
    var w0 := XWindow(0.0, 1.0, -1.0, 10.0);
    assert w0 == Window(0.0, 1.0, 10.0, 1.0);
    assert XMagnitude(w0) == 10.0;
    assert XStage(w0, Eps1) == Next(Window(0.0, 1.0, 1.0, 1.0), 10.0);
    var sly := AxisSlab(0.0, 1.0, 5.0, 6.0);
    assert sly == Slab(5.0, 6.0, 1.0);
    assert SlabMagnitude(10.0, sly) == 10.0;
    assert YStage(Window(0.0, 1.0, 1.0, 1.0), 10.0, 0.0, 1.0, 5.0, 6.0, Eps1)
        == Stop(Definite(false), YSeparated);
    assert RayXStage(w0) == Next(w0, 10.0);
    assert YStage(w0, 10.0, 0.0, 1.0, 5.0, 6.0, Eps1) == Next(Window(5.0, 1.0, 6.0, 1.0), 10.0);
    var slz := AxisSlab(0.0, 0.0, -1.0, 1.0);
    assert slz == Slab(-1.0, 1.0, 0.0);
    assert SlabMagnitude(10.0, slz) == 10.0;
    assert ZStage(Window(5.0, 1.0, 6.0, 1.0), 10.0, 0.0, 0.0, -1.0, 1.0, Eps1)
        == Verdict(Definite(true), ZInside);
  }

  /** On the same ray and box the operator as written answers `false` whatever the exact
      predicate would have said, since its filter never hands off; the corrected operator
      answers `true`. */
  lemma RayOperatorAsWrittenMissesHit(exact: (Ray3, Bbox3) -> bool)
    ensures var r := Ray3(Point3(0.0, 0.0, 0.0), Point3(1.0, 1.0, 0.0));
            var b := Bbox3(-1.0, 5.0, -1.0, 10.0, 6.0, 1.0);
            && RayMeetsBox(r, b)
            && !DoIntersectRayAsWritten(r, b, AllFit, exact)
            && DoIntersectRay(r, b, AllFit, exact)
  {
    hide FilterRayAsWritten, FilterRay;
    RayCutAtOneMissesHit();
  }
}
