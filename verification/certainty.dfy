/** "We are sure": a definite answer never depends on how wide the error bands are.
    Shrinking the error coefficient (down to 0, exact signs) leaves every definite
    answer, and the exit that produced it, unchanged. */
module Certainty {
  import opened Signs
  import opened Geometry
  import opened DoIntersect

  /** A stage that goes on or answers, rather than handing the query to the exact predicate. */
  predicate Decided(st: Step) {
    st.Next? || st.outcome.Definite?
  }

  /** The cross-product error bound grows with the error coefficient. */
  lemma CrossErrorMonotone(e1: real, e2: real, m: real)
    requires 0.0 <= e1 <= e2
    ensures 0.0 <= CrossError(e1, m) <= CrossError(e2, m)
  {
    var mm := m * m;
    assert mm >= 0.0;
    assert e1 * mm <= e2 * mm;
    assert CrossError(e1, m) == e1 * mm && CrossError(e2, m) == e2 * mm;
  }

  /** The segment's x stage: if it goes on with one coefficient, it goes on identically with
      any smaller one. */
  lemma XStageSure(w: Window, e1: real, e2: real)
    requires 0.0 <= e1 <= e2 && XStage(w, e2).Next?
    ensures XStage(w, e1) == XStage(w, e2)
  {
    var m := XMagnitude(w);
    assert e1 * m <= e2 * m;
    SignWithErrorMonotone(w.tmax - w.dmax, e1 * m, e2 * m);
  }

  /** The y narrowing with a smaller error bound narrows identically. */
  lemma YNarrowSure(w: Window, sl: Slab, m: real, e1: real, e2: real)
    requires 0.0 <= e1 <= e2 && YNarrow(w, sl, m, e2).Next?
    ensures YNarrow(w, sl, m, e1) == YNarrow(w, sl, m, e2)
  {
    hide SignWithError, Abs, Narrowed, UpperCase;
    var lower, upper := w.dmin * sl.tlo - sl.d * w.tmin, sl.d * w.tmax - w.dmax * sl.thi;
    assert SignWithError(lower, e2) != Zero && SignWithError(upper, e2) != Zero;
    SignWithErrorMonotone(lower, e1, e2);
    SignWithErrorMonotone(upper, e1, e2);
  }

  /** The y comparison with a smaller error bound gives the same decision. */
  lemma YCompareSure(w: Window, sl: Slab, m: real, e1: real, e2: real)
    requires 0.0 <= e1 <= e2 && Decided(YCompare(w, sl, m, e2))
    ensures YCompare(w, sl, m, e1) == YCompare(w, sl, m, e2)
  {
    var x1 := sl.d * w.tmin - w.dmin * sl.thi;
    var x2 := w.dmax * sl.tlo - sl.d * w.tmax;
    if SignWithError(x1, e2) != Zero {
      SignWithErrorMonotone(x1, e1, e2);
    }
    if SignWithError(x2, e2) != Zero {
      SignWithErrorMonotone(x2, e1, e2);
    }
    if YCompare(w, sl, m, e2).Next? {
      YNarrowSure(w, sl, m, e1, e2);
    }
  }

  /** The y stage with a smaller error coefficient gives the same decision. */
  lemma YStageSure(w: Window, m: real, p: real, q: real, lo: real, hi: real, e1: real, e2: real)
    requires 0.0 <= e1 <= e2 && Decided(YStage(w, m, p, q, lo, hi, e2))
    ensures YStage(w, m, p, q, lo, hi, e1) == YStage(w, m, p, q, lo, hi, e2)
  {
    hide YCompare;
    var sl := AxisSlab(p, q, lo, hi);
    var mm := SlabMagnitude(m, sl);
    if YUnderflowBound <= mm <= OverflowBound {
      CrossErrorMonotone(e1, e2, mm);
      YCompareSure(w, sl, mm, CrossError(e1, mm), CrossError(e2, mm));
    }
  }

  /** The z decision with a smaller error bound gives the same answer. */
  lemma ZCompareSure(w: Window, sl: Slab, e1: real, e2: real)
    requires 0.0 <= e1 <= e2 && ZCompare(w, sl, e2).outcome.Definite?
    ensures ZCompare(w, sl, e1) == ZCompare(w, sl, e2)
  {
    var x1 := w.dmin * sl.thi - sl.d * w.tmin;
    var x2 := sl.d * w.tmax - w.dmax * sl.tlo;
    if SignWithError(x1, e2) != Zero {
      SignWithErrorMonotone(x1, e1, e2);
    }
    if SignWithError(x2, e2) != Zero {
      SignWithErrorMonotone(x2, e1, e2);
    }
  }

  /** The z stage with a smaller error coefficient gives the same answer. */
  lemma ZStageSure(w: Window, m: real, p: real, q: real, lo: real, hi: real, e1: real, e2: real)
    requires 0.0 <= e1 <= e2 && ZStage(w, m, p, q, lo, hi, e2).outcome.Definite?
    ensures ZStage(w, m, p, q, lo, hi, e1) == ZStage(w, m, p, q, lo, hi, e2)
  {
    hide ZCompare;
    var sl := AxisSlab(p, q, lo, hi);
    var mm := SlabMagnitude(m, sl);
    if mm <= OverflowBound {
      CrossErrorMonotone(e1, e2, mm);
      ZCompareSure(w, sl, CrossError(e1, mm), CrossError(e2, mm));
    }
  }

  /** The y and z stages with a smaller error coefficient give the same answer. */
  lemma YZStagesSure(w: Window, m: real, p: Point3, q: Point3, b: Bbox3, e1: real, e2: real)
    requires 0.0 <= e1 <= e2 && YZStages(w, m, p, q, b, e2).outcome.Definite?
    ensures YZStages(w, m, p, q, b, e1) == YZStages(w, m, p, q, b, e2)
  {
    hide YStage, ZStage;
    var st := YStage(w, m, p.y, q.y, b.ymin, b.ymax, e2);
    YStageSure(w, m, p.y, q.y, b.ymin, b.ymax, e1, e2);
    if st.Next? {
      ZStageSure(st.w, st.m, p.z, q.z, b.zmin, b.zmax, e1, e2);
    }
  }

  /** The segment filter: a definite answer with error coefficient `e2` is given, from
      the same exit, with every smaller coefficient, down to exact signs at 0. */
  lemma SegmentFilterSure(s: Segment3, b: Bbox3, fit: real -> bool, e1: real, e2: real)
    requires 0.0 <= e1 <= e2 && FilterSegment(s, b, fit, e2).outcome.Definite?
    ensures FilterSegment(s, b, fit, e1) == FilterSegment(s, b, fit, e2)
  {
    hide XStage, YZStages;
    var p, q := s.source, s.target;
    if Representable(p, q, fit) && !SegmentXRejects(p.x, q.x, b.xmin, b.xmax) {
      var w0 := XWindow(p.x, q.x, b.xmin, b.xmax);
      var st := XStage(w0, e2);
      if st.Next? {
        XStageSure(w0, e1, e2);
        YZStagesSure(st.w, st.m, p, q, b, e1, e2);
      }
    }
  }

  /** The ray filter as the source writes it: the same certainty. */
  lemma RayAsWrittenSure(r: Ray3, b: Bbox3, fit: real -> bool, e1: real, e2: real)
    requires 0.0 <= e1 <= e2 && FilterRayAsWritten(r, b, fit, e2).outcome.Definite?
    ensures FilterRayAsWritten(r, b, fit, e1) == FilterRayAsWritten(r, b, fit, e2)
  {
    hide XStage, YZStages;
    var p, q := r.source, r.second;
    if Representable(p, q, fit) && !RayXRejects(p.x, q.x, b.xmin, b.xmax) {
      var w0 := XWindow(p.x, q.x, b.xmin, b.xmax);
      var st := XStage(w0, e2);
      if st.Next? {
        XStageSure(w0, e1, e2);
        YZStagesSure(st.w, st.m, p, q, b, e1, e2);
      }
    }
  }

  /** The corrected ray filter: the same certainty. */
  lemma RayFilterSure(r: Ray3, b: Bbox3, fit: real -> bool, e1: real, e2: real)
    requires 0.0 <= e1 <= e2 && FilterRay(r, b, fit, e2).outcome.Definite?
    ensures FilterRay(r, b, fit, e1) == FilterRay(r, b, fit, e2)
  {
    hide YZStages;
    var p, q := r.source, r.second;
    if Representable(p, q, fit) && !RayXRejects(p.x, q.x, b.xmin, b.xmax) {
      var st := RayXStage(XWindow(p.x, q.x, b.xmin, b.xmax));
      if st.Next? {
        YZStagesSure(st.w, st.m, p, q, b, e1, e2);
      }
    }
  }
}
