/** Points, boxes, segments and rays, with the exact meaning of "meets the box". */
module Geometry {
  import opened Signs

  datatype Point3 = Point3(x: real, y: real, z: real)

  /** `Bbox_3`: the six bounds of an axis-aligned box. */
  datatype Bbox3 = Bbox3(xmin: real, ymin: real, zmin: real, xmax: real, ymax: real, zmax: real)

  /** `Segment_3`, from `source` to `target`. */
  datatype Segment3 = Segment3(source: Point3, target: Point3)

  /** `Ray_3`, starting at `source` and passing through `second` (`r.point(1)`). */
  datatype Ray3 = Ray3(source: Point3, second: Point3)

  /** Callers of the predicate pass boxes with `min <= max` on every axis. */
  predicate ValidBox(b: Bbox3) {
    b.xmin <= b.xmax && b.ymin <= b.ymax && b.zmin <= b.zmax
  }

  /** One coordinate of the point `p + t (q - p)`. */
  function At(p: real, q: real, t: real): real {
    p + t * (q - p)
  }

  predicate Within(v: real, lo: real, hi: real) {
    lo <= v <= hi
  }

  /** The point with parameter `t` on the line through `p` and `q` lies in `b`. */
  predicate MeetsAt(p: Point3, q: Point3, b: Bbox3, t: real) {
    && Within(At(p.x, q.x, t), b.xmin, b.xmax)
    && Within(At(p.y, q.y, t), b.ymin, b.ymax)
    && Within(At(p.z, q.z, t), b.zmin, b.zmax)
  }

  /** The exact answer for a segment: some point of it lies in the closed box. */
  ghost predicate SegmentMeetsBox(s: Segment3, b: Bbox3) {
    exists t :: 0.0 <= t <= 1.0 && MeetsAt(s.source, s.target, b, t)
  }

  /** The exact answer for a ray: some point at or beyond the source lies in the box. */
  ghost predicate RayMeetsBox(r: Ray3, b: Bbox3) {
    exists t :: 0.0 <= t && MeetsAt(r.source, r.second, b, t)
  }

  /** The values `tmin_`, `tmax_`, `d_` the filter computes for one axis: the box's
      range on that axis, seen from `p` in the direction of travel. */
  datatype Slab = Slab(tlo: real, thi: real, d: real)

  /** A parameter `t` satisfies the slab constraint `tlo <= t d <= thi`. */
  predicate InSlab(sl: Slab, t: real) {
    sl.tlo <= t * sl.d <= sl.thi
  }

  /** The y and z slab reduction. The result turns the coordinate test
      `lo <= p + t (q - p) <= hi` into a constraint on `t d` with `d = |q - p|`, for
      every `t`, whichever way the segment runs along the axis. */
  function AxisSlab(p: real, q: real, lo: real, hi: real): (sl: Slab)
    ensures sl.d == Abs(q - p)
    ensures lo <= hi ==> sl.tlo <= sl.thi
    ensures forall t :: InSlab(sl, t) <==> Within(At(p, q, t), lo, hi)
  {
    if q >= p then Slab(lo - p, hi - p, q - p)
    else Slab(p - hi, p - lo, p - q)
  }
}
