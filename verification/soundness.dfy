/** Exact-arithmetic soundness of the slab filter: whenever the fast path gives a
    definite answer, it is the answer of the exact geometric predicate. */
module Soundness {
  import opened Geometry
  import opened DoIntersect

  // ---------------------------------------------------------------------------
  // Arithmetic on products, stated once
  // ---------------------------------------------------------------------------

  lemma MulLe(a: real, b: real, c: real)
    requires a <= b && c >= 0.0
    ensures a * c <= b * c
  {
  }

  lemma MulLt(a: real, b: real, c: real)
    requires a < b && c > 0.0
    ensures a * c < b * c
  {
  }

  lemma CancelLe(a: real, b: real, c: real)
    requires a * c <= b * c && c > 0.0
    ensures a <= b
  {
  }

  lemma CancelLt(a: real, b: real, c: real)
    requires a * c < b * c && c > 0.0
    ensures a < b
  {
  }

  lemma MulNonneg(a: real, b: real)
    requires a >= 0.0 && b >= 0.0
    ensures a * b >= 0.0
  {
  }

  lemma ScaleDown(t: real, d: real)
    requires 0.0 <= t <= 1.0 && d >= 0.0
    ensures 0.0 <= t * d <= d
  {
    MulNonneg(t, d);
    MulLe(t, 1.0, d);
  }

  // ---------------------------------------------------------------------------
  // The parameter range and the window invariant
  // ---------------------------------------------------------------------------

  /** Parameters of points on the query: [0, 1] for a segment, [0, oo) for a ray. */
  predicate Domain(t: real, bounded: bool) {
    0.0 <= t && (bounded ==> t <= 1.0)
  }

  /** What the chain keeps true of its window between stages: all four values are
      non-negative, the entry fraction is at most the exit fraction (cross-multiplied),
      and for a segment the exit fraction has a positive denominator and is at most 1. */
  predicate WellFormed(w: Window, bounded: bool) {
    && w.tmin >= 0.0 && w.dmin >= 0.0 && w.tmax >= 0.0 && w.dmax >= 0.0
    && w.tmin * w.dmax <= w.tmax * w.dmin
    && (bounded ==> 0.0 < w.dmax && w.tmax <= w.dmax)
  }

  predicate InX(p: Point3, q: Point3, b: Bbox3, t: real) {
    Within(At(p.x, q.x, t), b.xmin, b.xmax)
  }

  /** On the query's parameter range, the window is exactly the x constraint. */
  ghost predicate WindowIsX(w: Window, p: Point3, q: Point3, b: Bbox3, bounded: bool) {
    forall t :: Domain(t, bounded) ==> (InWindow(w, t) <==> InX(p, q, b, t))
  }

  // ---------------------------------------------------------------------------
  // x axis
  // ---------------------------------------------------------------------------

  /** The x coordinate at `t`, written from the direction of travel. */
  lemma AtForward(p: real, q: real, t: real)
    ensures At(p, q, t) == p - t * (p - q)
  {
    assert t * (p - q) == -(t * (q - p));
  }

  /** Segment x rejection is right: no point of the segment is in the box's x range. */
  lemma SegmentXRejectsSound(px: real, qx: real, lo: real, hi: real)
    requires SegmentXRejects(px, qx, lo, hi)
    ensures forall t :: 0.0 <= t <= 1.0 ==> !Within(At(px, qx, t), lo, hi)
  {
    forall t | 0.0 <= t <= 1.0
      ensures !Within(At(px, qx, t), lo, hi)
    {
      SegmentXRejectsAt(px, qx, lo, hi, t);
    }
  }

  /** One point of the segment: it lies between the two end coordinates. */
  lemma SegmentXRejectsAt(px: real, qx: real, lo: real, hi: real, t: real)
    requires SegmentXRejects(px, qx, lo, hi) && 0.0 <= t <= 1.0
    ensures !Within(At(px, qx, t), lo, hi)
  {
    AtBetween(px, qx, t);
  }

  /** A point of the segment lies between its ends on every axis. */
  lemma AtBetween(p: real, q: real, t: real)
    requires 0.0 <= t <= 1.0
    ensures q >= p ==> p <= At(p, q, t) <= q
    ensures q < p ==> q <= At(p, q, t) <= p
  {
    if q >= p {
      var d := q - p;
      ScaleDown(t, d);
      assert t * d <= d;
      assert At(p, q, t) == p + t * d;
    } else {
      ScaleDown(t, p - q);
      AtForward(p, q, t);
    }
  }

  /** Ray x rejection is right: no point of the ray is in the box's x range. */
  lemma RayXRejectsSound(px: real, qx: real, lo: real, hi: real)
    requires RayXRejects(px, qx, lo, hi)
    ensures forall t :: 0.0 <= t ==> !Within(At(px, qx, t), lo, hi)
  {
    forall t | 0.0 <= t
      ensures !Within(At(px, qx, t), lo, hi)
    {
      AtForward(px, qx, t);
      if qx >= px {
        MulNonneg(t, qx - px);
        assert px <= At(px, qx, t);
      } else {
        MulNonneg(t, px - qx);
        assert At(px, qx, t) <= px;
      }
    }
  }

  /** For every forward parameter the x window holds exactly when the x coordinate is
      in the box's x range: the reduction loses and adds nothing. */
  lemma XWindowExact(px: real, qx: real, lo: real, hi: real)
    ensures forall t :: 0.0 <= t ==>
              (InWindow(XWindow(px, qx, lo, hi), t) <==> Within(At(px, qx, t), lo, hi))
  {
    var w := XWindow(px, qx, lo, hi);
    forall t | 0.0 <= t
      ensures InWindow(w, t) <==> Within(At(px, qx, t), lo, hi)
    {
      AtForward(px, qx, t);
      if qx >= px {
        MulNonneg(t, qx - px);
      } else {
        MulNonneg(t, px - qx);
      }
    }
  }

  /** The x window of a query that is not rejected is well formed for a ray. */
  lemma XWindowWellFormed(px: real, qx: real, lo: real, hi: real)
    requires lo <= hi && XWindow(px, qx, lo, hi).tmax >= 0.0
    ensures WellFormed(XWindow(px, qx, lo, hi), false)
  {
    var w0 := XWindow(px, qx, lo, hi);
    if w0.tmin == 0.0 && w0.dmin == 1.0 {
      assert w0.tmin * w0.dmax == 0.0 && w0.tmax * w0.dmin == w0.tmax;
    } else {
      assert w0.dmin == w0.dmax && w0.tmin <= w0.tmax;
      MulLe(w0.tmin, w0.tmax, w0.dmax);
    }
  }

  /** Cutting the window's exit at 1 when `tmax > dmax` drops nothing on [0, 1]: there
      `t dmax <= dmax < tmax` already. */
  lemma CutAtOneExact(w0: Window, p: Point3, q: Point3, b: Bbox3)
    requires WellFormed(w0, false) && w0.tmax > w0.dmax && w0.tmin <= w0.dmin
    requires forall t :: 0.0 <= t ==> (InWindow(w0, t) <==> InX(p, q, b, t))
    ensures WellFormed(Window(w0.tmin, w0.dmin, 1.0, 1.0), true)
    ensures WindowIsX(Window(w0.tmin, w0.dmin, 1.0, 1.0), p, q, b, true)
  {
    var w := Window(w0.tmin, w0.dmin, 1.0, 1.0);
    assert w.tmin * w.dmax <= w.tmax * w.dmin;
    forall t | Domain(t, true)
      ensures InWindow(w, t) <==> InX(p, q, b, t)
    {
      CutAtOneAt(w0, t);
    }
  }

  /** On [0, 1], the window cut at 1 holds the same parameters as the uncut one. */
  lemma CutAtOneAt(w0: Window, t: real)
    requires w0.dmax >= 0.0 && w0.tmax > w0.dmax && 0.0 <= t <= 1.0
    ensures InWindow(Window(w0.tmin, w0.dmin, 1.0, 1.0), t) <==> InWindow(w0, t)
  {
    ScaleDown(t, w0.dmax);
    assert t * 1.0 <= 1.0 && t * w0.dmax <= w0.tmax;
  }

  /** After the segment's x stage the window is well formed and is the x constraint on [0, 1]. */
  lemma XStageSound(p: Point3, q: Point3, b: Bbox3, eps: real)
    requires ValidBox(b) && eps >= 0.0
    requires !SegmentXRejects(p.x, q.x, b.xmin, b.xmax)
    ensures XStage(XWindow(p.x, q.x, b.xmin, b.xmax), eps).Next? ==>
              && WellFormed(XStage(XWindow(p.x, q.x, b.xmin, b.xmax), eps).w, true)
              && WindowIsX(XStage(XWindow(p.x, q.x, b.xmin, b.xmax), eps).w, p, q, b, true)
  {
    var w0 := XWindow(p.x, q.x, b.xmin, b.xmax);
    var st := XStage(w0, eps);
    if st.Next? {
      XWindowExact(p.x, q.x, b.xmin, b.xmax);
      XWindowWellFormed(p.x, q.x, b.xmin, b.xmax);
      if w0.tmax > w0.dmax {
        CutAtOneExact(w0, p, q, b);
      }
    }
  }

  /** Without the cut, the corrected ray's window is well formed and is the x constraint
      on [0, oo). */
  lemma RayXStageSound(p: Point3, q: Point3, b: Bbox3)
    requires ValidBox(b)
    requires !RayXRejects(p.x, q.x, b.xmin, b.xmax)
    ensures WellFormed(XWindow(p.x, q.x, b.xmin, b.xmax), false)
    ensures WindowIsX(XWindow(p.x, q.x, b.xmin, b.xmax), p, q, b, false)
  {
    XWindowExact(p.x, q.x, b.xmin, b.xmax);
    XWindowWellFormed(p.x, q.x, b.xmin, b.xmax);
  }

  // ---------------------------------------------------------------------------
  // Cross products of a window and a slab
  // ---------------------------------------------------------------------------

  /** A common parameter forces the window's entry to come no later than the slab's exit. */
  lemma EntryBeforeSlabExit(w: Window, sl: Slab, t: real)
    requires w.dmin >= 0.0 && sl.d >= 0.0
    requires InWindow(w, t) && InSlab(sl, t)
    ensures sl.d * w.tmin <= w.dmin * sl.thi
  {
    MulLe(w.tmin, t * w.dmin, sl.d);
    MulLe(t * sl.d, sl.thi, w.dmin);
  }

  /** A common parameter forces the slab's entry to come no later than the window's exit. */
  lemma SlabEntryBeforeExit(w: Window, sl: Slab, t: real)
    requires w.dmax >= 0.0 && sl.d >= 0.0
    requires InWindow(w, t) && InSlab(sl, t)
    ensures w.dmax * sl.tlo <= sl.d * w.tmax
  {
    MulLe(sl.tlo, t * sl.d, w.dmax);
    MulLe(t * w.dmax, w.tmax, sl.d);
  }

  // ---------------------------------------------------------------------------
  // y axis: narrowing the window
  // ---------------------------------------------------------------------------

  /** Keeping the entry fraction when the slab's entry is certified earlier loses nothing. */
  lemma KeepEntryExact(w: Window, sl: Slab, t: real)
    requires w.tmin >= 0.0 && w.dmin >= 0.0 && sl.d >= 0.0
    requires sl.d * w.tmin - w.dmin * sl.thi < 0.0
    requires w.dmin * sl.tlo - sl.d * w.tmin < 0.0
    requires t * w.dmin >= w.tmin
    ensures t * sl.d >= sl.tlo
  {
    if w.dmin > 0.0 {
      MulLe(w.tmin, t * w.dmin, sl.d);
      MulLt(sl.tlo, t * sl.d, w.dmin);
    } else {
      MulNonneg(sl.d, w.tmin);
    }
  }

  /** Taking the slab's entry when it is certified later loses nothing, provided the
      slab's entry also comes before the window's exit. */
  lemma TakeEntryExact(w: Window, sl: Slab, t: real)
    requires w.tmin >= 0.0 && w.dmin >= 0.0 && w.dmax >= 0.0 && sl.d >= 0.0
    requires w.dmin * sl.tlo - sl.d * w.tmin > 0.0
    requires w.dmax * sl.tlo - sl.d * w.tmax < 0.0 && w.tmax >= 0.0
    requires t * sl.d >= sl.tlo
    ensures t * w.dmin >= w.tmin && sl.d > 0.0
  {
    if sl.d == 0.0 {
      MulNonneg(w.dmax, sl.tlo);
      assert false;
    }
    MulLe(sl.tlo, t * sl.d, w.dmin);
    MulLt(w.tmin, t * w.dmin, sl.d);
  }

  /** Keeping the exit fraction when the slab's exit is certified later loses nothing. */
  lemma KeepExitExact(w: Window, sl: Slab, t: real)
    requires w.tmax >= 0.0 && w.dmax >= 0.0 && sl.d >= 0.0
    requires sl.d * w.tmax - w.dmax * sl.thi < 0.0
    requires t * w.dmax <= w.tmax
    ensures t * sl.d <= sl.thi
  {
    if w.dmax > 0.0 {
      MulLe(t * w.dmax, w.tmax, sl.d);
      MulLt(t * sl.d, sl.thi, w.dmax);
    } else {
      MulNonneg(sl.d, w.tmax);
    }
  }

  /** Taking the slab's exit when it is certified earlier loses nothing, provided the
      window's entry comes before the slab's exit. */
  lemma TakeExitExact(w: Window, sl: Slab, t: real)
    requires w.tmin >= 0.0 && w.dmin >= 0.0 && w.dmax >= 0.0 && sl.d >= 0.0
    requires sl.d * w.tmax - w.dmax * sl.thi > 0.0
    requires sl.d * w.tmin - w.dmin * sl.thi < 0.0
    requires t * sl.d <= sl.thi
    ensures t * w.dmax <= w.tmax && sl.d > 0.0
  {
    if sl.d == 0.0 {
      MulNonneg(w.dmax, sl.thi);
      assert false;
    }
    MulLe(t * sl.d, sl.thi, w.dmax);
    MulLt(t * w.dmax, w.tmax, sl.d);
  }

  /** Overlap certified by the first cross product makes the entry denominator and the
      slab's exit positive. */
  lemma OverlapPositive(w: Window, sl: Slab)
    requires w.tmin >= 0.0 && w.dmin >= 0.0 && sl.d >= 0.0
    requires sl.d * w.tmin - w.dmin * sl.thi < 0.0
    ensures w.dmin > 0.0 && sl.thi > 0.0
  {
    MulNonneg(sl.d, w.tmin);
    if w.dmin > 0.0 && sl.thi <= 0.0 {
      MulLe(sl.thi, 0.0, w.dmin);
    }
  }

  /** A certified later slab entry is positive and has a positive denominator. */
  lemma TakenEntryPositive(w: Window, sl: Slab)
    requires w.tmin >= 0.0 && w.dmin >= 0.0 && w.dmax >= 0.0 && sl.d >= 0.0
    requires w.dmin * sl.tlo - sl.d * w.tmin > 0.0
    requires w.dmax * sl.tlo - sl.d * w.tmax < 0.0
    ensures sl.tlo > 0.0 && sl.d > 0.0
  {
    MulNonneg(sl.d, w.tmin);
    if sl.tlo <= 0.0 {
      MulLe(sl.tlo, 0.0, w.dmin);
    }
    if sl.d == 0.0 {
      MulNonneg(w.dmax, sl.tlo);
    }
  }

  /** A certified earlier slab exit has a positive denominator, and for a segment it
      stays at most 1. */
  lemma TakenExitBounded(w: Window, sl: Slab, bounded: bool)
    requires WellFormed(w, bounded) && sl.d >= 0.0 && sl.thi > 0.0
    requires sl.d * w.tmax - w.dmax * sl.thi > 0.0
    ensures sl.d > 0.0
    ensures bounded ==> sl.thi <= sl.d
  {
    if sl.d == 0.0 {
      MulNonneg(w.dmax, sl.thi);
    }
    if bounded && sl.thi > sl.d {
      MulLe(w.tmax, w.dmax, sl.d);
      MulLt(sl.d, sl.thi, w.dmax);
    }
  }

  /** The narrowed window is well formed and has a positive entry denominator. */
  lemma NarrowWellFormed(w: Window, sl: Slab, takeEntry: bool, takeExit: bool, bounded: bool)
    requires WellFormed(w, bounded) && sl.d >= 0.0 && sl.tlo <= sl.thi
    requires sl.d * w.tmin - w.dmin * sl.thi < 0.0
    requires w.dmax * sl.tlo - sl.d * w.tmax < 0.0
    requires takeEntry ==> w.dmin * sl.tlo - sl.d * w.tmin > 0.0
    requires takeExit ==> sl.d * w.tmax - w.dmax * sl.thi > 0.0
    ensures WellFormed(Narrowed(w, sl, takeEntry, takeExit), bounded)
    ensures Narrowed(w, sl, takeEntry, takeExit).dmin > 0.0
  {
    OverlapPositive(w, sl);
    if takeEntry {
      TakenEntryPositive(w, sl);
    }
    if takeExit {
      TakenExitBounded(w, sl, bounded);
    }
    // the entry fraction stays at most the exit fraction
    if takeEntry && takeExit {
      MulLe(sl.tlo, sl.thi, sl.d);
    }
  }

  /** The narrowed window is exactly the old window cut by the slab. */
  lemma NarrowSet(w: Window, sl: Slab, takeEntry: bool, takeExit: bool, t: real)
    requires WellFormed(w, false) && sl.d >= 0.0
    requires sl.d * w.tmin - w.dmin * sl.thi < 0.0
    requires w.dmax * sl.tlo - sl.d * w.tmax < 0.0
    requires takeEntry ==> w.dmin * sl.tlo - sl.d * w.tmin > 0.0
    requires !takeEntry ==> w.dmin * sl.tlo - sl.d * w.tmin < 0.0
    requires takeExit ==> sl.d * w.tmax - w.dmax * sl.thi > 0.0
    requires !takeExit ==> sl.d * w.tmax - w.dmax * sl.thi < 0.0
    ensures InWindow(Narrowed(w, sl, takeEntry, takeExit), t) <==> InWindow(w, t) && InSlab(sl, t)
  {
    hide Narrowed, WellFormed;
    NarrowEntrySet(w, sl, takeEntry, takeExit, t);
    NarrowExitSet(w, sl, takeEntry, takeExit, t);
  }

  /** The entry half of `NarrowSet`. */
  lemma NarrowEntrySet(w: Window, sl: Slab, takeEntry: bool, takeExit: bool, t: real)
    requires WellFormed(w, false) && sl.d >= 0.0
    requires sl.d * w.tmin - w.dmin * sl.thi < 0.0
    requires w.dmax * sl.tlo - sl.d * w.tmax < 0.0
    requires takeEntry ==> w.dmin * sl.tlo - sl.d * w.tmin > 0.0
    requires !takeEntry ==> w.dmin * sl.tlo - sl.d * w.tmin < 0.0
    ensures var nw := Narrowed(w, sl, takeEntry, takeExit);
            t * nw.dmin >= nw.tmin <==> t * w.dmin >= w.tmin && t * sl.d >= sl.tlo
  {
    if takeEntry {
      if t * sl.d >= sl.tlo { TakeEntryExact(w, sl, t); }
    } else {
      if t * w.dmin >= w.tmin { KeepEntryExact(w, sl, t); }
    }
  }

  /** The exit half of `NarrowSet`. */
  lemma NarrowExitSet(w: Window, sl: Slab, takeEntry: bool, takeExit: bool, t: real)
    requires WellFormed(w, false) && sl.d >= 0.0
    requires sl.d * w.tmin - w.dmin * sl.thi < 0.0
    requires takeExit ==> sl.d * w.tmax - w.dmax * sl.thi > 0.0
    requires !takeExit ==> sl.d * w.tmax - w.dmax * sl.thi < 0.0
    ensures var nw := Narrowed(w, sl, takeEntry, takeExit);
            t * nw.dmax <= nw.tmax <==> t * w.dmax <= w.tmax && t * sl.d <= sl.thi
  {
    if takeExit {
      if t * sl.d <= sl.thi { TakeExitExact(w, sl, t); }
    } else {
      if t * w.dmax <= w.tmax { KeepExitExact(w, sl, t); }
    }
  }

  /** The y stage, in exact arithmetic with any non-negative error coefficient: a `false`
      is right because the window and the slab share no parameter, and a window handed on
      is well formed and is the old window cut by the slab. */
  lemma YStageSound(w: Window, m: real, p: real, q: real, lo: real, hi: real, eps: real, bounded: bool)
    requires eps >= 0.0 && lo <= hi && WellFormed(w, bounded)
    ensures var st := YStage(w, m, p, q, lo, hi, eps);
            st == Stop(Definite(false), YSeparated) ==>
              forall t :: !(InWindow(w, t) && InSlab(AxisSlab(p, q, lo, hi), t))
    ensures var st := YStage(w, m, p, q, lo, hi, eps);
            st.Next? ==>
              && WellFormed(st.w, bounded) && st.w.dmin > 0.0
              && forall t :: InWindow(st.w, t) <==> InWindow(w, t) && InSlab(AxisSlab(p, q, lo, hi), t)
  {
    var sl := AxisSlab(p, q, lo, hi);
    var mm := SlabMagnitude(m, sl);
    if YUnderflowBound <= mm <= OverflowBound {
      var error := CrossError(eps, mm);
      var st := YStage(w, m, p, q, lo, hi, eps);
      assert st == YCompare(w, sl, mm, error);
      YCompareSound(w, sl, mm, error, bounded);
      if st.Next? {
        assert WellFormed(st.w, bounded) && st.w.dmin > 0.0;
      }
    }
  }

  /** The y comparison, for a non-negative error bound. */
  lemma YCompareSound(w: Window, sl: Slab, m: real, error: real, bounded: bool)
    requires error >= 0.0 && sl.d >= 0.0 && sl.tlo <= sl.thi && WellFormed(w, bounded)
    ensures var st := YCompare(w, sl, m, error);
            st == Stop(Definite(false), YSeparated) ==> forall t :: !(InWindow(w, t) && InSlab(sl, t))
    ensures var st := YCompare(w, sl, m, error);
            st.Next? ==> CutBy(st.w, w, sl, bounded)
  {
    hide YNarrow;
    var st := YCompare(w, sl, m, error);
    if st == Stop(Definite(false), YSeparated) {
      Separated(w, sl);
    }
    if st.Next? {
      assert sl.d * w.tmin - w.dmin * sl.thi < 0.0 && w.dmax * sl.tlo - sl.d * w.tmax < 0.0;
      assert st == YNarrow(w, sl, m, error);
      YNarrowSound(w, sl, m, error, bounded);
    }
  }

  /** A certified positive y cross product leaves no common parameter. */
  lemma Separated(w: Window, sl: Slab)
    requires w.dmin >= 0.0 && w.dmax >= 0.0 && sl.d >= 0.0
    requires sl.d * w.tmin - w.dmin * sl.thi > 0.0 || w.dmax * sl.tlo - sl.d * w.tmax > 0.0
    ensures forall t :: !(InWindow(w, t) && InSlab(sl, t))
  {
    forall t
      ensures !(InWindow(w, t) && InSlab(sl, t))
    {
      if InWindow(w, t) && InSlab(sl, t) {
        EntryBeforeSlabExit(w, sl, t);
        SlabEntryBeforeExit(w, sl, t);
      }
    }
  }

  /** `w2` is the window `w` cut by the slab `sl`: well formed, with a positive entry
      denominator, and holding exactly the parameters of `w` inside the slab. */
  ghost predicate CutBy(w2: Window, w: Window, sl: Slab, bounded: bool) {
    && WellFormed(w2, bounded) && w2.dmin > 0.0
    && forall t :: InWindow(w2, t) <==> InWindow(w, t) && InSlab(sl, t)
  }

  /** The narrowing, once both cross products are certified negative. */
  lemma YNarrowSound(w: Window, sl: Slab, m: real, error: real, bounded: bool)
    requires error >= 0.0 && sl.d >= 0.0 && sl.tlo <= sl.thi && WellFormed(w, bounded)
    requires sl.d * w.tmin - w.dmin * sl.thi < 0.0 && w.dmax * sl.tlo - sl.d * w.tmax < 0.0
    ensures var st := YNarrow(w, sl, m, error);
            st.Next? ==> CutBy(st.w, w, sl, bounded)
  {
    hide YNarrow, CutBy;
    var st := YNarrow(w, sl, m, error);
    if st.Next? {
      var lower := w.dmin * sl.tlo - sl.d * w.tmin;
      var upper := sl.d * w.tmax - w.dmax * sl.thi;
      assert st.w == Narrowed(w, sl, lower > 0.0, upper > 0.0);
      NarrowExact(w, sl, lower > 0.0, upper > 0.0, bounded);
    }
  }

  /** The narrowed window is well formed, has a positive entry denominator, and is exactly
      the old window cut by the slab. */
  lemma NarrowExact(w: Window, sl: Slab, takeEntry: bool, takeExit: bool, bounded: bool)
    requires WellFormed(w, bounded) && sl.d >= 0.0 && sl.tlo <= sl.thi
    requires sl.d * w.tmin - w.dmin * sl.thi < 0.0
    requires w.dmax * sl.tlo - sl.d * w.tmax < 0.0
    requires takeEntry <==> w.dmin * sl.tlo - sl.d * w.tmin > 0.0
    requires !takeEntry ==> w.dmin * sl.tlo - sl.d * w.tmin < 0.0
    requires takeExit <==> sl.d * w.tmax - w.dmax * sl.thi > 0.0
    requires !takeExit ==> sl.d * w.tmax - w.dmax * sl.thi < 0.0
    ensures CutBy(Narrowed(w, sl, takeEntry, takeExit), w, sl, bounded)
  {
    NarrowWellFormed(w, sl, takeEntry, takeExit, bounded);
    forall t
      ensures InWindow(Narrowed(w, sl, takeEntry, takeExit), t) <==> InWindow(w, t) && InSlab(sl, t)
    {
      NarrowSet(w, sl, takeEntry, takeExit, t);
    }
  }

  // ---------------------------------------------------------------------------
  // z axis: the decision
  // ---------------------------------------------------------------------------

  /** The window's entry parameter `tmin/dmin` lies in the window and before the slab's exit. */
  lemma WindowEntry(w: Window, sl: Slab) returns (lw: real)
    requires WellFormed(w, false) && w.dmin > 0.0
    requires w.dmin * sl.thi - sl.d * w.tmin > 0.0
    ensures lw >= 0.0 && lw * w.dmin == w.tmin
    ensures lw * w.dmax <= w.tmax && lw * sl.d < sl.thi
  {
    lw := w.tmin / w.dmin;
    assert lw * w.dmax * w.dmin == w.tmin * w.dmax;
    CancelLe(lw * w.dmax, w.tmax, w.dmin);
    assert lw * sl.d * w.dmin == sl.d * w.tmin;
    CancelLt(lw * sl.d, sl.thi, w.dmin);
  }

  /** The slab's entry parameter `tlo/d` lies before the window's exit. */
  lemma SlabEntry(w: Window, sl: Slab) returns (lz: real)
    requires sl.d > 0.0
    requires sl.d * w.tmax - w.dmax * sl.tlo > 0.0
    ensures lz * sl.d == sl.tlo && lz * w.dmax < w.tmax
  {
    lz := sl.tlo / sl.d;
    assert lz * w.dmax * sl.d == w.dmax * sl.tlo;
    CancelLt(lz * w.dmax, w.tmax, sl.d);
  }

  /** A parameter at or after both entries and before both exits is common to the two. */
  lemma BetweenEntriesAndExits(w: Window, sl: Slab, t: real, lw: real, lz: real)
    requires w.dmin > 0.0 && sl.d > 0.0
    requires lw * w.dmin == w.tmin && lz * sl.d == sl.tlo
    requires lw <= t && lz <= t
    requires t * w.dmax <= w.tmax && t * sl.d <= sl.thi
    ensures InWindow(w, t) && InSlab(sl, t)
  {
    MulLe(lw, t, w.dmin);
    MulLe(lz, t, sl.d);
  }

  /** When both z cross products certify overlap, the window and the slab share a
      parameter on the query's range: the later of the two entries. */
  lemma CommonPoint(w: Window, sl: Slab, bounded: bool) returns (t: real)
    requires WellFormed(w, bounded) && w.dmin > 0.0 && sl.d >= 0.0 && sl.tlo <= sl.thi
    requires w.dmin * sl.thi - sl.d * w.tmin > 0.0
    requires sl.d * w.tmax - w.dmax * sl.tlo > 0.0
    ensures Domain(t, bounded) && InWindow(w, t) && InSlab(sl, t)
  {
    var lw := WindowEntry(w, sl);
    if sl.d > 0.0 {
      var lz := SlabEntry(w, sl);
      if lz > lw {
        t := lz;
        assert t * sl.d <= sl.thi && t * w.dmax <= w.tmax;
      } else {
        t := lw;
        assert t * sl.d <= sl.thi && t * w.dmax <= w.tmax;
      }
      BetweenEntriesAndExits(w, sl, t, lw, lz);
    } else {
      t := lw;
      FlatSlabHolds(w, sl, t);
    }
    if bounded {
      AtMostOne(w, t);
    }
  }

  /** A slab with `d = 0` that the window's exit certifies as reachable holds every parameter. */
  lemma FlatSlabHolds(w: Window, sl: Slab, t: real)
    requires w.dmax >= 0.0 && sl.d == 0.0 && sl.tlo <= sl.thi
    requires w.dmin * sl.thi - sl.d * w.tmin > 0.0 && w.dmin >= 0.0
    requires sl.d * w.tmax - w.dmax * sl.tlo > 0.0
    ensures InSlab(sl, t)
  {
    if sl.tlo >= 0.0 {
      MulNonneg(w.dmax, sl.tlo);
    }
    if sl.thi <= 0.0 {
      MulLe(sl.thi, 0.0, w.dmin);
    }
  }

  /** Inside a segment's window a parameter is at most 1. */
  lemma AtMostOne(w: Window, t: real)
    requires WellFormed(w, true) && t * w.dmax <= w.tmax
    ensures t <= 1.0
  {
    assert t * w.dmax <= 1.0 * w.dmax;
    CancelLe(t, 1.0, w.dmax);
  }

  /** The z stage, in exact arithmetic with any non-negative error coefficient: a `false`
      leaves no parameter common to the window and the slab, and a `true` has one on the
      query's parameter range. */
  lemma ZStageSound(w: Window, m: real, p: real, q: real, lo: real, hi: real, eps: real, bounded: bool)
    requires eps >= 0.0 && lo <= hi && WellFormed(w, bounded) && w.dmin > 0.0
    ensures var v := ZStage(w, m, p, q, lo, hi, eps);
            v.outcome == Definite(false) ==>
              forall t :: !(InWindow(w, t) && InSlab(AxisSlab(p, q, lo, hi), t))
    ensures var v := ZStage(w, m, p, q, lo, hi, eps);
            v.outcome == Definite(true) ==>
              exists t :: Domain(t, bounded) && InWindow(w, t) && InSlab(AxisSlab(p, q, lo, hi), t)
  {
    hide ZCompare;
    var sl := AxisSlab(p, q, lo, hi);
    var mm := SlabMagnitude(m, sl);
    if mm <= OverflowBound {
      ZCompareSound(w, sl, CrossError(eps, mm), bounded);
    }
  }

  /** The z decision, for a non-negative error bound. */
  lemma ZCompareSound(w: Window, sl: Slab, error: real, bounded: bool)
    requires error >= 0.0 && sl.d >= 0.0 && sl.tlo <= sl.thi && WellFormed(w, bounded) && w.dmin > 0.0
    ensures ZCompare(w, sl, error).outcome == Definite(false) ==> forall t :: !(InWindow(w, t) && InSlab(sl, t))
    ensures ZCompare(w, sl, error).outcome == Definite(true) ==>
              exists t :: Domain(t, bounded) && InWindow(w, t) && InSlab(sl, t)
  {
    hide ZCompare;
    var v := ZCompare(w, sl, error);
    if v.outcome == Definite(false) {
      Separated(w, sl);
    } else if v.outcome == Definite(true) {
      var t := CommonPoint(w, sl, bounded);
    }
  }

  // ---------------------------------------------------------------------------
  // The whole chain
  // ---------------------------------------------------------------------------

  /** The y and z stages: a definite answer says whether some parameter of the query's
      range, inside the x window, puts the point in the box. */
  lemma YZSound(w: Window, m: real, p: Point3, q: Point3, b: Bbox3, eps: real, bounded: bool)
    requires eps >= 0.0 && ValidBox(b) && WellFormed(w, bounded) && WindowIsX(w, p, q, b, bounded)
    ensures var v := YZStages(w, m, p, q, b, eps);
            v.outcome.Definite? ==>
              (v.outcome.value <==> exists t :: Domain(t, bounded) && MeetsAt(p, q, b, t))
  {
    hide YStage, ZStage;
    var sly := AxisSlab(p.y, q.y, b.ymin, b.ymax);
    var slz := AxisSlab(p.z, q.z, b.zmin, b.zmax);
    var st := YStage(w, m, p.y, q.y, b.ymin, b.ymax, eps);
    var v := YZStages(w, m, p, q, b, eps);
    YStageSound(w, m, p.y, q.y, b.ymin, b.ymax, eps, bounded);
    if st.Stop? {
      if v.outcome.Definite? {
        forall t | Domain(t, bounded)
          ensures !MeetsAt(p, q, b, t)
        {
          assert !(InWindow(w, t) && InSlab(sly, t));
          assert InWindow(w, t) <==> InX(p, q, b, t);
        }
      }
    } else {
      ZStageSound(st.w, st.m, p.z, q.z, b.zmin, b.zmax, eps, bounded);
      if v.outcome == Definite(false) {
        forall t | Domain(t, bounded)
          ensures !MeetsAt(p, q, b, t)
        {
          assert !(InWindow(st.w, t) && InSlab(slz, t));
          assert InWindow(st.w, t) <==> InWindow(w, t) && InSlab(sly, t);
          assert InWindow(w, t) <==> InX(p, q, b, t);
        }
      } else if v.outcome == Definite(true) {
        var t :| Domain(t, bounded) && InWindow(st.w, t) && InSlab(slz, t);
        assert InWindow(st.w, t) <==> InWindow(w, t) && InSlab(sly, t);
        assert InWindow(w, t) <==> InX(p, q, b, t);
        assert MeetsAt(p, q, b, t);
      }
    }
  }

  /** Segment filter soundness: in exact arithmetic with any non-negative error
      coefficient, a definite answer is the exact answer. */
  lemma SegmentFilterSound(s: Segment3, b: Bbox3, fit: real -> bool, eps: real)
    requires eps >= 0.0 && ValidBox(b)
    ensures var v := FilterSegment(s, b, fit, eps);
            v.outcome.Definite? ==> v.outcome.value == SegmentMeetsBox(s, b)
  {
    hide XStage, YZStages;
    var p, q := s.source, s.target;
    var v := FilterSegment(s, b, fit, eps);
    if v.outcome.Definite? && Representable(p, q, fit) {
      if SegmentXRejects(p.x, q.x, b.xmin, b.xmax) {
        SegmentXRejectsSound(p.x, q.x, b.xmin, b.xmax);
        assert !SegmentMeetsBox(s, b);
      } else {
        var st := XStage(XWindow(p.x, q.x, b.xmin, b.xmax), eps);
        XStageSound(p, q, b, eps);
        YZSound(st.w, st.m, p, q, b, eps, true);
      }
    }
  }

  /** Corrected ray filter soundness: a definite answer is the exact answer. */
  lemma RayFilterSound(r: Ray3, b: Bbox3, fit: real -> bool, eps: real)
    requires eps >= 0.0 && ValidBox(b)
    ensures var v := FilterRay(r, b, fit, eps);
            v.outcome.Definite? ==> v.outcome.value == RayMeetsBox(r, b)
  {
    hide RayXStage, YZStages;
    var p, q := r.source, r.second;
    var v := FilterRay(r, b, fit, eps);
    if v.outcome.Definite? && Representable(p, q, fit) {
      if RayXRejects(p.x, q.x, b.xmin, b.xmax) {
        RayXRejectsSound(p.x, q.x, b.xmin, b.xmax);
        assert !RayMeetsBox(r, b);
      } else {
        var st := RayXStage(XWindow(p.x, q.x, b.xmin, b.xmax));
        RayXStageSound(p, q, b);
        YZSound(st.w, st.m, p, q, b, eps, false);
      }
    }
  }

  /** `operator()(Segment_3, Bbox_3)` answers the exact question whenever its fallback does. */
  lemma DoIntersectSegmentCorrect(s: Segment3, b: Bbox3, fit: real -> bool,
                                  exact: (Segment3, Bbox3) -> bool)
    requires ValidBox(b) && exact(s, b) == SegmentMeetsBox(s, b)
    ensures DoIntersectSegment(s, b, fit, exact) == SegmentMeetsBox(s, b)
  {
    SegmentFilterSound(s, b, fit, Eps1);
  }

  /** The corrected `operator()(Ray_3, Bbox_3)` answers the exact question whenever its
      fallback does. */
  lemma DoIntersectRayCorrect(r: Ray3, b: Bbox3, fit: real -> bool, exact: (Ray3, Bbox3) -> bool)
    requires ValidBox(b) && exact(r, b) == RayMeetsBox(r, b)
    ensures DoIntersectRay(r, b, fit, exact) == RayMeetsBox(r, b)
  {
    RayFilterSound(r, b, fit, Eps1);
  }
}
