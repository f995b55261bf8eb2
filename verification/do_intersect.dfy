/** The filtered slab test `Do_intersect_3` for a segment or a ray against a box,
    over exact reals. Every call is a fixed chain of early exits: a representability
    gate, the x-axis rejection and slab reduction, then certified sign tests on the
    x, y and z axes, each of which answers, narrows the parameter window, or hands
    the whole query to the exact predicate. */
module DoIntersect {
  import opened Signs
  import opened Geometry

  /** Error coefficient of the filter (`EPS_1`). */
  const Eps1: real := 3.55618e-15
  /** Below this running magnitude the x-stage error bound may underflow. */
  const XUnderflowBound: real := 7e-294
  /** Below this running magnitude the y-stage error bound may underflow. */
  const YUnderflowBound: real := 3e-147
  /** Above this running magnitude the cross products may overflow. */
  const OverflowBound: real := 1e153

  /** What the fast path concludes: a certified answer, or "ask the exact predicate". */
  datatype Outcome = Definite(value: bool) | Delegate

  /** Every exit of the chain, in source order. */
  datatype Site =
    | Unrepresentable   // a point coordinate does not fit in a double
    | XRejected         // the query lies on one side of the box along x
    | XUnderflow        // m < 7e-294 after the x stage
    | XUncertain        // sign of tmax - dmax not certified
    | YUnderflow        // m < 3e-147 after the y stage
    | YOverflow         // m > 1e153 before the y cross products
    | YSeparated        // a y cross product is certified positive
    | YUncertain        // a y cross product is not certified
    | LowerUncertain    // the lower-end comparison is not certified
    | UpperUncertain    // the upper-end comparison is not certified
    | ZOverflow         // m > 1e153 before the z cross products
    | ZSeparated        // a z cross product is certified negative
    | ZUncertain        // a z cross product is not certified
    | ZInside           // both z cross products are certified positive

  /** The parameter window `tmin/dmin <= t <= tmax/dmax`, kept as two fractions so that
      no division is performed. */
  datatype Window = Window(tmin: real, dmin: real, tmax: real, dmax: real)

  /** The parameter `t` lies in the window (the fractions compared by cross-multiplying). */
  predicate InWindow(w: Window, t: real) {
    t * w.dmin >= w.tmin && t * w.dmax <= w.tmax
  }

  /** After a stage the chain either goes on with a window and running magnitude `m`,
      or stops at an exit. */
  datatype Step = Next(w: Window, m: real) | Stop(outcome: Outcome, site: Site)

  /** The fast path's result together with the exit that produced it. */
  datatype Verdict = Verdict(outcome: Outcome, site: Site)

  /** One `m2 = abs(v); if (m2 > m) m = m2;` step of the running magnitude. */
  function FoldMax(m: real, v: real): (r: real)
    ensures r >= m && r >= Abs(v)
    ensures r == m || r == Abs(v)
  {
    if Abs(v) > m then Abs(v) else m
  }

  /** `m` after the x stage: the largest of |tmin|, |tmax|, |dmin| (|dmax| is not folded). */
  function XMagnitude(w: Window): (m: real)
    ensures m >= Abs(w.tmin) && m >= Abs(w.tmax) && m >= Abs(w.dmin)
    ensures m == Abs(w.tmin) || m == Abs(w.tmax) || m == Abs(w.dmin)
  {
    FoldMax(FoldMax(Abs(w.tmin), w.tmax), w.dmin)
  }

  /** `m` after folding in one y or z slab. */
  function SlabMagnitude(m: real, sl: Slab): (r: real)
    ensures r >= m && r >= Abs(sl.tlo) && r >= Abs(sl.thi) && r >= Abs(sl.d)
    ensures r == m || r == Abs(sl.tlo) || r == Abs(sl.thi) || r == Abs(sl.d)
  {
    FoldMax(FoldMax(FoldMax(m, sl.tlo), sl.thi), sl.d)
  }

  /** The error bound `EPS_1 * m * m` of a y or z cross product of degree 2. */
  function CrossError(eps: real, m: real): (e: real)
    ensures eps >= 0.0 ==> e >= 0.0
  {
    var e := eps * m * m;
    assert eps >= 0.0 ==> e >= 0.0 by {
      if eps >= 0.0 {
        assert m * m >= 0.0;
      }
    }
    e
  }

  /** The six point coordinates the representability gate looks at, in the order the
      source converts them. The box is not among them: it already holds doubles. */
  function Coordinates(p: Point3, q: Point3): seq<real> {
    [p.x, p.y, p.z, q.x, q.y, q.z]
  }

  /** The representability gate: the fast path runs only when every point coordinate
      fits in a double. */
  function Representable(p: Point3, q: Point3, fit: real -> bool): (r: bool)
    ensures r <==> forall i :: 0 <= i < |Coordinates(p, q)| ==> fit(Coordinates(p, q)[i])
  {
    var cs := Coordinates(p, q);
    assert cs[0] == p.x && cs[1] == p.y && cs[2] == p.z && cs[3] == q.x && cs[4] == q.y && cs[5] == q.z;
    fit(p.x) && fit(p.y) && fit(p.z) && fit(q.x) && fit(q.y) && fit(q.z)
  }

  /** x-axis trivial rejection of the segment: it lies entirely on one side of the box.
      A segment that is not rejected leaves a window whose entry end lies before the far
      end of the segment. */
  function SegmentXRejects(px: real, qx: real, lo: real, hi: real): (r: bool)
    ensures !r ==> XWindow(px, qx, lo, hi).tmax >= 0.0
    ensures !r ==> XWindow(px, qx, lo, hi).tmin <= XWindow(px, qx, lo, hi).dmax
  {
    if qx >= px then px > hi || qx < lo
    else qx > hi || px < lo
  }

  /** x-axis trivial rejection of the ray: only the test at the source survives, since
      the ray has no far end. It rejects only segments that are rejected too. */
  function RayXRejects(px: real, qx: real, lo: real, hi: real): (r: bool)
    ensures r ==> SegmentXRejects(px, qx, lo, hi)
    ensures !r ==> XWindow(px, qx, lo, hi).tmax >= 0.0
  {
    if qx >= px then hi < px
    else px < lo
  }

  /** The x-axis slab reduction: the entry fraction is 0/1 when `p` is already past the
      box's near x bound, the exit fraction is the distance to the far bound over the
      segment's x extent. */
  function XWindow(px: real, qx: real, lo: real, hi: real): (w: Window)
    ensures w.tmin >= 0.0 && w.dmin >= 0.0 && w.dmax == Abs(qx - px)
    ensures (w.tmin == 0.0 && w.dmin == 1.0) || w.dmin == w.dmax
  {
    if qx >= px then
      if lo < px then Window(0.0, 1.0, hi - px, qx - px)
      else Window(lo - px, qx - px, hi - px, qx - px)
    else
      if px < hi then Window(0.0, 1.0, px - lo, px - qx)
      else Window(px - hi, px - qx, px - lo, px - qx)
  }

  /** The x stage of the segment: underflow guard, then the certified comparison of
      `tmax` with `dmax`. When `tmax > dmax` is certified the exit end is the segment's
      own end, so the window's upper fraction becomes 1/1; when `tmax < dmax` is certified
      the window stays. An uncertain comparison delegates at once. */
  function XStage(w: Window, eps: real): (st: Step)
    ensures st.Stop? ==> st.outcome == Delegate
    ensures (st.Stop? && st.site == XUnderflow) <==> XMagnitude(w) < XUnderflowBound
    ensures st.Stop? ==> st.site == XUnderflow || st.site == XUncertain
    ensures st.Next? ==> st.m == XMagnitude(w) && st.m >= XUnderflowBound
    ensures eps >= 0.0 && XMagnitude(w) >= XUnderflowBound && Abs(w.tmax - w.dmax) <= eps * XMagnitude(w)
            ==> st == Stop(Delegate, XUncertain)
    ensures eps >= 0.0 && st.Next? ==>
              (w.tmax > w.dmax && st.w == Window(w.tmin, w.dmin, 1.0, 1.0))
              || (w.tmax < w.dmax && st.w == w)
  {
    var m := XMagnitude(w);
    if m < XUnderflowBound then Stop(Delegate, XUnderflow)
    else
      match SignWithError(w.tmax - w.dmax, eps * m)
      case Positive => Next(Window(w.tmin, w.dmin, 1.0, 1.0), m)
      case Negative => Next(w, m)
      case Zero => Stop(Delegate, XUncertain)
  }

  /** Past the underflow guard, the x stage compares `tmax - dmax` against the band
      `eps m` with `m = XMagnitude(w)`: above it the exit is cut at 1/1, below `-eps m` the
      window stays, and inside the band the query is handed off. */
  lemma XStageBand(w: Window, eps: real)
    requires eps >= 0.0 && XMagnitude(w) >= XUnderflowBound
    ensures var st, m := XStage(w, eps), XMagnitude(w);
            && (w.tmax - w.dmax > eps * m <==> st == Next(Window(w.tmin, w.dmin, 1.0, 1.0), m))
            && (w.tmax - w.dmax < -(eps * m) <==> st == Next(w, m))
            && (Abs(w.tmax - w.dmax) <= eps * m <==> st == Stop(Delegate, XUncertain))
  {
    hide SignWithError, Abs, XMagnitude;
    XDecisionBand(w, eps, XStage(w, eps));
  }

  /** The x stage's reading of the certified sign of `tmax - dmax`, restated on the
      difference itself. */
  lemma XDecisionBand(w: Window, eps: real, st: Step)
    requires eps >= 0.0 && XMagnitude(w) >= XUnderflowBound
    requires var s, m := SignWithError(w.tmax - w.dmax, eps * XMagnitude(w)), XMagnitude(w);
             && (s == Positive ==> st == Next(Window(w.tmin, w.dmin, 1.0, 1.0), m))
             && (s == Negative ==> st == Next(w, m))
             && (s == Zero ==> st == Stop(Delegate, XUncertain))
    ensures var m := XMagnitude(w);
            && (w.tmax - w.dmax > eps * m <==> st == Next(Window(w.tmin, w.dmin, 1.0, 1.0), m))
            && (w.tmax - w.dmax < -(eps * m) <==> st == Next(w, m))
            && (Abs(w.tmax - w.dmax) <= eps * m <==> st == Stop(Delegate, XUncertain))
  {
    hide SignWithError, Abs, XMagnitude;
    var m := XMagnitude(w);
    assert eps * m >= 0.0;
    SignWithErrorBand(w.tmax - w.dmax, eps * m);
  }

  /** The x stage of the corrected ray: only the underflow guard. A ray has no far
      end, so its window is never cut at parameter 1. */
  function RayXStage(w: Window): (st: Step)
    ensures st.Stop? <==> XMagnitude(w) < XUnderflowBound
    ensures st.Stop? ==> st == Stop(Delegate, XUnderflow)
    ensures st.Next? ==> st.w == w && st.m == XMagnitude(w)
  {
    var m := XMagnitude(w);
    if m < XUnderflowBound then Stop(Delegate, XUnderflow) else Next(w, m)
  }

  /** The y-stage update of the upper end. In the source the `break` after the POSITIVE
      assignments is commented out, so entering at POSITIVE runs its assignments and then
      falls into the NEGATIVE case, whose body is a bare `break`; entering at NEGATIVE runs
      only that body. The result is the one a `break` would have given. */
  function UpperCase(w: Window, sl: Slab, s: Sign): (w': Window)
    requires s != Zero
    ensures w'.tmin == w.tmin && w'.dmin == w.dmin
    ensures s == Negative ==> w' == w
    ensures s == Positive ==> w'.tmax == sl.thi && w'.dmax == sl.d
  {
    var entered := if s == Positive then Window(w.tmin, w.dmin, sl.thi, sl.d) else w;
    // the NEGATIVE body changes nothing
    entered
  }

  /** The y stage: fold the slab into `m`, guard against underflow and overflow, then
      compare the window with the slab. */
  function YStage(w: Window, m: real, p: real, q: real, lo: real, hi: real, eps: real): (st: Step)
    ensures st.Stop? && st.outcome.Definite? ==> st.outcome == Definite(false) && st.site == YSeparated
    ensures st.Stop? && st.outcome == Delegate ==>
              st.site in {YUnderflow, YOverflow, YUncertain, LowerUncertain, UpperUncertain}
    ensures st.Next? ==> st.m == SlabMagnitude(m, AxisSlab(p, q, lo, hi))
    ensures st.Next? ==> YUnderflowBound <= st.m <= OverflowBound
    ensures (st.Stop? && st.site == YUnderflow) <==> SlabMagnitude(m, AxisSlab(p, q, lo, hi)) < YUnderflowBound
    ensures var mm := SlabMagnitude(m, AxisSlab(p, q, lo, hi));
            (st.Stop? && st.site == YOverflow) <==> YUnderflowBound <= mm && mm > OverflowBound
    ensures st.Stop? && st.site == YOverflow ==> st.outcome == Delegate
  {
    var sl := AxisSlab(p, q, lo, hi);
    var m := SlabMagnitude(m, sl);
    if m < YUnderflowBound then Stop(Delegate, YUnderflow)
    else if m > OverflowBound then Stop(Delegate, YOverflow)
    else YCompare(w, sl, m, CrossError(eps, m))
  }

  /** Between the guards the y stage is the y comparison at the error `EPS_1 m m` of the
      folded `m`; for `eps >= 0` its band is that of `YCompareBand` at this error. */
  lemma YStageBand(w: Window, m: real, p: real, q: real, lo: real, hi: real, eps: real)
    ensures var sl := AxisSlab(p, q, lo, hi);
            var mm := SlabMagnitude(m, sl);
            YUnderflowBound <= mm <= OverflowBound ==>
              YStage(w, m, p, q, lo, hi, eps) == YCompare(w, sl, mm, CrossError(eps, mm))
    ensures var sl := AxisSlab(p, q, lo, hi);
            var mm := SlabMagnitude(m, sl);
            eps >= 0.0 && YUnderflowBound <= mm <= OverflowBound ==>
              YBand(YStage(w, m, p, q, lo, hi, eps), w, sl, CrossError(eps, mm))
  {
    hide YCompare, YNarrow, YBand, SignWithError, Abs, CrossError;
    var sl := AxisSlab(p, q, lo, hi);
    var mm := SlabMagnitude(m, sl);
    if YUnderflowBound <= mm <= OverflowBound {
      assert YStage(w, m, p, q, lo, hi, eps) == YCompare(w, sl, mm, CrossError(eps, mm));
      if eps >= 0.0 {
        YCompareBand(w, sl, mm, CrossError(eps, mm));
      }
    }
  }

  /** The two y cross products: `d_ tmin - dmin tmax_` certified positive means the window
      starts after the slab ends, `dmax tmin_ - d_ tmax` certified positive means the slab
      starts after the window ends; either proves separation. Only when both are certified
      negative does the chain go on. */
  function YCompare(w: Window, sl: Slab, m: real, error: real): (st: Step)
    ensures st.Stop? && st.outcome.Definite? ==> st == Stop(Definite(false), YSeparated)
    ensures st.Stop? && st.outcome == Delegate ==> st.site in {YUncertain, LowerUncertain, UpperUncertain}
    ensures st.Next? ==> st.m == m
    ensures error >= 0.0 && st == Stop(Definite(false), YSeparated) ==>
              sl.d * w.tmin - w.dmin * sl.thi > 0.0 || w.dmax * sl.tlo - sl.d * w.tmax > 0.0
    ensures error >= 0.0 && st.Next? ==>
              sl.d * w.tmin - w.dmin * sl.thi < 0.0 && w.dmax * sl.tlo - sl.d * w.tmax < 0.0
  {
    var sign1 := SignWithError(sl.d * w.tmin - w.dmin * sl.thi, error);
    var sign2 := SignWithError(w.dmax * sl.tlo - sl.d * w.tmax, error);
    if sign1 == Positive || sign2 == Positive then Stop(Definite(false), YSeparated)
    else if sign1 == Zero || sign2 == Zero then Stop(Delegate, YUncertain)
    else YNarrow(w, sl, m, error)
  }

  /** How a y step reads the two y cross products of `w` and `sl` against the band `error`:
      separation exactly when one exceeds `error`; the `YUncertain` hand-off exactly when
      neither does and one lies within `error` of zero; the narrowing step (going on, or
      one of its own hand-offs) exactly when both are below `-error`. */
  predicate YBand(st: Step, w: Window, sl: Slab, error: real) {
    var x1, x2 := sl.d * w.tmin - w.dmin * sl.thi, w.dmax * sl.tlo - sl.d * w.tmax;
    && (st == Stop(Definite(false), YSeparated) <==> x1 > error || x2 > error)
    && (st == Stop(Delegate, YUncertain) <==>
          x1 <= error && x2 <= error && (Abs(x1) <= error || Abs(x2) <= error))
    && (x1 < -error && x2 < -error <==>
          st.Next? || st.site == LowerUncertain || st.site == UpperUncertain)
  }

  /** The band `YCompare` certifies against: separation exactly when a product exceeds
      `error`, a hand-off exactly when neither does and one lies within `error` of zero,
      and the narrowing step exactly when both are below `-error`. */
  lemma YCompareBand(w: Window, sl: Slab, m: real, error: real)
    requires error >= 0.0
    ensures YBand(YCompare(w, sl, m, error), w, sl, error)
  {
    hide SignWithError, Abs, YNarrow, Narrowed;
    YDecisionBand(w, sl, error, YCompare(w, sl, m, error));
  }

  /** The y comparison's reading of the certified signs of its two cross products,
      restated on the products themselves. */
  lemma YDecisionBand(w: Window, sl: Slab, error: real, st: Step)
    requires error >= 0.0
    requires var s1 := SignWithError(sl.d * w.tmin - w.dmin * sl.thi, error);
             var s2 := SignWithError(w.dmax * sl.tlo - sl.d * w.tmax, error);
             && (s1 == Positive || s2 == Positive ==> st == Stop(Definite(false), YSeparated))
             && (s1 != Positive && s2 != Positive && (s1 == Zero || s2 == Zero) ==>
                   st == Stop(Delegate, YUncertain))
             && (s1 == Negative && s2 == Negative ==>
                   st.Next? || st.site == LowerUncertain || st.site == UpperUncertain)
    ensures YBand(st, w, sl, error)
  {
    hide SignWithError, Abs;
    var x1, x2 := sl.d * w.tmin - w.dmin * sl.thi, w.dmax * sl.tlo - sl.d * w.tmax;
    SignPairBand(x1, x2, error);
  }

  /** The window after the y stage's choices: the slab's entry replaces the window's when
      `takeEntry`, the slab's exit replaces the window's when `takeExit`. */
  function Narrowed(w: Window, sl: Slab, takeEntry: bool, takeExit: bool): Window {
    Window(if takeEntry then sl.tlo else w.tmin, if takeEntry then sl.d else w.dmin,
           if takeExit then sl.thi else w.tmax, if takeExit then sl.d else w.dmax)
  }

  /** Narrow the window by the slab: take the slab's entry `tmin_/d_` when it is certified
      later than `tmin/dmin`, then take the slab's exit `tmax_/d_` when it is certified
      earlier than `tmax/dmax`. An uncertain comparison delegates at once. Taking the entry
      leaves `tmax/dmax` alone, so the exit comparison reads them from `w`. */
  function YNarrow(w: Window, sl: Slab, m: real, error: real): (st: Step)
    ensures st.Stop? ==> st.outcome == Delegate
    ensures st.Stop? ==> st.site == LowerUncertain || st.site == UpperUncertain
    ensures st.Next? ==> st.m == m
    ensures error >= 0.0 && st.Next? ==>
              && w.dmin * sl.tlo - sl.d * w.tmin != 0.0
              && sl.d * w.tmax - w.dmax * sl.thi != 0.0
              && st.w == Narrowed(w, sl, w.dmin * sl.tlo - sl.d * w.tmin > 0.0,
                                  sl.d * w.tmax - w.dmax * sl.thi > 0.0)
  {
    match SignWithError(w.dmin * sl.tlo - sl.d * w.tmin, error)
    case Zero => Stop(Delegate, LowerUncertain)
    case lower =>
      var w1 := if lower == Positive then Window(sl.tlo, sl.d, w.tmax, w.dmax) else w;
      var upper := SignWithError(sl.d * w.tmax - w.dmax * sl.thi, error);
      if upper == Zero then Stop(Delegate, UpperUncertain)
      else Next(UpperCase(w1, sl, upper), m)
  }

  /** The band `YNarrow` certifies against: the entry comparison delegates exactly when it
      lies within `error` of zero, the exit comparison likewise once the entry is certain,
      and the window narrows only when both are certified beyond `error`. */
  lemma YNarrowBand(w: Window, sl: Slab, m: real, error: real)
    requires error >= 0.0
    ensures var st, lower, upper := YNarrow(w, sl, m, error),
                                    w.dmin * sl.tlo - sl.d * w.tmin, sl.d * w.tmax - w.dmax * sl.thi;
            && (st == Stop(Delegate, LowerUncertain) <==> Abs(lower) <= error)
            && (st == Stop(Delegate, UpperUncertain) <==> Abs(lower) > error && Abs(upper) <= error)
            && (st.Next? <==> Abs(lower) > error && Abs(upper) > error)
  {
    hide SignWithError, Abs;
    var lower, upper := w.dmin * sl.tlo - sl.d * w.tmin, sl.d * w.tmax - w.dmax * sl.thi;
    NarrowDecisionBand(lower, upper, error, YNarrow(w, sl, m, error));
  }

  /** The narrowing's reading of its two certified signs, restated on the values themselves. */
  lemma NarrowDecisionBand(lower: real, upper: real, error: real, st: Step)
    requires error >= 0.0
    requires var s1, s2 := SignWithError(lower, error), SignWithError(upper, error);
             && (s1 == Zero ==> st == Stop(Delegate, LowerUncertain))
             && (s1 != Zero && s2 == Zero ==> st == Stop(Delegate, UpperUncertain))
             && (s1 != Zero && s2 != Zero ==> st.Next?)
    ensures && (st == Stop(Delegate, LowerUncertain) <==> Abs(lower) <= error)
            && (st == Stop(Delegate, UpperUncertain) <==> Abs(lower) > error && Abs(upper) <= error)
            && (st.Next? <==> Abs(lower) > error && Abs(upper) > error)
  {
  }

  /** The z stage: fold the slab into `m` (no underflow guard here), guard against overflow,
      and decide from the two cross products. Only here can the answer be `true`. */
  function ZStage(w: Window, m: real, p: real, q: real, lo: real, hi: real, eps: real): (v: Verdict)
    ensures v.outcome.Definite? <==> v.site == ZSeparated || v.site == ZInside
    ensures v.outcome == Definite(true) <==> v.site == ZInside
    ensures v.outcome == Delegate ==> v.site == ZOverflow || v.site == ZUncertain
    ensures v.site == ZOverflow <==> SlabMagnitude(m, AxisSlab(p, q, lo, hi)) > OverflowBound
  {
    var sl := AxisSlab(p, q, lo, hi);
    var m := SlabMagnitude(m, sl);
    if m > OverflowBound then Verdict(Delegate, ZOverflow)
    else ZCompare(w, sl, CrossError(eps, m))
  }

  /** Below the overflow guard the z stage is the z decision at the error `EPS_1 m m` of
      the folded `m`; for `eps >= 0` its band is that of `ZCompareBand` at this error. */
  lemma ZStageBand(w: Window, m: real, p: real, q: real, lo: real, hi: real, eps: real)
    ensures var sl := AxisSlab(p, q, lo, hi);
            var mm := SlabMagnitude(m, sl);
            mm <= OverflowBound ==>
              ZStage(w, m, p, q, lo, hi, eps) == ZCompare(w, sl, CrossError(eps, mm))
    ensures var sl := AxisSlab(p, q, lo, hi);
            var mm := SlabMagnitude(m, sl);
            eps >= 0.0 && mm <= OverflowBound ==>
              ZBand(ZStage(w, m, p, q, lo, hi, eps), w, sl, CrossError(eps, mm))
  {
    hide ZCompare, ZBand, SignWithError, Abs, CrossError;
    var sl := AxisSlab(p, q, lo, hi);
    var mm := SlabMagnitude(m, sl);
    if mm <= OverflowBound {
      assert ZStage(w, m, p, q, lo, hi, eps) == ZCompare(w, sl, CrossError(eps, mm));
      if eps >= 0.0 {
        ZCompareBand(w, sl, CrossError(eps, mm));
      }
    }
  }

  /** The z decision: `false` when either cross product is certified negative, a hand-off
      when either is uncertain, `true` when both are certified positive. */
  function ZCompare(w: Window, sl: Slab, error: real): (v: Verdict)
    ensures v.outcome.Definite? <==> v.site == ZSeparated || v.site == ZInside
    ensures v.outcome == Definite(true) <==> v.site == ZInside
    ensures v.outcome == Delegate ==> v.site == ZUncertain
    ensures error >= 0.0 && v.site == ZSeparated ==>
              w.dmin * sl.thi - sl.d * w.tmin < 0.0 || sl.d * w.tmax - w.dmax * sl.tlo < 0.0
    ensures error >= 0.0 && v.site == ZInside ==>
              w.dmin * sl.thi - sl.d * w.tmin > 0.0 && sl.d * w.tmax - w.dmax * sl.tlo > 0.0
  {
    var sign1 := SignWithError(w.dmin * sl.thi - sl.d * w.tmin, error);
    var sign2 := SignWithError(sl.d * w.tmax - w.dmax * sl.tlo, error);
    if sign1 == Negative || sign2 == Negative then Verdict(Definite(false), ZSeparated)
    else if sign1 == Zero || sign2 == Zero then Verdict(Delegate, ZUncertain)
    else Verdict(Definite(true), ZInside)
  }

  /** How a z verdict reads the two z cross products of `w` and `sl` against the band
      `error`: `false` exactly when one is below `-error`, `true` exactly when both exceed
      `error`, and the hand-off exactly when neither is below `-error` and one lies within
      `error` of zero. */
  predicate ZBand(v: Verdict, w: Window, sl: Slab, error: real) {
    var x1, x2 := w.dmin * sl.thi - sl.d * w.tmin, sl.d * w.tmax - w.dmax * sl.tlo;
    && (v == Verdict(Definite(false), ZSeparated) <==> x1 < -error || x2 < -error)
    && (v == Verdict(Definite(true), ZInside) <==> x1 > error && x2 > error)
    && (v == Verdict(Delegate, ZUncertain) <==>
          x1 >= -error && x2 >= -error && (Abs(x1) <= error || Abs(x2) <= error))
  }

  /** The band `ZCompare` certifies against: `false` exactly when a product is below
      `-error`, `true` exactly when both exceed `error`, and a hand-off exactly when
      neither is below `-error` and one lies within `error` of zero. */
  lemma ZCompareBand(w: Window, sl: Slab, error: real)
    requires error >= 0.0
    ensures ZBand(ZCompare(w, sl, error), w, sl, error)
  {
    hide SignWithError, Abs;
    ZDecisionBand(w, sl, error, ZCompare(w, sl, error));
  }

  /** The z decision's reading of the certified signs of its two cross products,
      restated on the products themselves. */
  lemma ZDecisionBand(w: Window, sl: Slab, error: real, v: Verdict)
    requires error >= 0.0
    requires var s1 := SignWithError(w.dmin * sl.thi - sl.d * w.tmin, error);
             var s2 := SignWithError(sl.d * w.tmax - w.dmax * sl.tlo, error);
             && (s1 == Negative || s2 == Negative ==> v == Verdict(Definite(false), ZSeparated))
             && (s1 != Negative && s2 != Negative && (s1 == Zero || s2 == Zero) ==>
                   v == Verdict(Delegate, ZUncertain))
             && (s1 == Positive && s2 == Positive ==> v == Verdict(Definite(true), ZInside))
    ensures ZBand(v, w, sl, error)
  {
    hide SignWithError, Abs;
    var x1, x2 := w.dmin * sl.thi - sl.d * w.tmin, sl.d * w.tmax - w.dmax * sl.tlo;
    SignWithErrorBand(x1, error);
    SignWithErrorBand(x2, error);
  }

  /** The y and z stages together, shared by every overload. */
  function YZStages(w: Window, m: real, p: Point3, q: Point3, b: Bbox3, eps: real): (v: Verdict)
    ensures v.outcome.Definite? ==> v.site in {YSeparated, ZSeparated, ZInside}
    ensures v.outcome == Definite(true) <==> v.site == ZInside
  {
    match YStage(w, m, p.y, q.y, b.ymin, b.ymax, eps)
    case Stop(o, site) => Verdict(o, site)
    case Next(w', m') => ZStage(w', m', p.z, q.z, b.zmin, b.zmax, eps)
  }

  /** The running magnitude only grows: the z stage, which has no underflow guard of its
      own, folds its slab into an `m` that the y stage already checked against the
      underflow bound, and the overflow guard before the z cross products sees an `m` at
      least as large as the one the y stage checked. */
  lemma ZMagnitudeGuarded(w: Window, m: real, p: Point3, q: Point3, b: Bbox3, eps: real)
    ensures var st := YStage(w, m, p.y, q.y, b.ymin, b.ymax, eps);
            st.Next? ==>
              var mz := SlabMagnitude(st.m, AxisSlab(p.z, q.z, b.zmin, b.zmax));
              m <= st.m <= mz && mz >= YUnderflowBound
  {
  }

  /** The fast path of `operator()(Segment_3, Bbox_3)` with error coefficient `eps`. */
  function FilterSegment(s: Segment3, b: Bbox3, fit: real -> bool, eps: real): (v: Verdict)
    ensures !Representable(s.source, s.target, fit) ==> v == Verdict(Delegate, Unrepresentable)
    ensures Representable(s.source, s.target, fit)
              && SegmentXRejects(s.source.x, s.target.x, b.xmin, b.xmax)
            ==> v == Verdict(Definite(false), XRejected)
    ensures v.outcome.Definite? ==> v.site in {XRejected, YSeparated, ZSeparated, ZInside}
    ensures v.outcome == Definite(true) <==> v.site == ZInside
  {
    var p, q := s.source, s.target;
    if !Representable(p, q, fit) then Verdict(Delegate, Unrepresentable)
    else if SegmentXRejects(p.x, q.x, b.xmin, b.xmax) then Verdict(Definite(false), XRejected)
    else
      match XStage(XWindow(p.x, q.x, b.xmin, b.xmax), eps)
      case Stop(o, site) => Verdict(o, site)
      case Next(w, m) => YZStages(w, m, p, q, b, eps)
  }

  /** The fast path of `operator()(Ray_3, Bbox_3)` as the source writes it: the segment
      chain with the ray's x rejection, including the segment's cut of the window at
      parameter 1. */
  function FilterRayAsWritten(r: Ray3, b: Bbox3, fit: real -> bool, eps: real): (v: Verdict)
    ensures !Representable(r.source, r.second, fit) ==> v == Verdict(Delegate, Unrepresentable)
    ensures Representable(r.source, r.second, fit)
              && RayXRejects(r.source.x, r.second.x, b.xmin, b.xmax)
            ==> v == Verdict(Definite(false), XRejected)
    ensures v.outcome.Definite? ==> v.site in {XRejected, YSeparated, ZSeparated, ZInside}
    ensures v.outcome == Definite(true) <==> v.site == ZInside
  {
    var p, q := r.source, r.second;
    if !Representable(p, q, fit) then Verdict(Delegate, Unrepresentable)
    else if RayXRejects(p.x, q.x, b.xmin, b.xmax) then Verdict(Definite(false), XRejected)
    else
      match XStage(XWindow(p.x, q.x, b.xmin, b.xmax), eps)
      case Stop(o, site) => Verdict(o, site)
      case Next(w, m) => YZStages(w, m, p, q, b, eps)
  }

  /** The fast path for a ray with the x stage reduced to its underflow guard. */
  function FilterRay(r: Ray3, b: Bbox3, fit: real -> bool, eps: real): (v: Verdict)
    ensures !Representable(r.source, r.second, fit) ==> v == Verdict(Delegate, Unrepresentable)
    ensures Representable(r.source, r.second, fit)
              && RayXRejects(r.source.x, r.second.x, b.xmin, b.xmax)
            ==> v == Verdict(Definite(false), XRejected)
    ensures v.outcome.Definite? ==> v.site in {XRejected, YSeparated, ZSeparated, ZInside}
    ensures v.outcome == Definite(true) <==> v.site == ZInside
  {
    var p, q := r.source, r.second;
    if !Representable(p, q, fit) then Verdict(Delegate, Unrepresentable)
    else if RayXRejects(p.x, q.x, b.xmin, b.xmax) then Verdict(Definite(false), XRejected)
    else
      match RayXStage(XWindow(p.x, q.x, b.xmin, b.xmax))
      case Stop(o, site) => Verdict(o, site)
      case Next(w, m) => YZStages(w, m, p, q, b, eps)
  }

  /** Use a definite answer, or ask the exact predicate. */
  function Resolve(o: Outcome, exact: bool): bool {
    match o
    case Definite(v) => v
    case Delegate => exact
  }

  /** `operator()(Segment_3, Bbox_3)`: the filter with `EPS_1`, falling back to the exact
      predicate `exact` on the original query. */
  function DoIntersectSegment(s: Segment3, b: Bbox3, fit: real -> bool,
                              exact: (Segment3, Bbox3) -> bool): (r: bool)
    ensures !Representable(s.source, s.target, fit) ==> r == exact(s, b)
    ensures r != exact(s, b) ==> FilterSegment(s, b, fit, Eps1).outcome == Definite(r)
    ensures FilterSegment(s, b, fit, Eps1).outcome.Definite? ==>
              r == FilterSegment(s, b, fit, Eps1).outcome.value
  {
    Resolve(FilterSegment(s, b, fit, Eps1).outcome, exact(s, b))
  }

  /** `operator()(Ray_3, Bbox_3)` as the source writes it: the as-written ray filter with
      `EPS_1`, falling back to the exact predicate on the original query. */
  function DoIntersectRayAsWritten(r: Ray3, b: Bbox3, fit: real -> bool,
                                   exact: (Ray3, Bbox3) -> bool): (res: bool)
    ensures !Representable(r.source, r.second, fit) ==> res == exact(r, b)
    ensures res != exact(r, b) ==> FilterRayAsWritten(r, b, fit, Eps1).outcome == Definite(res)
    ensures FilterRayAsWritten(r, b, fit, Eps1).outcome.Definite? ==>
              res == FilterRayAsWritten(r, b, fit, Eps1).outcome.value
  {
    Resolve(FilterRayAsWritten(r, b, fit, Eps1).outcome, exact(r, b))
  }

  /** `operator()(Ray_3, Bbox_3)` with the corrected ray filter. */
  function DoIntersectRay(r: Ray3, b: Bbox3, fit: real -> bool,
                          exact: (Ray3, Bbox3) -> bool): (res: bool)
    ensures !Representable(r.source, r.second, fit) ==> res == exact(r, b)
    ensures res != exact(r, b) ==> FilterRay(r, b, fit, Eps1).outcome == Definite(res)
    ensures FilterRay(r, b, fit, Eps1).outcome.Definite? ==>
              res == FilterRay(r, b, fit, Eps1).outcome.value
  {
    Resolve(FilterRay(r, b, fit, Eps1).outcome, exact(r, b))
  }
}
