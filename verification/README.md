# Filtered `Do_intersect_3` for segments and rays against a box

This project models CGAL's static filter for `Do_intersect_3(Segment_3, Bbox_3)` and
`Do_intersect_3(Ray_3, Bbox_3)`. The filter is a slab method run in doubles. It does not
divide: each axis gives a parameter window `tmin/dmin <= t <= tmax/dmax`, and windows are
compared by cross-multiplying. Every comparison goes through `sign_with_error`, which
answers POSITIVE, NEGATIVE, or ZERO ("cannot certify"). A call runs a fixed chain of early
exits:

- a representability gate on the six point coordinates;
- x-axis trivial rejection and the x slab reduction;
- the running magnitude `m`, with underflow and overflow guards;
- the certified sign tests on x, y and z.

Each test answers `true` or `false`, narrows the window, or hands the whole query to the
exact predicate `Base::operator()`.

The model works over exact `real`s. Each exit is an `Outcome`: `Definite(b)`, or
`Delegate` for "ask the exact predicate". A `Site` value names the exit, so "which
places can answer" is a contract. The error coefficient `EPS_1` is a parameter `eps` of
the chain, and the shipped predicate uses `Eps1 = 3.55618e-15`. The proofs hold for every
`eps >= 0`.

The project has six modules:

- `Signs`: `sign_with_error` and the exact sign it is measured against.
- `Geometry`: points, boxes, segments and rays. It also defines the exact meaning of
  "meets the box" (`SegmentMeetsBox`, `RayMeetsBox`), which is the independent reference,
  and the y/z slab reduction.
- `DoIntersect`: the chain, stage by stage.
  - `FilterSegment` is the segment overload.
  - `FilterRayAsWritten` is the ray overload as the source writes it.
  - `FilterRay` is the ray overload with the defect under "## Findings" corrected.
  - `DoIntersectSegment`, `DoIntersectRayAsWritten` and `DoIntersectRay` add the fallback
    to the exact predicate. `DoIntersectRayAsWritten` wraps the ray filter as written;
    `DoIntersectRay` wraps the corrected one.
- `Soundness`: in exact arithmetic every definite answer equals the reference, stage by
  stage and for the whole chain.
- `Certainty`: the source's "we are *sure*" claim. A definite answer found with some error
  bound is found, identically and from the same exit, with any smaller bound, down to
  exact signs.
- `Overloads`: how the ray overload relates to the segment overload, and a concrete ray
  the source answers wrongly.

## Model

| member | source | states |
|---|---|---|
| Signs.SignWithError | Filtered_kernel/include/CGAL/internal/Static_filters/Do_intersect_3.h:64-68 | For a non-negative error bound, ZERO is returned exactly when `|x| <= error`. Any other answer is the exact sign of `x`. |
| Signs.SignWithErrorBand | Filtered_kernel/include/CGAL/internal/Static_filters/Do_intersect_3.h:64-68 | For a non-negative error bound, POSITIVE is returned exactly when `x > error` and NEGATIVE exactly when `x < -error`. |
| Signs.SignWithErrorMonotone | Filtered_kernel/include/CGAL/internal/Static_filters/Do_intersect_3.h:64-68 | A sign certified against a wider error band is certified, identically, against any narrower band. |
| Geometry.AxisSlab | Filtered_kernel/include/CGAL/internal/Static_filters/Do_intersect_3.h:171-183 | For every `t`, the slab constraint `tmin_ <= t d_ <= tmax_` holds exactly when the coordinate `p + t (q - p)` lies in `[lo, hi]`. Also `d_ = |q - p|`, and `tmin_ <= tmax_` for a valid box. |
| DoIntersect.FoldMax | Filtered_kernel/include/CGAL/internal/Static_filters/Do_intersect_3.h:140-142 | One running-maximum step: the result is at least `m` and at least `|v|`, and equals one of them. |
| DoIntersect.XMagnitude | Filtered_kernel/include/CGAL/internal/Static_filters/Do_intersect_3.h:140-142 | `m` after the x stage is the largest of `|tmin|`, `|tmax|` and `|dmin|`. |
| DoIntersect.SlabMagnitude | Filtered_kernel/include/CGAL/internal/Static_filters/Do_intersect_3.h:185-187 | Folding a slab never lowers `m`. The result is at least every value folded in, and equals one of them. |
| DoIntersect.CrossError | Filtered_kernel/include/CGAL/internal/Static_filters/Do_intersect_3.h:194 | The cross-product error bound `eps m m` is non-negative for a non-negative coefficient. |
| DoIntersect.Representable | Filtered_kernel/include/CGAL/internal/Static_filters/Do_intersect_3.h:84-87 | The fast path runs exactly when every one of the six point coordinates fits in a double. Only the two points are checked: the box's bounds are already doubles. The ray overload has the same gate at lines 308-311. |
| DoIntersect.SegmentXRejects | Filtered_kernel/include/CGAL/internal/Static_filters/Do_intersect_3.h:103-135 | A segment the x test does not reject leaves `tmax >= 0` and `tmin <= dmax`. |
| DoIntersect.RayXRejects | Filtered_kernel/include/CGAL/internal/Static_filters/Do_intersect_3.h:327-360 | A rejected ray has its segment rejected too. A ray that is not rejected leaves `tmax >= 0`. |
| DoIntersect.XWindow | Filtered_kernel/include/CGAL/internal/Static_filters/Do_intersect_3.h:108-135 | After the x reduction, `tmin, dmin >= 0` and `dmax = |qx - px|`. Either `(tmin, dmin) = (0, 1)` or `dmin = dmax`. |
| DoIntersect.XStage | Filtered_kernel/include/CGAL/internal/Static_filters/Do_intersect_3.h:140-166 | It delegates at the x underflow exit exactly when `m < 7e-294`, and delegates at once when `|tmax - dmax| <= eps m`. It never answers. When it goes on, the window's exit becomes 1/1 exactly when `tmax > dmax` and stays when `tmax < dmax`. |
| DoIntersect.XStageBand | Filtered_kernel/include/CGAL/internal/Static_filters/Do_intersect_3.h:140-166 | Past the underflow guard and for `eps >= 0`, with `m` the x magnitude: the exit is cut to 1/1 exactly when `tmax - dmax > eps m`. The window goes on unchanged exactly when `tmax - dmax < -eps m`. The query is handed off exactly when `|tmax - dmax| <= eps m`. |
| DoIntersect.RayXStage | Filtered_kernel/include/CGAL/internal/Static_filters/Do_intersect_3.h:364-371 | The corrected ray's x stage stops exactly when `m < 7e-294`. Otherwise the window goes on unchanged. |
| DoIntersect.UpperCase | Filtered_kernel/include/CGAL/internal/Static_filters/Do_intersect_3.h:235-245 | POSITIVE falls through into NEGATIVE: the window's exit becomes the slab's exit. NEGATIVE leaves the window as it is. The entry is never touched. |
| DoIntersect.YStage | Filtered_kernel/include/CGAL/internal/Static_filters/Do_intersect_3.h:171-202 | It delegates at the y underflow exit exactly when the folded `m < 3e-147`. It delegates at the y overflow exit exactly when `3e-147 <= m` and `m > 1e153`. Its only definite stop is `false` at `YSeparated`. When it goes on, `3e-147 <= m <= 1e153`. |
| DoIntersect.YStageBand | Filtered_kernel/include/CGAL/internal/Static_filters/Do_intersect_3.h:171-202 | Between the guards, the y stage is the y comparison run at the error `EPS_1 m m`, where `m` already includes the y slab's three values. For `eps >= 0` it therefore has `YCompareBand`'s band at that error: `false` exactly when a cross product exceeds `eps m m`, a hand-off exactly when neither does and one lies within `eps m m` of zero, and narrowing exactly when both are below `-eps m m`. |
| DoIntersect.YCompare | Filtered_kernel/include/CGAL/internal/Static_filters/Do_intersect_3.h:203-213 | A `false` means a positive cross product: the window starts after the slab ends, or the slab starts after the window ends. Going on means both products are negative. |
| DoIntersect.YCompareBand | Filtered_kernel/include/CGAL/internal/Static_filters/Do_intersect_3.h:203-220 | For `error >= 0` it states the certified band. The answer is `false` exactly when a product exceeds `error`. It delegates at `YUncertain` exactly when neither product exceeds `error` and one lies within `error` of zero. The narrowing step is reached exactly when both products are below `-error`. |
| DoIntersect.YNarrow | Filtered_kernel/include/CGAL/internal/Static_filters/Do_intersect_3.h:221-245 | Going on means both end comparisons are non-zero. The new window takes the slab's entry or exit exactly where the exact comparison is positive. |
| DoIntersect.YNarrowBand | Filtered_kernel/include/CGAL/internal/Static_filters/Do_intersect_3.h:221-245 | For `error >= 0` it states the certified band. The entry comparison delegates exactly when it is within `error` of zero. Once the entry is certain, the exit comparison delegates exactly when it is within `error` of zero. The window narrows exactly when both are beyond `error`. |
| DoIntersect.ZStage | Filtered_kernel/include/CGAL/internal/Static_filters/Do_intersect_3.h:250-273 | It delegates at the z overflow exit exactly when the folded `m > 1e153`. It is definite only at `ZSeparated` or `ZInside`, and `true` only at `ZInside`. |
| DoIntersect.ZCompare | Filtered_kernel/include/CGAL/internal/Static_filters/Do_intersect_3.h:274-287 | A `false` means a negative z cross product. A `true` means both are positive. Any hand-off is at `ZUncertain`. |
| DoIntersect.ZCompareBand | Filtered_kernel/include/CGAL/internal/Static_filters/Do_intersect_3.h:274-287 | For `error >= 0` it states the certified band. The answer is `false` exactly when a product is below `-error`, and `true` exactly when both exceed `error`. It delegates exactly when neither is below `-error` and one lies within `error` of zero. |
| DoIntersect.ZStageBand | Filtered_kernel/include/CGAL/internal/Static_filters/Do_intersect_3.h:250-273 | Below the overflow guard, the z stage is the z decision run at `EPS_1 m m`, where `m` is refolded with the z slab (line 263). For `eps >= 0`: `false` exactly when a z cross product is below `-eps m m`, `true` exactly when both exceed `eps m m`, and a hand-off exactly when neither is below `-eps m m` and one lies within `eps m m` of zero. |
| DoIntersect.ZMagnitudeGuarded | Filtered_kernel/include/CGAL/internal/Static_filters/Do_intersect_3.h:263-273 | `m` only grows across the stages. The z stage, which has no underflow guard, works with `m >= 3e-147`. |
| DoIntersect.YZStages | Filtered_kernel/include/CGAL/internal/Static_filters/Do_intersect_3.h:171-287 | The y and z stages together can answer only at y separation, z separation or z inside. They answer `true` exactly at z inside. |
| DoIntersect.FilterSegment | Filtered_kernel/include/CGAL/internal/Static_filters/Do_intersect_3.h:70-290 | An unrepresentable point delegates. x rejection answers `false`. A definite answer comes only from x rejection, y separation, z separation or z inside, and `true` only from z inside. |
| DoIntersect.FilterRayAsWritten | Filtered_kernel/include/CGAL/internal/Static_filters/Do_intersect_3.h:294-514 | The same exits as the segment, with the ray's one-sided x rejection. |
| DoIntersect.FilterRay | Filtered_kernel/include/CGAL/internal/Static_filters/Do_intersect_3.h:294-514 | The same exits, with the corrected ray's x stage. |
| DoIntersect.DoIntersectSegment | Filtered_kernel/include/CGAL/internal/Static_filters/Do_intersect_3.h:84-289 | A definite filter answer is returned as is. An unrepresentable point gives the exact predicate's answer. The result differs from the exact predicate only when the filter itself answered that value. |
| DoIntersect.DoIntersectRayAsWritten | Filtered_kernel/include/CGAL/internal/Static_filters/Do_intersect_3.h:294-514 | The ray operator as written. A definite answer of the as-written ray filter is returned as is, so the operator inherits that filter's wrong `false` shown under "## Findings". An unrepresentable point gives the exact predicate's answer. The result differs from the exact predicate only when the as-written ray filter itself answered that value. |
| DoIntersect.DoIntersectRay | Filtered_kernel/include/CGAL/internal/Static_filters/Do_intersect_3.h:294-514 | The corrected ray operator: the same three facts, with the corrected ray filter in place of the as-written one. |
| Soundness.SegmentXRejectsSound | Filtered_kernel/include/CGAL/internal/Static_filters/Do_intersect_3.h:103-123 | A segment rejected on x has no point in the box's x range. |
| Soundness.RayXRejectsSound | Filtered_kernel/include/CGAL/internal/Static_filters/Do_intersect_3.h:327-348 | A ray rejected on x has no point at or beyond its source in the box's x range. |
| Soundness.XWindowExact | Filtered_kernel/include/CGAL/internal/Static_filters/Do_intersect_3.h:108-135 | For every `t >= 0`, the x window holds `t` exactly when the x coordinate at `t` is in the box's x range. |
| Soundness.XWindowWellFormed | Filtered_kernel/include/CGAL/internal/Static_filters/Do_intersect_3.h:108-135 | The window of a query that is not rejected is well formed. All four values are non-negative, and the entry fraction is at most the exit fraction. |
| Soundness.CutAtOneExact | Filtered_kernel/include/CGAL/internal/Static_filters/Do_intersect_3.h:153-158 | When `tmax > dmax`, cutting the exit at 1/1 loses no parameter in `[0, 1]`. The cut window is well formed for a segment. |
| Soundness.XStageSound | Filtered_kernel/include/CGAL/internal/Static_filters/Do_intersect_3.h:103-166 | After the segment's x stage, the window is exactly the x constraint on `[0, 1]`. |
| Soundness.RayXStageSound | Filtered_kernel/include/CGAL/internal/Static_filters/Do_intersect_3.h:327-371 | After the corrected ray's x stage, the window is exactly the x constraint on `[0, oo)`. |
| Soundness.Separated | Filtered_kernel/include/CGAL/internal/Static_filters/Do_intersect_3.h:203-208 | A positive y cross product leaves no parameter common to the window and the slab. |
| Soundness.NarrowSet | Filtered_kernel/include/CGAL/internal/Static_filters/Do_intersect_3.h:221-245 | The narrowed window holds exactly the parameters of the old window that are inside the slab. |
| Soundness.NarrowWellFormed | Filtered_kernel/include/CGAL/internal/Static_filters/Do_intersect_3.h:221-245 | The narrowed window is well formed and has a positive entry denominator. |
| Soundness.YStageSound | Filtered_kernel/include/CGAL/internal/Static_filters/Do_intersect_3.h:171-245 | A y-stage `false` means the window and the slab share no parameter. A window handed on is well formed and is the old window cut by the slab. |
| Soundness.CommonPoint | Filtered_kernel/include/CGAL/internal/Static_filters/Do_intersect_3.h:274-287 | Two positive z cross products give a parameter of the query's range that lies in both the window and the slab. |
| Soundness.ZStageSound | Filtered_kernel/include/CGAL/internal/Static_filters/Do_intersect_3.h:250-287 | A z `false` means no common parameter. A z `true` means a common parameter in the query's range. |
| Soundness.YZSound | Filtered_kernel/include/CGAL/internal/Static_filters/Do_intersect_3.h:171-287 | Starting from the x window, a definite y/z answer is `true` exactly when some parameter of the range puts the point in the box. |
| Soundness.SegmentFilterSound | Filtered_kernel/include/CGAL/internal/Static_filters/Do_intersect_3.h:70-290 | In exact arithmetic with any `eps >= 0`, a definite answer of the segment filter is whether the segment meets the box. |
| Soundness.RayFilterSound | Filtered_kernel/include/CGAL/internal/Static_filters/Do_intersect_3.h:294-514 | A definite answer of the corrected ray filter is whether the ray meets the box. |
| Soundness.DoIntersectSegmentCorrect | Filtered_kernel/include/CGAL/internal/Static_filters/Do_intersect_3.h:70-290 | With an exact fallback, `operator()(Segment_3, Bbox_3)` answers whether the segment meets the box. |
| Soundness.DoIntersectRayCorrect | Filtered_kernel/include/CGAL/internal/Static_filters/Do_intersect_3.h:294-514 | With an exact fallback, the corrected ray overload answers whether the ray meets the box. |
| Certainty.CrossErrorMonotone | Filtered_kernel/include/CGAL/internal/Static_filters/Do_intersect_3.h:194 | The cross-product error bound grows with the coefficient. |
| Certainty.XStageSure | Filtered_kernel/include/CGAL/internal/Static_filters/Do_intersect_3.h:149-166 | An x stage that goes on with one coefficient goes on identically with any smaller one. |
| Certainty.YCompareSure | Filtered_kernel/include/CGAL/internal/Static_filters/Do_intersect_3.h:203-213 | A y comparison that answers or goes on gives the same step with any smaller error bound. |
| Certainty.YNarrowSure | Filtered_kernel/include/CGAL/internal/Static_filters/Do_intersect_3.h:221-245 | A narrowing that goes on narrows identically with any smaller error bound. |
| Certainty.YStageSure | Filtered_kernel/include/CGAL/internal/Static_filters/Do_intersect_3.h:185-245 | A y stage that answers or goes on does the same with any smaller coefficient. |
| Certainty.ZCompareSure | Filtered_kernel/include/CGAL/internal/Static_filters/Do_intersect_3.h:274-287 | A definite z decision is the same with any smaller error bound. |
| Certainty.ZStageSure | Filtered_kernel/include/CGAL/internal/Static_filters/Do_intersect_3.h:263-287 | A definite z stage is the same with any smaller coefficient. |
| Certainty.YZStagesSure | Filtered_kernel/include/CGAL/internal/Static_filters/Do_intersect_3.h:171-287 | A definite y/z answer is the same with any smaller coefficient. |
| Certainty.SegmentFilterSure | Filtered_kernel/include/CGAL/internal/Static_filters/Do_intersect_3.h:206-208 | A definite segment answer found with coefficient `e2` is found, from the same exit, with every `0 <= e1 <= e2`, including exact signs at 0. |
| Certainty.RayAsWrittenSure | Filtered_kernel/include/CGAL/internal/Static_filters/Do_intersect_3.h:430-432 | The same certainty for the ray overload as written. |
| Certainty.RayFilterSure | Filtered_kernel/include/CGAL/internal/Static_filters/Do_intersect_3.h:500-511 | The same certainty for the corrected ray overload. |
| Overloads.RayAsWrittenFollowsSegment | Filtered_kernel/include/CGAL/internal/Static_filters/Do_intersect_3.h:327-348 | A ray rejected on x has its segment rejected. Otherwise, unless only the segment is rejected, the two overloads on the same two points give the same verdict from the same exit. |
| Overloads.RayCutAtOneMissesHit | Filtered_kernel/include/CGAL/internal/Static_filters/Do_intersect_3.h:377-382 | A ray that meets the box but that the ray overload as written answers `false` at the y stage. The corrected filter answers `true`. |
| Overloads.RayOperatorAsWrittenMissesHit | Filtered_kernel/include/CGAL/internal/Static_filters/Do_intersect_3.h:377-382 | On that ray and box, the ray operator as written answers `false` whatever the exact predicate says. The corrected operator answers `true`. |

## Left out

- IEEE-754 rounding: all arithmetic is exact, so nothing here says that `EPS_1 = 3.55618e-15` bounds the real rounding error. That bound is a floating-point error analysis.
- The underflow and overflow guards (`7e-294`, `3e-147`, `1e153`) are modelled as the exits they are. Their numerical purpose, keeping `error` and the cross products representable in doubles, is not stated, for the same reason.
- `compute_epsilon_bbox_segment_3` (lines 519-549) is not part of this model. It prints to a stream and depends on `Static_filter_error`, which is not part of this model either.
- `Get_approx` and `fit_in_double` become a predicate parameter `fit` applied to the six point coordinates. Lazy and interval point types are not modelled.
- `Base::operator()`, the exact predicate, becomes a function parameter `exact`. The correctness lemmas assume only that it answers the exact question.
- The branch-profiler counters and the commented-out debug output are diagnostics and are left out.
- The polyhedron test driver does file I/O and calls code outside this model, so it is left out.
- `r.point(1)` is taken as a given second point of the ray (`Ray3.second`).
- `XMagnitude` does not fold `|dmax|` into `m`, because the source does not. Whether that matters for the floating-point error bound is outside an exact model.
- `FilterRayAsWritten`: soundness of its `true` answers is not stated. Its window, clamped at parameter 1, is not one of the well-formed windows the soundness lemmas assume. Its `false` answers can be wrong, as shown under "## Findings".
- The x stage's NEGATIVE case does not answer. It leaves the window as it is and goes on to the y stage (lines 159-160). So the x sign test has no definite exit.

## Findings

| source | as written | input that shows it | evidently intended | confidence | as-written member | corrected member |
|---|---|---|---|---|---|---|
| Filtered_kernel/include/CGAL/internal/Static_filters/Do_intersect_3.h:377-382 | The ray overload keeps the segment's x-stage cut. When `tmax > dmax` is certified, it sets `tmax = dmax = 1`, which limits the ray to parameters in `[0, 1]`. | Take the ray from (0, 0, 0) through (1, 1, 0) and the box [-1, 10] x [5, 6] x [-1, 1]. The x stage cuts the window at 1. The y stage certifies that the slab starts (at 5) after the window ends (at 1), and answers `false`. But the point (5.5, 5.5, 0) of the ray is inside the box. | A ray has no far end, so the x stage keeps only its underflow guard and does not cut the window. Every definite answer is then the exact one. | not executed | Overloads.RayCutAtOneMissesHit | Soundness.RayFilterSound |
