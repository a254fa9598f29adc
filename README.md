# axgeom core in Dafny

A model of the integer core of the `axgeom` geometry crate:

- `Range`, the closed one-dimensional interval `[left, right]`. It has the
  predicates `contains`, `contains_range`, `intersects`, `get_intersection`,
  `left_or_right_or_contain` and `len`. The in-place `grow` and
  `grow_to_fit` are methods on a small `RangeCell` class.
- `Vec2`, the two-component vector. It has `vec2same`, `dot`, `magnitude2`,
  the `Add`/`Sub`/`Mul`/`Div`/`Neg`/`Zero` operators, `get_axis` and the two
  component conversions. The in-place `*_assign` operators and writes
  through `get_axis_mut` are methods on a `Vec2Cell` class.
- `Ray`, with `point_at_tval`, `inner_into`, `inner_try_into`, `range_side`
  and the ray/rectangle cast `cast_to_rect`, which returns `Hit(t)`, `Inside`
  or `NoHit`.

The files are `wrappers.dfy` (`Option`, `Result`), `num.dfy` (`Ordering`
plus the integer helpers `Min`, `Max`, `Abs`, `Signum` and `RustDiv`),
`range.dfy`, `vec2.dfy` and `ray.dfy`.

Numbers are Dafny's unbounded `int`. Rust's signed `/` rounds toward zero.
It is modelled as `RustDiv` (the `/` in Dafny is Euclidean), and the cast's
divisions and `Vec2`'s `Div` both use it. `Rect` and its helpers live in the
crate root, which is not part of this model. `Rect` is modelled as one
`Range` per axis: the `start`/`end` that `cast_to_rect` reads are the
range's `left`/`right`. `contains_point` means both coordinates are
contained. `contains_ext` is the same three-way classification as
`left_or_right_or_contain`. `difference_to_point(pos)` gives `None` for a
contained point, `pos - left` left of the range and `pos - right` right of
it. These are the meanings the signum test in `cast_to_rect` relies on.

Observations the proofs make precise:

- The axis-parallel branches of `cast_to_rect` report `Hit(|gap|)`, the
  distance to the face. The general branch reports a ray parameter. The
  two agree only when the nonzero direction component is 1 or -1.
  `Rays.ParallelHitIsDistance` shows a direction (5, 0) that reports 5,
  a parameter at which the ray has already left the rectangle. A slight
  tilt to (5, 1) reports the parameter 1. The model keeps the code's
  behaviour.
- The code's truncating division can round a candidate down to 0, which
  is then discarded as non-positive: from (-1, 5) with direction (2, 1)
  the ray would meet [0,10]x[0,10] at t = 1/2, yet the cast misses
  (`Rays.CastRoundsCandidateToZero`). At a positive candidate the ray never
  passes the boundary it is heading for, and it lands on the boundary
  exactly when the gap is a multiple of the direction component
  (`Rays.CandidateStopsAtBoundary`).
- `contains_range(b)` implies `get_intersection(b) == Some(b)` only for a
  well-formed `b` (`Ranges.ContainedIntersection`); the degenerate [5, 3]
  inside [0, 10] is the counterexample (`Ranges.ContainedDegenerateRange`).
  Likewise, holding every point of `b` implies `contains_range(b)` only for
  a well-formed `b`: [0, 10] holds all (no) points of [20, 15] without
  containing it (`Ranges.EmptyRangeNotContained`).
  The "double check" comment on `intersects`
  is settled the same way: for well-formed ranges the endpoint test agrees
  with `get_intersection` and is symmetric, and a degenerate argument breaks
  it (`Ranges.IntersectsDegenerate`).
- `cast_to_rect` never divides by zero. `Tval` requires a nonzero divisor
  and is reached only when both direction components are nonzero.

## Model

| member | source | states |
|---|---|---|
| `Num.Min` | src/range.rs:83 | `min`: at most both arguments and equal to one of them |
| `Num.Max` | src/range.rs:82 | `max`: at least both arguments and equal to one of them |
| `Num.Abs` | src/ray.rs:155 | `abs`: non-negative and equal to the argument or its negation |
| `Num.Signum` | src/ray.rs:154 | `signum`: 0 iff the argument is 0, 1 iff it is positive, -1 iff it is negative |
| `Num.NatDiv` | src/ray.rs:197-198 | the magnitude quotient never exceeds the dividend, and dividing by 1 gives the dividend back |
| `Num.NatDivRemainder` | src/ray.rs:197-198 | the magnitude quotient leaves a remainder between 0 and the divisor minus 1 |
| `Num.RustDiv` | src/ray.rs:197-198 | Rust's truncating `/`: a positive quotient needs a dividend and divisor of the same sign, a negative one needs opposite signs; the quotient is no larger than the dividend in magnitude; dividing by 1 is the identity; the divisor must be nonzero |
| `Num.QuotientTimesDivisor` | src/ray.rs:197-198 | `RustDiv(a, b) * b` is the magnitude quotient times `|b|`, with the sign of `a` |
| `Num.RustDivRemainder` | src/ray.rs:197-198 | the remainder of `RustDiv` has the dividend's sign, lies between 0 and the dividend and is smaller than the divisor in magnitude (rounding toward zero, no overshoot) |
| `Num.RustDivExact` | src/vec2.rs:190-196 | dividing an exact multiple `x * k` by `k` gives `x` back |
| `Ranges.Range.Contains` | src/range.rs:18-23 | both ends are included (an end is contained iff the range is well formed), and only a well-formed range contains a point |
| `Ranges.Range.Len` | src/range.rs:27-30 | `left + len == right`, and `len` is non-negative iff the range is well formed |
| `Ranges.Range.ContainsRange` | src/range.rs:72-76 | containing both ends of `val` means containing every point of `val`; conversely, containing every point of a well-formed `val` means `contains_range(val)` |
| `Ranges.EmptyRangeNotContained` | src/range.rs:72-76 | [0, 10] holds every point of the degenerate [20, 15] (it has none) but does not `contains_range` it |
| `Ranges.Range.Intersects` | src/range.rs:91-96 | for well-formed ranges, `intersects` iff `max(lefts) <= min(rights)` |
| `Ranges.Range.LeftOrRightOrContain` | src/range.rs:47-56 | Less iff `pos < left`; Greater iff `left <= pos` and `pos > right`; Equal iff `contains(pos)` |
| `Ranges.Range.GetIntersection` | src/range.rs:80-89 | Some iff `max(lefts) <= min(rights)`; a returned range is well formed and is `contains_range`-ed by both inputs |
| `Ranges.Range.DifferenceToPoint` | src/ray.rs:151-163 | None iff the point is contained; otherwise a nonzero offset, negative and equal to `pos - left` left of the range, positive and equal to `pos - right` right of it |
| `Ranges.Range.Grown` | src/range.rs:35-39 | growing by `radius` adds `2 * radius` to `len`, and a non-negative radius keeps every contained point contained |
| `Ranges.Range.GrownToFit` | src/range.rs:59-68 | never shrinks; each end is either kept or taken from `b`; contains a well-formed `b`; no change when `b` is already contained |
| `Ranges.IntersectionIsCommonPoints` | src/range.rs:78-89 | the intersection holds exactly the points both ranges hold; when it is None no point is in both |
| `Ranges.ContainedIntersection` | src/range.rs:72-89 | a well-formed range contained in `a` is its own intersection with `a` |
| `Ranges.ContainedDegenerateRange` | src/range.rs:72-89 | the degenerate [5, 3] has both ends in [0, 10] but no intersection with it |
| `Ranges.IntersectsIffIntersection` | src/range.rs:91-96 | for well-formed ranges `intersects` holds iff `get_intersection` is Some, and it is symmetric |
| `Ranges.IntersectsDegenerate` | src/range.rs:91-96 | [0, 10] `intersects` the degenerate [5, 3] but has no intersection with it |
| `Ranges.GrownToFitIsHull` | src/range.rs:59-68 | any range containing both `a` and `b` contains `a` grown to fit `b` (the union is the smallest cover) |
| `Ranges.RangeCell.Grow` | src/range.rs:35-39 | in place: left decreases and right increases by `radius`, `len` grows by `2 * radius`, and the receiver is returned |
| `Ranges.RangeCell.GrowToFit` | src/range.rs:59-68 | in place: the new range is `GrownToFit(b)` of the old one; it never shrinks, contains a well-formed `b`, and is unchanged if `b` was contained |
| `Vectors.Vec2Same` | src/vec2.rs:21-23 | both components equal the argument |
| `Vectors.Dot` | src/vec2.rs:58-60 | `dot` is 0 when either argument is zero |
| `Vectors.DotSymmetric` | src/vec2.rs:58-60 | `dot(a, b) == dot(b, a)` |
| `Vectors.GetAxis` | src/vec2.rs:97-103 | the x component for the x axis, the y component for the other |
| `Vectors.Add` | src/vec2.rs:165-171 | subtracting `b` from `a + b` gives `a` back |
| `Vectors.Sub` | src/vec2.rs:173-179 | `a - b` is zero iff `a == b` |
| `Vectors.Mul` | src/vec2.rs:182-188 | scaling by 0 gives the zero vector and scaling by 1 changes nothing |
| `Vectors.Div` | src/vec2.rs:190-196 | truncating division never grows a component in magnitude, and dividing by 1 changes nothing |
| `Vectors.Neg` | src/vec2.rs:231-236 | `v + (-v)` is zero |
| `Vectors.Zero` | src/vec2.rs:239-243 | the zero vector has squared length 0 |
| `Vectors.IsZero` | src/vec2.rs:244-248 | `is_zero(v)` iff both components are zero |
| `Vectors.ZeroIsIdentity` | src/vec2.rs:165-179 | adding the zero vector on either side, or subtracting it, changes nothing |
| `Vectors.Magnitude2` | src/vec2.rs:54-56 | the squared length is never negative |
| `Vectors.Magnitude2IsSelfDot` | src/vec2.rs:54-60 | `magnitude2(v) == dot(v, v)`, and it is 0 iff `v` is zero |
| `Vectors.WithAxis` | src/vec2.rs:107-113 | writing through `get_axis_mut(axis)` sets that axis to the value and leaves the other axis as it was |
| `Vectors.WithAxisProperties` | src/vec2.rs:97-113 | writing back the value `get_axis` read changes nothing; of two writes to one axis only the last counts |
| `Vectors.InnerInto` | src/vec2.rs:118-122 | each axis of the result is the conversion of that axis |
| `Vectors.InnerTryInto` | src/vec2.rs:125-142 | Ok iff both components convert, and then holds the converted components; x's error whenever x fails, otherwise y's |
| `Vectors.InnerTryIntoTotal` | src/vec2.rs:118-142 | with a conversion that never fails, `inner_try_into` gives `Ok(inner_into(..))` |
| `Vectors.OperatorsComponentwise` | src/vec2.rs:165-236 | on each axis, `+`, `-`, scalar `*`, scalar `/` (truncating) and negation act on that component alone |
| `Vectors.SubUndoesAdd` | src/vec2.rs:165-179 | `(a + b) - b == a` and `(a - b) + b == a` |
| `Vectors.MulDivRoundTrip` | src/vec2.rs:182-196 | `(v * k) / k == v` for every nonzero `k` |
| `Vectors.Vec2Cell.AddAssign` | src/vec2.rs:214-220 | the receiver becomes `old + rhs` |
| `Vectors.Vec2Cell.SubAssign` | src/vec2.rs:221-227 | the receiver becomes `old - rhs` |
| `Vectors.Vec2Cell.MulAssign` | src/vec2.rs:206-212 | the receiver becomes `old * scalar` |
| `Vectors.Vec2Cell.DivAssign` | src/vec2.rs:199-205 | the receiver becomes `old / scalar` (a nonzero scalar, as Rust panics otherwise) |
| `Vectors.Vec2Cell.SetAxis` | src/vec2.rs:105-113 | a write through `get_axis_mut` changes the selected component only |
| `Rays.PointAtTval` | src/ray.rs:15-17 | the point at `t` is `(point.x + dir.x * t, point.y + dir.y * t)` |
| `Rays.PointAtTvalProperties` | src/ray.rs:15-17 | `point_at_tval(0)` is the origin, and walking `s` then `t` equals walking `s + t` |
| `Rays.RayInnerInto` | src/ray.rs:23-27 | every component of the result is the conversion of the matching component |
| `Rays.RayInnerTryInto` | src/ray.rs:29-46 | Ok iff the point and the direction both convert, and then holds them; the point's error whenever the point fails, even if the direction fails too; otherwise the direction's |
| `Rays.RayInnerTryIntoFirstFailure` | src/ray.rs:29-46 | the ray converts iff no component fails, and otherwise reports the first failing component in the order point.x, point.y, dir.x, dir.y |
| `Rays.RangeSide` | src/ray.rs:50-59 | classifies `point.x` for the x axis and `point.y` otherwise: Less left of the range, Greater right of it, Equal when contained |
| `Rays.Rect.ContainsPoint` | src/ray.rs:250-252 | the point is contained iff both coordinates classify Equal against their axis's range, which needs both ranges well formed |
| `Rays.NextGridPos` | src/ray.rs:145-148 | the boundary a moving ray heads for is the contained point it reaches first: no contained point lies below it when moving up, none above it when moving down; it is contained iff the range is well formed |
| `Rays.Tval` | src/ray.rs:197-198 | a positive candidate means the origin is before the face: left of it when moving up, right of it when moving down |
| `Rays.AxisParallelCast` | src/ray.rs:149-166 | the early-return branch for a zero direction component only ever hits at a positive value |
| `Rays.GeneralCast` | src/ray.rs:197-257 | the two-division branch needs both direction components nonzero, and only ever hits at a positive value |
| `Rays.CastToRect` | src/ray.rs:137-258 | every `Hit(t)` has `t > 0`; a division is only reached with both direction components nonzero |
| `Rays.TvalNonPositiveWhenContained` | src/ray.rs:197-201 | an origin coordinate inside the range gives a non-positive candidate, whatever the sign of the direction |
| `Rays.CastInsideIffOriginInRect` | src/ray.rs:143-256 | the cast is `Inside` iff the origin lies in the rectangle, for every direction including zero components |
| `Rays.ParallelOutsideSlabMisses` | src/ray.rs:149-191 | zero `dir.x` with `point.x` outside `rect.x` misses, and so do nonzero `dir.x`, zero `dir.y` and `point.y` outside `rect.y` |
| `Rays.AxisParallelCastCharacterized` | src/ray.rs:145-192 | an axis-parallel ray misses outside the slab; left of the other range it hits iff moving up that axis, at the gap to the left end; right of it iff moving down, at the gap to the right end; otherwise `Inside` |
| `Rays.GeneralCastCharacterized` | src/ray.rs:197-257 | with both components nonzero: both candidates pass, so the smaller wins; one passes, so it wins; none passes, so `Inside` only if both were non-positive and the origin is in the rectangle, otherwise `NoHit` |
| `Rays.GeneralHitIsNearestCandidate` | src/ray.rs:203-233 | a general-branch hit is a passing candidate (positive and inside the other axis's range), and no passing candidate is smaller |
| `Rays.CandidateStopsAtBoundary` | src/ray.rs:143-198 | at its candidate parameter the ray's coordinate lies between the origin and the boundary it heads for, and lands on that boundary exactly when the gap is a multiple of the direction (the candidate times it) |
| `Rays.CastHitsFromLeft` | src/ray.rs:137-258 | rect [0,10]x[0,10], origin (-5,5), direction (1,0) gives `Hit(5)` |
| `Rays.CastFromInside` | src/ray.rs:137-258 | origin (5,5), direction (1,0) gives `Inside` |
| `Rays.CastParallelMiss` | src/ray.rs:137-258 | origin (-5,15), direction (1,0) gives `NoHit` |
| `Rays.CastHitsCorner` | src/ray.rs:137-258 | origin (-5,-5), direction (1,1) gives `Hit(5)` at the corner |
| `Rays.CastRoundsCandidateToZero` | src/ray.rs:197-201 | from (-1,5) with direction (2,1) the x candidate truncates to 0 and the cast gives `NoHit`, though the real-valued ray meets the box at t = 1/2 |
| `Rays.ParallelHitIsDistance` | src/ray.rs:172-186 | direction (5,0) from (-5,5) gives `Hit(5)`, a parameter past the rectangle |
| `Rays.TiltedHitIsParameter` | src/ray.rs:197-233 | direction (5,1) from (-5,5) goes through the general branch and gives `Hit(1)` |

## Left out

- `cast_to_circle` (src/ray.rs:75-130): floating-point quadratic solving through the external `roots` crate.
- `magnitude` and `normalize_to` (src/vec2.rs:62-74): they need a floating-point square root.
- `inner_as` and `arr2_as` (src/vec2.rs:82-90): primitive `as` casts through the foreign `PrimitiveFrom` trait.
- The `AsRef`/`AsMut` impls for `Vec2<NotNan<N>>` (src/vec2.rs:27-41): an unsafe memory-layout reinterpretation, not behaviour.
- The commented-out `cast` (src/vec2.rs:145-162): dead code.
- Machine-integer width: integers are unbounded, so overflow and the panics it causes in `grow`, `point_at_tval`, the operators and the cast's subtractions are not modelled.
- Generic numeric types: arithmetic, `Range` and the cast are modelled over integers only; the float instantiations of the generic code are not.
- `get_axis_mut` hands out a mutable reference; the model covers a write through it (`Vec2Cell.SetAxis`); a read through it is `GetAxis`.
- Num.RustDiv: Rust panics on a zero divisor; the model makes a nonzero divisor a precondition instead of modelling the panic.
- Vectors.Div: likewise, a zero scalar is excluded by a precondition rather than modelled as a panic.
- Vectors.Vec2Cell.DivAssign: likewise, a zero scalar is excluded by a precondition rather than modelled as a panic.
- The `Axis` trait object is the two-valued `Axis` datatype.
- The crate root (`Rect`, `contains_point`, `contains_ext`, `difference_to_point`) is not part of this model; these are defined here as described above.
