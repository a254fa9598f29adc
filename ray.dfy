/** `Ray<N>`: an origin `point` and an unnormalised direction `dir`,
    parametrised as `point + dir * t`, and its cast against an
    axis-aligned rectangle over integers. */
module Rays {
  import opened Wrappers
  import opened Num
  import opened Ranges
  import opened Vectors

  datatype Ray<N> = Ray(point: Vec2<N>, dir: Vec2<N>)

  /** Outcome of a cast: struck at parameter `t`, origin already inside
      the shape, or no intersection. */
  datatype CastResult<N> = Hit(t: N) | Inside | NoHit

  /** `Rect<N>` (crate root): one closed range per axis; what the cast
      calls `start` and `end` are the range's `left` and `right`. */
  datatype Rect = Rect(x: Range, y: Range) {
    /** `contains_point`: both coordinates are contained, i.e. each is
        classified Equal against its axis's range. */
    predicate ContainsPoint(p: Vec2<int>)
      ensures ContainsPoint(p) <==>
        x.LeftOrRightOrContain(p.x) == Equal && y.LeftOrRightOrContain(p.y) == Equal
      ensures ContainsPoint(p) ==> x.WellFormed() && y.WellFormed()
    {
      x.Contains(p.x) && y.Contains(p.y)
    }
  }

  /** `point_at_tval`: the point the ray reaches at parameter `t`. */
  function PointAtTval(ray: Ray<int>, t: int): (p: Vec2<int>)
    ensures p.x == ray.point.x + ray.dir.x * t
    ensures p.y == ray.point.y + ray.dir.y * t
  {
    Add(ray.point, Mul(ray.dir, t))
  }

  /** The ray starts at its origin, and walking `s` then `t` is walking
      `s + t`. */
  lemma PointAtTvalProperties(ray: Ray<int>, s: int, t: int)
    ensures PointAtTval(ray, 0) == ray.point
    ensures PointAtTval(ray, s + t) == PointAtTval(Ray(PointAtTval(ray, s), ray.dir), t)
  {
  }

  /** The four components in the order the conversion visits them. */
  function Components<N>(ray: Ray<N>): seq<N> {
    [ray.point.x, ray.point.y, ray.dir.x, ray.dir.y]
  }

  /** `inner_into`: convert every component with a total conversion. */
  function RayInnerInto<B, A>(ray: Ray<B>, conv: B -> A): (r: Ray<A>)
    ensures |Components(r)| == |Components(ray)|
    ensures forall i :: 0 <= i < |Components(r)| ==> Components(r)[i] == conv(Components(ray)[i])
  {
    Ray(InnerInto(ray.point, conv), InnerInto(ray.dir, conv))
  }

  /** Reference for a left-to-right conversion that stops at the first
      failure: the error of the first element that does not convert. */
  function FirstFailure<B, A, E>(s: seq<B>, conv: B -> Result<A, E>): Option<E> {
    if s == [] then None
    else if conv(s[0]).Err? then Some(conv(s[0]).error)
    else FirstFailure(s[1..], conv)
  }

  /** `inner_try_into`: convert the point, then the direction, each with
      the vector's own `inner_try_into`; the point's error wins. */
  function RayInnerTryInto<B, A, E>(ray: Ray<B>, conv: B -> Result<A, E>): (r: Result<Ray<A>, E>)
    ensures r.Ok? <==> InnerTryInto(ray.point, conv).Ok? && InnerTryInto(ray.dir, conv).Ok?
    ensures r.Ok? ==> InnerTryInto(ray.point, conv) == Ok(r.value.point)
    ensures r.Ok? ==> InnerTryInto(ray.dir, conv) == Ok(r.value.dir)
    ensures InnerTryInto(ray.point, conv).Err? ==> r == Err(InnerTryInto(ray.point, conv).error)
    ensures InnerTryInto(ray.point, conv).Ok? && InnerTryInto(ray.dir, conv).Err? ==>
      r == Err(InnerTryInto(ray.dir, conv).error)
  {
    var point := InnerTryInto(ray.point, conv);
    var dir := InnerTryInto(ray.dir, conv);
    match (point, dir)
    case (Ok(point), Ok(dir)) => Ok(Ray(point, dir))
    case (Err(e), Ok(_)) => Err(e)
    case (Ok(_), Err(e)) => Err(e)
    case (Err(e), Err(_)) => Err(e)
  }

  /** The ray's conversion succeeds exactly when all four components
      convert, and otherwise fails with the error of the first failing
      component in the order point.x, point.y, dir.x, dir.y. */
  lemma {:induction false} RayInnerTryIntoFirstFailure<B, A, E>(ray: Ray<B>, conv: B -> Result<A, E>)
    ensures RayInnerTryInto(ray, conv).Ok? <==> FirstFailure(Components(ray), conv) == None
    ensures RayInnerTryInto(ray, conv).Err? ==>
      FirstFailure(Components(ray), conv) == Some(RayInnerTryInto(ray, conv).error)
  {
    var s0 := Components(ray);
    var s1, s2, s3 := s0[1..], s0[2..], s0[3..];
    assert s0[1..] == s1 && s1[1..] == s2 && s2[1..] == s3 && s3[1..] == [];
    assert FirstFailure(s3[1..], conv) == None;
    assert FirstFailure(s3, conv) == if conv(ray.dir.y).Err? then Some(conv(ray.dir.y).error) else None;
    assert FirstFailure(s2, conv) ==
      if conv(ray.dir.x).Err? then Some(conv(ray.dir.x).error) else FirstFailure(s3, conv);
    assert FirstFailure(s1, conv) ==
      if conv(ray.point.y).Err? then Some(conv(ray.point.y).error) else FirstFailure(s2, conv);
    assert FirstFailure(s0, conv) ==
      if conv(ray.point.x).Err? then Some(conv(ray.point.x).error) else FirstFailure(s1, conv);
  }

  /** `range_side`: classifies the origin's coordinate on `axis` against
      `range`. */
  function RangeSide(ray: Ray<int>, axis: Axis, range: Range): (o: Ordering)
    ensures var v := if axis == XAxis then ray.point.x else ray.point.y;
      && (o == Less <==> v < range.left)
      && (o == Greater <==> range.left <= v && range.right < v)
      && (o == Equal <==> range.Contains(v))
  {
    range.LeftOrRightOrContain(GetAxis(ray.point, axis))
  }

  /** The boundary a ray moving with direction component `d` meets first:
      the right end when moving down the axis, the left end when moving up. */
  function NextGridPos(d: int, r: Range): (n: int)
    requires d != 0
    ensures d > 0 ==> forall pos :: r.Contains(pos) ==> n <= pos
    ensures d < 0 ==> forall pos :: r.Contains(pos) ==> pos <= n
    ensures r.Contains(n) <==> r.WellFormed()
  {
    if d < 0 then r.right else r.left
  }

  /** The candidate parameter at which the ray reaches that boundary,
      divided the way Rust divides. */
  function Tval(p: int, d: int, r: Range): (t: int)
    requires d != 0
    ensures t > 0 && d > 0 ==> p < r.left
    ensures t > 0 && d < 0 ==> p > r.right
  {
    RustDiv(NextGridPos(d, r) - p, d)
  }

  /** The early-return branch of `cast_to_rect` for a direction whose
      component across the slab `across` is zero: the ray can only meet the
      rectangle if its coordinate `a` is inside `across`, and then only by
      closing the gap from `b` to the range `along` with direction `db`. */
  function AxisParallelCast(across: Range, a: int, along: Range, b: int, db: int): (r: CastResult<int>)
    ensures r.Hit? ==> r.t > 0
  {
    if across.Contains(a) then
      match along.DifferenceToPoint(b)
      case Some(diff) =>
        if Signum(diff) == -Signum(db) then Hit(Abs(diff)) else NoHit
      case None => Inside
    else
      NoHit
  }

  /** The general branch of `cast_to_rect`: both direction components are
      nonzero, so both divisions are defined. */
  function GeneralCast(ray: Ray<int>, rect: Rect): (r: CastResult<int>)
    requires ray.dir.x != 0 && ray.dir.y != 0
    ensures r.Hit? ==> r.t > 0
  {
    var tvalx := Tval(ray.point.x, ray.dir.x, rect.x);
    var tvaly := Tval(ray.point.y, ray.dir.y, rect.y);
    var candx := if tvalx > 0 then Some(tvalx) else None;
    var candy := if tvaly > 0 then Some(tvaly) else None;
    match (candx, candy)
    case (Some(x), Some(y)) =>
      var x' := if rect.y.Contains(PointAtTval(ray, x).y) then Some(x) else None;
      var y' := if rect.x.Contains(PointAtTval(ray, y).x) then Some(y) else None;
      (match (x', y')
       case (Some(x), Some(y)) => Hit(Min(x, y))
       case (Some(x), None) => Hit(x)
       case (None, Some(y)) => Hit(y)
       case (None, None) => NoHit)
    case (Some(x), None) =>
      if rect.y.Contains(PointAtTval(ray, x).y) then Hit(x) else NoHit
    case (None, Some(y)) =>
      if rect.x.Contains(PointAtTval(ray, y).x) then Hit(y) else NoHit
    case (None, None) =>
      if rect.ContainsPoint(ray.point) then Inside else NoHit
  }

  /** `cast_to_rect`. The x component of the next boundary is evaluated
      first, so a zero `dir.x` returns before `dir.y` is looked at; no
      division is reached unless both components are nonzero. Every hit
      is at a positive value. */
  function CastToRect(ray: Ray<int>, rect: Rect): (r: CastResult<int>)
    ensures r.Hit? ==> r.t > 0
  {
    if ray.dir.x == 0 then
      AxisParallelCast(rect.x, ray.point.x, rect.y, ray.point.y, ray.dir.y)
    else if ray.dir.y == 0 then
      AxisParallelCast(rect.y, ray.point.y, rect.x, ray.point.x, ray.dir.x)
    else
      GeneralCast(ray, rect)
  }

  /** A nonzero direction component never yields a positive candidate from
      an origin coordinate that lies inside the range. */
  lemma TvalNonPositiveWhenContained(p: int, d: int, r: Range)
    requires d != 0 && r.Contains(p)
    ensures Tval(p, d, r) <= 0
  {
  }

  /** The cast reports `Inside` exactly when the ray's origin lies in the
      rectangle, whatever the direction (zero components included). */
  lemma CastInsideIffOriginInRect(ray: Ray<int>, rect: Rect)
    ensures CastToRect(ray, rect).Inside? <==> rect.ContainsPoint(ray.point)
  {
  }

  /** A ray parallel to a slab it is outside of misses: zero `dir.x` with
      `point.x` outside `rect.x`, or nonzero `dir.x`, zero `dir.y` and
      `point.y` outside `rect.y`. */
  lemma ParallelOutsideSlabMisses(ray: Ray<int>, rect: Rect)
    ensures ray.dir.x == 0 && !rect.x.Contains(ray.point.x) ==> CastToRect(ray, rect) == NoHit
    ensures ray.dir.x != 0 && ray.dir.y == 0 && !rect.y.Contains(ray.point.y) ==>
      CastToRect(ray, rect) == NoHit
  {
  }

  /** Reference for an axis-parallel ray: outside the slab it misses; left
      of `along` it hits only when moving up the axis, at the gap to the
      left end; right of `along` only when moving down, at the gap to the
      right end; otherwise the origin is inside. */
  function ParallelReference(across: Range, a: int, along: Range, b: int, db: int): CastResult<int> {
    if !across.Contains(a) then NoHit
    else if b < along.left then (if db > 0 then Hit(along.left - b) else NoHit)
    else if b > along.right then (if db < 0 then Hit(b - along.right) else NoHit)
    else Inside
  }

  /** The signum test of the axis-parallel branches means "the direction
      closes the gap": they agree with the reference. */
  lemma AxisParallelCastCharacterized(ray: Ray<int>, rect: Rect)
    ensures ray.dir.x == 0 ==>
      CastToRect(ray, rect) == ParallelReference(rect.x, ray.point.x, rect.y, ray.point.y, ray.dir.y)
    ensures ray.dir.x != 0 && ray.dir.y == 0 ==>
      CastToRect(ray, rect) == ParallelReference(rect.y, ray.point.y, rect.x, ray.point.x, ray.dir.x)
  {
  }

  /** A candidate passes when it is positive and the ray, at that
      parameter, is within the rectangle's extent on the other axis. */
  predicate PassesX(ray: Ray<int>, rect: Rect)
    requires ray.dir.x != 0
  {
    var t := Tval(ray.point.x, ray.dir.x, rect.x);
    t > 0 && rect.y.Contains(PointAtTval(ray, t).y)
  }

  predicate PassesY(ray: Ray<int>, rect: Rect)
    requires ray.dir.y != 0
  {
    var t := Tval(ray.point.y, ray.dir.y, rect.y);
    t > 0 && rect.x.Contains(PointAtTval(ray, t).x)
  }

  /** The general branch, case by case: the nearer of the passing
      candidates wins; with none passing, the origin test is reached only
      when both candidates were non-positive. */
  lemma GeneralCastCharacterized(ray: Ray<int>, rect: Rect)
    requires ray.dir.x != 0 && ray.dir.y != 0
    ensures var tx, ty := Tval(ray.point.x, ray.dir.x, rect.x), Tval(ray.point.y, ray.dir.y, rect.y);
      && (PassesX(ray, rect) && PassesY(ray, rect) ==> CastToRect(ray, rect) == Hit(Min(tx, ty)))
      && (PassesX(ray, rect) && !PassesY(ray, rect) ==> CastToRect(ray, rect) == Hit(tx))
      && (!PassesX(ray, rect) && PassesY(ray, rect) ==> CastToRect(ray, rect) == Hit(ty))
      && (!PassesX(ray, rect) && !PassesY(ray, rect) ==>
            CastToRect(ray, rect) == if tx <= 0 && ty <= 0 && rect.ContainsPoint(ray.point) then Inside else NoHit)
  {
  }

  /** In the general branch every hit is a passing candidate, and no
      passing candidate is nearer. */
  lemma GeneralHitIsNearestCandidate(ray: Ray<int>, rect: Rect)
    requires ray.dir.x != 0 && ray.dir.y != 0
    requires CastToRect(ray, rect).Hit?
    ensures var t := CastToRect(ray, rect).t;
      && ((PassesX(ray, rect) && t == Tval(ray.point.x, ray.dir.x, rect.x))
          || (PassesY(ray, rect) && t == Tval(ray.point.y, ray.dir.y, rect.y)))
      && (PassesX(ray, rect) ==> t <= Tval(ray.point.x, ray.dir.x, rect.x))
      && (PassesY(ray, rect) ==> t <= Tval(ray.point.y, ray.dir.y, rect.y))
  {
  }

  /** At its candidate parameter a ray never passes the boundary it is
      heading for: the coordinate lies between the origin and that
      boundary, and reaches it exactly when the gap is a multiple of the
      direction component (namely `t` times it). */
  lemma CandidateStopsAtBoundary(p: int, d: int, r: Range, k: int)
    requires d != 0
    ensures var t, next := Tval(p, d, r), NextGridPos(d, r);
      && Min(p, next) <= p + d * t <= Max(p, next)
      && (next - p == k * d ==> p + d * t == next)
      && (p + d * t == next ==> next - p == t * d)
  {
    var t, next := Tval(p, d, r), NextGridPos(d, r);
    RustDivRemainder(next - p, d);
    assert d * t == t * d;
    if next - p == k * d {
      RustDivExact(k, d);
    }
  }

  /** Casts against the rectangle x: [0, 10], y: [0, 10]. */
  function UnitBox(): Rect {
    Rect(Range(0, 10), Range(0, 10))
  }

  lemma CastHitsFromLeft()
    ensures CastToRect(Ray(Vec2(-5, 5), Vec2(1, 0)), UnitBox()) == Hit(5)
  {
  }

  lemma CastFromInside()
    ensures CastToRect(Ray(Vec2(5, 5), Vec2(1, 0)), UnitBox()) == Inside
  {
  }

  lemma CastParallelMiss()
    ensures CastToRect(Ray(Vec2(-5, 15), Vec2(1, 0)), UnitBox()) == NoHit
  {
  }

  lemma CastHitsCorner()
    ensures CastToRect(Ray(Vec2(-5, -5), Vec2(1, 1)), UnitBox()) == Hit(5)
  {
  }

  /** Truncation can round a candidate down to 0, which is then discarded:
      over the reals this ray meets the box at t = 1/2, but the cast misses. */
  lemma CastRoundsCandidateToZero()
    ensures Tval(-1, 2, UnitBox().x) == 0
    ensures CastToRect(Ray(Vec2(-1, 5), Vec2(2, 1)), UnitBox()) == NoHit
  {
  }

  /** The axis-parallel branches report the distance to the face, not a
      ray parameter: with direction (5, 0) the cast reports 5, a parameter
      at which the ray is already past the rectangle. */
  lemma ParallelHitIsDistance()
    ensures CastToRect(Ray(Vec2(-5, 5), Vec2(5, 0)), UnitBox()) == Hit(5)
    ensures !UnitBox().ContainsPoint(PointAtTval(Ray(Vec2(-5, 5), Vec2(5, 0)), 5))
  {
  }

  /** Tilting that direction to (5, 1) sends the same ray through the
      general branch, which reports the ray parameter 1. */
  lemma TiltedHitIsParameter()
    ensures CastToRect(Ray(Vec2(-5, 5), Vec2(5, 1)), UnitBox()) == Hit(1)
  {
    assert NatDiv(5, 5) == 1 by { assert NatDiv(0, 5) == 0; }
    assert Tval(-5, 5, UnitBox().x) == 1;
    assert Tval(5, 1, UnitBox().y) == -5;
  }
}
