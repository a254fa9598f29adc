/** `Range<T>`: a closed one-dimensional interval `[left, right]` over
    integers. Both ends belong to the range. Nothing enforces
    `left <= right`; a range with `left > right` is "degenerate", and the
    lemmas below say where that matters. */
module Ranges {
  import opened Wrappers
  import opened Num

  datatype Range = Range(left: int, right: int) {

    /** Well-formed: not degenerate. */
    predicate WellFormed() {
      left <= right
    }

    /** `contains`: the point lies inside the range or on one of its ends.
        Both ends are included, and only a well-formed range holds points. */
    predicate Contains(pos: int)
      ensures Contains(pos) ==> WellFormed()
      ensures pos == left || pos == right ==> (Contains(pos) <==> WellFormed())
    {
      pos >= left && pos <= right
    }

    /** `len`: the distance between the two ends; non-negative exactly for
        a well-formed range. */
    function Len(): (n: int)
      ensures left + n == right
      ensures n >= 0 <==> WellFormed()
    {
      right - left
    }

    /** `left_or_right_or_contain`: Less left of the range, Greater right
        of it, Equal when the range contains the point. The crate root's
        `contains_ext` is the same classification. */
    function LeftOrRightOrContain(pos: int): (o: Ordering)
      ensures o == Less <==> pos < left
      ensures o == Greater <==> left <= pos && right < pos
      ensures o == Equal <==> Contains(pos)
    {
      if pos < left then Less
      else if pos > right then Greater
      else Equal
    }

    /** `contains_range`: both ends of `val` are contained. For a
        well-formed `val` that is exactly: every point of `val` is contained. */
    predicate ContainsRange(val: Range)
      ensures ContainsRange(val) ==> forall p :: val.Contains(p) ==> Contains(p)
      ensures val.WellFormed() && (forall p :: val.Contains(p) ==> Contains(p)) ==>
        ContainsRange(val)
    {
      Contains(val.left) && Contains(val.right)
    }

    /** `get_intersection`: the overlap of the two ranges, or None when the
        overlap would be degenerate. */
    function GetIntersection(val: Range): (r: Option<Range>)
      ensures r.Some? <==> Max(left, val.left) <= Min(right, val.right)
      ensures r.Some? ==> r.value.WellFormed()
      ensures r.Some? ==> ContainsRange(r.value) && val.ContainsRange(r.value)
    {
      var a := Max(left, val.left);
      var b := Min(right, val.right);
      if a > b then None else Some(Range(a, b))
    }

    /** `intersects`: one range contains the other's left end. For two
        well-formed ranges that is the overlap test `max(lefts) <= min(rights)`. */
    predicate Intersects(val: Range)
      ensures WellFormed() && val.WellFormed() ==>
        (Intersects(val) <==> Max(left, val.left) <= Min(right, val.right))
    {
      Contains(val.left) || val.Contains(left)
    }

    /** `difference_to_point` (crate root): None when the point is
        contained, otherwise the signed offset of the point from the nearer
        end, negative left of the range and positive right of it. */
    function DifferenceToPoint(pos: int): (d: Option<int>)
      ensures d.None? <==> Contains(pos)
      ensures d.Some? && pos < left ==> d.value < 0 && pos == left + d.value
      ensures d.Some? && pos >= left ==> d.value > 0 && pos == right + d.value
    {
      match LeftOrRightOrContain(pos)
      case Less => Some(pos - left)
      case Greater => Some(pos - right)
      case Equal => None
    }

    /** The value `grow(radius)` leaves behind: both ends pushed outward by
        `radius`. */
    function Grown(radius: int): (r: Range)
      ensures r.Len() == Len() + 2 * radius
      ensures radius >= 0 ==> forall p :: Contains(p) ==> r.Contains(p)
    {
      Range(left - radius, right + radius)
    }

    /** The value `grow_to_fit(b)` leaves behind: each end moved outward,
        never inward, just far enough to reach `b`'s end. */
    function GrownToFit(b: Range): (r: Range)
      ensures r.left <= left && r.right >= right
      ensures r.left == left || r.left == b.left
      ensures r.right == right || r.right == b.right
      ensures b.WellFormed() ==> r.ContainsRange(b)
      ensures ContainsRange(b) ==> r == this
    {
      Range(if b.left < left then b.left else left,
            if b.right > right then b.right else right)
    }
  }

  /** The intersection holds exactly the points both ranges hold; when
      there is none, no point lies in both ranges. */
  lemma IntersectionIsCommonPoints(a: Range, b: Range)
    ensures a.GetIntersection(b).Some? ==>
      forall p :: a.GetIntersection(b).value.Contains(p) <==> a.Contains(p) && b.Contains(p)
    ensures a.GetIntersection(b).None? ==>
      forall p :: !(a.Contains(p) && b.Contains(p))
  {
  }

  /** A well-formed range inside `a` is its own intersection with `a`. */
  lemma ContainedIntersection(a: Range, b: Range)
    requires a.ContainsRange(b) && b.WellFormed()
    ensures a.GetIntersection(b) == Some(b)
  {
  }

  /** Without well-formedness the previous lemma fails: [0, 10] contains
      both ends of the degenerate [5, 3], yet their intersection is None. */
  lemma ContainedDegenerateRange()
    ensures Range(0, 10).ContainsRange(Range(5, 3))
    ensures Range(0, 10).GetIntersection(Range(5, 3)) == None
  {
  }

  /** The converse needs well-formedness too: [0, 10] holds every point
      of the degenerate [20, 15], since it has none, yet does not
      `contains_range` it. */
  lemma EmptyRangeNotContained()
    ensures forall p :: Range(20, 15).Contains(p) ==> Range(0, 10).Contains(p)
    ensures !Range(0, 10).ContainsRange(Range(20, 15))
  {
  }

  /** For well-formed ranges the endpoint test of `intersects` agrees with
      `get_intersection` and is symmetric. */
  lemma IntersectsIffIntersection(a: Range, b: Range)
    requires a.WellFormed() && b.WellFormed()
    ensures a.Intersects(b) <==> a.GetIntersection(b).Some?
    ensures a.Intersects(b) <==> b.Intersects(a)
  {
  }

  /** With a degenerate argument the two disagree: [0, 10] "intersects"
      [5, 3], but has no intersection with it. */
  lemma IntersectsDegenerate()
    ensures Range(0, 10).Intersects(Range(5, 3))
    ensures Range(0, 10).GetIntersection(Range(5, 3)) == None
  {
  }

  /** `grow_to_fit` computes the smallest range holding both ends of each
      argument: every range that contains `a` and `b` contains the result. */
  lemma GrownToFitIsHull(a: Range, b: Range, c: Range)
    requires c.ContainsRange(a) && c.ContainsRange(b)
    ensures c.ContainsRange(a.GrownToFit(b))
  {
  }

  /** A `Range` the program updates in place through `&mut self`. */
  class RangeCell {
    var left: int
    var right: int

    /** The range currently held. */
    function Value(): Range
      reads this
    {
      Range(left, right)
    }

    constructor (r: Range)
      ensures Value() == r
    {
      left, right := r.left, r.right;
    }

    /** `grow(radius)`: widens both ends by `radius` and returns the
        receiver so calls can be chained. */
    method Grow(radius: int) returns (self: RangeCell)
      modifies this
      ensures self == this
      ensures left == old(left) - radius && right == old(right) + radius
      ensures Value() == old(Value()).Grown(radius)
      ensures Value().Len() == old(Value().Len()) + 2 * radius
    {
      right := right + radius;
      left := left - radius;
      self := this;
    }

    /** `grow_to_fit(b)`: in-place union with `b`. */
    method GrowToFit(b: Range)
      modifies this
      ensures Value() == old(Value()).GrownToFit(b)
      ensures left <= old(left) && right >= old(right)
      ensures b.WellFormed() ==> Value().ContainsRange(b)
      ensures old(Value().ContainsRange(b)) ==> left == old(left) && right == old(right)
    {
      if b.left < left {
        left := b.left;
      }
      if b.right > right {
        right := b.right;
      }
    }
  }
}
