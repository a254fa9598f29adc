/** `Vec2<N>`: a two-component vector. Arithmetic is modelled for integer
    components; axis access and conversion for any component type. */
module Vectors {
  import opened Wrappers
  import opened Num

  /** The axis selector (the source passes it as a trait object). */
  datatype Axis = XAxis | YAxis {
    function Other(): Axis {
      if XAxis? then YAxis else XAxis
    }
  }

  /** `vec2(x, y)` is the constructor `Vec2(x, y)`. */
  datatype Vec2<N> = Vec2(x: N, y: N)

  /** `vec2same(a)`: both components equal `a`. */
  function Vec2Same<N>(a: N): (v: Vec2<N>)
    ensures v.x == a && v.y == a
    ensures GetAxis(v, XAxis) == GetAxis(v, YAxis)
  {
    Vec2(a, a)
  }

  /** `magnitude2`: the squared length. */
  function Magnitude2(v: Vec2<int>): (m: int)
    ensures m >= 0
  {
    SquareNonNegative(v.x);
    SquareNonNegative(v.y);
    v.x * v.x + v.y * v.y
  }

  lemma SquareNonNegative(a: int)
    ensures a * a >= 0
  {
  }

  /** `dot`: zero against the zero vector. */
  function Dot(a: Vec2<int>, b: Vec2<int>): (d: int)
    ensures IsZero(a) || IsZero(b) ==> d == 0
  {
    a.x * b.x + a.y * b.y
  }

  /** The `Add` operator; subtracting `b` again gives `a` back. */
  function Add(a: Vec2<int>, b: Vec2<int>): (r: Vec2<int>)
    ensures Sub(r, b) == a
  {
    Vec2(a.x + b.x, a.y + b.y)
  }

  /** The `Sub` operator; the difference is zero exactly for equal vectors. */
  function Sub(a: Vec2<int>, b: Vec2<int>): (r: Vec2<int>)
    ensures IsZero(r) <==> a == b
  {
    Vec2(a.x - b.x, a.y - b.y)
  }

  /** The `Mul` operator: scaling by a scalar; 0 gives the zero vector
      and 1 leaves the vector alone. */
  function Mul(v: Vec2<int>, s: int): (r: Vec2<int>)
    ensures s == 0 ==> IsZero(r)
    ensures s == 1 ==> r == v
  {
    Vec2(v.x * s, v.y * s)
  }

  /** The `Div` operator: Rust's truncating division of each component;
      as in Rust, a zero divisor is a caller error. */
  function Div(v: Vec2<int>, s: int): (r: Vec2<int>)
    requires s != 0
    ensures Abs(r.x) <= Abs(v.x) && Abs(r.y) <= Abs(v.y)
    ensures s == 1 ==> r == v
  {
    Vec2(RustDiv(v.x, s), RustDiv(v.y, s))
  }

  /** The `Neg` operator: `v + (-v)` is zero. */
  function Neg(v: Vec2<int>): (r: Vec2<int>)
    ensures IsZero(Add(v, r))
  {
    Vec2(-v.x, -v.y)
  }

  /** `Zero::zero`: the vector of squared length 0. */
  function Zero(): (z: Vec2<int>)
    ensures Magnitude2(z) == 0
  {
    Vec2(0, 0)
  }

  /** `Zero::is_zero`: equality with the zero vector, so both components
      are zero. */
  predicate IsZero(v: Vec2<int>)
    ensures IsZero(v) <==> v.x == 0 && v.y == 0
  {
    v == Zero()
  }

  /** `get_axis`: the x component for the x axis, the y component otherwise. */
  function GetAxis<N>(v: Vec2<N>, axis: Axis): (c: N)
    ensures axis == XAxis ==> c == v.x
    ensures axis != XAxis ==> c == v.y
  {
    if axis.XAxis? then v.x else v.y
  }

  /** The vector left behind by a write through `get_axis_mut(axis)`. */
  function WithAxis<N>(v: Vec2<N>, axis: Axis, value: N): (w: Vec2<N>)
    ensures GetAxis(w, axis) == value
    ensures GetAxis(w, axis.Other()) == GetAxis(v, axis.Other())
  {
    if axis.XAxis? then Vec2(value, v.y) else Vec2(v.x, value)
  }

  /** `inner_into`: convert each component with a total conversion. */
  function InnerInto<B, A>(v: Vec2<B>, conv: B -> A): (w: Vec2<A>)
    ensures GetAxis(w, XAxis) == conv(GetAxis(v, XAxis))
    ensures GetAxis(w, YAxis) == conv(GetAxis(v, YAxis))
  {
    Vec2(conv(v.x), conv(v.y))
  }

  /** `inner_try_into`: convert each component with a fallible conversion.
      It succeeds only when both components convert, and on failure
      reports x's error whenever x failed, else y's. */
  function InnerTryInto<B, A, E>(v: Vec2<B>, conv: B -> Result<A, E>): (r: Result<Vec2<A>, E>)
    ensures r.Ok? <==> conv(v.x).Ok? && conv(v.y).Ok?
    ensures r.Ok? ==> r.value.x == conv(v.x).value && r.value.y == conv(v.y).value
    ensures conv(v.x).Err? ==> r == Err(conv(v.x).error)
    ensures conv(v.x).Ok? && conv(v.y).Err? ==> r == Err(conv(v.y).error)
  {
    var x := conv(v.x);
    var y := conv(v.y);
    match (x, y)
    case (Ok(x), Ok(y)) => Ok(Vec2(x, y))
    case (Ok(_), Err(e)) => Err(e)
    case (Err(e), Ok(_)) => Err(e)
    case (Err(e), Err(_)) => Err(e)
  }

  /** A conversion that never fails makes `inner_try_into` agree with
      `inner_into`. */
  lemma InnerTryIntoTotal<B, A, E>(v: Vec2<B>, conv: B -> A)
    ensures InnerTryInto<B, A, E>(v, b => Ok(conv(b))) == Ok(InnerInto(v, conv))
  {
  }

  /** The operators act component by component, on either axis. */
  lemma OperatorsComponentwise(a: Vec2<int>, b: Vec2<int>, s: int, axis: Axis)
    ensures GetAxis(Add(a, b), axis) == GetAxis(a, axis) + GetAxis(b, axis)
    ensures GetAxis(Sub(a, b), axis) == GetAxis(a, axis) - GetAxis(b, axis)
    ensures GetAxis(Mul(a, s), axis) == GetAxis(a, axis) * s
    ensures s != 0 ==> GetAxis(Div(a, s), axis) == RustDiv(GetAxis(a, axis), s)
    ensures GetAxis(Neg(a), axis) == -GetAxis(a, axis)
  {
  }

  /** `dot` is symmetric in its arguments. */
  lemma DotSymmetric(a: Vec2<int>, b: Vec2<int>)
    ensures Dot(a, b) == Dot(b, a)
  {
  }

  /** The zero vector is the identity of addition and subtraction. */
  lemma ZeroIsIdentity(v: Vec2<int>)
    ensures Add(v, Zero()) == v && Add(Zero(), v) == v
    ensures Sub(v, Zero()) == v
  {
  }

  /** Subtraction undoes addition. */
  lemma SubUndoesAdd(a: Vec2<int>, b: Vec2<int>)
    ensures Sub(Add(a, b), b) == a
    ensures Add(Sub(a, b), b) == a
  {
  }

  /** `(v * k) / k == v` for every nonzero integer `k`: truncation loses
      nothing on an exact multiple. */
  lemma MulDivRoundTrip(v: Vec2<int>, k: int)
    requires k != 0
    ensures Div(Mul(v, k), k) == v
  {
    RustDivExact(v.x, k);
    RustDivExact(v.y, k);
  }

  /** The squared length is the dot product of a vector with itself. */
  lemma Magnitude2IsSelfDot(v: Vec2<int>)
    ensures Magnitude2(v) == Dot(v, v)
    ensures Magnitude2(v) == 0 <==> IsZero(v)
  {
    if v.x != 0 {
      SquarePositive(v.x);
      SquareNonNegative(v.y);
    } else if v.y != 0 {
      SquarePositive(v.y);
    }
  }

  lemma SquarePositive(a: int)
    requires a != 0
    ensures a * a > 0
  {
  }

  /** A write through `get_axis_mut` of the value already there changes
      nothing; two writes to one axis keep only the last. */
  lemma WithAxisProperties<N>(v: Vec2<N>, axis: Axis, a: N, b: N)
    ensures WithAxis(v, axis, GetAxis(v, axis)) == v
    ensures WithAxis(WithAxis(v, axis, a), axis, b) == WithAxis(v, axis, b)
  {
  }

  /** A `Vec2<int>` the program updates in place through `&mut self`. */
  class Vec2Cell {
    var x: int
    var y: int

    /** The vector currently held. */
    function Value(): Vec2<int>
      reads this
    {
      Vec2(x, y)
    }

    constructor (v: Vec2<int>)
      ensures Value() == v
    {
      x, y := v.x, v.y;
    }

    /** `add_assign`: `self += rhs` has the value of `self + rhs`. */
    method AddAssign(rhs: Vec2<int>)
      modifies this
      ensures Value() == Add(old(Value()), rhs)
    {
      x := x + rhs.x;
      y := y + rhs.y;
    }

    /** `sub_assign`: `self -= rhs` has the value of `self - rhs`. */
    method SubAssign(rhs: Vec2<int>)
      modifies this
      ensures Value() == Sub(old(Value()), rhs)
    {
      x := x - rhs.x;
      y := y - rhs.y;
    }

    /** `mul_assign`: `self *= scalar` has the value of `self * scalar`. */
    method MulAssign(scalar: int)
      modifies this
      ensures Value() == Mul(old(Value()), scalar)
    {
      x := x * scalar;
      y := y * scalar;
    }

    /** `div_assign`: `self /= scalar` has the value of `self / scalar`. */
    method DivAssign(scalar: int)
      requires scalar != 0
      modifies this
      ensures Value() == Div(old(Value()), scalar)
    {
      x := RustDiv(x, scalar);
      y := RustDiv(y, scalar);
    }

    /** `*get_axis_mut(axis) = value`: the selected component becomes
        `value` and the other is left alone. */
    method SetAxis(axis: Axis, value: int)
      modifies this
      ensures Value() == WithAxis(old(Value()), axis, value)
      ensures GetAxis(Value(), axis) == value
      ensures GetAxis(Value(), axis.Other()) == GetAxis(old(Value()), axis.Other())
    {
      if axis.XAxis? {
        x := value;
      } else {
        y := value;
      }
    }
  }
}
