/** Signed-integer helpers that behave like Rust's operators on `i32`/`i64`
    (without overflow: integers here are unbounded). */
module Num {

  /** `core::cmp::Ordering`. */
  datatype Ordering = Less | Equal | Greater

  /** `Ord::min` */
  function Min(a: int, b: int): (m: int)
    ensures m <= a && m <= b
    ensures m == a || m == b
  {
    if a <= b then a else b
  }

  /** `Ord::max` */
  function Max(a: int, b: int): (m: int)
    ensures m >= a && m >= b
    ensures m == a || m == b
  {
    if a >= b then a else b
  }

  /** `Signed::abs` */
  function Abs(a: int): (r: int)
    ensures r >= 0 && (r == a || r == -a)
  {
    if a < 0 then -a else a
  }

  /** `Signed::signum`: -1, 0 or 1 according to the sign of `a`. */
  function Signum(a: int): (s: int)
    ensures s == 0 <==> a == 0
    ensures s == 1 <==> a > 0
    ensures s == -1 <==> a < 0
  {
    if a < 0 then -1 else if a > 0 then 1 else 0
  }

  /** The quotient of two magnitudes, rounded down: the number of times `m`
      can be taken away from `n`. */
  function NatDiv(n: nat, m: nat): (q: nat)
    requires m > 0
    ensures q <= n
    ensures m == 1 ==> q == n
    decreases n
  {
    if n < m then 0 else 1 + NatDiv(n - m, m)
  }

  /** `NatDiv` leaves a remainder between 0 and `m - 1`. */
  lemma {:induction false} NatDivRemainder(n: nat, m: nat)
    requires m > 0
    ensures 0 <= n - NatDiv(n, m) * m < m
  {
    if n >= m {
      NatDivRemainder(n - m, m);
      assert NatDiv(n, m) * m == NatDiv(n - m, m) * m + m;
    }
  }

  /** Rust's `/` on signed integers: the quotient of the magnitudes,
      given the sign of `a * b`, so that it rounds toward zero (Dafny's own
      `/` is Euclidean instead). Rust panics on a zero divisor, hence the
      precondition. */
  function RustDiv(a: int, b: int): (q: int)
    requires b != 0
    ensures q > 0 ==> (a > 0 && b > 0) || (a < 0 && b < 0)
    ensures q < 0 ==> (a > 0 && b < 0) || (a < 0 && b > 0)
    ensures Abs(q) <= Abs(a)
    ensures b == 1 ==> q == a
  {
    var n: int := NatDiv(Abs(a), Abs(b));
    if (a < 0) == (b < 0) then n else -n
  }

  /** The remainder `a - RustDiv(a, b) * b` has the sign of the dividend,
      lies between 0 and `a`, and is smaller than `b` in magnitude: the
      quotient truncates toward zero and never overshoots `a`. */
  lemma RustDivRemainder(a: int, b: int)
    requires b != 0
    ensures var r := a - RustDiv(a, b) * b;
      && (a >= 0 ==> 0 <= r <= a && r < Abs(b))
      && (a < 0 ==> a <= r <= 0 && 0 < r + Abs(b))
  {
    NatDivRemainder(Abs(a), Abs(b));
    MulNonNegative(NatDiv(Abs(a), Abs(b)), Abs(b));
    QuotientTimesDivisor(a, b);
  }

  /** `RustDiv(a, b) * b` is the multiple of `|b|` that `NatDiv` takes
      away from `|a|`, carrying the sign of `a`. */
  lemma QuotientTimesDivisor(a: int, b: int)
    requires b != 0
    ensures a >= 0 ==> RustDiv(a, b) * b == NatDiv(Abs(a), Abs(b)) * Abs(b)
    ensures a < 0 ==> RustDiv(a, b) * b == -(NatDiv(Abs(a), Abs(b)) * Abs(b))
  {
    var n := NatDiv(Abs(a), Abs(b));
    if b < 0 {
      assert b == -Abs(b);
      if a >= 0 {
        assert RustDiv(a, b) * b == (-n) * (-Abs(b));
      } else {
        assert RustDiv(a, b) * b == n * (-Abs(b));
      }
    }
  }

  lemma MulNonNegative(n: nat, k: nat)
    ensures n * k >= 0
  {
  }

  /** A nonzero multiple of `k` is at least as large as `k` in magnitude. */
  lemma MulAbsAtLeast(m: int, k: int)
    requires m != 0
    ensures Abs(m * k) >= Abs(k)
  {
  }

  /** Dividing an exact multiple of `k` by `k` gives the factor back. */
  lemma RustDivExact(x: int, k: int)
    requires k != 0
    ensures RustDiv(x * k, k) == x
  {
    var q := RustDiv(x * k, k);
    RustDivRemainder(x * k, k);
    var r := x * k - q * k;
    assert Abs(r) < Abs(k);
    assert r == (x - q) * k;
    if x != q {
      MulAbsAtLeast(x - q, k);
      assert false;
    }
  }
}
