/**
 * Value types shared by the model (Bevy's glam vectors, Option/Result) and
 * Rust's integer operators and numeric `as` casts, written out explicitly
 * because Dafny's integers are unbounded and its `/` is Euclidean.
 *
 * Floating-point values (`f32`) are modelled as exact `real`s.
 */
module Num {

  datatype Option<+T> = None | Some(value: T) {
    predicate IsFailure() { None? }
    function PropagateFailure<U>(): Option<U> requires None? { None }
    function Extract(): T requires Some? { value }
  }

  datatype Result<+T, +E> = Ok(value: T) | Err(error: E)

  /** glam's `IVec2`: a chunk coordinate or an integer position. */
  datatype IVec2 = IVec2(x: int, y: int)
  /** glam's `UVec2`: a tile position inside a tile set or a grid. */
  datatype UVec2 = UVec2(x: nat, y: nat)
  /** glam's `UVec3`: a navigation-grid cell. */
  datatype UVec3 = UVec3(x: nat, y: nat, z: nat)
  /** glam's `Vec2` (f32 components). */
  datatype Vec2 = Vec2(x: real, y: real)
  /** glam's `Vec3` (f32 components). */
  datatype Vec3 = Vec3(x: real, y: real, z: real)

  /** A Bevy entity, as the number the allocator handed out. */
  type Entity = nat

  /** No element of `s` occurs twice. */
  predicate Distinct<T(==)>(s: seq<T>)
  {
    forall i, j :: 0 <= i < j < |s| ==> s[i] != s[j]
  }

  const I32Min: int := -0x8000_0000
  const I32Max: int := 0x7fff_ffff
  const U32Max: int := 0xffff_ffff

  function Abs(a: int): nat { if a < 0 then -a else a }

  /**
   * Rust's `/` on `i32`: the quotient rounded toward zero. The two
   * postconditions characterise it: the remainder is smaller than the divisor
   * and never has the opposite sign of the dividend.
   */
  function TruncDiv(a: int, b: int): (q: int)
    requires b != 0
    ensures Abs(a - q * b) < Abs(b)
    ensures a - q * b == 0 || (a - q * b < 0 <==> a < 0)
  {
    var m := Abs(a) / Abs(b);
    TruncDivRemainder(a, b, m, m * Abs(b));
    if (a < 0) == (b < 0) then m else -m
  }

  /**
   * The remainder of truncating division, case by case on the signs, with
   * `p` the multiple of `|b|` that Euclidean division of `|a|` takes away.
   */
  lemma TruncDivRemainder(a: int, b: int, m: int, p: int)
    requires b != 0 && m == Abs(a) / Abs(b) && p == m * Abs(b)
    ensures var q := if (a < 0) == (b < 0) then m else -m;
            Abs(a - q * b) < Abs(b) && (a - q * b == 0 || (a - q * b < 0 <==> a < 0))
  {
    assert 0 <= Abs(a) - p < Abs(b);
    if b > 0 {
      assert m * b == p;
      assert -m * b == -p;
    } else {
      assert m * b == -p;
      assert -m * b == p;
    }
  }

  /** On non-negative operands truncating and Euclidean division agree. */
  lemma TruncDivOfNonNegative(a: nat, b: int)
    requires b > 0
    ensures TruncDiv(a, b) == a / b
  {
  }

  /** Truncating division is odd in its dividend (floor division is not). */
  lemma {:induction false} TruncDivNegate(a: int, b: int)
    requires b != 0
    ensures TruncDiv(-a, b) == -TruncDiv(a, b)
  {
    assert Abs(-a) == Abs(a);
  }

  /** Quotient and remainder are determined by any decomposition `n == q * k + r`. */
  lemma DivModUnique(n: int, k: int, q: int, r: int)
    requires k > 0 && 0 <= r < k && n == q * k + r
    ensures n / k == q && n % k == r
  {
    var q', r' := n / k, n % k;
    assert q * k + r == q' * k + r';
    Distribute(q, q', k);
    if q > q' {
      MulAtLeast(q - q', k);
    } else if q < q' {
      MulAtLeast(q' - q, k);
      Distribute(q', q, k);
    }
  }

  lemma Distribute(a: int, b: int, k: int)
    ensures (a - b) * k == a * k - b * k
  {
  }

  lemma {:induction false} MulAtLeast(d: int, k: nat)
    requires d >= 1
    ensures d * k >= k
    decreases d
  {
    if d > 1 {
      MulAtLeast(d - 1, k);
      assert d * k == (d - 1) * k + k;
    }
  }

  /** Real division by a non-zero divisor is determined by the product. */
  lemma DivUnique(x: real, t: real, q: real)
    requires t != 0.0 && q * t == x
    ensures x / t == q
  {
  }

  /** A Rust float-to-int `as` cast saturates at the bounds of `i32`. */
  function SatI32(z: int): (r: int)
    ensures I32Min <= r <= I32Max
    ensures I32Min <= z <= I32Max ==> r == z
    ensures z < I32Min ==> r == I32Min
    ensures z > I32Max ==> r == I32Max
  {
    if z < I32Min then I32Min else if z > I32Max then I32Max else z
  }

  /** A Rust float-to-int `as` cast saturates at the bounds of `u32`. */
  function SatU32(z: int): (r: nat)
    ensures r <= U32Max
    ensures 0 <= z <= U32Max ==> r == z
    ensures z < 0 ==> r == 0
  {
    if z < 0 then 0 else if z > U32Max then U32Max else z
  }

  /** `f as i32`: truncation toward zero, then saturation. */
  function TruncToI32(f: real): (r: int)
    ensures I32Min <= r <= I32Max
    ensures I32Min as real <= f <= I32Max as real ==>
              (0.0 <= f ==> r as real <= f < r as real + 1.0) &&
              (f < 0.0 ==> r as real - 1.0 < f <= r as real)
    ensures f > I32Max as real ==> r == I32Max
    ensures f < I32Min as real ==> r == I32Min
  {
    SatI32(if f >= 0.0 then f.Floor else -((-f).Floor))
  }

  /** A whole-number float is truncated to itself. */
  lemma TruncToI32OfWhole(n: int)
    requires I32Min <= n <= I32Max
    ensures TruncToI32(n as real) == n
  {
    if n < 0 {
      assert (-(n as real)).Floor == -n;
    }
  }

  /**
   * `(a / b).floor() as i32` on floats, including IEEE division by zero:
   * a positive dividend gives +inf (saturating to `i32::MAX`), a negative one
   * -inf (`i32::MIN`), and 0/0 gives NaN, which casts to 0.
   */
  function FloorDivToI32(a: real, b: real): (r: int)
    ensures I32Min <= r <= I32Max
  {
    if b == 0.0 then
      (if a > 0.0 then I32Max else if a < 0.0 then I32Min else 0)
    else
      SatI32((a / b).Floor)
  }

  /**
   * For a non-zero divisor the result is the floor of the quotient whenever
   * that floor fits in `i32`; division by zero saturates toward the sign of
   * the dividend.
   */
  lemma FloorDivToI32Floor(a: real, b: real, n: int)
    requires I32Min <= n <= I32Max
    ensures b != 0.0 && n as real <= a / b < n as real + 1.0 ==> FloorDivToI32(a, b) == n
    ensures b == 0.0 && a > 0.0 ==> FloorDivToI32(a, b) == I32Max
    ensures b == 0.0 && a < 0.0 ==> FloorDivToI32(a, b) == I32Min
  {
  }
}
