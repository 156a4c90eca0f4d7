/** Small shared vocabulary: optional values, and the numbers the sources compute with. */
module Prelude {
  datatype Option<+T> = None | Some(value: T)
}

module Octets {
  newtype byte = b: int | 0 <= b < 256

  type Bytes = seq<byte>
}

module Numbers {
  const I32_MIN := -0x8000_0000
  const I32_MAX := 0x7fff_ffff

  /** A double as the sources see it: an exact real, or one of NaN and the infinities. */
  datatype F64 = Finite(value: real) | NonFinite

  /** `f64::round`: to the nearest integer, ties away from zero. */
  function Round(r: real): (n: int)
    ensures -0.5 <= n as real - r <= 0.5
    ensures n as real - r == 0.5 ==> r > 0.0
    ensures n as real - r == -0.5 ==> r < 0.0
  {
    if r >= 0.0 then (r + 0.5).Floor else -((0.5 - r).Floor)
  }

  /** `as i32` on a whole-valued double: saturates instead of wrapping. */
  function SaturateI32(n: int): (r: int)
    ensures I32_MIN <= r <= I32_MAX
    ensures I32_MIN <= n <= I32_MAX ==> r == n
  {
    if n < I32_MIN then I32_MIN else if n > I32_MAX then I32_MAX else n
  }

  /** `value.round() as i32`, the conversion every pixel coordinate goes through. */
  function RoundToI32(r: real): int {
    SaturateI32(Round(r))
  }

  function Max(a: int, b: int): int {
    if a >= b then a else b
  }

  function Min(a: int, b: int): int {
    if a <= b then a else b
  }

  function Abs(a: int): int {
    if a >= 0 then a else -a
  }

  function MaxReal(a: real, b: real): real {
    if a >= b then a else b
  }

  function MinReal(a: real, b: real): real {
    if a <= b then a else b
  }

  function AbsReal(a: real): real {
    if a >= 0.0 then a else -a
  }

  /** `Ord::clamp`; the library panics when the bounds cross, so callers must order them. */
  function Clamp(v: int, lo: int, hi: int): int
    requires lo <= hi
  {
    if v < lo then lo else if v > hi then hi else v
  }

  /** The postconditions of `Round` determine it: no other rounding meets them. */
  lemma RoundIsUnique(r: real, n: int)
    requires -0.5 <= n as real - r <= 0.5
    requires n as real - r == 0.5 ==> r > 0.0
    requires n as real - r == -0.5 ==> r < 0.0
    ensures Round(r) == n
  {
    var d := Round(r) - n;
    assert d as real == Round(r) as real - n as real;
    assert -1.0 <= d as real <= 1.0;
  }

  lemma RoundOfInt(n: int)
    ensures Round(n as real) == n
  {
  }

  /** Rounding never skips over a whole number. */
  lemma RoundMonotone(r: real, n: int)
    ensures r <= n as real ==> Round(r) <= n
    ensures r >= n as real ==> Round(r) >= n
  {
    var d := Round(r) - n;
    assert d as real == Round(r) as real - n as real;
  }
}

/** Facts about products of reals that the solver is not left to find. */
module Products {
  lemma Nonnegative(a: real, b: real)
    requires a >= 0.0 && b >= 0.0
    ensures a * b >= 0.0
  {
  }

  lemma Monotone(a: real, b: real, c: real)
    requires a <= b && c >= 0.0
    ensures a * c <= b * c
  {
    Nonnegative(b - a, c);
    assert b * c - a * c == (b - a) * c;
  }

  lemma StrictlyMonotone(a: real, b: real, c: real)
    requires a < b && c > 0.0
    ensures a * c < b * c
  {
    var d := b - a;
    assert d * c > 0.0;
    assert b * c - a * c == d * c;
  }

  /**
   A product with a whole number, as repeated addition: no product of two unknowns
   reaches the solver unless `TimesIsProduct` is called.
   */
  function Times(n: nat, f: real): real {
    if n == 0 then 0.0 else f + Times(n - 1, f)
  }

  lemma {:induction false} TimesIsProduct(n: nat, f: real)
    ensures Times(n, f) == n as real * f
  {
    if n > 0 {
      TimesIsProduct(n - 1, f);
      assert n as real * f == (n - 1) as real * f + f;
    }
  }

  lemma OneMore(a: real, c: real)
    ensures (a + 1.0) * c == a * c + c
  {
  }

  lemma QuotientAtLeast(n: real, d: real, low: real)
    requires d > 0.0 && low * d <= n
    ensures n / d >= low
  {
    var q := n / d;
    assert q * d == n;
    if q < low {
      StrictlyMonotone(q, low, d);
      assert false;
    }
  }

  lemma QuotientBelow(n: real, d: real, high: real)
    requires d > 0.0 && n < high * d
    ensures n / d < high
  {
    var q := n / d;
    assert q * d == n;
    if q >= high {
      Monotone(high, q, d);
      assert false;
    }
  }

  /** A quotient lies where its numerator lies among the multiples of the divisor. */
  lemma QuotientBetween(n: real, d: real, low: real, high: real)
    requires d > 0.0 && low * d <= n <= high * d
    ensures low <= n / d <= high
  {
    QuotientAtLeast(n, d, low);
    var q := n / d;
    assert q * d == n;
    if q > high {
      StrictlyMonotone(high, q, d);
      assert false;
    }
  }
}

/** What the windowing system reports about an attached display. */
module Displays {
  import opened Prelude
  import opened Numbers

  datatype WorkArea = WorkArea(x: int, y: int, width: nat, height: nat)

  datatype Monitor = Monitor(name: Option<string>, area: WorkArea, scaleFactor: F64)
}
