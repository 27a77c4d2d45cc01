/**
 * The integer square root, standing in for `std::trunc(std::sqrt(n))` on
 * the dump's pixel count.
 */
module IntSqrt {

  /** `s` is the integer square root of `n`: the largest value whose square is at most `n`. */
  predicate IsFloorRoot(s: int, n: int)
  {
    0 <= s && s * s <= n < (s + 1) * (s + 1)
  }

  /** The largest `s` with `s * s <= n`. */
  function Isqrt(n: nat): (s: nat)
    ensures s * s <= n < (s + 1) * (s + 1)
    decreases n
  {
    if n == 0 then 0
    else
      var h := Isqrt(n / 4);
      DoubleRoot(n, h);
      var r := 2 * h;
      if (r + 1) * (r + 1) <= n then r + 1 else r
  }

  /** Doubling the root of `n / 4` gives a root of `n` that is at most one too small. */
  lemma DoubleRoot(n: nat, h: nat)
    requires h * h <= n / 4 < (h + 1) * (h + 1)
    ensures (2 * h) * (2 * h) <= n < (2 * h + 2) * (2 * h + 2)
  {
    assert (2 * h) * (2 * h) == 4 * (h * h);
    assert (2 * h + 2) * (2 * h + 2) == 4 * ((h + 1) * (h + 1));
  }

  lemma ProductMonotonic(a: nat, b: nat, x: nat, y: nat)
    requires a <= x && b <= y
    ensures a * b <= x * y
  {
    assert a * b <= x * b;
    assert x * b <= x * y;
  }

  lemma SquareMonotonic(a: nat, b: nat)
    requires a <= b
    ensures a * a <= b * b
  {
    ProductMonotonic(a, a, b, b);
  }

  /** The bracketing in `Isqrt`'s contract determines the root: it is unique. */
  lemma IsqrtUnique(n: nat, s: nat)
    requires s * s <= n < (s + 1) * (s + 1)
    ensures Isqrt(n) == s
  {
    var r := Isqrt(n);
    if r < s {
      SquareMonotonic(r + 1, s);
    } else if s < r {
      SquareMonotonic(s + 1, r);
    }
  }

  /** Below 2^62 the root is below 2^31, so it fits in a `LONG`. */
  lemma IsqrtBelow31Bits(n: nat)
    requires n < 0x4000_0000_0000_0000
    ensures Isqrt(n) < 0x8000_0000
  {
    if Isqrt(n) >= 0x8000_0000 {
      SquareMonotonic(0x8000_0000, Isqrt(n));
    }
  }
}
