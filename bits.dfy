/**
 * Bytes and the arithmetic of bit fields.
 *
 * The Rust source works on `u8` and `usize` with `<<`, `>>`, `&` and `|`.
 * Here a value is a non-negative `int`, `x << k` is `x * 2^k`, `x >> k` is
 * `x / 2^k`, `x & (2^k - 1)` is `x % 2^k`, and `|` of two fields whose bits
 * do not overlap is `+`.
 */
module Bits {

  /** Rust's `u8`. */
  type byte = b: int | 0 <= b < 256

  lemma {:induction false} MulAtLeast(k: int, d: int)
    requires k >= 1 && d > 0
    ensures k * d >= d
  {
    if k > 1 {
      MulAtLeast(k - 1, d);
      assert k * d == (k - 1) * d + d;
    }
  }

  /** Euclidean division is unique: a quotient and remainder that rebuild `x` are `x / d` and `x % d`. */
  lemma DivMod(x: int, d: int, q: int, r: int)
    requires d > 0 && 0 <= r < d && x == q * d + r
    ensures x / d == q && x % d == r
  {
    var q', r' := x / d, x % d;
    assert (q - q') * d == r' - r;
    if q < q' {
      MulAtLeast(q' - q, d);
    } else if q > q' {
      MulAtLeast(q - q', d);
    }
  }

  /** Division by a positive number is monotone. */
  lemma DivLe(a: int, b: int, d: int)
    requires 0 <= a <= b && d > 0
    ensures a / d <= b / d
  {
    var qa, qb := a / d, b / d;
    if qa > qb {
      MulAtLeast(qa - qb, d);
    }
  }

  /** Taking `d` away from `x` takes one from its quotient by `d` and leaves its remainder as it was. */
  lemma DivModShift(x: int, d: int)
    requires x >= d > 0
    ensures (x - d) / d == x / d - 1 && (x - d) % d == x % d
  {
    DivMod(x, d, (x - d) / d + 1, (x - d) % d);
  }
}
