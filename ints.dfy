/**
 * Fixed-width integers of the Rust source, modelled as ranges of `int`,
 * with the wrap-around of `as` casts and of wrapping shifts written out.
 */
module Ints {

  const TWO_30: int := 0x4000_0000
  const TWO_31: int := 0x8000_0000
  const TWO_32: int := 0x1_0000_0000
  const TWO_62: int := 0x4000_0000_0000_0000
  const TWO_63: int := 0x8000_0000_0000_0000
  const TWO_64: int := 0x1_0000_0000_0000_0000
  const TWO_128: int := 0x1_0000_0000_0000_0000_0000_0000_0000_0000

  type uint8 = x: int | 0 <= x < 0x100
  type int32 = x: int | -0x8000_0000 <= x < 0x8000_0000
  type int64 = x: int | -0x8000_0000_0000_0000 <= x < 0x8000_0000_0000_0000
  type uint64 = x: int | 0 <= x < 0x1_0000_0000_0000_0000
  type uint128 = x: int | 0 <= x < 0x1_0000_0000_0000_0000_0000_0000_0000_0000

  /** The two's-complement reading of the low 64 bits of `x`: what `as i64` gives,
      and what a wrapping `i64` operation leaves. */
  function WrapI64(x: int): (r: int64)
    ensures (x - r) % TWO_64 == 0
    ensures -TWO_63 <= x < TWO_63 ==> r == x
  {
    var m := x % TWO_64;
    if m < TWO_63 then m else m - TWO_64
  }

  /** The same for 32 bits (`as i32`, wrapping `i32` arithmetic). */
  function WrapI32(x: int): (r: int32)
    ensures (x - r) % TWO_32 == 0
    ensures -TWO_31 <= x < TWO_31 ==> r == x
  {
    var m := x % TWO_32;
    if m < TWO_31 then m else m - TWO_32
  }

  /** Just above the `i64` range, wrapping subtracts `2^64`. */
  lemma WrapI64Above(x: int)
    requires TWO_63 <= x < TWO_64
    ensures WrapI64(x) == x - TWO_64
  {
    DivModUnique(x, TWO_64, 0, x);
  }

  /** Just below the `i64` range, wrapping adds `2^64`. */
  lemma WrapI64Below(x: int)
    requires -TWO_64 <= x < -TWO_63
    ensures WrapI64(x) == x + TWO_64
  {
    DivModUnique(x, TWO_64, -1, x + TWO_64);
  }

  /** `n << 1` on `i64`: exact inside the range, off by `2^64` outside it. */
  lemma WrapI64Double(n: int64)
    ensures WrapI64(2 * n) == if 2 * n >= TWO_63 then 2 * n - TWO_64 else if 2 * n < -TWO_63 then 2 * n + TWO_64 else 2 * n
  {
    if 2 * n >= TWO_63 {
      WrapI64Above(2 * n);
    } else if 2 * n < -TWO_63 {
      WrapI64Below(2 * n);
    }
  }

  /** `n << 1` on `i32`: exact inside the range, off by `2^32` outside it. */
  lemma WrapI32Double(n: int32)
    ensures WrapI32(2 * n) == if 2 * n >= TWO_31 then 2 * n - TWO_32 else if 2 * n < -TWO_31 then 2 * n + TWO_32 else 2 * n
  {
    if 2 * n >= TWO_31 {
      DivModUnique(2 * n, TWO_32, 0, 2 * n);
    } else if 2 * n < -TWO_31 {
      DivModUnique(2 * n, TWO_32, -1, 2 * n + TWO_32);
    }
  }

  /** `x as u64` for a signed 64-bit `x`: the same bits read as unsigned. */
  function AsU64(x: int64): (r: uint64)
    ensures WrapI64(r) == x
    ensures x >= 0 ==> r == x
  {
    if x >= 0 then x else x + TWO_64
  }

  /** `2^(7k)`, the weight of the k-th seven-bit group of a varint. */
  function Pow128(k: nat): (p: nat)
    ensures p >= 1
  {
    if k == 0 then 1 else 0x80 * Pow128(k - 1)
  }

  /** `2^(8k)`, the weight of the k-th byte from the right of a big-endian number. */
  function Pow256(k: nat): (p: nat)
    ensures p >= 1
  {
    if k == 0 then 1 else 0x100 * Pow256(k - 1)
  }

  lemma {:induction false} Pow128Monotone(a: nat, b: nat)
    requires a <= b
    ensures Pow128(a) <= Pow128(b)
  {
    if a < b {
      Pow128Monotone(a, b - 1);
    }
  }

  /** The group weights at the edge of a 64-bit value: 2^56, 2^63 and 2^70. */
  lemma Pow128Values()
    ensures Pow128(8) == 0x100_0000_0000_0000
    ensures Pow128(9) == TWO_63
    ensures Pow128(10) == 0x40 * TWO_64
  {
  }

  /** `x % (a * b)` splits into the digit above `a` and the remainder below it. */
  lemma ModOfProduct(x: nat, a: nat, b: nat)
    requires a > 0 && b > 0
    ensures x % (a * b) == (x / a % b) * a + x % a
    ensures x / (a * b) == x / a / b
  {
    var q, r := x / a, x % a;
    var t, s := q / b, q % b;
    RegroupProduct(a, b, t, s, r, q);
    MulLe(s, b - 1, a);
    assert (b - 1) * a == a * b - a;
    DivModUnique(x, a * b, t, a * s + r);
  }

  /** `a * (b * t + s) + r` regrouped by powers of `a * b`. */
  lemma RegroupProduct(a: int, b: int, t: int, s: int, r: int, q: int)
    requires q == b * t + s
    ensures a * q + r == (a * b) * t + (a * s + r)
  {
    assert a * q == a * (b * t) + a * s;
    assert a * (b * t) == (a * b) * t;
  }

  /** A product below the modulus is its own remainder. */
  lemma ProductBelowModulus(a: nat, b: nat, m: nat)
    ensures a * b < m ==> a * b % m == a * b
  {
  }

  lemma MulLe(a: nat, b: nat, p: nat)
    requires a <= b
    ensures a * p <= b * p
  {
    assert b * p == a * p + (b - a) * p;
  }

  lemma DivModUnique(x: int, d: int, q: int, r: int)
    requires d > 0 && 0 <= r < d && x == d * q + r
    ensures x % d == r && x / d == q
  {
    var q', r' := x / d, x % d;
    assert x == d * q' + r';
    var k := q - q';
    assert d * q == d * q' + d * k;
    assert d * k == r' - r;
    if k >= 1 {
      MulAtLeast(d, k);
    } else if k <= -1 {
      MulAtLeast(d, -k);
    }
  }

  lemma MulAtLeast(d: int, k: int)
    requires d > 0 && k >= 1
    ensures d * k >= d
  {
  }
}
