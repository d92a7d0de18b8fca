/**
 * Fixed-width machine integers and the bit operations the date code uses.
 *
 * Rust's unsigned and signed integers are modelled as subset types of the
 * unbounded `int`.  An arithmetic overflow panics in a debug build, so the
 * operations elsewhere carry a `requires` that rules it out; the explicit
 * `wrapping_add` / `wrapping_sub` calls are written out modulo 2^32 here.
 * Bitwise `&`, `|` and `^` are defined on the binary representation of
 * natural numbers, one bit at a time.
 */
module Ints {

  const U8_LIMIT: int := 0x100
  const U32_LIMIT: int := 0x1_0000_0000
  const I64_LIMIT: int := 0x8000_0000_0000_0000

  type u8 = x: int | 0 <= x < 0x100
  type u32 = x: int | 0 <= x < 0x1_0000_0000
  type i32 = x: int | -0x8000_0000 <= x < 0x8000_0000
  type i64 = x: int | -0x8000_0000_0000_0000 <= x < 0x8000_0000_0000_0000

  /** `a.wrapping_sub(b)` on u32: the difference modulo 2^32. */
  function WrappingSub32(a: u32, b: u32): (r: u32)
    ensures a >= b ==> r == a - b
    ensures a < b ==> r == a - b + U32_LIMIT
  {
    (a - b) % U32_LIMIT
  }

  /** `a.wrapping_add(b)` on u32: the sum modulo 2^32. */
  function WrappingAdd32(a: u32, b: u32): (r: u32)
    ensures a + b < U32_LIMIT ==> r == a + b
    ensures a + b >= U32_LIMIT ==> r == a + b - U32_LIMIT
  {
    (a + b) % U32_LIMIT
  }

  /** Rust's `%` on signed integers: the remainder takes the sign of the dividend. */
  function TruncRem(a: int, b: int): (r: int)
    requires b > 0
    ensures -b < r < b
    ensures a >= 0 ==> r >= 0
    ensures a < 0 ==> r <= 0
  {
    if a >= 0 then a % b else -((-a) % b)
  }

  /** A truncated remainder by 100 is zero exactly when 100 divides the dividend. */
  lemma TruncRemZero100(a: int)
    ensures TruncRem(a, 100) == 0 <==> a % 100 == 0
  {
    if a < 0 {
      var q := (-a) / 100;
      if (-a) % 100 == 0 {
        assert a == 100 * (-q);
      } else {
        assert a == 100 * (-q - 1) + (100 - (-a) % 100);
      }
    }
  }

  /** The 32 bits of an i32 read as an unsigned number (two's complement). */
  function Bits32(a: i32): (r: u32)
    ensures r % U32_LIMIT == a % U32_LIMIT
  {
    if a < 0 then a + U32_LIMIT else a
  }

  function Pow2(k: nat): (r: nat)
    ensures r >= 1
  {
    if k == 0 then 1 else 2 * Pow2(k - 1)
  }

  /** Bitwise and. */
  function BitAnd(a: nat, b: nat): nat
    decreases a
  {
    if a == 0 || b == 0 then 0
    else 2 * BitAnd(a / 2, b / 2) + (if a % 2 == 1 && b % 2 == 1 then 1 else 0)
  }

  /** Bitwise inclusive or. */
  function BitOr(a: nat, b: nat): nat
    decreases a + b
  {
    if a == 0 then b
    else if b == 0 then a
    else 2 * BitOr(a / 2, b / 2) + (if a % 2 == 1 || b % 2 == 1 then 1 else 0)
  }

  /** Bitwise exclusive or. */
  function BitXor(a: nat, b: nat): nat
    decreases a + b
  {
    if a == 0 then b
    else if b == 0 then a
    else 2 * BitXor(a / 2, b / 2) + (if a % 2 != b % 2 then 1 else 0)
  }

  lemma {:induction false} BitOrBound(a: nat, b: nat, k: nat)
    requires a < Pow2(k) && b < Pow2(k)
    ensures BitOr(a, b) < Pow2(k)
    decreases a + b
  {
    if a != 0 && b != 0 {
      assert k > 0;
      BitOrBound(a / 2, b / 2, k - 1);
    }
  }

  lemma {:induction false} BitXorBound(a: nat, b: nat, k: nat)
    requires a < Pow2(k) && b < Pow2(k)
    ensures BitXor(a, b) < Pow2(k)
    decreases a + b
  {
    if a != 0 && b != 0 {
      assert k > 0;
      BitXorBound(a / 2, b / 2, k - 1);
    }
  }

  lemma AndOne(a: nat)
    ensures BitAnd(a, 1) == a % 2
  {
    if a != 0 {
      assert BitAnd(a / 2, 0) == 0;
    }
  }

  /** Masking with 3 keeps the two low bits: `a & 3 == a % 4`. */
  lemma AndThree(a: nat)
    ensures BitAnd(a, 3) == a % 4
  {
    if a != 0 {
      var h := a / 2;
      AndOne(h);
      assert BitAnd(a, 3) == 2 * BitAnd(h, 1) + a % 2;
      DivModOf(a, 4, h / 2, 2 * (h % 2) + a % 2);
    }
  }

  lemma AndSeven(a: nat)
    ensures BitAnd(a, 7) == a % 8
  {
    if a != 0 {
      var h := a / 2;
      AndThree(h);
      assert BitAnd(a, 7) == 2 * BitAnd(h, 3) + a % 2;
      DivModOf(a, 8, h / 4, 2 * (h % 4) + a % 2);
    }
  }

  /** Masking with 15 keeps the four low bits: `a & 15 == a % 16`. */
  lemma AndFifteen(a: nat)
    ensures BitAnd(a, 15) == a % 16
  {
    if a != 0 {
      var h := a / 2;
      AndSeven(h);
      assert BitAnd(a, 15) == 2 * BitAnd(h, 7) + a % 2;
      DivModOf(a, 16, h / 8, 2 * (h % 8) + a % 2);
    }
  }

  // ---------------------------------------------------------------------
  // Euclidean division

  /** Division by a constant recovered from a quotient and an in-range remainder. */
  lemma DivModOf(x: int, k: int, q: int, r: int)
    requires k > 0 && 0 <= r < k && x == k * q + r
    ensures x / k == q && x % k == r
  {
    var q', r' := x / k, x % k;
    assert k * q' + r' == k * q + r;
    if q' < q {
      MulMonotone(k, q' + 1, q);
    } else if q < q' {
      MulMonotone(k, q + 1, q');
    }
  }

  lemma MulMonotone(k: int, a: int, b: int)
    requires k > 0 && a <= b
    ensures k * a <= k * b
  {
  }

  /** Counting one further moves the quotient on exactly when the next number is a multiple. */
  lemma DivSucc(y: nat, k: nat)
    requires k > 0
    ensures (y + 1) / k == y / k + (if (y + 1) % k == 0 then 1 else 0)
  {
    var q, r := y / k, y % k;
    if r == k - 1 {
      DivModOf(y + 1, k, q + 1, 0);
    } else {
      DivModOf(y + 1, k, q, r + 1);
    }
  }
}
