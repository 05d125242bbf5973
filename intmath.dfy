/**
 * C++ integer semantics that differ from Dafny's: division truncating toward
 * zero and the narrowing conversions to fixed-width integer types.
 */
module IntMath {

  function Abs(x: int): (r: nat)
    ensures r == x || r == -x
  {
    if x < 0 then -x else x
  }

  function Min(a: int, b: int): (r: int)
    ensures r <= a && r <= b && (r == a || r == b)
  {
    if a <= b then a else b
  }

  function Max(a: int, b: int): (r: int)
    ensures r >= a && r >= b && (r == a || r == b)
  {
    if a >= b then a else b
  }

  /** std::clamp(x, lo, hi) for lo <= hi. */
  function Clamp(x: int, lo: int, hi: int): (r: int)
    requires lo <= hi
    ensures lo <= r <= hi
    ensures lo <= x <= hi ==> r == x
    ensures x < lo ==> r == lo
    ensures x > hi ==> r == hi
  {
    if x < lo then lo else if x > hi then hi else x
  }

  /**
   * C++ `a / b`: the quotient truncated toward zero.  The remainder
   * `a - q * b` has the sign of `a` and is smaller than `|b|`.
   */
  function TruncDiv(a: int, b: int): (q: int)
    requires b != 0
    ensures a >= 0 ==> 0 <= a - q * b < Abs(b)
    ensures a < 0 ==> -(Abs(b) as int) < a - q * b <= 0
  {
    if a >= 0 then a / b else -((-a) / b)
  }

  /** Truncating division is odd in its dividend; Euclidean division is not. */
  lemma TruncDivNeg(a: int, b: int)
    requires b != 0
    ensures TruncDiv(-a, b) == -TruncDiv(a, b)
  {
    if a > 0 {
      assert TruncDiv(-a, b) == -(a / b);
    } else if a < 0 {
      assert TruncDiv(-a, b) == (-a) / b;
      assert TruncDiv(a, b) == -((-a) / b);
    } else {
      assert 0 / b == 0;
    }
  }

  /** For a positive divisor the quotient has the sign of the dividend. */
  lemma TruncDivSign(a: int, b: int)
    requires b > 0
    ensures a >= 0 ==> TruncDiv(a, b) >= 0
    ensures a <= 0 ==> TruncDiv(a, b) <= 0
    ensures Abs(TruncDiv(a, b)) <= Abs(a)
  {
    if a >= 0 {
      DivBounds(a, b);
    } else {
      DivBounds(-a, b);
    }
  }

  /** `0 <= n / b <= n` for a natural dividend and a positive divisor. */
  lemma DivBounds(n: nat, b: int)
    requires b > 0
    ensures 0 <= n / b <= n
  {
    var q, r := n / b, n % b;
    assert n == q * b + r && 0 <= r < b;
    MulAtLeast2(q, b);
  }

  lemma MulAtLeast(d: int, m: int)
    requires d >= 1 && m > 0
    ensures d * m >= m
  {
    assert d * m == (d - 1) * m + m;
    assert (d - 1) * m >= 0;
  }

  lemma MulAtLeast2(q: int, b: int)
    requires q >= 0 && b >= 1
    ensures q * b >= q
  {
    assert q * b == q * (b - 1) + q;
    assert q * (b - 1) >= 0;
  }

  /** Euclidean division is determined by the quotient/remainder equation. */
  lemma DivModUnique(x: int, q: int, r: int, m: int)
    requires m > 0 && x == q * m + r && 0 <= r < m
    ensures x / m == q && x % m == r
  {
    var q2, r2 := x / m, x % m;
    assert x == q2 * m + r2 && 0 <= r2 < m;
    assert (q - q2) * m == r2 - r;
    if q - q2 >= 1 {
      MulAtLeast(q - q2, m);
      assert false;
    } else if q2 - q >= 1 {
      MulAtLeast(q2 - q, m);
      assert false;
    }
  }

  /** Euclidean division and truncating division differ on -1 / 2. */
  lemma TruncDivDiffersFromEuclidean()
    ensures TruncDiv(-1, 2) == 0 && (-1) / 2 == -1
  {
  }

  const TWO_8: int := 0x100
  const TWO_16: int := 0x1_0000
  const TWO_32: int := 0x1_0000_0000
  const TWO_64: int := 0x1_0000_0000_0000_0000

  type Int8 = x: int | -0x80 <= x < 0x80
  type UInt8 = x: int | 0 <= x < 0x100
  type Int16 = x: int | -0x8000 <= x < 0x8000
  type UInt16 = x: int | 0 <= x < 0x1_0000
  type Int32 = x: int | -0x8000_0000 <= x < 0x8000_0000
  type UInt64 = x: int | 0 <= x < 0x1_0000_0000_0000_0000

  /** Conversion of an integer to `std::uint8_t` (reduction modulo 2^8). */
  function ToUInt8(x: int): (r: UInt8)
    ensures (x - r) % TWO_8 == 0
    ensures 0 <= x < TWO_8 ==> r == x
  {
    x % TWO_8
  }

  /** Conversion of an integer to `std::uint16_t` (reduction modulo 2^16). */
  function ToUInt16(x: int): (r: UInt16)
    ensures (x - r) % TWO_16 == 0
    ensures 0 <= x < TWO_16 ==> r == x
  {
    x % TWO_16
  }

  /** Conversion of an integer to `std::uint64_t` (reduction modulo 2^64). */
  function ToUInt64(x: int): (r: UInt64)
    ensures (x - r) % TWO_64 == 0
    ensures 0 <= x < TWO_64 ==> r == x
  {
    x % TWO_64
  }

  /** Conversion of an integer to `std::int8_t` (two's complement wrap-around). */
  function ToInt8(x: int): (r: Int8)
    ensures (x - r) % TWO_8 == 0
    ensures -0x80 <= x < 0x80 ==> r == x
  {
    (x + 0x80) % TWO_8 - 0x80
  }

  /** Conversion of an integer to `std::int16_t` (two's complement wrap-around). */
  function ToInt16(x: int): (r: Int16)
    ensures (x - r) % TWO_16 == 0
    ensures -0x8000 <= x < 0x8000 ==> r == x
  {
    (x + 0x8000) % TWO_16 - 0x8000
  }

  /** Conversion of an integer to `std::int32_t` (two's complement wrap-around). */
  function ToInt32(x: int): (r: Int32)
    ensures (x - r) % TWO_32 == 0
    ensures -0x8000_0000 <= x < 0x8000_0000 ==> r == x
  {
    (x + 0x8000_0000) % TWO_32 - 0x8000_0000
  }

  /** Two integers congruent modulo 2^16 narrow to the same `std::int16_t`. */
  lemma {:induction false} ToInt16Congruent(x: int, y: int)
    requires (x - y) % TWO_16 == 0
    ensures ToInt16(x) == ToInt16(y)
  {
    var k := (x - y) / TWO_16;
    assert x == y + k * TWO_16;
    assert (x + 0x8000) % TWO_16 == (y + 0x8000 + k * TWO_16) % TWO_16;
    ModAddMultiple(y + 0x8000, k, TWO_16);
  }

  lemma {:induction false} ModAddMultiple(a: int, k: int, m: int)
    requires m > 0
    ensures (a + k * m) % m == a % m
  {
    var q, r := a / m, a % m;
    assert a == q * m + r && 0 <= r < m;
    assert a + k * m == (q + k) * m + r;
    DivModUnique(a + k * m, q + k, r, m);
  }

  /**
   * Adding a value and then subtracting it again restores any `std::int16_t`,
   * even when the intermediate result wrapped around.
   */
  lemma AddSubRestores(a: Int16, w: int)
    ensures ToInt16(ToInt16(a + w) - w) == a
  {
    var t := ToInt16(a + w);
    assert (a + w - t) % TWO_16 == 0;
    assert ((t - w) - a) % TWO_16 == 0 by {
      assert (t - w) - a == -(a + w - t);
    }
    ToInt16Congruent(t - w, a);
  }

  /** Subtracting and then adding back restores any `std::int16_t`, too. */
  lemma SubAddRestores(a: Int16, w: int)
    ensures ToInt16(ToInt16(a - w) + w) == a
  {
    AddSubRestores(a, -w);
  }

  /** Narrowing an intermediate sum to `std::int16_t` does not change the narrowed total. */
  lemma ToInt16AddNarrowed(x: int, w: int)
    ensures ToInt16(ToInt16(x) + w) == ToInt16(x + w)
  {
    var t := ToInt16(x);
    assert (x - t) % TWO_16 == 0;
    assert ((t + w) - (x + w)) % TWO_16 == 0 by {
      assert (t + w) - (x + w) == -(x - t);
    }
    ToInt16Congruent(t + w, x + w);
  }

  /** A non-negative factor keeps an order. */
  lemma MulLe(a: nat, x: int, y: int)
    requires x <= y
    ensures a * x <= a * y
  {
  }
}
