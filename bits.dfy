/**
 * Unsigned machine words as natural numbers, with the bitwise operators the
 * engine uses written out arithmetically (bit 0 is the least significant).
 * Bit i of a word is square i of a bitboard.
 */
module Bits {
  import opened IntMath

  function Pow2(n: nat): (r: nat)
    ensures r >= 1
  {
    if n == 0 then 1 else 2 * Pow2(n - 1)
  }

  lemma {:induction false} Pow2Add(a: nat, b: nat)
    ensures Pow2(a + b) == Pow2(a) * Pow2(b)
  {
    if a > 0 {
      Pow2Add(a - 1, b);
    }
  }

  lemma Pow2Is2To64()
    ensures Pow2(64) == TWO_64
  {
    assert Pow2(2) == 4;
    Pow2Add(2, 2);
    Pow2Add(4, 4);
    assert Pow2(8) == 256;
    Pow2Add(8, 8);
    assert Pow2(16) == 0x1_0000;
    Pow2Add(16, 16);
    assert Pow2(32) == 0x1_0000_0000;
    Pow2Add(32, 32);
  }

  lemma {:induction false} Pow2Monotonic(a: nat, b: nat)
    requires a < b
    ensures Pow2(a) < Pow2(b)
  {
    if a + 1 < b {
      Pow2Monotonic(a, b - 1);
    }
  }

  lemma Pow2AtMost(a: nat, b: nat)
    requires a <= b
    ensures Pow2(a) <= Pow2(b)
  {
    if a < b {
      Pow2Monotonic(a, b);
    }
  }

  /** Bit i of x. */
  predicate Bit(x: nat, i: nat)
  {
    if i == 0 then x % 2 == 1 else Bit(x / 2, i - 1)
  }

  /** `x | y`. */
  function BitOr(x: nat, y: nat): nat
    decreases x + y
  {
    if x == 0 && y == 0 then 0
    else 2 * BitOr(x / 2, y / 2) + (if x % 2 == 1 || y % 2 == 1 then 1 else 0)
  }

  /** `x & y`. */
  function BitAnd(x: nat, y: nat): nat
    decreases x + y
  {
    if x == 0 || y == 0 then 0
    else 2 * BitAnd(x / 2, y / 2) + (if x % 2 == 1 && y % 2 == 1 then 1 else 0)
  }

  /** `x ^ y`. */
  function BitXor(x: nat, y: nat): nat
    decreases x + y
  {
    if x == 0 && y == 0 then 0
    else 2 * BitXor(x / 2, y / 2) + (if (x % 2 == 1) != (y % 2 == 1) then 1 else 0)
  }

  /** `~x` on an n-bit word. */
  function Complement(x: nat, n: nat): nat
    requires x < Pow2(n)
  {
    Pow2(n) - 1 - x
  }

  lemma {:induction false} OrBit(x: nat, y: nat, i: nat)
    ensures Bit(BitOr(x, y), i) <==> Bit(x, i) || Bit(y, i)
  {
    if x == 0 && y == 0 {
      ZeroNoBit(i);
    } else {
      var d := if x % 2 == 1 || y % 2 == 1 then 1 else 0;
      HalfOfDoublePlus(BitOr(x, y), BitOr(x / 2, y / 2), d);
      if i > 0 {
        OrBit(x / 2, y / 2, i - 1);
      }
    }
  }

  lemma {:induction false} AndBit(x: nat, y: nat, i: nat)
    ensures Bit(BitAnd(x, y), i) <==> Bit(x, i) && Bit(y, i)
  {
    if x == 0 || y == 0 {
      ZeroNoBit(i);
    } else {
      var d := if x % 2 == 1 && y % 2 == 1 then 1 else 0;
      HalfOfDoublePlus(BitAnd(x, y), BitAnd(x / 2, y / 2), d);
      if i > 0 {
        AndBit(x / 2, y / 2, i - 1);
      }
    }
  }

  lemma {:induction false} XorBit(x: nat, y: nat, i: nat)
    ensures Bit(BitXor(x, y), i) <==> Bit(x, i) != Bit(y, i)
  {
    if x == 0 && y == 0 {
      ZeroNoBit(i);
    } else {
      var d := if (x % 2 == 1) != (y % 2 == 1) then 1 else 0;
      HalfOfDoublePlus(BitXor(x, y), BitXor(x / 2, y / 2), d);
      if i > 0 {
        XorBit(x / 2, y / 2, i - 1);
      }
    }
  }

  /** `2h + d` with a bit d halves to h and has low bit d. */
  lemma HalfOfDoublePlus(v: nat, h: nat, d: nat)
    requires d < 2 && v == 2 * h + d
    ensures v / 2 == h && v % 2 == d
  {
    DivModUnique(v, h, d, 2);
  }

  lemma {:induction false} ZeroNoBit(i: nat)
    ensures !Bit(0, i)
  {
    if i > 0 {
      ZeroNoBit(i - 1);
    }
  }

  /** `1 << n` has exactly bit n. */
  lemma {:induction false} Pow2Bit(n: nat, i: nat)
    ensures Bit(Pow2(n), i) <==> n == i
  {
    if n == 0 {
      if i > 0 {
        ZeroNoBit(i - 1);
      }
    } else if i > 0 {
      Pow2Bit(n - 1, i - 1);
    }
  }

  /** A word below 2^n has no bit at n or above. */
  lemma {:induction false} BitsBelow(x: nat, n: nat, i: nat)
    requires x < Pow2(n) && n <= i
    ensures !Bit(x, i)
  {
    if n == 0 {
      ZeroNoBit(i);
    } else {
      BitsBelow(x / 2, n - 1, i - 1);
    }
  }

  lemma {:induction false} ComplementBit(x: nat, n: nat, i: nat)
    requires x < Pow2(n) && i < n
    ensures Bit(Complement(x, n), i) <==> !Bit(x, i)
  {
    if i > 0 {
      assert Complement(x, n) / 2 == Complement(x / 2, n - 1);
      ComplementBit(x / 2, n - 1, i - 1);
    }
  }

  lemma {:induction false} OrBound(x: nat, y: nat, n: nat)
    requires x < Pow2(n) && y < Pow2(n)
    ensures BitOr(x, y) < Pow2(n)
  {
    if n > 0 && !(x == 0 && y == 0) {
      OrBound(x / 2, y / 2, n - 1);
    }
  }

  lemma {:induction false} AndBound(x: nat, y: nat)
    ensures BitAnd(x, y) <= x && BitAnd(x, y) <= y
  {
    if x != 0 && y != 0 {
      AndBound(x / 2, y / 2);
    }
  }

  lemma {:induction false} XorBound(x: nat, y: nat, n: nat)
    requires x < Pow2(n) && y < Pow2(n)
    ensures BitXor(x, y) < Pow2(n)
  {
    if n > 0 && !(x == 0 && y == 0) {
      XorBound(x / 2, y / 2, n - 1);
    }
  }

  /** A nonzero word has a set bit. */
  lemma {:induction false} NonZeroHasBit(x: nat)
    requires x != 0
    ensures exists i: nat :: Bit(x, i)
  {
    if x % 2 == 0 {
      NonZeroHasBit(x / 2);
      var j: nat :| Bit(x / 2, j);
      assert Bit(x, j + 1);
    } else {
      assert Bit(x, 0);
    }
  }

  /** Two words with the same bits are the same word. */
  lemma {:induction false} BitsDetermine(x: nat, y: nat)
    requires forall i: nat :: Bit(x, i) <==> Bit(y, i)
    ensures x == y
    decreases x + y
  {
    assert Bit(x, 0) <==> Bit(y, 0);
    if x != 0 || y != 0 {
      forall i: nat ensures Bit(x / 2, i) <==> Bit(y / 2, i) {
        assert Bit(x, i + 1) <==> Bit(y, i + 1);
      }
      if x / 2 != x || y / 2 != y {
        BitsDetermine(x / 2, y / 2);
      }
    }
  }

  /** Bits of `2^k * y + c` for `c < 2^k`: the low k bits are c, the rest are y shifted up. */
  lemma {:induction false} ShiftedBits(y: nat, c: nat, k: nat, j: nat)
    requires c < Pow2(k)
    ensures Bit(Pow2(k) * y + c, j) <==> if j < k then Bit(c, j) else Bit(y, j - k)
  {
    if k > 0 {
      var x := Pow2(k) * y + c;
      assert Pow2(k) * y == 2 * (Pow2(k - 1) * y);
      assert x == 2 * (Pow2(k - 1) * y + c / 2) + c % 2;
      assert x / 2 == Pow2(k - 1) * y + c / 2 && x % 2 == c % 2;
      if j > 0 {
        ShiftedBits(y, c / 2, k - 1, j - 1);
      }
    }
  }

  /** Masking with `2^k - 1` keeps the k low bits: `x & (2^k - 1) == x % 2^k`. */
  lemma {:induction false} AndLowMask(x: nat, k: nat)
    ensures BitAnd(x, Pow2(k) - 1) == x % Pow2(k)
  {
    if k == 0 {
      assert BitAnd(x, 0) == 0;
    } else if x == 0 {
      assert BitAnd(0, Pow2(k) - 1) == 0;
    } else {
      AndLowMask(x / 2, k - 1);
      AndLowMaskStep(x, Pow2(k - 1), Pow2(k));
    }
  }

  /** The inductive step of `AndLowMask`, with `q == 2^k` and `p == 2^(k-1)`. */
  lemma AndLowMaskStep(x: nat, p: nat, q: nat)
    requires p >= 1 && q == 2 * p && x != 0
    requires BitAnd(x / 2, p - 1) == (x / 2) % p
    ensures BitAnd(x, q - 1) == x % q
  {
    AndLowStep(x, q - 1, p);
    HalfMod(x, p);
  }

  /** One bit of `x & (2p - 1)`: the low bit of x, then `(x / 2) & (p - 1)`. */
  lemma AndLowStep(x: nat, m: nat, p: nat)
    requires p >= 1 && m + 1 == 2 * p && x != 0
    ensures BitAnd(x, m) == 2 * BitAnd(x / 2, p - 1) + x % 2
  {
    DivModUnique(m, p - 1, 1, 2);
    assert x % 2 == 0 || x % 2 == 1;
  }

  lemma HalfMod(x: nat, p: nat)
    requires p >= 1
    ensures x % (2 * p) == 2 * ((x / 2) % p) + x % 2
  {
    var q := (x / 2) / p;
    var r := (x / 2) % p;
    assert x / 2 == q * p + r;
    assert x == 2 * (q * p + r) + x % 2;
    assert x == q * (2 * p) + (2 * r + x % 2);
    DivModUnique(x, q, 2 * r + x % 2, 2 * p);
  }

  /** `0 ^ x == x`. */
  lemma XorZero(x: nat)
    ensures BitXor(0, x) == x
  {
    forall i: nat ensures Bit(BitXor(0, x), i) <==> Bit(x, i) {
      XorBit(0, x, i);
      ZeroNoBit(i);
    }
    BitsDetermine(BitXor(0, x), x);
  }

  /** `x ^ y == y ^ x`. */
  lemma XorComm(x: nat, y: nat)
    ensures BitXor(x, y) == BitXor(y, x)
  {
    forall i: nat ensures Bit(BitXor(x, y), i) <==> Bit(BitXor(y, x), i) {
      XorBit(x, y, i);
      XorBit(y, x, i);
    }
    BitsDetermine(BitXor(x, y), BitXor(y, x));
  }

  /** `(a ^ b) ^ c == a ^ (b ^ c)`. */
  lemma XorAssoc(a: nat, b: nat, c: nat)
    ensures BitXor(BitXor(a, b), c) == BitXor(a, BitXor(b, c))
  {
    forall i: nat ensures Bit(BitXor(BitXor(a, b), c), i) <==> Bit(BitXor(a, BitXor(b, c)), i) {
      XorBit(BitXor(a, b), c, i);
      XorBit(a, b, i);
      XorBit(a, BitXor(b, c), i);
      XorBit(b, c, i);
    }
    BitsDetermine(BitXor(BitXor(a, b), c), BitXor(a, BitXor(b, c)));
  }

  /** Shifting both operands left by one and setting bit 0 of one of them shifts the xor. */
  lemma XorDouble(x: nat, y: nat, b: nat)
    requires b < 2
    ensures BitXor(2 * x + b, 2 * y) == 2 * BitXor(x, y) + b
  {
    if !(2 * x + b == 0 && 2 * y == 0) {
      assert (2 * x + b) / 2 == x && (2 * x + b) % 2 == b;
      assert (2 * y) / 2 == y && (2 * y) % 2 == 0;
    }
  }

  /** Xor with the all-ones k-bit mask complements a k-bit word. */
  lemma {:induction false} XorAllOnes(x: nat, k: nat)
    requires x < Pow2(k)
    ensures BitXor(x, Pow2(k) - 1) == Pow2(k) - 1 - x
  {
    if k > 0 {
      var m := Pow2(k) - 1;
      assert m == 2 * (Pow2(k - 1) - 1) + 1;
      assert m / 2 == Pow2(k - 1) - 1 && m % 2 == 1;
      XorAllOnes(x / 2, k - 1);
      assert BitXor(x, m) == 2 * BitXor(x / 2, m / 2) + (if x % 2 == 1 then 0 else 1);
    }
  }

  /** Xor acts on the bits above k alone when only one operand has bits below k. */
  lemma {:induction false} XorShifted(x: nat, y: nat, low: nat, k: nat)
    requires low < Pow2(k)
    ensures BitXor(Pow2(k) * x + low, Pow2(k) * y) == Pow2(k) * BitXor(x, y) + low
  {
    if k > 0 {
      var p := Pow2(k - 1);
      var z := BitXor(x, y);
      ShiftedHalves(Pow2(k), p, x, y, z, low);
      XorDouble(p * x + low / 2, p * y, low % 2);
      XorShifted(x, y, low / 2, k - 1);
    }
  }

  /** The arithmetic of one step of `XorShifted`. */
  lemma ShiftedHalves(q: nat, p: nat, x: nat, y: nat, z: nat, low: nat)
    requires q == 2 * p && low < q
    ensures low / 2 < p
    ensures q * x + low == 2 * (p * x + low / 2) + low % 2
    ensures q * y == 2 * (p * y)
    ensures q * z + low == 2 * (p * z + low / 2) + low % 2
  {
  }
}
