/**
 * The engine's `Bitboard` (movegen/bitboard.h): a set of squares held as one
 * unsigned 64-bit word, bit i standing for square i. Square indices are
 * `uint8_t` in the source; every operation requires an index below 64,
 * since shifting `1ULL` by 64 or more is undefined in C++.
 */
module Bitboards {
  import opened IntMath
  import opened Bits

  /** `1ULL << index`: the word holding exactly square `index`. */
  function Mask(index: nat): (m: UInt64)
    requires index < 64
    ensures forall i: nat :: Bit(m, i) <==> i == index
  {
    Pow2Monotonic(index, 64);
    Pow2Is2To64();
    forall i: nat ensures Bit(Pow2(index), i) <==> i == index {
      Pow2Bit(index, i);
    }
    Pow2(index)
  }

  /** `~m` on a 64-bit word. */
  function Not64(m: UInt64): (r: UInt64)
    ensures forall i: nat :: i < 64 ==> (Bit(r, i) <==> !Bit(m, i))
    ensures forall i: nat :: 64 <= i ==> !Bit(r, i)
  {
    Pow2Is2To64();
    forall i: nat ensures i < 64 ==> (Bit(Complement(m, 64), i) <==> !Bit(m, i)) {
      if i < 64 {
        ComplementBit(m, 64, i);
      }
    }
    forall i: nat ensures 64 <= i ==> !Bit(Complement(m, 64), i) {
      if 64 <= i {
        BitsBelow(Complement(m, 64), 64, i);
      }
    }
    Complement(m, 64)
  }

  /** `x | y` on 64-bit words: the union of the square sets. */
  function Or64(x: UInt64, y: UInt64): (r: UInt64)
    ensures forall i: nat :: Bit(r, i) <==> Bit(x, i) || Bit(y, i)
  {
    Pow2Is2To64();
    OrBound(x, y, 64);
    forall i: nat ensures Bit(BitOr(x, y), i) <==> Bit(x, i) || Bit(y, i) {
      OrBit(x, y, i);
    }
    BitOr(x, y)
  }

  /** `x & y` on 64-bit words: the intersection of the square sets. */
  function And64(x: UInt64, y: UInt64): (r: UInt64)
    ensures forall i: nat :: Bit(r, i) <==> Bit(x, i) && Bit(y, i)
  {
    AndBound(x, y);
    forall i: nat ensures Bit(BitAnd(x, y), i) <==> Bit(x, i) && Bit(y, i) {
      AndBit(x, y, i);
    }
    BitAnd(x, y)
  }

  /**
   * The n low bits of x as binary digits, most significant first; with
   * n = 64 this is `std::bitset<64>(x).to_string()`.
   */
  function Digits(x: nat, n: nat): (s: string)
    ensures |s| == n
  {
    if n == 0 then "" else Digits(x / 2, n - 1) + [if x % 2 == 1 then '1' else '0']
  }

  /** Digit n-1-k of the text is bit k of the word. */
  lemma {:induction false} DigitAt(x: nat, n: nat, k: nat)
    requires k < n
    ensures Digits(x, n)[n - 1 - k] == if Bit(x, k) then '1' else '0'
  {
    if k > 0 {
      DigitAt(x / 2, n - 1, k - 1);
      assert Digits(x, n) == Digits(x / 2, n - 1) + [if x % 2 == 1 then '1' else '0'];
    }
  }

  /** Reads binary digits back into a number. */
  function ParseDigits(s: string): nat
  {
    if s == [] then 0 else 2 * ParseDigits(s[..|s| - 1]) + (if s[|s| - 1] == '1' then 1 else 0)
  }

  /** Reading the digits back gives the n low bits. */
  lemma {:induction false} ParseDigitsLow(x: nat, n: nat)
    ensures ParseDigits(Digits(x, n)) == x % Pow2(n)
  {
    if n > 0 {
      var s := Digits(x, n);
      assert s[..|s| - 1] == Digits(x / 2, n - 1);
      ParseDigitsLow(x / 2, n - 1);
      HalfMod(x, Pow2(n - 1));
    }
  }

  /** The width of a bitboard word. */
  const WIDTH: nat := 64

  /** The text of `to_string()` determines the word: reading it back gives the word. */
  lemma ParseBinaryString(x: UInt64)
    ensures ParseDigits(Digits(x, WIDTH)) == x
  {
    ParseDigitsLow(x, WIDTH);
    Pow2Is2To64();
    DivModUnique(x, 0, x, Pow2(WIDTH));
  }

  /** Line r (0-based) of `Bitboard::str()`: eight digits, a space, the number r+1, a newline. */
  function StrLine(x: nat, r: nat): (line: string)
    requires r < 8
    ensures |line| == 11
    ensures line[..8] == Digits(x, 64)[8 * r..8 * r + 8]
    ensures line[8..] == " " + [(('1' as int) + r) as char] + "\n"
  {
    Digits(x, 64)[8 * r..8 * r + 8] + " " + [(('1' as int) + r) as char] + "\n"
  }

  /** The first n lines of `Bitboard::str()`. */
  function StrLines(x: nat, n: nat): string
    requires n <= 8
  {
    if n == 0 then "" else StrLines(x, n - 1) + StrLine(x, n - 1)
  }

  lemma {:induction false} StrLinesLength(x: nat, n: nat)
    requires n <= 8
    ensures |StrLines(x, n)| == 11 * n
  {
    if n > 0 {
      StrLinesLength(x, n - 1);
    }
  }

  /** Line r of the text occupies characters 11r .. 11r+10. */
  lemma {:induction false} StrLinesAt(x: nat, n: nat, r: nat)
    requires r < n <= 8
    ensures |StrLines(x, n)| == 11 * n
    ensures StrLines(x, n)[11 * r..11 * r + 11] == StrLine(x, r)
  {
    StrLinesLength(x, n);
    StrLinesLength(x, n - 1);
    assert StrLines(x, n) == StrLines(x, n - 1) + StrLine(x, n - 1);
    if r < n - 1 {
      StrLinesAt(x, n - 1, r);
    }
  }

  /** The engine's `Bitboard`: one 64-bit word updated in place. */
  class Bitboard {
    var bits: UInt64

    /** `Bitboard()`: the empty set. */
    constructor Empty()
      ensures bits == 0
    {
      bits := 0;
    }

    /** `Bitboard(newBits)`. */
    constructor (newBits: UInt64)
      ensures bits == newBits
    {
      bits := newBits;
    }

    /** `check(index)`: whether `bits & (1ULL << index)` is nonzero, i.e. the square is in the set. */
    function Check(index: nat): (r: bool)
      requires index < 64
      reads this
      ensures r <==> Bit(bits, index)
    {
      var m := And64(bits, Mask(index));
      if m == 0 then
        ZeroNoBit(index);
        false
      else
        NonZeroHasBit(m);
        true
    }

    /** `getBits()`. */
    function GetBits(): (r: UInt64)
      reads this
      ensures forall i: nat :: i < 64 ==> (Bit(r, i) <==> Check(i))
    {
      bits
    }

    /** `getFromSquare(index)`: the set cut down to one square. */
    function GetFromSquare(index: nat): (r: UInt64)
      requires index < 64
      reads this
      ensures forall i: nat :: Bit(r, i) <==> i == index && Check(index)
    {
      And64(bits, Mask(index))
    }

    /** `clear(index)`: remove one square and keep every other. */
    method ClearSquare(index: nat)
      requires index < 64
      modifies this
      ensures bits == And64(old(bits), Not64(Mask(index)))
      ensures forall i: nat :: Bit(bits, i) <==> i != index && Bit(old(bits), i)
    {
      bits := And64(bits, Not64(Mask(index)));
      forall i: nat ensures Bit(bits, i) <==> i != index && Bit(old(bits), i) {
        if 64 <= i {
          Pow2Is2To64();
          BitsBelow(old(bits), 64, i);
        }
      }
    }

    /** `clear()`: empty the set. */
    method Clear()
      modifies this
      ensures bits == 0
      ensures forall i: nat :: !Bit(bits, i)
    {
      bits := 0;
      forall i: nat ensures !Bit(bits, i) {
        ZeroNoBit(i);
      }
    }

    /** `set(index)`: add one square and keep every other. */
    method Set(index: nat)
      requires index < 64
      modifies this
      ensures bits == Or64(old(bits), Mask(index))
      ensures forall i: nat :: Bit(bits, i) <==> i == index || Bit(old(bits), i)
    {
      bits := Or64(bits, Mask(index));
    }

    /** `operator|=`: union in place (also when `other` is this object). */
    method OrAssign(other: Bitboard)
      modifies this
      ensures bits == Or64(old(bits), old(other.bits))
      ensures forall i: nat :: Bit(bits, i) <==> Bit(old(bits), i) || Bit(old(other.bits), i)
    {
      bits := Or64(bits, other.bits);
    }

    /** `operator int()`: the word narrowed to a 32-bit `int`, modulo 2^32. */
    function ToInt(): (r: Int32)
      reads this
      ensures (bits - r) % TWO_32 == 0
    {
      ToInt32(bits)
    }

    /**
     * `str()`: eight lines of eight binary digits, most significant bit
     * first (see DigitAt), each followed by a space and its line number.
     */
    method Str() returns (s: string)
      ensures s == StrLines(bits, 8)
      ensures |s| == 88
      ensures forall r :: 0 <= r < 8 ==> s[11 * r..11 * r + 11] == StrLine(bits, r)
    {
      var bitset := Digits(bits, 64);
      s := "";
      var counter := 0;
      var i := 0;
      while i < 64
        invariant 0 <= i <= 64 && i % 8 == 0 && counter == i / 8
        invariant s == StrLines(bits, counter)
      {
        counter := counter + 1;
        s := s + bitset[i..i + 8] + " " + [(('1' as int) + counter - 1) as char] + "\n";
        i := i + 8;
      }
      StrLinesLength(bits, 8);
      forall r | 0 <= r < 8
        ensures s[11 * r..11 * r + 11] == StrLine(bits, r)
      {
        StrLinesAt(bits, 8, r);
      }
    }
  }
}
