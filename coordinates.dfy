/**
 * Board coordinates (movegen/coordinates.h): the eight compass directions
 * with their square offsets, the file constants and the file masks.
 * Square s lies on file s % 8 and rank s / 8 (a1 = 0, h1 = 7, a8 = 56).
 */
module Coordinates {
  import opened IntMath
  import opened Bits

  /** `Direction::underlying`, an `int8_t` enumeration. */
  datatype Direction =
    | North | East | South | West
    | NorthEast | SouthEast | SouthWest | NorthWest

  /** The enumerator's value: the change of square index for one step. */
  function Offset(d: Direction): (r: Int8)
    ensures r == 8 * RankDelta(d) + FileDelta(d)
  {
    match d
    case North => 8
    case East => 1
    case South => -8
    case West => -1
    case NorthEast => 8 + 1
    case SouthEast => -8 + 1
    case SouthWest => -8 - 1
    case NorthWest => 8 - 1
  }

  /** Ranks moved by one step. */
  function RankDelta(d: Direction): int
  {
    match d
    case North | NorthEast | NorthWest => 1
    case South | SouthEast | SouthWest => -1
    case East | West => 0
  }

  /** Files moved by one step. */
  function FileDelta(d: Direction): int
  {
    match d
    case East | NorthEast | SouthEast => 1
    case West | NorthWest | SouthWest => -1
    case North | South => 0
  }

  /** The direction pointing the other way. */
  function Opposite(d: Direction): Direction
  {
    match d
    case North => South
    case South => North
    case East => West
    case West => East
    case NorthEast => SouthWest
    case SouthWest => NorthEast
    case NorthWest => SouthEast
    case SouthEast => NorthWest
  }

  /** Opposite directions cancel and `Opposite` is an involution. */
  lemma OppositeCancels(d: Direction)
    ensures Offset(Opposite(d)) == -Offset(d)
    ensures Opposite(Opposite(d)) == d
    ensures Opposite(d) != d
  {
  }

  /** The diagonals are the sums of their two components, as the enumeration defines them. */
  lemma DiagonalsCompose()
    ensures Offset(NorthEast) == Offset(North) + Offset(East)
    ensures Offset(SouthEast) == Offset(South) + Offset(East)
    ensures Offset(SouthWest) == Offset(South) + Offset(West)
    ensures Offset(NorthWest) == Offset(North) + Offset(West)
  {
  }

  /**
   * A step that stays on the board without wrapping around a side moves
   * exactly RankDelta ranks and FileDelta files.
   */
  lemma StepMovesRankAndFile(sq: int, d: Direction)
    requires 0 <= sq < 64
    requires 0 <= sq / 8 + RankDelta(d) < 8 && 0 <= sq % 8 + FileDelta(d) < 8
    ensures 0 <= sq + Offset(d) < 64
    ensures (sq + Offset(d)) / 8 == sq / 8 + RankDelta(d)
    ensures (sq + Offset(d)) % 8 == sq % 8 + FileDelta(d)
  {
    var r, f := sq / 8 + RankDelta(d), sq % 8 + FileDelta(d);
    assert sq + Offset(d) == 8 * r + f;
    DivModUnique(sq + Offset(d), r, f, 8);
  }

  const FILE_A: nat := 0
  const FILE_B: nat := 1
  const FILE_C: nat := 2
  const FILE_D: nat := 3
  const FILE_E: nat := 4
  const FILE_F: nat := 5
  const FILE_G: nat := 6
  const FILE_H: nat := 7

  /** `0x0101010101010101`: one bit per rank on file A. */
  const FILE_A_BITS: nat := 0x0101_0101_0101_0101

  /** n bytes each equal to 1. */
  function RepeatedOnes(n: nat): nat
  {
    if n == 0 then 0 else 1 + 256 * RepeatedOnes(n - 1)
  }

  lemma {:induction false} RepeatedOnesBits(n: nat, j: nat)
    ensures Bit(RepeatedOnes(n), j) <==> j < 8 * n && j % 8 == 0
  {
    if n == 0 {
      ZeroNoBit(j);
    } else {
      assert Pow2(8) == 256;
      ShiftedBits(RepeatedOnes(n - 1), 1, 8, j);
      if j < 8 {
        Pow2Bit(0, j);
      } else {
        RepeatedOnesBits(n - 1, j - 8);
      }
    }
  }

  /** File A's mask has exactly the squares 0, 8, .., 56. */
  lemma FileABits(j: nat)
    ensures Bit(FILE_A_BITS, j) <==> j < 64 && j % 8 == 0
  {
    assert RepeatedOnes(8) == FILE_A_BITS;
    RepeatedOnesBits(8, j);
  }

  /** `File::toBitboard(file)`: `0x0101010101010101 << file`. */
  function FileMask(file: nat): (m: UInt64)
    requires file < 8
    ensures forall j: nat :: Bit(m, j) <==> j < 64 && j % 8 == file
  {
    Pow2AtMost(file, 7);
    assert Pow2(7) == 128;
    var m := Pow2(file) * FILE_A_BITS + 0;
    forall j: nat ensures Bit(m, j) <==> j < 64 && j % 8 == file {
      ShiftedBits(FILE_A_BITS, 0, file, j);
      if j < file {
        ZeroNoBit(j);
      } else {
        FileABits(j - file);
      }
    }
    m
  }

  /** Distinct files share no square. */
  lemma FilesDisjoint(f: nat, g: nat)
    requires f < 8 && g < 8 && f != g
    ensures BitAnd(FileMask(f), FileMask(g)) == 0
  {
    forall i: nat ensures Bit(BitAnd(FileMask(f), FileMask(g)), i) <==> Bit(0, i) {
      AndBit(FileMask(f), FileMask(g), i);
      ZeroNoBit(i);
    }
    BitsDetermine(BitAnd(FileMask(f), FileMask(g)), 0);
  }

  /** Every square lies on the file of its index modulo 8. */
  lemma SquareOnItsFile(sq: nat)
    requires sq < 64
    ensures Bit(FileMask(sq % 8), sq)
  {
  }
}
