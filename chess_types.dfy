/**
 * The vocabulary the engine takes from its external chess library: colours,
 * piece types, squares and moves.  Only what the modelled code reads is kept.
 */
module ChessTypes {

  /** Color::WHITE = 0, Color::BLACK = 1. */
  type Color = c: int | 0 <= c < 2
  const WHITE: Color := 0
  const BLACK: Color := 1

  /** `~color`. */
  function Opponent(c: Color): (r: Color)
    ensures r != c
  {
    1 - c
  }

  /** PieceType::PAWN .. PieceType::KING are 0 .. 5; PieceType::NONE is 6. */
  type PieceType = p: int | 0 <= p <= 6
  const PAWN: PieceType := 0
  const KNIGHT: PieceType := 1
  const BISHOP: PieceType := 2
  const ROOK: PieceType := 3
  const QUEEN: PieceType := 4
  const KING: PieceType := 5
  const NONE: PieceType := 6

  /** A real piece (not NONE). */
  type Piece = p: PieceType | p < 6

  /** Square indices a1 = 0 .. h8 = 63. */
  type Square = s: int | 0 <= s < 64

  datatype MoveKind = Normal | Promotion | EnPassant | Castling

  /** A move: from- and to-square, its special kind and the promotion piece. */
  datatype Move = Move(from: Square, to: Square, kind: MoveKind, promotion: PieceType)

  /** The library's `Move::NO_MOVE` (16-bit code 0: the all-zero move). */
  const NO_MOVE: Move := Move(0, 0, Normal, KNIGHT)

  /** The library's `Move::NULL_MOVE`: a stand-in move distinct from `NO_MOVE`. */
  const NULL_MOVE: Move := Move(1, 1, Normal, KNIGHT)
}
