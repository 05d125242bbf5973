/**
 * The history heuristics: a quiet-move table indexed by side, moved piece
 * and target square; a continuation table indexed by the previous move's
 * piece and target and the current move's piece and target; and a pawn
 * correction table indexed by side and the low 14 bits of the pawn key.
 * Updates follow the "gravity" rule, which keeps every entry within the
 * divisor as long as the bonuses are.
 */
module HistoryTables {
  import opened IntMath
  import opened Bits
  import opened ChessTypes
  import opened SquareSets

  /** The two divisors fixed by `DEFINE_PARAM_B` without tuning, and the correction divisor. */
  const QUIET_HISTORY_DIV: int := 28000
  const CONTINUATION_HISTORY_DIV: int := 28000
  const CORRECTION_VALUE_DIV: int := 30

  /** `pawnCorrectionHistorySize`. */
  const PAWN_CORRECTION_SIZE: nat := 16384

  /** The two fields of a search stack frame the history tables read. */
  datatype StackEntry = StackEntry(previousMovedPiece: PieceType, previousMove: Move)

  // ---------------------------------------------------------------------------
  // Gravity

  lemma MulMonotone(x: int, y: int, c: int)
    requires x <= y && c >= 0
    ensures x * c <= y * c
  {
    assert y * c - x * c == (y - x) * c;
  }

  /** The quiet and pawn-correction rule: `entry += bonus - entry * |bonus| / div`. */
  function HistoryGravity(entry: int, bonus: int, div: int): (r: int)
    requires div != 0
    ensures bonus == 0 ==> r == entry
    ensures entry == 0 ==> r == bonus
  {
    entry + (bonus - TruncDiv(entry * Abs(bonus), div))
  }

  /** The continuation rule: `entry += (bonus - entry) * |bonus| / div`. */
  function ContinuationGravity(entry: int, bonus: int, div: int): (r: int)
    requires div != 0
    ensures entry == bonus ==> r == entry
  {
    entry + TruncDiv((bonus - entry) * Abs(bonus), div)
  }

  /** An integer whose multiple by `d > 0` lies strictly between `(-b - 1) * d` and `(b + 1) * d` is within b. */
  lemma WithinFromMultiple(n: int, d: int, b: int)
    requires d > 0 && (-b - 1) * d < n * d < (b + 1) * d
    ensures -b <= n <= b
  {
    if n > b {
      MulMonotone(b + 1, n, d);
    } else if n < -b {
      MulMonotone(n, -b - 1, d);
    }
  }

  /** The updated entry times the divisor, split into the parts that are bounded separately. */
  lemma GravityTimesDivisor(entry: int, bonus: int, div: int)
    requires div > 0
    ensures var q := TruncDiv(entry * Abs(bonus), div);
            HistoryGravity(entry, bonus, div) * div ==
              entry * (div - Abs(bonus)) + bonus * div + (entry * Abs(bonus) - q * div)
  {
    var a := Abs(bonus);
    var q := TruncDiv(entry * a, div);
    var n := entry + bonus - q;
    assert n * div == entry * div + bonus * div - q * div;
    assert entry * (div - a) == entry * div - entry * a;
  }

  /** If the entry and the bonus lie within the divisor, so does the updated entry. */
  lemma GravityBounded(entry: int, bonus: int, div: int)
    requires div > 0 && Abs(entry) <= div && Abs(bonus) <= div
    ensures Abs(HistoryGravity(entry, bonus, div)) <= div
  {
    var a := Abs(bonus);
    var rem := entry * a - TruncDiv(entry * a, div) * div;
    var n := HistoryGravity(entry, bonus, div);
    GravityTimesDivisor(entry, bonus, div);
    assert -div < rem < div;
    ProductBounds(entry, bonus, a, div);
    SquareSplit(div, a);
    WithinFromMultiple(n, div, div);
  }

  lemma ProductBounds(entry: int, bonus: int, a: int, div: int)
    requires div > 0 && -div <= entry <= div && -a <= bonus <= a && 0 <= a <= div
    ensures -(div * (div - a)) <= entry * (div - a) <= div * (div - a)
    ensures -(a * div) <= bonus * div <= a * div
  {
    MulMonotone(entry, div, div - a);
    MulMonotone(-div, entry, div - a);
    MulMonotone(bonus, a, div);
    MulMonotone(-a, bonus, div);
  }

  lemma SquareSplit(div: int, a: int)
    ensures div * (div - a) + a * div == div * div
    ensures (div + 1) * div == div * div + div
    ensures (-div - 1) * div == -(div * div) - div
  {
  }

  /** `g * a / d` truncated, for `0 <= a <= d`, lies between 0 and g. */
  lemma ScaledTowardZero(g: int, a: int, d: int)
    requires d > 0 && 0 <= a <= d
    ensures g >= 0 ==> 0 <= TruncDiv(g * a, d) <= g
    ensures g <= 0 ==> g <= TruncDiv(g * a, d) <= 0
  {
    var q := TruncDiv(g * a, d);
    if g >= 0 {
      MulMonotone(0, g, a);
      MulMonotone(a, d, g);
      TruncDivSign(g * a, d);
      if q > g {
        MulMonotone(g + 1, q, d);
      }
    } else {
      MulMonotone(0, -g, a);
      MulMonotone(a, d, -g);
      TruncDivSign(g * a, d);
      if q < g {
        MulMonotone(q, g - 1, d);
      }
    }
  }

  /** The continuation rule moves the entry toward the bonus and never past it. */
  lemma ContinuationGravityBetween(entry: int, bonus: int, div: int)
    requires div > 0 && Abs(bonus) <= div
    ensures Min(entry, bonus) <= ContinuationGravity(entry, bonus, div) <= Max(entry, bonus)
  {
    ScaledTowardZero(bonus - entry, Abs(bonus), div);
  }

  /** Hence the continuation rule keeps entries within the divisor. */
  lemma ContinuationGravityBounded(entry: int, bonus: int, div: int)
    requires div > 0 && Abs(entry) <= div && Abs(bonus) <= div
    ensures Abs(ContinuationGravity(entry, bonus, div)) <= div
  {
    ContinuationGravityBetween(entry, bonus, div);
  }

  // ---------------------------------------------------------------------------
  // The pawn key

  /**
   * `getPieceKey`: the XOR of the Zobrist keys of the given squares, where
   * `zobrist(sq)` is the library's key for the piece standing on `sq`.  The
   * squares are taken lowest first, as `Bitboard::pop` yields them.
   */
  function PieceKey(squares: set<Square>, zobrist: Square -> UInt64): (k: UInt64)
    decreases |squares|
  {
    if squares == {} then 0
    else
      var sq := Lowest(squares);
      var rest := PieceKey(squares - {sq}, zobrist);
      Pow2Is2To64();
      XorBound(zobrist(sq), rest, 64);
      BitXor(zobrist(sq), rest)
  }

  /** The pop order does not matter: any square can be folded in first. */
  lemma {:induction false} PieceKeyAnyOrder(squares: set<Square>, zobrist: Square -> UInt64, x: Square)
    requires x in squares
    ensures PieceKey(squares, zobrist) == BitXor(zobrist(x), PieceKey(squares - {x}, zobrist))
    decreases |squares|
  {
    var m := Lowest(squares);
    if x != m {
      var r := PieceKey(squares - {m} - {x}, zobrist);
      PieceKeyAnyOrder(squares - {m}, zobrist, x);
      assert squares - {m} - {x} == squares - {x} - {m};
      LowestAfterRemoving(squares, x);
      calc {
        PieceKey(squares, zobrist);
        BitXor(zobrist(m), BitXor(zobrist(x), r));
        { XorAssoc(zobrist(m), zobrist(x), r); XorComm(zobrist(m), zobrist(x));
          XorAssoc(zobrist(x), zobrist(m), r); }
        BitXor(zobrist(x), BitXor(zobrist(m), r));
        BitXor(zobrist(x), PieceKey(squares - {x}, zobrist));
      }
    }
  }

  /** Adding the same square twice cancels: the key of a set with one more square. */
  lemma PieceKeyToggle(squares: set<Square>, zobrist: Square -> UInt64, x: Square)
    requires x !in squares
    ensures BitXor(zobrist(x), PieceKey(squares + {x}, zobrist)) == PieceKey(squares, zobrist)
  {
    PieceKeyAnyOrder(squares + {x}, zobrist, x);
    assert squares + {x} - {x} == squares;
    var k := PieceKey(squares, zobrist);
    XorAssoc(zobrist(x), zobrist(x), k);
    forall i: nat ensures !Bit(BitXor(zobrist(x), zobrist(x)), i) {
      XorBit(zobrist(x), zobrist(x), i);
    }
    if BitXor(zobrist(x), zobrist(x)) != 0 {
      NonZeroHasBit(BitXor(zobrist(x), zobrist(x)));
    }
    XorZero(k);
  }

  /** `getPieceKey`: pop squares lowest first and XOR their keys together. */
  method GetPieceKey(squares: set<Square>, zobrist: Square -> UInt64) returns (key: UInt64)
    ensures key == PieceKey(squares, zobrist)
    ensures squares == {} ==> key == 0
  {
    key := 0;
    var bitboard := squares;
    XorZero(PieceKey(squares, zobrist));
    while bitboard != {}
      invariant bitboard <= squares
      invariant BitXor(key, PieceKey(bitboard, zobrist)) == PieceKey(squares, zobrist)
      decreases |bitboard|
    {
      var square := Lowest(bitboard);
      var rest := PieceKey(bitboard - {square}, zobrist);
      XorAssoc(key, zobrist(square), rest);
      Pow2Is2To64();
      XorBound(key, zobrist(square), 64);
      bitboard := bitboard - {square};
      key := BitXor(key, zobrist(square));
    }
    XorComm(key, 0);
    XorZero(key);
  }

  /** `pawnKey & (pawnCorrectionHistorySize - 1)`: the low 14 bits of the key. */
  function CorrectionIndex(pawnKey: UInt64): (i: nat)
    ensures i < PAWN_CORRECTION_SIZE
    ensures i == pawnKey % PAWN_CORRECTION_SIZE
  {
    assert Pow2(2) == 4 && Pow2(4) == 16 && Pow2(7) == 128 && Pow2(14) == 16384;
    AndLowMask(pawnKey, 14);
    BitAnd(pawnKey, PAWN_CORRECTION_SIZE - 1)
  }

  // ---------------------------------------------------------------------------
  // The tables

  /** `class History`, with every table dimensioned the way the code indexes it. */
  class History {
    /** quietHistory[side][moved piece][to] */
    const quiet: array3<int>
    /** continuationHistory[previous piece (NONE included)][previous to][piece][to] */
    const continuation: array4<int>
    /** pawnCorrectionHistory[side][pawn key & 16383] */
    const pawnCorrection: array2<int>

    predicate Valid()
    {
      quiet.Length0 == 2 && quiet.Length1 == 6 && quiet.Length2 == 64
      && continuation.Length0 == 7 && continuation.Length1 == 64
      && continuation.Length2 == 6 && continuation.Length3 == 64
      && pawnCorrection.Length0 == 2 && pawnCorrection.Length1 == PAWN_CORRECTION_SIZE
    }

    /** All entries zero. */
    predicate IsReset()
      requires Valid()
      reads quiet, continuation, pawnCorrection
    {
      (forall a, b, c | 0 <= a < 2 && 0 <= b < 6 && 0 <= c < 64 :: quiet[a, b, c] == 0)
      && (forall a, b, c, d | 0 <= a < 7 && 0 <= b < 64 && 0 <= c < 6 && 0 <= d < 64 ::
            continuation[a, b, c, d] == 0)
      && (forall a, b | 0 <= a < 2 && 0 <= b < PAWN_CORRECTION_SIZE :: pawnCorrection[a, b] == 0)
    }

    /** The tables of the static search object start out zero. */
    constructor ()
      ensures Valid() && IsReset()
      ensures fresh(quiet) && fresh(continuation) && fresh(pawnCorrection)
    {
      quiet := new int[2, 6, 64]((a, b, c) => 0);
      continuation := new int[7, 64, 6, 64]((a, b, c, d) => 0);
      pawnCorrection := new int[2, PAWN_CORRECTION_SIZE]((a, b) => 0);
    }

    /** `getQuietHistory`: the cell of the side to move, the moved piece and the target square. */
    function GetQuietHistory(side: Color, moved: Piece, move: Move): int
      requires Valid()
      reads quiet
    {
      quiet[side, moved, move.to]
    }

    /**
     * `updateQuietHistory`: apply the gravity rule to that one cell; all
     * other cells keep their values.
     */
    method UpdateQuietHistory(side: Color, moved: Piece, move: Move, bonus: int)
      requires Valid()
      modifies quiet
      ensures GetQuietHistory(side, moved, move)
           == HistoryGravity(old(GetQuietHistory(side, moved, move)), bonus, QUIET_HISTORY_DIV)
      ensures forall a, b, c | 0 <= a < 2 && 0 <= b < 6 && 0 <= c < 64 && (a, b, c) != (side, moved, move.to) ::
                quiet[a, b, c] == old(quiet[a, b, c])
    {
      quiet[side, moved, move.to] := HistoryGravity(GetQuietHistory(side, moved, move), bonus, QUIET_HISTORY_DIV);
    }

    /** `getContinuationHistory`: keyed by the move made at `stack[ply]` and the current move. */
    function GetContinuationHistory(piece: Piece, move: Move, ply: int, stack: seq<StackEntry>): int
      requires Valid() && 0 <= ply < |stack|
      reads continuation
    {
      continuation[stack[ply].previousMovedPiece, stack[ply].previousMove.to, piece, move.to]
    }

    /**
     * `updateContinuationHistory`: when a piece was moved at `ply - 1`, its
     * cell moves toward the bonus by the continuation rule; otherwise (and
     * for every other cell) nothing changes.
     */
    method UpdateContinuationHistory(piece: Piece, move: Move, bonus: int, ply: int, stack: seq<StackEntry>)
      requires Valid() && 1 <= ply <= |stack|
      modifies continuation
      ensures stack[ply - 1].previousMovedPiece != NONE ==>
                (GetContinuationHistory(piece, move, ply - 1, stack) ==
                 ContinuationGravity(old(GetContinuationHistory(piece, move, ply - 1, stack)), bonus,
                                     CONTINUATION_HISTORY_DIV))
      ensures stack[ply - 1].previousMovedPiece == NONE ==> unchanged(continuation)
      ensures var e := stack[ply - 1];
              forall a, b, c, d | 0 <= a < 7 && 0 <= b < 64 && 0 <= c < 6 && 0 <= d < 64
                                  && (a, b, c, d) != (e.previousMovedPiece, e.previousMove.to, piece, move.to) ::
                continuation[a, b, c, d] == old(continuation[a, b, c, d])
    {
      var gravity := bonus - GetContinuationHistory(piece, move, ply - 1, stack);
      var scaledBonus := TruncDiv(gravity * Abs(bonus), CONTINUATION_HISTORY_DIV);
      if stack[ply - 1].previousMovedPiece != NONE {
        var e := stack[ply - 1];
        continuation[e.previousMovedPiece, e.previousMove.to, piece, move.to] :=
          continuation[e.previousMovedPiece, e.previousMove.to, piece, move.to] + scaledBonus;
      }
    }

    /**
     * `updatePawnCorrectionHistory`: the gravity rule with the caller's
     * divisor on the cell of the side to move and the pawn key's low bits.
     */
    method UpdatePawnCorrectionHistory(bonus: int, side: Color, pawns: set<Square>, zobrist: Square -> UInt64, div: int)
      requires Valid() && div != 0
      modifies pawnCorrection
      ensures var i := CorrectionIndex(PieceKey(pawns, zobrist));
              pawnCorrection[side, i] == HistoryGravity(old(pawnCorrection[side, i]), bonus, div)
              && forall a, b | 0 <= a < 2 && 0 <= b < PAWN_CORRECTION_SIZE && (a, b) != (side, i) ::
                   pawnCorrection[a, b] == old(pawnCorrection[a, b])
    {
      var pawnHash := GetPieceKey(pawns, zobrist);
      var i := CorrectionIndex(pawnHash);
      var scaledBonus := bonus - TruncDiv(pawnCorrection[side, i] * Abs(bonus), div);
      pawnCorrection[side, i] := pawnCorrection[side, i] + scaledBonus;
    }

    /**
     * `correctEval`: the raw evaluation plus the correction entry divided by
     * 30 (truncating); the correction has the entry's sign and at most a
     * thirtieth of its size.
     */
    function CorrectEval(rawEval: int, side: Color, pawns: set<Square>, zobrist: Square -> UInt64): (r: int)
      requires Valid()
      reads pawnCorrection
      ensures var e := pawnCorrection[side, CorrectionIndex(PieceKey(pawns, zobrist))];
              Abs(r - rawEval) <= Abs(e) / CORRECTION_VALUE_DIV
              && (e >= 0 ==> r >= rawEval) && (e <= 0 ==> r <= rawEval)
    {
      var pawnEntry := pawnCorrection[side, CorrectionIndex(PieceKey(pawns, zobrist))];
      TruncDivSign(pawnEntry, CORRECTION_VALUE_DIV);
      rawEval + TruncDiv(pawnEntry, CORRECTION_VALUE_DIV)
    }

    /** `resetHistorys`: zero all three tables. */
    method ResetHistories()
      requires Valid()
      modifies quiet, continuation, pawnCorrection
      ensures IsReset()
    {
      forall a, b, c | 0 <= a < 2 && 0 <= b < 6 && 0 <= c < 64 {
        quiet[a, b, c] := 0;
      }
      forall a, b, c, d | 0 <= a < 7 && 0 <= b < 64 && 0 <= c < 6 && 0 <= d < 64 {
        continuation[a, b, c, d] := 0;
      }
      forall a, b | 0 <= a < 2 && 0 <= b < PAWN_CORRECTION_SIZE {
        pawnCorrection[a, b] := 0;
      }
    }
  }

  /** Entries written through the two updates stay within the divisor for bounded bonuses. */
  lemma QuietEntriesStayBounded(entry: int, bonus: int)
    requires Abs(entry) <= QUIET_HISTORY_DIV && Abs(bonus) <= QUIET_HISTORY_DIV
    ensures Abs(HistoryGravity(entry, bonus, QUIET_HISTORY_DIV)) <= QUIET_HISTORY_DIV
  {
    GravityBounded(entry, bonus, QUIET_HISTORY_DIV);
  }

  // ---------------------------------------------------------------------------
  // The tables as declared

  /**
   * The header declares continuationHistory as [64][6][64][6] and
   * pawnCorrectionHistory as [16384][2], the transpose of how the code
   * indexes them.  As flat memory, the declared shape places cell [a][b] of
   * the pawn table at offset 2a + b and cell [a][b][c][d] of the
   * continuation table at offset 2304a + 384b + 6c + d.
   */
  function DeclaredPawnOffset(side: int, index: int): int
  {
    side * 2 + index
  }

  function DeclaredContinuationOffset(a: int, b: int, c: int, d: int): int
  {
    a * 2304 + b * 384 + c * 6 + d
  }

  /** The pawn-correction update as written, on flat memory of the declared shape. */
  function DeclaredPawnUpdate(mem: seq<int>, side: int, index: int, bonus: int, div: int): (r: seq<int>)
    requires div != 0 && 0 <= DeclaredPawnOffset(side, index) < |mem|
    ensures |r| == |mem|
  {
    var o := DeclaredPawnOffset(side, index);
    mem[o := HistoryGravity(mem[o], bonus, div)]
  }

  /**
   * With the declared shape, the black cell for index 0 and the white cell
   * for index 2 are the same memory: in a zeroed table, a black update of
   * index 0 by 100 turns the correction white reads at index 2 from 0 to 100.
   */
  lemma DeclaredPawnTableAliases()
    ensures DeclaredPawnOffset(BLACK, 0) == DeclaredPawnOffset(WHITE, 2)
    ensures var mem := seq(2 * PAWN_CORRECTION_SIZE, _ => 0);
            var r := DeclaredPawnUpdate(mem, BLACK, 0, 100, 768);
            mem[DeclaredPawnOffset(WHITE, 2)] == 0 && r[DeclaredPawnOffset(WHITE, 2)] == 100
  {
  }

  /** The continuation cells (0, 0, 1, 0) and (0, 0, 0, 6) share memory in the declared shape. */
  lemma DeclaredContinuationTableAliases()
    ensures DeclaredContinuationOffset(PAWN, 0, KNIGHT, 0) == DeclaredContinuationOffset(PAWN, 0, PAWN, 6)
  {
  }
}
