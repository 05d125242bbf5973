/**
 * Move ordering: every move of the list gets a priority (hash move first,
 * then good captures, the killer, promotions, bad captures, and quiet
 * moves by their history), and the search picks moves one at a time by a
 * selection step that swaps the best remaining move to the front.
 */
module MoveOrdering {
  import opened IntMath
  import opened ChessTypes
  import opened Consts
  import opened Tune
  import opened StaticExchange
  import opened HistoryTables
  import opened Wrappers
  import TranspositionTable

  /** `mvaLvvMultiplyer`, fixed by `DEFINE_PARAM_S` to its start value. */
  const MVV_LVA_MULTIPLIER: int := 103

  /** What `orderMoves` reads from the board: its key, capture test, pieces and attacks. */
  datatype Position = Position(key: UInt64, board: Board, atk: AttackTables, isCapture: Move -> bool)

  /** The move of a table entry whose key matches the position. */
  predicate IsHashMove(pos: Position, entry: Option<TranspositionTable.Hash>, move: Move)
  {
    entry.Some? && entry.value.key == pos.key && move == entry.value.move
  }

  /** The capture rank: the exchange verdict, then most valuable victim, least valuable attacker. */
  function CaptureScore(pos: Position, move: Move): int
  {
    var captured := pos.board.pieceAt(move.to);
    var capturing := pos.board.pieceAt(move.from);
    (if See(pos.board, pos.atk, move, 0) then GOOD_CAPTURE else BAD_CAPTURE)
    + (MVV_LVA_MULTIPLIER * PIECE_VALUES[captured] - PIECE_VALUES[capturing])
  }

  /**
   * The score `orderMoves` gives `move`, where `prior` is the cell's value
   * before the call (only quiet moves add to it).
   */
  function MoveScore(h: History, pos: Position, entry: Option<TranspositionTable.Hash>, killer: Move,
                     ply: int, stack: seq<StackEntry>, move: Move, prior: int): int
    requires h.Valid() && 1 <= ply <= |stack| && pos.board.pieceAt(move.from) != NONE
    reads h.quiet, h.continuation
  {
    if IsHashMove(pos, entry, move) then HASH_MOVE_SCORE
    else if pos.isCapture(move) then CaptureScore(pos, move)
    else if move == killer then KILLER_SCORE
    else if move.kind == Promotion then PROMOTION_SCORE
    else
      var moved := pos.board.pieceAt(move.from);
      prior + (h.GetQuietHistory(pos.board.sideToMove, moved, move)
               + h.GetContinuationHistory(moved, move, ply - 1, stack))
  }

  /** The capture branch of `orderMoves`: the exchange verdict at threshold 0, then the piece values. */
  method ScoreCapture(pos: Position, move: Move) returns (captureScore: int)
    ensures captureScore == CaptureScore(pos, move)
  {
    var captured := pos.board.pieceAt(move.to);
    var capturing := pos.board.pieceAt(move.from);
    var seeGood, _ := StaticExchangeEvaluation(pos.board, pos.atk, move, 0);
    captureScore := if seeGood then GOOD_CAPTURE else BAD_CAPTURE;
    captureScore := captureScore + (MVV_LVA_MULTIPLIER * PIECE_VALUES[captured] - PIECE_VALUES[capturing]);
  }

  /**
   * `orderMoves`: scores[i] becomes the score of moves[i] for every move of
   * the list; the rest of the score buffer is left alone.  Quiet moves add
   * their history to what the cell held, so the caller zero-fills it.
   */
  method OrderMoves(h: History, moves: array<Move>, entry: Option<TranspositionTable.Hash>, pos: Position,
                    scores: array<int>, killer: Move, ply: int, stack: seq<StackEntry>)
    requires h.Valid() && 1 <= ply <= |stack| && moves.Length <= scores.Length
    requires forall i :: 0 <= i < moves.Length ==> pos.board.pieceAt(moves[i].from) != NONE
    modifies scores
    ensures forall i :: 0 <= i < moves.Length ==>
              scores[i] == MoveScore(h, pos, entry, killer, ply, stack, moves[i], old(scores[i]))
    ensures forall i :: moves.Length <= i < scores.Length ==> scores[i] == old(scores[i])
  {
    var isNullptr := entry.None?;
    for i := 0 to moves.Length
      invariant forall k :: 0 <= k < i ==>
                  scores[k] == MoveScore(h, pos, entry, killer, ply, stack, moves[k], old(scores[k]))
      invariant forall k :: i <= k < scores.Length ==> scores[k] == old(scores[k])
    {
      var move := moves[i];
      if !isNullptr {
        if entry.value.key == pos.key && move == entry.value.move {
          scores[i] := HASH_MOVE_SCORE;
          continue;
        }
      }
      if pos.isCapture(move) {
        scores[i] := ScoreCapture(pos, move);
      } else if move == killer {
        scores[i] := KILLER_SCORE;
      } else if move.kind == Promotion {
        scores[i] := PROMOTION_SCORE;
      } else {
        var moved := pos.board.pieceAt(move.from);
        scores[i] := scores[i] + (h.GetQuietHistory(pos.board.sideToMove, moved, move)
                                  + h.GetContinuationHistory(moved, move, ply - 1, stack));
      }
    }
  }

  // ---------------------------------------------------------------------------
  // Properties of the scores

  /**
   * The hash move gets the top rank, and no capture (of anything but a
   * king), killer or promotion reaches it.
   */
  lemma HashMoveFirst(h: History, pos: Position, entry: Option<TranspositionTable.Hash>, killer: Move,
                      ply: int, stack: seq<StackEntry>, move: Move, prior: int)
    requires h.Valid() && 1 <= ply <= |stack| && pos.board.pieceAt(move.from) != NONE
    ensures IsHashMove(pos, entry, move) ==> MoveScore(h, pos, entry, killer, ply, stack, move, prior) == HASH_MOVE_SCORE
    ensures !IsHashMove(pos, entry, move) && (pos.isCapture(move) || move == killer || move.kind == Promotion)
            && pos.board.pieceAt(move.to) != KING ==>
              MoveScore(h, pos, entry, killer, ply, stack, move, prior) < HASH_MOVE_SCORE
  {
    if pos.board.pieceAt(move.to) != KING {
      CaptureRanks(pos, move);
    }
  }

  /**
   * A capture other than the hash move scores by the exchange verdict and
   * the piece values; the killer rank needs a non-capture, the promotion
   * rank a move that is neither a capture nor the killer.
   */
  lemma RuleOrder(h: History, pos: Position, entry: Option<TranspositionTable.Hash>, killer: Move,
                  ply: int, stack: seq<StackEntry>, move: Move, prior: int)
    requires h.Valid() && 1 <= ply <= |stack| && pos.board.pieceAt(move.from) != NONE
    requires !IsHashMove(pos, entry, move)
    ensures pos.isCapture(move) ==>
              MoveScore(h, pos, entry, killer, ply, stack, move, prior) ==
              (if See(pos.board, pos.atk, move, 0) then 400000 else -500000)
              + 103 * PIECE_VALUES[pos.board.pieceAt(move.to)] - PIECE_VALUES[pos.board.pieceAt(move.from)]
    ensures !pos.isCapture(move) && move == killer ==> MoveScore(h, pos, entry, killer, ply, stack, move, prior) == 300000
    ensures !pos.isCapture(move) && move != killer && move.kind == Promotion ==>
              MoveScore(h, pos, entry, killer, ply, stack, move, prior) == 200000
  {
  }

  /**
   * With the default piece values, a capture the exchange approves of
   * (of anything but a king) ranks strictly between the killer and the
   * hash move, and one it disapproves of below every promotion.
   */
  lemma CaptureRanks(pos: Position, move: Move)
    requires pos.board.pieceAt(move.to) != KING
    ensures See(pos.board, pos.atk, move, 0) ==> KILLER_SCORE < CaptureScore(pos, move) < HASH_MOVE_SCORE
    ensures !See(pos.board, pos.atk, move, 0) ==> CaptureScore(pos, move) < PROMOTION_SCORE
  {
    PieceValuesTable();
    var captured := pos.board.pieceAt(move.to);
    var capturing := pos.board.pieceAt(move.from);
    assert 0 <= PIECE_VALUES[captured] <= 569;
    assert 0 <= PIECE_VALUES[capturing] <= 15000;
  }

  // ---------------------------------------------------------------------------
  // sortByScore

  /** The (move, score) pairs of a list and its score buffer. */
  function Pairs(moves: seq<Move>, scores: seq<int>): (r: seq<(Move, int)>)
    requires |moves| <= |scores|
    ensures |r| == |moves|
    ensures forall k :: 0 <= k < |moves| ==> r[k] == (moves[k], scores[k])
  {
    seq(|moves|, k requires 0 <= k < |moves| => (moves[k], scores[k]))
  }

  /** Swapping two positions keeps the multiset. */
  lemma SwapKeepsMultiset<T>(s: seq<T>, i: nat, j: nat)
    requires i < |s| && j < |s|
    ensures multiset(s[i := s[j]][j := s[i]]) == multiset(s)
  {
  }

  /** Swapping the same two positions of both lists keeps the multiset of their pairs. */
  lemma SwapKeepsPairs(ms: seq<Move>, ss: seq<int>, i: nat, j: nat)
    requires |ms| == |ss| && i < |ms| && j < |ms|
    ensures multiset(Pairs(ms[i := ms[j]][j := ms[i]], ss[i := ss[j]][j := ss[i]])) == multiset(Pairs(ms, ss))
  {
    var p := Pairs(ms, ss);
    assert Pairs(ms[i := ms[j]][j := ms[i]], ss[i := ss[j]][j := ss[i]]) == p[i := p[j]][j := p[i]];
    SwapKeepsMultiset(p, i, j);
  }

  /** `std::swap` of positions i and j in both lists. */
  method SwapEntries(moves: array<Move>, scores: array<int>, i: nat, j: nat)
    requires i < j < moves.Length <= scores.Length
    modifies moves, scores
    ensures moves[i] == old(moves[j]) && moves[j] == old(moves[i])
    ensures scores[i] == old(scores[j]) && scores[j] == old(scores[i])
    ensures forall k :: 0 <= k < moves.Length && k != i && k != j ==> moves[k] == old(moves[k])
    ensures forall k :: 0 <= k < scores.Length && k != i && k != j ==> scores[k] == old(scores[k])
    ensures multiset(Pairs(moves[..], scores[..moves.Length])) ==
            multiset(Pairs(old(moves[..]), old(scores[..moves.Length])))
  {
    ghost var ms := moves[..];
    ghost var ss := scores[..moves.Length];
    moves[i], moves[j] := moves[j], moves[i];
    scores[i], scores[j] := scores[j], scores[i];
    assert scores[..moves.Length] == ss[i := ss[j]][j := ss[i]];
    SwapKeepsPairs(ms, ss, i, j);
  }

  /**
   * `sortByScore(i)`: moves the pair with the highest score among
   * positions i.. to position i by swapping, and returns that move.  The
   * score that lands at i is one of the scores from i on, and at least all
   * of them; the list stays a permutation of its (move, score) pairs;
   * positions before i and the buffer beyond the list are left alone.
   */
  method SortByScore(moves: array<Move>, scores: array<int>, i: nat) returns (m: Move, ghost source: nat)
    requires i < moves.Length <= scores.Length
    modifies moves, scores
    ensures m == moves[i]
    ensures i <= source < moves.Length && scores[i] == old(scores[source])
    ensures forall j :: i <= j < moves.Length ==> old(scores[j]) <= scores[i]
    ensures forall j :: i < j < moves.Length ==> scores[j] <= scores[i]
    ensures multiset(Pairs(moves[..], scores[..moves.Length])) ==
            multiset(Pairs(old(moves[..]), old(scores[..moves.Length])))
    ensures forall k :: 0 <= k < i ==> moves[k] == old(moves[k]) && scores[k] == old(scores[k])
    ensures forall k :: moves.Length <= k < scores.Length ==> scores[k] == old(scores[k])
  {
    ghost var n := moves.Length;
    source := i;
    for j := i + 1 to moves.Length
      invariant i <= source < n && scores[i] == old(scores[source])
      invariant forall k :: i <= k < j ==> old(scores[k]) <= scores[i]
      invariant forall k :: i < k < j ==> scores[k] <= scores[i]
      invariant forall k :: j <= k < n ==> scores[k] == old(scores[k])
      invariant multiset(Pairs(moves[..], scores[..n])) == multiset(Pairs(old(moves[..]), old(scores[..n])))
      invariant forall k :: 0 <= k < i ==> moves[k] == old(moves[k]) && scores[k] == old(scores[k])
      invariant forall k :: n <= k < scores.Length ==> scores[k] == old(scores[k])
    {
      if scores[j] > scores[i] {
        SwapEntries(moves, scores, i, j);
        source := j;
      }
    }
    m := moves[i];
  }

  /**
   * The visiting loop of the search: `sortByScore(i)` for i = 0, 1, ...
   * yields the moves of the list in non-increasing score order, and the
   * list ends up holding the same (move, score) pairs, sorted.
   */
  method VisitInOrder(moves: array<Move>, scores: array<int>) returns (visited: seq<Move>)
    requires moves.Length <= scores.Length
    modifies moves, scores
    ensures visited == moves[..]
    ensures forall a, b :: 0 <= a < b < moves.Length ==> scores[a] >= scores[b]
    ensures multiset(Pairs(moves[..], scores[..moves.Length])) ==
            multiset(Pairs(old(moves[..]), old(scores[..moves.Length])))
  {
    ghost var n := moves.Length;
    visited := [];
    for i := 0 to moves.Length
      invariant |visited| == i && forall k :: 0 <= k < i ==> visited[k] == moves[k]
      invariant forall a, b :: 0 <= a < b < n && a < i ==> scores[a] >= scores[b]
      invariant multiset(Pairs(moves[..], scores[..n])) == multiset(Pairs(old(moves[..]), old(scores[..n])))
    {
      var m;
      ghost var source;
      m, source := SortByScore(moves, scores, i);
      visited := visited + [m];
    }
    assert visited == moves[..];
  }
}
