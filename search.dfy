/**
 * The decision rules of the principal variation search, each on its own:
 * mate-distance pruning, the transposition-table cutoff, the score of a
 * node without legal moves, the late-move reduction in 8-bit arithmetic,
 * the principal-variation splice, the bound a node stores, the
 * aspiration window loop and the material scaling of the evaluation.
 * The recursion that strings them together is not modelled.
 */
module SearchRules {
  import opened IntMath
  import opened ChessTypes
  import opened Consts
  import opened Wrappers
  import opened TranspositionTable

  /** `Search::infinity`. */
  const INFINITY: int := 32767

  // ---------------------------------------------------------------------------
  // Mate-distance pruning

  /** Either the node returns `score` at once, or it goes on with the narrowed window. */
  datatype Pruning = Cutoff(score: int) | Narrowed(alpha: int, beta: int)

  /**
   * No score can beat mating at this ply or be worse than being mated at
   * it: beta is lowered to `infinity - ply` and alpha raised to
   * `-infinity + ply`; once the window closes, the bound that closed it is
   * returned.
   */
  function MateDistancePrune(alpha: int, beta: int, ply: int): (r: Pruning)
    ensures r.Narrowed? ==> r.alpha == Max(alpha, -INFINITY + ply) && r.beta == Min(beta, INFINITY - ply)
    ensures r.Narrowed? && alpha < beta ==> r.alpha < r.beta
    ensures r.Cutoff? ==> (r.score == INFINITY - ply && alpha >= INFINITY - ply) ||
                          (r.score == -INFINITY + ply && Min(beta, INFINITY - ply) <= -INFINITY + ply)
  {
    var upper := INFINITY - ply;
    if upper < beta && alpha >= upper then Cutoff(upper)
    else
      var b := Min(beta, upper);
      var lower := -INFINITY + ply;
      if lower > alpha && b <= lower then Cutoff(lower)
      else Narrowed(Max(alpha, lower), b)
  }

  /**
   * For an open window, the node is cut off exactly when the window
   * clamped to [-infinity + ply, infinity - ply] is empty.
   */
  lemma MateDistanceCutoffIffEmpty(alpha: int, beta: int, ply: int)
    requires alpha < beta
    ensures MateDistancePrune(alpha, beta, ply).Cutoff? <==>
            Max(alpha, -INFINITY + ply) >= Min(beta, INFINITY - ply)
  {
  }

  // ---------------------------------------------------------------------------
  // Terminal nodes

  /** With no legal move: mated at this ply when in check, a stalemate draw otherwise. */
  function NoMovesScore(inCheck: bool, ply: int): (r: int)
    ensures inCheck ==> r == -INFINITY + ply
    ensures !inCheck ==> r == 0
  {
    if inCheck then -INFINITY + ply else 0
  }

  /**
   * Being mated later is better than being mated sooner, and a mated
   * score is the floor of the mate-distance window, so it is never below
   * a window the node goes on searching with.
   */
  lemma MatedScoreOrder(p1: int, p2: int, alpha: int, beta: int)
    requires p1 < p2
    ensures NoMovesScore(true, p1) < NoMovesScore(true, p2)
    ensures MateDistancePrune(alpha, beta, p1).Narrowed? ==>
              NoMovesScore(true, p1) <= MateDistancePrune(alpha, beta, p1).alpha
  {
  }

  /**
   * Within the ply limit a mated score counts as a mate for the table,
   * which re-bases it to `-infinity` whatever the ply, and reads it back
   * unchanged.
   */
  lemma MatedScoreStored(ply: int)
    requires 0 <= ply <= MAX_PLY
    ensures NoMovesScore(true, ply) <= -EVAL_MATE
    ensures ScoreToTT(NoMovesScore(true, ply), ply) == -INFINITY
    ensures ScoreFromTT(ToInt16(ScoreToTT(NoMovesScore(true, ply), ply)), ply) == NoMovesScore(true, ply)
  {
  }

  // ---------------------------------------------------------------------------
  // Transposition-table cutoff

  /** What a stored bound says about the true value `v` of a node whose stored score is `score`. */
  predicate Describes(bound: int, score: int, v: int)
  {
    (bound == EXACT && v == score) || (bound == UPPER_BOUND && v <= score) || (bound == LOWER_BOUND && v >= score)
  }

  /**
   * The score `pvs` returns straight from the table, if any: only at a
   * non-PV node below the root, without an excluded move, for an entry
   * with this key and at least this depth, and only when its bound is
   * exact, an upper bound at or below alpha, or a lower bound at or above beta.
   */
  function TTCutoff(entry: Option<Hash>, key: UInt64, excluded: Move, pvNode: bool,
                    depth: int, ply: int, alpha: int, beta: int): (r: Option<int>)
    ensures r.Some? ==> entry.Some? && entry.value.key == key && excluded == NULL_MOVE
    ensures r.Some? ==> !pvNode && ply > 0 && entry.value.depth >= depth
    ensures r.Some? ==> r.value == ScoreFromTT(entry.value.score, ply)
    ensures r.Some? ==> entry.value.bound == EXACT ||
                        (entry.value.bound == UPPER_BOUND && r.value <= alpha) ||
                        (entry.value.bound == LOWER_BOUND && r.value >= beta)
  {
    if entry.None? || excluded != NULL_MOVE || entry.value.key != key then None
    else
      var hashedScore := ScoreFromTT(entry.value.score, ply);
      var bound := entry.value.bound;
      if !pvNode && entry.value.depth >= depth && ply > 0 &&
         (bound == EXACT || (bound == UPPER_BOUND && hashedScore <= alpha) ||
          (bound == LOWER_BOUND && hashedScore >= beta))
      then Some(hashedScore)
      else None
  }

  /**
   * A table cutoff is sound: for any true value the stored bound allows,
   * the returned score fails low, fails high or lands inside the window
   * exactly when the true value does.
   */
  lemma TTCutoffSound(entry: Option<Hash>, key: UInt64, excluded: Move, pvNode: bool,
                      depth: int, ply: int, alpha: int, beta: int, v: int)
    requires alpha < beta
    requires TTCutoff(entry, key, excluded, pvNode, depth, ply, alpha, beta).Some?
    requires Describes(entry.value.bound, ScoreFromTT(entry.value.score, ply), v)
    ensures var s := TTCutoff(entry, key, excluded, pvNode, depth, ply, alpha, beta).value;
            (v <= alpha <==> s <= alpha) && (v >= beta <==> s >= beta)
  {
  }

  // ---------------------------------------------------------------------------
  // The bound a node stores

  /**
   * The bound of a finished node: a lower bound when it failed high; exact
   * at a PV node where some move raised alpha; an upper bound otherwise.
   */
  function FinalBound(bestScore: int, beta: int, pvNode: bool, raisedAlpha: bool): (r: UInt8)
    ensures r == LOWER_BOUND <==> bestScore >= beta
    ensures r == EXACT <==> bestScore < beta && pvNode && raisedAlpha
    ensures r == UPPER_BOUND <==> bestScore < beta && !(pvNode && raisedAlpha)
  {
    if bestScore >= beta then LOWER_BOUND
    else if pvNode && raisedAlpha then EXACT
    else UPPER_BOUND
  }

  /**
   * For a node searched with the window (alpha, beta), where PV means a
   * window wider than one and "raised alpha" means a score above alpha,
   * the bound describes the result: exact inside the window, an upper
   * bound at or below alpha, a lower bound at or above beta.
   */
  lemma FinalBoundMeaning(bestScore: int, alpha: int, beta: int)
    requires alpha < beta
    ensures var r := FinalBound(bestScore, beta, beta > alpha + 1, bestScore > alpha);
            (r == EXACT ==> alpha < bestScore < beta) &&
            (r == UPPER_BOUND ==> bestScore <= alpha) &&
            (r == LOWER_BOUND ==> bestScore >= beta)
  {
  }

  /** The slot `pvs` writes when it finishes, or none while a move is excluded. */
  function NodeStore(excluded: Move, key: UInt64, depth: int, bestScore: int, beta: int, pvNode: bool,
                     raisedAlpha: bool, ply: int, bestMove: Move, rawEval: int): (r: Option<Hash>)
    ensures excluded != NULL_MOVE ==> r.None?
    ensures excluded == NULL_MOVE ==>
              (r.Some? && r.value.key == key && r.value.move == bestMove &&
               r.value.bound == FinalBound(bestScore, beta, pvNode, raisedAlpha))
    ensures r.Some? && 0 <= depth < 0x80 ==> r.value.depth == depth
    ensures r.Some? && -0x8000 <= ScoreToTT(bestScore, ply) < 0x8000 ==> r.value.score == ScoreToTT(bestScore, ply)
    ensures r.Some? && -0x8000 <= rawEval < 0x8000 ==> r.value.eval == rawEval
  {
    if excluded != NULL_MOVE then None
    else Some(Entry(key, depth, FinalBound(bestScore, beta, pvNode, raisedAlpha), ScoreToTT(bestScore, ply), bestMove, rawEval))
  }

  /**
   * Storing a finished non-PV node and probing the same key again with the
   * same window, at a depth no greater, returns the stored score.
   */
  lemma StoredNodeCutsOff(key: UInt64, depth: int, bestScore: int, alpha: int, ply: int,
                          bestMove: Move, rawEval: int)
    requires 0 <= depth < 0x80 && 0 < ply <= MAX_PLY
    requires -EVAL_INFINITE <= bestScore <= EVAL_INFINITE
    ensures var e := NodeStore(NULL_MOVE, key, depth, bestScore, alpha + 1, false, bestScore > alpha, ply, bestMove, rawEval);
            TTCutoff(e, key, NULL_MOVE, false, depth, ply, alpha, alpha + 1) == Some(bestScore)
  {
    ReBasedScoreFits(bestScore, ply);
    StoredScoreRoundTrip(bestScore, ply);
    var e := NodeStore(NULL_MOVE, key, depth, bestScore, alpha + 1, false, bestScore > alpha, ply, bestMove, rawEval);
    assert e.value.score == ScoreToTT(bestScore, ply);
    assert ScoreFromTT(e.value.score, ply) == bestScore;
  }

  /**
   * The slots quiescence search writes, in order: one with the stand-pat
   * eval when no move is excluded, then one with the raw eval in every case.
   */
  function QsStores(excluded: Move, key: UInt64, bestScore: int, beta: int, ply: int,
                    bestMove: Move, standPat: int, rawEval: int): (r: seq<Hash>)
    ensures excluded == NULL_MOVE ==> |r| == 2 && r[0].eval == ToInt16(standPat)
    ensures excluded != NULL_MOVE ==> |r| == 1
    ensures r[|r| - 1].eval == ToInt16(rawEval) && r[|r| - 1].depth == 0
    ensures forall k :: 0 <= k < |r| ==>
              (r[k].key == key && r[k].move == bestMove &&
               r[k].bound == (if bestScore >= beta then LOWER_BOUND else UPPER_BOUND))
  {
    var bound := if bestScore >= beta then LOWER_BOUND else UPPER_BOUND;
    var last := Entry(key, 0, bound, ScoreToTT(bestScore, ply), bestMove, rawEval);
    if excluded == NULL_MOVE then [Entry(key, 0, bound, ScoreToTT(bestScore, ply), bestMove, standPat), last]
    else [last]
  }

  /** In quiescence search the excluded move does not prevent the store: the last slot written is the same. */
  lemma QsStoreIgnoresExcluded(e1: Move, e2: Move, key: UInt64, bestScore: int, beta: int, ply: int,
                               bestMove: Move, standPat: int, rawEval: int)
    ensures var a := QsStores(e1, key, bestScore, beta, ply, bestMove, standPat, rawEval);
            var b := QsStores(e2, key, bestScore, beta, ply, bestMove, standPat, rawEval);
            a[|a| - 1] == b[|b| - 1]
  {
  }

  // ---------------------------------------------------------------------------
  // Late-move reduction

  /** `lmrDepth` and `lmrCutNodeMul` (fixed parameters). */
  const LMR_DEPTH: int := 2
  const LMR_CUT_NODE_MUL: int := 2

  /**
   * The reduction of a late move, in `std::uint8_t`: the table entry, one
   * less at a PV node, more at a cut node, clamped to [0, depth - 1].
   */
  function LateMoveReduction(depth: int, tableEntry: UInt8, pvNode: bool, isCutNode: bool): (r: UInt8)
    ensures depth <= LMR_DEPTH ==> r == 0
    ensures depth > LMR_DEPTH ==> r <= ToUInt8(depth - 1)
  {
    if depth > LMR_DEPTH then
      var afterPv := ToUInt8(tableEntry - (if pvNode then 1 else 0));
      var afterCut := ToUInt8(afterPv + (if isCutNode then 1 else 0) * LMR_CUT_NODE_MUL);
      Clamp(afterCut, 0, ToUInt8(depth - 1))
    else 0
  }

  /**
   * Within 8-bit depths the reduced search never gets a negative depth,
   * and a zero table entry at a PV node wraps to 255 and is clamped to the
   * largest reduction, depth - 1.
   */
  lemma LateMoveReductionRange(depth: int, tableEntry: UInt8, pvNode: bool, isCutNode: bool)
    requires LMR_DEPTH < depth <= TWO_8
    ensures 0 <= depth - LateMoveReduction(depth, tableEntry, pvNode, isCutNode) - 1 < depth
    ensures tableEntry == 0 && pvNode && !isCutNode ==> LateMoveReduction(depth, tableEntry, pvNode, isCutNode) == depth - 1
  {
  }

  /** One table step at a PV node that is not a cut node takes the entry down by one, when it is positive. */
  lemma LateMoveReductionPv(depth: int, tableEntry: UInt8)
    requires LMR_DEPTH < depth <= TWO_8 && 0 < tableEntry <= depth
    ensures LateMoveReduction(depth, tableEntry, true, false) == tableEntry - 1
  {
  }

  // ---------------------------------------------------------------------------
  // Principal-variation splice

  /** One entry of the search stack, as far as the principal variation goes. */
  class SearchFrame {
    var pvLength: UInt16
    const pvLine: array<Move>

    constructor (capacity: nat)
      ensures pvLength == 0 && pvLine.Length == capacity && fresh(pvLine)
    {
      pvLength := 0;
      pvLine := new Move[capacity](_ => NULL_MOVE);
    }

    predicate Valid()
      reads this
    {
      pvLength <= pvLine.Length
    }

    /** The line this frame holds: its first `pvLength` moves. */
    function Line(): (l: seq<Move>)
      requires Valid()
      reads this, pvLine
      ensures |l| == pvLength
    {
      pvLine[..pvLength]
    }
  }

  /** The guard on the parent's length (`stack[ply].pvLength < 245`). */
  const PV_SPLICE_LIMIT: int := 245

  /**
   * On an alpha improvement: the parent's line becomes the move followed
   * by the child's line, provided the parent's line was shorter than the
   * limit; the child frame is not changed.  The source needs room for the
   * child's line plus one in the parent's buffer.
   */
  method UpdatePvLine(parent: SearchFrame, child: SearchFrame, move: Move)
    requires parent.Valid() && child.Valid() && parent != child && parent.pvLine != child.pvLine
    requires child.pvLength < parent.pvLine.Length < TWO_16
    modifies parent, parent.pvLine
    ensures parent.Valid()
    ensures old(parent.pvLength) < PV_SPLICE_LIMIT ==>
              parent.pvLength == child.pvLength + 1 && parent.Line() == [move] + child.Line()
    ensures old(parent.pvLength) >= PV_SPLICE_LIMIT ==>
              parent.pvLength == old(parent.pvLength) && parent.pvLine[..] == old(parent.pvLine[..])
    ensures forall k :: child.pvLength < k < parent.pvLine.Length ==> parent.pvLine[k] == old(parent.pvLine[k])
  {
    if parent.pvLength < 245 {
      parent.pvLine[0] := move;
      parent.pvLength := child.pvLength + 1;
      var x := 0;
      while x < child.pvLength
        invariant 0 <= x <= child.pvLength
        invariant parent.pvLength == child.pvLength + 1
        invariant parent.pvLine[0] == move
        invariant forall k :: 0 <= k < x ==> parent.pvLine[k + 1] == child.pvLine[k]
        invariant forall k :: x < k < parent.pvLine.Length ==> parent.pvLine[k] == old(parent.pvLine[k])
      {
        parent.pvLine[x + 1] := child.pvLine[x];
        x := x + 1;
      }
      assert parent.Line() == [move] + child.Line() by {
        forall k | 0 <= k < parent.pvLength
          ensures parent.Line()[k] == ([move] + child.Line())[k]
        {
          if k > 0 {
            assert parent.pvLine[k] == child.pvLine[k - 1];
          }
        }
      }
    }
  }

  // ---------------------------------------------------------------------------
  // Aspiration windows

  /** `aspDelta` (fixed parameter): the initial half-width of the window. */
  const ASP_DELTA: int := 26

  /** A window always within [-infinity, infinity] and not empty. */
  predicate InBounds(alpha: int, beta: int)
  {
    -INFINITY <= alpha < beta <= INFINITY
  }

  /**
   * The window after a failed search: a fail high raises beta by delta; a
   * fail low pulls beta to the middle of the old window and lowers alpha by
   * delta; both stay within [-infinity, infinity].
   */
  function Widen(alpha: int, beta: int, delta: int, score: int): (w: (int, int))
    ensures score >= beta ==> w == (alpha, Min(beta + delta, INFINITY))
    ensures score < beta ==> w == (Max(alpha - delta, -INFINITY), TruncDiv(alpha + beta, 2))
  {
    if score >= beta then (alpha, Min(beta + delta, INFINITY))
    else (Max(alpha - delta, -INFINITY), TruncDiv(alpha + beta, 2))
  }

  /**
   * Widening keeps the window within bounds and not empty; a fail high
   * moves beta up (unless it is already at infinity), a fail low moves
   * alpha down (unless already at -infinity) and never raises beta.
   */
  lemma WidenKeepsBounds(alpha: int, beta: int, delta: int, score: int)
    requires InBounds(alpha, beta) && delta > 0
    requires score >= beta || score <= alpha
    ensures InBounds(Widen(alpha, beta, delta, score).0, Widen(alpha, beta, delta, score).1)
    ensures score >= beta ==> Widen(alpha, beta, delta, score).1 > beta || beta == INFINITY
    ensures score <= alpha ==> Widen(alpha, beta, delta, score).0 < alpha || alpha == -INFINITY
    ensures score <= alpha ==> Widen(alpha, beta, delta, score).1 <= beta
  {
    if score < beta {
      var m := TruncDiv(alpha + beta, 2);
      if alpha + beta >= 0 {
        assert m == (alpha + beta) / 2;
      } else {
        assert m == -((-(alpha + beta)) / 2);
      }
    }
  }

  /** How the aspiration loop ended: out of time, or with a score inside the window. */
  datatype AspirationEnd = AspirationEnd(score: int, alpha: int, beta: int, stopped: bool)

  /**
   * The rounds of the aspiration loop from `round` on: search the window,
   * stop when the clock says so, return a score inside the window, or
   * widen it and go on.  `search` stands for the full-window `pvs` at the
   * root, `timeUp(k)` for the soft-limit test after round k, and
   * `grow` for the floating-point growth of delta; the clock is out by
   * round `deadline` at the latest.
   */
  function AspirationRounds(alpha: int, beta: int, delta: int, round: nat, search: (int, int) -> int,
                            grow: int -> int, timeUp: nat -> bool, deadline: nat): (e: AspirationEnd)
    requires round <= deadline && timeUp(deadline)
    ensures !e.stopped ==> e.alpha < e.score < e.beta
    decreases deadline - round
  {
    var score := search(alpha, beta);
    if timeUp(round) then AspirationEnd(score, alpha, beta, true)
    else if score >= beta || score <= alpha then
      var w := Widen(alpha, beta, delta, score);
      AspirationRounds(w.0, w.1, grow(delta), round + 1, search, grow, timeUp, deadline)
    else AspirationEnd(score, alpha, beta, false)
  }

  /**
   * Unless time runs out, the loop returns a score strictly inside its
   * final window, and every window it searched is within bounds and not
   * empty, given a positive delta that keeps growing positive.
   */
  lemma {:induction false} AspirationRoundsExit(alpha: int, beta: int, delta: int, round: nat,
                                                search: (int, int) -> int, grow: int -> int,
                                                timeUp: nat -> bool, deadline: nat)
    requires round <= deadline && timeUp(deadline)
    requires InBounds(alpha, beta) && delta > 0
    requires forall d :: d > 0 ==> grow(d) > 0
    ensures var e := AspirationRounds(alpha, beta, delta, round, search, grow, timeUp, deadline);
            InBounds(e.alpha, e.beta) && (e.stopped || e.alpha < e.score < e.beta)
    decreases deadline - round
  {
    var score := search(alpha, beta);
    if !timeUp(round) && (score >= beta || score <= alpha) {
      WidenKeepsBounds(alpha, beta, delta, score);
      var w := Widen(alpha, beta, delta, score);
      AspirationRoundsExit(w.0, w.1, grow(delta), round + 1, search, grow, timeUp, deadline);
    }
  }

  /** The first window: `score` plus and minus `aspDelta`, within [-infinity, infinity]. */
  function InitialWindow(score: int): (w: (int, int))
    ensures -INFINITY <= score <= INFINITY ==> InBounds(w.0, w.1)
  {
    (Max(-INFINITY, score - ASP_DELTA), Min(INFINITY, score + ASP_DELTA))
  }

  /** `aspiration`: the loop, returning the last score searched. */
  method Aspiration(score: int, search: (int, int) -> int, grow: int -> int,
                    timeUp: nat -> bool, deadline: nat) returns (r: int)
    requires timeUp(deadline)
    ensures r == AspirationRounds(InitialWindow(score).0, InitialWindow(score).1, ASP_DELTA, 0,
                                  search, grow, timeUp, deadline).score
  {
    var delta := ASP_DELTA;
    var alpha := Max(-INFINITY, score - delta);
    var beta := Min(INFINITY, score + delta);
    ghost var target := AspirationRounds(alpha, beta, delta, 0, search, grow, timeUp, deadline);
    var round: nat := 0;
    while true
      invariant round <= deadline
      invariant AspirationRounds(alpha, beta, delta, round, search, grow, timeUp, deadline) == target
      decreases deadline - round
    {
      r := search(alpha, beta);
      if timeUp(round) {
        return;
      }
      if r >= beta {
        beta := Min(beta + delta, INFINITY);
      } else if r <= alpha {
        beta := TruncDiv(alpha + beta, 2);
        alpha := Max(alpha - delta, -INFINITY);
      } else {
        return;
      }
      delta := grow(delta);
      round := round + 1;
    }
  }

  // ---------------------------------------------------------------------------
  // Material scaling

  /** `materialScale*` parameters (fixed). */
  const SCALE_KNIGHT: int := 3
  const SCALE_BISHOP: int := 3
  const SCALE_ROOK: int := 5
  const SCALE_QUEEN: int := 18
  const SCALE_ADD: int := 169
  const SCALE_DIV: int := 269

  /** The game phase from the counts of knights, bishops, rooks and queens on the board. */
  function GamePhase(knights: nat, bishops: nat, rooks: nat, queens: nat): (p: nat)
    ensures 3 * (knights + bishops + rooks + queens) <= p <= 18 * (knights + bishops + rooks + queens)
    ensures p == 0 <==> knights + bishops + rooks + queens == 0
  {
    SCALE_KNIGHT * knights + SCALE_BISHOP * bishops + SCALE_ROOK * rooks + SCALE_QUEEN * queens
  }

  /** `scaleOutput`: the raw eval times (169 + phase) / 269, with C++ division. */
  function ScaleOutput(rawEval: int, knights: nat, bishops: nat, rooks: nat, queens: nat): (s: int)
    ensures rawEval >= 0 ==> s >= 0
    ensures rawEval <= 0 ==> s <= 0
  {
    var m := SCALE_ADD + GamePhase(knights, bishops, rooks, queens);
    TruncDivSign(rawEval * m, SCALE_DIV);
    TruncDiv(rawEval * m, SCALE_DIV)
  }

  /** Scaling treats both signs alike: negating the eval negates the result. */
  lemma ScaleOutputOdd(rawEval: int, knights: nat, bishops: nat, rooks: nat, queens: nat)
    ensures ScaleOutput(-rawEval, knights, bishops, rooks, queens) == -ScaleOutput(rawEval, knights, bishops, rooks, queens)
  {
    var m := SCALE_ADD + GamePhase(knights, bishops, rooks, queens);
    assert -rawEval * m == -(rawEval * m);
    TruncDivNeg(rawEval * m, SCALE_DIV);
  }

  /** Division by a positive constant keeps an order. */
  lemma DivLe(x: nat, y: nat, d: int)
    requires x <= y && d > 0
    ensures x / d <= y / d
  {
    var qx, rx := x / d, x % d;
    var qy, ry := y / d, y % d;
    assert x == qx * d + rx && y == qy * d + ry;
    if qx > qy {
      assert x - y == (qx - qy) * d + rx - ry;
      MulAtLeast(qx - qy, d);
      assert false;
    }
  }

  /** The magnitude of a product with a positive factor. */
  lemma AbsMul(x: int, m: nat)
    ensures Abs(x * m) == Abs(x) * m
    ensures x < 0 ==> x * m == -(Abs(x) * m)
  {
    if x < 0 {
      assert x * m == -((-x) * m);
    }
  }

  /**
   * While the phase is at most 100 (the starting position has 80), the
   * factor is below one and scaling never grows the eval.
   */
  lemma ScaleOutputShrinks(rawEval: int, knights: nat, bishops: nat, rooks: nat, queens: nat)
    requires GamePhase(knights, bishops, rooks, queens) <= SCALE_DIV - SCALE_ADD
    ensures Abs(ScaleOutput(rawEval, knights, bishops, rooks, queens)) <= Abs(rawEval)
  {
    var m := SCALE_ADD + GamePhase(knights, bishops, rooks, queens);
    var a := Abs(rawEval);
    var p := a * m;
    AbsMul(rawEval, m);
    MulLe(a, m, SCALE_DIV);
    DivLe(p, a * SCALE_DIV, SCALE_DIV);
    assert (a * SCALE_DIV) / SCALE_DIV == a;
    if rawEval >= 0 {
      assert rawEval * m == p;
    } else {
      assert rawEval * m == -p;
    }
  }
}
