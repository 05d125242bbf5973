/**
 * Time management: the limits one search may use, derived from the clock
 * the GUI reports, and the two stability counters that shorten the soft
 * limit when the best move and its score stop changing between iterations.
 *
 * The floating-point products of `calculateTimeForMove` (the base time
 * from remaining time and increment, the maximum, and the scaled hard and
 * soft candidates) are inputs here; what is modelled is the integer
 * skeleton around them: halving the remaining time, capping by the
 * maximum, and the floor of one millisecond.
 */
module TimeManagement {
  import opened IntMath
  import opened ChessTypes

  /** The longest run the stability counters count up to. */
  const STABILITY_CAP: int := 10

  /** What is kept of the remaining time: `timeLeft - timeLeft / 2`, with C++ division. */
  function KeptTime(timeLeft: int): (r: int)
    ensures timeLeft >= 0 ==> 0 <= r <= timeLeft && r == (timeLeft + 1) / 2
    ensures timeLeft < 0 ==> timeLeft <= r <= 0 && r == -((-timeLeft + 1) / 2)
  {
    timeLeft - TruncDiv(timeLeft, 2)
  }

  /** A limit: the candidate capped by the maximum time, and never below one millisecond. */
  function Limit(maxTime: int, candidate: int): (r: int)
    ensures 1 <= r <= Max(1, maxTime)
    ensures r <= Max(1, candidate)
    ensures 1 <= candidate <= maxTime ==> r == candidate
    ensures candidate > maxTime >= 1 ==> r == maxTime
  {
    Max(Min(maxTime, candidate), 1)
  }

  /** A larger candidate never gives a smaller limit. */
  lemma LimitMonotone(maxTime: int, c1: int, c2: int)
    requires c1 <= c2
    ensures Limit(maxTime, c1) <= Limit(maxTime, c2)
  {
  }

  /**
   * One update of a stability counter: one more when the observation
   * repeats and the counter is below the cap, otherwise back to zero.
   */
  function StabilityStep(count: UInt16, stable: bool): (r: UInt16)
    ensures r == 0 || (stable && r == count + 1)
  {
    if stable && count < STABILITY_CAP then ToUInt16(count + 1) else 0
  }

  /** A counter within the cap stays within it. */
  lemma StabilityBounded(count: UInt16, stable: bool)
    requires count <= STABILITY_CAP
    ensures StabilityStep(count, stable) <= STABILITY_CAP
    ensures stable && count < STABILITY_CAP ==> StabilityStep(count, stable) == count + 1
    ensures !stable || count == STABILITY_CAP ==> StabilityStep(count, stable) == 0
  {
  }

  /** The counter after `k` repeating observations. */
  function StableRun(count: UInt16, k: nat): UInt16
  {
    if k == 0 then count else StabilityStep(StableRun(count, k - 1), true)
  }

  /**
   * From zero, a run of k repetitions counts k up to the cap, and the
   * repetition after the cap starts over at zero.
   */
  lemma {:induction false} StableRunCounts(k: nat)
    requires k <= STABILITY_CAP + 1
    ensures k <= STABILITY_CAP ==> StableRun(0, k) == k
    ensures k == STABILITY_CAP + 1 ==> StableRun(0, k) == 0
  {
    if k > 0 {
      StableRunCounts(k - 1);
      var c := StableRun(0, k - 1);
      assert c == k - 1;
      StabilityBounded(c, true);
      assert StableRun(0, k) == StabilityStep(c, true);
    }
  }

  /**
   * `updateEvalStability` as written: it tests the eval counter but
   * increments or resets the best-move counter.  Returns the new
   * (best-move counter, eval counter).
   */
  function EvalUpdateAsWritten(moveCount: UInt16, evalCount: UInt16, score: int, previousScore: int): (r: (UInt16, UInt16))
    ensures r.1 == evalCount
  {
    if score > previousScore - 10 && evalCount < STABILITY_CAP then (ToUInt16(moveCount + 1), evalCount)
    else (0, evalCount)
  }

  /**
   * As written, the eval counter stays at zero whatever the scores, and
   * one search iteration (best-move update, then eval update) takes the
   * best-move counter from 9 to 11, past its cap.
   */
  lemma EvalUpdateAsWrittenOvershoots(score: int)
    ensures EvalUpdateAsWritten(StabilityStep(9, true), 0, score, score) == (11, 0)
    ensures forall c: UInt16, s: int, p: int :: EvalUpdateAsWritten(c, 0, s, p).1 == 0
  {
  }

  /** The time state of the search. */
  class Time {
    var timeLeft: int
    var increment: int
    var hardLimit: int
    var softLimit: int
    var bestMoveStabilityCount: UInt16
    var bestEvalStabilityCount: UInt16

    /** Both counters are within their cap. */
    predicate Valid()
      reads this
    {
      bestMoveStabilityCount <= STABILITY_CAP && bestEvalStabilityCount <= STABILITY_CAP
    }

    constructor ()
      ensures timeLeft == 0 && increment == 0 && hardLimit == 0 && softLimit == 0
      ensures bestMoveStabilityCount == 0 && bestEvalStabilityCount == 0
      ensures Valid()
    {
      timeLeft := 0;
      increment := 0;
      hardLimit := 0;
      softLimit := 0;
      bestMoveStabilityCount := 0;
      bestEvalStabilityCount := 0;
    }

    /**
     * `calculateTimeForMove`: keeps half the remaining time, then sets
     * each limit to its candidate capped by `maxTime` and at least 1.
     * `maxTime`, `hardTime` and `softTime` are the truncated
     * floating-point products of the source, computed from the halved
     * time, the increment and the counters.
     */
    method CalculateTimeForMove(maxTime: int, hardTime: int, softTime: int)
      modifies this
      ensures timeLeft == KeptTime(old(timeLeft))
      ensures hardLimit == Limit(maxTime, hardTime) && softLimit == Limit(maxTime, softTime)
      ensures increment == old(increment)
      ensures bestMoveStabilityCount == old(bestMoveStabilityCount)
      ensures bestEvalStabilityCount == old(bestEvalStabilityCount)
    {
      timeLeft := timeLeft - TruncDiv(timeLeft, 2);
      hardLimit := timeLeft;
      softLimit := timeLeft;
      hardLimit := Min(maxTime, hardTime);
      softLimit := Min(maxTime, softTime);
      softLimit := Max(softLimit, 1);
      hardLimit := Max(hardLimit, 1);
    }

    /** `updateBestMoveStability`: the best-move counter takes one stability step. */
    method UpdateBestMoveStability(bestMove: Move, previousBestMove: Move)
      modifies this
      ensures bestMoveStabilityCount == StabilityStep(old(bestMoveStabilityCount), bestMove == previousBestMove)
      ensures timeLeft == old(timeLeft) && increment == old(increment)
      ensures hardLimit == old(hardLimit) && softLimit == old(softLimit)
      ensures bestEvalStabilityCount == old(bestEvalStabilityCount)
      ensures old(Valid()) ==> Valid()
    {
      if bestMove == previousBestMove && bestMoveStabilityCount < 10 {
        bestMoveStabilityCount := ToUInt16(bestMoveStabilityCount + 1);
      } else {
        bestMoveStabilityCount := 0;
      }
    }

    /** `updateEvalStability` as the source writes it (see `EvalUpdateAsWritten`). */
    method UpdateEvalStabilityAsWritten(score: int, previousScore: int)
      modifies this
      ensures (bestMoveStabilityCount, bestEvalStabilityCount) ==
              EvalUpdateAsWritten(old(bestMoveStabilityCount), old(bestEvalStabilityCount), score, previousScore)
      ensures timeLeft == old(timeLeft) && increment == old(increment)
      ensures hardLimit == old(hardLimit) && softLimit == old(softLimit)
    {
      if score > previousScore - 10 && bestEvalStabilityCount < 10 {
        bestMoveStabilityCount := ToUInt16(bestMoveStabilityCount + 1);
      } else {
        bestMoveStabilityCount := 0;
      }
    }

    /**
     * `updateEvalStability` as intended: the eval counter takes one
     * stability step, stable when the score has not dropped by 10 or more.
     */
    method UpdateEvalStability(score: int, previousScore: int)
      modifies this
      ensures bestEvalStabilityCount == StabilityStep(old(bestEvalStabilityCount), score > previousScore - 10)
      ensures timeLeft == old(timeLeft) && increment == old(increment)
      ensures hardLimit == old(hardLimit) && softLimit == old(softLimit)
      ensures bestMoveStabilityCount == old(bestMoveStabilityCount)
      ensures old(Valid()) ==> Valid()
    {
      if score > previousScore - 10 && bestEvalStabilityCount < 10 {
        bestEvalStabilityCount := ToUInt16(bestEvalStabilityCount + 1);
      } else {
        bestEvalStabilityCount := 0;
      }
    }

    /** `reset`: both counters and both limits back to zero. */
    method Reset()
      modifies this
      ensures bestMoveStabilityCount == 0 && bestEvalStabilityCount == 0
      ensures hardLimit == 0 && softLimit == 0
      ensures timeLeft == old(timeLeft) && increment == old(increment)
      ensures Valid()
    {
      bestMoveStabilityCount := 0;
      bestEvalStabilityCount := 0;
      hardLimit := 0;
      softLimit := 0;
    }

    /** `shouldStopSoft`: more milliseconds have passed than the hard limit. */
    predicate ShouldStopSoft(elapsed: real)
      reads this
    {
      elapsed > hardLimit as real
    }

    /** `shouldStopID`: more milliseconds have passed than the soft limit. */
    predicate ShouldStopID(elapsed: real)
      reads this
    {
      elapsed > softLimit as real
    }
  }

  /**
   * Once a stop test holds it keeps holding as time passes, and when the
   * soft candidate is at most the hard one, a search that must stop
   * mid-iteration must also not start another.
   */
  lemma StopTestsOrdered(t: Time, e1: real, e2: real)
    requires e1 <= e2
    ensures t.ShouldStopSoft(e1) ==> t.ShouldStopSoft(e2)
    ensures t.ShouldStopID(e1) ==> t.ShouldStopID(e2)
    ensures t.softLimit <= t.hardLimit ==> (t.ShouldStopSoft(e1) ==> t.ShouldStopID(e1))
  {
  }
}
