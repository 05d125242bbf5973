/** Engine-wide constants: move-ordering ranks, search limits and mate scores. */
module Consts {

  const HASH_MOVE_SCORE: int := 500000
  const KILLER_SCORE: int := 300000
  const PROMOTION_SCORE: int := 200000
  const GOOD_CAPTURE: int := 400000
  const BAD_CAPTURE: int := -500000

  const CORRHIST_LIMIT: int := 1024
  const MAX_PLY: int := 246
  const MAX_MOVES: int := 218

  const EVAL_MATE: int := 30000
  const EVAL_INFINITE: int := 31000
  const EVAL_NONE: int := 31100
  const EVAL_MATE_IN_MAX_PLY: int := EVAL_MATE - MAX_PLY

  /** The score of delivering mate `ply` half-moves from the root. */
  function MateIn(ply: int): (r: int)
    ensures r + ply == EVAL_MATE
  {
    EVAL_MATE - ply
  }

  /** The score of being mated `ply` half-moves from the root. */
  function MatedIn(ply: int): (r: int)
    ensures r - ply == -EVAL_MATE
  {
    -EVAL_MATE + ply
  }

  /** Being mated is the negation of mating, at every distance. */
  lemma MateSymmetric(ply: int)
    ensures MateIn(ply) == -MatedIn(ply)
  {
  }

  /** A shorter mate scores further from zero than a longer one. */
  lemma MateMonotonic(p1: int, p2: int)
    requires p1 < p2
    ensures MatedIn(p1) < MatedIn(p2)
    ensures MateIn(p1) > MateIn(p2)
  {
  }

  /** Mate scores have the sign of the side that mates. */
  lemma MateSign(ply: int)
    requires 0 <= ply < EVAL_MATE
    ensures MatedIn(ply) < 0 < MateIn(ply)
  {
  }

  /** Every mate reachable within the ply limit scores at least EVAL_MATE_IN_MAX_PLY. */
  lemma MateWithinMaxPly(ply: int)
    requires 0 <= ply <= MAX_PLY
    ensures MateIn(ply) >= EVAL_MATE_IN_MAX_PLY
    ensures MatedIn(ply) <= -EVAL_MATE_IN_MAX_PLY
  {
  }

  /** The score constants and move-ordering ranks are strictly ordered. */
  lemma ConstantOrder()
    ensures EVAL_MATE < EVAL_INFINITE < EVAL_NONE
    ensures EVAL_MATE_IN_MAX_PLY == 30000 - 246
    ensures HASH_MOVE_SCORE > GOOD_CAPTURE > KILLER_SCORE > PROMOTION_SCORE > BAD_CAPTURE
  {
  }
}
