/**
 * Bitboards of the external chess library, seen as sets of squares: the
 * least significant set bit is the lowest square, and `pop` removes it.
 */
module SquareSets {
  import opened ChessTypes

  /** The lowest square of `s` at or above `i`. */
  function LowestFrom(s: set<Square>, i: nat): (m: Square)
    requires exists j :: j in s && j >= i
    ensures m in s && m >= i
    ensures forall j :: j in s && j >= i ==> m <= j
    decreases 64 - i
  {
    if i in s then i
    else
      assert i < 64;
      LowestFrom(s, i + 1)
  }

  /** `lsb`: the lowest square of a nonempty bitboard. */
  function Lowest(s: set<Square>): (m: Square)
    requires s != {}
    ensures m in s
    ensures forall j :: j in s ==> m <= j
  {
    var j :| j in s;
    LowestFrom(s, 0)
  }

  /** Removing a square other than the lowest keeps the lowest. */
  lemma LowestAfterRemoving(s: set<Square>, x: Square)
    requires x in s && x != Lowest(s)
    ensures Lowest(s) in s - {x}
    ensures Lowest(s - {x}) == Lowest(s)
  {
  }
}
