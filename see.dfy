/**
 * Static exchange evaluation: does a capture sequence on the target square
 * of a move, each side always recapturing with its least valuable
 * attacker, leave the mover at least `cutoff` ahead?  The board and the
 * attack generators of the external chess library are parameters; the
 * library's bitboards are sets of squares (`&` is intersection, `|` union,
 * `^` with a single bit toggles that square, `lsb` is the lowest square).
 */
module StaticExchange {
  import opened ChessTypes
  import opened SquareSets
  import opened Tune

  /** The part of the library's board the exchange reads. */
  datatype Board = Board(sideToMove: Color, pieceAt: Square -> PieceType, colorAt: Square -> Color)

  /** The library's attack generators: sliders take the blocking occupancy. */
  datatype AttackTables = AttackTables(
    rook: (Square, set<Square>) -> set<Square>,
    bishop: (Square, set<Square>) -> set<Square>,
    pawn: (Color, Square) -> set<Square>,
    knight: Square -> set<Square>,
    king: Square -> set<Square>)

  /** `board.pieces(pt, color)`. */
  function Pieces(b: Board, pt: PieceType, c: Color): set<Square>
  {
    set s: Square | 0 <= s < 64 && b.pieceAt(s) == pt && b.colorAt(s) == c
  }

  /** `board.pieces(pt)`: both colours. */
  function PiecesOfType(b: Board, pt: PieceType): set<Square>
  {
    set s: Square | 0 <= s < 64 && b.pieceAt(s) == pt
  }

  /** `board.occ()`. */
  function Occupied(b: Board): set<Square>
  {
    set s: Square | 0 <= s < 64 && b.pieceAt(s) != NONE
  }

  /** `board.us(c)`: the squares holding a piece of colour `c`. */
  function Side(b: Board, c: Color): set<Square>
  {
    set s: Square | 0 <= s < 64 && b.pieceAt(s) != NONE && b.colorAt(s) == c
  }

  /** `bb ^ (1ULL << x)`. */
  function Toggle(s: set<Square>, x: Square): set<Square>
  {
    if x in s then s - {x} else s + {x}
  }

  /**
   * Toggling flips only the membership of `x`, so the count moves by one,
   * and toggling twice gives the set back.
   */
  lemma ToggleFlips(s: set<Square>, x: Square)
    ensures x in Toggle(s, x) <==> x !in s
    ensures Toggle(s, x) - {x} == s - {x}
    ensures x in s ==> |Toggle(s, x)| == |s| - 1
    ensures x !in s ==> |Toggle(s, x)| == |s| + 1
    ensures Toggle(Toggle(s, x), x) == s
  {
  }

  // ---------------------------------------------------------------------------
  // getPieceValue

  /**
   * What the move wins on its own: nothing for castling, a pawn for en
   * passant, otherwise the piece on the target square plus, for a
   * promotion, the promoted piece less the pawn.
   */
  function GetPieceValue(b: Board, move: Move): (r: int)
    ensures move.kind == Castling ==> r == 0
    ensures move.kind == EnPassant ==> r == SEE_PIECE_VALUES[PAWN]
    ensures move.kind == Normal ==> r == SEE_PIECE_VALUES[b.pieceAt(move.to)]
    ensures move.kind == Promotion ==>
              r == SEE_PIECE_VALUES[b.pieceAt(move.to)] + SEE_PIECE_VALUES[move.promotion] - SEE_PIECE_VALUES[PAWN]
  {
    if move.kind == Castling then 0
    else if move.kind == EnPassant then SEE_PIECE_VALUES[PAWN]
    else
      var score := SEE_PIECE_VALUES[b.pieceAt(move.to)];
      if move.kind == Promotion then score + (SEE_PIECE_VALUES[move.promotion] - SEE_PIECE_VALUES[PAWN])
      else score
  }

  /** The value never is negative, except for a promotion to a king or to nothing. */
  lemma PieceValueBounds(b: Board, move: Move)
    ensures move.kind != Promotion ==> 0 <= GetPieceValue(b, move) <= SEE_QUEEN
    ensures move.kind == Promotion && KNIGHT <= move.promotion <= QUEEN ==>
              SEE_KNIGHT - SEE_PAWN <= GetPieceValue(b, move) <= 2 * SEE_QUEEN - SEE_PAWN
  {
    SeeValuesTable();
  }

  // ---------------------------------------------------------------------------
  // getLeastValuableAttacker

  /** The cheapest piece type from `piece` up to the king with a square in `attackers`, or NONE. */
  function LeastValuableFrom(b: Board, attackers: set<Square>, c: Color, piece: nat): (r: PieceType)
    requires piece <= 6
    ensures r == NONE ==> forall pt :: piece <= pt <= 5 ==> attackers * Pieces(b, pt, c) == {}
    ensures r != NONE ==> piece <= r <= 5 && attackers * Pieces(b, r, c) != {}
    ensures r != NONE ==> forall pt :: piece <= pt < r ==> attackers * Pieces(b, pt, c) == {}
    decreases 6 - piece
  {
    if piece == 6 then NONE
    else if attackers * Pieces(b, piece, c) != {} then piece
    else LeastValuableFrom(b, attackers, c, piece + 1)
  }

  function LeastValuable(b: Board, attackers: set<Square>, c: Color): PieceType
  {
    LeastValuableFrom(b, attackers, c, 0)
  }

  /** The occupancy once the least valuable attacker has left its square. */
  function AfterLeastValuable(b: Board, occ: set<Square>, attackers: set<Square>, c: Color): set<Square>
  {
    var pt := LeastValuable(b, attackers, c);
    if pt == NONE then occ else Toggle(occ, Lowest(attackers * Pieces(b, pt, c)))
  }

  /**
   * `getLeastValuableAttacker`: scans pawn to king for the first type with
   * an attacker of colour `c`, toggles that piece's lowest square in `occ`
   * and returns the type; NONE and `occ` as it was when there is none.
   */
  method GetLeastValuableAttacker(b: Board, occ: set<Square>, attackers: set<Square>, c: Color)
    returns (next: PieceType, newOcc: set<Square>)
    ensures next == LeastValuable(b, attackers, c)
    ensures newOcc == AfterLeastValuable(b, occ, attackers, c)
  {
    var piece := 0;
    while piece <= 5
      invariant 0 <= piece <= 6
      invariant LeastValuableFrom(b, attackers, c, piece) == LeastValuable(b, attackers, c)
    {
      var bitboard := attackers * Pieces(b, piece, c);
      if bitboard != {} {
        return piece, Toggle(occ, Lowest(bitboard));
      }
      piece := piece + 1;
    }
    return NONE, occ;
  }

  /**
   * Among attackers of colour `c` that are pieces of that colour, the least
   * valuable one is found and exactly its lowest square changes in the
   * occupancy (it leaves it when it stood there).
   */
  lemma LeastValuableFound(b: Board, occ: set<Square>, attackers: set<Square>, c: Color)
    requires attackers != {} && attackers <= Side(b, c)
    ensures LeastValuable(b, attackers, c) != NONE
    ensures Lowest(attackers * Pieces(b, LeastValuable(b, attackers, c), c)) in attackers
    ensures AfterLeastValuable(b, occ, attackers, c) ==
              Toggle(occ, Lowest(attackers * Pieces(b, LeastValuable(b, attackers, c), c)))
  {
    var sq :| sq in attackers;
    var pt := b.pieceAt(sq);
    assert sq in Pieces(b, pt, c);
  }

  // ---------------------------------------------------------------------------
  // The swap loop

  /** What the loop keeps fixed: the board, the generators, the target square and the slider sets. */
  datatype Exchange = Exchange(b: Board, atk: AttackTables, square: Square, bishops: set<Square>, rooks: set<Square>)

  /** What the loop changes: occupancy, attackers, the side to recapture, and the running score. */
  datatype Swap = Swap(occupancy: set<Square>, attackers: set<Square>, us: Color, score: int)

  /** Squares still on the board, with room for a first round whose attackers are not yet masked. */
  function Measure(st: Swap): nat
  {
    |st.occupancy| + (if st.attackers <= st.occupancy then 0 else 2)
  }

  /** The attackers of colour `us` are exactly the ones that may recapture. */
  function Ours(x: Exchange, st: Swap): set<Square>
  {
    st.attackers * Side(x.b, st.us)
  }

  /**
   * One recapture: the least valuable attacker of `us` leaves its square,
   * sliders behind it are uncovered, attackers are masked with the
   * occupancy, and the score flips to the other side's view less the
   * captured piece.
   */
  function Round(x: Exchange, st: Swap): (r: (PieceType, Swap))
  {
    var ours := Ours(x, st);
    var next := LeastValuable(x.b, ours, st.us);
    var occ := AfterLeastValuable(x.b, st.occupancy, ours, st.us);
    (next, Swap(occ, Uncover(x, next, occ, st.attackers), Opponent(st.us), -st.score - 1 - SEE_PIECE_VALUES[next]))
  }

  /**
   * The attackers after `next` has left: a pawn, bishop or queen uncovers
   * diagonal sliders, a rook or queen straight ones; then everything off
   * the board is dropped.
   */
  function Uncover(x: Exchange, next: PieceType, occ: set<Square>, attackers: set<Square>): (r: set<Square>)
    ensures r <= occ
  {
    var a1 := if next == PAWN || next == BISHOP || next == QUEEN
              then attackers + x.atk.bishop(x.square, occ) * x.bishops else attackers;
    var a2 := if next == ROOK || next == QUEEN then a1 + x.atk.rook(x.square, occ) * x.rooks else a1;
    a2 * occ
  }

  /** Each round with a recapture takes one attacker off the board, so the loop ends. */
  lemma RoundDecreases(x: Exchange, st: Swap)
    requires Ours(x, st) != {}
    ensures Round(x, st).0 != NONE
    ensures Measure(Round(x, st).1) < Measure(st)
  {
    var ours := Ours(x, st);
    LeastValuableFound(x.b, st.occupancy, ours, st.us);
    var sq := Lowest(ours * Pieces(x.b, LeastValuable(x.b, ours, st.us), st.us));
    var occ := Round(x, st).1.occupancy;
    assert occ == Toggle(st.occupancy, sq);
    if st.attackers <= st.occupancy {
      assert sq in st.occupancy;
      assert |occ| == |st.occupancy| - 1;
    } else {
      assert |occ| <= |st.occupancy| + 1;
    }
  }

  /** The loop's stop rule once a round has left the score non-negative, with the king exception. */
  function Stop(x: Exchange, next: PieceType, st: Swap): Color
  {
    if next == KING && Ours(x, st) != {} then Opponent(st.us) else st.us
  }

  /** The side `us` holds when the loop ends. */
  function Resolve(x: Exchange, st: Swap): Color
    decreases Measure(st)
  {
    if Ours(x, st) == {} then st.us
    else
      var (next, st2) := Round(x, st);
      RoundDecreases(x, st);
      if st2.score >= 0 then Stop(x, next, st2)
      else Resolve(x, st2)
  }

  /** The state after one recapture from `st`, and what `Resolve` then makes of it. */
  /** The round the loop runs, component by component. */
  lemma RoundIs(x: Exchange, st: Swap, next: PieceType, occupancy: set<Square>, attackers: set<Square>, us: Color, score: int)
    requires Ours(x, st) != {}
    requires next == LeastValuable(x.b, Ours(x, st), st.us)
    requires occupancy == AfterLeastValuable(x.b, st.occupancy, Ours(x, st), st.us)
    requires attackers == Uncover(x, next, occupancy, st.attackers)
    requires us == Opponent(st.us) && score == -st.score - 1 - SEE_PIECE_VALUES[next]
    ensures Round(x, st) == (next, Swap(occupancy, attackers, us, score))
  {
  }

  lemma ResolveStep(x: Exchange, st: Swap, next: PieceType, occupancy: set<Square>, attackers: set<Square>, us: Color, score: int)
    requires Ours(x, st) != {}
    requires next == LeastValuable(x.b, Ours(x, st), st.us)
    requires occupancy == AfterLeastValuable(x.b, st.occupancy, Ours(x, st), st.us)
    requires attackers == Uncover(x, next, occupancy, st.attackers)
    requires us == Opponent(st.us) && score == -st.score - 1 - SEE_PIECE_VALUES[next]
    ensures Measure(Swap(occupancy, attackers, us, score)) < Measure(st)
    ensures score >= 0 ==> Resolve(x, st) == Stop(x, next, Swap(occupancy, attackers, us, score))
    ensures score < 0 ==> Resolve(x, st) == Resolve(x, Swap(occupancy, attackers, us, score))
  {
    RoundDecreases(x, st);
    RoundIs(x, st, next, occupancy, attackers, us, score);
  }

  /** The same step, counted: the round just run is one of the rounds from `st`. */
  lemma RoundsStep(x: Exchange, st: Swap, next: PieceType, occupancy: set<Square>, attackers: set<Square>, us: Color, score: int)
    requires Ours(x, st) != {}
    requires next == LeastValuable(x.b, Ours(x, st), st.us)
    requires occupancy == AfterLeastValuable(x.b, st.occupancy, Ours(x, st), st.us)
    requires attackers == Uncover(x, next, occupancy, st.attackers)
    requires us == Opponent(st.us) && score == -st.score - 1 - SEE_PIECE_VALUES[next]
    ensures score >= 0 ==> Rounds(x, st) == 1
    ensures score < 0 ==> Rounds(x, st) == 1 + Rounds(x, Swap(occupancy, attackers, us, score))
  {
    RoundDecreases(x, st);
    RoundIs(x, st, next, occupancy, attackers, us, score);
  }

  /** How many rounds the loop runs from `st`. */
  function Rounds(x: Exchange, st: Swap): (n: nat)
    ensures n <= Measure(st)
    decreases Measure(st)
  {
    if Ours(x, st) == {} then 0
    else
      var st2 := Round(x, st).1;
      RoundDecreases(x, st);
      if st2.score >= 0 then 1 else 1 + Rounds(x, st2)
  }

  /**
   * Once every attacker that may recapture is still on the board, each
   * round takes one square off it, so there are at most as many rounds as
   * occupied squares.
   */
  lemma {:induction false} RoundsWithinOccupancy(x: Exchange, occupancy: set<Square>, attackers: set<Square>, us: Color, score: int)
    requires Ours(x, Swap(occupancy, attackers, us, score)) <= occupancy
    ensures Rounds(x, Swap(occupancy, attackers, us, score)) <= |occupancy|
    decreases |occupancy|
  {
    var st := Swap(occupancy, attackers, us, score);
    if Ours(x, st) != {} {
      var ours := Ours(x, st);
      RoundDecreases(x, st);
      LeastValuableFound(x.b, occupancy, ours, us);
      var st2 := Round(x, st).1;
      assert |st2.occupancy| == |occupancy| - 1;
      if st2.score < 0 {
        RoundsWithinOccupancy(x, st2.occupancy, st2.attackers, st2.us, st2.score);
      }
    }
  }

  /** The slider sets: queens count as both. */
  function Setup(b: Board, atk: AttackTables, move: Move): Exchange
  {
    var queens := PiecesOfType(b, QUEEN);
    Exchange(b, atk, move.to, queens + PiecesOfType(b, BISHOP), queens + PiecesOfType(b, ROOK))
  }

  /** The occupancy with the mover's from- and to-square toggled. */
  function InitialOccupancy(b: Board, move: Move): set<Square>
  {
    Toggle(Toggle(Occupied(b), move.from), move.to)
  }

  /** Every piece of either colour that attacks the target square. */
  function InitialAttackers(b: Board, atk: AttackTables, move: Move): set<Square>
  {
    var x := Setup(b, atk, move);
    var occupancy := InitialOccupancy(b, move);
    var sq := move.to;
    x.rooks * atk.rook(sq, occupancy)
    + x.bishops * atk.bishop(sq, occupancy)
    + Pieces(b, PAWN, BLACK) * atk.pawn(WHITE, sq)
    + Pieces(b, PAWN, WHITE) * atk.pawn(BLACK, sq)
    + PiecesOfType(b, KNIGHT) * atk.knight(sq)
    + PiecesOfType(b, KING) * atk.king(sq)
  }

  /** The piece standing on the target square after the move. */
  function Mover(b: Board, move: Move): PieceType
  {
    if move.kind == Promotion then move.promotion else b.pieceAt(move.from)
  }

  /** `see(board, move, cutoff)`: the two early exits, then the swap loop from the opponent's turn. */
  function See(b: Board, atk: AttackTables, move: Move, cutoff: int): bool
  {
    var score := GetPieceValue(b, move) - cutoff;
    if score < 0 then false
    else
      var score2 := score - SEE_PIECE_VALUES[Mover(b, move)];
      if score2 >= 0 then true
      else
        b.sideToMove != Resolve(Setup(b, atk, move), InitialSwap(b, atk, move, score2))
  }

  /** The loop's starting state: the opponent recaptures first. */
  function InitialSwap(b: Board, atk: AttackTables, move: Move, score: int): Swap
  {
    Swap(InitialOccupancy(b, move), InitialAttackers(b, atk, move), Opponent(b.sideToMove), score)
  }

  /** When neither early exit applies, `see` is decided by the loop started with score `v`. */
  lemma SeeByLoop(b: Board, atk: AttackTables, move: Move, cutoff: int, v: int)
    requires GetPieceValue(b, move) - cutoff >= 0
    requires v == GetPieceValue(b, move) - cutoff - SEE_PIECE_VALUES[Mover(b, move)] && v < 0
    ensures See(b, atk, move, cutoff) == (b.sideToMove != Resolve(Setup(b, atk, move), InitialSwap(b, atk, move, v)))
  {
  }

  /** How many rounds of the swap loop `see` runs: none after an early exit. */
  function SeeRounds(b: Board, atk: AttackTables, move: Move, cutoff: int): nat
  {
    var score := GetPieceValue(b, move) - cutoff;
    var score2 := score - SEE_PIECE_VALUES[Mover(b, move)];
    if score < 0 || score2 >= 0 then 0
    else Rounds(Setup(b, atk, move), InitialSwap(b, atk, move, score2))
  }

  /** When neither early exit applies, the loop runs the rounds `Rounds` counts from score `v`. */
  lemma SeeRoundsByLoop(b: Board, atk: AttackTables, move: Move, cutoff: int, v: int)
    requires GetPieceValue(b, move) - cutoff >= 0
    requires v == GetPieceValue(b, move) - cutoff - SEE_PIECE_VALUES[Mover(b, move)] && v < 0
    ensures SeeRounds(b, atk, move, cutoff) == Rounds(Setup(b, atk, move), InitialSwap(b, atk, move, v))
  {
    var score := GetPieceValue(b, move) - cutoff;
    assert score - SEE_PIECE_VALUES[Mover(b, move)] == v;
  }

  /**
   * In a legal position the mover belongs to the side to move and no square
   * attacks itself; then the loop runs at most once per square occupied
   * after the move.
   */
  lemma SeeRoundsWithinOccupancy(b: Board, atk: AttackTables, move: Move, cutoff: int)
    requires b.colorAt(move.from) == b.sideToMove
    requires move.to !in InitialAttackers(b, atk, move)
    ensures SeeRounds(b, atk, move, cutoff) <= |InitialOccupancy(b, move)|
  {
    var score2 := GetPieceValue(b, move) - cutoff - SEE_PIECE_VALUES[Mover(b, move)];
    var x := Setup(b, atk, move);
    var st := InitialSwap(b, atk, move, score2);
    forall sq | sq in Ours(x, st)
      ensures sq in st.occupancy
    {
      assert sq in Occupied(b);
    }
    RoundsWithinOccupancy(x, st.occupancy, st.attackers, st.us, st.score);
  }

  /** `see`, as the loop the engine runs; `rounds` counts its iterations that recapture. */
  method StaticExchangeEvaluation(b: Board, atk: AttackTables, move: Move, cutoff: int) returns (r: bool, ghost rounds: nat)
    ensures r == See(b, atk, move, cutoff)
    ensures rounds == SeeRounds(b, atk, move, cutoff)
  {
    rounds := 0;
    var score := GetPieceValue(b, move) - cutoff;
    if score < 0 {
      return false, rounds;
    }
    var next := Mover(b, move);
    score := score - SEE_PIECE_VALUES[next];
    if score >= 0 {
      return true, rounds;
    }
    var x := Setup(b, atk, move);
    ghost var target := Resolve(x, InitialSwap(b, atk, move, score));
    ghost var total := Rounds(x, InitialSwap(b, atk, move, score));
    SeeByLoop(b, atk, move, cutoff, score);
    SeeRoundsByLoop(b, atk, move, cutoff, score);
    var occupancy := InitialOccupancy(b, move);
    var attackers := InitialAttackers(b, atk, move);
    var us := Opponent(b.sideToMove);
    while true
      invariant score < 0
      invariant Resolve(x, Swap(occupancy, attackers, us, score)) == target
      invariant rounds + Rounds(x, Swap(occupancy, attackers, us, score)) == total
      decreases Measure(Swap(occupancy, attackers, us, score))
    {
      ghost var st := Swap(occupancy, attackers, us, score);
      var ourAttackers := attackers * Side(b, us);
      if ourAttackers == {} {
        assert us == target;
        break;
      }
      next, occupancy := GetLeastValuableAttacker(b, occupancy, ourAttackers, us);
      ghost var before := attackers;
      if next == PAWN || next == BISHOP || next == QUEEN {
        attackers := attackers + x.atk.bishop(x.square, occupancy) * x.bishops;
      }
      if next == ROOK || next == QUEEN {
        attackers := attackers + x.atk.rook(x.square, occupancy) * x.rooks;
      }
      attackers := attackers * occupancy;
      assert attackers == Uncover(x, next, occupancy, before);
      score := -score - 1 - SEE_PIECE_VALUES[next];
      us := Opponent(us);
      ResolveStep(x, st, next, occupancy, attackers, us, score);
      RoundsStep(x, st, next, occupancy, attackers, us, score);
      rounds := rounds + 1;
      if score >= 0 {
        if next == KING && attackers * Side(b, us) != {} {
          us := Opponent(us);
        }
        break;
      }
    }
    assert us == target;
    r := b.sideToMove != us;
  }

  // ---------------------------------------------------------------------------
  // Properties

  /** The two early exits: a loss before any recapture, a win even if the mover is lost. */
  lemma SeeEarlyExits(b: Board, atk: AttackTables, move: Move, cutoff: int)
    ensures GetPieceValue(b, move) - cutoff < 0 ==> !See(b, atk, move, cutoff)
    ensures GetPieceValue(b, move) - cutoff - SEE_PIECE_VALUES[Mover(b, move)] >= 0 ==> See(b, atk, move, cutoff)
  {
  }

  /** A capture nobody can answer wins exactly its own value. */
  lemma SeeUndefended(b: Board, atk: AttackTables, move: Move, cutoff: int)
    requires InitialAttackers(b, atk, move) * Side(b, Opponent(b.sideToMove)) == {}
    ensures See(b, atk, move, cutoff) <==> cutoff <= GetPieceValue(b, move)
  {
  }

  /** No king attacks the target square: the king rule never applies to this exchange. */
  predicate NoKingAttacker(b: Board, atk: AttackTables, move: Move)
  {
    PiecesOfType(b, KING) * atk.king(move.to) == {}
  }

  /**
   * No king can join the exchange from `attackers`: none stands among them,
   * and none among the sliders that an x-ray could uncover.
   */
  predicate NoKingJoins(x: Exchange, attackers: set<Square>)
  {
    (forall q :: q in attackers ==> x.b.pieceAt(q) != KING) &&
    (forall q :: q in x.bishops ==> x.b.pieceAt(q) != KING) &&
    (forall q :: q in x.rooks ==> x.b.pieceAt(q) != KING)
  }

  /** The slider sets hold no king, so only a king among the first attackers could join. */
  lemma NoKingJoinsInitially(b: Board, atk: AttackTables, move: Move)
    requires NoKingAttacker(b, atk, move)
    ensures NoKingJoins(Setup(b, atk, move), InitialAttackers(b, atk, move))
  {
  }

  /** The least valuable attacker of a state no king can join is not a king, and none joins later. */
  lemma NoKingJoinsRound(x: Exchange, st: Swap)
    requires Ours(x, st) != {} && NoKingJoins(x, st.attackers)
    ensures Round(x, st).0 != KING
    ensures NoKingJoins(x, Round(x, st).1.attackers)
  {
    var ours := Ours(x, st);
    var next := Round(x, st).0;
    LeastValuableFound(x.b, st.occupancy, ours, st.us);
    var q :| q in ours * Pieces(x.b, next, st.us);
    assert q in st.attackers;
  }

  // ---------------------------------------------------------------------------
  // The exchange gain, as a negamax over the swap list

  /**
   * What the side to recapture in `st` can still win on the target square
   * while a piece of type `onSquare` stands there: it may stop at once, or
   * take that piece with its least valuable attacker and leave the reply to
   * the other side.
   */
  function Reply(x: Exchange, st: Swap, onSquare: PieceType): (r: int)
    ensures 0 <= r <= SEE_PIECE_VALUES[onSquare]
    decreases Measure(st)
  {
    SeeValuesTable();
    if Ours(x, st) == {} then 0
    else
      var (next, st2) := Round(x, st);
      RoundDecreases(x, st);
      var taken := SEE_PIECE_VALUES[onSquare] - Reply(x, st2, next);
      if taken > 0 then taken else 0
  }

  /** The swap list does not depend on the running score. */
  lemma {:induction false} ReplyIgnoresScore(x: Exchange, occupancy: set<Square>, attackers: set<Square>, us: Color, s1: int, s2: int, onSquare: PieceType)
    ensures Reply(x, Swap(occupancy, attackers, us, s1), onSquare) == Reply(x, Swap(occupancy, attackers, us, s2), onSquare)
    decreases Measure(Swap(occupancy, attackers, us, s1))
  {
    var st1 := Swap(occupancy, attackers, us, s1);
    var st2 := Swap(occupancy, attackers, us, s2);
    if Ours(x, st1) != {} {
      RoundDecreases(x, st1);
      var (next, r1) := Round(x, st1);
      var r2 := Round(x, st2).1;
      assert r2 == r1.(score := r2.score);
      ReplyIgnoresScore(x, r1.occupancy, r1.attackers, r1.us, r1.score, r2.score, next);
    }
  }

  /**
   * The material the move wins when, after it, both sides go on capturing
   * on the target square with their least valuable attacker for as long as
   * that pays.
   */
  function ExchangeGain(b: Board, atk: AttackTables, move: Move): (g: int)
    ensures GetPieceValue(b, move) - SEE_PIECE_VALUES[Mover(b, move)] <= g <= GetPieceValue(b, move)
  {
    GetPieceValue(b, move) - Reply(Setup(b, atk, move), InitialSwap(b, atk, move, 0), Mover(b, move))
  }

  /** An unanswered capture gains exactly what it takes. */
  lemma ExchangeGainUndefended(b: Board, atk: AttackTables, move: Move)
    requires InitialAttackers(b, atk, move) * Side(b, Opponent(b.sideToMove)) == {}
    ensures ExchangeGain(b, atk, move) == GetPieceValue(b, move)
  {
  }

  /**
   * The loop state's score is the margin of the side that just captured,
   * should its piece be lost.  When no king can join, that side keeps the last word
   * exactly when the best reply does not exceed its margin with the piece.
   */
  lemma {:induction false} ResolveByReply(x: Exchange, occupancy: set<Square>, attackers: set<Square>, us: Color, score: int, onSquare: PieceType)
    requires NoKingJoins(x, attackers)
    requires score < 0 <= score + SEE_PIECE_VALUES[onSquare]
    ensures Resolve(x, Swap(occupancy, attackers, us, score)) == us <==>
            Reply(x, Swap(occupancy, attackers, us, score), onSquare) <= score + SEE_PIECE_VALUES[onSquare]
    decreases Measure(Swap(occupancy, attackers, us, score))
  {
    var st := Swap(occupancy, attackers, us, score);
    if Ours(x, st) != {} {
      RoundDecreases(x, st);
      var (next, st2) := Round(x, st);
      NoKingJoinsRound(x, st);
      if st2.score < 0 {
        ResolveByReply(x, st2.occupancy, st2.attackers, st2.us, st2.score, next);
      }
    }
  }

  /**
   * When no king attacks the target square, `see` with threshold `cutoff` holds exactly when the
   * exchange gains at least `cutoff`.
   */
  lemma SeeIsGainThreshold(b: Board, atk: AttackTables, move: Move, cutoff: int)
    requires NoKingAttacker(b, atk, move)
    ensures See(b, atk, move, cutoff) <==> cutoff <= ExchangeGain(b, atk, move)
  {
    var value := GetPieceValue(b, move);
    var mover := Mover(b, move);
    var v := value - cutoff - SEE_PIECE_VALUES[mover];
    if value - cutoff >= 0 && v < 0 {
      var st := InitialSwap(b, atk, move, v);
      var x := Setup(b, atk, move);
      SeeByLoop(b, atk, move, cutoff, v);
      NoKingJoinsInitially(b, atk, move);
      ReplyIgnoresScore(x, st.occupancy, st.attackers, st.us, v, 0, mover);
      ResolveByReply(x, st.occupancy, st.attackers, st.us, v, mover);
    }
  }

  /** When no king attacks the target square, the gain is the threshold for every cutoff at once. */
  lemma SeeThresholdIsGain(b: Board, atk: AttackTables, move: Move)
    requires NoKingAttacker(b, atk, move)
    ensures forall c :: See(b, atk, move, c) <==> c <= ExchangeGain(b, atk, move)
  {
    forall c
      ensures See(b, atk, move, c) <==> c <= ExchangeGain(b, atk, move)
    {
      SeeIsGainThreshold(b, atk, move, c);
    }
  }

  /** The thresholds around the gain g of a capture no king attacks: g - 1 and g pass, g + 1 fails. */
  lemma SeeGainThresholds(b: Board, atk: AttackTables, move: Move)
    requires NoKingAttacker(b, atk, move)
    ensures var g := ExchangeGain(b, atk, move);
            See(b, atk, move, g - 1) && See(b, atk, move, g) && !See(b, atk, move, g + 1)
  {
    SeeThresholdIsGain(b, atk, move);
  }

  /**
   * When no king can join, a higher running score never turns the loop's outcome
   * against the side to recapture: if `us` keeps the last word with score
   * s1, it does so with any s2 >= s1.
   */
  lemma {:induction false} ResolveMonotone(x: Exchange, occupancy: set<Square>, attackers: set<Square>, us: Color, s1: int, s2: int)
    requires NoKingJoins(x, attackers) && s1 <= s2
    ensures Resolve(x, Swap(occupancy, attackers, us, s1)) == us ==> Resolve(x, Swap(occupancy, attackers, us, s2)) == us
    decreases Measure(Swap(occupancy, attackers, us, s1))
  {
    var st1 := Swap(occupancy, attackers, us, s1);
    var st2 := Swap(occupancy, attackers, us, s2);
    if Ours(x, st1) != {} {
      RoundDecreases(x, st1);
      var (next, r1) := Round(x, st1);
      var r2 := Round(x, st2).1;
      assert r2 == r1.(score := r2.score);
      NoKingJoinsRound(x, st1);
      if r1.score < 0 && r2.score < 0 {
        ResolveMonotone(x, r1.occupancy, r1.attackers, r1.us, r2.score, r1.score);
      }
    }
  }

  /**
   * When no king attacks the target square, `see` is monotone in the threshold: a
   * capture that clears a cutoff clears every lower one.
   */
  lemma SeeMonotone(b: Board, atk: AttackTables, move: Move, c1: int, c2: int)
    requires NoKingAttacker(b, atk, move) && c1 <= c2
    ensures See(b, atk, move, c2) ==> See(b, atk, move, c1)
  {
    var v := GetPieceValue(b, move) - SEE_PIECE_VALUES[Mover(b, move)];
    if See(b, atk, move, c2) && v - c1 < 0 {
      var st := InitialSwap(b, atk, move, 0);
      SeeByLoop(b, atk, move, c1, v - c1);
      SeeByLoop(b, atk, move, c2, v - c2);
      NoKingJoinsInitially(b, atk, move);
      ResolveMonotone(Setup(b, atk, move), st.occupancy, st.attackers, st.us, v - c2, v - c1);
    }
  }
}
