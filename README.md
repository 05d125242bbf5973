# Schoenemann engine core in Dafny

This project models the integer core of the Schoenemann UCI chess engine and
proves properties of that model. The model has one Dafny module per component
of the engine:

- **`TranspositionTable`**: the transposition table. Slots are addressed by `key % size`.
  `storeHash` always replaces the slot, `getHash` matches the exact key, and `clear`
  and `init` size the table to a power of two. The mate-score re-basing pair
  `scoreToTT`/`scoreFromTT` is modelled too.
- **`HistoryTables`**: the history tables (quiet, continuation, pawn correction). Each is
  updated by a "gravity" formula. The module also has the read-only eval correction
  and the Zobrist key of one piece type.
- **`MoveOrdering`**: move ordering. It covers priority scoring of a move list and the
  selection step `sortByScore`, which swaps the best remaining move to the front.
- **`StaticExchange`**: static exchange evaluation. It covers piece values,
  least-valuable-attacker extraction and the swap loop, with its king rule.
- **`SearchRules`**: the decision rules of the principal-variation search, each as its
  own function or method:
  - mate-distance pruning and the score of a node without moves;
  - the transposition-table cutoff and the bound a finished node stores;
  - the late-move-reduction clamp in `uint8_t` arithmetic;
  - the principal-variation splice and the aspiration-window loop;
  - `scaleOutput`.
- **`TimeManagement`**: the time manager's state, meaning the limits and the two
  stability counters.
- **`Consts`**: the engine constants and the mate-score helpers.
- **`NnueUtil`, `NnueAccumulator`, `Nnue`**: the integer plumbing of the evaluation
  network. This is the accumulator arithmetic in 16 bits, feature indices, bucket
  selection, `screlu` and the output layer.
- **`Tune`**: the tunable-parameter registry.
- **`Strings`**: `trim` and `splitString`.
- **`Bitboards`**: the `Bitboard` bit-set class.
- **`Coordinates`**: the board directions and file masks.

A few shared modules support the rest:
- `IntMath`: C++ truncating division and fixed-width conversions, written out.
- `Bits`: bitwise operators on naturals, with no bit-vectors.
- `SquareSets`: the lowest square of a set.
- `ChessTypes`: the colours, pieces, squares and moves the engine takes from its chess
  library.
- `Wrappers`: `Option`.

Everything the engine takes from its chess library becomes a parameter:
- the piece on a square;
- the pieces of a type and colour;
- the attack generators, as functions of the square and the occupancy;
- the capture test;
- the Zobrist keys.

C++ semantics that the model writes out:
- Division truncates toward zero (`IntMath.TruncDiv`).
- `std::int8_t`, `std::int16_t`, `std::uint8_t` and `std::uint16_t` stores wrap around
  (`IntMath.ToInt16` and the others).
- `square ^ 56` and `color ^ 1` are computed with an arithmetic xor (`Bits.BitXor`) and
  characterised by lemmas.

Where the code and its surrounding declarations disagree, the model follows the code that runs:
- **Storing:**
  - `src/search.cpp` and `src/helper.cpp` call `storeEvaluation`, which no file declares. The model takes it to be `storeHash`, the table's only store.
  - `storeHash` in `src/tt.cpp` takes `int` depth, score and eval, while `src/tt.h` declares `uint8_t`/`int16_t` parameters. The model narrows the values where `setEntry` stores them (`TranspositionTable.Entry`).
- **`orderMoves`:** `src/search.cpp` calls it with the history tables and the search stack as extra arguments. The definition in `src/moveorder.cpp` takes neither and reads the searcher's tables. The model follows the definition and passes those tables, and the stack, as parameters.
- **History table shapes:** `src/history.h` declares the continuation and pawn-correction tables with their dimensions transposed relative to how `src/history.cpp` indexes them. The model dimensions them as indexed (see Findings).
- **Tuning registry:** `src/tune.h` declares `EngineParameter`, `addEngineParameter`, `findEngineParameterByName` and `engineParameterToUCI`, while `src/tune.cpp` defines `EngineParam`, `registerParam`, `findParam` and `paramsToUci`. The model follows the definitions in `src/tune.cpp` for the registry, and the struct of `src/tune.h` for the parameter.
- **The time manager:** it is `Time` in `src/time.cpp`, declared as `TimeManagement` in `src/timeman.h`.
- **Buffers:** `src/search.h` declares 150-entry principal-variation buffers, `src/search_fwd.h` 255. The model takes buffers of any length.

Two constants come from the headers as they stand. `infinity` is 32767 (`src/search.h:31`). Tunable parameters outside tuning builds are constants equal to their start value.

## Model

| member | source | states |
|---|---|---|
| Consts.MateIn | src/consts.h:45-47 | mating in ply p scores EVAL_MATE less p |
| Consts.MatedIn | src/consts.h:49-51 | being mated in ply p scores -EVAL_MATE plus p |
| Consts.MateSymmetric | src/consts.h:45-51 | mating in p scores the negation of being mated in p |
| Consts.MateMonotonic | src/consts.h:45-51 | a shorter mate scores further from zero than a longer one, for both signs |
| Consts.MateSign | src/consts.h:45-51 | for 0 <= p < EVAL_MATE, matedIn(p) < 0 < mateIn(p) |
| Consts.MateWithinMaxPly | src/consts.h:37-47 | every mate within MAX_PLY scores at least EVAL_MATE_IN_MAX_PLY in magnitude |
| Consts.ConstantOrder | src/consts.h:30-43 | EVAL_MATE < EVAL_INFINITE < EVAL_NONE, EVAL_MATE_IN_MAX_PLY = 30000 - 246, and hash move > good capture > killer > promotion > bad capture |
| Coordinates.Offset | movegen/coordinates.h:8-19 | each direction's square offset is 8 times its rank step plus its file step |
| Coordinates.OppositeCancels | movegen/coordinates.h:10-13 | opposite directions have negated offsets; taking the opposite twice is the identity |
| Coordinates.DiagonalsCompose | movegen/coordinates.h:15-18 | each diagonal's offset is the sum of its two components |
| Coordinates.StepMovesRankAndFile | movegen/coordinates.h:8-19 | a step that stays on the board moves exactly its rank and file steps |
| Coordinates.FileABits | movegen/coordinates.h:54 | 0x0101010101010101 holds exactly the squares 0, 8, …, 56 |
| Coordinates.FileMask | movegen/coordinates.h:52-55 | `toBitboard(f)` holds exactly the squares j < 64 with j % 8 == f |
| Coordinates.FilesDisjoint | movegen/coordinates.h:52-55 | masks of distinct files share no bit |
| Coordinates.SquareOnItsFile | movegen/coordinates.h:52-55 | every square lies in the mask of its file, so the eight masks cover the board |
| Bitboards.Mask | movegen/bitboard.h:34 | `1ULL << index` holds exactly bit `index` |
| Bitboards.DigitAt | movegen/bitboard.h:55-56 | character 63-k of `to_string()` is bit k of the word |
| Bitboards.ParseBinaryString | movegen/bitboard.h:55-56 | the 64-digit text determines the word: reading it back gives the word |
| Bitboards.StrLinesAt | movegen/bitboard.h:60-64 | line r of the text occupies characters 11r..11r+10 |
| Bitboards.Bitboard.Empty | movegen/bitboard.h:15 | the default bitboard is empty |
| Bitboards.Bitboard.constructor | movegen/bitboard.h:16 | `Bitboard(b)` holds b |
| Bitboards.Bitboard.Check | movegen/bitboard.h:32-35 | `check(i)` holds iff bit i is set |
| Bitboards.Bitboard.GetBits | movegen/bitboard.h:42-45 | the word's bits are exactly the checked squares |
| Bitboards.Bitboard.GetFromSquare | movegen/bitboard.h:47-51 | the result holds bit i alone when `check(i)`, and nothing otherwise |
| Bitboards.Bitboard.ClearSquare | movegen/bitboard.h:22-25 | bit i becomes clear and every other bit keeps its value |
| Bitboards.Bitboard.Clear | movegen/bitboard.h:27-30 | every bit becomes clear |
| Bitboards.Bitboard.Set | movegen/bitboard.h:37-40 | bit i becomes set and every other bit keeps its value |
| Bitboards.Bitboard.OrAssign | movegen/bitboard.h:73-77 | in-place union, also when the argument is the object itself |
| Bitboards.Bitboard.ToInt | movegen/bitboard.h:68-71 | `operator int` is the word modulo 2^32 |
| Bitboards.Bitboard.Str | movegen/bitboard.h:53-66 | 88 characters: eight lines, each of eight binary digits of its byte (most significant first), a space, its number 1..8 and a newline |
| TranspositionTable.BoundCodesAndDefault | src/tt.h:30-40 | EXACT, UPPER_BOUND, LOWER_BOUND are 0, 1, 2; a fresh slot has key 0 and NO_MOVE |
| TranspositionTable.SetEntry | src/tt.h:42-51 | every field gets its argument; a depth of 128 or more wraps into `int8_t` |
| TranspositionTable.Entry | src/tt.cpp:24-33 | the slot `storeHash` writes: depth, score and eval are kept whenever they fit their fields |
| TranspositionTable.StoredDepthWraps | src/tt.cpp:24-32 | the stored depth is the argument modulo 256 |
| TranspositionTable.ScoreToTT | src/tt.h:72-78 | identity strictly between the mate scores; keeps which side of ±EVAL_MATE the score lies on |
| TranspositionTable.ScoreFromTT | src/tt.h:80-86 | identity strictly between the mate scores; subtracts ply at or above EVAL_MATE, adds it at or below -EVAL_MATE |
| TranspositionTable.ScoreToTTCases | src/tt.h:72-78 | adds ply at or above EVAL_MATE and subtracts it at or below -EVAL_MATE |
| TranspositionTable.ScoreRoundTrip | src/tt.h:72-86 | for every ply >= 0, reading back a stored score gives the score |
| TranspositionTable.StoredScoreRoundTrip | src/tt.h:72-86 | the round trip survives the 16-bit score field whenever the re-based score fits it |
| TranspositionTable.ReBasedScoreFits | src/tt.h:72-78 | every score within ±EVAL_INFINITE at ply <= MAX_PLY fits `int16_t` once re-based |
| TranspositionTable.Index | src/tt.cpp:26 | `key % size` is a slot of the table |
| TranspositionTable.Probe | src/tt.cpp:35-46 | a hit is the key's slot holding that key; a miss means the slot holds another key |
| TranspositionTable.Store | src/tt.cpp:24-33 | the key's slot becomes the entry and every other slot is unchanged |
| TranspositionTable.ProbeAfterStore | src/tt.cpp:24-46 | a stored entry is found under its key |
| TranspositionTable.ProbeAfterStoreElsewhere | src/tt.cpp:24-46 | a store leaves the probe of every key on another slot unchanged |
| TranspositionTable.StoreEvicts | src/tt.cpp:24-46 | always-replace: a different key on the same slot makes the earlier key miss |
| TranspositionTable.ProbeCleared | src/tt.cpp:35-51 | in a cleared table key 0 hits the zero slot and every other key misses |
| TranspositionTable.StoreThenProbe | src/tt.cpp:24-46 | storing then probing returns key, move, score, eval, depth and bound as given, when they fit |
| TranspositionTable.SelfTest | src/helper.cpp:33-40 | the engine's table check: depth 2, LOWER_BOUND and score 200 at ply 1 read back as stored |
| TranspositionTable.CountUsed | src/tt.cpp:73-81 | the number of slots with a nonzero key, at most the number of slots |
| TranspositionTable.CountUsedCleared | src/tt.cpp:73-81 | a cleared table reports 0 |
| TranspositionTable.CountUsedFull | src/tt.cpp:73-81 | a table of nonzero keys reports every slot |
| TranspositionTable.PowerOfTwoGap | src/tt.cpp:57-62 | of two powers of two, the smaller is at most half the larger |
| TranspositionTable.PowerOfTwoFloorUnique | src/tt.cpp:57-62 | exactly one power of two p has p <= m < 2p |
| TranspositionTable.MaxEntries | src/tt.cpp:54-55 | `(MB << 20) / sizeof(Hash)` with the 64-bit shift, below 2^64 / 16 |
| TranspositionTable.MaxEntriesNoWrap | src/tt.cpp:54-55 | below 2^44 MB nothing wraps: 65536 slots per megabyte |
| TranspositionTable.MaxEntriesWraps | src/tt.cpp:54-55 | at 2^44 MB the shift wraps to zero slots |
| TranspositionTable.TableSize | src/tt.cpp:57-62 | the doubling loop then halving: 0 for no room, else the power of two p with p <= max < 2p |
| TranspositionTable.TT.constructor | src/tt.cpp:83-85 | a zeroed table sized as `init` sizes it |
| TranspositionTable.TT.SetSize | src/tt.cpp:53-71 | a fresh zeroed table of the power-of-two size |
| TranspositionTable.TT.Clear | src/tt.cpp:49-51 | every slot becomes the zero slot; the size stays |
| TranspositionTable.TT.StoreHash | src/tt.cpp:24-33 | the table becomes `Store` of the old table: one slot replaced, all others unchanged |
| TranspositionTable.TT.GetHash | src/tt.cpp:35-46 | the result is `Probe` of the table, which is not modified |
| TranspositionTable.TT.EstimateHashfull | src/tt.cpp:73-81 | the count of used slots among the first 1000, in [0, 1000]; needs at least 1000 slots |
| HistoryTables.HistoryGravity | src/history.cpp:33-39 | the quiet and pawn-correction rule `entry + bonus - entry·\|bonus\|/div`, truncating: a zero bonus keeps the entry, and a zero entry becomes the bonus |
| HistoryTables.ContinuationGravity | src/history.cpp:47-59 | the continuation rule `entry + (bonus - entry)·\|bonus\|/div`, truncating: an entry equal to the bonus is a fixed point |
| HistoryTables.GravityBounded | src/history.cpp:33-39 | entry and bonus within the divisor give an updated entry within the divisor |
| HistoryTables.QuietEntriesStayBounded | src/history.cpp:25-39 | with divisor 28000, quiet entries within ±28000 stay there |
| HistoryTables.ContinuationGravityBetween | src/history.cpp:47-59 | the continuation rule moves the entry toward the bonus and never past it |
| HistoryTables.ContinuationGravityBounded | src/history.cpp:47-59 | hence continuation entries stay within the divisor |
| HistoryTables.PieceKey | src/history.cpp:79-87 | the xor of the Zobrist keys of a set of squares, lowest first; `PieceKeyAnyOrder` and `PieceKeyToggle` characterise it |
| HistoryTables.PieceKeyAnyOrder | src/history.cpp:79-87 | the xor of the keys does not depend on the order the squares are popped |
| HistoryTables.PieceKeyToggle | src/history.cpp:79-87 | adding a square's key twice cancels |
| HistoryTables.GetPieceKey | src/history.cpp:79-87 | the loop computes the xor of the Zobrist keys of the piece's squares, 0 for none |
| HistoryTables.CorrectionIndex | src/history.cpp:65-67 | `key & 16383` is below 16384 and equals key mod 16384 |
| HistoryTables.History.constructor | src/history.h:24-28 | all three tables start at zero. The class declares no initialiser, so this is the zero start of an instance with static storage duration |
| HistoryTables.History.GetQuietHistory | src/history.cpp:29-31 | the quiet cell of the side, the moved piece and the target square, reading the table only; the update's contract is stated through it |
| HistoryTables.History.GetContinuationHistory | src/history.cpp:41-45 | the continuation cell keyed by the piece and target of the move at stack[ply] and by the current piece and target; the update's contract is stated through it |
| HistoryTables.History.UpdateQuietHistory | src/history.cpp:33-39 | only the cell [side][moved piece][to] changes, by bonus - old·\|bonus\|/28000 |
| HistoryTables.History.UpdateContinuationHistory | src/history.cpp:47-60 | only the cell keyed by stack[ply-1] and the move changes, by (bonus - old)·\|bonus\|/28000; nothing changes when the earlier piece is NONE |
| HistoryTables.History.UpdatePawnCorrectionHistory | src/history.cpp:62-68 | only the side's cell at the pawn key's index changes, by the gravity rule with the caller's divisor |
| HistoryTables.History.CorrectEval | src/history.cpp:70-77 | rawEval plus that cell / 30, truncating, reading the table only |
| HistoryTables.History.ResetHistories | src/history.cpp:89-93 | every entry of all three tables becomes 0 |
| HistoryTables.DeclaredPawnUpdate | src/history.h:28 | the pawn-correction update on memory of the declared shape |
| HistoryTables.DeclaredPawnTableAliases | src/history.h:28 | in the declared shape, black's cell 0 is white's cell 2 |
| HistoryTables.DeclaredContinuationTableAliases | src/history.h:27 | in the declared shape, two distinct continuation cells share memory |
| StaticExchange.ToggleFlips | src/see.cpp:66 | xor with one square flips that square's membership and no other; the count moves by one; toggling twice restores the set |
| StaticExchange.GetPieceValue | src/see.cpp:22-44 | castling 0, en passant a pawn, otherwise the captured piece's value plus the promotion gain |
| StaticExchange.PieceValueBounds | src/see.cpp:22-44 | values lie between 0 and a queen, except for promotions |
| StaticExchange.LeastValuableFrom | src/see.cpp:122-133 | the cheapest piece type present among the attackers, or NONE when there is none |
| StaticExchange.GetLeastValuableAttacker | src/see.cpp:120-134 | the loop returns that piece type and removes its lowest square from the occupancy |
| StaticExchange.LeastValuableFound | src/see.cpp:120-134 | with attackers present the piece is found and exactly its lowest square leaves the occupancy |
| StaticExchange.Uncover | src/see.cpp:92-102 | the attackers after x-rays are added, kept within the occupancy |
| StaticExchange.RoundDecreases | src/see.cpp:84-103 | each round with a recapture takes one attacker off the board, so the loop ends |
| StaticExchange.ResolveStep | src/see.cpp:84-114 | one round: score := -score - 1 - value, side flips, and the loop stops once score >= 0 |
| StaticExchange.Resolve | src/see.cpp:82-117 | the side `us` holds when the loop ends: no attacker of ours stops it, otherwise one round and the king rule once the score is not negative; `ResolveStep` ties it to the loop |
| StaticExchange.Rounds | src/see.cpp:82-115 | the number of rounds that recapture from a state, at most the termination measure (the squares on the board plus two) |
| StaticExchange.RoundsStep | src/see.cpp:84-114 | one recapturing round is counted once: the last round counts 1, any other 1 plus the rounds after it |
| StaticExchange.RoundsWithinOccupancy | src/see.cpp:84-115 | when every attacker that may recapture stands on the board, there are at most as many rounds as occupied squares |
| StaticExchange.SeeRoundsByLoop | src/see.cpp:47-115 | past the early exits, `see` runs the rounds that `Rounds` counts from the initial state |
| StaticExchange.SeeRoundsWithinOccupancy | src/see.cpp:63-115 | for a move of the side to move, `see` runs at most popcount(occ ^ from ^ to) rounds |
| StaticExchange.SeeByLoop | src/see.cpp:47-117 | past the early exits `see` is decided by the swap loop from the opponent's turn |
| StaticExchange.See | src/see.cpp:47-118 | the two early exits, then the verdict of `Resolve` from the opponent's turn; `SeeEarlyExits` and `SeeIsGainThreshold` characterise it |
| StaticExchange.StaticExchangeEvaluation | src/see.cpp:47-118 | the imperative loop returns `See`, and its ghost count of recapturing rounds equals `SeeRounds`: none after an early exit |
| StaticExchange.SeeEarlyExits | src/see.cpp:49-61 | false when the gain is below the cutoff; true when it still is not below it after losing the mover |
| StaticExchange.SeeUndefended | src/see.cpp:47-117 | an unanswered capture passes exactly the cutoffs up to its own value |
| StaticExchange.Reply | src/see.cpp:82-115 | the reference negamax over the swap list: the side to recapture may stop or take with its least valuable attacker; between 0 and the value of the piece on the square |
| StaticExchange.ReplyIgnoresScore | src/see.cpp:82-115 | the swap list and its negamax do not depend on the running score |
| StaticExchange.ExchangeGain | src/see.cpp:47-118 | the material the move wins under that negamax: at most the captured value, at least that value less the mover |
| StaticExchange.ExchangeGainUndefended | src/see.cpp:47-118 | with no opponent attacker the gain is the captured value |
| StaticExchange.ResolveByReply | src/see.cpp:82-117 | when no king is among the attackers or the x-ray sliders, the side that just captured keeps the last word iff the best reply is within its margin with the piece |
| StaticExchange.SeeIsGainThreshold | src/see.cpp:47-118 | when no king attacks the target square, `see(move, cutoff)` holds iff cutoff <= the exchange gain, in both directions |
| StaticExchange.SeeThresholdIsGain | src/see.cpp:47-118 | when no king attacks the target square, the cutoffs that pass are exactly those up to the gain, for every cutoff at once |
| StaticExchange.SeeGainThresholds | src/tests.cpp:23-25 | the engine's test: for the exchange gain g of any capture no king attacks, thresholds g-1 and g pass and g+1 fails |
| StaticExchange.ResolveMonotone | src/see.cpp:82-117 | when no king is among the attackers or the x-ray sliders, a higher starting score never turns a win into a loss |
| StaticExchange.SeeMonotone | src/see.cpp:47-117 | when no king attacks the target square, a capture that passes a cutoff passes every lower one |
| StaticExchange.NoKingJoinsRound | src/see.cpp:90-102 | with no king among the attackers or x-ray sliders, the least valuable attacker is no king and no king joins in the next round |
| SquareSets.LowestFrom | src/see.cpp:127 | the lowest square of the set at or above i |
| SquareSets.Lowest | src/see.cpp:127 | `lsb`: the lowest square of a nonempty set |
| SquareSets.LowestAfterRemoving | src/see.cpp:127 | removing another square keeps the lowest |
| MoveOrdering.CaptureScore | src/moveorder.cpp:21-31 | the capture rank: good or bad capture by `see` at 0, plus 103·victim - attacker; `RuleOrder` and `CaptureRanks` characterise it |
| MoveOrdering.ScoreCapture | src/moveorder.cpp:21-31 | the capture branch, as run with the loop of `see`, returns `CaptureScore` |
| MoveOrdering.MoveScore | src/moveorder.cpp:13-44 | the score of one move by the first matching rule: hash move, capture, killer, promotion, else prior plus quiet and continuation history; `HashMoveFirst` and `RuleOrder` characterise it |
| MoveOrdering.IsHashMove | src/moveorder.cpp:13-19 | a table entry is present, its key is the position's and its move is this move; `HashMoveFirst` characterises the score it gives |
| MoveOrdering.OrderMoves | src/moveorder.cpp:5-46 | each list cell gets `MoveScore` of its move; cells beyond the list are untouched |
| MoveOrdering.HashMoveFirst | src/moveorder.cpp:13-20 | the key-matching table move scores 500000, and no other capture, killer or promotion reaches it |
| MoveOrdering.RuleOrder | src/moveorder.cpp:21-40 | a capture scores by the exchange verdict and 103·victim - attacker; a killer 300000 only if no capture; a promotion 200000 only if neither |
| MoveOrdering.CaptureRanks | src/moveorder.cpp:26-29 | with the default values a good capture ranks strictly between killer and hash move, a bad one below promotions |
| MoveOrdering.SwapEntries | src/moveorder.cpp:54-55 | positions i and j swap in both arrays; the (move, score) pairs are preserved |
| MoveOrdering.SortByScore | src/moveorder.cpp:48-59 | scores[i] becomes the highest of the scores from i on and some of them; pairs permuted together; earlier positions untouched; returns moveList[i] |
| MoveOrdering.VisitInOrder | src/search.cpp:403-405 | calling `sortByScore` for i = 0.. yields the list in non-increasing score order, a permutation of its pairs |
| TimeManagement.KeptTime | src/time.cpp:25 | `timeLeft - timeLeft / 2` is the upper half of the time, within [0, timeLeft] |
| TimeManagement.Limit | src/time.cpp:34-43 | each limit is its candidate capped by the maximum time and never below 1 |
| TimeManagement.LimitMonotone | src/time.cpp:34-43 | a larger candidate never gives a smaller limit |
| TimeManagement.StabilityStep | src/time.cpp:46-56 | one counter step: either a reset to 0 or, on a repeat, one more than before |
| TimeManagement.StabilityBounded | src/time.cpp:46-56 | counters stay in [0, 10]; a repeat below 10 adds one, anything else resets |
| TimeManagement.StableRunCounts | src/time.cpp:46-56 | k repeats from zero count k up to 10, and the eleventh resets to 0 |
| TimeManagement.EvalUpdateAsWritten | src/time.cpp:58-68 | the eval update as written never changes the eval counter |
| TimeManagement.EvalUpdateAsWrittenOvershoots | src/time.cpp:46-68 | as written, the best-move counter goes from 9 to 11, past its cap |
| TimeManagement.Time.constructor | src/timeman.h:44-53 | every field starts at zero |
| TimeManagement.Time.CalculateTimeForMove | src/time.cpp:22-44 | keeps half the time and sets both limits through `Limit`; counters unchanged |
| TimeManagement.Time.UpdateBestMoveStability | src/time.cpp:46-56 | the best-move counter takes one stability step and stays within its cap |
| TimeManagement.Time.UpdateEvalStabilityAsWritten | src/time.cpp:58-68 | the source's update: tests the eval counter and steps the best-move counter |
| TimeManagement.Time.UpdateEvalStability | src/time.cpp:58-68 | the corrected update: the eval counter takes one stability step |
| TimeManagement.Time.Reset | src/time.cpp:70-77 | both counters and both limits become 0 |
| TimeManagement.Time.ShouldStopSoft | src/time.cpp:79-83 | more milliseconds elapsed than the hard limit; `StopTestsOrdered` characterises it |
| TimeManagement.Time.ShouldStopID | src/time.cpp:85-89 | more milliseconds elapsed than the soft limit; `StopTestsOrdered` characterises it |
| TimeManagement.StopTestsOrdered | src/time.cpp:79-89 | both stop tests only switch on as time passes; with soft <= hard, stopping soft implies stopping the iteration |
| SearchRules.MateDistancePrune | src/search.cpp:155-175 | the narrowed window is [max(alpha, -inf+ply), min(beta, inf-ply)]; a cutoff returns inf-ply or -inf+ply exactly when its side is reached |
| SearchRules.MateDistanceCutoffIffEmpty | src/search.cpp:155-175 | for a non-empty window, the pruning cuts off iff the window clamped to the mate bounds is empty |
| SearchRules.NoMovesScore | src/search.cpp:383-386 | no legal moves: -inf+ply in check, 0 otherwise |
| SearchRules.MatedScoreOrder | src/search.cpp:383-386 | being mated later scores higher, and the mated score lies inside the pruned window |
| SearchRules.MatedScoreStored | src/search.cpp:383-386 | a mated score is at most -EVAL_MATE and survives the 16-bit table round trip |
| SearchRules.TTCutoff | src/search.cpp:201-229 | a stored score is returned only at a non-PV node, ply > 0, matching key, no excluded move and enough depth, and only for an exact bound, an upper bound at or below alpha or a lower bound at or above beta |
| SearchRules.TTCutoffSound | src/search.cpp:221-229 | a returned bound is on the same side of alpha and of beta as the true value it describes |
| SearchRules.FinalBound | src/search.cpp:588-601 | LOWER iff bestScore >= beta; EXACT iff below beta at a PV node that raised alpha; otherwise UPPER |
| SearchRules.FinalBoundMeaning | src/search.cpp:588-601 | the same classification in terms of alpha and beta themselves |
| SearchRules.NodeStore | src/search.cpp:603-605 | no store while a move is excluded; otherwise the node's slot: key, best move and final bound, with depth, re-based score and raw eval each stored exactly when it fits its field |
| SearchRules.StoredNodeCutsOff | src/search.cpp:588-605 | a finished non-PV node's store makes the same probe cut off with the same score |
| SearchRules.QsStores | src/search.cpp:776-780 | quiescence writes its slot twice without an excluded move and once with one; the last write holds the raw eval |
| SearchRules.QsStoreIgnoresExcluded | src/search.cpp:776-780 | the final write is the same whether or not a move is excluded |
| SearchRules.LateMoveReduction | src/search.cpp:489-496 | no reduction at depth <= 2; otherwise at most depth-1 as `uint8_t` |
| SearchRules.LateMoveReductionRange | src/search.cpp:489-496 | the reduced depth lies in [0, depth); a zero entry at a PV node wraps to 255 and clamps to depth-1 |
| SearchRules.LateMoveReductionPv | src/search.cpp:492-495 | at a PV node that is not a cut node a positive entry is reduced by one |
| SearchRules.UpdatePvLine | src/search.cpp:524-535 | below the length limit the parent's line becomes the move followed by the child's line; otherwise it is unchanged |
| SearchRules.Widen | src/search.cpp:801-809 | fail high: beta += delta, capped at inf; fail low: beta becomes the truncated midpoint, alpha -= delta, floored at -inf |
| SearchRules.WidenKeepsBounds | src/search.cpp:801-809 | windows stay within ±inf; fail high raises only beta; fail low lowers alpha and never raises beta |
| SearchRules.AspirationRounds | src/search.cpp:792-816 | the aspiration loop from a window: unless the clock stops it, it ends with alpha < score < beta |
| SearchRules.AspirationRoundsExit | src/search.cpp:792-816 | the loop ends out of time or with alpha < score < beta, its window within ±inf |
| SearchRules.InitialWindow | src/search.cpp:787-789 | score ± 26 clamped to ±inf, a valid window |
| SearchRules.Aspiration | src/search.cpp:785-819 | the loop returns the score of `AspirationRounds` from the initial window |
| SearchRules.GamePhase | src/search.cpp:909-912 | 3·knights + 3·bishops + 5·rooks + 18·queens: between 3 and 18 per piece counted, and 0 iff no such piece is on the board |
| SearchRules.ScaleOutput | src/search.cpp:907-915 | rawEval · (169 + phase) / 269 with truncation never flips the sign |
| SearchRules.ScaleOutputOdd | src/search.cpp:907-915 | negating the eval negates the result |
| SearchRules.ScaleOutputShrinks | src/search.cpp:907-915 | with phase at most 100 the magnitude never grows |
| NnueConstants.Shape | src/NNUE/nnueconstants.h:24-36 | 768 = 2·384 inputs, 384 = 6·64, 786432 feature weights, QA·QB = 16320 |
| NnueUtil.Screlu | src/NNUE/utils.h:10-14 | clamp(x, 0, 255)² lies in [0, 65025]; 0 for x <= 0, 65025 for x >= 255 |
| NnueUtil.ScreluMonotone | src/NNUE/utils.h:10-14 | `screlu` never decreases |
| NnueUtil.AddSlice | src/NNUE/utils.h:16-31 | cell i becomes acc[i] + w[offset + i], wrapped to 16 bits |
| NnueUtil.SubSlice | src/NNUE/utils.h:32-48 | cell i becomes acc[i] - w[offset + i], wrapped to 16 bits |
| NnueUtil.SubAfterAdd | src/NNUE/utils.h:16-48 | subtracting a slice after adding it restores the accumulator, under 16-bit wrap-around |
| NnueUtil.AddAfterSub | src/NNUE/utils.h:16-48 | adding after subtracting restores it as well |
| NnueUtil.AddSlicesCommute | src/NNUE/utils.h:16-31 | two slice additions give the same accumulator in either order |
| NnueUtil.AddAll | src/NNUE/utils.h:16-31 | us[i] += w[usOffset+i] and them[i] += w[themOffset+i] for every i, in 16 bits, and nothing else changes |
| NnueUtil.SubAll | src/NNUE/utils.h:32-48 | the same two slices subtracted |
| NnueUtil.HiddenSum | src/NNUE/utils.h:50-68 | the sum of screlu(us[i])·row[i] + screlu(them[i])·row[1024 + i] over the first n units; `HiddenSumSwap` and `HiddenSumInactive` characterise it |
| NnueUtil.ForwardValue | src/NNUE/utils.h:50-68 | the output: hidden sum / QA, plus bias, ·400, / (QA·QB), truncating; `ForwardInactive` and `Forward` characterise it |
| NnueUtil.HiddenSumSwap | src/NNUE/utils.h:50-68 | exchanging the accumulators and the halves of the row gives the same sum |
| NnueUtil.HiddenSumInactive | src/NNUE/utils.h:50-68 | with no active hidden unit the sum is 0 |
| NnueUtil.ForwardInactive | src/NNUE/utils.h:50-68 | then the output is bias·400/(255·64) |
| NnueUtil.Forward | src/NNUE/utils.h:50-68 | the loop computes `ForwardValue`: row cells 0..1023 with us, 1024..2047 with them, /QA, + bias, ·400, /(QA·QB) |
| NnueAccumulator.Accumulator.constructor | src/NNUE/accumulator.h:32-34 | a new accumulator is zero in both perspectives |
| NnueAccumulator.Accumulator.LoadBias | src/NNUE/accumulator.h:36-39 | both perspectives become copies of the bias, which is unchanged |
| NnueAccumulator.Accumulator.ZeroAccumulator | src/NNUE/accumulator.h:41-44 | every element of both perspectives becomes 0 |
| Nnue.MirrorSquare | src/NNUE/nnue.h:106 | `square ^ 56`; `MirrorSquareIs` and `MirrorSquareMirrors` characterise it |
| Nnue.OtherColor | src/NNUE/nnue.h:106 | `color ^ 1`; `OtherColorIs` characterises it |
| Nnue.MirrorSquareIs | src/NNUE/nnue.h:106 | for sq < 64, sq ^ 56 is 8·(7 - rank) + file |
| Nnue.MirrorSquareMirrors | src/NNUE/nnue.h:106 | sq ^ 56 keeps the file, mirrors the rank and undoes itself |
| Nnue.OtherColorIs | src/NNUE/nnue.h:106 | color ^ 1 is 1 - color |
| Nnue.WhiteIndex | src/NNUE/nnue.h:102-105 | the feature index from White's side in `uint16_t` arithmetic; `WhiteIndexIs` and `WhiteIndexInjective` characterise it |
| Nnue.BlackIndex | src/NNUE/nnue.h:102-106 | the index from Black's side: other colour, mirrored square; `FeatureIndices` characterises it |
| Nnue.WhiteIndexIs | src/NNUE/nnue.h:102-105 | whiteIndex = color·384 + piece·64 + sq < 768, without wrap-around |
| Nnue.FeatureIndices | src/NNUE/nnue.h:102-106 | blackIndex is the white index of the same piece of the other colour on the mirrored square, < 768 |
| Nnue.WhiteIndexInjective | src/NNUE/nnue.h:102-105 | different features have different white indices |
| Nnue.Updated | src/NNUE/nnue.h:95-117 | both accumulators after one feature update keep their length; `ToggleRestores` and `ActivationsCommute` characterise it |
| Nnue.ToggleRestores | src/NNUE/nnue.h:95-117 | deactivating a feature undoes activating it, and the other way round |
| Nnue.ActivationsCommute | src/NNUE/nnue.h:95-117 | two activations give the same accumulators in either order |
| Nnue.Bucket | src/NNUE/nnue.h:123 | (pieces - 2) / 4 with C++ division, narrowed to `short`; `BucketRange` and `BucketMonotone` characterise it |
| Nnue.BucketRange | src/NNUE/nnue.h:123 | the bucket is (pieces - 2)/4, in [0, 7] for up to 33 pieces, 0 for 0 and 1 pieces, 8 for 34 |
| Nnue.BucketMonotone | src/NNUE/nnue.h:123 | more pieces never give a lower bucket |
| Nnue.PerspectiveSwap | src/NNUE/nnue.h:128-135 | evaluating with (black, white) is evaluating with (white, black) on the row with swapped halves |
| Nnue.Network.constructor | src/NNUE/nnue.h:48-87 | the network holds the given parameters and a zero accumulator |
| Nnue.Network.RefreshAccumulator | src/NNUE/nnue.h:89-93 | both accumulators become the feature bias |
| Nnue.Network.UpdateAccumulator | src/NNUE/nnue.h:95-117 | activation adds, deactivation subtracts, the feature's slice at both perspective indices |
| Nnue.Network.Evaluate | src/NNUE/nnue.h:119-138 | side 0 evaluates (white, black), any other side (black, white), in the piece-count bucket; the accumulators are only read |
| Tune.DefineParamB | src/tune.h:71 | the non-tuning `DEFINE_PARAM_B`: the start value; `DefineParamBIgnoresBounds` characterises it |
| Tune.DefineParamBIgnoresBounds | src/tune.h:71 | without tuning a parameter is its start value whatever its bounds |
| Tune.SeeValuesTable | src/tune.cpp:64-70 | SEE_PIECE_VALUES = [140, 287, 348, 565, 1045, 0, 0], increasing from pawn to queen |
| Tune.PieceValuesTable | src/tune.cpp:72-78 | PIECE_VALUES = [73, 258, 217, 476, 569, 15000, 0] |
| Tune.EngineParameter.ToInt | src/tune.h:43-46 | the int conversion is the value |
| Tune.EngineParameter.constructor | src/tune.h:48-57 | name, value, min and max as given (also when max < min) and the parameter appended to the registry |
| Tune.FirstMatch | src/tune.cpp:16-26 | the lowest index with the name, or none iff no name matches |
| Tune.OptionLine | src/tune.cpp:36 | the text of one option line; `OptionLineHasNoNewline` characterises it |
| Tune.Terminated | src/tune.cpp:32-37 | lines written one after another, each followed by a newline; `TerminatedAppend` and `TerminatedFields` characterise it |
| Tune.OptionTexts | src/tune.cpp:28-40 | one option line per parameter, in registration order |
| Tune.OptionTextsExtend | src/tune.cpp:32-37 | one more parameter adds its line at the end |
| Tune.TerminatedAppend | src/tune.cpp:36 | writing one more line appends it and a newline |
| Tune.TerminatedFields | src/tune.cpp:28-40 | cutting the output at its newlines gives the lines back |
| Tune.OptionLineHasNoNewline | src/tune.cpp:36 | an option line holds no newline when the name holds none |
| Tune.OptionListingLines | src/tune.cpp:28-40 | the output is exactly the option lines, one per parameter |
| Tune.ParamRegistry.constructor | src/tune.cpp:9 | the registry starts empty |
| Tune.ParamRegistry.Register | src/tune.cpp:11-14 | appends, keeping everything registered before |
| Tune.ParamRegistry.FindParam | src/tune.cpp:16-26 | the first registered parameter with the name, or none; the registry is unchanged |
| Tune.ParamRegistry.ParamsToUci | src/tune.cpp:28-40 | the newline-terminated option lines in registration order |
| Strings.FindFirstNotOf | src/tests.h:16 | the first non-whitespace position, or none iff the text is all whitespace |
| Strings.FindLastNotOf | src/tests.h:17 | the last non-whitespace position, or none iff the text is all whitespace |
| Strings.Trim | src/tests.h:14-22 | the result has no whitespace at either end, and is empty iff the input is blank |
| Strings.TrimDecomposes | src/tests.h:14-22 | the input is whitespace + trim + whitespace; the interior is kept as is |
| Strings.TrimIdempotent | src/tests.h:14-22 | trimming twice is trimming once |
| Strings.TrimOfTrimmed | src/tests.h:14-22 | a trimmed text is its own trim |
| Strings.Fields | src/tests.h:30 | the `getline` fields: the text before each delimiter, and the rest unless empty; `FieldsJoin` and `FieldsAvoidDelimiter` characterise it |
| Strings.Split | src/tests.h:24-38 | the trimmed nonempty tokens between delimiters, in input order; `SplitIsFilteredFields`, `SplitTokens` and `SplitWithoutDelimiter` characterise it |
| Strings.FieldsJoin | src/tests.h:30 | the `getline` fields joined by the delimiter give the input back |
| Strings.FieldsAvoidDelimiter | src/tests.h:30 | no field contains the delimiter |
| Strings.SplitIsFilteredFields | src/tests.h:24-38 | the split is the fields, trimmed, with empty ones dropped, in input order |
| Strings.SplitTokens | src/tests.h:30-35 | every token is nonempty, trimmed and free of the delimiter |
| Strings.SplitWithoutDelimiter | src/tests.h:24-38 | without a delimiter the result is [trim(str)], or [] for blank input |
| Strings.GetLine | src/tests.h:30 | one `getline`: the characters up to the next delimiter or the end |
| Strings.SplitString | src/tests.h:24-38 | the loop computes `Split` |
| Strings.NatDecimalRoundTrip | src/tune.cpp:36 | reading a written natural number gives it back |
| Strings.IntDecimalRoundTrip | src/tune.cpp:36 | the same for negative values |
| Strings.NatDecimalDigits | src/tune.cpp:36 | written numbers consist of digits |
| Strings.IntDecimalHasNoNewline | src/tune.cpp:36 | a written number holds no newline |

## Left out

- The recursive search (`pvs`, `qs`, iterative deepening) is left out. It runs on the chess library's board, with make and unmake, legal move generation, the network evaluator, the clock and output. Only the rules listed above are modelled, each as its own member.
- The pawn-correction bonus at the end of `pvs` (`src/search.cpp:608-612`) is modelled only through `HistoryTables.History.UpdatePawnCorrectionHistory`. The bonus itself is an input.
- Floating point is left out; the values it produces are inputs:
  - `initLMR`'s logarithm table: the reduction table entry is an input of `SearchRules.LateMoveReduction`;
  - the aspiration multiplier: a growth function of delta is an input;
  - the fractional factors of `calculateTimeForMove`: `maxTime` and the two candidates are inputs;
  - `paramsToSpsaInput`.
- The clock is a parameter, not modelled. The stop tests take the elapsed milliseconds, and the aspiration loop takes a time-up predicate of the round number.
- `TimeManagement.Time`: `moveTime` and `isInfiniteSearch` are not modelled, since no modelled operation reads them.
- The network's file reading is left out (I/O). `Nnue.Network.constructor` takes the parameter arrays.
- `NnueUtil.Forward`: the `int` sum is unbounded, so a 32-bit overflow of the hidden sum is not modelled. With 16-bit weights, 2048 hidden terms of at most 65025·32768 each could exceed it.
- `StaticExchange`: bitboards are modelled as sets of squares, not as 64-bit words. The attack generators of the chess library are parameters.
- `StaticExchange.SeeIsGainThreshold`, `StaticExchange.SeeThresholdIsGain` and `StaticExchange.SeeGainThresholds` are proved only when no king attacks the target square. A king's SEE value is 0 and the king rule can undo its capture, so when a king takes part `see` departs from the plain negamax of `StaticExchange.ExchangeGain`. A king elsewhere on the board plays no part in the exchange.
- `StaticExchange.ResolveByReply`: proved only when no king is among the attackers or the x-ray sliders, for the same reason.
- `StaticExchange.ResolveMonotone`: proved only when no king is among the attackers or the x-ray sliders, for the same reason.
- `StaticExchange.SeeRoundsWithinOccupancy`: requires a move of the side to move whose target square is not among its own attackers, as in every legal position.
- `StaticExchange.Rounds`: its own contract bounds the rounds by the termination measure only; the bound by the occupied squares is `StaticExchange.RoundsWithinOccupancy`.
- `StaticExchange.SeeMonotone`: proved only when no king attacks the target square. When a king takes part, the king rule can make a higher cutoff pass where a lower one fails.
- `MoveOrdering.OrderMoves`: requires ply >= 1, because the code reads stack[ply - 1]. The caller's zero-filling of the score buffer is the caller's business: quiet moves add onto the cell.
- `SearchRules.UpdatePvLine`: requires the parent's buffer to have room for the child's line plus one. The code relies on its fixed 255-entry arrays for this.
- `SearchRules.QsStores`: models the unconditional second store of quiescence search. It does not model which searches can reach quiescence with an excluded move.
- `TranspositionTable.TT.StoreHash` and `TranspositionTable.TT.GetHash`: require size > 0. With 0 megabytes `init` leaves size 0, and `key % size` would divide by zero.
- `Nnue.Network.Evaluate`: requires the bucket to be in range. 34 or more pieces would index past the last output row (`Nnue.BucketRange`), which is undefined behaviour in C++.
- The movegen attack shifts and the 32-bit `operator&`/`operator>>` path are left out: they have no defined behaviour to state. `Bitboards.Bitboard.ToInt` states only the narrowing.
- Superseded copies of the engine are not part of this model: the older tree, `src/timeman.cpp`, `src/tuneconsts.cpp`, `src/tunables.h`, `src/see_o.cpp` and `src/NNUE/perspective.h`.
- The chess library (`chess.hpp`) is not part of this model: the board, Zobrist keys, move encoding and attacks. `NO_MOVE` and `NULL_MOVE` are stand-in moves distinct from each other.

## Findings

| source | as written | input that shows it | evidently intended | confidence | as-written member | corrected member |
|---|---|---|---|---|---|---|
| src/time.cpp:58-68 | `updateEvalStability` tests `bestEvalStabilityCount` but increments or resets `bestMoveStabilityCount`, so the eval counter never changes and the best-move counter can pass its cap of 10 | best-move counter 9, same best move and same score: `updateBestMoveStability` takes it to 10, then `updateEvalStability` to 11 | the eval counter takes the stability step | not executed | TimeManagement.EvalUpdateAsWrittenOvershoots | TimeManagement.Time.UpdateEvalStability |
| src/history.h:27-28 | `continuationHistory` is declared [64][6][64][6] and `pawnCorrectionHistory` [16384][2], transposed relative to the indexing in src/history.cpp:43,57,65-71, so different cells share memory | in a zeroed table, a black pawn-correction update of index 0 by 100 changes white's entry at index 2 from 0 to 100 | tables dimensioned [7][64][6][64] and [2][16384] as indexed | not executed | HistoryTables.DeclaredPawnTableAliases | HistoryTables.History.UpdatePawnCorrectionHistory |
