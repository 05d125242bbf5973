/**
 * The transposition table: a power-of-two array of 16-byte `Hash` slots,
 * indexed by `zobristKey % size`, with always-replace stores and exact-key
 * probes, plus the re-basing of mate scores between "distance from the root"
 * and "distance from this node".
 */
module TranspositionTable {
  import opened IntMath
  import opened Wrappers
  import opened ChessTypes
  import opened Consts

  /** Bound codes stored in `Hash::type`. */
  const EXACT: UInt8 := 0
  const UPPER_BOUND: UInt8 := 1
  const LOWER_BOUND: UInt8 := 2

  /** sizeof(Hash): 8 + 2 + 2 + 2 + 1 + 1 bytes, aligned to 16. */
  const HASH_BYTES: nat := 16

  /** One slot.  `bound` is the field the engine calls `type`. */
  datatype Hash = Hash(key: UInt64, move: Move, score: Int16, eval: Int16, depth: Int8, bound: UInt8)

  /** A value-initialised (or zero-filled) slot: key 0 and the all-zero move NO_MOVE. */
  const EMPTY_HASH: Hash := Hash(0, NO_MOVE, 0, 0, 0, 0)

  /** The three bound codes are distinct and a fresh slot holds key 0 and NO_MOVE. */
  lemma BoundCodesAndDefault()
    ensures EXACT == 0 && UPPER_BOUND == 1 && LOWER_BOUND == 2
    ensures EMPTY_HASH.key == 0 && EMPTY_HASH.move == NO_MOVE
  {
  }

  /**
   * `Hash::setEntry`: the slot after all six fields are assigned.  The
   * depth arrives as a `std::uint8_t` and lands in the `std::int8_t` field.
   */
  function SetEntry(key: UInt64, depth: UInt8, bound: UInt8, score: Int16, move: Move, eval: Int16): (h: Hash)
    ensures h.key == key && h.bound == bound && h.score == score && h.move == move && h.eval == eval
    ensures depth < 0x80 ==> h.depth == depth
    ensures depth >= 0x80 ==> h.depth == depth - TWO_8
  {
    Hash(key, move, score, eval, ToInt8(depth), bound)
  }

  /**
   * The slot `storeHash` writes: its definition takes `int` depth, score and
   * eval and narrows them to the parameter types of `setEntry`.
   */
  function Entry(key: UInt64, depth: int, bound: UInt8, score: int, move: Move, eval: int): (h: Hash)
    ensures h.key == key && h.bound == bound && h.move == move
    ensures 0 <= depth < 0x80 ==> h.depth == depth
    ensures -0x8000 <= score < 0x8000 ==> h.score == score
    ensures -0x8000 <= eval < 0x8000 ==> h.eval == eval
  {
    SetEntry(key, ToUInt8(depth), bound, ToInt16(score), move, ToInt16(eval))
  }

  /** Narrowing a depth twice, first to uint8 and then to int8, wraps modulo 256. */
  lemma StoredDepthWraps(depth: int)
    ensures (Entry(0, depth, EXACT, 0, NO_MOVE, 0).depth - depth) % TWO_8 == 0
  {
    var u := ToUInt8(depth);
    var d := ToInt8(u);
    assert (depth - u) % TWO_8 == 0 && (u - d) % TWO_8 == 0;
    var a, b := (depth - u) / TWO_8, (u - d) / TWO_8;
    assert depth - d == (a + b) * TWO_8;
  }

  // ---------------------------------------------------------------------------
  // Mate-score re-basing

  /**
   * `tt::scoreToTT`: mate scores are shifted further from zero by `ply`, so
   * that they measure the distance from the stored node, not from the root.
   */
  function ScoreToTT(score: int, ply: int): (r: int)
    ensures ply >= 0 ==> (r >= EVAL_MATE <==> score >= EVAL_MATE)
    ensures ply >= 0 ==> (r <= -EVAL_MATE <==> score <= -EVAL_MATE)
    ensures -EVAL_MATE < score < EVAL_MATE ==> r == score
  {
    if score >= EVAL_MATE then score + ply
    else if score <= -EVAL_MATE then score - ply
    else score
  }

  /** `tt::scoreFromTT`: the inverse shift, applied when an entry is read back. */
  function ScoreFromTT(score: int, ply: int): (r: int)
    ensures -EVAL_MATE < score < EVAL_MATE ==> r == score
    ensures score >= EVAL_MATE ==> r + ply == score
    ensures score <= -EVAL_MATE ==> r - ply == score
  {
    if score >= EVAL_MATE then score - ply
    else if score <= -EVAL_MATE then score + ply
    else score
  }

  /** The case analysis of `scoreToTT`: shift up at or above mate, down at or below -mate. */
  lemma ScoreToTTCases(score: int, ply: int)
    ensures score >= EVAL_MATE ==> ScoreToTT(score, ply) - ply == score
    ensures score <= -EVAL_MATE ==> ScoreToTT(score, ply) + ply == score
  {
  }

  /** For every non-negative ply, reading back what was stored gives the original score. */
  lemma ScoreRoundTrip(score: int, ply: int)
    requires ply >= 0
    ensures ScoreFromTT(ScoreToTT(score, ply), ply) == score
  {
  }

  /**
   * The same round trip through the `std::int16_t` score field: it holds as
   * long as the re-based score fits in 16 bits.
   */
  lemma StoredScoreRoundTrip(score: int, ply: int)
    requires ply >= 0
    requires -0x8000 <= ScoreToTT(score, ply) < 0x8000
    ensures ScoreFromTT(ToInt16(ScoreToTT(score, ply)), ply) == score
  {
  }

  /** Every score the search produces within the ply limit fits the 16-bit field once re-based. */
  lemma ReBasedScoreFits(score: int, ply: int)
    requires 0 <= ply <= MAX_PLY
    requires -EVAL_INFINITE <= score <= EVAL_INFINITE
    ensures -0x8000 <= ScoreToTT(score, ply) < 0x8000
  {
  }

  // ---------------------------------------------------------------------------
  // The table as a sequence of slots

  /** The slot a key maps to. */
  function Index(key: UInt64, n: nat): (i: nat)
    requires n > 0
    ensures i < n
  {
    key % n
  }

  /** `getHash` on a table with contents `t`: the slot if its key matches, else null. */
  function Probe(t: seq<Hash>, key: UInt64): (r: Option<Hash>)
    requires |t| > 0
    ensures r.Some? ==> r.value.key == key && r.value == t[Index(key, |t|)]
    ensures r.None? ==> t[Index(key, |t|)].key != key
  {
    var h := t[Index(key, |t|)];
    if h.key == key then Some(h) else None
  }

  /** The table contents after an always-replace store of `h` under `key`. */
  function Store(t: seq<Hash>, key: UInt64, h: Hash): (r: seq<Hash>)
    requires |t| > 0
    ensures |r| == |t|
    ensures r[Index(key, |t|)] == h
    ensures forall i :: 0 <= i < |t| && i != Index(key, |t|) ==> r[i] == t[i]
  {
    t[Index(key, |t|) := h]
  }

  /** A stored entry is found again under its own key. */
  lemma ProbeAfterStore(t: seq<Hash>, key: UInt64, h: Hash)
    requires |t| > 0 && h.key == key
    ensures Probe(Store(t, key, h), key) == Some(h)
  {
  }

  /** A store leaves the probe result of every key on another slot unchanged. */
  lemma ProbeAfterStoreElsewhere(t: seq<Hash>, key: UInt64, other: UInt64, h: Hash)
    requires |t| > 0
    requires Index(key, |t|) != Index(other, |t|)
    ensures Probe(Store(t, key, h), other) == Probe(t, other)
  {
  }

  /** Always-replace: a different key on the same slot evicts the earlier entry. */
  lemma StoreEvicts(t: seq<Hash>, key: UInt64, other: UInt64, h: Hash)
    requires |t| > 0 && h.key == key && other != key
    requires Index(key, |t|) == Index(other, |t|)
    ensures Probe(Store(t, key, h), other) == None
  {
  }

  /** All slots zero, as after `clear`, `init` or `setSize`. */
  predicate Cleared(t: seq<Hash>)
  {
    forall i :: 0 <= i < |t| ==> t[i] == EMPTY_HASH
  }

  /** In a cleared table every probe misses, except key 0, which hits the zero slot. */
  lemma ProbeCleared(t: seq<Hash>, key: UInt64)
    requires |t| > 0 && Cleared(t)
    ensures key == 0 ==> Probe(t, key) == Some(EMPTY_HASH)
    ensures key != 0 ==> Probe(t, key) == None
  {
  }

  /**
   * Storing through `storeHash` and probing the same key returns the key,
   * depth, bound, score, move and eval given, whenever they fit their fields.
   */
  lemma StoreThenProbe(t: seq<Hash>, key: UInt64, depth: int, bound: UInt8, score: int, move: Move, eval: int)
    requires |t| > 0
    requires 0 <= depth < 0x80 && -0x8000 <= score < 0x8000 && -0x8000 <= eval < 0x8000
    ensures Probe(Store(t, key, Entry(key, depth, bound, score, move, eval)), key)
         == Some(Hash(key, move, score, eval, depth, bound))
  {
  }

  /**
   * The engine's own table self-test: store depth 2, LOWER_BOUND and the
   * score 200 re-based at ply 1; the probe finds depth 2, LOWER_BOUND and,
   * read back at ply 1, the score 200.
   */
  lemma SelfTest(t: seq<Hash>, key: UInt64, move: Move)
    requires |t| > 0
    ensures var r := Probe(Store(t, key, Entry(key, 2, LOWER_BOUND, ScoreToTT(200, 1), move, 1)), key);
            r.Some? && r.value.key == key && r.value.depth == 2 && r.value.bound == LOWER_BOUND
            && ScoreFromTT(r.value.score, 1) == 200 && r.value.move == move
  {
    StoreThenProbe(t, key, 2, LOWER_BOUND, ScoreToTT(200, 1), move, 1);
  }

  /** The number of slots of `s` holding a nonzero key. */
  function CountUsed(s: seq<Hash>): (r: nat)
    ensures r <= |s|
  {
    if |s| == 0 then 0
    else CountUsed(s[..|s| - 1]) + (if s[|s| - 1].key != 0 then 1 else 0)
  }

  /** A cleared table reports no used slots. */
  lemma {:induction false} CountUsedCleared(s: seq<Hash>)
    requires Cleared(s)
    ensures CountUsed(s) == 0
  {
    if |s| > 0 {
      CountUsedCleared(s[..|s| - 1]);
    }
  }

  /** A table whose slots all hold nonzero keys reports all of them used. */
  lemma {:induction false} CountUsedFull(s: seq<Hash>)
    requires forall i :: 0 <= i < |s| ==> s[i].key != 0
    ensures CountUsed(s) == |s|
  {
    if |s| > 0 {
      CountUsedFull(s[..|s| - 1]);
    }
  }

  // ---------------------------------------------------------------------------
  // Sizing

  /** 1, 2, 4, 8, ... */
  predicate IsPowerOfTwo(n: nat)
  {
    n == 1 || (n > 1 && n % 2 == 0 && IsPowerOfTwo(n / 2))
  }

  /** Of two powers of two, the smaller is at most half the larger. */
  lemma {:induction false} PowerOfTwoGap(p: nat, q: nat)
    requires IsPowerOfTwo(p) && IsPowerOfTwo(q) && p < q
    ensures 2 * p <= q
  {
    if p > 1 {
      PowerOfTwoGap(p / 2, q / 2);
    }
  }

  /** There is only one power of two `p` with `p <= m < 2 * p`. */
  lemma PowerOfTwoFloorUnique(p: nat, q: nat, m: nat)
    requires IsPowerOfTwo(p) && p <= m < 2 * p
    requires IsPowerOfTwo(q) && q <= m < 2 * q
    ensures p == q
  {
    if p < q {
      PowerOfTwoGap(p, q);
    } else if q < p {
      PowerOfTwoGap(q, p);
    }
  }

  /** `(MB << 20) / sizeof(Hash)`, with the shift wrapping at 64 bits. */
  function MaxEntries(mb: UInt64): (n: nat)
    ensures n < TWO_64 / HASH_BYTES
  {
    ToUInt64(mb * 0x10_0000) / HASH_BYTES
  }

  /** Below 2^44 megabytes nothing wraps: a megabyte holds 65536 slots. */
  lemma MaxEntriesNoWrap(mb: UInt64)
    requires mb < 0x1000_0000_0000
    ensures MaxEntries(mb) == mb * 0x1_0000
  {
    assert 0 <= mb * 0x10_0000 < TWO_64;
    DivModUnique(mb * 0x10_0000, mb * 0x1_0000, 0, HASH_BYTES);
  }

  /** At 2^44 megabytes the shift wraps to zero and so does the table size. */
  lemma MaxEntriesWraps()
    ensures MaxEntries(0x1000_0000_0000) == 0
  {
    assert 0x1000_0000_0000 * 0x10_0000 == TWO_64;
  }

  /**
   * The doubling loop of `tt::init`: the largest power of two not above
   * `maxSize`, or 0 when `maxSize` is 0 (which leaves every later
   * `key % size` undefined).
   */
  method TableSize(maxSize: nat) returns (size: nat)
    ensures maxSize == 0 ==> size == 0
    ensures maxSize > 0 ==> IsPowerOfTwo(size) && size <= maxSize < 2 * size
  {
    size := 1;
    while size <= maxSize
      invariant IsPowerOfTwo(size)
      invariant size == 1 || size / 2 <= maxSize
      decreases maxSize + 1 - size
    {
      size := size * 2;
    }
    size := size / 2;
  }

  /** `class tt`: the slot count and the slots. */
  class TT {
    var size: nat
    var table: array<Hash>

    /** The slot array has exactly `size` slots. */
    predicate Valid()
      reads this
    {
      table.Length == size
    }

    /** `tt::tt(MB)`: a zeroed table sized for `mb` megabytes. */
    constructor (mb: UInt64)
      ensures Valid() && fresh(table)
      ensures MaxEntries(mb) == 0 ==> size == 0
      ensures MaxEntries(mb) > 0 ==> IsPowerOfTwo(size) && size <= MaxEntries(mb) < 2 * size
      ensures Cleared(table[..])
    {
      var n := TableSize(MaxEntries(mb));
      size := n;
      table := new Hash[n](_ => EMPTY_HASH);
    }

    /** `tt::init` (and `tt::setSize`, which frees the old slots first). */
    method SetSize(mb: UInt64)
      modifies this
      ensures Valid() && fresh(table)
      ensures MaxEntries(mb) == 0 ==> size == 0
      ensures MaxEntries(mb) > 0 ==> IsPowerOfTwo(size) && size <= MaxEntries(mb) < 2 * size
      ensures Cleared(table[..])
    {
      var n := TableSize(MaxEntries(mb));
      size := n;
      table := new Hash[n](_ => EMPTY_HASH);
    }

    /** `tt::clear`: zero every slot; the size stays. */
    method Clear()
      requires Valid()
      modifies table
      ensures Valid() && Cleared(table[..])
    {
      forall i | 0 <= i < table.Length {
        table[i] := EMPTY_HASH;
      }
    }

    /** `tt::storeHash`: overwrite slot `key % size`, leaving every other slot as it was. */
    method StoreHash(key: UInt64, depth: int, bound: UInt8, score: int, move: Move, eval: int)
      requires Valid() && size > 0
      modifies table
      ensures Valid()
      ensures table[..] == Store(old(table[..]), key, Entry(key, depth, bound, score, move, eval))
    {
      table[key % size] := Entry(key, depth, bound, score, move, eval);
    }

    /** `tt::getHash`: the slot of `key` if it holds `key`, otherwise null. */
    method GetHash(key: UInt64) returns (r: Option<Hash>)
      requires Valid() && size > 0
      ensures r == Probe(table[..], key)
    {
      var node := table[key % size];
      if node.key == key {
        r := Some(node);
      } else {
        r := None;
      }
    }

    /** `tt::estimateHashfull`: how many of the first 1000 slots are in use. */
    method EstimateHashfull() returns (used: int)
      requires Valid() && size >= 1000
      ensures used == CountUsed(table[..1000])
      ensures 0 <= used <= 1000
    {
      used := 0;
      var i := 0;
      while i < 1000
        invariant 0 <= i <= 1000
        invariant used == CountUsed(table[..i])
      {
        assert table[..i + 1][..i] == table[..i];
        used := used + if table[i].key != 0 then 1 else 0;
        i := i + 1;
      }
    }
  }
}
