/**
 * The evaluation network: feature indices of a piece on a square from
 * both perspectives, incremental updates of the two accumulators, and
 * the evaluation from the side to move's point of view in the bucket
 * chosen by the number of pieces on the board.
 */
module Nnue {
  import opened IntMath
  import opened Bits
  import opened NnueConstants
  import opened NnueUtil
  import opened NnueAccumulator

  // ---------------------------------------------------------------------------
  // Feature indices

  /** `square ^ 56`: the square seen from the other side of the board. */
  function MirrorSquare(square: nat): nat
  {
    BitXor(square, 56)
  }

  /** Mirroring keeps the file, reverses the rank, and undoes itself. */
  lemma MirrorSquareMirrors(square: nat)
    requires square < 64
    ensures MirrorSquare(square) < 64
    ensures MirrorSquare(square) % 8 == square % 8
    ensures MirrorSquare(square) / 8 == 7 - square / 8
    ensures MirrorSquare(MirrorSquare(square)) == square
  {
    var rank, file := square / 8, square % 8;
    MirrorSquareIs(square);
    var m := MirrorSquare(square);
    DivModUnique(m, 7 - rank, file, 8);
    MirrorSquareIs(m);
  }

  lemma MirrorSquareIs(square: nat)
    requires square < 64
    ensures MirrorSquare(square) == 8 * (7 - square / 8) + square % 8
  {
    var rank, file := square / 8, square % 8;
    assert Pow2(3) == 8 by {
      assert Pow2(1) == 2 && Pow2(2) == 4;
    }
    assert square == Pow2(3) * rank + file && 56 == Pow2(3) * 7;
    XorShifted(rank, 7, file, 3);
    XorAllOnes(rank, 3);
  }

  /** `color ^ 1`: the other colour. */
  function OtherColor(color: nat): nat
  {
    BitXor(color, 1)
  }

  lemma OtherColorIs(color: nat)
    requires color < 2
    ensures OtherColor(color) == 1 - color
  {
    assert Pow2(1) == 2;
    XorAllOnes(color, 1);
  }

  /** The index of a piece of a colour on a square from White's side, as a `std::uint16_t`. */
  function WhiteIndex(piece: UInt8, color: UInt8, square: UInt8): UInt16
  {
    ToUInt16(color * BLACK_SQUARES + ToUInt16(piece * WHITE_SQUARES) + square)
  }

  /** The same feature from Black's side: colours exchanged and the board mirrored. */
  function BlackIndex(piece: UInt8, color: UInt8, square: UInt8): UInt16
  {
    ToUInt16(OtherColor(color) * BLACK_SQUARES + ToUInt16(piece * WHITE_SQUARES) + MirrorSquare(square))
  }

  /** The white index of a real piece, colour and square, without wrap-around. */
  lemma WhiteIndexIs(piece: UInt8, color: UInt8, square: UInt8)
    requires piece < 6 && color < 2 && square < 64
    ensures WhiteIndex(piece, color, square) == color * BLACK_SQUARES + piece * WHITE_SQUARES + square < INPUT_SIZE
  {
    var pieceIndex := piece * WHITE_SQUARES;
    assert pieceIndex < 6 * 64;
    assert ToUInt16(pieceIndex) == pieceIndex;
    var index := color * BLACK_SQUARES + pieceIndex + square;
    assert index < INPUT_SIZE;
    assert ToUInt16(index) == index;
  }

  /**
   * For a real piece, colour and square both indices lie in the input
   * layer, and the black index is the white index of the same piece of
   * the other colour on the mirrored square.
   */
  lemma FeatureIndices(piece: UInt8, color: UInt8, square: UInt8)
    requires piece < 6 && color < 2 && square < 64
    ensures MirrorSquare(square) < 64
    ensures WhiteIndex(piece, color, square) == color * BLACK_SQUARES + piece * WHITE_SQUARES + square < INPUT_SIZE
    ensures BlackIndex(piece, color, square) == WhiteIndex(piece, 1 - color, MirrorSquare(square)) < INPUT_SIZE
  {
    OtherColorIs(color);
    MirrorSquareMirrors(square);
    var mirrored := MirrorSquare(square);
    WhiteIndexIs(piece, color, square);
    WhiteIndexIs(piece, 1 - color, mirrored);
    var pieceIndex := piece * WHITE_SQUARES;
    assert ToUInt16(pieceIndex) == pieceIndex;
    assert BlackIndex(piece, color, square) == ToUInt16((1 - color) * BLACK_SQUARES + pieceIndex + mirrored);
  }

  /** Different features have different white indices. */
  lemma WhiteIndexInjective(p1: UInt8, c1: UInt8, s1: UInt8, p2: UInt8, c2: UInt8, s2: UInt8)
    requires p1 < 6 && c1 < 2 && s1 < 64 && p2 < 6 && c2 < 2 && s2 < 64
    requires WhiteIndex(p1, c1, s1) == WhiteIndex(p2, c2, s2)
    ensures p1 == p2 && c1 == c2 && s1 == s2
  {
    WhiteIndexIs(p1, c1, s1);
    WhiteIndexIs(p2, c2, s2);
    var i := WhiteIndex(p1, c1, s1);
    DivModUnique(i, c1, p1 * WHITE_SQUARES + s1, BLACK_SQUARES);
    DivModUnique(i, c2, p2 * WHITE_SQUARES + s2, BLACK_SQUARES);
    DivModUnique(p1 * WHITE_SQUARES + s1, p1, s1, WHITE_SQUARES);
    DivModUnique(p2 * WHITE_SQUARES + s2, p2, s2, WHITE_SQUARES);
  }

  /**
   * Both accumulators after one feature update: its slice of the feature
   * weights added (activation) or subtracted, in 16-bit arithmetic.
   */
  function Updated(white: seq<Int16>, black: seq<Int16>, weights: seq<Int16>,
                   piece: UInt8, color: UInt8, square: UInt8, activate: bool): (r: (seq<Int16>, seq<Int16>))
    requires |white| == |black| == HIDDEN_SIZE && |weights| == INPUT_HIDDEN_SIZE
    requires piece < 6 && color < 2 && square < 64
    ensures |r.0| == |r.1| == HIDDEN_SIZE
  {
    FeatureIndices(piece, color, square);
    var whiteOffset := WhiteIndex(piece, color, square) * HIDDEN_SIZE;
    var blackOffset := BlackIndex(piece, color, square) * HIDDEN_SIZE;
    if activate then (AddSlice(white, weights, whiteOffset), AddSlice(black, weights, blackOffset))
    else (SubSlice(white, weights, whiteOffset), SubSlice(black, weights, blackOffset))
  }

  /** Deactivating a feature undoes activating it, and the other way round. */
  lemma ToggleRestores(white: seq<Int16>, black: seq<Int16>, weights: seq<Int16>,
                       piece: UInt8, color: UInt8, square: UInt8, activate: bool)
    requires |white| == |black| == HIDDEN_SIZE && |weights| == INPUT_HIDDEN_SIZE
    requires piece < 6 && color < 2 && square < 64
    ensures var u := Updated(white, black, weights, piece, color, square, activate);
            Updated(u.0, u.1, weights, piece, color, square, !activate) == (white, black)
  {
    FeatureIndices(piece, color, square);
    var whiteOffset := WhiteIndex(piece, color, square) * HIDDEN_SIZE;
    var blackOffset := BlackIndex(piece, color, square) * HIDDEN_SIZE;
    if activate {
      SubAfterAdd(white, weights, whiteOffset);
      SubAfterAdd(black, weights, blackOffset);
    } else {
      AddAfterSub(white, weights, whiteOffset);
      AddAfterSub(black, weights, blackOffset);
    }
  }

  /** Activating two features gives the same accumulators in either order. */
  lemma ActivationsCommute(white: seq<Int16>, black: seq<Int16>, weights: seq<Int16>,
                           p1: UInt8, c1: UInt8, s1: UInt8, p2: UInt8, c2: UInt8, s2: UInt8)
    requires |white| == |black| == HIDDEN_SIZE && |weights| == INPUT_HIDDEN_SIZE
    requires p1 < 6 && c1 < 2 && s1 < 64 && p2 < 6 && c2 < 2 && s2 < 64
    ensures var u := Updated(white, black, weights, p1, c1, s1, true);
            var v := Updated(white, black, weights, p2, c2, s2, true);
            Updated(u.0, u.1, weights, p2, c2, s2, true) == Updated(v.0, v.1, weights, p1, c1, s1, true)
  {
    FeatureIndices(p1, c1, s1);
    FeatureIndices(p2, c2, s2);
    AddSlicesCommute(white, weights, WhiteIndex(p1, c1, s1) * HIDDEN_SIZE, WhiteIndex(p2, c2, s2) * HIDDEN_SIZE);
    AddSlicesCommute(black, weights, BlackIndex(p1, c1, s1) * HIDDEN_SIZE, BlackIndex(p2, c2, s2) * HIDDEN_SIZE);
  }

  // ---------------------------------------------------------------------------
  // Output bucket

  /** Pieces per output bucket: 32 pieces over the outputs, rounded up. */
  const BUCKET_DIVISOR: int := (32 + OUTPUT_SIZE - 1) / OUTPUT_SIZE

  /** `(pieces - 2) / 4` with C++ division, narrowed to `short`. */
  function Bucket(pieces: int): int
  {
    ToInt16(TruncDiv(pieces - 2, BUCKET_DIVISOR))
  }

  /**
   * A board with at most 33 pieces has a bucket in range; from two
   * pieces on every four more pieces move one bucket up, and division
   * towards zero puts 0 and 1 pieces in bucket 0 too.  34 pieces would
   * index past the last bucket.
   */
  lemma BucketRange(pieces: int)
    ensures 0 <= pieces <= 33 ==> 0 <= Bucket(pieces) < OUTPUT_SIZE
    ensures 2 <= pieces <= 33 ==> Bucket(pieces) == (pieces - 2) / 4
    ensures 0 <= pieces < 2 ==> Bucket(pieces) == 0
    ensures pieces == 34 ==> Bucket(pieces) == OUTPUT_SIZE
  {
  }

  /** More pieces never give a lower bucket. */
  lemma BucketMonotone(p1: int, p2: int)
    requires 0 <= p1 <= p2 <= 33
    ensures Bucket(p1) <= Bucket(p2)
  {
    BucketRange(p1);
    BucketRange(p2);
  }

  /**
   * Evaluating for Black is evaluating for White with the accumulators
   * exchanged: the same as the White formula on the row with its halves
   * swapped.
   */
  lemma PerspectiveSwap(white: seq<Int16>, black: seq<Int16>, row: seq<Int16>, bias: int)
    requires |white| == |black| == HIDDEN_SIZE && |row| == 2 * HIDDEN_SIZE
    ensures ForwardValue(black, white, row, bias) == ForwardValue(white, black, SwapHalves(row), bias)
  {
    HiddenSumSwap(black, white, row, HIDDEN_SIZE);
  }

  // ---------------------------------------------------------------------------
  // The network

  class Network {
    const featureWeight: array<Int16>
    const featureBias: array<Int16>
    const outputWeight: array2<Int16>
    const outputBias: array<Int16>
    const acc: Accumulator

    /** The layer shapes, and an accumulator separate from the weights. */
    predicate Valid()
      reads this, acc
    {
      featureWeight.Length == INPUT_HIDDEN_SIZE && featureBias.Length == HIDDEN_SIZE
      && outputWeight.Length0 == OUTPUT_SIZE && outputWeight.Length1 == 2 * HIDDEN_SIZE
      && outputBias.Length == OUTPUT_SIZE
      && acc.Valid() && featureBias != acc.white && featureBias != acc.black
    }

    /** A network over the given parameters, with both accumulators zero. */
    constructor (featureWeight: array<Int16>, featureBias: array<Int16>,
                 outputWeight: array2<Int16>, outputBias: array<Int16>)
      requires featureWeight.Length == INPUT_HIDDEN_SIZE && featureBias.Length == HIDDEN_SIZE
      requires outputWeight.Length0 == OUTPUT_SIZE && outputWeight.Length1 == 2 * HIDDEN_SIZE
      requires outputBias.Length == OUTPUT_SIZE
      ensures Valid() && fresh(acc) && fresh(acc.white) && fresh(acc.black)
      ensures this.featureWeight == featureWeight && this.featureBias == featureBias
      ensures this.outputWeight == outputWeight && this.outputBias == outputBias
      ensures forall i :: 0 <= i < HIDDEN_SIZE ==> acc.white[i] == 0 && acc.black[i] == 0
    {
      this.featureWeight := featureWeight;
      this.featureBias := featureBias;
      this.outputWeight := outputWeight;
      this.outputBias := outputBias;
      acc := new Accumulator();
    }

    /** `refreshAccumulator`: both accumulators start over from the feature bias. */
    method RefreshAccumulator()
      requires Valid()
      modifies acc.white, acc.black
      ensures acc.white[..] == featureBias[..] && acc.black[..] == featureBias[..]
    {
      acc.ZeroAccumulator();
      acc.LoadBias(featureBias);
    }

    /** `updateAccumulator`: one piece appears on (or leaves) a square. */
    method UpdateAccumulator(piece: UInt8, color: UInt8, square: UInt8, activate: bool)
      requires Valid() && piece < 6 && color < 2 && square < 64
      modifies acc.white, acc.black
      ensures (acc.white[..], acc.black[..]) ==
              Updated(old(acc.white[..]), old(acc.black[..]), featureWeight[..], piece, color, square, activate)
    {
      FeatureIndices(piece, color, square);
      var pieceIndex := ToUInt16(piece * WHITE_SQUARES);
      var whiteIndex := ToUInt16(color * BLACK_SQUARES + pieceIndex + square);
      var blackIndex := ToUInt16(OtherColor(color) * BLACK_SQUARES + pieceIndex + MirrorSquare(square));
      if activate {
        AddAll(acc.white, acc.black, featureWeight, whiteIndex * HIDDEN_SIZE, blackIndex * HIDDEN_SIZE);
      } else {
        SubAll(acc.white, acc.black, featureWeight, whiteIndex * HIDDEN_SIZE, blackIndex * HIDDEN_SIZE);
      }
    }

    /**
     * `evaluate`: the output of the piece-count bucket, with the side to
     * move's accumulator first.  The accumulators are only read.
     */
    method Evaluate(sideToMove: UInt8, pieces: int) returns (eval: int)
      requires Valid() && 0 <= Bucket(pieces) < OUTPUT_SIZE
      ensures var b := Bucket(pieces);
              eval == if sideToMove == 0
                      then ForwardValue(acc.white[..], acc.black[..], Row(outputWeight, b), outputBias[b])
                      else ForwardValue(acc.black[..], acc.white[..], Row(outputWeight, b), outputBias[b])
    {
      var bucket := ToInt16(TruncDiv(pieces - 2, BUCKET_DIVISOR));
      if sideToMove == 0 {
        eval := Forward(acc.white, acc.black, outputWeight, outputBias, bucket);
      } else {
        eval := Forward(acc.black, acc.white, outputWeight, outputBias, bucket);
      }
    }
  }
}
