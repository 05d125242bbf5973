/** The two accumulators of the first layer, one per perspective. */
module NnueAccumulator {
  import opened IntMath
  import opened NnueConstants

  class Accumulator {
    const white: array<Int16>
    const black: array<Int16>

    /** Two separate arrays of the hidden size. */
    predicate Valid()
      reads this
    {
      white.Length == HIDDEN_SIZE && black.Length == HIDDEN_SIZE && white != black
    }

    /** A new accumulator: both perspectives zero. */
    constructor ()
      ensures Valid() && fresh(white) && fresh(black)
      ensures forall i :: 0 <= i < HIDDEN_SIZE ==> white[i] == 0 && black[i] == 0
    {
      white := new Int16[HIDDEN_SIZE];
      black := new Int16[HIDDEN_SIZE];
      new;
      ZeroAccumulator();
    }

    /** `loadBias`: both perspectives become copies of the bias, which is only read. */
    method LoadBias(bias: array<Int16>)
      requires Valid() && bias.Length == HIDDEN_SIZE && bias != white && bias != black
      modifies white, black
      ensures white[..] == bias[..] && black[..] == bias[..]
      ensures bias[..] == old(bias[..])
    {
      for i := 0 to HIDDEN_SIZE
        invariant forall k :: 0 <= k < i ==> white[k] == bias[k]
      {
        white[i] := bias[i];
      }
      for i := 0 to HIDDEN_SIZE
        invariant forall k :: 0 <= k < HIDDEN_SIZE ==> white[k] == bias[k]
        invariant forall k :: 0 <= k < i ==> black[k] == bias[k]
      {
        black[i] := bias[i];
      }
    }

    /** `zeroAccumulator`: every element of both perspectives becomes 0. */
    method ZeroAccumulator()
      requires Valid()
      modifies white, black
      ensures forall i :: 0 <= i < HIDDEN_SIZE ==> white[i] == 0 && black[i] == 0
    {
      for i := 0 to HIDDEN_SIZE
        invariant forall k :: 0 <= k < i ==> white[k] == 0
      {
        white[i] := 0;
      }
      for i := 0 to HIDDEN_SIZE
        invariant forall k :: 0 <= k < HIDDEN_SIZE ==> white[k] == 0
        invariant forall k :: 0 <= k < i ==> black[k] == 0
      {
        black[i] := 0;
      }
    }
  }
}
