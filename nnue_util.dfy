/**
 * The integer kernels of the network: the squared clipped ReLU, adding or
 * subtracting one feature's weight slice to both accumulators with
 * `std::int16_t` wrap-around, and the output layer.
 */
module NnueUtil {
  import opened IntMath
  import opened NnueConstants

  /** `screlu`: the input clipped to [0, QA], squared. */
  function Screlu(input: int): (r: int)
    ensures 0 <= r <= QA * QA
    ensures input <= 0 ==> r == 0
    ensures input >= QA ==> r == QA * QA
    ensures 0 <= input <= QA ==> r == input * input
  {
    var clipped := Clamp(input, 0, QA);
    assert 0 <= clipped * clipped <= QA * QA by {
      MulLe(clipped, clipped, QA);
      MulLe(QA, clipped, QA);
    }
    clipped * clipped
  }

  /** Screlu never decreases: a larger input is never less active. */
  lemma ScreluMonotone(x: int, y: int)
    requires x <= y
    ensures Screlu(x) <= Screlu(y)
  {
    var cx, cy := Clamp(x, 0, QA), Clamp(y, 0, QA);
    assert cx <= cy;
    MulLe(cx, cx, cy);
    MulLe(cy, cx, cy);
  }

  // ---------------------------------------------------------------------------
  // Accumulator updates

  /** Each cell of `acc` plus the weight at `offset` and on, narrowed to 16 bits. */
  function AddSlice(acc: seq<Int16>, w: seq<Int16>, offset: nat): (r: seq<Int16>)
    requires offset + |acc| <= |w|
    ensures |r| == |acc|
    ensures forall i :: 0 <= i < |acc| ==> r[i] == ToInt16(acc[i] as int + w[offset + i])
  {
    seq(|acc|, i requires 0 <= i < |acc| => ToInt16(acc[i] as int + w[offset + i]))
  }

  /** Each cell of `acc` minus the weight at `offset` and on, narrowed to 16 bits. */
  function SubSlice(acc: seq<Int16>, w: seq<Int16>, offset: nat): (r: seq<Int16>)
    requires offset + |acc| <= |w|
    ensures |r| == |acc|
    ensures forall i :: 0 <= i < |acc| ==> r[i] == ToInt16(acc[i] as int - w[offset + i])
  {
    seq(|acc|, i requires 0 <= i < |acc| => ToInt16(acc[i] as int - w[offset + i]))
  }

  /** Subtracting a slice after adding it restores the accumulator, wrap-around or not. */
  lemma SubAfterAdd(acc: seq<Int16>, w: seq<Int16>, offset: nat)
    requires offset + |acc| <= |w|
    ensures SubSlice(AddSlice(acc, w, offset), w, offset) == acc
  {
    forall i | 0 <= i < |acc|
      ensures SubSlice(AddSlice(acc, w, offset), w, offset)[i] == acc[i]
    {
      AddSubRestores(acc[i], w[offset + i]);
    }
  }

  /** Adding a slice after subtracting it restores the accumulator as well. */
  lemma AddAfterSub(acc: seq<Int16>, w: seq<Int16>, offset: nat)
    requires offset + |acc| <= |w|
    ensures AddSlice(SubSlice(acc, w, offset), w, offset) == acc
  {
    forall i | 0 <= i < |acc|
      ensures AddSlice(SubSlice(acc, w, offset), w, offset)[i] == acc[i]
    {
      SubAddRestores(acc[i], w[offset + i]);
    }
  }

  /** Two slices added one after the other give the same accumulator in either order. */
  lemma AddSlicesCommute(acc: seq<Int16>, w: seq<Int16>, first: nat, second: nat)
    requires first + |acc| <= |w| && second + |acc| <= |w|
    ensures AddSlice(AddSlice(acc, w, first), w, second) == AddSlice(AddSlice(acc, w, second), w, first)
  {
    var left := AddSlice(AddSlice(acc, w, first), w, second);
    var right := AddSlice(AddSlice(acc, w, second), w, first);
    forall i | 0 <= i < |acc|
      ensures left[i] == right[i]
    {
      TwoAddsCommute(acc[i], w[first + i], w[second + i]);
    }
  }

  /** One cell of `AddSlicesCommute`: two 16-bit additions commute. */
  lemma TwoAddsCommute(a: Int16, u: Int16, v: Int16)
    ensures ToInt16(ToInt16(a as int + u) as int + v) == ToInt16(ToInt16(a as int + v) as int + u)
  {
    ToInt16AddNarrowed(a as int + u, v as int);
    ToInt16AddNarrowed(a as int + v, u as int);
    assert a as int + u + v == a as int + v + u;
  }

  /** `addAll`: both accumulators get their own slice of the weights added. */
  method AddAll(us: array<Int16>, them: array<Int16>, weights: array<Int16>, usOffset: nat, themOffset: nat)
    requires us.Length == HIDDEN_SIZE && them.Length == HIDDEN_SIZE && weights.Length == INPUT_HIDDEN_SIZE
    requires us != them
    requires usOffset + HIDDEN_SIZE <= INPUT_HIDDEN_SIZE && themOffset + HIDDEN_SIZE <= INPUT_HIDDEN_SIZE
    modifies us, them
    ensures us[..] == AddSlice(old(us[..]), weights[..], usOffset)
    ensures them[..] == AddSlice(old(them[..]), weights[..], themOffset)
  {
    for i := 0 to HIDDEN_SIZE
      invariant forall k :: 0 <= k < i ==> us[k] == ToInt16(old(us[k]) as int + weights[usOffset + k])
      invariant forall k :: i <= k < HIDDEN_SIZE ==> us[k] == old(us[k])
      invariant them[..] == old(them[..])
    {
      us[i] := ToInt16(us[i] as int + weights[usOffset + i]);
    }
    ghost var usAfter := us[..];
    for i := 0 to HIDDEN_SIZE
      invariant us[..] == usAfter
      invariant forall k :: 0 <= k < i ==> them[k] == ToInt16(old(them[k]) as int + weights[themOffset + k])
      invariant forall k :: i <= k < HIDDEN_SIZE ==> them[k] == old(them[k])
    {
      them[i] := ToInt16(them[i] as int + weights[themOffset + i]);
    }
  }

  /** `subAll`: both accumulators get their own slice of the weights subtracted. */
  method SubAll(us: array<Int16>, them: array<Int16>, weights: array<Int16>, usOffset: nat, themOffset: nat)
    requires us.Length == HIDDEN_SIZE && them.Length == HIDDEN_SIZE && weights.Length == INPUT_HIDDEN_SIZE
    requires us != them
    requires usOffset + HIDDEN_SIZE <= INPUT_HIDDEN_SIZE && themOffset + HIDDEN_SIZE <= INPUT_HIDDEN_SIZE
    modifies us, them
    ensures us[..] == SubSlice(old(us[..]), weights[..], usOffset)
    ensures them[..] == SubSlice(old(them[..]), weights[..], themOffset)
  {
    for i := 0 to HIDDEN_SIZE
      invariant forall k :: 0 <= k < i ==> us[k] == ToInt16(old(us[k]) as int - weights[usOffset + k])
      invariant forall k :: i <= k < HIDDEN_SIZE ==> us[k] == old(us[k])
      invariant them[..] == old(them[..])
    {
      us[i] := ToInt16(us[i] as int - weights[usOffset + i]);
    }
    ghost var usAfter := us[..];
    for i := 0 to HIDDEN_SIZE
      invariant us[..] == usAfter
      invariant forall k :: 0 <= k < i ==> them[k] == ToInt16(old(them[k]) as int - weights[themOffset + k])
      invariant forall k :: i <= k < HIDDEN_SIZE ==> them[k] == old(them[k])
    {
      them[i] := ToInt16(them[i] as int - weights[themOffset + i]);
    }
  }

  // ---------------------------------------------------------------------------
  // Output layer

  /**
   * The sum over the first n hidden units: each side-to-move activation
   * times cell i of the bucket's row, each opponent activation times
   * cell HIDDEN_SIZE + i.
   */
  function HiddenSum(us: seq<Int16>, them: seq<Int16>, row: seq<Int16>, n: nat): int
    requires n <= |us| == |them| == HIDDEN_SIZE && |row| == 2 * HIDDEN_SIZE
  {
    if n == 0 then 0
    else HiddenSum(us, them, row, n - 1)
         + (Screlu(us[n - 1]) * row[n - 1] + Screlu(them[n - 1]) * row[n - 1 + HIDDEN_SIZE])
  }

  /** The output: the hidden sum / QA, plus the bucket's bias, times 400, / (QA * QB), with C++ division. */
  function ForwardValue(us: seq<Int16>, them: seq<Int16>, row: seq<Int16>, bias: int): int
    requires |us| == |them| == HIDDEN_SIZE && |row| == 2 * HIDDEN_SIZE
  {
    TruncDiv((TruncDiv(HiddenSum(us, them, row, HIDDEN_SIZE), QA) + bias) * SCALE, QA * QB)
  }

  /** The row with its two halves exchanged. */
  function SwapHalves(row: seq<Int16>): (r: seq<Int16>)
    requires |row| == 2 * HIDDEN_SIZE
    ensures |r| == 2 * HIDDEN_SIZE
    ensures forall i :: 0 <= i < HIDDEN_SIZE ==> r[i] == row[i + HIDDEN_SIZE] && r[i + HIDDEN_SIZE] == row[i]
  {
    row[HIDDEN_SIZE..] + row[..HIDDEN_SIZE]
  }

  /** Exchanging the two accumulators and the two halves of the row gives the same sum. */
  lemma {:induction false} HiddenSumSwap(us: seq<Int16>, them: seq<Int16>, row: seq<Int16>, n: nat)
    requires n <= |us| == |them| == HIDDEN_SIZE && |row| == 2 * HIDDEN_SIZE
    ensures HiddenSum(us, them, row, n) == HiddenSum(them, us, SwapHalves(row), n)
  {
    if n > 0 {
      HiddenSumSwap(us, them, row, n - 1);
      var s := SwapHalves(row);
      assert s[n - 1] == row[n - 1 + HIDDEN_SIZE] && s[n - 1 + HIDDEN_SIZE] == row[n - 1];
    }
  }

  /** With no active hidden unit the sum is zero, so the output depends on the bias alone. */
  lemma {:induction false} HiddenSumInactive(us: seq<Int16>, them: seq<Int16>, row: seq<Int16>, n: nat)
    requires n <= |us| == |them| == HIDDEN_SIZE && |row| == 2 * HIDDEN_SIZE
    requires forall i :: 0 <= i < HIDDEN_SIZE ==> us[i] <= 0 && them[i] <= 0
    ensures HiddenSum(us, them, row, n) == 0
  {
    if n > 0 {
      HiddenSumInactive(us, them, row, n - 1);
      assert Screlu(us[n - 1]) == 0 && Screlu(them[n - 1]) == 0;
    }
  }

  /** The output for a network with no active hidden unit. */
  lemma ForwardInactive(us: seq<Int16>, them: seq<Int16>, row: seq<Int16>, bias: int)
    requires |us| == |them| == HIDDEN_SIZE && |row| == 2 * HIDDEN_SIZE
    requires forall i :: 0 <= i < HIDDEN_SIZE ==> us[i] <= 0 && them[i] <= 0
    ensures ForwardValue(us, them, row, bias) == TruncDiv(bias * SCALE, QA * QB)
  {
    HiddenSumInactive(us, them, row, HIDDEN_SIZE);
  }

  /** The bucket's row of the output weights. */
  function Row(outputWeight: array2<Int16>, bucket: nat): (r: seq<Int16>)
    requires bucket < outputWeight.Length0
    reads outputWeight
    ensures |r| == outputWeight.Length1
    ensures forall j :: 0 <= j < |r| ==> r[j] == outputWeight[bucket, j]
  {
    seq(outputWeight.Length1, j requires 0 <= j < outputWeight.Length1 reads outputWeight => outputWeight[bucket, j])
  }

  /** `forward`: the output layer for the bucket's row and bias. */
  method Forward(us: array<Int16>, them: array<Int16>, outputWeight: array2<Int16>, outputBias: array<Int16>,
                 bucket: nat) returns (eval: int)
    requires us.Length == HIDDEN_SIZE && them.Length == HIDDEN_SIZE
    requires outputWeight.Length0 == OUTPUT_SIZE && outputWeight.Length1 == 2 * HIDDEN_SIZE
    requires outputBias.Length == OUTPUT_SIZE && bucket < OUTPUT_SIZE
    ensures eval == ForwardValue(us[..], them[..], Row(outputWeight, bucket), outputBias[bucket])
  {
    ghost var row := Row(outputWeight, bucket);
    eval := 0;
    for i := 0 to HIDDEN_SIZE
      invariant eval == HiddenSum(us[..], them[..], row, i)
    {
      eval := eval + (Screlu(us[i]) * outputWeight[bucket, i] + Screlu(them[i]) * outputWeight[bucket, i + HIDDEN_SIZE]);
    }
    eval := TruncDiv(eval, QA);
    eval := eval + outputBias[bucket];
    eval := eval * SCALE;
    eval := TruncDiv(eval, QA * QB);
  }
}
