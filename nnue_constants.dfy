/** The shape and quantisation of the evaluation network. */
module NnueConstants {
  /** 768 inputs: 2 colours x 6 piece types x 64 squares. */
  const INPUT_SIZE: int := 768
  const HIDDEN_SIZE: int := 1024
  /** One output per material bucket. */
  const OUTPUT_SIZE: int := 8
  /** Centipawn scale of the output. */
  const SCALE: int := 400
  /** Quantisation of the hidden layer and of the output weights. */
  const QA: int := 255
  const QB: int := 64
  const INPUT_HIDDEN_SIZE: int := INPUT_SIZE * HIDDEN_SIZE
  /** The stride of one colour's block of inputs, and of one piece type's. */
  const BLACK_SQUARES: int := 64 * 6
  const WHITE_SQUARES: int := 64

  lemma Shape()
    ensures INPUT_SIZE == 2 * BLACK_SQUARES && BLACK_SQUARES == 6 * WHITE_SQUARES
    ensures INPUT_HIDDEN_SIZE == 786432 && QA * QB == 16320
  {
  }
}
