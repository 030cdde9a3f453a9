/**
 * The precision bounds and defaults the engine imports from src/consts.ts. That file is not
 * part of this model, so the values below are chosen.
 */
module Consts {
  /** Smallest and largest number of decimal places an instance may track. */
  const MIN_PREC: nat := 0
  const MAX_PREC: nat := 30

  /** Precision used when a caller gives none (constructors and the static operators). */
  const DEF_PREC: nat := 6

  /** Display precision a Money gets when its options give none. */
  const DEF_DISP: real := 3.0

  lemma DefaultInRange()
    ensures MIN_PREC <= DEF_PREC <= MAX_PREC
  {
  }
}
