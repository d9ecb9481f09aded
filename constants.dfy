/** Application-wide constants (the `AppConstants` enum of the application). */
module AppConstants {

  /** Two marks that differ by at least this much call for a third teacher. */
  const MarkDifferenceThreshold: real := 3.0

  /** A published value at or above this mark means the candidate is accepted. */
  const MinimumPassingMark: real := 10.0

  /** Length of a candidate's anonymity code (an `Int8` in the application). */
  const SecretCodeLength: int := 4

  /** Number of copies (modules) a candidate needs before a result is published. */
  const RequiredModulesPerCandidate: nat := 2

  /** Factor applied to the sum of a candidate's two final marks. */
  const ResultCalculationMultiplier: real := 2.0 / 3.0

  /** Two final marks passing together is their sum reaching 15: the multiplier
      maps a sum of 15 onto the passing mark of 10 exactly. */
  lemma PassingSum(f0: real, f1: real)
    ensures (f0 + f1) * ResultCalculationMultiplier >= MinimumPassingMark <==> f0 + f1 >= 15.0
    ensures 15.0 * ResultCalculationMultiplier == MinimumPassingMark
  {
  }
}
