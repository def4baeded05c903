/** What both RI variants hand to the final fractional power. */
module Reversibility {
  import opened Powers

  /** The concentration, in molar, both variants assume for a metabolite
      with no measurement unless the caller passes another. */
  const DefaultFixedConc: Positive := 0.1

  /** The reversibility index is base^(2 / denominator); the model stops
      before that real-valued power. */
  datatype RIBase = RIBase(base: real, denominator: nat)

  /** The exponent 2 / denominator is undefined because the denominator is zero. */
  datatype RIError = ZeroExponentDenominator
}
