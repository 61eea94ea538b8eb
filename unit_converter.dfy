/** Conversion between grams and kilograms.  Quantities are exact reals
    here; PHP's floating-point rounding is not modelled. */
module UnitConverter {

  /** Kilograms to grams.  Total: zero and negative quantities are
      accepted, and the sign is kept. */
  function ConvertToGrams(quantity: real): (grams: real)
    ensures grams == 0.0 <==> quantity == 0.0
    ensures grams < 0.0 <==> quantity < 0.0
    ensures grams / 1000.0 == quantity
  {
    quantity * 1000.0
  }

  /** Grams to kilograms.  Total, sign-preserving, and the inverse of
      `ConvertToGrams`. */
  function ConvertToKilograms(quantity: real): (kilograms: real)
    ensures kilograms == 0.0 <==> quantity == 0.0
    ensures kilograms < 0.0 <==> quantity < 0.0
    ensures kilograms * 1000.0 == quantity
  {
    quantity / 1000.0
  }

  /** Converting one way and back returns the original quantity, in both
      orders. */
  lemma RoundTrip(quantity: real)
    ensures ConvertToKilograms(ConvertToGrams(quantity)) == quantity
    ensures ConvertToGrams(ConvertToKilograms(quantity)) == quantity
  {
  }

  /** Both conversions are strictly monotonic, so they never merge two
      distinct quantities or reverse their order. */
  lemma Monotonic(a: real, b: real)
    ensures a < b <==> ConvertToGrams(a) < ConvertToGrams(b)
    ensures a < b <==> ConvertToKilograms(a) < ConvertToKilograms(b)
  {
  }
}
