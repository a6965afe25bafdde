/** Bytes as `bv8`. The one fact about converting between numbers and
    bytes sits in a module of its own, where the solver sees nothing else. */
module Bytes {

  /** A number below 256 survives the trip through a byte. */
  lemma ByteRoundTrip(v: int)
    requires 0 <= v < 256
    ensures (v as bv8) as int == v
  {
  }
}
