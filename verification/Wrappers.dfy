/** Types shared by the models. */
module Wrappers {
  /** The conventional optional value, standing for a nullable pointer or Python's None. */
  datatype Option<+T> = None | Some(value: T)

  type Byte = bv8

  lemma ByteRoundTrip(n: nat)
    requires n < 256
    ensures (n as Byte) as int == n
  {
  }
}
