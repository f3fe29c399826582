// Numbers as single bytes.
module Bytes {
  // A number below 256 is the same number as a byte.
  lemma ByteBack(n: int)
    requires 0 <= n < 256
    ensures (n as bv8) as int == n
  {
  }
}
