// Three bytes from four groups of six bits, for base64 and for uuencoding.
module Sextets {
  import opened Memory

  // The 24 bits of three bytes, and of four sextets, the first ones the highest.
  function Bytes24(b0: byte, b1: byte, b2: byte): bv24
  {
    (b0 as bv24 << 16) | (b1 as bv24 << 8) | b2 as bv24
  }

  function Sextets24(v0: byte, v1: byte, v2: byte, v3: byte): bv24
  {
    (v0 as bv24 << 18) | (v1 as bv24 << 12) | (v2 as bv24 << 6) | v3 as bv24
  }

  // The octets are those with the bits of the sextets, in their order.
  lemma OctetsHaveBits(v0: byte, v1: byte, v2: byte, v3: byte)
    requires v0 < 64 && v1 < 64 && v2 < 64 && v3 < 64
    ensures Bytes24(Octet0(v0, v1), Octet1(v1, v2), Octet2(v2, v3)) == Sextets24(v0, v1, v2, v3)
  {
  }

  function Octet0(v0: byte, v1: byte): byte
  {
    (v0 << 2) | (v1 >> 4)
  }

  function Octet1(v1: byte, v2: byte): byte
  {
    (v1 << 4) | (v2 >> 2)
  }

  function Octet2(v2: byte, v3: byte): byte
  {
    (v2 << 6) | v3
  }
}
