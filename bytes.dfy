/** Little-endian field reads over a byte buffer; they replace the struct overlays of the source. */
module Bytes {
  /** Unsigned 16-bit little-endian value at `at`. */
  function U16(b: seq<bv8>, at: nat): (r: nat)
    requires at + 2 <= |b|
    ensures r < 0x1_0000
  {
    b[at] as nat + 0x100 * b[at + 1] as nat
  }

  /** Unsigned 32-bit little-endian value at `at`. */
  function U32(b: seq<bv8>, at: nat): (r: nat)
    requires at + 4 <= |b|
    ensures r < 0x1_0000_0000
  {
    U16(b, at) + 0x1_0000 * U16(b, at + 2)
  }

  /** Unsigned 64-bit little-endian value at `at`. */
  function U64(b: seq<bv8>, at: nat): (r: nat)
    requires at + 8 <= |b|
    ensures r < 0x1_0000_0000_0000_0000
  {
    U32(b, at) + 0x1_0000_0000 * U32(b, at + 4)
  }

  /** Signed (two's complement) 32-bit little-endian value at `at`: how an `int32_t` enum is read. */
  function I32(b: seq<bv8>, at: nat): (r: int)
    requires at + 4 <= |b|
    ensures -0x8000_0000 <= r < 0x8000_0000
    ensures r < 0 <==> b[at + 3] >= 0x80
  {
    var u := U32(b, at);
    if u >= 0x8000_0000 then u - 0x1_0000_0000 else u
  }

  /** `n` zero bytes (what `memset` leaves behind). */
  function Zeros(n: nat): (r: seq<bv8>)
    ensures |r| == n && forall i :: 0 <= i < n ==> r[i] == 0
  {
    seq(n, _ => 0)
  }
}
