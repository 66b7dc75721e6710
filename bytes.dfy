/** Bytes and byte strings as the library handles them (`byte[]`). */
module Bytes {

  /** One octet, 0..255. */
  type Byte = b: int | 0 <= b < 256

  /** `n` zero bytes: what a freshly allocated `byte[n]` holds. */
  function Zeros(n: nat): (z: seq<Byte>)
    ensures |z| == n && forall i :: 0 <= i < n ==> z[i] == 0
  {
    seq(n, _ => 0)
  }
}
