// Raw bytes as the Go code handles them ([]byte).
module Bytes {

  type byte = bv8

  /** `a` xored byte by byte with the first |a| bytes of `b` (subtle.XORBytes). */
  function Xor(a: seq<byte>, b: seq<byte>): (r: seq<byte>)
    requires |a| <= |b|
    ensures |r| == |a|
    ensures forall i :: 0 <= i < |a| ==> r[i] == a[i] ^ b[i]
  {
    seq(|a|, i requires 0 <= i < |a| => a[i] ^ b[i])
  }

  /** Xor-ing twice with the same key stream gives the input back. */
  lemma XorTwice(a: seq<byte>, b: seq<byte>)
    requires |a| <= |b|
    ensures Xor(Xor(a, b), b) == a
  {
    assert forall i :: 0 <= i < |a| ==> (a[i] ^ b[i]) ^ b[i] == a[i];
  }
}
