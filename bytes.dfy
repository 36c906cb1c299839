/** Go's `byte`, and byte strings written as ASCII text. */
module Bytes {

  /** A Go `byte` (uint8). Go strings are byte strings, so text is `seq<byte>`. */
  newtype byte = b: int | 0 <= b < 256

  /** The bytes of an ASCII string, one byte per character (the low byte of each code point). */
  function Ascii(s: string): (r: seq<byte>)
    ensures |r| == |s|
    ensures forall i :: 0 <= i < |s| ==> r[i] as int == s[i] as int % 256
  {
    seq(|s|, i requires 0 <= i < |s| => (s[i] as int % 256) as byte)
  }

  /** `n` zero bytes: the initial contents of a Go byte array of length `n`. */
  function Zeros(n: nat): (r: seq<byte>)
    ensures |r| == n
    ensures forall i :: 0 <= i < n ==> r[i] == 0
  {
    if n == 0 then [] else [0] + Zeros(n - 1)
  }

  /** Concatenation regroups freely. */
  lemma ConcatAssoc(a: seq<byte>, b: seq<byte>, c: seq<byte>)
    ensures (a + b) + c == a + (b + c)
  {
  }
}
