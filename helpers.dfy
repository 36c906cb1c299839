/** The byte classes of the lexer, and its byte-to-string conversion. */
module Helpers {
  import opened Bytes

  /** `isWhitespace`: newline, space and tab. A carriage return is not whitespace. */
  predicate IsWhitespace(b: byte)
    ensures IsWhitespace(b) ==> b < 33 && b != '\r' as byte
  {
    b == '\n' as byte || b == ' ' as byte || b == '\t' as byte
  }

  /** A decimal digit '0' to '9'. */
  predicate IsDigit(b: byte) {
    '0' as byte <= b <= '9' as byte
  }

  /** `isNumber`: a byte that can start a number, a digit or '-'. */
  predicate IsNumber(b: byte)
    ensures IsNumber(b) <==> IsDigit(b) || b == '-' as byte
  {
    b == '0' as byte || b == '1' as byte || b == '2' as byte || b == '3' as byte
    || b == '4' as byte || b == '5' as byte || b == '6' as byte || b == '7' as byte
    || b == '8' as byte || b == '9' as byte || b == '-' as byte
  }

  /** `isCharacter`: an ASCII letter. Only the unused `readKeyword` calls it; it is kept as the model of the byte class. */
  predicate IsCharacter(b: byte)
    ensures IsCharacter(b) <==> ('a' as byte <= b <= 'z' as byte) || ('A' as byte <= b <= 'Z' as byte)
  {
    (b >= 97 && b <= 122) || (b >= 65 && b <= 90)
  }

  /** `bytesToString`: the string holds the same bytes in the same order. */
  function BytesToString(b: seq<byte>): (s: seq<byte>)
    ensures |s| == |b| && forall i :: 0 <= i < |b| ==> s[i] == b[i]
  {
    b
  }

  /** The whitespace bytes are exactly newline, space and tab. */
  lemma WhitespaceBytes()
    ensures (set b: byte | IsWhitespace(b)) == {'\t' as byte, '\n' as byte, ' ' as byte}
  {
    var w := set b: byte | IsWhitespace(b);
    assert '\t' as byte in w && '\n' as byte in w && ' ' as byte in w;
  }
}
