/**
 * The errors the parser returns: lexer errors passed up unchanged, and the
 * parser's own errors, kept as data rather than formatted text.
 */
module ParseErrors {
  import opened Bytes
  import opened Token
  import opened LexErrors

  datatype ParseError =
    | Lex(err: LexError)                                   // a lexer error, returned as is
    | UnexpectedEOF(expected: seq<byte>)                   // ErrUnexpectedEOF(expected)
    | LexerError(err: LexError)                            // LexerError(err): a lexer error wrapped by an object
    | UnexpectedToken(expecting: seq<byte>, got: Token)    // UnexpectedToken(expecting, got)
    | UnexpectedTokenAt(index: nat, want: Type, got: Token)    // Expect's "unexpected token at index"

  /** What an object reports when its lookahead after a member fails: EOF means a key was expected. */
  function ObjectPeekError(e: LexError): (r: ParseError)
    ensures e == Eof <==> r == UnexpectedEOF(Ascii("key"))
    ensures e != Eof <==> r == LexerError(e)
  {
    if e == Eof then UnexpectedEOF(Ascii("key")) else LexerError(e)
  }
}
