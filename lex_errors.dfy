/**
 * The errors the lexer reports: the sentinel errors of the lexer package and
 * the errors of the underlying byte source.
 */
module LexErrors {

  datatype LexError =
    | Eof                          // io.EOF: the source has no more bytes
    | IoFailure(code: int)         // any other error of the byte source
    | NoRead                       // ErrNoRead: the source returned zero bytes and no error
    | UnknownIdentifier            // ErrUnknownIdentifier
    | InvalidNumber                // ErrInvalidNumber
    | TooManyDecimals              // ErrTooManyDecimals (declared, never returned)
    | InvalidScientificNotation    // ErrInvalidScientificNotation (declared, never returned)
    | UnreadOnInvalid              // ErrUnreadOnInvalid (declared, never returned)
}
