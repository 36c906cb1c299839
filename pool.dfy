/** The append-only token store of the lexer package (`tokens`). */
module Pool {
  import opened Bytes
  import opened Token

  class Tokens {
    var tokens: seq<Token>

    /** `newTokens`: an empty store. */
    constructor ()
      ensures tokens == []
    {
      tokens := [];
    }

    /** `tokens.NewToken`: append one token of kind `t` and text `v`. */
    method NewToken(t: Type, v: seq<byte>)
      modifies this
      ensures tokens == old(tokens) + [Token(t, v)]
      ensures |tokens| == |old(tokens)| + 1 && tokens[..|old(tokens)|] == old(tokens)
    {
      tokens := tokens + [Token(t, v)];
    }

    /** `tokens.AddToken`: append exactly `tk`. */
    method AddToken(tk: Token)
      modifies this
      ensures tokens == old(tokens) + [tk]
      ensures |tokens| == |old(tokens)| + 1 && tokens[..|old(tokens)|] == old(tokens)
    {
      tokens := tokens + [tk];
    }
  }
}
