/**
 * Token kinds, tokens, the nine shared zero-payload singleton tokens and the
 * keyword table of the JSON tokenizer.
 */
module Token {
  import opened Bytes

  /** `token.Type`, a uint8. The eleven kinds are the values 0 to 10; any other value is not a kind. */
  newtype Type = t: int | 0 <= t < 256

  const LBracket: Type := 0  // {
  const RBracket: Type := 1  // }
  const LBrace: Type := 2    // [
  const RBrace: Type := 3    // ]
  const Literal: Type := 4   // a quoted string
  const Number: Type := 5    // an unevaluated number
  const True: Type := 6
  const False: Type := 7
  const Null: Type := 8
  const Colon: Type := 9
  const Comma: Type := 10

  /** One of the eleven declared kinds, LBracket through Comma. */
  predicate IsKind(t: Type) {
    t <= Comma
  }

  /** The kinds that only the shared singleton tokens carry (every kind but Literal and Number). */
  predicate IsSingletonKind(t: Type) {
    IsKind(t) && t != Literal && t != Number
  }

  /** `Type.String`: the symbol or name of a kind; "unknown" for every other value. */
  function TypeName(t: Type): (name: seq<byte>)
    ensures name == Ascii("unknown") <==> !IsKind(t)
    ensures IsKind(t) ==> 1 <= |name| <= 7
  {
    if t == LBracket then ['{' as byte]
    else if t == RBracket then ['}' as byte]
    else if t == LBrace then ['[' as byte]
    else if t == RBrace then [']' as byte]
    else if t == Literal then
      assert Ascii("LITERAL")[0] != Ascii("unknown")[0];
      Ascii("LITERAL")
    else if t == Number then Ascii("NUMBER")
    else if t == True then Ascii("true")
    else if t == False then Ascii("false")
    else if t == Null then Ascii("null")
    else if t == Colon then [':' as byte]
    else if t == Comma then [',' as byte]
    else Ascii("unknown")
  }

  /** The eleven names are pairwise distinct, so `TypeName` is injective on the kinds. */
  lemma TypeNameInjective(a: Type, b: Type)
    requires IsKind(a) && IsKind(b)
    requires TypeName(a) == TypeName(b)
    ensures a == b
  {
    var na, nb := TypeName(a), TypeName(b);
    assert |na| == |nb| && na[0] == nb[0];
  }

  /** A `,` byte occurs in a kind's name only as its first byte. */
  lemma CommaOnlyLeads(t: Type)
    requires IsKind(t)
    ensures forall j :: 1 <= j < |TypeName(t)| ==> TypeName(t)[j] != ',' as byte
  {
  }

  /** `token.Token`: a kind and a text; the text is empty except for Literal and Number tokens. */
  datatype Token = Token(kind: Type, text: seq<byte>)

  /** `token.NewToken`: the token's `Type()` and `Value()` give back its two arguments. */
  function NewToken(t: Type, v: seq<byte>): (tk: Token)
    ensures tk.kind == t && tk.text == v
  {
    Token(t, v)
  }

  const LBracketToken: Token := NewToken(LBracket, [])
  const RBracketToken: Token := NewToken(RBracket, [])
  const LBraceToken: Token := NewToken(LBrace, [])
  const RBraceToken: Token := NewToken(RBrace, [])
  const TrueToken: Token := NewToken(True, [])
  const FalseToken: Token := NewToken(False, [])
  const NullToken: Token := NewToken(Null, [])
  const ColonToken: Token := NewToken(Colon, [])
  const CommaToken: Token := NewToken(Comma, [])

  /** The shared singleton token of a singleton kind. */
  function Singleton(t: Type): (tk: Token)
    requires IsSingletonKind(t)
  {
    if t == LBracket then LBracketToken
    else if t == RBracket then RBracketToken
    else if t == LBrace then LBraceToken
    else if t == RBrace then RBraceToken
    else if t == True then TrueToken
    else if t == False then FalseToken
    else if t == Null then NullToken
    else if t == Colon then ColonToken
    else CommaToken
  }

  /** Each singleton token carries its own kind and an empty text. */
  lemma SingletonsAreBare(t: Type)
    requires IsSingletonKind(t)
    ensures Singleton(t).kind == t && Singleton(t).text == []
  {
  }

  /** A token as the lexer hands them out: a declared kind, and a singleton kind only on its shared singleton. */
  predicate WellFormed(tk: Token) {
    IsKind(tk.kind) && (IsSingletonKind(tk.kind) ==> tk == Singleton(tk.kind))
  }

  /**
   * For such tokens, being the singleton of a kind and having that kind are the
   * same thing, so comparing a token with a singleton pointer compares kinds.
   */
  lemma SingletonComparisonIsKindComparison(tk: Token, t: Type)
    requires WellFormed(tk) && IsSingletonKind(t)
    ensures tk == Singleton(t) <==> tk.kind == t
  {
    SingletonsAreBare(t);
  }

  /** `token.KEYWORDS`. */
  const Keywords: map<seq<byte>, Token> :=
    map[Ascii("true") := TrueToken, Ascii("false") := FalseToken, Ascii("null") := NullToken]

  /** The keyword table holds exactly "true", "false" and "null", mapped to their singletons. */
  lemma KeywordsTable()
    ensures Keywords.Keys == {Ascii("true"), Ascii("false"), Ascii("null")}
    ensures Keywords[Ascii("true")] == TrueToken
    ensures Keywords[Ascii("false")] == FalseToken
    ensures Keywords[Ascii("null")] == NullToken
  {
    assert Ascii("true")[0] != Ascii("null")[0];
  }

  /** `Token.String`: "token(" + kind name + ", " + text + ")". */
  function TokenString(tk: Token): (s: seq<byte>)
    ensures var name := TypeName(tk.kind);
      && |s| == |name| + |tk.text| + 9
      && s[6..6 + |name|] == name && s[6 + |name|] == ',' as byte
      && s[8 + |name|..|s| - 1] == tk.text
  {
    Ascii("token(") + TypeName(tk.kind) + Ascii(", ") + tk.text + Ascii(")")
  }

  /**
   * Two tokens of declared kinds with the same `String()` are the same token, so
   * comparing tokens by their strings (as the lexer test does) compares kind and text.
   */
  lemma {:induction false} TokenStringInjective(x: Token, y: Token)
    requires IsKind(x.kind) && IsKind(y.kind)
    requires TokenString(x) == TokenString(y)
    ensures x == y
  {
    NameLengthsAgree(x, y);
    var nx, ny := TypeName(x.kind), TypeName(y.kind);
    var sx, sy := TokenString(x), TokenString(y);
    assert nx == sx[6..6 + |nx|] == sy[6..6 + |ny|] == ny;
    TypeNameInjective(x.kind, y.kind);
    assert x.text == sx[8 + |nx|..|sx| - 1] == sy[8 + |ny|..|sy| - 1] == y.text;
  }

  /** The comma after the kind name sits at the same place in two equal token strings. */
  lemma NameLengthsAgree(x: Token, y: Token)
    requires IsKind(x.kind) && IsKind(y.kind)
    requires TokenString(x) == TokenString(y)
    ensures |TypeName(x.kind)| == |TypeName(y.kind)|
  {
    var nx, ny := TypeName(x.kind), TypeName(y.kind);
    var sx, sy := TokenString(x), TokenString(y);
    assert sx[6 + |nx|] == ',' as byte;
    assert sy[6 + |ny|] == ',' as byte;
    if |nx| < |ny| {
      assert sy[6 + |nx|] == ny[|nx|];
      CommaOnlyLeads(y.kind);
      assert false;
    } else if |ny| < |nx| {
      assert sx[6 + |ny|] == nx[|ny|];
      CommaOnlyLeads(x.kind);
      assert false;
    }
  }
}
