/**
 * What the lexer promises about whole lexemes: strings with escapes, number
 * runs, keywords, punctuation, skipped whitespace, and a rendering of any token
 * sequence that the lexer reads back token for token.
 */
module LexerProperties {
  import opened Wrappers
  import opened Bytes
  import opened Token
  import opened LexErrors
  import opened Helpers
  import opened ByteReader
  import opened Lexer

  const Quote: byte := '"' as byte
  const Backslash: byte := '\\' as byte
  const Space: byte := ' ' as byte

  /** The bytes between quotes that the string scan reads back as `v`: a backslash goes before each quote and backslash. */
  function Escape(v: seq<byte>): (r: seq<byte>)
    ensures |v| <= |r| <= 2 * |v|
  {
    if v == [] then []
    else if v[0] == Quote || v[0] == Backslash then [Backslash, v[0]] + Escape(v[1..])
    else [v[0]] + Escape(v[1..])
  }

  /** The string scan reads an escaped text and its closing quote back as that text, and leaves what follows pending. */
  lemma {:induction false} ScanLiteralEscaped(v: seq<byte>, q: seq<byte>, e: SourceEnd, text: seq<byte>)
    ensures ScanLiteral(Escape(v) + [Quote] + q, e, text) == Lexed(Some(Token(Literal, text + v)), None, q)
    decreases |v|
  {
    if v == [] {
      assert Escape(v) + [Quote] + q == [Quote] + q;
      ScanLiteralCons(Quote, q, e, text);
      assert text + v == text;
    } else {
      EscapedStep(v, q, e, text);
      ScanLiteralEscaped(v[1..], q, e, text + [v[0]]);
      assert text + [v[0]] + v[1..] == text + v;
    }
  }

  /** Input that ends inside a string: the partial text comes back as a token together with the end-of-source error. */
  lemma {:induction false} ScanLiteralUnterminated(v: seq<byte>, e: SourceEnd, text: seq<byte>)
    ensures ScanLiteral(Escape(v), e, text) == Lexed(Some(Token(Literal, text + v)), Some(EndError(e)), [])
    decreases |v|
  {
    var s := Escape(v);
    if v == [] {
      assert text + v == text;
    } else {
      ScanLiteralUnterminated(v[1..], e, text + [v[0]]);
      assert text + [v[0]] + v[1..] == text + v;
      if v[0] == Quote || v[0] == Backslash {
        assert s == [Backslash, v[0]] + Escape(v[1..]);
        assert s[2..] == Escape(v[1..]);
      } else {
        assert s == [v[0]] + Escape(v[1..]);
        assert s[1..] == Escape(v[1..]);
      }
    }
  }

  /** Input that ends right after a backslash inside a string: the error comes back with no token. */
  lemma {:induction false} ScanLiteralDanglingBackslash(v: seq<byte>, e: SourceEnd, text: seq<byte>)
    ensures ScanLiteral(Escape(v) + [Backslash], e, text) == Lexed(None, Some(EndError(e)), [])
    decreases |v|
  {
    var s := Escape(v) + [Backslash];
    if v == [] {
      assert s == [Backslash];
    } else {
      ScanLiteralDanglingBackslash(v[1..], e, text + [v[0]]);
      if v[0] == Quote || v[0] == Backslash {
        assert s[2..] == Escape(v[1..]) + [Backslash];
      } else {
        assert s[1..] == Escape(v[1..]) + [Backslash];
      }
    }
  }

  /** One escaped byte of the text is one step of the string scan. */
  lemma EscapedStep(v: seq<byte>, q: seq<byte>, e: SourceEnd, text: seq<byte>)
    requires v != []
    ensures ScanLiteral(Escape(v) + [Quote] + q, e, text)
         == ScanLiteral(Escape(v[1..]) + [Quote] + q, e, text + [v[0]])
  {
    var rest := Escape(v[1..]) + ([Quote] + q);
    assert Escape(v[1..]) + [Quote] + q == rest;
    assert Escape(v) + [Quote] + q == Escape(v) + ([Quote] + q);
    if v[0] == Quote || v[0] == Backslash {
      EscapeSplit(v, [Backslash, v[0]], [Quote] + q);
      assert [Backslash, v[0]] + rest == [Backslash] + ([v[0]] + rest);
      ScanLiteralCons(Backslash, [v[0]] + rest, e, text);
      assert ([v[0]] + rest)[1..] == rest;
    } else {
      EscapeSplit(v, [v[0]], [Quote] + q);
      ScanLiteralCons(v[0], rest, e, text);
    }
  }

  /** `Escape(v)` followed by `q` is the escape of `v[0]` followed by the rest. */
  lemma EscapeSplit(v: seq<byte>, head: seq<byte>, q: seq<byte>)
    requires v != []
    requires head == if v[0] == Quote || v[0] == Backslash then [Backslash, v[0]] else [v[0]]
    ensures Escape(v) + q == head + (Escape(v[1..]) + q)
  {
    var tail := Escape(v[1..]);
    if v[0] == Quote || v[0] == Backslash {
      assert Escape(v) == [Backslash, v[0]] + tail;
    } else {
      assert Escape(v) == [v[0]] + tail;
    }
    ConcatAssoc(head, tail, q);
  }


  /** The string scan only consumes: what it leaves pending is a suffix of its input. */
  lemma {:induction false} ScanLiteralSuffix(s: seq<byte>, e: SourceEnd, text: seq<byte>)
    ensures IsSuffix(ScanLiteral(s, e, text).rest, s)
    decreases |s|
  {
    if |s| >= 2 && s[0] != Quote && s[0] == Backslash {
      ScanLiteralSuffix(s[2..], e, text + [s[1]]);
      assert s[2..][|s[2..]| - |ScanLiteral(s, e, text).rest|..] == s[|s| - |ScanLiteral(s, e, text).rest|..];
    } else if s != [] && s[0] != Quote && s[0] != Backslash {
      ScanLiteralSuffix(s[1..], e, text + [s[0]]);
      assert s[1..][|s[1..]| - |ScanLiteral(s, e, text).rest|..] == s[|s| - |ScanLiteral(s, e, text).rest|..];
    }
  }

  /** The number scan only consumes. */
  lemma {:induction false} ScanNumberSuffix(s: seq<byte>, e: SourceEnd, text: seq<byte>)
    ensures IsSuffix(ScanNumber(s, e, text).rest, s)
    decreases |s|
  {
    if s != [] && s[0] != '-' as byte && IsNumberBody(s[0]) {
      ScanNumberSuffix(s[1..], e, text + [s[0]]);
      assert s[1..][|s[1..]| - |ScanNumber(s, e, text).rest|..] == s[|s| - |ScanNumber(s, e, text).rest|..];
    }
  }

  /** The keyword match only consumes. */
  lemma MatchKeywordSuffix(s: seq<byte>, e: SourceEnd, want: seq<byte>, tk: Token)
    requires forall i :: 0 <= i < |want| ==> want[i] != 0
    ensures IsSuffix(MatchKeyword(s, e, want, tk).rest, s)
  {
  }

  lemma LexAfterSuffix(c: byte, t: seq<byte>, e: SourceEnd)
    ensures IsSuffix(LexAfter(c, t, e).rest, t)
  {
    var r := LexAfter(c, t, e);
    if r.rest != t {
      LexAfterScans(c, t, e);
      if c == '"' as byte {
        ScanLiteralSuffix(t, e, []);
      } else if IsNumber(c) {
        ScanNumberSuffix(t, e, [c]);
      } else if c == 't' as byte {
        MatchKeywordSuffix(t, e, TrueRemaining, TrueToken);
      } else if c == 'f' as byte {
        MatchKeywordSuffix(t, e, FalseRemaining, FalseToken);
      } else {
        MatchKeywordSuffix(t, e, NullRemaining, NullToken);
      }
    }
  }

  /** The bytes after which `LexAfter` hands over to a scan, and the scan it hands over to. */
  lemma LexAfterScans(c: byte, t: seq<byte>, e: SourceEnd)
    requires LexAfter(c, t, e).rest != t
    ensures c == '"' as byte ==> LexAfter(c, t, e) == ScanLiteral(t, e, [])
    ensures c != '"' as byte && IsNumber(c) ==> LexAfter(c, t, e) == ScanNumber(t, e, [c])
    ensures c == 't' as byte ==> LexAfter(c, t, e) == MatchKeyword(t, e, TrueRemaining, TrueToken)
    ensures c == 'f' as byte ==> LexAfter(c, t, e) == MatchKeyword(t, e, FalseRemaining, FalseToken)
    ensures c != '"' as byte && !IsNumber(c) && c != 't' as byte && c != 'f' as byte ==>
      c == 'n' as byte && LexAfter(c, t, e) == MatchKeyword(t, e, NullRemaining, NullToken)
  {
  }

  /** A lexer step only consumes: what it leaves pending is a suffix of the bytes it started from. */
  lemma NextTokenConsumesPrefix(s: seq<byte>, e: SourceEnd)
    ensures IsSuffix(NextTokenOf(s, e).rest, s)
  {
    var i := WhitespaceRun(s);
    if i < |s| {
      var c, t := s[i], s[i + 1..];
      var r := LexAfter(c, t, e);
      LexAfterSuffix(c, t, e);
      assert t[|t| - |r.rest|..] == s[|s| - |r.rest|..];
    }
  }

  /** A quoted, escaped text is one LITERAL token carrying the text without quotes or escapes. */
  lemma StringLexes(v: seq<byte>, q: seq<byte>, e: SourceEnd)
    ensures NextTokenOf([Quote] + Escape(v) + [Quote] + q, e) == Lexed(Some(Token(Literal, v)), None, q)
  {
    var s := [Quote] + Escape(v) + [Quote] + q;
    WhitespaceRunIs(s, 0);
    assert s[1..] == Escape(v) + [Quote] + q;
    ScanLiteralEscaped(v, q, e, []);
    assert [] + v == v;
  }

  /** Whitespace before a lexeme changes nothing: the length of a whitespace run adds up. */
  lemma {:induction false} WhitespaceRunAppend(w: seq<byte>, s: seq<byte>)
    requires forall i :: 0 <= i < |w| ==> IsWhitespace(w[i])
    ensures WhitespaceRun(w + s) == |w| + WhitespaceRun(s)
    decreases |w|
  {
    if w == [] {
      assert w + s == s;
    } else {
      assert (w + s)[0] == w[0];
      assert (w + s)[1..] == w[1..] + s;
      WhitespaceRunAppend(w[1..], s);
    }
  }

  /** Spaces, tabs and newlines before a lexeme are skipped: the step is the same as without them. */
  lemma SkipsWhitespace(w: seq<byte>, s: seq<byte>, e: SourceEnd)
    requires forall i :: 0 <= i < |w| ==> IsWhitespace(w[i])
    ensures NextTokenOf(w + s, e) == NextTokenOf(s, e)
  {
    WhitespaceRunAppend(w, s);
    var i := WhitespaceRun(s);
    if i < |s| {
      assert (w + s)[|w| + i] == s[i];
      assert (w + s)[|w| + i + 1..] == s[i + 1..];
    }
  }

  /** A carriage return is not whitespace: it is an unknown identifier. */
  lemma CarriageReturnRejected(q: seq<byte>, e: SourceEnd)
    ensures NextTokenOf(['\r' as byte] + q, e) == Lexed(None, Some(UnknownIdentifier), q)
  {
    WhitespaceRunIs(['\r' as byte] + q, 0);
    assert (['\r' as byte] + q)[1..] == q;
  }

  /** Whitespace up to the end of the source: the end-of-source error and nothing pending. */
  lemma OnlyWhitespace(w: seq<byte>, e: SourceEnd)
    requires forall i :: 0 <= i < |w| ==> IsWhitespace(w[i])
    ensures NextTokenOf(w, e) == Lexed(None, Some(EndError(e)), [])
  {
    WhitespaceRunIs(w, |w|);
  }

  /** Each of `{ } [ ] : ,` is its own singleton token, whose name is that byte; only the byte is consumed. */
  lemma PunctuationLexes(c: byte, q: seq<byte>, e: SourceEnd)
    requires c in [ '{' as byte, '}' as byte, '[' as byte, ']' as byte, ':' as byte, ',' as byte ]
    ensures var r := NextTokenOf([c] + q, e);
      && r.token.Some? && r.err.None? && r.rest == q
      && IsSingletonKind(r.token.value.kind) && r.token.value == Singleton(r.token.value.kind)
      && TypeName(r.token.value.kind) == [c]
  {
    WhitespaceRunIs([c] + q, 0);
    assert ([c] + q)[1..] == q;
  }

  /** The number scan over a run of digits, '.' and 'e' ended by another byte that is not '-'. */
  lemma {:induction false} ScanNumberRun(d: seq<byte>, q: seq<byte>, e: SourceEnd, text: seq<byte>)
    requires forall i :: 0 <= i < |d| ==> IsNumberBody(d[i])
    requires q != [] && !IsNumberBody(q[0]) && q[0] != '-' as byte
    ensures ScanNumber(d + q, e, text) == Lexed(Some(Token(Number, text + d)), None, q)
    decreases |d|
  {
    if d == [] {
      assert d + q == q && text + d == text;
      assert !IsNumber(q[0]);
    } else {
      assert (d + q)[1..] == d[1..] + q;
      ScanNumberRun(d[1..], q, e, text + [d[0]]);
      assert text + [d[0]] + d[1..] == text + d;
    }
  }

  /** A run of number bytes at the very end of the source: the end-of-source error and no token. */
  lemma {:induction false} ScanNumberAtEnd(d: seq<byte>, e: SourceEnd, text: seq<byte>)
    requires forall i :: 0 <= i < |d| ==> IsNumberBody(d[i])
    ensures ScanNumber(d, e, text) == Lexed(None, Some(EndError(e)), [])
    decreases |d|
  {
    if d != [] {
      ScanNumberAtEnd(d[1..], e, text + [d[0]]);
    }
  }

  /** A '-' after the first byte of a number: InvalidNumber, with the bytes after the '-' pending. */
  lemma {:induction false} ScanNumberMinus(d: seq<byte>, q: seq<byte>, e: SourceEnd, text: seq<byte>)
    requires forall i :: 0 <= i < |d| ==> IsNumberBody(d[i])
    ensures ScanNumber(d + ['-' as byte] + q, e, text) == Lexed(None, Some(InvalidNumber), q)
    decreases |d|
  {
    if d == [] {
      assert (['-' as byte] + q)[1..] == q;
    } else {
      assert (d + ['-' as byte] + q)[1..] == d[1..] + ['-' as byte] + q;
      ScanNumberMinus(d[1..], q, e, text + [d[0]]);
    }
  }

  /** A number lexeme: a digit or '-' and then any digits, '.' and 'e', in any order and number. */
  predicate IsNumberText(d: seq<byte>) {
    |d| >= 1 && IsNumber(d[0]) && forall i :: 1 <= i < |d| ==> IsNumberBody(d[i])
  }

  /** A number lexeme followed by a byte that ends it is one NUMBER token with the lexeme as its text; that byte stays pending. */
  lemma NumberLexes(d: seq<byte>, q: seq<byte>, e: SourceEnd)
    requires IsNumberText(d)
    requires q != [] && !IsNumberBody(q[0]) && q[0] != '-' as byte
    ensures NextTokenOf(d + q, e) == Lexed(Some(Token(Number, d)), None, q)
  {
    var s := d + q;
    WhitespaceRunIs(s, 0);
    assert s[1..] == d[1..] + q;
    ScanNumberRun(d[1..], q, e, [d[0]]);
    assert [d[0]] + d[1..] == d;
  }

  /** A number lexeme at the very end of the source is an error, not a token. */
  lemma NumberAtEndFails(d: seq<byte>, e: SourceEnd)
    requires IsNumberText(d)
    ensures NextTokenOf(d, e) == Lexed(None, Some(EndError(e)), [])
  {
    WhitespaceRunIs(d, 0);
    ScanNumberAtEnd(d[1..], e, [d[0]]);
  }

  /** "5.80975e3" followed by a comma is the NUMBER token "5.80975e3", as in the lexer's own fixture. */
  lemma FixtureNumber(e: SourceEnd)
    ensures NextTokenOf(Ascii("5.80975e3") + [',' as byte], e) == Lexed(Some(Token(Number, Ascii("5.80975e3"))), None, [',' as byte])
  {
    FixtureNumberText();
    NumberExampleLexes(Ascii("5.80975e3"), [',' as byte], Ascii("5.80975e3") + [',' as byte], e);
  }

  lemma FixtureNumberText()
    ensures NumberThenStop(Ascii("5.80975e3"), [',' as byte], Ascii("5.80975e3") + [',' as byte])
  {
  }

  /** The decimal and exponent flags are never set: "1.2.3" and "1e2e3" are single NUMBER tokens. */
  lemma RepeatedDecimalsAndExponents(e: SourceEnd)
    ensures NextTokenOf(Ascii("1.2.3 "), e) == Lexed(Some(Token(Number, Ascii("1.2.3"))), None, Ascii(" "))
    ensures NextTokenOf(Ascii("1e2e3]"), e) == Lexed(Some(Token(Number, Ascii("1e2e3"))), None, Ascii("]"))
  {
    NumberExamples();
    NumberExampleLexes(Ascii("1.2.3"), Ascii(" "), Ascii("1.2.3 "), e);
    NumberExampleLexes(Ascii("1e2e3"), Ascii("]"), Ascii("1e2e3]"), e);
  }

  /** `s` is the number text `d` followed by a byte that ends a number. */
  predicate NumberThenStop(d: seq<byte>, q: seq<byte>, s: seq<byte>) {
    IsNumberText(d) && s == d + q && q != [] && !IsNumberBody(q[0]) && q[0] != '-' as byte
  }

  lemma NumberExamples()
    ensures NumberThenStop(Ascii("1.2.3"), Ascii(" "), Ascii("1.2.3 "))
    ensures NumberThenStop(Ascii("1e2e3"), Ascii("]"), Ascii("1e2e3]"))
  {
    DecimalsExample();
    ExponentsExample();
  }

  lemma DecimalsExample()
    ensures NumberThenStop(Ascii("1.2.3"), Ascii(" "), Ascii("1.2.3 "))
  {
    assert Ascii("1.2.3 ") == Ascii("1.2.3") + Ascii(" ");
  }

  lemma ExponentsExample()
    ensures NumberThenStop(Ascii("1e2e3"), Ascii("]"), Ascii("1e2e3]"))
  {
    assert Ascii("1e2e3]") == Ascii("1e2e3") + Ascii("]");
  }

  lemma NumberExampleLexes(d: seq<byte>, q: seq<byte>, s: seq<byte>, e: SourceEnd)
    requires NumberThenStop(d, q, s)
    ensures NextTokenOf(s, e) == Lexed(Some(Token(Number, d)), None, q)
  {
    NumberLexes(d, q, e);
  }


  /** "1-2": a '-' inside a number is InvalidNumber. */
  lemma MinusInsideNumber(e: SourceEnd)
    ensures NextTokenOf(Ascii("1-2"), e) == Lexed(None, Some(InvalidNumber), Ascii("2"))
  {
    var s := Ascii("1-2");
    WhitespaceRunIs(s, 0);
    assert s[1..] == [] + ['-' as byte] + Ascii("2");
    ScanNumberMinus([], Ascii("2"), e, [s[0]]);
  }

  /** Each keyword is its singleton token, whatever follows it; exactly the keyword's bytes are consumed. */
  lemma KeywordLexes(w: seq<byte>, q: seq<byte>, e: SourceEnd)
    requires w in Keywords
    ensures NextTokenOf(w + q, e) == Lexed(Some(Keywords[w]), None, q)
  {
    KeywordsTable();
    var s := w + q;
    WhitespaceRunIs(s, 0);
    assert s[1..] == w[1..] + q;
    assert (w[1..] + q)[..|w| - 1] == w[1..];
    assert (w[1..] + q)[|w| - 1..] == q;
    if w == Ascii("true") {
      assert w[1..] == TrueRemaining;
    } else if w == Ascii("false") {
      assert w[1..] == FalseRemaining;
    } else {
      assert w[1..] == NullRemaining;
    }
  }

  /** A keyword spelled wrongly after its first byte is an unknown identifier; so is uppercase "NULL". */
  lemma MisspelledKeywords(e: SourceEnd)
    ensures NextTokenOf(Ascii("trux"), e) == Lexed(None, Some(UnknownIdentifier), [])
    ensures NextTokenOf(Ascii("NULL"), e) == Lexed(None, Some(UnknownIdentifier), Ascii("ULL"))
  {
    TruxUnknown(Ascii("trux"), e);
    UpperNullUnknown(Ascii("NULL"), Ascii("ULL"), e);
  }

  lemma TruxUnknown(s: seq<byte>, e: SourceEnd)
    requires s == Ascii("trux")
    ensures NextTokenOf(s, e) == Lexed(None, Some(UnknownIdentifier), [])
  {
    assert s == ['t' as byte, 'r' as byte, 'u' as byte, 'x' as byte];
    WhitespaceRunIs(s, 0);
    assert s[1..][..3] != TrueRemaining by { assert s[1..][..3][2] != TrueRemaining[2]; }
  }

  lemma UpperNullUnknown(n: seq<byte>, u: seq<byte>, e: SourceEnd)
    requires n == Ascii("NULL") && u == Ascii("ULL")
    ensures NextTokenOf(n, e) == Lexed(None, Some(UnknownIdentifier), u)
  {
    assert n == ['N' as byte] + u;
    WhitespaceRunIs(n, 0);
    assert n[1..] == u;
  }


  /** A keyword cut short by the end of the source: the source's error, or an unknown identifier when it stalls. */
  lemma TruncatedKeyword(e: SourceEnd)
    ensures NextTokenOf(Ascii("tr"), e) ==
      Lexed(None, Some(if e.Stalls? then UnknownIdentifier else EndError(e)), [])
  {
    var s := Ascii("tr");
    WhitespaceRunIs(s, 0);
    var got := ReadFull(s[1..], 0, 3, e);
    assert got.buf[1] == 0;
  }

  /** A token the renderer can write: a declared kind; singleton kinds are the singletons; a NUMBER's text is a number lexeme. */
  predicate Renderable(tk: Token) {
    && IsKind(tk.kind)
    && (IsSingletonKind(tk.kind) ==> tk == Singleton(tk.kind))
    && (tk.kind == Number ==> IsNumberText(tk.text))
  }

  /** A token's source form: a string quoted and escaped, a number as its text, anything else as its kind's name. */
  function Render(tk: Token): (r: seq<byte>)
    requires Renderable(tk)
    ensures |r| >= 1
  {
    if tk.kind == Literal then [Quote] + Escape(tk.text) + [Quote]
    else if tk.kind == Number then tk.text
    else TypeName(tk.kind)
  }

  /** Tokens written one after another, each followed by a space. */
  function RenderAll(toks: seq<Token>): (r: seq<byte>)
    requires forall i :: 0 <= i < |toks| ==> Renderable(toks[i])
    ensures |r| >= 2 * |toks|
  {
    if toks == [] then [] else Render(toks[0]) + [Space] + RenderAll(toks[1..])
  }

  /** One rendered token followed by a space lexes back to the token, leaving the space pending. */
  lemma RenderedTokenLexes(tk: Token, q: seq<byte>, e: SourceEnd)
    requires Renderable(tk)
    ensures NextTokenOf(Render(tk) + [Space] + q, e) == Lexed(Some(tk), None, [Space] + q)
  {
    var t := [Space] + q;
    assert Render(tk) + [Space] + q == Render(tk) + t;
    if tk.kind == Literal {
      StringLexes(tk.text, t, e);
    } else if tk.kind == Number {
      NumberLexes(tk.text, t, e);
    } else if tk.kind == True || tk.kind == False || tk.kind == Null {
      RenderedKeywordLexes(tk, t, e);
    } else {
      RenderedPunctuationLexes(tk, t, e);
    }
  }

  lemma RenderedKeywordLexes(tk: Token, t: seq<byte>, e: SourceEnd)
    requires Renderable(tk) && (tk.kind == True || tk.kind == False || tk.kind == Null)
    ensures NextTokenOf(Render(tk) + t, e) == Lexed(Some(tk), None, t)
  {
    KeywordsTable();
    KeywordLexes(Render(tk), t, e);
  }

  lemma RenderedPunctuationLexes(tk: Token, t: seq<byte>, e: SourceEnd)
    requires Renderable(tk) && tk.kind != Literal && tk.kind != Number
    requires tk.kind != True && tk.kind != False && tk.kind != Null
    ensures NextTokenOf(Render(tk) + t, e) == Lexed(Some(tk), None, t)
  {
    var r := Render(tk);
    PunctuationLexes(r[0], t, e);
    assert r == [r[0]];
    var k := NextTokenOf(r + t, e).token.value.kind;
    TypeNameInjective(k, tk.kind);
  }


  /** A step that yields a token puts it in front of the tokens that follow. */
  lemma TokenizeCons(s: seq<byte>, e: SourceEnd, tk: Token, rest: seq<byte>)
    requires NextTokenOf(s, e) == Lexed(Some(tk), None, rest)
    ensures Tokenize(s, e) == ([tk] + Tokenize(rest, e).0, Tokenize(rest, e).1)
  {
  }

  /** Leading whitespace does not change what the token stream is. */
  lemma TokenizeSkipsWhitespace(w: seq<byte>, s: seq<byte>, e: SourceEnd)
    requires forall i :: 0 <= i < |w| ==> IsWhitespace(w[i])
    ensures Tokenize(w + s, e) == Tokenize(s, e)
  {
    SkipsWhitespace(w, s, e);
  }

  /** A rendered token and its space put the token in front of what the rest lexes to. */
  lemma TokenizeRendered(tk: Token, tail: seq<byte>, e: SourceEnd)
    requires Renderable(tk)
    ensures Tokenize(Render(tk) + [Space] + tail, e) == ([tk] + Tokenize(tail, e).0, Tokenize(tail, e).1)
  {
    var s := Render(tk) + [Space] + tail;
    RenderedTokenLexes(tk, tail, e);
    TokenizeCons(s, e, tk, [Space] + tail);
    TokenizeSkipsWhitespace([Space], tail, e);
  }

  /** The lexer reads rendered tokens back exactly, and then reports the end of the source. */
  lemma {:induction false} TokenizeRenderAll(toks: seq<Token>, e: SourceEnd)
    requires forall i :: 0 <= i < |toks| ==> Renderable(toks[i])
    ensures Tokenize(RenderAll(toks), e) == (toks, EndError(e))
    decreases |toks|
  {
    if toks == [] {
      OnlyWhitespace([], e);
    } else {
      TokenizeRendered(toks[0], RenderAll(toks[1..]), e);
      TokenizeRenderAll(toks[1..], e);
      assert [toks[0]] + toks[1..] == toks;
    }
  }
}
