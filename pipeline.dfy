/**
 * The whole pipeline, bytes to tokens to value tree: a lexer run to its first
 * error feeds a parser that reads one value. Writing a value out as text and
 * parsing that text gives the value back.
 */
module Pipeline {
  import opened Wrappers
  import opened Bytes
  import opened Token
  import Tk = Token
  import opened LexErrors
  import opened ParseErrors
  import opened ByteReader
  import opened Lexer
  import Lx = Lexer
  import opened LexerProperties
  import opened Tree
  import opened TreeProperties
  import opened Parser

  /** What a parser built over a lexer on `s` makes of it: the lexer's tokens, ended by its error, parsed as one value. */
  function ParseDocument(s: seq<byte>, e: SourceEnd): (r: Parsed<Option<Value>>)
    ensures r.err.None? ==> r.node.Some? && NoEmptyObject(r.node.value)
  {
    var t := Tokenize(s, e);
    ParseValueNoEmptyObject(t.0, t.1, -1);
    ParseValue(t.0, t.1, -1)
  }

  /** Every number in the tree is text the lexer reads back as one NUMBER token. */
  predicate Lexable(v: Value)
    decreases v
  {
    match v
    case Object(ms) => forall i :: 0 <= i < |ms| ==> Lexable(ms[i].value)
    case Array(vs) => forall i :: 0 <= i < |vs| ==> Lexable(vs[i])
    case Num(d) => IsNumberText(d)
    case _ => true
  }

  predicate AllRenderable(ts: seq<Token>) {
    forall i :: 0 <= i < |ts| ==> Renderable(ts[i])
  }

  lemma AllRenderableAppend(a: seq<Token>, b: seq<Token>)
    requires AllRenderable(a) && AllRenderable(b)
    ensures AllRenderable(a + b)
  {
    forall i | 0 <= i < |a + b| ensures Renderable((a + b)[i]) {
      if i >= |a| {
        assert (a + b)[i] == b[i - |a|];
      }
    }
  }

  lemma SingletonRenderable(t: Type)
    requires IsSingletonKind(t)
    ensures AllRenderable([Singleton(t)])
  {
    SingletonsAreBare(t);
  }

  /** The tokens a lexable value is written as can all be rendered as text. */
  lemma {:induction false} EmitRenderable(v: Value)
    requires Lexable(v)
    ensures AllRenderable(Emit(v))
    decreases v, 1
  {
    match v
    case Object(ms) =>
      SingletonRenderable(LBracket);
      SingletonRenderable(RBracket);
      EmitMembersRenderable(ms);
      AllRenderableAppend([LBracketToken], EmitMembers(ms));
      AllRenderableAppend([LBracketToken] + EmitMembers(ms), [RBracketToken]);
    case Array(vs) =>
      SingletonRenderable(LBrace);
      SingletonRenderable(RBrace);
      EmitElementsRenderable(vs);
      AllRenderableAppend([LBraceToken], EmitElements(vs));
      AllRenderableAppend([LBraceToken] + EmitElements(vs), [RBraceToken]);
    case Bool(b) =>
      SingletonRenderable(True);
      SingletonRenderable(False);
    case Null =>
      SingletonRenderable(Tk.Null);
    case _ =>
  }

  lemma {:induction false} EmitMembersRenderable(ms: seq<Member>)
    requires forall i :: 0 <= i < |ms| ==> Lexable(ms[i].value)
    ensures AllRenderable(EmitMembers(ms))
    decreases ms, 0
  {
    if ms != [] {
      var m := ms[0];
      EmitRenderable(m.value);
      SingletonRenderable(Colon);
      assert AllRenderable([Token(Literal, m.name)]);
      AllRenderableAppend([Token(Literal, m.name)], [ColonToken]);
      AllRenderableAppend([Token(Literal, m.name), ColonToken], Emit(m.value));
      if |ms| > 1 {
        SingletonRenderable(Comma);
        EmitMembersRenderable(ms[1..]);
        AllRenderableAppend(EmitMember(m), [CommaToken]);
        AllRenderableAppend(EmitMember(m) + [CommaToken], EmitMembers(ms[1..]));
      }
    }
  }

  lemma {:induction false} EmitElementsRenderable(vs: seq<Value>)
    requires forall i :: 0 <= i < |vs| ==> Lexable(vs[i])
    ensures AllRenderable(EmitElements(vs))
    decreases vs, 0
  {
    if vs != [] {
      EmitRenderable(vs[0]);
      if |vs| > 1 {
        SingletonRenderable(Comma);
        EmitElementsRenderable(vs[1..]);
        AllRenderableAppend(Emit(vs[0]), [CommaToken]);
        AllRenderableAppend(Emit(vs[0]) + [CommaToken], EmitElements(vs[1..]));
      }
    }
  }

  /** A value as text: its tokens rendered one after another, each followed by a space. */
  function Serialize(v: Value): (s: seq<byte>)
    requires Lexable(v)
    ensures |s| >= 2
  {
    EmitRenderable(v);
    RenderAll(Emit(v))
  }

  /**
   * The pipeline round trip: a value without empty objects whose numbers are
   * number text, written out and parsed, is itself; the parser stops on the
   * value's last token, before the lexer's end-of-input error is ever seen.
   */
  lemma SerializeParses(v: Value, e: SourceEnd)
    requires NoEmptyObject(v) && Lexable(v)
    ensures ParseDocument(Serialize(v), e) == Parsed(Some(v), None, |Emit(v)| - 1)
  {
    EmitRenderable(v);
    TokenizeRenderAll(Emit(v), e);
    RootStopsAfterFirstValue(v, [], EndError(e));
    assert Emit(v) + [] == Emit(v);
  }

  /** The lexer run to its first error: every token it delivers, then that error. */
  method LexAll(lx: Lx.Lexer) returns (toks: seq<Token>, err: LexError)
    requires lx.Valid()
    modifies lx.reader, lx.pool
    ensures (toks, err) == Tokenize(old(lx.reader.Pending()), lx.reader.end)
  {
    ghost var whole := Tokenize(lx.reader.Pending(), lx.reader.end);
    toks := [];
    while true
      invariant lx.Valid()
      invariant var t := Tokenize(lx.reader.Pending(), lx.reader.end); toks + t.0 == whole.0 && t.1 == whole.1
      decreases |lx.reader.Pending()|
    {
      ghost var s := lx.reader.Pending();
      var tk, e := lx.NextToken();
      if e.Some? {
        assert toks + [] == toks;
        return toks, e.value;
      }
      assert Tokenize(s, lx.reader.end) == ([tk.value] + Tokenize(lx.reader.Pending(), lx.reader.end).0, Tokenize(lx.reader.Pending(), lx.reader.end).1);
      assert toks + [tk.value] + Tokenize(lx.reader.Pending(), lx.reader.end).0 == toks + ([tk.value] + Tokenize(lx.reader.Pending(), lx.reader.end).0);
      toks := toks + [tk.value];
    }
  }

  /**
   * `NewLexer`, `NewParser` and `Parse` on a source: the root value and the
   * error are what `ParseDocument` says. The lexer is run ahead of the parser
   * here; it has no effect the parser can see, so only the number of bytes
   * consumed differs.
   */
  method ParseSource(data: seq<byte>, end: SourceEnd) returns (v: Option<Value>, err: Option<ParseError>)
    ensures var r := ParseDocument(data, end); v == r.node && err == r.err
  {
    var lx := new Lx.Lexer(data, end);
    var toks, lerr := LexAll(lx);
    var used;
    v, err, used := ParseTokens(toks, lerr);
  }
}
