/**
 * The lexer: it skips whitespace, then turns the next lexeme of the byte
 * cursor's input into one token. The functions state what one `NextToken`
 * call yields from the pending bytes; the `Lexer` class does it step by step
 * over a `ByteReader.Reader` and is proved to agree with them.
 */
module Lexer {
  import opened Wrappers
  import opened Bytes
  import opened Token
  import opened LexErrors
  import opened Helpers
  import opened ByteReader

  /** One lexer step over pending bytes: the token (if any), the error (if any), and the bytes still pending. */
  datatype Lexed = Lexed(token: Option<Token>, err: Option<LexError>, rest: seq<byte>)

  /** The bytes a keyword must continue with after its first byte. */
  const TrueRemaining: seq<byte> := ['r' as byte, 'u' as byte, 'e' as byte]
  const FalseRemaining: seq<byte> := ['a' as byte, 'l' as byte, 's' as byte, 'e' as byte]
  const NullRemaining: seq<byte> := ['u' as byte, 'l' as byte, 'l' as byte]

  /** `r` is what is left of `s` after some of its first bytes were consumed. */
  predicate IsSuffix(r: seq<byte>, s: seq<byte>) {
    |r| <= |s| && r == s[|s| - |r|..]
  }

  /** The length of the run of whitespace at the start of `s`. */
  function WhitespaceRun(s: seq<byte>): (n: nat)
    ensures n <= |s|
    ensures forall j :: 0 <= j < n ==> IsWhitespace(s[j])
    ensures n < |s| ==> !IsWhitespace(s[n])
  {
    if s == [] || !IsWhitespace(s[0]) then 0 else 1 + WhitespaceRun(s[1..])
  }

  /**
   * The string literal scan after an opening quote: bytes up to the first
   * unescaped quote are collected, a backslash is dropped and the byte after it
   * copied verbatim. `text` holds what was collected so far.
   */
  function ScanLiteral(s: seq<byte>, e: SourceEnd, text: seq<byte>): (r: Lexed)
    ensures |r.rest| <= |s|
    ensures r.err.None? ==> r.token.Some? && |r.rest| < |s|
    ensures r.err.Some? ==> r.err.value == EndError(e) && r.rest == []
    ensures r.token.Some? ==> r.token.value.kind == Literal && text <= r.token.value.text
    decreases |s|
  {
    if s == [] then Lexed(Some(Token(Literal, text)), Some(EndError(e)), [])
    else if s[0] == '"' as byte then Lexed(Some(Token(Literal, text)), None, s[1..])
    else if s[0] == '\\' as byte then
      if |s| == 1 then Lexed(None, Some(EndError(e)), [])
      else ScanLiteral(s[2..], e, text + [s[1]])
    else ScanLiteral(s[1..], e, text + [s[0]])
  }

  /** The literal scan after one more pending byte `b`. */
  lemma ScanLiteralCons(b: byte, p: seq<byte>, e: SourceEnd, text: seq<byte>)
    ensures ScanLiteral([b] + p, e, text) ==
      if b == '"' as byte then Lexed(Some(Token(Literal, text)), None, p)
      else if b == '\\' as byte then
        if p == [] then Lexed(None, Some(EndError(e)), [])
        else ScanLiteral(p[1..], e, text + [p[0]])
      else ScanLiteral(p, e, text + [b])
  {
    assert ([b] + p)[0] == b && ([b] + p)[1..] == p;
    if p != [] {
      assert ([b] + p)[2..] == p[1..] && ([b] + p)[1] == p[0];
    }
  }

  lemma ScanLiteralEscape(p: seq<byte>, v: byte, rest: seq<byte>)
    requires p == [v] + rest
    ensures p != [] && p[0] == v && p[1..] == rest
  {
    assert p[1..] == rest;
  }

  /** A byte that continues a number: a digit, '.' or 'e'. */
  predicate IsNumberBody(b: byte) {
    IsDigit(b) || b == '.' as byte || b == 'e' as byte
  }

  /**
   * The number scan after its first byte: digits, '.' and 'e' are collected any
   * number of times; '-' fails; the first other byte stays pending (it is pushed back).
   */
  function ScanNumber(s: seq<byte>, e: SourceEnd, text: seq<byte>): (r: Lexed)
    ensures |r.rest| <= |s|
    ensures r.token.Some? <==> r.err.None?
    ensures r.token.Some? ==> r.token.value.kind == Number
    decreases |s|
  {
    if s == [] then Lexed(None, Some(EndError(e)), [])
    else if s[0] == '-' as byte then Lexed(None, Some(InvalidNumber), s[1..])
    else if IsNumber(s[0]) || s[0] == '.' as byte || s[0] == 'e' as byte then ScanNumber(s[1..], e, text + [s[0]])
    else Lexed(Some(Token(Number, text)), None, s)
  }

  /**
   * The fixed-length keyword match after 't', 'f' or 'n': exactly `|want|`
   * bytes are read and must be `want`.
   */
  function MatchKeyword(s: seq<byte>, e: SourceEnd, want: seq<byte>, tk: Token): (r: Lexed)
    requires forall i :: 0 <= i < |want| ==> want[i] != 0
    ensures r.token.Some? <==> |want| <= |s| && s[..|want|] == want
    ensures r.token.Some? ==> r.token.value == tk && r.err.None?
    ensures r.token.None? ==> r.err.Some?
    ensures r.token.None? && |want| <= |s| ==> r.err.value == UnknownIdentifier
    ensures r.rest == if |want| <= |s| then s[|want|..] else []
  {
    var got := ReadFull(s, 0, |want|, e);
    if got.err.Some? then Lexed(None, got.err, s[got.n..])
    else if got.buf != want then
      assert |s| < |want| ==> got.buf[|s|] != want[|s|];
      Lexed(None, Some(UnknownIdentifier), s[got.n..])
    else Lexed(Some(tk), None, s[got.n..])
  }

  /** The switch of `NextToken` on the first byte `c` after the whitespace, with `t` the bytes pending after it. */
  function LexAfter(c: byte, t: seq<byte>, e: SourceEnd): (r: Lexed)
    ensures |r.rest| <= |t|
    ensures r.err.None? ==> r.token.Some?
    ensures r.token.Some? ==>
      IsKind(r.token.value.kind)
      && (IsSingletonKind(r.token.value.kind) ==> r.token.value == Singleton(r.token.value.kind))
  {
    if c == '{' as byte then Lexed(Some(LBracketToken), None, t)
    else if c == '}' as byte then Lexed(Some(RBracketToken), None, t)
    else if c == '[' as byte then Lexed(Some(LBraceToken), None, t)
    else if c == ']' as byte then Lexed(Some(RBraceToken), None, t)
    else if c == ':' as byte then Lexed(Some(ColonToken), None, t)
    else if c == ',' as byte then Lexed(Some(CommaToken), None, t)
    else if c == '"' as byte then ScanLiteral(t, e, [])
    else if IsNumber(c) then ScanNumber(t, e, [c])
    else if c == 't' as byte then MatchKeyword(t, e, TrueRemaining, TrueToken)
    else if c == 'f' as byte then MatchKeyword(t, e, FalseRemaining, FalseToken)
    else if c == 'n' as byte then MatchKeyword(t, e, NullRemaining, NullToken)
    else Lexed(None, Some(UnknownIdentifier), t)
  }

  /** What one `NextToken` call yields from the pending bytes `s` of a source ending as `e`. */
  function NextTokenOf(s: seq<byte>, e: SourceEnd): (r: Lexed)
    ensures |r.rest| <= |s|
    ensures r.err.None? ==> r.token.Some? && |r.rest| < |s|
    ensures r.token.Some? ==>
      IsKind(r.token.value.kind)
      && (IsSingletonKind(r.token.value.kind) ==> r.token.value == Singleton(r.token.value.kind))
  {
    var i := WhitespaceRun(s);
    if i == |s| then Lexed(None, Some(EndError(e)), [])
    else LexAfter(s[i], s[i + 1..], e)
  }

  /**
   * The tokens successive `NextToken` calls deliver from `s`, up to the first
   * error, and that error.
   */
  function Tokenize(s: seq<byte>, e: SourceEnd): (r: (seq<Token>, LexError))
    ensures forall i :: 0 <= i < |r.0| ==> WellFormed(r.0[i])
    decreases |s|
  {
    var step := NextTokenOf(s, e);
    if step.err.Some? then ([], step.err.value)
    else
      var more := Tokenize(step.rest, e);
      ([step.token.value] + more.0, more.1)
  }

  /** A suffix of `s` that starts with `b` puts `b` at that index of `s`. */
  lemma PendingAt(s: seq<byte>, j: nat, b: byte, rest: seq<byte>)
    requires j <= |s| && s[j..] == [b] + rest
    ensures j < |s| && s[j] == b && rest == s[j + 1..]
  {
    assert s[j..][0] == b;
    assert s[j..][1..] == rest;
  }

  /** Within the whitespace run, or just past it, the byte at `j` says which. */
  lemma RunAt(s: seq<byte>, j: nat)
    requires j <= WhitespaceRun(s) && j < |s|
    ensures IsWhitespace(s[j]) <==> j < WhitespaceRun(s)
  {
  }

  lemma {:induction false} WhitespaceRunIs(s: seq<byte>, j: nat)
    requires j <= |s| && (forall k :: 0 <= k < j ==> IsWhitespace(s[k]))
    requires j < |s| ==> !IsWhitespace(s[j])
    ensures WhitespaceRun(s) == j
  {
    if j > 0 {
      WhitespaceRunIs(s[1..], j - 1);
    }
  }

  /** The length of the run of digits, '.' and 'e' at the start of `s`. */
  function NumberRun(s: seq<byte>): (n: nat)
    ensures n <= |s|
    ensures forall j :: 0 <= j < n ==> IsNumberBody(s[j])
    ensures n < |s| ==> !IsNumberBody(s[n])
  {
    if s == [] || !IsNumberBody(s[0]) then 0 else 1 + NumberRun(s[1..])
  }

  /** The number scan in closed form: the run of number bytes, then what the byte after it decides. */
  lemma {:induction false} ScanNumberRunEnd(s: seq<byte>, e: SourceEnd, text: seq<byte>)
    ensures var n := NumberRun(s);
      ScanNumber(s, e, text) ==
        if n == |s| then Lexed(None, Some(EndError(e)), [])
        else if s[n] == '-' as byte then Lexed(None, Some(InvalidNumber), s[n + 1..])
        else Lexed(Some(Token(Number, text + s[..n])), None, s[n..])
    decreases |s|
  {
    if s != [] {
      var t := s[1..];
      assert s == [s[0]] + t;
      ScanNumberStep(t, s[0], e, text);
      if IsNumberBody(s[0]) {
        ScanNumberRunEnd(t, e, text + [s[0]]);
        RunEndShift(s, text);
      } else {
        assert NumberRun(s) == 0;
        assert s[..0] == [] && text + [] == text && s[0..] == s;
      }
    }
  }

  /** How the closed form for `s[1..]` lines up with the one for `s` when `s` starts with a number byte. */
  lemma RunEndShift(s: seq<byte>, text: seq<byte>)
    requires s != [] && IsNumberBody(s[0])
    ensures var n := NumberRun(s); var t := s[1..];
      && n == 1 + NumberRun(t)
      && (n < |s| ==> t[n - 1] == s[n] && t[n..] == s[n + 1..] && t[n - 1..] == s[n..])
      && (text + [s[0]]) + t[..n - 1] == text + s[..n]
  {
    var n := NumberRun(s);
    assert n == 1 + NumberRun(s[1..]);
    if n < |s| {
      DropShift(s, n);
    }
    TakeShift(s, text, n);
  }

  lemma TakeShift(s: seq<byte>, text: seq<byte>, n: nat)
    requires 0 < n <= |s|
    ensures (text + [s[0]]) + s[1..][..n - 1] == text + s[..n]
  {
    assert s[..n] == [s[0]] + s[1..][..n - 1];
  }

  lemma DropShift(s: seq<byte>, n: nat)
    requires 0 < n < |s|
    ensures s[1..][n - 1] == s[n] && s[1..][n..] == s[n + 1..] && s[1..][n - 1..] == s[n..]
  {
  }

  /**
   * What the number scan yields: on success the token holds the accumulated text
   * followed by the run of digits, '.' and 'e' it consumed, and the byte that ended
   * the run stays pending; otherwise it fails with InvalidNumber past a '-', or with
   * the end-of-source error once the input is used up.
   */
  lemma ScanNumberShape(s: seq<byte>, e: SourceEnd, text: seq<byte>)
    ensures var r := ScanNumber(s, e, text);
      && IsSuffix(r.rest, s)
      && (r.token.Some? ==>
        && r.token.value == Token(Number, text + s[..|s| - |r.rest|])
        && (forall i :: 0 <= i < |s| - |r.rest| ==> IsNumberBody(s[i]))
        && r.rest != [] && !IsNumberBody(r.rest[0]) && r.rest[0] != '-' as byte)
      && (r.err.Some? ==>
        || (r.err.value == InvalidNumber && |r.rest| < |s| && s[|s| - |r.rest| - 1] == '-' as byte)
        || (r.err.value == EndError(e) && r.rest == []))
  {
    ScanNumberRunEnd(s, e, text);
    var n := NumberRun(s);
    if n < |s| {
      if s[n] == '-' as byte {
        assert |s[n + 1..]| == |s| - n - 1;
      } else {
        assert |s[n..]| == |s| - n;
      }
    }
  }

  /** One step of the number scan, on pending bytes that start with `b`. */
  lemma ScanNumberStep(q: seq<byte>, b: byte, e: SourceEnd, text: seq<byte>)
    ensures ScanNumber([b] + q, e, text) ==
      if b == '-' as byte then Lexed(None, Some(InvalidNumber), q)
      else if IsNumberBody(b) then ScanNumber(q, e, text + [b])
      else Lexed(Some(Token(Number, text)), None, [b] + q)
  {
    assert ([b] + q)[1..] == q;
  }

  lemma ReadFullShift(data: seq<byte>, offset: nat, k: nat, e: SourceEnd)
    requires offset <= |data|
    ensures ReadFull(data, offset, k, e) == ReadFull(data[offset..], 0, k, e)
  {
  }

  /** `tokenPool`: the lexer's token arena, with `lastElement` the index of the newest slot. */
  class TokenPool {
    var tokens: seq<Token>
    var lastElement: int

    ghost predicate Valid()
      reads this
    {
      lastElement == |tokens| - 1
    }

    constructor ()
      ensures Valid() && tokens == []
    {
      tokens := [];
      lastElement := -1;
    }

    /** `tokenPool.NewToken`: write (t, v) into a new last slot; earlier slots are left alone. */
    method NewToken(t: Type, v: seq<byte>) returns (tk: Token)
      requires Valid()
      modifies this
      ensures Valid()
      ensures tokens == old(tokens) + [Token(t, v)]
      ensures tk == Token(t, v) && tokens[lastElement] == tk
    {
      lastElement := lastElement + 1;
      if lastElement >= |tokens| {
        tokens := tokens + [Token(0, [])];
      }
      tokens := tokens[lastElement := Token(t, v)];
      tk := tokens[lastElement];
    }
  }

  /** `lexer.Lexer`: a token pool and the byte cursor it reads from. */
  class Lexer {
    const pool: TokenPool
    const reader: Reader

    /** A pushed-back byte is always a byte the lexer read, never the -1 a multi-byte read leaves. */
    ghost predicate Valid()
      reads this, pool, reader
    {
      pool.Valid() && reader.Valid() && (reader.lastByteAsNext ==> reader.lastByte >= 0)
    }

    /** `NewLexer`: a lexer over the whole source, with an empty pool. */
    constructor (data: seq<byte>, end: SourceEnd)
      ensures Valid() && fresh(pool) && fresh(reader)
      ensures reader.data == data && reader.end == end && reader.Pending() == data
      ensures pool.tokens == []
    {
      pool := new TokenPool();
      reader := new Reader(data, end);
    }

    /** `skipWhitespace`: read until the first byte that is not whitespace. */
    method SkipWhitespace() returns (b: byte, err: Option<LexError>)
      requires Valid()
      modifies reader
      ensures Valid() && !reader.lastByteAsNext
      ensures var s := old(reader.Pending()); var i := WhitespaceRun(s);
        && (i < |s| ==> b == s[i] && err.None? && reader.Pending() == s[i + 1..])
        && (i == |s| ==> err == Some(EndError(reader.end)) && reader.Pending() == [])
    {
      ghost var s := reader.Pending();
      ghost var j: nat := 0;
      while true
        invariant Valid() && j <= WhitespaceRun(s) && j <= |s| && reader.Pending() == s[j..]
        decreases |reader.Pending()|
      {
        b, err := reader.ReadByte();
        if err.Some? {
          return;
        }
        PendingAt(s, j, b, reader.Pending());
        RunAt(s, j);
        if !IsWhitespace(b) {
          return;
        }
        j := j + 1;
      }
    }

    /** `readLiteral`: scan a string literal after its opening quote. */
    method ReadLiteral() returns (tk: Option<Token>, err: Option<LexError>)
      requires Valid()
      modifies reader, pool
      ensures Valid()
      ensures var r := ScanLiteral(old(reader.Pending()), reader.end, []);
        tk == r.token && err == r.err && reader.Pending() == r.rest
      ensures pool.tokens == old(pool.tokens) + (if tk.Some? then [tk.value] else [])
    {
      ghost var target := ScanLiteral(reader.Pending(), reader.end, []);
      var s: seq<byte> := [];
      while true
        invariant Valid() && pool.tokens == old(pool.tokens)
        invariant ScanLiteral(reader.Pending(), reader.end, s) == target
        decreases |reader.Pending()|
      {
        ghost var before := reader.Pending();
        var b, e := reader.ReadByte();
        if e.Some? || b == '"' as byte {
          if e.None? {
            ScanLiteralCons(b, reader.Pending(), reader.end, s);
          }
          var t := pool.NewToken(Literal, s);
          return Some(t), e;
        }
        ghost var after := reader.Pending();
        ScanLiteralCons(b, after, reader.end, s);
        if b == '\\' as byte {
          var v, e2 := reader.ReadByte();
          if e2.Some? {
            return None, e2;
          }
          ScanLiteralEscape(after, v, reader.Pending());
          s := s + [v];
        } else {
          s := s + [b];
        }
      }
    }

    /** `readNumber`: scan a number whose first byte `n` was read already. */
    method ReadNumber(n: byte) returns (tk: Option<Token>, err: Option<LexError>)
      requires Valid()
      modifies reader, pool
      ensures Valid()
      ensures var r := ScanNumber(old(reader.Pending()), reader.end, [n]);
        tk == r.token && err == r.err && reader.Pending() == r.rest
      ensures pool.tokens == old(pool.tokens) + (if tk.Some? then [tk.value] else [])
    {
      ghost var target := ScanNumber(reader.Pending(), reader.end, [n]);
      var s: seq<byte> := [n];
      while true
        invariant Valid() && pool.tokens == old(pool.tokens)
        invariant ScanNumber(reader.Pending(), reader.end, s) == target
        decreases |reader.Pending()|
      {
        ghost var p := reader.Pending();
        var b, e := reader.ReadByte();
        if e.Some? {
          return None, e;
        }
        ScanNumberStep(reader.Pending(), b, reader.end, s);
        if b == '-' as byte {
          return None, Some(InvalidNumber);
        }
        if IsNumber(b) || b == '.' as byte || b == 'e' as byte {
          s := s + [b];
          continue;
        }
        var _ := reader.UnreadByte();
        assert reader.Pending() == p;
        break;
      }
      ghost var rest := reader.Pending();
      var t := pool.NewToken(Number, s);
      assert reader.Pending() == rest;
      tk, err := Some(t), None;
    }

    /** The keyword tail check of `NextToken`: read exactly `|want|` bytes and compare. */
    method MatchRemaining(want: seq<byte>, kw: Token) returns (tk: Option<Token>, err: Option<LexError>)
      requires Valid() && !reader.lastByteAsNext
      requires forall i :: 0 <= i < |want| ==> want[i] != 0
      modifies reader
      ensures Valid()
      ensures var r := MatchKeyword(old(reader.Pending()), reader.end, want, kw);
        tk == r.token && err == r.err && reader.Pending() == r.rest
    {
      ReadFullShift(reader.data, reader.offset, |want|, reader.end);
      var u, _, e := reader.Read(|want|);
      if e.Some? {
        return None, e;
      }
      if u != want {
        return None, Some(UnknownIdentifier);
      }
      tk, err := Some(kw), None;
    }

    /** `NextToken`: skip whitespace, then lex one token from the first byte that follows. */
    method NextToken() returns (tk: Option<Token>, err: Option<LexError>)
      requires Valid()
      modifies reader, pool
      ensures Valid()
      ensures var r := NextTokenOf(old(reader.Pending()), reader.end);
        tk == r.token && err == r.err && reader.Pending() == r.rest
      ensures pool.tokens == old(pool.tokens)
        + (if tk.Some? && (tk.value.kind == Literal || tk.value.kind == Number) then [tk.value] else [])
    {
      var c, e := SkipWhitespace();
      if e.Some? {
        return None, e;
      }
      tk, err := LexAfterByte(c);
    }

    /** The switch of `NextToken` on the first byte `c` after the whitespace. */
    method LexAfterByte(c: byte) returns (tk: Option<Token>, err: Option<LexError>)
      requires Valid() && !reader.lastByteAsNext
      modifies reader, pool
      ensures Valid()
      ensures var r := LexAfter(c, old(reader.Pending()), reader.end);
        tk == r.token && err == r.err && reader.Pending() == r.rest
      ensures pool.tokens == old(pool.tokens)
        + (if tk.Some? && (tk.value.kind == Literal || tk.value.kind == Number) then [tk.value] else [])
    {
      if c == '{' as byte {
        return Some(LBracketToken), None;
      } else if c == '}' as byte {
        return Some(RBracketToken), None;
      } else if c == '[' as byte {
        return Some(LBraceToken), None;
      } else if c == ']' as byte {
        return Some(RBraceToken), None;
      } else if c == ':' as byte {
        return Some(ColonToken), None;
      } else if c == ',' as byte {
        return Some(CommaToken), None;
      } else if c == '"' as byte {
        tk, err := ReadLiteral();
      } else if IsNumber(c) {
        tk, err := ReadNumber(c);
      } else if c == 't' as byte {
        tk, err := MatchRemaining(TrueRemaining, TrueToken);
      } else if c == 'f' as byte {
        tk, err := MatchRemaining(FalseRemaining, FalseToken);
      } else if c == 'n' as byte {
        tk, err := MatchRemaining(NullRemaining, NullToken);
      } else {
        tk, err := None, Some(UnknownIdentifier);
      }
    }
  }
}
