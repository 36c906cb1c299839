/**
 * The parser's token cursor: a buffer of the tokens read from the lexer so far
 * and a position in it, with one-token reads, lookahead of any width, skipping,
 * and a check of the kinds of the next tokens.
 */
module Cursor {
  import opened Wrappers
  import opened Token
  import opened LexErrors
  import opened ParseErrors

  function Max(a: int, b: int): int {
    if a < b then b else a
  }

  /**
   * The lexer as the parser uses it: the tokens its `NextToken` calls deliver,
   * then the error it answers with. The parser never calls it again after an error.
   */
  class TokenSource {
    const toks: seq<Token>
    const end: LexError
    var next: nat
    ghost var calls: nat

    ghost predicate Valid()
      reads this
    {
      next <= |toks| && forall i :: 0 <= i < |toks| ==> WellFormed(toks[i])
    }

    constructor (toks: seq<Token>, end: LexError)
      requires forall i :: 0 <= i < |toks| ==> WellFormed(toks[i])
      ensures Valid() && this.toks == toks && this.end == end && next == 0 && calls == 0
    {
      this.toks := toks;
      this.end := end;
      next := 0;
      calls := 0;
    }

    /** `Lexer.NextToken`: the next token, or the error once the tokens are used up. */
    method NextToken() returns (tk: Option<Token>, err: Option<LexError>)
      requires Valid()
      modifies this
      ensures Valid() && calls == old(calls) + 1
      ensures old(next) < |toks| ==> tk == Some(toks[old(next)]) && err.None? && next == old(next) + 1
      ensures old(next) == |toks| ==> tk.None? && err == Some(end) && next == old(next)
    {
      calls := calls + 1;
      if next < |toks| {
        tk, err := Some(toks[next]), None;
        next := next + 1;
      } else {
        tk, err := None, Some(end);
      }
    }
  }

  /** The first index at which the kinds of `got` differ from `kinds`, if any. */
  function FirstMismatch(kinds: seq<Type>, got: seq<Token>, i: nat): (r: Option<nat>)
    requires i <= |kinds| <= |got|
    ensures r.Some? ==>
      && i <= r.value < |kinds| && got[r.value].kind != kinds[r.value]
      && forall j :: i <= j < r.value ==> got[j].kind == kinds[j]
    ensures r.None? <==> forall j :: i <= j < |kinds| ==> got[j].kind == kinds[j]
    decreases |kinds| - i
  {
    if i == |kinds| then None
    else if got[i].kind != kinds[i] then Some(i)
    else FirstMismatch(kinds, got, i + 1)
  }

  /** The first mismatch is the one at `k` when every index from `i` up to `k` matches. */
  lemma {:induction false} FirstMismatchAt(kinds: seq<Type>, got: seq<Token>, i: nat, k: nat)
    requires i <= k < |kinds| <= |got|
    requires forall j :: i <= j < k ==> got[j].kind == kinds[j]
    requires got[k].kind != kinds[k]
    ensures FirstMismatch(kinds, got, i) == Some(k)
    decreases k - i
  {
    if i < k {
      FirstMismatchAt(kinds, got, i + 1, k);
    }
  }

  /** The comparison loop of `Expect`: the first index whose token is not of the expected kind. */
  method CheckKinds(kinds: seq<Type>, got: seq<Token>) returns (bad: Option<nat>)
    requires |kinds| <= |got|
    ensures bad == FirstMismatch(kinds, got, 0)
  {
    for i := 0 to |kinds|
      invariant forall j :: 0 <= j < i ==> got[j].kind == kinds[j]
    {
      if kinds[i] != got[i].kind {
        FirstMismatchAt(kinds, got, 0, i);
        return Some(i);
      }
    }
    bad := None;
  }

  /** `parser.Reader`: the tokens read so far, the position of the last token consumed, and the lexer. */
  class Reader {
    var buf: seq<Token>
    var pos: int
    const lx: TokenSource

    /** The buffer is exactly the tokens the lexer has delivered; the position starts at -1. */
    ghost predicate Valid()
      reads this, lx
    {
      lx.Valid() && buf == lx.toks[..lx.next] && -1 <= pos
    }

    /** The reader `NewParser` builds: an empty buffer and position -1, over a lexer not yet read from. */
    constructor (lx: TokenSource)
      requires lx.Valid() && lx.next == 0
      ensures Valid() && this.lx == lx && buf == [] && pos == -1
    {
      buf := [];
      pos := -1;
      this.lx := lx;
    }

    /** `fillbuf`: call the lexer up to `n` times, appending each token; stop at the first error. */
    method FillBuf(n: int) returns (err: Option<LexError>)
      requires Valid()
      modifies this, lx
      ensures Valid() && pos == old(pos) && old(buf) <= buf
      ensures var want := |old(buf)| + Max(n, 0);
        if want <= |lx.toks| then err.None? && |buf| == want
        else err == Some(lx.end) && |buf| == |lx.toks|
      ensures old(lx.calls) <= lx.calls <= old(lx.calls) + Max(n, 0)
    {
      var i := 0;
      while i < n
        invariant Valid() && pos == old(pos) && old(buf) <= buf
        invariant 0 <= i <= Max(n, 0)
        invariant |buf| == |old(buf)| + i && lx.calls == old(lx.calls) + i
      {
        var tk, e := lx.NextToken();
        if e.Some? {
          return e;
        }
        buf := buf + [tk.value];
        i := i + 1;
      }
      err := None;
    }

    /** `Read`: advance the position, fill the buffer up to it, and return the token there. */
    method Read() returns (tk: Option<Token>, err: Option<LexError>)
      requires Valid()
      modifies this, lx
      ensures Valid() && pos == old(pos) + 1 && old(buf) <= buf
      ensures pos < |lx.toks| ==> tk == Some(lx.toks[pos]) && err.None? && |buf| == Max(|old(buf)|, pos + 1)
      ensures pos >= |lx.toks| ==> tk.None? && err == Some(lx.end)
      ensures pos < |old(buf)| ==> buf == old(buf) && lx.calls == old(lx.calls)
    {
      pos := pos + 1;
      if pos >= |buf| {
        var e := FillBuf(pos - |buf| + 1);
        if e.Some? {
          return None, e;
        }
      }
      tk, err := Some(buf[pos]), None;
    }

    /** `Peek`: make the buffer reach `n` tokens past the position and return every buffered token after it. */
    method Peek(n: int) returns (tks: seq<Token>, err: Option<LexError>)
      requires Valid() && n >= 0
      modifies this, lx
      ensures Valid() && pos == old(pos) && old(buf) <= buf
      ensures pos + n < |lx.toks| ==>
        err.None? && |buf| == Max(|old(buf)|, pos + n + 1) && tks == lx.toks[pos + 1..|buf|] && |tks| >= n
      ensures pos + n >= |lx.toks| ==> err == Some(lx.end) && tks == []
      ensures pos + n < |old(buf)| ==> buf == old(buf) && lx.calls == old(lx.calls)
    {
      var e := FillBuf((pos + n) - |buf| + 1);
      if e.Some? {
        return [], e;
      }
      tks, err := buf[pos + 1..], None;
    }

    /** `Peek(1)` as the node loops use it: the one token just after the position. */
    method PeekNext() returns (t: Token, err: Option<LexError>)
      requires Valid()
      modifies this, lx
      ensures Valid() && pos == old(pos)
      ensures pos + 1 < |lx.toks| ==> err.None? && t == lx.toks[pos + 1] && WellFormed(t)
      ensures pos + 1 >= |lx.toks| ==> err == Some(lx.end)
    {
      var tks, e := Peek(1);
      if e.Some? {
        return Token(0, []), e;
      }
      t, err := tks[0], None;
    }

    /** `Discard`: move the position by `n`; the buffer is not touched. */
    method Discard(n: int)
      requires Valid() && pos + n >= -1
      modifies this
      ensures Valid() && pos == old(pos) + n && buf == old(buf)
    {
      pos := pos + n;
    }

    /**
     * `Expect`: peek `|kinds|` tokens; when their kinds are `kinds` move past them
     * and return the peeked tokens, otherwise report the first index that differs
     * and stay put.
     */
    method Expect(kinds: seq<Type>) returns (tks: seq<Token>, err: Option<ParseError>)
      requires Valid()
      modifies this, lx
      ensures Valid() && old(buf) <= buf
      ensures old(pos) + |kinds| >= |lx.toks| ==> err == Some(Lex(lx.end)) && pos == old(pos) && tks == []
      ensures old(pos) + |kinds| < |lx.toks| ==>
        var got := lx.toks[old(pos) + 1..old(pos) + 1 + |kinds|];
        var bad := FirstMismatch(kinds, got, 0);
        && (bad.Some? ==> err == Some(UnexpectedTokenAt(bad.value, kinds[bad.value], got[bad.value])) && pos == old(pos) && tks == [])
        && (bad.None? ==> err.None? && pos == old(pos) + |kinds| && |tks| >= |kinds| && tks[..|kinds|] == got)
    {
      var got, e := Peek(|kinds|);
      if e.Some? {
        return [], Some(Lex(e.value));
      }
      ghost var want := lx.toks[old(pos) + 1..old(pos) + 1 + |kinds|];
      assert got[..|kinds|] == want;
      var bad := CheckKinds(kinds, got[..|kinds|]);
      assert bad == FirstMismatch(kinds, want, 0);
      if bad.Some? {
        var i := bad.value;
        assert got[i] == want[i];
        return [], Some(UnexpectedTokenAt(i, kinds[i], got[i]));
      }
      Discard(|kinds|);
      tks, err := got, None;
    }
  }
}
