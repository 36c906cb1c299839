/**
 * Properties of the tree builder: writing a value out as tokens and parsing it
 * back gives the value, whatever follows; and the departures from the JSON
 * grammar that the builder makes (no `{}`, optional and trailing commas,
 * duplicate names, partial nodes on error), each on a concrete token stream.
 */
module TreeProperties {
  import opened Wrappers
  import opened Bytes
  import opened Token
  import Tk = Token
  import opened LexErrors
  import opened ParseErrors
  import opened Tree

  /** A value written as tokens: members and elements separated by one comma each. */
  function Emit(v: Value): (r: seq<Token>)
    ensures |r| >= 1
    decreases v, 1
  {
    match v
    case Object(ms) => [LBracketToken] + EmitMembers(ms) + [RBracketToken]
    case Array(vs) => [LBraceToken] + EmitElements(vs) + [RBraceToken]
    case Str(t) => [Token(Literal, t)]
    case Num(d) => [Token(Number, d)]
    case Bool(b) => if b then [TrueToken] else [FalseToken]
    case Null => [NullToken]
  }

  /** A member as tokens: its name, a colon, its value. */
  function EmitMember(m: Member): (r: seq<Token>)
    ensures |r| >= 3
    decreases m, 1
  {
    [Token(Literal, m.name), ColonToken] + Emit(m.value)
  }

  function EmitMembers(ms: seq<Member>): (r: seq<Token>)
    decreases ms, 0
  {
    if ms == [] then []
    else if |ms| == 1 then EmitMember(ms[0])
    else EmitMember(ms[0]) + [CommaToken] + EmitMembers(ms[1..])
  }

  function EmitElements(vs: seq<Value>): (r: seq<Token>)
    decreases vs, 0
  {
    if vs == [] then []
    else if |vs| == 1 then Emit(vs[0])
    else Emit(vs[0]) + [CommaToken] + EmitElements(vs[1..])
  }

  /** `w` sits in `toks` starting at index `i`. */
  predicate At(toks: seq<Token>, i: int, w: seq<Token>) {
    0 <= i && i + |w| <= |toks| && forall k :: 0 <= k < |w| ==> toks[i + k] == w[k]
  }

  lemma AtSplit(toks: seq<Token>, i: int, a: seq<Token>, b: seq<Token>)
    requires At(toks, i, a + b)
    ensures At(toks, i, a) && At(toks, i + |a|, b)
  {
    forall k | 0 <= k < |a| ensures toks[i + k] == a[k] {
      assert (a + b)[k] == a[k];
    }
    forall k | 0 <= k < |b| ensures toks[i + |a| + k] == b[k] {
      assert (a + b)[|a| + k] == b[k];
    }
  }

  lemma AtJoin(toks: seq<Token>, i: int, a: seq<Token>, b: seq<Token>)
    requires At(toks, i, a) && At(toks, i + |a|, b)
    ensures At(toks, i, a + b)
  {
    forall k | 0 <= k < |a + b| ensures toks[i + k] == (a + b)[k] {
      if k >= |a| {
        assert toks[i + |a| + (k - |a|)] == b[k - |a|];
      }
    }
  }

  lemma AtFirst(toks: seq<Token>, i: int, w: seq<Token>)
    requires At(toks, i, w) && |w| > 0
    ensures toks[i] == w[0]
  {
    assert toks[i + 0] == w[0];
  }

  /** No value is written starting with a comma or a closing bracket. */
  lemma EmitStartsValue(v: Value)
    ensures Emit(v)[0].kind != Comma && Emit(v)[0].kind != RBrace && Emit(v)[0].kind != RBracket
  {
  }

  /**
   * The round trip: a value without empty objects, written as tokens at index
   * `pos + 1`, parses back to itself and leaves the position on its last token;
   * the tokens after it are not looked at.
   */
  lemma {:induction false} ParseEmitted(v: Value, toks: seq<Token>, end: LexError, pos: int)
    requires -1 <= pos && NoEmptyObject(v) && At(toks, pos + 1, Emit(v))
    ensures ParseValue(toks, end, pos) == Parsed(Some(v), None, pos + |Emit(v)|)
    decreases v, 2
  {
    match v
    case Object(ms) => ParseObjectEmitted(ms, toks, end, pos);
    case Array(vs) => ParseArrayEmitted(vs, toks, end, pos);
    case _ => AtFirst(toks, pos + 1, Emit(v));
  }

  lemma {:induction false} ParseObjectEmitted(ms: seq<Member>, toks: seq<Token>, end: LexError, pos: int)
    requires -1 <= pos && NoEmptyObject(Object(ms)) && At(toks, pos + 1, Emit(Object(ms)))
    ensures ParseValue(toks, end, pos) == Parsed(Some(Object(ms)), None, pos + |Emit(Object(ms))|)
    decreases ms, 2
  {
    assert toks[pos + 1] == LBracketToken && At(toks, pos + 2, EmitMembers(ms) + [RBracketToken]) by {
      assert Emit(Object(ms)) == [LBracketToken] + (EmitMembers(ms) + [RBracketToken]);
      AtSplit(toks, pos + 1, [LBracketToken], EmitMembers(ms) + [RBracketToken]);
      AtFirst(toks, pos + 1, [LBracketToken]);
    }
    ParseMembersEmitted(ms, toks, end, pos + 1, []);
    assert [] + ms == ms;
  }

  lemma {:induction false} ParseArrayEmitted(vs: seq<Value>, toks: seq<Token>, end: LexError, pos: int)
    requires -1 <= pos && NoEmptyObject(Array(vs)) && At(toks, pos + 1, Emit(Array(vs)))
    ensures ParseValue(toks, end, pos) == Parsed(Some(Array(vs)), None, pos + |Emit(Array(vs))|)
    decreases vs, 2
  {
    assert toks[pos + 1] == LBraceToken && At(toks, pos + 2, EmitElements(vs) + [RBraceToken]) by {
      assert Emit(Array(vs)) == [LBraceToken] + (EmitElements(vs) + [RBraceToken]);
      AtSplit(toks, pos + 1, [LBraceToken], EmitElements(vs) + [RBraceToken]);
      AtFirst(toks, pos + 1, [LBraceToken]);
    }
    ParseElementsEmitted(vs, toks, end, pos + 1, []);
    assert [] + vs == vs;
  }

  /**
   * A member written as tokens at `pos + 1`, followed by `next`, parses back to
   * itself; a comma as `next` is consumed with it.
   */
  lemma {:induction false} ParseKeyEmitted(m: Member, next: Token, toks: seq<Token>, end: LexError, pos: int)
    requires -1 <= pos && NoEmptyObject(m.value) && At(toks, pos + 1, EmitMember(m) + [next])
    ensures var q := pos + |EmitMember(m)|;
      ParseKey(toks, end, pos) == Parsed(Some(m), None, if next.kind == Comma then q + 1 else q)
    decreases m, 0
  {
    MemberLayout(m, next, toks, pos);
    ParseEmitted(m.value, toks, end, pos + 2);
  }

  /** Where the parts of a written member sit. */
  lemma MemberLayout(m: Member, next: Token, toks: seq<Token>, pos: int)
    requires -1 <= pos && At(toks, pos + 1, EmitMember(m) + [next])
    ensures var q := pos + |EmitMember(m)|;
      && toks[pos + 1] == Token(Literal, m.name) && toks[pos + 2] == ColonToken
      && At(toks, pos + 3, Emit(m.value)) && q + 1 < |toks| && toks[q + 1] == next
  {
    var name := Token(Literal, m.name);
    AtSplit(toks, pos + 1, EmitMember(m), [next]);
    AtSplit(toks, pos + 1, [name, ColonToken], Emit(m.value));
    AtFirst(toks, pos + |EmitMember(m)| + 1, [next]);
    assert [name, ColonToken] == [name] + [ColonToken];
    AtSplit(toks, pos + 1, [name], [ColonToken]);
    AtFirst(toks, pos + 1, [name]);
    AtFirst(toks, pos + 2, [ColonToken]);
  }

  /** One round of the member loop after a member parsed and no `}` follows. */
  lemma ParseMembersStep(toks: seq<Token>, end: LexError, pos: int, acc: seq<Member>, m: Member, q: int)
    requires -1 <= pos < |toks| && ParseKey(toks, end, pos) == Parsed(Some(m), None, q)
    requires q + 1 < |toks| && toks[q + 1].kind != RBracket
    ensures ParseMembers(toks, end, pos, acc) == ParseMembers(toks, end, q, acc + [m])
  {
  }

  /** The last round of the member loop: a member parsed and `}` follows. */
  lemma ParseMembersLast(toks: seq<Token>, end: LexError, pos: int, acc: seq<Member>, m: Member, q: int)
    requires -1 <= pos < |toks| && ParseKey(toks, end, pos) == Parsed(Some(m), None, q)
    requires q + 1 < |toks| && toks[q + 1].kind == RBracket
    ensures ParseMembers(toks, end, pos, acc) == Parsed(acc + [m], None, q + 1)
  {
  }

  /** One round of the element loop: a value that parsed. */
  lemma ParseElementsStep(toks: seq<Token>, end: LexError, pos: int, acc: seq<Value>, v: Value, q: int)
    requires -1 <= pos && pos + 1 < |toks| && toks[pos + 1].kind != Comma && toks[pos + 1].kind != RBrace
    requires ParseValue(toks, end, pos) == Parsed(Some(v), None, q)
    ensures ParseElements(toks, end, pos, acc) == ParseElements(toks, end, q, acc + [v])
  {
  }

  lemma ConsSplit<T>(acc: seq<T>, xs: seq<T>)
    requires |xs| > 0
    ensures acc + [xs[0]] + xs[1..] == acc + xs
  {
  }

  lemma EmitMembersStart(ms: seq<Member>)
    requires |ms| > 0
    ensures |EmitMembers(ms)| > 0 && EmitMembers(ms)[0] == Token(Literal, ms[0].name)
  {
  }

  /** Members written with commas between them, then `}`, parse to those members. */
  lemma {:induction false} ParseMembersEmitted(ms: seq<Member>, toks: seq<Token>, end: LexError, pos: int, acc: seq<Member>)
    requires -1 <= pos && |ms| > 0 && forall i :: 0 <= i < |ms| ==> NoEmptyObject(ms[i].value)
    requires At(toks, pos + 1, EmitMembers(ms) + [RBracketToken])
    ensures pos + |EmitMembers(ms)| + 1 < |toks|
    ensures ParseMembers(toks, end, pos, acc) == Parsed(acc + ms, None, pos + |EmitMembers(ms)| + 1)
    decreases ms, 1
  {
    if |ms| == 1 {
      ParseLastMemberEmitted(ms, toks, end, pos, acc);
    } else {
      ParseMembersConsEmitted(ms, toks, end, pos, acc);
    }
  }

  lemma {:induction false} ParseLastMemberEmitted(ms: seq<Member>, toks: seq<Token>, end: LexError, pos: int, acc: seq<Member>)
    requires -1 <= pos && |ms| == 1 && NoEmptyObject(ms[0].value)
    requires At(toks, pos + 1, EmitMembers(ms) + [RBracketToken])
    ensures pos + |EmitMembers(ms)| + 1 < |toks|
    ensures ParseMembers(toks, end, pos, acc) == Parsed(acc + ms, None, pos + |EmitMembers(ms)| + 1)
    decreases ms, 0
  {
    var m := ms[0];
    var q := pos + |EmitMember(m)|;
    assert EmitMembers(ms) + [RBracketToken] == EmitMember(m) + [RBracketToken];
    ParseKeyEmitted(m, RBracketToken, toks, end, pos);
    AtSplit(toks, pos + 1, EmitMember(m), [RBracketToken]);
    AtFirst(toks, q + 1, [RBracketToken]);
    ParseMembersLast(toks, end, pos, acc, m, q);
    assert ms == [m];
  }

  lemma {:induction false} ParseMembersConsEmitted(ms: seq<Member>, toks: seq<Token>, end: LexError, pos: int, acc: seq<Member>)
    requires -1 <= pos && |ms| > 1 && forall i :: 0 <= i < |ms| ==> NoEmptyObject(ms[i].value)
    requires At(toks, pos + 1, EmitMembers(ms) + [RBracketToken])
    ensures pos + |EmitMembers(ms)| + 1 < |toks|
    ensures ParseMembers(toks, end, pos, acc) == Parsed(acc + ms, None, pos + |EmitMembers(ms)| + 1)
    decreases ms, 0
  {
    var m := ms[0];
    var q := pos + |EmitMember(m)|;
    var rest := ms[1..];
    var tail := EmitMembers(rest) + [RBracketToken];
    EmitMembersCons(ms);
    ConsLayout(toks, pos + 1, EmitMember(m), CommaToken, EmitMembers(rest), RBracketToken);
    AtJoin(toks, pos + 1, EmitMember(m), [CommaToken]);
    assert NoEmptyObject(m.value);
    ParseKeyEmitted(m, CommaToken, toks, end, pos);
    EmitMembersStart(rest);
    AtFirst(toks, q + 2, tail);
    ParseMembersStep(toks, end, pos, acc, m, q + 1);
    assert forall i :: 0 <= i < |rest| ==> NoEmptyObject(rest[i].value) by {
      forall i | 0 <= i < |rest| ensures NoEmptyObject(rest[i].value) {
        assert rest[i] == ms[i + 1];
      }
    }
    ParseMembersEmitted(rest, toks, end, q + 1, acc + [m]);
    ConsSplit(acc, ms);
  }

  lemma EmitMembersCons(ms: seq<Member>)
    requires |ms| > 1
    ensures EmitMembers(ms) + [RBracketToken] == EmitMember(ms[0]) + ([CommaToken] + (EmitMembers(ms[1..]) + [RBracketToken]))
    ensures |EmitMembers(ms)| == |EmitMember(ms[0])| + 1 + |EmitMembers(ms[1..])|
  {
    SeqAssoc(EmitMember(ms[0]), EmitMembers(ms[1..]), CommaToken, RBracketToken);
  }

  /** Where the parts of one written element sit: the value, then `]`. */
  lemma LastElementLayout(v: Value, toks: seq<Token>, pos: int)
    requires -1 <= pos && At(toks, pos + 1, EmitElements([v]) + [RBraceToken])
    ensures var q := pos + |Emit(v)|;
      At(toks, pos + 1, Emit(v)) && q + 1 < |toks| && toks[q + 1] == RBraceToken && |EmitElements([v])| == |Emit(v)|
  {
    assert EmitElements([v]) + [RBraceToken] == Emit(v) + [RBraceToken];
    AtSplit(toks, pos + 1, Emit(v), [RBraceToken]);
    AtFirst(toks, pos + |Emit(v)| + 1, [RBraceToken]);
  }

  lemma EmitElementsCons(vs: seq<Value>)
    requires |vs| > 1
    ensures EmitElements(vs) + [RBraceToken] == Emit(vs[0]) + ([CommaToken] + (EmitElements(vs[1..]) + [RBraceToken]))
    ensures |EmitElements(vs)| == |Emit(vs[0])| + 1 + |EmitElements(vs[1..])|
  {
    var a, d := Emit(vs[0]), EmitElements(vs[1..]);
    assert EmitElements(vs) == a + [CommaToken] + d;
    SeqAssoc(a, d, CommaToken, RBraceToken);
  }

  lemma SeqAssoc(a: seq<Token>, d: seq<Token>, c: Token, r: Token)
    ensures a + [c] + d + [r] == a + ([c] + (d + [r]))
  {
  }

  /** Where the parts of `a`, a token `c`, then `d` and `r` sit. */
  lemma ConsLayout(toks: seq<Token>, i: int, a: seq<Token>, c: Token, d: seq<Token>, r: Token)
    requires At(toks, i, a + ([c] + (d + [r])))
    ensures At(toks, i, a) && toks[i + |a|] == c && At(toks, i + |a| + 1, d + [r])
  {
    AtSplit(toks, i, a, [c] + (d + [r]));
    AtSplit(toks, i + |a|, [c], d + [r]);
    AtFirst(toks, i + |a|, [c]);
  }

  /** The element loop at `]`. */
  lemma ParseElementsClose(toks: seq<Token>, end: LexError, pos: int, acc: seq<Value>)
    requires -1 <= pos && pos + 1 < |toks| && toks[pos + 1].kind == RBrace
    ensures ParseElements(toks, end, pos, acc) == Parsed(acc, None, pos + 1)
  {
  }

  /** Elements written with commas between them, then `]`, parse to those elements. */
  lemma {:induction false} ParseElementsEmitted(vs: seq<Value>, toks: seq<Token>, end: LexError, pos: int, acc: seq<Value>)
    requires -1 <= pos && forall i :: 0 <= i < |vs| ==> NoEmptyObject(vs[i])
    requires At(toks, pos + 1, EmitElements(vs) + [RBraceToken])
    ensures pos + |EmitElements(vs)| + 1 < |toks|
    ensures ParseElements(toks, end, pos, acc) == Parsed(acc + vs, None, pos + |EmitElements(vs)| + 1)
    decreases vs, 1
  {
    if vs == [] {
      assert EmitElements(vs) + [RBraceToken] == [RBraceToken];
      AtFirst(toks, pos + 1, [RBraceToken]);
      ParseElementsClose(toks, end, pos, acc);
      assert acc + vs == acc;
    } else if |vs| == 1 {
      ParseLastElementEmitted(vs, toks, end, pos, acc);
    } else {
      ParseElementsConsEmitted(vs, toks, end, pos, acc);
    }
  }

  lemma {:induction false} ParseLastElementEmitted(vs: seq<Value>, toks: seq<Token>, end: LexError, pos: int, acc: seq<Value>)
    requires -1 <= pos && |vs| == 1 && NoEmptyObject(vs[0])
    requires At(toks, pos + 1, EmitElements(vs) + [RBraceToken])
    ensures pos + |EmitElements(vs)| + 1 < |toks|
    ensures ParseElements(toks, end, pos, acc) == Parsed(acc + vs, None, pos + |EmitElements(vs)| + 1)
    decreases vs, 0
  {
    var v := vs[0];
    var q := pos + |Emit(v)|;
    assert vs == [v];
    LastElementLayout(v, toks, pos);
    assert toks[pos + 1].kind != Comma && toks[pos + 1].kind != RBrace by {
      AtFirst(toks, pos + 1, Emit(v));
      EmitStartsValue(v);
    }
    ParseEmitted(v, toks, end, pos);
    ParseElementsStep(toks, end, pos, acc, v, q);
    ParseElementsClose(toks, end, q, acc + [v]);
  }

  lemma {:induction false} ParseElementsConsEmitted(vs: seq<Value>, toks: seq<Token>, end: LexError, pos: int, acc: seq<Value>)
    requires -1 <= pos && |vs| > 1 && forall i :: 0 <= i < |vs| ==> NoEmptyObject(vs[i])
    requires At(toks, pos + 1, EmitElements(vs) + [RBraceToken])
    ensures pos + |EmitElements(vs)| + 1 < |toks|
    ensures ParseElements(toks, end, pos, acc) == Parsed(acc + vs, None, pos + |EmitElements(vs)| + 1)
    decreases vs, 0
  {
    var v, rest := vs[0], vs[1..];
    var q := pos + |Emit(v)|;
    EmitElementsCons(vs);
    ConsLayout(toks, pos + 1, Emit(v), CommaToken, EmitElements(rest), RBraceToken);
    assert toks[pos + 1].kind != Comma && toks[pos + 1].kind != RBrace by {
      AtFirst(toks, pos + 1, Emit(v));
      EmitStartsValue(v);
    }
    assert NoEmptyObject(v);
    ParseEmitted(v, toks, end, pos);
    ParseElementsStep(toks, end, pos, acc, v, q);
    assert forall i :: 0 <= i < |rest| ==> NoEmptyObject(rest[i]) by {
      forall i | 0 <= i < |rest| ensures NoEmptyObject(rest[i]) {
        assert rest[i] == vs[i + 1];
      }
    }
    ParseElementsEmitted(rest, toks, end, q + 1, acc + [v]);
    ConsSplit(acc, vs);
  }

  /** Every member's value has no empty object. */
  predicate MembersNoEmpty(ms: seq<Member>) {
    forall i :: 0 <= i < |ms| ==> NoEmptyObject(ms[i].value)
  }

  /** No element has an empty object. */
  predicate ValuesNoEmpty(vs: seq<Value>) {
    forall i :: 0 <= i < |vs| ==> NoEmptyObject(vs[i])
  }

  lemma ObjectNoEmpty(ms: seq<Member>)
    requires |ms| > 0 && MembersNoEmpty(ms)
    ensures NoEmptyObject(Object(ms))
  {
  }

  lemma ArrayNoEmpty(vs: seq<Value>)
    requires ValuesNoEmpty(vs)
    ensures NoEmptyObject(Array(vs))
  {
  }

  lemma MembersNoEmptyAppend(ms: seq<Member>, m: Member)
    requires MembersNoEmpty(ms) && NoEmptyObject(m.value)
    ensures MembersNoEmpty(ms + [m])
  {
    forall i | 0 <= i < |ms + [m]| ensures NoEmptyObject((ms + [m])[i].value) {
      if i < |ms| {
        assert (ms + [m])[i] == ms[i];
      }
    }
  }

  lemma ValuesNoEmptyAppend(vs: seq<Value>, v: Value)
    requires ValuesNoEmpty(vs) && NoEmptyObject(v)
    ensures ValuesNoEmpty(vs + [v])
  {
    forall i | 0 <= i < |vs + [v]| ensures NoEmptyObject((vs + [v])[i]) {
      if i < |vs| {
        assert (vs + [v])[i] == vs[i];
      }
    }
  }

  /** A successful parse never builds an empty object, at any depth. */
  lemma {:induction false} ParseValueNoEmptyObject(toks: seq<Token>, end: LexError, pos: int)
    requires -1 <= pos
    ensures var r := ParseValue(toks, end, pos); r.err.None? ==> NoEmptyObject(r.node.value)
    decreases |toks| - pos, 0
  {
    var p := pos + 1;
    if p < |toks| {
      if toks[p].kind == LBracket {
        ObjectValue(toks, end, pos);
        var o := ParseMembers(toks, end, p, []);
        ParseMembersNoEmptyObject(toks, end, p, []);
        MembersAccumulate(toks, end, p, []);
        if o.err.None? {
          assert |o.node| > 0 && MembersNoEmpty(o.node);
          ObjectNoEmpty(o.node);
        }
      } else if toks[p].kind == LBrace {
        ArrayValue(toks, end, pos);
        var a := ParseElements(toks, end, p, []);
        ParseElementsNoEmptyObject(toks, end, p, []);
        if a.err.None? {
          assert ValuesNoEmpty(a.node);
          ArrayNoEmpty(a.node);
        }
      }
    }
  }

  lemma {:induction false} ParseKeyNoEmptyObject(toks: seq<Token>, end: LexError, pos: int)
    requires -1 <= pos < |toks|
    ensures var r := ParseKey(toks, end, pos); r.err.None? ==> NoEmptyObject(r.node.value.value)
    decreases |toks| - pos, 1
  {
    if pos + 2 < |toks| && toks[pos + 1].kind == Literal && toks[pos + 2].kind == Colon {
      ParseValueNoEmptyObject(toks, end, pos + 2);
    }
  }

  lemma {:induction false} ParseMembersNoEmptyObject(toks: seq<Token>, end: LexError, pos: int, acc: seq<Member>)
    requires -1 <= pos < |toks| && MembersNoEmpty(acc)
    ensures var r := ParseMembers(toks, end, pos, acc); r.err.None? ==> MembersNoEmpty(r.node)
    decreases |toks| - pos, 2
  {
    ParseKeyNoEmptyObject(toks, end, pos);
    var k := ParseKey(toks, end, pos);
    if k.err.None? {
      var m := k.node.value;
      MembersNoEmptyAppend(acc, m);
      var q := k.pos;
      if q + 1 < |toks| {
        if toks[q + 1].kind == RBracket {
          ParseMembersLast(toks, end, pos, acc, m, q);
        } else {
          ParseMembersStep(toks, end, pos, acc, m, q);
          ParseMembersNoEmptyObject(toks, end, q, acc + [m]);
        }
      }
    }
  }

  lemma {:induction false} ParseElementsNoEmptyObject(toks: seq<Token>, end: LexError, pos: int, acc: seq<Value>)
    requires -1 <= pos < |toks| && ValuesNoEmpty(acc)
    ensures var r := ParseElements(toks, end, pos, acc); r.err.None? ==> ValuesNoEmpty(r.node)
    decreases |toks| - pos, 1
  {
    if pos + 1 < |toks| {
      if toks[pos + 1].kind == Comma {
        ParseElementsSkip(toks, end, pos, acc);
        ParseElementsNoEmptyObject(toks, end, pos + 1, acc);
      } else if toks[pos + 1].kind == RBrace {
        ParseElementsClose(toks, end, pos, acc);
      } else {
        ParseValueNoEmptyObject(toks, end, pos);
        var v := ParseValue(toks, end, pos);
        if v.err.None? {
          ValuesNoEmptyAppend(acc, v.node.value);
          ParseElementsStep(toks, end, pos, acc, v.node.value, v.pos);
          ParseElementsNoEmptyObject(toks, end, v.pos, acc + [v.node.value]);
        } else {
          assert ParseElements(toks, end, pos, acc) == Parsed(acc, v.err, v.pos);
        }
      }
    }
  }

  /** `{` then `}`: the first member must start with a LITERAL, so the object fails, empty, at the `}` or at the end. */
  lemma EmptyObjectRejected(toks: seq<Token>, end: LexError, pos: int)
    requires -1 <= pos && pos + 2 < |toks| && toks[pos + 1].kind == LBracket && toks[pos + 2].kind == RBracket
    ensures ParseValue(toks, end, pos) == Parsed(Some(Object([])),
      Some(if pos + 3 < |toks| then UnexpectedTokenAt(0, Literal, toks[pos + 2]) else Lex(end)), pos + 1)
  {
    assert ParseKey(toks, end, pos + 1).node.None?;
  }

  /** A closing bracket, a colon or a comma cannot start a value. */
  lemma NonValueTokenRejected(toks: seq<Token>, end: LexError, pos: int)
    requires -1 <= pos && pos + 1 < |toks|
    requires toks[pos + 1].kind in {RBracket, RBrace, Colon, Comma}
    ensures ParseValue(toks, end, pos) == Parsed(None, Some(UnexpectedToken(ValueExpected, toks[pos + 1])), pos + 1)
  {
  }

  /** Scalars are one token each; a string or number node carries the token's text. */
  lemma ScalarValues(toks: seq<Token>, end: LexError, pos: int)
    requires -1 <= pos && pos + 1 < |toks|
    ensures var t := toks[pos + 1];
      && (t.kind == Literal ==> ParseValue(toks, end, pos) == Parsed(Some(Str(t.text)), None, pos + 1))
      && (t.kind == Number ==> ParseValue(toks, end, pos) == Parsed(Some(Num(t.text)), None, pos + 1))
      && (t.kind == True ==> ParseValue(toks, end, pos) == Parsed(Some(Bool(true)), None, pos + 1))
      && (t.kind == False ==> ParseValue(toks, end, pos) == Parsed(Some(Bool(false)), None, pos + 1))
      && (t.kind == Tk.Null ==> ParseValue(toks, end, pos) == Parsed(Some(Value.Null), None, pos + 1))
  {
  }

  /** With no token left, a value fails with the lexer's own error and no node. */
  lemma ValueAtEnd(toks: seq<Token>, end: LexError, pos: int)
    requires -1 <= pos && pos + 1 >= |toks|
    ensures ParseValue(toks, end, pos) == Parsed(None, Some(Lex(end)), pos + 1)
  {
  }

  /** The root is one value: whatever follows it is never looked at. */
  lemma RootStopsAfterFirstValue(v: Value, rest: seq<Token>, end: LexError)
    requires NoEmptyObject(v)
    ensures ParseValue(Emit(v) + rest, end, -1) == Parsed(Some(v), None, |Emit(v)| - 1)
  {
    var toks := Emit(v) + rest;
    assert At(toks, 0, Emit(v)) by {
      forall k | 0 <= k < |Emit(v)| ensures toks[0 + k] == Emit(v)[k] {
      }
    }
    ParseEmitted(v, toks, end, -1);
  }

  /** `{` hands the rest to the member loop. */
  lemma ObjectValue(toks: seq<Token>, end: LexError, pos: int)
    requires -1 <= pos && pos + 1 < |toks| && toks[pos + 1].kind == LBracket
    ensures var o := ParseMembers(toks, end, pos + 1, []);
      ParseValue(toks, end, pos) == Parsed(Some(Object(o.node)), o.err, o.pos)
  {
  }

  /** `[` hands the rest to the element loop. */
  lemma ArrayValue(toks: seq<Token>, end: LexError, pos: int)
    requires -1 <= pos && pos + 1 < |toks| && toks[pos + 1].kind == LBrace
    ensures var a := ParseElements(toks, end, pos + 1, []);
      ParseValue(toks, end, pos) == Parsed(Some(Array(a.node)), a.err, a.pos)
  {
  }

  /** The element loop skips a comma. */
  lemma ParseElementsSkip(toks: seq<Token>, end: LexError, pos: int, acc: seq<Value>)
    requires -1 <= pos && pos + 1 < |toks| && toks[pos + 1].kind == Comma
    ensures ParseElements(toks, end, pos, acc) == ParseElements(toks, end, pos + 1, acc)
  {
  }

  /** A key whose value is the scalar token at `pos + 3`, followed by a token at `pos + 4`. */
  lemma ScalarKey(toks: seq<Token>, end: LexError, pos: int, v: Value)
    requires -1 <= pos && pos + 4 < |toks| && toks[pos + 1].kind == Literal && toks[pos + 2].kind == Colon
    requires ParseValue(toks, end, pos + 2) == Parsed(Some(v), None, pos + 3)
    ensures ParseKey(toks, end, pos) == Parsed(Some(Member(toks[pos + 1].text, v)), None,
      if toks[pos + 4].kind == Comma then pos + 4 else pos + 3)
  {
  }

  const KeyA: Token := Token(Literal, ['a' as byte])
  const One: Token := Token(Number, ['1' as byte])
  const Two: Token := Token(Number, ['2' as byte])

  /** `{"a":1,}`: a comma before `}` is accepted. */
  lemma TrailingCommaAccepted(end: LexError)
    ensures ParseValue([LBracketToken, KeyA, ColonToken, One, CommaToken, RBracketToken], end, -1)
      == Parsed(Some(Object([Member(KeyA.text, Num(One.text))])), None, 5)
  {
    var toks := [LBracketToken, KeyA, ColonToken, One, CommaToken, RBracketToken];
    var m := Member(KeyA.text, Num(One.text));
    assert toks[0].kind == LBracket && toks[1] == KeyA && toks[2].kind == Colon && toks[3] == One;
    assert toks[4].kind == Comma && toks[5].kind == RBracket;
    ScalarValues(toks, end, 2);
    assert ParseValue(toks, end, 2) == Parsed(Some(Num(One.text)), None, 3);
    ScalarKey(toks, end, 0, Num(One.text));
    assert ParseKey(toks, end, 0) == Parsed(Some(m), None, 4);
    ParseMembersLast(toks, end, 0, [], m, 4);
    assert [] + [m] == [m];
    assert ParseMembers(toks, end, 0, []) == Parsed([m], None, 5);
    ObjectValue(toks, end, -1);
  }

  /** `{"a":1 "a":2}`: members need no comma between them, and a repeated name is kept twice, in order. */
  lemma MissingCommaAndDuplicateNames(end: LexError)
    ensures ParseValue([LBracketToken, KeyA, ColonToken, One, KeyA, ColonToken, Two, RBracketToken], end, -1)
      == Parsed(Some(Object([Member(KeyA.text, Num(One.text)), Member(KeyA.text, Num(Two.text))])), None, 7)
  {
    var toks := [LBracketToken, KeyA, ColonToken, One, KeyA, ColonToken, Two, RBracketToken];
    var m1, m2 := Member(KeyA.text, Num(One.text)), Member(KeyA.text, Num(Two.text));
    ScalarValues(toks, end, 2);
    ScalarKey(toks, end, 0, Num(One.text));
    ScalarValues(toks, end, 5);
    ScalarKey(toks, end, 3, Num(Two.text));
    ParseMembersStep(toks, end, 0, [], m1, 3);
    assert [] + [m1] == [m1];
    ParseMembersLast(toks, end, 3, [m1], m2, 6);
    assert [m1] + [m2] == [m1, m2];
    ObjectValue(toks, end, -1);
  }

  /** `[]` is the empty array; `[1 2]` and `[,1,,2,]` both hold two elements: commas are skipped wherever they are. */
  lemma ArrayCommas(end: LexError)
    ensures ParseValue([LBraceToken, RBraceToken], end, -1) == Parsed(Some(Array([])), None, 1)
    ensures ParseValue([LBraceToken, One, Two, RBraceToken], end, -1)
      == Parsed(Some(Array([Num(One.text), Num(Two.text)])), None, 3)
    ensures ParseValue([LBraceToken, CommaToken, One, CommaToken, CommaToken, Two, CommaToken, RBraceToken], end, -1)
      == Parsed(Some(Array([Num(One.text), Num(Two.text)])), None, 7)
  {
    var e := [LBraceToken, RBraceToken];
    ParseElementsClose(e, end, 0, []);
    var one, two := Num(One.text), Num(Two.text);
    assert [] + [one] == [one];
    assert [one] + [two] == [one, two];
    ArrayValue(e, end, -1);
    var a := [LBraceToken, One, Two, RBraceToken];
    ScalarValues(a, end, 0);
    ScalarValues(a, end, 1);
    ParseElementsStep(a, end, 0, [], Num(One.text), 1);
    ParseElementsStep(a, end, 1, [Num(One.text)], Num(Two.text), 2);
    ParseElementsClose(a, end, 2, [Num(One.text), Num(Two.text)]);
    ArrayValue(a, end, -1);
    var b := [LBraceToken, CommaToken, One, CommaToken, CommaToken, Two, CommaToken, RBraceToken];
    ScalarValues(b, end, 1);
    ScalarValues(b, end, 4);
    ParseElementsSkip(b, end, 0, []);
    ParseElementsStep(b, end, 1, [], Num(One.text), 2);
    ParseElementsSkip(b, end, 2, [Num(One.text)]);
    ParseElementsSkip(b, end, 3, [Num(One.text)]);
    ParseElementsStep(b, end, 4, [Num(One.text)], Num(Two.text), 5);
    ParseElementsSkip(b, end, 5, [Num(One.text), Num(Two.text)]);
    ParseElementsClose(b, end, 6, [Num(One.text), Num(Two.text)]);
    ArrayValue(b, end, -1);
  }

  /** `{"a":1,"a":}`: the object comes back with the members before the failing one, beside the error. */
  lemma PartialObjectOnError(end: LexError)
    ensures ParseValue([LBracketToken, KeyA, ColonToken, One, CommaToken, KeyA, ColonToken, RBracketToken], end, -1)
      == Parsed(Some(Object([Member(KeyA.text, Num(One.text))])), Some(UnexpectedToken(ValueExpected, RBracketToken)), 7)
  {
    var toks := [LBracketToken, KeyA, ColonToken, One, CommaToken, KeyA, ColonToken, RBracketToken];
    var m := Member(KeyA.text, Num(One.text));
    ScalarValues(toks, end, 2);
    ScalarKey(toks, end, 0, Num(One.text));
    NonValueTokenRejected(toks, end, 6);
    assert ParseKey(toks, end, 4) == Parsed(None, Some(UnexpectedToken(ValueExpected, RBracketToken)), 7);
    ParseMembersStep(toks, end, 0, [], m, 4);
    assert [] + [m] == [m];
    ObjectValue(toks, end, -1);
  }

  /**
   * Tokens running out inside an object: after a member and a comma the object
   * reports a missing key (or wraps the lexer's error); right after a member's
   * value the lexer's error comes back as is, and that member is dropped.
   */
  lemma ObjectAtEnd(end: LexError)
    ensures ParseValue([LBracketToken, KeyA, ColonToken, One, CommaToken], end, -1)
      == Parsed(Some(Object([Member(KeyA.text, Num(One.text))])), Some(ObjectPeekError(end)), 4)
    ensures ParseValue([LBracketToken, KeyA, ColonToken, One], end, -1)
      == Parsed(Some(Object([])), Some(Lex(end)), 3)
  {
    var a := [LBracketToken, KeyA, ColonToken, One, CommaToken];
    ScalarValues(a, end, 2);
    assert ParseKey(a, end, 0) == Parsed(Some(Member(KeyA.text, Num(One.text))), None, 4);
    assert [] + [Member(KeyA.text, Num(One.text))] == [Member(KeyA.text, Num(One.text))];
    assert ParseMembers(a, end, 0, []) == Parsed([Member(KeyA.text, Num(One.text))], Some(ObjectPeekError(end)), 4);
    ObjectValue(a, end, -1);
    var b := [LBracketToken, KeyA, ColonToken, One];
    ScalarValues(b, end, 2);
    assert ParseKey(b, end, 0) == Parsed(None, Some(Lex(end)), 3);
    ObjectValue(b, end, -1);
  }

  /** `[1`: an array cut short comes back with its elements so far and the lexer's error. */
  lemma ArrayAtEnd(end: LexError)
    ensures ParseValue([LBraceToken, One], end, -1) == Parsed(Some(Array([Num(One.text)])), Some(Lex(end)), 1)
  {
    var a := [LBraceToken, One];
    ScalarValues(a, end, 0);
    ParseElementsStep(a, end, 0, [], Num(One.text), 1);
    assert [] + [Num(One.text)] == [Num(One.text)];
    ArrayValue(a, end, -1);
  }
}
