/**
 * The value tree and what the recursive-descent parser builds from a token
 * stream. The stream is the lexer's tokens `toks` followed by its error `end`;
 * a position `pos` is the index of the last token consumed (-1 before the first).
 * Each function gives the node, the error, and the position afterwards.
 */
module Tree {
  import opened Wrappers
  import opened Bytes
  import opened Token
  import Tk = Token
  import opened LexErrors
  import opened ParseErrors

  /** A key node: a member name and its value; duplicate names are kept as separate members. */
  datatype Member = Member(name: seq<byte>, value: Value)

  /** The node types: object, array, string, number (its unevaluated text), boolean and null. */
  datatype Value =
    | Object(members: seq<Member>)
    | Array(elements: seq<Value>)
    | Str(text: seq<byte>)
    | Num(digits: seq<byte>)
    | Bool(b: bool)
    | Null

  /** A parse outcome: the node (possibly partial when there is an error), the error, the position afterwards. */
  datatype Parsed<T> = Parsed(node: T, err: Option<ParseError>, pos: int)

  /** What `makeValueNode` names when a token cannot start a value. */
  const ValueExpected: seq<byte> := Ascii("valid JSON value")

  /** Every object in the tree has at least one member: the parser cannot produce `{}`. */
  predicate NoEmptyObject(v: Value) {
    match v
    case Object(ms) => |ms| > 0 && forall i :: 0 <= i < |ms| ==> NoEmptyObject(ms[i].value)
    case Array(vs) => forall i :: 0 <= i < |vs| ==> NoEmptyObject(vs[i])
    case _ => true
  }

  /**
   * `makeValueNode`: read one token and build the value it starts. A failed
   * read gives no node; an object or array that fails inside comes back partial.
   */
  function ParseValue(toks: seq<Token>, end: LexError, pos: int): (r: Parsed<Option<Value>>)
    requires -1 <= pos
    ensures r.pos > pos && (pos < |toks| ==> r.pos <= |toks|)
    ensures r.err.None? ==> r.node.Some? && r.pos < |toks|
    decreases |toks| - pos, 0
  {
    var p := pos + 1;
    if p >= |toks| then Parsed(None, Some(Lex(end)), p)
    else
      var t := toks[p];
      if t.kind == LBracket then
        var o := ParseMembers(toks, end, p, []);
        Parsed(Some(Object(o.node)), o.err, o.pos)
      else if t.kind == LBrace then
        var a := ParseElements(toks, end, p, []);
        Parsed(Some(Array(a.node)), a.err, a.pos)
      else if t.kind == Literal then Parsed(Some(Str(t.text)), None, p)
      else if t.kind == Number then Parsed(Some(Num(t.text)), None, p)
      else if t.kind == True then Parsed(Some(Bool(true)), None, p)
      else if t.kind == False then Parsed(Some(Bool(false)), None, p)
      else if t.kind == Tk.Null then Parsed(Some(Value.Null), None, p)
      else Parsed(None, Some(UnexpectedToken(ValueExpected, t)), p)
  }

  /**
   * `KeyNode.Parse`: a LITERAL and a COLON (checked together, by `Expect`), a
   * value, then one token of lookahead; a comma there is consumed.
   */
  function ParseKey(toks: seq<Token>, end: LexError, pos: int): (r: Parsed<Option<Member>>)
    requires -1 <= pos < |toks|
    ensures pos <= r.pos <= |toks|
    ensures r.err.None? ==> r.node.Some? && pos + 2 < r.pos < |toks|
    decreases |toks| - pos, 1
  {
    if pos + 2 >= |toks| then Parsed(None, Some(Lex(end)), pos)
    else if toks[pos + 1].kind != Literal then Parsed(None, Some(UnexpectedTokenAt(0, Literal, toks[pos + 1])), pos)
    else if toks[pos + 2].kind != Colon then Parsed(None, Some(UnexpectedTokenAt(1, Colon, toks[pos + 2])), pos)
    else
      var v := ParseValue(toks, end, pos + 2);
      if v.err.Some? then Parsed(None, v.err, v.pos)
      else if v.pos + 1 == |toks| then Parsed(None, Some(Lex(end)), v.pos)
      else
        var m := Member(toks[pos + 1].text, v.node.value);
        if toks[v.pos + 1].kind == Comma then Parsed(Some(m), None, v.pos + 1)
        else Parsed(Some(m), None, v.pos)
  }

  /**
   * The member loop of `ObjectNode.Parse`, with `acc` the members so far: a key
   * node, then one token of lookahead; `}` ends the object, anything else starts
   * the next key node.
   */
  function ParseMembers(toks: seq<Token>, end: LexError, pos: int, acc: seq<Member>): (r: Parsed<seq<Member>>)
    requires -1 <= pos < |toks|
    ensures pos <= r.pos <= |toks|
    ensures r.err.None? ==> pos < r.pos < |toks|
    decreases |toks| - pos, 2
  {
    var k := ParseKey(toks, end, pos);
    if k.err.Some? then Parsed(acc, k.err, k.pos)
    else
      var members := acc + [k.node.value];
      var q := k.pos;
      if q + 1 == |toks| then Parsed(members, Some(ObjectPeekError(end)), q)
      else if toks[q + 1].kind == RBracket then Parsed(members, None, q + 1)
      else ParseMembers(toks, end, q, members)
  }

  /** Members only accumulate: the result starts with `acc`, and a successful object gained a member. */
  lemma {:induction false} MembersAccumulate(toks: seq<Token>, end: LexError, pos: int, acc: seq<Member>)
    requires -1 <= pos < |toks|
    ensures var r := ParseMembers(toks, end, pos, acc);
      acc <= r.node && (r.err.None? ==> |r.node| > |acc|)
    decreases |toks| - pos
  {
    var k := ParseKey(toks, end, pos);
    if k.err.None? && k.pos + 1 < |toks| && toks[k.pos + 1].kind != RBracket {
      MembersAccumulate(toks, end, k.pos, acc + [k.node.value]);
    }
  }

  /** Elements only accumulate: the result starts with `acc`. */
  lemma {:induction false} ElementsAccumulate(toks: seq<Token>, end: LexError, pos: int, acc: seq<Value>)
    requires -1 <= pos < |toks|
    ensures acc <= ParseElements(toks, end, pos, acc).node
    decreases |toks| - pos
  {
    if pos + 1 < |toks| && toks[pos + 1].kind == Comma {
      ElementsAccumulate(toks, end, pos + 1, acc);
    } else if pos + 1 < |toks| && toks[pos + 1].kind != RBrace {
      var v := ParseValue(toks, end, pos);
      if v.err.None? {
        ElementsAccumulate(toks, end, v.pos, acc + [v.node.value]);
      }
    }
  }

  /** One round of the member loop, by how the key node and the token after it turn out. */
  lemma MembersRound(toks: seq<Token>, end: LexError, pos: int, acc: seq<Member>)
    requires -1 <= pos < |toks|
    ensures var k := ParseKey(toks, end, pos);
      k.err.Some? ==> ParseMembers(toks, end, pos, acc) == Parsed(acc, k.err, k.pos)
    ensures var k := ParseKey(toks, end, pos);
      k.err.None? && k.pos + 1 == |toks| ==>
        ParseMembers(toks, end, pos, acc) == Parsed(acc + [k.node.value], Some(ObjectPeekError(end)), k.pos)
    ensures var k := ParseKey(toks, end, pos);
      k.err.None? && k.pos + 1 < |toks| && toks[k.pos + 1].kind == RBracket ==>
        ParseMembers(toks, end, pos, acc) == Parsed(acc + [k.node.value], None, k.pos + 1)
    ensures var k := ParseKey(toks, end, pos);
      k.err.None? && k.pos + 1 < |toks| && toks[k.pos + 1].kind != RBracket ==>
        ParseMembers(toks, end, pos, acc) == ParseMembers(toks, end, k.pos, acc + [k.node.value])
  {
  }

  /** One round of the element loop, by the token that comes next. */
  lemma ElementsRound(toks: seq<Token>, end: LexError, pos: int, acc: seq<Value>)
    requires -1 <= pos && pos + 1 < |toks|
    ensures toks[pos + 1].kind == Comma ==> ParseElements(toks, end, pos, acc) == ParseElements(toks, end, pos + 1, acc)
    ensures toks[pos + 1].kind == RBrace ==> ParseElements(toks, end, pos, acc) == Parsed(acc, None, pos + 1)
    ensures var v := ParseValue(toks, end, pos);
      toks[pos + 1].kind != Comma && toks[pos + 1].kind != RBrace && v.err.Some? ==>
        ParseElements(toks, end, pos, acc) == Parsed(acc, v.err, v.pos)
    ensures var v := ParseValue(toks, end, pos);
      toks[pos + 1].kind != Comma && toks[pos + 1].kind != RBrace && v.err.None? ==>
        ParseElements(toks, end, pos, acc) == ParseElements(toks, end, v.pos, acc + [v.node.value])
  {
  }

  /**
   * The loop of `ArrayNode.Parse`, with `acc` the elements so far: commas are
   * skipped, `]` ends the array, any other token starts an element.
   */
  function ParseElements(toks: seq<Token>, end: LexError, pos: int, acc: seq<Value>): (r: Parsed<seq<Value>>)
    requires -1 <= pos < |toks|
    ensures pos <= r.pos <= |toks|
    ensures r.err.None? ==> pos < r.pos < |toks|
    decreases |toks| - pos, 1
  {
    if pos + 1 == |toks| then Parsed(acc, Some(Lex(end)), pos)
    else if toks[pos + 1].kind == Comma then ParseElements(toks, end, pos + 1, acc)
    else if toks[pos + 1].kind == RBrace then Parsed(acc, None, pos + 1)
    else
      var v := ParseValue(toks, end, pos);
      if v.err.Some? then Parsed(acc, v.err, v.pos)
      else ParseElements(toks, end, v.pos, acc + [v.node.value])
  }
}
