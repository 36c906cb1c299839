/**
 * The node builders of the parser: `makeValueNode` and the `Parse` methods of
 * object, key and array nodes. They advance the shared cursor and append to
 * the node being built; each is proved to do what the matching function of
 * module Tree describes, over the tokens the lexer delivers.
 */
module Nodes {
  import opened Wrappers
  import opened Bytes
  import opened Token
  import Tk = Token
  import opened LexErrors
  import opened ParseErrors
  import opened Cursor
  import opened Tree

  /** `ObjectNode`: the key nodes parsed so far. */
  class ObjectNode {
    var keyNodes: seq<Member>

    constructor ()
      ensures keyNodes == []
    {
      keyNodes := [];
    }

    /**
     * `ObjectNode.Parse`, called just after the `{` was read: key nodes until a
     * `}` follows one; the first error stops it with the members so far.
     */
    method Parse(rd: Reader) returns (err: Option<ParseError>)
      requires rd.Valid() && rd.pos < |rd.lx.toks|
      modifies this, rd, rd.lx
      ensures rd.Valid()
      ensures Parsed(keyNodes, err, rd.pos) == ParseMembers(rd.lx.toks, rd.lx.end, old(rd.pos), [])
      decreases |rd.lx.toks| - rd.pos, 3
    {
      ghost var target := ParseMembers(rd.lx.toks, rd.lx.end, rd.pos, []);
      keyNodes := [];
      while true
        invariant rd.Valid() && old(rd.pos) <= rd.pos < |rd.lx.toks|
        invariant ParseMembers(rd.lx.toks, rd.lx.end, rd.pos, keyNodes) == target
        decreases |rd.lx.toks| - rd.pos
      {
        var closed, e := ParseMember(rd);
        if e.Some? || closed {
          return e;
        }
      }
    }

    /** One pass of the loop in `Parse`: a key node, then one token of lookahead; `}` is consumed and closes the object. */
    method ParseMember(rd: Reader) returns (closed: bool, err: Option<ParseError>)
      requires rd.Valid() && rd.pos < |rd.lx.toks|
      modifies this, rd, rd.lx
      ensures rd.Valid() && old(rd.pos) <= rd.pos <= |rd.lx.toks|
      ensures err.Some? || closed ==>
        ParseMembers(rd.lx.toks, rd.lx.end, old(rd.pos), old(keyNodes)) == Parsed(keyNodes, err, rd.pos)
      ensures err.None? && !closed ==> old(rd.pos) < rd.pos < |rd.lx.toks|
      ensures err.None? && !closed ==>
        ParseMembers(rd.lx.toks, rd.lx.end, old(rd.pos), old(keyNodes)) == ParseMembers(rd.lx.toks, rd.lx.end, rd.pos, keyNodes)
      decreases |rd.lx.toks| - rd.pos, 2
    {
      MembersRound(rd.lx.toks, rd.lx.end, rd.pos, keyNodes);
      var k := new KeyNode();
      var e := k.Parse(rd);
      if e.Some? {
        return false, e;
      }
      keyNodes := keyNodes + [Member(k.name, k.value.value)];
      var t, pe := rd.PeekNext();
      if pe.Some? {
        return false, Some(ObjectPeekError(pe.value));
      }
      SingletonComparisonIsKindComparison(t, RBracket);
      if t == RBracketToken {
        rd.Discard(1);
        return true, None;
      }
      return false, None;
    }
  }

  /** `KeyNode`: a member name and its value, filled in by `Parse`. */
  class KeyNode {
    var name: seq<byte>
    var value: Option<Value>

    constructor ()
      ensures name == [] && value.None?
    {
      name := [];
      value := None;
    }

    /**
     * `KeyNode.Parse`: expect a LITERAL and a COLON, take the name from the
     * literal, parse the value, then consume one comma if one follows.
     */
    method Parse(rd: Reader) returns (err: Option<ParseError>)
      requires rd.Valid() && rd.pos < |rd.lx.toks|
      modifies this, rd, rd.lx
      ensures rd.Valid()
      ensures var r := ParseKey(rd.lx.toks, rd.lx.end, old(rd.pos));
        err == r.err && rd.pos == r.pos && (err.None? ==> value.Some? && r.node == Some(Member(name, value.value)))
      decreases |rd.lx.toks| - rd.pos, 1
    {
      var tks, e := rd.Expect([Literal, Colon]);
      if e.Some? {
        return e;
      }
      name := tks[0].text;
      var v, ve := MakeValueNode(rd);
      if ve.Some? {
        return ve;
      }
      value := v;
      var t, pe := rd.PeekNext();
      if pe.Some? {
        return Some(Lex(pe.value));
      }
      SingletonComparisonIsKindComparison(t, Comma);
      if t == CommaToken {
        rd.Discard(1);
      }
      err := None;
    }
  }

  /** `ArrayNode`: the values parsed so far. */
  class ArrayNode {
    var values: seq<Value>

    constructor ()
      ensures values == []
    {
      values := [];
    }

    /**
     * `ArrayNode.Parse`, called just after the `[` was read: commas are skipped,
     * `]` ends the array, any other token starts a value.
     */
    method Parse(rd: Reader) returns (err: Option<ParseError>)
      requires rd.Valid() && rd.pos < |rd.lx.toks|
      modifies this, rd, rd.lx
      ensures rd.Valid()
      ensures Parsed(values, err, rd.pos) == ParseElements(rd.lx.toks, rd.lx.end, old(rd.pos), old(values))
      decreases |rd.lx.toks| - rd.pos, 2
    {
      ghost var target := ParseElements(rd.lx.toks, rd.lx.end, rd.pos, values);
      while true
        invariant rd.Valid() && old(rd.pos) <= rd.pos < |rd.lx.toks|
        invariant ParseElements(rd.lx.toks, rd.lx.end, rd.pos, values) == target
        decreases |rd.lx.toks| - rd.pos
      {
        var closed, e := ParseElement(rd);
        if e.Some? || closed {
          return e;
        }
      }
    }

    /** One pass of the loop in `Parse`: peek one token; a comma is skipped, `]` is consumed and closes the array, anything else is a value. */
    method ParseElement(rd: Reader) returns (closed: bool, err: Option<ParseError>)
      requires rd.Valid() && rd.pos < |rd.lx.toks|
      modifies this, rd, rd.lx
      ensures rd.Valid() && old(rd.pos) <= rd.pos <= |rd.lx.toks|
      ensures err.Some? || closed ==>
        ParseElements(rd.lx.toks, rd.lx.end, old(rd.pos), old(values)) == Parsed(values, err, rd.pos)
      ensures err.None? && !closed ==> old(rd.pos) < rd.pos < |rd.lx.toks|
      ensures err.None? && !closed ==>
        ParseElements(rd.lx.toks, rd.lx.end, old(rd.pos), old(values)) == ParseElements(rd.lx.toks, rd.lx.end, rd.pos, values)
      decreases |rd.lx.toks| - rd.pos, 1
    {
      var t, e := rd.PeekNext();
      if e.Some? {
        return false, Some(Lex(e.value));
      }
      ElementsRound(rd.lx.toks, rd.lx.end, rd.pos, values);
      SingletonComparisonIsKindComparison(t, Comma);
      SingletonComparisonIsKindComparison(t, RBrace);
      if t == CommaToken {
        rd.Discard(1);
        return false, None;
      } else if t == RBraceToken {
        rd.Discard(1);
        return true, None;
      }
      var v, ve := MakeValueNode(rd);
      if ve.Some? {
        return false, ve;
      }
      values := values + [v.value];
      return false, None;
    }
  }

  /**
   * `makeValueNode`: read one token and build the value it starts; objects and
   * arrays come back with what they hold so far when they fail inside.
   */
  method MakeValueNode(rd: Reader) returns (node: Option<Value>, err: Option<ParseError>)
    requires rd.Valid()
    modifies rd, rd.lx
    ensures rd.Valid()
    ensures Parsed(node, err, rd.pos) == ParseValue(rd.lx.toks, rd.lx.end, old(rd.pos))
    decreases |rd.lx.toks| - rd.pos, 0
  {
    var t, e := rd.Read();
    if e.Some? {
      return None, Some(Lex(e.value));
    }
    var tk := t.value;
    if tk.kind == LBracket {
      var obj := new ObjectNode();
      err := obj.Parse(rd);
      node := Some(Object(obj.keyNodes));
    } else if tk.kind == LBrace {
      var arr := new ArrayNode();
      err := arr.Parse(rd);
      node := Some(Array(arr.values));
    } else if tk.kind == Literal {
      node, err := Some(Str(tk.text)), None;
    } else if tk.kind == Number {
      node, err := Some(Num(tk.text)), None;
    } else if tk.kind == True {
      node, err := Some(Bool(true)), None;
    } else if tk.kind == False {
      node, err := Some(Bool(false)), None;
    } else if tk.kind == Tk.Null {
      node, err := Some(Value.Null), None;
    } else {
      node, err := None, Some(UnexpectedToken(ValueExpected, tk));
    }
  }
}
