/**
 * The parser's entry points: the root node, which holds exactly one value, and
 * the parser object that owns the cursor and installs a fresh root on each parse.
 */
module Parser {
  import opened Wrappers
  import opened Token
  import opened ParseErrors
  import opened Cursor
  import opened Tree
  import opened Nodes

  /** `RootNode`: the top-level value; no value until `Parse` stores one. */
  class RootNode {
    var v: Option<Value>

    constructor ()
      ensures v.None?
    {
      v := None;
    }

    /** `RootNode.Value`: the value the last `Parse` stored. */
    function Value(): (r: Option<Value>)
      reads this
      ensures r == v
    {
      v
    }

    /**
     * `RootNode.Parse`: one value, of any kind, scalars included; the tokens after
     * it are not looked at. The stored value is whatever `makeValueNode` gave,
     * partial or absent on an error.
     */
    method Parse(rd: Reader) returns (err: Option<ParseError>)
      requires rd.Valid()
      modifies this, rd, rd.lx
      ensures rd.Valid()
      ensures Parsed(v, err, rd.pos) == ParseValue(rd.lx.toks, rd.lx.end, old(rd.pos))
    {
      v, err := MakeValueNode(rd);
    }
  }

  /** `Parser`: the cursor over the lexer, and the root of the last parse. */
  class Parser {
    const rd: Reader
    var root: RootNode?

    ghost predicate Valid()
      reads this, rd, rd.lx
    {
      rd.Valid()
    }

    /** `NewParser`: a cursor with an empty buffer at position -1, and no root yet. */
    constructor (lx: TokenSource)
      requires lx.Valid() && lx.next == 0
      ensures Valid() && rd.lx == lx && rd.buf == [] && rd.pos == -1 && root == null
    {
      rd := new Reader(lx);
      root := null;
    }

    /** `Parser.Parse`: a fresh root parses the next value; its error is returned as is. */
    method Parse() returns (err: Option<ParseError>)
      requires Valid()
      modifies this, rd, rd.lx
      ensures Valid() && root != null && fresh(root)
      ensures Parsed(root.v, err, rd.pos) == ParseValue(rd.lx.toks, rd.lx.end, old(rd.pos))
    {
      var r := new RootNode();
      root := r;
      err := r.Parse(rd);
    }

    /** `Parser.Root`. */
    function Root(): (r: RootNode?)
      reads this
      ensures r == root
    {
      root
    }
  }

  /**
   * The whole parse of a document, as a new parser runs it on a lexer that
   * delivers `toks` and then `end`: the root value, the error, and how many
   * tokens were consumed.
   */
  method ParseTokens(toks: seq<Token>, end: LexErrors.LexError) returns (v: Option<Value>, err: Option<ParseError>, used: nat)
    requires forall i :: 0 <= i < |toks| ==> WellFormed(toks[i])
    ensures var r := ParseValue(toks, end, -1);
      v == r.node && err == r.err && used == r.pos + 1
  {
    var lx := new TokenSource(toks, end);
    var p := new Parser(lx);
    err := p.Parse();
    v := p.root.v;
    used := p.rd.pos + 1;
  }
}
