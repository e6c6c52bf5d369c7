/** The recursive-descent parser: what tree a token stream stands for, and the
    parser object that reads tokens on demand and builds heap nodes. */
module Parser {
  import opened Text
  import opened Lexer
  import opened Ast

  function SkipIf(ts: seq<Token>, k: TokenKind): (rest: seq<Token>)
    ensures |rest| <= |ts|
  {
    if ts != [] && ts[0].kind == k then ts[1..] else ts
  }

  /** One element from a non-empty stream; None when the token was skipped. */
  function ParseElement(ts: seq<Token>): (r: (Option<Tree>, seq<Token>))
    requires ts != []
    ensures |r.1| < |ts|
    decreases |ts|, 1
  {
    var t := ts[0];
    match t.kind
    case HtmlText => (Some(Tree(HtmlNode, t.value, [])), ts[1..])
    case CCode => (Some(Tree(CodeNode, t.value, [])), ts[1..])
    case Variable => (Some(Tree(VarNode, t.value, [])), ts[1..])
    case CLoop =>
      var (body, rest) := ParseUntil(ts[1..], {CEndLoop});
      (Some(Tree(LoopNode, t.value, body)), SkipIf(rest, CEndLoop))
    case CStyle =>
      var (body, rest) := ParseUntil(ts[1..], {CEndStyle});
      (Some(Tree(StyleNode, t.value, body)), SkipIf(rest, CEndStyle))
    case CIf => var (t, rest) := ParseCif(ts); (Some(t), rest)
    case _ => (None, ts[1..])
  }

  /** A `cif` element: the branch up to `celse` or `/cif`, then the optional else branch. */
  function ParseCif(ts: seq<Token>): (r: (Tree, seq<Token>))
    requires ts != []
    ensures |r.1| < |ts|
    decreases |ts|, 0
  {
    var (thn, rest) := ParseUntil(ts[1..], {CElse, CEndIf});
    if rest != [] && rest[0].kind == CElse then
      var (els, rest') := ParseUntil(rest[1..], {CEndIf});
      (Tree(IfNode, ts[0].value, thn + [Tree(ElseNode, "", els)]), SkipIf(rest', CEndIf))
    else (Tree(IfNode, ts[0].value, thn), SkipIf(rest, CEndIf))
  }

  function AsSeq<T>(x: Option<T>): seq<T> {
    if x.Some? then [x.value] else []
  }

  /** Elements up to the end of the stream or a token that stops the enclosing body. */
  function ParseUntil(ts: seq<Token>, stops: set<TokenKind>): (r: (seq<Tree>, seq<Token>))
    ensures |r.1| <= |ts|
    ensures r.1 == [] || r.1[0].kind in stops
    decreases |ts|, 2
  {
    if ts == [] || ts[0].kind in stops then ([], ts)
    else
      var (e, rest) := ParseElement(ts);
      var (es, rest') := ParseUntil(rest, stops);
      (AsSeq(e) + es, rest')
  }

  lemma UntilUnfolds(ts: seq<Token>, stops: set<TokenKind>)
    ensures ts == [] || ts[0].kind in stops ==> ParseUntil(ts, stops) == ([], ts)
    ensures ts != [] && ts[0].kind !in stops ==>
              var (e, rest) := ParseElement(ts);
              ParseUntil(ts, stops) == (AsSeq(e) + ParseUntil(rest, stops).0, ParseUntil(rest, stops).1)
  {
    hide ParseElement;
  }

  lemma CifUnfolds(ts: seq<Token>)
    requires ts != []
    ensures var (thn, rest) := ParseUntil(ts[1..], {CElse, CEndIf});
            ParseCif(ts)
            == if rest != [] && rest[0].kind == CElse
               then var (els, rest') := ParseUntil(rest[1..], {CEndIf});
                    (Tree(IfNode, ts[0].value, thn + [Tree(ElseNode, "", els)]), SkipIf(rest', CEndIf))
               else (Tree(IfNode, ts[0].value, thn), SkipIf(rest, CEndIf))
  {
    hide ParseUntil, SkipIf;
  }

  function Parse(ts: seq<Token>): Tree {
    Tree(RootNode, "", ParseUntil(ts, {}).0)
  }

  // ----------------------------------------------------------------- the parser

  class Parser {
    const lexer: Lexer
    var current: Token
    const root: Node

    ghost predicate Valid()
      reads this, lexer
    {
      lexer.Valid() && (current.kind == Eof ==> lexer.position == |lexer.input|)
    }

    /** The tokens not yet consumed, the current one first. */
    ghost function Remaining(): seq<Token>
      requires Valid()
      reads this, lexer
    {
      if current.kind == Eof then [] else [current] + Tokens(lexer.input, lexer.position, CAP)
    }

    constructor (lexer: Lexer)
      requires lexer.Valid()
      modifies lexer
      ensures Valid() && this.lexer == lexer && Remaining() == old(Tokens(lexer.input, lexer.position, CAP))
      ensures root.Valid() && fresh(root.Repr) && root.tree == Tree(RootNode, "", [])
    {
      ghost var p := lexer.position;
      var t := lexer.NextToken();
      this.lexer := lexer;
      current := t;
      root := new Node(RootNode, "");
      new;
      NoEofInside(lexer.input, p);
    }

    /** parser_advance; at the end of the input there is nothing left to consume. */
    method Advance()
      requires Valid()
      modifies this, lexer
      ensures Valid() && Remaining() == if old(Remaining()) == [] then [] else old(Remaining())[1..]
    {
      ghost var p := lexer.position;
      current := lexer.NextToken();
      NoEofInside(lexer.input, p);
    }

    method ParseLeaf(kind: Kind) returns (node: Node)
      requires Valid() && Remaining() != []
      modifies this, lexer
      ensures Valid() && Remaining() == old(Remaining())[1..]
      ensures node.Valid() && fresh(node.Repr) && node.tree == Tree(kind, old(current.value), [])
    {
      hide Tokens;
      node := new Node(kind, current.value);
      Advance();
    }

    /** Parse one element and append it to node, unless its token was skipped. */
    method ParseInto(node: Node)
      requires Valid() && node.Valid() && Remaining() != []
      modifies this, lexer, node
      ensures Valid() && Remaining() == old(ParseElement(Remaining())).1
      ensures node.Valid() && fresh(node.Repr - old(node.Repr))
      ensures node.tree ==
              old(node.tree).(children := old(node.tree).children + AsSeq(old(ParseElement(Remaining())).0))
      decreases |Remaining()|, 2
    {
      hide Remaining;
      var child := ParseOne();
      if child != null {
        node.AddChild(child);
      }
    }

    /** The while-loop shared by the bodies: append elements to node until a stop token. */
    method ParseBody(node: Node, stops: set<TokenKind>)
      requires Valid() && node.Valid()
      modifies this, lexer, node
      ensures Valid() && Remaining() == old(ParseUntil(Remaining(), stops)).1
      ensures node.Valid() && fresh(node.Repr - old(node.Repr))
      ensures node.tree == old(node.tree.(children := node.tree.children + ParseUntil(Remaining(), stops).0))
      decreases |Remaining()|, 3
    {
      hide Tokens, Node.Valid, ParseElement, ParseUntil;
      ghost var all := ParseUntil(Remaining(), stops);
      while current.kind != Eof && current.kind !in stops
        invariant Valid()
        invariant node.Valid() && fresh(node.Repr - old(node.Repr))
        invariant node.tree == old(node.tree).(children := node.tree.children)
        invariant |Remaining()| <= old(|Remaining()|)
        invariant all.1 == ParseUntil(Remaining(), stops).1
        invariant old(node.tree.children) + all.0 == node.tree.children + ParseUntil(Remaining(), stops).0
        decreases |Remaining()|
      {
        UntilUnfolds(Remaining(), stops);
        ghost var e, es := AsSeq(ParseElement(Remaining()).0), ParseUntil(ParseElement(Remaining()).1, stops).0;
        assert node.tree.children + (e + es) == node.tree.children + e + es;
        ParseInto(node);
      }
      UntilUnfolds(Remaining(), stops);
    }

    method ParseLoop() returns (node: Node)
      requires Valid() && current.kind == CLoop
      modifies this, lexer
      ensures Valid() && Remaining() == old(ParseElement(Remaining())).1
      ensures node.Valid() && fresh(node.Repr) && Some(node.tree) == old(ParseElement(Remaining())).0
      decreases |Remaining()|, 0
    {
      hide Tokens, Node.Valid, ParseUntil;
      ghost var body := ParseUntil(Remaining()[1..], {CEndLoop});
      node := new Node(LoopNode, current.value);
      Advance();
      ParseBody(node, {CEndLoop});
      assert node.tree.children == body.0;
      if current.kind == CEndLoop {
        Advance();
      }
    }

    method ParseStyle() returns (node: Node)
      requires Valid() && current.kind == CStyle
      modifies this, lexer
      ensures Valid() && Remaining() == old(ParseElement(Remaining())).1
      ensures node.Valid() && fresh(node.Repr) && Some(node.tree) == old(ParseElement(Remaining())).0
      decreases |Remaining()|, 0
    {
      hide Tokens, Node.Valid, ParseUntil;
      ghost var body := ParseUntil(Remaining()[1..], {CEndStyle});
      node := new Node(StyleNode, current.value);
      Advance();
      ParseBody(node, {CEndStyle});
      assert node.tree.children == body.0;
      if current.kind == CEndStyle {
        Advance();
      }
    }

    /** The else branch of parser_parse_cif, up to the token that ends it. */
    method ParseElse(node: Node)
      requires Valid() && current.kind == CElse && node.Valid()
      modifies this, lexer, node
      ensures Valid() && Remaining() == old(ParseUntil(Remaining()[1..], {CEndIf})).1
      ensures node.Valid() && fresh(node.Repr - old(node.Repr))
      ensures node.tree == old(node.tree.(children := node.tree.children
                + [Tree(ElseNode, "", ParseUntil(Remaining()[1..], {CEndIf}).0)]))
      decreases |Remaining()|, 0
    {
      hide Tokens, ParseUntil;
      ghost var body := ParseUntil(Remaining()[1..], {CEndIf});
      var elseNode := new Node(ElseNode, "");
      Advance();
      ParseBody(elseNode, {CEndIf});
      assert elseNode.tree.children == body.0;
      node.AddChild(elseNode);
    }

    method ParseIf() returns (node: Node)
      requires Valid() && current.kind == CIf
      modifies this, lexer
      ensures Valid() && Remaining() == old(ParseCif(Remaining())).1
      ensures node.Valid() && fresh(node.Repr) && node.tree == old(ParseCif(Remaining())).0
      decreases |Remaining()|, 0
    {
      hide Tokens, Node.Valid, ParseUntil, ParseElement, ParseCif;
      CifUnfolds(Remaining());
      ghost var thn := ParseUntil(Remaining()[1..], {CElse, CEndIf});
      node := new Node(IfNode, current.value);
      Advance();
      ParseBody(node, {CElse, CEndIf});
      assert node.tree.children == thn.0;
      if current.kind == CElse {
        ParseElse(node);
      }
      if current.kind == CEndIf {
        Advance();
      }
    }

    /** parser_parse_element; null when the token was skipped. */
    method ParseOne() returns (node: Node?)
      requires Valid() && Remaining() != []
      modifies this, lexer
      ensures Valid() && Remaining() == old(ParseElement(Remaining())).1
      ensures node == null <==> old(ParseElement(Remaining())).0 == None
      ensures node != null ==> node.Valid() && fresh(node.Repr) && Some(node.tree) == old(ParseElement(Remaining())).0
      decreases |Remaining()|, 1
    {
      hide Tokens, Node.Valid;
      node := null;
      if current.kind == HtmlText {
        node := ParseLeaf(HtmlNode);
      } else if current.kind == CCode {
        node := ParseLeaf(CodeNode);
      } else if current.kind == Variable {
        node := ParseLeaf(VarNode);
      } else if current.kind == CLoop {
        node := ParseLoop();
      } else if current.kind == CIf {
        node := ParseIf();
      } else if current.kind == CStyle {
        node := ParseStyle();
      } else {
        Advance();
      }
    }

    /** cweb_parser_parse */
    method ParseAll() returns (r: Node)
      requires Valid() && root.Valid() && root.tree == Tree(RootNode, "", [])
      modifies this, lexer, root
      ensures Valid() && Remaining() == [] && r == root
      ensures r.Valid() && fresh(r.Repr - old(r.Repr)) && r.tree == old(Parse(Remaining()))
    {
      ParseBody(root, {});
      r := root;
    }
  }

  /** A template is lexed and parsed to the tree of its token stream. */
  method ParseTemplate(input: string) returns (root: Node)
    requires NoNul(input)
    ensures root.Valid() && fresh(root.Repr) && root.tree == Parse(Tokens(input, 0, CAP))
  {
    var lexer := new Lexer(input);
    var parser := new Parser(lexer);
    root := parser.ParseAll();
  }

  lemma NoEofInside(s: string, p: nat)
    requires p <= |s|
    ensures TokenAt(s, p, CAP).kind == Eof <==> p == |s|
  {
    if p < |s| {
      StartsWithAngle(s, p);
    }
  }
}
