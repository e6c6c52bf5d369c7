/** What the parser makes of any token stream, however badly nested: the recursive descent
    builds the tree that a single pass with a stack of open elements builds. */
module ParserStack {
  import opened Text
  import opened Ast
  import opened Lexer
  import opened Parser

  /** An element that is open: its tag, the elements before it in its own parent, and, behind
      a `celse`, the elements of the first branch. */
  datatype Open = Open(kind: Kind, tag: string, before: seq<Tree>, thn: Option<seq<Tree>>)

  /** The open elements, the innermost last, and the elements read so far inside of it. */
  datatype Stack = Stack(frames: seq<Open>, current: seq<Tree>)

  /** The innermost element ends: it is an element of its parent. */
  function Ended(s: Stack): Stack
    requires s.frames != []
  {
    var n := |s.frames| - 1;
    var o := s.frames[n];
    var children := if o.thn.Some? then o.thn.value + [Tree(ElseNode, "", s.current)] else s.current;
    Stack(s.frames[..n], o.before + [Tree(o.kind, o.tag, children)])
  }

  function Opened(s: Stack, kind: Kind, tag: string): Stack {
    Stack(s.frames + [Open(kind, tag, s.current, None)], [])
  }

  function Added(s: Stack, kind: Kind, text: string): Stack {
    s.(current := s.current + [Tree(kind, text, [])])
  }

  /** Whether the innermost element is of this kind. */
  predicate Innermost(s: Stack, kind: Kind) {
    s.frames != [] && s.frames[|s.frames| - 1].kind == kind
  }

  predicate InElse(s: Stack) {
    s.frames != [] && s.frames[|s.frames| - 1].thn.Some?
  }

  /** Reading one token. A closing tag ends the innermost element if that is of its kind; a
      `celse` starts the second branch of an innermost `cif` that has none yet; anywhere else
      they are passed over. */
  function Read(s: Stack, t: Token): Stack {
    match t.kind
    case HtmlText => Added(s, HtmlNode, t.value)
    case CCode => Added(s, CodeNode, t.value)
    case Variable => Added(s, VarNode, t.value)
    case CLoop => Opened(s, LoopNode, t.value)
    case CStyle => Opened(s, StyleNode, t.value)
    case CIf => Opened(s, IfNode, t.value)
    case CEndLoop => if Innermost(s, LoopNode) then Ended(s) else s
    case CEndStyle => if Innermost(s, StyleNode) then Ended(s) else s
    case CEndIf => if Innermost(s, IfNode) then Ended(s) else s
    case CElse =>
      if Innermost(s, IfNode) && !InElse(s) then
        var n := |s.frames| - 1;
        Stack(s.frames[n := s.frames[n].(thn := Some(s.current))], [])
      else s
    case _ => s
  }

  /** Reading the tokens in turn; at the end every element that is still open ends. */
  function ReadAll(s: Stack, ts: seq<Token>): seq<Tree>
    decreases |ts|, |s.frames|
  {
    if ts != [] then ReadAll(Read(s, ts[0]), ts[1..])
    else if s.frames != [] then ReadAll(Ended(s), [])
    else s.current
  }

  /** The tokens that end or divide the innermost element. */
  function Stops(s: Stack): set<TokenKind> {
    if s.frames == [] then {}
    else
      var o := s.frames[|s.frames| - 1];
      match o.kind
      case LoopNode => {CEndLoop}
      case StyleNode => {CEndStyle}
      case IfNode => if o.thn.None? then {CElse, CEndIf} else {CEndIf}
      case _ => {}
  }

  lemma ReadStep(s: Stack, ts: seq<Token>)
    requires ts != []
    ensures ReadAll(s, ts) == ReadAll(Read(s, ts[0]), ts[1..])
  {
    hide Read;
  }

  lemma EndStep(s: Stack)
    requires s.frames != []
    ensures ReadAll(s, []) == ReadAll(Ended(s), [])
  {
    hide Ended;
  }

  function More(s: Stack, es: seq<Tree>): Stack {
    s.(current := s.current + es)
  }

  lemma MoreMore(s: Stack, a: seq<Tree>, b: seq<Tree>)
    ensures More(More(s, a), b) == More(s, a + b) && More(s, []) == s
  {
    assert (s.current + a) + b == s.current + (a + b) && s.current + [] == s.current;
  }

  /** The elements up to the end of the innermost element are its next elements. */
  lemma {:induction false} UntilReads(s: Stack, ts: seq<Token>)
    ensures var (es, rest) := ParseUntil(ts, Stops(s)); ReadAll(s, ts) == ReadAll(More(s, es), rest)
    decreases |ts|, 2
  {
    hide ParseUntil, ParseElement, ReadAll, Read, Stops, More;
    UntilUnfolds(ts, Stops(s));
    MoreMore(s, [], []);
    if ts != [] && ts[0].kind !in Stops(s) {
      var (e, rest) := ParseElement(ts);
      ElementReads(s, ts);
      SameStops(s, AsSeq(e));
      UntilReads(More(s, AsSeq(e)), rest);
      MoreMore(s, AsSeq(e), ParseUntil(rest, Stops(s)).0);
    }
  }

  lemma SameStops(s: Stack, es: seq<Tree>)
    ensures Stops(More(s, es)) == Stops(s)
  {}

  lemma {:induction false} ElementReads(s: Stack, ts: seq<Token>)
    requires ts != [] && ts[0].kind !in Stops(s)
    ensures var (e, rest) := ParseElement(ts); ReadAll(s, ts) == ReadAll(More(s, AsSeq(e)), rest)
    decreases |ts|, 1
  {
    var t := ts[0];
    if t.kind == CLoop || t.kind == CStyle {
      BlockReads(s, ts);
    } else if t.kind == CIf {
      CifReads(s, ts);
    } else {
      ReadStep(s, ts);
      MoreMore(s, [], []);
      hide ReadAll, ParseUntil;
      PassedOver(s, t);
    }
  }

  lemma PassedOver(s: Stack, t: Token)
    requires t.kind !in Stops(s)
    ensures t.kind in {CEndLoop, CEndStyle, CEndIf, CElse} ==> Read(s, t) == s
  {}

  lemma {:induction false} BlockReads(s: Stack, ts: seq<Token>)
    requires ts != [] && (ts[0].kind == CLoop || ts[0].kind == CStyle)
    ensures var (e, rest) := ParseElement(ts); ReadAll(s, ts) == ReadAll(More(s, AsSeq(e)), rest)
    decreases |ts|, 0
  {
    var kind, close := if ts[0].kind == CLoop then LoopNode else StyleNode,
      if ts[0].kind == CLoop then CEndLoop else CEndStyle;
    var o := Opened(s, kind, ts[0].value);
    ReadStep(s, ts);
    assert Read(s, ts[0]) == o && Stops(o) == {close};
    UntilReads(o, ts[1..]);
    var (body, rest) := ParseUntil(ts[1..], {close});
    hide ParseUntil, ReadAll;
    OpenedEnds(s, kind, ts[0].value, body);
    if rest == [] {
      EndStep(More(o, body));
    } else {
      ReadStep(More(o, body), rest);
    }
  }

  lemma OpenedEnds(s: Stack, kind: Kind, tag: string, body: seq<Tree>)
    ensures var o := Opened(s, kind, tag);
            && Innermost(o, kind) && Innermost(More(o, body), kind) && !InElse(More(o, body))
            && Ended(More(o, body)) == More(s, [Tree(kind, tag, body)])
  {
    assert [] + body == body;
  }

  /** The second branch of an element that has just been opened. */
  function Divided(s: Stack, tag: string, thn: seq<Tree>): Stack {
    Stack(s.frames + [Open(IfNode, tag, s.current, Some(thn))], [])
  }

  lemma DividedEnds(s: Stack, tag: string, thn: seq<Tree>, els: seq<Tree>)
    ensures var o, d := Opened(s, IfNode, tag), Divided(s, tag, thn);
            && (forall t: Token :: t.kind == CElse ==> Read(More(o, thn), t) == d)
            && Stops(o) == {CElse, CEndIf} && Stops(d) == {CEndIf} && Innermost(More(d, els), IfNode)
            && Ended(More(d, els)) == More(s, [Tree(IfNode, tag, thn + [Tree(ElseNode, "", els)])])
  {
    assert [] + els == els && [] + thn == thn;
    var o, d := Opened(s, IfNode, tag), Divided(s, tag, thn);
    var n := |s.frames|;
    assert More(o, thn).frames[n := o.frames[n].(thn := Some(thn))] == d.frames;
  }

  lemma {:induction false} CifReads(s: Stack, ts: seq<Token>)
    requires ts != [] && ts[0].kind == CIf
    ensures var (e, rest) := ParseElement(ts); ReadAll(s, ts) == ReadAll(More(s, AsSeq(e)), rest)
    decreases |ts|, 0
  {
    hide ParseUntil, ParseCif, ReadAll, Stops, Innermost, InElse, Opened, Divided, Ended, More;
    var tag := ts[0].value;
    var o := Opened(s, IfNode, tag);
    CifUnfolds(ts);
    ReadStep(s, ts);
    var (thn, rest) := ParseUntil(ts[1..], {CElse, CEndIf});
    DividedEnds(s, tag, thn, []);
    UntilReads(o, ts[1..]);
    OpenedEnds(s, IfNode, tag, thn);
    if rest == [] {
      EndStep(More(o, thn));
    } else {
      ReadStep(More(o, thn), rest);
      if rest[0].kind == CElse {
        var d := Divided(s, tag, thn);
        var (els, rest') := ParseUntil(rest[1..], {CEndIf});
        UntilReads(d, rest[1..]);
        DividedEnds(s, tag, thn, els);
        if rest' == [] {
          EndStep(More(d, els));
        } else {
          ReadStep(More(d, els), rest');
        }
      }
    }
  }

  /** For every token stream: the parser builds the tree of the stack. */
  lemma ParseIsStack(ts: seq<Token>)
    ensures Parse(ts) == Tree(RootNode, "", ReadAll(Stack([], []), ts))
  {
    hide ParseUntil, ReadAll, Read;
    UntilReads(Stack([], []), ts);
    var es := ParseUntil(ts, {}).0;
    assert [] + es == es;
    EmptyStack(es);
  }

  lemma EmptyStack(es: seq<Tree>)
    ensures ReadAll(Stack([], es), []) == es
  {}
}
