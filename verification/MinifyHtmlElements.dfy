/** What the HTML minifier makes of the text of an element, by the name of the element. */
module MinifyHtmlElements {
  import opened Text
  import opened MinifyHtml
  import opened MinifyHtmlPreserved

  // ------------------------------------------------------------------------- names

  /** The characters of an element name. */
  predicate IsName(name: string) {
    name != ""
    && forall k :: 0 <= k < |name| ==>
         || 'a' <= name[k] <= 'z' || 'A' <= name[k] <= 'Z' || '0' <= name[k] <= '9' || name[k] == '-' || name[k] == ':'
  }

  /** The four elements in which white space counts. */
  predicate Preserving(name: string) {
    AnyCase(name, "pre") || AnyCase(name, "textarea") || AnyCase(name, "script") || AnyCase(name, "style")
  }

  lemma PreservingIs(name: string)
    ensures IsPreserveTag(name) <==> Preserving(name)
  {
    LowerIs(name, "pre");
    LowerIs(name, "textarea");
    LowerIs(name, "script");
    LowerIs(name, "style");
    hide LowerAll, AnyCase;
  }

  lemma {:induction false} NameEnds(name: string, rest: string)
    requires forall k :: 0 <= k < |name| ==> IsNameChar(name[k])
    ensures NameLength(name + ">" + rest) == |name|
  {
    if name == "" {
      assert (name + ">" + rest)[0] == '>';
    } else {
      assert (name + ">" + rest)[1..] == name[1..] + ">" + rest && (name + ">" + rest)[0] == name[0];
      NameEnds(name[1..], rest);
    }
  }

  lemma HeadOfTag(name: string, rest: string)
    requires IsName(name)
    ensures HeadOf(name + ">" + rest) == Head(false, Preserving(name))
    ensures HeadOf("/" + name + ">" + rest) == Head(true, Preserving(name))
  {
    hide IsPreserveTag, Preserving, NameLength, TrimLeft;
    var u := name + ">" + rest;
    NameEnds(name, rest);
    PreservingIs(name);
    TextsOfTag(name, rest);
    TrimLeftStep(u);
    hide IsName, IsNameChar;
  }

  lemma TextsOfTag(name: string, rest: string)
    requires IsName(name)
    ensures var u := name + ">" + rest;
            && "/" + name + ">" + rest == "/" + u && ("/" + u)[1..] == u && u[..|name|] == name
            && u != "" && u[0] == name[0] && u[0] != '/' && !IsSpace(u[0])
  {}

  // -------------------------------------------------------------------------- tags

  lemma {:induction false} ScanName(name: string, rest: string)
    requires forall k :: 0 <= k < |name| ==> !IsSpace(name[k]) && !IsQuote(name[k]) && name[k] != '>'
    ensures ScanTag(name + ">" + rest, TAG_START) == TagScan(name + ">", rest, true)
  {
    var s := name + ">" + rest;
    ScanUnfolds(s, TAG_START);
    if name == "" {
      assert s[1..] == rest && s[0] == '>';
      assert name + ">" == ">";
    } else {
      assert s[1..] == name[1..] + ">" + rest && s[0] == name[0];
      ScanName(name[1..], rest);
      hide ScanTag;
      assert [name[0]] + (name[1..] + ">") == name + ">";
    }
  }

  /** Reading a tag without attributes: it is printed as it is, and the depth follows. */
  lemma TagIsRead(name: string, closing: bool, rest: string, depth: nat, prev: char)
    requires IsName(name) && (Preserving(name) || depth == 0)
    ensures var tag := if closing then "</" + name + ">" else "<" + name + ">";
            var depth' := if !Preserving(name) then depth
                          else if !closing then depth + 1 else if depth > 0 then depth - 1 else 0;
            Minified(tag + rest, depth, prev) == tag + Minified(rest, depth', '>')
  {
    var word := if closing then "/" + name else name;
    var s := "<" + word + ">" + rest;
    var tag := "<" + word + ">";
    TagTexts(name, closing, rest);
    HeadOfTag(name, rest);
    WordIsPlain(name, closing);
    ScanName("<" + word, rest);
    hide HeadOf, Preserving, ScanTag, IsName, Minified;
    assert s[0] == '<' && s[1] != '!';
    NoComment(s, depth);
    TagCase(s, depth, prev);
  }

  lemma TagTexts(name: string, closing: bool, rest: string)
    ensures var word := if closing then "/" + name else name;
            var tag := if closing then "</" + name + ">" else "<" + name + ">";
            var s := "<" + word + ">" + rest;
            tag + rest == s && tag == "<" + word + ">" && s[1..] == word + ">" + rest
            && (closing ==> word + ">" + rest == "/" + name + ">" + rest)
  {}

  lemma WordIsPlain(name: string, closing: bool)
    requires IsName(name)
    ensures var word := "<" + if closing then "/" + name else name;
            && (forall k :: 0 <= k < |word| ==> !IsSpace(word[k]) && !IsQuote(word[k]) && word[k] != '>')
            && |word| >= 2 && word[1] != '!'
  {}

  lemma NoComment(s: string, depth: nat)
    requires |s| >= 2 && s[1] != '!'
    ensures !CommentAt(s, depth)
  {
    if At(s, 0, "<!--") {
      AtChar(s, 0, "<!--", 1);
    }
  }

  // ------------------------------------------------------------------- preserved text

  /** A blank, by its code: tab, line feed, vertical tab, form feed, carriage return, space. */
  predicate IsBlank(c: char) {
    9 <= c as int <= 13 || c as int == 32
  }

  /** Text of a preserving element: comments, comparisons and other tags may be in it, but
      no closing tag and no tag whose name starts as the names of preserving elements do. */
  predicate Inner(t: string) {
    forall k :: 0 <= k < |t| && t[k] == '<' ==> k + 1 < |t| && t[k + 1] !in "/pPtTsS" && !IsBlank(t[k + 1])
  }

  lemma InnerTail(t: string)
    requires Inner(t) && t != ""
    ensures Inner(t[1..])
  {}

  lemma OtherHead(u: string)
    requires u != "" && u[0] !in "/pPtTsS" && !IsBlank(u[0])
    ensures HeadOf(u) == Head(false, false)
  {
    BlankIsSpace(u[0]);
    TrimLeftStep(u);
    hide TrimLeft, IsBlank;
    var name := u[..NameLength(u)];
    if name != "" {
      FirstLower(name);
    }
  }

  lemma FirstLower(name: string)
    requires name != "" && name[0] !in "pPtTsS"
    ensures !IsPreserveTag(name)
  {
    assert LowerAll(name)[0] == Lower(name[0]);
    assert "pre"[0] == 'p' && "textarea"[0] == 't' && "script"[0] == 's' && "style"[0] == 's';
    hide LowerAll;
  }

  lemma InnerStep(t: string, rest: string, depth: nat, prev: char)
    requires Inner(t) && t != "" && depth > 0
    ensures Minified(t + rest, depth, prev) == [t[0]] + Minified(t[1..] + rest, depth, t[0])
  {
    var s := t + rest;
    assert s == [t[0]] + (t[1..] + rest);
    if t[0] == '<' {
      assert s[1..] == t[1..] + rest && s[1..][0] == t[1];
      OtherHead(s[1..]);
      hide HeadOf, Inner, Minified;
      assert PlainAngle(s, depth);
      CopiesAngle(s, depth, prev);
    } else {
      hide Minified;
      CopiesChar(t[0], t[1..] + rest, depth, prev);
    }
  }

  lemma {:induction false} TextIsCopied(t: string, rest: string, depth: nat, prev: char)
    requires Inner(t) && depth > 0
    ensures Minified(t + rest, depth, prev) == t + Minified(rest, depth, Last(prev, t))
  {
    hide Minified, Inner;
    if t == "" {
      assert t + rest == rest && t + Minified(rest, depth, prev) == Minified(rest, depth, prev);
    } else {
      InnerStep(t, rest, depth, prev);
      InnerTail(t);
      TextIsCopied(t[1..], rest, depth, t[0]);
      assert [t[0]] + (t[1..] + Minified(rest, depth, Last(t[0], t[1..]))) == t + Minified(rest, depth, Last(prev, t));
    }
  }

  // ---------------------------------------------------------------------- other text

  function WordLength(t: string): (n: nat)
    ensures n <= |t| && (n < |t| ==> IsBlank(t[n])) && forall k :: 0 <= k < n ==> !IsBlank(t[k])
    ensures t != "" && !IsBlank(t[0]) ==> n > 0
  {
    if t == "" || IsBlank(t[0]) then 0 else 1 + WordLength(t[1..])
  }

  /** The words of a text: its longest stretches without a blank. */
  function Words(t: string): seq<string>
    decreases |t|
  {
    if t == "" then []
    else if IsBlank(t[0]) then Words(t[1..])
    else [t[..WordLength(t)]] + Words(t[WordLength(t)..])
  }

  lemma {:induction false} WordsBehindBlanks(t: string)
    ensures Words(TrimLeft(t)) == Words(t)
    ensures Words(t) == [] <==> TrimLeft(t) == ""
  {
    hide TrimLeft;
    TrimLeftStep(t);
    if t != "" {
      BlankIsSpace(t[0]);
      hide IsBlank, IsSpace;
      if IsBlank(t[0]) {
        WordsBehindBlanks(t[1..]);
      }
    }
  }

  lemma BlankIsSpace(c: char)
    ensures IsBlank(c) <==> IsSpace(c)
  {}

  lemma {:induction false} WordIsCopied(w: string, rest: string, prev: char)
    requires w != "" && '<' !in w && forall k :: 0 <= k < |w| ==> !IsBlank(w[k])
    ensures Minified(w + rest, 0, prev) == w + Minified(rest, 0, w[|w| - 1])
    decreases |w|
  {
    assert w + rest == [w[0]] + (w[1..] + rest) && w[0] in w && forall c :: c in w[1..] ==> c in w;
    CopiesChar(w[0], w[1..] + rest, 0, prev);
    hide Minified;
    if |w| == 1 {
      assert w[1..] + rest == rest && w == [w[0]];
    } else {
      WordIsCopied(w[1..], rest, w[0]);
      assert [w[0]] + (w[1..] + Minified(rest, 0, w[|w| - 1])) == w + Minified(rest, 0, w[|w| - 1]);
    }
  }

  lemma {:induction false} TrimBeforeTag(t: string, rest: string)
    requires rest == "" || rest[0] == '<'
    ensures TrimLeft(t + rest) == TrimLeft(t) + rest
    decreases |t|
  {
    hide TrimLeft, IsSpace;
    if t != "" && IsSpace(t[0]) {
      TrimBeforeTag(t[1..], rest);
      TrimOne(t, rest);
    } else {
      TrimStops(t, rest);
    }
  }

  lemma TrimOne(t: string, rest: string)
    requires t != "" && IsSpace(t[0])
    ensures TrimLeft(t) == TrimLeft(t[1..]) && TrimLeft(t + rest) == TrimLeft(t[1..] + rest)
  {
    hide IsSpace;
    assert (t + rest)[0] == t[0] && (t + rest)[1..] == t[1..] + rest;
  }

  lemma TrimStops(t: string, rest: string)
    requires (rest == "" || rest[0] == '<') && (t == "" || !IsSpace(t[0]))
    ensures TrimLeft(t + rest) == TrimLeft(t) + rest
  {
    if t == "" {
      assert t + rest == rest && "" + rest == rest;
    } else {
      assert (t + rest)[0] == t[0];
    }
  }

  /** A text that is to be squeezed: no bracket of a tag in it and no NUL. */
  predicate Plain(t: string) {
    '<' !in t && '>' !in t && NUL !in t
  }

  /** The output for the text does not depend on what was printed before. */
  ghost predicate Steady(rest: string) {
    forall prev :: Minified(rest, 0, prev) == Minified(rest, 0, '>')
  }

  /** A blank stands between what is printed and the first word. */
  predicate Leads(t: string, prev: char) {
    t != "" && IsBlank(t[0]) && Words(t) != [] && prev != '>' && prev != NUL
  }

  /** Before a tag a text is printed as its words with single blanks between them. */
  lemma {:induction false} TextIsSqueezed(t: string, rest: string, prev: char)
    requires Plain(t) && (rest == "" || rest[0] == '<')
    requires Steady(rest)
    ensures Minified(t + rest, 0, prev)
            == (if Leads(t, prev) then " " else "") + Join(Words(t), " ") + Minified(rest, 0, '>')
    decreases |t|, 1
  {
    if t == "" {
      assert t + rest == rest;
      assert "" + "" + Minified(rest, 0, '>') == Minified(rest, 0, '>');
      hide Minified;
    } else if IsBlank(t[0]) {
      BlanksSqueezed(t, rest, prev);
    } else {
      WordSqueezed(t, rest, prev);
    }
  }

  lemma {:induction false} BlanksSqueezed(t: string, rest: string, prev: char)
    requires Plain(t) && (rest == "" || rest[0] == '<') && t != "" && IsBlank(t[0])
    requires Steady(rest)
    ensures Minified(t + rest, 0, prev)
            == (if Leads(t, prev) then " " else "") + Join(Words(t), " ") + Minified(rest, 0, '>')
    decreases |t|, 0
  {
    hide Minified, Words, TrimLeft, Join, Steady;
    var u, m := TrimLeft(t), Minified(rest, 0, '>');
    BlanksRead(t, rest, prev);
    WordsBehindBlanks(t);
    if u == "" {
      NoWords(t);
      SteadyAt(rest, prev);
      assert "" + "" + m == m;
    } else {
      TailIsPlain(t, u);
      BlankIsSpace(u[0]);
      var drops := prev == '>' || prev == NUL;
      TextIsSqueezed(u, rest, if drops then prev else ' ');
      assert !Leads(u, ' ') && !Leads(u, prev);
      assert Leads(t, prev) == !drops;
      hide Leads;
      Blank(Join(Words(t), " "), m);
    }
  }

  lemma Blank(j: string, m: string)
    ensures " " + ("" + j + m) == " " + j + m && "" + ("" + j + m) == "" + j + m
  {}

  /** The blanks at the start of a text are read in one go. */
  lemma BlanksRead(t: string, rest: string, prev: char)
    requires Plain(t) && (rest == "" || rest[0] == '<') && t != "" && IsBlank(t[0])
    ensures var u, drops := TrimLeft(t), prev == '>' || prev == NUL;
            && |u| < |t| && (u == "" ==> Minified(t + rest, 0, prev) == Minified(rest, 0, prev))
            && (u != "" ==> !IsSpace(u[0]) && Minified(t + rest, 0, prev)
                            == (if drops then "" else " ") + Minified(u + rest, 0, if drops then prev else ' '))
  {
    hide Minified, IsSpace, DropsSpace;
    var u := TrimLeft(t);
    BlankIsSpace(t[0]);
    TrimBeforeTag(t, rest);
    hide TrimLeft;
    FirstOf(t, rest);
    FirstOf(u, rest);
    TailIsPlain(t, u);
    SpaceCase(t + rest, prev);
    if u == "" {
      assert u + rest == rest;
      DroppedBefore(prev, if rest == "" then NUL else rest[0]);
    } else {
      DroppedBefore(prev, u[0]);
      assert "" + Minified(u + rest, 0, prev) == Minified(u + rest, 0, prev);
    }
  }

  lemma FirstOf(t: string, rest: string)
    ensures t != "" ==> t + rest != "" && (t + rest)[0] == t[0]
  {}

  lemma SteadyAt(rest: string, prev: char)
    requires Steady(rest)
    ensures Minified(rest, 0, prev) == Minified(rest, 0, '>')
  {}

  lemma DroppedBefore(prev: char, next: char)
    ensures DropsSpace(prev, next) <==> next == '<' || next == NUL || prev == '>' || prev == NUL
  {}

  lemma TailIsPlain(t: string, u: string)
    requires Plain(t) && |u| <= |t| && u == t[|t| - |u|..]
    ensures Plain(u) && (u != "" ==> u[0] != '<' && u[0] != NUL)
  {}

  lemma {:induction false} WordSqueezed(t: string, rest: string, prev: char)
    requires Plain(t) && (rest == "" || rest[0] == '<') && t != "" && !IsBlank(t[0])
    requires Steady(rest)
    ensures Minified(t + rest, 0, prev)
            == (if Leads(t, prev) then " " else "") + Join(Words(t), " ") + Minified(rest, 0, '>')
    decreases |t|, 0
  {
    hide Minified, Words, Join, WordLength, Steady;
    var n := WordLength(t);
    var w, u := t[..n], t[n..];
    FirstWord(t);
    TailIsPlain(t, u);
    WordIsPlainText(t, n);
    assert t + rest == w + (u + rest);
    WordIsCopied(w, u + rest, prev);
    TextIsSqueezed(u, rest, w[n - 1]);
    NoWords(u);
    JoinCons(w, Words(u));
    assert Leads(u, w[n - 1]) <==> Words(u) != [];
    assert !Leads(t, prev);
    hide Leads;
    Glue(w, Join(Words(u), " "), Minified(rest, 0, '>'));
  }

  lemma FirstWord(t: string)
    requires t != "" && !IsBlank(t[0])
    ensures var n := WordLength(t); n > 0 && Words(t) == [t[..n]] + Words(t[n..])
  {
    hide IsBlank, WordLength;
  }

  lemma WordIsPlainText(t: string, n: nat)
    requires Plain(t) && 0 < n <= |t|
    ensures var w := t[..n]; '<' !in w && w[n - 1] != '>' && w[n - 1] != NUL
  {}

  lemma Glue(w: string, j: string, m: string)
    ensures w + (" " + j + m) == "" + (w + " " + j) + m
    ensures j == "" ==> w + ("" + j + m) == "" + w + m
  {}

  lemma NoWords(u: string)
    ensures u == "" ==> Words(u) == [] && Join(Words(u), " ") == ""
    ensures Words(u) == [] ==> Join(Words(u), " ") == ""
  {}

  lemma JoinCons(w: string, ws: seq<string>)
    ensures Join([w] + ws, " ") == if ws == [] then w else w + " " + Join(ws, " ")
  {
    assert ([w] + ws)[1..] == ws;
  }

  // ------------------------------------------------------------------------ comments

  /** Outside of preserving elements a comment is dropped, up to the first end mark. */
  lemma CommentIsDropped(c: string, rest: string, prev: char)
    requires forall k :: 0 <= k < |c| ==> !At(c + "-->", k, "-->")
    ensures Minified("<!--" + (c + ("-->" + rest)), 0, prev) == Minified(rest, 0, prev)
  {
    hide At;
    var s := "<!--" + (c + ("-->" + rest));
    assert s[0..4] == "<!--" && s[4..] == c + ("-->" + rest);
    assert At(s, 0, "<!--") by { OpeningAt(s); }
    CommentEndsAt(c, rest);
    hide AfterComment, ScanTag, HeadOf, TrimLeft;
  }

  lemma OpeningAt(s: string)
    requires |s| >= 4 && s[0..4] == "<!--"
    ensures At(s, 0, "<!--")
  {}

  lemma {:induction false} CommentEndsAt(c: string, rest: string)
    requires forall k :: 0 <= k < |c| ==> !At(c + "-->", k, "-->")
    ensures AfterComment(c + ("-->" + rest)) == rest
    decreases |c|
  {
    var s := c + ("-->" + rest);
    if c == "" {
      assert s[..3] == "-->" && s[3..] == rest;
    } else {
      assert s[1..] == c[1..] + ("-->" + rest);
      assert s[..3] != "-->" by {
        assert s[..3] == (c + "-->")[0..3];
        assert !At(c + "-->", 0, "-->");
      }
      forall k | 0 <= k < |c[1..]|
        ensures !At(c[1..] + "-->", k, "-->")
      {
        NotYet(c, k);
      }
      hide At;
      CommentEndsAt(c[1..], rest);
    }
  }

  lemma NotYet(c: string, k: nat)
    requires k + 1 < |c| && !At(c + "-->", k + 1, "-->")
    ensures !At(c[1..] + "-->", k, "-->")
  {
    assert (c + "-->")[k + 1..k + 4] == (c[1..] + "-->")[k..k + 3];
  }

  // ------------------------------------------------------------------------ elements

  /** An element without attributes in a document. */
  function Element(name: string, t: string): string {
    "<" + name + ">" + t + "</" + name + ">"
  }

  /** What is printed for the element alone, before text `rest`. */
  lemma ElementOutput(name: string, t: string, rest: string, depth: nat, prev: char)
    requires IsName(name) && Inner(t)
    ensures Preserving(name) ==>
              Minified(Element(name, t) + rest, depth, prev) == Element(name, t) + Minified(rest, depth, '>')
    ensures !Preserving(name) && depth == 0 && Plain(t) ==>
              Minified(Element(name, t) + rest, 0, prev) == Element(name, Join(Words(t), " ")) + Minified(rest, 0, '>')
  {
    var open, close := "<" + name + ">", "</" + name + ">";
    assert Element(name, t) + rest == open + (t + (close + rest));
    hide Minified, Words, Join, Inner;
    if Preserving(name) {
      TagIsRead(name, false, t + (close + rest), depth, prev);
      TextIsCopied(t, close + rest, depth + 1, '>');
      TagIsRead(name, true, rest, depth + 1, Last('>', t));
      hide Preserving, IsName;
      Pieces(open, t, close, Minified(rest, depth, '>'), name);
    } else if depth == 0 && Plain(t) {
      TagIsRead(name, false, t + (close + rest), 0, prev);
      forall a
        ensures Minified(close + rest, 0, a) == close + Minified(rest, 0, '>')
      {
        TagIsRead(name, true, rest, 0, a);
      }
      assert Steady(close + rest);
      hide Preserving, IsName;
      TextIsSqueezed(t, close + rest, '>');
      assert !Leads(t, '>');
      Pieces(open, Join(Words(t), " "), close, Minified(rest, 0, '>'), name);
    }
  }

  lemma Pieces(open: string, t: string, close: string, m: string, name: string)
    requires open == "<" + name + ">" && close == "</" + name + ">"
    ensures open + (t + (close + m)) == Element(name, t) + m
    ensures open + ("" + t + (close + m)) == Element(name, t) + m
  {}

  /** In any document a + element + b whose part a ends between tags, texts and comments:
      the text of pre, textarea, script and style is printed byte for byte, whatever the
      case of the letters; the text of any other element that stands outside of those is
      printed as its words with single blanks. */
  lemma ElementIsPrinted(a: string, name: string, t: string, b: string)
    requires IsName(name) && Inner(t)
    requires Walk(a + Element(name, t) + b, |a|, 0, NUL).exact
    ensures var p := Walk(a + Element(name, t) + b, |a|, 0, NUL);
            && (Preserving(name) ==>
                  Output(a + Element(name, t) + b)
                  == TrimRight(p.out + (Element(name, t) + Minified(b, p.depth, '>'))))
            && (!Preserving(name) && p.depth == 0 && Plain(t) ==>
                  Output(a + Element(name, t) + b)
                  == TrimRight(p.out + (Element(name, Join(Words(t), " ")) + Minified(b, 0, '>'))))
  {
    hide Walk, Minified, Words, Join, Preserving, IsName, Element;
    var s := a + Element(name, t) + b;
    var p := Walk(s, |a|, 0, NUL);
    WalkMinifies(s, |a|, 0, NUL);
    assert s[|a|..] == Element(name, t) + b;
    ElementOutput(name, t, b, p.depth, Last(NUL, p.out));
  }

  /** The same for the element alone. */
  lemma ElementAlone(name: string, t: string)
    requires IsName(name) && Inner(t)
    ensures Preserving(name) ==> Output(Element(name, t)) == Element(name, t)
    ensures !Preserving(name) && Plain(t) ==> Output(Element(name, t)) == Element(name, Join(Words(t), " "))
  {
    hide Words, Join, Preserving, IsName;
    ElementOutput(name, t, "", 0, NUL);
    ElementEnds(name, t);
    ElementEnds(name, Join(Words(t), " "));
    NothingLeft("", 0, '>');
    hide Minified, Element;
    assert Element(name, t) + "" == Element(name, t);
    assert Element(name, Join(Words(t), " ")) + "" == Element(name, Join(Words(t), " "));
  }

  lemma ElementEnds(name: string, t: string)
    ensures TrimRight(Element(name, t)) == Element(name, t)
  {
    var e := Element(name, t);
    assert e[|e| - 1] == '>';
    hide Element;
  }

  // ---------------------------------------------------------------------- attributes

  /** An attribute as it is written: blanks, a name, and a value in quotes of either kind. */
  datatype Attr = Attr(gap: string, key: string, quote: char, value: string)

  predicate PlainTagChar(c: char) {
    !IsBlank(c) && c != '\'' && c != '"' && c != '>'
  }

  predicate IsAttr(a: Attr) {
    && a.gap != "" && (forall k :: 0 <= k < |a.gap| ==> IsBlank(a.gap[k]))
    && a.key != "" && (forall k :: 0 <= k < |a.key| ==> PlainTagChar(a.key[k]))
    && (a.quote == '\'' || a.quote == '"') && a.quote !in a.value
  }

  /** The text of attributes, behind their own blanks or behind single ones. */
  function TextOf(attrs: seq<Attr>, single: bool): string {
    if attrs == [] then ""
    else
      var a := attrs[0];
      (if single then " " else a.gap) + a.key + "=" + ([a.quote] + (a.value + [a.quote])) + TextOf(attrs[1..], single)
  }

  /** Inside a tag and outside of quotes, the text is printed as `out`. */
  ghost predicate Prints(text: string, out: string) {
    forall tail :: ScanTag(text + tail, TAG_START) == Prefixed(out, ScanTag(tail, TAG_START))
  }

  function Prefixed(out: string, t: TagScan): TagScan {
    t.(out := out + t.out)
  }

  lemma PrintsInTurn(a: string, x: string, b: string, y: string)
    requires Prints(a, x) && Prints(b, y)
    ensures Prints(a + b, x + y)
  {
    hide ScanTag, Prefixed;
    forall tail
      ensures ScanTag((a + b) + tail, TAG_START) == Prefixed(x + y, ScanTag(tail, TAG_START))
    {
      assert (a + b) + tail == a + (b + tail);
      PrefixTwice(x, y, ScanTag(tail, TAG_START));
    }
  }

  lemma PrefixTwice(x: string, y: string, t: TagScan)
    ensures Prefixed(x, Prefixed(y, t)) == Prefixed(x + y, t)
  {
    assert x + (y + t.out) == (x + y) + t.out;
  }

  lemma {:induction false} WordPrints(w: string)
    requires forall k :: 0 <= k < |w| ==> PlainTagChar(w[k])
    ensures Prints(w, w)
  {
    hide ScanTag;
    if w == "" {
      forall tail
        ensures ScanTag(w + tail, TAG_START) == Prefixed(w, ScanTag(tail, TAG_START))
      {
        assert w + tail == tail && "" + ScanTag(tail, TAG_START).out == ScanTag(tail, TAG_START).out;
      }
    } else {
      CharPrints(w[0]);
      WordPrints(w[1..]);
      PrintsInTurn([w[0]], [w[0]], w[1..], w[1..]);
      assert [w[0]] + w[1..] == w;
    }
  }

  lemma CharPrints(c: char)
    requires PlainTagChar(c)
    ensures Prints([c], [c])
  {
    hide ScanTag, Prefixed;
    forall tail
      ensures ScanTag([c] + tail, TAG_START) == Prefixed([c], ScanTag(tail, TAG_START))
    {
      CharIsPrinted(c, tail, false);
    }
  }

  lemma CharIsPrinted(c: char, tail: string, wroteSpace: bool)
    requires PlainTagChar(c)
    ensures ScanTag([c] + tail, TagState(None, wroteSpace)) == Prefixed([c], ScanTag(tail, TAG_START))
  {
    hide ScanTag;
    var s := [c] + tail;
    ScanUnfolds(s, TagState(None, wroteSpace));
    assert s[0] == c && s[1..] == tail;
    assert Step(c, TagState(None, wroteSpace)) == TagStep([c], TAG_START, false);
  }

  /** Blanks and the character behind them. */
  lemma GapPrints(gap: string, c: char)
    requires gap != "" && (forall k :: 0 <= k < |gap| ==> IsBlank(gap[k])) && PlainTagChar(c)
    ensures Prints(gap + [c], " " + [c])
  {
    hide ScanTag;
    forall tail
      ensures ScanTag((gap + [c]) + tail, TAG_START) == Prefixed(" " + [c], ScanTag(tail, TAG_START))
    {
      var s := (gap + [c]) + tail;
      ScanUnfolds(s, TAG_START);
      assert s[0] == gap[0] && s[1..] == gap[1..] + ([c] + tail);
      BlanksAreSkipped(gap[1..], c, tail);
      var t := ScanTag(tail, TAG_START);
      assert " " + ([c] + t.out) == (" " + [c]) + t.out;
    }
  }

  lemma {:induction false} BlanksAreSkipped(gap: string, c: char, tail: string)
    requires (forall k :: 0 <= k < |gap| ==> IsBlank(gap[k])) && PlainTagChar(c)
    ensures ScanTag(gap + ([c] + tail), TagState(None, true)) == Prefixed([c], ScanTag(tail, TAG_START))
  {
    hide ScanTag;
    var s := gap + ([c] + tail);
    ScanUnfolds(s, TagState(None, true));
    if gap == "" {
      assert s == [c] + tail;
      CharIsPrinted(c, tail, true);
    } else {
      assert s[0] == gap[0] && s[1..] == gap[1..] + ([c] + tail);
      BlanksAreSkipped(gap[1..], c, tail);
      var t := ScanTag(s[1..], TagState(None, true));
      assert "" + t.out == t.out;
    }
  }

  lemma QuotedPrints(quote: char, v: string)
    requires (quote == '\'' || quote == '"') && quote !in v
    ensures Prints([quote] + (v + [quote]), [quote] + (v + [quote]))
  {
    hide ScanTag, Prefixed;
    var q := [quote] + (v + [quote]);
    forall tail
      ensures ScanTag(q + tail, TAG_START) == Prefixed(q, ScanTag(tail, TAG_START))
    {
      QuotedIsPrinted(quote, v, tail);
    }
  }

  lemma QuotedIsPrinted(quote: char, v: string, tail: string)
    requires (quote == '\'' || quote == '"') && quote !in v
    ensures var q := [quote] + (v + [quote]);
            ScanTag(q + tail, TAG_START) == Prefixed(q, ScanTag(tail, TAG_START))
  {
    hide ScanTag;
    var q := [quote] + (v + [quote]);
    ScanUnfolds(q + tail, TAG_START);
    assert (q + tail)[0] == quote && (q + tail)[1..] == v + ([quote] + tail);
    ValueIsCopied(quote, v, tail, TagState(Some(quote), false));
    var t := ScanTag(tail, TAG_START);
    assert [quote] + (v + ([quote] + t.out)) == q + t.out;
  }

  /** Inside a tag, a value in quotes of either kind is copied. */
  lemma {:induction false} ValueIsCopied(quote: char, v: string, tail: string, st: TagState)
    requires (quote == '\'' || quote == '"') && quote !in v && st == TagState(Some(quote), false)
    ensures ScanTag(v + ([quote] + tail), st)
            == (var t := ScanTag(tail, TAG_START); t.(out := v + ([quote] + t.out)))
    decreases |v|
  {
    hide ScanTag;
    var s := v + ([quote] + tail);
    ScanUnfolds(s, st);
    if v == "" {
      assert s == [quote] + tail && s[1..] == tail;
      assert "" + ([quote] + ScanTag(tail, TAG_START).out) == [quote] + ScanTag(tail, TAG_START).out;
    } else {
      assert s[0] == v[0] && v[0] in v && s[1..] == v[1..] + ([quote] + tail);
      ValueIsCopied(quote, v[1..], tail, st);
      assert [v[0]] + (v[1..] + ([quote] + ScanTag(tail, TAG_START).out))
             == v + ([quote] + ScanTag(tail, TAG_START).out);
    }
  }

  lemma AttrPrints(a: Attr)
    requires IsAttr(a)
    ensures Prints(a.gap + a.key + "=" + ([a.quote] + (a.value + [a.quote])),
                   " " + a.key + "=" + ([a.quote] + (a.value + [a.quote])))
  {
    hide Prints, PlainTagChar;
    var q, k := [a.quote] + (a.value + [a.quote]), a.key;
    GapPrints(a.gap, k[0]);
    WordPrints(k[1..]);
    assert PlainTagChar('=') by { EqualsIsPlain(); }
    CharPrints('=');
    QuotedPrints(a.quote, a.value);
    PrintsInTurn(a.gap + [k[0]], " " + [k[0]], k[1..], k[1..]);
    KeyTexts(a.gap, k);
    PrintsInTurn(a.gap + k, " " + k, "=", "=");
    PrintsInTurn(a.gap + k + "=", " " + k + "=", q, q);
  }

  lemma EqualsIsPlain()
    ensures PlainTagChar('=')
  {}

  lemma KeyTexts(gap: string, k: string)
    requires k != ""
    ensures (gap + [k[0]]) + k[1..] == gap + k && (" " + [k[0]]) + k[1..] == " " + k
  {}

  lemma {:induction false} AttrsPrint(attrs: seq<Attr>)
    requires forall a :: a in attrs ==> IsAttr(a)
    ensures Prints(TextOf(attrs, false), TextOf(attrs, true))
  {
    hide Prints;
    if attrs == [] {
      WordPrints("");
    } else {
      var a := attrs[0];
      assert a in attrs && forall x :: x in attrs[1..] ==> x in attrs;
      hide IsAttr;
      AttrPrints(a);
      AttrsPrint(attrs[1..]);
      PrintsInTurn(a.gap + a.key + "=" + ([a.quote] + (a.value + [a.quote])),
        " " + a.key + "=" + ([a.quote] + (a.value + [a.quote])), TextOf(attrs[1..], false), TextOf(attrs[1..], true));
    }
  }

  /** A tag is printed with one blank before each of its attributes, and with their values
      byte for byte, whatever stands between the quotes of either kind. */
  lemma ValuesAreKept(name: string, attrs: seq<Attr>)
    requires IsName(name) && forall a :: a in attrs ==> IsAttr(a)
    ensures Output("<" + name + TextOf(attrs, false) + ">") == "<" + name + TextOf(attrs, true) + ">"
  {
    var s, text, out := "<" + name + TextOf(attrs, false) + ">", TextOf(attrs, false), TextOf(attrs, true);
    var head := "<" + name;
    AttrsPrint(attrs);
    assert forall k :: 0 <= k < |head| ==> PlainTagChar(head[k]);
    WordPrints(head);
    PrintsInTurn(head, head, text, out);
    TagAlone(name, text, out);
  }

  lemma TagAlone(name: string, text: string, out: string)
    requires IsName(name) && Prints("<" + name + text, "<" + name + out)
    ensures Output("<" + name + text + ">") == "<" + name + out + ">"
  {
    hide Minified, HeadOf;
    var s, tag := "<" + name + text + ">", "<" + name + out + ">";
    assert ScanTag(">", TAG_START) == TagScan(">", "", true);
    hide ScanTag, IsName;
    assert s[0] == '<' && s[1] == name[0] && name[0] != '!' by { NameStarts(name); }
    NoComment(s, 0);
    TagCase(s, 0, NUL);
    NothingLeft("", DepthAfter(0, HeadOf(s[1..]), true), '>');
    assert tag[|tag| - 1] == '>' && tag + "" == tag;
  }

  lemma NameStarts(name: string)
    requires IsName(name)
    ensures name[0] != '!'
  {}
}
