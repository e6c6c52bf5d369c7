/** The HTML minifier: what it computes, as a function of the text still to be read,
    and the single-pass loop over a caller's buffer. */
module MinifyHtml {
  import opened Text

  // ------------------------------------------------------------------------ tags

  /** is_preserve_tag */
  predicate IsPreserveTag(name: string) {
    var n := LowerAll(name);
    n == "pre" || n == "textarea" || n == "script" || n == "style"
  }

  predicate IsNameChar(c: char) {
    IsAlnum(c) || c == '-' || c == ':'
  }

  function NameLength(s: string): (n: nat)
    ensures n <= |s|
    ensures forall k :: 0 <= k < n ==> IsNameChar(s[k])
    ensures n < |s| ==> !IsNameChar(s[n])
  {
    if s == "" || !IsNameChar(s[0]) then 0 else 1 + NameLength(s[1..])
  }

  datatype Head = Head(closing: bool, preserve: bool)

  /** What the text after a `<` says: a closing tag or not, and a preserving tag or not. */
  function HeadOf(t: string): Head {
    var closing := t != "" && t[0] == '/';
    var u := TrimLeft(if closing then t[1..] else t);
    Head(closing, IsPreserveTag(u[..NameLength(u)]))
  }

  predicate IsQuote(c: char) {
    c == '\'' || c == '"'
  }

  /** The open quote after reading quote character c. */
  function NextQuote(quote: Option<char>, c: char): Option<char> {
    if quote == Some(c) then None else if quote == None then Some(c) else quote
  }

  datatype TagState = TagState(quote: Option<char>, wroteSpace: bool)

  const TAG_START: TagState := TagState(None, false)

  datatype TagStep = TagStep(out: string, state: TagState, stop: bool)

  /** One character of the tag loop: what it writes, and whether it closes the tag. */
  function Step(c: char, st: TagState): TagStep {
    if IsQuote(c) then TagStep([c], TagState(NextQuote(st.quote, c), false), false)
    else if st.quote == None && IsSpace(c) then TagStep(if st.wroteSpace then "" else " ", TagState(None, true), false)
    else if st.quote == None && c == '>' then TagStep(">", st, true)
    else TagStep([c], TagState(st.quote, st.wroteSpace && IsSpace(c)), false)
  }

  lemma StepFacts(c: char, st: TagState)
    ensures Step(c, st).out == "" ==> Step(c, st).state == st && !Step(c, st).stop && IsSpace(c)
    ensures Step(c, st).out != "" ==> |Step(c, st).out| == 1 && Step(Step(c, st).out[0], st) == Step(c, st)
    ensures !IsSpace(c) ==> Step(c, st).out == [c]
    ensures Step(c, st).out != "" && IsSpace(c) ==> IsSpace(Step(c, st).out[0])
    ensures Step(c, st).stop ==> c == '>'
  {}

  datatype TagScan = TagScan(out: string, rest: string, closed: bool)

  /** The tag loop: copy up to the closing `>`, one space for every run outside quotes. */
  function ScanTag(s: string, st: TagState): (t: TagScan)
    ensures |t.out| + |t.rest| <= |s|
    ensures !t.closed ==> t.rest == ""
    ensures t.closed ==> t.out != ""
  {
    if s == "" then TagScan("", "", false)
    else
      var x := Step(s[0], st);
      if x.stop then TagScan(x.out, s[1..], true)
      else var t := ScanTag(s[1..], x.state); t.(out := x.out + t.out)
  }

  function DepthAfter(depth: nat, h: Head, closed: bool): nat {
    if !closed then depth
    else if h.closing && h.preserve && depth > 0 then depth - 1
    else if !h.closing && h.preserve then depth + 1
    else depth
  }

  // -------------------------------------------------------------------- the text

  /** The text after a comment whose opening has been read. When the comment is not
      terminated, the last character of the input is read as text. */
  function AfterComment(s: string): (rest: string)
    ensures |rest| <= |s|
  {
    if |s| < 3 then (if s == "" then s else s[1..])
    else if s[..3] == "-->" then s[3..]
    else AfterComment(s[1..])
  }

  predicate CommentAt(s: string, depth: nat) {
    depth == 0 && At(s, 0, "<!--")
  }

  /** A `<` that is ordinary text of a preserved element. */
  predicate PlainAngle(s: string, depth: nat)
    requires s != ""
  {
    depth > 0 && !HeadOf(s[1..]).preserve && !HeadOf(s[1..]).closing
  }

  function Last(prev: char, s: string): char {
    if s == "" then prev else s[|s| - 1]
  }

  /** A space run between prev and next is dropped. */
  predicate DropsSpace(prev: char, next: char) {
    prev == '>' || prev == NUL || next == '<' || next == NUL
  }

  /** The output for the text s, at preserve depth `depth` after output character `prev`
      (NUL when there is none), before the final trim. */
  function Minified(s: string, depth: nat, prev: char): (r: string)
    ensures |r| <= |s|
    decreases |s|
  {
    if s == "" then ""
    else if s[0] == '<' then
      if CommentAt(s, depth) then Minified(AfterComment(s[4..]), depth, prev)
      else if PlainAngle(s, depth) then "<" + Minified(s[1..], depth, '<')
      else
        var t := ScanTag(s, TAG_START);
        t.out + Minified(t.rest, DepthAfter(depth, HeadOf(s[1..]), t.closed), Last(prev, t.out))
    else if depth > 0 then [s[0]] + Minified(s[1..], depth, s[0])
    else if IsSpace(s[0]) then
      var rest := TrimLeft(s);
      if DropsSpace(prev, if rest == "" then NUL else rest[0]) then Minified(rest, depth, prev)
      else " " + Minified(rest, depth, ' ')
    else [s[0]] + Minified(s[1..], depth, s[0])
  }

  /** What cweb_minify_html returns. */
  function Output(s: string): string {
    TrimRight(Minified(s, 0, NUL))
  }

  // -------------------------------------------------------------- case by case

  lemma ScanUnfolds(s: string, st: TagState)
    requires s != ""
    ensures var x := Step(s[0], st);
            ScanTag(s, st) == if x.stop then TagScan(x.out, s[1..], true)
                              else var t := ScanTag(s[1..], x.state); t.(out := x.out + t.out)
  {}

  lemma AngleFirst(s: string)
    requires s != "" && s[0] == '<'
    ensures ScanTag(s, TAG_START) == (var t := ScanTag(s[1..], TAG_START); t.(out := ['<'] + t.out))
  {}

  lemma CopiesChar(c: char, s: string, depth: nat, prev: char)
    requires c != '<' && (depth > 0 || !IsSpace(c))
    ensures Minified([c] + s, depth, prev) == [c] + Minified(s, depth, c)
  {
    assert ([c] + s)[1..] == s;
  }

  lemma CopiesAngle(s: string, depth: nat, prev: char)
    requires s != "" && s[0] == '<' && PlainAngle(s, depth)
    ensures Minified(s, depth, prev) == "<" + Minified(s[1..], depth, '<')
  {
    hide HeadOf;
  }

  lemma SpaceCase(s: string, prev: char)
    requires s != "" && IsSpace(s[0])
    ensures var rest := TrimLeft(s);
            |rest| < |s| &&
            Minified(s, 0, prev)
            == if DropsSpace(prev, if rest == "" then NUL else rest[0]) then Minified(rest, 0, prev)
               else " " + Minified(rest, 0, ' ')
  {}

  lemma TagCase(s: string, depth: nat, prev: char)
    requires s != "" && s[0] == '<' && !CommentAt(s, depth) && !PlainAngle(s, depth)
    ensures var t := ScanTag(s, TAG_START);
            && |t.rest| < |s|
            && Minified(s, depth, prev)
               == t.out + Minified(t.rest, DepthAfter(depth, HeadOf(s[1..]), t.closed), Last(prev, t.out))
  {
    AngleFirst(s);
    hide ScanTag, HeadOf, DepthAfter, At;
  }

  lemma CommentCase(s: string, depth: nat, prev: char)
    requires s != "" && s[0] == '<' && CommentAt(s, depth)
    ensures |s| >= 4 && Minified(s, depth, prev) == Minified(AfterComment(s[4..]), depth, prev)
  {}

  lemma TextCase(s: string, depth: nat, prev: char)
    requires s != "" && s[0] != '<' && (depth > 0 || !IsSpace(s[0]))
    ensures Minified(s, depth, prev) == [s[0]] + Minified(s[1..], depth, s[0])
  {}

  lemma NothingLeft(s: string, depth: nat, prev: char)
    requires s == ""
    ensures Minified(s, depth, prev) == ""
  {}

  // --------------------------------------------------------------------- the loop

  lemma CommentStep(input: string, i: nat)
    requires i <= |input|
    ensures i + 2 < |input| && input[i] == '-' && input[i + 1] == '-' && input[i + 2] == '>'
            ==> AfterComment(From(input, i)) == From(input, i + 3)
    ensures i + 2 < |input| && !(input[i] == '-' && input[i + 1] == '-' && input[i + 2] == '>')
            ==> AfterComment(From(input, i)) == AfterComment(From(input, i + 1))
    ensures i + 2 >= |input| ==> AfterComment(From(input, i)) == From(input, i + 1)
  {
    var s := From(input, i);
    if i + 2 < |input| {
      assert s[..3] == [input[i], input[i + 1], input[i + 2]];
      assert s[1..] == From(input, i + 1) && s[3..] == From(input, i + 3);
    }
  }

  /** The comment loop. */
  method SkipComment(input: string, start: nat) returns (i: nat)
    requires start <= |input|
    ensures start <= i && From(input, i + 1) == AfterComment(From(input, start))
  {
    hide AfterComment, From;
    i := start;
    CommentStep(input, i);
    while i + 2 < |input| && !(input[i] == '-' && input[i + 1] == '-' && input[i + 2] == '>')
      invariant start <= i <= |input|
      invariant AfterComment(From(input, i)) == AfterComment(From(input, start))
    {
      CommentStep(input, i);
      i := i + 1;
    }
    CommentStep(input, i);
    if i + 2 < |input| {
      i := i + 2;
    }
  }

  lemma {:induction false} NameIs(u: string, n: nat)
    requires n <= |u| && (forall k :: 0 <= k < n ==> IsNameChar(u[k])) && (n < |u| ==> !IsNameChar(u[n]))
    ensures NameLength(u) == n
  {
    if n > 0 {
      assert IsNameChar(u[0]);
      NameIs(u[1..], n - 1);
    }
  }

  lemma HeadIs(input: string, i: nat, closing: bool, nameStart: nat, j: nat)
    requires i < nameStart <= j <= |input|
    requires closing == (i + 1 < |input| && input[i + 1] == '/')
    requires From(input, nameStart) == TrimLeft(From(input, if closing then i + 2 else i + 1))
    requires (forall k :: nameStart <= k < j ==> IsNameChar(input[k])) && (j < |input| ==> !IsNameChar(input[j]))
    ensures HeadOf(From(input, i + 1)) == Head(closing, IsPreserveTag(input[nameStart..j]))
  {
    hide IsNameChar, IsPreserveTag, TrimLeft, From, NameLength;
    AfterSlash(input, i);
    NameOf(input, nameStart, j);
  }

  lemma AfterSlash(input: string, i: nat)
    requires i < |input|
    ensures var t := From(input, i + 1);
            var closing := i + 1 < |input| && input[i + 1] == '/';
            closing == (t != "" && t[0] == '/')
            && From(input, if closing then i + 2 else i + 1) == if closing then t[1..] else t
  {
    if i + 1 < |input| {
      FromMore(input, i + 1);
    }
  }

  lemma NameOf(input: string, start: nat, j: nat)
    requires start <= j <= |input|
    requires (forall k :: start <= k < j ==> IsNameChar(input[k])) && (j < |input| ==> !IsNameChar(input[j]))
    ensures var u := From(input, start); u[..NameLength(u)] == input[start..j]
  {
    hide IsNameChar, NameLength;
    NameIs(From(input, start), j - start);
  }

  /** Read the head of the tag at position i. */
  method ReadHead(input: string, i: nat) returns (h: Head)
    requires i < |input|
    ensures h == HeadOf(From(input, i + 1))
  {
    hide IsPreserveTag, IsNameChar, IsSpace, TrimLeft, From, HeadOf;
    var j := i + 1;
    var closing := false;
    if j < |input| && input[j] == '/' {
      closing := true;
      j := j + 1;
    }
    j := SkipSpaces(input, j);
    var nameStart := j;
    while j < |input| && IsNameChar(input[j])
      invariant nameStart <= j <= |input|
      invariant forall k :: nameStart <= k < j ==> IsNameChar(input[k])
    {
      j := j + 1;
    }
    HeadIs(input, i, closing, nameStart, j);
    h := Head(closing, IsPreserveTag(input[nameStart..j]));
  }

  lemma ScanStep(input: string, k: nat, st: TagState)
    requires k < |input|
    ensures var x := Step(input[k], st);
            ScanTag(From(input, k), st) == if x.stop then TagScan(x.out, From(input, k + 1), true)
                                           else var t := ScanTag(From(input, k + 1), x.state); t.(out := x.out + t.out)
  {
    FromMore(input, k);
    ScanUnfolds(From(input, k), st);
  }

  lemma ScanEnds(input: string, k: nat, st: TagState)
    requires k >= |input|
    ensures ScanTag(From(input, k), st) == TagScan("", "", false) && From(input, k + 1) == ""
  {}

  /** The body of the tag loop: one character is written, perhaps over the last space. */
  method WriteTagChar(ch: char, st: TagState, out: array<char>, o0: nat) returns (o: nat, after: TagState, stop: bool)
    requires o0 < out.Length
    modifies out
    ensures o <= o0 + 1
    ensures var x := Step(ch, st); out[..o] == old(out[..o0]) + x.out && after == x.state && stop == x.stop
  {
    hide IsSpace;
    out[o0] := ch;
    o := o0 + 1;
    after := st;
    stop := false;
    assert out[..o] == old(out[..o0]) + [ch];
    if IsQuote(ch) {
      after := TagState(NextQuote(st.quote, ch), false);
    } else if st.quote == None && IsSpace(ch) {
      if st.wroteSpace {
        o := o - 1;
      } else {
        after := TagState(st.quote, true);
        out[o - 1] := ' ';
      }
      assert out[..o] == old(out[..o0]) + Step(ch, st).out;
    } else if st.quote == None && ch == '>' {
      stop := true;
    } else if !IsSpace(ch) {
      after := TagState(st.quote, false);
    }
  }

  /** The tag loop: copy the tag that starts at position start to out[o0..]. */
  method CopyTag(input: string, start: nat, h: Head, depth0: nat, out: array<char>, o0: nat)
      returns (k: nat, o: nat, depth: nat)
    requires start < |input| && o0 <= start && |input| < out.Length
    modifies out
    ensures start <= k && o <= k + 1 && o <= |input|
    ensures var t := ScanTag(From(input, start), TAG_START);
            && out[..o] == old(out[..o0]) + t.out
            && From(input, k + 1) == t.rest
            && depth == DepthAfter(depth0, h, t.closed)
  {
    hide IsSpace, From, Step, ScanTag;
    k, o, depth := start, o0, depth0;
    var st := TAG_START;
    ghost var t := ScanTag(From(input, start), TAG_START);
    ghost var before := out[..o0];
    assert before + t.out == out[..o] + t.out;
    while k < |input|
      invariant start <= k <= |input| && o <= k && depth == depth0
      invariant var r := ScanTag(From(input, k), st);
                before + t.out == out[..o] + r.out && r.rest == t.rest && r.closed == t.closed
    {
      ScanStep(input, k, st);
      ghost var x := Step(input[k], st);
      ghost var r := ScanTag(From(input, k + 1), x.state);
      Assoc(out[..o], x.out, r.out);
      var stop;
      o, st, stop := WriteTagChar(input[k], st, out, o);
      if stop {
        if h.closing && h.preserve && depth > 0 {
          depth := depth - 1;
        } else if !h.closing && h.preserve {
          depth := depth + 1;
        }
        return;
      }
      k := k + 1;
    }
    ScanEnds(input, k, st);
  }

  lemma CommentHere(input: string, i: nat, depth: nat)
    requires i < |input| && input[i] == '<'
    ensures CommentAt(From(input, i), depth)
            <==> depth == 0 && i + 3 < |input| && input[i + 1] == '!' && input[i + 2] == '-' && input[i + 3] == '-'
    ensures CommentAt(From(input, i), depth) ==> From(input, i)[4..] == From(input, i + 4)
  {
    var s := From(input, i);
    if |s| >= 4 {
      assert s[0..4] == [s[0], s[1], s[2], s[3]];
    }
  }

  lemma LastGrows(done: string)
    ensures Last(NUL, done) == if |done| > 0 then done[|done| - 1] else NUL
    ensures forall c :: Last(NUL, done + [c]) == c
    ensures forall t :: Last(NUL, done + t) == Last(Last(NUL, done), t)
  {}

  /** The output so far and the output of the text still to be read. */
  function Whole(done: string, input: string, i: nat, depth: nat): string {
    done + Minified(From(input, i), depth, Last(NUL, done))
  }

  /** A `<` outside comments. */
  method MinifyTag(input: string, i: nat, depth: nat, out: array<char>, o: nat) returns (i': nat, o': nat, depth': nat)
    requires i < |input| < out.Length && o <= i && input[i] == '<' && !CommentAt(From(input, i), depth)
    modifies out
    ensures i <= i' && o' <= i' + 1 && o' <= |input|
    ensures Whole(out[..o'], input, i' + 1, depth') == old(Whole(out[..o], input, i, depth))
  {
    hide HeadOf, ScanTag, DepthAfter, Minified, From, CommentAt, Last;
    i', o', depth' := i, o, depth;
    FromMore(input, i);
    ghost var s, done := From(input, i), out[..o];
    LastGrows(done);
    var h := ReadHead(input, i);
    if depth > 0 && !h.preserve && !h.closing {
      CopiesAngle(s, depth, Last(NUL, done));
      Assoc(done, "<", Minified(s[1..], depth, '<'));
      o' := Put(out, o, '<');
    } else {
      TagCase(s, depth, Last(NUL, done));
      ghost var t := ScanTag(s, TAG_START);
      Assoc(done, t.out, Minified(t.rest, DepthAfter(depth, h, t.closed), Last(Last(NUL, done), t.out)));
      i', o', depth' := CopyTag(input, i, h, depth, out, o);
    }
  }

  lemma WholeSpaces(done: string, input: string, i: nat, k: nat)
    requires i < |input| && IsSpace(input[i]) && k <= |input| && From(input, k) == TrimLeft(From(input, i + 1))
    ensures var drops := DropsSpace(if |done| > 0 then done[|done| - 1] else NUL,
                                    if k < |input| then input[k] else NUL);
            Whole(if drops then done else done + " ", input, k, 0) == Whole(done, input, i, 0)
  {
    hide IsSpace, Minified, From, TrimLeft, Last, DropsSpace;
    FromMore(input, i);
    LastGrows(done);
    SpaceCase(From(input, i), Last(NUL, done));
    SpaceStep(input, i);
    NextIs(input, k);
    Assoc(done, " ", Minified(From(input, k), 0, ' '));
  }

  /** A run of spaces outside preserved elements. */
  method MinifySpaces(input: string, i: nat, out: array<char>, o: nat) returns (i': nat, o': nat)
    requires i < |input| < out.Length && o <= i && IsSpace(input[i])
    modifies out
    ensures i <= i' < |input| && o' <= i' + 1
    ensures Whole(out[..o'], input, i' + 1, 0) == old(Whole(out[..o], input, i, 0))
  {
    hide IsSpace, Minified, From, TrimLeft, Whole;
    o' := o;
    var k := SkipSpaces(input, i + 1);
    WholeSpaces(out[..o], input, i, k);
    var prev := if o > 0 then out[o - 1] else NUL;
    var next := if k < |input| then input[k] else NUL;
    if !(prev == '>' || prev == NUL || next == '<' || next == NUL) {
      o' := Put(out, o, ' ');
    }
    i' := k - 1;
  }

  lemma WholeText(done: string, input: string, i: nat, depth: nat)
    requires i < |input| && input[i] != '<' && (depth > 0 || !IsSpace(input[i]))
    ensures Whole(done + [input[i]], input, i + 1, depth) == Whole(done, input, i, depth)
  {
    hide Minified, From, Last;
    FromMore(input, i);
    var s := From(input, i);
    LastGrows(done);
    TextCase(s, depth, Last(NUL, done));
    Assoc(done, [s[0]], Minified(s[1..], depth, s[0]));
  }

  lemma WholeComment(done: string, input: string, i: nat, depth: nat)
    requires i < |input| && input[i] == '<' && CommentAt(From(input, i), depth)
    ensures i + 4 <= |input|
    ensures forall k: nat :: From(input, k) == AfterComment(From(input, i + 4))
                             ==> Whole(done, input, k, depth) == Whole(done, input, i, depth)
  {
    CommentHere(input, i, depth);
    CommentCase(From(input, i), depth, Last(NUL, done));
    hide Minified, From, Last, AfterComment;
  }

  lemma WholeEnds(done: string, input: string, i: nat, depth: nat)
    ensures Whole("", input, 0, 0) == Minified(input, 0, NUL)
    ensures i >= |input| ==> Whole(done, input, i, depth) == done
  {
    assert From(input, 0) == input;
    assert i >= |input| ==> From(input, i) == "" && Minified("", depth, Last(NUL, done)) == "";
    hide Minified;
    assert Last(NUL, "") == NUL;
    assert "" + Minified(input, 0, NUL) == Minified(input, 0, NUL);
  }

  /** cweb_minify_html: the caller's buffer has room for the input and a NUL. */
  method Minify(input: string, out: array<char>) returns (o: nat)
    requires |input| < out.Length
    modifies out
    ensures o <= |input| && out[..o] == Output(input)
  {
    hide IsSpace, From, CommentAt, Whole, AfterComment, Minified, TrimRight, At;
    o := 0;
    var depth := 0;
    var i := 0;
    assert out[..o] == "";
    WholeEnds("", input, 0, 0);
    while i < |input|
      invariant o <= i && o <= |input|
      invariant Whole(out[..o], input, i, depth) == Minified(input, 0, NUL)
      decreases |input| - i
    {
      var c := input[i];
      if c == '<' {
        CommentHere(input, i, depth);
        if depth == 0 && i + 3 < |input| && input[i + 1] == '!' && input[i + 2] == '-' && input[i + 3] == '-' {
          WholeComment(out[..o], input, i, depth);
          i := SkipComment(input, i + 4);
        } else {
          i, o, depth := MinifyTag(input, i, depth, out, o);
        }
      } else if depth > 0 {
        WholeText(out[..o], input, i, depth);
        o := Put(out, o, c);
      } else if IsSpace(c) {
        i, o := MinifySpaces(input, i, out, o);
      } else {
        WholeText(out[..o], input, i, depth);
        o := Put(out, o, c);
      }
      i := i + 1;
    }
    WholeEnds(out[..o], input, i, depth);
    o := TrimOutput(out, o);
  }
}
