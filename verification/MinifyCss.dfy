/** The CSS minifier. The loop prints a space as soon as it may be needed and takes it
    back when the next character makes it superfluous; the specification never prints
    a space before it knows what follows. */
module MinifyCss {
  import opened Text

  /** kCssPunctuation */
  predicate IsPunct(c: char) {
    c in ",;:{})(>+~*=[]|!&^%#."
  }

  /** The characters that no space may precede. */
  predicate Swallows(c: char) {
    c in ":;{},"
  }

  /** Between last and next a comment leaves a space. */
  predicate NeedsSpace(last: Option<char>, next: char) {
    var prev := if last.Some? then last.value else NUL;
    (!IsPunct(prev) && !IsPunct(next)) || next == '+' || next == '-' || prev == '+' || prev == '-'
  }

  predicate DropsSpace(last: Option<char>, next: char) {
    last.None? || IsPunct(last.value) || IsPunct(next)
  }

  /** The output for the text s after printed character `last`, when a space is pending
      or not, inside a comment or not. */
  function Minified(s: string, inComment: bool, last: Option<char>, pending: bool): (r: string)
    ensures |r| <= |s| + if pending then 1 else 0
    decreases |s|
  {
    if s == "" then if pending then " " else ""
    else if inComment then InComment(s, last, pending)
    else if s[0] == '/' && CharAt(s, 1) == '*' then Minified(s[2..], true, last, pending)
    else if IsSpace(s[0]) then Minified(s[1..], false, last, pending || !DropsSpace(last, NextVisible(s)))
    else (if pending && !Swallows(s[0]) then " " else "") + [s[0]] + Minified(s[1..], false, Some(s[0]), false)
  }

  function InComment(s: string, last: Option<char>, pending: bool): (r: string)
    requires s != ""
    ensures |r| <= |s| + if pending then 1 else 0
    decreases |s|, 0
  {
    if s[0] == '*' && CharAt(s, 1) == '/' then
      Minified(s[2..], false, last, pending || NeedsSpace(last, NextVisible(s[2..])))
    else Minified(s[1..], true, last, pending)
  }

  /** What cweb_minify_css returns. */
  function Output(s: string): string {
    Minified(s, false, None, false)
  }

  // --------------------------------------------------------------------- the loop

  function LastOf(done: string): Option<char> {
    if done == "" then None else Some(done[|done| - 1])
  }

  /** The buffer: printed text, and the pending space after it. */
  function Buffer(done: string, pending: bool): string {
    done + if pending then " " else ""
  }

  function Whole(done: string, input: string, i: nat, inComment: bool, pending: bool): string {
    done + Minified(From(input, i), inComment, LastOf(done), pending)
  }

  /** Printed text never ends in a space. */
  predicate Settled(done: string) {
    done == "" || !IsSpace(done[|done| - 1])
  }

  lemma CharIs(input: string, i: nat)
    requires i < |input|
    ensures CharAt(From(input, i), 0) == input[i]
    ensures CharAt(From(input, i), 1) == if i + 1 < |input| then input[i + 1] else NUL
    ensures From(input, i)[1..] == From(input, i + 1)
    ensures i + 1 < |input| ==> From(input, i)[2..] == From(input, i + 2)
  {}

  lemma Printed(done: string, t: string, input: string, i: nat)
    requires t != ""
    ensures Whole(done + t, input, i, false, false)
            == done + (t + Minified(From(input, i), false, Some(t[|t| - 1]), false))
  {
    hide Minified, From;
    var r := Minified(From(input, i), false, Some(t[|t| - 1]), false);
    assert done + (t + r) == done + t + r;
  }

  lemma CommentStep(done: string, input: string, i: nat, pending: bool)
    requires i < |input|
    ensures Whole(done, input, i, true, pending)
            == if input[i] == '*' && i + 1 < |input| && input[i + 1] == '/'
               then Whole(done, input, i + 2, false,
                          pending || NeedsSpace(LastOf(done), NextVisible(From(input, i + 2))))
               else Whole(done, input, i + 1, true, pending)
  {
    hide NeedsSpace, NextVisible;
    CharIs(input, i);
    var s := From(input, i);
    assert Minified(s, true, LastOf(done), pending) == InComment(s, LastOf(done), pending);
    hide From, Minified;
  }

  lemma CodeStep(done: string, input: string, i: nat, pending: bool)
    requires i < |input|
    ensures var c := input[i];
            var next := if i + 1 < |input| then input[i + 1] else NUL;
            Whole(done, input, i, false, pending)
            == if c == '/' && next == '*' then Whole(done, input, i + 2, true, pending)
               else if IsSpace(c)
               then Whole(done, input, i + 1, false,
                          pending || !DropsSpace(LastOf(done), NextVisible(From(input, i))))
               else Whole((if pending && !Swallows(c) then done + " " else done) + [c], input, i + 1, false, false)
  {
    hide DropsSpace, NextVisible, IsSpace, Swallows, InComment;
    CharIs(input, i);
    var c := input[i];
    Printed(done, [c], input, i + 1);
    Printed(done, " " + [c], input, i + 1);
    assert done + " " + [c] == done + (" " + [c]);
    assert "" + [c] == [c];
  }

  lemma {:induction false} SpaceRun(s: string, last: Option<char>, pending: bool)
    requires s != "" && IsSpace(s[0])
    ensures |TrimLeft(s)| < |s|
    ensures Minified(s, false, last, pending)
            == Minified(TrimLeft(s), false, last, pending || !DropsSpace(last, NextVisible(s)))
  {
    var t := s[1..];
    var pending' := pending || !DropsSpace(last, NextVisible(s));
    SpaceFirst(s, last, pending);
    if t != "" && IsSpace(t[0]) {
      SpaceRun(t, last, pending');
      hide Minified, DropsSpace, IsSpace, TrimLeft, NextVisible;
    } else {
      assert TrimLeft(t) == t;
      hide Minified, DropsSpace, IsSpace, TrimLeft, NextVisible;
    }
  }

  lemma SpaceFirst(s: string, last: Option<char>, pending: bool)
    requires s != "" && IsSpace(s[0])
    ensures TrimLeft(s) == TrimLeft(s[1..]) && NextVisible(s) == NextVisible(s[1..])
    ensures Minified(s, false, last, pending)
            == Minified(s[1..], false, last, pending || !DropsSpace(last, NextVisible(s)))
  {
    hide DropsSpace, InComment;
    assert s[0] != '/';
  }

  lemma BufferEnds(done: string, pending: bool)
    requires Settled(done)
    ensures var b := Buffer(done, pending);
            && (pending <==> b != "" && b[|b| - 1] == ' ')
            && (!pending ==> LastOf(b) == LastOf(done))
            && (pending ==> b[..|b| - 1] == done)
            && (b == "" <==> done == "" && !pending)
  {}

  /** The loop body inside a comment. */
  method CommentChar(input: string, i: nat, ghost done: string, lastSpace: bool, out: array<char>, o: nat)
      returns (i': nat, o': nat, inComment: bool, lastSpace': bool)
    requires o <= i < |input| < out.Length && Settled(done) && out[..o] == Buffer(done, lastSpace)
    modifies out
    ensures i <= i' < |input| && o' <= i' + 1
    ensures out[..o'] == Buffer(done, lastSpace')
    ensures Whole(done, input, i' + 1, inComment, lastSpace') == Whole(done, input, i, true, lastSpace)
  {
    hide Whole, Minified, From, IsPunct, TrimLeft, IsSpace;
    CommentStep(done, input, i, lastSpace);
    i', o', inComment, lastSpace' := i, o, true, lastSpace;
    if input[i] == '*' && i + 1 < |input| && input[i + 1] == '/' {
      inComment := false;
      var prev := LastPrinted(out, o, done, lastSpace);
      var k := SkipSpaces(input, i + 2);
      NextIs(input, k);
      var right := if k < |input| then input[k] else NUL;
      var needSpace := (!IsPunct(prev) && !IsPunct(right)) || right == '+' || right == '-' || prev == '+'
        || prev == '-';
      BufferEnds(done, lastSpace);
      if needSpace {
        if o == 0 || out[o - 1] != ' ' {
          o' := Put(out, o, ' ');
          lastSpace' := true;
        }
      }
      i' := i + 1;
    }
  }

  /** Look back over the spaces at the end of the buffer. */
  method LastPrinted(out: array<char>, o: nat, ghost done: string, ghost pending: bool) returns (prev: char)
    requires o <= out.Length && Settled(done) && out[..o] == Buffer(done, pending)
    ensures prev == if LastOf(done).Some? then LastOf(done).value else NUL
  {
    prev := NUL;
    assert forall k :: 0 <= k < o ==> out[k] == Buffer(done, pending)[k];
    if o > 0 {
      var p := o;
      while p > 0 && IsSpace(out[p - 1])
        invariant |done| <= p <= o
      {
        p := p - 1;
      }
      if p > 0 {
        prev := out[p - 1];
      }
    }
  }

  /** Take back the spaces at the end of the buffer. */
  method PopSpaces(out: array<char>, o: nat, ghost done: string, ghost pending: bool) returns (o': nat)
    requires o <= out.Length && Settled(done) && out[..o] == Buffer(done, pending)
    ensures o' <= o && out[..o'] == done
  {
    o' := o;
    assert forall k :: 0 <= k < o ==> out[k] == Buffer(done, pending)[k];
    while o' > 0 && (out[o' - 1] == ' ' || out[o' - 1] == '\n' || out[o' - 1] == '\t' || out[o' - 1] == '\r')
      invariant |done| <= o' <= o
    {
      o' := o' - 1;
    }
    assert out[..o'] == out[..o][..o'];
  }

  /** The tests at a space: whether to print one, and where the run of spaces ends. */
  method KeepsSpace(input: string, i: nat, ghost done: string, out: array<char>, o: nat) returns (keeps: bool, k: nat)
    requires o <= i < |input| < out.Length && Settled(done) && out[..o] == done
    ensures i < k <= |input| && From(input, k) == TrimLeft(From(input, i + 1)) && keeps == !DropsHere(done, input, k)
  {
    hide From, IsPunct, TrimLeft, IsSpace, Settled;
    var prev := if o > 0 then out[o - 1] else NUL;
    k := SkipSpaces(input, i + 1);
    var nextNon := if k < |input| then input[k] else NUL;
    assert done != "" ==> prev == done[|done| - 1];
    SettledLast(done);
    if o == 0 || prev == ':' || prev == ',' || prev == ';' || prev == '\n' || prev == '\r' || prev == '\t' {
      return false, k;
    }
    if IsPunct(prev) || IsPunct(nextNon) {
      return false, k;
    }
    keeps := true;
  }

  /** The loop body at a space, when no space is pending. */
  method SpaceChar(input: string, i: nat, ghost done: string, out: array<char>, o: nat)
      returns (i': nat, o': nat, lastSpace: bool)
    requires o <= i < |input| < out.Length && IsSpace(input[i]) && Settled(done) && out[..o] == done
    modifies out
    ensures i <= i' < |input| && o' <= i' + 1
    ensures out[..o'] == Buffer(done, lastSpace)
    ensures Whole(done, input, i' + 1, false, lastSpace) == Whole(done, input, i, false, false)
  {
    hide Whole, From, TrimLeft, IsSpace, Settled, DropsHere;
    var keeps, k := KeepsSpace(input, i, done, out, o);
    SpaceWhole(done, input, i, k);
    if keeps {
      i', o', lastSpace := k - 1, o, true;
      o' := Put(out, o, ' ');
    } else {
      i', o', lastSpace := i, o, false;
    }
  }

  lemma SettledLast(done: string)
    requires Settled(done)
    ensures done != "" ==> var c := done[|done| - 1]; c != '\n' && c != '\r' && c != '\t'
    ensures IsPunct(':') && IsPunct(',') && IsPunct(';')
  {}

  predicate DropsHere(done: string, input: string, k: nat) {
    done == "" || IsPunct(done[|done| - 1]) || IsPunct(if k < |input| then input[k] else NUL)
  }

  /** A space is dropped, or the whole run of spaces becomes a pending space. */
  lemma SpaceWhole(done: string, input: string, i: nat, k: nat)
    requires i < |input| && IsSpace(input[i]) && k <= |input| && From(input, k) == TrimLeft(From(input, i + 1))
    ensures DropsHere(done, input, k) ==> Whole(done, input, i, false, false) == Whole(done, input, i + 1, false, false)
    ensures !DropsHere(done, input, k) ==> Whole(done, input, i, false, false) == Whole(done, input, k, false, true)
  {
    hide IsSpace, IsPunct, TrimLeft, Minified;
    CharIs(input, i);
    NotSlash(input[i]);
    CodeStep(done, input, i, false);
    SpaceRun(From(input, i), LastOf(done), false);
    SpaceStep(input, i);
    NextIs(input, k);
    hide From;
  }

  lemma NotSlash(c: char)
    requires IsSpace(c)
    ensures c != '/'
  {}

  /** The end of the loop body: print a character of the style sheet. */
  method PrintChar(c: char, ghost done: string, lastSpace: bool, out: array<char>, o: nat) returns (o': nat)
    requires o < out.Length && !IsSpace(c) && Settled(done) && out[..o] == Buffer(done, lastSpace)
    modifies out
    ensures o' <= o + 1
    ensures out[..o'] == (if lastSpace && !Swallows(c) then done + " " else done) + [c]
  {
    hide IsSpace, Settled;
    o' := o;
    ghost var pending := lastSpace;
    if c == ':' || c == ';' {
      o' := PopSpaces(out, o, done, lastSpace);
      pending := false;
    }
    BufferEnds(done, pending);
    if lastSpace && (c == '}' || c == '{' || c == ';' || c == ',') {
      if o' > 0 && out[o' - 1] == ' ' {
        o' := o' - 1;
        pending := false;
      }
    }
    o' := Put(out, o', c);
  }

  lemma WholeEnds(done: string, input: string, i: nat, inComment: bool, pending: bool)
    ensures Whole("", input, 0, false, false) == Output(input)
    ensures i >= |input| ==> Whole(done, input, i, inComment, pending) == Buffer(done, pending)
  {
    assert From(input, 0) == input;
    assert i >= |input| ==> From(input, i) == "";
    assert Minified("", inComment, LastOf(done), pending) == if pending then " " else "";
    hide Minified;
  }

  /** cweb_minify_css: the caller's buffer has room for the input and a NUL. */
  method Minify(input: string, out: array<char>) returns (o: nat)
    requires |input| < out.Length
    modifies out
    ensures o <= |input| && out[..o] == Output(input)
  {
    hide Whole, Minified, From, IsSpace, IsPunct, TrimLeft, Swallows, DropsSpace, Output;
    o := 0;
    var inComment, lastSpace := false, false;
    ghost var done := "";
    var i := 0;
    assert out[..o] == "";
    WholeEnds("", input, 0, false, false);
    while i < |input|
      invariant o <= i && o <= |input| && Settled(done) && out[..o] == Buffer(done, lastSpace)
      invariant Whole(done, input, i, inComment, lastSpace) == Output(input)
      decreases |input| - i
    {
      var c := input[i];
      var next := if i + 1 < |input| then input[i + 1] else NUL;
      if inComment {
        i, o, inComment, lastSpace := CommentChar(input, i, done, lastSpace, out, o);
      } else if c == '/' && next == '*' {
        CodeStep(done, input, i, lastSpace);
        inComment := true;
        i := i + 1;
      } else if IsSpace(c) {
        if lastSpace {
          CodeStep(done, input, i, lastSpace);
        } else {
          i, o, lastSpace := SpaceChar(input, i, done, out, o);
        }
      } else {
        CodeStep(done, input, i, lastSpace);
        o := PrintChar(c, done, lastSpace, out, o);
        done := out[..o];
        lastSpace := false;
        assert done[|done| - 1] == c;
      }
      i := i + 1;
    }
    WholeEnds(done, input, i, inComment, lastSpace);
  }
}
