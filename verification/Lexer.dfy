/** The template lexer. The specification functions say what token starts at a
    position of the input and where the next one starts; class Lexer is the C
    lexer, whose fields are updated character by character. */
module Lexer {
  import opened Text

  const MAX_BUFFER_SIZE: nat := 8192
  const CAP: nat := MAX_BUFFER_SIZE - 1

  datatype TokenKind =
    | HtmlText | CCode | Variable | CLoop | CIf | CElse | CEndLoop | CEndIf
    | CStyle | CEndStyle | Eof | Error

  datatype Token = Token(kind: TokenKind, value: string, line: nat, column: nat)

  // ---------------------------------------------------------------- positions

  function LineAt(s: string, p: nat): nat
    requires p <= |s|
  {
    if p == 0 then 1 else LineAt(s, p - 1) + if s[p - 1] == '\n' then 1 else 0
  }

  function ColumnAt(s: string, p: nat): nat
    requires p <= |s|
  {
    if p == 0 || s[p - 1] == '\n' then 1 else ColumnAt(s, p - 1) + 1
  }

  // ------------------------------------------------------- what starts a token

  predicate CodeAt(s: string, p: nat) {
    At(s, p, "<%")
  }

  predicate ControlAt(s: string, p: nat) {
    || At(s, p, "<cloop") || At(s, p, "<cif") || At(s, p, "<celse>")
    || At(s, p, "</cloop>") || At(s, p, "</cif>")
    || At(s, p, "<cstyle") || At(s, p, "</cstyle>")
  }

  /** The two kinds of element whose text must not be scanned for variables. */
  datatype Region = StyleRegion | ScriptRegion

  predicate OpensAt(r: Region, s: string, p: nat) {
    match r
    case StyleRegion => At(s, p, "<style") || At(s, p, "<cstyle")
    case ScriptRegion => At(s, p, "<script")
  }

  predicate ClosesAt(r: Region, s: string, p: nat) {
    match r
    case StyleRegion => At(s, p, "</style>") || At(s, p, "</cstyle>")
    case ScriptRegion => At(s, p, "</script>")
  }

  /** Some opening tag before q has no closing tag between it and q. */
  ghost predicate Inside(r: Region, s: string, q: nat) {
    exists p :: 0 <= p < q && OpensAt(r, s, p) && forall c :: p < c < q ==> !ClosesAt(r, s, c)
  }

  /** Position p + k is still looked at when deciding whether `{` starts a variable. */
  predicate Scanned(s: string, p: nat, k: nat) {
    k < 100 && p + k < |s| && '}' !in s[p + 1..p + k + 1]
  }

  predicate VariableHint(s: string, p: nat, k: nat) {
    p + k < |s| && (IsAlnum(s[p + k]) || At(s, p + k, "->"))
  }

  /** One more character of the look-ahead. */
  lemma ScanStep(s: string, p: nat, k: nat)
    requires 1 <= k < 100 && p + k < |s| && s[p + k] != '}' && (k > 1 ==> Scanned(s, p, k - 1))
    ensures Scanned(s, p, k)
    ensures VariableHint(s, p, k) == (IsAlnum(s[p + k]) || (p + k + 1 < |s| && s[p + k] == '-' && s[p + k + 1] == '>'))
  {
    ArrowAt(s, p + k);
    hide At, IsAlnum;
    assert s[p + 1..p + k + 1] == s[p + 1..p + k] + [s[p + k]];
  }

  lemma ScanStops(s: string, p: nat, k: nat)
    requires k >= 1 && (k >= 100 || p + k >= |s| || s[p + k] == '}')
    ensures forall j: nat | k <= j :: !Scanned(s, p, j)
  {
    forall j: nat | k <= j
      ensures !Scanned(s, p, j)
    {
      if j < 100 && p + j < |s| {
        assert s[p + 1..p + j + 1][k - 1] == s[p + k];
      }
    }
  }

  ghost predicate LooksLikeVariable(s: string, p: nat) {
    exists k: nat :: 1 <= k && Scanned(s, p, k) && VariableHint(s, p, k)
  }

  ghost predicate VariableAt(s: string, p: nat) {
    && p < |s| && s[p] == '{'
    && !Inside(StyleRegion, s, p) && !Inside(ScriptRegion, s, p)
    && LooksLikeVariable(s, p)
  }

  /** Text stops at p: the break tests look at the input and the position only. */
  ghost predicate BreakAt(s: string, p: nat) {
    CodeAt(s, p) || ControlAt(s, p) || VariableAt(s, p)
  }

  // -------------------------------------------------------------- token extents
  // `cap` is the number of characters the buffer takes.

  ghost function HtmlEnd(s: string, p: nat, cap: nat): (q: nat)
    requires p <= |s|
    ensures p <= q <= |s|
    decreases |s| - p
  {
    if p == |s| || cap == 0 || BreakAt(s, p) then p else HtmlEnd(s, p + 1, cap - 1)
  }

  function CodeBodyEnd(s: string, p: nat, cap: nat): (q: nat)
    requires p <= |s|
    ensures p <= q <= |s| && q <= p + cap
    decreases |s| - p
  {
    if p == |s| || cap == 0 || At(s, p, "%>") then p else CodeBodyEnd(s, p + 1, cap - 1)
  }

  function VariableBodyEnd(s: string, p: nat, cap: nat): (q: nat)
    requires p <= |s|
    ensures p <= q <= |s| && q <= p + cap
    decreases |s| - p
  {
    if p == |s| || cap == 0 || s[p] == '}' then p else VariableBodyEnd(s, p + 1, cap - 1)
  }

  /** A `>` that does not belong to an arrow `->`. */
  predicate ClosesTag(s: string, p: nat) {
    p < |s| && s[p] == '>' && (p == 0 || s[p - 1] != '-')
  }

  function TagBodyEnd(s: string, p: nat, cap: nat): (q: nat)
    requires p <= |s|
    ensures p <= q <= |s| && q <= p + cap
    decreases |s| - p
  {
    if p == |s| || cap == 0 || ClosesTag(s, p) then p else TagBodyEnd(s, p + 1, cap - 1)
  }

  const FORBIDDEN_IN_C: seq<string> := [
    "system(", "exec(", "popen(", "fork(",
    "unlink(", "remove(", "rmdir(",
    "#include", "#define", "#pragma"]

  predicate SafeCode(code: string) {
    forall i :: 0 <= i < |FORBIDDEN_IN_C| ==> !Contains(code, FORBIDDEN_IN_C[i])
  }

  function ControlKind(tag: string): TokenKind {
    if At(tag, 0, "<cloop") then CLoop
    else if At(tag, 0, "<cif") then CIf
    else if At(tag, 0, "<celse>") then CElse
    else if At(tag, 0, "</cloop>") then CEndLoop
    else if At(tag, 0, "</cif>") then CEndIf
    else if At(tag, 0, "<cstyle") then CStyle
    else if At(tag, 0, "</cstyle>") then CEndStyle
    else Error
  }

  /** Kind and value of a token, and the position after it. */
  datatype Lexeme = Lexeme(kind: TokenKind, value: string, next: nat)

  function CodeLexeme(s: string, p: nat, cap: nat): (x: Lexeme)
    requires CodeAt(s, p)
    ensures p < x.next <= |s|
  {
    var q := CodeBodyEnd(s, p + 2, cap);
    var body := s[p + 2..q];
    // the closing %> is consumed only when the buffer still had room
    var next := if q < p + 2 + cap && At(s, q, "%>") then q + 2 else q;
    if SafeCode(body) then Lexeme(CCode, body, next) else Lexeme(Error, "Invalid C code detected", next)
  }

  function VariableLexeme(s: string, p: nat, cap: nat): (x: Lexeme)
    requires p < |s|
    ensures p < x.next <= |s|
  {
    var q := VariableBodyEnd(s, p + 1, cap);
    Lexeme(Variable, Trim(s[p + 1..q]), if q < |s| && s[q] == '}' then q + 1 else q)
  }

  function ControlLexeme(s: string, p: nat, cap: nat): (x: Lexeme)
    requires ControlAt(s, p) && 0 < cap
    ensures p < x.next <= |s|
  {
    var q := TagBodyEnd(s, p, cap);
    var next := if q < |s| && s[q] == '>' then q + 1 else q;
    Lexeme(ControlKind(s[p..next]), s[p..next], next)
  }

  ghost function HtmlLexeme(s: string, p: nat, cap: nat): (x: Lexeme)
    requires p < |s| && 0 < cap && !BreakAt(s, p)
    ensures p < x.next <= |s|
  {
    var q := HtmlEnd(s, p, cap);
    Lexeme(HtmlText, s[p..q], q)
  }

  ghost function LexemeAt(s: string, p: nat, cap: nat): (x: Lexeme)
    requires p < |s| && 0 < cap
    ensures p < x.next <= |s|
  {
    if CodeAt(s, p) then CodeLexeme(s, p, cap)
    else if ControlAt(s, p) then ControlLexeme(s, p, cap)
    else if VariableAt(s, p) then VariableLexeme(s, p, cap)
    else HtmlLexeme(s, p, cap)
  }

  ghost function TokenAt(s: string, p: nat, cap: nat): Token
    requires p <= |s| && 0 < cap
  {
    if p == |s| then Token(Eof, "", LineAt(s, p), ColumnAt(s, p))
    else var x := LexemeAt(s, p, cap); Token(x.kind, x.value, LineAt(s, p), ColumnAt(s, p))
  }

  /** The tokens from position p to the end of the input, without the final EOF. */
  ghost function Tokens(s: string, p: nat, cap: nat): seq<Token>
    requires p <= |s| && 0 < cap
    decreases |s| - p
  {
    if p == |s| then [] else [TokenAt(s, p, cap)] + Tokens(s, LexemeAt(s, p, cap).next, cap)
  }

  /** The one-pass form of the rescans in is_inside_style_tag and is_inside_script_tag. */
  function InsideFlag(r: Region, s: string, q: nat): bool {
    if q == 0 then false
    else if OpensAt(r, s, q - 1) then true
    else if ClosesAt(r, s, q - 1) then false
    else InsideFlag(r, s, q - 1)
  }

  // ------------------------------------------------------------------ the lexer

  class Lexer {
    const input: string
    var position: nat
    var line: nat
    var column: nat

    ghost predicate Valid()
      reads this
    {
      && NoNul(input)
      && position <= |input|
      && line == LineAt(input, position)
      && column == ColumnAt(input, position)
    }

    constructor (input: string)
      requires NoNul(input)
      ensures Valid() && this.input == input && position == 0
    {
      this.input := input;
      position, line, column := 0, 1, 1;
    }

    function Peek(): (c: char)
      requires Valid()
      reads this
      ensures (c == NUL) == (position == |input|)
      ensures position < |input| ==> c == input[position]
    {
      if position >= |input| then NUL else assert input[position] in input; input[position]
    }

    function PeekAhead(offset: nat): (c: char)
      requires Valid()
      reads this
      ensures (c == NUL) == (position + offset >= |input|)
      ensures position + offset < |input| ==> c == input[position + offset]
    {
      if position + offset >= |input| then NUL
      else assert input[position + offset] in input; input[position + offset]
    }

    function PeekBack(offset: nat): char
      requires Valid() && (position == |input| ==> 0 < offset)
      reads this
    {
      if position < offset then NUL else input[position - offset]
    }

    /** lexer_advance; at the end of the input it returns NUL and nothing moves. */
    method Advance() returns (c: char)
      requires Valid()
      modifies this
      ensures Valid() && c == old(Peek())
      ensures position == old(position) + if old(position) < |input| then 1 else 0
    {
      if position >= |input| {
        return NUL;
      }
      assert input[position] in input;
      c := input[position];
      position := position + 1;
      if c == '\n' {
        line := line + 1;
        column := 1;
      } else {
        column := column + 1;
      }
    }

    /** is_inside_style_tag and is_inside_script_tag: rescan the whole prefix. */
    method IsInside(r: Region) returns (inside: bool)
      requires Valid()
      ensures inside == Inside(r, input, position)
    {
      var open: Option<nat>, close: Option<nat> := None, None;
      hide OpensAt, ClosesAt;
      var p := 0;
      while p < position
        invariant p <= position
        invariant open.None? ==> forall k :: 0 <= k < p ==> !OpensAt(r, input, k)
        invariant open.Some? ==> open.value < p && OpensAt(r, input, open.value)
        invariant open.Some? ==> forall k :: open.value < k < p ==> !OpensAt(r, input, k)
        invariant close.None? ==> forall k :: 0 <= k < p ==> !ClosesAt(r, input, k)
        invariant close.Some? ==> close.value < p && ClosesAt(r, input, close.value)
        invariant close.Some? ==> forall k :: close.value < k < p ==> !ClosesAt(r, input, k)
      {
        if OpensAt(r, input, p) {
          open := Some(p);
        }
        if ClosesAt(r, input, p) {
          close := Some(p);
        }
        p := p + 1;
      }
      inside := open.Some? && (close.None? || open.value > close.value);
      if open.Some? {
        OpenIsNotClose(r, input, open.value);
      }
    }

    /** The lookahead loop that decides whether `{` starts a variable. */
    method ScanForVariable() returns (looks: bool)
      requires Valid() && Peek() == '{'
      ensures looks == LooksLikeVariable(input, position)
    {
      hide Scanned, VariableHint, IsAlnum;
      looks := false;
      var k: nat := 1;
      while PeekAhead(k) != NUL && PeekAhead(k) != '}' && k < 100
        invariant 1 <= k <= 100
        invariant forall j :: 1 <= j < k ==> Scanned(input, position, j)
        invariant looks == exists j: nat :: 1 <= j < k && VariableHint(input, position, j)
        decreases 100 - k
      {
        ScanStep(input, position, k);
        if PeekAhead(k) == '-' && PeekAhead(k + 1) == '>' {
          return true;
        }
        if IsAlnum(PeekAhead(k)) {
          looks := true;
        }
        k := k + 1;
      }
      ScanStops(input, position, k);
    }

    method AtBreak() returns (b: bool)
      requires Valid() && position < |input|
      ensures b == BreakAt(input, position)
    {
      hide Inside, LooksLikeVariable;
      StartsWithAngle(input, position);
      hide CodeAt, ControlAt;
      var c := Peek();
      if c == '<' && PeekAhead(1) == '%' {
        return true;
      }
      if c == '<' && ControlAt(input, position) {
        return true;
      }
      if c == '{' {
        var style := IsInside(StyleRegion);
        var script := IsInside(ScriptRegion);
        if !style && !script {
          var looks := ScanForVariable();
          return looks;
        }
      }
      return false;
    }

    /** t is the token of lexeme x that began at position p, and x has been consumed. */
    ghost predicate Returned(t: Token, x: Lexeme, p: nat)
      requires p <= |input|
      reads this
    {
      t == Token(x.kind, x.value, LineAt(input, p), ColumnAt(input, p)) && position == x.next
    }

    method ReadHtml() returns (t: Token)
      requires Valid() && position < |input| && !BreakAt(input, position)
      modifies this
      ensures Valid() && Returned(t, HtmlLexeme(input, old(position), CAP), old(position))
    {
      hide NoNul, Peek, PeekAhead, At, CodeAt, ControlAt, VariableAt, LineAt, ColumnAt;
      var buffer, pos := new char[MAX_BUFFER_SIZE], 0;
      ghost var start := position;
      var startLine, startColumn := line, column;
      while Peek() != NUL && pos < MAX_BUFFER_SIZE - 1
        invariant Valid() && start <= position
        invariant 0 <= pos <= CAP && buffer[..pos] == input[start..position]
        invariant HtmlEnd(input, start, CAP) == HtmlEnd(input, position, CAP - pos)
        decreases |input| - position
      {
        OneLonger(input, start, position);
        hide BreakAt;
        var stop := AtBreak();
        if stop {
          break;
        }
        var c := Advance();
        pos := Put(buffer, pos, c);
      }
      buffer[pos] := NUL;
      t := if pos == 0 then Token(Eof, "", startLine, startColumn)
           else Token(HtmlText, buffer[..pos], startLine, startColumn);
    }

    /** The loop of lexer_read_c_code: fill the buffer and skip the end mark, if it is reached. */
    method ReadCodeBody(buffer: array<char>) returns (pos: nat)
      requires Valid() && buffer.Length == MAX_BUFFER_SIZE
      modifies this, buffer
      ensures Valid() && pos < buffer.Length
      ensures var start := old(position);
              var q := CodeBodyEnd(input, start, CAP);
              && buffer[..pos] == input[start..q]
              && position == if q < start + CAP && At(input, q, "%>") then q + 2 else q
    {
      hide NoNul, Peek, PeekAhead, At, LineAt, ColumnAt;
      pos := 0;
      ghost var start := position;
      while Peek() != NUL && pos < MAX_BUFFER_SIZE - 1
        invariant Valid() && start <= position
        invariant pos <= CAP && buffer[..pos] == input[start..position]
        invariant CodeBodyEnd(input, start, CAP) == CodeBodyEnd(input, position, CAP - pos)
        decreases |input| - position
      {
        PercentAt(input, position);
        if Peek() == '%' && PeekAhead(1) == '>' {
          var _ := Advance();
          var _ := Advance();
          return;
        }
        OneLonger(input, start, position);
        var c := Advance();
        pos := Put(buffer, pos, c);
      }
      PercentAt(input, position);
    }

    method ReadCCode() returns (t: Token)
      requires Valid() && CodeAt(input, position)
      modifies this
      ensures Valid() && Returned(t, CodeLexeme(input, old(position), CAP), old(position))
    {
      StartsWithAngle(input, position);
      hide NoNul, At, CodeAt, LineAt, ColumnAt, SafeCode, CodeBodyEnd;
      var buffer := new char[MAX_BUFFER_SIZE];
      var startLine, startColumn := line, column;
      var _ := Advance();
      var _ := Advance();
      var pos := ReadCodeBody(buffer);
      ghost var code := buffer[..pos];
      buffer[pos] := NUL;
      assert buffer[..pos] == code;
      t := if SafeCode(buffer[..pos]) then Token(CCode, buffer[..pos], startLine, startColumn)
           else Token(Error, "Invalid C code detected", startLine, startColumn);
    }

    /** The loop of lexer_read_variable that fills the buffer. */
    method ReadVariableBody(buffer: array<char>) returns (pos: nat)
      requires Valid() && buffer.Length == MAX_BUFFER_SIZE
      modifies this, buffer
      ensures Valid() && position == old(VariableBodyEnd(input, position, CAP))
      ensures pos < buffer.Length && buffer[..pos] == input[old(position)..position]
    {
      hide NoNul, LineAt, ColumnAt;
      pos := 0;
      ghost var start := position;
      while Peek() != NUL && Peek() != '}' && pos < MAX_BUFFER_SIZE - 1
        invariant Valid() && start <= position
        invariant pos <= CAP && buffer[..pos] == input[start..position]
        invariant VariableBodyEnd(input, start, CAP) == VariableBodyEnd(input, position, CAP - pos)
        decreases |input| - position
      {
        var c := Advance();
        pos := Put(buffer, pos, c);
      }
    }

    method ReadVariable() returns (t: Token)
      requires Valid() && VariableAt(input, position)
      modifies this
      ensures Valid() && Returned(t, VariableLexeme(input, old(position), CAP), old(position))
    {
      hide LooksLikeVariable, Inside, NoNul, LineAt, ColumnAt, VariableBodyEnd, Trim;
      var buffer := new char[MAX_BUFFER_SIZE];
      var startLine, startColumn := line, column;
      var _ := Advance();
      var pos := ReadVariableBody(buffer);
      if Peek() == '}' {
        var _ := Advance();
      }
      buffer[pos] := NUL;
      t := Token(Variable, Trim(buffer[..pos]), startLine, startColumn);
    }

    /** is_inside_tag_condition: -1 at the end of input, 0 at the closing `>`, else 1. */
    function InsideTagCondition(): (r: int)
      requires Valid()
      reads this
      ensures (r > 0) == (position < |input| && !ClosesTag(input, position))
    {
      if Peek() == NUL then -1
      else if Peek() == '>' && PeekBack(1) == '-' then 1
      else if Peek() == '>' && PeekBack(1) != '-' then 0
      else 1
    }

    /** The loop of lexer_read_control_tag, with the closing bracket. */
    method ReadTagBody(buffer: array<char>) returns (pos: nat)
      requires Valid() && buffer.Length == MAX_BUFFER_SIZE
      modifies this, buffer
      ensures Valid() && pos <= buffer.Length
      ensures var start := old(position);
              var q := TagBodyEnd(input, start, CAP);
              && position == (if q < |input| && input[q] == '>' then q + 1 else q)
              && buffer[..pos] == input[start..position]
    {
      hide NoNul, Peek, At, LineAt, ColumnAt;
      pos := 0;
      ghost var start := position;
      while Peek() != NUL && InsideTagCondition() > 0 && pos < MAX_BUFFER_SIZE - 1
        invariant Valid() && start <= position
        invariant pos <= CAP && buffer[..pos] == input[start..position]
        invariant TagBodyEnd(input, start, CAP) == TagBodyEnd(input, position, CAP - pos)
        decreases |input| - position
      {
        OneLonger(input, start, position);
        var c := Advance();
        pos := Put(buffer, pos, c);
      }
      if Peek() == '>' {
        OneLonger(input, start, position);
        var c := Advance();
        pos := Put(buffer, pos, c);
      }
    }

    /** lexer_read_control_tag. The last write of the C code, of the NUL behind the text,
        is left out where the text has filled the buffer: there it is out of bounds. */
    method ReadControlTag() returns (t: Token)
      requires Valid() && ControlAt(input, position)
      modifies this
      ensures Valid() && Returned(t, ControlLexeme(input, old(position), CAP), old(position))
    {
      hide NoNul, At, ControlAt, LineAt, ColumnAt, ControlKind, TagBodyEnd;
      var buffer := new char[MAX_BUFFER_SIZE];
      var startLine, startColumn := line, column;
      var pos := ReadTagBody(buffer);
      ghost var text := buffer[..pos];
      if pos < buffer.Length {
        buffer[pos] := NUL;
      }
      assert buffer[..pos] == text;
      t := Token(ControlKind(buffer[..pos]), buffer[..pos], startLine, startColumn);
    }

    method NextToken() returns (t: Token)
      requires Valid()
      modifies this
      ensures Valid() && t == old(TokenAt(input, position, CAP))
      ensures position == if old(position) == |input| then |input| else old(LexemeAt(input, position, CAP).next)
    {
      if position >= |input| {
        return Token(Eof, "", line, column);
      }
      hide Inside, LooksLikeVariable, LexemeAt;
      StartsWithAngle(input, position);
      hide CodeAt, ControlAt;
      var c := Peek();
      if c == '<' && PeekAhead(1) == '%' {
        t := ReadCCode();
        return;
      }
      if c == '<' && ControlAt(input, position) {
        t := ReadControlTag();
        return;
      }
      if c == '{' {
        var style := IsInside(StyleRegion);
        var script := IsInside(ScriptRegion);
        if !style && !script {
          var looks := ScanForVariable();
          if looks {
            t := ReadVariable();
            return;
          }
        }
      }
      t := ReadHtml();
    }
  }

  // ---------------------------------------------------------------- small facts

  lemma OneLonger(s: string, i: nat, j: nat)
    requires i <= j <= |s|
    ensures j < |s| ==> s[i..j + 1] == s[i..j] + [s[j]]
  {}

  lemma OpenIsNotClose(r: Region, s: string, p: nat)
    requires OpensAt(r, s, p)
    ensures !ClosesAt(r, s, p)
  {
    var opening := if r == ScriptRegion then "<script" else if At(s, p, "<style") then "<style" else "<cstyle";
    AtChar(s, p, opening, 1);
    if ClosesAt(r, s, p) {
      var closing := if r == ScriptRegion then "</script>"
                     else if At(s, p, "</style>") then "</style>" else "</cstyle>";
      AtChar(s, p, closing, 1);
    }
  }

  lemma ArrowAt(s: string, p: nat)
    ensures At(s, p, "->") == (p + 1 < |s| && s[p] == '-' && s[p + 1] == '>')
  {
    if p + 1 < |s| {
      assert s[p..p + 2] == [s[p], s[p + 1]];
    }
  }

  lemma PercentAt(s: string, p: nat)
    ensures At(s, p, "%>") == (p + 1 < |s| && s[p] == '%' && s[p + 1] == '>')
  {
    if p + 1 < |s| {
      assert s[p..p + 2] == [s[p], s[p + 1]];
    }
  }

  /** The control tag that stands at p, as the literal the lexer compared with. */
  function ControlWord(s: string, p: nat): (w: string)
    requires ControlAt(s, p)
    ensures At(s, p, w) && 4 <= |w| && w[0] == '<' && (w[1] == 'c' || w[1] == '/')
  {
    if At(s, p, "<cloop") then "<cloop" else if At(s, p, "<cif") then "<cif"
    else if At(s, p, "<celse>") then "<celse>" else if At(s, p, "</cloop>") then "</cloop>"
    else if At(s, p, "</cif>") then "</cif>" else if At(s, p, "<cstyle") then "<cstyle" else "</cstyle>"
  }

  lemma StartsWithAngle(s: string, p: nat)
    ensures CodeAt(s, p) == (p + 1 < |s| && s[p] == '<' && s[p + 1] == '%')
    ensures ControlAt(s, p) ==> p + 1 < |s| && s[p] == '<' && !CodeAt(s, p)
  {
    if p + 1 < |s| {
      assert s[p..p + 2] == [s[p], s[p + 1]];
    }
    if ControlAt(s, p) {
      var w := ControlWord(s, p);
      hide ControlAt;
      AtChar(s, p, w, 0);
      AtChar(s, p, w, 1);
    }
  }
}
