/** The template engine from the text of a template to what its program prints. */
module TemplateTheorem {
  import opened Text
  import opened Ast
  import opened Tags
  import opened Lexer
  import opened LexerTheorems
  import opened TemplateTexts
  import opened Parser
  import opened ParserTheorems
  import opened Codegen
  import opened CodegenTheorems
  import opened CSemantics
  import opened CompilerCorrectness
  import opened CompilerTheorem
  import opened Emitter
  import opened Partition

  /** Reading and compiling the template stays inside every buffer and array: its tokens
      fit the lexer's buffer, and the attributes of its tags the arrays of the code
      generators. */
  ghost predicate InBounds(template: string) {
    TokensFit(template, 0) && AttributesFit(TreeOf(template))
  }

  /** Lex, parse and generate code. */
  method CompileTemplate(template: string) returns (program: Program)
    requires NoNul(template) && InBounds(template)
    ensures program == Compile(TreeOf(template))
  {
    TreeIsC(template);
    hide TreeOf, CTree, AttributesFit, TokensFit;
    var root := ParseTemplate(template);
    program := GenerateCFile(root);
  }

  /** Every template text that stays in bounds, however badly nested, is compiled to a
      program that prints its meaning. Its non-empty leaves, which are its text, code and
      variable tokens in order, are divided between the two functions and printed once. */
  lemma EveryTemplateIsCompiledRight<G>(template: string, sem: Sem<G>, g: G)
    requires InBounds(template)
    ensures var t := TreeOf(template);
            && Run(sem, Compile(t).html, [], g) == Denote(sem, false, t, HtmlView, [], g)
            && (if Compile(t).css.Some?
                then Run(sem, Compile(t).css.value, [], g) == Denote(sem, false, t, CssOutside, [], g)
                else Denote(sem, false, t, CssOutside, [], g) == ("", g))
            && Bare(Leaves(t, PlainHtml)) == NonEmpty(LeafTokens(Tokens(template, 0, CAP)))
            && Payload(Compile(t).html) == Selected(Leaves(t, PlainHtml), false)
            && (if Compile(t).css.Some? then Payload(Compile(t).css.value) == Selected(Leaves(t, PlainHtml), true)
                else Selected(Leaves(t, PlainHtml), true) == [])
  {
    hide Parse, Denote, Run, Payload, Selected, Leaves, HtmlLines, CssLines, HasExternal, AttributesFit, TokensFit;
    var ts := Tokens(template, 0, CAP);
    var t := Parse(ts);
    ParseIsShaped(ts);
    CompilerIsCorrect(sem, t, g);
    LeavesArePartitioned(t);
    LeavesAreFringe(t, PlainHtml);
    ParseKeepsLeaves(ts);
    GateLosesNothing(t);
    NoPayload();
  }

  lemma NoPayload()
    ensures Payload([]) == []
  {}

  // ------------------------------------------------------------------ out of bounds

  lemma {:induction false} TagEndsAt(s: string, p: nat, q: nat, cap: nat)
    requires p <= q < |s| && q - p < cap && ClosesTag(s, q) && forall k :: p <= k < q ==> !ClosesTag(s, k)
    ensures TagBodyEnd(s, p, cap) == q
    decreases q - p
  {
    if p < q {
      TagEndsAt(s, p + 1, q, cap - 1);
    }
  }

  /** The tag of a condition, as a template. */
  function ConditionTag(condition: string): string {
    "<cif condition=\"" + condition + "\"" + ">"
  }

  lemma TagIsLexeme(condition: string)
    requires |condition| < 1000 && '>' !in condition
    ensures var s := ConditionTag(condition);
            && |s| == 18 + |condition|
            && ControlAt(s, 0) && TagBodyEnd(s, 0, CAP) == TagBodyEnd(s, 0, Unlimited(s)) == |s| - 1
            && s[..|s|] == s && ControlKind(s) == CIf && s[|s| - 1] == '>'
  {
    var s := ConditionTag(condition);
    var head := "<cif condition=\"";
    assert |head| == 16 && s[..16] == head && s[16..16 + |condition|] == condition;
    assert s[0..4] == head[0..4] == "<cif";
    assert At(s, 0, "<cif") && !At(s, 0, "<cloop") by {
      assert s[1] == head[1] == 'c' && s[2] == head[2] == 'i';
      if At(s, 0, "<cloop") {
        AtChar(s, 0, "<cloop", 2);
      }
    }
    forall k | 0 <= k < |s| - 1
      ensures s[k] != '>'
    {
      if k < 16 {
        assert s[k] == head[k];
      } else if k < 16 + |condition| {
        assert s[k] == condition[k - 16] && condition[k - 16] in condition;
      }
    }
    TagEndsAt(s, 0, |s| - 1, CAP);
    TagEndsAt(s, 0, |s| - 1, Unlimited(s));
  }

  lemma TagIsTree(condition: string)
    requires |condition| < 1000 && '>' !in condition
    ensures var s := ConditionTag(condition);
            AllFit(s, 0, CAP) && TreeOf(s) == Tree(RootNode, "", [Tree(IfNode, s, [])])
  {
    var s := ConditionTag(condition);
    TagIsLexeme(condition);
    StartsWithAngle(s, 0);
    hide ConditionTag, ControlAt, CodeAt, ControlKind, TagBodyEnd, VariableAt, LineAt, ColumnAt;
    assert !VariableAt(s, 0) by { NoVariable(s); }
    assert LexemeAt(s, 0, CAP) == LexemeAt(s, 0, Unlimited(s)) == Lexeme(CIf, s, |s|);
    hide LexemeAt;
    assert AllFit(s, |s|, CAP);
    OneToken(s);
  }

  lemma NoVariable(s: string)
    requires ControlAt(s, 0)
    ensures !VariableAt(s, 0)
  {
    StartsWithAngle(s, 0);
    hide ControlAt, CodeAt, Inside, LooksLikeVariable;
  }

  lemma OneToken(s: string)
    requires s != "" && LexemeAt(s, 0, CAP) == Lexeme(CIf, s, |s|)
    ensures TreeOf(s) == Tree(RootNode, "", [Tree(IfNode, s, [])])
  {
    var t := TokenAt(s, 0, CAP);
    assert Tokens(s, |s|, CAP) == [];
    assert Tokens(s, 0, CAP) == [t] + [];
    hide LexemeAt, TokenAt, Tokens;
    assert ([t] + [])[1..] == [] && [t] + [] == [t];
    assert ParseUntil([], {CElse, CEndIf}) == ([], []) && ParseUntil([], {}) == ([], []);
    assert ParseCif([t]) == (Tree(IfNode, s, []), []);
    assert ParseElement([t]) == (Some(Tree(IfNode, s, [])), []);
    assert ParseUntil([t], {}) == ([Tree(IfNode, s, [])] + [], []);
  }

  /** A template that fits the lexer's buffer, with a condition of 300 characters that does
      not fit the array of the code generators. */
  lemma LongConditionTemplate()
    ensures var s := ConditionTag(seq(300, _ => 'x')); AllFit(s, 0, CAP) && !InBounds(s)
  {
    var condition := seq(300, _ => 'x');
    TagIsTree(condition);
    LongConditionExample();
    var s := ConditionTag(condition);
    hide TreeOf, AllFit, TokensFit, ConditionFits;
    assert s == "<cif condition=\"" + condition + "\"" + ">";
    var t := Tree(IfNode, s, []);
    assert !AttributesFit(t);
    assert [t][0] == t;
    assert !AllAttributesFit([t]);
  }
}
