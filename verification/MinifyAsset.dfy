/** Choosing a minifier by content type, and the buffer it runs in. */
module MinifyAsset {
  import opened Text
  import opened Weave
  import MinifyHtml
  import MinifyHtmlContent
  import MinifyCss
  import MinifyCssContent
  import MinifyJs
  import MinifyJsContent

  datatype Kind = Plain | Html | Css | Js

  /** detect_minify_kind */
  function KindOf(contentType: string): Kind {
    var t := LowerAll(contentType);
    if Contains(t, "text/html") || Contains(t, "application/xhtml") then Html
    else if Contains(t, "text/css") then Css
    else if Contains(t, "javascript") then Js
    else Plain
  }

  /** The word stands at position k of a content type, in letters of either case. */
  predicate Named(contentType: string, k: nat, word: string) {
    k + |word| <= |contentType| && AnyCase(contentType[k..k + |word|], word)
  }

  ghost predicate Names(contentType: string, word: string) {
    exists k: nat :: Named(contentType, k, word)
  }

  lemma NamedIs(contentType: string, k: nat, word: string)
    requires forall i :: 0 <= i < |word| ==> !('A' <= word[i] <= 'Z')
    ensures Named(contentType, k, word) <==> At(LowerAll(contentType), k, word)
  {
    if k + |word| <= |contentType| {
      var part := contentType[k..k + |word|];
      LowerIs(part, word);
      assert LowerAll(contentType)[k..k + |word|] == LowerAll(part);
    }
  }

  lemma NamesIs(contentType: string, word: string)
    requires forall i :: 0 <= i < |word| ==> !('A' <= word[i] <= 'Z')
    ensures Names(contentType, word) <==> Contains(LowerAll(contentType), word)
  {
    ContainsIff(LowerAll(contentType), word);
    forall k: nat
      ensures Named(contentType, k, word) <==> At(LowerAll(contentType), k, word)
    {
      NamedIs(contentType, k, word);
    }
    hide Named, At, Contains;
  }

  /** Which minifier a content type gets, whatever its case and its parameters. */
  lemma KindIs(contentType: string)
    ensures KindOf(contentType)
            == if Names(contentType, "text/html") || Names(contentType, "application/xhtml") then Html
               else if Names(contentType, "text/css") then Css
               else if Names(contentType, "javascript") then Js
               else Plain
  {
    NamesIs(contentType, "text/html");
    NamesIs(contentType, "application/xhtml");
    NamesIs(contentType, "text/css");
    NamesIs(contentType, "javascript");
    hide Names, Contains, LowerAll;
  }

  function Minified(input: string, kind: Kind): string {
    match kind
    case Html => MinifyHtml.Output(input)
    case Css => MinifyCss.Output(input)
    case Js => MinifyJs.Output(input)
    case Plain => input
  }

  /** An asset that minifies to nothing is kept as it is. */
  function Asset(input: string, kind: Kind): string {
    var out := Minified(input, kind);
    if out == "" then input else out
  }

  /** minify_copy */
  method Copy(input: string, out: array<char>) returns (o: nat)
    requires |input| < out.Length
    modifies out
    ensures o == |input| && out[..o] == input
  {
    o := 0;
    while o < |input|
      invariant o <= |input| && out[..o] == input[..o]
    {
      out[o] := input[o];
      o := o + 1;
    }
  }

  /** cweb_minify_asset: a buffer of one byte more than the input holds every result and
      its NUL. */
  method Minify(input: string, contentType: string) returns (output: array<char>, produced: nat)
    requires input != ""
    ensures fresh(output) && output.Length == |input| + 1
    ensures produced < output.Length && output[..produced] == Asset(input, KindOf(contentType))
            && output[produced] == NUL
  {
    hide KindOf, MinifyHtml.Output, MinifyCss.Output, MinifyJs.Output;
    output := new char[|input| + 1];
    match KindOf(contentType) {
      case Html => produced := MinifyHtml.Minify(input, output);
      case Css => produced := MinifyCss.Minify(input, output);
      case Js => produced := MinifyJs.Minify(input, output);
      case Plain => produced := Copy(input, output);
    }
    if produced == 0 {
      produced := Copy(input, output);
    }
    output[produced] := NUL;
  }

  /** The kept text of an asset, by its kind. */
  function KeptText(input: string, kind: Kind): string {
    match kind
    case Html => Kept(MinifyHtmlContent.Cut(input, 0))
    case Css => Kept(MinifyCssContent.Cut(input))
    case Js => Kept(MinifyJsContent.Cut(input, MinifyJs.Code, NUL))
    case Plain => input
  }

  lemma NothingMinified(kind: Kind)
    ensures Minified("", kind) == ""
  {}

  /** Whatever the kind, an asset is sent with every visible character of its text, and
      with nothing else; or as it is, which only an empty asset may lose by. */
  lemma AssetKeepsText(input: string, kind: Kind)
    requires kind == Js ==> NoNul(input)
    ensures Asset(input, kind) == "" <==> input == ""
    ensures Asset(input, kind) == input || Visible(Asset(input, kind)) == Visible(KeptText(input, kind))
  {
    NothingMinified(kind);
    hide MinifyHtml.Output, MinifyCss.Output, MinifyJs.Output, Visible, Kept;
    if kind == Html {
      MinifyHtmlContent.VisibleTextSurvives(input);
    } else if kind == Css {
      MinifyCssContent.VisibleTextSurvives(input);
    } else if kind == Js {
      MinifyJsContent.VisibleTextSurvives(input);
    }
  }
}
