# Verification of CWeb

This project models the parts of CWeb that transform text or run as protocols, and
proves what they are for. `dafny verify dfyconfig.toml` checks all of it.

**The template compiler** (`Lexer`, `Parser`, `Tags`, `TagParser`, `Codegen`, `Emitter`,
and the modules named after their theorems). The lexer and the parser are classes whose
loops are proved against a token stream and a grammar that are defined on the text
alone, and fill buffers of 8192 bytes; `ParserStack` shows that the grammar builds what
one pass with a stack of open elements builds. The parser and the two code generating
walks work on heap nodes, and the walks cut the text of variable nodes in place as the C
code does.
A generated function is a list of lines; `CSemantics` reads lines as C statements and
runs them. A C expression is an opaque function of the program state that yields a value
of the type its place asks for, and `<% %>` blocks are opaque functions that change the
state; a loop counts with `size_t`. `Values` says which text `snprintf` and `strftime`
make of a value, and `VariableOutput` what the lines of a variable print through their
arrays. `CompilerCorrectness` gives every template node a meaning, and `CompilerTheorem`
states that the generated functions print it, and when they print it whole.
`TemplateTheorem` says so of template texts that stay inside every buffer and array.
`TemplateRoundTrip` writes trees as text with literal tags and reads them back, and
`TemplatePages` goes from parts written in literal tags and types to the page, with no
word of how tags are read.
`Execution` runs generated functions against the output buffer of `Runtime`, and
`Rendering` goes from the text of a template to the returned page.

**The minifiers** (`MinifyHtml`, `MinifyCss`, `MinifyJs`, `MinifyAsset`). Each loop runs
over a caller's array and is proved against a function of the text still to be read. For
CSS that function never prints a space it would take back. `Weave` says what a minifier
may do: the input is cut into kept pieces and gaps, every kept piece is printed as it is
and in order, and a gap becomes at most one separator. Each minifier is proved to do so,
for pieces whose gaps are exactly the comments and space runs. HTML minifying is
idempotent, `MinifyHtmlElements` says by the name of an element what becomes of its text,
and `MinifyHtmlPreserved` when preserved text is copied; CSS and
JavaScript minifying never join two words, while JavaScript operators are joined.

**The response queue** (`Pending`, `PendingRuns`). The linked list is unlinked in place,
and each operation is proved against a step on the list of its entries. The runs let
connections, requests, finished work, disconnects, ticks and cleanup come in any order,
and let an address be used again by a later connection.

**The database driver and the aggregator** (`MariaDb`, `MariaDbRuns`, `Aggregator`,
`QueryCompletion`). The client library may answer anything. The driver loop is proved to
follow a machine that reads one answer at a time, and that machine to agree with a query
on a library that never waits. The aggregator counts outstanding operations, and
`QueryCompletion` joins it to the driver.

**The file cache and the file server** (`CacheImage`, `FileServer`, and their theorems).
Saving and loading work through files with short reads and writes. `FileServerAgreement`
says when the memory-first server answers as the file system does, for any cache and for
caches built from any directory tree, and `FileServerModes` when the other two modes do.

**Routing and paths** (`Routing`, `PathUtils`, `PathTheorems`). The route table and the
path normalisation are arrays changed in place.

Text is a sequence of characters, one for each byte. Memory allocation succeeds. Ghost
fields record the calls, callbacks and frees of a protocol.

## Where the code differs from what one expects

Each of these is kept in the model as the code has it. A member says exactly when the
expected behaviour holds, and an example shows that it can fail:

- a variable's type is searched anywhere in its text (`VariableTheorems.FormattedByOwnTypeIff`, `MisreadExample`);
- a real number is cut to 31 characters (`VariableOutput.PrintedWholeIff`, `LargeNumberIsCut`);
- a control tag with 8191 characters before its closing bracket makes the lexer write one byte behind its buffer (`LexerTheorems.TokenFitsIff`, `TagOverrunExample`);
- a condition keeps the backslashes before its quotes, so one with a string literal cannot be written (`Tags.ExpressibleIff`, `QuotesStayEscaped`, `StringLiteralExample`);
- a condition or loop attribute of 256 characters, or an item name of 64, overruns the array it is copied to (`TagParser.ParseCifCondition`, `ParseCloopParams`, `Tags.LongConditionExample`, `TemplateTheorem.LongConditionTemplate`);
- the gate that generates a CSS function can open for an empty one (`CodegenTheorems.EmptyCssFunctionIff`, `GateOpensForNothing`);
- inside a preserved element the spaces of a closing tag are collapsed (`MinifyHtmlPreserved.PreservedTextIsCopiedIff`, `ClosingTagExample`);
- JavaScript operators with spaces between them are joined (`MinifyJsContent.BlankKeptIff`, `CommentKeptIff`, `JoinedOperatorsExample`);
- a cached file larger than the limit at loading uses up a slot that is not counted (`CacheImageTheorems.SaveLoadRoundTrip`, `LowerLimitExample`);
- a cache key is cut to 255 characters (`FileServerAgreement.BuiltServerAgreesIff`, `LongKeyExample`);
- the memory and file system modes use the path as it came, without the lookup prefix removed (`FileServerModes.MemoryModeAgreesIff`, `FilesystemModeAgreesIff`, `DefaultPrefixExample`);
- completion can be reported before a later operation is started (`Aggregator.CompletionSeesIff`, `CompletionCanBeEarly`), and is not checked after a refused start (`CompletesIffAccepted`, `RefusedStartsNeverComplete`);
- splitting a path reads the rest of an over-long last segment, which a slash at the end prevents (`PathTheorems.NormalizeKeepsSplit`, `LongSegmentExample`).

The guard of the HTML escaper wraps around for the empty input, where nothing is to be
done (`Escape.EscapeHtml`).

## Model

| member | source | states |
|---|---|---|
| Lexer.Lexer.Advance | framework/src/templatengine/lexer.c:57-71 | one character is consumed and line and column stay those of the consumed prefix; at the end the answer is NUL and nothing moves |
| Lexer.Lexer.IsInside | framework/src/templatengine/lexer.c:92-124 | the rescan of the prefix answers whether the last opening of a style or script region is still open |
| Lexer.Lexer.ScanForVariable | framework/src/templatengine/lexer.c:126-194 | a brace starts a variable exactly when an arrow or an alphanumeric character comes within 100 characters and before the closing brace |
| Lexer.Lexer.ReadHtml | framework/src/templatengine/lexer.c:126-194 | the HTML token ends at the first position where a tag, code block or variable breaks it, or at the buffer size |
| Lexer.Lexer.ReadCCode | framework/src/templatengine/lexer.c:196-234 | the code token is the text up to its end mark, or an error when the code is refused |
| Lexer.Lexer.ReadVariable | framework/src/templatengine/lexer.c:236-269 | the variable token is the text between the braces |
| Lexer.Lexer.ReadControlTag | framework/src/templatengine/lexer.c:287-329 | the control tag token runs up to its closing bracket and has the kind of its first word; every write but the last NUL of an over-long tag is inside the buffer |
| Lexer.Lexer.NextToken | framework/src/templatengine/lexer.c:331-382 | each call returns the next token of the stream that is defined on the input alone, with the position where it starts |
| LexerTheorems.EofOnlyAtEnd | framework/src/templatengine/lexer.c:331-382 | the end token comes exactly at the end of the input, and every other token makes progress |
| LexerTheorems.ErrorIsUnsafeCode | framework/src/templatengine/security.c:72-90 | an error token is returned exactly for a code block in which one of the ten forbidden words stands somewhere |
| LexerTheorems.TokensTileInput | framework/src/templatengine/lexer.c:331-382 | the spans the tokens were read from are the input, with no gap and no overlap, and each token holds its span |
| LexerTheorems.LineAndColumn | framework/src/templatengine/lexer.c:57-71 | line is one plus the newlines of the consumed prefix, column one plus its characters behind the last newline |
| LexerTheorems.RescanIsOnePass | framework/src/templatengine/lexer.c:92-124 | rescanning the prefix at every tag gives what a single flag carried along would give |
| LexerTheorems.TokenFitsIff | framework/src/templatengine/lexer.c:287-329 | a token and its NUL fit the buffer of 8192 bytes, except exactly for a control tag whose closing bracket comes behind 8191 characters |
| LexerTheorems.TagOverrunExample | framework/src/templatengine/lexer.c:287-329 | such a tag |
| LexerTheorems.FittingTokensStayInside | framework/src/templatengine/lexer.c:287-329 | in a template whose tags, variables and code blocks fit, every token and its NUL fit the buffer |
| LexerTheorems.ChunkIndependence | framework/src/templatengine/lexer.c:126-194 | when every tag, variable and code block fits the buffer, merging adjacent HTML tokens gives the stream of a lexer without a buffer limit |
| Parser.Parser.Advance | framework/src/templatengine/parser.c:45-52 | the current token and the remaining tokens move on by one; at the end of the input nothing remains |
| Parser.Parser.ParseLoop | framework/src/templatengine/parser.c:82-109 | the heap node built for a cloop has the tree the grammar gives, and the tokens behind it remain |
| Parser.Parser.ParseStyle | framework/src/templatengine/parser.c:56-80 | the same for cstyle |
| Parser.Parser.ParseIf | framework/src/templatengine/parser.c:111-158 | the same for cif with its optional celse |
| Parser.Parser.ParseOne | framework/src/templatengine/parser.c:160-222 | the same for any element; a stray closing tag gives no node and is consumed |
| Parser.Parser.ParseAll | framework/src/templatengine/parser.c:224-235 | parsing ends for every token stream and gives the tree of all of it |
| Parser.ParseTemplate | framework/src/templatengine/parser.c:224-235 | the template text becomes the heap tree of its token stream |
| Ast.Node.AddChild | framework/src/templatengine/parser.c:56-235 | a child is appended; the two subtrees share no node before and the footprint is their union after |
| ParserTheorems.ParseKeepsLeaves | framework/src/templatengine/parser.c:56-235 | the leaves of the tree in order are exactly the HTML, code and variable tokens in order |
| ParserTheorems.ParseIsShaped | framework/src/templatengine/parser.c:56-235 | however badly nested the tokens are, all are consumed, and celse stands only as the last child of a cif |
| ParserTheorems.ParseUndoesFlatten | framework/src/templatengine/parser.c:56-235 | writing any well-formed tree as tokens and parsing it gives the tree back |
| ParserTheorems.ParseIsRetraction | framework/src/templatengine/parser.c:56-235 | any token stream, repaired by parsing and writing it out, parses to the same tree |
| ParserStack.ParseIsStack | framework/src/templatengine/parser.c:56-235 | for every token stream, however badly nested, the recursive descent builds the tree that one pass with a stack of open elements builds: a closing tag ends the innermost element if that is of its kind and is passed over otherwise, and at the end everything ends |
| TemplateRoundTrip.LexerUndoesWriting | framework/src/templatengine/lexer.c:126-382 | every token stream, however badly nested, that is written as text with the literal tags is read back as the same tokens, when no token has a break of its own |
| TemplateRoundTrip.ReadingUndoesWriting | framework/src/templatengine/lexer.c:126-382 | a tree written as a template, with its texts, code blocks, variables and literal opening, else and closing tags, is the tree that is read: `{` is text in scripts and style sheets, and where no letter, digit or arrow follows before its brace |
| TemplateRoundTrip.LoopExample | framework/src/templatengine/lexer.c:308-325 | a loop and the text behind it |
| Literal.WriteEscapedString | framework/src/templatengine/codegen_emit_common.c:86-113 | the loop writes the quoted literal of the text |
| Literal.LiteralRoundTrip | framework/src/templatengine/codegen_emit_common.c:86-113 | a C compiler that reads the literal by sections 6.4.4.4 and 6.4.5 of ISO/IEC 9899:2011 gets the text back, and stops at its own closing quote |
| Escape.WriteEscaped | framework/src/templatengine/security.c:24-46 | one character of the escaper: what stands for it is written behind the text so far |
| Escape.EscapeHtml | framework/src/templatengine/security.c:14-54 | the buffer of 6n+1 bytes holds the whole escaped text and its NUL: the wrapping loop guard cuts no input short |
| Escape.EscapeRoundTrip | framework/src/templatengine/security.c:14-54 | replacing the five entities in escaped text gives the original text |
| Escape.EscapedIsInert | framework/src/templatengine/security.c:14-54 | escaped text has no angle bracket and no quote |
| Runtime.Buffer.Append | framework/src/templatengine/runtime.c:29-55 | the buffer grows as needed and its text is the old text followed by the new |
| Runtime.Buffer.OutputHtml | framework/src/templatengine/runtime.c:80-90 | the escaped text is appended, NULL appends nothing |
| Runtime.Buffer.OutputRaw | framework/src/templatengine/runtime.c:74-78 | the text itself is appended, NULL appends nothing |
| Runtime.Buffer.Get | framework/src/templatengine/runtime.c:92-102 | a fresh C string holds everything written so far |
| TagParser.ParseCifCondition | framework/src/templatengine/codegen_emit_common.c:157-186 | the condition, up to the first quote that is not escaped, is copied to the caller's array with its NUL, and every write is inside the array exactly when it has fewer than 256 characters |
| Tags.LongConditionExample | framework/src/templatengine/codegen_html.c:59-60 | a condition that does not fit |
| Tags.ConditionRoundTrip | framework/src/templatengine/codegen_emit_common.c:157-186 | a condition whose own quotes are escaped and that does not end in a backslash is read back from its tag |
| Tags.ExpressibleIff | framework/src/templatengine/codegen_emit_common.c:157-186 | a condition that is not empty is read from some tag exactly when it does not end in a backslash and has no quote that would end the attribute |
| Tags.QuotesStayEscaped | framework/src/templatengine/codegen_emit_common.c:157-186 | in the condition of any tag a backslash stands before every quote |
| Tags.StringLiteralExample | framework/src/templatengine/codegen_emit_common.c:157-186 | so no tag has a condition that compares with a string literal |
| TagParser.ParseCloopParams | framework/src/templatengine/codegen_emit_common.c:115-155 | the three attributes of a loop tag, each up to its next quote, are copied to the arrays of the caller, with their defaults; every write is inside them exactly when the item has fewer than 64 characters and the array and the count fewer than 256 |
| LoopTagTheorems.LoopTagRoundTrip | framework/src/templatengine/codegen_emit_common.c:115-155 | the item, the array and the count that are written into a loop tag are read back, each from its own key |
| LoopTagTheorems.LoopDefaults | framework/src/templatengine/codegen_emit_common.c:115-155 | a loop tag without attributes has the item `item` and no array and no count |
| TagParser.ReadAttribute | framework/src/templatengine/codegen_css.c:57-109 | the cursor loop reads one attribute: name, text and end |
| TagParser.ParseStyleTag | framework/src/templatengine/codegen_css.c:13-138 | the two cursors collect the attributes of a cstyle tag within their buffers |
| TagTheorems.StyleTagRoundTrip | framework/src/templatengine/codegen_css.c:13-138 | attributes written into a cstyle tag are read back in order, and the tag is inline exactly when setinline is among them |
| TagTheorems.InlineOpening | framework/src/templatengine/codegen_html.c:88-103 | an inline block is opened by its own tag, named style, with all its attributes but setinline in order |
| Emitter.RemoveTypeSuffix | framework/src/templatengine/codegen_emit_common.c:14-23 | the suffix is cut from the text of the node in place, and nothing else of the tree changes |
| Emitter.GenerateVariableOutput | framework/src/templatengine/codegen_emit_common.c:25-84 | the lines for a variable are those of the format and the expression its text asks for, and the node is left cut |
| VariableTheorems.FormByMarkers | framework/src/templatengine/codegen_emit_common.c:25-84 | the format is that of the first type marker found anywhere in the text, and plain only when there is none |
| VariableTheorems.FormattedByOwnTypeIff | framework/src/templatengine/codegen_emit_common.c:25-84 | a variable is printed by its own type and without it exactly when no marker looked for earlier, with another format, occurs in the text |
| VariableTheorems.MisreadExample | framework/src/templatengine/codegen_emit_common.c:25-84 | a concrete variable whose declared type string is overruled by a marker inside its expression |
| Values.DecimalReads | framework/src/templatengine/codegen_emit_common.c:28-68 | the text of an integer is read back as that integer |
| Values.FixedReads | framework/src/templatengine/codegen_emit_common.c:45-53 | the digits of a real number are those of the nearest number of millionths, and of the even one if two are as near |
| Values.FixedLength | framework/src/templatengine/codegen_emit_common.c:45-53 | the text of a real number needs at most 31 characters exactly when it has at most 24 digits before its point, 23 with a sign |
| Values.ClockReads | framework/src/templatengine/codegen_emit_common.c:68-74 | the text of a time holds year, month, day, hour, minute and second in this order, each read back from its place |
| VariableOutput.VariableLinesMean | framework/src/templatengine/codegen_emit_common.c:25-84 | running the emitted lines, with their array of 32 or 64 bytes, prints the rendering of the value: integers, times and truth values whole, a NULL string as nothing, a real number cut to 31 characters |
| VariableOutput.PrintedWholeIff | framework/src/templatengine/codegen_emit_common.c:25-84 | a variable is printed whole exactly when it is not a real number beyond that size |
| VariableOutput.LargeNumberIsCut | framework/src/templatengine/codegen_emit_common.c:45-53 | the double nearest to 10 to the 25th loses two characters |
| Emitter.NodeHasCss | framework/src/templatengine/codegen_css.c:140-183 | the recursive test on the heap tree computes the pruning predicate of its tree |
| Emitter.TemplateHasExternal | framework/src/templatengine/codegen_css.c:185-205 | the recursive test on the heap tree computes the gate of its tree |
| Emitter.EmitCss | framework/src/templatengine/codegen_css.c:207-342 | the CSS walk appends the lines of the parsed tree and leaves the cut tree |
| Emitter.EmitCssIf | framework/src/templatengine/codegen_css.c:264-313 | the cif case: the branches with content are printed, and the children are cut as the walk reaches them |
| Emitter.EmitHtml | framework/src/templatengine/codegen_html.c:12-120 | the HTML walk appends the lines of the parsed tree and leaves the cut tree |
| Emitter.GenerateCFile | framework/src/templatengine/codegen.c:115-141 | the HTML function, then on the tree already cut by it the CSS function when the gate opens: both are those of the tree as it was parsed |
| CodegenTheorems.HtmlWalkSparesCss | framework/src/templatengine/codegen.c:115-141 | cutting the type suffixes during the HTML walk changes neither a line nor a test of the CSS walk |
| CodegenTheorems.CssLinesIffHasCss | framework/src/templatengine/codegen_css.c:140-342 | on parsed trees the CSS walk prints a line under a node exactly when the pruning predicate says so |
| CodegenTheorems.GateLosesNothing | framework/src/templatengine/codegen.c:116-140 | a CSS program with lines is always generated, and it has lines exactly when a block with content is external and under no inline block |
| CodegenTheorems.EmptyCssFunctionIff | framework/src/templatengine/codegen.c:116-140 | the generated CSS function is empty exactly when every external block is under an inline one or without content |
| CodegenTheorems.GateOpensForNothing | framework/src/templatengine/codegen_css.c:185-205 | a template for which the gate opens although the CSS function is empty |
| Partition.LeavesArePartitioned | framework/src/templatengine/codegen_html.c:12-120 | every non-empty leaf is printed exactly once and in order, by the CSS function if its outermost cstyle is external and by the HTML function otherwise |
| Partition.LeavesAreFringe | framework/src/templatengine/codegen_html.c:12-120 | the leaves so divided are all the non-empty leaves of the tree, in order |
| CSemantics.RunConcat | framework/src/templatengine/codegen_html.c:12-120 | running two complete pieces of generated code one after the other is running them in turn |
| CompilerCorrectness.LinesBalanced | framework/src/templatengine/codegen_html.c:12-120 | the lines of any parsed tree read back as complete C statements |
| CompilerCorrectness.SilentWithoutCss | framework/src/templatengine/codegen_css.c:140-183 | a subtree that is pruned has no output and no effect |
| CompilerCorrectness.LinesMean | framework/src/templatengine/codegen_html.c:12-120 | for every node, view and program state the emitted lines print what the node means, real numbers cut to 31 characters, and leave the same state |
| CompilerTheorem.CompilerIsCorrect | framework/src/templatengine/codegen.c:74-146 | for any parsed tree whose attributes fit their arrays, both generated functions print its meaning, real numbers cut to 31 characters; without a CSS function there was nothing to print |
| CompilerTheorem.PrintedWholeIffNumbersFit | framework/src/templatengine/codegen.c:74-146 | they print the whole meaning exactly when every real number they come to show, through branches and loops, fits its array |
| CompilerCorrectness.LoopRepeats | framework/src/templatengine/codegen_html.c:37-57 | a loop whose body does not change its count repeats its body exactly that often |
| TemplateTheorem.CompileTemplate | framework/src/templatengine/codegen.c:74-146 | the text of a template that stays in bounds becomes the two programs of its tree |
| TemplateTheorem.LongConditionTemplate | framework/src/templatengine/codegen_html.c:59-60 | a template that fits the lexer but not the arrays of the code generators |
| TemplateTheorem.EveryTemplateIsCompiledRight | framework/src/templatengine/codegen.c:74-146 | for every template text whose tokens fit the buffer of the lexer and whose attributes fit their arrays: both programs print its meaning, real numbers cut to 31 characters, and its text, code and variable tokens are divided between them and printed once, in order |
| Execution.RunSteps | framework/src/templatengine/codegen_emit_common.c:28-74 | a block fills its own array with snprintf and strftime and sends the C string in it to the output buffer |
| Execution.RunAll | framework/src/templatengine/codegen_html.c:12-120 | the statements run against the output buffer append exactly what the semantics says, and leave its state |
| Execution.RunProgram | framework/src/templatengine/runtime.c:69-102 | a generated function, from the fresh buffer to the copy it returns, gives a C string with its output |
| Rendering.RenderTemplate | framework/src/templatengine/codegen.c:115-141 | for every such text: compiled and run, its functions return C strings with the meaning of the page and of the external style sheet |
| TemplatePages.TemplatePrintsItsPage | framework/src/templatengine/codegen.c:74-146 | a template written from texts, code blocks, typed variables, loops, conditions and style blocks, with their literal tags, stays in bounds, and its program prints the page that these parts stand for; it has a style sheet exactly when an external block somewhere in it is not empty, and prints that too |
| Weave.WeavingKeepsVisible | framework/src/compress/minify_html.c:20-116 | a weaving holds the visible characters of the kept pieces and no others |
| MinifyHtml.Minify | framework/src/compress/minify_html.c:20-116 | the loop stays within one byte more than the input, and what it leaves is the specified text |
| MinifyHtml.CopyTag | framework/src/compress/minify_html.c:55-89 | the tag loop appends the tag with single spaces outside quotes, stops behind it, and gives the nesting depth after it |
| MinifyHtmlTheorems.MinifyIsIdempotent | framework/src/compress/minify_html.c:20-116 | minifying twice gives what minifying once gives, for every input |
| MinifyHtmlContent.PiecesTile | framework/src/compress/minify_html.c:20-116 | the pieces are the document, and each gap is a space run or one comment: its first closing is its end, or it is not closed and the document ends with it and at most one character |
| MinifyHtmlContent.HtmlIsWoven | framework/src/compress/minify_html.c:20-116 | every other piece is printed verbatim and in order, with at most one separator for a gap |
| MinifyHtmlContent.VisibleTextSurvives | framework/src/compress/minify_html.c:20-116 | exactly the visible characters outside comments survive |
| MinifyHtmlPreserved.PreservedTextIsCopiedIff | framework/src/compress/minify_html.c:20-116 | in any document, a stretch inside pre, textarea, script or style is printed between what stands around it, byte for byte exactly when every tag in it that is read as one has single blanks only outside quotes; only the end of the document is trimmed |
| MinifyHtmlPreserved.TextIsTidy | framework/src/compress/minify_html.c:91-94 | text without an opening bracket is such a stretch |
| MinifyHtmlPreserved.TagCopiedIff | framework/src/compress/minify_html.c:55-89 | the tag loop copies a tag as it is exactly when each space in it outside quotes is a single blank |
| MinifyHtmlPreserved.ClosingTagExample | framework/src/compress/minify_html.c:55-89 | a document whose closing tag inside pre loses a blank |
| MinifyHtmlElements.ElementIsPrinted | framework/src/compress/minify_html.c:11-116 | in any document, the text of an element named pre, textarea, script or style, in letters of either case, is printed byte for byte, comments and comparisons in it too; the text of any other element outside of those is printed as its words with single blanks between them |
| MinifyHtmlElements.ElementAlone | framework/src/compress/minify_html.c:11-116 | the same for a document that is the element |
| MinifyHtmlElements.ValuesAreKept | framework/src/compress/minify_html.c:56-90 | a tag is printed with one blank before each attribute, and with every attribute value byte for byte, in quotes of either kind |
| MinifyHtmlElements.CommentIsDropped | framework/src/compress/minify_html.c:29-36 | outside of preserving elements a comment is dropped up to its first end mark |
| MinifyCss.Minify | framework/src/compress/minify_css.c:15-96 | the loop that prints spaces early and takes them back computes the text that prints a space only when it is needed |
| MinifyCss.PopSpaces | framework/src/compress/minify_css.c:84-88 | only the pending space is taken back |
| MinifyCssContent.PiecesTile | framework/src/compress/minify_css.c:15-96 | the pieces are the style sheet, and each gap is a space run or one comment: its first closing is its end, or it is not closed and last |
| MinifyCssContent.WordsStayApart | framework/src/compress/minify_css.c:15-96 | everything else is printed verbatim and in order, and two words with a gap between them keep a separator; a word is of letters, digits, quotes, bytes beyond ASCII and all but 21 other characters |
| MinifyCssContent.SpaceKeptIff | framework/src/compress/minify_css.c:66-96 | spaces between two characters leave a blank exactly when neither is one of 21 characters |
| MinifyCssContent.CommentKeptIff | framework/src/compress/minify_css.c:27-60 | a comment between two characters leaves a separator exactly when neither is one of these or one is a sign, and the second is not a colon, semicolon, comma or brace |
| MinifyCssContent.SpacesAreSingle | framework/src/compress/minify_css.c:15-96 | the only white space of the output is single blanks |
| MinifyCssContent.VisibleTextSurvives | framework/src/compress/minify_css.c:15-96 | exactly the visible characters outside comments survive |
| MinifyJs.Minify | framework/src/compress/minify_js.c:25-138 | the loop over the mode flags stays within its buffer and computes the specified text |
| MinifyJsContent.PiecesTile | framework/src/compress/minify_js.c:25-138 | the pieces are the program, and each gap is a space run or one comment outside strings and regular expressions: its first closing or newline is its end, or there is none and it is last |
| MinifyJsContent.WordsStayApart | framework/src/compress/minify_js.c:25-138 | code, strings and regular expressions are printed verbatim and in order, and two words with a gap between them keep a separator; a slash is told apart by the last character of code alone |
| MinifyJsContent.BlankKeptIff | framework/src/compress/minify_js.c:100-130 | spaces between two code characters leave a blank exactly when neither is one of 24 operator characters: any two operators are joined |
| MinifyJsContent.CommentKeptIff | framework/src/compress/minify_js.c:46-66 | a block comment behind a code character leaves a blank exactly when letters, digits, underscores or dollar signs stand on both sides |
| MinifyJsContent.JoinedOperatorsExample | framework/src/compress/minify_js.c:100-130 | a sum that becomes an increment |
| MinifyJsContent.StringIsCopied | framework/src/compress/minify_js.c:67-75 | a string in one of three kinds of quotes is printed as it is, escaped characters with it |
| MinifyJsContent.SlashReads | framework/src/compress/minify_js.c:19-24 | at the start and behind 17 characters a slash opens a regular expression, which is printed as it is; elsewhere what follows it is code |
| MinifyJsContent.LineCommentLeaves | framework/src/compress/minify_js.c:36-44 | a line comment ends at a line feed or carriage return and leaves a newline unless one is there |
| MinifyJsContent.EndIsTrimmed | framework/src/compress/minify_js.c:132-138 | the end of the output loses its tabs, newlines and spaces and nothing else |
| MinifyJsContent.VisibleTextSurvives | framework/src/compress/minify_js.c:25-138 | exactly the visible characters outside comments survive |
| MinifyAsset.Minify | framework/src/compress/minify.c:32-84 | a buffer of one byte more than the input holds every result and its NUL; an empty result is replaced by the input |
| MinifyAsset.KindIs | framework/src/compress/minify.c:16-31 | which minifier a content type gets, in letters of either case and with any parameters |
| MinifyAsset.AssetKeepsText | framework/src/compress/minify.c:32-84 | whatever its type (a script without NUL bytes), an asset is sent with its visible text and nothing else, or as it is; only the empty asset is sent empty |
| Pending.PendingList.Add | framework/src/Server/server_pending.c:26-35 | the new response is first in the list, and the others follow unchanged |
| Pending.PendingList.CancelAll | framework/src/Server/server_pending.c:37-51 | every entry of the lost connection forgets it, and its hook runs once; the others do not change |
| Pending.PendingList.Unlink | framework/src/Server/server_pending.c:59-75 | the node behind a link is taken out in place, through the head or the link of its predecessor |
| Pending.PendingList.Check | framework/src/Server/server_pending.c:54-91 | a tick takes out exactly the finished entries, keeps the order of the others, and answers or drops each in list order |
| Pending.PendingList.Cleanup | framework/src/Server/server_pending.c:102-119 | the list is empty and everything in it was freed, in order |
| PendingRuns.SurvivorsAre | framework/src/Server/server_pending.c:54-91 | an entry survives a tick exactly when it is in the list and its response is there and not finished |
| PendingRuns.SurvivorsConcat | framework/src/Server/server_pending.c:54-91 | a tick keeps the order of the survivors |
| PendingRuns.RunsAreSafe | framework/src/Server/server_pending.c:26-119 | in every run, with connection addresses used again, a response is written only to the open connection its request came from; request and response are in the list once or freed once; a hook runs at most once |
| PendingRuns.AnsweredAtMostOnce | framework/src/Server/server_pending.c:54-91 | in every run a request is answered at most once, and freed at most once |
| PendingRuns.NeverAnsweredLater | framework/src/Server/server_pending.c:54-91 | once a request has been freed, answered or dropped, no run from there on sends anything for it |
| PendingRuns.EveryRequestIsAccounted | framework/src/Server/server_pending.c:26-119 | in every run each accepted request is answered, dropped or still queued: exactly one of them, and once |
| PendingRuns.TickAnswersOpenConnections | framework/src/Server/server.c:279-290 | the first tick after a request has finished answers it exactly when its connection is still open, and removes it either way |
| PendingRuns.LossCallsHooks | framework/src/Server/server_pending.c:37-51 | in every run, losing a connection calls the hook of a request exactly if it waits for that connection with a hook; afterwards nothing waits for it |
| PendingRuns.CleanupFreesEverything | framework/src/Server/server_pending.c:102-119 | after cleanup every request and response ever accepted has been freed exactly once |
| MariaDb.Context.Finish | app/plugins/db/mariadb_async.c:271-291 | the callback gets the result or the failure, then the context is freed |
| MariaDb.Context.Reschedule | app/plugins/db/mariadb_async.c:310-359 | the driver watches the connection, or fails the query when the event loop refuses |
| MariaDb.Context.StepConnect | app/plugins/db/mariadb_async.c:395-423 | the connect step starts or continues its call and moves on, waits or fails as the answer says |
| MariaDb.Context.StepQuery | app/plugins/db/mariadb_async.c:425-455 | the same for the query step |
| MariaDb.Context.StepStore | app/plugins/db/mariadb_async.c:457-502 | the same for storing the result |
| MariaDb.Context.StepFetch | app/plugins/db/mariadb_async.c:504-531 | the same for fetching a row, which is appended to the result |
| MariaDb.Context.Drive | app/plugins/db/mariadb_async.c:575-639 | with finitely many rows every call ends, with the query over or waiting, in the state that reading the answers one by one gives; the library is only continued where it waits |
| MariaDbRuns.ProtocolIsKept | app/plugins/db/mariadb_async.c:395-531 | in every run a continue call directly follows a call of the same operation that asked to wait, and a start call never does |
| MariaDbRuns.CallbackThenFree | app/plugins/db/mariadb_async.c:271-291 | in every run the callback happens at most once, directly before the only free |
| MariaDbRuns.DriverRefinesBlocking | app/plugins/db/mariadb_async.c:575-639 | with every wait watched the driver is over exactly when the blocking query is, with the same outcome: a success delivers exactly the rows fetched, in order |
| MariaDbRuns.EveryCallCounts | app/plugins/db/mariadb_async.c:575-639 | a query that is not over has fetched a row for every completed call but three |
| MariaDbRuns.RefusalFails | app/plugins/db/mariadb_async.c:310-359 | a refused watcher or a connection that cannot be prepared fails the query, with one callback |
| Aggregator.AsyncStateMachine.FetchCallback | app/plugins/async_state_machine.c:31-57 | the outcome is noted, the count goes down, and completion is checked |
| Aggregator.AsyncStateMachine.DbCallback | app/plugins/async_state_machine.c:78-116 | the same for the database |
| Aggregator.AsyncStateMachine.StartGithubFetch | app/plugins/async_state_machine.c:59-76 | the count goes up while the operation is outstanding; a refused start is noted as an error |
| Aggregator.AsyncStateMachine.StartDbQuery | app/plugins/async_state_machine.c:118-137 | the same for the database |
| Aggregator.CompletionIsReportedOnce | app/plugins/async_state_machine.c:5-137 | in every run the count is the number of outstanding operations, and completion is reported once, exactly if some callback left nothing outstanding |
| Aggregator.StartsFirst | app/plugins/async_state_machine.c:5-137 | when all starts precede the first callback, completion is reported once, exactly when the last accepted operation has called back |
| Aggregator.CompletionSeesAll | app/plugins/async_state_machine.c:5-137 | whatever comes later, the completion callback sees the outcome of everything that was started before the first callback |
| Aggregator.CompletionSeesIff | app/plugins/async_state_machine.c:5-137 | in every run that completes, the reported data hold the outcome of a source exactly when it was begun no later than the first callback that left nothing outstanding |
| Aggregator.FlagsTell | app/plugins/async_state_machine.c:31-137 | in every run each flag tells what happened: a result exactly when a callback of that source succeeded, an error exactly when one failed or a start was refused |
| Aggregator.ReportTells | app/plugins/async_state_machine.c:5-18 | and the data handed to the completion callback tell so of everything up to the first callback that left nothing outstanding |
| Aggregator.CompletionCanBeEarly | app/plugins/async_state_machine.c:59-76 | a query that fails at once completes the aggregator before the fetch is started |
| QueryCompletion.QueryCompletes | app/plugins/async_state_machine.c:118-137 | with one query and any library answers, completion is reported exactly when the driver is over, once, and says whether the query succeeded |
| Aggregator.CompletesIffAccepted | app/plugins/async_state_machine.c:59-137 | when nothing is outstanding, completion has been reported exactly if some start was accepted |
| Aggregator.RefusedStartsNeverComplete | app/plugins/async_state_machine.c:65-73 | in particular, when every start is refused completion is never reported |
| CacheImage.IntegerRoundTrip | framework/src/filecache/rw_utils.c:37-60 | an integer that fits n bytes is read back from its n bytes |
| CacheImage.WriteBytes | framework/src/filecache/rw_utils.c:13-24 | however short the writes are, success means that all bytes are in the file, and failure a proper prefix |
| CacheImage.FillBytes | framework/src/filecache/rw_utils.c:25-36 | however short the reads are, the bytes asked for are read, or the file had fewer |
| CacheImage.WriteU64 | framework/src/filecache/rw_utils.c:41-47 | the shifts and casts write the integer, least significant byte first |
| CacheImage.FillInt | framework/src/filecache/rw_utils.c:48-60 | the value of the next bytes is read |
| CacheImage.FileCache.Clear | framework/src/filecache/cleanup.c:35-45 | every entry loses its data, is marked as not loaded, and the count is zero |
| CacheImage.FileCache.Save | framework/src/filecache/crud.c:27-81 | success means that the file is the image of the cache; a failed save leaves a prefix of it |
| CacheImage.FileCache.Load | framework/src/filecache/crud.c:83-155 | the table is what the bytes of the file say, slot by slot; a wrong header leaves it alone |
| CacheImageTheorems.HeaderIs | framework/src/filecache/crud.c:83-105 | an image is twelve bytes at least that start with the magic number and version 1, least significant byte first |
| CacheImageTheorems.EntryRoundTrip | framework/src/filecache/crud.c:107-149 | an entry that was written is read back, or skipped as a whole when it is too large |
| CacheImageTheorems.TruncatedEntry | framework/src/filecache/crud.c:107-149 | an entry that was cut anywhere is not loaded |
| CacheImageTheorems.TruncationLoadsPrefix | framework/src/filecache/crud.c:83-155 | a file cut anywhere behind its header loads as the entries that are complete in it, in order |
| CacheImageTheorems.SaveLoadRoundTrip | framework/src/filecache/crud.c:27-155 | a saved cache is loaded back as it was exactly when no file in it is larger than the limit in force at the load |
| CacheImageTheorems.ImageExample | framework/src/filecache/crud.c:27-81 | the image of a cache with one file, byte by byte |
| CacheImageTheorems.LowerLimitExample | framework/src/filecache/crud.c:27-155 | a saved cache that a lower limit does not load back |
| FileServer.Find | framework/src/filecache/fileserver.c:12-20 | the first slot with the name |
| FileServer.FindMapping | framework/src/filecache/getter_isser.c:38-48 | the first mapping for the last extension, in either case |
| FileServer.LoadFileToCache | framework/src/filecache/fileserver.c:22-81 | the file takes the next slot unless it is too large or the cache is full |
| FileServer.ScanDirectory | framework/src/filecache/fileserver.c:83-131 | the recursion over the directory tree loads what is neither hidden nor excluded, in directory order |
| FileServer.BuildCache | framework/src/filecache/crud.c:11-25 | the cache is cleared and then filled by the scan |
| FileServer.ServeFromMemory | framework/src/filecache/serve.c:148-179 | the answer is the loaded entry, or the response is left alone |
| FileServer.ServeFromFilesystem | framework/src/filecache/serve.c:29-68 | the answer is the file, or the response is left alone |
| FileServer.HandleRequest | framework/src/filecache/serve.c:70-146 | the response of each mode: refused, found or not found; refused exactly for two dots or two slashes in a row |
| FileServer.RefusedIff | framework/src/filecache/serve.c:83-90 | for any cache, disk, prefix and mode: such a path is refused with nothing of the cache or the disk in the answer, and any other is found or not found |
| FileServerTheorems.TypeOfFullPath | framework/src/filecache/getter_isser.c:38-109 | type and priority of a file are the same for its key and its full path: a dot in a directory name never counts |
| FileServerTheorems.TypesAre | framework/src/filecache/getter_isser.c:8-109 | the type and the priority of each of the 23 extensions, in letters of either case, and of a name without a dot |
| FileServerTheorems.HybridAgreesWithFilesystem | framework/src/filecache/serve.c:120-146 | when every loaded entry is the file its key names, the memory-first answer is the file system answer: status, body, type and priority |
| FileServerTheorems.ScanIsSound | framework/src/filecache/fileserver.c:83-131 | building the cache makes it so, for every directory tree in which the files that are loaded have keys below 256 characters |
| FileServerTheorems.BuiltServerAgrees | framework/src/filecache/serve.c:70-146 | a server with a cache just built from such a tree answers every normalised path as the file system does, whatever was excluded, hidden, too large or beyond the last slot |
| FileServerTheorems.RestartedServerAgrees | framework/src/filecache/crud.c:83-155 | so does a server restarted from the saved cache, even when the file was cut |
| FileServerAgreement.HybridAgreesIff | framework/src/filecache/serve.c:13-146 | for any cache, disk and lookup prefix: the memory-first server answers every path as the file system does exactly when every entry a request can reach does |
| FileServerAgreement.BuiltServerAgreesIff | framework/src/filecache/fileserver.c:22-131 | for a cache built from any tree, with names of any length: exactly when each key of 255 characters or more that is loaded and can be requested names, when it is cut, a file of the same content and type |
| FileServerAgreement.LongKeyExample | framework/src/filecache/fileserver.c:67-69 | a built cache in which a cut key answers for a path that is no file |
| FileServerModes.FilesystemModeAgreesIff | framework/src/filecache/serve.c:102-146 | the file system mode answers static paths as the hybrid mode exactly when every file served has a twin with the lookup prefix on or off |
| FileServerModes.MemoryModeAgreesIff | framework/src/filecache/serve.c:102-146 | the memory mode does exactly when every file served is also cached under its name below the prefix, and every entry under such a name has its file |
| FileServerModes.RootPrefixAgrees | framework/src/filecache/serve.c:13-26 | with a single slash as prefix the file system mode agrees |
| FileServerModes.DefaultPrefixExample | framework/src/filecache/getter_isser.c:75-90 | with the default prefix and one style sheet only the hybrid mode serves it |
| Routing.BaseIsFirstSegment | framework/src/PathUtils/pathutils.c:15-55 | the base ends at the first slash or question mark behind the leading slash |
| Routing.HasPathSubpath | framework/src/Routing/routing.c:97-130 | the loop finds whether another slash comes before the query |
| Routing.FeaturesAre | framework/src/Routing/routing.c:97-141 | a parameter is a question mark anywhere, a subpath a second slash before any question mark |
| Routing.AcceptsIffPermits | framework/src/Routing/routing.c:164-180 | the nested condition says: the path has a feature, and the route permits every feature it has |
| Routing.BaseIffPlain | framework/src/PathUtils/pathutils.c:15-55 | a path is its own base exactly when it has neither feature |
| Routing.HandlerReads | framework/src/Routing/routing.c:144-190 | the first route of exactly that path answers; without one, the first route that permits the path; without any, the fallback |
| Routing.Router.AddRoute | framework/src/Routing/routing.c:82-95 | the route is appended unless the table is full |
| Routing.Router.SetDynamicSubpath | framework/src/Routing/routing.c:26-35 | only the first route of the path changes |
| Routing.Router.SetDynamicParam | framework/src/Routing/routing.c:37-46 | only the first route of the path changes |
| Routing.Router.GetRouteHandler | framework/src/Routing/routing.c:144-190 | for a path that starts with a slash: the route of exactly that path, else the first route of its base that permits its features, else the fallback; only an exact match takes over the session flag |
| PathUtils.SplitPathSegments | framework/src/PathUtils/pathutils.c:120-138 | the table of buffers holds the segments of the path, each cut to its buffer |
| PathUtils.NormalizePath | framework/src/PathUtils/pathutils.c:153-166 | the two cursors leave the normalised path in the same array |
| PathUtils.PathMatches | framework/src/PathUtils/pathutils.c:168-180 | the loop over both segment tables decides the match |
| PathTheorems.NormalizeIsIdempotent | framework/src/PathUtils/pathutils.c:153-166 | normalising twice is normalising once |
| PathTheorems.NormalForm | framework/src/PathUtils/pathutils.c:153-166 | a normalised path has single slashes, none at its end, and the segments and first slash of the path |
| PathTheorems.SplitReads | framework/src/PathUtils/pathutils.c:120-138 | splitting gives the first maximal stretches between slashes, cut to their buffers, and the rest of an over-long last one in pieces |
| PathTheorems.NormalizeKeepsSplit | framework/src/PathUtils/pathutils.c:120-166 | normalising keeps what splitting gives, except exactly when a slash ends an over-long last segment and there is room for more |
| PathTheorems.LongSegmentExample | framework/src/PathUtils/pathutils.c:120-166 | a path that splits in another way when it is normalised |
| PathTheorems.MatchesIff | framework/src/PathUtils/pathutils.c:168-180 | a path matches exactly when its segments agree with the pattern, where a parameter agrees with any, up to a star that stands for one or more segments or up to the end of both |
| PathTheorems.NormalizeKeepsMatches | framework/src/PathUtils/pathutils.c:153-180 | so patterns and paths whose segments fit match the same before and after normalising |

## Left out

- Parser.ParseTemplate: nodes carry no line and column, so positions in the tree are not modelled; those of the tokens are.
- Lexer.Lexer.NextToken: assumes a template without NUL bytes, which a C string cannot hold.
- LexerTheorems.ChunkIndependence: tags, variables and code blocks that exceed the 8 KB buffer are cut, which the token stream models and this theorem excludes.
- Emitter.EmitHtml: the `// Loop:` and condition comments that repeat a tag are not lines of the model, so a tag is taken to stand on one line; the warning text beside `if (false)` is not modelled either.
- TagParser.ParseCifCondition: the writes behind an array that is too short are left out of the model, as in the lexer; nothing is claimed of a template on which they happen.
- Lexer.Lexer.ReadControlTag: the write of the NUL behind a full buffer is left out of the model, where it has no meaning; LexerTheorems.TokenFitsIff says when it happens.
- Literal.LiteralRoundTrip: trigraphs are not replaced, as in compilers that have them off.
- CompilerTheorem.CompilerIsCorrect: the meaning of C expressions, conditions and code blocks is opaque; a code block is taken to be complete statements, and output it prints itself is part of what it returns. Expressions and conditions do not change the program state; pruning would drop their effects.
- TemplatePages.TemplatePrintsItsPage: for templates written from its parts, so each loop tag names its item, array and count in that order, and a variable names one type; CompilerTheorem.CompilerIsCorrect is about every tree.
- VariableOutput.VariableLinesMean: an expression has the type its format asks for; another one is not a C program with a defined meaning. Rounding is to nearest, the local time has a year that fits `int`, and strings are short enough for their escaped length to fit `size_t`.
- Header files, the parameter signature of a template and the include lines of a generated file.
- MinifyHtml.Minify: input lengths are taken to fit `int`, which the CSS and JavaScript minifiers use for one index.
- MinifyJsContent.WordsStayApart: for programs without NUL bytes; a NUL would be taken for the start of the program when a slash is read. What a regular expression is follows the minifier's own rule of the last character, so `return /a b/` counts as code.
- MinifyCssContent.WordsStayApart: strings in style sheets are not told apart from other text, as in the minifier; a blank before a class selector is dropped, so this is about text, not about what style sheets mean.
- Idempotence of the CSS and JavaScript minifiers, which nothing promises: a style sheet that starts with a comment loses a blank the second time.
- Brotli, gzip, the choice of a compression and its weights.
- Pending.PendingList.Check: sending a response is one effect that ends with its frees; the bytes written, a failed write and compression are not modelled.
- PendingRuns.RunsAreSafe: the application sets a cancellation hook before the request is queued and no hook later, and finishes a request only while it is queued.
- MariaDb.Context.Finish: error texts are not modelled, a failure is a failure; nor are failed allocations while rows are copied.
- MariaDb.Library.Ask: a stored result is fetched without errors, so no row stands only for the end of the result.
- Aggregator.CompletionIsReportedOnce: the reset of an aggregator by its cleanup function is not part of a run; a callback that comes after it would be counted in the next one.
- The HTTP fetcher, JSON and the pages that use the aggregator.
- CacheImage.FileCache.Load: a load that ends inside an entry also leaves parts of that entry's name in the slot behind the last one, where no lookup reads; the model leaves that slot alone. A read error counts as the end of the file. A stored size of 2^63 or more makes `fseek` go backwards when the entry is skipped; in the model it goes to the end of the file.
- FileServerTheorems.RestartedServerAgrees: demands that the entries of the built cache can be saved, which the condition on keys and times implies.
- FileServerModes.MemoryModeAgreesIff: about a hybrid server that agrees with the file system, which FileServerAgreement.HybridAgreesIff characterises.
- FileServer.ServeFromFilesystem: what can be opened under a path is a map, and the disk does not change; response headers other than the type are not modelled.
- FileServer.ScanDirectory: a directory is a tree of names in any order, exclusion by pattern an opaque predicate; links, unreadable files and special files do not occur, and a static directory is configured.
- Reloading of changed files, which is commented out where it would be called.
- Routing.Router.GetRouteHandler: the answer is specified for paths that start with a slash, and for the empty path.
- Renaming and clearing of routes, query parameters, URL decoding, sessions, HTTP parsing, the logger, the leak tracker, benchmarks, the API documentation and the command line tool: little branching, or input and output.
- Memory exhaustion anywhere, and sizes beyond 2^64.
