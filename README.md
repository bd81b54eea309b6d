# eleva-formatter, modelled in Dafny

The Eleva.js formatter rewrites the source text of an Eleva component. It
runs in a fixed order, each step being a global `String.prototype.replace`
with a callback:

- `template: (ctx) => '…'` literals get their HTML re-indented and are always
  emitted as `(ctx) => \`…\``;
- `{{ name }}` interpolations become `{{ name.value }}` when the file declares
  `const name = signal(`;
- `style: (ctx) => '…'` literals get their CSS re-indented;
- the `setup: ({ … }) =>` / `{` heads are normalised;
- `@event = 'handler'` attributes become `@event="handler"`.

The HTML and CSS indenters (`formatTemplateHTML`, `formatCSS`) clean the text
with a few replaces, split it into lines and walk them with a depth counter,
pushing each trimmed line behind `depth` indent units.

The editor extension also provides semantic tokens. It scans every
template literal for `@event` attributes and `{{ signal }}` interpolations,
and the whole document for `eleva-prop-name` attributes, and pushes one
token per match at the position `positionAt` gives.

The model is split into modules:

- `Text`: JavaScript white space, `trim`, `split`/`join`, `repeat`, `indexOf`.
- `Replace`: a global replace with a callback, as a left-to-right scan over a
  `rule` that gives, for each index, the end of the match found there and its
  replacement.
- `Patterns`: each fixed regular expression as an anchored matcher. Its
  `Is…` predicate says what a match is; the matcher finds exactly those.
- `Reflow`: the two indenters. Each is a specification function plus the
  imperative loop proved against it.
- `CssLayout`: what `formatCSS` makes of one flat rule.
- `Formatter`: the five passes, `formatElevaSpecific` and
  `formatElevaComponent`.
- `Positions`: `positionAt`.
- `SemanticTokens`: the scanning loops of `provideDocumentSemanticTokens`,
  as methods proved against the token list a specification function
  collects.

The model follows what the code does, also where that differs from what its
comments and documentation describe:

- `<div><p>hi</p></div>` stays on one line: the cleaning only splits at `> <`
  and at `</x><y>`.
- After `<div>` and `<p>hi</p>` on separate lines, `</div>` ends up at depth 1,
  because `<p>hi</p>` opens a level that nothing closes.
- The event pass runs over the whole document, not just over templates.
- A signal token starts after `{{`, even when white space follows it. Its
  length is that of the captured name, `.value` included.
- The block form of `setup` indents blank lines too.
- The `({})` fallback for an empty parameter list cannot be reached:
  `[^}]+` always captures something.
- A literal is always emitted with `(ctx) =>` and backticks, whatever the
  parameter name and quote were.
- An indent size of 0 counts as 2 (`config.indentSize || 2`).
- A negative indent size makes `" ".repeat` throw. Each indenter then returns
  its input, and the block `setup` callback returns its match. The same
  RangeError past the engine's maximum string length is not modelled (see
  "## Left out").
- `templateStart` is computed with `indexOf`.
  `SemanticTokens.TemplateStartExact` proves that it is the content's real
  start whenever the content holds something to highlight.

## Model

| member | source | states |
|---|---|---|
| Text.Trim | formatter.js:157 | `trim` gives the slice between the leading and the trailing white-space runs; it is empty exactly when the text is all white space |
| Text.JoinSplit | formatter.js:165 | joining the pieces of `split(sep)` with `sep` gives the text back |
| Text.SplitJoin | formatter.js:186 | splitting a join of separator-free pieces gives the pieces back |
| Text.NonBlankShape | formatter.js:302-305 | after `filter(p => p.trim())` and `map(trim)`, each piece is non-empty, has no white space at its ends and no separator |
| Text.IndexOf | extension.js:219 | `indexOf` is -1 exactly when the needle occurs nowhere; otherwise the needle occurs there and at no earlier index |
| Text.IndexOfAtMost | extension.js:219 | a needle that occurs at `k` is found at or before `k` |
| Replace.HitsFrom | formatter.js:61-63 | the matches a global replace makes are in order, do not overlap, and are each what the pattern finds at their start |
| Replace.HitsLeftmost | formatter.js:61-63 | at an index that no replaced match covers, the pattern does not match: the scan misses nothing |
| Replace.ReplaceAll | formatter.js:61-63 | a global replace is the text with the pattern's matches spliced out, and the text itself when the pattern matches nowhere |
| Replace.ReplaceIsSplice | formatter.js:61-91 | the replace equals the text with each match spliced out for its replacement |
| Replace.ReplaceIdentity | formatter.js:254-265 | a callback that hands back its match leaves the text unchanged |
| Replace.ReplaceUntil | formatter.js:207-210 | a stretch where the pattern matches nowhere is copied unchanged |
| Replace.ReplaceNonEmpty | formatter.js:348-362 | when the callback never returns "", the result is empty exactly when the text is |
| Patterns.SkipTo | formatter.js:59 | `\s*` then a fixed text: a result is a white-space run ending where the text occurs |
| Patterns.SkipToComplete | formatter.js:59 | and it finds every such place |
| Patterns.MatchQuoted | formatter.js:59 | a quoted part: a quote, content without that quote (and without line terminators for `.`), the same quote |
| Patterns.MatchQuotedComplete | formatter.js:59 | the lazy `[\s\S]*?\2` ends at the first repetition of the opening quote |
| Patterns.MatchParameter | formatter.js:59 | `\(\s*\w+\s*\)`: the found name is a non-empty run of word characters between white space and `)` |
| Patterns.MatchParameterComplete | formatter.js:59 | every such parameter is found |
| Patterns.MatchLiteral | formatter.js:58-59 | a `template`/`style` match is the key, `:`, `(param)`, `=>` and a quoted content |
| Patterns.MatchLiteralComplete | formatter.js:58-59 | every literal of that shape is found where it starts, with that very match |
| Patterns.LiteralColonSound | formatter.js:59 | what is found after the colon is white space, `(` and the rest of the literal pattern |
| Patterns.LiteralColonComplete | formatter.js:59 | every such rest after the colon is found |
| Patterns.LiteralFromSound | formatter.js:59 | after `key :` and `(`, what is found is the rest of the literal pattern, with that colon and `(` |
| Patterns.MatchLiteralFromComplete | formatter.js:59 | every such rest of a literal is found |
| Patterns.LiteralArrowSound | formatter.js:59 | after the `)`, what is found is white space, `=>` and the quoted content, keeping the positions found before |
| Patterns.LiteralArrowComplete | formatter.js:59 | every arrow followed by quoted content is found |
| Patterns.MatchInterpolation | formatter.js:253 | `\{\{\s*(\w+)\s*\}\}`: a match is `{{`, white space, a word, white space, `}}` |
| Patterns.MatchInterpolationComplete | formatter.js:253 | every such interpolation is found |
| Patterns.MatchSignalReference | extension.js:245-246 | a signal match is `{{`, white space, a letter and reference characters, white space, `}}` |
| Patterns.MatchSignalReferenceComplete | extension.js:245-246 | every such signal interpolation is found, with the longest name |
| Patterns.MatchEvent | formatter.js:346 | `@name\s*=\s*(quote)…(quote)` on one line |
| Patterns.MatchEventComplete | formatter.js:346 | every such attribute is found, with the longest name and the first closing quote |
| Patterns.MatchProp | extension.js:270 | `eleva-prop-` followed by a letter and the longest run of name characters |
| Patterns.MatchPropComplete | extension.js:270 | every such attribute is found with that run |
| Patterns.SetupCloseAt | formatter.js:284 | the closing group `}` or `=>`/`,` then `{` ends after it starts |
| Patterns.SetupCloseAtIff | formatter.js:284 | the closing group is found at an index with end `e` exactly when it matches there with that end |
| Patterns.SetupCloseAtSound | formatter.js:284 | what is found at an index is a match of the closing group |
| Patterns.SetupCloseAtComplete | formatter.js:284 | every match of the closing group is found, with its end |
| Patterns.SetupCloseAtNone | formatter.js:284 | and it is found nowhere exactly when it matches with no end |
| Patterns.FindSetupClose | formatter.js:284 | the lazy body stops at the first closing group, and there is none before it |
| Patterns.FindSetupCloseIff | formatter.js:284 | the search finds a body and closing group exactly when they are the shortest body and its closing group |
| Patterns.MatchSetupHeadFrom | formatter.js:284 | the parameter text is not empty, and `})` and the `=>` or `{` after it end inside the text |
| Patterns.MatchSetupHeadFromIff | formatter.js:284 | the head matcher finds exactly the heads: parameters without `}`, `})`, white space, then `=>` or `{` |
| Patterns.MatchSetupHeadFromSound | formatter.js:284 | what the head matcher finds is such a head |
| Patterns.MatchSetupHeadFromComplete | formatter.js:284 | every such head is found |
| Patterns.MatchSetupArrow | formatter.js:284 | the `=>` or `{` after `})` ends after it and inside the text |
| Patterns.MatchSetupArrowIff | formatter.js:284 | after `})`, the matcher finds exactly white space followed by `=>` or `{` |
| Patterns.MatchSetupArrowSound | formatter.js:284 | what it finds is white space followed by `=>` or `{` |
| Patterns.MatchSetup | formatter.js:283-284 | a match starts with `setup` and its colon comes after that word |
| Patterns.MatchSetupIff | formatter.js:283-284 | a setup match is found exactly when the text there is `setup`, `:`, the head, then the shortest body up to a closing group |
| Patterns.MatchSetupSound | formatter.js:283-284 | what the matcher finds is a setup match of that shape |
| Patterns.MatchSetupComplete | formatter.js:283-284 | every setup function of that shape is found where it starts |
| Patterns.MatchSetupAfterColon | formatter.js:284 | a match after a colon keeps that colon, and `({` comes before its parameters |
| Patterns.MatchSetupAfterColonIff | formatter.js:284 | after `setup :`, the matcher finds exactly white space, `({`, the head and the shortest body |
| Patterns.MatchSetupAfterColonSound | formatter.js:284 | what it finds after the colon is such a head and body |
| Patterns.SetupAfterColonParts | formatter.js:284 | a match after the colon is `({` found after white space and a match from just after it |
| Patterns.MatchSetupAfterColonComplete | formatter.js:284 | every such head and body after the colon is found |
| Patterns.MatchSetupFrom | formatter.js:284 | a match from the parameters on keeps the colon and the parameter start |
| Patterns.MatchSetupFromIff | formatter.js:284 | from the parameters on, the matcher finds exactly the rest of the head followed by its shortest body |
| Patterns.MatchSetupFromSound | formatter.js:284 | what it finds is the rest of a head followed by its shortest body |
| Patterns.MatchSetupFromComplete | formatter.js:284 | a head followed by its shortest body is always found |
| Patterns.MatchSpaceRun | formatter.js:158 | `\s+` takes a maximal non-empty white-space run |
| Patterns.MatchTagGap | formatter.js:159 | `> <` matches exactly where that text occurs |
| Patterns.MatchCloseOpen | formatter.js:160 | `<\/([a-z0-9]+)><([a-z0-9]+)>` is a closing tag followed by an opening tag |
| Patterns.MatchCloseOpenComplete | formatter.js:160 | every closing tag touching an opening tag is found, with both names |
| Patterns.MatchSpacedChar | formatter.js:208-210 | `\s*{\s*` and `\s*}\s*`: white space, the brace, then all the white space after it |
| Patterns.MatchSpacedCharComplete | formatter.js:208-210 | white space then the brace is always matched, up to the end of the white space after the brace |
| Patterns.MatchSemicolon | formatter.js:209 | `;\s*` matches exactly at a semicolon, and takes all the white space after it |
| Patterns.HasOpeningTagIff | formatter.js:181 | `/<[^/][^>]*>/` matches exactly when some `<`, not followed by `/`, has a `>` after it |
| Patterns.SelfClosingTagAtIff | formatter.js:181 | `/<[^/][^>]*\/>/` matches at a `<` exactly when `/>` follows with no `>` between |
| Patterns.HasSelfClosingTagIff | formatter.js:181 | and so it matches a line exactly when some `<` has such a `/>` |
| Reflow.CleanMarkup | formatter.js:157-160 | the cleaned markup is empty exactly when the markup is all white space |
| Reflow.CleanStylesheet | formatter.js:207-210 | the cleaned stylesheet is empty exactly when the stylesheet is all white space |
| Reflow.Render | formatter.js:178 | each entry becomes its level times the indent unit followed by its text |
| Reflow.PushLine | formatter.js:172-183 | one turn: the line is pushed at the level the counter gives it, and the counter moves as the line demands |
| Reflow.IndentLines | formatter.js:163-184 | the loop pushes exactly the rendered layout of the lines |
| Reflow.FormatTemplateHTML | formatter.js:150-191 | `formatTemplateHTML` returns the reflowed markup, and "" for empty input |
| Reflow.FormatCSS | formatter.js:199-241 | `formatCSS` returns the reflowed stylesheet, and "" for empty input |
| Reflow.LayoutTexts | formatter.js:168-170 | the emitted lines are the non-blank lines, trimmed, in order |
| Reflow.LayoutFollows | formatter.js:172-183 | each level comes from the previous one and the previous line as the counter rules say |
| Reflow.LevelSteps | formatter.js:172-183 | consecutive levels differ by at most one, and a drop happens only on a closing line |
| Reflow.RepeatRepeat | formatter.js:164-178 | `" ".repeat(n).repeat(level)` is `n * level` spaces |
| Reflow.RenderedLine | formatter.js:178 | a pushed line is its indentation followed by its text, with no line break inside |
| Reflow.RenderedShape | formatter.js:165-184 | the lines of a split text: count, texts, levels and indentation of what is pushed |
| Reflow.IndentedLines | formatter.js:164-186 | the result is the pushed lines joined by line breaks, and splitting it gives them back |
| MarkupLayout.CleanTagLines | formatter.js:157-160 | three lines that each hold one run of tags, with no white space and no `><`, come through the cleaning unchanged |
| MarkupLayout.CleanUntouched | formatter.js:157-160 | markup with no white space and no closing tag touching an opening tag comes through the cleaning unchanged |
| MarkupLayout.IndentedOneLine | formatter.js:163-186 | a single tidy line that does not close is pushed at depth 0, as it is |
| MarkupLayout.ReflowNested | formatter.js:150-191 | `<div>`, `<p>hi</p>`, `</div>` on three lines become `<div>`, then `<p>hi</p>` and `</div>` both one unit deep |
| MarkupLayout.ReflowOneLine | formatter.js:150-191 | `<div><p>hi</p></div>` stays as it is, on one line |
| CssLayout.CleanRule | formatter.js:207-210 | the three replaces turn `sel{d1;…;dn;}` into `sel {`, then `d;` per line, then `}` and a final line break |
| CssLayout.OpenBracePass | formatter.js:208 | `\s*{\s*` replaces the one brace with ` {` and a line break |
| CssLayout.SemicolonPass | formatter.js:209 | `;\s*` gives each declaration's semicolon a line break |
| CssLayout.CloseBracePass | formatter.js:210 | `\s*}\s*` takes the line break before the brace and adds one after it |
| CssLayout.LinesOfRule | formatter.js:215 | the cleaned rule splits into the selector line, the declarations, `}` and an empty last piece |
| CssLayout.LayoutOfRule | formatter.js:218-234 | the counter gives the selector line depth 0, each declaration depth 1 and `}` depth 0 |
| CssLayout.RenderOfRule | formatter.js:228-236 | the pushed lines joined by line breaks |
| CssLayout.FlatRule | formatter.js:199-241 | `formatCSS` of a flat rule puts one declaration per line one unit deep and `}` alone at depth 0 |
| CssLayout.Example | formatter.js:199-241 | `.a{color:red;margin:0;}` at indent 2 becomes `.a {`, `  color:red;`, `  margin:0;`, `}` |
| Formatter.IndentSize | formatter.js:71-74 | `config.indentSize \|\| 2`: the configured size unless it is missing or 0, then 2 |
| Formatter.LiteralAt | formatter.js:61-129 | a literal match ends after it starts, inside the text, and is replaced by non-empty text |
| Formatter.LiteralRule | formatter.js:61-63 | the literal passes are well-formed global replaces |
| Formatter.TemplatePass | formatter.js:58-92 | the template pass gives "" exactly for "", and leaves text where no template literal starts unchanged |
| Formatter.StylePass | formatter.js:96-129 | the style pass gives "" exactly for "", and leaves text where no style literal starts unchanged |
| Formatter.SignalAt | formatter.js:254-265 | an interpolation match is replaced by non-empty text and ends inside the text |
| Formatter.SignalRule | formatter.js:253-254 | the signal pass is a well-formed global replace |
| Formatter.SignalPass | formatter.js:248-271 | the signal pass gives "" exactly for "", and leaves text with no interpolation unchanged |
| Formatter.InterpolationChars | formatter.js:256-258 | a match of the interpolation pattern holds no `.` and no `(`, so those two tests never fire |
| Formatter.SignalRewrite | formatter.js:253-264 | an interpolation of `name` becomes `{{ name.value }}` exactly when `const name = signal(` occurs in the text, and stays as it is otherwise |
| Formatter.RewrittenNotMatched | formatter.js:253-264 | the pattern matches nowhere inside `{{ name.value }}`, so a second run leaves it alone |
| Formatter.Capture | formatter.js:297 | `\(\{\s*([^}]+)\s*\}\)` captures a non-empty tail of the parameter region, after white space only: from the first non-space character on, or the last character when the region is all white space |
| Formatter.IndentEach | formatter.js:321 | each line becomes the indent followed by the trimmed line |
| Formatter.SetupAt | formatter.js:286-331 | a setup match ends inside the text and is replaced by non-empty text |
| Formatter.SetupRule | formatter.js:283-286 | the setup pass is a well-formed global replace |
| Formatter.SetupPass | formatter.js:280-335 | the setup pass gives "" exactly for "", and leaves text with no setup function unchanged |
| Formatter.ParamsRoundTrip | formatter.js:302-308 | splitting a `, `-joined list of tidy parameters, dropping blanks and trimming gives the list back |
| Formatter.ParamListIdempotent | formatter.js:302-306 | normalising a parameter list twice is normalising it once |
| Formatter.BlockBodyLines | formatter.js:315-322 | the block body has one line per line of the trimmed body, each the indent followed by the trimmed line |
| Formatter.EventAt | formatter.js:346-356 | an event match ends inside the text and is replaced by non-empty text |
| Formatter.EventRule | formatter.js:346-348 | the event pass is a well-formed global replace |
| Formatter.EventPass | formatter.js:343-363 | the event pass gives "" exactly for "", and leaves text with no event attribute unchanged |
| Formatter.EventNameShape | formatter.js:346 | the captured event name is `@`, a letter and name characters |
| Formatter.TrimmedHandlerShape | formatter.js:353 | the trimmed handler has no white space at its ends and no line break |
| Formatter.CanonicalEventMatch | formatter.js:346 | the pattern matches `@name="handler"` as written |
| Formatter.CanonicalEventFixed | formatter.js:350-356 | on such a match the callback returns the match itself |
| Formatter.CanonicalEventLaidOut | formatter.js:356 | a rewritten attribute has the canonical layout |
| Formatter.EventRewriteStable | formatter.js:346-356 | a rewritten attribute is matched again as a whole and rewritten to itself |
| Formatter.CanonicalEventStable | formatter.js:346-356 | `@name="handler"` with a tidy handler is a fixed point of the event callback |
| Formatter.PlainUnmatched | formatter.js:52-137 | in a text with no `:`, `{` or `@` none of the five patterns matches anywhere |
| Formatter.FormatElevaSpecific | formatter.js:52-142 | the Eleva passes give "" exactly for "", and pass a text with no `:`, `{` or `@` through unchanged |
| Formatter.FormatElevaComponent | formatter.js:9-21 | `formatElevaComponent` gives "" exactly when its input to the passes (Prettier's output, or the text when Prettier fails) is "", and returns plain text unchanged when Prettier fails |
| Positions.Clamp | extension.js:233-234 | an offset is clamped into the document and kept when already inside |
| Positions.PositionAt | extension.js:233-234 | the line of an offset is the number of line breaks before the clamped offset, at most the document's, and the position maps back to the clamped offset |
| Positions.PositionFacts | extension.js:233-234 | the line of an offset is the number of line breaks before it, and the character is the distance from the last one |
| Positions.PositionMonotone | extension.js:233-234 | a later offset never has an earlier position |
| Positions.LineStart | extension.js:233-234 | where a line starts lies inside the text |
| Positions.OffsetRoundTrip | extension.js:233-234 | mapping an offset to its position and back gives the offset |
| SemanticTokens.Collect | extension.js:225-242 | every collected token is the token of a match the pattern finds inside the text |
| SemanticTokens.CollectAll | extension.js:225-242 | every token an `exec` loop collects satisfies what every match satisfies |
| SemanticTokens.CollectIncreasing | extension.js:225-266 | the collected tokens come in order, each after the one before |
| SemanticTokens.CollectLeftmost | extension.js:225-266 | the `exec` loop misses nothing: a match is reported unless an earlier reported match runs past its start |
| SemanticTokens.EventFound | extension.js:225-237 | an event match moves the scan forward inside the content |
| SemanticTokens.EventFinder | extension.js:225 | the event loop always advances |
| SemanticTokens.SignalFound | extension.js:249-261 | a signal match moves the scan forward inside the content |
| SemanticTokens.SignalFinder | extension.js:249 | the signal loop always advances |
| SemanticTokens.PropFound | extension.js:273-285 | a prop match moves the scan forward inside the text |
| SemanticTokens.PropFinder | extension.js:273 | the prop loop always advances |
| SemanticTokens.TemplateStart | extension.js:218-219 | `templateStart` is at or before the content's own start, and the content occurs there |
| SemanticTokens.ContentInMatch | extension.js:219 | `templateMatch[0].indexOf(templateContent)` finds the content no later than where it lies |
| SemanticTokens.TemplateFound | extension.js:209-219 | a template match moves the scan forward and its content lies inside the text |
| SemanticTokens.TemplateFinder | extension.js:213 | the template loop always advances, and so do the loops inside it |
| SemanticTokens.EventFoundIn | extension.js:225-237 | an event token starts at `@`, a letter follows, its length is 1 plus the name's, the name is the longest run, and the token lies inside the match |
| SemanticTokens.EventTokens | extension.js:225-242 | all event tokens of a content are such tokens, in order |
| SemanticTokens.EventReported | extension.js:222-242 | every event attribute of a content yields its token, unless an earlier reported attribute runs past it |
| SemanticTokens.SignalFoundIn | extension.js:249-261 | a signal token starts two characters after `{{`, is as long as the captured name, which is the longest run after the white space, and lies inside the match |
| SemanticTokens.SignalTokens | extension.js:249-266 | all signal tokens of a content are such tokens, in order |
| SemanticTokens.SignalReported | extension.js:245-266 | every signal interpolation of a content yields its token, unless an earlier reported one runs past it |
| SemanticTokens.PropFoundIn | extension.js:273-285 | a prop token starts right after `eleva-prop-` and covers the name |
| SemanticTokens.PropTokens | extension.js:273-290 | all prop tokens are such tokens, in order |
| SemanticTokens.PropReported | extension.js:270-290 | every `eleva-prop-` attribute of the document yields its token, unless an earlier reported one runs past it |
| SemanticTokens.TemplateHead | extension.js:209-210 | before a template's opening quote there is no `@` or `{`, and the content never holds the quote |
| SemanticTokens.TemplateStartExact | extension.js:218-219 | when the content holds an `@` or a `{`, `templateStart` is exactly where the content starts |
| SemanticTokens.TemplateEventIn | extension.js:229 | an event token of a template content points at an `@` in the document |
| SemanticTokens.TemplateSignalIn | extension.js:253 | a signal token of a template content follows a `{{` in the document |
| SemanticTokens.TemplateFoundIn | extension.js:213-266 | every token of one template points at what it highlights in the document |
| SemanticTokens.TemplatesIn | extension.js:213-267 | so does every token of the template loop |
| SemanticTokens.TemplateFoundComplete | extension.js:209-219 | every template literal is found where it starts, with its content and its end |
| SemanticTokens.VisitsPast | extension.js:209-214 | of two starts the template loop tries, the later one lies at or past the end of the earlier one's match |
| SemanticTokens.ReachedUncovered | extension.js:209-214 | a template match the loop tries is never covered, so the cover excludes only matches the scan skips |
| SemanticTokens.TemplateLeftmost | extension.js:213-267 | the tokens of a template literal with content appear together among the scan's, unless a literal the loop tries earlier runs past it |
| SemanticTokens.DocumentEventReported | extension.js:213-242 | an event attribute of a template literal the scan reaches (no literal the loop tries runs past its start), not covered by an earlier attribute, has its token in the document's |
| SemanticTokens.DocumentSignalReported | extension.js:213-266 | the same for a signal interpolation |
| SemanticTokens.DocumentRaws | extension.js:205-290 | every token of the document points at an `@`, a `{{` or an `eleva-prop-` name |
| SemanticTokens.TokenizeAppend | extension.js:237-285 | pushing two lists of tokens pushes their entries one list after the other |
| SemanticTokens.Scan | extension.js:225-290 | an `exec` loop pushes exactly the entries of the tokens it collects |
| SemanticTokens.ScanTemplates | extension.js:213-267 | the template loop pushes the event and then the signal entries of each template with content |
| SemanticTokens.ScanTemplate | extension.js:225-266 | one template: the event loop's entries, then the signal loop's, for its content |
| SemanticTokens.ProvideDocumentSemanticTokens | extension.js:199-297 | the builder ends up with the entries of the template tokens followed by the prop tokens |
| SemanticTokens.TokenizeEach | extension.js:233-237 | one entry per token, in order |
| SemanticTokens.ProvidedTokens | extension.js:199-297 | each pushed entry has the token's type and length, and its line and character lead back to the token's offset |

## Left out

- Prettier is not modelled. `formatElevaComponent` takes Prettier's output as
  an optional parameter, and `None` stands for Prettier throwing, in which
  case the text goes on unchanged. The outer `catch` that returns the
  original text is not reached by the passes as modelled.
- `console.error` calls are not modelled: they are logging only.
- VS Code plumbing is not modelled: command and provider registration,
  `getFormatterConfig`, the formatting-provider wrapper and document edits.
  The semantic-token builder is modelled as the list of `(line, character,
  length, type)` entries pushed; the modifier argument is always 0 and is
  not kept. The builder's delta encoding and the token legend are left to
  VS Code.
- `detector.js` and the webpack configuration are not part of this model.
- Regular expressions are not modelled in general. Each fixed pattern of the
  core is a hand-written anchored matcher, with its match shape stated as a
  predicate.
- Positions: `positionAt` treats only `\n` as a line break. A Dafny `char`
  is a Unicode scalar value, while JavaScript strings count UTF-16 code
  units. A character outside the Basic Multilingual Plane is one `char`
  here but two units in JavaScript, so offsets, characters and lengths
  after such a character are not modelled unit for unit. For text inside
  that plane they agree.
- The per-token `try`/`catch` blocks and the provider's outer guard are not
  modelled: nothing inside them can throw once `positionAt` is total.
- `indentSize` is an integer. A fractional or non-numeric value is not
  modelled.
- Reflow.Reflow: `repeat` also throws a RangeError when its result would be
  longer than the engine's maximum string length. This can happen for
  `" ".repeat(indentSize)` with a huge size (formatter.js:164, 214, 315)
  and for `indent.repeat(depth)` at depth (formatter.js:178, 228). The
  indenters then return their input. The model has no string-length limit
  and builds the indented text instead.
- Formatter.SetupAt: for the same reason, the block `setup` callback
  returns its match when `" ".repeat(indentSize)` exceeds that limit
  (formatter.js:315, 328). The model builds the indented body instead.
- CssLayout covers flat rules only: a selector and declarations made of
  characters other than white space, braces and semicolons, each
  declaration ended by a semicolon. Nested rules, comments and white space
  inside the input are not worked through. The indenter itself is modelled
  for every input in `Reflow`.
- Formatter.EventRewriteStable: proved only for handlers free of `"`. A
  handler holding `"` is re-emitted between double quotes and no longer
  reads back as the same attribute.
- Formatter.LiteralAt: its own contract states only that a match is well
  formed and its replacement non-empty; the reflowed content is stated by
  the Reflow lemmas.
- Formatter.SignalAt: its own contract states only well-formedness; what it
  computes is stated by SignalRewrite.
- Formatter.SetupAt: its own contract states only well-formedness; what it
  computes is stated by ParamsRoundTrip, ParamListIdempotent and
  BlockBodyLines.
- Formatter.EventAt: its own contract states only well-formedness; what it
  computes is stated by EventRewriteStable and CanonicalEventStable.
