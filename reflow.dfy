/** The two reflow engines of the formatter: `formatTemplateHTML` for the
    markup inside a template literal and `formatCSS` for the rules inside a
    style literal. Both first normalise white space with a few global
    replaces so that every tag or rule sits on a line of its own, then walk
    the lines with a depth counter: a closing line is emitted one level
    shallower (never below zero), an opening line raises the depth of the
    lines after it, and blank lines are dropped. */
module Reflow {
  import opened Text
  import opened Replace
  import opened Patterns

  /** Which of the two engines: markup (template) or stylesheet (style). */
  datatype Dialect = Markup | Stylesheet

  // ---------------------------------------------------------------------
  // White-space normalisation.
  // ---------------------------------------------------------------------

  // `.replace(/\s+/g, " ")`
  function CollapseAt(s: string, i: nat): (r: Option<Hit>)
    ensures r.Some? ==> i < r.value.end <= |s|
  {
    match MatchSpaceRun(s, i)
    case None => None
    case Some(e) => Some(Hit(e, " "))
  }

  // `.replace(/> </g, ">\n<")`
  function TagGapAt(s: string, i: nat): (r: Option<Hit>)
    ensures r.Some? ==> i < r.value.end <= |s|
  {
    match MatchTagGap(s, i)
    case None => None
    case Some(e) => Some(Hit(e, ">\n<"))
  }

  // `.replace(/<\/([a-z0-9]+)><([a-z0-9]+)>/gi, "</$1>\n<$2>")`
  function CloseOpenAt(s: string, i: nat): (r: Option<Hit>)
    ensures r.Some? ==> i < r.value.end <= |s|
  {
    match MatchCloseOpen(s, i)
    case None => None
    case Some(m) => Some(Hit(m.1, "</" + s[i + 2..m.0] + ">\n<" + s[m.0 + 2..m.1 - 1] + ">"))
  }

  // `.replace(/\s*{\s*/g, " {\n")` and `.replace(/\s*}\s*/g, "\n}\n")`:
  // the brace `c` with the white space around it becomes `replacement`.
  function SpacedBraceAt(s: string, i: nat, c: char, replacement: string): (r: Option<Hit>)
    ensures r.Some? ==> i < r.value.end <= |s|
  {
    match MatchSpacedChar(s, i, c)
    case None => None
    case Some(e) => Some(Hit(e, replacement))
  }

  // `.replace(/;\s*/g, ";\n")`
  function SemicolonAt(s: string, i: nat): (r: Option<Hit>)
    ensures r.Some? ==> i < r.value.end <= |s|
  {
    match MatchSemicolon(s, i)
    case None => None
    case Some(e) => Some(Hit(e, ";\n"))
  }

  function CollapseRule(s: string): (rule: nat -> Option<Hit>)
    ensures WellFormed(s, rule)
  {
    (i: nat) => CollapseAt(s, i)
  }

  function TagGapRule(s: string): (rule: nat -> Option<Hit>)
    ensures WellFormed(s, rule)
  {
    (i: nat) => TagGapAt(s, i)
  }

  function CloseOpenRule(s: string): (rule: nat -> Option<Hit>)
    ensures WellFormed(s, rule)
  {
    (i: nat) => CloseOpenAt(s, i)
  }

  function SpacedBraceRule(s: string, c: char, replacement: string): (rule: nat -> Option<Hit>)
    ensures WellFormed(s, rule)
  {
    (i: nat) => SpacedBraceAt(s, i, c, replacement)
  }

  function SemicolonRule(s: string): (rule: nat -> Option<Hit>)
    ensures WellFormed(s, rule)
  {
    (i: nat) => SemicolonAt(s, i)
  }

  /** The cleaned markup: trimmed, white-space runs collapsed to one space,
      a line break put into every `> <` and between a closing tag and an
      opening tag that touch. It is empty exactly when the input is all
      white space. */
  function CleanMarkup(html: string): (r: string)
    ensures r == [] <==> AllSpace(html)
  {
    var a := Trim(html);
    ReplaceNonEmpty(a, CollapseRule(a), 0);
    var b := ReplaceAll(a, CollapseRule(a));
    ReplaceNonEmpty(b, TagGapRule(b), 0);
    var c := ReplaceAll(b, TagGapRule(b));
    ReplaceNonEmpty(c, CloseOpenRule(c), 0);
    ReplaceAll(c, CloseOpenRule(c))
  }

  /** The cleaned stylesheet: trimmed, every `{` followed by a line break,
      every `;` followed by a line break, and every `}` on a line of its own.
      It is empty exactly when the input is all white space. */
  function CleanStylesheet(css: string): (r: string)
    ensures r == [] <==> AllSpace(css)
  {
    var a := Trim(css);
    ReplaceNonEmpty(a, SpacedBraceRule(a, '{', " {\n"), 0);
    var b := ReplaceAll(a, SpacedBraceRule(a, '{', " {\n"));
    ReplaceNonEmpty(b, SemicolonRule(b), 0);
    var c := ReplaceAll(b, SemicolonRule(b));
    ReplaceNonEmpty(c, SpacedBraceRule(c, '}', "\n}\n"), 0);
    ReplaceAll(c, SpacedBraceRule(c, '}', "\n}\n"))
  }

  function Clean(d: Dialect, text: string): string {
    match d
    case Markup => CleanMarkup(text)
    case Stylesheet => CleanStylesheet(text)
  }

  // ---------------------------------------------------------------------
  // The depth counter.
  // ---------------------------------------------------------------------

  /** A trimmed line that closes a level: one starting with `</` in markup,
      one that is exactly `}` in a stylesheet. */
  predicate Closes(d: Dialect, t: string) {
    match d
    case Markup => HasAt(t, 0, "</")
    case Stylesheet => t == "}"
  }

  /** A trimmed line that opens a level: one holding an opening tag and no
      self-closing tag in markup, one holding a `{` in a stylesheet. */
  predicate Opens(d: Dialect, t: string) {
    match d
    case Markup => HasOpeningTag(t) && !HasSelfClosingTag(t)
    case Stylesheet => '{' in t
  }

  /** An emitted line: its indentation level and its trimmed text. */
  datatype Entry = Entry(level: nat, text: string)

  /** The level a line with text `t` gets when the counter stands at `depth`. */
  function LevelOf(d: Dialect, t: string, depth: nat): nat {
    if Closes(d, t) && depth > 0 then depth - 1 else depth
  }

  /** The counter after the entry `e` has been emitted. */
  function DepthAfter(d: Dialect, e: Entry): nat {
    if Opens(d, e.text) then e.level + 1 else e.level
  }

  /** The entries the loop emits for `lines` when the counter starts at `depth`. */
  function Layout(d: Dialect, lines: seq<string>, depth: nat): seq<Entry>
    decreases |lines|
  {
    if lines == [] then []
    else
      var t := Trim(lines[0]);
      if t == [] then Layout(d, lines[1..], depth)
      else
        var level := LevelOf(d, t, depth);
        [Entry(level, t)] + Layout(d, lines[1..], DepthAfter(d, Entry(level, t)))
  }

  /** Each entry as an output line: its level times the indent unit, then its text. */
  function Render(es: seq<Entry>, unit: string): (lines: seq<string>)
    ensures |lines| == |es|
    ensures forall k :: 0 <= k < |es| ==> lines[k] == Repeat(unit, es[k].level) + es[k].text
  {
    if es == [] then [] else [Repeat(unit, es[0].level) + es[0].text] + Render(es[1..], unit)
  }

  /** What `formatTemplateHTML` (Markup) and `formatCSS` (Stylesheet)
      return: "" for empty input; the input itself when the indent size is
      negative, since `" ".repeat` then throws and the engine falls back to
      its input; otherwise the rendered lines joined by line breaks. The
      RangeError `repeat` raises past the engine's maximum string length
      is not modelled: the string is built whatever its length. */
  function Reflow(d: Dialect, text: string, indentSize: int): string {
    if text == [] then ""
    else if indentSize < 0 then text
    else Indented(d, Clean(d, text), indentSize)
  }

  /** The depth-counter pass over cleaned text, with an indent unit of `n` spaces. */
  function Indented(d: Dialect, cleaned: string, n: nat): string {
    Join(Render(Layout(d, Split(cleaned, '\n'), 0), Repeat(" ", n)), "\n")
  }

  // ---------------------------------------------------------------------
  // The engines.
  // ---------------------------------------------------------------------

  lemma LayoutStep(d: Dialect, lines: seq<string>, k: nat, depth: nat)
    requires k < |lines|
    ensures Trim(lines[k]) == [] ==> Layout(d, lines[k..], depth) == Layout(d, lines[k + 1..], depth)
    ensures Trim(lines[k]) != [] ==>
      var e := Entry(LevelOf(d, Trim(lines[k]), depth), Trim(lines[k]));
      Layout(d, lines[k..], depth) == [e] + Layout(d, lines[k + 1..], DepthAfter(d, e))
  {
    assert lines[k..][0] == lines[k] && lines[k..][1..] == lines[k + 1..];
  }

  lemma RenderStep(e: Entry, rest: seq<Entry>, unit: string)
    ensures Render([e] + rest, unit) == [Repeat(unit, e.level) + e.text] + Render(rest, unit)
  {
    assert ([e] + rest)[1..] == rest;
  }

  /** One turn of the loop on a non-blank line: pushing the line at the
      level the counter gives it leaves the rest of the layout to the lines
      after it, with the counter as the line leaves it. */
  lemma EmitStep(d: Dialect, lines: seq<string>, k: nat, depth: nat, unit: string, formatted: seq<string>)
    requires k < |lines| && Trim(lines[k]) != []
    ensures var t := Trim(lines[k]);
      var e := Entry(LevelOf(d, t, depth), t);
      formatted + [Repeat(unit, e.level) + t] + Render(Layout(d, lines[k + 1..], DepthAfter(d, e)), unit)
        == formatted + Render(Layout(d, lines[k..], depth), unit)
  {
    var t := Trim(lines[k]);
    var e := Entry(LevelOf(d, t, depth), t);
    var rest := Layout(d, lines[k + 1..], DepthAfter(d, e));
    LayoutStep(d, lines, k, depth);
    RenderStep(e, rest, unit);
  }

  /** One turn of the loop on a blank line: nothing is pushed. */
  lemma SkipStep(d: Dialect, lines: seq<string>, k: nat, depth: nat, unit: string)
    requires k < |lines| && Trim(lines[k]) == []
    ensures Render(Layout(d, lines[k + 1..], depth), unit) == Render(Layout(d, lines[k..], depth), unit)
  {
    LayoutStep(d, lines, k, depth);
  }

  /** The body of the loop for a non-blank trimmed line: the counter
      drops before a closing line (never below zero), the line is pushed at
      the counter's level, and the counter rises after an opening line. */
  method PushLine(d: Dialect, trimmed: string, depth: nat, unit: string, formatted: seq<string>)
    returns (pushed: seq<string>, next: nat)
    ensures pushed == formatted + [Repeat(unit, LevelOf(d, trimmed, depth)) + trimmed]
    ensures next == DepthAfter(d, Entry(LevelOf(d, trimmed, depth), trimmed))
  {
    next := depth;
    if Closes(d, trimmed) && next > 0 {
      next := next - 1;
    }
    pushed := formatted + [Repeat(unit, next) + trimmed];
    if Opens(d, trimmed) {
      next := next + 1;
    }
  }

  /** The loop over the cleaned lines, with its depth counter and the array
      of formatted lines it pushes to. */
  method IndentLines(d: Dialect, lines: seq<string>, unit: string) returns (formatted: seq<string>)
    ensures formatted == Render(Layout(d, lines, 0), unit)
  {
    var depth: nat := 0;
    formatted := [];
    var k := 0;
    while k < |lines|
      invariant k <= |lines|
      invariant formatted + Render(Layout(d, lines[k..], depth), unit) == Render(Layout(d, lines, 0), unit)
    {
      var trimmed := Trim(lines[k]);
      if trimmed != "" {
        EmitStep(d, lines, k, depth, unit, formatted);
        formatted, depth := PushLine(d, trimmed, depth, unit, formatted);
      } else {
        SkipStep(d, lines, k, depth, unit);
      }
      k := k + 1;
    }
    assert lines[k..] == [];
  }

  /** `formatTemplateHTML(html, indentSize)`. */
  method FormatTemplateHTML(html: string, indentSize: int) returns (r: string)
    ensures r == Reflow(Markup, html, indentSize)
    ensures html == [] ==> r == []
  {
    if html == [] {
      return "";
    }
    var cleaned := CleanMarkup(html);
    if indentSize < 0 {
      return html;
    }
    var indent := Repeat(" ", indentSize);
    var lines := Split(cleaned, '\n');
    var formatted := IndentLines(Markup, lines, indent);
    r := Join(formatted, "\n");
  }

  /** `formatCSS(css, indentSize)`. */
  method FormatCSS(css: string, indentSize: int) returns (r: string)
    ensures r == Reflow(Stylesheet, css, indentSize)
    ensures css == [] ==> r == []
  {
    if css == [] {
      return "";
    }
    var cleaned := CleanStylesheet(css);
    if indentSize < 0 {
      return css;
    }
    var indent := Repeat(" ", indentSize);
    var lines := Split(cleaned, '\n');
    var formatted := IndentLines(Stylesheet, lines, indent);
    r := Join(formatted, "\n");
  }

  // ---------------------------------------------------------------------
  // What the engines promise.
  // ---------------------------------------------------------------------

  /** The emitted texts are exactly the non-blank lines, trimmed, in order:
      no blank line is emitted and none is reordered or merged. */
  lemma {:induction false} LayoutTexts(d: Dialect, lines: seq<string>, depth: nat)
    ensures |Layout(d, lines, depth)| == |NonBlank(lines)|
    ensures forall k :: 0 <= k < |NonBlank(lines)| ==> Layout(d, lines, depth)[k].text == NonBlank(lines)[k]
    decreases |lines|
  {
    if lines != [] {
      var t := Trim(lines[0]);
      if t == [] {
        LayoutTexts(d, lines[1..], depth);
      } else {
        LayoutTexts(d, lines[1..], DepthAfter(d, Entry(LevelOf(d, t, depth), t)));
      }
    }
  }

  /** The level of every entry is what the counter gives it: the counter
      starts at `depth`, a closing line stands one level below the counter
      when that is positive, and after an opening line the counter is one
      more than that line's level. */
  ghost predicate Follows(d: Dialect, es: seq<Entry>, depth: nat)
    decreases |es|
  {
    es == [] || (es[0].level == LevelOf(d, es[0].text, depth) && Follows(d, es[1..], DepthAfter(d, es[0])))
  }

  lemma {:induction false} LayoutFollows(d: Dialect, lines: seq<string>, depth: nat)
    ensures Follows(d, Layout(d, lines, depth), depth)
    decreases |lines|
  {
    if lines != [] {
      var t := Trim(lines[0]);
      if t == [] {
        LayoutFollows(d, lines[1..], depth);
      } else {
        var e := Entry(LevelOf(d, t, depth), t);
        var rest := Layout(d, lines[1..], DepthAfter(d, e));
        LayoutFollows(d, lines[1..], DepthAfter(d, e));
        assert ([e] + rest)[1..] == rest;
      }
    }
  }

  /** Consecutive levels differ by at most one, and a level drops only at a
      closing line. */
  lemma {:induction false} LevelSteps(d: Dialect, es: seq<Entry>, depth: nat, k: nat)
    requires Follows(d, es, depth) && 0 < k < |es|
    ensures es[k].level <= es[k - 1].level + 1
    ensures es[k - 1].level <= es[k].level + 1
    ensures es[k].level < es[k - 1].level ==> Closes(d, es[k].text)
    decreases k
  {
    if k == 1 {
      assert es[1..][0] == es[1];
    } else {
      LevelSteps(d, es[1..], DepthAfter(d, es[0]), k - 1);
      assert es[1..][k - 1] == es[k] && es[1..][k - 2] == es[k - 1];
    }
  }

  lemma RepeatAppend(s: string, m: nat, n: nat)
    ensures Repeat(s, m + n) == Repeat(s, m) + Repeat(s, n)
    decreases m
  {
    if m > 0 {
      RepeatAppend(s, m - 1, n);
    }
  }

  /** `n * level` spaces. */
  function Indent(n: nat, level: nat): (r: string)
    ensures forall j :: 0 <= j < |r| ==> r[j] == ' '
  {
    Repeat(" ", n * level)
  }

  /** `indent.repeat(depth)` with `indent = " ".repeat(n)` is `n * depth` spaces. */
  lemma {:induction false} RepeatRepeat(n: nat, level: nat)
    ensures Repeat(Repeat(" ", n), level) == Indent(n, level)
    decreases level
  {
    if level > 0 {
      RepeatRepeat(n, level - 1);
      RepeatAppend(" ", n, n * (level - 1));
    }
  }

  /** A rendered line: `n * level` spaces, then a text that is non-blank,
      trimmed and free of line breaks; so the line has no line break. */
  lemma RenderedLine(es: seq<Entry>, n: nat, k: nat)
    requires k < |es| && Tidy(es[k].text, '\n')
    ensures var line := Render(es, Repeat(" ", n))[k];
      line == Indent(n, es[k].level) + es[k].text && '\n' !in line
  {
    var level := es[k].level;
    RepeatRepeat(n, level);
    var sp := Indent(n, level);
    assert Render(es, Repeat(" ", n))[k] == sp + es[k].text;
  }

  /** The shape of the rendered lines for cleaned lines without line breaks. */
  lemma RenderedShape(d: Dialect, pieces: seq<string>, n: nat)
    requires forall k :: 0 <= k < |pieces| ==> '\n' !in pieces[k]
    ensures var es := Layout(d, pieces, 0);
      var lines := Render(es, Repeat(" ", n));
      && |es| == |NonBlank(pieces)|
      && Follows(d, es, 0)
      && (forall k :: 0 <= k < |es| ==>
            && es[k].text == NonBlank(pieces)[k]
            && lines[k] == Indent(n, es[k].level) + es[k].text
            && Tidy(es[k].text, '\n')
            && '\n' !in lines[k])
  {
    var es := Layout(d, pieces, 0);
    LayoutTexts(d, pieces, 0);
    LayoutFollows(d, pieces, 0);
    NonBlankShape(pieces, '\n');
    forall k | 0 <= k < |es|
      ensures Tidy(es[k].text, '\n')
    {
      assert es[k].text == NonBlank(pieces)[k];
    }
    forall k | 0 <= k < |es|
      ensures var line := Render(es, Repeat(" ", n))[k];
        line == Indent(n, es[k].level) + es[k].text && '\n' !in line
    {
      RenderedLine(es, n, k);
    }
  }

  /** Every line the depth-counter pass outputs is `n * level` spaces
      followed by a non-empty text with no white space at either end, the
      texts being the non-blank lines of the cleaned text in order and the
      levels those of the depth counter; splitting the output at line breaks
      gives these lines back. */
  lemma IndentedLines(d: Dialect, cleaned: string, n: nat)
    ensures var pieces := Split(cleaned, '\n');
      var es := Layout(d, pieces, 0);
      var lines := Render(es, Repeat(" ", n));
      && Indented(d, cleaned, n) == Join(lines, "\n")
      && |es| == |NonBlank(pieces)|
      && Follows(d, es, 0)
      && (forall k :: 0 <= k < |es| ==>
            && es[k].text == NonBlank(pieces)[k]
            && lines[k] == Indent(n, es[k].level) + es[k].text
            && Tidy(es[k].text, '\n'))
      && (es != [] ==> Split(Indented(d, cleaned, n), '\n') == lines)
  {
    var pieces := Split(cleaned, '\n');
    var lines := Render(Layout(d, pieces, 0), Repeat(" ", n));
    RenderedShape(d, pieces, n);
    if lines != [] {
      SplitJoin(lines, '\n');
    }
  }
}
