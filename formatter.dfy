/** The Eleva-specific formatting pipeline: five global search-and-replace
    passes over the component source, in a fixed order — template literals
    (reflowed markup), `{{ name }}` interpolations, style literals
    (reflowed CSS), the setup function, and `@event` attributes. Every
    callback and every pass catches its own errors and falls back to its
    input. The RangeError of `repeat` with a negative indent size is
    modelled; the one `repeat` raises past the engine's maximum string
    length is not. */
module Formatter {
  import opened Text
  import opened Replace
  import opened Patterns
  import opened Reflow

  /** The part of the formatter configuration these passes read:
      `indentSize`, None when it is absent (undefined or null). */
  datatype Config = Config(indentSize: Option<int>)

  /** `config.indentSize || 2`: an absent or zero indent size counts as 2. */
  function IndentSize(config: Config): (n: int)
    ensures config.indentSize.Some? && config.indentSize.value != 0 ==> n == config.indentSize.value
    ensures config.indentSize.None? || config.indentSize.value == 0 ==> n == 2
  {
    match config.indentSize
    case None => 2
    case Some(v) => if v == 0 then 2 else v
  }

  // ---------------------------------------------------------------------
  // Template and style literals.
  // ---------------------------------------------------------------------

  /** The callback of the template pass (`key` = "template", markup) and of
      the style pass (`key` = "style", stylesheet): the declaration up to
      its opening parenthesis is kept, the parameter list becomes `(ctx)`,
      and the content, reflowed, goes between backquotes, whatever quote it
      had. */
  function LiteralAt(key: string, d: Dialect, s: string, i: nat, n: int): (r: Option<Hit>)
    ensures r.Some? ==> i < r.value.end <= |s| && r.value.replacement != []
  {
    match MatchLiteral(key, s, i)
    case None => None
    case Some(m) =>
      Some(Hit(m.End(), s[i..m.open] + "(ctx) => `" + Reflow.Reflow(d, s[m.contentStart..m.contentEnd], n) + "`"))
  }

  function LiteralRule(key: string, d: Dialect, text: string, n: int): (rule: nat -> Option<Hit>)
    ensures WellFormed(text, rule)
  {
    (i: nat) => LiteralAt(key, d, text, i, n)
  }

  /** The template pass: empty only for empty text (no callback returns
      the empty string), and the identity where no template literal starts. */
  function TemplatePass(text: string, n: int): (r: string)
    ensures r == [] <==> text == []
    ensures (forall j: nat :: j < |text| ==> MatchLiteral("template", text, j).None?) ==> r == text
  {
    ReplaceNonEmpty(text, LiteralRule("template", Markup, text, n), 0);
    ReplaceAll(text, LiteralRule("template", Markup, text, n))
  }

  /** The style pass, likewise for style literals. */
  function StylePass(text: string, n: int): (r: string)
    ensures r == [] <==> text == []
    ensures (forall j: nat :: j < |text| ==> MatchLiteral("style", text, j).None?) ==> r == text
  {
    ReplaceNonEmpty(text, LiteralRule("style", Stylesheet, text, n), 0);
    ReplaceAll(text, LiteralRule("style", Stylesheet, text, n))
  }

  // ---------------------------------------------------------------------
  // formatSignalUsage
  // ---------------------------------------------------------------------

  /** The declaration whose presence makes `name` a signal. */
  function SignalDeclaration(name: string): string {
    "const " + name + " = signal("
  }

  /** The callback of `formatSignalUsage`, over the whole text `text`. */
  function SignalAt(text: string, i: nat): (r: Option<Hit>)
    ensures r.Some? ==> i < r.value.end <= |text| && r.value.replacement != []
  {
    match MatchInterpolation(text, i)
    case None => None
    case Some(m) =>
      var matched := text[i..m.End()];
      var name := text[m.nameStart..m.nameEnd];
      if Contains(matched, ".value") || Contains(matched, "(") || !Contains(text, SignalDeclaration(name))
      then Some(Hit(m.End(), matched))
      else Some(Hit(m.End(), "{{ " + name + ".value }}"))
  }

  function SignalRule(text: string): (rule: nat -> Option<Hit>)
    ensures WellFormed(text, rule)
  {
    (i: nat) => SignalAt(text, i)
  }

  /** The signal pass: empty only for empty text, and the identity where
      no interpolation starts. */
  function SignalPass(text: string): (r: string)
    ensures r == [] <==> text == []
    ensures (forall j: nat :: j < |text| ==> MatchInterpolation(text, j).None?) ==> r == text
  {
    ReplaceNonEmpty(text, SignalRule(text), 0);
    ReplaceAll(text, SignalRule(text))
  }

  // ---------------------------------------------------------------------
  // formatSetupFunction
  // ---------------------------------------------------------------------

  /** `$1` of `/\(\{\s*([^}]+)\s*\}\)/` applied to the parameter text
      `region` (never empty): the greedy `\s*` gives up its last character
      when the region is all white space, since `[^}]+` needs one. */
  function Capture(region: string): (c: string)
    requires region != []
    ensures 0 < |c| <= |region| && c == region[|region| - |c|..]
    ensures AllSpace(region[..|region| - |c|])
    ensures SpaceEnd(region, 0) < |region| ==> c == region[SpaceEnd(region, 0)..] && !IsSpace(c[0])
    ensures SpaceEnd(region, 0) == |region| ==> c == [region[|region| - 1]]
  {
    var a := SpaceEnd(region, 0);
    if a < |region| then region[a..] else region[|region| - 1..]
  }

  /** The destructured parameters: split at commas, blank entries dropped,
      the rest trimmed and joined with `", "`. */
  function ParamList(capture: string): string {
    Join(NonBlank(Split(capture, ',')), ", ")
  }

  /** Every line of the trimmed body, trimmed and prefixed with the indent. */
  function IndentEach(lines: seq<string>, indent: string): (r: seq<string>)
    ensures |r| == |lines|
    ensures forall k :: 0 <= k < |lines| ==> r[k] == indent + Trim(lines[k])
  {
    if lines == [] then [] else [indent + Trim(lines[0])] + IndentEach(lines[1..], indent)
  }

  function BlockBody(body: string, indent: string): string {
    Join(IndentEach(Split(Trim(body), '\n'), indent), "\n")
  }

  /** The callback of `formatSetupFunction`. The head is an arrow function
      exactly when it contains `=>`; the arrow form rewrites the first
      `({ … })` of the head (the parameters, at `m.paramStart`) and puts one
      space around the body; the block form indents every line of the
      trimmed body, and gives the match back unchanged when the indent size
      is negative. */
  function SetupAt(s: string, i: nat, n: int): (r: Option<Hit>)
    ensures r.Some? ==> i < r.value.end <= |s| && r.value.replacement != []
  {
    match MatchSetup(s, i)
    case None => None
    case Some(m) =>
      var start := s[i..m.headEnd];
      var body := s[m.headEnd..m.bodyEnd];
      var close := s[m.bodyEnd..m.end];
      if Contains(start, "=>") then
        var params := ParamList(Capture(s[m.paramStart..m.paramEnd]));
        var formattedStart := s[i..m.paramStart - 2] + "({ " + params + " })" + s[m.paramEnd + 2..m.headEnd];
        Some(Hit(m.end, formattedStart + " " + body + " " + close))
      else if n < 0 then Some(Hit(m.end, s[i..m.end]))
      else Some(Hit(m.end, start + "\n" + BlockBody(body, Repeat(" ", n)) + "\n" + close))
  }

  function SetupRule(text: string, n: int): (rule: nat -> Option<Hit>)
    ensures WellFormed(text, rule)
  {
    (i: nat) => SetupAt(text, i, n)
  }

  /** The setup pass: empty only for empty text, and the identity where no
      setup function starts. */
  function SetupPass(text: string, n: int): (r: string)
    ensures r == [] <==> text == []
    ensures (forall j: nat :: j < |text| ==> MatchSetup(text, j).None?) ==> r == text
  {
    ReplaceNonEmpty(text, SetupRule(text, n), 0);
    ReplaceAll(text, SetupRule(text, n))
  }

  // ---------------------------------------------------------------------
  // formatEventHandlers
  // ---------------------------------------------------------------------

  /** The callback of `formatEventHandlers`: `@name`, `=`, and the trimmed
      handler between double quotes. */
  function EventAt(s: string, i: nat): (r: Option<Hit>)
    ensures r.Some? ==> i < r.value.end <= |s| && r.value.replacement != []
  {
    match MatchEvent(s, i)
    case None => None
    case Some(m) => Some(Hit(m.End(), s[i..m.nameEnd] + "=\"" + Trim(s[m.contentStart..m.contentEnd]) + "\""))
  }

  function EventRule(text: string): (rule: nat -> Option<Hit>)
    ensures WellFormed(text, rule)
  {
    (i: nat) => EventAt(text, i)
  }

  /** The event pass: empty only for empty text, and the identity where no
      event attribute starts. */
  function EventPass(text: string): (r: string)
    ensures r == [] <==> text == []
    ensures (forall j: nat :: j < |text| ==> MatchEvent(text, j).None?) ==> r == text
  {
    ReplaceNonEmpty(text, EventRule(text), 0);
    ReplaceAll(text, EventRule(text))
  }

  // ---------------------------------------------------------------------
  // The pipeline.
  // ---------------------------------------------------------------------

  /** `formatElevaSpecific`: template, signal, style, setup, event. No
      pass ever replaces a match by nothing, so non-empty text stays
      non-empty; and outside the patterns nothing changes, so plain text
      comes out as it went in. */
  function FormatElevaSpecific(text: string, config: Config): (r: string)
    ensures r == [] <==> text == []
    ensures Plain(text) ==> r == text
  {
    var n := IndentSize(config);
    PlainUnmatched(text, n);
    EventPass(SetupPass(StylePass(SignalPass(TemplatePass(text, n)), n), n))
  }

  /** `formatElevaComponent`: Prettier's output (None when Prettier threw,
      in which case its wrapper hands the text back) goes through the
      Eleva-specific passes. The output is empty only when the text
      formatted is, and plain text is left as it is. */
  function FormatElevaComponent(text: string, config: Config, prettier: Option<string>): (r: string)
    ensures r == [] <==> (match prettier case Some(p) => p == [] case None => text == [])
    ensures prettier.None? && Plain(text) ==> r == text
  {
    var pretty := match prettier case Some(p) => p case None => text;
    FormatElevaSpecific(pretty, config)
  }

  // ---------------------------------------------------------------------
  // Properties of the signal pass.
  // ---------------------------------------------------------------------

  /** An interpolation match is `{{`, white space, word characters, white
      space and `}}`: it holds no `.` and no `(`. */
  lemma InterpolationChars(text: string, i: nat, m: InterpolationMatch)
    requires IsInterpolation(text, i, m)
    ensures forall j :: i <= j < m.End() ==> text[j] != '.' && text[j] != '('
  {
    forall j | i <= j < m.End() ensures text[j] != '.' && text[j] != '(' {
      if j < i + 2 {
        CharAt(text, i, "{{", j - i);
      } else if j < m.nameStart {
        SpaceUnmarked(text, i + 2, m.nameStart, j);
      } else if j < m.nameEnd {
        WordUnmarked(text, m.nameStart, m.nameEnd, j);
      } else if j < m.close {
        SpaceUnmarked(text, m.nameEnd, m.close, j);
      } else {
        CharAt(text, m.close, "}}", j - m.close);
      }
    }
  }

  /** The signal pass rewrites an interpolation exactly when the whole text
      declares its name as a signal; otherwise it gives the match back as
      it was. The tests for `.value` and `(` in the match never fire. */
  lemma SignalRewrite(text: string, i: nat)
    requires MatchInterpolation(text, i).Some?
    ensures var m := MatchInterpolation(text, i).value;
            var name := text[m.nameStart..m.nameEnd];
            SignalAt(text, i) == Some(Hit(m.End(),
              if Contains(text, SignalDeclaration(name)) then "{{ " + name + ".value }}" else text[i..m.End()]))
  {
    var m := MatchInterpolation(text, i).value;
    var matched := text[i..m.End()];
    InterpolationChars(text, i, m);
    assert forall j :: 0 <= j < |matched| ==> matched[j] == text[i + j];
    NotContains(matched, ".value");
    NotContains(matched, "(");
  }

  /** A rewritten interpolation `{{ name.value }}` is not matched again at
      any of its positions, whatever follows it. */
  lemma RewrittenNotMatched(name: string, rest: string, j: nat)
    requires name != [] && forall k :: 0 <= k < |name| ==> IsWordChar(name[k])
    requires j < |"{{ " + name + ".value }}"|
    ensures MatchInterpolation("{{ " + name + ".value }}" + rest, j).None?
  {
    var r := "{{ " + name + ".value }}";
    var t := r + rest;
    assert forall k :: 0 <= k < |name| ==> t[3 + k] == name[k];
    assert t[3 + |name|] == '.';
    if j == 0 {
      RunEndAt(t, 2, 3, IsSpace);
      RunEndAt(t, 3, 3 + |name|, IsWordChar);
      RunEndAt(t, 3 + |name|, 3 + |name|, IsSpace);
    } else {
      assert t[j] != '{' || t[j + 1] != '{';
      if j + 2 <= |t| {
        assert t[j..j + 2][0] == t[j] && t[j..j + 2][1] == t[j + 1];
      }
    }
  }

  // ---------------------------------------------------------------------
  // Properties of the event pass.
  // ---------------------------------------------------------------------

  predicate CanonicalEventName(name: string) {
    2 <= |name| && name[0] == '@' && IsLetter(name[1]) && Run(name, 2, |name|, IsEventNameChar)
  }

  predicate CanonicalHandler(t: string) {
    forall k :: 0 <= k < |t| ==> t[k] != '"' && !IsLineTerminator(t[k])
  }

  /** `u` starts with `@name="handler"`, the name ending at `L` and the
      closing quote at `ce`, the handler free of double quotes and line
      breaks. */
  predicate CanonicalEventAt(u: string, L: nat, ce: nat) {
    && 2 <= L && L + 2 <= ce < |u|
    && u[0] == '@' && IsLetter(u[1]) && Run(u, 2, L, IsEventNameChar)
    && u[L] == '=' && u[L + 1] == '"' && u[ce] == '"'
    && forall k :: L + 2 <= k < ce ==> u[k] != '"' && !IsLineTerminator(u[k])
  }

  lemma CanonicalEventMatch(u: string, L: nat, ce: nat)
    requires CanonicalEventAt(u, L, ce)
    ensures MatchEvent(u, 0) == Some(EventMatch(L, L, L + 2, ce))
  {
    RunEndAt(u, 2, L, IsEventNameChar);
    RunEndAt(u, L, L, IsSpace);
    assert u[L..L + 1] == "=";
    assert SkipTo(u, L, "=") == Some(L);
    MatchQuotedComplete(u, L + 1, L + 2, ce, true);
  }

  /** Once matched whole, an attribute whose handler is already trimmed is
      its own rewrite. */
  lemma CanonicalEventFixed(u: string, L: nat, ce: nat)
    requires L + 2 <= ce < |u|
    requires MatchEvent(u, 0) == Some(EventMatch(L, L, L + 2, ce))
    requires u[L..L + 2] == "=\"" && u[ce..ce + 1] == "\""
    requires var t := u[L + 2..ce]; t == [] || (!IsSpace(t[0]) && !IsSpace(t[|t| - 1]))
    ensures EventAt(u, 0) == Some(Hit(ce + 1, u[..ce + 1]))
  {
    TrimOfTrimmed(u[L + 2..ce]);
    SliceParts(u, 0, L, L + 2, ce, ce + 1);
    assert u[..ce + 1] == u[0..ce + 1];
  }

  /** A text that starts with `@name="t"` starts with a canonical attribute. */
  lemma CanonicalEventLaidOut(name: string, t: string, u: string)
    requires CanonicalEventName(name) && CanonicalHandler(t)
    requires var r := name + "=\"" + t + "\""; |r| <= |u| && u[..|r|] == r
    ensures var L := |name|; var ce := L + 2 + |t|;
            CanonicalEventAt(u, L, ce) && u[L..L + 2] == "=\"" && u[ce..ce + 1] == "\"" && u[L + 2..ce] == t
  {
    var r := name + "=\"" + t + "\"";
    var L := |name|;
    var ce := L + 2 + |t|;
    assert forall k :: 0 <= k < |r| ==> u[k] == r[k];
    assert forall k :: 0 <= k < L ==> r[k] == name[k];
    assert forall k :: L + 2 <= k < ce ==> r[k] == t[k - L - 2];
    assert r[L] == '=' && r[L + 1] == '"' && r[ce] == '"';
    assert u[L + 2..ce] == r[L + 2..ce] == t;
  }

  /** The handler of a match, trimmed: no double quote when the caller says
      so, no line break, no white space at either end. */
  lemma TrimmedHandlerShape(s: string, m: EventMatch)
    requires exists i: nat :: IsEvent(s, i, m)
    requires '"' !in Trim(s[m.contentStart..m.contentEnd])
    ensures var t := Trim(s[m.contentStart..m.contentEnd]);
            && CanonicalHandler(t)
            && (t == [] || (!IsSpace(t[0]) && !IsSpace(t[|t| - 1])))
  {
    var content := s[m.contentStart..m.contentEnd];
    var t := Trim(content);
    var a := SpaceEnd(content, 0);
    forall k | 0 <= k < |t| ensures t[k] != '"' && !IsLineTerminator(t[k]) {
      assert t[k] == content[a + k] == s[m.contentStart + a + k];
    }
  }

  lemma EventNameShape(s: string, i: nat, m: EventMatch)
    requires IsEvent(s, i, m)
    ensures CanonicalEventName(s[i..m.nameEnd])
  {
    var name := s[i..m.nameEnd];
    assert forall k :: 2 <= k < |name| ==> name[k] == s[i + k];
  }

  /** An attribute the event pass has rewritten is left as it is by the
      event pass, whatever follows it, as long as the trimmed handler holds
      no double quote (a handler that was single-quoted or backquoted may
      hold one, and then the rewritten attribute ends at that quote
      instead). */
  lemma EventRewriteStable(s: string, i: nat, u: string)
    requires MatchEvent(s, i).Some?
    requires var m := MatchEvent(s, i).value; '"' !in Trim(s[m.contentStart..m.contentEnd])
    requires var r := EventAt(s, i).value.replacement; |r| <= |u| && u[..|r|] == r
    ensures var r := EventAt(s, i).value.replacement;
            EventAt(u, 0) == Some(Hit(|r|, r))
  {
    var m := MatchEvent(s, i).value;
    var name := s[i..m.nameEnd];
    var t := Trim(s[m.contentStart..m.contentEnd]);
    assert EventAt(s, i).value.replacement == name + "=\"" + t + "\"";
    EventNameShape(s, i, m);
    TrimmedHandlerShape(s, m);
    CanonicalEventStable(name, t, u);
  }

  /** A text that starts with `@name="t"`, `t` trimmed and free of double
      quotes and line breaks, has that attribute as its own rewrite. */
  lemma CanonicalEventStable(name: string, t: string, u: string)
    requires CanonicalEventName(name) && CanonicalHandler(t)
    requires t == [] || (!IsSpace(t[0]) && !IsSpace(t[|t| - 1]))
    requires var r := name + "=\"" + t + "\""; |r| <= |u| && u[..|r|] == r
    ensures var r := name + "=\"" + t + "\""; EventAt(u, 0) == Some(Hit(|r|, r))
  {
    CanonicalEventLaidOut(name, t, u);
    var L := |name|;
    var ce := L + 2 + |t|;
    CanonicalEventMatch(u, L, ce);
    CanonicalEventFixed(u, L, ce);
  }

  // ---------------------------------------------------------------------
  // Properties of the setup pass.
  // ---------------------------------------------------------------------

  lemma TrimPadded(pad: string, p: string)
    requires AllSpace(pad) && p != [] && !IsSpace(p[0]) && !IsSpace(p[|p| - 1])
    ensures Trim(pad + p) == p
  {
    var s := pad + p;
    RunEndAt(s, 0, |pad|, IsSpace);
    var t := Trim(s);
    assert s[|s| - 1] == p[|p| - 1];
    assert |pad| + |t| == |s|;
    assert t == s[|pad|..] == p;
  }

  lemma SplitNone(a: string)
    requires ',' !in a
    ensures Split(a, ',') == [a]
  {
  }

  lemma NoCommaPadded(pad: string, p: string)
    requires AllSpace(pad) && ',' !in p
    ensures ',' !in pad + p
  {
    var s := pad + p;
    forall j | 0 <= j < |s| ensures s[j] != ',' {
      if j >= |pad| {
        assert s[j] == p[j - |pad|];
      }
    }
  }

  lemma NonBlankCons(x: string, rest: seq<string>)
    requires Trim(x) != []
    ensures NonBlank([x] + rest) == [Trim(x)] + NonBlank(rest)
  {
    assert ([x] + rest)[1..] == rest;
  }

  /** A padded parameter alone: no comma, so one piece, trimmed back. */
  lemma ParamAlone(pad: string, p: string)
    requires AllSpace(pad) && Tidy(p, ',')
    ensures NonBlank(Split(pad + p, ',')) == [p]
  {
    NoCommaPadded(pad, p);
    SplitNone(pad + p);
    TrimPadded(pad, p);
    NonBlankCons(pad + p, []);
  }

  /** Padding alone: one blank piece, dropped. */
  lemma ParamsNone(pad: string)
    requires AllSpace(pad)
    ensures NonBlank(Split(pad, ',')) == []
  {
    NoCommaPadded(pad, "");
    assert pad + "" == pad;
    SplitNone(pad);
  }

  /** The first of several padded parameters is cut off at its comma. */
  lemma ParamsCons(pad: string, p: string, ps: seq<string>)
    requires AllSpace(pad) && Tidy(p, ',') && ps != []
    ensures NonBlank(Split(pad + Join([p] + ps, ", "), ',')) == [p] + NonBlank(Split(" " + Join(ps, ", "), ','))
  {
    var tail := Join(ps, ", ");
    assert ([p] + ps)[1..] == ps;
    assert pad + Join([p] + ps, ", ") == (pad + p) + "," + (" " + tail);
    NoCommaPadded(pad, p);
    SplitCons(pad + p, ',', " " + tail);
    TrimPadded(pad, p);
    NonBlankCons(pad + p, Split(" " + tail, ','));
  }

  /** Splitting a printed parameter list at its commas and dropping and
      trimming as the arrow form does gives back the parameters. */
  lemma {:induction false} ParamsRoundTrip(pad: string, ps: seq<string>)
    requires AllSpace(pad)
    requires forall k :: 0 <= k < |ps| ==> Tidy(ps[k], ',')
    ensures NonBlank(Split(pad + Join(ps, ", "), ',')) == ps
    decreases |ps|
  {
    if ps == [] {
      assert pad + Join(ps, ", ") == pad;
      ParamsNone(pad);
    } else if |ps| == 1 {
      assert pad + Join(ps, ", ") == pad + ps[0];
      ParamAlone(pad, ps[0]);
    } else {
      ParamsCons(pad, ps[0], ps[1..]);
      assert [ps[0]] + ps[1..] == ps;
      ParamsRoundTrip(" ", ps[1..]);
    }
  }

  /** Formatting a formatted parameter list changes nothing. */
  lemma ParamListIdempotent(capture: string)
    ensures ParamList(ParamList(capture)) == ParamList(capture)
  {
    var ps := NonBlank(Split(capture, ','));
    NonBlankShape(Split(capture, ','), ',');
    ParamsRoundTrip("", ps);
    assert "" + Join(ps, ", ") == Join(ps, ", ");
  }

  /** The block form keeps the body's lines: splitting its output at line
      breaks gives one line per line of the trimmed body, in order, each the
      indent followed by that line trimmed (a blank line becomes the bare
      indent). */
  lemma BlockBodyLines(body: string, n: nat)
    ensures var lines := Split(Trim(body), '\n');
            var out := Split(BlockBody(body, Repeat(" ", n)), '\n');
            |out| == |lines| && forall k :: 0 <= k < |lines| ==> out[k] == Repeat(" ", n) + Trim(lines[k])
  {
    var indent := Repeat(" ", n);
    var lines := Split(Trim(body), '\n');
    var indented := IndentEach(lines, indent);
    SpacesNoBreak(n);
    forall k | 0 <= k < |indented| ensures '\n' !in indented[k] {
      TrimChars(lines[k], '\n');
      assert indented[k] == indent + Trim(lines[k]);
    }
    SplitJoin(indented, '\n');
  }

  /** Text without a colon, a brace or an at sign: none of the patterns can
      match in it. */
  ghost predicate Plain(text: string) {
    forall j :: 0 <= j < |text| ==> text[j] != ':' && text[j] != '{' && text[j] != '@'
  }

  /** In plain text no pattern of any pass matches. */
  lemma PlainUnmatched(text: string, n: int)
    ensures Plain(text) ==> forall j: nat :: j < |text| ==>
      && MatchLiteral("template", text, j).None? && MatchLiteral("style", text, j).None?
      && MatchInterpolation(text, j).None? && MatchSetup(text, j).None? && MatchEvent(text, j).None?
  {
    if Plain(text) {
      NotContains(text, ":");
      NotContains(text, "{{");
      forall j: nat | j < |text| ensures MatchLiteral("template", text, j).None? && MatchLiteral("style", text, j).None?
        && MatchInterpolation(text, j).None? && MatchSetup(text, j).None? && MatchEvent(text, j).None?
      {
        assert text[j] != '@';
      }
    }
  }
}
