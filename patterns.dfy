/** The fixed regular expressions of the formatter and of the token scanner,
    written out by hand. `MatchX(s, i)` is the match the JavaScript engine
    finds when the pattern is tried at index `i` of `s`, backtracking
    included, or None; `IsX(s, i, m)` says declaratively what such a match
    is. For every pattern here the anchored attempt has at most one outcome:
    each greedy run is followed by a character outside its class, and each
    lazy body ends at the first character that can close it. */
module Patterns {
  import opened Text

  predicate IsQuote(c: char) { c == '\'' || c == '"' || c == '`' }

  /** `[a-zA-Z0-9:-]`, the characters after the first letter of an event name. */
  predicate IsEventNameChar(c: char) { IsAlnum(c) || c == ':' || c == '-' }

  /** `[a-zA-Z0-9_\.]`, the characters after the first letter of a reference. */
  predicate IsReferenceChar(c: char) { IsWordChar(c) || c == '.' }

  /** `[a-zA-Z0-9_-]`, the characters after the first letter of a property name. */
  predicate IsPropNameChar(c: char) { IsWordChar(c) || c == '-' }

  predicate Spaces(s: string, a: nat, b: nat) { Run(s, a, b, IsSpace) }

  /** `\s*` followed by the fixed text `w`: the index where `w` starts. */
  function SkipTo(s: string, i: nat, w: string): (r: Option<nat>)
    requires i <= |s|
    ensures r.Some? ==> Spaces(s, i, r.value) && HasAt(s, r.value, w)
  {
    var k := SpaceEnd(s, i);
    if HasAt(s, k, w) then Some(k) else None
  }

  /** A fixed text that does not start with white space is found after the
      greedy `\s*` exactly where it occurs after white space. */
  lemma SkipToComplete(s: string, i: nat, k: nat, w: string)
    requires Spaces(s, i, k) && HasAt(s, k, w) && |w| > 0 && !IsSpace(w[0])
    ensures SkipTo(s, i, w) == Some(k)
  {
    assert s[k] == w[0];
    RunEndAt(s, i, k, IsSpace);
  }

  // ---------------------------------------------------------------------
  // Literal declarations:
  //   KEY\s*:\s*\(\s*(?:ctx|context|\w+)\s*\)\s*=>\s*(['"`])([\s\S]*?)\1
  // with KEY = template or style. Whichever alternative of the parameter
  // group is tried, the one that lets `\s*\)` follow is the whole run of
  // word characters, so the parameter is that run.
  // ---------------------------------------------------------------------

  /** Positions in a literal match: the colon, the opening parenthesis (where
      the formatter's captured `KEY\s*:\s*` ends), the parameter name, the
      closing parenthesis, the arrow, and the content between the quotes. */
  datatype LiteralMatch = LiteralMatch(
    colon: nat, open: nat, paramStart: nat, paramEnd: nat, close: nat,
    arrow: nat, contentStart: nat, contentEnd: nat)
  {
    function End(): nat { contentEnd + 1 }
  }

  /** `\s*(['"`])(X*?)\1` from `from` on, with `X` any character, or any
      character but a line terminator when `singleLine`: the content between
      the quotes ends at the first repetition of the opening quote. */
  ghost predicate IsQuoted(s: string, from: nat, contentStart: nat, contentEnd: nat, singleLine: bool) {
    && from < contentStart <= contentEnd < |s| && Spaces(s, from, contentStart - 1)
    && IsQuote(s[contentStart - 1]) && s[contentEnd] == s[contentStart - 1]
    && (forall j :: contentStart <= j < contentEnd ==>
          s[j] != s[contentStart - 1] && !(singleLine && IsLineTerminator(s[j])))
  }

  function MatchQuoted(s: string, from: nat, singleLine: bool): (r: Option<(nat, nat)>)
    requires from <= |s|
    ensures r.Some? ==> IsQuoted(s, from, r.value.0, r.value.1, singleLine)
  {
    var q := SpaceEnd(s, from);
    if q == |s| || !IsQuote(s[q]) then None
    else
      var ce := RunEnd(s, q + 1, c => c != s[q] && !(singleLine && IsLineTerminator(c)));
      if ce == |s| || s[ce] != s[q] then None else Some((q + 1, ce))
  }

  lemma MatchQuotedComplete(s: string, from: nat, contentStart: nat, contentEnd: nat, singleLine: bool)
    requires IsQuoted(s, from, contentStart, contentEnd, singleLine)
    ensures MatchQuoted(s, from, singleLine) == Some((contentStart, contentEnd))
  {
    RunEndAt(s, from, contentStart - 1, IsSpace);
    var q := s[contentStart - 1];
    RunEndAt(s, contentStart, contentEnd, c => c != q && !(singleLine && IsLineTerminator(c)));
  }

  ghost predicate IsLiteral(key: string, s: string, i: nat, m: LiteralMatch) {
    && HasAt(s, i, key)
    && Spaces(s, i + |key|, m.colon) && HasAt(s, m.colon, ":")
    && Spaces(s, m.colon + 1, m.open) && HasAt(s, m.open, "(")
    && IsLiteralFrom(s, m)
  }

  /** What follows the opening parenthesis of a literal match. */
  ghost predicate IsLiteralFrom(s: string, m: LiteralMatch) {
    && IsParameter(s, m.open + 1, m.paramStart, m.paramEnd, m.close)
    && IsArrowContent(s, m.close, m.arrow, m.contentStart, m.contentEnd, false)
  }

  /** `\s*\w+\s*\)` from `i` on: the name is `s[ps..pe]`, the `)` at `close`. */
  ghost predicate IsParameter(s: string, i: nat, ps: nat, pe: nat, close: nat) {
    && Spaces(s, i, ps) && ps < pe && Run(s, ps, pe, IsWordChar)
    && Spaces(s, pe, close) && HasAt(s, close, ")")
  }

  /** `\s*=>\s*(['"`])(X*?)\1` after the `)` at `close`. */
  ghost predicate IsArrowContent(s: string, close: nat, arrow: nat, cs: nat, ce: nat, singleLine: bool) {
    && Spaces(s, close + 1, arrow) && HasAt(s, arrow, "=>")
    && IsQuoted(s, arrow + 2, cs, ce, singleLine)
  }

  /** The parameter after the opening parenthesis: where the name starts
      and ends and where the `)` is. */
  function MatchParameter(s: string, i: nat): (r: Option<(nat, nat, nat)>)
    requires i <= |s|
    ensures r.Some? ==> IsParameter(s, i, r.value.0, r.value.1, r.value.2)
  {
    var ps := SpaceEnd(s, i);
    var pe := RunEnd(s, ps, IsWordChar);
    if pe == ps then None
    else match SkipTo(s, pe, ")")
      case None => None
      case Some(close) => Some((ps, pe, close))
  }

  lemma MatchParameterComplete(s: string, i: nat, ps: nat, pe: nat, close: nat)
    requires IsParameter(s, i, ps, pe, close)
    ensures MatchParameter(s, i) == Some((ps, pe, close))
  {
    RunEndAt(s, i, ps, IsSpace);
    assert s[close] == ')';
    assert pe < close ==> IsSpace(s[pe]);
    RunEndAt(s, ps, pe, IsWordChar);
    SkipToComplete(s, pe, close, ")");
  }

  /** The literal pattern tried at `i`, one element of it at a time. */
  function MatchLiteral(key: string, s: string, i: nat): (r: Option<LiteralMatch>)
    ensures r.Some? ==> IsLiteral(key, s, i, r.value)
  {
    if !HasAt(s, i, key) then None
    else match SkipTo(s, i + |key|, ":")
      case None => None
      case Some(colon) =>
        LiteralColonSound(s, colon);
        MatchLiteralColon(s, colon)
  }

  /** Every literal match is found: the matcher is complete for `IsLiteral`. */
  lemma MatchLiteralComplete(key: string, s: string, i: nat, m: LiteralMatch)
    requires IsLiteral(key, s, i, m)
    ensures MatchLiteral(key, s, i) == Some(m)
  {
    assert m.colon < |s| && SkipTo(s, i + |key|, ":") == Some(m.colon) by {
      CharAt(s, m.colon, ":", 0);
      SkipToComplete(s, i + |key|, m.colon, ":");
    }
    assert MatchLiteralColon(s, m.colon) == Some(m) by {
      LiteralColonComplete(s, m);
    }
    LiteralUnfold(key, s, i, m.colon);
  }

  lemma LiteralUnfold(key: string, s: string, i: nat, colon: nat)
    requires HasAt(s, i, key) && colon < |s| && SkipTo(s, i + |key|, ":") == Some(colon)
    ensures MatchLiteral(key, s, i) == MatchLiteralColon(s, colon)
  {
  }

  /** From the colon on: `\s*\(` and what follows the parenthesis. */
  function MatchLiteralColon(s: string, colon: nat): Option<LiteralMatch>
    requires colon < |s|
  {
    match SkipTo(s, colon + 1, "(")
    case None => None
    case Some(open) => MatchLiteralFrom(s, colon, open)
  }

  lemma LiteralColonSound(s: string, colon: nat)
    requires colon < |s|
    ensures var r := MatchLiteralColon(s, colon);
      r.Some? ==> && r.value.colon == colon
                  && Spaces(s, colon + 1, r.value.open) && HasAt(s, r.value.open, "(")
                  && IsLiteralFrom(s, r.value)
  {
    match SkipTo(s, colon + 1, "(")
    case None =>
    case Some(open) => LiteralFromSound(s, colon, open);
  }

  lemma LiteralColonComplete(s: string, m: LiteralMatch)
    requires m.colon < |s| && Spaces(s, m.colon + 1, m.open) && HasAt(s, m.open, "(")
    requires IsLiteralFrom(s, m)
    ensures MatchLiteralColon(s, m.colon) == Some(m)
  {
    CharAt(s, m.open, "(", 0);
    SkipToComplete(s, m.colon + 1, m.open, "(");
    MatchLiteralFromComplete(s, m);
  }

  /** From the opening parenthesis on: the parameter and what follows it. */
  function MatchLiteralFrom(s: string, colon: nat, open: nat): Option<LiteralMatch>
    requires open < |s|
  {
    match MatchParameter(s, open + 1)
    case None => None
    case Some(param) => MatchLiteralArrow(s, colon, open, param.0, param.1, param.2)
  }

  lemma LiteralFromSound(s: string, colon: nat, open: nat)
    requires open < |s|
    ensures var r := MatchLiteralFrom(s, colon, open);
      r.Some? ==> r.value.colon == colon && r.value.open == open && IsLiteralFrom(s, r.value)
  {
    match MatchParameter(s, open + 1)
    case None =>
    case Some(param) => LiteralArrowSound(s, colon, open, param.0, param.1, param.2);
  }

  /** Whatever follows the opening parenthesis as `IsLiteralFrom` says is
      found. */
  lemma MatchLiteralFromComplete(s: string, m: LiteralMatch)
    requires m.open < |s| && IsLiteralFrom(s, m)
    ensures MatchLiteralFrom(s, m.colon, m.open) == Some(m)
  {
    ParameterFound(s, m.open, m.paramStart, m.paramEnd, m.close);
    LiteralFromUnfold(s, m.colon, m.open, m.paramStart, m.paramEnd, m.close);
    LiteralArrowComplete(s, m);
  }

  lemma LiteralFromUnfold(s: string, colon: nat, open: nat, ps: nat, pe: nat, close: nat)
    requires open < |s| && close < |s| && MatchParameter(s, open + 1) == Some((ps, pe, close))
    ensures MatchLiteralFrom(s, colon, open) == MatchLiteralArrow(s, colon, open, ps, pe, close)
  {
  }

  lemma ParameterFound(s: string, open: nat, ps: nat, pe: nat, close: nat)
    requires IsParameter(s, open + 1, ps, pe, close)
    ensures close < |s| && MatchParameter(s, open + 1) == Some((ps, pe, close))
  {
    CharAt(s, close, ")", 0);
    MatchParameterComplete(s, open + 1, ps, pe, close);
  }

  /** From the closing parenthesis on: `\s*=>` and the quoted content. */
  function MatchLiteralArrow(s: string, colon: nat, open: nat, ps: nat, pe: nat, close: nat): Option<LiteralMatch>
    requires close < |s|
  {
    match SkipTo(s, close + 1, "=>")
    case None => None
    case Some(arrow) =>
      match MatchQuoted(s, arrow + 2, false)
      case None => None
      case Some(content) => Some(LiteralMatch(colon, open, ps, pe, close, arrow, content.0, content.1))
  }

  lemma LiteralArrowSound(s: string, colon: nat, open: nat, ps: nat, pe: nat, close: nat)
    requires close < |s|
    ensures var r := MatchLiteralArrow(s, colon, open, ps, pe, close);
      r.Some? ==> && r.value == LiteralMatch(colon, open, ps, pe, close, r.value.arrow, r.value.contentStart, r.value.contentEnd)
                  && IsArrowContent(s, close, r.value.arrow, r.value.contentStart, r.value.contentEnd, false)
  {
  }

  lemma LiteralArrowComplete(s: string, m: LiteralMatch)
    requires m.close < |s| && IsArrowContent(s, m.close, m.arrow, m.contentStart, m.contentEnd, false)
    ensures MatchLiteralArrow(s, m.colon, m.open, m.paramStart, m.paramEnd, m.close) == Some(m)
  {
    SkipToComplete(s, m.close + 1, m.arrow, "=>");
    MatchQuotedComplete(s, m.arrow + 2, m.contentStart, m.contentEnd, false);
  }

  // ---------------------------------------------------------------------
  // Interpolations. The formatter's `\{\{\s*([a-zA-Z0-9_]+)\s*\}\}` and the
  // scanner's `\{\{\s*([a-zA-Z][a-zA-Z0-9_\.]*(?:\.value)?)\s*\}\}`; in the
  // second, `.value` is already in the character class, so the captured
  // name is the whole run of reference characters.
  // ---------------------------------------------------------------------

  datatype InterpolationMatch = InterpolationMatch(nameStart: nat, nameEnd: nat, close: nat)
  {
    function End(): nat { close + 2 }
  }

  ghost predicate IsInterpolation(s: string, i: nat, m: InterpolationMatch) {
    && HasAt(s, i, "{{") && Spaces(s, i + 2, m.nameStart)
    && m.nameStart < m.nameEnd && Run(s, m.nameStart, m.nameEnd, IsWordChar)
    && Spaces(s, m.nameEnd, m.close) && HasAt(s, m.close, "}}")
  }

  function MatchInterpolation(s: string, i: nat): (r: Option<InterpolationMatch>)
    ensures r.Some? ==> IsInterpolation(s, i, r.value)
  {
    if !HasAt(s, i, "{{") then None
    else
      var ns := SpaceEnd(s, i + 2);
      var ne := RunEnd(s, ns, IsWordChar);
      var close := SpaceEnd(s, ne);
      if ne == ns || !HasAt(s, close, "}}") then None
      else Some(InterpolationMatch(ns, ne, close))
  }

  lemma MatchInterpolationComplete(s: string, i: nat, m: InterpolationMatch)
    requires IsInterpolation(s, i, m)
    ensures MatchInterpolation(s, i) == Some(m)
  {
    RunEndAt(s, i + 2, m.nameStart, IsSpace);
    RunEndAt(s, m.nameStart, m.nameEnd, IsWordChar);
    RunEndAt(s, m.nameEnd, m.close, IsSpace);
  }

  ghost predicate IsSignalReference(s: string, i: nat, m: InterpolationMatch) {
    && HasAt(s, i, "{{") && Spaces(s, i + 2, m.nameStart)
    && IsSignalName(s, m.nameStart, m.nameEnd, m.close)
  }

  /** `[a-zA-Z][a-zA-Z0-9_\.]*\s*\}\}` from `ns` on: the name is
      `s[ns..ne]`, the `}}` at `close`. */
  ghost predicate IsSignalName(s: string, ns: nat, ne: nat, close: nat) {
    && ns < ne && Run(s, ns + 1, ne, IsReferenceChar)
    && IsLetter(s[ns])
    && Spaces(s, ne, close) && HasAt(s, close, "}}")
  }

  function MatchSignalReference(s: string, i: nat): (r: Option<InterpolationMatch>)
    ensures r.Some? ==> IsSignalReference(s, i, r.value)
  {
    if !HasAt(s, i, "{{") then None
    else
      var ns := SpaceEnd(s, i + 2);
      SignalNameSound(s, ns);
      MatchSignalName(s, ns)
  }

  /** The name and the closing braces, from the first character after the
      white space on. */
  function MatchSignalName(s: string, ns: nat): Option<InterpolationMatch>
    requires ns <= |s|
  {
    if ns == |s| || !IsLetter(s[ns]) then None
    else
      var ne := RunEnd(s, ns + 1, IsReferenceChar);
      match SkipTo(s, ne, "}}")
      case None => None
      case Some(close) => Some(InterpolationMatch(ns, ne, close))
  }

  lemma SignalNameSound(s: string, ns: nat)
    requires ns <= |s|
    ensures var r := MatchSignalName(s, ns);
      r.Some? ==> r.value.nameStart == ns && IsSignalName(s, ns, r.value.nameEnd, r.value.close)
  {
  }

  /** Every signal reference is found: the name starts at the first
      character after the white space, and its run of reference characters
      stops at the white space or the `}` that follows it. */
  lemma MatchSignalReferenceComplete(s: string, i: nat, m: InterpolationMatch)
    requires IsSignalReference(s, i, m)
    ensures MatchSignalReference(s, i) == Some(m)
  {
    RunEndAt(s, i + 2, m.nameStart, IsSpace);
    SignalNameComplete(s, m.nameStart, m.nameEnd, m.close);
  }

  lemma SignalNameComplete(s: string, ns: nat, ne: nat, close: nat)
    requires IsSignalName(s, ns, ne, close)
    ensures MatchSignalName(s, ns) == Some(InterpolationMatch(ns, ne, close))
  {
    CharAt(s, close, "}}", 0);
    assert ne < close ==> IsSpace(s[ne]);
    RunEndAt(s, ns + 1, ne, IsReferenceChar);
    SkipToComplete(s, ne, close, "}}");
  }

  // ---------------------------------------------------------------------
  // Event attributes: `@[a-zA-Z][a-zA-Z0-9:-]*\s*=\s*(['"`])(.*?)\1`
  // (the formatter captures the name with its `@`, the scanner without).
  // ---------------------------------------------------------------------

  datatype EventMatch = EventMatch(nameEnd: nat, equals: nat, contentStart: nat, contentEnd: nat)
  {
    function End(): nat { contentEnd + 1 }
  }

  ghost predicate IsEvent(s: string, i: nat, m: EventMatch) {
    && i + 1 < m.nameEnd && Run(s, i + 2, m.nameEnd, IsEventNameChar)
    && s[i] == '@' && IsLetter(s[i + 1])
    && IsEventValue(s, m.nameEnd, m.equals, m.contentStart, m.contentEnd)
  }

  /** `\s*=\s*(['"`])(.*?)\1` after the name that ends at `ne`. */
  ghost predicate IsEventValue(s: string, ne: nat, equals: nat, cs: nat, ce: nat) {
    && Spaces(s, ne, equals) && HasAt(s, equals, "=")
    && IsQuoted(s, equals + 1, cs, ce, true)
  }

  function MatchEvent(s: string, i: nat): (r: Option<EventMatch>)
    ensures r.Some? ==> IsEvent(s, i, r.value)
  {
    if i + 1 >= |s| || s[i] != '@' || !IsLetter(s[i + 1]) then None
    else
      var ne := RunEnd(s, i + 2, IsEventNameChar);
      EventValueSound(s, ne);
      MatchEventValue(s, ne)
  }

  /** What follows the name that ends at `ne`: `=` and the quoted value. */
  function MatchEventValue(s: string, ne: nat): Option<EventMatch>
    requires ne <= |s|
  {
    match SkipTo(s, ne, "=")
    case None => None
    case Some(eq) =>
      match MatchQuoted(s, eq + 1, true)
      case None => None
      case Some(content) => Some(EventMatch(ne, eq, content.0, content.1))
  }

  lemma EventValueSound(s: string, ne: nat)
    requires ne <= |s|
    ensures var r := MatchEventValue(s, ne);
      r.Some? ==> r.value.nameEnd == ne && IsEventValue(s, ne, r.value.equals, r.value.contentStart, r.value.contentEnd)
  {
  }

  /** Every event attribute is found: the name run stops at the white space
      or the `=` that follows it. */
  lemma MatchEventComplete(s: string, i: nat, m: EventMatch)
    requires IsEvent(s, i, m)
    ensures MatchEvent(s, i) == Some(m)
  {
    EventComplete(s, i, m.nameEnd, m.equals, m.contentStart, m.contentEnd);
  }

  lemma EventComplete(s: string, i: nat, ne: nat, eq: nat, cs: nat, ce: nat)
    requires i + 1 < ne && Run(s, i + 2, ne, IsEventNameChar)
    requires s[i] == '@' && IsLetter(s[i + 1])
    requires IsEventValue(s, ne, eq, cs, ce)
    ensures MatchEvent(s, i) == Some(EventMatch(ne, eq, cs, ce))
  {
    CharAt(s, eq, "=", 0);
    assert ne < eq ==> IsSpace(s[ne]);
    RunEndAt(s, i + 2, ne, IsEventNameChar);
    EventValueComplete(s, ne, eq, cs, ce);
  }

  lemma EventValueComplete(s: string, ne: nat, eq: nat, cs: nat, ce: nat)
    requires ne <= |s| && IsEventValue(s, ne, eq, cs, ce)
    ensures MatchEventValue(s, ne) == Some(EventMatch(ne, eq, cs, ce))
  {
    SkipToComplete(s, ne, eq, "=");
    MatchQuotedComplete(s, eq + 1, cs, ce, true);
  }

  // ---------------------------------------------------------------------
  // Property bindings: `eleva-prop-([a-zA-Z][a-zA-Z0-9_-]*)`; nothing
  // follows the greedy run, so the name is the longest one.
  // ---------------------------------------------------------------------

  const PropPrefix := "eleva-prop-"

  ghost predicate IsProp(s: string, i: nat, nameEnd: nat) {
    && HasAt(s, i, PropPrefix) && i + |PropPrefix| < nameEnd
    && Run(s, i + |PropPrefix| + 1, nameEnd, IsPropNameChar)
    && IsLetter(s[i + |PropPrefix|])
    && (nameEnd == |s| || !IsPropNameChar(s[nameEnd]))
  }

  function MatchProp(s: string, i: nat): (r: Option<nat>)
    ensures r.Some? ==> IsProp(s, i, r.value)
  {
    if !HasAt(s, i, PropPrefix) || i + |PropPrefix| == |s| || !IsLetter(s[i + |PropPrefix|]) then None
    else Some(RunEnd(s, i + |PropPrefix| + 1, IsPropNameChar))
  }

  lemma MatchPropComplete(s: string, i: nat, nameEnd: nat)
    requires IsProp(s, i, nameEnd)
    ensures MatchProp(s, i) == Some(nameEnd)
  {
    RunEndAt(s, i + |PropPrefix| + 1, nameEnd, IsPropNameChar);
  }

  // ---------------------------------------------------------------------
  // The setup declaration:
  //   (setup\s*:\s*\(\{\s*(?:signal|props|emitter|on\w+|[^}]+)\s*\}\)\s*(?:=>|\{))
  //   ([\s\S]*?)
  //   (\}|(?:=>|,)\s*\{)
  // No alternative of the parameter group can consume a `}`, so `\}\)` sits
  // at the first `}` after `({`; some alternative fits exactly when at
  // least one character precedes that `}` (`[^}]+` takes any such text).
  // ---------------------------------------------------------------------

  /** Positions in a setup match: the colon, the parameter text between
      `({` and `})`, the end of the first group (after `=>` or `{`), the end
      of the lazy body, where the closing group starts, and the end of the
      match. */
  datatype SetupMatch = SetupMatch(colon: nat, paramStart: nat, paramEnd: nat, headEnd: nat, bodyEnd: nat, end: nat)

  /** The closing group `\}|(?:=>|,)\s*\{` matches `s[j..e]`: a `}`, or
      `=>` or `,` followed by white space and a `{`. */
  ghost predicate IsSetupClose(s: string, j: nat, e: nat) {
    || (HasAt(s, j, "}") && e == j + 1)
    || (HasAt(s, j, "=>") && j + 3 <= e && Spaces(s, j + 2, e - 1) && HasAt(s, e - 1, "{"))
    || (HasAt(s, j, ",") && j + 2 <= e && Spaces(s, j + 1, e - 1) && HasAt(s, e - 1, "{"))
  }

  /** The closing group does not match at `j`, whatever its end. */
  ghost predicate NoSetupCloseAt(s: string, j: nat) {
    forall e: nat :: !IsSetupClose(s, j, e)
  }

  /** The closing group tried at `j`: the end of its match, or None. */
  function SetupCloseAt(s: string, j: nat): (r: Option<nat>)
    ensures r.Some? ==> j < r.value <= |s|
  {
    if j >= |s| then None
    else if s[j] == '}' then Some(j + 1)
    else if s[j] == '=' && j + 1 < |s| && s[j + 1] == '>' then OpenBraceAfter(s, j + 2)
    else if s[j] == ',' then OpenBraceAfter(s, j + 1)
    else None
  }

  /** `\s*\{` from `a` on: the end of the match, or None. */
  function OpenBraceAfter(s: string, a: nat): (r: Option<nat>)
    requires a <= |s|
    ensures r.Some? ==> a < r.value <= |s| && Spaces(s, a, r.value - 1) && s[r.value - 1] == '{'
  {
    var k := SpaceEnd(s, a);
    if k < |s| && s[k] == '{' then Some(k + 1) else None
  }

  /** `SetupCloseAt` finds exactly the matches of the closing group. */
  lemma SetupCloseAtIff(s: string, j: nat, e: nat)
    ensures SetupCloseAt(s, j) == Some(e) <==> IsSetupClose(s, j, e)
  {
    if IsSetupClose(s, j, e) {
      SetupCloseAtComplete(s, j, e);
    }
    if SetupCloseAt(s, j) == Some(e) {
      SetupCloseAtSound(s, j, e);
    }
  }

  lemma SetupCloseAtComplete(s: string, j: nat, e: nat)
    requires IsSetupClose(s, j, e)
    ensures SetupCloseAt(s, j) == Some(e)
  {
    if HasAt(s, j, "}") {
      CharAt(s, j, "}", 0);
    } else if HasAt(s, j, "=>") {
      CharAt(s, j, "=>", 0);
      CharAt(s, j, "=>", 1);
      SpacedBraceFound(s, j + 2, e);
    } else {
      CharAt(s, j, ",", 0);
      SpacedBraceFound(s, j + 1, e);
    }
  }

  /** White space from `a` on and then `{`, ending at `e`, is found. */
  lemma SpacedBraceFound(s: string, a: nat, e: nat)
    requires a < e && Spaces(s, a, e - 1) && HasAt(s, e - 1, "{")
    ensures OpenBraceAfter(s, a) == Some(e)
  {
    CharAt(s, e - 1, "{", 0);
    RunEndAt(s, a, e - 1, IsSpace);
  }

  lemma SetupCloseAtSound(s: string, j: nat, e: nat)
    requires SetupCloseAt(s, j) == Some(e)
    ensures IsSetupClose(s, j, e)
  {
    if s[j] == '}' {
      assert s[j..j + 1] == "}";
    } else if s[j] == '=' && j + 1 < |s| && s[j + 1] == '>' {
      assert s[j..j + 2] == "=>";
      assert s[e - 1..e] == "{";
    } else {
      assert s[j..j + 1] == ",";
      assert s[e - 1..e] == "{";
    }
  }

  lemma SetupCloseAtNone(s: string, j: nat)
    ensures SetupCloseAt(s, j).None? <==> NoSetupCloseAt(s, j)
  {
    forall e: nat ensures SetupCloseAt(s, j) == Some(e) <==> IsSetupClose(s, j, e) {
      SetupCloseAtIff(s, j, e);
    }
    if SetupCloseAt(s, j).Some? {
      assert IsSetupClose(s, j, SetupCloseAt(s, j).value);
    }
  }

  /** The lazy body `[\s\S]*?` followed by the closing group: the first
      index at or after `j` where the closing group matches, and the end of
      that match. */
  function FindSetupClose(s: string, j: nat): (r: Option<(nat, nat)>)
    requires j <= |s|
    ensures r.Some? ==> j <= r.value.0 && SetupCloseAt(s, r.value.0) == Some(r.value.1)
    ensures r.Some? ==> forall k :: j <= k < r.value.0 ==> SetupCloseAt(s, k).None?
    ensures r.None? ==> forall k :: j <= k <= |s| ==> SetupCloseAt(s, k).None?
    decreases |s| - j
  {
    match SetupCloseAt(s, j)
    case Some(e) => Some((j, e))
    case None => if j == |s| then None else FindSetupClose(s, j + 1)
  }

  /** The shortest body from `h` on after which the closing group matches,
      ending at `b`, and that closing group, ending at `e`. */
  ghost predicate IsShortestBody(s: string, h: nat, b: nat, e: nat) {
    && h <= b
    && (forall j :: h <= j < b ==> NoSetupCloseAt(s, j))
    && IsSetupClose(s, b, e)
  }

  /** `FindSetupClose` finds exactly the shortest body. */
  lemma FindSetupCloseIff(s: string, h: nat, b: nat, e: nat)
    requires h <= |s|
    ensures FindSetupClose(s, h) == Some((b, e)) <==> IsShortestBody(s, h, b, e)
  {
    var r := FindSetupClose(s, h);
    forall j | h <= j ensures SetupCloseAt(s, j).None? <==> NoSetupCloseAt(s, j) {
      SetupCloseAtNone(s, j);
    }
    SetupCloseAtIff(s, b, e);
    if IsShortestBody(s, h, b, e) {
      if r.Some? {
        assert !(r.value.0 < b);
        assert !(b < r.value.0);
      }
    }
  }

  /** The parameter text up to the first `}` (at least one character),
      `})`, white space and `=>` or `{`: the end of the parameter text and
      the end of the first group. */
  ghost predicate IsSetupHeadFrom(s: string, paramStart: nat, paramEnd: nat, headEnd: nat) {
    && paramStart < paramEnd && HasAt(s, paramEnd, "})")
    && (forall j :: paramStart <= j < paramEnd ==> s[j] != '}')
    && IsSetupArrow(s, paramEnd, headEnd)
  }

  /** After the `})` at `paramEnd`: white space and `=>` or `{`, ending at
      `headEnd`. */
  ghost predicate IsSetupArrow(s: string, paramEnd: nat, headEnd: nat) {
    && paramEnd + 2 < headEnd
    && (|| (Spaces(s, paramEnd + 2, headEnd - 2) && HasAt(s, headEnd - 2, "=>"))
        || (Spaces(s, paramEnd + 2, headEnd - 1) && HasAt(s, headEnd - 1, "{")))
  }

  predicate NotCloseBrace(c: char) { c != '}' }

  function MatchSetupHeadFrom(s: string, paramStart: nat): (r: Option<(nat, nat)>)
    requires paramStart <= |s|
    ensures r.Some? ==> paramStart < r.value.0 && r.value.0 + 2 < r.value.1 <= |s|
  {
    var pe := RunEnd(s, paramStart, NotCloseBrace);
    if pe == paramStart || pe + 2 > |s| || s[pe + 1] != ')' then None
    else match MatchSetupArrow(s, pe)
      case None => None
      case Some(headEnd) => Some((pe, headEnd))
  }

  /** The head matcher finds exactly the heads. */
  lemma MatchSetupHeadFromIff(s: string, paramStart: nat, paramEnd: nat, headEnd: nat)
    requires paramStart <= |s|
    ensures MatchSetupHeadFrom(s, paramStart) == Some((paramEnd, headEnd))
        <==> IsSetupHeadFrom(s, paramStart, paramEnd, headEnd)
  {
    if MatchSetupHeadFrom(s, paramStart) == Some((paramEnd, headEnd)) {
      MatchSetupHeadFromSound(s, paramStart);
    }
    if IsSetupHeadFrom(s, paramStart, paramEnd, headEnd) {
      MatchSetupHeadFromComplete(s, paramStart, paramEnd, headEnd);
    }
  }

  lemma MatchSetupHeadFromSound(s: string, paramStart: nat)
    requires paramStart <= |s| && MatchSetupHeadFrom(s, paramStart).Some?
    ensures IsSetupHeadFrom(s, paramStart, MatchSetupHeadFrom(s, paramStart).value.0, MatchSetupHeadFrom(s, paramStart).value.1)
  {
    var pe := RunEnd(s, paramStart, NotCloseBrace);
    assert s[pe..pe + 2] == "})";
    MatchSetupArrowSound(s, pe);
  }

  function MatchSetupArrow(s: string, paramEnd: nat): (r: Option<nat>)
    requires paramEnd + 2 <= |s|
    ensures r.Some? ==> paramEnd + 2 < r.value <= |s|
  {
    var d := SpaceEnd(s, paramEnd + 2);
    if d + 2 <= |s| && s[d] == '=' && s[d + 1] == '>' then Some(d + 2)
    else if d < |s| && s[d] == '{' then Some(d + 1)
    else None
  }

  /** The arrow matcher finds exactly the white space and `=>` or `{`. */
  lemma MatchSetupArrowIff(s: string, paramEnd: nat, headEnd: nat)
    requires paramEnd + 2 <= |s|
    ensures MatchSetupArrow(s, paramEnd) == Some(headEnd) <==> IsSetupArrow(s, paramEnd, headEnd)
  {
    if MatchSetupArrow(s, paramEnd) == Some(headEnd) {
      MatchSetupArrowSound(s, paramEnd);
    }
    if IsSetupArrow(s, paramEnd, headEnd) {
      SetupArrowComplete(s, paramEnd, headEnd);
    }
  }

  lemma MatchSetupArrowSound(s: string, paramEnd: nat)
    requires paramEnd + 2 <= |s| && MatchSetupArrow(s, paramEnd).Some?
    ensures IsSetupArrow(s, paramEnd, MatchSetupArrow(s, paramEnd).value)
  {
    var d := SpaceEnd(s, paramEnd + 2);
    if d + 2 <= |s| && s[d] == '=' && s[d + 1] == '>' {
      assert s[d..d + 2] == "=>";
    } else {
      assert s[d..d + 1] == "{";
    }
  }

  /** Every head is found: `})` sits at the first `}`, and the white space
      after it ends at the `=>` or the `{`. */
  lemma MatchSetupHeadFromComplete(s: string, paramStart: nat, paramEnd: nat, headEnd: nat)
    requires IsSetupHeadFrom(s, paramStart, paramEnd, headEnd)
    ensures MatchSetupHeadFrom(s, paramStart) == Some((paramEnd, headEnd))
  {
    CharAt(s, paramEnd, "})", 0);
    CharAt(s, paramEnd, "})", 1);
    RunEndAt(s, paramStart, paramEnd, NotCloseBrace);
    SetupArrowComplete(s, paramEnd, headEnd);
  }

  lemma SetupArrowComplete(s: string, paramEnd: nat, headEnd: nat)
    requires paramEnd + 2 <= |s| && IsSetupArrow(s, paramEnd, headEnd)
    ensures MatchSetupArrow(s, paramEnd) == Some(headEnd)
  {
    if Spaces(s, paramEnd + 2, headEnd - 2) && HasAt(s, headEnd - 2, "=>") {
      ArrowHeadFound(s, paramEnd, headEnd);
    } else {
      BraceHeadFound(s, paramEnd, headEnd);
    }
  }

  lemma ArrowHeadFound(s: string, paramEnd: nat, headEnd: nat)
    requires paramEnd + 2 < headEnd && Spaces(s, paramEnd + 2, headEnd - 2) && HasAt(s, headEnd - 2, "=>")
    ensures MatchSetupArrow(s, paramEnd) == Some(headEnd)
  {
    CharAt(s, headEnd - 2, "=>", 0);
    CharAt(s, headEnd - 2, "=>", 1);
    RunEndAt(s, paramEnd + 2, headEnd - 2, IsSpace);
  }

  lemma BraceHeadFound(s: string, paramEnd: nat, headEnd: nat)
    requires paramEnd + 2 < headEnd && Spaces(s, paramEnd + 2, headEnd - 1) && HasAt(s, headEnd - 1, "{")
    ensures MatchSetupArrow(s, paramEnd) == Some(headEnd)
  {
    CharAt(s, headEnd - 1, "{", 0);
    RunEndAt(s, paramEnd + 2, headEnd - 1, IsSpace);
  }

  /** From the colon on: white space, `({`, the rest of the head, the body
      and the closing group. */
  ghost predicate IsSetupAfterColon(s: string, m: SetupMatch) {
    && m.paramStart >= 2 && Spaces(s, m.colon + 1, m.paramStart - 2) && HasAt(s, m.paramStart - 2, "({")
    && IsSetupHeadFrom(s, m.paramStart, m.paramEnd, m.headEnd)
    && IsShortestBody(s, m.headEnd, m.bodyEnd, m.end)
  }

  /** The whole match: `setup`, white space, the colon, and the rest. */
  ghost predicate IsSetup(s: string, i: nat, m: SetupMatch) {
    && HasAt(s, i, "setup") && Spaces(s, i + 5, m.colon) && HasAt(s, m.colon, ":")
    && IsSetupAfterColon(s, m)
  }

  function MatchSetup(s: string, i: nat): (r: Option<SetupMatch>)
    ensures r.Some? ==> HasAt(s, i, "setup") && i + 5 <= r.value.colon
  {
    if !HasAt(s, i, "setup") then None
    else match SkipTo(s, i + 5, ":")
      case None => None
      case Some(colon) => MatchSetupAfterColon(s, colon)
  }

  /** The matcher finds exactly the setup matches. */
  lemma MatchSetupIff(s: string, i: nat, m: SetupMatch)
    ensures MatchSetup(s, i) == Some(m) <==> IsSetup(s, i, m)
  {
    if MatchSetup(s, i) == Some(m) {
      MatchSetupSound(s, i, m);
    }
    if IsSetup(s, i, m) {
      MatchSetupComplete(s, i, m);
    }
  }

  /** What the matcher finds is a setup match. */
  lemma MatchSetupSound(s: string, i: nat, m: SetupMatch)
    requires MatchSetup(s, i) == Some(m)
    ensures IsSetup(s, i, m)
  {
    var colon := SkipTo(s, i + 5, ":").value;
    assert MatchSetupAfterColon(s, colon) == Some(m);
    MatchSetupAfterColonSound(s, m);
  }

  /** Every setup match is found. */
  lemma MatchSetupComplete(s: string, i: nat, m: SetupMatch)
    requires IsSetup(s, i, m)
    ensures MatchSetup(s, i) == Some(m)
  {
    SkipToComplete(s, i + 5, m.colon, ":");
    SetupUnfold(s, i, m.colon);
    MatchSetupAfterColonComplete(s, m);
  }

  lemma SetupUnfold(s: string, i: nat, colon: nat)
    requires HasAt(s, i, "setup") && SkipTo(s, i + 5, ":") == Some(colon)
    ensures MatchSetup(s, i) == MatchSetupAfterColon(s, colon)
  {
  }

  /** What follows the colon of a setup match. */
  function MatchSetupAfterColon(s: string, colon: nat): (r: Option<SetupMatch>)
    ensures r.Some? ==> r.value.colon == colon && r.value.paramStart >= 2
  {
    if colon + 1 > |s| then None
    else match SkipTo(s, colon + 1, "({")
      case None => None
      case Some(open) => MatchSetupFrom(s, colon, open + 2)
  }

  /** After a colon, the matcher finds exactly the rest of a setup match. */
  lemma MatchSetupAfterColonIff(s: string, m: SetupMatch)
    ensures MatchSetupAfterColon(s, m.colon) == Some(m) <==> IsSetupAfterColon(s, m)
  {
    if MatchSetupAfterColon(s, m.colon) == Some(m) {
      MatchSetupAfterColonSound(s, m);
    }
    if IsSetupAfterColon(s, m) {
      MatchSetupAfterColonComplete(s, m);
    }
  }

  lemma MatchSetupAfterColonSound(s: string, m: SetupMatch)
    requires MatchSetupAfterColon(s, m.colon) == Some(m)
    ensures IsSetupAfterColon(s, m)
  {
    SetupAfterColonParts(s, m);
    MatchSetupFromSound(s, m);
  }

  /** A match after the colon is `({` found by `SkipTo` and a match from
      just after it. */
  lemma SetupAfterColonParts(s: string, m: SetupMatch)
    requires MatchSetupAfterColon(s, m.colon) == Some(m)
    ensures m.paramStart >= 2 && m.colon + 1 <= |s| && SkipTo(s, m.colon + 1, "({") == Some(m.paramStart - 2)
    ensures m.paramStart <= |s| && MatchSetupFrom(s, m.colon, m.paramStart) == Some(m)
  {
  }

  lemma MatchSetupAfterColonComplete(s: string, m: SetupMatch)
    requires IsSetupAfterColon(s, m)
    ensures MatchSetupAfterColon(s, m.colon) == Some(m)
  {
    SetupOpenFound(s, m.colon, m.paramStart);
    CharAt(s, m.paramStart - 2, "({", 1);
    SetupAfterColonUnfold(s, m.colon, m.paramStart - 2);
    MatchSetupFromComplete(s, m);
  }

  lemma SetupOpenFound(s: string, colon: nat, ps: nat)
    requires ps >= 2 && Spaces(s, colon + 1, ps - 2) && HasAt(s, ps - 2, "({")
    ensures colon + 1 <= |s| && SkipTo(s, colon + 1, "({") == Some(ps - 2)
  {
    CharAt(s, ps - 2, "({", 1);
    SkipToComplete(s, colon + 1, ps - 2, "({");
  }

  lemma SetupAfterColonUnfold(s: string, colon: nat, open: nat)
    requires colon + 1 <= |s| && open + 2 <= |s| && SkipTo(s, colon + 1, "({") == Some(open)
    ensures MatchSetupAfterColon(s, colon) == MatchSetupFrom(s, colon, open + 2)
  {
  }

  /** What follows `({` in a setup match that starts at `paramStart`. */
  function MatchSetupFrom(s: string, colon: nat, paramStart: nat): (r: Option<SetupMatch>)
    requires paramStart <= |s|
    ensures r.Some? ==> r.value.colon == colon && r.value.paramStart == paramStart
  {
    match MatchSetupHeadFrom(s, paramStart)
    case None => None
    case Some(head) =>
      match FindSetupClose(s, head.1)
      case None => None
      case Some(close) => Some(SetupMatch(colon, paramStart, head.0, head.1, close.0, close.1))
  }

  /** From the parameters on, the matcher finds exactly a head followed by
      its shortest body. */
  lemma MatchSetupFromIff(s: string, m: SetupMatch)
    requires m.paramStart <= |s|
    ensures MatchSetupFrom(s, m.colon, m.paramStart) == Some(m)
        <==> IsSetupHeadFrom(s, m.paramStart, m.paramEnd, m.headEnd) && IsShortestBody(s, m.headEnd, m.bodyEnd, m.end)
  {
    if MatchSetupFrom(s, m.colon, m.paramStart) == Some(m) {
      MatchSetupFromSound(s, m);
    }
    if IsSetupHeadFrom(s, m.paramStart, m.paramEnd, m.headEnd) && IsShortestBody(s, m.headEnd, m.bodyEnd, m.end) {
      MatchSetupFromComplete(s, m);
    }
  }

  lemma MatchSetupFromSound(s: string, m: SetupMatch)
    requires m.paramStart <= |s| && MatchSetupFrom(s, m.colon, m.paramStart) == Some(m)
    ensures IsSetupHeadFrom(s, m.paramStart, m.paramEnd, m.headEnd) && IsShortestBody(s, m.headEnd, m.bodyEnd, m.end)
  {
    assert MatchSetupHeadFrom(s, m.paramStart) == Some((m.paramEnd, m.headEnd));
    assert FindSetupClose(s, m.headEnd) == Some((m.bodyEnd, m.end));
    MatchSetupHeadFromSound(s, m.paramStart);
    FindSetupCloseIff(s, m.headEnd, m.bodyEnd, m.end);
  }

  lemma MatchSetupFromComplete(s: string, m: SetupMatch)
    requires IsSetupHeadFrom(s, m.paramStart, m.paramEnd, m.headEnd)
    requires IsShortestBody(s, m.headEnd, m.bodyEnd, m.end)
    ensures MatchSetupFrom(s, m.colon, m.paramStart) == Some(m)
  {
    MatchSetupHeadFromComplete(s, m.paramStart, m.paramEnd, m.headEnd);
    FindSetupCloseIff(s, m.headEnd, m.bodyEnd, m.end);
    SetupFromOf(s, m);
  }

  lemma SetupFromOf(s: string, m: SetupMatch)
    requires m.paramStart <= |s| && MatchSetupHeadFrom(s, m.paramStart) == Some((m.paramEnd, m.headEnd))
    requires m.headEnd <= |s| && FindSetupClose(s, m.headEnd) == Some((m.bodyEnd, m.end))
    ensures MatchSetupFrom(s, m.colon, m.paramStart) == Some(m)
  {
  }

  // ---------------------------------------------------------------------
  // The patterns the reflow engines replace.
  // ---------------------------------------------------------------------

  /** `\s+` */
  function MatchSpaceRun(s: string, i: nat): (r: Option<nat>)
    ensures r.Some? ==> i < r.value <= |s| && Spaces(s, i, r.value)
    ensures r.Some? ==> r.value == |s| || !IsSpace(s[r.value])
    ensures r.None? ==> i >= |s| || !IsSpace(s[i])
  {
    if i < |s| && IsSpace(s[i]) then Some(SpaceEnd(s, i)) else None
  }

  /** `> <` */
  function MatchTagGap(s: string, i: nat): (r: Option<nat>)
    ensures r.Some? <==> HasAt(s, i, "> <")
    ensures r.Some? ==> r.value == i + 3
  {
    if HasAt(s, i, "> <") then Some(i + 3) else None
  }

  /** `<\/([a-z0-9]+)><([a-z0-9]+)>` under the `i` flag matches
      `s[i..e]`, the first tag's `>` being at `gt`. */
  ghost predicate IsCloseOpen(s: string, i: nat, gt: nat, e: nat) {
    && HasAt(s, i, "</") && i + 2 < gt && Run(s, i + 2, gt, IsAlnum)
    && HasAt(s, gt, "><") && gt + 2 < e - 1
    && Run(s, gt + 2, e - 1, IsAlnum)
    && e <= |s| && s[e - 1] == '>'
  }

  /** The pattern tried at `i`: the index of the `>` that closes the first
      tag, and the end of the match. */
  function MatchCloseOpen(s: string, i: nat): (r: Option<(nat, nat)>)
    ensures r.Some? ==> IsCloseOpen(s, i, r.value.0, r.value.1)
  {
    if !HasAt(s, i, "</") then None
    else
      var gt := RunEnd(s, i + 2, IsAlnum);
      if gt == i + 2 || !HasAt(s, gt, "><") then None
      else
        var e := RunEnd(s, gt + 2, IsAlnum);
        if e == gt + 2 || e >= |s| || s[e] != '>' then None
        else Some((gt, e + 1))
  }

  /** A closing tag touching an opening tag is always found: each greedy
      name stops at its `>`. */
  lemma MatchCloseOpenComplete(s: string, i: nat, gt: nat, e: nat)
    requires IsCloseOpen(s, i, gt, e)
    ensures MatchCloseOpen(s, i) == Some((gt, e))
  {
    CharAt(s, gt, "><", 0);
    RunEndAt(s, i + 2, gt, IsAlnum);
    RunEndAt(s, gt + 2, e - 1, IsAlnum);
  }

  /** `\s*C\s*` for a brace `C`: spaces, the brace, and every space after it. */
  function MatchSpacedChar(s: string, i: nat, c: char): (r: Option<nat>)
    ensures r.Some? ==> i < r.value <= |s|
    ensures r.Some? ==> exists b: nat :: Spaces(s, i, b) && b < |s| && s[b] == c && Spaces(s, b + 1, r.value)
    ensures r.Some? ==> r.value == |s| || !IsSpace(s[r.value])
  {
    if i >= |s| then None
    else
      var b := SpaceEnd(s, i);
      if b == |s| || s[b] != c then None
      else Some(SpaceEnd(s, b + 1))
  }

  /** White space and then the brace `c` at `i` is always found, with all the
      white space after the brace. */
  lemma MatchSpacedCharComplete(s: string, i: nat, b: nat, c: char)
    requires Spaces(s, i, b) && b < |s| && s[b] == c && !IsSpace(c)
    ensures MatchSpacedChar(s, i, c) == Some(SpaceEnd(s, b + 1))
  {
    RunEndAt(s, i, b, IsSpace);
  }

  /** `;\s*` */
  function MatchSemicolon(s: string, i: nat): (r: Option<nat>)
    ensures r.Some? <==> i < |s| && s[i] == ';'
    ensures r.Some? ==> i < |s| && s[i] == ';' && Spaces(s, i + 1, r.value)
    ensures r.Some? ==> r.value == |s| || !IsSpace(s[r.value])
  {
    if i < |s| && s[i] == ';' then Some(SpaceEnd(s, i + 1)) else None
  }

  // ---------------------------------------------------------------------
  // The tests the markup reflow engine applies to one trimmed line.
  // ---------------------------------------------------------------------

  /** An opening tag `<[^/][^>]*>` starts at `p`: a `<` not followed by `/`,
      and a `>` somewhere after the character that follows it. */
  predicate OpeningTagAt(t: string, p: nat) {
    p + 2 <= |t| && t[p] == '<' && t[p + 1] != '/' && FindChar(t, '>', p + 2) < |t|
  }

  /** A self-closing tag `<[^/][^>]*\/>` starts at `p`: the first `>` after
      the character that follows the `<` comes right after a `/` that is
      itself past that character. */
  predicate SelfClosingTagAt(t: string, p: nat) {
    p + 2 <= |t| && t[p] == '<' && t[p + 1] != '/'
    && var g := FindChar(t, '>', p + 2); g < |t| && g >= p + 3 && t[g - 1] == '/'
  }

  /** `/<[^/][^>]*>/.test(t)`, scanning from index `p` on. */
  predicate HasOpeningTagFrom(t: string, p: nat)
    decreases |t| - p
  {
    p < |t| && (OpeningTagAt(t, p) || HasOpeningTagFrom(t, p + 1))
  }

  /** `/<[^/][^>]*\/>/.test(t)`, scanning from index `p` on. */
  predicate HasSelfClosingTagFrom(t: string, p: nat)
    decreases |t| - p
  {
    p < |t| && (SelfClosingTagAt(t, p) || HasSelfClosingTagFrom(t, p + 1))
  }

  predicate HasOpeningTag(t: string) { HasOpeningTagFrom(t, 0) }

  predicate HasSelfClosingTag(t: string) { HasSelfClosingTagFrom(t, 0) }

  /** A `<` at `a` not followed by `/`, and a `>` at `q`, at least two
      characters after it. */
  ghost predicate OpeningSpan(t: string, a: nat, q: nat) {
    a + 2 <= q < |t| && t[a] == '<' && t[a + 1] != '/' && t[q] == '>'
  }

  /** The scan finds an opening tag exactly when there is a `<` not followed
      by `/` with a `>` at least two characters after it. */
  lemma {:induction false} HasOpeningTagIff(t: string, p: nat)
    ensures HasOpeningTagFrom(t, p) <==> exists a: nat, q: nat :: p <= a && OpeningSpan(t, a, q)
    decreases |t| - p
  {
    if p < |t| {
      HasOpeningTagIff(t, p + 1);
      if OpeningTagAt(t, p) {
        var q := FindChar(t, '>', p + 2);
        assert OpeningSpan(t, p, q);
      }
      if exists a: nat, q: nat :: p <= a && OpeningSpan(t, a, q) {
        var a: nat, q: nat :| p <= a && OpeningSpan(t, a, q);
        if a == p {
          assert FindChar(t, '>', p + 2) <= q;
        } else {
          assert p + 1 <= a;
        }
      }
    }
  }

  /** A `<` at `a` not followed by `/`, a `/>` at `q`, and no `>` between. */
  ghost predicate SelfClosingSpan(t: string, a: nat, q: nat) {
    && a + 2 <= q && q + 1 < |t|
    && t[a] == '<' && t[a + 1] != '/' && t[q] == '/' && t[q + 1] == '>'
    && forall k :: a + 2 <= k < q ==> t[k] != '>'
  }

  lemma SelfClosingTagAtIff(t: string, p: nat)
    ensures SelfClosingTagAt(t, p) <==> exists q: nat :: SelfClosingSpan(t, p, q)
  {
    if SelfClosingTagAt(t, p) {
      var g := FindChar(t, '>', p + 2);
      assert SelfClosingSpan(t, p, g - 1);
    }
    if exists q: nat :: SelfClosingSpan(t, p, q) {
      var q: nat :| SelfClosingSpan(t, p, q);
      assert FindChar(t, '>', p + 2) == q + 1;
    }
  }

  /** The scan finds a self-closing tag exactly when some `<` not followed
      by `/` reaches a `/>` without crossing a `>`. */
  lemma {:induction false} HasSelfClosingTagIff(t: string, p: nat)
    ensures HasSelfClosingTagFrom(t, p) <==> exists a: nat, q: nat :: p <= a && SelfClosingSpan(t, a, q)
    decreases |t| - p
  {
    if p < |t| {
      HasSelfClosingTagIff(t, p + 1);
      SelfClosingTagAtIff(t, p);
      if exists a: nat, q: nat :: p <= a && SelfClosingSpan(t, a, q) {
        var a: nat, q: nat :| p <= a && SelfClosingSpan(t, a, q);
        if a == p {
          assert SelfClosingTagAt(t, p);
        } else {
          assert p + 1 <= a;
        }
      }
    }
  }
}
