/** The semantic-token provider of the editor extension: one walk over the
    document that reports `@event` attributes and `{{ name }}` references
    inside template literals, then `eleva-prop-name` bindings anywhere, as
    (line, character, length, type) entries in the order the builder
    receives them. Every pattern is scanned like `RegExp.prototype.exec`
    with the global flag: tried at each index from where the previous match
    ended, left to right. */
module SemanticTokens {
  import opened Text
  import opened Patterns
  import opened Positions

  /** Indices into the legend `["event", "signal", "property"]`. */
  const EventType: nat := 0
  const SignalType: nat := 1
  const PropertyType: nat := 2

  /** A token by character offset, before the host turns the offset into a
      position. */
  datatype RawToken = RawToken(offset: nat, length: nat, tokenType: nat)

  /** What `builder.push(line, char, length, type, 0)` records. */
  datatype Token = Token(line: nat, character: nat, length: nat, tokenType: nat)

  // ---------------------------------------------------------------------
  // The `exec` loop, for any pattern.
  // ---------------------------------------------------------------------

  /** What one `exec` finds when the match starts at the index tried: the
      token to push, and `lastIndex` afterwards (the end of the match). */
  datatype Found = Found(token: RawToken, next: nat)

  /** A matcher over a text of length `n`: a match ends after its start and
      inside the text. */
  ghost predicate Advances(n: nat, f: nat -> Option<Found>) {
    forall i: nat :: f(i).Some? ==> i < f(i).value.next <= n
  }

  /** The tokens of the matches from `j` on, left to right, each search
      resuming where the previous match ended. */
  function Collect(n: nat, f: nat -> Option<Found>, j: nat): (ts: seq<RawToken>)
    requires Advances(n, f) && j <= n
    ensures forall t :: t in ts ==> exists p: nat :: j <= p < n && f(p).Some? && f(p).value.token == t
    decreases n - j
  {
    if j == n then []
    else match f(j)
      case None => Collect(n, f, j + 1)
      case Some(x) => [x.token] + Collect(n, f, x.next)
  }

  lemma CollectMiss(n: nat, f: nat -> Option<Found>, j: nat)
    requires Advances(n, f) && j < n && f(j).None?
    ensures Collect(n, f, j) == Collect(n, f, j + 1)
  {
  }

  lemma CollectHit(n: nat, f: nat -> Option<Found>, j: nat, x: Found)
    requires Advances(n, f) && j < n && f(j) == Some(x)
    ensures Collect(n, f, j) == [x.token] + Collect(n, f, x.next)
  {
  }

  /** Every collected token has a property that every token of the matcher
      has. */
  lemma {:induction false} CollectAll(n: nat, f: nat -> Option<Found>, j: nat, p: RawToken -> bool)
    requires Advances(n, f) && j <= n
    requires forall i: nat :: f(i).Some? ==> p(f(i).value.token)
    ensures forall k :: 0 <= k < |Collect(n, f, j)| ==> p(Collect(n, f, j)[k])
    decreases n - j
  {
    if j < n {
      match f(j)
      case None =>
        CollectAll(n, f, j + 1, p);
      case Some(x) =>
        CollectAll(n, f, x.next, p);
        var rest := Collect(n, f, x.next);
        assert Collect(n, f, j) == [x.token] + rest;
        forall k | 0 <= k < |rest| + 1 ensures p(([x.token] + rest)[k]) {
          if k > 0 {
            assert ([x.token] + rest)[k] == rest[k - 1];
          }
        }
    }
  }

  /** Tokens in increasing order of offset, none overlapping the next, all
      at or after `from`. */
  ghost predicate Increasing(ts: seq<RawToken>, from: nat)
    decreases |ts|
  {
    ts == [] || (from <= ts[0].offset && Increasing(ts[1..], ts[0].offset + ts[0].length))
  }

  lemma IncreasingWeaker(ts: seq<RawToken>, a: nat, b: nat)
    requires a <= b && Increasing(ts, b)
    ensures Increasing(ts, a)
  {
  }

  /** When each token lies, shifted by `lo`, inside its match, the
      collected tokens come in increasing order. */
  lemma {:induction false} CollectIncreasing(n: nat, f: nat -> Option<Found>, j: nat, lo: nat)
    requires Advances(n, f) && j <= n
    requires forall i: nat :: f(i).Some? ==>
      lo + i <= f(i).value.token.offset && f(i).value.token.offset + f(i).value.token.length <= lo + f(i).value.next
    ensures Increasing(Collect(n, f, j), lo + j)
    decreases n - j
  {
    if j < n {
      match f(j)
      case None =>
        CollectIncreasing(n, f, j + 1, lo);
        IncreasingWeaker(Collect(n, f, j + 1), lo + j, lo + j + 1);
      case Some(x) =>
        CollectIncreasing(n, f, x.next, lo);
        var rest := Collect(n, f, x.next);
        IncreasingWeaker(rest, x.token.offset + x.token.length, lo + x.next);
        assert ([x.token] + rest)[1..] == rest;
    }
  }

  /** The match at `k` is passed over only when a reported match that
      starts in `j..k` runs past `k`. */
  ghost predicate CoveredFrom(n: nat, f: nat -> Option<Found>, j: nat, k: nat)
    requires Advances(n, f) && j <= n
  {
    exists p: nat :: j <= p < k && f(p).Some? && k < f(p).value.next && f(p).value.token in Collect(n, f, j)
  }

  /** The `exec` loop is leftmost: a match at `k` is reported unless an
      earlier reported match covers `k`. */
  lemma {:induction false} CollectLeftmost(n: nat, f: nat -> Option<Found>, j: nat, k: nat)
    requires Advances(n, f) && j <= k < n && f(k).Some?
    ensures f(k).value.token in Collect(n, f, j) || CoveredFrom(n, f, j, k)
    decreases n - j
  {
    if j < k {
      match f(j)
      case None =>
        CollectLeftmost(n, f, j + 1, k);
        if !(f(k).value.token in Collect(n, f, j + 1)) {
          var p: nat :| j + 1 <= p < k && f(p).Some? && k < f(p).value.next && f(p).value.token in Collect(n, f, j + 1);
          assert j <= p;
        }
      case Some(x) =>
        assert Collect(n, f, j) == [x.token] + Collect(n, f, x.next);
        if k < x.next {
          assert j < k && f(j).Some? && k < f(j).value.next && f(j).value.token in Collect(n, f, j);
        } else {
          CollectLeftmost(n, f, x.next, k);
          if !(f(k).value.token in Collect(n, f, x.next)) {
            var p: nat :| x.next <= p < k && f(p).Some? && k < f(p).value.next && f(p).value.token in Collect(n, f, x.next);
            assert j <= p;
          }
        }
    }
  }

  // ---------------------------------------------------------------------
  // The three patterns.
  // ---------------------------------------------------------------------

  /** `/@([a-zA-Z][a-zA-Z0-9:-]*)\s*=\s*(['"`])(.*?)\2/g` over a template's
      content whose offsets count from `base`: the token starts at the `@`
      and covers it and the name. */
  function EventFound(content: string, base: nat, j: nat): (r: Option<Found>)
    ensures r.Some? ==> j < r.value.next <= |content|
  {
    match MatchEvent(content, j)
    case None => None
    case Some(m) => Some(Found(RawToken(base + j, m.nameEnd - j, EventType), m.contentEnd + 1))
  }

  function EventFinder(content: string, base: nat): (f: nat -> Option<Found>)
    ensures Advances(|content|, f)
  {
    (j: nat) => EventFound(content, base, j)
  }

  /** `/\{\{\s*([a-zA-Z][a-zA-Z0-9_\.]*(?:\.value)?)\s*\}\}/g`: the token
      starts two characters after the match, right after `{{`, and is as
      long as the name. */
  function SignalFound(content: string, base: nat, j: nat): (r: Option<Found>)
    ensures r.Some? ==> j < r.value.next <= |content|
  {
    match MatchSignalReference(content, j)
    case None => None
    case Some(m) => Some(Found(RawToken(base + j + 2, m.nameEnd - m.nameStart, SignalType), m.close + 2))
  }

  function SignalFinder(content: string, base: nat): (f: nat -> Option<Found>)
    ensures Advances(|content|, f)
  {
    (j: nat) => SignalFound(content, base, j)
  }

  /** `/eleva-prop-([a-zA-Z][a-zA-Z0-9_-]*)/g` over the whole document: the
      token starts after the prefix and covers the name. */
  function PropFound(text: string, j: nat): (r: Option<Found>)
    ensures r.Some? ==> j < r.value.next <= |text|
  {
    match MatchProp(text, j)
    case None => None
    case Some(e) => Some(Found(RawToken(j + |PropPrefix|, e - j - |PropPrefix|, PropertyType), e))
  }

  function PropFinder(text: string): (f: nat -> Option<Found>)
    ensures Advances(|text|, f)
  {
    (j: nat) => PropFound(text, j)
  }

  function EventRaws(content: string, base: nat): seq<RawToken> {
    Collect(|content|, EventFinder(content, base), 0)
  }

  function SignalRaws(content: string, base: nat): seq<RawToken> {
    Collect(|content|, SignalFinder(content, base), 0)
  }

  function PropRaws(text: string): seq<RawToken> {
    Collect(|text|, PropFinder(text), 0)
  }

  // ---------------------------------------------------------------------
  // Template literals.
  // ---------------------------------------------------------------------

  /** A template literal found by the scan: its captured content, the
      `templateStart` its tokens count from, `lastIndex` afterwards, and the
      event and signal patterns as they run over that content. */
  datatype Template = Template(
    content: string, start: nat, next: nat,
    events: nat -> Option<Found>, signals: nat -> Option<Found>)

  /** `templateStart`: the match's index plus where the content first
      occurs inside the whole match, which is at or before the content's own
      position. */
  function TemplateStart(text: string, i: nat, cs: nat, ce: nat): (ts: nat)
    requires i <= cs < ce < |text|
    ensures i <= ts <= cs
    ensures HasAt(text, ts, text[cs..ce])
  {
    ContentInMatch(text, i, cs, ce);
    i + IndexOf(text[i..ce + 1], text[cs..ce])
  }

  /** The content `text[cs..ce]` of the match `text[i..ce + 1]` first
      occurs in it at or before its own place. */
  lemma ContentInMatch(text: string, i: nat, cs: nat, ce: nat)
    requires i <= cs < ce < |text|
    ensures 0 <= IndexOf(text[i..ce + 1], text[cs..ce]) <= cs - i
    ensures HasAt(text, i + IndexOf(text[i..ce + 1], text[cs..ce]), text[cs..ce])
  {
    var whole := text[i..ce + 1];
    var content := text[cs..ce];
    SliceOfSlice(text, i, ce + 1, cs - i, ce - i);
    IndexOfAtMost(whole, content, cs - i);
    var r := IndexOf(whole, content);
    SliceOfSlice(text, i, ce + 1, r, r + |content|);
  }

  /** The template pattern of the scanner (the formatter's, without its
      first group) at `i`. Empty content has no `templateStart`. */
  function TemplateFound(text: string, i: nat): (r: Option<Template>)
    ensures r.Some? ==> i < r.value.next <= |text|
    ensures r.Some? ==> r.value.start + |r.value.content| <= |text|
  {
    match MatchLiteral("template", text, i)
    case None => None
    case Some(m) =>
      if m.contentStart == m.contentEnd then Some(Template([], i, m.End(), EventFinder([], i), SignalFinder([], i)))
      else
        var content := text[m.contentStart..m.contentEnd];
        var ts := TemplateStart(text, i, m.contentStart, m.contentEnd);
        Some(Template(content, ts, m.End(), EventFinder(content, ts), SignalFinder(content, ts)))
  }

  /** A template matcher over a text of length `n`: a match ends after its
      start and inside the text, and its event and signal patterns are
      matchers over its content. */
  ghost predicate TemplatesAdvance(n: nat, f: nat -> Option<Template>) {
    forall i: nat :: f(i).Some? ==>
      && i < f(i).value.next <= n
      && Advances(|f(i).value.content|, f(i).value.events)
      && Advances(|f(i).value.content|, f(i).value.signals)
  }

  function TemplateFinder(text: string): (f: nat -> Option<Template>)
    ensures TemplatesAdvance(|text|, f)
  {
    (i: nat) => TemplateFound(text, i)
  }

  /** The tokens of the templates from `i` on: for each template, in order,
      its event tokens and then its signal tokens; a template with empty
      content is skipped. */
  function TemplateRaws(n: nat, f: nat -> Option<Template>, i: nat): seq<RawToken>
    requires TemplatesAdvance(n, f) && i <= n
    decreases n - i
  {
    if i == n then []
    else match f(i)
      case None => TemplateRaws(n, f, i + 1)
      case Some(x) =>
        if x.content == [] then TemplateRaws(n, f, x.next)
        else Collect(|x.content|, x.events, 0) + Collect(|x.content|, x.signals, 0) + TemplateRaws(n, f, x.next)
  }

  /** All tokens of the document, by offset: none for an empty document.
      Every one of them lies where `DocumentTokenIn` says. */
  function DocumentRaws(text: string): (ts: seq<RawToken>)
    ensures AllIn(text, ts)
  {
    if text == [] then []
    else
      DocumentPartsIn(text);
      TemplateRaws(|text|, TemplateFinder(text), 0) + PropRaws(text)
  }

  // ---------------------------------------------------------------------
  // What the tokens cover.
  // ---------------------------------------------------------------------

  /** `s[a..a + len]` is an `@` and a whole event name: a letter, then
      name characters up to a character that is not one. */
  ghost predicate EventNameAt(s: string, a: nat, len: nat) {
    && 2 <= len && a + len < |s|
    && s[a] == '@' && IsLetter(s[a + 1])
    && Run(s, a + 2, a + len, IsEventNameChar)
    && !IsEventNameChar(s[a + len])
  }

  /** After white space from `a` on, a whole reference of `len`
      characters starts at `ns`: a letter, then reference characters up to
      a character that is not one. */
  ghost predicate SignalNameFrom(s: string, a: nat, ns: nat, len: nat) {
    && Spaces(s, a, ns) && ns + len < |s|
    && IsLetter(s[ns]) && Run(s, ns + 1, ns + len, IsReferenceChar)
    && !IsReferenceChar(s[ns + len])
  }

  /** `a` is right after a `{{`, and the reference that follows it (after
      any white space) is `len` characters long. */
  ghost predicate SignalNameAt(s: string, a: nat, len: nat) {
    && 2 <= a && HasAt(s, a - 2, "{{") && 0 < len && a + len < |s|
    && exists ns: nat :: SignalNameFrom(s, a, ns, len)
  }

  /** An event token starts at the `@` of its match and covers it and the
      whole attribute name after it. */
  ghost predicate EventTokenIn(content: string, base: nat, t: RawToken) {
    t.tokenType == EventType && base <= t.offset && EventNameAt(content, t.offset - base, t.length)
  }

  /** A signal token starts right after the `{{` of its match and is as
      long as the reference; it is the reference itself exactly when no
      white space follows the `{{`. */
  ghost predicate SignalTokenIn(content: string, base: nat, t: RawToken) {
    t.tokenType == SignalType && base <= t.offset && SignalNameAt(content, t.offset - base, t.length)
  }

  /** A property token covers the whole name after an `eleva-prop-`. */
  ghost predicate PropTokenIn(text: string, t: RawToken) {
    && t.tokenType == PropertyType && |PropPrefix| <= t.offset
    && IsProp(text, t.offset - |PropPrefix|, t.offset + t.length)
  }

  lemma EventFoundIn(content: string, base: nat, i: nat, x: Found)
    requires EventFound(content, base, i) == Some(x)
    ensures EventTokenIn(content, base, x.token)
    ensures base + i <= x.token.offset && x.token.offset + x.token.length <= base + x.next
  {
    var m := MatchEvent(content, i).value;
    assert IsEvent(content, i, m);
    CharAt(content, m.equals, "=", 0);
    assert m.nameEnd < m.equals ==> IsSpace(content[m.nameEnd]);
  }

  /** The event tokens of a content are what `EventTokenIn` says, in
      increasing order. */
  lemma EventTokens(content: string, base: nat)
    ensures forall k :: 0 <= k < |EventRaws(content, base)| ==> EventTokenIn(content, base, EventRaws(content, base)[k])
    ensures Increasing(EventRaws(content, base), base)
  {
    var f := EventFinder(content, base);
    forall i: nat | f(i).Some?
      ensures EventTokenIn(content, base, f(i).value.token)
      ensures base + i <= f(i).value.token.offset
      ensures f(i).value.token.offset + f(i).value.token.length <= base + f(i).value.next
    {
      EventFoundIn(content, base, i, f(i).value);
    }
    CollectAll(|content|, f, 0, t => EventTokenIn(content, base, t));
    CollectIncreasing(|content|, f, 0, base);
  }

  lemma SignalFoundIn(content: string, base: nat, i: nat, x: Found)
    requires SignalFound(content, base, i) == Some(x)
    ensures SignalTokenIn(content, base, x.token)
    ensures base + i <= x.token.offset && x.token.offset + x.token.length <= base + x.next
  {
    var m := MatchSignalReference(content, i).value;
    assert IsSignalReference(content, i, m);
    CharAt(content, m.close, "}}", 0);
    assert m.nameEnd < m.close ==> IsSpace(content[m.nameEnd]);
    assert SignalNameFrom(content, i + 2, m.nameStart, m.nameEnd - m.nameStart);
  }

  /** The signal tokens of a content are what `SignalTokenIn` says, in
      increasing order. */
  lemma SignalTokens(content: string, base: nat)
    ensures forall k :: 0 <= k < |SignalRaws(content, base)| ==> SignalTokenIn(content, base, SignalRaws(content, base)[k])
    ensures Increasing(SignalRaws(content, base), base)
  {
    var f := SignalFinder(content, base);
    forall i: nat | f(i).Some?
      ensures SignalTokenIn(content, base, f(i).value.token)
      ensures base + i <= f(i).value.token.offset
      ensures f(i).value.token.offset + f(i).value.token.length <= base + f(i).value.next
    {
      SignalFoundIn(content, base, i, f(i).value);
    }
    CollectAll(|content|, f, 0, t => SignalTokenIn(content, base, t));
    CollectIncreasing(|content|, f, 0, base);
  }

  lemma PropFoundIn(text: string, i: nat, x: Found)
    requires PropFound(text, i) == Some(x)
    ensures PropTokenIn(text, x.token)
    ensures i <= x.token.offset && x.token.offset + x.token.length <= x.next
  {
    assert IsProp(text, i, MatchProp(text, i).value);
  }

  /** The property tokens of a document are what `PropTokenIn` says, in
      increasing order. */
  lemma PropTokens(text: string)
    ensures forall k :: 0 <= k < |PropRaws(text)| ==> PropTokenIn(text, PropRaws(text)[k])
    ensures Increasing(PropRaws(text), 0)
  {
    var f := PropFinder(text);
    forall i: nat | f(i).Some?
      ensures PropTokenIn(text, f(i).value.token)
      ensures i <= f(i).value.token.offset
      ensures f(i).value.token.offset + f(i).value.token.length <= f(i).value.next
    {
      PropFoundIn(text, i, f(i).value);
    }
    CollectAll(|text|, f, 0, t => PropTokenIn(text, t));
    CollectIncreasing(|text|, f, 0, 0);
  }

  /** Every event attribute of a content yields its token, unless an
      earlier reported event attribute runs past its `@`. */
  lemma EventReported(content: string, base: nat, i: nat, m: EventMatch)
    requires IsEvent(content, i, m)
    ensures RawToken(base + i, m.nameEnd - i, EventType) in EventRaws(content, base)
            || CoveredFrom(|content|, EventFinder(content, base), 0, i)
  {
    MatchEventComplete(content, i, m);
    EventFoundAt(content, base, i, m);
    CollectLeftmost(|content|, EventFinder(content, base), 0, i);
  }

  lemma EventFoundAt(content: string, base: nat, i: nat, m: EventMatch)
    requires MatchEvent(content, i) == Some(m)
    ensures i < |content| && i <= m.nameEnd
    ensures EventFinder(content, base)(i) == Some(Found(RawToken(base + i, m.nameEnd - i, EventType), m.contentEnd + 1))
  {
  }

  /** Every signal interpolation of a content yields its token, unless an
      earlier reported interpolation runs past its `{{`. */
  lemma SignalReported(content: string, base: nat, i: nat, m: InterpolationMatch)
    requires IsSignalReference(content, i, m)
    ensures RawToken(base + i + 2, m.nameEnd - m.nameStart, SignalType) in SignalRaws(content, base)
            || CoveredFrom(|content|, SignalFinder(content, base), 0, i)
  {
    MatchSignalReferenceComplete(content, i, m);
    SignalFoundAt(content, base, i, m);
    CollectLeftmost(|content|, SignalFinder(content, base), 0, i);
  }

  lemma SignalFoundAt(content: string, base: nat, i: nat, m: InterpolationMatch)
    requires MatchSignalReference(content, i) == Some(m)
    ensures i < |content| && m.nameStart <= m.nameEnd
    ensures SignalFinder(content, base)(i) == Some(Found(RawToken(base + i + 2, m.nameEnd - m.nameStart, SignalType), m.close + 2))
  {
  }

  /** Every property binding of the document yields its token, unless an
      earlier reported binding runs past its start. */
  lemma PropReported(text: string, i: nat, e: nat)
    requires IsProp(text, i, e)
    ensures RawToken(i + |PropPrefix|, e - i - |PropPrefix|, PropertyType) in DocumentRaws(text)
            || CoveredFrom(|text|, PropFinder(text), 0, i)
  {
    MatchPropComplete(text, i, e);
    PropFoundAt(text, i, e);
    CollectLeftmost(|text|, PropFinder(text), 0, i);
    assert DocumentRaws(text) == TemplateRaws(|text|, TemplateFinder(text), 0) + PropRaws(text);
  }

  lemma PropFoundAt(text: string, i: nat, e: nat)
    requires MatchProp(text, i) == Some(e)
    ensures i < |text| && i + |PropPrefix| <= e
    ensures PropFinder(text)(i) == Some(Found(RawToken(i + |PropPrefix|, e - i - |PropPrefix|, PropertyType), e))
  {
  }

  /** What precedes and what fills the content `text[cs..ce]` of a
      template literal matched at `i`: before the opening quote there is
      neither an `@` nor a `{`, and the content never holds the quote. */
  ghost predicate CleanHead(text: string, i: nat, cs: nat, ce: nat) {
    && i < cs < ce < |text|
    && (forall j :: i <= j < cs - 1 ==> text[j] != '@' && text[j] != '{')
    && (forall j :: cs <= j < ce ==> text[j] != text[cs - 1])
  }

  /** No character of the key `template` is an `@` or a `{`. */
  lemma KeyChar(k: nat)
    requires k < 8
    ensures "template"[k] != '@' && "template"[k] != '{'
  {
  }

  /** Before the opening quote there is only the key, white space, `:`,
      `(`, the parameter, `)` and `=>`. */
  lemma TemplateHead(text: string, i: nat, m: LiteralMatch)
    requires IsLiteral("template", text, i, m) && m.contentStart < m.contentEnd
    ensures CleanHead(text, i, m.contentStart, m.contentEnd)
  {
    forall j | i <= j < m.contentStart - 1 ensures text[j] != '@' && text[j] != '{' {
      if j < i + 8 {
        CharAt(text, i, "template", j - i);
        KeyChar(j - i);
      } else if j < m.colon {
        SpaceUnmarked(text, i + 8, m.colon, j);
      } else if j == m.colon {
        CharAt(text, m.colon, ":", 0);
      } else if j < m.open {
        SpaceUnmarked(text, m.colon + 1, m.open, j);
      } else if j == m.open {
        CharAt(text, m.open, "(", 0);
      } else if j < m.paramStart {
        SpaceUnmarked(text, m.open + 1, m.paramStart, j);
      } else if j < m.paramEnd {
        WordUnmarked(text, m.paramStart, m.paramEnd, j);
      } else if j < m.close {
        SpaceUnmarked(text, m.paramEnd, m.close, j);
      } else if j == m.close {
        CharAt(text, m.close, ")", 0);
      } else if j < m.arrow {
        SpaceUnmarked(text, m.close + 1, m.arrow, j);
      } else if j < m.arrow + 2 {
        CharAt(text, m.arrow, "=>", j - m.arrow);
      } else {
        SpaceUnmarked(text, m.arrow + 2, m.contentStart - 1, j);
      }
    }
  }

  /** When the content of a template literal holds an `@` or a `{`, its
      text does not occur earlier in the match, so `templateStart` is where
      the content really starts. */
  lemma TemplateStartExact(text: string, i: nat, cs: nat, ce: nat, k: nat)
    requires CleanHead(text, i, cs, ce) && cs <= k < ce
    requires text[k] == '@' || text[k] == '{'
    ensures TemplateStart(text, i, cs, ce) == cs
  {
    var content := text[cs..ce];
    forall p | i <= p < cs ensures !HasAt(text, p, content) {
      if p + |content| <= |text| {
        var d := k - cs;
        if p + d < cs - 1 {
          assert text[p..p + |content|][d] != content[d];
        } else {
          var e := cs - 1 - p;
          assert text[p..p + |content|][e] != content[e];
        }
      }
    }
  }

  /** Where a token of the document is: inside the document, on an `@`
      and a whole event name, right after a `{{` and as long as the
      reference after it, on a whole property name. */
  ghost predicate DocumentTokenIn(text: string, t: RawToken) {
    && 0 < t.length && t.offset + t.length <= |text|
    && (t.tokenType == EventType ==> EventNameAt(text, t.offset, t.length))
    && (t.tokenType == SignalType ==> SignalNameAt(text, t.offset, t.length))
    && (t.tokenType == PropertyType ==> PropTokenIn(text, t))
  }

  ghost predicate AllIn(text: string, ts: seq<RawToken>) {
    forall k :: 0 <= k < |ts| ==> DocumentTokenIn(text, ts[k])
  }

  lemma AllInAppend(text: string, a: seq<RawToken>, b: seq<RawToken>)
    requires AllIn(text, a) && AllIn(text, b)
    ensures AllIn(text, a + b)
  {
    forall k | 0 <= k < |a + b| ensures DocumentTokenIn(text, (a + b)[k]) {
      if k >= |a| {
        assert (a + b)[k] == b[k - |a|];
      }
    }
  }

  /** An event name inside a slice is one of the whole text. */
  lemma EventNameShift(text: string, cs: nat, ce: nat, a: nat, len: nat)
    requires cs <= ce <= |text| && EventNameAt(text[cs..ce], a, len)
    ensures EventNameAt(text, cs + a, len)
  {
    var content := text[cs..ce];
    assert text[cs + a] == content[a] && text[cs + a + 1] == content[a + 1];
    assert text[cs + a + len] == content[a + len];
    RunShift(text, cs, ce, a + 2, a + len, IsEventNameChar);
  }

  /** A reference after a `{{` inside a slice is one of the whole text. */
  lemma SignalNameShift(text: string, cs: nat, ce: nat, a: nat, len: nat)
    requires cs <= ce <= |text| && SignalNameAt(text[cs..ce], a, len)
    ensures SignalNameAt(text, cs + a, len)
  {
    var content := text[cs..ce];
    SliceOfSlice(text, cs, ce, a - 2, a);
    var ns: nat :| SignalNameFrom(content, a, ns, len);
    RunShift(text, cs, ce, a, ns, IsSpace);
    RunShift(text, cs, ce, ns + 1, ns + len, IsReferenceChar);
    assert text[cs + ns] == content[ns];
    assert text[cs + ns + len] == content[ns + len];
    assert SignalNameFrom(text, cs + a, cs + ns, len);
  }

  /** An event token of a template's content is on an `@` and a whole
      event name of the document. */
  lemma TemplateEventIn(text: string, i: nat, cs: nat, ce: nat, t: RawToken)
    requires CleanHead(text, i, cs, ce)
    requires EventTokenIn(text[cs..ce], TemplateStart(text, i, cs, ce), t)
    ensures DocumentTokenIn(text, t)
  {
    var a := t.offset - TemplateStart(text, i, cs, ce);
    SliceChar(text, cs, ce, a);
    TemplateStartExact(text, i, cs, ce, cs + a);
    EventInDocument(text, cs, ce, t);
  }

  lemma EventInDocument(text: string, cs: nat, ce: nat, t: RawToken)
    requires cs <= ce <= |text| && EventTokenIn(text[cs..ce], cs, t)
    ensures DocumentTokenIn(text, t)
  {
    EventNameShift(text, cs, ce, t.offset - cs, t.length);
  }

  /** A signal token of a template's content follows a `{{` of the
      document and is as long as the reference after it. */
  lemma TemplateSignalIn(text: string, i: nat, cs: nat, ce: nat, t: RawToken)
    requires CleanHead(text, i, cs, ce)
    requires SignalTokenIn(text[cs..ce], TemplateStart(text, i, cs, ce), t)
    ensures DocumentTokenIn(text, t)
  {
    var a := t.offset - TemplateStart(text, i, cs, ce) - 2;
    CharAt(text[cs..ce], a, "{{", 0);
    SliceChar(text, cs, ce, a);
    TemplateStartExact(text, i, cs, ce, cs + a);
    SignalInDocument(text, cs, ce, t);
  }

  lemma SignalInDocument(text: string, cs: nat, ce: nat, t: RawToken)
    requires cs <= ce <= |text| && SignalTokenIn(text[cs..ce], cs, t)
    ensures DocumentTokenIn(text, t)
  {
    SignalNameShift(text, cs, ce, t.offset - cs, t.length);
  }

  lemma TemplateEventsIn(text: string, i: nat, cs: nat, ce: nat)
    requires CleanHead(text, i, cs, ce)
    ensures AllIn(text, EventRaws(text[cs..ce], TemplateStart(text, i, cs, ce)))
  {
    var events := EventRaws(text[cs..ce], TemplateStart(text, i, cs, ce));
    EventTokens(text[cs..ce], TemplateStart(text, i, cs, ce));
    forall k | 0 <= k < |events| ensures DocumentTokenIn(text, events[k]) {
      TemplateEventIn(text, i, cs, ce, events[k]);
    }
  }

  lemma TemplateSignalsIn(text: string, i: nat, cs: nat, ce: nat)
    requires CleanHead(text, i, cs, ce)
    ensures AllIn(text, SignalRaws(text[cs..ce], TemplateStart(text, i, cs, ce)))
  {
    var signals := SignalRaws(text[cs..ce], TemplateStart(text, i, cs, ce));
    SignalTokens(text[cs..ce], TemplateStart(text, i, cs, ce));
    forall k | 0 <= k < |signals| ensures DocumentTokenIn(text, signals[k]) {
      TemplateSignalIn(text, i, cs, ce, signals[k]);
    }
  }

  /** The tokens of a template the scan finds lie where `DocumentTokenIn`
      says. */
  lemma TemplateFoundIn(text: string, i: nat, x: Template)
    requires TemplateFound(text, i) == Some(x) && x.content != []
    ensures AllIn(text, Collect(|x.content|, x.events, 0) + Collect(|x.content|, x.signals, 0))
  {
    var m := MatchLiteral("template", text, i).value;
    assert x.events == EventFinder(x.content, x.start) && x.signals == SignalFinder(x.content, x.start);
    TemplateHead(text, i, m);
    TemplateEventsIn(text, i, m.contentStart, m.contentEnd);
    TemplateSignalsIn(text, i, m.contentStart, m.contentEnd);
    AllInAppend(text, EventRaws(x.content, x.start), SignalRaws(x.content, x.start));
    assert EventRaws(x.content, x.start) == Collect(|x.content|, x.events, 0);
    assert SignalRaws(x.content, x.start) == Collect(|x.content|, x.signals, 0);
  }

  /** When every template's tokens lie where `DocumentTokenIn` says, so do
      all of them from `i` on. */
  lemma {:induction false} TemplatesIn(text: string, n: nat, f: nat -> Option<Template>, i: nat)
    requires TemplatesAdvance(n, f) && i <= n
    requires forall j: nat :: f(j).Some? && f(j).value.content != [] ==>
      AllIn(text, Collect(|f(j).value.content|, f(j).value.events, 0) + Collect(|f(j).value.content|, f(j).value.signals, 0))
    ensures AllIn(text, TemplateRaws(n, f, i))
    decreases n - i
  {
    if i < n {
      match f(i)
      case None =>
        TemplatesIn(text, n, f, i + 1);
      case Some(x) =>
        TemplatesIn(text, n, f, x.next);
        if x.content != [] {
          AllInAppend(text, Collect(|x.content|, x.events, 0) + Collect(|x.content|, x.signals, 0), TemplateRaws(n, f, x.next));
        }
    }
  }

  /** The tokens of the templates and of the property bindings lie where
      `DocumentTokenIn` says. */
  lemma DocumentPartsIn(text: string)
    ensures AllIn(text, TemplateRaws(|text|, TemplateFinder(text), 0) + PropRaws(text))
  {
    var f := TemplateFinder(text);
    forall j: nat | f(j).Some? && f(j).value.content != []
      ensures AllIn(text, Collect(|f(j).value.content|, f(j).value.events, 0) + Collect(|f(j).value.content|, f(j).value.signals, 0))
    {
      TemplateFoundIn(text, j, f(j).value);
    }
    TemplatesIn(text, |text|, f, 0);
    PropTokens(text);
    AllInAppend(text, TemplateRaws(|text|, TemplateFinder(text), 0), PropRaws(text));
  }

  // ---------------------------------------------------------------------
  // Nothing is missed.
  // ---------------------------------------------------------------------

  /** `a` occurs in `b` as a contiguous run starting at `p`. */
  ghost predicate InfixAt<T>(a: seq<T>, b: seq<T>, p: nat) {
    p + |a| <= |b| && b[p..p + |a|] == a
  }

  /** `a` occurs in `b` as a contiguous run. */
  ghost predicate Infix<T>(a: seq<T>, b: seq<T>) {
    exists p: nat :: InfixAt(a, b, p)
  }

  lemma InfixAfter<T>(a: seq<T>, pre: seq<T>, b: seq<T>)
    requires Infix(a, b)
    ensures Infix(a, pre + b)
  {
    var p: nat :| InfixAt(a, b, p);
    assert (pre + b)[|pre| + p..|pre| + p + |a|] == b[p..p + |a|];
    assert InfixAt(a, pre + b, |pre| + p);
  }

  lemma InfixIn<T>(a: seq<T>, b: seq<T>, x: T)
    requires Infix(a, b) && x in a
    ensures x in b
  {
    var p: nat :| InfixAt(a, b, p);
    var k :| 0 <= k < |a| && a[k] == x;
    assert b[p + k] == b[p..p + |a|][k];
  }

  /** The template loop started at `j` tries index `p`: it steps past an
      index with no match and jumps to the end of a match. */
  ghost predicate Visits(n: nat, f: nat -> Option<Template>, j: nat, p: nat)
    requires TemplatesAdvance(n, f) && j <= n
    decreases n - j
  {
    || j == p
    || (&& j < p && j < n
        && match f(j)
           case None => Visits(n, f, j + 1, p)
           case Some(x) => Visits(n, f, x.next, p))
  }

  /** A template match at `k` is passed over only when a template match
      that the loop started at `j` tries, before `k`, runs past `k`. */
  ghost predicate TemplateCovered(n: nat, f: nat -> Option<Template>, j: nat, k: nat)
    requires TemplatesAdvance(n, f) && j <= n
  {
    exists p: nat :: j <= p < k && f(p).Some? && k < f(p).value.next && Visits(n, f, j, p)
  }

  /** Two indices the loop tries: the later one lies at or past the end of
      the earlier one's match. */
  lemma {:induction false} VisitsPast(n: nat, f: nat -> Option<Template>, j: nat, p: nat, k: nat)
    requires TemplatesAdvance(n, f) && j <= n
    requires Visits(n, f, j, p) && Visits(n, f, j, k) && p < k && f(p).Some?
    ensures f(p).value.next <= k
    decreases n - j
  {
    if j == p {
      assert Visits(n, f, f(p).value.next, k);
      assert f(p).value.next <= k;
    } else {
      match f(j)
      case None => VisitsPast(n, f, j + 1, p, k);
      case Some(x) => VisitsPast(n, f, x.next, p, k);
    }
  }

  /** Every template match the loop tries is uncovered, so the cover
      excludes only matches the scan never reaches. */
  lemma ReachedUncovered(n: nat, f: nat -> Option<Template>, j: nat, k: nat)
    requires TemplatesAdvance(n, f) && j <= n && Visits(n, f, j, k)
    ensures !TemplateCovered(n, f, j, k)
  {
    if TemplateCovered(n, f, j, k) {
      var p: nat :| j <= p < k && f(p).Some? && k < f(p).value.next && Visits(n, f, j, p);
      VisitsPast(n, f, j, p, k);
    }
  }

  /** The template loop is leftmost too: the tokens of a template literal
      with content at `k` appear together, in order, among those of the
      scan, unless an earlier template literal runs past `k`. */
  lemma {:induction false} TemplateLeftmost(n: nat, f: nat -> Option<Template>, j: nat, k: nat)
    requires TemplatesAdvance(n, f) && j <= k < n && f(k).Some? && f(k).value.content != []
    ensures || Infix(Collect(|f(k).value.content|, f(k).value.events, 0)
                     + Collect(|f(k).value.content|, f(k).value.signals, 0), TemplateRaws(n, f, j))
            || TemplateCovered(n, f, j, k)
    decreases n - j
  {
    var x := f(k).value;
    var own := Collect(|x.content|, x.events, 0) + Collect(|x.content|, x.signals, 0);
    if j == k {
      assert TemplateRaws(n, f, j) == own + TemplateRaws(n, f, x.next);
      assert TemplateRaws(n, f, j)[0..|own|] == own;
      assert InfixAt(own, TemplateRaws(n, f, j), 0);
    } else {
      match f(j)
      case None =>
        TemplateLeftmost(n, f, j + 1, k);
        if TemplateCovered(n, f, j + 1, k) {
          var p: nat :| j + 1 <= p < k && f(p).Some? && k < f(p).value.next && Visits(n, f, j + 1, p);
          assert Visits(n, f, j, p);
        }
      case Some(y) =>
        if k < y.next {
          assert j <= j < k && f(j).Some? && k < f(j).value.next && Visits(n, f, j, j);
        } else {
          TemplateLeftmost(n, f, y.next, k);
          if TemplateCovered(n, f, y.next, k) {
            var p: nat :| y.next <= p < k && f(p).Some? && k < f(p).value.next && Visits(n, f, y.next, p);
            assert Visits(n, f, j, p);
          } else if y.content != [] {
            var pre := Collect(|y.content|, y.events, 0) + Collect(|y.content|, y.signals, 0);
            assert TemplateRaws(n, f, j) == pre + TemplateRaws(n, f, y.next);
            InfixAfter(own, pre, TemplateRaws(n, f, y.next));
          }
        }
    }
  }

  /** Every template literal is found where it starts, with its content. */
  lemma TemplateFoundComplete(text: string, k: nat, m: LiteralMatch)
    requires IsLiteral("template", text, k, m)
    ensures TemplateFound(text, k).Some?
    ensures TemplateFound(text, k).value.content == text[m.contentStart..m.contentEnd]
    ensures TemplateFound(text, k).value.next == m.End()
  {
    MatchLiteralComplete("template", text, k, m);
    TemplateFoundOf(text, k, m);
  }

  lemma TemplateFoundOf(text: string, k: nat, m: LiteralMatch)
    requires MatchLiteral("template", text, k) == Some(m)
    ensures m.contentStart <= m.contentEnd <= |text|
    ensures TemplateFound(text, k).Some?
    ensures TemplateFound(text, k).value.content == text[m.contentStart..m.contentEnd]
    ensures TemplateFound(text, k).value.next == m.End()
  {
  }

  /** An event attribute in the content of a template literal that the
      scan reaches is reported in the document, unless an earlier event
      attribute of that content runs past it. */
  lemma DocumentEventReported(text: string, k: nat, x: Template, i: nat, m: EventMatch)
    requires TemplateFound(text, k) == Some(x) && !TemplateCovered(|text|, TemplateFinder(text), 0, k)
    requires IsEvent(x.content, i, m) && !CoveredFrom(|x.content|, EventFinder(x.content, x.start), 0, i)
    ensures RawToken(x.start + i, m.nameEnd - i, EventType) in DocumentRaws(text)
  {
    EventReported(x.content, x.start, i, m);
    ReachedTemplate(text, k, x, RawToken(x.start + i, m.nameEnd - i, EventType), true);
  }

  /** The same for a signal interpolation. */
  lemma DocumentSignalReported(text: string, k: nat, x: Template, i: nat, m: InterpolationMatch)
    requires TemplateFound(text, k) == Some(x) && !TemplateCovered(|text|, TemplateFinder(text), 0, k)
    requires IsSignalReference(x.content, i, m) && !CoveredFrom(|x.content|, SignalFinder(x.content, x.start), 0, i)
    ensures RawToken(x.start + i + 2, m.nameEnd - m.nameStart, SignalType) in DocumentRaws(text)
  {
    SignalReported(x.content, x.start, i, m);
    ReachedTemplate(text, k, x, RawToken(x.start + i + 2, m.nameEnd - m.nameStart, SignalType), false);
  }

  /** A token of a template literal the scan reaches is a token of the
      document. */
  lemma ReachedTemplate(text: string, k: nat, x: Template, t: RawToken, event: bool)
    requires TemplateFound(text, k) == Some(x) && !TemplateCovered(|text|, TemplateFinder(text), 0, k)
    requires event ==> t in EventRaws(x.content, x.start)
    requires !event ==> t in SignalRaws(x.content, x.start)
    requires x.content != []
    ensures t in DocumentRaws(text)
  {
    var f := TemplateFinder(text);
    assert f(k) == Some(x);
    assert x.events == EventFinder(x.content, x.start) && x.signals == SignalFinder(x.content, x.start);
    TemplateLeftmost(|text|, f, 0, k);
    var own := EventRaws(x.content, x.start) + SignalRaws(x.content, x.start);
    assert t in own;
    InfixIn(own, TemplateRaws(|text|, f, 0), t);
    assert DocumentRaws(text) == TemplateRaws(|text|, f, 0) + PropRaws(text);
  }

  // ---------------------------------------------------------------------
  // Positions and the builder.
  // ---------------------------------------------------------------------

  function ToToken(text: string, t: RawToken): Token {
    var p := PositionAt(text, t.offset);
    Token(p.line, p.character, t.length, t.tokenType)
  }

  function Tokenize(text: string, ts: seq<RawToken>): seq<Token> {
    if ts == [] then [] else [ToToken(text, ts[0])] + Tokenize(text, ts[1..])
  }

  /** Each token is pushed on its own: the entries of a list of tokens are
      the entries of its parts, in order. */
  lemma {:induction false} TokenizeAppend(text: string, a: seq<RawToken>, b: seq<RawToken>)
    ensures Tokenize(text, a + b) == Tokenize(text, a) + Tokenize(text, b)
    decreases |a|
  {
    if a != [] {
      assert (a + b)[0] == a[0] && (a + b)[1..] == a[1..] + b;
      TokenizeAppend(text, a[1..], b);
      assert Tokenize(text, a + b) == [ToToken(text, a[0])] + (Tokenize(text, a[1..]) + Tokenize(text, b));
    } else {
      assert a + b == b;
    }
  }

  lemma AppendAssoc(a: seq<Token>, b: seq<Token>, c: seq<Token>)
    ensures a + (b + c) == (a + b) + c
  {
  }

  lemma Regroup(a: seq<Token>, b: seq<Token>, c: seq<Token>, d: seq<Token>)
    ensures a + (b + (c + d)) == ((a + b) + c) + d
  {
  }

  // ---------------------------------------------------------------------
  // The provider, with its `exec` loops.
  // ---------------------------------------------------------------------

  lemma TemplateMiss(n: nat, f: nat -> Option<Template>, i: nat)
    requires TemplatesAdvance(n, f) && i < n && f(i).None?
    ensures TemplateRaws(n, f, i) == TemplateRaws(n, f, i + 1)
  {
  }

  lemma TemplateSkip(n: nat, f: nat -> Option<Template>, i: nat, x: Template)
    requires TemplatesAdvance(n, f) && i < n && f(i) == Some(x) && x.content == []
    ensures TemplateRaws(n, f, i) == TemplateRaws(n, f, x.next)
  {
  }

  /** The tokens of a template with content, then those of the templates
      after it. */
  lemma TemplateHit(text: string, n: nat, f: nat -> Option<Template>, i: nat, x: Template)
    requires TemplatesAdvance(n, f) && i < n && f(i) == Some(x) && x.content != []
    ensures Tokenize(text, TemplateRaws(n, f, i))
      == Tokenize(text, Collect(|x.content|, x.events, 0))
         + (Tokenize(text, Collect(|x.content|, x.signals, 0)) + Tokenize(text, TemplateRaws(n, f, x.next)))
  {
    var events := Collect(|x.content|, x.events, 0);
    var signals := Collect(|x.content|, x.signals, 0);
    var rest := TemplateRaws(n, f, x.next);
    assert TemplateRaws(n, f, i) == events + signals + rest;
    TokenizeAppend(text, events, signals);
    TokenizeAppend(text, events + signals, rest);
    AppendAssoc(Tokenize(text, events), Tokenize(text, signals), Tokenize(text, rest));
  }

  /** One `while ((match = regex.exec(s)) !== null)` loop over a text of
      length `n`, pushing a token for every match. */
  method Scan(text: string, n: nat, f: nat -> Option<Found>, tokens: seq<Token>) returns (out: seq<Token>)
    requires Advances(n, f)
    ensures out == tokens + Tokenize(text, Collect(n, f, 0))
  {
    out := tokens;
    var j := 0;
    while j < n
      invariant j <= n
      invariant out + Tokenize(text, Collect(n, f, j)) == tokens + Tokenize(text, Collect(n, f, 0))
      decreases n - j
    {
      var found := f(j);
      if found.None? {
        CollectMiss(n, f, j);
        j := j + 1;
      } else {
        var x := found.value;
        var t := ToToken(text, x.token);
        var rest := Tokenize(text, Collect(n, f, x.next));
        CollectHit(n, f, j, x);
        assert ([x.token] + Collect(n, f, x.next))[1..] == Collect(n, f, x.next);
        assert Tokenize(text, Collect(n, f, j)) == [t] + rest;
        AppendAssoc(out, [t], rest);
        out := out + [t];
        j := x.next;
      }
    }
  }

  /** The event loop and then the signal loop over one template's content. */
  method ScanTemplate(text: string, x: Template, tokens: seq<Token>) returns (out: seq<Token>)
    requires Advances(|x.content|, x.events) && Advances(|x.content|, x.signals)
    ensures out == tokens + Tokenize(text, Collect(|x.content|, x.events, 0))
                          + Tokenize(text, Collect(|x.content|, x.signals, 0))
  {
    out := Scan(text, |x.content|, x.events, tokens);
    out := Scan(text, |x.content|, x.signals, out);
  }

  /** The outer loop over template literals, with the event loop and the
      signal loop for each template's content. */
  method ScanTemplates(text: string, n: nat, f: nat -> Option<Template>, tokens: seq<Token>) returns (out: seq<Token>)
    requires TemplatesAdvance(n, f)
    ensures out == tokens + Tokenize(text, TemplateRaws(n, f, 0))
  {
    out := tokens;
    var i := 0;
    while i < n
      invariant i <= n
      invariant out + Tokenize(text, TemplateRaws(n, f, i)) == tokens + Tokenize(text, TemplateRaws(n, f, 0))
      decreases n - i
    {
      var found := f(i);
      if found.None? {
        TemplateMiss(n, f, i);
        i := i + 1;
      } else {
        var x := found.value;
        if x.content == [] {
          TemplateSkip(n, f, i, x);
        } else {
          var events := Tokenize(text, Collect(|x.content|, x.events, 0));
          var signals := Tokenize(text, Collect(|x.content|, x.signals, 0));
          var rest := Tokenize(text, TemplateRaws(n, f, x.next));
          TemplateHit(text, n, f, i, x);
          var before := out;
          out := ScanTemplate(text, x, out);
          Regroup(before, events, signals, rest);
        }
        i := x.next;
      }
    }
  }

  /** `provideDocumentSemanticTokens`: what the builder holds at the end. */
  method ProvideDocumentSemanticTokens(text: string) returns (tokens: seq<Token>)
    ensures tokens == Tokenize(text, DocumentRaws(text))
  {
    if text == [] {
      tokens := [];
      assert DocumentRaws(text) == [];
    } else {
      var templates := TemplateRaws(|text|, TemplateFinder(text), 0);
      assert DocumentRaws(text) == templates + PropRaws(text);
      tokens := ScanTemplates(text, |text|, TemplateFinder(text), []);
      TokenizeAppend(text, templates, PropRaws(text));
      assert tokens == Tokenize(text, templates);
      tokens := Scan(text, |text|, PropFinder(text), tokens);
    }
  }

  /** The entries pushed for a list of tokens are those of its tokens, one
      each, in order. */
  lemma {:induction false} TokenizeEach(text: string, ts: seq<RawToken>)
    ensures |Tokenize(text, ts)| == |ts|
    ensures forall k :: 0 <= k < |ts| ==> Tokenize(text, ts)[k] == ToToken(text, ts[k])
    decreases |ts|
  {
    if ts != [] {
      TokenizeEach(text, ts[1..]);
      var r := Tokenize(text, ts);
      assert r == [ToToken(text, ts[0])] + Tokenize(text, ts[1..]);
      forall k | 0 < k < |ts| ensures r[k] == ToToken(text, ts[k]) {
        assert r[k] == Tokenize(text, ts[1..])[k - 1];
      }
    }
  }

  /** An entry the builder holds for a token: the same length and type, and
      a line and character that lead back to the token's offset. */
  ghost predicate PushedFor(text: string, e: Token, t: RawToken) {
    && e.length == t.length && e.tokenType == t.tokenType
    && e.line <= multiset(text)['\n']
    && OffsetOf(text, Position(e.line, e.character)) == t.offset
  }

  /** What the provider hands to the editor: one entry per token of the
      document, each pointing back at where its token lies. */
  lemma ProvidedTokens(text: string)
    ensures |Tokenize(text, DocumentRaws(text))| == |DocumentRaws(text)|
    ensures forall k :: 0 <= k < |DocumentRaws(text)| ==>
      DocumentTokenIn(text, DocumentRaws(text)[k])
      && PushedFor(text, Tokenize(text, DocumentRaws(text))[k], DocumentRaws(text)[k])
  {
    var raws := DocumentRaws(text);
    TokenizeEach(text, raws);
    forall k | 0 <= k < |raws| ensures PushedFor(text, Tokenize(text, raws)[k], raws[k]) {
      assert DocumentTokenIn(text, raws[k]);
      OffsetRoundTrip(text, raws[k].offset);
    }
  }
}
