/** What `formatTemplateHTML` makes of markup, on small layouts: markup
    already laid out one run of tags per line survives the cleaning, a
    nested element written on one line stays on that line, and a line that
    opens and closes the same element counts as an opening line for the
    depth counter. */
module MarkupLayout {
  import opened Text
  import opened Replace
  import opened Patterns
  import opened Reflow

  /** `s[p..q]` holds no white space and `s[q]` is a lone white-space
      character. */
  ghost predicate LoneSpaceAt(s: string, p: nat, q: nat) {
    p <= q && q + 1 < |s| && IsSpace(s[q]) && !IsSpace(s[q + 1])
    && forall j :: p <= j < q ==> !IsSpace(s[j])
  }

  lemma CollapseStep(s: string, p: nat, q: nat)
    requires LoneSpaceAt(s, p, q)
    ensures ReplaceFrom(s, CollapseRule(s), p) == s[p..q] + " " + ReplaceFrom(s, CollapseRule(s), q + 1)
  {
    var rule := CollapseRule(s);
    ReplaceUntil(s, rule, p, q);
    assert rule(q) == Some(Hit(q + 1, " "));
  }

  lemma CollapseRest(s: string, p: nat)
    requires p <= |s| && forall j :: p <= j < |s| ==> !IsSpace(s[j])
    ensures ReplaceFrom(s, CollapseRule(s), p) == s[p..]
  {
    ReplaceUntil(s, CollapseRule(s), p, |s|);
  }

  /** `s[p..q]` holds no space and `> <` starts at `q`. */
  ghost predicate TagGapAfter(s: string, p: nat, q: nat) {
    p <= q && HasAt(s, q, "> <") && forall j :: p <= j < q ==> s[j] != ' '
  }

  lemma TagGapStep(s: string, p: nat, q: nat)
    requires TagGapAfter(s, p, q)
    ensures ReplaceFrom(s, TagGapRule(s), p) == s[p..q] + ">\n<" + ReplaceFrom(s, TagGapRule(s), q + 3)
  {
    var rule := TagGapRule(s);
    CharAt(s, q, "> <", 0);
    TagGapNone(s, p, q);
    ReplaceUntil(s, rule, p, q);
    assert rule(q) == Some(Hit(q + 3, ">\n<"));
  }

  /** Without a space from `p` to `q` (the character at `q` included, if
      any), `> <` starts nowhere in `s[p..q]`. */
  lemma TagGapNone(s: string, p: nat, q: nat)
    requires q <= |s| && forall j :: p <= j <= q && j < |s| ==> s[j] != ' '
    ensures forall j: nat :: p <= j < q ==> TagGapRule(s)(j).None?
  {
    forall j: nat | p <= j < q ensures TagGapRule(s)(j).None? {
      if HasAt(s, j, "> <") { CharAt(s, j, "> <", 1); }
    }
  }

  lemma TagGapRest(s: string, p: nat)
    requires p <= |s| && forall j :: p <= j < |s| ==> s[j] != ' '
    ensures ReplaceFrom(s, TagGapRule(s), p) == s[p..]
  {
    TagGapNone(s, p, |s|);
    ReplaceUntil(s, TagGapRule(s), p, |s|);
  }

  /** A line holding tags only: it starts with `<`, ends with `>`, has no
      white space and no `>` directly followed by `<`. */
  predicate TagLine(t: string) {
    && 2 <= |t| && t[0] == '<' && t[|t| - 1] == '>'
    && (forall j :: 0 <= j < |t| ==> !IsSpace(t[j]))
    && (forall j :: 0 <= j < |t| - 1 ==> t[j] != '>' || t[j + 1] != '<')
  }

  /** The characters of three lines joined by `sep`. */
  lemma JoinedThree(a: string, b: string, c: string, sep: char)
    ensures var s := a + [sep] + b + [sep] + c;
      var p := |a| + 1; var q := p + |b| + 1;
      && |s| == q + |c| && s[|a|] == sep && s[p + |b|] == sep
      && (forall j :: 0 <= j < |a| ==> s[j] == a[j])
      && (forall j :: 0 <= j < |b| ==> s[p + j] == b[j])
      && (forall j :: 0 <= j < |c| ==> s[q + j] == c[j])
      && s[0..|a|] == a && s[p..p + |b|] == b && s[q..] == c
  {
  }

  lemma NoSpaceThree(a: string, b: string, c: string, sep: char)
    requires TagLine(a) && TagLine(b) && TagLine(c)
    ensures var s := a + [sep] + b + [sep] + c;
      var p := |a| + 1;
      forall j :: 0 <= j < |s| && j != |a| && j != p + |b| ==> !IsSpace(s[j])
  {
    var s := a + [sep] + b + [sep] + c;
    var p := |a| + 1;
    var q := p + |b| + 1;
    JoinedThree(a, b, c, sep);
    forall j | 0 <= j < |s| && j != |a| && j != p + |b| ensures !IsSpace(s[j]) {
      if j < |a| { assert s[j] == a[j]; }
      else if j < p + |b| { assert s[j] == b[j - p]; }
      else { assert s[j] == c[j - q]; }
    }
  }

  /** One lone white-space character at `q` and none after it. */
  lemma CollapseLast(s: string, p: nat, q: nat)
    requires LoneSpaceAt(s, p, q) && forall j :: q < j < |s| ==> !IsSpace(s[j])
    ensures ReplaceFrom(s, CollapseRule(s), p) == s[p..q] + " " + s[q + 1..]
  {
    CollapseRest(s, q + 1);
    CollapseStep(s, p, q);
  }

  lemma CollapseTwoGaps(s: string, g1: nat, g2: nat)
    requires LoneSpaceAt(s, 0, g1) && LoneSpaceAt(s, g1 + 1, g2)
    requires forall j :: g2 < j < |s| ==> !IsSpace(s[j])
    ensures ReplaceFrom(s, CollapseRule(s), 0) == s[..g1] + " " + s[g1 + 1..g2] + " " + s[g2 + 1..]
  {
    var x, y, z := s[0..g1], s[g1 + 1..g2], s[g2 + 1..];
    CollapseLast(s, g1 + 1, g2);
    CollapseStep(s, 0, g1);
    Assoc5(x, " ", y, " ", z);
    assert x == s[..g1];
  }

  lemma Assoc5<T>(a: seq<T>, b: seq<T>, c: seq<T>, d: seq<T>, e: seq<T>)
    ensures a + b + (c + d + e) == a + b + c + d + e
  {
  }

  /** One `> <` at `q` and no space after it. */
  lemma TagGapLast(z: string, p: nat, q: nat)
    requires TagGapAfter(z, p, q) && forall j :: q + 3 <= j < |z| ==> z[j] != ' '
    ensures ReplaceFrom(z, TagGapRule(z), p) == z[p..q] + ">\n<" + z[q + 3..]
  {
    TagGapRest(z, q + 3);
    TagGapStep(z, p, q);
  }

  lemma TagGapTwoGaps(z: string, g1: nat, g2: nat)
    requires 0 < g1 && g1 + 3 <= g2 && TagGapAfter(z, 0, g1 - 1) && TagGapAfter(z, g1 + 2, g2 - 1)
    requires forall j :: g2 + 2 <= j < |z| ==> z[j] != ' '
    ensures ReplaceFrom(z, TagGapRule(z), 0) == z[..g1] + "\n" + z[g1 + 1..g2] + "\n" + z[g2 + 1..]
  {
    TagGapLast(z, g1 + 2, g2 - 1);
    TagGapStep(z, 0, g1 - 1);
    TagGapJoin(z, g1, g2);
  }

  lemma TagGapJoin(z: string, g1: nat, g2: nat)
    requires 0 < g1 && g1 + 2 <= g2 - 1 && HasAt(z, g1 - 1, "> <") && HasAt(z, g2 - 1, "> <")
    ensures z[0..g1 - 1] + ">\n<" + (z[g1 + 2..g2 - 1] + ">\n<" + z[g2 + 2..])
      == z[..g1] + "\n" + z[g1 + 1..g2] + "\n" + z[g2 + 1..]
  {
    CharAt(z, g1 - 1, "> <", 0);
    CharAt(z, g1 - 1, "> <", 2);
    CharAt(z, g2 - 1, "> <", 0);
    CharAt(z, g2 - 1, "> <", 2);
    assert z[..g1] == z[0..g1 - 1] + ">";
    assert z[g1 + 1..g2] == "<" + z[g1 + 2..g2 - 1] + ">";
    assert z[g2 + 1..] == "<" + z[g2 + 2..];
  }

  lemma CollapseTagLines(a: string, b: string, c: string)
    requires TagLine(a) && TagLine(b) && TagLine(c)
    ensures var s := a + "\n" + b + "\n" + c;
      ReplaceFrom(s, CollapseRule(s), 0) == a + " " + b + " " + c
  {
    var s := a + "\n" + b + "\n" + c;
    JoinedThree(a, b, c, '\n');
    NoSpaceThree(a, b, c, '\n');
    CollapseTwoGaps(s, |a|, |a| + 1 + |b|);
  }

  lemma TagGapTagLines(a: string, b: string, c: string)
    requires TagLine(a) && TagLine(b) && TagLine(c)
    ensures var z := a + " " + b + " " + c;
      ReplaceFrom(z, TagGapRule(z), 0) == a + "\n" + b + "\n" + c
  {
    var z := a + " " + b + " " + c;
    var p := |a| + 1;
    JoinedThree(a, b, c, ' ');
    NoSpaceThree(a, b, c, ' ');
    assert z[|a| - 1..|a| + 2] == "> <" by {
      assert z[|a| - 1] == a[|a| - 1] && z[p] == b[0];
    }
    assert z[p + |b| - 1..p + |b| + 2] == "> <" by {
      assert z[p + |b| - 1] == b[|b| - 1] && z[p + |b| + 1] == c[0];
    }
    TagGapTwoGaps(z, |a|, p + |b|);
  }

  /** No `>` directly followed by `<` in three tag lines joined by a
      separator other than `<` and `>`. */
  lemma NoTouchThree(a: string, b: string, c: string, sep: char)
    requires TagLine(a) && TagLine(b) && TagLine(c) && sep != '<' && sep != '>'
    ensures var s := a + [sep] + b + [sep] + c;
      forall j :: 0 <= j < |s| - 1 ==> s[j] != '>' || s[j + 1] != '<'
  {
    var s := a + [sep] + b + [sep] + c;
    var p := |a| + 1;
    var q := p + |b| + 1;
    JoinedThree(a, b, c, sep);
    forall j | 0 <= j < |s| - 1 ensures s[j] != '>' || s[j + 1] != '<' {
      if j + 1 < |a| { assert s[j] == a[j] && s[j + 1] == a[j + 1]; }
      else if j < p { }
      else if j + 1 < p + |b| { assert s[j] == b[j - p] && s[j + 1] == b[j + 1 - p]; }
      else if j < q { }
      else { assert s[j] == c[j - q] && s[j + 1] == c[j + 1 - q]; }
    }
  }

  /** Without a `>` directly followed by `<`, no closing tag touches an
      opening tag. */
  lemma NoCloseOpen(s: string)
    requires forall j :: 0 <= j < |s| - 1 ==> s[j] != '>' || s[j + 1] != '<'
    ensures ReplaceFrom(s, CloseOpenRule(s), 0) == s
  {
    forall j: nat | j < |s| ensures CloseOpenRule(s)(j).None? {
      if MatchCloseOpen(s, j).Some? {
        var m := MatchCloseOpen(s, j).value;
        CharAt(s, m.0, "><", 0);
        CharAt(s, m.0, "><", 1);
      }
    }
    ReplaceUntil(s, CloseOpenRule(s), 0, |s|);
  }

  // The three replaces of the cleaning on three tag lines, in two halves.
  lemma CleanTagLinesFirst(a: string, b: string, c: string)
    requires TagLine(a) && TagLine(b) && TagLine(c)
    ensures var s := a + "\n" + b + "\n" + c;
      Trim(s) == s && ReplaceFrom(s, CollapseRule(s), 0) == a + " " + b + " " + c
  {
    var s := a + "\n" + b + "\n" + c;
    JoinedThree(a, b, c, '\n');
    TrimOfTrimmed(s);
    CollapseTagLines(a, b, c);
  }

  lemma CleanTagLinesLast(a: string, b: string, c: string)
    requires TagLine(a) && TagLine(b) && TagLine(c)
    ensures var s := a + "\n" + b + "\n" + c;
      var z := a + " " + b + " " + c;
      ReplaceFrom(z, TagGapRule(z), 0) == s && ReplaceFrom(s, CloseOpenRule(s), 0) == s
  {
    TagGapTagLines(a, b, c);
    NoTouchThree(a, b, c, '\n');
    NoCloseOpen(a + "\n" + b + "\n" + c);
  }

  /** Markup laid out as three tag lines is left as it is by the cleaning:
      the line breaks collapse to spaces, and the spaces between tags
      become line breaks again. */
  lemma CleanTagLines(a: string, b: string, c: string)
    requires TagLine(a) && TagLine(b) && TagLine(c)
    ensures CleanMarkup(a + "\n" + b + "\n" + c) == a + "\n" + b + "\n" + c
  {
    CleanTagLinesFirst(a, b, c);
    CleanTagLinesLast(a, b, c);
  }

  lemma LayoutCons(d: Dialect, t: string, rest: seq<string>, depth: nat)
    requires Trim(t) == t && t != []
    ensures Layout(d, [t] + rest, depth) == [Entry(LevelOf(d, t, depth), t)] + Layout(d, rest, DepthAfter(d, Entry(LevelOf(d, t, depth), t)))
  {
    assert ([t] + rest)[0] == t && ([t] + rest)[1..] == rest;
  }

  lemma SplitOne(t: string, sep: char)
    requires sep !in t
    ensures Split(t, sep) == [t]
  {
  }

  /** A single line that does not close is emitted as it is. */
  lemma IndentedOneLine(d: Dialect, t: string, n: nat)
    requires Tidy(t, '\n') && !Closes(d, t)
    ensures Indented(d, t, n) == t
  {
    TrimOfTrimmed(t);
    SplitOne(t, '\n');
    LayoutCons(d, t, [], 0);
    assert [t] + [] == [t];
  }

  // The lines of the examples.
  lemma DivLine(a: string)
    requires a == "<div>"
    ensures TagLine(a) && Trim(a) == a && !Closes(Markup, a)
  {
    TrimOfTrimmed(a);
    assert !HasAt(a, 0, "</") by { if HasAt(a, 0, "</") { CharAt(a, 0, "</", 1); } }
    forall j | 0 <= j < |a| ensures !IsSpace(a[j]) {
      assert j == 0 || j == 1 || j == 2 || j == 3 || j == 4;
    }
  }

  lemma DivOpens(a: string)
    requires a == "<div>"
    ensures Opens(Markup, a)
  {
    assert OpeningSpan(a, 0, 4);
    HasOpeningTagIff(a, 0);
    HasSelfClosingTagIff(a, 0);
  }

  lemma ParagraphLine(b: string)
    requires b == "<p>hi</p>"
    ensures TagLine(b) && Trim(b) == b && !Closes(Markup, b)
  {
    TrimOfTrimmed(b);
    assert !HasAt(b, 0, "</") by { if HasAt(b, 0, "</") { CharAt(b, 0, "</", 1); } }
    forall j | 0 <= j < |b| ensures !IsSpace(b[j]) && (j + 1 < |b| ==> b[j] != '>' || b[j + 1] != '<') {
      assert j == 0 || j == 1 || j == 2 || j == 3 || j == 4 || j == 5 || j == 6 || j == 7 || j == 8;
    }
  }

  lemma ParagraphOpens(b: string)
    requires b == "<p>hi</p>"
    ensures Opens(Markup, b)
  {
    assert OpeningSpan(b, 0, 2);
    HasOpeningTagIff(b, 0);
    HasSelfClosingTagIff(b, 0);
  }

  lemma CloseDivLine(c: string)
    requires c == "</div>"
    ensures TagLine(c) && Trim(c) == c && Closes(Markup, c)
  {
    TrimOfTrimmed(c);
    assert c[0..2] == "</";
    forall j | 0 <= j < |c| ensures !IsSpace(c[j]) {
      assert j == 0 || j == 1 || j == 2 || j == 3 || j == 4 || j == 5;
    }
  }

  lemma NestedLayout(a: string, b: string, c: string)
    requires a == "<div>" && b == "<p>hi</p>" && c == "</div>"
    ensures Layout(Markup, [a, b, c], 0) == [Entry(0, a), Entry(1, b), Entry(1, c)]
  {
    DivLine(a);
    DivOpens(a);
    ParagraphLine(b);
    ParagraphOpens(b);
    CloseDivLine(c);
    LayoutCons(Markup, c, [], 2);
    LayoutCons(Markup, b, [c], 1);
    assert [a, b, c] == [a] + [b, c];
    assert [b, c] == [b] + [c];
    LayoutCons(Markup, a, [b, c], 0);
  }

  /** Three lines laid out at the given levels, rendered and joined. */
  lemma IndentedThree(d: Dialect, a: string, b: string, c: string, n: nat, l1: nat, l2: nat, l3: nat)
    requires '\n' !in a && '\n' !in b && '\n' !in c
    requires Layout(d, [a, b, c], 0) == [Entry(l1, a), Entry(l2, b), Entry(l3, c)]
    ensures var unit := Repeat(" ", n);
      Indented(d, a + "\n" + b + "\n" + c, n)
        == Repeat(unit, l1) + a + "\n" + (Repeat(unit, l2) + b) + "\n" + (Repeat(unit, l3) + c)
  {
    var s := a + "\n" + b + "\n" + c;
    var unit := Repeat(" ", n);
    SplitThree(a, b, c);
    var lines := Render([Entry(l1, a), Entry(l2, b), Entry(l3, c)], unit);
    assert lines == [Repeat(unit, l1) + a, Repeat(unit, l2) + b, Repeat(unit, l3) + c];
    JoinThree(lines[0], lines[1], lines[2]);
  }

  lemma SplitThree(a: string, b: string, c: string)
    requires '\n' !in a && '\n' !in b && '\n' !in c
    ensures Split(a + "\n" + b + "\n" + c, '\n') == [a, b, c]
  {
    SplitOne(c, '\n');
    SplitCons(b, '\n', c);
    assert a + "\n" + b + "\n" + c == a + ['\n'] + (b + ['\n'] + c);
    SplitCons(a, '\n', b + "\n" + c);
  }

  lemma JoinThree(x: string, y: string, z: string)
    ensures Join([x, y, z], "\n") == x + "\n" + y + "\n" + z
  {
    assert [x, y, z][1..] == [y, z];
    assert [y, z][1..] == [z];
    assert Join([z], "\n") == z;
    assert Join([y, z], "\n") == y + "\n" + z;
    assert Join([x, y, z], "\n") == x + "\n" + (y + "\n" + z);
  }

  lemma UnitTwo()
    ensures Repeat(" ", 2) == "  " && Repeat("  ", 1) == "  " && Repeat("  ", 0) == ""
  {
  }

  lemma NestedText(a: string, b: string, c: string)
    ensures Repeat("  ", 0) + a + "\n" + (Repeat("  ", 1) + b) + "\n" + (Repeat("  ", 1) + c) == a + "\n  " + b + "\n  " + c
  {
    UnitTwo();
    assert "\n" + "  " == "\n  ";
    assert "\n" + ("  " + b) == "\n  " + b;
    assert "\n" + ("  " + c) == "\n  " + c;
  }

  lemma ReflowMarkup(s: string, n: nat)
    requires s != []
    ensures Reflow.Reflow(Markup, s, n) == Indented(Markup, CleanMarkup(s), n)
  {
  }

  /** The depth counter counts a line that opens and closes the same
      element as an opening line, so the closing tag after it stays one
      level in: `<div>`, `<p>hi</p>`, `</div>` come out at levels 0, 1, 1. */
  lemma ReflowNested(a: string, b: string, c: string)
    requires a == "<div>" && b == "<p>hi</p>" && c == "</div>"
    ensures Reflow.Reflow(Markup, a + "\n" + b + "\n" + c, 2) == a + "\n  " + b + "\n  " + c
  {
    DivLine(a);
    ParagraphLine(b);
    CloseDivLine(c);
    CleanTagLines(a, b, c);
    NestedLayout(a, b, c);
    IndentedThree(Markup, a, b, c, 2, 0, 1, 1);
    ReflowMarkup(a + "\n" + b + "\n" + c, 2);
    UnitTwo();
    NestedText(a, b, c);
  }

  /** Markup without white space and without a closing tag touching an
      opening tag is left as it is by the cleaning. */
  lemma CleanUntouched(s: string)
    requires forall j :: 0 <= j < |s| ==> !IsSpace(s[j])
    requires forall j: nat :: j < |s| ==> MatchCloseOpen(s, j).None?
    ensures CleanMarkup(s) == s
  {
    TrimOfTrimmed(s);
    CollapseRest(s, 0);
    TagGapRest(s, 0);
    assert forall j: nat :: j < |s| ==> CloseOpenRule(s)(j).None?;
    ReplaceUntil(s, CloseOpenRule(s), 0, |s|);
  }

  lemma OneLineChars(x: string)
    requires x == "<div><p>hi</p></div>"
    ensures forall j: nat :: j < |x| ==> (!IsSpace(x[j])
        && (j + 1 < |x| && x[j] == '<' && x[j + 1] == '/' ==> j == 10 || j == 14))
  {
    forall j: nat | j < |x| ensures !IsSpace(x[j])
      && (j + 1 < |x| && x[j] == '<' && x[j + 1] == '/' ==> j == 10 || j == 14)
    {
      assert j == 0 || j == 1 || j == 2 || j == 3 || j == 4 || j == 5 || j == 6 || j == 7 || j == 8 || j == 9
        || j == 10 || j == 11 || j == 12 || j == 13 || j == 14 || j == 15 || j == 16 || j == 17 || j == 18 || j == 19;
    }
  }

  lemma OneLineNoCloseOpen(x: string)
    requires x == "<div><p>hi</p></div>"
    ensures forall j: nat :: j < |x| ==> MatchCloseOpen(x, j).None?
  {
    OneLineChars(x);
    forall j: nat | j < |x| ensures MatchCloseOpen(x, j).None? {
      if HasAt(x, j, "</") {
        CharAt(x, j, "</", 0);
        CharAt(x, j, "</", 1);
        if j == 10 {
          RunEndAt(x, 12, 13, IsAlnum);
          RunEndAt(x, 15, 15, IsAlnum);
        } else {
          RunEndAt(x, 16, 19, IsAlnum);
        }
      }
    }
  }

  /** Tags that touch are not split onto lines of their own unless a
      closing tag is followed by an opening one, so a nested element on one
      line comes back as it was. */
  lemma ReflowOneLine(x: string)
    requires x == "<div><p>hi</p></div>"
    ensures Reflow.Reflow(Markup, x, 2) == x
  {
    OneLineChars(x);
    OneLineNoCloseOpen(x);
    CleanUntouched(x);
    assert !HasAt(x, 0, "</") by { if HasAt(x, 0, "</") { CharAt(x, 0, "</", 1); } }
    IndentedOneLine(Markup, x, 2);
  }
}
