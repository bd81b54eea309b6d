/** What `formatCSS` makes of one flat rule: a selector followed by
    declarations in braces, each declaration ended by a semicolon, with no
    white space anywhere. The rule comes out one declaration per line, each
    indented one level, with the closing brace on a line of its own. */
module CssLayout {
  import opened Text
  import opened Replace
  import opened Patterns
  import opened Reflow

  /** A character of a selector or a declaration: no white space, no brace,
      no semicolon. */
  predicate DeclChar(c: char) {
    !IsSpace(c) && c != '{' && c != '}' && c != ';'
  }

  predicate DeclChars(w: string)
    decreases |w|
  {
    w == [] || (DeclChar(w[0]) && DeclChars(w[1..]))
  }

  /** A selector or a declaration: one or more such characters. */
  predicate Word(w: string) {
    w != [] && DeclChars(w)
  }

  predicate Words(ds: seq<string>)
    decreases |ds|
  {
    ds == [] || (Word(ds[0]) && Words(ds[1..]))
  }

  /** The declarations as written: `d1;d2;…;`. */
  function Decls(ds: seq<string>): string {
    if ds == [] then "" else ds[0] + ";" + Decls(ds[1..])
  }

  /** The declarations after the semicolon replace: `d1;\nd2;\n…`. */
  function DeclLines(ds: seq<string>): string {
    if ds == [] then "" else ds[0] + ";\n" + DeclLines(ds[1..])
  }

  /** The declarations as output lines: `d1;`, `d2;`, …. */
  function Terminated(ds: seq<string>): seq<string> {
    if ds == [] then [] else [ds[0] + ";"] + Terminated(ds[1..])
  }

  /** The declarations as laid out, one level deep. */
  function Nested(ds: seq<string>): seq<Entry> {
    if ds == [] then [] else [Entry(1, ds[0] + ";")] + Nested(ds[1..])
  }

  /** The declarations as rendered lines. */
  function NestedLines(ds: seq<string>, unit: string): seq<string> {
    if ds == [] then [] else [unit + ds[0] + ";"] + NestedLines(ds[1..], unit)
  }

  /** The declarations in the output: `unit d1;\nunit d2;\n…`. */
  function IndentedDecls(ds: seq<string>, unit: string): string {
    if ds == [] then "" else unit + ds[0] + ";\n" + IndentedDecls(ds[1..], unit)
  }

  // ---------------------------------------------------------------------
  // The characters of the written declarations.
  // ---------------------------------------------------------------------

  lemma {:induction false} DeclCharAt(w: string, k: nat)
    requires DeclChars(w) && k < |w|
    ensures DeclChar(w[k])
    decreases k
  {
    if k > 0 {
      DeclCharAt(w[1..], k - 1);
    }
  }

  /** Text with no white space and no opening brace. */
  predicate Solid(t: string) {
    forall k :: 0 <= k < |t| ==> !IsSpace(t[k]) && t[k] != '{'
  }

  /** The written declarations and the closing brace hold no white space
      and no opening brace. */
  lemma {:induction false} DeclsChars(ds: seq<string>)
    requires Words(ds)
    ensures Solid(Decls(ds) + "}")
    decreases |ds|
  {
    if ds != [] {
      DeclsChars(ds[1..]);
      var d := ds[0];
      var rest := Decls(ds[1..]) + "}";
      var t := Decls(ds) + "}";
      assert t == d + ";" + rest;
      forall k | 0 <= k < |t| ensures !IsSpace(t[k]) && t[k] != '{' {
        if k < |d| {
          assert t[k] == d[k];
          DeclCharAt(d, k);
        } else if k == |d| {
          assert t[k] == ';';
          assert !IsSpace(';');
        } else {
          assert t[k] == rest[k - |d| - 1];
          assert !IsSpace(rest[k - |d| - 1]);
        }
      }
    }
  }

  /** `\s*c\s*` does not match at a character that is neither white space
      nor `c`. */
  lemma SpacedMiss(s: string, j: nat, c: char)
    requires j < |s| && !IsSpace(s[j]) && s[j] != c
    ensures MatchSpacedChar(s, j, c).None?
  {
    assert SpaceEnd(s, j) == j;
  }

  /** Nor at one white-space character followed by such a character. */
  lemma SpacedMissAfterSpace(s: string, j: nat, c: char)
    requires j + 1 < |s| && IsSpace(s[j]) && !IsSpace(s[j + 1]) && s[j + 1] != c
    ensures MatchSpacedChar(s, j, c).None?
  {
    assert SpaceEnd(s, j) == j + 1;
  }

  /** At `c` followed by a character that is not white space, it matches
      `c` alone. */
  lemma SpacedHit(s: string, j: nat, c: char)
    requires j + 1 < |s| && s[j] == c && !IsSpace(c) && !IsSpace(s[j + 1])
    ensures MatchSpacedChar(s, j, c) == Some(j + 1)
  {
    assert SpaceEnd(s, j) == j;
    assert SpaceEnd(s, j + 1) == j + 1;
  }

  /** At one white-space character followed by `c` ending the text, it
      matches both. */
  lemma SpacedHitLast(s: string, j: nat, c: char)
    requires j + 2 == |s| && IsSpace(s[j]) && s[j + 1] == c && !IsSpace(c)
    ensures MatchSpacedChar(s, j, c) == Some(|s|)
  {
    assert SpaceEnd(s, j) == j + 1;
  }

  /** `;\s*` matches a semicolon alone when no white space follows it. */
  lemma SemicolonHit(s: string, q: nat)
    requires q + 1 < |s| && s[q] == ';' && !IsSpace(s[q + 1])
    ensures MatchSemicolon(s, q) == Some(q + 1)
  {
    assert SpaceEnd(s, q + 1) == q + 1;
  }

  /** Where `s[p..]` is `a`, then `c`, then `r`. */
  lemma Cut(s: string, p: nat, a: string, c: char, r: string)
    requires p <= |s| && s[p..] == a + [c] + r
    ensures p + |a| < |s| && s[p + |a|] == c
    ensures s[p..p + |a|] == a && s[p + |a| + 1..] == r
    ensures forall j :: p <= j < p + |a| ==> s[j] == a[j - p]
  {
    assert s[p..][|a|] == c;
    assert s[p..][..|a|] == a;
    assert s[p..][|a| + 1..] == r;
  }

  /** A line with no white space at either end is laid out as itself. */
  lemma LayoutHead(t: string, rest: seq<string>, depth: nat)
    requires t != [] && !IsSpace(t[0]) && !IsSpace(t[|t| - 1])
    ensures var e := Entry(LevelOf(Stylesheet, t, depth), t);
            Layout(Stylesheet, [t] + rest, depth) == [e] + Layout(Stylesheet, rest, DepthAfter(Stylesheet, e))
  {
    TrimOfTrimmed(t);
    assert ([t] + rest)[0] == t;
    assert ([t] + rest)[1..] == rest;
  }

  /** A declaration with its semicolon holds no white space and no brace. */
  lemma TerminatedSolid(d: string)
    requires Word(d)
    ensures Solid(d + ";") && |d + ";"| >= 2 && (d + ";")[|d|] == ';'
  {
    var t := d + ";";
    forall k | 0 <= k < |t| ensures !IsSpace(t[k]) && t[k] != '{' {
      if k < |d| {
        assert t[k] == d[k];
        DeclCharAt(d, k);
      } else {
        assert t[k] == ';';
      }
    }
  }

  // ---------------------------------------------------------------------
  // Regrouping the pieces of a text. Each equation is stated on its own,
  // over unknown pieces, in exactly the grouping its caller needs.
  // ---------------------------------------------------------------------

  lemma Assoc<T>(a: seq<T>, b: seq<T>, c: seq<T>)
    ensures a + b + c == a + (b + c)
  {
  }

  lemma HeadBreak(sel: string, r: string)
    ensures sel + " {\n" + r == (sel + " {") + ("\n" + r)
  {
  }

  lemma LineBreak(d: string, dl: string, r: string)
    ensures d + ";\n" + dl + r == (d + ";") + ['\n'] + (dl + r)
  {
  }

  lemma NextLine(d: string, dl: string)
    ensures "\n" + (d + ";\n" + dl + "}") == ("\n" + d) + [';'] + ("\n" + (dl + "}"))
  {
  }

  lemma LastLine(sel: string, dl: string)
    ensures sel + " {\n" + dl + "}" + "\n" == (sel + " {") + ['\n'] + (dl + "}\n")
  {
  }

  /** The opening line and the rest, glued by a line break. */
  lemma OpenLine(sel: string, a: string, b: string)
    ensures sel + " {" + "\n" + a + b == sel + " {\n" + a + b
  {
  }

  // ---------------------------------------------------------------------
  // The three replaces of the cleaning step.
  // ---------------------------------------------------------------------

  /** `\s*{\s*` matches once in a text whose only opening brace follows a
      run of selector characters and precedes text with no white space. */
  lemma OpenBraceOnce(x: string, m: nat)
    requires m < |x| && x[m] == '{' && Solid(x[m + 1..])
    requires forall j :: 0 <= j < m ==> DeclChar(x[j])
    requires m + 1 < |x|
    ensures ReplaceFrom(x, SpacedBraceRule(x, '{', " {\n"), 0) == x[..m] + " {\n" + x[m + 1..]
  {
    OpenBraceBefore(x, m);
    OpenBraceAt(x, m);
    assert x[0..m] == x[..m];
    Assoc(x[..m], " {\n", x[m + 1..]);
  }

  lemma OpenBraceAt(x: string, m: nat)
    requires m + 1 < |x| && x[m] == '{' && Solid(x[m + 1..])
    ensures ReplaceFrom(x, SpacedBraceRule(x, '{', " {\n"), m) == " {\n" + x[m + 1..]
  {
    var rule := SpacedBraceRule(x, '{', " {\n");
    OpenBraceAfter(x, m);
    assert x[m + 1] == x[m + 1..][0];
    SpacedHit(x, m, '{');
    assert rule(m) == Some(Hit(m + 1, " {\n"));
  }

  lemma OpenBraceBefore(x: string, m: nat)
    requires m < |x| && forall j :: 0 <= j < m ==> DeclChar(x[j])
    ensures ReplaceFrom(x, SpacedBraceRule(x, '{', " {\n"), 0) == x[0..m] + ReplaceFrom(x, SpacedBraceRule(x, '{', " {\n"), m)
  {
    var rule := SpacedBraceRule(x, '{', " {\n");
    forall j: nat | j < m ensures rule(j).None? {
      SpacedMiss(x, j, '{');
    }
    ReplaceUntil(x, rule, 0, m);
  }

  lemma OpenBraceAfter(x: string, m: nat)
    requires m < |x| && Solid(x[m + 1..])
    ensures ReplaceFrom(x, SpacedBraceRule(x, '{', " {\n"), m + 1) == x[m + 1..]
  {
    var rule := SpacedBraceRule(x, '{', " {\n");
    forall j: nat | m < j < |x| ensures rule(j).None? {
      assert x[j] == x[m + 1..][j - m - 1];
      SpacedMiss(x, j, '{');
    }
    ReplaceUntil(x, rule, m + 1, |x|);
    assert x[m + 1..|x|] == x[m + 1..];
  }

  lemma OpenBracePass(sel: string, ds: seq<string>)
    requires Word(sel) && Words(ds)
    ensures var x := sel + "{" + Decls(ds) + "}";
            ReplaceAll(x, SpacedBraceRule(x, '{', " {\n")) == sel + " {\n" + Decls(ds) + "}"
  {
    var tail := Decls(ds) + "}";
    var x := sel + "{" + Decls(ds) + "}";
    var m := |sel|;
    DeclsChars(ds);
    Assoc(sel + "{", Decls(ds), "}");
    assert x[..m] == sel;
    assert x[m + 1..] == tail;
    forall j | 0 <= j < m ensures DeclChar(x[j]) {
      DeclCharAt(sel, j);
    }
    OpenBraceOnce(x, m);
    Assoc(sel + " {\n", Decls(ds), "}");
  }

  /** One declaration followed by its semicolon: the semicolon gains a
      line break. */
  lemma SemicolonStep(b: string, p: nat, d: string, rest: string)
    requires Word(d) && p <= |b| && b[p..] == d + ";" + rest
    requires rest != [] && !IsSpace(rest[0])
    ensures p + |d| + 1 <= |b| && b[p + |d| + 1..] == rest
    ensures ReplaceFrom(b, SemicolonRule(b), p) == d + ";\n" + ReplaceFrom(b, SemicolonRule(b), p + |d| + 1)
  {
    var rule := SemicolonRule(b);
    var q := p + |d|;
    Cut(b, p, d, ';', rest);
    forall j: nat | p <= j < q ensures rule(j).None? {
      DeclCharAt(d, j - p);
    }
    ReplaceUntil(b, rule, p, q);
    assert b[q + 1] == rest[0];
    SemicolonHit(b, q);
  }

  /** The closing brace alone: no match. */
  lemma SemicolonEnd(b: string, p: nat)
    requires p <= |b| && b[p..] == [] + "}"
    ensures ReplaceFrom(b, SemicolonRule(b), p) == [] + "}"
  {
    assert b[p..] == "}";
    assert b[p] == '}' && p + 1 == |b|;
    assert SemicolonRule(b)(p).None?;
  }

  /** From the start of the written declarations on, every `;` gains a line
      break. */
  lemma {:induction false} SemicolonDecls(b: string, p: nat, ds: seq<string>)
    requires Words(ds) && p <= |b| && b[p..] == Decls(ds) + "}"
    ensures ReplaceFrom(b, SemicolonRule(b), p) == DeclLines(ds) + "}"
    decreases |ds|
  {
    if ds == [] {
      SemicolonEnd(b, p);
    } else {
      var d := ds[0];
      var rest := Decls(ds[1..]) + "}";
      Assoc(d + ";", Decls(ds[1..]), "}");
      DeclsChars(ds[1..]);
      SemicolonStep(b, p, d, rest);
      SemicolonDecls(b, p + |d| + 1, ds[1..]);
      Assoc(d + ";\n", DeclLines(ds[1..]), "}");
    }
  }

  /** `;\s*` puts every declaration on a line of its own. */
  lemma SemicolonPass(sel: string, ds: seq<string>)
    requires Word(sel) && Words(ds)
    ensures var b := sel + " {\n" + Decls(ds) + "}";
            ReplaceAll(b, SemicolonRule(b)) == sel + " {\n" + DeclLines(ds) + "}"
  {
    var head := sel + " {\n";
    var b := sel + " {\n" + Decls(ds) + "}";
    var rule := SemicolonRule(b);
    var m := |sel|;
    Assoc(head, Decls(ds), "}");
    assert |head| == m + 3;
    forall j: nat | j < m + 3 ensures rule(j).None? {
      assert b[j] == head[j];
      if j < m {
        assert head[j] == sel[j];
        DeclCharAt(sel, j);
      } else if j == m {
        assert head[m] == ' ';
      } else if j == m + 1 {
        assert head[m + 1] == '{';
      } else {
        assert head[m + 2] == '\n';
      }
    }
    ReplaceUntil(b, rule, 0, m + 3);
    assert b[0..m + 3] == head;
    assert b[m + 3..] == Decls(ds) + "}";
    SemicolonDecls(b, m + 3, ds);
    Assoc(head, DeclLines(ds), "}");
  }

  /** A line break, one declaration and its semicolon: no match. */
  lemma CloseBraceMiss(c: string, p: nat, d: string, rest: string)
    requires Word(d) && p <= |c| && c[p..] == ("\n" + d) + [';'] + rest
    ensures p + |d| + 2 <= |c| && c[p + |d| + 2..] == rest
    ensures forall j: nat :: p <= j < p + |d| + 2 ==> SpacedBraceRule(c, '}', "\n}\n")(j).None?
  {
    var rule := SpacedBraceRule(c, '}', "\n}\n");
    var q := p + 1 + |d|;
    var a := "\n" + d;
    Cut(c, p, a, ';', rest);
    assert c[p] == a[0] == '\n' && c[p + 1] == a[1] == d[0];
    forall j: nat | p <= j <= q ensures rule(j).None? {
      if j == p {
        DeclCharAt(d, 0);
        SpacedMissAfterSpace(c, p, '}');
      } else if j < q {
        assert c[j] == a[j - p] == d[j - p - 1];
        DeclCharAt(d, j - p - 1);
        SpacedMiss(c, j, '}');
      } else {
        SpacedMiss(c, j, '}');
      }
    }
  }

  lemma Rejoin(s: string, p: nat, q: nat)
    requires p <= q <= |s|
    ensures s[p..q] + (s[q..] + "\n") == s[p..] + "\n"
  {
    assert s[p..q] + s[q..] == s[p..];
  }

  /** The last line break and the closing brace: one match, which adds a
      line break. */
  lemma CloseBraceLast(c: string, p: nat)
    requires p <= |c| && c[p..] == "\n" + ([] + "}")
    ensures ReplaceFrom(c, SpacedBraceRule(c, '}', "\n}\n"), p) == c[p..] + "\n"
  {
    assert c[p..] == "\n}";
    assert c[p] == '\n' && c[p + 1] == '}' && p + 2 == |c|;
    SpacedHitLast(c, p, '}');
  }

  /** From the line break before the declarations on, `\s*}\s*` matches only
      at the last line break, which it takes together with the brace: the
      text gains a line break at its end. */
  lemma {:induction false} CloseBraceDecls(c: string, p: nat, ds: seq<string>)
    requires Words(ds) && p <= |c| && c[p..] == "\n" + (DeclLines(ds) + "}")
    ensures ReplaceFrom(c, SpacedBraceRule(c, '}', "\n}\n"), p) == c[p..] + "\n"
    decreases |ds|
  {
    if ds == [] {
      CloseBraceLast(c, p);
    } else {
      var rule := SpacedBraceRule(c, '}', "\n}\n");
      var d := ds[0];
      var rest := "\n" + (DeclLines(ds[1..]) + "}");
      var q := p + |d| + 2;
      NextLine(d, DeclLines(ds[1..]));
      CloseBraceMiss(c, p, d, rest);
      ReplaceUntil(c, rule, p, q);
      CloseBraceDecls(c, q, ds[1..]);
      Rejoin(c, p, q);
    }
  }

  /** `\s*}\s*` puts the closing brace on a line of its own. */
  lemma CloseBracePass(sel: string, ds: seq<string>)
    requires Word(sel) && Words(ds)
    ensures var c := sel + " {\n" + DeclLines(ds) + "}";
            ReplaceAll(c, SpacedBraceRule(c, '}', "\n}\n")) == c + "\n"
  {
    var head := sel + " {";
    var c := sel + " {\n" + DeclLines(ds) + "}";
    var rule := SpacedBraceRule(c, '}', "\n}\n");
    var m := |sel|;
    Assoc(sel + " {\n", DeclLines(ds), "}");
    HeadBreak(sel, DeclLines(ds) + "}");
    assert |head| == m + 2;
    forall j: nat | j < m + 2 ensures rule(j).None? {
      assert c[j] == head[j];
      if j < m {
        assert head[j] == sel[j];
        DeclCharAt(sel, j);
        SpacedMiss(c, j, '}');
      } else if j == m {
        assert head[m] == ' ' && c[m + 1] == head[m + 1] == '{';
        SpacedMissAfterSpace(c, j, '}');
      } else {
        assert head[m + 1] == '{';
        SpacedMiss(c, j, '}');
      }
    }
    ReplaceUntil(c, rule, 0, m + 2);
    assert c[m + 2..] == "\n" + (DeclLines(ds) + "}");
    CloseBraceDecls(c, m + 2, ds);
    Rejoin(c, 0, m + 2);
    assert c[0..] == c;
  }

  // ---------------------------------------------------------------------
  // The lines and the depth counter.
  // ---------------------------------------------------------------------

  lemma {:induction false} SplitDecls(ds: seq<string>, rest: string)
    requires Words(ds)
    ensures Split(DeclLines(ds) + rest, '\n') == Terminated(ds) + Split(rest, '\n')
    decreases |ds|
  {
    if ds != [] {
      var d := ds[0];
      assert DeclLines(ds) == d + ";\n" + DeclLines(ds[1..]);
      assert Terminated(ds) == [d + ";"] + Terminated(ds[1..]);
      LineBreak(d, DeclLines(ds[1..]), rest);
      TerminatedSolid(d);
      SplitCons(d + ";", '\n', DeclLines(ds[1..]) + rest);
      SplitDecls(ds[1..], rest);
      Assoc([d + ";"], Terminated(ds[1..]), Split(rest, '\n'));
    } else {
      assert DeclLines(ds) + rest == rest;
      assert Terminated(ds) + Split(rest, '\n') == Split(rest, '\n');
    }
  }

  lemma {:induction false} LayoutDecls(ds: seq<string>, rest: seq<string>)
    requires Words(ds)
    ensures Layout(Stylesheet, Terminated(ds) + rest, 1) == Nested(ds) + Layout(Stylesheet, rest, 1)
    decreases |ds|
  {
    if ds != [] {
      var d := ds[0];
      var t := d + ";";
      assert Terminated(ds) == [t] + Terminated(ds[1..]);
      assert Nested(ds) == [Entry(1, t)] + Nested(ds[1..]);
      Assoc([t], Terminated(ds[1..]), rest);
      TerminatedSolid(d);
      LayoutHead(t, Terminated(ds[1..]) + rest, 1);
      assert !Opens(Stylesheet, t);
      assert !Closes(Stylesheet, t);
      LayoutDecls(ds[1..], rest);
      Assoc([Entry(1, t)], Nested(ds[1..]), Layout(Stylesheet, rest, 1));
    } else {
      assert Terminated(ds) + rest == rest;
      assert Nested(ds) + Layout(Stylesheet, rest, 1) == Layout(Stylesheet, rest, 1);
    }
  }

  lemma {:induction false} RenderDecls(ds: seq<string>, unit: string, rest: seq<Entry>)
    ensures Render(Nested(ds) + rest, unit) == NestedLines(ds, unit) + Render(rest, unit)
    decreases |ds|
  {
    if ds != [] {
      var e := Entry(1, ds[0] + ";");
      assert Nested(ds) + rest == [e] + (Nested(ds[1..]) + rest);
      RenderStep(e, Nested(ds[1..]) + rest, unit);
      assert Repeat(unit, 1) == unit;
      assert unit + (ds[0] + ";") == unit + ds[0] + ";";
      RenderDecls(ds[1..], unit, rest);
    }
  }

  lemma {:induction false} JoinDecls(ds: seq<string>, unit: string)
    ensures Join(NestedLines(ds, unit) + ["}"], "\n") == IndentedDecls(ds, unit) + "}"
    decreases |ds|
  {
    if ds != [] {
      var lines := NestedLines(ds, unit) + ["}"];
      assert lines[1..] == NestedLines(ds[1..], unit) + ["}"];
      JoinDecls(ds[1..], unit);
    }
  }

  /** The cleaning step gives the selector with ` {`, each declaration with
      its semicolon, and the closing brace, each followed by a line break. */
  lemma CleanRule(sel: string, ds: seq<string>)
    requires Word(sel) && Words(ds)
    ensures CleanStylesheet(sel + "{" + Decls(ds) + "}") == sel + " {\n" + DeclLines(ds) + "}" + "\n"
  {
    var x := sel + "{" + Decls(ds) + "}";
    DeclCharAt(sel, 0);
    assert x[0] == sel[0];
    TrimOfTrimmed(x);
    OpenBracePass(sel, ds);
    SemicolonPass(sel, ds);
    CloseBracePass(sel, ds);
  }

  /** The closing brace and the empty piece after the last line break. */
  lemma CloseLines()
    ensures Split("}\n", '\n') == ["}", ""]
  {
    SplitCons("}", '\n', "");
    assert "}\n" == "}" + ['\n'] + "";
  }

  lemma LinesOfRule(sel: string, ds: seq<string>)
    requires Word(sel) && Words(ds)
    ensures Split(sel + " {\n" + DeclLines(ds) + "}" + "\n", '\n') == [sel + " {"] + (Terminated(ds) + ["}", ""])
  {
    var head := sel + " {";
    forall k | 0 <= k < |head| ensures head[k] != '\n' {
      if k < |sel| {
        assert head[k] == sel[k];
        DeclCharAt(sel, k);
      }
    }
    LastLine(sel, DeclLines(ds));
    SplitCons(head, '\n', DeclLines(ds) + "}\n");
    SplitDecls(ds, "}\n");
    CloseLines();
  }

  /** The closing brace at depth 1, then the empty last piece. */
  lemma CloseLayout()
    ensures Layout(Stylesheet, ["}", ""], 1) == [Entry(0, "}")]
  {
    LayoutHead("}", [""], 1);
    assert ["}", ""] == ["}"] + [""];
    assert Trim("") == [];
  }

  /** The selector line opens a level and has no white space at its ends. */
  lemma OpenHead(sel: string)
    requires Word(sel)
    ensures var head := sel + " {";
            head != [] && !IsSpace(head[0]) && !IsSpace(head[|head| - 1])
            && DepthAfter(Stylesheet, Entry(LevelOf(Stylesheet, head, 0), head)) == 1
  {
    var head := sel + " {";
    DeclCharAt(sel, 0);
    assert head[0] == sel[0] && head[|head| - 1] == '{';
    assert Opens(Stylesheet, head);
  }

  lemma LayoutOfRule(sel: string, ds: seq<string>)
    requires Word(sel) && Words(ds)
    ensures Layout(Stylesheet, [sel + " {"] + (Terminated(ds) + ["}", ""]), 0)
            == [Entry(0, sel + " {")] + (Nested(ds) + [Entry(0, "}")])
  {
    OpenHead(sel);
    LayoutHead(sel + " {", Terminated(ds) + ["}", ""], 0);
    LayoutDecls(ds, ["}", ""]);
    CloseLayout();
  }

  lemma RenderOfRule(head: string, ds: seq<string>, unit: string)
    ensures Join(Render([Entry(0, head)] + (Nested(ds) + [Entry(0, "}")]), unit), "\n")
            == head + "\n" + IndentedDecls(ds, unit) + "}"
  {
    var rest := NestedLines(ds, unit) + ["}"];
    RenderStep(Entry(0, head), Nested(ds) + [Entry(0, "}")], unit);
    RenderDecls(ds, unit, [Entry(0, "}")]);
    RenderStep(Entry(0, "}"), [], unit);
    assert [Entry(0, "}")] + [] == [Entry(0, "}")];
    assert Repeat(unit, 0) + "}" == "}";
    assert Repeat(unit, 0) + head == head;
    assert Render([Entry(0, head)] + (Nested(ds) + [Entry(0, "}")]), unit) == [head] + rest;
    JoinDecls(ds, unit);
    assert ([head] + rest)[1..] == rest;
    assert Join([head] + rest, "\n") == head + "\n" + Join(rest, "\n");
    Assoc(head + "\n", IndentedDecls(ds, unit), "}");
  }

  /** A flat rule `sel{d1;…;dn;}` is laid out as the selector and ` {` on
      the first line, each declaration with its semicolon on a line of its
      own one indent unit deep, and the closing brace alone at depth 0. */
  lemma FlatRule(sel: string, ds: seq<string>, n: nat)
    requires Word(sel) && Words(ds)
    ensures Reflow.Reflow(Stylesheet, sel + "{" + Decls(ds) + "}", n)
            == sel + " {\n" + IndentedDecls(ds, Repeat(" ", n)) + "}"
  {
    var x := sel + "{" + Decls(ds) + "}";
    var cleaned := sel + " {\n" + DeclLines(ds) + "}" + "\n";
    var lines := [sel + " {"] + (Terminated(ds) + ["}", ""]);
    var es := [Entry(0, sel + " {")] + (Nested(ds) + [Entry(0, "}")]);
    var unit := Repeat(" ", n);
    CleanRule(sel, ds);
    assert Clean(Stylesheet, x) == cleaned;
    LinesOfRule(sel, ds);
    LayoutOfRule(sel, ds);
    assert Layout(Stylesheet, Split(cleaned, '\n'), 0) == es;
    RenderOfRule(sel + " {", ds, unit);
    assert Indented(Stylesheet, cleaned, n) == sel + " {" + "\n" + IndentedDecls(ds, unit) + "}";
    OpenLine(sel, IndentedDecls(ds, unit), "}");
    assert x != [];
  }

  // ---------------------------------------------------------------------
  // One rule worked through.
  // ---------------------------------------------------------------------

  /** A run of characters each of which may stand in a declaration. */
  lemma {:induction false} AllDeclChars(w: string)
    requires forall k :: 0 <= k < |w| ==> DeclChar(w[k])
    ensures DeclChars(w)
    decreases |w|
  {
    if w != [] {
      AllDeclChars(w[1..]);
    }
  }

  lemma ExampleSelector()
    ensures Word(".a")
  {
    AllDeclChars(".a");
  }

  lemma ExampleColor()
    ensures Word("color:red")
  {
    AllDeclChars("color:red");
  }

  lemma ExampleMargin()
    ensures Word("margin:0")
  {
    AllDeclChars("margin:0");
  }

  lemma ExampleWords()
    ensures Words(["color:red", "margin:0"])
  {
    var ds := ["color:red", "margin:0"];
    ExampleColor();
    ExampleMargin();
    assert ds[1..] == ["margin:0"];
    assert ds[1..][1..] == [];
  }

  lemma ExampleDecls()
    ensures ".a" + "{" + Decls(["color:red", "margin:0"]) + "}" == ".a{color:red;margin:0;}"
  {
    var ds := ["color:red", "margin:0"];
    assert ds[1..] == ["margin:0"];
    assert ds[1..][1..] == [];
    assert Decls(ds[1..]) == "margin:0;";
  }

  lemma ExampleUnit()
    ensures Repeat(" ", 2) == "  "
  {
  }

  lemma ExampleLines()
    ensures ".a" + " {\n" + IndentedDecls(["color:red", "margin:0"], "  ") + "}"
            == ".a {\n  color:red;\n  margin:0;\n}"
  {
    var ds := ["color:red", "margin:0"];
    assert ds[1..] == ["margin:0"];
    assert ds[1..][1..] == [];
    assert IndentedDecls(ds[1..], "  ") == "  margin:0;\n";
  }

  /** The rule `.a{color:red;margin:0;}` at indent size 2. */
  lemma Example()
    ensures Reflow.Reflow(Stylesheet, ".a{color:red;margin:0;}", 2) == ".a {\n  color:red;\n  margin:0;\n}"
  {
    ExampleSelector();
    ExampleWords();
    ExampleUnit();
    FlatRule(".a", ["color:red", "margin:0"], 2);
    ExampleDecls();
    ExampleLines();
  }
}
