/** Strings as JavaScript sees them: the character classes the fixed
    patterns use, and the String.prototype operations the formatter and the
    token scanner call (trim, split, join, repeat, indexOf, includes).
    A character stands for one Unicode scalar value; JavaScript counts
    UTF-16 code units, which agree with it outside the supplementary
    planes. */
module Text {

  datatype Option<T> = None | Some(value: T)

  /** ECMAScript WhiteSpace and LineTerminator code points: the class `\s`,
      and what String.prototype.trim removes. */
  predicate IsSpace(c: char) {
    || c == ' ' || c == '\t' || c == '\n' || c == '\r'
    || c == '\U{000B}' || c == '\U{000C}' || c == '\U{00A0}' || c == '\U{1680}'
    || ('\U{2000}' <= c <= '\U{200A}')
    || c == '\U{2028}' || c == '\U{2029}' || c == '\U{202F}' || c == '\U{205F}'
    || c == '\U{3000}' || c == '\U{FEFF}'
  }

  /** ECMAScript LineTerminator: the characters that `.` does not match. */
  predicate IsLineTerminator(c: char) {
    c == '\n' || c == '\r' || c == '\U{2028}' || c == '\U{2029}'
  }

  predicate IsLetter(c: char) { 'a' <= c <= 'z' || 'A' <= c <= 'Z' }

  predicate IsDigit(c: char) { '0' <= c <= '9' }

  /** `[a-zA-Z0-9]`, and also `[a-z0-9]` under the `i` flag. */
  predicate IsAlnum(c: char) { IsLetter(c) || IsDigit(c) }

  /** `\w`, which is `[a-zA-Z0-9_]`. */
  predicate IsWordChar(c: char) { IsAlnum(c) || c == '_' }

  /** None of the characters that mark a member access, a call, an event
      or an interpolation: `.`, `(`, `@` and `{`. */
  predicate Unmarked(c: char) {
    c != '.' && c != '(' && c != '@' && c != '{'
  }

  predicate AllSpace(s: string) {
    forall j :: 0 <= j < |s| ==> IsSpace(s[j])
  }

  /** `w` occurs in `s` starting at index `i`. */
  predicate HasAt(s: string, i: nat, w: string) {
    i + |w| <= |s| && s[i..i + |w|] == w
  }

  /** End of the longest run of characters satisfying `p` that starts at `i`:
      what a greedy `[...]*` consumes when nothing after it can match inside
      the run. */
  function RunEnd(s: string, i: nat, p: char -> bool): (k: nat)
    requires i <= |s|
    ensures i <= k <= |s|
    ensures forall j :: i <= j < k ==> p(s[j])
    ensures k == |s| || !p(s[k])
    decreases |s| - i
  {
    if i == |s| || !p(s[i]) then i else RunEnd(s, i + 1, p)
  }

  /** `s[a..b]` consists of characters satisfying `p`. */
  predicate Run(s: string, a: nat, b: nat, p: char -> bool) {
    a <= b <= |s| && forall j :: a <= j < b ==> p(s[j])
  }

  /** White space is unmarked. */
  lemma SpaceUnmarked(s: string, a: nat, b: nat, j: nat)
    requires Run(s, a, b, IsSpace) && a <= j < b
    ensures Unmarked(s[j])
  {
    assert IsSpace(s[j]);
  }

  /** Word characters are unmarked. */
  lemma WordUnmarked(s: string, a: nat, b: nat, j: nat)
    requires Run(s, a, b, IsWordChar) && a <= j < b
    ensures Unmarked(s[j])
  {
    assert IsWordChar(s[j]);
  }

  /** The `k`-th character of a fixed text found at `i`. */
  lemma CharAt(s: string, i: nat, w: string, k: nat)
    requires HasAt(s, i, w) && k < |w|
    ensures i + k < |s| && s[i + k] == w[k]
  {
    assert s[i..i + |w|][k] == s[i + k];
  }

  /** A run that stops before a character outside the class is the one a
      greedy quantifier takes. */
  lemma {:induction false} RunEndAt(s: string, a: nat, b: nat, p: char -> bool)
    requires Run(s, a, b, p) && (b == |s| || !p(s[b]))
    ensures RunEnd(s, a, p) == b
    decreases b - a
  {
    if a < b {
      RunEndAt(s, a + 1, b, p);
    }
  }

  /** End of the white-space run that starts at `i` (a greedy `\s*`). */
  function SpaceEnd(s: string, i: nat): (k: nat)
    requires i <= |s|
    ensures i <= k <= |s|
    ensures forall j :: i <= j < k ==> IsSpace(s[j])
    ensures k == |s| || !IsSpace(s[k])
  {
    RunEnd(s, i, IsSpace)
  }

  /** String.prototype.trim. */
  function Trim(s: string): (r: string)
    ensures SpaceEnd(s, 0) + |r| <= |s|
    ensures r == s[SpaceEnd(s, 0)..SpaceEnd(s, 0) + |r|]
    ensures forall j :: SpaceEnd(s, 0) + |r| <= j < |s| ==> IsSpace(s[j])
    ensures r == [] <==> AllSpace(s)
    ensures r != [] ==> !IsSpace(r[0]) && !IsSpace(r[|r| - 1])
  {
    var a := SpaceEnd(s, 0);
    var b := TrimmedEnd(s, a, |s|);
    s[a..b]
  }

  /** The largest `b` in `(a, e]` with a non-space just before it, or `a`. */
  function TrimmedEnd(s: string, a: nat, e: nat): (b: nat)
    requires a <= e <= |s|
    ensures a <= b <= e
    ensures forall j :: b <= j < e ==> IsSpace(s[j])
    ensures b > a ==> !IsSpace(s[b - 1])
    decreases e
  {
    if e == a || !IsSpace(s[e - 1]) then e else TrimmedEnd(s, a, e - 1)
  }

  lemma TrimOfTrimmed(s: string)
    requires s == [] || (!IsSpace(s[0]) && !IsSpace(s[|s| - 1]))
    ensures Trim(s) == s
  {
    if s != [] {
      assert SpaceEnd(s, 0) == 0;
    }
  }

  /** Index of the first `sep` at or after `i`, or `|s|` when there is none. */
  function FindChar(s: string, sep: char, i: nat): (k: nat)
    requires i <= |s|
    ensures i <= k <= |s|
    ensures forall j :: i <= j < k ==> s[j] != sep
    ensures sep !in s[i..k]
    ensures k < |s| ==> s[k] == sep
  {
    RunEnd(s, i, c => c != sep)
  }

  /** String.prototype.split with a one-character separator: `"".split(sep)`
      is `[""]`, and `n` separators give `n + 1` pieces. */
  function Split(s: string, sep: char): (pieces: seq<string>)
    ensures |pieces| >= 1
    ensures forall k :: 0 <= k < |pieces| ==> sep !in pieces[k]
    decreases |s|
  {
    var k := FindChar(s, sep, 0);
    if k == |s| then [s] else [s[..k]] + Split(s[k + 1..], sep)
  }

  /** Splitting cuts at the first separator. */
  lemma SplitCons(a: string, sep: char, b: string)
    requires sep !in a
    ensures Split(a + [sep] + b, sep) == [a] + Split(b, sep)
  {
    var s := a + [sep] + b;
    assert forall j :: 0 <= j < |a| ==> s[j] == a[j];
    assert s[|a|] == sep;
    assert FindChar(s, sep, 0) == |a|;
    assert s[..|a|] == a;
    assert s[|a| + 1..] == b;
  }

  /** Array.prototype.join. */
  function Join(pieces: seq<string>, sep: string): string
  {
    if |pieces| == 0 then ""
    else if |pieces| == 1 then pieces[0]
    else pieces[0] + sep + Join(pieces[1..], sep)
  }

  /** Joining what split cut apart gives back the string. */
  lemma {:induction false} JoinSplit(s: string, sep: char)
    ensures Join(Split(s, sep), [sep]) == s
    decreases |s|
  {
    var k := FindChar(s, sep, 0);
    if k < |s| {
      JoinSplit(s[k + 1..], sep);
      assert s == s[..k] + [sep] + s[k + 1..];
    }
  }

  /** Splitting what join glued together gives back the pieces, when no piece
      holds the separator. */
  lemma {:induction false} SplitJoin(pieces: seq<string>, sep: char)
    requires |pieces| >= 1
    requires forall k :: 0 <= k < |pieces| ==> sep !in pieces[k]
    ensures Split(Join(pieces, [sep]), sep) == pieces
    decreases |pieces|
  {
    var s := Join(pieces, [sep]);
    if |pieces| == 1 {
      assert forall j :: 0 <= j < |s| ==> s[j] in pieces[0];
    } else {
      var p := pieces[0];
      var rest := Join(pieces[1..], [sep]);
      assert s == p + [sep] + rest;
      var k := FindChar(s, sep, 0);
      assert s[|p|] == sep;
      assert forall j :: 0 <= j < |p| ==> s[j] == p[j] && p[j] in p;
      assert k == |p|;
      assert s[..k] == p;
      assert s[k + 1..] == rest;
      SplitJoin(pieces[1..], sep);
    }
  }

  lemma TrimChars(s: string, c: char)
    requires c !in s
    ensures c !in Trim(s)
  {
    var a := SpaceEnd(s, 0);
    assert Trim(s) == s[a..a + |Trim(s)|];
  }

  /** `pieces.filter((p) => p && p.trim()).map((p) => p.trim())`: the pieces
      that are not blank, each trimmed, in their original order. */
  function NonBlank(pieces: seq<string>): seq<string>
  {
    if pieces == [] then []
    else if Trim(pieces[0]) == [] then NonBlank(pieces[1..])
    else [Trim(pieces[0])] + NonBlank(pieces[1..])
  }

  /** A trimmed, non-blank piece without the character `c`. */
  predicate Tidy(t: string, c: char) {
    t != [] && !IsSpace(t[0]) && !IsSpace(t[|t| - 1]) && c !in t
  }

  /** What survives the filter is non-empty, has no white space at either
      end, and holds no character that none of the pieces held. */
  lemma {:induction false} NonBlankShape(pieces: seq<string>, c: char)
    requires forall k :: 0 <= k < |pieces| ==> c !in pieces[k]
    ensures forall k :: 0 <= k < |NonBlank(pieces)| ==> Tidy(NonBlank(pieces)[k], c)
    decreases |pieces|
  {
    if pieces != [] {
      var rest := NonBlank(pieces[1..]);
      NonBlankShape(pieces[1..], c);
      var t := Trim(pieces[0]);
      if t != [] {
        TrimChars(pieces[0], c);
        assert Tidy(t, c);
        var r := [t] + rest;
        assert NonBlank(pieces) == r;
        forall k | 0 <= k < |r| ensures Tidy(r[k], c) {
          if k > 0 {
            assert r[k] == rest[k - 1];
          }
        }
      }
    }
  }

  /** String.prototype.repeat. */
  function Repeat(s: string, n: nat): (r: string)
    ensures forall j :: 0 <= j < |r| ==> r[j] in s
    ensures n > 0 ==> |r| >= |s|
  {
    if n == 0 then "" else s + Repeat(s, n - 1)
  }

  /** Spaces hold no line break. */
  lemma SpacesNoBreak(n: nat)
    ensures '\n' !in Repeat(" ", n)
  {
    var r := Repeat(" ", n);
    forall j | 0 <= j < |r| ensures r[j] != '\n' {
      assert r[j] in " ";
    }
  }

  /** String.prototype.indexOf, searching from `i`: -1 when `needle` does
      not occur at or after `i`. */
  function IndexOfFrom(hay: string, needle: string, i: nat): (r: int)
    requires i <= |hay|
    ensures r == -1 || (i <= r && HasAt(hay, r, needle))
    ensures r == -1 ==> forall j :: i <= j <= |hay| ==> !HasAt(hay, j, needle)
    ensures r >= 0 ==> forall j :: i <= j < r ==> !HasAt(hay, j, needle)
    decreases |hay| - i
  {
    if HasAt(hay, i, needle) then i
    else if i == |hay| then -1
    else IndexOfFrom(hay, needle, i + 1)
  }

  /** String.prototype.indexOf. */
  function IndexOf(hay: string, needle: string): (r: int)
    ensures r == -1 || (0 <= r && HasAt(hay, r, needle))
    ensures r == -1 <==> forall j :: 0 <= j <= |hay| ==> !HasAt(hay, j, needle)
    ensures r >= 0 ==> forall j :: 0 <= j < r ==> !HasAt(hay, j, needle)
  {
    IndexOfFrom(hay, needle, 0)
  }

  /** Where `needle` occurs at `k`, indexOf finds it at `k` or earlier. */
  lemma IndexOfAtMost(hay: string, needle: string, k: nat)
    requires HasAt(hay, k, needle)
    ensures 0 <= IndexOf(hay, needle) <= k
  {
  }

  /** String.prototype.includes. */
  predicate Contains(hay: string, needle: string) {
    IndexOf(hay, needle) >= 0
  }

  /** A text in which the first character of `needle` never occurs does not
      include `needle`. */
  lemma NotContains(hay: string, needle: string)
    requires |needle| > 0 && forall j :: 0 <= j < |hay| ==> hay[j] != needle[0]
    ensures !Contains(hay, needle)
  {
    forall j | 0 <= j <= |hay| ensures !HasAt(hay, j, needle) {
      if j + |needle| <= |hay| {
        assert hay[j..j + |needle|][0] == hay[j];
      }
    }
  }

  /** A slice of a slice is a slice. */
  lemma SliceOfSlice(s: string, a: nat, b: nat, c: nat, d: nat)
    requires a <= b <= |s| && c <= d <= b - a
    ensures s[a..b][c..d] == s[a + c..a + d]
  {
    assert |s[a..b][c..d]| == d - c;
    forall k | 0 <= k < d - c ensures s[a..b][c..d][k] == s[a + c..a + d][k] {
    }
  }

  lemma SliceChar(s: string, lo: nat, hi: nat, k: nat)
    requires lo <= hi <= |s| && k < hi - lo
    ensures s[lo..hi][k] == s[lo + k]
  {
  }

  /** A run inside a slice is a run of the whole text, shifted by where the
      slice starts. */
  lemma RunShift(s: string, lo: nat, hi: nat, a: nat, b: nat, p: char -> bool)
    requires lo <= hi <= |s| && Run(s[lo..hi], a, b, p)
    ensures Run(s, lo + a, lo + b, p)
  {
    forall j | lo + a <= j < lo + b ensures p(s[j]) {
      assert s[j] == s[lo..hi][j - lo];
    }
  }

  /** A slice is the concatenation of the slices it is cut into. */
  lemma SliceParts(s: string, a: nat, b: nat, c: nat, d: nat, e: nat)
    requires a <= b <= c <= d <= e <= |s|
    ensures s[a..e] == s[a..b] + s[b..c] + s[c..d] + s[d..e]
  {
    assert s[a..e] == s[a..b] + s[b..e];
    assert s[b..e] == s[b..c] + s[c..e];
    assert s[c..e] == s[c..d] + s[d..e];
  }
}
