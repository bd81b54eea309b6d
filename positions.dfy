/** `TextDocument.positionAt` as the token scanner uses it: a character
    offset becomes a zero-based line and a zero-based character within that
    line. Only `\n` ends a line here. */
module Positions {

  datatype Position = Position(line: nat, character: nat)

  /** The offset clamped to the document, as the host does. */
  function Clamp(text: string, offset: int): (o: nat)
    ensures o <= |text|
    ensures 0 <= offset <= |text| ==> o == offset
  {
    if offset < 0 then 0 else if offset > |text| then |text| else offset
  }

  /** The position of offset `o`, counted from the start of the text. */
  function PositionIn(text: string, o: nat): Position
    requires o <= |text|
    decreases o
  {
    if o == 0 then Position(0, 0)
    else
      var p := PositionIn(text, o - 1);
      if text[o - 1] == '\n' then Position(p.line + 1, 0) else Position(p.line, p.character + 1)
  }

  /** The line of offset `o` is the number of line breaks before `o`, and
      its character is the distance from the character after the last of
      them (from the start of the text on the first line). */
  lemma {:induction false} PositionFacts(text: string, o: nat)
    requires o <= |text|
    ensures var p := PositionIn(text, o);
      && p.line == multiset(text[..o])['\n']
      && p.character <= o
      && (forall j :: o - p.character <= j < o ==> text[j] != '\n')
      && (p.character < o ==> text[o - p.character - 1] == '\n')
    decreases o
  {
    if o > 0 {
      PositionFacts(text, o - 1);
      assert text[..o] == text[..o - 1] + [text[o - 1]];
    }
  }

  /** `positionAt(offset)`: the offset is clamped to the document first;
      the line is the number of line breaks before it, and the position
      maps back to the clamped offset. */
  function PositionAt(text: string, offset: int): (p: Position)
    ensures p.line == multiset(text[..Clamp(text, offset)])['\n']
    ensures p.line <= multiset(text)['\n']
    ensures OffsetOf(text, p) == Clamp(text, offset)
  {
    PositionFacts(text, Clamp(text, offset));
    OffsetRoundTrip(text, Clamp(text, offset));
    PositionIn(text, Clamp(text, offset))
  }

  /** Positions in document order: by line, then by character. */
  predicate NotAfter(p: Position, q: Position) {
    p.line < q.line || (p.line == q.line && p.character <= q.character)
  }

  /** A later offset never has an earlier position. */
  lemma {:induction false} PositionMonotone(text: string, a: nat, b: nat)
    requires a <= b <= |text|
    ensures NotAfter(PositionIn(text, a), PositionIn(text, b))
    decreases b
  {
    if a < b {
      PositionMonotone(text, a, b - 1);
    }
  }

  /** The offset a position stands for: the start of its line plus its
      character; the inverse of `PositionIn`. */
  function OffsetOf(text: string, p: Position): (o: nat)
    requires p.line <= multiset(text)['\n']
  {
    LineStart(text, p.line, 0) + p.character
  }

  /** Where line `line` starts, counting line breaks from `from` on:
      just after the `line`-th line break at or after `from`. */
  function LineStart(text: string, line: nat, from: nat): (k: nat)
    requires from <= |text|
    ensures from <= k <= |text|
    decreases |text| - from
  {
    if line == 0 || from == |text| then from
    else if text[from] == '\n' then LineStart(text, line - 1, from + 1)
    else LineStart(text, line, from + 1)
  }

  /** Counting lines from `from`: after the `line` line breaks of
      `text[from..q]`, where `q` is `from` or follows a line break, the
      line starts at `q`. */
  lemma {:induction false} LineStartAt(text: string, line: nat, from: nat, q: nat)
    requires from <= q <= |text|
    requires line == multiset(text[from..q])['\n']
    requires q == from || text[q - 1] == '\n'
    ensures LineStart(text, line, from) == q
    decreases q - from
  {
    if q > from {
      assert text[from..q] == [text[from]] + text[from + 1..q];
      if line == 0 {
        assert text[q - 1] in multiset(text[from..q]);
      } else {
        LineStartAt(text, if text[from] == '\n' then line - 1 else line, from + 1, q);
      }
    }
  }

  /** Characters other than line breaks add no line. */
  lemma BreaksBefore(text: string, q: nat, o: nat)
    requires q <= o <= |text| && forall j :: q <= j < o ==> text[j] != '\n'
    ensures multiset(text[..o])['\n'] == multiset(text[..q])['\n']
  {
    assert text[..o] == text[..q] + text[q..o];
    assert '\n' !in text[q..o];
  }

  /** A prefix has no more line breaks than the whole text. */
  lemma BreaksWithin(text: string, o: nat)
    requires o <= |text|
    ensures multiset(text[..o])['\n'] <= multiset(text)['\n']
  {
    assert text == text[..o] + text[o..];
  }

  /** Mapping an offset to its position and back gives the offset. */
  lemma OffsetRoundTrip(text: string, o: nat)
    requires o <= |text|
    ensures PositionIn(text, o).line <= multiset(text)['\n']
    ensures OffsetOf(text, PositionIn(text, o)) == o
  {
    PositionFacts(text, o);
    var p := PositionIn(text, o);
    var q := o - p.character;
    BreaksBefore(text, q, o);
    BreaksWithin(text, o);
    assert text[0..q] == text[..q];
    LineStartAt(text, p.line, 0, q);
  }
}
