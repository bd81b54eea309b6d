/** String.prototype.replace with a global pattern and a callback: the
    pattern is tried at each index from left to right, a match is replaced by
    what the callback returns, and the search resumes where the match ended,
    so replaced matches never overlap. The pattern and its callback together
    are a `rule`: for each start index, the end of the match the pattern finds
    there (if any) and the text the callback returns for it. */
module Replace {
  import opened Text

  datatype Hit = Hit(end: nat, replacement: string)

  /** Every match a rule reports ends after it starts and inside `s`: none
      of the fixed patterns matches the empty string. */
  ghost predicate WellFormed(s: string, rule: nat -> Option<Hit>) {
    forall i: nat :: rule(i).Some? ==> i < rule(i).value.end <= |s|
  }

  /** The replaced text of `s[i..]`. */
  function ReplaceFrom(s: string, rule: nat -> Option<Hit>, i: nat): string
    requires WellFormed(s, rule) && i <= |s|
    decreases |s| - i
  {
    if i == |s| then ""
    else match rule(i)
      case Some(h) => h.replacement + ReplaceFrom(s, rule, h.end)
      case None => [s[i]] + ReplaceFrom(s, rule, i + 1)
  }

  /** The global replace of `s`: the matches it finds are spliced in, the
      text around them is kept, and text that nothing matches comes back as
      it was. */
  function ReplaceAll(s: string, rule: nat -> Option<Hit>): (r: string)
    requires WellFormed(s, rule)
    ensures r == Splice(s, HitsFrom(s, rule, 0), 0)
    ensures (forall j: nat :: j < |s| ==> rule(j).None?) ==> r == s
  {
    ReplaceIsSplice(s, rule, 0);
    NoHitsCopied(s, rule);
    ReplaceFrom(s, rule, 0)
  }

  lemma NoHitsCopied(s: string, rule: nat -> Option<Hit>)
    requires WellFormed(s, rule)
    ensures (forall j: nat :: j < |s| ==> rule(j).None?) ==> ReplaceFrom(s, rule, 0) == s
  {
    if forall j: nat :: j < |s| ==> rule(j).None? {
      ReplaceUntil(s, rule, 0, |s|);
    }
  }

  /** A replaced match: `s[start..end]` gives way to `replacement`. */
  datatype Span = Span(start: nat, end: nat, replacement: string)

  /** Spans in increasing order, not overlapping, inside `s[i..n]`. */
  ghost predicate Ordered(spans: seq<Span>, i: nat, n: nat)
    decreases |spans|
  {
    spans == [] || (i <= spans[0].start <= spans[0].end <= n && Ordered(spans[1..], spans[0].end, n))
  }

  ghost predicate Covered(spans: seq<Span>, j: nat) {
    exists k :: 0 <= k < |spans| && spans[k].start <= j < spans[k].end
  }

  /** The matches the global replace acts on, from index `i` on: each is a
      match of the rule, and they come in order without overlapping. */
  function HitsFrom(s: string, rule: nat -> Option<Hit>, i: nat): (spans: seq<Span>)
    requires WellFormed(s, rule) && i <= |s|
    ensures Ordered(spans, i, |s|)
    ensures forall k :: 0 <= k < |spans| ==>
      rule(spans[k].start) == Some(Hit(spans[k].end, spans[k].replacement))
    decreases |s| - i
  {
    if i == |s| then []
    else match rule(i)
      case Some(h) => [Span(i, h.end, h.replacement)] + HitsFrom(s, rule, h.end)
      case None => HitsFrom(s, rule, i + 1)
  }

  /** No index outside the replaced matches starts a match: the search always
      takes the leftmost match, and skips only what a replaced match covers. */
  lemma {:induction false} HitsLeftmost(s: string, rule: nat -> Option<Hit>, i: nat, j: nat)
    requires WellFormed(s, rule) && i <= j < |s|
    requires !Covered(HitsFrom(s, rule, i), j)
    ensures rule(j).None?
    decreases |s| - i
  {
    var spans := HitsFrom(s, rule, i);
    match rule(i)
    case Some(h) =>
      assert spans[0] == Span(i, h.end, h.replacement);
      assert h.end <= j;
      var rest := HitsFrom(s, rule, h.end);
      assert !Covered(rest, j) by {
        forall k | 0 <= k < |rest| ensures !(rest[k].start <= j < rest[k].end) {
          assert spans[k + 1] == rest[k];
        }
      }
      HitsLeftmost(s, rule, h.end, j);
    case None =>
      if j > i {
        HitsLeftmost(s, rule, i + 1, j);
      }
  }

  /** `s[i..]` with every span replaced and the text between spans copied. */
  function Splice(s: string, spans: seq<Span>, i: nat): string
    requires i <= |s| && Ordered(spans, i, |s|)
    decreases |spans|
  {
    if spans == [] then s[i..]
    else
      assert Ordered(spans[1..], spans[0].end, |s|);
      s[i..spans[0].start] + spans[0].replacement + Splice(s, spans[1..], spans[0].end)
  }

  lemma SpliceStep(s: string, spans: seq<Span>, i: nat)
    requires i < |s| && Ordered(spans, i + 1, |s|)
    ensures Ordered(spans, i, |s|)
    ensures Splice(s, spans, i) == [s[i]] + Splice(s, spans, i + 1)
  {
    if spans == [] {
      assert s[i..] == [s[i]] + s[i + 1..];
    } else {
      var rest := spans[1..];
      assert Ordered(rest, spans[0].end, |s|);
      assert s[i..spans[0].start] == [s[i]] + s[i + 1..spans[0].start];
      assert Splice(s, spans, i) == s[i..spans[0].start] + spans[0].replacement + Splice(s, rest, spans[0].end);
      assert Splice(s, spans, i + 1) == s[i + 1..spans[0].start] + spans[0].replacement + Splice(s, rest, spans[0].end);
    }
  }

  lemma SpliceHit(s: string, rule: nat -> Option<Hit>, i: nat, h: Hit)
    requires WellFormed(s, rule) && i < |s| && rule(i) == Some(h)
    ensures Splice(s, HitsFrom(s, rule, i), i) == h.replacement + Splice(s, HitsFrom(s, rule, h.end), h.end)
  {
    var rest := HitsFrom(s, rule, h.end);
    var spans := [Span(i, h.end, h.replacement)] + rest;
    assert HitsFrom(s, rule, i) == spans;
    assert spans[1..] == rest;
    assert s[i..i] == [];
  }

  /** The global replace is exactly the splice of the matches it finds: the
      text outside the matches is copied unchanged, in order. */
  lemma {:induction false} ReplaceIsSplice(s: string, rule: nat -> Option<Hit>, i: nat)
    requires WellFormed(s, rule) && i <= |s|
    ensures ReplaceFrom(s, rule, i) == Splice(s, HitsFrom(s, rule, i), i)
    decreases |s| - i
  {
    if i < |s| {
      match rule(i)
      case Some(h) =>
        ReplaceIsSplice(s, rule, h.end);
        SpliceHit(s, rule, i, h);
      case None =>
        ReplaceIsSplice(s, rule, i + 1);
        SpliceStep(s, HitsFrom(s, rule, i + 1), i);
    }
  }

  /** When the callback gives every match back unchanged (in particular when
      nothing matches), the global replace is the identity. */
  lemma {:induction false} ReplaceIdentity(s: string, rule: nat -> Option<Hit>, i: nat)
    requires WellFormed(s, rule) && i <= |s|
    requires forall j: nat :: rule(j).Some? ==> rule(j).value.replacement == s[j..rule(j).value.end]
    ensures ReplaceFrom(s, rule, i) == s[i..]
    decreases |s| - i
  {
    if i < |s| {
      match rule(i)
      case Some(h) =>
        ReplaceIdentity(s, rule, h.end);
        assert s[i..] == s[i..h.end] + s[h.end..];
      case None =>
        ReplaceIdentity(s, rule, i + 1);
        assert s[i..] == [s[i]] + s[i + 1..];
    }
  }

  /** Where the pattern matches nowhere in `s[i..k]`, that stretch is copied. */
  lemma {:induction false} ReplaceUntil(s: string, rule: nat -> Option<Hit>, i: nat, k: nat)
    requires WellFormed(s, rule) && i <= k <= |s|
    requires forall j: nat :: i <= j < k ==> rule(j).None?
    ensures ReplaceFrom(s, rule, i) == s[i..k] + ReplaceFrom(s, rule, k)
    decreases k - i
  {
    if i < k {
      ReplaceUntil(s, rule, i + 1, k);
      var r := ReplaceFrom(s, rule, k);
      assert ReplaceFrom(s, rule, i) == [s[i]] + ReplaceFrom(s, rule, i + 1);
      assert s[i..k] == [s[i]] + s[i + 1..k];
      assert [s[i]] + (s[i + 1..k] + r) == [s[i]] + s[i + 1..k] + r;
    } else {
      assert s[i..k] == [];
    }
  }

  /** A replace whose callback never returns the empty string maps non-empty
      text to non-empty text. */
  lemma ReplaceNonEmpty(s: string, rule: nat -> Option<Hit>, i: nat)
    requires WellFormed(s, rule) && i <= |s|
    requires forall j: nat :: rule(j).Some? ==> rule(j).value.replacement != []
    ensures ReplaceFrom(s, rule, i) == [] <==> i == |s|
  {
  }
}
