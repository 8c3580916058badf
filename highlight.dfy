/** `highlightMatch` (scripts.js:234-238): wrap every case-insensitive occurrence of the
    search term in `<mark>` tags, keeping the text's own letters inside the tags.

    The term is read as a literal string: scanning left to right, an occurrence is taken
    as soon as one starts, and scanning resumes after it (the leftmost, non-overlapping
    matches a global regular expression without metacharacters finds). */
module Highlight {
  import opened Text

  const MarkOpen: string := "<mark>"
  const MarkClose: string := "</mark>"

  /** The text cut into characters left alone and occurrences to be wrapped. */
  datatype Piece = Plain(c: char) | Marked(s: string)

  /** The term occurs at position `i` of `text`, ignoring ASCII case. */
  predicate MatchesAt(text: string, term: string, i: nat) {
    i + |term| <= |text| && LowerStr(text[i..i + |term|]) == LowerStr(term)
  }

  /** The pieces `text.replace(/(term)/gi, ...)` sees. Every marked piece is a case-insensitive
      copy of the term. */
  function Scan(text: string, term: string): (ps: seq<Piece>)
    requires term != []
    ensures forall k :: 0 <= k < |ps| && ps[k].Marked? ==> |ps[k].s| == |term| && LowerStr(ps[k].s) == LowerStr(term)
    decreases |text|
  {
    if text == [] then []
    else if MatchesAt(text, term, 0) then [Marked(text[..|term|])] + Scan(text[|term|..], term)
    else [Plain(text[0])] + Scan(text[1..], term)
  }

  /** The characters the pieces stand for, tags left out. */
  function Flatten(ps: seq<Piece>): string {
    if ps == [] then []
    else (match ps[0] case Plain(c) => [c] case Marked(s) => s) + Flatten(ps[1..])
  }

  /** The replacement string: marked pieces as `<mark>$1</mark>`, the rest unchanged. */
  function Render(ps: seq<Piece>): string {
    if ps == [] then []
    else (match ps[0] case Plain(c) => [c] case Marked(s) => MarkOpen + s + MarkClose) + Render(ps[1..])
  }

  /** How many occurrences get wrapped. */
  function MarkCount(ps: seq<Piece>): nat {
    if ps == [] then 0 else (if ps[0].Marked? then 1 else 0) + MarkCount(ps[1..])
  }

  /** `highlightMatch(text, term)`: an empty term gives the text back as it is; otherwise the
      text grows by the two tags for each occurrence, and only when there is one. */
  function HighlightMatch(text: string, term: string): (h: string)
    ensures term == [] ==> h == text
    ensures term != [] ==> |h| == |text| + (|MarkOpen| + |MarkClose|) * MarkCount(Scan(text, term))
    ensures term != [] ==> (|h| == |text| <==> !Contains(LowerStr(text), LowerStr(term)))
  {
    if term == [] then text
    else
      var ps := Scan(text, term);
      ScanFlattens(text, term);
      RenderLength(ps);
      ScanMarksIffContains(text, term);
      Render(ps)
  }

  /** Removing the tags gives back the original text: nothing is lost, reordered or re-cased. */
  lemma {:induction false} ScanFlattens(text: string, term: string)
    requires term != []
    ensures Flatten(Scan(text, term)) == text
    decreases |text|
  {
    if text != [] {
      if MatchesAt(text, term, 0) {
        ScanFlattens(text[|term|..], term);
        assert text == text[..|term|] + text[|term|..];
      } else {
        ScanFlattens(text[1..], term);
        assert text == [text[0]] + text[1..];
      }
    }
  }

  /** Where each piece starts in the text: the length of what comes before it. */
  function Offset(ps: seq<Piece>, k: nat): nat
    requires k <= |ps|
  {
    |Flatten(ps[..k])|
  }

  /** The scan is greedy from the left: a piece is wrapped exactly when the term occurs,
      ignoring case, where that piece starts. With `ScanFlattens` this makes the wrapped
      pieces the leftmost non-overlapping occurrences, and every other character plain. */
  lemma ScanIsLeftmost(text: string, term: string)
    requires term != []
    ensures var ps := Scan(text, term);
      forall k :: 0 <= k < |ps| ==> (ps[k].Marked? <==> MatchesAt(text, term, Offset(ps, k)))
  {
    var ps := Scan(text, term);
    forall k | 0 <= k < |ps| ensures ps[k].Marked? <==> MatchesAt(text, term, Offset(ps, k)) {
      ScanIsLeftmostAt(text, term, k);
    }
  }

  /** One piece of `ScanIsLeftmost`, by induction on the piece's position. */
  lemma {:induction false} ScanIsLeftmostAt(text: string, term: string, k: nat)
    requires term != [] && k < |Scan(text, term)|
    ensures Scan(text, term)[k].Marked? <==> MatchesAt(text, term, Offset(Scan(text, term), k))
    decreases k
  {
    var ps := Scan(text, term);
    var d := if MatchesAt(text, term, 0) then |term| else 1;
    var rest := Scan(text[d..], term);
    assert ps == [ps[0]] + rest;
    if k == 0 {
      assert ps[..0] == [];
      assert ps[0].Marked? <==> MatchesAt(text, term, 0);
    } else {
      ScanIsLeftmostAt(text[d..], term, k - 1);
      assert ps[..k] == [ps[0]] + rest[..k - 1];
      FlattenAppend([ps[0]], rest[..k - 1]);
      assert |Flatten([ps[0]])| == d;
      assert Offset(ps, k) == d + Offset(rest, k - 1);
      assert ps[k] == rest[k - 1];
      ShiftMatch(text, term, d, Offset(rest, k - 1));
    }
  }

  /** Flattening distributes over concatenation. */
  lemma {:induction false} FlattenAppend(a: seq<Piece>, b: seq<Piece>)
    ensures Flatten(a + b) == Flatten(a) + Flatten(b)
  {
    if a != [] {
      assert (a + b)[1..] == a[1..] + b;
      FlattenAppend(a[1..], b);
    } else {
      assert a + b == b;
    }
  }

  /** An occurrence in a suffix of the text is an occurrence in the text, shifted. */
  lemma ShiftMatch(text: string, term: string, d: nat, i: nat)
    requires d <= |text|
    ensures MatchesAt(text, term, d + i) <==> MatchesAt(text[d..], term, i)
  {
    if d + i + |term| <= |text| {
      assert text[d + i..d + i + |term|] == text[d..][i..i + |term|];
    }
  }

  /** Each wrapped occurrence adds exactly the 13 characters of its two tags. */
  lemma {:induction false} RenderLength(ps: seq<Piece>)
    ensures |Render(ps)| == |Flatten(ps)| + (|MarkOpen| + |MarkClose|) * MarkCount(ps)
  {
    if ps != [] {
      RenderLength(ps[1..]);
    }
  }

  /** Lower-casing commutes with taking the rest of a string. */
  lemma LowerTail(s: string, n: nat)
    requires n <= |s|
    ensures LowerStr(s)[n..] == LowerStr(s[n..])
    ensures LowerStr(s)[..n] == LowerStr(s[..n])
  {
  }

  /** Some occurrence is wrapped exactly when the lower-cased text contains the lower-cased term. */
  lemma {:induction false} ScanMarksIffContains(text: string, term: string)
    requires term != []
    ensures MarkCount(Scan(text, term)) > 0 <==> Contains(LowerStr(text), LowerStr(term))
    decreases |text|
  {
    var lt := LowerStr(term);
    if text == [] {
      assert !(lt <= LowerStr(text));
    } else {
      LowerTail(text, 1);
      var lx := LowerStr(text);
      if MatchesAt(text, term, 0) {
        LowerTail(text, |term|);
        assert lt <= lx;
      } else {
        ScanMarksIffContains(text[1..], term);
        if |term| <= |text| {
          LowerTail(text, |term|);
        }
        assert !(lt <= lx);
        assert Contains(lx, lt) <==> Contains(lx[1..], lt);
      }
    }
  }

  /** `highlightMatch` returns its text unchanged exactly when the term is empty or does not
      occur in the text, ignoring case. */
  lemma HighlightUnchangedIff(text: string, term: string)
    ensures HighlightMatch(text, term) == text <==> term == [] || !Contains(LowerStr(text), LowerStr(term))
  {
    if term != [] {
      var ps := Scan(text, term);
      ScanFlattens(text, term);
      ScanMarksIffContains(text, term);
      if MarkCount(ps) == 0 {
        RenderWithoutMarks(ps);
      } else {
        RenderLength(ps);
        assert |Render(ps)| > |text|;
      }
    }
  }

  /** With nothing wrapped, the rendering is the plain text. */
  lemma {:induction false} RenderWithoutMarks(ps: seq<Piece>)
    requires MarkCount(ps) == 0
    ensures Render(ps) == Flatten(ps)
  {
    if ps != [] {
      RenderWithoutMarks(ps[1..]);
    }
  }

  /** With a non-empty term the highlighted string, tags removed, is the text again. */
  lemma HighlightTagsRemoved(text: string, term: string)
    requires term != []
    ensures exists ps: seq<Piece> :: HighlightMatch(text, term) == Render(ps) && Flatten(ps) == text
  {
    ScanFlattens(text, term);
    assert HighlightMatch(text, term) == Render(Scan(text, term));
  }
}
