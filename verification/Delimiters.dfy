/** The delimiters an author chooses for a curly argument: `{ }`, or `|<({ })>|`
    with any run of the three bracket characters between bar and brace. */
module Delimiters {
  import opened Spans

  datatype EscapeMatch = EscapeMatch(open: string, close: string, escape: string)

  const DEFAULT_ESCAPE_MATCH := EscapeMatch("{", "}", "")

  predicate IsEscapeSymbol(c: char) { c in "<([" }

  predicate IsOpenForm(s: string) {
    || s == "{"
    || (|s| >= 2 && s[0] == '|' && s[|s| - 1] == '{' && forall k :: 1 <= k < |s| - 1 ==> IsEscapeSymbol(s[k]))
  }

  function EscapeMatchingChar(c: char): char
    requires IsEscapeSymbol(c)
  {
    if c == '<' then '>' else if c == '(' then ')' else ']'
  }

  /** The bracket characters reversed, each one mirrored. */
  function Mirror(s: string): (r: string)
    requires forall k :: 0 <= k < |s| ==> IsEscapeSymbol(s[k])
    ensures |r| == |s|
    ensures forall k :: 0 <= k < |s| ==> r[k] == EscapeMatchingChar(s[|s| - 1 - k])
  {
    if s == "" then "" else Mirror(s[1..]) + [EscapeMatchingChar(s[0])]
  }

  function MatchingClose(open: string): (r: string)
    requires IsOpenForm(open)
    ensures |r| == |open| && r[0] == '}'
  {
    if open[0] == '|' then "}" + Mirror(open[1..|open| - 1]) + "|" else "}"
  }

  function MatchingEscape(open: string): string
    requires IsOpenForm(open)
  {
    open[..|open| - 1]
  }

  /** What every delimiter the parser works with looks like. */
  predicate ValidMatch(em: EscapeMatch) {
    && IsOpenForm(em.open)
    && em.close == MatchingClose(em.open)
    && em.escape == MatchingEscape(em.open)
  }

  /** All that the scanners rely on: what the three forms begin with, and that
      neither marker holds a newline. */
  predicate Usable(em: EscapeMatch) {
    && em.open != "" && (em.open[0] == '{' || em.open[0] == '|') && '\n' !in em.open
    && em.close != "" && em.close[0] == '}' && '\n' !in em.close
    && (em.escape == "" || em.escape[0] == '|')
  }

  /** Builds the closing form character by character, from the back of the open form. */
  method GetMatchingCloseCurly(open: string) returns (close: string)
    requires IsOpenForm(open)
    ensures close == MatchingClose(open)
  {
    if open[0] == '|' {
      close := "}";
      var mid := open[1..|open| - 1];
      var k := |mid|;
      while k > 0
        invariant 0 <= k <= |mid|
        invariant close == "}" + Mirror(mid[k..])
      {
        k := k - 1;
        assert mid[k..][1..] == mid[k + 1..];
        close := close + [EscapeMatchingChar(mid[k])];
      }
      assert mid[0..] == mid;
      close := close + "|";
    } else {
      close := "}";
    }
  }

  function MatchFor(open: string): (em: EscapeMatch)
    requires IsOpenForm(open)
    ensures ValidMatch(em) && Usable(em) && em.open == open
  {
    EscapeMatch(open, MatchingClose(open), MatchingEscape(open))
  }

  /** Reads an opening form and works out what closes and what escapes inside it. */
  function GenericOpenCurly(src: string, p: nat): (r: PResult<EscapeMatch>)
    requires p <= |src|
    ensures !r.Panic?
    ensures r.Ok? ==> p < r.rest <= |src| && ValidMatch(r.value) && Usable(r.value) && src[p..r.rest] == r.value.open
  {
    var q := if CharAt(src, p, '|') then RunWhile(src, p + 1, IsEscapeSymbol) else p;
    if CharAt(src, q, '{') then
      var open := src[p..q + 1];
      Ok(q + 1, MatchFor(open))
    else
      Err
  }

  /** An opening form, where one stands, is read whole. */
  lemma GenericOpenCurlyReads(src: string, p: nat, open: string)
    requires IsOpenForm(open) && At(src, p, open)
    ensures GenericOpenCurly(src, p) == Ok(p + |open|, MatchFor(open))
  {
    hide MatchingClose, MatchingEscape;
    var q := p + |open| - 1;
    assert src[p + 0] == open[0] && src[p + (|open| - 1)] == open[|open| - 1];
    if open[0] == '|' {
      forall k | p + 1 <= k < q
        ensures IsEscapeSymbol(src[k])
      {
        assert src[p + (k - p)] == open[k - p];
      }
      RunWhileIs(src, p + 1, q, IsEscapeSymbol);
    }
    AtSlice(src, p, open);
  }

  lemma CloseCharacter(open: string, k: nat)
    requires IsOpenForm(open) && 1 <= k < |open| - 1
    ensures MatchingClose(open)[k] == EscapeMatchingChar(open[|open| - 1 - k])
  {
    hide EscapeMatchingChar;
    var mid := open[1..|open| - 1];
    assert MatchingClose(open) == "}" + Mirror(mid) + "|";
    assert MatchingClose(open)[k] == Mirror(mid)[k - 1];
  }

  /** Opening and closing forms are mirror images: both have the same length, the
      close spells the open backwards, and neither can stand where the other does. */
  lemma OpenAndCloseMirror(em: EscapeMatch)
    requires ValidMatch(em)
    ensures |em.open| == |em.close|
    ensures em.escape == "" <==> em.open == "{"
    ensures em.open[0] != em.close[0]
    ensures em.open != "{" ==> em.close[|em.close| - 1] == '|'
    ensures forall k :: 1 <= k < |em.open| - 1 ==> em.close[k] == EscapeMatchingChar(em.open[|em.open| - 1 - k])
  {
    hide EscapeMatchingChar;
    forall k | 1 <= k < |em.open| - 1
      ensures em.close[k] == EscapeMatchingChar(em.open[|em.open| - 1 - k])
    {
      CloseCharacter(em.open, k);
    }
  }

  /** What the two forms are made of. */
  lemma FormsHold(em: EscapeMatch)
    requires ValidMatch(em)
    ensures forall k :: 0 <= k < |em.open| ==> em.open[k] != '}'
    ensures forall k :: 0 <= k < |em.close| - 1 ==> em.close[k] != '|' && em.close[k] != '{'
    ensures em.close[|em.close| - 1] == if em.open == "{" then '}' else '|'
  {
    OpenAndCloseMirror(em);
  }

  /** In any source, an opening form and a closing form of the same delimiter can only
      overlap on one bar, which ends the closing form and starts the opening one. */
  lemma FormsOverlapOnlyOnBar(src: string, em: EscapeMatch, i: nat, j: nat)
    requires ValidMatch(em) && At(src, i, em.open) && At(src, j, em.close)
    ensures i != j
    ensures i < j ==> i + |em.open| <= j
    ensures j < i ==> j + |em.close| <= i || (j + |em.close| == i + 1 && src[i] == '|')
  {
    FormsHold(em);
    AtHead(src, i, em.open);
    AtHead(src, j, em.close);
    assert src[j] == '}';
    forall m | i <= m < i + |em.open|
      ensures src[m] != '}'
    {
      assert src[i + (m - i)] == em.open[m - i];
    }
    if j < i < j + |em.close| {
      assert src[j + (i - j)] == em.close[i - j];
    }
  }
}
