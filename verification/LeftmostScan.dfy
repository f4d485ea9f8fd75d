/** What a text is, said without a loop counter.

    Reading a source from left to right, always taking the unit that starts
    where the last one ended, splits it into tokens: opening and closing
    markers, newlines, comments, whole commands, single characters. A text ends
    at the first closing marker that no opening marker before it matches, and
    its nodes spell exactly the tokens before that one. */
module LeftmostScan {
  import opened Spans
  import opened Ast
  import opened Delimiters
  import opened Comments
  import opened Parser
  import opened FastScan
  import opened Content
  import opened Tokenizer

  /** The node that a token which is neither a comment nor malformed stands for. */
  function TokenNode(src: string, t: Token): Node
    requires t.from < t.to <= |src|
  {
    match t.kind
    case Newline => Text("\n", t.to - 1)
    case Cmd(n) => n
    case _ => Text(src[t.from..t.to], t.from)
  }

  /** The contents after one more token. */
  function AddToken(src: string, contents: seq<Node>, t: Token): seq<Node>
    requires t.from < t.to <= |src|
  {
    if t.kind.Skipped? || t.kind.Broken? then contents else AddNode(contents, TokenNode(src, t))
  }

  lemma AddTokenGlyphs(src: string, contents: seq<Node>, t: Token)
    requires t.from < t.to <= |src|
    requires t.kind.Cmd? ==> t.kind.node.Command?
    ensures Glyphs(AddToken(src, contents, t)) == Glyphs(contents) + TokenGlyph(src, t)
  {
    hide Glyphs, AddNode;
    if !t.kind.Skipped? && !t.kind.Broken? {
      AddNodeGlyphs(contents, TokenNode(src, t));
    }
  }

  /** A turn that is at no marker reads one token. */
  lemma SlowUnit(s: Input, em: EscapeMatch, p: nat)
    requires p < |s.src| && Usable(em) && !s.longRuns
    requires !NextToken(s, em, p).kind.Open? && !NextToken(s, em, p).kind.Close?
    ensures var t := NextToken(s, em, p);
            Unit(s, em, p) ==
            if t.kind.Newline? then Ok(t.to, Some(Text("\n", t.to - 1)))
            else if t.kind.Skipped? then Ok(t.to, None)
            else if t.kind.Broken? then Panic
            else if t.kind.Cmd? then Ok(t.to, Some(t.kind.node))
            else Ok(t.to, Some(Text(s.src[p..t.to], p)))
  {
    hide ParseCommand, Comment;
  }

  /** One turn of the simple scan reads one token. */
  lemma SlowTurn(s: Input, root: bool, em: EscapeMatch, p: nat, balance: nat, contents: seq<Node>)
    requires p < |s.src| && Usable(em) && balance >= 1 && !s.longRuns
    ensures var t := NextToken(s, em, p); var r := TextLoop(s, root, em, p, balance, contents);
            && (t.kind.Cmd? ==> t.kind.node.Command?)
            && (t.kind.Broken? ==> r.Panic?)
            && (t.kind.Close? && balance == 1 ==> r == Finish(s, root, 0, p, contents))
            && (!t.kind.Broken? && !(t.kind.Close? && balance == 1) ==>
                  && balance + Depth([t]) >= 1
                  && r == TextLoop(s, root, em, t.to, balance + Depth([t]), AddToken(s.src, contents, t)))
  {
    hide TextLoop, AddNode, Unit, Finish, ParseCommand, Comment;
    var t := NextToken(s, em, p);
    if t.kind.Open? {
      LoopAtOpen(s, root, em, p, balance, contents);
      AtSlice(s.src, p, em.open);
    } else if t.kind.Close? {
      LoopAtClose(s, root, em, p, balance, contents);
      AtSlice(s.src, p, em.close);
    } else {
      SlowUnit(s, em, p);
      LoopAtUnit(s, root, em, p, balance, contents);
    }
  }

  /** A text that reached `p` inside `balance` markers ended as the debug assertion allows. */
  predicate EndsAt(s: Input, root: bool, balance: int, r: PResult<seq<Node>>, p: nat, glyphs: seq<Glyph>) {
    if s.debugAsserts && !(if root then balance == 1 && p == |s.src| else balance == 0) then r.Panic?
    else r.Ok? && r.rest == p && Glyphs(r.value) == glyphs
  }

  /** How a scan that has already `seen` some content ends: at token `n`. */
  predicate Outcome(s: Input, root: bool, ts: seq<Token>, n: nat, balance: nat, r: PResult<seq<Node>>, seen: seq<Glyph>)
    requires Within(s.src, ts)
  {
    && n <= |ts|
    && NeverBelow(ts[..n], balance - 1)
    && Sound(ts[..n])
    && if n == |ts| then EndsAt(s, root, balance + Depth(ts), r, |s.src|, seen + TokenGlyphs(s.src, ts))
       else if ts[n].kind.Broken? then r.Panic?
       else FirstUnmatched(ts, n, balance - 1) && EndsAt(s, root, 0, r, ts[n].from, seen + TokenGlyphs(s.src, ts[..n]))
  }

  lemma OutcomeStep(s: Input, root: bool, t: Token, rest: seq<Token>, m: nat, balance: nat,
                    r: PResult<seq<Node>>, seen: seq<Glyph>)
    requires balance >= 1 && balance + Depth([t]) >= 1 && !t.kind.Broken?
    requires t.from < t.to <= |s.src| && Within(s.src, rest)
    requires Outcome(s, root, rest, m, balance + Depth([t]), r, seen + TokenGlyph(s.src, t))
    ensures Outcome(s, root, [t] + rest, m + 1, balance, r, seen)
  {
    hide EndsAt, TokenGlyphs, TokenGlyph, NeverBelow, Depth;
    var ts := [t] + rest;
    TokenGlyphsStep(s.src, t, rest, m);
    NeverBelowStep(t, rest[..m], balance - 1);
    DepthStep(t, rest, m);
    assert (seen + TokenGlyph(s.src, t)) + TokenGlyphs(s.src, rest[..m]) == seen + TokenGlyphs(s.src, ts[..m + 1]);
    if m == |rest| {
      assert ts[..m + 1] == ts && rest[..m] == rest;
    } else {
      assert ts[m + 1] == rest[m];
    }
  }

  lemma TokenGlyphsHead(src: string, t: Token, rest: seq<Token>)
    requires t.from < t.to <= |src| && Within(src, rest)
    ensures Within(src, [t] + rest)
    ensures TokenGlyphs(src, [t] + rest) == TokenGlyph(src, t) + TokenGlyphs(src, rest)
  {
    hide TokenGlyph;
    assert ([t] + rest)[1..] == rest;
  }

  lemma TokenGlyphsStep(src: string, t: Token, rest: seq<Token>, m: nat)
    requires t.from < t.to <= |src| && Within(src, rest) && m <= |rest|
    ensures Within(src, [t] + rest)
    ensures TokenGlyphs(src, ([t] + rest)[..m + 1]) == TokenGlyph(src, t) + TokenGlyphs(src, rest[..m])
  {
    hide TokenGlyph, TokenGlyphs;
    assert ([t] + rest)[..m + 1] == [t] + rest[..m];
    TokenGlyphsHead(src, t, rest[..m]);
  }

  /** What a text is, token by token: the simple scan, from the middle of a text. */
  lemma {:induction false} LoopIsScan(s: Input, root: bool, em: EscapeMatch, p: nat, balance: nat, contents: seq<Node>)
    returns (n: nat)
    requires p <= |s.src| && Usable(em) && balance >= 1 && !s.longRuns
    ensures Within(s.src, Tokens(s, em, p))
    ensures Outcome(s, root, Tokens(s, em, p), n, balance,
                    TextLoop(s, root, em, p, balance, contents), Glyphs(contents))
    decreases |s.src| - p
  {
    hide TextLoop, NextToken, Glyphs;
    TokensWithin(s, em, p);
    var ts := Tokens(s, em, p);
    n := 0;
    if p == |s.src| {
      LoopAtEnd(s, root, em, balance, contents);
      assert Glyphs(contents) + TokenGlyphs(s.src, ts) == Glyphs(contents);
      return;
    }
    var t := NextToken(s, em, p);
    SlowTurn(s, root, em, p, balance, contents);
    assert ts[0] == t;
    if t.kind.Broken? || (t.kind.Close? && balance == 1) {
      assert Glyphs(contents) + TokenGlyphs(s.src, ts[..0]) == Glyphs(contents);
      return;
    }
    n := TurnThenScan(s, root, em, p, balance, contents);
  }

  lemma {:induction false} TurnThenScan(s: Input, root: bool, em: EscapeMatch, p: nat, balance: nat,
                                        contents: seq<Node>)
    returns (n: nat)
    requires p < |s.src| && Usable(em) && balance >= 1 && !s.longRuns
    requires var t := NextToken(s, em, p); !t.kind.Broken? && !(t.kind.Close? && balance == 1)
    ensures Within(s.src, Tokens(s, em, p))
    ensures Outcome(s, root, Tokens(s, em, p), n, balance,
                    TextLoop(s, root, em, p, balance, contents), Glyphs(contents))
    decreases |s.src| - p, 0
  {
    hide TextLoop, NextToken, Glyphs, Outcome;
    TokensWithin(s, em, p);
    var t := NextToken(s, em, p);
    SlowTurn(s, root, em, p, balance, contents);
    AddTokenGlyphs(s.src, contents, t);
    var next := balance + Depth([t]);
    var m := LoopIsScan(s, root, em, t.to, next, AddToken(s.src, contents, t));
    OutcomeStep(s, root, t, Tokens(s, em, t.to), m, balance,
                TextLoop(s, root, em, t.to, next, AddToken(s.src, contents, t)), Glyphs(contents));
    n := m + 1;
  }

  lemma NextTokenSame(s: Input, em: EscapeMatch, p: nat)
    requires p < |s.src| && Usable(em)
    ensures NextToken(Fast(s), em, p) == NextToken(Slow(s), em, p) == NextToken(s, em, p)
  {
    hide ParseCommand, Comment;
    assert s == Fast(s) || s == Slow(s);
    CommandSame(s, em, p);
  }

  lemma {:induction false} TokensSame(s: Input, em: EscapeMatch, p: nat)
    requires p <= |s.src| && Usable(em)
    ensures Tokens(Fast(s), em, p) == Tokens(Slow(s), em, p)
    decreases |s.src| - p
  {
    hide NextToken;
    if p < |s.src| {
      NextTokenSame(s, em, p);
      var t := NextToken(s, em, p);
      if !t.kind.Broken? {
        TokensSame(s, em, t.to);
      }
    }
  }

  /** What a text is, token by token, with or without long runs. */
  lemma TextIsScan(s: Input, root: bool, em: EscapeMatch, p: nat) returns (n: nat)
    requires p <= |s.src| && Usable(em)
    ensures Within(s.src, Tokens(s, em, p))
    ensures Outcome(s, root, Tokens(s, em, p), n, 1, TextFrom(s, root, em, p), [])
  {
    hide TextLoop, Tokens;
    assert s == Fast(s) || s == Slow(s);
    TokensSame(s, em, p);
    TextLoopSame(s, root, em, p, 1, []);
    n := LoopIsScan(Slow(s), root, em, p, 1, []);
  }

  lemma {:induction false} DepthAppend(ts: seq<Token>, m: nat)
    requires m < |ts|
    ensures Depth(ts[..m + 1]) == Depth(ts[..m]) + Depth([ts[m]])
  {
    if m == 0 {
      assert ts[..1] == [ts[0]];
    } else {
      DepthAppend(ts[1..], m - 1);
      assert ts[..m + 1][1..] == ts[1..][..m] && ts[..m][1..] == ts[1..][..m - 1];
    }
  }

  /** Past the first unmatched closing marker, the tokens are below their start. */
  lemma UnmatchedGoesBelow(ts: seq<Token>, m: nat, n: nat)
    requires FirstUnmatched(ts, m, 0) && m < n <= |ts|
    ensures !NeverBelow(ts[..n], 0)
  {
    DepthAppend(ts, m);
    assert ts[..n][..m + 1] == ts[..m + 1];
    assert Depth(ts[..n][..m + 1]) + 0 < 0;
  }

  /** A scan that ends at token `n` ends at the first unmatched marker, if there is one. */
  lemma OutcomeIsFirst(s: Input, root: bool, ts: seq<Token>, n: nat, r: PResult<seq<Node>>, seen: seq<Glyph>, m: nat)
    requires Within(s.src, ts) && Outcome(s, root, ts, n, 1, r, seen) && FirstUnmatched(ts, m, 0)
    ensures m == n
  {
    if m < n {
      UnmatchedGoesBelow(ts, m, n);
    } else if n < m {
      assert ts[..m][n] == ts[n];
      if ts[n].kind.Close? {
        UnmatchedGoesBelow(ts, n, m);
      }
    }
  }

  /** The text of an argument stops before the first closing marker that nothing
      matches and consists of what precedes it. Without one it runs to the end of
      the source in a release build, and panics when debug assertions are on. */
  lemma NestedTextStopsAtFirstUnmatched(s: Input, em: EscapeMatch, p: nat)
    requires p <= |s.src| && Usable(em)
    ensures Within(s.src, Tokens(s, em, p))
    ensures var ts := Tokens(s, em, p); var r := TextFrom(s, false, em, p);
            && (forall n: nat :: FirstUnmatched(ts, n, 0) ==>
                  && r.Ok?
                  && r.rest == ts[n].from
                  && Glyphs(r.value) == TokenGlyphs(s.src, ts[..n])
                  && Spelling(s.src, ts[..n]) == s.src[p..r.rest])
            && ((forall n: nat :: !FirstUnmatched(ts, n, 0)) ==>
                  (r.Ok? <==> !s.debugAsserts && Sound(ts)) && (r.Ok? ==> r.rest == |s.src|))
  {
    hide TextFrom, Tokens, Glyphs, TokenGlyphs, Spelling;
    var n := TextIsScan(s, false, em, p);
    var ts := Tokens(s, em, p);
    var r := TextFrom(s, false, em, p);
    forall m: nat | FirstUnmatched(ts, m, 0)
      ensures r.Ok? && r.rest == ts[m].from && Glyphs(r.value) == TokenGlyphs(s.src, ts[..m])
      ensures Spelling(s.src, ts[..m]) == s.src[p..r.rest]
    {
      OutcomeIsFirst(s, false, ts, n, r, [], m);
      TokensSpellTheSource(s, em, p, m);
    }
    assert n == |ts| ==> ts[..n] == ts;
  }

  /** A document parses exactly when it has no malformed command and never closes
      more than it opens; with debug assertions it must be balanced. */
  lemma RootParsesExactlyWhenBalanced(s: Input)
    ensures var braces := EscapeMatch("{", "}", ""); Usable(braces) && Within(s.src, Tokens(s, braces, 0))
    ensures var ts := Tokens(s, EscapeMatch("{", "}", ""), 0);
            && (ParseRoot(s).Ok? <==> Sound(ts) && NeverBelow(ts, 0) && (s.debugAsserts ==> Depth(ts) == 0))
            && (ParseRoot(s).Ok? ==> Glyphs(ParseRoot(s).value.sub) == TokenGlyphs(s.src, ts)
                                     && Spelling(s.src, ts) == s.src)
  {
    hide TextFrom, Tokens, Glyphs, TokenGlyphs, Spelling;
    assert DEFAULT_ESCAPE_MATCH == EscapeMatch("{", "}", "");
    var n := TextIsScan(s, true, DEFAULT_ESCAPE_MATCH, 0);
    var ts := Tokens(s, DEFAULT_ESCAPE_MATCH, 0);
    TokensSpellTheSource(s, DEFAULT_ESCAPE_MATCH, 0, |ts|);
    assert ts[..|ts|] == ts;
    TokensSpellTheSource(s, DEFAULT_ESCAPE_MATCH, 0, n);
    if n < |ts| {
      if ts[n].kind.Close? {
        UnmatchedGoesBelow(ts, n, |ts|);
      }
    } else {
      assert Depth(ts[..|ts|]) + 0 >= 0;
    }
  }
}
