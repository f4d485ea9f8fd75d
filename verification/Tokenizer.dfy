/** A source read from left to right as a sequence of tokens. */
module Tokenizer {
  import opened Spans
  import opened Ast
  import opened Delimiters
  import opened Comments
  import opened Parser
  import opened Content

  /** `Broken` stands for a malformed command, which nothing follows. */
  datatype Kind = Open | Close | Newline | Skipped | Cmd(node: Node) | Char | Broken

  datatype Token = Token(kind: Kind, from: nat, to: nat)

  function NextToken(s: Input, em: EscapeMatch, p: nat): (t: Token)
    requires p < |s.src| && Usable(em)
    ensures t.from == p && p < t.to <= |s.src|
  {
    var newline := OneNewline(s.src, p);
    var comment := Comment(s.src, p, em);
    if At(s.src, p, em.open) then Token(Open, p, p + |em.open|)
    else if At(s.src, p, em.close) then Token(Close, p, p + |em.close|)
    else if newline.Ok? then Token(Newline, p, newline.rest)
    else if comment.Ok? then Token(Skipped, p, comment.rest)
    else
      match ParseCommand(s, em, p)
      case Ok(z, n) => Token(Kind.Cmd(n), p, z)
      case Panic => Token(Broken, p, p + 1)
      case Err => Token(Char, p, p + 1)
  }

  function Tokens(s: Input, em: EscapeMatch, p: nat): (ts: seq<Token>)
    requires p <= |s.src| && Usable(em)
    decreases |s.src| - p
  {
    if p == |s.src| then []
    else
      var t := NextToken(s, em, p);
      if t.kind.Broken? then [t] else [t] + Tokens(s, em, t.to)
  }

  /** Opening markers minus closing markers. */
  function Depth(ts: seq<Token>): int {
    if ts == [] then 0
    else (if ts[0].kind.Open? then 1 else if ts[0].kind.Close? then -1 else 0) + Depth(ts[1..])
  }

  /** No prefix closes more than it opens, starting with `extra` open markers. */
  predicate NeverBelow(ts: seq<Token>, extra: int) {
    forall m :: 0 <= m <= |ts| ==> Depth(ts[..m]) + extra >= 0
  }

  predicate Sound(ts: seq<Token>) {
    forall k :: 0 <= k < |ts| ==> !ts[k].kind.Broken?
  }

  /** The `n`-th token is the first closing marker that nothing before it matches,
      with `extra` markers open at the start. */
  predicate FirstUnmatched(ts: seq<Token>, n: nat, extra: int) {
    && n < |ts|
    && ts[n].kind.Close?
    && Sound(ts[..n])
    && NeverBelow(ts[..n], extra)
    && Depth(ts[..n]) + extra == 0
  }

  /** A token's share of the content: comments vanish, newlines become line feeds. */
  function TokenGlyph(src: string, t: Token): seq<Glyph>
    requires t.from < t.to <= |src|
  {
    match t.kind
    case Newline => [Ch('\n')]
    case Skipped => []
    case Broken => []
    case Cmd(n) => [Cm(n)]
    case _ => TextGlyphs(src[t.from..t.to])
  }

  predicate Within(src: string, ts: seq<Token>) {
    forall k :: 0 <= k < |ts| ==> ts[k].from < ts[k].to <= |src|
  }

  function TokenGlyphs(src: string, ts: seq<Token>): seq<Glyph>
    requires Within(src, ts)
  {
    if ts == [] then [] else TokenGlyph(src, ts[0]) + TokenGlyphs(src, ts[1..])
  }

  /** The source the tokens were read from. */
  function Spelling(src: string, ts: seq<Token>): string
    requires Within(src, ts)
  {
    if ts == [] then "" else src[ts[0].from..ts[0].to] + Spelling(src, ts[1..])
  }

  lemma {:induction false} TokensWithin(s: Input, em: EscapeMatch, p: nat)
    requires p <= |s.src| && Usable(em)
    ensures Within(s.src, Tokens(s, em, p))
    decreases |s.src| - p
  {
    hide NextToken;
    if p < |s.src| && !NextToken(s, em, p).kind.Broken? {
      TokensWithin(s, em, NextToken(s, em, p).to);
    }
  }

  /** Where the first `n` of the tokens read from `p` end. */
  function EndOf(ts: seq<Token>, n: nat, p: nat): nat
    requires n <= |ts|
  {
    if n == 0 then p else ts[n - 1].to
  }

  /** Nothing of the source is skipped or read twice: the tokens spell it. */
  lemma {:induction false} TokensSpellTheSource(s: Input, em: EscapeMatch, p: nat, n: nat)
    requires p <= |s.src| && Usable(em) && n <= |Tokens(s, em, p)|
    ensures Within(s.src, Tokens(s, em, p))
    ensures var ts := Tokens(s, em, p);
            && p <= EndOf(ts, n, p) <= |s.src|
            && Spelling(s.src, ts[..n]) == s.src[p..EndOf(ts, n, p)]
            && (n == |ts| && Sound(ts) ==> EndOf(ts, n, p) == |s.src|)
            && (n < |ts| ==> ts[n].from == EndOf(ts, n, p))
    decreases n
  {
    hide NextToken;
    TokensWithin(s, em, p);
    var ts := Tokens(s, em, p);
    if n > 0 {
      var t := NextToken(s, em, p);
      if t.kind.Broken? {
        assert ts[..n] == [t];
      } else {
        hide Tokens, Spelling, EndOf, Sound;
        TokensAre(s, em, p);
        var rest := Tokens(s, em, t.to);
        TokensSpellTheSource(s, em, t.to, n - 1);
        EndStep(t, rest, n - 1);
        SpellingStep(s.src, t, rest, n - 1, EndOf(rest, n - 1, t.to));
      }
    }
  }

  lemma TokensAre(s: Input, em: EscapeMatch, p: nat)
    requires p < |s.src| && Usable(em) && !NextToken(s, em, p).kind.Broken?
    ensures Tokens(s, em, p) == [NextToken(s, em, p)] + Tokens(s, em, NextToken(s, em, p).to)
  {
    hide NextToken;
  }

  lemma SpellingHead(src: string, t: Token, rest: seq<Token>)
    requires t.from < t.to <= |src| && Within(src, rest)
    ensures Within(src, [t] + rest) && Spelling(src, [t] + rest) == src[t.from..t.to] + Spelling(src, rest)
  {
    assert ([t] + rest)[1..] == rest;
  }

  lemma SpellingStep(src: string, t: Token, rest: seq<Token>, m: nat, end: nat)
    requires t.from < t.to <= end <= |src| && Within(src, rest) && m <= |rest|
    requires Spelling(src, rest[..m]) == src[t.to..end]
    ensures Within(src, [t] + rest) && Spelling(src, ([t] + rest)[..m + 1]) == src[t.from..end]
  {
    hide Spelling;
    assert Within(src, rest[..m]);
    SpellingHead(src, t, rest[..m]);
    assert ([t] + rest)[..m + 1] == [t] + rest[..m];
    assert src[t.from..t.to] + src[t.to..end] == src[t.from..end];
  }

  lemma EndStep(t: Token, rest: seq<Token>, m: nat)
    requires m <= |rest|
    ensures EndOf([t] + rest, m + 1, t.from) == EndOf(rest, m, t.to)
    ensures m < |rest| ==> ([t] + rest)[m + 1] == rest[m]
    ensures Sound([t] + rest) ==> Sound(rest)
  {
    assert forall k :: 0 <= k < |rest| ==> rest[k] == ([t] + rest)[k + 1];
  }

  lemma DepthStep(t: Token, ts: seq<Token>, m: nat)
    requires m <= |ts|
    ensures ([t] + ts)[..m + 1] == [t] + ts[..m]
    ensures Depth(([t] + ts)[..m + 1]) == Depth([t]) + Depth(ts[..m])
  {
    assert ([t] + ts)[..m + 1] == [t] + ts[..m];
    assert ([t] + ts[..m])[1..] == ts[..m];
  }

  lemma NeverBelowStep(t: Token, ts: seq<Token>, extra: int)
    requires extra >= 0 && NeverBelow(ts, Depth([t]) + extra)
    ensures NeverBelow([t] + ts, extra)
  {
    forall m | 0 <= m <= |[t] + ts|
      ensures Depth(([t] + ts)[..m]) + extra >= 0
    {
      if m > 0 {
        DepthStep(t, ts, m - 1);
        assert Depth(ts[..m - 1]) + (Depth([t]) + extra) >= 0;
      }
    }
  }
}
