/** Where the body of a block comment ends. */
module CommentScan {
  import opened Spans
  import opened Delimiters
  import opened Comments
  import opened Tokenizer
  import opened LeftmostScan

  /** The tokens of a block comment: markers and single characters. */
  function Marks(src: string, em: EscapeMatch, p: nat): (ts: seq<Token>)
    requires p <= |src| && Usable(em)
    decreases |src| - p
  {
    if p == |src| then []
    else if At(src, p, em.open) then [Token(Open, p, p + |em.open|)] + Marks(src, em, p + |em.open|)
    else if At(src, p, em.close) then [Token(Close, p, p + |em.close|)] + Marks(src, em, p + |em.close|)
    else [Token(Char, p, p + 1)] + Marks(src, em, p + 1)
  }

  lemma FirstUnmatchedStep(t: Token, ts: seq<Token>, n: nat, extra: int)
    requires extra >= 0 && extra + Depth([t]) >= 0 && !t.kind.Broken?
    requires FirstUnmatched(ts, n, extra + Depth([t]))
    ensures FirstUnmatched([t] + ts, n + 1, extra)
  {
    assert ([t] + ts)[..n + 1] == [t] + ts[..n];
    NeverBelowStep(t, ts[..n], extra);
    DepthStep(t, ts, n);
  }

  /** One turn of the comment loop reads one token. */
  lemma CommentTurn(src: string, p: nat, em: EscapeMatch, balance: nat)
    requires p < |src| && Usable(em) && balance >= 1
    ensures var ts := Marks(src, em, p); var r := BlockCommentText(src, p, em, balance);
            && ts != [] && p == ts[0].from < ts[0].to <= |src| && !ts[0].kind.Broken?
            && ts == [ts[0]] + Marks(src, em, ts[0].to)
            && (ts[0].kind.Close? && balance == 1 ==> r == Ok(p, ()))
            && (!(ts[0].kind.Close? && balance == 1) ==>
                  && balance + Depth([ts[0]]) >= 1
                  && r == BlockCommentText(src, ts[0].to, em, balance + Depth([ts[0]])))
  {
    hide Depth, At;
    AtHead(src, p, em.open);
    AtHead(src, p, em.close);
    DepthOfOne();
  }

  lemma {:induction false} CommentLoopIsScan(src: string, p: nat, em: EscapeMatch, balance: nat) returns (n: nat)
    requires p <= |src| && Usable(em) && balance >= 1
    ensures var ts := Marks(src, em, p); var r := BlockCommentText(src, p, em, balance);
            if r.Ok? then FirstUnmatched(ts, n, balance - 1) && r.rest == ts[n].from else NeverBelow(ts, balance - 1)
    decreases |src| - p
  {
    hide Marks, BlockCommentText, Depth, FirstUnmatched, NeverBelow, Usable, At;
    n := 0;
    if p < |src| {
      CommentTurn(src, p, em, balance);
      var t := Marks(src, em, p)[0];
      if t.kind.Close? && balance == 1 {
        UnmatchedHere(Marks(src, em, p));
      } else {
        var rest := Marks(src, em, t.to);
        var m := CommentLoopIsScan(src, t.to, em, balance + Depth([t]));
        n := m + 1;
        if BlockCommentText(src, p, em, balance).Ok? {
          FirstUnmatchedStep(t, rest, m, balance - 1);
          InTheRest(t, rest, m, balance - 1 + Depth([t]));
        } else {
          NeverBelowStep(t, rest, balance - 1);
        }
      }
    } else {
      NoMarkAtEnd(src, em, balance);
    }
  }

  lemma NoMarkAtEnd(src: string, em: EscapeMatch, balance: nat)
    requires Usable(em) && balance >= 1
    ensures Marks(src, em, |src|) == [] && BlockCommentText(src, |src|, em, balance).Err?
    ensures NeverBelow([], balance - 1)
  {
  }

  lemma InTheRest(t: Token, rest: seq<Token>, m: nat, extra: int)
    requires FirstUnmatched(rest, m, extra)
    ensures m < |rest| && ([t] + rest)[m + 1] == rest[m]
  {
  }

  lemma DepthOfOne()
    ensures forall t: Token :: Depth([t]) == if t.kind.Open? then 1 else if t.kind.Close? then -1 else 0
  {
    assert forall t: Token :: [t][1..] == [];
  }

  lemma UnmatchedHere(ts: seq<Token>)
    requires ts != [] && ts[0].kind.Close?
    ensures FirstUnmatched(ts, 0, 0)
  {
  }

  /** The body of a block comment ends at the first closing marker that nothing in
      it matches, and there is a comment exactly when there is such a marker. */
  lemma BlockCommentStopsAtFirstUnmatched(src: string, p: nat, em: EscapeMatch)
    requires p <= |src| && Usable(em)
    ensures var ts := Marks(src, em, p); var r := BlockCommentText(src, p, em, 1);
            && (forall n: nat :: FirstUnmatched(ts, n, 0) ==> r.Ok? && r.rest == ts[n].from)
            && (r.Ok? <==> exists n: nat :: FirstUnmatched(ts, n, 0))
  {
    hide Marks, BlockCommentText;
    var n := CommentLoopIsScan(src, p, em, 1);
    var ts := Marks(src, em, p);
    forall m: nat | FirstUnmatched(ts, m, 0)
      ensures BlockCommentText(src, p, em, 1).Ok? && m == n
    {
      assert ts[..|ts|] == ts;
      UnmatchedGoesBelow(ts, m, |ts|);
      if m < n {
        UnmatchedGoesBelow(ts, m, n);
      } else if n < m {
        UnmatchedGoesBelow(ts, n, m);
      }
    }
  }
}
