/** The start offsets that the parser writes into the nodes. */
module StartOffsets {
  import opened Spans
  import opened Ast
  import opened Delimiters
  import opened Comments
  import opened Parser
  import opened FastScan
  import opened Tokenizer
  import opened LeftmostScan

  /** Nodes start in order, from `p` on and before `end`, and a text node starts
      where its first character is. */
  predicate InPlace(src: string, ns: seq<Node>, p: nat, end: nat) {
    && end <= |src|
    && (forall k :: 0 <= k < |ns| ==> p <= ns[k].at < end && StartsThere(src, ns[k]))
    && (forall i, j :: 0 <= i < j < |ns| ==> ns[i].at < ns[j].at)
  }

  predicate StartsThere(src: string, n: Node) {
    n.Text? ==> n.content != "" && CharAt(src, n.at, n.content[0])
  }

  lemma AddNodeInPlace(src: string, ns: seq<Node>, n: Node, p: nat, from: nat, to: nat)
    requires InPlace(src, ns, p, from) && p <= from <= n.at < to <= |src| && StartsThere(src, n)
    ensures InPlace(src, AddNode(ns, n), p, to)
  {
    hide Mergeable;
    var r := AddNode(ns, n);
    assert forall k :: 0 <= k < |ns| ==> r[k].at == ns[k].at;
    if |r| == |ns| {
      MergedStarts(src, ns, n);
    }
  }

  lemma MergedStarts(src: string, ns: seq<Node>, n: Node)
    requires ns != [] && StartsThere(src, ns[|ns| - 1]) && |AddNode(ns, n)| == |ns|
    ensures StartsThere(src, AddNode(ns, n)[|ns| - 1])
  {
  }

  lemma AddTokenInPlace(s: Input, em: EscapeMatch, ns: seq<Node>, p: nat, q: nat)
    requires p <= q < |s.src| && Usable(em) && InPlace(s.src, ns, p, q)
    ensures var t := NextToken(s, em, q); InPlace(s.src, AddToken(s.src, ns, t), p, t.to)
  {
    hide AddNode, Comment, ParseCommand, InPlace;
    var t := NextToken(s, em, q);
    if t.kind.Skipped? || t.kind.Broken? {
      LaterEnd(s.src, ns, p, q, t.to);
    } else {
      AddNodeInPlace(s.src, ns, TokenNode(s.src, t), p, q, t.to);
    }
  }

  lemma LaterEnd(src: string, ns: seq<Node>, p: nat, q: nat, end: nat)
    requires InPlace(src, ns, p, q) && q <= end <= |src|
    ensures InPlace(src, ns, p, end)
  {
  }

  lemma {:induction false} LoopInPlace(s: Input, root: bool, em: EscapeMatch, p: nat, q: nat, balance: nat,
                                       contents: seq<Node>)
    requires p <= q <= |s.src| && Usable(em) && balance >= 1 && !s.longRuns
    requires InPlace(s.src, contents, p, q)
    ensures var r := TextLoop(s, root, em, q, balance, contents); r.Ok? ==> InPlace(s.src, r.value, p, r.rest)
    decreases |s.src| - q
  {
    hide TextLoop, NextToken, InPlace, AddToken;
    if q == |s.src| {
      LoopAtEnd(s, root, em, balance, contents);
    } else {
      var t := NextToken(s, em, q);
      SlowTurn(s, root, em, q, balance, contents);
      if !t.kind.Broken? && !(t.kind.Close? && balance == 1) {
        AddTokenInPlace(s, em, contents, p, q);
        LoopInPlace(s, root, em, p, t.to, balance + Depth([t]), AddToken(s.src, contents, t));
      }
    }
  }

  /** The start offsets of a text's nodes are right, with or without long runs. */
  lemma StartsAreInPlace(s: Input, root: bool, em: EscapeMatch, p: nat)
    requires p <= |s.src| && Usable(em)
    ensures var r := TextFrom(s, root, em, p); r.Ok? ==> InPlace(s.src, r.value, p, r.rest)
  {
    hide TextLoop;
    assert s == Fast(s) || s == Slow(s);
    TextLoopSame(s, root, em, p, 1, []);
    LoopInPlace(Slow(s), root, em, p, p, 1, []);
  }
}
