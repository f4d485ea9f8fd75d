/** Delimiters so wide that a given text cannot contain them, and reading a region
    where nothing means anything. */
module Fences {
  import opened Spans
  import opened Ast
  import opened Delimiters
  import opened Parser
  import opened FastScan

  function Repeat(c: char, k: nat): string { seq(k, _ => c) }

  function OpenFence(k: nat): string { "|" + Repeat('<', k) + "{" }

  function CloseFence(k: nat): string { "}" + Repeat('>', k) + "|" }

  function EscapeFence(k: nat): string { "|" + Repeat('<', k) }

  lemma FenceMatch(k: nat)
    ensures IsOpenForm(OpenFence(k))
    ensures MatchFor(OpenFence(k)) == EscapeMatch(OpenFence(k), CloseFence(k), EscapeFence(k))
  {
    var open := OpenFence(k);
    assert forall i :: 1 <= i < |open| - 1 ==> open[i] == '<';
    assert open[1..|open| - 1] == Repeat('<', k);
    assert Mirror(Repeat('<', k)) == Repeat('>', k);
    assert open[..|open| - 1] == EscapeFence(k);
  }

  function Fence(k: nat): EscapeMatch {
    EscapeMatch(OpenFence(k), CloseFence(k), EscapeFence(k))
  }

  /** Nothing that a fence of width `k` gives meaning to can start in the last
      `k - 1` characters before a character that is no bracket. */
  lemma FenceIsFar(src: string, k: nat, i: nat, q: nat)
    requires i < q < |src| && q - i < k && src[q] != '<' && src[q] != '>'
    ensures !At(src, i, OpenFence(k)) && !At(src, i, CloseFence(k)) && !At(src, i, EscapeFence(k) + "@")
  {
    var j := q - i;
    assert OpenFence(k)[j] == '<' && CloseFence(k)[j] == '>' && (EscapeFence(k) + "@")[j] == '<';
    assert src[i + j] == src[q];
  }

  /** The nodes for the source from `p` to `q`, all of it text. */
  function AddRaw(src: string, p: nat, q: nat, contents: seq<Node>): seq<Node>
    requires p <= q <= |src|
    decreases q - p
  {
    if p == q then contents
    else if p + 1 < q && AtCrLf(src, p) then AddRaw(src, p + 2, q, AddNode(contents, Text("\n", p + 1)))
    else AddRaw(src, p + 1, q, AddNode(contents, Text(src[p..p + 1], p)))
  }

  /** The simple scan over a region where nothing means anything. */
  lemma {:induction false} RawRun(s: Input, root: bool, em: EscapeMatch, p: nat, q: nat, balance: nat,
                                  contents: seq<Node>)
    requires Usable(em) && balance >= 1 && p <= q < |s.src| && !s.longRuns
    requires forall i :: p <= i < q ==>
               !At(s.src, i, em.open) && !At(s.src, i, em.close) && !At(s.src, i, em.escape + "@")
    requires s.src[q] != '\n'
    ensures TextLoop(s, root, em, p, balance, contents) ==
            TextLoop(s, root, em, q, balance, AddRaw(s.src, p, q, contents))
    decreases q - p
  {
    hide TextLoop, AddNode;
    if p < q {
      if AtCrLf(s.src, p) {
        LoopAtUnit(s, root, em, p, balance, contents);
        RawRun(s, root, em, p + 2, q, balance, AddNode(contents, Text("\n", p + 1)));
      } else {
        var c := Text(s.src[p..p + 1], p);
        if s.src[p] == '\n' {
          assert c.content == "\n";
          LoopAtUnit(s, root, em, p, balance, contents);
        } else {
          SlowInertStep(s, root, em, p, balance, contents);
        }
        RawRun(s, root, em, p + 1, q, balance, AddNode(contents, c));
      }
    }
  }

  /** A region without newlines is one text, when nothing is there to merge it into. */
  lemma {:induction false} AddRawText(src: string, p: nat, m: nat, q: nat, contents: seq<Node>)
    requires p < m <= q <= |src| && forall k :: p <= k < q ==> src[k] != '\n'
    ensures AddRaw(src, m, q, AddNode(contents, Chunk(src, p, m))) == AddNode(contents, Chunk(src, p, q))
    decreases q - m
  {
    hide AddNode;
    if m < q {
      assert src[p..m][0] == src[p] && src[m..m + 1][0] == src[m];
      AddTwice(contents, src[p..m], src[m..m + 1], p, m);
      assert src[p..m] + src[m..m + 1] == src[p..m + 1];
      AddRawText(src, p, m + 1, q, contents);
    }
  }
}
