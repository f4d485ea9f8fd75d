/** The content of a list of nodes, and that being canonical fixes the nodes. */
module Content {
  import opened Ast

  /** The visible content of a text: its characters, and its commands as units. */
  datatype Glyph = Ch(c: char) | Cm(node: Node)

  function TextGlyphs(s: string): seq<Glyph> {
    seq(|s|, k requires 0 <= k < |s| => Ch(s[k]))
  }

  function NodeGlyphs(n: Node): seq<Glyph> {
    if n.Text? then TextGlyphs(n.content) else [Cm(n)]
  }

  function Glyphs(ns: seq<Node>): seq<Glyph> {
    if ns == [] then [] else Glyphs(ns[..|ns| - 1]) + NodeGlyphs(ns[|ns| - 1])
  }

  lemma TextGlyphsConcat(a: string, b: string)
    ensures TextGlyphs(a + b) == TextGlyphs(a) + TextGlyphs(b)
  {
  }

  lemma LastGlyphs(ns: seq<Node>, n: Node)
    ensures Glyphs(ns + [n]) == Glyphs(ns) + NodeGlyphs(n)
  {
    assert (ns + [n])[..|ns|] == ns;
  }

  lemma AddNodeGlyphs(contents: seq<Node>, n: Node)
    ensures Glyphs(AddNode(contents, n)) == Glyphs(contents) + NodeGlyphs(n)
  {
    if contents != [] && Mergeable(contents[|contents| - 1]) && Mergeable(n) {
      hide Glyphs;
      var front, last := contents[..|contents| - 1], contents[|contents| - 1];
      assert contents == front + [last];
      LastGlyphs(front, last);
      LastGlyphs(front, last.(content := last.content + n.content));
      TextGlyphsConcat(last.content, n.content);
      assert Glyphs(front) + (NodeGlyphs(last) + NodeGlyphs(n)) == (Glyphs(front) + NodeGlyphs(last)) + NodeGlyphs(n);
    } else {
      LastGlyphs(contents, n);
    }
  }

  /** Two nodes with the same content: the same text, or the same command. */
  predicate SameContent(a: Node, b: Node) {
    if a.Text? then b.Text? && a.content == b.content else a == b
  }

  predicate SameContents(a: seq<Node>, b: seq<Node>) {
    |a| == |b| && forall k :: 0 <= k < |a| ==> SameContent(a[k], b[k])
  }

  /** The last node of a canonical list, seen in its glyphs. */
  lemma LastNode(ns: seq<Node>)
    requires Canonical(ns) && ns != []
    ensures var front, n, g := ns[..|ns| - 1], ns[|ns| - 1], Glyphs(ns);
            && Canonical(front) && CanonicalNode(n)
            && g == Glyphs(front) + NodeGlyphs(n) && NodeGlyphs(n) != []
            && (Mergeable(n) ==> Glyphs(front) == [] || !Plain(Glyphs(front)[|Glyphs(front)| - 1]))
  {
    var front, n := ns[..|ns| - 1], ns[|ns| - 1];
    if front != [] {
      var m := front[|front| - 1];
      assert CanonicalNode(ns[|ns| - 2]) && m == ns[|ns| - 2];
      assert !(Mergeable(ns[|ns| - 2]) && Mergeable(ns[|ns| - 2 + 1]));
      assert NodeGlyphs(m) != [];
    }
  }

  /** A character that can be merged with its neighbours. */
  predicate Plain(g: Glyph) { g.Ch? && g.c != '\n' }

  lemma LastGlyph(n: Node)
    requires CanonicalNode(n)
    ensures NodeGlyphs(n) != []
    ensures Mergeable(n) <==> Plain(NodeGlyphs(n)[|NodeGlyphs(n)| - 1])
    ensures Mergeable(n) ==> n.Text?
    ensures Mergeable(n) ==> forall k :: 0 <= k < |NodeGlyphs(n)| ==> Plain(NodeGlyphs(n)[k])
    ensures n.Command? <==> NodeGlyphs(n)[|NodeGlyphs(n)| - 1].Cm?
  {
  }

  /** Of two canonical lists with the same glyphs, neither ends in the longer text. */
  lemma LastTextsFit(fa: seq<Glyph>, a: seq<Glyph>, fb: seq<Glyph>, b: seq<Glyph>)
    requires fa + a == fb + b && |a| < |b|
    requires forall k :: 0 <= k < |b| ==> Plain(b[k])
    ensures fa != [] && Plain(fa[|fa| - 1])
  {
    var d := |b| - |a|;
    assert |fa| == |fb| + d;
    assert fa[|fa| - 1] == (fa + a)[|fa| - 1] == (fb + b)[|fb| + (d - 1)] == b[d - 1];
  }

  /** Being canonical fixes the nodes: there is one way to cut given content. */
  lemma {:induction false} CanonicalIsUnique(a: seq<Node>, b: seq<Node>)
    requires Canonical(a) && Canonical(b) && Glyphs(a) == Glyphs(b)
    ensures SameContents(a, b)
    decreases |a|
  {
    hide Canonical, CanonicalNode, Mergeable, Plain, NodeGlyphs, Glyphs, SameContents;
    if a == [] || b == [] {
      EmptyIsUnique(a, b);
    } else {
      LastNode(a);
      LastNode(b);
      LastNodesAgree(Glyphs(a[..|a| - 1]), a[|a| - 1], Glyphs(b[..|b| - 1]), b[|b| - 1]);
      SameFront(Glyphs(a[..|a| - 1]), Glyphs(b[..|b| - 1]), NodeGlyphs(a[|a| - 1]));
      CanonicalIsUnique(a[..|a| - 1], b[..|b| - 1]);
      SameContentsAppend(a, b);
    }
  }

  lemma EmptyIsUnique(a: seq<Node>, b: seq<Node>)
    requires Canonical(a) && Canonical(b) && Glyphs(a) == Glyphs(b) && (a == [] || b == [])
    ensures SameContents(a, b)
  {
    hide Canonical, CanonicalNode, Mergeable, NodeGlyphs;
    if a != [] {
      LastNode(a);
    }
    if b != [] {
      LastNode(b);
    }
  }

  lemma SameFront(fa: seq<Glyph>, fb: seq<Glyph>, tail: seq<Glyph>)
    requires fa + tail == fb + tail
    ensures fa == fb
  {
    assert fa == (fa + tail)[..|fa|] && fb == (fb + tail)[..|fb|];
  }

  lemma SameContentsAppend(a: seq<Node>, b: seq<Node>)
    requires a != [] && b != []
    requires SameContents(a[..|a| - 1], b[..|b| - 1]) && SameContent(a[|a| - 1], b[|b| - 1])
    ensures SameContents(a, b)
  {
    var fa, fb := a[..|a| - 1], b[..|b| - 1];
    assert |fa| == |fb|;
    assert forall k :: 0 <= k < |fa| ==> a[k] == fa[k] && b[k] == fb[k];
  }

  lemma LastNodesAgree(fa: seq<Glyph>, m: Node, fb: seq<Glyph>, n: Node)
    requires CanonicalNode(m) && CanonicalNode(n) && fa + NodeGlyphs(m) == fb + NodeGlyphs(n)
    requires Mergeable(m) ==> fa == [] || !Plain(fa[|fa| - 1])
    requires Mergeable(n) ==> fb == [] || !Plain(fb[|fb| - 1])
    ensures SameContent(m, n) && NodeGlyphs(m) == NodeGlyphs(n)
  {
    hide CanonicalNode, Mergeable, Plain, NodeGlyphs;
    LastGlyph(m);
    LastGlyph(n);
    var a, b := NodeGlyphs(m), NodeGlyphs(n);
    assert a[|a| - 1] == (fa + a)[|fa + a| - 1] == b[|b| - 1];
    if Mergeable(m) {
      LastRunsAgree(fa, a, fb, b);
      SameGlyphs(m, n);
    } else {
      NewlineOrCommand(m);
      NewlineOrCommand(n);
    }
  }

  lemma LastRunsAgree(fa: seq<Glyph>, a: seq<Glyph>, fb: seq<Glyph>, b: seq<Glyph>)
    requires fa + a == fb + b
    requires forall k :: 0 <= k < |a| ==> Plain(a[k])
    requires forall k :: 0 <= k < |b| ==> Plain(b[k])
    requires fa == [] || !Plain(fa[|fa| - 1])
    requires fb == [] || !Plain(fb[|fb| - 1])
    ensures a == b
  {
    hide Plain;
    if |a| < |b| {
      LastTextsFit(fa, a, fb, b);
    }
    if |b| < |a| {
      LastTextsFit(fb, b, fa, a);
    }
    assert a == (fa + a)[|fa|..] && b == (fb + b)[|fb|..];
  }

  lemma SameGlyphs(m: Node, n: Node)
    requires m.Text? && n.Text? && NodeGlyphs(m) == NodeGlyphs(n)
    ensures m.content == n.content
  {
    assert |m.content| == |n.content|;
    forall k | 0 <= k < |m.content|
      ensures m.content[k] == n.content[k]
    {
      assert NodeGlyphs(m)[k] == Ch(m.content[k]) && NodeGlyphs(n)[k] == Ch(n.content[k]);
    }
  }

  lemma NewlineOrCommand(n: Node)
    requires CanonicalNode(n) && !Mergeable(n)
    ensures n.Text? ==> n.content == "\n" && NodeGlyphs(n) == [Ch('\n')]
    ensures n.Command? ==> NodeGlyphs(n) == [Cm(n)]
  {
  }
}
