/** Every text can be quoted. */
module Quoting {
  import opened Spans
  import opened Ast
  import opened Delimiters
  import opened Parser
  import opened FastScan
  import opened Content
  import opened Fences
  import opened NodeReading

  /** Carriage return and line feed become a line feed; all else stays. */
  function LineFeeds(t: string): string {
    if t == "" then ""
    else if |t| >= 2 && t[0] == '\r' && t[1] == '\n' then "\n" + LineFeeds(t[2..])
    else [t[0]] + LineFeeds(t[1..])
  }

  lemma LineFeedsStep(src: string, p: nat, q: nat)
    requires p < q <= |src|
    ensures LineFeeds(src[p..q]) ==
            if p + 1 < q && AtCrLf(src, p) then "\n" + LineFeeds(src[p + 2..q])
            else src[p..p + 1] + LineFeeds(src[p + 1..q])
  {
    var t := src[p..q];
    assert t[1..] == src[p + 1..q] && src[p..p + 1] == [t[0]];
    if p + 1 < q {
      assert t[2..] == src[p + 2..q];
    }
  }

  lemma {:induction false} AddRawGlyphs(src: string, p: nat, q: nat, contents: seq<Node>)
    requires p <= q <= |src|
    ensures Glyphs(AddRaw(src, p, q, contents)) == Glyphs(contents) + TextGlyphs(LineFeeds(src[p..q]))
    decreases q - p
  {
    hide Glyphs, TextGlyphs, AddNode, LineFeeds;
    if p == q {
      NoGlyphs();
      assert src[p..q] == "";
      assert Glyphs(contents) + TextGlyphs("") == Glyphs(contents);
    } else {
      LineFeedsStep(src, p, q);
      var crlf := p + 1 < q && AtCrLf(src, p);
      var m, c := if crlf then p + 2 else p + 1, if crlf then Text("\n", p + 1) else Text(src[p..p + 1], p);
      AddNodeGlyphs(contents, c);
      AddRawGlyphs(src, m, q, AddNode(contents, c));
      TextGlyphsConcat(c.content, LineFeeds(src[m..q]));
      assert (Glyphs(contents) + TextGlyphs(c.content)) + TextGlyphs(LineFeeds(src[m..q])) ==
             Glyphs(contents) + (TextGlyphs(c.content) + TextGlyphs(LineFeeds(src[m..q])));
    }
  }

  /** Any text can be quoted: in a fence wider than the text is long, an argument
      holds exactly that text, whatever markers, escapes or commands it spells. */
  lemma AnyTextCanBeQuoted(s: Input, t: string, k: nat, p: nat)
    requires k > |t| && At(s.src, p, OpenFence(k) + (t + CloseFence(k)))
    ensures p <= |s.src|
    ensures var r := CurlyArgument(s, p);
            && r.Ok?
            && r.rest == p + |OpenFence(k) + (t + CloseFence(k))|
            && Canonical(r.value)
            && Glyphs(r.value) == TextGlyphs(LineFeeds(t))
  {
    hide TextFrom, CurlyArgument, GenericOpenCurly, Usable, OpenFence, CloseFence, Glyphs, TextGlyphs, Canonical,
         AddRaw, LineFeeds, At;
    FenceMatch(k);
    AtConcat(s.src, p, OpenFence(k), t + CloseFence(k));
    GenericOpenCurlyReads(s.src, p, OpenFence(k));
    var a := p + |OpenFence(k)|;
    AtConcat(s.src, a, t, CloseFence(k));
    QuotedBody(s, t, k, a);
    var nodes := AddRaw(s.src, a, a + |t|, []);
    CurlyArgumentReads(s, p, a, Fence(k), a + |t|, nodes);
    AtSlice(s.src, a, t);
    AddRawGlyphs(s.src, a, a + |t|, []);
    NoGlyphs();
    assert [] + TextGlyphs(LineFeeds(t)) == TextGlyphs(LineFeeds(t));
  }

  lemma QuotedBody(s: Input, t: string, k: nat, a: nat)
    requires Usable(Fence(k)) && k > |t| && At(s.src, a, t) && At(s.src, a + |t|, CloseFence(k))
    ensures TextFrom(s, false, Fence(k), a) == Ok(a + |t|, AddRaw(s.src, a, a + |t|, []))
  {
    hide TextLoop, Usable, OpenFence, EscapeFence, AddRaw;
    var q := a + |t|;
    AtHead(s.src, q, CloseFence(k));
    forall i | a <= i < q
      ensures !At(s.src, i, OpenFence(k)) && !At(s.src, i, CloseFence(k)) && !At(s.src, i, EscapeFence(k) + "@")
    {
      FenceIsFar(s.src, k, i, q);
    }
    RawRun(Slow(s), false, Fence(k), a, q, 1, []);
    LoopAtClose(Slow(s), false, Fence(k), q, 1, AddRaw(s.src, a, q, []));
    assert s == Fast(s) || s == Slow(s);
    TextLoopSame(s, false, Fence(k), a, 1, []);
  }

  lemma NoGlyphs()
    ensures Glyphs([]) == [] && TextGlyphs("") == [] && LineFeeds("") == ""
  {
  }
}
