/** Running the paragraph pass twice: exactly when the second run changes nothing. */
module ParagraphsTwice {
  import opened Ltrf
  import opened Paragraphs
  import opened ChildWise
  import opened Shape
  import opened Wrapping
  import opened InlineParagraphs

  /** A list in order has no piece that a separator closes. */
  lemma {:induction false} PiecesOfOrdered(es: seq<Ltrf.Obj>)
    requires NoMarkersIn(es) && BlocksFirst(es)
    ensures Pieces(es, false) == es
    decreases |es|
  {
    hide IsBlock, IsBreakMarker, IsSeparator, ParaOf;
    SeparatorsAre(es);
    var k := Cut(es);
    if k < |es| {
      assert k == 0 by {
        assert IsBlock(es[k]);
      }
      PiecesOfOrdered(es[1..]);
      assert es[..0] == [];
      NoPara();
    }
  }

  lemma NoPara()
    ensures ParaOf([]) == []
  {
  }

  lemma TrimTrimmed(es: seq<Ltrf.Obj>)
    requires Trimmed(es)
    ensures Trim(es) == es
  {
  }

  lemma TrimFinished(o: Ltrf.Obj)
    requires Finished(o)
    ensures TrimOne(o) == [o]
  {
    hide Trim;
    if IsPara(o) {
      TrimTrimmed(o.elems);
    }
  }

  lemma {:induction false} TrimParasOfFinished(es: seq<Ltrf.Obj>)
    requires All(Finished, es)
    ensures TrimParas(es) == es
    decreases |es|
  {
    hide Finished, TrimPara, IsNotEmptyPara;
    if es != [] {
      assert Finished(es[0]);
      TrimParasOfFinished(es[1..]);
      TrimFinished(es[0]);
    }
  }

  lemma SameOrder(es: seq<Ltrf.Obj>)
    requires NoMarkersIn(es) && BlocksFirst(es)
    ensures Pieces(WithParasAll(es), false) == WithParasAll(es)
  {
    hide Pieces, IsBlock, IsBreakMarker, WithParas;
    var mapped := WithParasAll(es);
    forall k | 0 <= k < |es|
      ensures IsBlock(mapped[k]) == IsBlock(es[k]) && IsBreakMarker(mapped[k]) == IsBreakMarker(es[k])
    {
      if es[k].Node? {
        SameKind(es[k], mapped[k]);
      }
    }
    PiecesOfOrdered(mapped);
  }

  /** A tree in order whose paragraphs are finished is left alone. */
  lemma {:induction false} NeatIsFixed(m: Ltrf.Obj)
    requires m.Node? && Ordered(m) && Neat(m)
    ensures WithParas(m) == m
    decreases m
  {
    hide Pieces, TrimParas, NoMarkersIn, BlocksFirst, Finished;
    var es := m.elems;
    var mapped := WithParasAll(es);
    forall k | 0 <= k < |es|
      ensures mapped[k] == es[k]
    {
      if es[k].Node? {
        NeatIsFixed(es[k]);
      }
    }
    assert mapped == es;
    SameOrder(es);
    TrimParasOfFinished(es);
  }

  /** Trimming drops children or keeps them all. */
  lemma {:induction false} TrimParasShrinks(es: seq<Ltrf.Obj>)
    ensures |TrimParas(es)| <= |es|
    ensures |TrimParas(es)| == |es| ==>
              forall k :: 0 <= k < |es| ==> TrimParas(es)[k] == TrimPara(es[k]) && IsNotEmptyPara(TrimPara(es[k]))
    decreases |es|
  {
    hide TrimPara, IsNotEmptyPara;
    if es != [] {
      TrimParasShrinks(es[1..]);
    }
  }

  lemma TrimIsTrimmed(es: seq<Ltrf.Obj>)
    ensures Trimmed(Trim(es)) && |Trim(es)| <= |es| && (|Trim(es)| == |es| ==> Trim(es) == es)
  {
    hide Trim, IsBlank;
    var a, b := TrimIsSlice(es);
    assert a == 0 && b == |es| ==> es[a..b] == es;
  }

  /** The pass makes no list in order longer. */
  lemma PassShrinks(m: Ltrf.Obj)
    requires m.Node? && Ordered(m)
    ensures |WithParas(m).elems| <= |m.elems|
  {
    hide Pieces, TrimParas, NoMarkersIn, BlocksFirst;
    SameOrder(m.elems);
    TrimParasShrinks(WithParasAll(m.elems));
  }

  /** If trimming what the pass makes of a paragraph gives the paragraph back, then
      the pass and the trimming both did nothing. */
  lemma TrimmedPassIsFixed(c: Ltrf.Obj)
    requires c.Node? && Ordered(c) && c.elems == Trim(WithParas(c).elems)
    ensures WithParas(c) == c && Trimmed(c.elems)
  {
    hide WithParas, Trim, Ordered, Trimmed;
    PassShrinks(c);
    TrimIsTrimmed(WithParas(c).elems);
  }

  lemma {:induction false} FixedIsNeat(m: Ltrf.Obj)
    requires m.Node? && Ordered(m) && WithParas(m) == m
    ensures Neat(m)
    decreases m
  {
    hide Pieces, TrimParas, NoMarkersIn, BlocksFirst, Trim, Trimmed;
    var es := m.elems;
    var mapped := WithParasAll(es);
    SameOrder(es);
    TrimParasShrinks(mapped);
    forall k | 0 <= k < |es|
      ensures Finished(es[k]) && Neat(es[k])
    {
      if es[k].Node? {
        if IsPara(es[k]) {
          TrimmedPassIsFixed(es[k]);
        }
        FixedIsNeat(es[k]);
      }
    }
  }

  /** What the pass leaves alone, among the trees in order: those whose paragraphs
      are all finished. */
  lemma FixedExactly(m: Ltrf.Obj)
    requires m.Node? && Ordered(m)
    ensures WithParas(m) == m <==> Neat(m)
  {
    hide WithParas, Ordered, Neat;
    if Neat(m) {
      NeatIsFixed(m);
    }
    if WithParas(m) == m {
      FixedIsNeat(m);
    }
  }

  /** At every depth, an inline paragraph that is put into another one comes out of
      its own processing not empty and with no whitespace string at an end. */
  predicate StaysNeat(n: Ltrf.Obj)
    decreases n
  {
    n.Node? ==>
      forall k :: 0 <= k < |n.elems| && !IsBreakMarker(n.elems[k]) ==>
        && StaysNeat(n.elems[k])
        && (Wrapped(n.elems, k, false) && IsPara(n.elems[k]) ==> ComesOutFinished(n.elems[k]))
  }

  predicate NeatChild(o: Ltrf.Obj) { Finished(o) && Neat(o) }

  lemma BlankIsNeat(o: Ltrf.Obj)
    requires IsBlank(o)
    ensures NeatChild(o)
  {
  }

  lemma BlanksAreNeat(es: seq<Ltrf.Obj>)
    requires All(IsBlank, es)
    ensures All(NeatChild, es)
  {
    hide IsBlank, NeatChild;
    forall k | 0 <= k < |es|
      ensures NeatChild(es[k])
    {
      BlankIsNeat(es[k]);
    }
  }

  /** Trimming cuts off only what is neat anyway. */
  lemma TrimNeat(es: seq<Ltrf.Obj>)
    ensures All(NeatChild, Trim(es)) <==> All(NeatChild, es)
  {
    hide IsBlank, NeatChild, Trim;
    var a, b := TrimIsSlice(es);
    BlanksAreNeat(es[..a]);
    BlanksAreNeat(es[b..]);
    assert es == es[..a] + es[a..b] + es[b..];
    hide All;
    AllThree(NeatChild, es[..a], es[a..b], es[b..]);
  }

  lemma NeatIs(o: Ltrf.Obj)
    ensures o.Node? ==> (Neat(o) <==> All(NeatChild, o.elems))
  {
    hide Finished;
    assert forall c :: NeatChild(c) <==> Finished(c) && Neat(c);
  }

  /** After trimming, a child is neat exactly when it was so below. */
  lemma TrimOneNeat(o: Ltrf.Obj)
    ensures All(NeatChild, TrimOne(o)) <==> Neat(o)
  {
    AllOne(NeatChild, TrimPara(o));
    if IsPara(o) {
      hide Trim, Trimmed, Neat, All;
      TrimIsTrimmed(o.elems);
      NeatIs(o);
      NeatIs(TrimPara(o));
      TrimNeat(o.elems);
      AllNone(NeatChild);
    }
  }

  lemma NeatFits()
    ensures ParaHas(NeatChild, Neat) && TrimHas(Neat, NeatChild)
  {
    hide NeatChild, Neat, TrimOne;
    forall es: seq<Ltrf.Obj> | es != []
      ensures Neat(MakePara(es)) <==> All(NeatChild, es)
    {
      NeatIs(MakePara(es));
    }
    forall o
      ensures All(NeatChild, TrimOne(o)) <==> Neat(o)
    {
      TrimOneNeat(o);
    }
  }

  /** The pass makes a neat tree exactly when inline paragraphs that it wraps come out
      of their own processing finished. */
  lemma {:induction false} NeatAfterPassExactly(n: Ltrf.Obj)
    requires n.Node?
    ensures Neat(WithParas(n)) <==> StaysNeat(n)
    decreases n
  {
    hide Neat, TrimParas, Pieces, Wrapped, Finished, IsPara, IsBreakMarker, ComesOutFinished;
    var es := n.elems;
    var mapped := WithParasAll(es);
    NeatIs(WithParas(n));
    NeatFits();
    ParaLevelFits(NeatChild, Neat, NeatChild, mapped);
    ParasAreNodes();
    forall k | 0 <= k < |es|
      ensures FitsAt(NeatChild, Neat, mapped, k, false) <==>
              IsBreakMarker(es[k]) ||
              (StaysNeat(es[k]) && (Wrapped(es, k, false) && IsPara(es[k]) ==> ComesOutFinished(es[k])))
    {
      SameWrapped(es, k);
      if es[k].Node? {
        NeatAfterPassExactly(es[k]);
        SameKind(es[k], mapped[k]);
        FinishedIfNoPara(mapped[k]);
        if IsPara(es[k]) {
          ComesOutFinishedExactly(es[k]);
        }
      } else {
        StringsAreNeat(es[k]);
      }
    }
  }

  lemma ParasAreNodes()
    ensures forall o :: IsPara(o) ==> o.Node?
  {
  }

  lemma FinishedIfNoPara(o: Ltrf.Obj)
    ensures !IsPara(o) ==> Finished(o)
  {
  }

  lemma StringsAreNeat(o: Ltrf.Obj)
    ensures o.Str? ==> Neat(o) && StaysNeat(o) && !IsPara(o) && !IsBreakMarker(o) && Finished(o)
  {
  }

  /** On every tree: a second run of the paragraph pass changes nothing exactly when,
      at every depth, each inline paragraph that the first run wraps comes out of
      its own processing not empty and with no whitespace string at an end. */
  lemma ParagraphPassTwiceExactly(n: Ltrf.Obj)
    requires n.Node?
    ensures WithParas(WithParas(n)) == WithParas(n) <==> StaysNeat(n)
  {
    hide WithParas, Ordered, Neat, StaysNeat;
    ParagraphPassOrders(n);
    FixedExactly(WithParas(n));
    NeatAfterPassExactly(n);
  }

  /** A paragraph that is a block is never wrapped. */
  lemma {:induction false} BlocksStayNeat(n: Ltrf.Obj)
    requires ParasAreBlocks(n)
    ensures StaysNeat(n)
    decreases n
  {
    hide IsPara, IsBlock, IsBreakMarker, ComesOutFinished;
    if n.Node? {
      forall k | 0 <= k < |n.elems|
        ensures StaysNeat(n.elems[k]) && (IsPara(n.elems[k]) ==> !Wrapped(n.elems, k, false))
      {
        BlocksStayNeat(n.elems[k]);
      }
    }
  }

  /** So the pass can be repeated on every tree whose paragraphs are blocks. */
  lemma ParagraphPassIsIdempotent(n: Ltrf.Obj)
    requires n.Node? && ParasAreBlocks(n)
    ensures WithParas(WithParas(n)) == WithParas(n)
  {
    BlocksStayNeat(n);
    ParagraphPassTwiceExactly(n);
  }

  lemma TrimParasTwo(a: Ltrf.Obj, b: Ltrf.Obj)
    ensures TrimParas([a]) == TrimOne(a) && TrimParas([a, b]) == TrimOne(a) + TrimOne(b)
  {
    hide TrimPara, IsNotEmptyPara;
    assert [a][1..] == [] && [a, b][1..] == [b] && [b][1..] == [];
    assert TrimParas([]) == [];
  }

  lemma OneChild(o: Ltrf.Obj)
    requires !IsSeparator(o)
    ensures ParaLevel([o]) == TrimOne(o)
  {
    hide IsSeparator, TrimOne, TrimParas;
    assert [o][1..] == [];
    assert Cut([o]) == 1;
    TrimParasTwo(o, o);
  }

  lemma TwoBlocks(a: Ltrf.Obj, b: Ltrf.Obj)
    requires IsBlock(a) && IsBlock(b) && !IsBreakMarker(a) && !IsBreakMarker(b)
    ensures ParaLevel([a, b]) == TrimOne(a) + TrimOne(b)
  {
    hide IsBlock, IsBreakMarker, TrimOne, TrimParas, Pieces;
    PiecesOfOrdered([a, b]);
    TrimParasTwo(a, b);
  }

  lemma MarkerBetween(a: Ltrf.Obj, b: Ltrf.Obj)
    requires !IsSeparator(a) && !IsSeparator(b)
    ensures ParaLevel([a, BREAK_MARKER, b]) == TrimOne(MakePara([a])) + TrimOne(MakePara([b]))
  {
    hide IsSeparator, TrimOne, TrimParas, BREAK_MARKER, MakePara, Pieces, Kept;
    MarkerSeparates();
    var es := [BREAK_MARKER, b];
    assert [a] + es == [a, BREAK_MARKER, b] && es[1..] == [b];
    PiecesAtSeparator([a], es, false);
    LastClosed(b);
    assert ParaOf([a]) + [] + [MakePara([b])] == [MakePara([a]), MakePara([b])];
    TrimParasTwo(MakePara([a]), MakePara([b]));
  }

  lemma LastClosed(b: Ltrf.Obj)
    requires !IsSeparator(b)
    ensures Pieces([b], true) == [MakePara([b])]
  {
    hide IsSeparator, MakePara;
    assert [b][1..] == [] && Cut([b]) == 1;
  }

  lemma MarkerSeparates()
    ensures IsSeparator(BREAK_MARKER) && Kept(BREAK_MARKER) == []
  {
  }

  lemma ParaFacts(o: Ltrf.Obj)
    requires !IsBlank(o)
    ensures TrimOne(MakePara([o])) == [MakePara([o])]
    ensures IsBlock(MakePara([o])) && !IsBreakMarker(MakePara([o]))
  {
    hide Trim, IsBlank;
    TrimTrimmed([o]);
  }

  lemma EmptyParaFacts()
    ensures TrimOne(MakePara([])) == []
    ensures IsBlock(MakePara([])) && !IsBreakMarker(MakePara([]))
  {
    assert Trim([]) == [];
  }

  /** Why inline paragraphs must come out finished: one that only holds strings, with
      whitespace at an end or nothing at all, is wrapped as it is by the first run.
      The second run trims it, and drops its wrapper if nothing is left. */
  lemma InlineParaBreaksIdempotence(cs: seq<Ltrf.Obj>, x: string, tag: string)
    requires (forall k :: 0 <= k < |cs| ==> cs[k].Str?) && (cs == [] || !Trimmed(cs)) && !IsWhitespace(x)
    ensures var inline := Node(PARAGRAPH_TAG, map[], cs);
            var n := Node(tag, map[], [inline, BREAK_MARKER, Str(x)]);
            && WithParas(n).elems == [MakePara([inline]), MakePara([Str(x)])]
            && WithParas(WithParas(n)).elems ==
               (if Trim(cs) == [] then [] else [MakePara([inline.(elems := Trim(cs))])]) + [MakePara([Str(x)])]
            && WithParas(WithParas(n)) != WithParas(n)
  {
    hide ParaLevel, TrimOne, IsSeparator, IsBlock, IsBreakMarker, IsWhitespace, MakePara, BREAK_MARKER, Trim, Trimmed;
    var inline, text := Node(PARAGRAPH_TAG, map[], cs), Str(x);
    var n := Node(tag, map[], [inline, BREAK_MARKER, text]);
    InlineFacts(inline);
    TextFacts(text);
    MarkerIsFixed();
    assert WithParasAll(n.elems) == n.elems;
    ParaFacts(inline);
    ParaFacts(text);
    MarkerBetween(inline, text);
    var p, q := MakePara([inline]), MakePara([text]);
    OneChild(inline);
    OneChild(text);
    assert WithParasAll([inline]) == [inline] && WithParasAll([text]) == [text];
    ParaOfMapped([inline], TrimOne(inline));
    ParaOfMapped([text], [text]);
    var left := MakePara(TrimOne(inline));
    assert WithParasAll([p, q]) == [left, q];
    if Trim(cs) == [] {
      EmptyParaFacts();
    } else {
      ParaFacts(inline.(elems := Trim(cs)));
    }
    TwoBlocks(left, q);
    TrimIsTrimmed(cs);
    ParasDiffer(inline, inline.(elems := Trim(cs)));
  }

  lemma ParasDiffer(a: Ltrf.Obj, b: Ltrf.Obj)
    ensures MakePara([a]) == MakePara([b]) ==> a == b
  {
    assert [a][0] == a && [b][0] == b;
  }

  lemma InlineFacts(inline: Ltrf.Obj)
    requires inline.Node? && inline.tag == PARAGRAPH_TAG && inline.kv == map[]
    requires forall k :: 0 <= k < |inline.elems| ==> inline.elems[k].Str?
    ensures !IsSeparator(inline) && !IsBlank(inline) && WithParas(inline) == inline
    ensures TrimOne(inline) == if Trim(inline.elems) == [] then [] else [inline.(elems := Trim(inline.elems))]
    ensures !IsBlank(inline.(elems := Trim(inline.elems)))
  {
    hide Trim;
    assert Ordered(inline) && Neat(inline);
    NeatIsFixed(inline);
  }

  lemma TextFacts(text: Ltrf.Obj)
    requires text.Str? && !IsWhitespace(text.s)
    ensures !IsSeparator(text) && !IsBlank(text) && TrimOne(text) == [text]
  {
  }

  lemma MarkerIsFixed()
    ensures BREAK_MARKER.Node? && WithParas(BREAK_MARKER) == BREAK_MARKER
  {
    assert WithParasAll([]) == [] && ParaLevel([]) == [];
  }

  lemma ParaOfMapped(es: seq<Ltrf.Obj>, r: seq<Ltrf.Obj>)
    requires WithParasAll(es) == es && ParaLevel(es) == r
    ensures MakePara(es).Node? && WithParas(MakePara(es)) == MakePara(r)
  {
    hide ParaLevel;
  }
}
