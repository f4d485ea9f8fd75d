/** The shape of a tree after the paragraph pass. */
module Shape {
  import opened Ltrf
  import opened Paragraphs
  import opened ChildWise

  /** No block comes after a child that is none. */
  predicate BlocksFirst(es: seq<Ltrf.Obj>) {
    forall i, j :: 0 <= i < j < |es| && IsBlock(es[j]) ==> IsBlock(es[i])
  }

  predicate AllBlocks(es: seq<Ltrf.Obj>) {
    forall k :: 0 <= k < |es| ==> IsBlock(es[k])
  }

  /** No whitespace string at either end. */
  predicate Trimmed(es: seq<Ltrf.Obj>) {
    es != [] ==> !IsBlank(es[0]) && !IsBlank(es[|es| - 1])
  }

  /** At every depth, no break marker, and blocks before everything else. */
  predicate Ordered(o: Ltrf.Obj)
    decreases o
  {
    o.Node? ==>
      NoMarkersIn(o.elems) && BlocksFirst(o.elems) && forall k :: 0 <= k < |o.elems| ==> Ordered(o.elems[k])
  }

  /** If it is a paragraph, it is not empty and trimmed. */
  predicate Finished(o: Ltrf.Obj) {
    IsPara(o) ==> o.elems != [] && Trimmed(o.elems)
  }

  /** At every depth, all paragraphs are finished. */
  predicate Neat(o: Ltrf.Obj)
    decreases o
  {
    o.Node? ==> forall k :: 0 <= k < |o.elems| ==> Finished(o.elems[k]) && Neat(o.elems[k])
  }

  /** At every depth, all paragraphs are blocks. */
  predicate ParasAreBlocks(o: Ltrf.Obj)
    decreases o
  {
    o.Node? ==>
      forall k :: 0 <= k < |o.elems| ==> (IsPara(o.elems[k]) ==> IsBlock(o.elems[k])) && ParasAreBlocks(o.elems[k])
  }

  lemma BlocksFirstConcat(a: seq<Ltrf.Obj>, b: seq<Ltrf.Obj>)
    requires AllBlocks(a) && BlocksFirst(b)
    ensures BlocksFirst(a + b)
  {
    hide IsBlock;
  }

  lemma SeparatorsAre(es: seq<Ltrf.Obj>)
    ensures forall k :: 0 <= k < |es| ==> (IsSeparator(es[k]) <==> IsBreakMarker(es[k]) || IsBlock(es[k]))
  {
  }

  lemma SameKind(a: Ltrf.Obj, b: Ltrf.Obj)
    requires a.Node? && b.Node? && a.tag == b.tag && a.kv == b.kv
    ensures IsBlock(a) == IsBlock(b) && IsPara(a) == IsPara(b) && IsBreakMarker(a) == IsBreakMarker(b)
  {
  }

  /** A list without separators is in order. */
  lemma InlineOrder(piece: seq<Ltrf.Obj>)
    requires forall k :: 0 <= k < |piece| ==> !IsSeparator(piece[k])
    ensures NoMarkersIn(piece) && BlocksFirst(piece)
  {
    hide IsBlock, IsBreakMarker;
    SeparatorsAre(piece);
  }

  /** What separators close is blocks, and no markers. */
  lemma ClosedOrder(piece: seq<Ltrf.Obj>)
    ensures NoMarkersIn(ParaOf(piece)) && AllBlocks(ParaOf(piece))
  {
  }

  lemma KeptOrder(o: Ltrf.Obj)
    requires IsSeparator(o)
    ensures NoMarkersIn(Kept(o)) && AllBlocks(Kept(o))
  {
  }

  lemma {:induction false} PiecesOrder(es: seq<Ltrf.Obj>, closed: bool)
    ensures NoMarkersIn(Pieces(es, closed)) && BlocksFirst(Pieces(es, closed))
    ensures closed ==> AllBlocks(Pieces(es, closed))
    decreases |es|
  {
    hide IsBlock, IsBreakMarker, IsSeparator, ParaOf, Kept, BlocksFirst;
    var k := Cut(es);
    ClosedOrder(es[..k]);
    if k < |es| {
      PiecesOrder(es[k + 1..], closed || k > 0);
      KeptOrder(es[k]);
      var head := ParaOf(es[..k]) + Kept(es[k]);
      assert AllBlocks(head) && NoMarkersIn(head);
      BlocksFirstConcat(head, Pieces(es[k + 1..], closed || k > 0));
    } else {
      assert es[..k] == es;
      InlineOrder(es);
      BlocksComeFirst(ParaOf(es));
    }
  }

  lemma BlocksComeFirst(es: seq<Ltrf.Obj>)
    requires AllBlocks(es)
    ensures BlocksFirst(es)
  {
    hide IsBlock;
  }

  lemma TrimKind(o: Ltrf.Obj)
    ensures IsBlock(TrimPara(o)) == IsBlock(o) && IsBreakMarker(TrimPara(o)) == IsBreakMarker(o)
  {
    hide Trim;
  }

  /** Trimming changes the kind of no child, so it keeps their order. */
  lemma {:induction false} TrimParasOrder(es: seq<Ltrf.Obj>)
    requires NoMarkersIn(es) && BlocksFirst(es)
    ensures NoMarkersIn(TrimParas(es)) && BlocksFirst(TrimParas(es))
    decreases |es|
  {
    hide IsBlock, IsBreakMarker, TrimPara, IsNotEmptyPara;
    if es != [] {
      var rest := TrimParas(es[1..]);
      TrimParasOrder(es[1..]);
      TrimKind(es[0]);
      if IsBlock(es[0]) {
        BlocksFirstConcat(TrimOne(es[0]), rest);
      } else {
        assert All(IsInline, es[1..]);
        TrimParasInline(es[1..]);
        assert forall k :: 0 <= k < |rest| ==> IsInline(rest[k]);
      }
    }
  }

  predicate IsInline(o: Ltrf.Obj) { !IsBlock(o) }

  lemma TrimParasInline(es: seq<Ltrf.Obj>)
    requires All(IsInline, es)
    ensures All(IsInline, TrimParas(es))
  {
    hide IsBlock, TrimPara;
    forall o | IsInline(o)
      ensures IsInline(TrimPara(o))
    {
      TrimKind(o);
    }
    TrimParasAll(IsInline, es);
  }

  lemma OrderedSlice(o: Ltrf.Obj, t: Ltrf.Obj, a: nat, b: nat)
    requires o.Node? && t.Node? && a <= b <= |o.elems| && t.elems == o.elems[a..b] && Ordered(o)
    ensures Ordered(t)
  {
    hide IsBlock, IsBreakMarker;
    assert forall k :: 0 <= k < |t.elems| ==> t.elems[k] == o.elems[a + k];
  }

  lemma OrderedPara(es: seq<Ltrf.Obj>)
    requires All(Ordered, es) && forall k :: 0 <= k < |es| ==> !IsSeparator(es[k])
    ensures Ordered(MakePara(es))
  {
    hide IsSeparator, IsBlock, IsBreakMarker;
    InlineOrder(es);
    assert forall k :: 0 <= k < |es| ==> Ordered(es[k]);
  }

  lemma OrderedParaOf(es: seq<Ltrf.Obj>)
    requires All(Ordered, es) && forall k :: 0 <= k < |es| ==> !IsSeparator(es[k])
    ensures All(Ordered, ParaOf(es))
  {
    hide Ordered, IsSeparator, MakePara;
    OrderedPara(es);
  }

  lemma OrderedKept(o: Ltrf.Obj)
    requires Ordered(o)
    ensures All(Ordered, Kept(o))
  {
    hide Ordered;
  }

  lemma {:induction false} PiecesOrdered(es: seq<Ltrf.Obj>, closed: bool)
    requires All(Ordered, es)
    ensures All(Ordered, Pieces(es, closed))
    decreases |es|
  {
    hide Ordered, IsSeparator, ParaOf, Kept, All;
    var k := Cut(es);
    SliceAll(Ordered, es, 0, k);
    assert es[0..k] == es[..k];
    OrderedParaOf(es[..k]);
    if k < |es| {
      SliceAll(Ordered, es, k + 1, |es|);
      assert es[k + 1..|es|] == es[k + 1..];
      PiecesOrdered(es[k + 1..], closed || k > 0);
      OneOf(Ordered, es, k);
      OrderedKept(es[k]);
      AllConcat(Ordered, ParaOf(es[..k]), Kept(es[k]));
      AllConcat(Ordered, ParaOf(es[..k]) + Kept(es[k]), Pieces(es[k + 1..], closed || k > 0));
    } else {
      assert es[..k] == es;
    }
  }

  lemma TrimOrdered()
    ensures SurvivesTrim(Ordered)
  {
    forall o | Ordered(o)
      ensures Ordered(TrimPara(o))
    {
      if IsPara(o) {
        hide Trim, Ordered;
        var a, b := TrimIsSlice(o.elems);
        OrderedSlice(o, TrimPara(o), a, b);
      }
    }
  }

  /** Whatever tree it is given, the paragraph pass leaves no break marker and puts
      blocks before everything else, at every depth. */
  lemma {:induction false} ParagraphPassOrders(n: Ltrf.Obj)
    requires n.Node?
    ensures Ordered(WithParas(n))
    decreases n
  {
    hide Pieces, TrimParas, IsBlock;
    var mapped := WithParasAll(n.elems);
    forall k | 0 <= k < |mapped|
      ensures Ordered(mapped[k])
    {
      if n.elems[k].Node? {
        ParagraphPassOrders(n.elems[k]);
      }
    }
    PiecesOrdered(mapped, false);
    PiecesOrder(mapped, false);
    TrimOrdered();
    TrimParasAll(Ordered, Pieces(mapped, false));
    TrimParasOrder(Pieces(mapped, false));
    var r := ParaLevel(mapped);
    assert forall k :: 0 <= k < |r| ==> Ordered(r[k]);
  }

  /** A paragraph that is a block, if it is one, and so at every depth below. */
  predicate ParaIsBlock(o: Ltrf.Obj) { (IsPara(o) ==> IsBlock(o)) && ParasAreBlocks(o) }

  lemma ParaIsBlockChildWise()
    ensures Wraps(ParaIsBlock, ParaIsBlock) && SurvivesTrim(ParaIsBlock)
  {
    forall es | All(ParaIsBlock, es)
      ensures ParaIsBlock(MakePara(es))
    {
      assert forall k :: 0 <= k < |es| ==> ParaIsBlock(es[k]);
    }
    forall o | ParaIsBlock(o)
      ensures ParaIsBlock(TrimPara(o))
    {
      if IsPara(o) {
        TrimmedHolds(o.elems);
      }
    }
  }

  /** The pass makes only paragraphs that are blocks. */
  lemma {:induction false} ParasStayBlocks(n: Ltrf.Obj)
    requires n.Node? && ParasAreBlocks(n)
    ensures ParasAreBlocks(WithParas(n))
    decreases n
  {
    hide Pieces, TrimParas, IsPara, IsBlock;
    var mapped := WithParasAll(n.elems);
    forall k | 0 <= k < |mapped|
      ensures ParaIsBlock(mapped[k])
    {
      if n.elems[k].Node? {
        ParasStayBlocks(n.elems[k]);
        SameKind(n.elems[k], mapped[k]);
      } else {
        StringIsNoPara(n.elems[k]);
      }
    }
    ParaIsBlockChildWise();
    ParaLevelAll(ParaIsBlock, ParaIsBlock, mapped);
    var r := ParaLevel(mapped);
    assert forall k :: 0 <= k < |r| ==> ParaIsBlock(r[k]);
  }

  lemma StringIsNoPara(o: Ltrf.Obj)
    ensures o.Str? ==> !IsPara(o) && ParasAreBlocks(o)
  {
  }

  /** No node below is a paragraph. */
  predicate NoParasBelow(o: Ltrf.Obj)
    decreases o
  {
    o.Node? ==> NoParasIn(o.elems) && forall k :: 0 <= k < |o.elems| ==> NoParasBelow(o.elems[k])
  }

  /** At every depth, a list either has only blocks or has no paragraph. */
  predicate ParasAmongBlocks(o: Ltrf.Obj)
    decreases o
  {
    o.Node? ==>
      && (AllBlocks(o.elems) || NoParasIn(o.elems))
      && forall k :: 0 <= k < |o.elems| ==> ParasAmongBlocks(o.elems[k])
  }

  predicate AmongBlocksNoPara(o: Ltrf.Obj) { ParasAmongBlocks(o) && !IsPara(o) }

  lemma {:induction false} PiecesAmongBlocks(es: seq<Ltrf.Obj>, closed: bool)
    requires NoParasIn(es)
    ensures AllBlocks(Pieces(es, closed)) || (!closed && NoParasIn(Pieces(es, closed)))
    decreases |es|
  {
    hide IsBlock, IsBreakMarker, IsPara, MakePara, IsSeparator;
    var k := Cut(es);
    ParaOfBlocks(es[..k]);
    if k < |es| {
      PiecesAmongBlocks(es[k + 1..], closed || k > 0);
      SeparatorsAre(es);
    } else {
      assert es[..k] == es;
    }
  }

  lemma ParaOfBlocks(es: seq<Ltrf.Obj>)
    ensures AllBlocks(ParaOf(es)) && (es == [] ==> ParaOf(es) == [])
  {
  }

  lemma TrimParasWithout(es: seq<Ltrf.Obj>)
    requires NoParasIn(es)
    ensures TrimParas(es) == es
  {
  }

  lemma ParasAmongBlocksChildWise()
    ensures Wraps(AmongBlocksNoPara, ParasAmongBlocks) && SurvivesTrim(ParasAmongBlocks) && SurvivesTrim(IsBlock)
  {
    forall es | All(AmongBlocksNoPara, es)
      ensures ParasAmongBlocks(MakePara(es))
    {
      assert forall k :: 0 <= k < |es| ==> AmongBlocksNoPara(es[k]);
    }
    forall o | ParasAmongBlocks(o)
      ensures ParasAmongBlocks(TrimPara(o))
    {
      if IsPara(o) {
        TrimmedHolds(o.elems);
      }
    }
  }

  /** Where the pass makes a paragraph, what is left beside it are blocks. */
  lemma {:induction false} ParagraphsStandAmongBlocks(n: Ltrf.Obj)
    requires n.Node? && NoParasBelow(n)
    ensures ParasAmongBlocks(WithParas(n))
    decreases n
  {
    hide Pieces, TrimParas, IsPara, IsBlock;
    var mapped := WithParasAll(n.elems);
    forall k | 0 <= k < |mapped|
      ensures AmongBlocksNoPara(mapped[k])
    {
      if n.elems[k].Node? {
        ParagraphsStandAmongBlocks(n.elems[k]);
        SameKind(n.elems[k], mapped[k]);
      }
    }
    ParasAmongBlocksChildWise();
    ParaLevelAll(AmongBlocksNoPara, ParasAmongBlocks, mapped);
    PiecesAmongBlocks(mapped, false);
    if AllBlocks(Pieces(mapped, false)) {
      TrimParasAll(IsBlock, Pieces(mapped, false));
    } else {
      TrimParasWithout(Pieces(mapped, false));
    }
  }
}
