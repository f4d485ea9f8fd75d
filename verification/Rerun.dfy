/** Running the whole middle pass twice. Each of its passes can be repeated without
    effect, but the four together cannot: the second pass drops the spaces that
    the third one made. This is exactly when it matters. */
module Rerun {
  import opened Ltrf
  import opened RemoveWhitespace
  import opened Linebreaks
  import opened Paragraphs
  import opened Process
  import opened ChildWise
  import opened Shape
  import opened BreakShape
  import opened Wrapping
  import opened InlineParagraphs
  import opened ParagraphsTwice
  import opened Segmentation
  import opened Pipeline

  /** At every depth, a whitespace string is a single newline. */
  predicate Unspaced(o: Ltrf.Obj)
    decreases o
  {
    if o.Str? then o.s == "\n" || !IsWhitespace(o.s) else forall k :: 0 <= k < |o.elems| ==> Unspaced(o.elems[k])
  }

  lemma {:induction false} RemUnspaces(es: seq<Ltrf.Obj>)
    ensures All(Unspaced, RemElems(es))
    decreases es
  {
    hide IsDropped;
    if es != [] {
      RemUnspaces(es[1..]);
      RemElemUnspaces(es[0]);
      AllConcat(Unspaced, RemElem(es[0]), RemElems(es[1..]));
    }
  }

  lemma {:induction false} RemElemUnspaces(o: Ltrf.Obj)
    ensures All(Unspaced, RemElem(o))
    decreases o
  {
    hide IsDropped;
    DroppedExactly(o);
    if o.Node? {
      RemUnspaces(o.elems);
      assert Unspaced(RemWhitespace(o)) by {
        assert forall k :: 0 <= k < |RemElems(o.elems)| ==> Unspaced(RemElems(o.elems)[k]);
      }
    }
  }

  lemma {:induction false} RemFixed(es: seq<Ltrf.Obj>)
    requires All(Unspaced, es)
    ensures RemElems(es) == es
    decreases es
  {
    hide IsDropped, RemElem;
    if es != [] {
      RemFixed(es[1..]);
      assert Unspaced(es[0]);
      RemElemFixed(es[0]);
    }
  }

  lemma {:induction false} RemElemFixed(o: Ltrf.Obj)
    requires Unspaced(o)
    ensures RemElem(o) == [o]
    decreases o
  {
    if o.Node? {
      assert All(Unspaced, o.elems);
      RemFixed(o.elems);
    }
  }

  /** Whatever is left was there, or is a node that was there and has lost strings. */
  lemma RemHolds(es: seq<Ltrf.Obj>, f: Ltrf.Obj)
    requires f in RemElems(es)
    ensures f in es || (f.Node? && exists o :: o in es && o.Node? && f == RemWhitespace(o))
  {
    hide IsDropped;
  }

  lemma RemIsShorter(es: seq<Ltrf.Obj>)
    ensures |RemElems(es)| <= |es|
  {
    hide IsDropped;
  }

  /** The whitespace pass brings no newline next to anything. */
  lemma {:induction false} RemSettled(n: Ltrf.Obj)
    requires n.Node? && Settled(n)
    ensures Settled(RemWhitespace(n))
    decreases n
  {
    hide RemElems, IsNewline;
    var es := RemElems(n.elems);
    RemIsShorter(n.elems);
    forall k | 0 <= k < |es|
      ensures Settled(es[k]) && (IsNewline(es[k]) ==> es[k] in n.elems)
    {
      RemHolds(n.elems, es[k]);
      NewlineIsString(es[k]);
      if !(es[k] in n.elems) {
        var o :| o in n.elems && o.Node? && es[k] == RemWhitespace(o);
        RemSettled(o);
      }
    }
  }

  lemma NewlineIsString(o: Ltrf.Obj)
    ensures IsNewline(o) ==> o.Str?
  {
  }

  /** A child that brings no newline into its list and is settled below. */
  predicate Calm(o: Ltrf.Obj) { Settled(o) && !IsNewline(o) }

  lemma CalmPara(es: seq<Ltrf.Obj>)
    requires All(Calm, es)
    ensures Calm(MakePara(es))
  {
    hide IsNewline;
    assert forall k :: 0 <= k < |es| ==> Calm(es[k]);
    NewlineIsString(MakePara(es));
  }

  lemma CalmTrim(o: Ltrf.Obj)
    requires Calm(o)
    ensures Calm(TrimPara(o))
  {
    hide IsNewline, Trim;
    if IsPara(o) {
      TrimmedHolds(o.elems);
      var t := TrimPara(o);
      NewlineIsString(t);
      forall k | 0 <= k < |t.elems|
        ensures Settled(t.elems[k]) && (|o.elems| > 1 ==> !IsNewline(t.elems[k]))
      {
        assert t.elems[k] in o.elems;
      }
    }
  }

  lemma CalmChildWise()
    ensures Wraps(Calm, Calm) && SurvivesTrim(Calm)
  {
    hide Calm, MakePara, TrimPara;
    forall es | All(Calm, es)
      ensures Calm(MakePara(es))
    {
      CalmPara(es);
    }
    forall o | Calm(o)
      ensures Calm(TrimPara(o))
    {
      CalmTrim(o);
    }
  }

  /** Nor does the paragraph pass. */
  lemma {:induction false} ParasSettled(n: Ltrf.Obj)
    requires n.Node? && Settled(n)
    ensures Settled(WithParas(n))
    decreases n
  {
    hide Pieces, TrimParas, IsNewline;
    var mapped := WithParasAll(n.elems);
    forall k | 0 <= k < |mapped|
      ensures Settled(mapped[k]) && (IsNewline(mapped[k]) <==> IsNewline(n.elems[k]))
    {
      if n.elems[k].Node? {
        ParasSettled(n.elems[k]);
        NewlineIsString(n.elems[k]);
        NewlineIsString(mapped[k]);
      }
    }
    if |mapped| == 1 && IsNewline(mapped[0]) {
      LoneNewline(mapped);
    } else {
      assert All(Calm, mapped);
      CalmChildWise();
      ParaLevelAll(Calm, Calm, mapped);
      var r := ParaLevel(mapped);
      assert forall k :: 0 <= k < |r| ==> Calm(r[k]);
    }
  }

  lemma LoneNewline(es: seq<Ltrf.Obj>)
    requires |es| == 1 && IsNewline(es[0])
    ensures ParaLevel(es) == es
  {
    assert es == [NEWLINE];
    NewlineAlone();
    assert WithParasAll([NEWLINE]) == [NEWLINE];
  }

  lemma UnspacedChildWise()
    ensures Wraps(Unspaced, Unspaced) && SurvivesTrim(Unspaced)
  {
    hide IsDropped;
    forall es | All(Unspaced, es)
      ensures Unspaced(MakePara(es))
    {
      assert forall k :: 0 <= k < |es| ==> Unspaced(es[k]);
    }
    forall o | Unspaced(o)
      ensures Unspaced(TrimPara(o))
    {
      if IsPara(o) {
        TrimmedHolds(o.elems);
      }
    }
  }

  lemma {:induction false} ParasUnspaced(n: Ltrf.Obj)
    requires n.Node? && Unspaced(n)
    ensures Unspaced(WithParas(n))
    decreases n
  {
    hide Pieces, TrimParas, IsDropped;
    var mapped := WithParasAll(n.elems);
    forall k | 0 <= k < |mapped|
      ensures Unspaced(mapped[k])
    {
      if n.elems[k].Node? {
        ParasUnspaced(n.elems[k]);
      }
    }
    UnspacedChildWise();
    ParaLevelAll(Unspaced, Unspaced, mapped);
    var r := ParaLevel(mapped);
    assert forall k :: 0 <= k < |r| ==> Unspaced(r[k]);
  }

  predicate Fine(o: Ltrf.Obj) { !ElemThrows(o) }

  lemma FinePara(es: seq<Ltrf.Obj>)
    requires All(Fine, es)
    ensures Fine(MakePara(es))
  {
    var para := MakePara(es);
    forall k | 0 <= k < |para.elems|
      ensures !ElemThrows(para.elems[k])
    {
      assert Fine(es[k]);
    }
    assert !Throws(para);
    assert !HasBadBlock(para);
  }

  lemma FineTrim(o: Ltrf.Obj)
    requires Fine(o)
    ensures Fine(TrimPara(o))
  {
    hide Trim, IsBreakMarker, HasBadBlock;
    if IsPara(o) {
      TrimmedHolds(o.elems);
      var t := TrimPara(o);
      forall k | 0 <= k < |t.elems|
        ensures !ElemThrows(t.elems[k])
      {
        assert t.elems[k] in o.elems;
        var j :| 0 <= j < |o.elems| && o.elems[j] == t.elems[k];
        assert !Throws(o);
      }
      assert !Throws(t);
      SameElemTrouble(o, t);
      assert ElemThrows(t) ==> ElemThrows(o);
    }
  }

  lemma SameElemTrouble(a: Ltrf.Obj, b: Ltrf.Obj)
    requires a.Node? && b.Node? && a.tag == b.tag && a.kv == b.kv
    ensures IsBreakMarker(a) == IsBreakMarker(b) && HasBadBlock(a) == HasBadBlock(b)
  {
  }

  lemma FineChildWise()
    ensures Wraps(Fine, Fine) && SurvivesTrim(Fine)
  {
    hide Fine, MakePara, TrimPara;
    forall es | All(Fine, es)
      ensures Fine(MakePara(es))
    {
      FinePara(es);
    }
    forall o | Fine(o)
      ensures Fine(TrimPara(o))
    {
      FineTrim(o);
    }
  }

  /** What the paragraph pass returns it also accepts. */
  lemma {:induction false} ParasThrowNoMore(n: Ltrf.Obj)
    requires n.Node? && !Throws(n)
    ensures !Throws(WithParas(n))
    decreases n
  {
    hide Pieces, TrimParas, ElemThrows;
    var mapped := WithParasAll(n.elems);
    forall k | 0 <= k < |mapped|
      ensures Fine(mapped[k])
    {
      assert !ElemThrows(n.elems[k]);
      if n.elems[k].Node? {
        FineNode(n.elems[k]);
        ParasThrowNoMore(n.elems[k]);
        SameElemThrows(n.elems[k], mapped[k]);
      }
    }
    FineChildWise();
    ParaLevelAll(Fine, Fine, mapped);
    var r := ParaLevel(mapped);
    assert forall k :: 0 <= k < |r| ==> Fine(r[k]);
  }

  lemma FineNode(o: Ltrf.Obj)
    requires o.Node? && !ElemThrows(o)
    ensures !Throws(o)
  {
  }

  predicate IsNode(o: Ltrf.Obj) { o.Node? }

  lemma {:induction false} RootHasNodes(es: seq<Ltrf.Obj>)
    ensures All(IsDoc, Docs(es)) && All(IsNode, RemElems(Docs(es)))
  {
    hide RemElem;
    if es != [] {
      RootHasNodes(es[1..]);
      if IsDoc(es[0]) {
        NodeStays(es[0]);
        assert Docs(es)[1..] == Docs(es[1..]);
        assert RemElems(Docs(es)) == RemElem(es[0]) + RemElems(Docs(es[1..]));
      } else {
        assert Docs(es) == Docs(es[1..]);
      }
    }
  }

  lemma NodeStays(o: Ltrf.Obj)
    requires o.Node?
    ensures RemElem(o) == [RemWhitespace(o)]
  {
  }

  lemma NodesOnly(n: Ltrf.Obj)
    requires n.Node? && All(IsNode, n.elems)
    ensures All(IsNode, WithBreaks(n).elems) && All(IsNode, WithParas(n).elems)
  {
    hide BreakRuns, Pieces, TrimParas;
    BreakRunsFixed(WithBreaksAll(n.elems), true);
    assert Wraps(IsNode, IsNode) && SurvivesTrim(IsNode);
    ParaLevelAll(IsNode, IsNode, WithParasAll(n.elems));
  }

  lemma {:induction false} DocsOfDocs(es: seq<Ltrf.Obj>)
    requires All(IsNode, es)
    ensures Complaints(es) == [] <==> All(IsDoc, es)
    ensures All(IsDoc, es) ==> Docs(es) == es
  {
    if es != [] {
      DocsOfDocs(es[1..]);
      assert es[0].Node?;
      assert All(IsDoc, es) <==> IsDoc(es[0]) && All(IsDoc, es[1..]);
    }
  }

  /** The tree that the paragraph pass is given. */
  function GivenToParagraphs(root: Ltrf.Obj): (r: Ltrf.Obj)
    requires root.Node?
    ensures r.Node? && r.tag == root.tag
  {
    WithBreaks(RemWhitespace(root.(elems := Docs(root.elems))))
  }

  /** A document, or a paragraph that trimming empties. */
  predicate DocOrGone(o: Ltrf.Obj) { IsDoc(o) || (IsPara(o) && Trim(o.elems) == []) }

  lemma DocsFit()
    ensures ParaHas(IsBlank, DocOrGone) && TrimHas(DocOrGone, IsDoc)
  {
    forall es: seq<Ltrf.Obj> | es != []
      ensures DocOrGone(MakePara(es)) <==> All(IsBlank, es)
    {
      hide Trim, All, IsBlank;
      TrimEmpty(es);
    }
    forall o
      ensures All(IsDoc, TrimOne(o)) <==> DocOrGone(o)
    {
      hide Trim;
      AllOne(IsDoc, TrimPara(o));
    }
  }

  lemma DocAt(es: seq<Ltrf.Obj>, k: nat)
    requires k < |es| && IsDoc(es[k])
    ensures FitsAt(IsBlank, DocOrGone, es, k, false) <==> !Wrapped(es, k, false)
  {
    hide Wrapped;
  }

  /** Documents stay documents exactly when blocks among them come first. */
  lemma DocsStayExactly(es: seq<Ltrf.Obj>)
    requires All(IsDoc, es)
    ensures All(IsDoc, ParaLevel(es)) <==> BlocksFirst(es)
  {
    hide IsDoc, DocOrGone, IsBlank, Wrapped, IsBlock, ParaLevel, FitsAt;
    DocsFit();
    ParaLevelFits(IsBlank, DocOrGone, IsDoc, es);
    forall k | 0 <= k < |es|
      ensures FitsAt(IsBlank, DocOrGone, es, k, false) <==> !Wrapped(es, k, false)
    {
      DocAt(es, k);
    }
    NoneWrapped(es);
  }

  lemma DocIsNoMarker(es: seq<Ltrf.Obj>)
    ensures forall k :: 0 <= k < |es| && IsDoc(es[k]) ==> (IsSeparator(es[k]) <==> IsBlock(es[k]))
  {
  }

  lemma NoneWrapped(es: seq<Ltrf.Obj>)
    requires All(IsDoc, es)
    ensures (forall k :: 0 <= k < |es| ==> !Wrapped(es, k, false)) <==> BlocksFirst(es)
  {
    hide IsDoc, IsBlock, IsSeparator;
    DocIsNoMarker(es);
    if !BlocksFirst(es) {
      var i, j :| 0 <= i < j < |es| && IsBlock(es[j]) && !IsBlock(es[i]);
      assert Followed(es, i) && Wrapped(es, i, false);
    }
  }

  /** The same kind of document in every place. */
  predicate SameDocs(a: seq<Ltrf.Obj>, b: seq<Ltrf.Obj>) {
    |a| == |b| && forall k :: 0 <= k < |a| ==> IsDoc(a[k]) && IsDoc(b[k]) && (IsBlock(a[k]) <==> IsBlock(b[k]))
  }

  lemma SameDoc(a: Ltrf.Obj, b: Ltrf.Obj)
    requires a.Node? && b.Node? && a.tag == b.tag && a.kv == b.kv
    ensures IsDoc(a) == IsDoc(b) && IsBlock(a) == IsBlock(b)
  {
  }

  lemma {:induction false} RemSameDocs(es: seq<Ltrf.Obj>)
    requires All(IsDoc, es)
    ensures SameDocs(es, RemElems(es))
  {
    hide IsBlock, RemElem, RemWhitespace;
    if es != [] {
      assert IsDoc(es[0]);
      NodeStays(es[0]);
      SameDoc(es[0], RemWhitespace(es[0]));
      RemSameDocs(es[1..]);
    }
  }

  lemma BreaksSameDocs(es: seq<Ltrf.Obj>)
    requires All(IsDoc, es)
    ensures SameDocs(es, LineLevel(WithBreaksAll(es)))
  {
    hide IsBlock, BreakRuns, WithBreaks;
    var mapped := WithBreaksAll(es);
    forall k | 0 <= k < |es|
      ensures IsDoc(mapped[k]) && (IsBlock(mapped[k]) <==> IsBlock(es[k])) && !IsNewline(mapped[k])
    {
      assert IsDoc(es[k]);
      SameDoc(es[k], mapped[k]);
    }
    BreakRunsFixed(mapped, true);
  }

  lemma ParasSameDocs(es: seq<Ltrf.Obj>)
    requires All(IsDoc, es)
    ensures SameDocs(es, WithParasAll(es))
  {
    hide IsBlock, WithParas;
    var mapped := WithParasAll(es);
    forall k | 0 <= k < |es|
      ensures IsDoc(mapped[k]) && (IsBlock(mapped[k]) <==> IsBlock(es[k]))
    {
      assert IsDoc(es[k]);
      SameDoc(es[k], mapped[k]);
    }
  }

  /** The root has documents only after the run exactly when it had blocks first. */
  lemma RootStaysExactly(root: Ltrf.Obj)
    requires root.Node?
    ensures All(IsDoc, WithParas(GivenToParagraphs(root)).elems) <==> BlocksFirst(Docs(root.elems))
  {
    hide IsDoc, IsBlock, RemElems, LineLevel, WithBreaksAll, WithParasAll, ParaLevel;
    var docs := Docs(root.elems);
    RootHasNodes(root.elems);
    RemSameDocs(docs);
    BreaksSameDocs(RemElems(docs));
    ParasSameDocs(GivenToParagraphs(root).elems);
    DocsStayExactly(WithParasAll(GivenToParagraphs(root).elems));
  }

  /** What one run leaves. */
  predicate AfterRun(r: Ltrf.Obj) {
    && r.Node? && r.tag == ROOT_TAG
    && Ordered(r) && Settled(r) && !Throws(r) && All(IsNode, r.elems)
  }

  lemma RunLeaves(root: Ltrf.Obj)
    requires root.Node? && ApplyAll(PROCESSING_PASSES, root).Success?
    ensures ApplyAll(PROCESSING_PASSES, root).value == WithParas(GivenToParagraphs(root))
    ensures AfterRun(ApplyAll(PROCESSING_PASSES, root).value)
  {
    hide RemElems, WithBreaks, WithParas, Complaints, Docs, Throws, Settled, Ordered;
    PipelineUnfolds(root);
    var kept := root.(elems := Docs(root.elems));
    var clean := RemWhitespace(kept);
    LinebreakPassSettles(clean);
    var broken := WithBreaks(clean);
    ParagraphPassOrders(broken);
    ParasSettled(broken);
    ParasThrowNoMore(broken);
    RootHasNodes(root.elems);
    NodesOnly(clean);
    NodesOnly(broken);
  }

  lemma SecondRun(r: Ltrf.Obj)
    requires AfterRun(r)
    ensures var again := ApplyAll(PROCESSING_PASSES, r);
            if All(IsDoc, r.elems) then again == Success(WithParas(RemWhitespace(r))) else again.Failure?
  {
    hide RemElems, WithBreaks, WithParas, Complaints, Docs, Throws, Ordered, Settled;
    PipelineThrowsExactly(r);
    PipelineUnfolds(r);
    DocsOfDocs(r.elems);
    if All(IsDoc, r.elems) {
      assert r.(elems := Docs(r.elems)) == r;
      RemSettled(r);
      SettledIsFixed(RemWhitespace(r));
    }
  }

  lemma SecondRunFixesExactly(r: Ltrf.Obj)
    requires AfterRun(r)
    ensures ApplyAll(PROCESSING_PASSES, r) == Success(r) <==> All(IsDoc, r.elems) && Neat(r) && Unspaced(r)
  {
    hide RemElems, WithParas, Ordered, Neat, Settled, Unspaced, ApplyAll, Throws;
    SecondRun(r);
    RemElemUnspaces(r);
    NodeStays(r);
    assert RemElem(r)[0] == RemWhitespace(r);
    ParasUnspaced(RemWhitespace(r));
    FixedExactly(r);
    if Unspaced(r) {
      RemElemFixed(r);
    }
  }

  /** A second run of the middle pass changes nothing exactly when blocks come first
      among the documents, the paragraph pass leaves nothing to itself, and the first
      run leaves no whitespace string that is no newline. */
  lemma SecondRunChangesNothingExactly(root: Ltrf.Obj)
    requires root.Node?
    ensures var once := ApplyAll(PROCESSING_PASSES, root);
            once.Success? ==>
              (ApplyAll(PROCESSING_PASSES, once.value) == once <==>
               BlocksFirst(Docs(root.elems)) && StaysNeat(GivenToParagraphs(root)) && Unspaced(once.value))
  {
    hide WithParas, Neat, StaysNeat, Unspaced, ApplyAll, GivenToParagraphs, AfterRun, Docs, BlocksFirst;
    if ApplyAll(PROCESSING_PASSES, root).Success? {
      RunLeaves(root);
      SecondRunFixesExactly(ApplyAll(PROCESSING_PASSES, root).value);
      RootStaysExactly(root);
      NeatAfterPassExactly(GivenToParagraphs(root));
    }
  }

  lemma {:induction false} FreshBlocks(n: Ltrf.Obj)
    requires Fresh(n)
    ensures NoParasBelow(n)
    decreases n
  {
    hide IsPara, IsBreakMarker;
    if n.Node? {
      forall k | 0 <= k < |n.elems|
        ensures NoParasBelow(n.elems[k])
      {
        FreshBlocks(n.elems[k]);
      }
    }
  }

  /** Without paragraphs and markers to begin with, all of it can be read off the
      documents and their segmentation. */
  lemma SecondRunOfFreshExactly(root: Ltrf.Obj)
    requires root.Node? && Fresh(root)
    ensures var docs := Docs(root.elems); var once := ApplyAll(PROCESSING_PASSES, root);
            once.Success? ==>
              (ApplyAll(PROCESSING_PASSES, once.value) == once <==>
               BlocksFirst(docs) && Unspaced(Segment(root.(elems := docs))))
  {
    hide StaysNeat, Unspaced, ApplyAll, GivenToParagraphs, Docs, BlocksFirst, Segment, Fresh;
    SecondRunChangesNothingExactly(root);
    PipelineSegments(root);
    FreshStaysNeat(root);
  }

  lemma FreshStaysNeat(root: Ltrf.Obj)
    requires root.Node? && Fresh(root)
    ensures StaysNeat(GivenToParagraphs(root))
  {
    hide StaysNeat, Docs, Fresh, WithBreaks, RemWhitespace, ParasAreBlocks;
    var kept := root.(elems := Docs(root.elems));
    DocsFresh(root.elems);
    FreshPart(root, kept);
    FreshBlocks(kept);
    RemNoParas(kept);
    BreaksNoParas(RemWhitespace(kept));
    NoParasAreBlocks(GivenToParagraphs(root));
    BlocksStayNeat(GivenToParagraphs(root));
  }

  lemma {:induction false} RemNoParas(n: Ltrf.Obj)
    requires n.Node? && NoParasBelow(n)
    ensures NoParasBelow(RemWhitespace(n))
    decreases n
  {
    hide RemElems, IsPara;
    var es := RemElems(n.elems);
    forall k | 0 <= k < |es|
      ensures !IsPara(es[k]) && NoParasBelow(es[k])
    {
      RemHolds(n.elems, es[k]);
      if !(es[k] in n.elems) {
        var o :| o in n.elems && o.Node? && es[k] == RemWhitespace(o);
        RemNoParas(o);
        SameKind(o, es[k]);
      }
    }
  }

  predicate NoPara(o: Ltrf.Obj) { !IsPara(o) && NoParasBelow(o) }

  lemma {:induction false} BreakRunsNoParas(es: seq<Ltrf.Obj>, leading: bool)
    requires All(NoPara, es)
    ensures All(NoPara, BreakRuns(es, leading))
    decreases |es|
  {
    hide NoPara, IsNewline, BREAK_MARKER, SPACE;
    if es != [] {
      MarksAreNoParas();
      var k := RunLength(es);
      BreakRunsNoParas(if k == 0 then es[1..] else es[k..], false);
    }
  }

  lemma MarksAreNoParas()
    ensures NoPara(BREAK_MARKER) && NoPara(SPACE)
  {
  }

  lemma {:induction false} BreaksNoParas(n: Ltrf.Obj)
    requires n.Node? && NoParasBelow(n)
    ensures NoParasBelow(WithBreaks(n))
    decreases n
  {
    hide BreakRuns, IsPara;
    var mapped := WithBreaksAll(n.elems);
    forall k | 0 <= k < |mapped|
      ensures NoPara(mapped[k])
    {
      if n.elems[k].Node? {
        BreaksNoParas(n.elems[k]);
        SameKind(n.elems[k], mapped[k]);
      } else {
        StringsHaveNoParas(n.elems[k]);
      }
    }
    BreakRunsNoParas(mapped, true);
    var r := LineLevel(mapped);
    assert forall k :: 0 <= k < |r| ==> NoPara(r[k]);
  }

  lemma StringsHaveNoParas(o: Ltrf.Obj)
    ensures o.Str? ==> NoPara(o)
  {
  }

  function DocRoot(es: seq<Ltrf.Obj>): Ltrf.Obj {
    Node(ROOT_TAG, map[], [Node(DOC_TAG, map[], es)])
  }

  lemma DocRootBroken(a: Ltrf.Obj, b: Ltrf.Obj)
    requires a.Str? && b.Str? && !IsNewline(a) && !IsNewline(b)
    ensures WithBreaks(DocRoot([a, NEWLINE, b])) == DocRoot([a, SPACE, b])
  {
    hide IsNewline, SPACE, BREAK_MARKER;
    var es := [a, NEWLINE, b];
    assert IsNewline(NEWLINE) by {
      NewlineIsNewline();
    }
    BreakRunsOne(es, true);
    assert es[1..] == [NEWLINE, b] && es[1..][1..] == [b] && [b][1..] == [];
    BreakRunsOne([NEWLINE, b], false);
    BreakRunsOne([b], false);
    assert BreakRuns([], false) == [];
    assert BreakRuns(es, true) == [a, SPACE, b];
    assert WithBreaksAll(es) == es;
    assert WithBreaks(Node(DOC_TAG, map[], es)) == Node(DOC_TAG, map[], [a, SPACE, b]);
    assert WithBreaksAll(DocRoot(es).elems) == DocRoot([a, SPACE, b]).elems;
  }

  lemma NewlineIsNewline()
    ensures IsNewline(NEWLINE)
  {
  }

  lemma StringIsInline(o: Ltrf.Obj)
    requires o.Str?
    ensures !IsBlock(o) && !IsBreakMarker(o) && !IsPara(o)
  {
  }

  lemma DocIsInline(doc: Ltrf.Obj)
    requires IsDoc(doc) && doc.kv == map[]
    ensures !IsBlock(doc) && !IsBreakMarker(doc) && !IsPara(doc)
  {
  }

  lemma DocRootShape(es: seq<Ltrf.Obj>)
    requires forall k :: 0 <= k < |es| ==> es[k].Str?
    ensures Ordered(DocRoot(es)) && Neat(DocRoot(es)) && All(IsDoc, DocRoot(es).elems)
  {
    hide IsBlock, IsBreakMarker, IsPara;
    var doc := Node(DOC_TAG, map[], es);
    forall k | 0 <= k < |es|
      ensures !IsBlock(es[k]) && !IsBreakMarker(es[k]) && !IsPara(es[k])
    {
      StringIsInline(es[k]);
    }
    assert Ordered(doc) && Neat(doc);
    DocIsInline(doc);
    assert DocRoot(es).elems == [doc];
  }

  lemma DocRootNeverThrows(es: seq<Ltrf.Obj>)
    requires forall k :: 0 <= k < |es| ==> es[k].Str?
    ensures !Throws(DocRoot(es))
  {
    hide IsBreakMarker;
    var doc := Node(DOC_TAG, map[], es);
    forall k | 0 <= k < |es|
      ensures !ElemThrows(es[k])
    {
      StringNeverThrows(es[k]);
    }
    assert !Throws(doc);
    assert !HasBadBlock(doc);
    assert !ElemThrows(doc);
    var n := DocRoot(es);
    forall k | 0 <= k < |n.elems|
      ensures !ElemThrows(n.elems[k])
    {
      assert n.elems[k] == doc;
    }
    assert !Throws(n);
  }

  lemma DocRootUnspaced(es: seq<Ltrf.Obj>)
    requires forall k :: 0 <= k < |es| ==> es[k].Str?
    ensures Unspaced(DocRoot(es)) <==> forall k :: 0 <= k < |es| ==> !IsDropped(es[k])
  {
    hide IsDropped;
    var doc := DocRoot(es).elems[0];
    assert Unspaced(doc) <==> forall k :: 0 <= k < |es| ==> !IsDropped(es[k]) by {
      forall k | 0 <= k < |es|
        ensures Unspaced(es[k]) <==> !IsDropped(es[k])
      {
        DroppedExactly(es[k]);
      }
    }
  }

  lemma DocRootFacts(a: Ltrf.Obj, b: Ltrf.Obj, c: Ltrf.Obj)
    requires a.Str? && b.Str? && c.Str?
    ensures var n := DocRoot([a, b, c]);
            Ordered(n) && Neat(n) && All(IsDoc, n.elems) && !Throws(n)
            && (Unspaced(n) <==> !IsDropped(a) && !IsDropped(b) && !IsDropped(c))
  {
    hide IsDropped, Ordered, Neat, Throws, Unspaced;
    var es := [a, b, c];
    DocRootShape(es);
    DocRootNeverThrows(es);
    DocRootUnspaced(es);
    assert es[0] == a && es[1] == b && es[2] == c;
  }

  /** Two words with a newline between them: the first run makes it a space, and the
      second one drops the space. */
  lemma SecondRunDropsSpaces(a: string, b: string)
    requires !IsWhitespace(a) && !IsWhitespace(b)
    ensures var once := Success(DocRoot([Str(a), SPACE, Str(b)]));
            && ApplyAll(PROCESSING_PASSES, DocRoot([Str(a), NEWLINE, Str(b)])) == once
            && ApplyAll(PROCESSING_PASSES, once.value) != once
  {
    hide RemElems, WithBreaks, WithParas, Ordered, Neat, StaysNeat, Throws, Unspaced, Complaints, Docs, IsWhitespace;
    var root, r := DocRoot([Str(a), NEWLINE, Str(b)]), DocRoot([Str(a), SPACE, Str(b)]);
    SpaceIsWhitespace();
    DocRootFacts(Str(a), NEWLINE, Str(b));
    DocRootFacts(Str(a), SPACE, Str(b));
    PipelineThrowsExactly(root);
    PipelineUnfolds(root);
    DocsOfDocs(root.elems);
    assert root.(elems := Docs(root.elems)) == root;
    RemElemFixed(root);
    NodeStays(root);
    assert RemElem(root)[0] == RemWhitespace(root);
    DocRootBroken(Str(a), Str(b));
    NeatIsFixed(r);
    SecondRunChangesNothingExactly(root);
  }
}
