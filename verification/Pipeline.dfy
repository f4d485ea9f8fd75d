/** From source to processed tree. */
module Pipeline {
  import opened Ltrf
  import opened RemoveWhitespace
  import opened Linebreaks
  import opened Paragraphs
  import opened Process
  import opened Segmentation
  import opened ChildWise
  import opened Shape
  import opened ParagraphsTwice
  import opened Evaluate
  import Ast
  import Parser

  predicate AnyThrows(es: seq<Ltrf.Obj>) {
    exists k :: 0 <= k < |es| && ElemThrows(es[k])
  }

  lemma AnyConcat(a: seq<Ltrf.Obj>, b: seq<Ltrf.Obj>)
    ensures AnyThrows(a + b) <==> AnyThrows(a) || AnyThrows(b)
  {
    hide ElemThrows;
    var ab := a + b;
    if AnyThrows(a) {
      var k :| 0 <= k < |a| && ElemThrows(a[k]);
      assert ab[k] == a[k];
    }
    if AnyThrows(b) {
      var k :| 0 <= k < |b| && ElemThrows(b[k]);
      assert ab[|a| + k] == b[k];
    }
  }

  lemma AnyOne(o: Ltrf.Obj)
    ensures AnyThrows([o]) <==> ElemThrows(o)
  {
    hide ElemThrows;
    assert [o][0] == o;
  }

  lemma AnySplit(es: seq<Ltrf.Obj>)
    requires es != []
    ensures AnyThrows(es) <==> ElemThrows(es[0]) || AnyThrows(es[1..])
  {
    hide ElemThrows;
    assert es == [es[0]] + es[1..];
    AnyConcat([es[0]], es[1..]);
    AnyOne(es[0]);
  }

  lemma MarksNeverThrow()
    ensures !ElemThrows(SPACE) && !ElemThrows(BREAK_MARKER) && !ElemThrows(NEWLINE)
  {
    assert !Throws(BREAK_MARKER);
  }

  lemma {:induction false} RemThrows(es: seq<Ltrf.Obj>)
    ensures AnyThrows(RemElems(es)) <==> AnyThrows(es)
    decreases es
  {
    hide ElemThrows, IsDropped, RemWhitespace;
    if es != [] {
      AnySplit(es);
      RemThrows(es[1..]);
      AnyConcat(RemElem(es[0]), RemElems(es[1..]));
      RemElemThrows(es[0]);
    }
  }

  lemma {:induction false} RemElemThrows(o: Ltrf.Obj)
    ensures AnyThrows(RemElem(o)) <==> ElemThrows(o)
    decreases o
  {
    if o.Node? {
      RemThrows(o.elems);
      AnyOne(RemWhitespace(o));
    } else {
      AnyOne(o);
    }
  }

  lemma {:induction false} RunThrowsNot(es: seq<Ltrf.Obj>)
    ensures AnyThrows(es) <==> AnyThrows(es[RunLength(es)..])
    decreases |es|
  {
    hide ElemThrows, IsNewline;
    if RunLength(es) > 0 {
      AnySplit(es);
      NewlineNeverThrows(es[0]);
      RunThrowsNot(es[1..]);
      assert es[1..][RunLength(es[1..])..] == es[RunLength(es)..];
    } else {
      assert es[0..] == es;
    }
  }

  lemma NewlineNeverThrows(o: Ltrf.Obj)
    requires IsNewline(o)
    ensures !ElemThrows(o)
  {
  }

  lemma {:induction false} BreakRunsThrow(es: seq<Ltrf.Obj>, leading: bool)
    ensures AnyThrows(BreakRuns(es, leading)) <==> AnyThrows(es)
    decreases |es|
  {
    hide ElemThrows, IsNewline, BREAK_MARKER, SPACE, RunLength;
    if es != [] {
      var k := RunLength(es);
      if k == 0 {
        BreakRunsThrow(es[1..], false);
        AnySplit(es);
        AnyConcat([es[0]], BreakRuns(es[1..], false));
        AnyOne(es[0]);
      } else {
        RunThrowsNot(es);
        BreakRunsThrow(es[k..], false);
        MarksNeverThrow();
        AnyConcat((if k >= 2 && !leading then [BREAK_MARKER] else []) + [SPACE], BreakRuns(es[k..], false));
      }
    }
  }

  lemma {:induction false} BreaksThrow(n: Ltrf.Obj)
    requires n.Node?
    ensures Throws(WithBreaks(n)) <==> Throws(n)
    decreases n
  {
    hide ElemThrows, BreakRuns;
    var mapped := WithBreaksAll(n.elems);
    forall k | 0 <= k < |mapped|
      ensures ElemThrows(mapped[k]) <==> ElemThrows(n.elems[k])
    {
      if n.elems[k].Node? {
        BreaksThrow(n.elems[k]);
        SameElemThrows(n.elems[k], mapped[k]);
      }
    }
    BreakRunsThrow(mapped, true);
    assert Throws(WithBreaks(n)) <==> AnyThrows(LineLevel(mapped));
    assert Throws(n) <==> AnyThrows(n.elems);
  }

  lemma SameElemThrows(a: Ltrf.Obj, b: Ltrf.Obj)
    requires a.Node? && b.Node? && a.tag == b.tag && a.kv == b.kv && (Throws(a) <==> Throws(b))
    ensures ElemThrows(a) <==> ElemThrows(b)
  {
  }

  lemma {:induction false} DocsThrow(es: seq<Ltrf.Obj>)
    requires Complaints(es) == []
    ensures AnyThrows(Docs(es)) <==> AnyThrows(es)
    decreases |es|
  {
    hide ElemThrows, IsWhitespace;
    if es != [] {
      AnySplit(es);
      DocsThrow(es[1..]);
      AnyConcat(if IsDoc(es[0]) then [es[0]] else [], Docs(es[1..]));
      AnyOne(es[0]);
      StringNeverThrows(es[0]);
    }
  }

  lemma StringNeverThrows(o: Ltrf.Obj)
    ensures o.Str? ==> !ElemThrows(o)
  {
  }

  /** The middle pass throws exactly when the root is not a `__root` of whitespace
      and documents, or some node below it has a bad `isBlock` entry. */
  lemma PipelineThrowsExactly(root: Ltrf.Obj)
    requires root.Node?
    ensures ApplyAll(PROCESSING_PASSES, root).Success? <==>
            root.tag == ROOT_TAG && Complaints(root.elems) == [] && !Throws(root)
  {
    hide RemElems, WithBreaks, WithParas, Complaints, Docs, ElemThrows, RemElem;
    PipelineUnfolds(root);
    if ProcessRoot(root).Success? {
      var kept := ProcessRoot(root).value;
      DocsThrow(root.elems);
      assert Throws(kept) <==> AnyThrows(kept.elems);
      assert Throws(root) <==> AnyThrows(root.elems);
      RemThrows(kept.elems);
      var clean := RemWhitespace(kept);
      assert Throws(clean) <==> AnyThrows(clean.elems);
      BreaksThrow(clean);
    }
  }

  /** At every depth, a node that is no break marker says whether it is a block with a
      boolean, with null, or not at all. */
  predicate BlocksSaid(o: Ltrf.Obj)
    decreases o
  {
    o.Node? ==>
      forall k :: 0 <= k < |o.elems| && o.elems[k].Node? ==>
        && BlocksSaid(o.elems[k])
        && (o.elems[k].tag == "__para_br_marker" || !("isBlock" in o.elems[k].kv && o.elems[k].kv["isBlock"].VOther?))
  }

  lemma {:induction false} ThrowsExactly(n: Ltrf.Obj)
    requires n.Node?
    ensures Throws(n) <==> !BlocksSaid(n)
    decreases n
  {
    forall k | 0 <= k < |n.elems| && n.elems[k].Node?
      ensures ElemThrows(n.elems[k]) <==>
              !(BlocksSaid(n.elems[k]) &&
                (n.elems[k].tag == "__para_br_marker" ||
                 !("isBlock" in n.elems[k].kv && n.elems[k].kv["isBlock"].VOther?)))
    {
      ThrowsExactly(n.elems[k]);
    }
  }

  /** What may stand in a root: whitespace, and documents. */
  predicate MayStandInRoot(o: Ltrf.Obj) {
    if o.Str? then IsWhitespace(o.s) else o.tag == "__doc"
  }

  /** What is said about a child that may not stand in a root. */
  predicate Blamed(o: Ltrf.Obj, error: string) {
    && !MayStandInRoot(o)
    && error == if o.Str? then "__root has string that isn't whitespace -- probably a mistake."
                else "__root has Node that isn't __doc -- probably a mistake."
  }

  lemma ComplaintExactly(o: Ltrf.Obj)
    ensures Complaint(o) == [] <==> MayStandInRoot(o)
    ensures !MayStandInRoot(o) ==> Blamed(o, Complaint(o)[0])
  {
  }

  lemma {:induction false} ComplaintsExactly(es: seq<Ltrf.Obj>)
    ensures Complaints(es) == [] <==> forall k :: 0 <= k < |es| ==> MayStandInRoot(es[k])
  {
    hide MayStandInRoot, Complaint;
    if es != [] {
      ComplaintExactly(es[0]);
      ComplaintsExactly(es[1..]);
      assert es == [es[0]] + es[1..];
    }
  }

  lemma {:induction false} FirstComplaint(es: seq<Ltrf.Obj>, k: nat)
    requires k < |es| && !MayStandInRoot(es[k]) && forall j :: 0 <= j < k ==> MayStandInRoot(es[j])
    ensures Complaints(es) != [] && Blamed(es[k], Complaints(es)[0])
  {
    hide MayStandInRoot, Blamed, Complaint;
    ComplaintExactly(es[0]);
    if k > 0 {
      FirstComplaint(es[1..], k - 1);
    }
  }

  /** The error of the first pass is about the root's tag, or else about the first child
      that may not stand there. */
  lemma RootErrorExactly(root: Ltrf.Obj, error: string)
    requires root.Node?
    ensures ProcessRoot(root) == Failure(error) <==>
            if root.tag != "__root" then error == "Expected __root node."
            else exists k :: 0 <= k < |root.elems| && Blamed(root.elems[k], error)
                             && forall j :: 0 <= j < k ==> MayStandInRoot(root.elems[j])
  {
    hide Complaints, Docs, MayStandInRoot, Blamed;
    ComplaintsExactly(root.elems);
    forall k | 0 <= k < |root.elems|
      ensures forall e :: Blamed(root.elems[k], e) ==> !MayStandInRoot(root.elems[k])
    {
      BlamedIsWrong(root.elems[k]);
    }
    if Complaints(root.elems) != [] {
      var k := FirstWrong(root.elems);
      FirstComplaint(root.elems, k);
      assert forall e :: Blamed(root.elems[k], e) ==> e == Complaints(root.elems)[0] by {
        OneBlame(root.elems[k], Complaints(root.elems)[0]);
      }
    }
  }

  lemma OneBlame(o: Ltrf.Obj, error: string)
    requires Blamed(o, error)
    ensures forall other :: Blamed(o, other) ==> other == error
  {
  }

  lemma BlamedIsWrong(o: Ltrf.Obj)
    ensures forall error :: Blamed(o, error) ==> !MayStandInRoot(o)
  {
  }

  lemma FirstWrong(es: seq<Ltrf.Obj>) returns (k: nat)
    requires exists i :: 0 <= i < |es| && !MayStandInRoot(es[i])
    ensures k < |es| && !MayStandInRoot(es[k]) && forall j :: 0 <= j < k ==> MayStandInRoot(es[j])
  {
    hide MayStandInRoot;
    k := 0;
    while MayStandInRoot(es[k])
      invariant k < |es| && forall j :: 0 <= j < k ==> MayStandInRoot(es[j])
      decreases |es| - k
    {
      k := k + 1;
    }
  }

  /** The middle pass accepts exactly the roots of whitespace and documents, with nothing
      but booleans and nulls for `isBlock` below them. */
  lemma MiddlePassAcceptsExactly(root: Ltrf.Obj)
    requires root.Node?
    ensures ApplyAll(PROCESSING_PASSES, root).Success? <==>
            && root.tag == "__root"
            && (forall k :: 0 <= k < |root.elems| ==> MayStandInRoot(root.elems[k]))
            && BlocksSaid(root)
  {
    hide ApplyAll, Complaints, Throws, BlocksSaid, MayStandInRoot;
    PipelineThrowsExactly(root);
    ComplaintsExactly(root.elems);
    ThrowsExactly(root);
  }

  lemma {:induction false} DocsFresh(es: seq<Ltrf.Obj>)
    ensures forall o :: o in Docs(es) ==> o in es
    decreases |es|
  {
    hide IsDoc;
    if es != [] {
      DocsFresh(es[1..]);
    }
  }

  /** On a tree without paragraphs and break markers, the middle pass keeps the
      documents of the root and segments every list of children below it. */
  lemma PipelineSegments(root: Ltrf.Obj)
    requires root.Node? && Fresh(root)
    ensures var r := ApplyAll(PROCESSING_PASSES, root);
            r.Success? ==> r.value == Segment(root.(elems := Docs(root.elems)))
  {
    hide RemWhitespace, WithBreaks, WithParas, Complaints, Docs, Throws, Segment, IsPara, IsBreakMarker;
    PipelineUnfolds(root);
    if ProcessRoot(root).Success? {
      var kept := root.(elems := Docs(root.elems));
      DocsFresh(root.elems);
      FreshPart(root, kept);
      PassesSegment(kept);
    }
  }

  lemma FreshPart(n: Ltrf.Obj, part: Ltrf.Obj)
    requires n.Node? && part.Node? && Fresh(n) && forall o :: o in part.elems ==> o in n.elems
    ensures Fresh(part)
  {
    hide IsPara, IsBreakMarker;
    forall k | 0 <= k < |part.elems|
      ensures !IsPara(part.elems[k]) && !IsBreakMarker(part.elems[k]) && Fresh(part.elems[k])
    {
      assert part.elems[k] in part.elems;
      var j :| 0 <= j < |n.elems| && n.elems[j] == part.elems[k];
    }
  }

  /** A string that holds a newline holds nothing else. */
  predicate TidyString(s: string) { '\n' in s ==> s == "\n" }

  /** All strings of a tree are tidy. */
  predicate Tidy(o: Ltrf.Obj)
    decreases o
  {
    if o.Str? then TidyString(o.s) else forall k :: 0 <= k < |o.elems| ==> Tidy(o.elems[k])
  }

  predicate HasNewline(o: Ltrf.Obj) { o.Str? && '\n' in o.s }

  predicate NoneHasNewline(es: seq<Ltrf.Obj>) {
    forall k :: 0 <= k < |es| ==> !HasNewline(es[k])
  }

  /** A list whose strings hold a newline only if it is a single newline. */
  predicate LoneList(es: seq<Ltrf.Obj>) {
    NoneHasNewline(es) || es == [NEWLINE]
  }

  /** Strings with newlines are single newlines, alone in their node. */
  predicate Lone(o: Ltrf.Obj)
    decreases o
  {
    o.Node? ==> LoneList(o.elems) && forall k :: 0 <= k < |o.elems| ==> Lone(o.elems[k])
  }

  /** ...and their node is no paragraph. */
  predicate LoneOutsideParas(o: Ltrf.Obj)
    decreases o
  {
    o.Node? ==>
      && (if IsPara(o) then NoneHasNewline(o.elems) else LoneList(o.elems))
      && forall k :: 0 <= k < |o.elems| ==> LoneOutsideParas(o.elems[k])
  }

  predicate TidyFresh(o: Ltrf.Obj) { Tidy(o) && Fresh(o) }

  lemma {:induction false} RemTidy(n: Ltrf.Obj)
    requires n.Node? && TidyFresh(n)
    ensures TidyFresh(RemWhitespace(n))
    decreases n, 1
  {
    RemElemsTidy(n.elems);
    var es := RemElems(n.elems);
    assert forall k :: 0 <= k < |es| ==> es[k] in es;
  }

  lemma {:induction false} RemElemsTidy(es: seq<Ltrf.Obj>)
    requires forall k :: 0 <= k < |es| ==> TidyFresh(es[k]) && !IsPara(es[k]) && !IsBreakMarker(es[k])
    ensures forall o :: o in RemElems(es) ==> TidyFresh(o) && !IsPara(o) && !IsBreakMarker(o)
    decreases es, 0
  {
    hide IsPara, IsBreakMarker, TidyFresh, IsDropped, RemWhitespace;
    if es != [] {
      RemElemsTidy(es[1..]);
      if es[0].Node? {
        RemTidy(es[0]);
        SameKind(es[0], RemWhitespace(es[0]));
      }
    }
  }

  lemma TidyNewline(o: Ltrf.Obj)
    requires Tidy(o)
    ensures HasNewline(o) ==> IsNewline(o)
  {
  }

  lemma {:induction false} BreaksLone(n: Ltrf.Obj)
    requires n.Node? && TidyFresh(n)
    ensures Lone(WithBreaks(n)) && NoParasBelow(WithBreaks(n))
    decreases n
  {
    hide BreakRuns, IsPara, IsBreakMarker, HasNewline, BREAK_MARKER, SPACE, Tidy;
    var mapped := WithBreaksAll(n.elems);
    TidyChildren(n);
    forall k | 0 <= k < |mapped|
      ensures (mapped[k].Node? ==> Lone(mapped[k]) && NoParasBelow(mapped[k]))
      ensures !IsPara(mapped[k]) && (HasNewline(mapped[k]) ==> mapped[k] == NEWLINE) && Lone(mapped[k])
    {
      if n.elems[k].Node? {
        BreaksLone(n.elems[k]);
        SameKind(n.elems[k], mapped[k]);
        NodeHasNone(mapped[k]);
      } else {
        TidyNewline(n.elems[k]);
        NewlineMeans(n.elems[k]);
      }
    }
    if |mapped| > 1 {
      BreakRunsClearMapped(mapped, true);
      var r := BreakRuns(mapped, true);
      assert WithBreaks(n).elems == r;
    } else {
      assert NoneHasNewline(mapped) || mapped == [NEWLINE];
    }
  }

  lemma NodeHasNone(o: Ltrf.Obj)
    requires o.Node?
    ensures !HasNewline(o)
  {
  }

  lemma NewlineMeans(o: Ltrf.Obj)
    ensures IsNewline(o) ==> o == NEWLINE
  {
  }

  lemma TidyChildren(n: Ltrf.Obj)
    requires n.Node? && TidyFresh(n)
    ensures forall k :: 0 <= k < |n.elems| ==> TidyFresh(n.elems[k]) && !IsPara(n.elems[k]) && Tidy(n.elems[k])
  {
    hide IsPara, IsBreakMarker;
  }

  /** What breaking makes of children that are lone already. */
  lemma {:induction false} BreakRunsClearMapped(es: seq<Ltrf.Obj>, leading: bool)
    requires forall k :: 0 <= k < |es| ==>
               !IsPara(es[k]) && (HasNewline(es[k]) ==> es[k] == NEWLINE) && Lone(es[k])
               && (es[k].Node? ==> NoParasBelow(es[k]))
    ensures forall o :: o in BreakRuns(es, leading) ==>
              !HasNewline(o) && !IsPara(o) && Lone(o) && NoParasBelow(o)
    decreases |es|
  {
    hide IsNewline, IsPara, HasNewline, Lone, NoParasBelow, BREAK_MARKER, SPACE, NEWLINE;
    if es != [] {
      MarksAreLone();
      var k := RunLength(es);
      StringsAreLone(es[0]);
      BreakRunsClearMapped(if k == 0 then es[1..] else es[k..], false);
    }
  }

  lemma MarksAreLone()
    ensures forall o :: o in [SPACE, BREAK_MARKER] ==> !HasNewline(o) && !IsPara(o) && Lone(o) && NoParasBelow(o)
    ensures IsNewline(NEWLINE)
  {
  }

  lemma StringsAreLone(o: Ltrf.Obj)
    ensures o.Str? ==> Lone(o) && NoParasBelow(o)
  {
  }

  /** A child that brings no newline into the list it is put in. */
  predicate Quiet(o: Ltrf.Obj) { !HasNewline(o) && LoneOutsideParas(o) }

  lemma QuietPara(es: seq<Ltrf.Obj>)
    requires All(Quiet, es)
    ensures Quiet(MakePara(es))
  {
    hide HasNewline;
    assert forall k :: 0 <= k < |es| ==> Quiet(es[k]);
    NodeHasNone(MakePara(es));
  }

  lemma QuietTrim(o: Ltrf.Obj)
    requires Quiet(o)
    ensures Quiet(TrimPara(o))
  {
    hide HasNewline, Trim;
    if IsPara(o) {
      TrimmedHolds(o.elems);
      var t := TrimPara(o);
      NodeHasNone(t);
      forall k | 0 <= k < |t.elems|
        ensures !HasNewline(t.elems[k]) && LoneOutsideParas(t.elems[k])
      {
        assert t.elems[k] in o.elems;
      }
    }
  }

  lemma QuietChildWise()
    ensures Wraps(Quiet, Quiet) && SurvivesTrim(Quiet)
  {
    hide Quiet, TrimPara, MakePara;
    forall es | All(Quiet, es)
      ensures Quiet(MakePara(es))
    {
      QuietPara(es);
    }
    forall o | Quiet(o)
      ensures Quiet(TrimPara(o))
    {
      QuietTrim(o);
    }
  }

  lemma {:induction false} ParasLone(n: Ltrf.Obj)
    requires n.Node? && Lone(n) && NoParasBelow(n) && !IsPara(n)
    ensures LoneOutsideParas(WithParas(n))
    decreases n
  {
    hide Pieces, TrimParas, IsPara, HasNewline, NEWLINE;
    var mapped := WithParasAll(n.elems);
    forall k | 0 <= k < |mapped|
      ensures LoneOutsideParas(mapped[k]) && (HasNewline(mapped[k]) <==> HasNewline(n.elems[k]))
    {
      if n.elems[k].Node? {
        ParasLone(n.elems[k]);
        NodeHasNone(mapped[k]);
        NodeHasNone(n.elems[k]);
      }
    }
    if n.elems == [NEWLINE] {
      NewlineAlone();
    } else {
      assert All(Quiet, mapped);
      QuietChildWise();
      ParaLevelAll(Quiet, Quiet, mapped);
      var r := ParaLevel(mapped);
      assert forall k :: 0 <= k < |r| ==> Quiet(r[k]);
    }
    SameKind(n, WithParas(n));
  }

  lemma NewlineAlone()
    ensures ParaLevel(WithParasAll([NEWLINE])) == [NEWLINE] && LoneOutsideParas(NEWLINE)
  {
    assert WithParasAll([NEWLINE]) == [NEWLINE];
    assert [NEWLINE][1..] == [];
    assert Pieces([NEWLINE], false) == [NEWLINE];
    assert TrimParas([]) == [];
  }

  /** No command makes paragraphs or break markers of its own. */
  predicate PlainEnv(env: Env) {
    forall name :: name in env ==>
      env[name].Drop? || (env[name].tag != PARAGRAPH_TAG && env[name].tag != BREAK_MARKER_TAG)
  }

  /** An evaluated object of a plain environment. */
  predicate Plain(o: Ltrf.Obj) { TidyFresh(o) && !IsPara(o) && !IsBreakMarker(o) }

  predicate AllPlain(es: seq<Ltrf.Obj>) {
    forall k :: 0 <= k < |es| ==> Plain(es[k])
  }

  lemma PlainNode(tag: string, kv: map<string, Value>, es: seq<Ltrf.Obj>)
    requires AllPlain(es) && tag != PARAGRAPH_TAG && tag != BREAK_MARKER_TAG
    ensures Plain(Ltrf.Node(tag, kv, es))
  {
    assert forall k :: 0 <= k < |es| ==> Plain(es[k]);
  }

  lemma PlainText(s: string)
    requires Ast.CanonicalText(s)
    ensures Plain(Str(s))
  {
  }

  lemma {:induction false} EvalNodesPlain(env: Env, ns: seq<Ast.Node>)
    requires PlainEnv(env) && forall k :: 0 <= k < |ns| ==> Ast.CanonicalNode(ns[k])
    ensures var r := EvalNodes(env, ns); r.Success? ==> AllPlain(r.value)
    decreases ns
  {
    hide Plain, EvalCommand, EvalSquares;
    if ns != [] {
      assert Ast.CanonicalNode(ns[0]);
      match ns[0] {
        case Text(content, _) => PlainText(content);
        case Command(_, _, _, _) => EvalCommandPlain(env, ns[0]);
      }
      EvalNodesPlain(env, ns[1..]);
      if EvalNodes(env, ns).Success? {
        PlainConcat(EvalNode(env, ns[0]).value, EvalNodes(env, ns[1..]).value);
      }
    }
  }

  lemma PlainConcat(a: seq<Ltrf.Obj>, b: seq<Ltrf.Obj>)
    requires AllPlain(a) && AllPlain(b)
    ensures AllPlain(a + b)
  {
    hide Plain;
  }

  lemma {:induction false} EvalCommandPlain(env: Env, n: Ast.Node)
    requires PlainEnv(env) && n.Command? && Ast.CanonicalNode(n)
    ensures var r := EvalCommand(env, n); r.Success? ==> AllPlain(r.value)
    decreases n
  {
    hide Plain, EvalSquares, EvalNodes;
    EvalArgsPlain(env, n.curly);
    var r := EvalCommand(env, n);
    if r.Success? {
      var b, args := env[n.name], EvalArgs(env, n.curly).value;
      match b
      case Drop =>
      case Leaf(tag, kv) => PlainNode(tag, kv, []);
      case Wrap(tag, kv) => PlainNode(tag, kv, args[0]);
    }
  }

  lemma {:induction false} EvalArgsPlain(env: Env, args: seq<Ast.CurlyArg>)
    requires PlainEnv(env) && forall k :: 0 <= k < |args| ==> Ast.Canonical(args[k].nodes)
    ensures var r := EvalArgs(env, args); r.Success? ==> forall k :: 0 <= k < |r.value| ==> AllPlain(r.value[k])
    decreases args
  {
    hide AllPlain, EvalNodes;
    if args != [] {
      EvalNodesPlain(env, args[0].nodes);
      EvalArgsPlain(env, args[1..]);
      var r := EvalArgs(env, args);
      if r.Success? {
        var rest := EvalArgs(env, args[1..]).value;
        assert forall k :: 0 < k < |r.value| ==> r.value[k] == rest[k - 1];
      }
    }
  }

  /** Parsing and evaluating gives the middle pass a tree without paragraphs and
      markers, whose strings are single newlines or hold none. */
  lemma EvaluatedIsTidyFresh(s: Parser.Input, env: Env)
    requires PlainEnv(env) && Parser.ParseRoot(s).Ok?
    ensures var e := EvalRoot(env, Parser.ParseRoot(s).value); e.Success? ==> TidyFresh(e.value)
  {
    hide Parser.TextFrom, EvalNodes, Tidy, Fresh;
    var sub := Parser.ParseRoot(s).value.sub;
    EvalNodesPlain(env, sub);
    var e := EvalNodes(env, sub);
    if e.Success? {
      PlainNode(ROOT_TAG, map[], e.value);
    }
  }

  /** From source to processed tree: the documents are segmented by blocks and blank
      lines, and a newline is left in a string only if it is all of that string
      and the only child of a node that is no paragraph. */
  lemma SourceToProcessed(s: Parser.Input, env: Env)
    requires PlainEnv(env) && Parser.ParseRoot(s).Ok?
    ensures var e := EvalRoot(env, Parser.ParseRoot(s).value);
            e.Success? ==>
              var r := ApplyAll(PROCESSING_PASSES, e.value);
              r.Success? ==>
                && r.value == Segment(e.value.(elems := Docs(e.value.elems)))
                && LoneOutsideParas(r.value)
                && Ordered(r.value)
                && Neat(r.value)
                && ParasAreBlocks(r.value)
                && ParasAmongBlocks(r.value)
  {
    hide Parser.ParseRoot, EvalRoot, RemWhitespace, WithBreaks, WithParas, Throws, Segment, Ordered, Neat, Lone,
         ParasAmongBlocks, LoneOutsideParas, NoParasBelow, Complaints, Docs, IsPara, IsBreakMarker, Tidy;
    EvaluatedIsTidyFresh(s, env);
    var e := EvalRoot(env, Parser.ParseRoot(s).value);
    if e.Success? {
      var r := ApplyAll(PROCESSING_PASSES, e.value);
      PipelineSegments(e.value);
      PipelineUnfolds(e.value);
      if r.Success? {
        var kept := e.value.(elems := Docs(e.value.elems));
        DocsFresh(e.value.elems);
        TidyPart(e.value, kept);
        RemTidy(kept);
        BreaksLone(RemWhitespace(kept));
        var broken := WithBreaks(RemWhitespace(kept));
        RootIsNoPara(broken);
        ParasLone(broken);
        NoParasAreBlocks(broken);
        ParagraphPassOrders(broken);
        BlocksStayNeat(broken);
        NeatAfterPassExactly(broken);
        ParasStayBlocks(broken);
        ParagraphsStandAmongBlocks(broken);
      }
    }
  }

  lemma RootIsNoPara(n: Ltrf.Obj)
    requires n.Node? && n.tag == ROOT_TAG
    ensures !IsPara(n)
  {
  }

  lemma TidyPart(n: Ltrf.Obj, part: Ltrf.Obj)
    requires n.Node? && part.Node? && TidyFresh(n) && forall o :: o in part.elems ==> o in n.elems
    ensures TidyFresh(part)
  {
    hide IsPara, IsBreakMarker, Fresh;
    FreshPart(n, part);
    forall k | 0 <= k < |part.elems|
      ensures Tidy(part.elems[k])
    {
      assert part.elems[k] in part.elems;
      var j :| 0 <= j < |n.elems| && n.elems[j] == part.elems[k];
    }
  }

  lemma {:induction false} NoParasAreBlocks(n: Ltrf.Obj)
    requires NoParasBelow(n)
    ensures ParasAreBlocks(n)
    decreases n
  {
    hide IsPara, IsBlock;
    if n.Node? {
      forall k | 0 <= k < |n.elems|
        ensures ParasAreBlocks(n.elems[k])
      {
        NoParasAreBlocks(n.elems[k]);
      }
    }
  }
}
