/** The whole way from source to LaTeX, for the commands of the standard modules. */
module Compile {
  import opened Ltrf
  import opened RemoveWhitespace
  import opened Linebreaks
  import opened Paragraphs
  import opened Process
  import opened ChildWise
  import opened Shape
  import opened Evaluate
  import opened Pipeline
  import opened Latex
  import Ast
  import Parser
  import LatexScan
  import LatexReadBack
  import Segmentation
  import Spans

  const BLOCK: map<string, Value> := map[IS_BLOCK := VBool(true)]

  /** The standard commands that neither count nor change what is in scope. */
  const STANDARD_ENV: Env := map[
    "__doc" := Wrap(DOC_TAG, map[]),
    "title" := Drop,
    "author" := Drop,
    "maketitle" := Leaf("maketitle", BLOCK),
    "sec" := Wrap("sec", BLOCK),
    "subsec" := Wrap("subsec", BLOCK),
    "subsubsec" := Wrap("subsubsec", BLOCK),
    "bf" := Wrap("bold", map[]),
    "it" := Wrap("italic", map[]),
    "bquot" := Wrap("bquot", BLOCK),
    "marginnote" := Wrap("marginnote", map[])
  ]

  predicate GoodBlock(kv: map<string, Value>) { IS_BLOCK in kv ==> !kv[IS_BLOCK].VOther? }

  /** Every tag a command makes can be printed, and is a block or not without doubt. */
  predicate PrintableEnv(t: Table, env: Env) {
    forall name :: name in env ==> env[name].Drop? || (env[name].tag in t && GoodBlock(env[name].kv))
  }

  /** A table for the tags that the passes make themselves. */
  predicate HasParagraphs(t: Table) { PARAGRAPH_TAG in t }

  lemma StandardEnvIsPrintable()
    ensures PlainEnv(STANDARD_ENV) && PrintableEnv(LATEX_TABLE, STANDARD_ENV) && HasParagraphs(LATEX_TABLE)
  {
    hide LATEX_TABLE, STANDARD_ENV;
    forall name | name in STANDARD_ENV && !STANDARD_ENV[name].Drop?
      ensures var b := STANDARD_ENV[name];
              && b.tag != PARAGRAPH_TAG && b.tag != BREAK_MARKER_TAG && b.tag in LATEX_TABLE && GoodBlock(b.kv)
    {
      StandardBehaviour(name);
    }
    ParagraphsArePrinted();
  }

  lemma StandardBehaviour(name: string)
    requires name in STANDARD_ENV && !STANDARD_ENV[name].Drop?
    ensures var b := STANDARD_ENV[name];
            && b.tag != PARAGRAPH_TAG && b.tag != BREAK_MARKER_TAG && b.tag in LATEX_TABLE && GoodBlock(b.kv)
  {
  }

  lemma ParagraphsArePrinted()
    ensures PARAGRAPH_TAG in LATEX_TABLE
  {
  }

  /** Every node is one the table can print, or a break marker. */
  predicate Printable(t: Table, o: Obj)
    decreases o
  {
    o.Node? ==>
      && (o.tag in t || IsBreakMarker(o))
      && GoodBlock(o.kv)
      && forall k :: 0 <= k < |o.elems| ==> Printable(t, o.elems[k])
  }

  predicate AllPrintable(t: Table, es: seq<Obj>) {
    forall k :: 0 <= k < |es| ==> Printable(t, es[k])
  }

  lemma {:induction false} EvalPrintable(t: Table, env: Env, ns: seq<Ast.Node>)
    requires PrintableEnv(t, env)
    ensures EvalNodes(env, ns).Success? ==> AllPrintable(t, EvalNodes(env, ns).value)
    decreases ns
  {
    hide Printable, EvalCommand;
    if ns != [] {
      match ns[0] {
        case Text(content, _) => StringPrintable(t, content);
        case Command(_, _, _, _) => EvalCommandPrintable(t, env, ns[0]);
      }
      EvalPrintable(t, env, ns[1..]);
    }
  }

  lemma StringPrintable(t: Table, s: string)
    ensures Printable(t, Str(s))
  {
  }

  lemma NodePrintable(t: Table, tag: string, kv: map<string, Value>, es: seq<Obj>)
    requires tag in t && GoodBlock(kv) && AllPrintable(t, es)
    ensures Printable(t, Node(tag, kv, es))
  {
    hide GoodBlock, IsBreakMarker;
  }

  lemma {:induction false} EvalCommandPrintable(t: Table, env: Env, n: Ast.Node)
    requires PrintableEnv(t, env) && n.Command?
    ensures EvalCommand(env, n).Success? ==> AllPrintable(t, EvalCommand(env, n).value)
    decreases n
  {
    hide Printable, EvalSquares, EvalNodes, GoodBlock;
    EvalArgsPrintable(t, env, n.curly);
    if EvalCommand(env, n).Success? {
      var args := EvalArgs(env, n.curly).value;
      match env[n.name]
      case Drop =>
      case Leaf(tag, kv) => NodePrintable(t, tag, kv, []);
      case Wrap(tag, kv) => NodePrintable(t, tag, kv, args[0]);
    }
  }

  lemma {:induction false} EvalArgsPrintable(t: Table, env: Env, args: seq<Ast.CurlyArg>)
    requires PrintableEnv(t, env)
    ensures var r := EvalArgs(env, args); r.Success? ==> forall k :: 0 <= k < |r.value| ==> AllPrintable(t, r.value[k])
    decreases args
  {
    hide AllPrintable, EvalNodes, PrintableEnv;
    if args != [] {
      EvalPrintable(t, env, args[0].nodes);
      EvalArgsPrintable(t, env, args[1..]);
      var r := EvalArgs(env, args);
      if r.Success? {
        var rest := EvalArgs(env, args[1..]).value;
        assert forall k :: 0 < k < |r.value| ==> r.value[k] == rest[k - 1];
      }
    }
  }

  lemma SameNodePrintable(t: Table, a: Obj, b: Obj)
    requires a.Node? && b.Node? && a.tag == b.tag && a.kv == b.kv && Printable(t, a) && AllPrintable(t, b.elems)
    ensures Printable(t, b)
  {
    hide GoodBlock;
  }

  lemma {:induction false} RemPrintable(t: Table, es: seq<Obj>)
    requires AllPrintable(t, es)
    ensures AllPrintable(t, RemElems(es))
    decreases es
  {
    hide Printable, IsDropped, RemWhitespace;
    if es != [] {
      RemPrintable(t, es[1..]);
      if es[0].Node? {
        RemNodePrintable(t, es[0]);
      }
    }
  }

  lemma {:induction false} RemNodePrintable(t: Table, o: Obj)
    requires o.Node? && Printable(t, o)
    ensures Printable(t, RemWhitespace(o))
    decreases o
  {
    hide RemElems, GoodBlock;
    RemPrintable(t, o.elems);
    SameNodePrintable(t, o, RemWhitespace(o));
  }

  lemma {:induction false} BreakRunsPrintable(t: Table, es: seq<Obj>, leading: bool)
    requires AllPrintable(t, es)
    ensures AllPrintable(t, BreakRuns(es, leading))
    decreases |es|
  {
    hide Printable, IsNewline, BREAK_MARKER, SPACE;
    if es != [] {
      MarksPrintable(t);
      var k := RunLength(es);
      BreakRunsPrintable(t, if k == 0 then es[1..] else es[k..], false);
    }
  }

  lemma MarksPrintable(t: Table)
    ensures Printable(t, BREAK_MARKER) && Printable(t, SPACE)
  {
  }

  /** The linebreak pass adds nothing but markers and spaces. */
  lemma {:induction false} BreaksPrintable(t: Table, n: Obj)
    requires n.Node? && AllPrintable(t, n.elems)
    ensures AllPrintable(t, WithBreaks(n).elems)
    decreases n
  {
    hide Printable, BreakRuns;
    var mapped := WithBreaksAll(n.elems);
    forall k | 0 <= k < |mapped|
      ensures Printable(t, mapped[k])
    {
      if n.elems[k].Node? {
        PrintableChildren(t, n.elems[k]);
        BreaksPrintable(t, n.elems[k]);
        SameNodePrintable(t, n.elems[k], mapped[k]);
      }
    }
    BreakRunsPrintable(t, mapped, true);
  }

  lemma PrintableChildren(t: Table, o: Obj)
    requires o.Node? && Printable(t, o)
    ensures AllPrintable(t, o.elems)
  {
    hide GoodBlock;
  }

  lemma PrintableChildWise(t: Table)
    requires HasParagraphs(t)
    ensures Wraps(o => Printable(t, o), o => Printable(t, o)) && SurvivesTrim(o => Printable(t, o))
  {
    hide MakePara, TrimPara, Printable;
    var p := o => Printable(t, o);
    forall es | All(p, es)
      ensures p(MakePara(es))
    {
      assert forall k :: 0 <= k < |es| ==> p(es[k]);
      ParaPrintable(t, es);
    }
    forall o | p(o)
      ensures p(TrimPara(o))
    {
      TrimPrintable(t, o);
    }
  }

  lemma ParaPrintable(t: Table, es: seq<Obj>)
    requires HasParagraphs(t) && AllPrintable(t, es)
    ensures Printable(t, MakePara(es))
  {
    NodePrintable(t, PARAGRAPH_TAG, map[IS_BLOCK := VBool(true)], es);
  }

  lemma TrimPrintable(t: Table, o: Obj)
    requires Printable(t, o)
    ensures Printable(t, TrimPara(o))
  {
    hide Trim, GoodBlock;
    if IsPara(o) {
      TrimmedHolds(o.elems);
      PrintableChildren(t, o);
      forall k | 0 <= k < |Trim(o.elems)|
        ensures Printable(t, Trim(o.elems)[k])
      {
        assert Trim(o.elems)[k] in o.elems;
      }
      SameNodePrintable(t, o, TrimPara(o));
    }
  }

  /** The paragraph pass adds nothing but paragraphs. */
  lemma {:induction false} ParasPrintable(t: Table, n: Obj)
    requires n.Node? && HasParagraphs(t) && AllPrintable(t, n.elems)
    ensures AllPrintable(t, WithParas(n).elems)
    decreases n
  {
    hide Printable, Pieces, TrimParas;
    var mapped := WithParasAll(n.elems);
    forall k | 0 <= k < |mapped|
      ensures Printable(t, mapped[k])
    {
      if n.elems[k].Node? {
        PrintableChildren(t, n.elems[k]);
        ParasPrintable(t, n.elems[k]);
        SameNodePrintable(t, n.elems[k], mapped[k]);
      }
    }
    PrintableChildWise(t);
    var p := o => Printable(t, o);
    assert All(p, mapped);
    ParaLevelAll(p, p, mapped);
    var r := ParaLevel(mapped);
    assert forall k :: 0 <= k < |r| ==> p(r[k]);
  }

  /** Without markers, whatever can be printed is. */
  lemma {:induction false} PrintableOutputs(t: Table, es: seq<Obj>)
    requires AllPrintable(t, es) && All(Ordered, es) && NoMarkersIn(es)
    ensures OutputAll(t, es).Success?
    decreases es
  {
    hide Printable, Ordered, IsBreakMarker;
    if es != [] {
      PrintableOutputs(t, es[1..]);
      PrintableOutput(t, es[0]);
    }
  }

  lemma {:induction false} PrintableOutput(t: Table, o: Obj)
    requires Printable(t, o) && Ordered(o) && !IsBreakMarker(o)
    ensures Output(t, o).Success?
    decreases o
  {
    if o.Node? {
      hide GoodBlock;
      PrintableOutputs(t, o.elems);
    }
  }

  /** Printable nodes never make the paragraph pass throw. */
  lemma {:induction false} PrintableNeverThrows(t: Table, n: Obj)
    requires n.Node? && AllPrintable(t, n.elems)
    ensures !Throws(n)
    decreases n
  {
    hide IsBreakMarker;
    forall k | 0 <= k < |n.elems|
      ensures !ElemThrows(n.elems[k])
    {
      assert Printable(t, n.elems[k]);
      if n.elems[k].Node? {
        PrintableNeverThrows(t, n.elems[k]);
      }
    }
  }

  lemma EvaluatedIsPrintable(t: Table, s: Parser.Input, env: Env)
    requires PrintableEnv(t, env) && Parser.ParseRoot(s).Ok? && EvalRoot(env, Parser.ParseRoot(s).value).Success?
    ensures var e := EvalRoot(env, Parser.ParseRoot(s).value).value; AllPrintable(t, e.elems) && e.tag == ROOT_TAG
  {
    hide Parser.ParseRoot, EvalNodes, AllPrintable;
    EvalPrintable(t, env, Parser.ParseRoot(s).value.sub);
  }

  lemma ProcessedIsPrintable(t: Table, root: Obj)
    requires root.Node? && HasParagraphs(t) && AllPrintable(t, root.elems)
    ensures var r := ApplyAll(PROCESSING_PASSES, root); r.Success? ==> AllPrintable(t, r.value.elems)
  {
    hide Printable, RemElems, WithBreaks, WithParas, Docs, Complaints, Throws;
    PipelineUnfolds(root);
    var kept := root.(elems := Docs(root.elems));
    DocsFresh(root.elems);
    assert AllPrintable(t, kept.elems) by {
      forall k | 0 <= k < |kept.elems|
        ensures Printable(t, kept.elems[k])
      {
        assert kept.elems[k] in kept.elems;
        var j :| 0 <= j < |root.elems| && root.elems[j] == kept.elems[k];
      }
    }
    RemPrintable(t, kept.elems);
    BreaksPrintable(t, RemWhitespace(kept));
    ParasPrintable(t, WithBreaks(RemWhitespace(kept)));
  }

  /** A source that parses and evaluates is compiled to LaTeX exactly when its root
      holds nothing but whitespace and documents. The LaTeX is neutral, whatever
      the source says, and reading it gives the content of the processed tree. */
  lemma SourceToLatex(s: Parser.Input, env: Env, t: Table)
    requires PlainEnv(env) && PrintableEnv(t, env) && HasParagraphs(t) && WellNamed(t)
    requires Parser.ParseRoot(s).Ok? && EvalRoot(env, Parser.ParseRoot(s).value).Success?
    ensures var e := EvalRoot(env, Parser.ParseRoot(s).value).value;
            var r := ApplyAll(PROCESSING_PASSES, e);
            && (r.Success? <==> Complaints(e.elems) == [])
            && (r.Success? ==>
                  var out := OutputAll(t, r.value.elems);
                  && out.Success?
                  && LatexScan.Neutral(out.value)
                  && LatexReadBack.ReadItems(t, out.value, 0) ==
                     Spans.Some((LatexReadBack.ContentAll(t, r.value.elems), |out.value|)))
  {
    hide Parser.ParseRoot, EvalRoot, AllPrintable, Neat, Segmentation.Segment, LoneOutsideParas, ParasAmongBlocks,
         Complaints, Throws, WellNamed, LatexScan.Neutral, LatexReadBack.ReadItems, OutputAll;
    EvaluatedIsPrintable(t, s, env);
    var e := EvalRoot(env, Parser.ParseRoot(s).value).value;
    PrintableNeverThrows(t, e);
    PipelineThrowsExactly(e);
    var r := ApplyAll(PROCESSING_PASSES, e);
    if r.Success? {
      SourceToProcessed(s, env);
      ProcessedIsPrintable(t, e);
      PrintableOutputs(t, r.value.elems);
      LatexScan.OutputAllIsNeutral(t, r.value.elems);
      LatexReadBack.OutputIsReadable(t, r.value.elems);
    }
  }
}
