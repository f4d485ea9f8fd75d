/** The text of a document on its way from source to LaTeX and back. */
module EndToEnd {
  import opened Ltrf
  import opened Process
  import opened Conservation
  import opened Shape
  import opened Evaluate
  import opened Pipeline
  import opened Latex
  import opened LatexReadBack
  import opened Compile
  import Segmentation
  import Ast
  import Parser

  /** The characters that are not whitespace. */
  function Bare(s: string): string {
    if s == "" then "" else (if IsSpaceChar(s[0]) then "" else [s[0]]) + Bare(s[1..])
  }

  lemma {:induction false} BareConcat(a: string, b: string)
    ensures Bare(a + b) == Bare(a) + Bare(b)
    decreases |a|
  {
    hide IsSpaceChar;
    if a == "" {
      assert a + b == b;
    } else {
      assert (a + b)[1..] == a[1..] + b;
      BareConcat(a[1..], b);
    }
  }

  lemma {:induction false} BareWhitespace(s: string)
    requires IsWhitespace(s)
    ensures Bare(s) == ""
    decreases |s|
  {
    hide IsSpaceChar;
    if s != "" {
      assert IsWhitespace(s[1..]);
      BareWhitespace(s[1..]);
    }
  }

  /** The characters of decoded LaTeX, whatever groups they are in. */
  function Characters(items: seq<Item>): string
    decreases items
  {
    if items == [] then "" else CharactersOf(items[0]) + Characters(items[1..])
  }

  function CharactersOf(item: Item): string
    decreases item
  {
    match item
    case Ch(c) => [c]
    case Group(_, items) => Characters(items)
  }

  lemma {:induction false} CharactersConcat(a: seq<Item>, b: seq<Item>)
    ensures Characters(a + b) == Characters(a) + Characters(b)
    decreases |a|
  {
    hide CharactersOf;
    if a == [] {
      assert a + b == b;
    } else {
      assert (a + b)[1..] == a[1..] + b;
      CharactersConcat(a[1..], b);
    }
  }

  lemma {:induction false} CharactersOfString(s: string)
    ensures Characters(Chars(s)) == s
    decreases |s|
  {
    if s != "" {
      assert Chars(s)[1..] == Chars(s[1..]);
      CharactersOfString(s[1..]);
    }
  }

  /** What can be seen of a list of trees in its LaTeX. */
  function Seen(t: Table, es: seq<Obj>): string { Bare(Characters(ContentAll(t, es))) }

  function SeenOf(t: Table, o: Obj): string { Bare(Characters(Content(t, o))) }

  lemma SeenStep(t: Table, es: seq<Obj>)
    requires es != []
    ensures Seen(t, es) == SeenOf(t, es[0]) + Seen(t, es[1..])
  {
    hide Bare, Characters, Content;
    CharactersConcat(Content(t, es[0]), ContentAll(t, es[1..]));
    BareConcat(Characters(Content(t, es[0])), Characters(ContentAll(t, es[1..])));
  }

  lemma SeenNothing(t: Table)
    ensures Seen(t, []) == ""
  {
  }

  lemma SeenOne(t: Table, o: Obj)
    ensures Seen(t, [o]) == SeenOf(t, o)
  {
    hide SeenOf, Seen;
    SeenStep(t, [o]);
    SeenNothing(t);
    assert [o][1..] == [];
  }

  lemma {:induction false} SeenConcat(t: Table, a: seq<Obj>, b: seq<Obj>)
    ensures Seen(t, a + b) == Seen(t, a) + Seen(t, b)
    decreases |a|
  {
    hide Seen, SeenOf;
    if a == [] {
      SeenNothing(t);
      assert a + b == b;
    } else {
      SeenStep(t, a);
      SeenStep(t, a + b);
      assert (a + b)[1..] == a[1..] + b;
      SeenConcat(t, a[1..], b);
    }
  }

  lemma SeenString(t: Table, s: string)
    ensures SeenOf(t, Str(s)) == Bare(s)
  {
    CharactersOfString(s);
  }

  lemma BlankLines(items: seq<Item>)
    ensures Bare(Characters(Chars("\n\n") + items + Chars("\n\n"))) == Bare(Characters(items))
  {
    hide Bare, Characters;
    CharactersConcat(Chars("\n\n") + items, Chars("\n\n"));
    CharactersConcat(Chars("\n\n"), items);
    CharactersOfString("\n\n");
    BareConcat("\n\n" + Characters(items), "\n\n");
    BareConcat("\n\n", Characters(items));
    assert IsWhitespace("\n\n");
    BareWhitespace("\n\n");
  }

  lemma OneGroup(tag: string, items: seq<Item>)
    ensures Characters([Group(tag, items)]) == Characters(items)
  {
    assert [Group(tag, items)][1..] == [];
    assert Characters([]) == "";
  }

  /** Of a node, what can be seen of its children, unless it prints without them. */
  lemma SeenNode(t: Table, o: Obj)
    requires o.Node?
    ensures SeenOf(t, o) == if o.tag in t && !t[o.tag].NoCurly? then Seen(t, o.elems) else ""
  {
    hide Bare, ContentAll;
    NothingToSee();
    if o.tag in t {
      if t[o.tag].NoCurly? {
        OneGroup(o.tag, []);
      } else if t[o.tag].Blank? {
        BlankLines(ContentAll(t, o.elems));
      } else {
        OneGroup(o.tag, ContentAll(t, o.elems));
      }
    }
  }

  lemma NothingToSee()
    ensures Bare("") == "" && Characters([]) == ""
  {
  }

  /** No break marker at any depth. */
  predicate NoMarkersBelow(o: Obj)
    decreases o
  {
    o.Node? ==> NoMarkersIn(o.elems) && forall k :: 0 <= k < |o.elems| ==> NoMarkersBelow(o.elems[k])
  }

  /** A table that prints paragraphs as blank lines around them. */
  predicate PrintsParagraphs(t: Table) { PARAGRAPH_TAG in t && t[PARAGRAPH_TAG].Blank? }

  /** Whitespace and paragraphs do not show. */
  lemma {:induction false} SeenErased(t: Table, es: seq<Obj>)
    requires PrintsParagraphs(t) && NoMarkersIn(es) && forall k :: 0 <= k < |es| ==> NoMarkersBelow(es[k])
    ensures Seen(t, EraseAll(es)) == Seen(t, es)
    decreases es
  {
    hide Seen, SeenOf, Erase, IsBreakMarker, NoMarkersBelow;
    if es != [] {
      SeenStep(t, es);
      SeenErased(t, es[1..]);
      SeenOfErased(t, es[0]);
      SeenConcat(t, Erase(es[0]), EraseAll(es[1..]));
    }
  }

  lemma {:induction false} SeenOfErased(t: Table, o: Obj)
    requires PrintsParagraphs(t) && !IsBreakMarker(o) && NoMarkersBelow(o)
    ensures Seen(t, Erase(o)) == SeenOf(t, o)
    decreases o
  {
    hide Seen, SeenOf, Bare, IsBreakMarker, IsWhitespace;
    if o.Str? {
      SeenString(t, o.s);
      SeenOne(t, o);
      SeenNothing(t);
      if IsWhitespace(o.s) {
        BareWhitespace(o.s);
      }
    } else {
      SeenErased(t, o.elems);
      SeenNode(t, o);
      var erased := o.(elems := EraseAll(o.elems));
      SeenNode(t, erased);
      SeenOne(t, erased);
    }
  }

  /** No command hides what it wraps. */
  predicate WrapsShow(t: Table, env: Env) {
    forall name :: name in env && env[name].Wrap? ==> env[name].tag in t && !t[env[name].tag].NoCurly?
  }

  lemma StandardWrapsShow()
    ensures WrapsShow(LATEX_TABLE, STANDARD_ENV) && PrintsParagraphs(LATEX_TABLE)
  {
    hide LATEX_TABLE, STANDARD_ENV;
    forall name | name in STANDARD_ENV && STANDARD_ENV[name].Wrap?
      ensures STANDARD_ENV[name].tag in LATEX_TABLE && !LATEX_TABLE[STANDARD_ENV[name].tag].NoCurly?
    {
      StandardWrapShows(name);
    }
    StandardParagraphs();
  }

  lemma StandardWrapShows(name: string)
    requires name in STANDARD_ENV && STANDARD_ENV[name].Wrap?
    ensures STANDARD_ENV[name].tag in LATEX_TABLE && !LATEX_TABLE[STANDARD_ENV[name].tag].NoCurly?
  {
  }

  lemma StandardParagraphs()
    ensures PrintsParagraphs(LATEX_TABLE)
  {
  }

  /** What can be seen of an evaluated list is its text. */
  lemma {:induction false} EvaluatedSeen(t: Table, env: Env, ns: seq<Ast.Node>)
    requires WrapsShow(t, env)
    ensures EvalNodes(env, ns).Success? ==> Seen(t, EvalNodes(env, ns).value) == Bare(Shown(env, ns))
    decreases ns
  {
    hide Seen, EvalCommand, ShownNode, WrapsShow;
    SeenNothing(t);
    NothingToSee();
    if ns != [] {
      EvaluatedNodeSeen(t, env, ns[0]);
      EvaluatedSeen(t, env, ns[1..]);
      if EvalNodes(env, ns).Success? {
        SeenConcat(t, EvalNode(env, ns[0]).value, EvalNodes(env, ns[1..]).value);
        BareConcat(ShownNode(env, ns[0]), Shown(env, ns[1..]));
      }
    }
  }

  lemma {:induction false} EvaluatedNodeSeen(t: Table, env: Env, n: Ast.Node)
    requires WrapsShow(t, env)
    ensures EvalNode(env, n).Success? ==> Seen(t, EvalNode(env, n).value) == Bare(ShownNode(env, n))
    decreases n
  {
    hide EvalSquares, EvalNodes, EvalArgs, Seen, SeenOf, Shown, Bare;
    SeenNothing(t);
    NothingToSee();
    if n.Text? {
      SeenOne(t, Str(n.content));
      SeenString(t, n.content);
    } else if EvalCommand(env, n).Success? {
      var b := env[n.name];
      if b.Wrap? {
        FirstArgument(env, n.curly);
        EvaluatedSeen(t, env, n.curly[0].nodes);
        SeenOne(t, Ltrf.Node(b.tag, b.kv, EvalArgs(env, n.curly).value[0]));
        SeenNode(t, Ltrf.Node(b.tag, b.kv, EvalArgs(env, n.curly).value[0]));
      } else if b.Leaf? {
        SeenOne(t, Ltrf.Node(b.tag, b.kv, []));
        SeenNode(t, Ltrf.Node(b.tag, b.kv, []));
      }
    }
  }

  lemma {:induction false} FreshHasNoMarkers(o: Obj)
    requires Segmentation.Fresh(o)
    ensures NoMarkersBelow(o)
    decreases o
  {
    hide IsPara, IsBreakMarker;
    if o.Node? {
      forall k | 0 <= k < |o.elems|
        ensures NoMarkersBelow(o.elems[k])
      {
        FreshHasNoMarkers(o.elems[k]);
      }
    }
  }

  lemma {:induction false} OrderedHasNoMarkers(o: Obj)
    requires Ordered(o)
    ensures NoMarkersBelow(o)
    decreases o
  {
    hide IsBlock, IsBreakMarker;
    if o.Node? {
      forall k | 0 <= k < |o.elems|
        ensures NoMarkersBelow(o.elems[k])
      {
        OrderedHasNoMarkers(o.elems[k]);
      }
    }
  }

  /** The passes change nothing that can be seen. */
  lemma ProcessedSeen(t: Table, root: Obj)
    requires root.Node? && PrintsParagraphs(t) && NoMarkersBelow(root)
    ensures var r := ApplyAll(PROCESSING_PASSES, root);
            r.Success? && NoMarkersBelow(r.value) ==> Seen(t, r.value.elems) == Seen(t, root.elems)
  {
    hide ApplyAll, Seen, EraseAll;
    PipelineConserves(root);
    var r := ApplyAll(PROCESSING_PASSES, root);
    if r.Success? && NoMarkersBelow(r.value) {
      SeenErased(t, root.elems);
      SeenErased(t, r.value.elems);
    }
  }

  /** From source to LaTeX and back: apart from whitespace, the characters of the
      decoded LaTeX are the text and the first arguments of wrapping commands of the
      source, in order. */
  lemma SourceTextIsReadBack(s: Parser.Input, env: Env, t: Table)
    requires PlainEnv(env) && PrintableEnv(t, env) && WrapsShow(t, env) && PrintsParagraphs(t) && WellNamed(t)
    requires Parser.ParseRoot(s).Ok? && EvalRoot(env, Parser.ParseRoot(s).value).Success?
    ensures var root := Parser.ParseRoot(s).value;
            var r := ApplyAll(PROCESSING_PASSES, EvalRoot(env, root).value);
            r.Success? ==>
              && OutputAll(t, r.value.elems).Success?
              && var out := OutputAll(t, r.value.elems).value;
                 var read := ReadItems(t, out, 0);
                 && read.Some? && read.value.1 == |out|
                 && Bare(Characters(read.value.0)) == Bare(Shown(env, root.sub))
  {
    hide Parser.ParseRoot, EvalNodes, ApplyAll, OutputAll, ReadItems, WellNamed, Bare, Characters, Shown, PlainEnv,
         PrintableEnv, WrapsShow, NoMarkersBelow, Ordered, Segmentation.Segment, Segmentation.Fresh, Neat,
         ParasAreBlocks, LoneOutsideParas, ParasAmongBlocks;
    SourceToLatex(s, env, t);
    SourceToProcessed(s, env);
    EvaluatedIsTidyFresh(s, env);
    var root := Parser.ParseRoot(s).value;
    var e := EvalRoot(env, root).value;
    EvaluatedSeen(t, env, root.sub);
    FreshHasNoMarkers(e);
    ProcessedSeen(t, e);
    var r := ApplyAll(PROCESSING_PASSES, e);
    if r.Success? {
      OrderedHasNoMarkers(r.value);
    }
  }
}
