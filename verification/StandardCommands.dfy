/** The commands of the standard modules, one by one: the node each of them makes, which
    of those are blocks, and what LaTeX they give. */
module StandardCommands {
  import opened Ltrf
  import opened Evaluate
  import opened Latex
  import opened Compile
  import Ast

  /** The standard commands and no others. */
  lemma StandardNames()
    ensures STANDARD_ENV.Keys ==
            {"__doc", "title", "author", "maketitle", "sec", "subsec", "subsubsec", "bf", "it", "bquot", "marginnote"}
  {
  }

  /** The one node that a command makes of the objects in its first argument. */
  predicate Makes(name: string, body: seq<Obj>, o: Obj) {
    name in STANDARD_ENV && Call(STANDARD_ENV[name], [body]) == Success([o])
  }

  lemma StandardInline(body: seq<Obj>)
    ensures Makes("__doc", body, Node("__doc", map[], body))
    ensures Makes("bf", body, Node("bold", map[], body))
    ensures Makes("it", body, Node("italic", map[], body))
    ensures Makes("marginnote", body, Node("marginnote", map[], body))
  {
  }

  lemma StandardBlocks(body: seq<Obj>)
    ensures var block := map["isBlock" := VBool(true)];
            && Makes("sec", body, Node("sec", block, body))
            && Makes("subsec", body, Node("subsec", block, body))
            && Makes("subsubsec", body, Node("subsubsec", block, body))
            && Makes("bquot", body, Node("bquot", block, body))
            && Makes("maketitle", body, Node("maketitle", block, []))
  {
  }

  lemma StandardSilent(body: seq<Obj>)
    ensures Call(STANDARD_ENV["title"], [body]) == Success([]) && Call(STANDARD_ENV["author"], [body]) == Success([])
    ensures Call(STANDARD_ENV["maketitle"], []) == Success([Node("maketitle", map["isBlock" := VBool(true)], [])])
  {
  }

  /** The LaTeX for a command whose first argument prints as `code`. */
  function Expected(name: string, code: string): string {
    if name == "__doc" then "\n\n" + code + "\n\n"
    else if name == "sec" then "\\section{" + code + "}"
    else if name == "subsec" then "\\subsection{" + code + "}"
    else if name == "subsubsec" then "\\subsubsection{" + code + "}"
    else if name == "bf" then "\\textbf{" + code + "}"
    else if name == "it" then "\\textit{" + code + "}"
    else if name == "marginnote" then "\\lapoldefaultaside{" + code + "}"
    else if name == "bquot" then "\\begin{lapoldefaultblockquote}" + code + "\\end{lapoldefaultblockquote}"
    else if name == "maketitle" then "\\maketitle{}"
    else ""
  }

  lemma SinglePrints(o: Obj, command: string, code: string)
    requires o.Node? && o.tag in LATEX_TABLE && LATEX_TABLE[o.tag] == SingleCurly(command)
    requires OutputAll(LATEX_TABLE, o.elems) == Success(code)
    ensures Output(LATEX_TABLE, o) == Success("\\" + command + "{" + code + "}")
  {
    hide LATEX_TABLE, OutputAll;
  }

  lemma InlineEntries()
    ensures "__doc" in LATEX_TABLE && LATEX_TABLE["__doc"] == Blank
    ensures "bold" in LATEX_TABLE && LATEX_TABLE["bold"] == SingleCurly("textbf")
    ensures "italic" in LATEX_TABLE && LATEX_TABLE["italic"] == SingleCurly("textit")
    ensures "marginnote" in LATEX_TABLE && LATEX_TABLE["marginnote"] == SingleCurly("lapoldefaultaside")
  {
  }

  lemma BlockEntries()
    ensures "sec" in LATEX_TABLE && LATEX_TABLE["sec"] == SingleCurly("section")
    ensures "subsec" in LATEX_TABLE && LATEX_TABLE["subsec"] == SingleCurly("subsection")
    ensures "subsubsec" in LATEX_TABLE && LATEX_TABLE["subsubsec"] == SingleCurly("subsubsection")
    ensures "bquot" in LATEX_TABLE && LATEX_TABLE["bquot"] == Block("lapoldefaultblockquote")
    ensures "maketitle" in LATEX_TABLE && LATEX_TABLE["maketitle"] == NoCurly("maketitle")
  {
  }

  lemma InlinePrints(body: seq<Obj>, code: string)
    requires OutputAll(LATEX_TABLE, body) == Success(code)
    ensures Output(LATEX_TABLE, Node("__doc", map[], body)) == Success(Expected("__doc", code))
    ensures Output(LATEX_TABLE, Node("bold", map[], body)) == Success(Expected("bf", code))
    ensures Output(LATEX_TABLE, Node("italic", map[], body)) == Success(Expected("it", code))
    ensures Output(LATEX_TABLE, Node("marginnote", map[], body)) == Success(Expected("marginnote", code))
  {
    hide LATEX_TABLE, OutputAll;
    InlineEntries();
    SinglePrints(Node("bold", map[], body), "textbf", code);
    SinglePrints(Node("italic", map[], body), "textit", code);
    SinglePrints(Node("marginnote", map[], body), "lapoldefaultaside", code);
    assert "\\" + "textbf" + "{" == "\\textbf{" && "\\" + "textit" + "{" == "\\textit{";
    assert "\\" + "lapoldefaultaside" + "{" == "\\lapoldefaultaside{";
  }

  lemma EnvironmentPrints(o: Obj, name: string, code: string)
    requires o.Node? && o.tag in LATEX_TABLE && LATEX_TABLE[o.tag] == Block(name)
    requires OutputAll(LATEX_TABLE, o.elems) == Success(code)
    ensures Output(LATEX_TABLE, o) == Success(("\\begin{" + name + "}") + code + ("\\end{" + name + "}"))
  {
    hide LATEX_TABLE, OutputAll;
    var open, close := "\\begin{" + name + "}", "\\end{" + name + "}";
    assert open + code + "\\end{" + name + "}" == open + code + close;
  }

  lemma ExpectedQuotation(code: string)
    ensures Expected("bquot", code) ==
            "\\begin{lapoldefaultblockquote}" + code + "\\end{lapoldefaultblockquote}"
  {
  }

  lemma QuotationPrints(body: seq<Obj>, code: string, kv: map<string, Value>)
    requires OutputAll(LATEX_TABLE, body) == Success(code)
    ensures Output(LATEX_TABLE, Node("bquot", kv, body)) == Success(Expected("bquot", code))
  {
    hide LATEX_TABLE, OutputAll, Output, Expected;
    BlockEntries();
    ExpectedQuotation(code);
    EnvironmentPrints(Node("bquot", kv, body), "lapoldefaultblockquote", code);
    QuotationMarks();
  }

  lemma QuotationMarks()
    ensures "\\begin{" + "lapoldefaultblockquote" + "}" == "\\begin{lapoldefaultblockquote}"
    ensures "\\end{" + "lapoldefaultblockquote" + "}" == "\\end{lapoldefaultblockquote}"
  {
  }

  lemma TitlePrints(code: string, kv: map<string, Value>)
    ensures Output(LATEX_TABLE, Node("maketitle", kv, [])) == Success(Expected("maketitle", code))
  {
    hide LATEX_TABLE;
    BlockEntries();
    assert "\\" + "maketitle" + "{}" == "\\maketitle{}";
  }

  lemma BlockPrints(body: seq<Obj>, code: string, kv: map<string, Value>)
    requires OutputAll(LATEX_TABLE, body) == Success(code)
    ensures Output(LATEX_TABLE, Node("sec", kv, body)) == Success(Expected("sec", code))
    ensures Output(LATEX_TABLE, Node("subsec", kv, body)) == Success(Expected("subsec", code))
    ensures Output(LATEX_TABLE, Node("subsubsec", kv, body)) == Success(Expected("subsubsec", code))
    ensures Output(LATEX_TABLE, Node("bquot", kv, body)) == Success(Expected("bquot", code))
    ensures Output(LATEX_TABLE, Node("maketitle", kv, [])) == Success(Expected("maketitle", code))
  {
    hide LATEX_TABLE, OutputAll;
    BlockEntries();
    SinglePrints(Node("sec", kv, body), "section", code);
    SinglePrints(Node("subsec", kv, body), "subsection", code);
    SinglePrints(Node("subsubsec", kv, body), "subsubsection", code);
    assert "\\" + "section" + "{" == "\\section{" && "\\" + "subsection" + "{" == "\\subsection{";
    assert "\\" + "subsubsection" + "{" == "\\subsubsection{";
    QuotationPrints(body, code, kv);
    TitlePrints(code, kv);
  }

  /** What any command makes, and what that prints as. */
  lemma CommandMakes(name: string, body: seq<Obj>, code: string) returns (made: seq<Obj>)
    requires name in STANDARD_ENV && OutputAll(LATEX_TABLE, body) == Success(code)
    ensures Call(STANDARD_ENV[name], [body]) == Success(made)
    ensures OutputAll(LATEX_TABLE, made) == Success(Expected(name, code))
  {
    hide STANDARD_ENV, LATEX_TABLE, Call, Output, Expected;
    StandardNames();
    StandardInline(body);
    StandardBlocks(body);
    StandardSilent(body);
    InlinePrints(body, code);
    BlockPrints(body, code, map["isBlock" := VBool(true)]);
    made := Call(STANDARD_ENV[name], [body]).value;
    if made != [] {
      OneOutput(made[0]);
    }
    SilentPrints(code);
  }

  lemma OneOutput(o: Obj)
    ensures Output(LATEX_TABLE, o).Success? ==> OutputAll(LATEX_TABLE, [o]) == Output(LATEX_TABLE, o)
  {
    hide LATEX_TABLE, Output;
    assert [o][1..] == [];
    assert OutputAll(LATEX_TABLE, []) == Success("");
    if Output(LATEX_TABLE, o).Success? {
      assert Output(LATEX_TABLE, o).value + "" == Output(LATEX_TABLE, o).value;
    }
  }

  lemma SilentPrints(code: string)
    ensures OutputAll(LATEX_TABLE, []) == Success("") && Expected("title", code) == "" && Expected("author", code) == ""
  {
  }

  /** Each standard command with one argument evaluates, and prints as the LaTeX
      command that it stands for, around what its argument prints as. */
  lemma CommandPrints(name: string, ns: seq<Ast.Node>, body: seq<Obj>, code: string, at: nat)
    requires name in STANDARD_ENV
    requires EvalNodes(STANDARD_ENV, ns) == Success(body) && OutputAll(LATEX_TABLE, body) == Success(code)
    ensures var r := EvalNode(STANDARD_ENV, Ast.Command(name, Ast.NoSquare, [Ast.CurlyArg(ns)], at));
            r.Success? && OutputAll(LATEX_TABLE, r.value) == Success(Expected(name, code))
  {
    hide STANDARD_ENV, LATEX_TABLE, Call, EvalNodes, OutputAll, Expected;
    var made := CommandMakes(name, body, code);
    OneArgument(ns, body);
  }

  lemma OneArgument(ns: seq<Ast.Node>, body: seq<Obj>)
    requires EvalNodes(STANDARD_ENV, ns) == Success(body)
    ensures EvalArgs(STANDARD_ENV, [Ast.CurlyArg(ns)]) == Success([body])
  {
    hide STANDARD_ENV, EvalNodes;
    assert [Ast.CurlyArg(ns)][1..] == [];
    assert EvalArgs(STANDARD_ENV, []) == Success([]);
    assert [body] + [] == [body];
  }

  /** The tags of the nodes that are blocks. */
  predicate IsBlockTag(tag: string) {
    tag == "sec" || tag == "subsec" || tag == "subsubsec" || tag == "bquot" || tag == "maketitle"
  }

  /** At every depth, the nodes with those tags are blocks, and the others are not. */
  predicate RightBlocks(o: Obj)
    decreases o
  {
    o.Node? ==>
      && (o.kv == if IsBlockTag(o.tag) then map["isBlock" := VBool(true)] else map[])
      && forall k :: 0 <= k < |o.elems| ==> RightBlocks(o.elems[k])
  }

  predicate AllRightBlocks(es: seq<Obj>) {
    forall k :: 0 <= k < |es| ==> RightBlocks(es[k])
  }

  lemma CallMakesRightBlocks(name: string, args: seq<seq<Obj>>)
    requires name in STANDARD_ENV && forall k :: 0 <= k < |args| ==> AllRightBlocks(args[k])
    ensures Call(STANDARD_ENV[name], args).Success? ==> AllRightBlocks(Call(STANDARD_ENV[name], args).value)
  {
    hide STANDARD_ENV, Call;
    StandardNames();
    var body := if args == [] then [] else args[0];
    OnlyFirst(STANDARD_ENV[name], args);
    StandardInline(body);
    StandardBlocks(body);
    StandardSilent(body);
  }

  /** A command looks at its first argument only, if at any. */
  lemma OnlyFirst(b: Behaviour, args: seq<seq<Obj>>)
    ensures args != [] ==> Call(b, args) == Call(b, [args[0]])
    ensures args == [] && Call(b, args).Success? ==> Call(b, args) == Call(b, [[]])
  {
  }

  lemma {:induction false} StandardBlocksExactly(ns: seq<Ast.Node>)
    ensures EvalNodes(STANDARD_ENV, ns).Success? ==> AllRightBlocks(EvalNodes(STANDARD_ENV, ns).value)
    decreases ns
  {
    hide STANDARD_ENV, RightBlocks, EvalCommand;
    if ns != [] && EvalNodes(STANDARD_ENV, ns).Success? {
      if ns[0].Command? {
        CommandMakesRightBlocks(ns[0]);
      } else {
        StringRight(ns[0].content);
      }
      StandardBlocksExactly(ns[1..]);
    }
  }

  lemma StringRight(s: string)
    ensures RightBlocks(Str(s))
  {
  }

  lemma {:induction false} CommandMakesRightBlocks(n: Ast.Node)
    requires n.Command?
    ensures var r := EvalCommand(STANDARD_ENV, n); r.Success? ==> AllRightBlocks(r.value)
    decreases n
  {
    hide STANDARD_ENV, AllRightBlocks, EvalSquares, EvalArgs, Call;
    if EvalCommand(STANDARD_ENV, n).Success? {
      ArgumentsMakeRightBlocks(n.curly);
      assert EvalArgs(STANDARD_ENV, n.curly).Success?;
      CallMakesRightBlocks(n.name, EvalArgs(STANDARD_ENV, n.curly).value);
    }
  }

  lemma {:induction false} ArgumentsMakeRightBlocks(args: seq<Ast.CurlyArg>)
    ensures var r := EvalArgs(STANDARD_ENV, args);
            r.Success? ==> forall k :: 0 <= k < |r.value| ==> AllRightBlocks(r.value[k])
    decreases args
  {
    hide STANDARD_ENV, AllRightBlocks, EvalNodes;
    if args != [] && EvalArgs(STANDARD_ENV, args).Success? {
      StandardBlocksExactly(args[0].nodes);
      ArgumentsMakeRightBlocks(args[1..]);
      var r, rest := EvalArgs(STANDARD_ENV, args).value, EvalArgs(STANDARD_ENV, args[1..]).value;
      assert forall k :: 0 < k < |r| ==> r[k] == rest[k - 1];
    }
  }
}
