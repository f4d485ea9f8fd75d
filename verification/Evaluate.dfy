/** Evaluation of a syntax tree, for the commands that wrap, drop or stand alone. */
module Evaluate {
  import opened Ltrf
  import opened Ast

  /** What a command does: wrap its first curly argument in a node; produce a node
      without children; or check that the argument is there and produce nothing. */
  datatype Behaviour =
    | Wrap(tag: string, kv: map<string, Value>)
    | Leaf(tag: string, kv: map<string, Value>)
    | Drop

  /** The commands in scope, by the name they are written with. */
  type Env = map<string, Behaviour>

  /** A square entry's value. */
  datatype Entry = Number | Boolean | Object(o: Obj)

  function EvalNode(env: Env, n: Ast.Node): Result<seq<Obj>>
    decreases n, 1
  {
    match n
    case Text(content, _) => Success([Str(content)])
    case Command(_, _, _, _) => EvalCommand(env, n)
  }

  function EvalCommand(env: Env, n: Ast.Node): Result<seq<Obj>>
    requires n.Command?
    decreases n, 0
  {
    if n.name !in env then Failure("Command not in Environment.")
    else
      var square := if n.square.Square? then EvalSquares(env, n.square.args) else Success(());
      if square.Failure? then Failure(square.error)
      else
        var curly := EvalArgs(env, n.curly);
        if curly.Failure? then Failure(curly.error) else Call(env[n.name], curly.value)
  }

  /** Calling a command on its evaluated curly arguments. */
  function Call(b: Behaviour, args: seq<seq<Obj>>): Result<seq<Obj>> {
    match b
    case Leaf(tag, kv) => Success([Ltrf.Node(tag, kv, [])])
    case Wrap(tag, kv) =>
      if args == [] then Failure("caOrErr(0) -> Curly argument undefined.") else Success([Ltrf.Node(tag, kv, args[0])])
    case Drop =>
      if args == [] then Failure("caOrErr(0) -> Curly argument undefined.") else Success([])
  }

  function EvalArgs(env: Env, args: seq<CurlyArg>): Result<seq<seq<Obj>>>
    decreases args
  {
    if args == [] then Success([])
    else
      var first := EvalNodes(env, args[0].nodes);
      if first.Failure? then Failure(first.error)
      else
        var rest := EvalArgs(env, args[1..]);
        if rest.Failure? then rest else Success([first.value] + rest.value)
  }

  function EvalNodes(env: Env, ns: seq<Ast.Node>): Result<seq<Obj>>
    decreases ns
  {
    if ns == [] then Success([])
    else
      var first := EvalNode(env, ns[0]);
      if first.Failure? then first
      else
        var rest := EvalNodes(env, ns[1..]);
        if rest.Failure? then rest else Success(first.value + rest.value)
  }

  /** Square arguments are evaluated, but these commands do not look at them. */
  function EvalSquares(env: Env, args: seq<SquareArg>): Result<()>
    decreases args
  {
    if args == [] then Success(())
    else
      var first := EvalSquare(env, args[0]);
      if first.Failure? then first else EvalSquares(env, args[1..])
  }

  function EvalSquare(env: Env, a: SquareArg): Result<()>
    decreases a
  {
    match a
    case Val(e) =>
      var v := EvalEntry(env, e);
      if v.Failure? then Failure(v.error) else Success(())
    case KeyVal(key, val) =>
      var k := EvalEntry(env, key);
      var v := EvalEntry(env, val);
      if k.Failure? then Failure(k.error)
      else if v.Failure? then Failure(v.error)
      else if !(k.value.Object? && k.value.o.Str?) then Failure("Key for Keyword argument must evaluate to string.")
      else Success(())
  }

  function EvalEntry(env: Env, e: SquareEntry): Result<Entry>
    decreases e
  {
    match e
    case Num(_) => Success(Number)
    case Bool(_) => Success(Boolean)
    case Ident(s) => Success(Object(Str(s)))
    case QuotedStr(s) => Success(Object(Str(s)))
    case Cmd(node) =>
      if node.Text? then Failure("assertion failed")
      else
        var v := EvalCommand(env, node);
        if v.Failure? then Failure(v.error)
        else if |v.value| != 1 then Failure("Square Entries currently only support a single sub node")
        else Success(Object(v.value[0]))
  }

  /** The whole document, as the node the middle pass starts from. */
  function EvalRoot(env: Env, root: Root): (r: Result<Obj>)
    ensures r.Success? ==> r.value.Node?
  {
    var nodes := EvalNodes(env, root.sub);
    if nodes.Failure? then Failure(nodes.error) else Success(Ltrf.Node(ROOT_TAG, map[], nodes.value))
  }

  /** The command is in scope and has the argument it asks for, and so has every
      command in its arguments. */
  predicate Runs(env: Env, n: Ast.Node)
    decreases n
  {
    n.Command? ==>
      && n.name in env
      && (n.square.Square? ==> forall k :: 0 <= k < |n.square.args| ==> SquareRuns(env, n.square.args[k]))
      && (forall k :: 0 <= k < |n.curly| ==> AllRun(env, n.curly[k].nodes))
      && (env[n.name].Leaf? || n.curly != [])
  }

  predicate AllRun(env: Env, ns: seq<Ast.Node>)
    decreases ns
  {
    forall k :: 0 <= k < |ns| ==> Runs(env, ns[k])
  }

  /** A key is written as a name or a string: no command makes a string. */
  predicate SquareRuns(env: Env, a: SquareArg)
    decreases a
  {
    match a
    case Val(e) => EntryRuns(env, e)
    case KeyVal(key, val) => (key.Ident? || key.QuotedStr?) && EntryRuns(env, val)
  }

  /** A command in an entry must make a node. */
  predicate EntryRuns(env: Env, e: SquareEntry)
    decreases e
  {
    e.Cmd? ==> e.node.Command? && Runs(env, e.node) && !env[e.node.name].Drop?
  }

  lemma {:induction false} NodesEvaluateExactly(env: Env, ns: seq<Ast.Node>)
    ensures EvalNodes(env, ns).Success? <==> AllRun(env, ns)
    decreases ns
  {
    hide Runs, EvalCommand;
    if ns != [] {
      NodeEvaluatesExactly(env, ns[0]);
      NodesEvaluateExactly(env, ns[1..]);
      assert AllRun(env, ns) <==> Runs(env, ns[0]) && AllRun(env, ns[1..]) by {
        assert ns == [ns[0]] + ns[1..];
      }
    }
  }

  lemma {:induction false} NodeEvaluatesExactly(env: Env, n: Ast.Node)
    ensures EvalNode(env, n).Success? <==> Runs(env, n)
    ensures n.Command? && Runs(env, n) ==>
              var made := EvalCommand(env, n).value;
              if env[n.name].Drop? then made == [] else |made| == 1 && made[0].Node?
    decreases n
  {
    hide EvalSquares, EvalArgs, AllRun, SquareRuns;
    if n.Command? {
      if n.square.Square? {
        SquaresEvaluateExactly(env, n.square.args);
      }
      ArgsEvaluateExactly(env, n.curly);
    }
  }

  lemma {:induction false} ArgsEvaluateExactly(env: Env, args: seq<CurlyArg>)
    ensures EvalArgs(env, args).Success? <==> forall k :: 0 <= k < |args| ==> AllRun(env, args[k].nodes)
    ensures EvalArgs(env, args).Success? ==> |EvalArgs(env, args).value| == |args|
    decreases args
  {
    hide AllRun, EvalNodes;
    if args != [] {
      NodesEvaluateExactly(env, args[0].nodes);
      ArgsEvaluateExactly(env, args[1..]);
      assert forall k :: 0 < k < |args| ==> args[k] == args[1..][k - 1];
    }
  }

  lemma {:induction false} SquaresEvaluateExactly(env: Env, args: seq<SquareArg>)
    ensures EvalSquares(env, args).Success? <==> forall k :: 0 <= k < |args| ==> SquareRuns(env, args[k])
    decreases args
  {
    hide SquareRuns, EvalSquare;
    if args != [] {
      SquareEvaluatesExactly(env, args[0]);
      SquaresEvaluateExactly(env, args[1..]);
      assert forall k :: 0 < k < |args| ==> args[k] == args[1..][k - 1];
    }
  }

  lemma {:induction false} SquareEvaluatesExactly(env: Env, a: SquareArg)
    ensures EvalSquare(env, a).Success? <==> SquareRuns(env, a)
    decreases a
  {
    hide EvalEntry, EntryRuns;
    match a
    case Val(e) => EntryEvaluatesExactly(env, e);
    case KeyVal(key, val) =>
      EntryEvaluatesExactly(env, key);
      EntryEvaluatesExactly(env, val);
      PlainEntryRuns(env, key);
  }

  lemma PlainEntryRuns(env: Env, e: SquareEntry)
    ensures !e.Cmd? ==> EntryRuns(env, e)
  {
  }

  lemma {:induction false} EntryEvaluatesExactly(env: Env, e: SquareEntry)
    ensures EvalEntry(env, e).Success? <==> EntryRuns(env, e)
    ensures EvalEntry(env, e).Success? ==>
              var v := EvalEntry(env, e).value;
              (v.Object? && v.o.Str? <==> e.Ident? || e.QuotedStr?)
    decreases e
  {
    hide Runs, EvalCommand;
    if e.Cmd? && e.node.Command? {
      NodeEvaluatesExactly(env, e.node);
      NodeRunsInScope(env, e.node);
    }
  }

  lemma NodeRunsInScope(env: Env, n: Ast.Node)
    requires n.Command?
    ensures Runs(env, n) ==> n.name in env
    ensures EvalNode(env, n) == EvalCommand(env, n)
  {
    hide EvalCommand;
  }

  /** A document evaluates exactly when all its commands are in scope, have the
      argument they ask for, and stand in square brackets only where they make a node. */
  lemma EvaluatesExactly(env: Env, root: Root)
    ensures EvalRoot(env, root).Success? <==> AllRun(env, root.sub)
  {
    NodesEvaluateExactly(env, root.sub);
  }

  /** The text a reader sees in a list of nodes: wrapped text shows, all else does not. */
  function Shown(env: Env, ns: seq<Ast.Node>): string
    decreases ns
  {
    if ns == [] then "" else ShownNode(env, ns[0]) + Shown(env, ns[1..])
  }

  function ShownNode(env: Env, n: Ast.Node): string
    decreases n
  {
    match n
    case Text(content, _) => content
    case Command(name, _, curly, _) =>
      if name in env && env[name].Wrap? && curly != [] then Shown(env, curly[0].nodes) else ""
  }

  /** All strings of a tree, from left to right. */
  function Strings(es: seq<Obj>): string
    decreases es
  {
    if es == [] then "" else StringsOf(es[0]) + Strings(es[1..])
  }

  function StringsOf(o: Obj): string
    decreases o
  {
    if o.Str? then o.s else Strings(o.elems)
  }

  lemma {:induction false} StringsConcat(a: seq<Obj>, b: seq<Obj>)
    ensures Strings(a + b) == Strings(a) + Strings(b)
  {
    hide StringsOf;
    if a == [] {
      assert a + b == b;
    } else {
      assert (a + b)[1..] == a[1..] + b;
      StringsConcat(a[1..], b);
    }
  }

  lemma OneString(o: Obj)
    ensures Strings([o]) == StringsOf(o)
  {
    hide StringsOf;
    assert [o][1..] == [];
  }

  /** Evaluation keeps the text that shows, character by character. */
  lemma {:induction false} EvaluationKeepsText(env: Env, ns: seq<Ast.Node>)
    ensures EvalNodes(env, ns).Success? ==> Strings(EvalNodes(env, ns).value) == Shown(env, ns)
    decreases ns
  {
    hide StringsOf, EvalCommand, ShownNode;
    if ns != [] {
      NodeKeepsText(env, ns[0]);
      EvaluationKeepsText(env, ns[1..]);
      if EvalNodes(env, ns).Success? {
        StringsConcat(EvalNode(env, ns[0]).value, EvalNodes(env, ns[1..]).value);
      }
    }
  }

  lemma {:induction false} NodeKeepsText(env: Env, n: Ast.Node)
    ensures EvalNode(env, n).Success? ==> Strings(EvalNode(env, n).value) == ShownNode(env, n)
    decreases n
  {
    hide EvalSquares, EvalNodes, EvalArgs, Strings, Shown;
    if n.Text? {
      OneString(Str(n.content));
    } else if EvalCommand(env, n).Success? {
      var b := env[n.name];
      NoStrings();
      if b.Wrap? {
        FirstArgument(env, n.curly);
        EvaluationKeepsText(env, n.curly[0].nodes);
        OneString(Ltrf.Node(b.tag, b.kv, EvalArgs(env, n.curly).value[0]));
      } else if b.Leaf? {
        OneString(Ltrf.Node(b.tag, b.kv, []));
      }
    }
  }

  lemma FirstArgument(env: Env, args: seq<CurlyArg>)
    requires EvalArgs(env, args).Success? && EvalArgs(env, args).value != []
    ensures args != [] && EvalNodes(env, args[0].nodes) == Success(EvalArgs(env, args).value[0])
  {
    hide EvalNodes;
  }

  lemma NoStrings()
    ensures Strings([]) == ""
  {
  }

  /** What a node means: a text is its string; a wrapping command is one node with its
      tag and entries and what its first argument means; a leaf is one node without
      children; and a command that drops its argument is nothing. */
  ghost predicate Means(env: Env, n: Ast.Node, es: seq<Obj>)
    decreases n
  {
    match n
    case Text(content, _) => es == [Str(content)]
    case Command(name, _, curly, _) =>
      name in env &&
      match env[name]
      case Drop => es == []
      case Leaf(tag, kv) => es == [Ltrf.Node(tag, kv, [])]
      case Wrap(tag, kv) =>
        curly != [] && |es| == 1 && es[0].Node? && es[0].tag == tag && es[0].kv == kv
        && MeansAll(env, curly[0].nodes, es[0].elems)
  }

  /** Nodes one after the other mean what each of them does, one after the other. */
  ghost predicate MeansAll(env: Env, ns: seq<Ast.Node>, es: seq<Obj>)
    decreases ns
  {
    if ns == [] then es == []
    else exists k: nat :: k <= |es| && Means(env, ns[0], es[..k]) && MeansAll(env, ns[1..], es[k..])
  }

  /** The number of objects a node means. */
  function Count(env: Env, n: Ast.Node): nat {
    if n.Command? && n.name in env && env[n.name].Drop? then 0 else 1
  }

  lemma MeansCount(env: Env, n: Ast.Node, es: seq<Obj>)
    requires Means(env, n, es)
    ensures |es| == Count(env, n)
  {
    hide MeansAll;
  }

  /** A node means one thing only. */
  lemma {:induction false} MeaningIsOne(env: Env, n: Ast.Node, es: seq<Obj>, es': seq<Obj>)
    requires Means(env, n, es) && Means(env, n, es')
    ensures es == es'
    decreases n
  {
    hide MeansAll;
    if n.Command? && env[n.name].Wrap? {
      MeaningsAreOne(env, n.curly[0].nodes, es[0].elems, es'[0].elems);
    }
  }

  lemma {:induction false} MeaningsAreOne(env: Env, ns: seq<Ast.Node>, es: seq<Obj>, es': seq<Obj>)
    requires MeansAll(env, ns, es) && MeansAll(env, ns, es')
    ensures es == es'
    decreases ns
  {
    hide Means;
    if ns != [] {
      var k: nat :| k <= |es| && Means(env, ns[0], es[..k]) && MeansAll(env, ns[1..], es[k..]);
      var k': nat :| k' <= |es'| && Means(env, ns[0], es'[..k']) && MeansAll(env, ns[1..], es'[k'..]);
      MeansCount(env, ns[0], es[..k]);
      MeansCount(env, ns[0], es'[..k']);
      MeaningIsOne(env, ns[0], es[..k], es'[..k']);
      MeaningsAreOne(env, ns[1..], es[k..], es'[k'..]);
      assert es == es[..k] + es[k..] && es' == es'[..k'] + es'[k'..];
    }
  }

  lemma {:induction false} NodeMeans(env: Env, n: Ast.Node)
    ensures EvalNode(env, n).Success? ==> Means(env, n, EvalNode(env, n).value)
    decreases n
  {
    hide EvalSquares, EvalNodes, EvalArgs, MeansAll;
    if n.Command? && EvalCommand(env, n).Success? && env[n.name].Wrap? {
      FirstArgument(env, n.curly);
      NodesMean(env, n.curly[0].nodes);
    }
  }

  lemma {:induction false} NodesMean(env: Env, ns: seq<Ast.Node>)
    ensures EvalNodes(env, ns).Success? ==> MeansAll(env, ns, EvalNodes(env, ns).value)
    decreases ns
  {
    hide EvalNode, Means;
    if ns != [] && EvalNodes(env, ns).Success? {
      NodeMeans(env, ns[0]);
      NodesMean(env, ns[1..]);
      var first, rest := EvalNode(env, ns[0]).value, EvalNodes(env, ns[1..]).value;
      assert (first + rest)[..|first|] == first && (first + rest)[|first|..] == rest;
    }
  }

  /** Evaluation gives exactly what the nodes mean, where they can be evaluated. */
  lemma NodesEvaluateTo(env: Env, ns: seq<Ast.Node>, es: seq<Obj>)
    ensures EvalNodes(env, ns) == Success(es) <==> AllRun(env, ns) && MeansAll(env, ns, es)
  {
    hide EvalNodes, AllRun, MeansAll;
    NodesEvaluateExactly(env, ns);
    NodesMean(env, ns);
    if AllRun(env, ns) && MeansAll(env, ns, es) {
      MeaningsAreOne(env, ns, es, EvalNodes(env, ns).value);
    }
  }

  /** A document evaluates to a root that holds what its nodes mean. */
  lemma RootEvaluatesTo(env: Env, root: Root, o: Obj)
    ensures EvalRoot(env, root) == Success(o) <==>
            AllRun(env, root.sub) && exists es :: MeansAll(env, root.sub, es) && o == Ltrf.Node("__root", map[], es)
  {
    hide EvalNodes, AllRun, MeansAll;
    var nodes := EvalNodes(env, root.sub);
    if nodes.Success? {
      NodesEvaluateTo(env, root.sub, nodes.value);
    } else {
      NodesEvaluateExactly(env, root.sub);
    }
    if es :| AllRun(env, root.sub) && MeansAll(env, root.sub, es) && o == Ltrf.Node("__root", map[], es) {
      NodesEvaluateTo(env, root.sub, es);
    }
  }
}
