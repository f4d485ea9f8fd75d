/** Printing, and then parsing, gives the tree back. */
module RoundTrip {
  import opened Spans
  import opened Ast
  import opened Delimiters
  import opened Comments
  import opened Parser
  import opened FastScan
  import opened Fences
  import opened Printing
  import opened EntryReading
  import opened NodeReading

  /** The simple scan, with a recogniser of numbers. */
  ghost predicate Reads(s: Input) { !s.longRuns && Numeric(s.double) }

  ghost predicate Printable(d: string -> nat, ns: seq<Node>) {
    Canonical(ns) && ReadableIn(d, ns)
  }

  /** Reading back a list of nodes inside its fence, up to the closing form. */
  lemma {:induction false} NodesReadBack(s: Input, ns: seq<Node>, k: nat, p: nat, contents: seq<Node>)
    returns (r: seq<Node>)
    requires Reads(s) && Printable(s.double, ns) && Apart(contents, ns)
    requires k >= 1 && forall i :: 0 <= i < |ns| && ns[i].Text? ==> |ns[i].content| < k
    requires At(s.src, p, PrintNodes(ns, k) + CloseFence(k))
    ensures Usable(Fence(k)) && AlikeAll(r, ns)
    ensures TextLoop(s, false, Fence(k), p, 1, contents) == Ok(p + |PrintNodes(ns, k)|, contents + r)
    decreases ns, 2
  {
    hide TextLoop, Usable, ParseCommand, OpenFence, CloseFence, EscapeFence, PrintCommand, Alike, Numeric, Readable;
    FenceMatch(k);
    AtConcat(s.src, p, PrintNodes(ns, k), CloseFence(k));
    if ns == [] {
      LoopAtClose(s, false, Fence(k), p, 1, contents);
      r := [];
      assert contents + r == contents;
    } else {
      var first, more := FirstThenMore(s, ns, k, p, contents);
      r := [first] + more;
      assert contents + r == contents + [first] + more;
    }
  }

  lemma {:induction false} FirstThenMore(s: Input, ns: seq<Node>, k: nat, p: nat, contents: seq<Node>)
    returns (first: Node, more: seq<Node>)
    requires Reads(s) && Printable(s.double, ns) && Apart(contents, ns) && ns != []
    requires k >= 1 && forall i :: 0 <= i < |ns| && ns[i].Text? ==> |ns[i].content| < k
    requires At(s.src, p, PrintNodes(ns, k) + CloseFence(k))
    ensures Usable(Fence(k)) && Alike(first, ns[0]) && AlikeAll(more, ns[1..])
    ensures TextLoop(s, false, Fence(k), p, 1, contents) ==
            Ok(p + |PrintNodes(ns, k)|, contents + [first] + more)
    decreases ns, 1
  {
    hide TextLoop, Usable, PrintNode, OpenFence, CloseFence, EscapeFence, Alike, AlikeAll, Numeric, Readable,
         CanonicalNode;
    var q := p + |PrintNode(ns[0], k)|;
    var rest := PrintNodes(ns[1..], k) + CloseFence(k);
    assert PrintNodes(ns, k) + CloseFence(k) == PrintNode(ns[0], k) + rest;
    AtConcat(s.src, p, PrintNode(ns[0], k), rest);
    first := FirstReadBack(s, ns, k, p, q, contents);
    assert Printable(s.double, ns[1..]);
    more := NodesReadBack(s, ns[1..], k, q, contents + [first]);
  }

  /** Reading back the first node of a list. */
  lemma {:induction false} FirstReadBack(s: Input, ns: seq<Node>, k: nat, p: nat, q: nat, contents: seq<Node>)
    returns (first: Node)
    requires Reads(s) && Printable(s.double, ns) && Apart(contents, ns) && ns != []
    requires k >= 1 && forall i :: 0 <= i < |ns| && ns[i].Text? ==> |ns[i].content| < k
    requires q == p + |PrintNode(ns[0], k)| && At(s.src, p, PrintNode(ns[0], k))
    requires At(s.src, q, PrintNodes(ns[1..], k) + CloseFence(k))
    ensures Usable(Fence(k)) && Alike(first, ns[0]) && Apart(contents + [first], ns[1..])
    ensures TextLoop(s, false, Fence(k), p, 1, contents) == TextLoop(s, false, Fence(k), q, 1, contents + [first])
    decreases ns, 0
  {
    hide TextLoop, Usable, ParseCommand, OpenFence, PrintCommand, Numeric, Readable, Alike;
    PlainAlike();
    FenceMatch(k);
    var n := ns[0];
    assert CanonicalNode(ns[0]) && (ns[0].Text? ==> |ns[0].content| < k);
    match n
    case Text(content, _) =>
      if content == "\n" {
        ReadNewline(s, Fence(k), p, contents);
        first := Text("\n", p + 1);
      } else {
        HeadAfterText(s.src, ns, k, q);
        TextReadBack(s, content, k, p, q, contents);
        first := Chunk(s.src, p, q);
      }
    case Command(name, _, _, _) =>
      AtConcat(s.src, p, EscapeFence(k), PrintCommand(n));
      var node := CommandReadBack(s, n, Fence(k), p);
      first := node;
      CommandHead(s.src, n, p + k + 1);
      AtConcat(s.src, p, EscapeFence(k), "@");
      ReadCommand(s, k, p, q, node, contents);
  }

  lemma PlainAlike()
    ensures forall a: Node, b: Node :: a.Text? && b.Text? && a.content == b.content ==> Alike(a, b)
  {
  }

  /** What follows a printed text starts with a character that is no bracket. */
  lemma HeadAfterText(src: string, ns: seq<Node>, k: nat, q: nat)
    requires Canonical(ns) && ns != [] && Mergeable(ns[0])
    requires At(src, q, PrintNodes(ns[1..], k) + CloseFence(k))
    ensures q < |src| && (src[q] == '|' || src[q] == '}' || src[q] == '\r')
  {
    var t := PrintNodes(ns[1..], k) + CloseFence(k);
    AtHead(src, q, t);
    if |ns| > 1 {
      assert !(Mergeable(ns[0]) && Mergeable(ns[0 + 1]));
      PrintNodeHead(ns[1], k);
      assert t[0] == PrintNode(ns[1], k)[0];
    }
  }

  /** A printed command starts with `@` and a letter, underscore or colon. */
  lemma CommandHead(src: string, n: Node, p: nat)
    requires n.Command? && IsName(n.name) && At(src, p, PrintCommand(n))
    ensures At(src, p, "@") && Sees(src, p + 1, IsIdentStart)
  {
    hide PrintSquare, PrintArgs;
    var tail := n.name + (PrintSquare(n.square) + (PrintArgs(n.curly) + ";"));
    AtConcat(src, p, "@", tail);
    AtHead(src, p + 1, tail);
  }

  /** Reading back a command, in any escape. */
  lemma {:induction false} CommandReadBack(s: Input, n: Node, em: EscapeMatch, p: nat) returns (r: Node)
    requires Reads(s) && n.Command? && CanonicalNode(n) && Readable(s.double, n)
    requires At(s.src, p, em.escape + PrintCommand(n))
    ensures Alike(r, n) && r.Command?
    ensures ParseCommand(s, em, p) == Ok(p + |em.escape + PrintCommand(n)|, r)
    decreases n, 1
  {
    hide ParseContents, PrintArgs, PrintSquare, Alike, Readable, Reads;
    AtConcat(s.src, p, em.escape, PrintCommand(n));
    var a := p + |em.escape|;
    CommandHead(s.src, n, a);
    AtConcat(s.src, p, em.escape, "@");
    AtConcat(s.src, a, "@", n.name + (PrintSquare(n.square) + (PrintArgs(n.curly) + ";")));
    r := ContentsReadBack(s, n, p, a + 1);
  }

  /** What comes after the name: a bracket, a bar or a semicolon. */
  lemma AfterName(src: string, n: Node, a: nat)
    requires n.Command? && At(src, a, PrintSquare(n.square) + (PrintArgs(n.curly) + ";"))
    ensures var b := a + |PrintSquare(n.square)|;
            && a <= b < |src|
            && src[b] == (if n.curly == [] then ';' else '|')
            && src[a] == (if n.square.Square? then '[' else src[b])
            && At(src, a, PrintSquare(n.square)) && At(src, b, PrintArgs(n.curly) + ";")
            && (n.square.NoSquare? ==> a == b)
  {
    hide PrintArgs, PrintEntries;
    AtConcat(src, a, PrintSquare(n.square), PrintArgs(n.curly) + ";");
    ArgsHead(src, n.curly, a + |PrintSquare(n.square)|);
    if n.square.Square? {
      AtHead(src, a, PrintSquare(n.square));
    }
  }

  lemma {:induction false} ContentsReadBack(s: Input, n: Node, start: nat, p: nat) returns (r: Node)
    requires Reads(s) && n.Command? && CanonicalNode(n) && Readable(s.double, n)
    requires At(s.src, p, n.name + (PrintSquare(n.square) + (PrintArgs(n.curly) + ";")))
    ensures Alike(r, n) && r.Command?
    ensures ParseContents(s, start, p) ==
            Ok(p + |n.name| + |PrintSquare(n.square)| + |PrintArgs(n.curly)| + 1, r)
    decreases n, 0
  {
    hide CurlyArguments, OptionalSquare, ParseContents, PrintArgs, PrintSquare, Alike, Identifier, AfterBlank, At,
         ReadableSquare, Reads, AlikeArgs, AlikeSquare;
    var a := p + |n.name|;
    var b := a + |PrintSquare(n.square)|;
    AtConcat(s.src, p, n.name, PrintSquare(n.square) + (PrintArgs(n.curly) + ";"));
    AfterName(s.src, n, a);
    NameReads(s.src, n.name, p);
    NoBlank(s.src, a);
    NoBlank(s.src, b);
    NothingPrinted();
    if n.square.NoSquare? && n.curly == [] {
      r := Command(n.name, NoSquare, [], start);
      ContentsRead(s, start, p, a, n.name);
    } else {
      CanonicalSquares(n);
      var square := SquareReadBack(s, n.square, a);
      ContentsReadOn(s, start, p, a, n.name, b, square);
      if n.curly == [] {
        r := Command(n.name, square, [], start);
      } else {
        var args := ArgsReadBack(s, n.curly, b);
        var z := b + |PrintArgs(n.curly)|;
        AtConcat(s.src, b, PrintArgs(n.curly), ";");
        AtHead(s.src, z, ";");
        NoBlank(s.src, z);
        r := Command(n.name, square, args, start);
      }
    }
    AlikeCommand(r, n);
  }

  lemma CanonicalSquares(n: Node)
    requires n.Command? && CanonicalNode(n)
    ensures CanonicalBrackets(n.square)
  {
  }

  predicate CanonicalBrackets(square: SquareArgs) {
    square.Square? ==> forall k :: 0 <= k < |square.args| ==> CanonicalSquare(square.args[k])
  }

  lemma NothingPrinted()
    ensures PrintArgs([]) == "" && AlikeArgs([], []) && PrintSquare(NoSquare) == "" && AlikeSquare(NoSquare, NoSquare)
  {
  }

  lemma AlikeCommand(a: Node, b: Node)
    requires a.Command? && b.Command? && a.name == b.name
    requires AlikeSquare(a.square, b.square) && AlikeArgs(a.curly, b.curly)
    ensures Alike(a, b)
  {
    hide AlikeArgs, AlikeSquare;
  }

  /** Reading back what stands in square brackets, or that nothing does. */
  lemma {:induction false} SquareReadBack(s: Input, square: SquareArgs, p: nat) returns (r: SquareArgs)
    requires Reads(s) && ReadableSquare(s.double, square) && CanonicalBrackets(square)
    requires p < |s.src| && (square.NoSquare? ==> s.src[p] in "|;") && At(s.src, p, PrintSquare(square))
    ensures AlikeSquare(r, square)
    ensures OptionalSquare(s, p) == Ok(p + |PrintSquare(square)|, r)
    decreases square
  {
    hide OptionalSquare, SquareList, PrintEntries, Reads, AlikeSquareArgs, ReadableArg, CanonicalSquare;
    match square
    case NoSquare =>
      NoSquareReads(s, p);
      r := NoSquare;
    case Square(args) =>
      AtConcat(s.src, p, "[", PrintEntries(args) + "]");
      AtHead(s.src, p, "[");
      AtConcat(s.src, p + 1, PrintEntries(args), "]");
      AtHead(s.src, p + 1 + |PrintEntries(args)|, "]");
      var list := EntriesReadBack(s, args, p + 1);
      SquareReads(s, p, p + 1 + |PrintEntries(args)|, list);
      r := Square(list);
  }

  /** A print of what comes after an argument, and the bracket, end the argument. */
  lemma MoreHead(src: string, args: seq<SquareArg>, p: nat)
    requires At(src, p, PrintMore(args) + "]")
    ensures ArgumentEnds(src, p) && src[p] == if args == [] then ']' else ','
  {
    hide PrintSquareArg;
    AtHead(src, p, PrintMore(args) + "]");
  }

  lemma ListReads(s: Input, p: nat, a: nat, first: SquareArg, z: nat, more: seq<SquareArg>)
    requires p <= |s.src| && SquareArgument(s, p) == Ok(a, first)
    requires a <= |s.src| && MoreSquare(s, a) == Ok(z, more) && CharAt(s.src, z, ']')
    ensures SquareList(s, p) == Ok(z, [first] + more)
  {
    hide SquareArgument, MoreSquare, OptionalComma;
    NoComma(s.src, z);
  }

  lemma EmptyListReads(s: Input, p: nat)
    requires Numeric(s.double) && CharAt(s.src, p, ']')
    ensures SquareList(s, p) == Ok(p, [])
  {
    hide SquareArgument, MoreSquare, OptionalComma, Numeric;
    NoArgument(s, p);
    NoComma(s.src, p);
  }

  lemma MoreReads(s: Input, p: nat, a: nat, arg: SquareArg, z: nat, more: seq<SquareArg>)
    requires CharAt(s.src, p, ',') && Solid(s.src, p + 1) && SquareArgument(s, p + 1) == Ok(a, arg)
    requires a <= |s.src| && MoreSquare(s, a) == Ok(z, more)
    ensures MoreSquare(s, p) == Ok(z, [arg] + more)
  {
    hide SquareArgument, CommaSep;
    CommaReads(s.src, p);
  }

  lemma NoMore(s: Input, p: nat)
    requires CharAt(s.src, p, ']')
    ensures MoreSquare(s, p) == Ok(p, [])
  {
    hide SquareArgument, CommaSep;
    NoComma(s.src, p);
  }

  lemma {:induction false} EntriesReadBack(s: Input, args: seq<SquareArg>, p: nat) returns (r: seq<SquareArg>)
    requires Reads(s) && forall k :: 0 <= k < |args| ==> ReadableArg(s.double, args[k]) && CanonicalSquare(args[k])
    requires At(s.src, p, PrintEntries(args)) && CharAt(s.src, p + |PrintEntries(args)|, ']')
    ensures AlikeSquareArgs(r, args)
    ensures SquareList(s, p) == Ok(p + |PrintEntries(args)|, r)
    decreases args
  {
    hide SquareList, SquareArgument, MoreSquare, PrintSquareArg, PrintMore, AlikeSquareArg, ReadableArg,
         CanonicalSquare;
    if args == [] {
      EmptyListReads(s, p);
      r := [];
    } else {
      var a := p + |PrintSquareArg(args[0])|;
      AtConcat(s.src, p, PrintSquareArg(args[0]), PrintMore(args[1..]));
      AtBracket(s.src, a, PrintMore(args[1..]));
      MoreHead(s.src, args[1..], a);
      var first := SquareArgReadBack(s, args[0], p);
      var more := MoreReadBack(s, args[1..], a);
      ListReads(s, p, a, first, p + |PrintEntries(args)|, more);
      r := [first] + more;
    }
  }

  lemma AtBracket(src: string, p: nat, t: string)
    requires At(src, p, t) && CharAt(src, p + |t|, ']')
    ensures At(src, p, t + "]")
  {
    AtConcat(src, p, t, "]");
  }

  lemma {:induction false} MoreReadBack(s: Input, args: seq<SquareArg>, p: nat) returns (r: seq<SquareArg>)
    requires Reads(s) && forall k :: 0 <= k < |args| ==> ReadableArg(s.double, args[k]) && CanonicalSquare(args[k])
    requires At(s.src, p, PrintMore(args) + "]")
    ensures AlikeSquareArgs(r, args)
    ensures MoreSquare(s, p) == Ok(p + |PrintMore(args)|, r)
    decreases args
  {
    hide SquareArgument, MoreSquare, PrintSquareArg, AlikeSquareArg, ReadableArg, CanonicalSquare, Reads, Solid;
    MoreHead(s.src, args, p);
    if args == [] {
      NoMore(s, p);
      r := [];
    } else {
      var rest := PrintMore(args[1..]) + "]";
      assert PrintMore(args) + "]" == "," + (PrintSquareArg(args[0]) + rest);
      AtConcat(s.src, p, ",", PrintSquareArg(args[0]) + rest);
      AtConcat(s.src, p + 1, PrintSquareArg(args[0]), rest);
      var a := p + 1 + |PrintSquareArg(args[0])|;
      MoreHead(s.src, args[1..], a);
      var first := SquareArgReadBack(s, args[0], p + 1);
      var more := MoreReadBack(s, args[1..], a);
      MoreReads(s, p, a, first, a + |PrintMore(args[1..])|, more);
      r := [first] + more;
    }
  }

  /** Reading back one argument, with a comma or the closing bracket after it. */
  lemma {:induction false} SquareArgReadBack(s: Input, arg: SquareArg, p: nat) returns (r: SquareArg)
    requires Reads(s) && ReadableArg(s.double, arg) && CanonicalSquare(arg)
    requires At(s.src, p, PrintSquareArg(arg))
    requires ArgumentEnds(s.src, p + |PrintSquareArg(arg)|)
    ensures Solid(s.src, p) && AlikeSquareArg(r, arg)
    ensures SquareArgument(s, p) == Ok(p + |PrintSquareArg(arg)|, r)
    decreases arg
  {
    hide SquareArgument, SquareEntryAt, PrintEntry, AlikeEntry, ReadableEntry, CanonicalEntry, Reads, Solid;
    match arg
    case Val(e) =>
      var entry := EntryReadBack(s, e, p);
      ValReads(s, p, p + |PrintEntry(e)|, entry);
      r := Val(entry);
    case KeyVal(k, v) =>
      var a := p + |PrintEntry(k)|;
      AtConcat(s.src, p, PrintEntry(k), "=" + PrintEntry(v));
      AtConcat(s.src, a, "=", PrintEntry(v));
      AtHead(s.src, a, "=");
      EqualsStops(s.src, a);
      var key := EntryReadBack(s, k, p);
      var val := EntryReadBack(s, v, a + 1);
      KeyValReads(s, p, a, a + 1 + |PrintEntry(v)|, key, val);
      r := KeyVal(key, val);
  }

  lemma EqualsStops(src: string, p: nat)
    requires CharAt(src, p, '=')
    ensures Solid(src, p) && StopsAt(src, p)
  {
  }

  lemma {:induction false} EntryReadBack(s: Input, e: SquareEntry, p: nat) returns (r: SquareEntry)
    requires Reads(s) && ReadableEntry(s.double, e) && CanonicalEntry(e) && At(s.src, p, PrintEntry(e))
    requires var q := p + |PrintEntry(e)|; Solid(s.src, q) && StopsAt(s.src, q)
    ensures Solid(s.src, p) && AlikeEntry(r, e)
    ensures SquareEntryAt(s, p) == Ok(p + |PrintEntry(e)|, r)
    decreases e
  {
    hide SquareEntryAt, BareEntry, ParseCommand, Alike, PrintCommand, StopsAt, Numeric, Readable, Takes, NoWord, IsName;
    EntryHead(s.double, e);
    AtHead(s.src, p, PrintEntry(e));
    match e {
      case Num(text) =>
        NumReads(s, p, text);
        r := e;
      case Ident(id) =>
        IdentReads(s, p, id);
        r := e;
      case Bool(b) =>
        BoolReads(s, p, b);
        r := e;
      case QuotedStr(t) =>
        StringReads(s, p, t);
        r := e;
      case Cmd(node) =>
        var read := CommandInEntry(s, node, p);
        CommandEntryReads(s, p, p + |PrintCommand(node)|, read);
        r := Cmd(read);
    }
    SolidEntry(s, p, p + |PrintEntry(e)|, r);
  }

  lemma {:induction false} CommandInEntry(s: Input, n: Node, p: nat) returns (r: Node)
    requires Reads(s) && n.Command? && CanonicalNode(n) && Readable(s.double, n) && At(s.src, p, PrintCommand(n))
    ensures Alike(r, n) && CharAt(s.src, p, '@')
    ensures ParseCommand(s, DEFAULT_ESCAPE_MATCH, p) == Ok(p + |PrintCommand(n)|, r)
    decreases n, 2
  {
    hide ParseCommand, Alike, Readable, PrintSquare, PrintArgs, Numeric, CanonicalNode;
    AtHead(s.src, p, PrintCommand(n));
    assert DEFAULT_ESCAPE_MATCH.escape + PrintCommand(n) == PrintCommand(n);
    r := CommandReadBack(s, n, DEFAULT_ESCAPE_MATCH, p);
  }

  /** Printed arguments start with a bar; without any, the semicolon comes. */
  lemma ArgsHead(src: string, args: seq<CurlyArg>, p: nat)
    requires At(src, p, PrintArgs(args) + ";")
    ensures p < |src| && src[p] == if args == [] then ';' else '|'
  {
    AtHead(src, p, PrintArgs(args) + ";");
    if args != [] {
      assert PrintArg(args[0])[0] == '|';
    }
  }

  lemma {:induction false} ArgsReadBack(s: Input, args: seq<CurlyArg>, p: nat) returns (r: seq<CurlyArg>)
    requires Reads(s) && At(s.src, p, PrintArgs(args) + ";")
    requires forall k :: 0 <= k < |args| ==> Canonical(args[k].nodes) && ReadableIn(s.double, args[k].nodes)
    ensures AlikeArgs(r, args)
    ensures CurlyArguments(s, p) == Ok(p + |PrintArgs(args)|, r)
    decreases args
  {
    hide CurlyArgument, CurlyArguments, PrintArg, AlikeAll, SkipBlank, Numeric, Canonical, ReadableIn;
    ArgsHead(s.src, args, p);
    SkipBlankStays(s.src, p);
    if args == [] {
      NoCurlyArgument(s, p);
      CurlyArgumentsStep(s, p);
      r := [];
    } else {
      var rest := PrintArgs(args[1..]) + ";";
      assert PrintArgs(args) + ";" == PrintArg(args[0]) + rest;
      AtConcat(s.src, p, PrintArg(args[0]), rest);
      var nodes := ArgReadBack(s, args[0], p);
      var more := ArgsReadBack(s, args[1..], p + |PrintArg(args[0])|);
      r := [CurlyArg(nodes)] + more;
      CurlyArgumentsStep(s, p);
    }
  }

  lemma {:induction false} ArgReadBack(s: Input, arg: CurlyArg, p: nat) returns (r: seq<Node>)
    requires Reads(s) && Printable(s.double, arg.nodes) && At(s.src, p, PrintArg(arg))
    ensures AlikeAll(r, arg.nodes)
    ensures CurlyArgument(s, p) == Ok(p + |PrintArg(arg)|, r)
    decreases arg
  {
    hide TextLoop, PrintNodes, AlikeAll, CurlyArgument, GenericOpenCurly, OpenFence, CloseFence, EscapeFence, Usable,
         Numeric, Canonical, ReadableIn;
    var k := Margin(arg.nodes);
    FenceMatch(k);
    var body := PrintNodes(arg.nodes, k) + CloseFence(k);
    assert PrintArg(arg) == OpenFence(k) + body;
    AtConcat(s.src, p, OpenFence(k), body);
    GenericOpenCurlyReads(s.src, p, OpenFence(k));
    var a := p + |OpenFence(k)|;
    r := NodesReadBack(s, arg.nodes, k, a, []);
    assert [] + r == r;
    var z := a + |PrintNodes(arg.nodes, k)|;
    AtConcat(s.src, a, PrintNodes(arg.nodes, k), CloseFence(k));
    CurlyArgumentReads(s, p, a, Fence(k), z, r);
  }

  /** Printing then parsing: any canonical command whose square entries are readable is
      read back, in any escape, and exactly its print is consumed. */
  lemma PrintThenParse(s: Input, n: Node, em: EscapeMatch, p: nat)
    requires Numeric(s.double) && n.Command? && CanonicalNode(n) && Readable(s.double, n)
    requires At(s.src, p, em.escape + PrintCommand(n))
    ensures p <= |s.src|
    ensures var r := ParseCommand(s, em, p);
            r.Ok? && r.rest == p + |em.escape + PrintCommand(n)| && Alike(r.value, n)
  {
    hide ParseCommand, PrintCommand, Alike;
    assert s == Fast(s) || s == Slow(s);
    CommandSame(s, em, p);
    var r := CommandReadBack(Slow(s), n, em, p);
  }
}
