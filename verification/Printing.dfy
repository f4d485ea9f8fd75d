/** Printing a syntax tree so that the parser reads it back.

    Every argument is fenced with `|<<<{` and `}>>>|`, one bracket more than its
    longest text has characters; commands inside it carry the escape `|<<<`;
    newlines are written `\r\n`, so that a carriage return may precede them.
    Square arguments are written without spaces, strings with escapes where they
    need them. */
module Printing {
  import opened Spans
  import opened Ast
  import opened Parser
  import opened Fences
  import StringSpelling

  /** One more than the length of the longest text. */
  function Margin(ns: seq<Node>): (k: nat)
    ensures k >= 1
    ensures forall i :: 0 <= i < |ns| && ns[i].Text? ==> |ns[i].content| < k
  {
    if ns == [] then 1
    else
      var rest := Margin(ns[1..]);
      if ns[0].Text? && |ns[0].content| >= rest then |ns[0].content| + 1 else rest
  }

  function PrintNode(n: Node, k: nat): string
    decreases n
  {
    match n
    case Text(content, _) => if content == "\n" then "\r\n" else content
    case Command(_, _, _, _) => EscapeFence(k) + PrintCommand(n)
  }

  function PrintNodes(ns: seq<Node>, k: nat): string
    decreases ns
  {
    if ns == [] then "" else PrintNode(ns[0], k) + PrintNodes(ns[1..], k)
  }

  function PrintCommand(n: Node): string
    requires n.Command?
    decreases n, 0
  {
    "@" + (n.name + (PrintSquare(n.square) + (PrintArgs(n.curly) + ";")))
  }

  function PrintArgs(args: seq<CurlyArg>): string
    decreases args
  {
    if args == [] then "" else PrintArg(args[0]) + PrintArgs(args[1..])
  }

  function PrintArg(arg: CurlyArg): string
    decreases arg
  {
    var k := Margin(arg.nodes);
    OpenFence(k) + PrintNodes(arg.nodes, k) + CloseFence(k)
  }

  function PrintSquare(square: SquareArgs): string
    decreases square
  {
    match square
    case NoSquare => ""
    case Square(args) => "[" + (PrintEntries(args) + "]")
  }

  function PrintEntries(args: seq<SquareArg>): string
    decreases args
  {
    if args == [] then "" else PrintSquareArg(args[0]) + PrintMore(args[1..])
  }

  /** The arguments after the first. */
  function PrintMore(args: seq<SquareArg>): string
    decreases args
  {
    if args == [] then "" else "," + (PrintSquareArg(args[0]) + PrintMore(args[1..]))
  }

  function PrintSquareArg(arg: SquareArg): string
    decreases arg
  {
    match arg
    case Val(entry) => PrintEntry(entry)
    case KeyVal(key, val) => PrintEntry(key) + ("=" + PrintEntry(val))
  }

  function PrintEntry(e: SquareEntry): string
    decreases e
  {
    match e
    case Num(text) => text
    case Ident(id) => id
    case Bool(b) => if b then "true" else "false"
    case QuotedStr(s) => "\"" + (StringSpelling.SourceAll(Spelled(s)) + "\"")
    case Cmd(node) => if node.Command? then PrintCommand(node) else ""
  }

  /** A spelling of any string: quotes, backslashes and carriage returns escaped. */
  function Spelled(s: string): (xs: seq<StringSpelling.Piece>)
    ensures |xs| == |s|
    ensures forall k :: 0 <= k < |s| ==> xs[k] == SpelledChar(s[k])
  {
    seq(|s|, k requires 0 <= k < |s| => SpelledChar(s[k]))
  }

  function SpelledChar(c: char): StringSpelling.Piece {
    if c == '"' || c == '\\' then StringSpelling.Named(c)
    else if c == '\r' then StringSpelling.Named('r')
    else StringSpelling.Raw(c)
  }

  /** What may follow an entry of a list in square brackets. */
  predicate Stops(c: char) { IsMultispace(c) || c in ",]=" }

  predicate NoStop(t: string) {
    forall k :: 0 <= k < |t| ==> !Stops(t[k])
  }

  predicate StartsStop(t: string) { t != "" && Stops(t[0]) }

  predicate NumberStart(c: char) { IsDigit(c) || c in "+-.iInN" }

  /** What any recogniser of floating-point numbers does: a number starts like one,
      spans nothing that ends an entry, and does not depend on what comes after that. */
  ghost predicate Numeric(d: string -> nat) {
    && (forall t :: d(t) <= |t| && (d(t) > 0 ==> NumberStart(t[0]) && NoStop(t[..d(t)])))
    && forall a, b, c :: NoStop(a) && StartsStop(b) && StartsStop(c) ==> d(a + b) == d(a + c)
  }

  /** Where an entry ends after `text`, a number of `n` characters is recognised. */
  ghost predicate Takes(d: string -> nat, text: string, n: nat) {
    forall rest :: StartsStop(rest) ==> d(text + rest) == n
  }

  /** The text is not taken for a boolean. */
  predicate NoWord(text: string) { !AtNoCase(text, 0, "true") && !AtNoCase(text, 0, "false") }

  /** A number is one for the recogniser, and a name is none; neither starts like a
      boolean. These are the entries that can be written at all. */
  ghost predicate ReadableEntry(d: string -> nat, e: SquareEntry)
    decreases e
  {
    match e
    case Num(text) => text != "" && NumberStart(text[0]) && NoWord(text) && Takes(d, text, |text|)
    case Ident(id) => IsName(id) && NoWord(id) && Takes(d, id, 0)
    case Bool(_) => true
    case QuotedStr(_) => true
    case Cmd(node) => Readable(d, node)
  }

  ghost predicate ReadableArg(d: string -> nat, a: SquareArg)
    decreases a
  {
    match a
    case Val(entry) => ReadableEntry(d, entry)
    case KeyVal(key, val) => ReadableEntry(d, key) && ReadableEntry(d, val)
  }

  ghost predicate ReadableSquare(d: string -> nat, square: SquareArgs)
    decreases square
  {
    square.Square? ==> forall k :: 0 <= k < |square.args| ==> ReadableArg(d, square.args[k])
  }

  /** All entries in square brackets, at any depth, are readable. */
  ghost predicate Readable(d: string -> nat, n: Node)
    decreases n
  {
    n.Command? ==>
      ReadableSquare(d, n.square) && forall k :: 0 <= k < |n.curly| ==> ReadableIn(d, n.curly[k].nodes)
  }

  ghost predicate ReadableIn(d: string -> nat, ns: seq<Node>)
    decreases ns
  {
    forall k :: 0 <= k < |ns| ==> Readable(d, ns[k])
  }

  /** The same node but for start offsets. */
  predicate Alike(a: Node, b: Node)
    decreases a
  {
    match a
    case Text(content, _) => b.Text? && b.content == content
    case Command(name, square, curly, _) =>
      b.Command? && b.name == name && AlikeSquare(square, b.square) && AlikeArgs(curly, b.curly)
  }

  predicate AlikeArgs(a: seq<CurlyArg>, b: seq<CurlyArg>)
    decreases a
  {
    |a| == |b| && forall k :: 0 <= k < |a| ==> AlikeAll(a[k].nodes, b[k].nodes)
  }

  predicate AlikeAll(a: seq<Node>, b: seq<Node>)
    decreases a
  {
    |a| == |b| && forall k :: 0 <= k < |a| ==> Alike(a[k], b[k])
  }

  predicate AlikeSquare(a: SquareArgs, b: SquareArgs)
    decreases a
  {
    match a
    case NoSquare => b.NoSquare?
    case Square(args) => b.Square? && AlikeSquareArgs(args, b.args)
  }

  predicate AlikeSquareArgs(a: seq<SquareArg>, b: seq<SquareArg>)
    decreases a
  {
    |a| == |b| && forall k :: 0 <= k < |a| ==> AlikeSquareArg(a[k], b[k])
  }

  predicate AlikeSquareArg(a: SquareArg, b: SquareArg)
    decreases a
  {
    match a
    case Val(entry) => b.Val? && AlikeEntry(entry, b.entry)
    case KeyVal(key, val) => b.KeyVal? && AlikeEntry(key, b.key) && AlikeEntry(val, b.val)
  }

  predicate AlikeEntry(a: SquareEntry, b: SquareEntry)
    decreases a
  {
    match a
    case Cmd(node) => b.Cmd? && Alike(node, b.node)
    case _ => b == a
  }
}
