/** The syntax tree the parser builds. */
module Ast {
  /** `at` is the start offset, counted in characters of the source. */
  datatype Node =
    | Text(content: string, at: nat)
    | Command(name: string, square: SquareArgs, curly: seq<CurlyArg>, at: nat)

  /** One argument in curly braces: a list of nodes. */
  datatype CurlyArg = CurlyArg(nodes: seq<Node>)

  /** The optional argument list in square brackets. */
  datatype SquareArgs = NoSquare | Square(args: seq<SquareArg>)

  datatype SquareArg = Val(entry: SquareEntry) | KeyVal(key: SquareEntry, val: SquareEntry)

  /** A number keeps the text it was read from. */
  datatype SquareEntry =
    | Num(text: string)
    | Ident(id: string)
    | Bool(b: bool)
    | QuotedStr(s: string)
    | Cmd(node: Node)

  datatype Root = Root(sub: seq<Node>, at: nat)

  predicate IsAlpha(c: char) { 'a' <= c <= 'z' || 'A' <= c <= 'Z' }

  predicate IsDigit(c: char) { '0' <= c <= '9' }

  predicate IsIdentStart(c: char) { IsAlpha(c) || c == '_' || c == ':' }

  predicate IsIdentChar(c: char) { IsIdentStart(c) || IsDigit(c) }

  function ToLower(c: char): char {
    if 'A' <= c <= 'Z' then (c as int + 32) as char else c
  }

  predicate EqIgnoreCase(s: string, t: string) {
    |s| == |t| && forall k :: 0 <= k < |s| ==> ToLower(s[k]) == ToLower(t[k])
  }

  predicate IsReserved(candidate: string) {
    || EqIgnoreCase(candidate, "true")
    || EqIgnoreCase(candidate, "false")
    || EqIgnoreCase(candidate, "undefined")
    || EqIgnoreCase(candidate, "null")
  }

  /** The names a command can be written with. */
  predicate IsName(s: string) {
    && s != ""
    && IsIdentStart(s[0])
    && (forall k :: 0 <= k < |s| ==> IsIdentChar(s[k]))
    && !IsReserved(s)
  }

  /** A text node holds one newline and nothing else, or is non-empty and holds none. */
  predicate CanonicalText(s: string) {
    s == "\n" || (s != "" && '\n' !in s)
  }

  /** A text node that the next text may be merged into. */
  predicate Mergeable(n: Node) {
    n.Text? && n.content != "\n"
  }

  /** No two texts that should have been one. */
  predicate Merged(ns: seq<Node>) {
    forall k :: 0 <= k < |ns| - 1 ==> !(Mergeable(ns[k]) && Mergeable(ns[k + 1]))
  }

  predicate CanonicalNode(n: Node)
    decreases n
  {
    match n
    case Text(content, _) => CanonicalText(content)
    case Command(name, square, curly, _) =>
      && IsName(name)
      && (forall k :: 0 <= k < |curly| ==> Canonical(curly[k].nodes))
      && (square.Square? ==> forall k :: 0 <= k < |square.args| ==> CanonicalSquare(square.args[k]))
  }

  /** The canonical form of a list of nodes, at every depth. */
  predicate Canonical(ns: seq<Node>)
    decreases ns
  {
    Merged(ns) && forall k :: 0 <= k < |ns| ==> CanonicalNode(ns[k])
  }

  predicate CanonicalEntry(e: SquareEntry)
    decreases e
  {
    e.Cmd? ==> e.node.Command? && CanonicalNode(e.node)
  }

  predicate CanonicalSquare(a: SquareArg)
    decreases a
  {
    match a
    case Val(e) => CanonicalEntry(e)
    case KeyVal(k, v) => CanonicalEntry(k) && CanonicalEntry(v)
  }

  /** Appends a node, merging two texts unless either is a newline. */
  function AddNode(contents: seq<Node>, n: Node): (r: seq<Node>)
    ensures Canonical(contents) && CanonicalNode(n) ==> Canonical(r)
  {
    if contents != [] && Mergeable(contents[|contents| - 1]) && Mergeable(n) then
      var last := contents[|contents| - 1];
      var joined := last.(content := last.content + n.content);
      assert CanonicalNode(last) && CanonicalNode(n) ==> CanonicalNode(joined) by {
        assert forall c :: c in joined.content ==> c in last.content || c in n.content;
      }
      contents[..|contents| - 1] + [joined]
    else
      contents + [n]
  }
}
