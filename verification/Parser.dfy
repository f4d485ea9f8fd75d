/** The document parser: text with a user-chosen delimiter, commands, arguments. */
module Parser {
  import opened Spans
  import opened Ast
  import opened Delimiters
  import opened Comments
  import StringLiterals

  /** What a parse depends on: the source; the floating-point recogniser, which
      says how many characters of a suffix it accepts (0: no match); whether
      `debug_assert!` is compiled in; and whether plain text is taken in long
      runs or one character at a time. */
  datatype Input = Input(src: string, double: string -> nat, debugAsserts: bool, longRuns: bool)

  predicate IsPlain(c: char) { c !in "\r\n@%|{}" }

  /** One character whatever it is and then, in the long form, all the plain ones. */
  function GenericText(s: Input, p: nat): (r: PResult<Node>)
    requires p <= |s.src|
    ensures !r.Panic?
    ensures r.Ok? <==> p < |s.src|
    ensures r.Ok? ==> p < r.rest <= |s.src| && r.value == Text(s.src[p..r.rest], p)
    ensures r.Ok? && s.src[p] != '\n' ==> CanonicalNode(r.value)
  {
    if p == |s.src| then Err
    else
      var q := if s.longRuns then RunWhile(s.src, p + 1, IsPlain) else p + 1;
      Ok(q, Text(s.src[p..q], p))
  }

  /** One turn's worth of ordinary content; a comment yields no node. */
  function Unit(s: Input, em: EscapeMatch, p: nat): (r: PResult<Option<Node>>)
    requires p <= |s.src|
    ensures p < |s.src| ==> !r.Err?
    ensures r.Ok? ==> p < r.rest <= |s.src| && (r.value.Some? ==> CanonicalNode(r.value.value))
    decreases |s.src| - p, 3
  {
    var newline := OneNewline(s.src, p);
    if newline.Ok? then Ok(newline.rest, Some(newline.value))
    else
      var comment := Comment(s.src, p, em);
      if comment.Ok? then Ok(comment.rest, None)
      else
        match ParseCommand(s, em, p)
        case Ok(z, n) => Ok(z, Some(n))
        case Panic => Panic
        case Err =>
          var text := GenericText(s, p);
          if text.Ok? then Ok(text.rest, Some(text.value)) else Err
  }

  function AddUnit(contents: seq<Node>, n: Option<Node>): (r: seq<Node>)
    ensures Canonical(contents) && (n.Some? ==> CanonicalNode(n.value)) ==> Canonical(r)
  {
    if n.Some? then AddNode(contents, n.value) else contents
  }

  /** The end of a text: its debug assertion, when compiled in. */
  function Finish(s: Input, root: bool, balance: nat, p: nat, contents: seq<Node>): PResult<seq<Node>> {
    if s.debugAsserts && !(if root then balance == 1 && p == |s.src| else balance == 0) then Panic
    else Ok(p, contents)
  }

  /** Text from `p` on, inside `balance` open delimiters, after `contents`. */
  function TextLoop(s: Input, root: bool, em: EscapeMatch, p: nat, balance: nat, contents: seq<Node>)
    : (r: PResult<seq<Node>>)
    requires p <= |s.src| && Usable(em) && balance >= 1
    ensures !r.Err?
    ensures r.Ok? ==> p <= r.rest <= |s.src|
    ensures r.Ok? ==> r.rest == |s.src| || At(s.src, r.rest, em.close)
    ensures r.Ok? && Canonical(contents) ==> Canonical(r.value)
    decreases |s.src| - p, 4
  {
    if At(s.src, p, em.open) then
      TextLoop(s, root, em, p + |em.open|, balance + 1, AddNode(contents, Text(em.open, p)))
    else if At(s.src, p, em.close) then
      if balance == 1 then Finish(s, root, 0, p, contents)
      else TextLoop(s, root, em, p + |em.close|, balance - 1, AddNode(contents, Text(em.close, p)))
    else if p == |s.src| then Finish(s, root, balance, p, contents)
    else
      match Unit(s, em, p)
      case Panic => Panic
      case Err => Err
      case Ok(z, n) =>
        TextLoop(s, root, em, z, balance, AddUnit(contents, n))
  }

  lemma LoopAtOpen(s: Input, root: bool, em: EscapeMatch, p: nat, balance: nat, contents: seq<Node>)
    requires Usable(em) && balance >= 1 && At(s.src, p, em.open)
    ensures TextLoop(s, root, em, p, balance, contents)
         == TextLoop(s, root, em, p + |em.open|, balance + 1, AddNode(contents, Text(em.open, p)))
  {
    hide Unit, AddNode;
  }

  lemma LoopAtClose(s: Input, root: bool, em: EscapeMatch, p: nat, balance: nat, contents: seq<Node>)
    requires Usable(em) && balance >= 1 && At(s.src, p, em.close)
    ensures TextLoop(s, root, em, p, balance, contents)
         == if balance == 1 then Finish(s, root, 0, p, contents)
            else TextLoop(s, root, em, p + |em.close|, balance - 1, AddNode(contents, Text(em.close, p)))
  {
    hide Unit, AddNode, Finish;
    AtHead(s.src, p, em.open);
    AtHead(s.src, p, em.close);
  }

  lemma LoopAtUnit(s: Input, root: bool, em: EscapeMatch, p: nat, balance: nat, contents: seq<Node>)
    requires p < |s.src| && Usable(em) && balance >= 1
    requires !At(s.src, p, em.open) && !At(s.src, p, em.close)
    ensures Unit(s, em, p).Panic? ==> TextLoop(s, root, em, p, balance, contents).Panic?
    ensures Unit(s, em, p).Ok? ==>
              TextLoop(s, root, em, p, balance, contents) ==
              TextLoop(s, root, em, Unit(s, em, p).rest, balance, AddUnit(contents, Unit(s, em, p).value))
  {
    hide Unit, AddNode;
  }

  lemma LoopAtEnd(s: Input, root: bool, em: EscapeMatch, balance: nat, contents: seq<Node>)
    requires Usable(em) && balance >= 1
    ensures TextLoop(s, root, em, |s.src|, balance, contents) == Finish(s, root, balance, |s.src|, contents)
  {
    hide Unit, AddNode;
  }

  /** The text inside a delimiter that has just been opened, or the whole document. */
  function TextFrom(s: Input, root: bool, em: EscapeMatch, p: nat): (r: PResult<seq<Node>>)
    requires p <= |s.src| && Usable(em)
    ensures !r.Err?
    ensures r.Ok? ==> p <= r.rest <= |s.src| && Canonical(r.value)
    ensures r.Ok? ==> r.rest == |s.src| || At(s.src, r.rest, em.close)
    decreases |s.src| - p, 5
  {
    TextLoop(s, root, em, p, 1, [])
  }

  /** Not an error to recover from once `@` has matched: a malformed command panics. */
  function ParseCommand(s: Input, em: EscapeMatch, p: nat): (r: PResult<Node>)
    requires p <= |s.src|
    ensures r.Ok? ==> p < r.rest <= |s.src| && r.value.Command? && r.value.at == p && CanonicalNode(r.value)
    decreases |s.src| - p, 2
  {
    if !At(s.src, p, em.escape + "@") then Err
    else
      var a := p + |em.escape| + 1;
      if a == |s.src| || s.src[a] in "%|{" then Err
      else
        match ParseContents(s, p, a)
        case Ok(z, n) => Ok(z, n)
        case _ => Panic
  }

  /** What follows the `@`: a name, optional square arguments, curly arguments. */
  function ParseContents(s: Input, start: nat, p: nat): (r: PResult<Node>)
    requires p <= |s.src|
    ensures r.Ok? ==> p < r.rest <= |s.src| && r.value.Command? && r.value.at == start && CanonicalNode(r.value)
    decreases |s.src| - p, 6
  {
    var id := Identifier(s.src, p);
    if !id.Ok? then Err
    else
      var (a, name) := (id.rest, id.value);
      match AfterBlank(s.src, a, ';')
      case Some(z) => Ok(z, Command(name, NoSquare, [], start))
      case None =>
        match OptionalSquare(s, a)
        case Err => Err
        case Panic => Panic
        case Ok(b, square) =>
          match AfterBlank(s.src, b, ';')
          case Some(z) => Ok(z, Command(name, square, [], start))
          case None =>
            match CurlyArguments(s, b)
            case Err => Err
            case Panic => Panic
            case Ok(c, curly) =>
              var z := AfterBlank(s.src, c, ';');
              Ok(if z.Some? then z.value else c, Command(name, square, curly, start))
  }

  /** `[`, arguments, `]`; or nothing. */
  function OptionalSquare(s: Input, p: nat): (r: PResult<SquareArgs>)
    requires p <= |s.src|
    ensures r.Ok? ==> p <= r.rest <= |s.src|
    ensures r.Ok? && r.value.Square? ==> forall k :: 0 <= k < |r.value.args| ==> CanonicalSquare(r.value.args[k])
    decreases |s.src| - p, 6
  {
    match AfterBlank(s.src, p, '[')
    case None => Ok(p, NoSquare)
    case Some(a) =>
      match SquareList(s, a)
      case Err => Err
      case Panic => Panic
      case Ok(z, args) => if CharAt(s.src, z, ']') then Ok(z + 1, Square(args)) else Err
  }

  /** As many curly arguments as follow. */
  function CurlyArguments(s: Input, p: nat): (r: PResult<seq<CurlyArg>>)
    requires p <= |s.src|
    ensures !r.Err?
    ensures r.Ok? ==> p <= r.rest <= |s.src| && forall k :: 0 <= k < |r.value| ==> Canonical(r.value[k].nodes)
    decreases |s.src| - p, 2
  {
    match CurlyArgument(s, SkipBlank(s.src, p))
    case Err => Ok(p, [])
    case Panic => Panic
    case Ok(a, nodes) =>
      match CurlyArguments(s, a)
      case Err => Err
      case Panic => Panic
      case Ok(z, more) => Ok(z, [CurlyArg(nodes)] + more)
  }

  function CurlyArgument(s: Input, p: nat): (r: PResult<seq<Node>>)
    requires p <= |s.src|
    ensures r.Ok? ==> p < r.rest <= |s.src| && Canonical(r.value)
    decreases |s.src| - p, 1
  {
    var open := GenericOpenCurly(s.src, p);
    if !open.Ok? then Err
    else
      match TextFrom(s, false, open.value, open.rest)
      case Err => Err
      case Panic => Panic
      case Ok(z, nodes) => if At(s.src, z, open.value.close) then Ok(z + |open.value.close|, nodes) else Err
  }

  /** A comma with spaces around it. */
  function CommaSep(src: string, p: nat): (q: Option<nat>)
    requires p <= |src|
    ensures q.Some? ==> p < q.value <= |src|
  {
    var a := SkipSpaces(src, p);
    if CharAt(src, a, ',') then Some(SkipSpaces(src, a + 1)) else None
  }

  /** Arguments separated by commas, with an optional comma at the end. */
  function SquareList(s: Input, p: nat): (r: PResult<seq<SquareArg>>)
    requires p <= |s.src|
    ensures !r.Err?
    ensures r.Ok? ==> p <= r.rest <= |s.src| && forall k :: 0 <= k < |r.value| ==> CanonicalSquare(r.value[k])
    decreases |s.src| - p, 6
  {
    match SquareArgument(s, p)
    case Panic => Panic
    case Err => Ok(OptionalComma(s.src, p), [])
    case Ok(a, first) =>
      match MoreSquare(s, a)
      case Err => Err
      case Panic => Panic
      case Ok(z, more) => Ok(OptionalComma(s.src, z), [first] + more)
  }

  function OptionalComma(src: string, p: nat): (q: nat)
    requires p <= |src|
    ensures p <= q <= |src|
  {
    var z := CommaSep(src, p);
    if z.Some? then z.value else p
  }

  /** The arguments after the first: a separator that no argument follows is given back. */
  function MoreSquare(s: Input, p: nat): (r: PResult<seq<SquareArg>>)
    requires p <= |s.src|
    ensures !r.Err?
    ensures r.Ok? ==> p <= r.rest <= |s.src| && forall k :: 0 <= k < |r.value| ==> CanonicalSquare(r.value[k])
    decreases |s.src| - p, 6
  {
    match CommaSep(s.src, p)
    case None => Ok(p, [])
    case Some(a) =>
      match SquareArgument(s, a)
      case Panic => Panic
      case Err => Ok(p, [])
      case Ok(b, arg) =>
        match MoreSquare(s, b)
        case Err => Err
        case Panic => Panic
        case Ok(z, more) => Ok(z, [arg] + more)
  }

  /** `key = value`, or else a single value read afresh from the start. */
  function SquareArgument(s: Input, p: nat): (r: PResult<SquareArg>)
    requires p <= |s.src|
    ensures r.Ok? ==> p < r.rest <= |s.src| && CanonicalSquare(r.value)
    decreases |s.src| - p, 5
  {
    match SquareEntryAt(s, p)
    case Err => Err
    case Panic => Panic
    case Ok(a, key) =>
      var b := SkipSpaces(s.src, a);
      if !CharAt(s.src, b, '=') then Ok(a, Val(key))
      else
        match SquareEntryAt(s, SkipSpaces(s.src, b + 1))
        case Panic => Panic
        case Err => Ok(a, Val(key))
        case Ok(z, val) => Ok(z, KeyVal(key, val))
  }

  function SquareEntryAt(s: Input, p: nat): (r: PResult<SquareEntry>)
    requires p <= |s.src|
    ensures r.Ok? ==> p < r.rest <= |s.src| && CanonicalEntry(r.value)
    decreases |s.src| - p, 4
  {
    var a := SkipSpaces(s.src, p);
    match BareEntry(s, a)
    case Err => Err
    case Panic => Panic
    case Ok(z, e) => Ok(SkipSpaces(s.src, z), e)
  }

  /** The first that matches: boolean, number, name, string, command. */
  function BareEntry(s: Input, p: nat): (r: PResult<SquareEntry>)
    requires p <= |s.src|
    ensures r.Ok? ==> p < r.rest <= |s.src| && CanonicalEntry(r.value)
    decreases |s.src| - p, 3
  {
    var n := s.double(s.src[p..]);
    var id := Identifier(s.src, p);
    if AtNoCase(s.src, p, "true") then Ok(p + 4, Bool(true))
    else if AtNoCase(s.src, p, "false") then Ok(p + 5, Bool(false))
    else if 0 < n && p + n <= |s.src| then Ok(p + n, Num(s.src[p..p + n]))
    else if id.Ok? then Ok(id.rest, Ident(id.value))
    else
      match StringLiterals.QuotedString(s.src, p)
      case Ok(z, str) => Ok(z, QuotedStr(str))
      case Panic => Panic
      case Err =>
        match ParseCommand(s, DEFAULT_ESCAPE_MATCH, p)
        case Ok(z, node) => Ok(z, Cmd(node))
        case Panic => Panic
        case Err => Err
  }

  /** `t`, whatever the case of its letters. */
  predicate AtNoCase(src: string, p: nat, t: string) {
    p + |t| <= |src| && EqIgnoreCase(src[p..p + |t|], t)
  }

  /** A whole document: the root text must reach the end of the source. */
  function ParseRoot(s: Input): (r: PResult<Root>)
    ensures !r.Err?
    ensures r.Ok? ==> r.rest == |s.src| && Canonical(r.value.sub)
  {
    match TextFrom(s, true, DEFAULT_ESCAPE_MATCH, 0)
    case Err => Err
    case Panic => Panic
    case Ok(z, nodes) => if z == |s.src| then Ok(z, Root(nodes, 0)) else Panic
  }

  /** The scanning loop, with the variables it updates. */
  method ScanText(s: Input, root: bool, em: EscapeMatch, p: nat) returns (r: PResult<seq<Node>>)
    requires p <= |s.src| && Usable(em)
    ensures r == TextFrom(s, root, em, p)
  {
    hide TextLoop, Unit, AddNode;
    ghost var all := TextFrom(s, root, em, p);
    var balance: nat := 1;
    var rest: nat := p;
    var contents: seq<Node> := [];
    while true
      invariant p <= rest <= |s.src| && balance >= 1
      invariant all == TextLoop(s, root, em, rest, balance, contents)
      decreases |s.src| - rest
    {
      if At(s.src, rest, em.open) {
        LoopAtOpen(s, root, em, rest, balance, contents);
        contents := AddNode(contents, Text(em.open, rest));
        balance, rest := balance + 1, rest + |em.open|;
      } else if At(s.src, rest, em.close) {
        LoopAtClose(s, root, em, rest, balance, contents);
        balance := balance - 1;
        if balance <= 0 {
          break;
        }
        contents := AddNode(contents, Text(em.close, rest));
        rest := rest + |em.close|;
      } else {
        if rest == |s.src| {
          LoopAtEnd(s, root, em, balance, contents);
          break;
        }
        LoopAtUnit(s, root, em, rest, balance, contents);
        var u := Unit(s, em, rest);
        if !u.Ok? {
          return Panic;
        }
        if u.value.Some? {
          contents := AddNode(contents, u.value.value);
        }
        rest := u.rest;
      }
    }
    r := Finish(s, root, balance, rest, contents);
  }
}
