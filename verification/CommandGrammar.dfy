/** What a command is, written out: the parts an author puts one after the other, and
    that the parser reads a command exactly where those parts stand. The texts inside
    curly arguments are those of `LeftmostScan`, what stands in square brackets is
    that of `EntryGrammar`. */
module CommandGrammar {
  import opened Spans
  import opened Ast
  import opened Delimiters
  import opened Comments
  import opened Parser
  import opened Lexicon
  import opened EntryGrammar

  /** A curly argument from `c` to `d`, in a delimiter of its author's choice. */
  ghost predicate CurlyWritten(s: Input, c: nat, d: nat, nodes: seq<Node>) {
    exists em, y :: CurlyBetween(s, c, y, d, em, nodes)
  }

  ghost predicate CurlyBetween(s: Input, c: nat, y: nat, d: nat, em: EscapeMatch, nodes: seq<Node>) {
    && Delimiter(em) && Usable(em) && At(s.src, c, em.open)
    && TextFrom(s, false, em, c + |em.open|) == Ok(y, nodes)
    && At(s.src, y, em.close) && d == y + |em.close|
  }

  /** No curly argument: no opening form, or one whose text runs to the end of the source. */
  ghost predicate NoCurly(s: Input, c: nat) {
    forall em :: Delimiter(em) && Usable(em) && At(s.src, c, em.open) ==>
      var r := TextFrom(s, false, em, c + |em.open|); r.Ok? && r.rest == |s.src|
  }

  /** As many curly arguments as there are, each with blanks and comments before it. */
  ghost predicate CurliesWritten(s: Input, p: nat, z: nat, args: seq<CurlyArg>)
    decreases |args|
  {
    if args == [] then z == p && exists c :: BlanksTo(s.src, p, c) && NoCurly(s, c)
    else
      exists c: nat, d: nat ::
        BlanksTo(s.src, p, c) && CurlyWritten(s, c, d, args[0].nodes) && CurliesWritten(s, d, z, args[1..])
  }

  /** What follows the square brackets: a semicolon; or curly arguments, and a semicolon
      that may be left out. Without one, the command ends where its last part does. */
  ghost predicate TailWritten(s: Input, p: nat, z: nat, curly: seq<CurlyArg>) {
    exists c: nat, d: nat, e: nat :: TailBetween(s, p, c, d, e, z, curly)
  }

  ghost predicate TailBetween(s: Input, p: nat, c: nat, d: nat, e: nat, z: nat, curly: seq<CurlyArg>) {
    && BlanksTo(s.src, p, c)
    && if CharAt(s.src, c, ';') then curly == [] && z == c + 1
       else CurliesWritten(s, p, d, curly) && BlanksTo(s.src, d, e) && z == (if CharAt(s.src, e, ';') then e + 1 else d)
  }

  /** What follows the name. */
  ghost predicate ArgumentsWritten(s: Input, p: nat, z: nat, square: SquareArgs, curly: seq<CurlyArg>) {
    exists c: nat, d: nat :: ArgumentsBetween(s, p, c, d, z, square, curly)
  }

  ghost predicate ArgumentsBetween(s: Input, p: nat, c: nat, d: nat, z: nat, square: SquareArgs, curly: seq<CurlyArg>) {
    && BlanksTo(s.src, p, c)
    && if CharAt(s.src, c, '[') then
         && square.Square?
         && ListWritten(s, c + 1, d, square.args) && CharAt(s.src, d, ']')
         && TailWritten(s, d + 1, z, curly)
       else square.NoSquare? && TailWritten(s, p, z, curly)
  }

  /** A command after its `@`, from `p` to `z`. */
  ghost predicate ContentsWritten(s: Input, start: nat, p: nat, z: nat, n: Node) {
    n.Command? && n.at == start &&
    exists a :: NameAt(s.src, p, a, n.name) && ArgumentsWritten(s, a, z, n.square, n.curly)
  }

  /** Only one delimiter opens at a place. */
  lemma OneDelimiter(src: string, c: nat, a: nat, em: EscapeMatch)
    requires c <= |src| && GenericOpenCurly(src, c) == Ok(a, em)
    ensures Delimiter(em) && At(src, c, em.open) && a == c + |em.open|
    ensures forall other :: Delimiter(other) && At(src, c, other.open) ==> other == em
  {
    hide GenericOpenCurly, Delimiter;
    DelimitersExactly(src, c, a, em);
    forall other | Delimiter(other) && At(src, c, other.open)
      ensures other == em
    {
      DelimitersExactly(src, c, c + |other.open|, other);
    }
  }

  lemma NoDelimiter(src: string, c: nat)
    requires c <= |src| && !GenericOpenCurly(src, c).Ok?
    ensures forall em :: !(Delimiter(em) && At(src, c, em.open))
  {
    hide GenericOpenCurly, Delimiter;
    forall em
      ensures !(Delimiter(em) && At(src, c, em.open))
    {
      DelimitersExactly(src, c, c + |em.open|, em);
    }
  }

  /** A curly argument is read exactly where one is written, and is no argument, without
      an error, exactly where none is. */
  lemma CurlyExactly(s: Input, c: nat, d: nat, nodes: seq<Node>)
    requires c <= |s.src|
    ensures CurlyArgument(s, c) == Ok(d, nodes) <==> CurlyWritten(s, c, d, nodes)
    ensures CurlyArgument(s, c).Err? <==> NoCurly(s, c)
  {
    hide GenericOpenCurly, Delimiter, TextFrom, Usable, At;
    var open := GenericOpenCurly(s.src, c);
    if open.Ok? {
      OneDelimiter(s.src, c, open.rest, open.value);
      var r := TextFrom(s, false, open.value, open.rest);
      CloseIsInside(s.src, open.value);
      if r.Ok? && At(s.src, r.rest, open.value.close) {
        assert CurlyBetween(s, c, r.rest, r.rest + |open.value.close|, open.value, r.value);
      }
    } else {
      NoDelimiter(s.src, c);
    }
  }

  lemma CloseIsInside(src: string, em: EscapeMatch)
    requires Usable(em)
    ensures !At(src, |src|, em.close)
  {
  }

  lemma {:induction false} CurliesExactly(s: Input, p: nat, z: nat, args: seq<CurlyArg>)
    requires p <= |s.src|
    ensures CurlyArguments(s, p) == Ok(z, args) <==> CurliesWritten(s, p, z, args)
    decreases |args|
  {
    hide CurlyArgument, CurlyWritten, NoCurly, BlanksTo, SkipBlank;
    var c := SkipBlank(s.src, p);
    BlanksExactly(s.src, p, c);
    var arg := CurlyArgument(s, c);
    if args == [] {
      CurlyExactly(s, c, 0, []);
      if CurliesWritten(s, p, z, args) {
        var c' :| BlanksTo(s.src, p, c') && NoCurly(s, c');
        BlanksExactly(s.src, p, c');
      }
    } else {
      if arg.Ok? {
        CurlyExactly(s, c, arg.rest, arg.value);
        CurliesExactly(s, arg.rest, z, args[1..]);
        var more := CurlyArguments(s, arg.rest);
        if CurlyArguments(s, p) == Ok(z, args) {
          assert args == [CurlyArg(arg.value)] + more.value && args[1..] == more.value;
          assert CurlyWritten(s, c, arg.rest, args[0].nodes) && CurliesWritten(s, arg.rest, z, args[1..]);
        }
      }
      if CurliesWritten(s, p, z, args) {
        assert args == [CurlyArg(args[0].nodes)] + args[1..];
        var c': nat, d: nat :|
          BlanksTo(s.src, p, c') && CurlyWritten(s, c', d, args[0].nodes) && CurliesWritten(s, d, z, args[1..]);
        BlanksExactly(s.src, p, c');
        CurlyExactly(s, c, d, args[0].nodes);
        CurliesExactly(s, d, z, args[1..]);
      }
    }
  }

  lemma SquaresExactly(s: Input, p: nat, c: nat)
    requires p <= |s.src| && BlanksTo(s.src, p, c)
    ensures !CharAt(s.src, c, '[') ==> OptionalSquare(s, p) == Ok(p, NoSquare)
    ensures CharAt(s.src, c, '[') ==>
              var list := SquareList(s, c + 1);
              && (OptionalSquare(s, p).Ok? <==> list.Ok? && CharAt(s.src, list.rest, ']'))
              && (OptionalSquare(s, p).Ok? ==> OptionalSquare(s, p) == Ok(list.rest + 1, Square(list.value)))
  {
    hide SquareList, SkipBlank, BlanksTo;
    BlanksExactly(s.src, p, c);
  }

  /** What follows the square brackets, as the parser reads it. */
  function Tail(s: Input, p: nat): (r: PResult<seq<CurlyArg>>)
    requires p <= |s.src|
    ensures r.Ok? ==> p <= r.rest <= |s.src|
  {
    match AfterBlank(s.src, p, ';')
    case Some(z) => Ok(z, [])
    case None =>
      match CurlyArguments(s, p)
      case Err => Err
      case Panic => Panic
      case Ok(d, curly) =>
        var z := AfterBlank(s.src, d, ';');
        Ok(if z.Some? then z.value else d, curly)
  }

  lemma TailsExactly(s: Input, p: nat, z: nat, curly: seq<CurlyArg>)
    requires p <= |s.src|
    ensures Tail(s, p) == Ok(z, curly) <==> TailWritten(s, p, z, curly)
  {
    hide CurlyArguments, CurliesWritten, SkipBlank, BlanksTo;
    var c := SkipBlank(s.src, p);
    BlanksExactly(s.src, p, c);
    var r := CurlyArguments(s, p);
    if r.Ok? {
      CurliesExactly(s, p, r.rest, r.value);
      BlanksExactly(s.src, r.rest, SkipBlank(s.src, r.rest));
    }
    if Tail(s, p) == Ok(z, curly) {
      var d := if r.Ok? then r.rest else 0;
      var e := if r.Ok? then SkipBlank(s.src, r.rest) else 0;
      assert TailBetween(s, p, c, d, e, z, curly);
    }
    if TailWritten(s, p, z, curly) {
      var c': nat, d: nat, e: nat :| TailBetween(s, p, c', d, e, z, curly);
      TailIsRead(s, p, c', d, e, z, curly);
    }
  }

  lemma TailIsRead(s: Input, p: nat, c: nat, d: nat, e: nat, z: nat, curly: seq<CurlyArg>)
    requires p <= |s.src| && TailBetween(s, p, c, d, e, z, curly)
    ensures Tail(s, p) == Ok(z, curly)
  {
    hide CurlyArguments, CurliesWritten, SkipBlank, BlanksTo;
    BlanksExactly(s.src, p, c);
    if !CharAt(s.src, c, ';') {
      CurliesExactly(s, p, d, curly);
      BlanksExactly(s.src, d, e);
    }
  }

  /** The contents of a command are a name, square arguments and a tail. */
  lemma ContentsAre(s: Input, start: nat, p: nat)
    requires p <= |s.src|
    ensures ParseContents(s, start, p).Ok? ==> Identifier(s.src, p).Ok?
    ensures Identifier(s.src, p).Ok? ==>
              var id := Identifier(s.src, p); var square := OptionalSquare(s, id.rest);
              && (ParseContents(s, start, p).Ok? <==> square.Ok? && Tail(s, square.rest).Ok?)
              && (ParseContents(s, start, p).Ok? ==>
                    var tail := Tail(s, square.rest);
                    ParseContents(s, start, p) == Ok(tail.rest, Command(id.value, square.value, tail.value, start)))
  {
    hide Identifier, OptionalSquare, CurlyArguments, SkipBlank;
    var id := Identifier(s.src, p);
    if id.Ok? {
      NoSquareBeforeEnd(s, id.rest);
    }
  }

  lemma NoSquareBeforeEnd(s: Input, a: nat)
    requires a <= |s.src|
    ensures AfterBlank(s.src, a, ';').Some? ==> OptionalSquare(s, a) == Ok(a, NoSquare)
  {
    hide SkipBlank, SquareList;
  }

  /** The contents of a command are read exactly where they are written. */
  lemma ContentsExactly(s: Input, start: nat, p: nat, z: nat, n: Node)
    requires p <= |s.src|
    ensures ParseContents(s, start, p) == Ok(z, n) <==> ContentsWritten(s, start, p, z, n)
  {
    hide Identifier, NameAt, OptionalSquare, Tail, ArgumentsWritten, ParseContents;
    ContentsAre(s, start, p);
    var id := Identifier(s.src, p);
    if id.Ok? {
      NamesExactly(s.src, p, id.rest, id.value);
      if n.Command? {
        ArgumentsAreRead(s, id.rest, z, n.square, n.curly);
      }
    }
    if ContentsWritten(s, start, p, z, n) {
      var a :| NameAt(s.src, p, a, n.name) && ArgumentsWritten(s, a, z, n.square, n.curly);
      NamesExactly(s.src, p, a, n.name);
    }
  }

  predicate ArgumentsRead(s: Input, a: nat, z: nat, square: SquareArgs, curly: seq<CurlyArg>)
    requires a <= |s.src|
  {
    var r := OptionalSquare(s, a);
    r.Ok? && r.value == square && Tail(s, r.rest) == Ok(z, curly)
  }

  lemma ReadArgumentsAreWritten(s: Input, a: nat, z: nat, square: SquareArgs, curly: seq<CurlyArg>)
    requires a <= |s.src| && ArgumentsRead(s, a, z, square, curly)
    ensures ArgumentsWritten(s, a, z, square, curly)
  {
    hide OptionalSquare, Tail, ListWritten, TailWritten, BlanksTo, SquareList, SkipBlank;
    var c := SkipBlank(s.src, a);
    BlanksExactly(s.src, a, c);
    SquaresExactly(s, a, c);
    TailsExactly(s, OptionalSquare(s, a).rest, z, curly);
    var d := 0;
    if CharAt(s.src, c, '[') {
      var list := SquareList(s, c + 1);
      ListsExactly(s, c + 1, list.rest, list.value);
      d := list.rest;
    }
    assert ArgumentsBetween(s, a, c, d, z, square, curly);
  }

  lemma WrittenArgumentsAreRead(s: Input, a: nat, c: nat, d: nat, z: nat, square: SquareArgs, curly: seq<CurlyArg>)
    requires a <= |s.src| && ArgumentsBetween(s, a, c, d, z, square, curly)
    ensures ArgumentsRead(s, a, z, square, curly)
  {
    hide OptionalSquare, Tail, ListWritten, TailWritten, BlanksTo, SquareList, SkipBlank;
    BlanksExactly(s.src, a, c);
    SquaresExactly(s, a, c);
    if CharAt(s.src, c, '[') {
      ListsExactly(s, c + 1, d, square.args);
      TailsExactly(s, d + 1, z, curly);
    } else {
      TailsExactly(s, a, z, curly);
    }
  }

  lemma ArgumentsAreRead(s: Input, a: nat, z: nat, square: SquareArgs, curly: seq<CurlyArg>)
    requires a <= |s.src|
    ensures ArgumentsRead(s, a, z, square, curly) <==> ArgumentsWritten(s, a, z, square, curly)
  {
    hide ArgumentsRead, ArgumentsBetween;
    if ArgumentsRead(s, a, z, square, curly) {
      ReadArgumentsAreWritten(s, a, z, square, curly);
    }
    if ArgumentsWritten(s, a, z, square, curly) {
      var c: nat, d: nat :| ArgumentsBetween(s, a, c, d, z, square, curly);
      WrittenArgumentsAreRead(s, a, c, d, z, square, curly);
    }
  }

  /** A command is read exactly where one is written: the escape, the `@`, and all of
      its parts. What starts like one and is none makes the parse panic. */
  lemma CommandsExactly(s: Input, em: EscapeMatch, p: nat, z: nat, n: Node)
    requires p <= |s.src|
    ensures ParseCommand(s, em, p) == Ok(z, n) <==>
            CommandStarts(s.src, em, p) && ContentsWritten(s, p, p + |em.escape| + 1, z, n)
    ensures ParseCommand(s, em, p).Err? <==> !CommandStarts(s.src, em, p)
  {
    hide ParseContents, ContentsWritten;
    if CommandStarts(s.src, em, p) {
      ContentsExactly(s, p, p + |em.escape| + 1, z, n);
    }
  }

  /** No blanks at the end of a command belong to it. */
  lemma CommandEndsInPart(s: Input, start: nat, p: nat)
    requires p <= |s.src| && ParseContents(s, start, p).Ok?
    ensures !Blank(s.src[ParseContents(s, start, p).rest - 1])
  {
    hide Identifier, OptionalSquare, Tail, ParseContents, Blank;
    ContentsAre(s, start, p);
    var id := Identifier(s.src, p);
    NamesExactly(s.src, p, id.rest, id.value);
    NameEnds(s.src, p, id.rest, id.value);
    SquareEnds(s, id.rest);
    TailEnds(s, OptionalSquare(s, id.rest).rest);
  }

  lemma NameEnds(src: string, p: nat, z: nat, name: string)
    requires NameAt(src, p, z, name)
    ensures 0 < z <= |src| && !Blank(src[z - 1])
  {
    hide Reserved;
    assert NameRest(src[z - 1]);
  }

  /** What has been read ends in something that is no blank. */
  predicate EndsSolid(src: string, z: nat) { 0 < z <= |src| && !Blank(src[z - 1]) }

  lemma SquareEnds(s: Input, a: nat)
    requires EndsSolid(s.src, a) && OptionalSquare(s, a).Ok?
    ensures EndsSolid(s.src, OptionalSquare(s, a).rest)
  {
    hide AfterBlank, SquareList;
  }

  lemma {:induction false} CurliesEnd(s: Input, p: nat)
    requires EndsSolid(s.src, p) && CurlyArguments(s, p).Ok?
    ensures EndsSolid(s.src, CurlyArguments(s, p).rest)
    decreases |s.src| - p
  {
    hide SkipBlank, CurlyArgument, EndsSolid;
    PositionInside(s.src, p);
    var arg := CurlyArgument(s, SkipBlank(s.src, p));
    if arg.Ok? {
      CurlyEnds(s, SkipBlank(s.src, p));
      CurliesEnd(s, arg.rest);
    }
  }

  lemma PositionInside(src: string, p: nat)
    requires EndsSolid(src, p)
    ensures p <= |src|
  {
  }

  lemma CurlyEnds(s: Input, c: nat)
    requires c <= |s.src| && CurlyArgument(s, c).Ok?
    ensures EndsSolid(s.src, CurlyArgument(s, c).rest)
  {
    hide Delimiter, TextFrom, Usable, CurlyArgument;
    var r := CurlyArgument(s, c);
    CurlyExactly(s, c, r.rest, r.value);
    var em, y: nat :| CurlyBetween(s, c, y, r.rest, em, r.value);
    CloseEnds(em);
    assert s.src[y + (|em.close| - 1)] == em.close[|em.close| - 1];
  }

  lemma CloseEnds(em: EscapeMatch)
    requires Delimiter(em)
    ensures em.close != "" && !Blank(em.close[|em.close| - 1])
  {
  }

  lemma TailEnds(s: Input, p: nat)
    requires EndsSolid(s.src, p) && Tail(s, p).Ok?
    ensures EndsSolid(s.src, Tail(s, p).rest)
  {
    hide SkipBlank, CurlyArguments;
    if AfterBlank(s.src, p, ';').None? {
      CurliesEnd(s, p);
    }
  }
}
