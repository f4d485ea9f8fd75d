/** The units of a text, written out: markers, newlines, comments, commands and single
    characters, and that these are what the tokens of a text are. */
module UnitGrammar {
  import opened Spans
  import opened Ast
  import opened Delimiters
  import opened Comments
  import opened Parser
  import opened Tokenizer
  import opened Lexicon
  import opened EntryGrammar
  import opened CommandGrammar

  /** A line feed, or a carriage return and a line feed. */
  predicate NewlineWritten(src: string, p: nat, z: nat) {
    || (p < |src| && src[p] == '\n' && z == p + 1)
    || (p + 1 < |src| && src[p] == '\r' && src[p + 1] == '\n' && z == p + 2)
  }

  predicate MarkerStarts(src: string, p: nat, em: EscapeMatch) {
    At(src, p, em.open) || At(src, p, em.close)
  }

  ghost predicate CommandWritten(s: Input, em: EscapeMatch, p: nat, z: nat, n: Node) {
    CommandStarts(s.src, em, p) && ContentsWritten(s, p, p + |em.escape| + 1, z, n)
  }

  /** What starts like a command and is none. */
  ghost predicate Malformed(s: Input, em: EscapeMatch, p: nat) {
    CommandStarts(s.src, em, p) && forall z: nat, n :: !CommandWritten(s, em, p, z, n)
  }

  ghost predicate CommentStarts(src: string, p: nat, em: EscapeMatch) {
    exists z: nat :: CommentWritten(src, p, z, em)
  }

  /** A unit of a text in the delimiter `em`; its markers come before anything else. */
  ghost predicate UnitWritten(s: Input, em: EscapeMatch, t: Token) {
    match t.kind
    case Open => At(s.src, t.from, em.open) && t.to == t.from + |em.open|
    case Close => !At(s.src, t.from, em.open) && At(s.src, t.from, em.close) && t.to == t.from + |em.close|
    case Newline => !MarkerStarts(s.src, t.from, em) && NewlineWritten(s.src, t.from, t.to)
    case Skipped => !MarkerStarts(s.src, t.from, em) && CommentWritten(s.src, t.from, t.to, em)
    case Cmd(n) => !MarkerStarts(s.src, t.from, em) && CommandWritten(s, em, t.from, t.to, n)
    case Broken => !MarkerStarts(s.src, t.from, em) && Malformed(s, em, t.from) && t.to == t.from + 1
    case Char =>
      && !MarkerStarts(s.src, t.from, em) && (forall z: nat :: !NewlineWritten(s.src, t.from, z))
      && !CommentStarts(s.src, t.from, em) && !CommandStarts(s.src, em, t.from) && t.to == t.from + 1
  }

  /** What starts a comment starts nothing else. */
  lemma CommentAlone(src: string, p: nat, z: nat, em: EscapeMatch)
    requires Usable(em) && CommentWritten(src, p, z, em)
    ensures !CommandStarts(src, em, p) && forall y: nat :: !NewlineWritten(src, p, y)
  {
    hide BlockWritten;
    var mark := em.escape + "@%";
    assert mark[|em.escape| + 1] == '%' && mark[0] == if em.escape == "" then '@' else em.escape[0];
    assert src[p + (|em.escape| + 1)] == '%' && src[p + 0] == mark[0];
  }

  lemma CommandAlone(src: string, p: nat, em: EscapeMatch)
    requires Usable(em) && CommandStarts(src, em, p)
    ensures forall y: nat :: !NewlineWritten(src, p, y)
  {
    AtHead(src, p, em.escape + "@");
  }

  lemma NewlinesExactly(src: string, p: nat)
    requires p <= |src|
    ensures OneNewline(src, p).Ok? ==>
              && NewlineWritten(src, p, OneNewline(src, p).rest)
              && forall z: nat :: NewlineWritten(src, p, z) <==> z == OneNewline(src, p).rest
    ensures !OneNewline(src, p).Ok? ==> forall z: nat :: !NewlineWritten(src, p, z)
  {
  }

  lemma SkipsExactly(src: string, p: nat, em: EscapeMatch)
    requires p <= |src|
    ensures Comment(src, p, em).Ok? ==>
              && CommentWritten(src, p, Comment(src, p, em).rest, em)
              && forall z: nat :: CommentWritten(src, p, z, em) <==> z == Comment(src, p, em).rest
    ensures !Comment(src, p, em).Ok? ==> forall z: nat :: !CommentWritten(src, p, z, em)
  {
    hide Comment, CommentWritten;
    forall z: nat
      ensures Comment(src, p, em) == Ok(z, ()) <==> CommentWritten(src, p, z, em)
    {
      CommentsExactly(src, p, z, em);
    }
    if Comment(src, p, em).Ok? {
      OnlyUnit(Comment(src, p, em).value);
    }
  }

  lemma CommandsAre(s: Input, em: EscapeMatch, p: nat)
    requires p <= |s.src|
    ensures var r := ParseCommand(s, em, p);
            && (r.Err? <==> !CommandStarts(s.src, em, p))
            && (r.Panic? <==> Malformed(s, em, p))
            && forall z: nat, n :: CommandWritten(s, em, p, z, n) <==> r == Ok(z, n)
  {
    hide ParseCommand, CommandStarts, ContentsWritten;
    var r := ParseCommand(s, em, p);
    forall z: nat, n: Node
      ensures CommandWritten(s, em, p, z, n) <==> r == Ok(z, n)
    {
      CommandsExactly(s, em, p, z, n);
    }
    CommandErrsExactly(s, em, p);
    if r.Ok? {
      assert CommandWritten(s, em, p, r.rest, r.value);
    }
  }

  /** The next token of a text is the unit that is written there. */
  lemma UnitsExactly(s: Input, em: EscapeMatch, t: Token)
    requires t.from < |s.src| && Usable(em)
    ensures NextToken(s, em, t.from) == t <==> UnitWritten(s, em, t)
  {
    hide OneNewline, Comment, ParseCommand, CommandStarts, CommandWritten, CommentWritten, NewlineWritten, Usable, At,
         Malformed;
    var p := t.from;
    NewlinesExactly(s.src, p);
    SkipsExactly(s.src, p, em);
    CommandsAre(s, em, p);
    if Comment(s.src, p, em).Ok? {
      CommentAlone(s.src, p, Comment(s.src, p, em).rest, em);
    }
    if CommandStarts(s.src, em, p) {
      CommandAlone(s.src, p, em);
    }
    MalformedStarts(s, em, p);
  }

  lemma MalformedStarts(s: Input, em: EscapeMatch, p: nat)
    ensures Malformed(s, em, p) ==> CommandStarts(s.src, em, p)
    ensures forall z: nat, n :: CommandWritten(s, em, p, z, n) ==> CommandStarts(s.src, em, p)
  {
    hide CommandStarts, ContentsWritten;
  }
}
