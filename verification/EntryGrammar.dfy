/** What stands in square brackets, written out: entries, arguments and lists, and that
    the parser reads exactly those. The strings are those of `StringSpelling`; a
    command in an entry is one that the parser reads, so a command as
    `CommandGrammar` has it. */
module EntryGrammar {
  import opened Spans
  import opened Ast
  import opened Delimiters
  import opened Comments
  import opened Parser
  import opened Lexicon
  import StringLiterals
  import StringSpelling

  const BRACES := EscapeMatch("{", "}", "")

  predicate WordAt(src: string, a: nat, w: string) {
    a + |w| <= |src| && AnyCase(src[a..a + |w|], w)
  }

  predicate BooleanAt(src: string, a: nat) { WordAt(src, a, "true") || WordAt(src, a, "false") }

  /** The recogniser accepts some characters that are there. */
  predicate NumberAt(s: Input, a: nat) {
    a <= |s.src| && 0 < s.double(s.src[a..]) && a + s.double(s.src[a..]) <= |s.src|
  }

  /** The escape and an `@`, with something after it that makes it a command. */
  predicate CommandStarts(src: string, em: EscapeMatch, p: nat) {
    var a := p + |em.escape| + 1;
    At(src, p, em.escape + "@") && a < |src| && src[a] != '%' && src[a] != '|' && src[a] != '{'
  }

  /** A string literal from `a` to `b`, in any legal spelling. */
  ghost predicate StringAt(src: string, a: nat, b: nat, t: string) {
    exists xs :: StringSpelling.SpelledAt(src, a, b, t, xs)
  }

  /** An entry without blanks around it. A boolean comes before a number, and a number
      before a name. */
  ghost predicate BareWritten(s: Input, a: nat, b: nat, e: SquareEntry) {
    match e
    case Bool(v) => if v then WordAt(s.src, a, "true") && b == a + 4 else WordAt(s.src, a, "false") && b == a + 5
    case Num(text) =>
      && !BooleanAt(s.src, a) && NumberAt(s, a)
      && b == a + s.double(s.src[a..]) && text == s.src[a..b]
    case Ident(id) => !BooleanAt(s.src, a) && !NumberAt(s, a) && NameAt(s.src, a, b, id)
    case QuotedStr(t) => !BooleanAt(s.src, a) && !NumberAt(s, a) && StringAt(s.src, a, b, t)
    case Cmd(node) =>
      && !BooleanAt(s.src, a) && !NumberAt(s, a) && CommandStarts(s.src, BRACES, a)
      && ParseCommand(s, BRACES, a) == Ok(b, node)
  }

  ghost predicate NameStarts(src: string, a: nat) {
    exists z, name :: NameAt(src, a, z, name)
  }

  /** Something that must be an entry: what starts like one and is none is an error. */
  ghost predicate EntryStarts(s: Input, a: nat) {
    || BooleanAt(s.src, a) || NumberAt(s, a) || NameStarts(s.src, a)
    || CharAt(s.src, a, '"') || CommandStarts(s.src, BRACES, a)
  }

  /** An entry from `p` to `z`, with all blanks around it. */
  ghost predicate EntryWritten(s: Input, p: nat, z: nat, e: SquareEntry) {
    exists a, b :: EntryBetween(s, p, a, b, z, e)
  }

  ghost predicate EntryBetween(s: Input, p: nat, a: nat, b: nat, z: nat, e: SquareEntry) {
    SpacesTo(s.src, p, a) && BareWritten(s, a, b, e) && SpacesTo(s.src, b, z)
  }

  ghost predicate EntryComes(s: Input, p: nat) {
    exists a :: SpacesTo(s.src, p, a) && EntryStarts(s, a)
  }

  /** A value, or a key, an equals sign and a value. */
  ghost predicate ArgumentWritten(s: Input, p: nat, z: nat, arg: SquareArg) {
    match arg
    case Val(e) => EntryWritten(s, p, z, e) && !(CharAt(s.src, z, '=') && EntryComes(s, z + 1))
    case KeyVal(key, val) =>
      exists a: nat :: EntryWritten(s, p, a, key) && CharAt(s.src, a, '=') && EntryWritten(s, a + 1, z, val)
  }

  /** A comma with all blanks around it. */
  ghost predicate CommaTo(src: string, p: nat, q: nat) {
    exists a: nat :: SpacesTo(src, p, a) && CharAt(src, a, ',') && SpacesTo(src, a + 1, q)
  }

  /** A comma at the end of a list may be left out. */
  ghost predicate ListEnds(src: string, p: nat, z: nat) {
    CommaTo(src, p, z) || (z == p && forall q: nat :: !CommaTo(src, p, q))
  }

  /** The arguments of a list, with commas between them. */
  ghost predicate ListWritten(s: Input, p: nat, z: nat, args: seq<SquareArg>) {
    if args == [] then !EntryComes(s, p) && ListEnds(s.src, p, z)
    else exists a :: ArgumentWritten(s, p, a, args[0]) && MoreWritten(s, a, z, args[1..])
  }

  ghost predicate MoreWritten(s: Input, p: nat, z: nat, args: seq<SquareArg>)
    decreases |args|
  {
    if args == [] then (forall q: nat :: CommaTo(s.src, p, q) ==> !EntryComes(s, q)) && ListEnds(s.src, p, z)
    else
      exists q: nat, a: nat ::
        CommaTo(s.src, p, q) && ArgumentWritten(s, q, a, args[0]) && MoreWritten(s, a, z, args[1..])
  }

  lemma WordsExactly(src: string, a: nat)
    ensures AtNoCase(src, a, "true") <==> WordAt(src, a, "true")
    ensures AtNoCase(src, a, "false") <==> WordAt(src, a, "false")
  {
    hide EqIgnoreCase, AnyCase;
    if a + 4 <= |src| {
      AnyCaseExactly(src[a..a + 4], "true");
    }
    if a + 5 <= |src| {
      AnyCaseExactly(src[a..a + 5], "false");
    }
  }

  lemma BracesAre()
    ensures DEFAULT_ESCAPE_MATCH == BRACES
  {
  }

  /** What makes a command: anything else is no error, but no command. */
  lemma CommandErrsExactly(s: Input, em: EscapeMatch, p: nat)
    requires p <= |s.src|
    ensures ParseCommand(s, em, p).Err? <==> !CommandStarts(s.src, em, p)
  {
    hide ParseContents;
  }

  lemma StringsExactly(src: string, a: nat, b: nat, t: string)
    requires a <= |src|
    ensures StringLiterals.QuotedString(src, a) == Ok(b, t) <==> StringAt(src, a, b, t)
    ensures StringLiterals.QuotedString(src, a).Err? <==> !CharAt(src, a, '"')
    ensures StringAt(src, a, b, t) ==> CharAt(src, a, '"')
  {
    hide StringLiterals.ParseString, StringSpelling.SpelledAt;
    StringSpelling.ReadExactlyTheSpellings(src, a, b, t);
    if StringAt(src, a, b, t) {
      StringStarts(src, a, b, t);
    }
  }

  lemma StringStarts(src: string, a: nat, b: nat, t: string)
    requires StringAt(src, a, b, t)
    ensures CharAt(src, a, '"')
  {
    hide StringSpelling.SourceAll, StringSpelling.MeaningAll;
    var xs :| StringSpelling.SpelledAt(src, a, b, t, xs);
    AtHead(src, a, "\"" + (StringSpelling.SourceAll(xs) + "\""));
  }

  lemma NameStartsExactly(src: string, a: nat)
    requires a <= |src|
    ensures Identifier(src, a).Ok? <==> NameStarts(src, a)
    ensures NameStarts(src, a) ==> !CharAt(src, a, '"')
    ensures NameStarts(src, a) ==> !CommandStarts(src, BRACES, a)
  {
    hide Identifier;
    if Identifier(src, a).Ok? {
      var id := Identifier(src, a);
      NamesExactly(src, a, id.rest, id.value);
    }
    if NameStarts(src, a) {
      var z, name :| NameAt(src, a, z, name);
      NamesExactly(src, a, z, name);
      AtHead(src, a, "@");
      assert BRACES.escape + "@" == "@";
    }
  }

  lemma {:induction false} BareExactly(s: Input, a: nat, b: nat, e: SquareEntry)
    requires a <= |s.src|
    ensures BareEntry(s, a) == Ok(b, e) <==> BareWritten(s, a, b, e)
    ensures BareEntry(s, a).Err? <==> !EntryStarts(s, a)
  {
    hide AtNoCase, WordAt, Identifier, NameAt, NameStarts, ParseCommand, CommandStarts, StringAt,
         StringLiterals.QuotedString;
    WordsExactly(s.src, a);
    NameStartsExactly(s.src, a);
    CommandErrsExactly(s, BRACES, a);
    BracesAre();
    BareNames(s, a, b, e);
    BareStrings(s, a, b, e);
    CommandOkStarts(s, a);
    OneWord(s.src, a);
  }

  lemma OneWord(src: string, a: nat)
    ensures !(WordAt(src, a, "true") && WordAt(src, a, "false"))
  {
    if WordAt(src, a, "true") {
      assert src[a..a + 4][0] == src[a];
    }
    assert a + 5 <= |src| ==> src[a..a + 5][0] == src[a];
  }

  lemma CommandOkStarts(s: Input, a: nat)
    requires a <= |s.src|
    ensures CharAt(s.src, a, '"') ==> !CommandStarts(s.src, BRACES, a)
  {
    AtHead(s.src, a, "@");
    assert BRACES.escape + "@" == "@";
  }

  lemma BareNames(s: Input, a: nat, b: nat, e: SquareEntry)
    requires a <= |s.src|
    ensures e.Ident? ==> (Identifier(s.src, a) == Ok(b, e.id) <==> NameAt(s.src, a, b, e.id))
    ensures e.Ident? && NameAt(s.src, a, b, e.id) ==> NameStarts(s.src, a)
  {
    hide Identifier, NameAt;
    if e.Ident? {
      NamesExactly(s.src, a, b, e.id);
    }
  }

  lemma BareStrings(s: Input, a: nat, b: nat, e: SquareEntry)
    requires a <= |s.src|
    ensures StringLiterals.QuotedString(s.src, a).Err? <==> !CharAt(s.src, a, '"')
    ensures e.QuotedStr? ==> (StringLiterals.QuotedString(s.src, a) == Ok(b, e.s) <==> StringAt(s.src, a, b, e.s))
    ensures e.QuotedStr? && StringAt(s.src, a, b, e.s) ==> CharAt(s.src, a, '"')
  {
    hide StringLiterals.QuotedString, StringAt;
    StringsExactly(s.src, a, b, if e.QuotedStr? then e.s else "");
  }

  lemma EntriesExactly(s: Input, p: nat, z: nat, e: SquareEntry)
    requires p <= |s.src|
    ensures SquareEntryAt(s, p) == Ok(z, e) <==> EntryWritten(s, p, z, e)
    ensures SquareEntryAt(s, p).Err? <==> !EntryComes(s, p)
  {
    hide BareEntry, BareWritten, EntryStarts, SkipSpaces, SpacesTo;
    var a := SkipSpaces(s.src, p);
    SpacesExactly(s.src, p, a);
    var r := BareEntry(s, a);
    if r.Ok? {
      BareExactly(s, a, r.rest, r.value);
      var y := SkipSpaces(s.src, r.rest);
      SpacesExactly(s.src, r.rest, y);
      assert EntryBetween(s, p, a, r.rest, y, r.value);
    } else {
      BareExactly(s, a, 0, Bool(true));
    }
    if EntryWritten(s, p, z, e) {
      var a', b :| EntryBetween(s, p, a', b, z, e);
      SpacesExactly(s.src, p, a');
      BareExactly(s, a, b, e);
      SpacesExactly(s.src, b, z);
    }
    if EntryComes(s, p) {
      var a' :| SpacesTo(s.src, p, a') && EntryStarts(s, a');
      SpacesExactly(s.src, p, a');
    }
  }

  lemma CommasExactly(src: string, p: nat, q: nat)
    requires p <= |src|
    ensures CommaSep(src, p) == Some(q) <==> CommaTo(src, p, q)
    ensures CommaSep(src, p).None? <==> forall y: nat :: !CommaTo(src, p, y)
  {
    hide SkipSpaces, SpacesTo;
    var a := SkipSpaces(src, p);
    SpacesExactly(src, p, a);
    if CharAt(src, a, ',') {
      var z := SkipSpaces(src, a + 1);
      SpacesExactly(src, a + 1, z);
      assert CommaTo(src, p, z);
    }
    forall y: nat | CommaTo(src, p, y)
      ensures CommaSep(src, p) == Some(y)
    {
      var b: nat :| SpacesTo(src, p, b) && CharAt(src, b, ',') && SpacesTo(src, b + 1, y);
      SpacesExactly(src, p, b);
      SpacesExactly(src, b + 1, y);
    }
  }

  lemma SpacesTwice(src: string, p: nat)
    requires p <= |src|
    ensures SkipSpaces(src, SkipSpaces(src, p)) == SkipSpaces(src, p)
  {
  }

  /** Blanks before an entry belong to it. */
  lemma EntryAfterSpaces(s: Input, p: nat)
    requires p <= |s.src|
    ensures SquareEntryAt(s, SkipSpaces(s.src, p)) == SquareEntryAt(s, p)
  {
    hide BareEntry, SkipSpaces;
    SpacesTwice(s.src, p);
  }

  lemma EntryTakesSpaces(s: Input, p: nat)
    requires p <= |s.src| && SquareEntryAt(s, p).Ok?
    ensures SkipSpaces(s.src, SquareEntryAt(s, p).rest) == SquareEntryAt(s, p).rest
  {
    hide BareEntry, SkipSpaces;
    SpacesTwice(s.src, BareEntry(s, SkipSpaces(s.src, p)).rest);
  }

  /** An argument, with the blanks around it accounted for. */
  function ArgumentRead(s: Input, p: nat): PResult<SquareArg>
    requires p <= |s.src|
  {
    match SquareEntryAt(s, p)
    case Err => Err
    case Panic => Panic
    case Ok(a, key) =>
      if !CharAt(s.src, a, '=') then Ok(a, Val(key))
      else
        match SquareEntryAt(s, a + 1)
        case Panic => Panic
        case Err => Ok(a, Val(key))
        case Ok(z, val) => Ok(z, KeyVal(key, val))
  }

  lemma ArgumentIs(s: Input, p: nat)
    requires p <= |s.src|
    ensures SquareArgument(s, p) == ArgumentRead(s, p)
  {
    hide SquareEntryAt, SkipSpaces;
    var key := SquareEntryAt(s, p);
    if key.Ok? {
      EntryTakesSpaces(s, p);
      if CharAt(s.src, key.rest, '=') {
        EntryAfterSpaces(s, key.rest + 1);
      }
    }
  }

  lemma EntryErrs(s: Input, p: nat)
    requires p <= |s.src|
    ensures SquareEntryAt(s, p).Err? <==> !EntryComes(s, p)
  {
    EntriesExactly(s, p, 0, Bool(true));
  }

  lemma ArgumentsExactly(s: Input, p: nat, z: nat, arg: SquareArg)
    requires p <= |s.src|
    ensures SquareArgument(s, p) == Ok(z, arg) <==> ArgumentWritten(s, p, z, arg)
    ensures SquareArgument(s, p).Err? <==> !EntryComes(s, p)
  {
    hide SquareEntryAt, EntryWritten, EntryComes, SquareArgument;
    ArgumentIs(s, p);
    EntryErrs(s, p);
    match arg
    case Val(e) =>
      EntriesExactly(s, p, z, e);
      if CharAt(s.src, z, '=') {
        EntryErrs(s, z + 1);
      }
    case KeyVal(key, val) =>
      var k := SquareEntryAt(s, p);
      if k.Ok? && CharAt(s.src, k.rest, '=') {
        EntriesExactly(s, p, k.rest, key);
        EntriesExactly(s, k.rest + 1, z, val);
      }
      if ArgumentWritten(s, p, z, arg) {
        var a: nat :| EntryWritten(s, p, a, key) && CharAt(s.src, a, '=') && EntryWritten(s, a + 1, z, val);
        EntriesExactly(s, p, a, key);
        EntriesExactly(s, a + 1, z, val);
      }
  }

  lemma {:induction false} MoreExactly(s: Input, p: nat, z: nat, args: seq<SquareArg>)
    requires p <= |s.src|
    ensures (MoreSquare(s, p).Ok? && MoreSquare(s, p).value == args && OptionalComma(s.src, MoreSquare(s, p).rest) == z)
            <==> MoreWritten(s, p, z, args)
    decreases |args|
  {
    hide SquareArgument, ArgumentWritten, EntryComes, CommaSep, CommaTo;
    var comma := CommaSep(s.src, p);
    if comma.None? {
      CommasExactly(s.src, p, 0);
      CommasExactly(s.src, p, z);
    } else {
      var q := comma.value;
      CommasExactly(s.src, p, q);
      CommasExactly(s.src, p, z);
      OneComma(s.src, p, q);
      if args == [] {
        ArgumentsExactly(s, q, 0, Val(Bool(true)));
      } else {
        var arg := SquareArgument(s, q);
        if arg.Ok? {
          ArgumentsExactly(s, q, arg.rest, arg.value);
          MoreExactly(s, arg.rest, z, args[1..]);
        }
        if MoreWritten(s, p, z, args) {
          var q': nat, a: nat :|
            CommaTo(s.src, p, q') && ArgumentWritten(s, q', a, args[0]) && MoreWritten(s, a, z, args[1..]);
          ArgumentsExactly(s, q, a, args[0]);
          MoreExactly(s, a, z, args[1..]);
        }
      }
    }
  }

  lemma OneComma(src: string, p: nat, q: nat)
    requires p <= |src| && CommaSep(src, p) == Some(q)
    ensures forall y: nat :: CommaTo(src, p, y) <==> y == q
  {
    hide CommaSep, CommaTo;
    forall y: nat
      ensures CommaTo(src, p, y) <==> y == q
    {
      CommasExactly(src, p, y);
    }
  }

  /** A list of square arguments is read exactly where one is written. */
  lemma ListsExactly(s: Input, p: nat, z: nat, args: seq<SquareArg>)
    requires p <= |s.src|
    ensures SquareList(s, p) == Ok(z, args) <==> ListWritten(s, p, z, args)
  {
    hide SquareArgument, ArgumentWritten, EntryComes, CommaSep, CommaTo, MoreSquare, MoreWritten;
    var first := SquareArgument(s, p);
    if args == [] {
      ArgumentsExactly(s, p, 0, Val(Bool(true)));
      if CommaSep(s.src, p).Some? {
        OneComma(s.src, p, CommaSep(s.src, p).value);
        assert CommaTo(s.src, p, CommaSep(s.src, p).value);
      }
      CommasExactly(s.src, p, z);
    } else {
      if first.Ok? {
        ArgumentsExactly(s, p, first.rest, first.value);
        MoreExactly(s, first.rest, z, args[1..]);
      }
      if ListWritten(s, p, z, args) {
        assert args == [args[0]] + args[1..];
        var a :| ArgumentWritten(s, p, a, args[0]) && MoreWritten(s, a, z, args[1..]);
        ArgumentsExactly(s, p, a, args[0]);
        MoreExactly(s, a, z, args[1..]);
      }
    }
  }
}
