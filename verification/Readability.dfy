/** Whatever the parser returns can be written again: its square entries are readable. */
module Readability {
  import opened Spans
  import opened Ast
  import opened Delimiters
  import opened Comments
  import opened Parser
  import opened Printing
  import opened EntryReading
  import opened RoundTrip
  import StringLiterals

  ghost predicate AllReadable(d: string -> nat, args: seq<SquareArg>) {
    forall k :: 0 <= k < |args| ==> ReadableArg(d, args[k])
  }

  /** A name holds nothing that ends an entry. */
  lemma NameHasNoStop(id: string)
    requires IsName(id)
    ensures NoStop(id)
  {
  }

  lemma WordInSource(src: string, p: nat, text: string)
    requires At(src, p, text) && !AtNoCase(src, p, "true") && !AtNoCase(src, p, "false")
    ensures NoWord(text)
  {
    AtSlice(src, p, text);
    assert forall n: nat :: n <= |text| ==> text[..n] == src[p..p + n];
  }

  /** What the recogniser makes of a text before one stop it makes before any. */
  lemma TakesEverywhere(d: string -> nat, src: string, p: nat, text: string)
    requires Numeric(d) && At(src, p, text) && NoStop(text) && StopsAt(src, p + |text|)
    ensures Takes(d, text, d(src[p..]))
  {
    AtSlice(src, p, text);
    var tail := src[p + |text|..];
    assert src[p..] == text + tail && StartsStop(tail);
  }

  lemma NumberFacts(d: string -> nat, t: string)
    requires Numeric(d)
    ensures d(t) <= |t| && (d(t) > 0 ==> NumberStart(t[0]) && NoStop(t[..d(t)]))
  {
  }

  lemma NumIsReadable(s: Input, p: nat)
    requires Numeric(s.double) && p <= |s.src| && 0 < s.double(s.src[p..]) && p + s.double(s.src[p..]) <= |s.src|
    requires !AtNoCase(s.src, p, "true") && !AtNoCase(s.src, p, "false")
    requires StopsAt(s.src, p + s.double(s.src[p..]))
    ensures ReadableEntry(s.double, Num(s.src[p..p + s.double(s.src[p..])]))
  {
    hide AtNoCase, NoWord, Takes, StopsAt, Numeric, NoStop, NumberStart;
    var n := s.double(s.src[p..]);
    var text := s.src[p..p + n];
    NumberFacts(s.double, s.src[p..]);
    assert text == s.src[p..][..n];
    assert text[0] == s.src[p..][0];
    AtSlice(s.src, p, text);
    WordInSource(s.src, p, text);
    TakesEverywhere(s.double, s.src, p, text);
  }

  lemma IdentIsReadable(s: Input, p: nat)
    requires Numeric(s.double) && p <= |s.src| && Identifier(s.src, p).Ok?
    requires !AtNoCase(s.src, p, "true") && !AtNoCase(s.src, p, "false")
    requires !(0 < s.double(s.src[p..]) && p + s.double(s.src[p..]) <= |s.src|)
    requires StopsAt(s.src, Identifier(s.src, p).rest)
    ensures ReadableEntry(s.double, Ident(Identifier(s.src, p).value))
  {
    hide AtNoCase, NoWord, Takes, StopsAt, IsName, Numeric, NoStop, NumberStart;
    var id := Identifier(s.src, p);
    AtSlice(s.src, p, id.value);
    WordInSource(s.src, p, id.value);
    NameHasNoStop(id.value);
    NumberFacts(s.double, s.src[p..]);
    TakesEverywhere(s.double, s.src, p, id.value);
  }

  lemma {:induction false} BareReadable(s: Input, p: nat)
    requires p <= |s.src| && Numeric(s.double)
    ensures var r := BareEntry(s, p); r.Ok? && StopsAt(s.src, r.rest) ==> ReadableEntry(s.double, r.value)
    decreases |s.src| - p, 3
  {
    hide ParseCommand, Identifier, AtNoCase, Numeric, StringLiterals.QuotedString, NoWord, Takes, StopsAt, Readable,
         IsName;
    CommandReadable(s, DEFAULT_ESCAPE_MATCH, p);
    var r := BareEntry(s, p);
    if r.Ok? && StopsAt(s.src, r.rest) {
      if r.value.Num? {
        NumIsReadable(s, p);
      }
      if r.value.Ident? {
        IdentIsReadable(s, p);
      }
    }
  }

  lemma {:induction false} CommandReadable(s: Input, em: EscapeMatch, p: nat)
    requires p <= |s.src| && Numeric(s.double)
    ensures ParseCommand(s, em, p).Ok? ==> Readable(s.double, ParseCommand(s, em, p).value)
    decreases |s.src| - p, 2
  {
    hide ParseContents, Numeric, Readable;
    if At(s.src, p, em.escape + "@") {
      var a := p + |em.escape| + 1;
      if a < |s.src| {
        ContentsReadable(s, p, a);
      }
    }
  }

  lemma {:induction false} ContentsReadable(s: Input, start: nat, p: nat)
    requires p <= |s.src| && Numeric(s.double)
    ensures ParseContents(s, start, p).Ok? ==> Readable(s.double, ParseContents(s, start, p).value)
    decreases |s.src| - p, 6
  {
    hide OptionalSquare, CurlyArguments, AfterBlank, Numeric, ReadableSquare, ReadableIn;
    NoSquareIsReadable(s.double);
    var id := Identifier(s.src, p);
    if id.Ok? {
      OptionalSquareReadable(s, id.rest);
      var square := OptionalSquare(s, id.rest);
      if square.Ok? {
        CurlyArgumentsReadable(s, square.rest);
      }
    }
  }

  lemma NoSquareIsReadable(d: string -> nat)
    ensures ReadableSquare(d, NoSquare)
  {
  }

  lemma {:induction false} OptionalSquareReadable(s: Input, p: nat)
    requires p <= |s.src| && Numeric(s.double)
    ensures OptionalSquare(s, p).Ok? ==> ReadableSquare(s.double, OptionalSquare(s, p).value)
    decreases |s.src| - p, 6
  {
    hide SquareList, AfterBlank, Numeric, ReadableArg;
    var a := AfterBlank(s.src, p, '[');
    if a.Some? {
      SquareListReadable(s, a.value);
    }
  }

  ghost predicate ReadableCurly(d: string -> nat, args: seq<CurlyArg>) {
    forall k :: 0 <= k < |args| ==> ReadableIn(d, args[k].nodes)
  }

  lemma NoneReadable(d: string -> nat)
    ensures ReadableCurly(d, [])
  {
  }

  lemma OneMoreReadable(d: string -> nat, arg: CurlyArg, more: seq<CurlyArg>)
    requires ReadableIn(d, arg.nodes) && ReadableCurly(d, more)
    ensures ReadableCurly(d, [arg] + more)
  {
    hide ReadableIn;
  }

  lemma {:induction false} CurlyArgumentsReadable(s: Input, p: nat)
    requires p <= |s.src| && Numeric(s.double)
    ensures var r := CurlyArguments(s, p);
            r.Ok? ==> ReadableCurly(s.double, r.value)
    decreases |s.src| - p, 2
  {
    hide CurlyArgument, SkipBlank, Numeric, ReadableIn, ReadableCurly;
    NoneReadable(s.double);
    CurlyArgumentReadable(s, SkipBlank(s.src, p));
    var a := CurlyArgument(s, SkipBlank(s.src, p));
    if a.Ok? {
      CurlyArgumentsReadable(s, a.rest);
      var more := CurlyArguments(s, a.rest);
      if more.Ok? {
        OneMoreReadable(s.double, CurlyArg(a.value), more.value);
      }
    }
  }

  lemma {:induction false} CurlyArgumentReadable(s: Input, p: nat)
    requires p <= |s.src| && Numeric(s.double)
    ensures CurlyArgument(s, p).Ok? ==> ReadableIn(s.double, CurlyArgument(s, p).value)
    decreases |s.src| - p, 1
  {
    hide TextLoop, Numeric, Readable;
    var open := GenericOpenCurly(s.src, p);
    if open.Ok? {
      TextLoopReadable(s, false, open.value, open.rest, 1, []);
    }
  }

  lemma AddNodeReadable(d: string -> nat, contents: seq<Node>, n: Node)
    requires ReadableIn(d, contents) && Readable(d, n)
    ensures ReadableIn(d, AddNode(contents, n))
  {
    hide ReadableSquare;
  }

  lemma TextIsReadable(d: string -> nat, content: string, at: nat)
    ensures Readable(d, Text(content, at))
  {
  }

  lemma {:induction false} TextLoopReadable(s: Input, root: bool, em: EscapeMatch, p: nat, balance: nat,
                                            contents: seq<Node>)
    requires p <= |s.src| && Usable(em) && balance >= 1 && Numeric(s.double) && ReadableIn(s.double, contents)
    ensures var r := TextLoop(s, root, em, p, balance, contents); r.Ok? ==> ReadableIn(s.double, r.value)
    decreases |s.src| - p, 4
  {
    hide TextLoop, AddNode, Unit, Numeric, ReadableIn, Readable;
    TextIsReadable(s.double, em.open, p);
    TextIsReadable(s.double, em.close, p);
    if At(s.src, p, em.open) {
      LoopAtOpen(s, root, em, p, balance, contents);
      AddNodeReadable(s.double, contents, Text(em.open, p));
      TextLoopReadable(s, root, em, p + |em.open|, balance + 1, AddNode(contents, Text(em.open, p)));
    } else if At(s.src, p, em.close) {
      LoopAtClose(s, root, em, p, balance, contents);
      if balance > 1 {
        AddNodeReadable(s.double, contents, Text(em.close, p));
        TextLoopReadable(s, root, em, p + |em.close|, balance - 1, AddNode(contents, Text(em.close, p)));
      }
    } else if p == |s.src| {
      LoopAtEnd(s, root, em, balance, contents);
    } else {
      UnitReadable(s, em, p);
      LoopAtUnit(s, root, em, p, balance, contents);
      var unit := Unit(s, em, p);
      if unit.Ok? {
        if unit.value.Some? {
          AddNodeReadable(s.double, contents, unit.value.value);
        }
        TextLoopReadable(s, root, em, unit.rest, balance, AddUnit(contents, unit.value));
      }
    }
  }

  lemma {:induction false} UnitReadable(s: Input, em: EscapeMatch, p: nat)
    requires p < |s.src| && Usable(em) && Numeric(s.double)
    ensures var r := Unit(s, em, p); r.Ok? && r.value.Some? ==> Readable(s.double, r.value.value)
    decreases |s.src| - p, 3
  {
    hide ParseCommand, Comment, Numeric, Readable;
    CommandReadable(s, em, p);
    forall content, at
      ensures Readable(s.double, Text(content, at))
    {
      TextIsReadable(s.double, content, at);
    }
  }

  lemma SpacesStop(src: string, q: nat)
    requires q <= |src| && StopsAt(src, SkipSpaces(src, q))
    ensures StopsAt(src, q)
  {
  }

  lemma CommaStops(src: string, p: nat)
    requires p <= |src| && CommaSep(src, p).Some?
    ensures StopsAt(src, p)
  {
    SpacesStop(src, p);
  }

  lemma {:induction false} SquareListReadable(s: Input, p: nat)
    requires p <= |s.src| && Numeric(s.double)
    ensures var r := SquareList(s, p); r.Ok? && CharAt(s.src, r.rest, ']') ==> AllReadable(s.double, r.value)
    decreases |s.src| - p, 6
  {
    hide SquareArgument, MoreSquare, CommaSep, Numeric, ReadableArg;
    SquareArgumentReadable(s, p);
    var first := SquareArgument(s, p);
    if first.Ok? {
      MoreReadable(s, first.rest);
      var more := MoreSquare(s, first.rest);
      if more.Ok? && CommaSep(s.src, more.rest).Some? {
        CommaStops(s.src, more.rest);
      }
      if more.Ok? {
        BracketStops(s.src, more.rest);
      }
    }
  }

  lemma BracketStops(src: string, p: nat)
    ensures CharAt(src, p, ']') || CharAt(src, p, '=') ==> StopsAt(src, p)
  {
  }

  lemma {:induction false} MoreReadable(s: Input, p: nat)
    requires p <= |s.src| && Numeric(s.double)
    ensures var r := MoreSquare(s, p);
            r.Ok? && StopsAt(s.src, r.rest) ==> StopsAt(s.src, p) && AllReadable(s.double, r.value)
    decreases |s.src| - p, 6
  {
    hide SquareArgument, Numeric, ReadableArg, StopsAt, CommaSep;
    var a := CommaSep(s.src, p);
    if a.Some? {
      CommaStops(s.src, p);
      SquareArgumentReadable(s, a.value);
      var arg := SquareArgument(s, a.value);
      if arg.Ok? {
        MoreReadable(s, arg.rest);
      }
    }
  }

  lemma {:induction false} SquareArgumentReadable(s: Input, p: nat)
    requires p <= |s.src| && Numeric(s.double)
    ensures var r := SquareArgument(s, p); r.Ok? && StopsAt(s.src, r.rest) ==> ReadableArg(s.double, r.value)
    decreases |s.src| - p, 5
  {
    hide SquareEntryAt, Numeric, ReadableEntry, StopsAt;
    EntryReadable(s, p);
    var key := SquareEntryAt(s, p);
    if key.Ok? {
      var b := SkipSpaces(s.src, key.rest);
      if CharAt(s.src, b, '=') {
        BracketStops(s.src, b);
        SpacesStop(s.src, key.rest);
        EntryReadable(s, SkipSpaces(s.src, b + 1));
      }
    }
  }

  lemma {:induction false} EntryReadable(s: Input, p: nat)
    requires p <= |s.src| && Numeric(s.double)
    ensures var r := SquareEntryAt(s, p); r.Ok? && StopsAt(s.src, r.rest) ==> ReadableEntry(s.double, r.value)
    decreases |s.src| - p, 4
  {
    hide BareEntry, Numeric, ReadableEntry, StopsAt;
    BareReadable(s, SkipSpaces(s.src, p));
    var r := BareEntry(s, SkipSpaces(s.src, p));
    if r.Ok? && StopsAt(s.src, SkipSpaces(s.src, r.rest)) {
      SpacesStop(s.src, r.rest);
    }
  }

  /** Parsing then printing loses nothing: what the parser returns for any source is
      canonical and readable, so the print of it, read in any other source, is the
      same command. */
  lemma ParseThenPrintThenParse(s: Input, em: EscapeMatch, p: nat, s': Input, em': EscapeMatch, p': nat)
    requires p <= |s.src| && ParseCommand(s, em, p).Ok? && Numeric(s.double) && s'.double == s.double
    requires At(s'.src, p', em'.escape + PrintCommand(ParseCommand(s, em, p).value))
    ensures p' <= |s'.src|
    ensures var n := ParseCommand(s, em, p).value; var r := ParseCommand(s', em', p');
            r.Ok? && r.rest == p' + |em'.escape + PrintCommand(n)| && Alike(r.value, n)
  {
    hide ParseCommand, PrintCommand, Alike, Numeric, Readable;
    CommandReadable(s, em, p);
    PrintThenParse(s', ParseCommand(s, em, p).value, em', p');
  }
}
