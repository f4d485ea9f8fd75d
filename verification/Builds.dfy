/** Debug assertions only ever stop a parse: what is parsed with them compiled in is
    parsed alike without them. */
module Builds {
  import opened Spans
  import opened Ast
  import opened Delimiters
  import opened Comments
  import opened Parser

  function Debug(s: Input): Input { s.(debugAsserts := true) }

  function Release(s: Input): Input { s.(debugAsserts := false) }

  /** The debug build panics, or the release build does the same. */
  predicate Survives<T(==)>(debug: PResult<T>, release: PResult<T>) {
    debug.Panic? || release == debug
  }

  lemma {:induction false} TextLoopSurvives(s: Input, root: bool, em: EscapeMatch, p: nat, balance: nat,
                                        contents: seq<Node>)
    requires p <= |s.src| && Usable(em) && balance >= 1
    ensures Survives(TextLoop(Debug(s), root, em, p, balance, contents),
                     TextLoop(Release(s), root, em, p, balance, contents))
    decreases |s.src| - p, 4
  {
    hide TextLoop, AddNode, Unit;
    if At(s.src, p, em.open) {
      LoopAtOpen(Debug(s), root, em, p, balance, contents);
      LoopAtOpen(Release(s), root, em, p, balance, contents);
      TextLoopSurvives(s, root, em, p + |em.open|, balance + 1, AddNode(contents, Text(em.open, p)));
    } else if At(s.src, p, em.close) {
      LoopAtClose(Debug(s), root, em, p, balance, contents);
      LoopAtClose(Release(s), root, em, p, balance, contents);
      if balance > 1 {
        TextLoopSurvives(s, root, em, p + |em.close|, balance - 1, AddNode(contents, Text(em.close, p)));
      }
    } else if p == |s.src| {
      LoopAtEnd(Debug(s), root, em, balance, contents);
      LoopAtEnd(Release(s), root, em, balance, contents);
    } else {
      UnitSurvives(s, em, p);
      LoopAtUnit(Debug(s), root, em, p, balance, contents);
      LoopAtUnit(Release(s), root, em, p, balance, contents);
      var unit := Unit(Debug(s), em, p);
      if unit.Ok? {
        TextLoopSurvives(s, root, em, unit.rest, balance, AddUnit(contents, unit.value));
      }
    }
  }

  lemma {:induction false} UnitSurvives(s: Input, em: EscapeMatch, p: nat)
    requires p < |s.src| && Usable(em)
    ensures Survives(Unit(Debug(s), em, p), Unit(Release(s), em, p))
    decreases |s.src| - p, 3
  {
    hide ParseCommand, Comment;
    CommandSurvives(s, em, p);
  }

  lemma {:induction false} CommandSurvives(s: Input, em: EscapeMatch, p: nat)
    requires p <= |s.src|
    ensures Survives(ParseCommand(Debug(s), em, p), ParseCommand(Release(s), em, p))
    decreases |s.src| - p, 2
  {
    hide ParseContents;
    if At(s.src, p, em.escape + "@") {
      var a := p + |em.escape| + 1;
      if a < |s.src| {
        ContentsSurvives(s, p, a);
      }
    }
  }

  lemma {:induction false} ContentsSurvives(s: Input, start: nat, p: nat)
    requires p <= |s.src|
    ensures Survives(ParseContents(Debug(s), start, p), ParseContents(Release(s), start, p))
    decreases |s.src| - p, 6
  {
    hide OptionalSquare, CurlyArguments, AfterBlank;
    var id := Identifier(s.src, p);
    if id.Ok? {
      OptionalSquareSurvives(s, id.rest);
      var square := OptionalSquare(Debug(s), id.rest);
      if square.Ok? {
        CurlyArgumentsSurvives(s, square.rest);
      }
    }
  }

  lemma {:induction false} OptionalSquareSurvives(s: Input, p: nat)
    requires p <= |s.src|
    ensures Survives(OptionalSquare(Debug(s), p), OptionalSquare(Release(s), p))
    decreases |s.src| - p, 6
  {
    hide SquareList;
    var a := AfterBlank(s.src, p, '[');
    if a.Some? {
      SquareListSurvives(s, a.value);
    }
  }

  lemma {:induction false} CurlyArgumentsSurvives(s: Input, p: nat)
    requires p <= |s.src|
    ensures Survives(CurlyArguments(Debug(s), p), CurlyArguments(Release(s), p))
    decreases |s.src| - p, 2
  {
    hide CurlyArgument, SkipBlank;
    CurlyArgumentSurvives(s, SkipBlank(s.src, p));
    var a := CurlyArgument(Debug(s), SkipBlank(s.src, p));
    if a.Ok? {
      CurlyArgumentsSurvives(s, a.rest);
    }
  }

  lemma {:induction false} CurlyArgumentSurvives(s: Input, p: nat)
    requires p <= |s.src|
    ensures Survives(CurlyArgument(Debug(s), p), CurlyArgument(Release(s), p))
    decreases |s.src| - p, 1
  {
    hide TextLoop;
    var open := GenericOpenCurly(s.src, p);
    if open.Ok? {
      TextLoopSurvives(s, false, open.value, open.rest, 1, []);
    }
  }

  lemma {:induction false} SquareListSurvives(s: Input, p: nat)
    requires p <= |s.src|
    ensures Survives(SquareList(Debug(s), p), SquareList(Release(s), p))
    decreases |s.src| - p, 6
  {
    hide SquareArgument, MoreSquare, OptionalComma;
    SquareArgumentSurvives(s, p);
    var first := SquareArgument(Debug(s), p);
    if first.Ok? {
      MoreSquareSurvives(s, first.rest);
    }
  }

  lemma {:induction false} MoreSquareSurvives(s: Input, p: nat)
    requires p <= |s.src|
    ensures Survives(MoreSquare(Debug(s), p), MoreSquare(Release(s), p))
    decreases |s.src| - p, 6
  {
    hide SquareArgument;
    var a := CommaSep(s.src, p);
    if a.Some? {
      SquareArgumentSurvives(s, a.value);
      var arg := SquareArgument(Debug(s), a.value);
      if arg.Ok? {
        MoreSquareSurvives(s, arg.rest);
      }
    }
  }

  lemma {:induction false} SquareArgumentSurvives(s: Input, p: nat)
    requires p <= |s.src|
    ensures Survives(SquareArgument(Debug(s), p), SquareArgument(Release(s), p))
    decreases |s.src| - p, 5
  {
    hide SquareEntryAt;
    SquareEntrySurvives(s, p);
    var key := SquareEntryAt(Debug(s), p);
    if key.Ok? {
      var b := SkipSpaces(s.src, key.rest);
      if CharAt(s.src, b, '=') {
        SquareEntrySurvives(s, SkipSpaces(s.src, b + 1));
      }
    }
  }

  lemma {:induction false} SquareEntrySurvives(s: Input, p: nat)
    requires p <= |s.src|
    ensures Survives(SquareEntryAt(Debug(s), p), SquareEntryAt(Release(s), p))
    decreases |s.src| - p, 4
  {
    hide BareEntry;
    BareEntrySurvives(s, SkipSpaces(s.src, p));
  }

  lemma {:induction false} BareEntrySurvives(s: Input, p: nat)
    requires p <= |s.src|
    ensures Survives(BareEntry(Debug(s), p), BareEntry(Release(s), p))
    decreases |s.src| - p, 3
  {
    hide ParseCommand, Identifier, AtNoCase;
    CommandSurvives(s, DEFAULT_ESCAPE_MATCH, p);
  }

  /** A document that parses with debug assertions parses to the same tree without. */
  lemma ReleaseParsesWhatDebugDoes(s: Input)
    ensures ParseRoot(Debug(s)).Ok? ==> ParseRoot(Release(s)) == ParseRoot(Debug(s))
  {
    TextLoopSurvives(s, true, DEFAULT_ESCAPE_MATCH, 0, 1, []);
  }

  /** But not the other way round: a single brace. */
  lemma UnclosedBraceParsesInRelease(s: Input)
    requires s.src == "{"
    ensures ParseRoot(Release(s)) == Ok(1, Root([Text("{", 0)], 0))
    ensures ParseRoot(Debug(s)).Panic?
  {
    hide TextLoop;
    assert At(s.src, 0, "{");
    assert AddNode([], Text("{", 0)) == [Text("{", 0)];
    LoopAtOpen(Release(s), true, DEFAULT_ESCAPE_MATCH, 0, 1, []);
    LoopAtEnd(Release(s), true, DEFAULT_ESCAPE_MATCH, 2, [Text("{", 0)]);
    LoopAtOpen(Debug(s), true, DEFAULT_ESCAPE_MATCH, 0, 1, []);
    LoopAtEnd(Debug(s), true, DEFAULT_ESCAPE_MATCH, 2, [Text("{", 0)]);
  }
}
