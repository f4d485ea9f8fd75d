/** Taking plain text in long runs changes nothing: the parser with the
    optimisation and the parser that takes one character at a time and merges
    agree on every input, in nodes, start offsets, rest and outcome. */
module FastScan {
  import opened Spans
  import opened Ast
  import opened Delimiters
  import opened Comments
  import opened Parser

  function Fast(s: Input): Input { s.(longRuns := true) }

  function Slow(s: Input): Input { s.(longRuns := false) }

  /** Two texts in a row are merged as one. */
  lemma AddTwice(contents: seq<Node>, a: string, b: string, p: nat, q: nat)
    requires a != "" && a != "\n" && b != "" && b != "\n"
    ensures AddNode(AddNode(contents, Text(a, p)), Text(b, q)) == AddNode(contents, Text(a + b, p))
  {
    var once := AddNode(contents, Text(a, p));
    assert a + b != "\n" by {
      assert |a + b| >= 2;
    }
    if contents != [] && Mergeable(contents[|contents| - 1]) {
      var last := contents[|contents| - 1];
      assert once[|once| - 1].content == last.content + a;
      assert |last.content + a| >= 1;
      assert last.content + a != "\n" by {
        if last.content != "" {
          assert |last.content + a| >= 2;
        } else {
          assert last.content + a == a;
        }
      }
      assert last.content + a + b == last.content + (a + b);
      assert once[..|once| - 1] == contents[..|contents| - 1];
    } else {
      assert once[..|once| - 1] == contents;
    }
  }

  /** The text node for the characters from `p` to `q`. */
  function Chunk(src: string, p: nat, q: nat): Node
    requires p <= q <= |src|
  {
    Text(src[p..q], p)
  }

  /** A position that no marker, newline, comment or command starts at. */
  predicate Inert(src: string, em: EscapeMatch, p: nat) {
    && p < |src|
    && !At(src, p, em.open)
    && !At(src, p, em.close)
    && src[p] != '\n'
    && !AtCrLf(src, p)
    && !At(src, p, em.escape + "@")
  }

  /** At an inert position the slow loop adds just that character. */
  lemma SlowInertStep(s: Input, root: bool, em: EscapeMatch, p: nat, balance: nat, contents: seq<Node>)
    requires Usable(em) && balance >= 1 && Inert(s.src, em, p) && !s.longRuns
    ensures TextLoop(s, root, em, p, balance, contents) ==
            TextLoop(s, root, em, p + 1, balance, AddNode(contents, Chunk(s.src, p, p + 1)))
  {
    hide TextLoop, AddNode, ParseContents, BlockComment, LineComment;
    NoCommentHere(s.src, em, p);
    assert Unit(s, em, p) == Ok(p + 1, Some(Chunk(s.src, p, p + 1)));
    LoopAtUnit(s, root, em, p, balance, contents);
  }

  lemma NoCommentHere(src: string, em: EscapeMatch, p: nat)
    requires p <= |src| && !At(src, p, em.escape + "@")
    ensures !Comment(src, p, em).Ok?
  {
    assert em.escape + "@%" == (em.escape + "@") + "%";
    AtConcat(src, p, em.escape + "@", "%");
  }

  lemma PlainIsInert(src: string, em: EscapeMatch, p: nat)
    requires Usable(em) && Sees(src, p, IsPlain)
    ensures Inert(src, em, p)
  {
    AtHead(src, p, em.open);
    AtHead(src, p, em.close);
    AtHead(src, p, em.escape + "@");
  }

  /** A run of plain characters taken one by one ends up as one longer text. */
  lemma {:induction false} SlowPlainRun(s: Input, root: bool, em: EscapeMatch, p: nat, m: nat, q: nat,
                                        balance: nat, contents: seq<Node>)
    requires Usable(em) && balance >= 1 && p < m <= q <= |s.src| && !s.longRuns
    requires s.src[p] != '\n' && forall k :: m <= k < q ==> IsPlain(s.src[k])
    ensures TextLoop(s, root, em, m, balance, AddNode(contents, Chunk(s.src, p, m))) ==
            TextLoop(s, root, em, q, balance, AddNode(contents, Chunk(s.src, p, q)))
    decreases q - m
  {
    hide TextLoop, AddNode;
    if m < q {
      PlainIsInert(s.src, em, m);
      SlowInertStep(s, root, em, m, balance, AddNode(contents, Chunk(s.src, p, m)));
      AddTwice(contents, s.src[p..m], s.src[m..m + 1], p, m);
      assert s.src[p..m] + s.src[m..m + 1] == s.src[p..m + 1];
      SlowPlainRun(s, root, em, p, m + 1, q, balance, contents);
    }
  }

  lemma {:induction false} TextLoopSame(s: Input, root: bool, em: EscapeMatch, p: nat, balance: nat,
                                        contents: seq<Node>)
    requires p <= |s.src| && Usable(em) && balance >= 1
    ensures TextLoop(Fast(s), root, em, p, balance, contents) == TextLoop(Slow(s), root, em, p, balance, contents)
    decreases |s.src| - p, 4
  {
    hide TextLoop, AddNode, Unit;
    if At(s.src, p, em.open) {
      LoopAtOpen(Fast(s), root, em, p, balance, contents);
      LoopAtOpen(Slow(s), root, em, p, balance, contents);
      TextLoopSame(s, root, em, p + |em.open|, balance + 1, AddNode(contents, Text(em.open, p)));
    } else if At(s.src, p, em.close) {
      LoopAtClose(Fast(s), root, em, p, balance, contents);
      LoopAtClose(Slow(s), root, em, p, balance, contents);
      if balance > 1 {
        TextLoopSame(s, root, em, p + |em.close|, balance - 1, AddNode(contents, Text(em.close, p)));
      }
    } else if p == |s.src| {
      LoopAtEnd(Fast(s), root, em, balance, contents);
      LoopAtEnd(Slow(s), root, em, balance, contents);
    } else {
      UnitSame(s, em, p);
      LoopAtUnit(Fast(s), root, em, p, balance, contents);
      LoopAtUnit(Slow(s), root, em, p, balance, contents);
      var fast, slow := Unit(Fast(s), em, p), Unit(Slow(s), em, p);
      if fast.Ok? {
        TextLoopSame(s, root, em, fast.rest, balance, AddUnit(contents, fast.value));
        if fast != slow {
          SlowPlainRun(Slow(s), root, em, p, p + 1, fast.rest, balance, contents);
        }
      }
    }
  }

  /** The two forms of a turn agree, or are at a text that the long form takes more of. */
  lemma {:induction false} UnitSame(s: Input, em: EscapeMatch, p: nat)
    requires p < |s.src| && Usable(em)
    ensures var fast, slow := Unit(Fast(s), em, p), Unit(Slow(s), em, p);
            || fast == slow
            || (&& fast.Ok? && p < fast.rest <= |s.src| && s.src[p] != '\n'
                && fast.value == Some(Chunk(s.src, p, fast.rest))
                && slow == Ok(p + 1, Some(Chunk(s.src, p, p + 1)))
                && forall k :: p + 1 <= k < fast.rest ==> IsPlain(s.src[k]))
    decreases |s.src| - p, 3
  {
    hide ParseCommand, Comment;
    CommandSame(s, em, p);
  }

  lemma {:induction false} CommandSame(s: Input, em: EscapeMatch, p: nat)
    requires p <= |s.src|
    ensures ParseCommand(Fast(s), em, p) == ParseCommand(Slow(s), em, p)
    decreases |s.src| - p, 2
  {
    hide ParseContents;
    if At(s.src, p, em.escape + "@") {
      var a := p + |em.escape| + 1;
      if a < |s.src| {
        ContentsSame(s, p, a);
      }
    }
  }

  lemma {:induction false} ContentsSame(s: Input, start: nat, p: nat)
    requires p <= |s.src|
    ensures ParseContents(Fast(s), start, p) == ParseContents(Slow(s), start, p)
    decreases |s.src| - p, 6
  {
    hide OptionalSquare, CurlyArguments, AfterBlank;
    var id := Identifier(s.src, p);
    if id.Ok? {
      OptionalSquareSame(s, id.rest);
      var square := OptionalSquare(Fast(s), id.rest);
      if square.Ok? {
        CurlyArgumentsSame(s, square.rest);
      }
    }
  }

  lemma {:induction false} OptionalSquareSame(s: Input, p: nat)
    requires p <= |s.src|
    ensures OptionalSquare(Fast(s), p) == OptionalSquare(Slow(s), p)
    decreases |s.src| - p, 6
  {
    hide SquareList;
    var a := AfterBlank(s.src, p, '[');
    if a.Some? {
      SquareListSame(s, a.value);
    }
  }

  lemma {:induction false} CurlyArgumentsSame(s: Input, p: nat)
    requires p <= |s.src|
    ensures CurlyArguments(Fast(s), p) == CurlyArguments(Slow(s), p)
    decreases |s.src| - p, 2
  {
    hide CurlyArgument, SkipBlank;
    CurlyArgumentSame(s, SkipBlank(s.src, p));
    var a := CurlyArgument(Fast(s), SkipBlank(s.src, p));
    if a.Ok? {
      CurlyArgumentsSame(s, a.rest);
    }
  }

  lemma {:induction false} CurlyArgumentSame(s: Input, p: nat)
    requires p <= |s.src|
    ensures CurlyArgument(Fast(s), p) == CurlyArgument(Slow(s), p)
    decreases |s.src| - p, 1
  {
    hide TextLoop;
    var open := GenericOpenCurly(s.src, p);
    if open.Ok? {
      TextLoopSame(s, false, open.value, open.rest, 1, []);
    }
  }

  lemma {:induction false} SquareListSame(s: Input, p: nat)
    requires p <= |s.src|
    ensures SquareList(Fast(s), p) == SquareList(Slow(s), p)
    decreases |s.src| - p, 6
  {
    hide SquareArgument, MoreSquare, OptionalComma;
    SquareArgumentSame(s, p);
    var first := SquareArgument(Fast(s), p);
    if first.Ok? {
      MoreSquareSame(s, first.rest);
    }
  }

  lemma {:induction false} MoreSquareSame(s: Input, p: nat)
    requires p <= |s.src|
    ensures MoreSquare(Fast(s), p) == MoreSquare(Slow(s), p)
    decreases |s.src| - p, 6
  {
    hide SquareArgument;
    var a := CommaSep(s.src, p);
    if a.Some? {
      SquareArgumentSame(s, a.value);
      var arg := SquareArgument(Fast(s), a.value);
      if arg.Ok? {
        MoreSquareSame(s, arg.rest);
      }
    }
  }

  lemma {:induction false} SquareArgumentSame(s: Input, p: nat)
    requires p <= |s.src|
    ensures SquareArgument(Fast(s), p) == SquareArgument(Slow(s), p)
    decreases |s.src| - p, 5
  {
    hide SquareEntryAt;
    SquareEntrySame(s, p);
    var key := SquareEntryAt(Fast(s), p);
    if key.Ok? {
      var b := SkipSpaces(s.src, key.rest);
      if CharAt(s.src, b, '=') {
        SquareEntrySame(s, SkipSpaces(s.src, b + 1));
      }
    }
  }

  lemma {:induction false} SquareEntrySame(s: Input, p: nat)
    requires p <= |s.src|
    ensures SquareEntryAt(Fast(s), p) == SquareEntryAt(Slow(s), p)
    decreases |s.src| - p, 4
  {
    hide BareEntry;
    BareEntrySame(s, SkipSpaces(s.src, p));
  }

  lemma {:induction false} BareEntrySame(s: Input, p: nat)
    requires p <= |s.src|
    ensures BareEntry(Fast(s), p) == BareEntry(Slow(s), p)
    decreases |s.src| - p, 3
  {
    hide ParseCommand, Identifier, AtNoCase;
    CommandSame(s, DEFAULT_ESCAPE_MATCH, p);
  }

  /** The optimised scan of a text is the simple one. */
  lemma FastScanRefinesSlow(s: Input, root: bool, em: EscapeMatch, p: nat)
    requires p <= |s.src| && Usable(em)
    ensures TextFrom(Fast(s), root, em, p) == TextFrom(Slow(s), root, em, p)
    ensures ParseCommand(Fast(s), em, p) == ParseCommand(Slow(s), em, p)
    ensures ParseRoot(Fast(s)) == ParseRoot(Slow(s))
  {
    TextLoopSame(s, root, em, p, 1, []);
    CommandSame(s, em, p);
    TextLoopSame(s, true, DEFAULT_ESCAPE_MATCH, 0, 1, []);
  }
}
