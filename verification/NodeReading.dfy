/** Reading one thing after another from a print: newlines, texts and commands inside
    a fence, and the parts of a command. */
module NodeReading {
  import opened Spans
  import opened Ast
  import opened Delimiters
  import opened Comments
  import opened Parser
  import opened FastScan
  import opened Fences
  import opened Printing

  /** Two lists can stand next to each other without merging. */
  predicate Apart(contents: seq<Node>, ns: seq<Node>) {
    contents != [] && ns != [] ==> !(Mergeable(contents[|contents| - 1]) && Mergeable(ns[0]))
  }

  /** The printed forms begin with a character that no fence can swallow. */
  lemma PrintNodeHead(n: Node, k: nat)
    requires CanonicalNode(n) && !Mergeable(n)
    ensures var t := PrintNode(n, k); t != "" && (t[0] == '|' || t[0] == '\r')
  {
  }

  /** The first printed newline of a list. */
  lemma ReadNewline(s: Input, em: EscapeMatch, p: nat, contents: seq<Node>)
    requires Usable(em) && p <= |s.src| && At(s.src, p, "\r\n")
    ensures TextLoop(s, false, em, p, 1, contents) ==
            TextLoop(s, false, em, p + 2, 1, contents + [Text("\n", p + 1)])
  {
    hide TextLoop;
    assert s.src[p + 0] == "\r\n"[0] && s.src[p + 1] == "\r\n"[1];
    LoopAtUnit(s, false, em, p, 1, contents);
  }

  /** The first printed text of a list, up to a character `q` that is no bracket. */
  lemma ReadText(s: Input, k: nat, p: nat, q: nat, contents: seq<Node>)
    requires Usable(Fence(k)) && !s.longRuns && p < q < |s.src| && q - p < k
    requires s.src[q] == '|' || s.src[q] == '}' || s.src[q] == '\r'
    requires forall i :: p <= i < q ==> s.src[i] != '\n'
    requires Apart(contents, [Chunk(s.src, p, q)])
    ensures TextLoop(s, false, Fence(k), p, 1, contents) ==
            TextLoop(s, false, Fence(k), q, 1, contents + [Chunk(s.src, p, q)])
  {
    hide TextLoop, Usable;
    forall i | p <= i < q
      ensures !At(s.src, i, OpenFence(k)) && !At(s.src, i, CloseFence(k)) && !At(s.src, i, EscapeFence(k) + "@")
    {
      FenceIsFar(s.src, k, i, q);
    }
    RawRun(s, false, Fence(k), p, q, 1, contents);
    AddRawText(s.src, p, p + 1, q, contents);
    assert s.src[p..q][0] == s.src[p];
  }

  /** The first printed command of a list, given what reading it gives. */
  lemma ReadCommand(s: Input, k: nat, p: nat, z: nat, node: Node, contents: seq<Node>)
    requires Usable(Fence(k)) && p < |s.src| && At(s.src, p, EscapeFence(k) + "@")
    requires ParseCommand(s, Fence(k), p) == Ok(z, node)
    requires p < z <= |s.src| && node.Command?
    requires !CharAt(s.src, p + k + 2, '%')
    ensures TextLoop(s, false, Fence(k), p, 1, contents) ==
            TextLoop(s, false, Fence(k), z, 1, contents + [node])
  {
    hide TextLoop, ParseCommand, BlockComment, LineComment, Usable;
    var e := EscapeFence(k) + "@";
    assert e[0] == '|' && e[k + 1] == '@' && |e| == k + 2;
    assert s.src[p + 0] == '|' && s.src[p + (k + 1)] == '@';
    assert !At(s.src, p, OpenFence(k)) by {
      assert OpenFence(k)[k + 1] == '{';
    }
    assert !At(s.src, p, CloseFence(k)) by {
      assert CloseFence(k)[0] == '}';
      AtHead(s.src, p, CloseFence(k));
    }
    NoComment(s.src, Fence(k), p);
    LoopAtUnit(s, false, Fence(k), p, 1, contents);
  }

  lemma NoComment(src: string, em: EscapeMatch, p: nat)
    requires p <= |src| && !CharAt(src, p + |em.escape| + 1, '%')
    ensures !Comment(src, p, em).Ok?
  {
    assert em.escape + "@%" == (em.escape + "@") + "%";
    AtConcat(src, p, em.escape + "@", "%");
    AtHead(src, p + |em.escape| + 1, "%");
  }

  /** No blank starts at a bar, a semicolon or an opening bracket. */
  lemma SkipBlankStays(src: string, p: nat)
    requires p < |src| && src[p] in "|;["
    ensures SkipBlank(src, p) == p
  {
    hide BlockComment, LineComment;
    AtHead(src, p, "@%");
    assert DEFAULT_ESCAPE_MATCH.escape + "@%" == "@%";
  }

  lemma TextReadBack(s: Input, content: string, k: nat, p: nat, q: nat, contents: seq<Node>)
    requires Usable(Fence(k)) && !s.longRuns && CanonicalText(content) && content != "\n" && |content| < k
    requires q == p + |content| && q < |s.src| && At(s.src, p, content)
    requires s.src[q] == '|' || s.src[q] == '}' || s.src[q] == '\r'
    requires Apart(contents, [Text(content, p)])
    ensures Chunk(s.src, p, q) == Text(content, p)
    ensures TextLoop(s, false, Fence(k), p, 1, contents) ==
            TextLoop(s, false, Fence(k), q, 1, contents + [Chunk(s.src, p, q)])
  {
    hide TextLoop, Usable;
    AtSlice(s.src, p, content);
    forall i | p <= i < q
      ensures s.src[i] != '\n'
    {
      assert s.src[p + (i - p)] == content[i - p];
    }
    ReadText(s, k, p, q, contents);
  }

  lemma NoBlank(src: string, p: nat)
    requires p < |src| && src[p] in "|;["
    ensures forall c :: AfterBlank(src, p, c) == if src[p] == c then Some(p + 1) else None
  {
    hide SkipBlank;
    SkipBlankStays(src, p);
  }

  /** The three ways in which the contents of a command end. */
  lemma ContentsRead(s: Input, start: nat, p: nat, a: nat, name: string)
    requires p <= |s.src| && Identifier(s.src, p) == Ok(a, name)
    ensures a <= |s.src|
    ensures var z := AfterBlank(s.src, a, ';');
            z.Some? ==> ParseContents(s, start, p) == Ok(z.value, Command(name, NoSquare, [], start))
  {
    hide Identifier, AfterBlank, OptionalSquare, CurlyArguments;
  }

  lemma ContentsReadOn(s: Input, start: nat, p: nat, a: nat, name: string, b: nat, square: SquareArgs)
    requires p <= |s.src| && Identifier(s.src, p) == Ok(a, name)
    requires a <= |s.src| && AfterBlank(s.src, a, ';').None? && OptionalSquare(s, a) == Ok(b, square)
    ensures b <= |s.src|
    ensures var z := AfterBlank(s.src, b, ';');
            z.Some? ==> ParseContents(s, start, p) == Ok(z.value, Command(name, square, [], start))
    ensures var args := CurlyArguments(s, b);
            AfterBlank(s.src, b, ';').None? && args.Ok? && AfterBlank(s.src, args.rest, ';').Some? ==>
              ParseContents(s, start, p) ==
              Ok(AfterBlank(s.src, args.rest, ';').value, Command(name, square, args.value, start))
  {
    hide Identifier, AfterBlank, OptionalSquare, CurlyArguments;
  }

  lemma NoSquareReads(s: Input, p: nat)
    requires p < |s.src| && s.src[p] in "|;"
    ensures OptionalSquare(s, p) == Ok(p, NoSquare)
  {
    hide AfterBlank, SquareList;
    NoBlank(s.src, p);
  }

  lemma SquareReads(s: Input, p: nat, z: nat, args: seq<SquareArg>)
    requires CharAt(s.src, p, '[') && SquareList(s, p + 1) == Ok(z, args) && CharAt(s.src, z, ']')
    ensures OptionalSquare(s, p) == Ok(z + 1, Square(args))
  {
    hide AfterBlank, SquareList;
    NoBlank(s.src, p);
  }

  lemma CurlyArgumentsStep(s: Input, p: nat)
    requires p < |s.src| && s.src[p] in "|;["
    ensures CurlyArgument(s, p).Err? ==> CurlyArguments(s, p) == Ok(p, [])
    ensures CurlyArgument(s, p).Ok? && CurlyArguments(s, CurlyArgument(s, p).rest).Ok? ==>
              var first := CurlyArgument(s, p); var more := CurlyArguments(s, first.rest);
              CurlyArguments(s, p) == Ok(more.rest, [CurlyArg(first.value)] + more.value)
  {
    hide CurlyArgument, SkipBlank;
    SkipBlankStays(s.src, p);
  }

  lemma NoCurlyArgument(s: Input, p: nat)
    requires CharAt(s.src, p, ';')
    ensures CurlyArgument(s, p) == Err
  {
    hide TextLoop;
  }

  lemma CurlyArgumentReads(s: Input, p: nat, a: nat, em: EscapeMatch, z: nat, nodes: seq<Node>)
    requires p <= |s.src| && GenericOpenCurly(s.src, p) == Ok(a, em)
    requires a <= |s.src| && Usable(em) && TextFrom(s, false, em, a) == Ok(z, nodes)
    requires At(s.src, z, em.close)
    ensures CurlyArgument(s, p) == Ok(z + |em.close|, nodes)
  {
    hide TextFrom, GenericOpenCurly;
  }
}
