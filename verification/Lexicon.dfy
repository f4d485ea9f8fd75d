/** The words of the language, said without the parser: blanks, names, delimiters and
    comments as an author writes them, and that the parser reads exactly those. */
module Lexicon {
  import opened Spans
  import opened Ast
  import opened Delimiters
  import opened Comments
  import opened Tokenizer
  import opened CommentScan

  predicate Blank(c: char) { c == ' ' || c == '\t' || c == '\r' || c == '\n' }

  /** All blanks from `p` on end at `q`. */
  predicate SpacesTo(src: string, p: nat, q: nat) {
    && p <= q <= |src|
    && (forall k :: p <= k < q ==> Blank(src[k]))
    && (q < |src| ==> !Blank(src[q]))
  }

  lemma SpacesExactly(src: string, p: nat, q: nat)
    requires p <= |src|
    ensures SkipSpaces(src, p) == q <==> SpacesTo(src, p, q)
  {
    if SpacesTo(src, p, q) {
      RunWhileIs(src, p, q, IsMultispace);
    }
  }

  predicate NameHead(c: char) { 'a' <= c <= 'z' || 'A' <= c <= 'Z' || c == '_' || c == ':' }

  predicate NameRest(c: char) { NameHead(c) || '0' <= c <= '9' }

  function Upper(c: char): char {
    if 'a' <= c <= 'z' then (c as int - 'a' as int + 'A' as int) as char else c
  }

  /** The word `w`, itself in small letters, in any mixture of cases. */
  predicate AnyCase(s: string, w: string) {
    |s| == |w| && forall k :: 0 <= k < |s| ==> s[k] == w[k] || s[k] == Upper(w[k])
  }

  predicate SmallLetters(w: string) {
    forall k :: 0 <= k < |w| ==> 'a' <= w[k] <= 'z'
  }

  lemma AnyCaseExactly(s: string, w: string)
    requires SmallLetters(w)
    ensures EqIgnoreCase(s, w) <==> AnyCase(s, w)
  {
  }

  predicate Reserved(s: string) {
    AnyCase(s, "true") || AnyCase(s, "false") || AnyCase(s, "undefined") || AnyCase(s, "null")
  }

  lemma ReservedExactly(s: string)
    ensures IsReserved(s) <==> Reserved(s)
  {
    hide EqIgnoreCase, AnyCase;
    AnyCaseExactly(s, "true");
    AnyCaseExactly(s, "false");
    AnyCaseExactly(s, "undefined");
    AnyCaseExactly(s, "null");
  }

  /** A name that is not reserved, as long as it can be, from `p` to `z`. */
  predicate NameAt(src: string, p: nat, z: nat, name: string) {
    && p < z <= |src| && name == src[p..z]
    && NameHead(src[p])
    && (forall k :: p <= k < z ==> NameRest(src[k]))
    && (z < |src| ==> !NameRest(src[z]))
    && !Reserved(name)
  }

  lemma NamesExactly(src: string, p: nat, z: nat, name: string)
    requires p <= |src|
    ensures Identifier(src, p) == Ok(z, name) <==> NameAt(src, p, z, name)
  {
    hide IsReserved, Reserved;
    if Identifier(src, p).Ok? {
      var id := Identifier(src, p);
      ReservedExactly(id.value);
      assert forall k :: p <= k < id.rest ==> id.value[k - p] == src[k];
    }
    if NameAt(src, p, z, name) {
      ReservedExactly(name);
      RunWhileIs(src, p + 1, z, IsIdentChar);
    }
  }

  /** The three pairs of brackets. */
  predicate Pair(open: char, close: char) {
    (open == '<' && close == '>') || (open == '(' && close == ')') || (open == '[' && close == ']')
  }

  predicate Barred(em: EscapeMatch, opens: string, closes: string) {
    && em == EscapeMatch("|" + opens + "{", "}" + closes + "|", "|" + opens)
    && |opens| == |closes|
    && forall k :: 0 <= k < |opens| ==> Pair(opens[k], closes[|closes| - 1 - k])
  }

  /** Plain braces; or a bar and brackets before the brace, and after the closing one
      the same brackets closed in reverse and a bar. */
  ghost predicate Delimiter(em: EscapeMatch) {
    em == EscapeMatch("{", "}", "") || exists opens, closes :: Barred(em, opens, closes)
  }

  lemma BarredIsMatch(em: EscapeMatch, opens: string, closes: string)
    requires Barred(em, opens, closes)
    ensures IsOpenForm(em.open) && em == MatchFor(em.open)
  {
    hide Mirror;
    assert em.open[1..|em.open| - 1] == opens;
    assert em.open[..|em.open| - 1] == "|" + opens;
    assert forall k :: 0 <= k < |opens| ==> em.open[k + 1] == opens[k];
    assert forall k :: 0 <= k < |opens| ==> IsEscapeSymbol(opens[k]);
    var m := Mirror(opens);
    forall k | 0 <= k < |opens|
      ensures m[k] == closes[k]
    {
      assert Pair(opens[|closes| - 1 - k], closes[|closes| - 1 - (|closes| - 1 - k)]);
    }
    assert m == closes;
  }

  lemma MatchIsBarred(open: string)
    requires IsOpenForm(open) && open != "{"
    ensures Barred(MatchFor(open), open[1..|open| - 1], Mirror(open[1..|open| - 1]))
  {
    hide Mirror;
    var opens := open[1..|open| - 1];
    var closes := Mirror(opens);
    assert open == "|" + opens + "{";
    assert open[..|open| - 1] == "|" + opens;
    forall k | 0 <= k < |opens|
      ensures Pair(opens[k], closes[|closes| - 1 - k])
    {
      assert opens[k] == open[k + 1];
    }
  }

  /** Every delimiter, and nothing else, is read at its opening form. */
  lemma DelimitersExactly(src: string, p: nat, a: nat, em: EscapeMatch)
    requires p <= |src|
    ensures GenericOpenCurly(src, p) == Ok(a, em) <==> Delimiter(em) && At(src, p, em.open) && a == p + |em.open|
  {
    hide MatchFor, Barred, IsOpenForm;
    if GenericOpenCurly(src, p).Ok? {
      var open := GenericOpenCurly(src, p).value.open;
      OpenFormRead(src, p);
      if open != "{" {
        MatchIsBarred(open);
      } else {
        PlainMatch();
      }
    }
    if Delimiter(em) && At(src, p, em.open) {
      PlainMatch();
      if em != EscapeMatch("{", "}", "") {
        var opens, closes :| Barred(em, opens, closes);
        BarredIsMatch(em, opens, closes);
      }
      GenericOpenCurlyReads(src, p, em.open);
    }
  }

  lemma PlainMatch()
    ensures IsOpenForm("{") && MatchFor("{") == EscapeMatch("{", "}", "")
  {
  }

  lemma OpenFormRead(src: string, p: nat)
    requires p <= |src| && GenericOpenCurly(src, p).Ok?
    ensures var r := GenericOpenCurly(src, p);
            && IsOpenForm(r.value.open) && r.value == MatchFor(r.value.open)
            && At(src, p, r.value.open) && r.rest == p + |r.value.open|
  {
    hide MatchingClose, MatchingEscape;
    var r := GenericOpenCurly(src, p);
    assert |r.value.open| == r.rest - p;
    AtSlice(src, p, r.value.open);
  }

  /** A line comment from `p` to `z`: the marker, something on the line that starts no
      block comment, and the newline. */
  predicate LineCommentWritten(src: string, p: nat, z: nat, em: EscapeMatch) {
    var a := p + |em.escape| + 2;
    && At(src, p, em.escape + "@%")
    && a + 1 < z <= |src|
    && src[z - 1] == '\n'
    && (forall k :: a <= k < z - 1 ==> src[k] != '\n')
    && src[a] != '|' && src[a] != '{'
  }

  /** A block comment from `p` to `z`: the marker, the opening form of a delimiter of its
      own, and all up to the first closing form that nothing in between matches. */
  ghost predicate BlockCommentWritten(src: string, p: nat, z: nat, em: EscapeMatch) {
    At(src, p, em.escape + "@%") && BlockWritten(src, p + |em.escape| + 2, z)
  }

  ghost predicate BlockWritten(src: string, a: nat, z: nat) {
    exists own, n :: BlockBody(src, a, z, own, n)
  }

  ghost predicate BlockBody(src: string, a: nat, z: nat, own: EscapeMatch, n: nat) {
    && Delimiter(own) && Usable(own) && At(src, a, own.open)
    && var marks := Marks(src, own, a + |own.open|);
       FirstUnmatched(marks, n, 0) && z == marks[n].to
  }

  ghost predicate CommentWritten(src: string, p: nat, z: nat, em: EscapeMatch) {
    BlockCommentWritten(src, p, z, em) || LineCommentWritten(src, p, z, em)
  }

  lemma {:induction false} MarkWidth(src: string, em: EscapeMatch, p: nat, n: nat)
    requires p <= |src| && Usable(em) && n < |Marks(src, em, p)| && Marks(src, em, p)[n].kind.Close?
    ensures Marks(src, em, p)[n].to == Marks(src, em, p)[n].from + |em.close|
    decreases |src| - p
  {
    if n > 0 && p < |src| {
      MarkWidth(src, em, Marks(src, em, p)[0].to, n - 1);
    }
  }

  lemma BlockBodyRead(src: string, a: nat, own: EscapeMatch) returns (n: nat)
    requires a <= |src| && Usable(own) && BlockCommentText(src, a, own, 1).Ok?
    ensures var marks := Marks(src, own, a);
            && FirstUnmatched(marks, n, 0)
            && marks[n].to == BlockCommentText(src, a, own, 1).rest + |own.close|
  {
    hide FirstUnmatched, BlockCommentText, Marks;
    BlockCommentStopsAtFirstUnmatched(src, a, own);
    n :| FirstUnmatched(Marks(src, own, a), n, 0);
    UnmatchedCloses(Marks(src, own, a), n);
    MarkWidth(src, own, a, n);
  }

  lemma UnmatchedCloses(ts: seq<Token>, n: nat)
    requires FirstUnmatched(ts, n, 0)
    ensures n < |ts| && ts[n].kind.Close?
  {
  }

  lemma BlockCommentsExactly(src: string, p: nat, z: nat, em: EscapeMatch)
    requires p <= |src|
    ensures BlockComment(src, p, em) == Ok(z, ()) <==> BlockCommentWritten(src, p, z, em)
  {
    hide FirstUnmatched, BlockCommentText, Marks, Delimiter, GenericOpenCurly, Usable;
    if At(src, p, em.escape + "@%") {
      var a := p + |em.escape| + 2;
      if BlockComment(src, p, em).Ok? {
        var own := GenericOpenCurly(src, a);
        DelimitersExactly(src, a, own.rest, own.value);
        var n := BlockBodyRead(src, own.rest, own.value);
        assert BlockBody(src, a, BlockComment(src, p, em).rest, own.value, n);
      }
      if BlockCommentWritten(src, p, z, em) {
        var own, n :| BlockBody(src, a, z, own, n);
        BlockWrittenIsRead(src, p, z, em, own, n);
      }
    }
  }

  lemma BlockWrittenIsRead(src: string, p: nat, z: nat, em: EscapeMatch, own: EscapeMatch, n: nat)
    requires At(src, p, em.escape + "@%") && BlockBody(src, p + |em.escape| + 2, z, own, n)
    ensures p <= |src| && BlockComment(src, p, em) == Ok(z, ())
  {
    hide FirstUnmatched, BlockCommentText, Marks, Delimiter, GenericOpenCurly, Usable, At;
    AtInside(src, p, em.escape + "@%");
    var a := p + |em.escape| + 2;
    AtInside(src, a, own.open);
    DelimitersExactly(src, a, a + |own.open|, own);
    BlockCommentStopsAtFirstUnmatched(src, a + |own.open|, own);
    UnmatchedCloses(Marks(src, own, a + |own.open|), n);
    MarkWidth(src, own, a + |own.open|, n);
  }

  lemma AtInside(src: string, p: nat, t: string)
    requires At(src, p, t)
    ensures p + |t| <= |src|
  {
  }

  lemma LineCommentsExactly(src: string, p: nat, z: nat, em: EscapeMatch)
    requires p <= |src|
    ensures LineComment(src, p, em) == Ok(z, ()) <==> LineCommentWritten(src, p, z, em)
  {
    var a := p + |em.escape| + 2;
    if LineCommentWritten(src, p, z, em) {
      RunWhileIs(src, a, z - 1, NotNewline);
    }
  }

  lemma OnlyOneKind(src: string, p: nat, z: nat, em: EscapeMatch)
    requires LineCommentWritten(src, p, z, em) && p <= |src|
    ensures !BlockComment(src, p, em).Ok?
  {
  }

  /** A comment is read exactly where one is written, of either kind. */
  lemma CommentsExactly(src: string, p: nat, z: nat, em: EscapeMatch)
    requires p <= |src|
    ensures Comment(src, p, em) == Ok(z, ()) <==> CommentWritten(src, p, z, em)
  {
    hide BlockComment, LineComment, BlockCommentWritten, LineCommentWritten;
    BlockCommentsExactly(src, p, z, em);
    LineCommentsExactly(src, p, z, em);
    if LineCommentWritten(src, p, z, em) {
      OnlyOneKind(src, p, z, em);
    }
  }

  /** One blank, or one comment. */
  ghost predicate BlankPiece(src: string, a: nat, b: nat) {
    (a < |src| && Blank(src[a]) && b == a + 1) || CommentWritten(src, a, b, EscapeMatch("{", "}", ""))
  }

  /** Blanks and comments from `p` to `q`, cut between them. */
  ghost predicate BlankPieces(src: string, p: nat, q: nat, cuts: seq<nat>) {
    && cuts != [] && cuts[0] == p && cuts[|cuts| - 1] == q
    && forall i :: 0 <= i < |cuts| - 1 ==> BlankPiece(src, cuts[i], cuts[i + 1])
  }

  /** All blanks and comments from `p` on end at `q`. */
  ghost predicate BlanksTo(src: string, p: nat, q: nat) {
    && p <= |src| && q <= |src|
    && (exists cuts :: BlankPieces(src, p, q, cuts))
    && forall z :: !BlankPiece(src, q, z)
  }

  lemma SkipOneBlank(src: string, p: nat)
    requires p < |src| && Blank(src[p])
    ensures SkipBlank(src, p) == SkipBlank(src, p + 1)
  {
    hide Comment;
    var q := RunWhile(src, p, IsMultispace);
    assert q == RunWhile(src, p + 1, IsMultispace);
    assert SkipBlank(src, p) == SkipBlank(src, q);
    if !Sees(src, p + 1, IsMultispace) {
      assert q == p + 1;
    }
  }

  lemma SkipOneComment(src: string, p: nat)
    requires p <= |src| && Comment(src, p, DEFAULT_ESCAPE_MATCH).Ok?
    ensures SkipBlank(src, p) == SkipBlank(src, Comment(src, p, DEFAULT_ESCAPE_MATCH).rest)
  {
    hide Comment;
    AtHead(src, p, "@%");
    assert DEFAULT_ESCAPE_MATCH.escape + "@%" == "@%";
  }

  lemma PlainDelimiter()
    ensures DEFAULT_ESCAPE_MATCH == EscapeMatch("{", "}", "")
  {
  }

  lemma OnlyUnit(u: ())
    ensures u == ()
  {
  }

  lemma PieceOrStays(src: string, p: nat) returns (z: nat)
    requires p <= |src|
    ensures BlankPiece(src, p, z) || SkipBlank(src, p) == p
  {
    hide Comment, CommentWritten;
    PlainDelimiter();
    var comment := Comment(src, p, DEFAULT_ESCAPE_MATCH);
    z := p + 1;
    if comment.Ok? {
      OnlyUnit(comment.value);
      CommentsExactly(src, p, comment.rest, DEFAULT_ESCAPE_MATCH);
      z := comment.rest;
    }
  }

  lemma NoPieceStays(src: string, p: nat)
    requires p <= |src| && forall z :: !BlankPiece(src, p, z)
    ensures SkipBlank(src, p) == p
  {
    hide BlankPiece, SkipBlank;
    var z := PieceOrStays(src, p);
  }

  lemma SkipOnePiece(src: string, p: nat, z: nat)
    requires p <= |src| && BlankPiece(src, p, z)
    ensures p < z <= |src| && SkipBlank(src, p) == SkipBlank(src, z)
  {
    hide Comment, CommentWritten, SkipBlank;
    PlainDelimiter();
    if p < |src| && Blank(src[p]) && z == p + 1 {
      SkipOneBlank(src, p);
    } else {
      CommentsExactly(src, p, z, DEFAULT_ESCAPE_MATCH);
      SkipOneComment(src, p);
    }
  }

  lemma {:induction false} PiecesAreSkipped(src: string, p: nat, q: nat, cuts: seq<nat>)
    requires p <= |src| && BlankPieces(src, p, q, cuts)
    ensures q <= |src| && SkipBlank(src, p) == SkipBlank(src, q)
    decreases |cuts|
  {
    hide BlankPiece, SkipBlank;
    if |cuts| > 1 {
      assert BlankPiece(src, cuts[0], cuts[0 + 1]);
      SkipOnePiece(src, p, cuts[1]);
      var rest := cuts[1..];
      forall i | 0 <= i < |rest| - 1
        ensures BlankPiece(src, rest[i], rest[i + 1])
      {
        assert BlankPiece(src, cuts[i + 1], cuts[i + 1 + 1]);
      }
      PiecesAreSkipped(src, cuts[1], q, rest);
    }
  }

  lemma {:induction false} SkippedArePieces(src: string, p: nat) returns (cuts: seq<nat>)
    requires p <= |src|
    ensures BlankPieces(src, p, SkipBlank(src, p), cuts)
    ensures forall z :: !BlankPiece(src, SkipBlank(src, p), z)
    decreases |src| - p
  {
    hide SkipBlank, BlankPiece;
    if z :| BlankPiece(src, p, z) {
      SkipOnePiece(src, p, z);
      var rest := SkippedArePieces(src, z);
      cuts := [p] + rest;
      forall i | 0 <= i < |cuts| - 1
        ensures BlankPiece(src, cuts[i], cuts[i + 1])
      {
        if i > 0 {
          assert BlankPiece(src, rest[i - 1], rest[i - 1 + 1]);
        }
      }
    } else {
      NoPieceStays(src, p);
      cuts := [p];
    }
  }

  /** What may stand between the parts of a command is skipped exactly. */
  lemma BlanksExactly(src: string, p: nat, q: nat)
    requires p <= |src|
    ensures SkipBlank(src, p) == q <==> BlanksTo(src, p, q)
  {
    hide SkipBlank, BlankPiece, BlankPieces;
    var cuts := SkippedArePieces(src, p);
    if BlanksTo(src, p, q) {
      var cuts' :| BlankPieces(src, p, q, cuts');
      PiecesAreSkipped(src, p, q, cuts');
      NoPieceStays(src, q);
    }
  }
}
