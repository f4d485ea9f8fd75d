/** Newlines, comments and the blanks between the parts of a command. */
module Comments {
  import opened Spans
  import opened Ast
  import opened Delimiters

  /** `\r\n` or `\n`, as a text node that sits at the line feed. */
  function OneNewline(src: string, p: nat): (r: PResult<Node>)
    requires p <= |src|
    ensures !r.Panic?
    ensures r.Ok? ==> p < r.rest <= |src| && r.value == Text("\n", r.rest - 1)
  {
    if AtCrLf(src, p) then Ok(p + 2, Text("\n", p + 1))
    else if CharAt(src, p, '\n') then Ok(p + 1, Text("\n", p))
    else Err
  }

  /** The body of a block comment, from `p` on, inside `balance` open delimiters.
      The closing form itself is not consumed. */
  function BlockCommentText(src: string, p: nat, em: EscapeMatch, balance: nat): (r: PResult<()>)
    requires p <= |src| && Usable(em) && balance >= 1
    ensures !r.Panic?
    ensures r.Ok? ==> p <= r.rest <= |src| && At(src, r.rest, em.close)
    decreases |src| - p
  {
    if At(src, p, em.open) then BlockCommentText(src, p + |em.open|, em, balance + 1)
    else if At(src, p, em.close) then
      if balance == 1 then Ok(p, ()) else BlockCommentText(src, p + |em.close|, em, balance - 1)
    else if p < |src| then BlockCommentText(src, p + 1, em, balance)
    else Err
  }

  /** The loop form of `BlockCommentText`. */
  method SkipBlockComment(src: string, p: nat, em: EscapeMatch) returns (r: PResult<()>)
    requires p <= |src| && Usable(em)
    ensures r == BlockCommentText(src, p, em, 1)
  {
    ghost var all := BlockCommentText(src, p, em, 1);
    var balance: nat := 1;
    var rest: nat := p;
    while true
      invariant rest <= |src| && balance >= 1
      invariant all == BlockCommentText(src, rest, em, balance)
      decreases |src| - rest
    {
      if At(src, rest, em.open) {
        balance, rest := balance + 1, rest + |em.open|;
      } else if At(src, rest, em.close) {
        balance := balance - 1;
        if balance <= 0 {
          break;
        }
        rest := rest + |em.close|;
      } else {
        if rest == |src| {
          return Err;
        }
        rest := rest + 1;
      }
    }
    r := Ok(rest, ());
  }

  /** `@%` in the escape of `em`, then a delimited body in a delimiter of its own. */
  function BlockComment(src: string, p: nat, em: EscapeMatch): (r: PResult<()>)
    requires p <= |src|
    ensures !r.Panic?
    ensures r.Ok? ==> p < r.rest <= |src|
  {
    if !At(src, p, em.escape + "@%") then Err
    else
      var own := GenericOpenCurly(src, p + |em.escape| + 2);
      if !own.Ok? then Err
      else
        var body := BlockCommentText(src, own.rest, own.value, 1);
        if body.Ok? then Ok(body.rest + |own.value.close|, ()) else Err
  }

  /** `@%`, then at least one character that is no newline, the first of them
      neither `|` nor `{`, then the newline that ends the comment. */
  function LineComment(src: string, p: nat, em: EscapeMatch): (r: PResult<()>)
    requires p <= |src|
    ensures !r.Panic?
    ensures r.Ok? ==> p < r.rest <= |src|
  {
    if !At(src, p, em.escape + "@%") then Err
    else
      var a := p + |em.escape| + 2;
      if a == |src| || src[a] in "|{" then Err
      else
        var z := RunWhile(src, a, NotNewline);
        if z == a || z == |src| then Err else Ok(z + 1, ())
  }

  function Comment(src: string, p: nat, em: EscapeMatch): (r: PResult<()>)
    requires p <= |src|
    ensures !r.Panic?
    ensures r.Ok? ==> p < r.rest <= |src| && At(src, p, em.escape + "@%")
  {
    var block := BlockComment(src, p, em);
    if block.Ok? then block else LineComment(src, p, em)
  }

  /** A line comment is what stands between its marker and the first newline, both
      included, unless that is nothing or starts like a block comment. */
  lemma LineCommentExactly(src: string, p: nat, em: EscapeMatch, z: nat)
    requires p <= |src|
    ensures var a := p + |em.escape| + 2;
            LineComment(src, p, em) == Ok(z, ()) <==>
            && At(src, p, em.escape + "@%")
            && a + 1 < z <= |src|
            && src[z - 1] == '\n'
            && (forall k :: a <= k < z - 1 ==> src[k] != '\n')
            && src[a] != '|' && src[a] != '{'
  {
    var a := p + |em.escape| + 2;
    if a < z <= |src| && src[z - 1] == '\n' && forall k :: a <= k < z - 1 ==> src[k] != '\n' {
      RunWhileIs(src, a, z - 1, NotNewline);
    }
  }

  /** Any mixture of whitespace and comments, all of it; never fails. */
  function SkipBlank(src: string, p: nat): (q: nat)
    requires p <= |src|
    ensures p <= q <= |src|
    ensures !Sees(src, q, IsMultispace) && !Comment(src, q, DEFAULT_ESCAPE_MATCH).Ok?
    decreases |src| - p
  {
    if Sees(src, p, IsMultispace) then
      assert RunWhile(src, p, IsMultispace) == RunWhile(src, p + 1, IsMultispace);
      SkipBlank(src, RunWhile(src, p, IsMultispace))
    else
      var comment := Comment(src, p, DEFAULT_ESCAPE_MATCH);
      if comment.Ok? then SkipBlank(src, comment.rest) else p
  }

  /** Blanks and then the character `c`, or nothing at all. */
  function AfterBlank(src: string, p: nat, c: char): (q: Option<nat>)
    requires p <= |src|
    ensures q.Some? ==> p < q.value <= |src|
  {
    var z := SkipBlank(src, p);
    if CharAt(src, z, c) then Some(z + 1) else None
  }

  /** A command name: a maximal run of name characters that is not reserved. */
  function Identifier(src: string, p: nat): (r: PResult<string>)
    requires p <= |src|
    ensures !r.Panic?
    ensures r.Ok? ==> p < r.rest <= |src| && IsName(r.value) && r.value == src[p..r.rest]
    ensures r.Ok? ==> !Sees(src, r.rest, IsIdentChar)
  {
    if !Sees(src, p, IsIdentStart) then Err
    else
      var q := RunWhile(src, p + 1, IsIdentChar);
      if IsReserved(src[p..q]) then Err else Ok(q, src[p..q])
  }
}
