/** Reading single entries of a list in square brackets, and what stands between them. */
module EntryReading {
  import opened Spans
  import opened Ast
  import opened Delimiters
  import opened Comments
  import opened Parser
  import opened Printing
  import StringLiterals
  import StringSpelling

  /** The end of an entry: what follows it in a print. */
  predicate StopsAt(src: string, q: nat) { q < |src| && Stops(src[q]) }

  lemma NumberHere(d: string -> nat, src: string, p: nat, text: string, n: nat)
    requires Takes(d, text, n) && At(src, p, text) && StopsAt(src, p + |text|)
    ensures d(src[p..]) == n
  {
    AtSlice(src, p, text);
    assert src[p..] == text + src[p + |text|..];
    assert StartsStop(src[p + |text|..]);
  }

  predicate IsWord(w: string) {
    forall k :: 0 <= k < |w| ==> IsAlpha(w[k])
  }

  lemma LettersDoNotStop(a: char, b: char)
    requires Stops(a) && IsAlpha(b)
    ensures ToLower(a) != ToLower(b)
  {
  }

  /** A word that stands here stands in the text. */
  lemma WordInText(src: string, p: nat, text: string, w: string)
    requires At(src, p, text) && StopsAt(src, p + |text|) && IsWord(w) && AtNoCase(src, p, w)
    ensures AtNoCase(text, 0, w)
  {
    hide ToLower, Stops, IsAlpha;
    AtSlice(src, p, text);
    if |w| <= |text| {
      assert text[0..|w|] == src[p..p + |w|];
    } else {
      assert src[p..p + |w|][|text|] == src[p + |text|];
      LettersDoNotStop(src[p + |text|], w[|text|]);
    }
  }

  lemma NoWordHere(src: string, p: nat, text: string)
    requires NoWord(text) && At(src, p, text) && StopsAt(src, p + |text|)
    ensures !AtNoCase(src, p, "true") && !AtNoCase(src, p, "false")
  {
    hide AtNoCase;
    if AtNoCase(src, p, "true") {
      WordInText(src, p, text, "true");
    }
    if AtNoCase(src, p, "false") {
      WordInText(src, p, text, "false");
    }
  }

  lemma NoCaseHead(src: string, p: nat, w: string)
    requires w != ""
    ensures AtNoCase(src, p, w) ==> p < |src| && ToLower(src[p]) == ToLower(w[0])
  {
    hide ToLower;
    if AtNoCase(src, p, w) {
      assert src[p..p + |w|][0] == src[p];
    }
  }

  /** Neither a boolean nor a number starts with a quote, an `@` or a closing bracket. */
  lemma NothingStarts(s: Input, p: nat)
    requires Numeric(s.double) && p < |s.src| && s.src[p] in "\"@]"
    ensures !AtNoCase(s.src, p, "true") && !AtNoCase(s.src, p, "false") && s.double(s.src[p..]) == 0
    ensures Identifier(s.src, p).Err?
  {
    hide AtNoCase;
    assert s.src[p..][0] == s.src[p];
    NoCaseHead(s.src, p, "true");
    NoCaseHead(s.src, p, "false");
  }

  lemma BoolReads(s: Input, p: nat, b: bool)
    requires At(s.src, p, if b then "true" else "false")
    ensures BareEntry(s, p) == Ok(p + (if b then 4 else 5), Bool(b))
  {
    hide ParseCommand, Identifier, StringLiterals.QuotedString;
    if b {
      AtSlice(s.src, p, "true");
    } else {
      AtSlice(s.src, p, "false");
      AtHead(s.src, p, "false");
      NoCaseHead(s.src, p, "true");
    }
  }

  lemma NumReads(s: Input, p: nat, text: string)
    requires ReadableEntry(s.double, Num(text)) && At(s.src, p, text) && StopsAt(s.src, p + |text|)
    ensures BareEntry(s, p) == Ok(p + |text|, Num(text))
  {
    hide ParseCommand, Identifier, StringLiterals.QuotedString, AtNoCase, Takes, NoWord, StopsAt;
    NoWordHere(s.src, p, text);
    NumberHere(s.double, s.src, p, text, |text|);
    AtSlice(s.src, p, text);
  }

  lemma StopsNoName(src: string, q: nat)
    requires StopsAt(src, q)
    ensures q < |src| && !Sees(src, q, IsIdentChar)
  {
  }

  lemma NameReads(src: string, name: string, p: nat)
    requires IsName(name) && At(src, p, name) && !Sees(src, p + |name|, IsIdentChar)
    ensures Identifier(src, p) == Ok(p + |name|, name)
  {
    AtHead(src, p, name);
    AtSlice(src, p, name);
    forall k | p + 1 <= k < p + |name|
      ensures IsIdentChar(src[k])
    {
      assert src[p + (k - p)] == name[k - p];
    }
    RunWhileIs(src, p + 1, p + |name|, IsIdentChar);
  }

  lemma IdentReads(s: Input, p: nat, id: string)
    requires ReadableEntry(s.double, Ident(id)) && At(s.src, p, id) && StopsAt(s.src, p + |id|)
    ensures BareEntry(s, p) == Ok(p + |id|, Ident(id))
  {
    hide ParseCommand, Identifier, StringLiterals.QuotedString, AtNoCase, Takes, NoWord, StopsAt, IsName;
    NoWordHere(s.src, p, id);
    NumberHere(s.double, s.src, p, id, 0);
    StopsNoName(s.src, p + |id|);
    NameReads(s.src, id, p);
  }

  lemma SpelledIsLegal(c: char)
    ensures StringSpelling.Legal(SpelledChar(c)) && StringSpelling.Meaning(SpelledChar(c)) == [c]
    ensures !SpelledChar(c).Gap?
  {
  }

  /** The spelling that is printed is a legal spelling of the string. */
  lemma {:induction false} SpelledMeans(t: string)
    ensures StringSpelling.LegalAll(Spelled(t)) && StringSpelling.MeaningAll(Spelled(t)) == t
    decreases |t|
  {
    hide SpelledChar, StringSpelling.Legal, StringSpelling.Meaning, StringSpelling.StartsWithSpace;
    forall k | 0 <= k < |t|
      ensures StringSpelling.Legal(Spelled(t)[k]) && !Spelled(t)[k].Gap?
    {
      SpelledIsLegal(t[k]);
    }
    if t != "" {
      SpelledIsLegal(t[0]);
      SpelledMeans(t[1..]);
      assert Spelled(t)[1..] == Spelled(t[1..]);
    }
  }

  lemma StringReads(s: Input, p: nat, t: string)
    requires Numeric(s.double) && At(s.src, p, PrintEntry(QuotedStr(t)))
    ensures BareEntry(s, p) == Ok(p + |PrintEntry(QuotedStr(t))|, QuotedStr(t))
  {
    hide ParseCommand, Identifier, AtNoCase, StringLiterals.BuildString, StringSpelling.SourceAll, Numeric,
         StringSpelling.MeaningAll, StringSpelling.LegalAll, Spelled, StringLiterals.ParseString;
    AtHead(s.src, p, PrintEntry(QuotedStr(t)));
    NothingStarts(s, p);
    SpelledMeans(t);
    StringSpelling.SpelledThenRead(s.src, p, Spelled(t));
  }

  lemma CommandEntryReads(s: Input, p: nat, z: nat, node: Node)
    requires Numeric(s.double) && CharAt(s.src, p, '@') && ParseCommand(s, DEFAULT_ESCAPE_MATCH, p) == Ok(z, node)
    ensures BareEntry(s, p) == Ok(z, Cmd(node))
  {
    hide ParseCommand, Identifier, AtNoCase, Numeric;
    NothingStarts(s, p);
  }

  lemma NoEntry(s: Input, p: nat)
    requires Numeric(s.double) && CharAt(s.src, p, ']')
    ensures BareEntry(s, p) == Err
  {
    hide Identifier, AtNoCase, Numeric, StringLiterals.ParseString, ParseContents;
    NothingStarts(s, p);
    AtHead(s.src, p, "@");
    assert DEFAULT_ESCAPE_MATCH.escape + "@" == "@";
  }

  /** At a closing bracket there is no argument. */
  lemma NoArgument(s: Input, p: nat)
    requires Numeric(s.double) && CharAt(s.src, p, ']')
    ensures SquareArgument(s, p) == Err
  {
    hide BareEntry, Numeric;
    NoEntry(s, p);
    assert SkipSpaces(s.src, p) == p;
  }

  /** No whitespace starts here. */
  predicate Solid(src: string, p: nat) { p < |src| && !IsMultispace(src[p]) }

  /** A comma or the closing bracket: what follows an argument in a print. */
  predicate ArgumentEnds(src: string, q: nat) { Solid(src, q) && StopsAt(src, q) && src[q] != '=' }

  lemma SolidEntry(s: Input, p: nat, q: nat, e: SquareEntry)
    requires Solid(s.src, p) && Solid(s.src, q) && BareEntry(s, p) == Ok(q, e)
    ensures SquareEntryAt(s, p) == Ok(q, e)
  {
    hide BareEntry;
  }

  lemma ValReads(s: Input, p: nat, q: nat, e: SquareEntry)
    requires p <= |s.src| && SquareEntryAt(s, p) == Ok(q, e) && Solid(s.src, q) && s.src[q] != '='
    ensures SquareArgument(s, p) == Ok(q, Val(e))
  {
    hide SquareEntryAt;
  }

  lemma KeyValReads(s: Input, p: nat, a: nat, z: nat, key: SquareEntry, val: SquareEntry)
    requires p <= |s.src| && SquareEntryAt(s, p) == Ok(a, key) && CharAt(s.src, a, '=') && Solid(s.src, a + 1)
    requires SquareEntryAt(s, a + 1) == Ok(z, val)
    ensures SquareArgument(s, p) == Ok(z, KeyVal(key, val))
  {
    hide SquareEntryAt;
    assert SkipSpaces(s.src, a) == a && SkipSpaces(s.src, a + 1) == a + 1;
  }

  lemma CommaReads(src: string, p: nat)
    requires CharAt(src, p, ',') && Solid(src, p + 1)
    ensures CommaSep(src, p) == Some(p + 1)
  {
  }

  lemma NoComma(src: string, p: nat)
    requires CharAt(src, p, ']')
    ensures CommaSep(src, p) == None && OptionalComma(src, p) == p
  {
  }

  /** Every entry starts with something that is no whitespace. */
  lemma EntryHead(d: string -> nat, e: SquareEntry)
    requires ReadableEntry(d, e) && CanonicalEntry(e)
    ensures PrintEntry(e) != "" && !IsMultispace(PrintEntry(e)[0])
  {
    hide Takes, NoWord, Readable, PrintSquare, PrintArgs, Spelled;
  }
}
