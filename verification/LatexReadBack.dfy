/** Reading LaTeX output back: a decoder for the forms the outputters print, and
    the proof that it recovers the characters and the tags of every tree. */
module LatexReadBack {
  import opened Spans
  import opened Ltrf
  import opened Latex

  /** What is left of a tree in its output: characters and tagged groups. */
  datatype Item = Ch(c: char) | Group(tag: string, items: seq<Item>)

  function Chars(s: string): (r: seq<Item>)
    ensures |r| == |s| && forall k :: 0 <= k < |s| ==> r[k] == Ch(s[k])
  {
    seq(|s|, k requires 0 <= k < |s| => Ch(s[k]))
  }

  /** A tree up to what its output does not say: where one string ends and the next
      begins, keys and values, the children of nodes that print without them, and
      what the blank lines around a paragraph come from. */
  function Content(t: Table, o: Obj): seq<Item>
    decreases o, 1
  {
    if o.Str? then Chars(o.s)
    else if o.tag !in t then []
    else if t[o.tag].NoCurly? then [Group(o.tag, [])]
    else if t[o.tag].Blank? then Chars("\n\n") + ContentAll(t, o.elems) + Chars("\n\n")
    else [Group(o.tag, ContentAll(t, o.elems))]
  }

  function ContentAll(t: Table, es: seq<Obj>): seq<Item>
    decreases es
  {
    if es == [] then [] else Content(t, es[0]) + ContentAll(t, es[1..])
  }

  predicate Prints(t: Table, tag: string, name: string, block: bool) {
    tag in t && !t[tag].Blank? && t[tag].Block? == block && CommandOf(t[tag]) == name
  }

  /** The tag that prints as a command or block of the given name, if there is one. */
  ghost function TagNamed(t: Table, name: string, block: bool): (tag: Option<string>)
    ensures tag.Some? ==> Prints(t, tag.value, name, block)
  {
    if exists tag :: Prints(t, tag, name, block) then
      var tag :| Prints(t, tag, name, block);
      Some(tag)
    else None
  }

  lemma TagNamedIs(t: Table, tag: string)
    requires WellNamed(t) && tag in t && !t[tag].Blank?
    ensures TagNamed(t, CommandOf(t[tag]), t[tag].Block?) == Some(tag)
  {
    assert Prints(t, tag, CommandOf(t[tag]), t[tag].Block?);
  }

  /** What may stand after a backslash as itself. */
  predicate Escapable(c: char) {
    c == '&' || c == '%' || c == '$' || c == '#' || c == '_' || c == '{' || c == '}'
  }

  /** The character a spelling command stands for. */
  function SpelledChar(name: string): Option<char> {
    if name == "textasciitilde" then Some('~')
    else if name == "textasciicircum" then Some('^')
    else if name == "textbackslash" then Some('\\')
    else None
  }

  /** The end of the word that starts at `p`. */
  function WordEnd(src: string, p: nat): (q: nat)
    requires p <= |src|
    ensures p <= q <= |src|
  {
    RunWhile(src, p, IsLetter)
  }

  /** At the end of a group: a closing brace, `\end`, or the end of the source. */
  predicate Closes(src: string, p: nat)
    requires p <= |src|
  {
    || p == |src|
    || src[p] == '}'
    || (src[p] == '\\' && src[p + 1..WordEnd(src, p + 1)] == "end")
  }

  /** All items up to the end of the group. */
  ghost function ReadItems(t: Table, src: string, p: nat): (r: Option<(seq<Item>, nat)>)
    requires p <= |src|
    ensures r.Some? ==> p <= r.value.1 <= |src|
    decreases |src| - p, 1
  {
    if Closes(src, p) then Some(([], p))
    else
      match ReadItem(t, src, p)
      case None => None
      case Some((item, q)) =>
        match ReadItems(t, src, q)
        case None => None
        case Some((items, z)) => Some(([item] + items, z))
  }

  ghost function ReadItem(t: Table, src: string, p: nat): (r: Option<(Item, nat)>)
    requires p < |src|
    ensures r.Some? ==> p < r.value.1 <= |src|
    decreases |src| - p, 0
  {
    if src[p] != '\\' then Some((Ch(src[p]), p + 1))
    else if p + 1 < |src| && Escapable(src[p + 1]) then Some((Ch(src[p + 1]), p + 2))
    else
      var q := WordEnd(src, p + 1);
      var name := src[p + 1..q];
      if SpelledChar(name).Some? then
        if At(src, q, "{}") then Some((Ch(SpelledChar(name).value), q + 2)) else None
      else if name == "begin" then ReadBlock(t, src, q)
      else
        match TagNamed(t, name, false)
        case None => None
        case Some(tag) =>
          if !CharAt(src, q, '{') then None
          else if t[tag].NoCurly? then
            if CharAt(src, q + 1, '}') then Some((Group(tag, []), q + 2)) else None
          else
            match ReadItems(t, src, q + 1)
            case None => None
            case Some((items, z)) => if CharAt(src, z, '}') then Some((Group(tag, items), z + 1)) else None
  }

  /** From the name of a block, in braces, to its `\end`. */
  ghost function ReadBlock(t: Table, src: string, p: nat): (r: Option<(Item, nat)>)
    requires p <= |src|
    ensures r.Some? ==> p < r.value.1 <= |src|
    decreases |src| - p, 0
  {
    if !CharAt(src, p, '{') then None
    else
      var q := WordEnd(src, p + 1);
      var name := src[p + 1..q];
      var tag := TagNamed(t, name, true);
      if !CharAt(src, q, '}') || tag.None? then None
      else
        match ReadItems(t, src, q + 1)
        case None => None
        case Some((items, z)) =>
          if At(src, z, "\\end{" + name + "}") then Some((Group(tag.value, items), z + |name| + 6)) else None
  }

  /** The items that follow, with some more in front. */
  ghost function Prepend(items: seq<Item>, r: Option<(seq<Item>, nat)>): Option<(seq<Item>, nat)> {
    if r.None? then None else Some((items + r.value.0, r.value.1))
  }

  lemma ReadStep(t: Table, src: string, p: nat)
    requires p < |src| && !Closes(src, p) && ReadItem(t, src, p).Some?
    ensures ReadItems(t, src, p) ==
            Prepend([ReadItem(t, src, p).value.0], ReadItems(t, src, ReadItem(t, src, p).value.1))
  {
    hide ReadItem, Closes;
  }

  lemma PrependTwice(a: seq<Item>, b: seq<Item>, r: Option<(seq<Item>, nat)>)
    ensures Prepend(a, Prepend(b, r)) == Prepend(a + b, r)
  {
    if r.Some? {
      assert a + (b + r.value.0) == a + b + r.value.0;
    }
  }

  lemma PrependNothing(r: Option<(seq<Item>, nat)>)
    ensures Prepend([], r) == r
  {
    if r.Some? {
      assert [] + r.value.0 == r.value.0;
    }
  }

  /** Where a word stands, with no letter after it, it is read whole. */
  lemma WordReads(src: string, p: nat, w: string)
    requires IsWord(w) && Spans.At(src, p, w) && !Sees(src, p + |w|, IsLetter)
    ensures WordEnd(src, p) == p + |w| && src[p..p + |w|] == w
  {
    AtSlice(src, p, w);
    forall k | p <= k < p + |w|
      ensures IsLetter(src[k])
    {
      assert src[p + (k - p)] == w[k - p];
    }
    RunWhileIs(src, p, p + |w|, IsLetter);
  }

  lemma LettersAreNotSpecial()
    ensures forall c :: IsLetter(c) ==> !Escapable(c) && !IsSymbol(c) && !IsSpelled(c)
    ensures !IsLetter('{') && !IsLetter('}') && !IsLetter('\\')
  {
  }

  /** A command name after a backslash, with no letter behind it. */
  lemma NameReads(src: string, p: nat, w: string)
    requires IsWord(w) && Spans.At(src, p, "\\" + w) && !Sees(src, p + 1 + |w|, IsLetter)
    ensures p + 1 < |src| && src[p] == '\\' && !Escapable(src[p + 1])
    ensures WordEnd(src, p + 1) == p + 1 + |w| && src[p + 1..p + 1 + |w|] == w
    ensures Closes(src, p) <==> w == "end"
  {
    AtConcat(src, p, "\\", w);
    AtHead(src, p, "\\");
    AtHead(src, p + 1, w);
    LettersAreNotSpecial();
    WordReads(src, p + 1, w);
  }

  lemma SpelledWords(c: char)
    requires IsSpelled(c)
    ensures IsWord(CharCommand(c)) && CharCommand(c) != "end" && SpelledChar(CharCommand(c)) == Some(c)
  {
  }

  lemma PlainReads(t: Table, src: string, p: nat, c: char)
    requires Spans.At(src, p, EscapeChar(c)) && !IsSpelled(c)
    ensures p < |src| && !Closes(src, p)
    ensures ReadItem(t, src, p) == Some((Ch(c), p + |EscapeChar(c)|))
  {
    hide ReadBlock, ReadItems, TagNamed;
    AtHead(src, p, EscapeChar(c));
    if IsSymbol(c) {
      assert "\\" + [c] == ['\\', c];
      assert src[p + 1] == EscapeChar(c)[1];
      assert WordEnd(src, p + 1) == p + 1;
    }
  }

  lemma SpelledReads(t: Table, src: string, p: nat, c: char)
    requires Spans.At(src, p, EscapeChar(c)) && IsSpelled(c)
    ensures p < |src| && !Closes(src, p)
    ensures ReadItem(t, src, p) == Some((Ch(c), p + |EscapeChar(c)|))
  {
    hide CharCommand, SpelledChar, TagNamed, ReadBlock, ReadItems, Closes, WordEnd;
    SpelledWords(c);
    var w := CharCommand(c);
    AtConcat(src, p, "\\" + w, "{}");
    AtHead(src, p + 1 + |w|, "{}");
    LettersAreNotSpecial();
    NameReads(src, p, w);
  }

  lemma CharReads(t: Table, src: string, p: nat, c: char)
    requires Spans.At(src, p, EscapeChar(c))
    ensures p < |src|
    ensures ReadItems(t, src, p) == Prepend([Ch(c)], ReadItems(t, src, p + |EscapeChar(c)|))
  {
    hide ReadItem, ReadItems, Closes, Prepend;
    if IsSpelled(c) {
      SpelledReads(t, src, p, c);
    } else {
      PlainReads(t, src, p, c);
    }
    ReadStep(t, src, p);
  }

  /** An escaped string is read back character by character. */
  lemma {:induction false} EscapedReads(t: Table, src: string, p: nat, s: string)
    requires Spans.At(src, p, Escaped(s))
    ensures ReadItems(t, src, p) == Prepend(Chars(s), ReadItems(t, src, p + |Escaped(s)|))
    decreases |s|
  {
    hide ReadItems, Prepend, EscapeChar;
    if s == "" {
      PrependNothing(ReadItems(t, src, p));
      assert Chars(s) == [];
    } else {
      AtConcat(src, p, EscapeChar(s[0]), Escaped(s[1..]));
      CharReads(t, src, p, s[0]);
      EscapedReads(t, src, p + |EscapeChar(s[0])|, s[1..]);
      PrependTwice([Ch(s[0])], Chars(s[1..]), ReadItems(t, src, p + |Escaped(s)|));
      assert [Ch(s[0])] + Chars(s[1..]) == Chars(s);
    }
  }

  /** Inside a group, reading stops at what closes it. */
  lemma InnerReads(t: Table, src: string, p: nat, z: nat, items: seq<Item>)
    requires p <= |src| && z <= |src| && Closes(src, z)
    requires ReadItems(t, src, p) == Prepend(items, ReadItems(t, src, z))
    ensures ReadItems(t, src, p) == Some((items, z))
  {
    hide Closes, ReadItem;
    assert items + [] == items;
  }

  /** What registered commands look like. */
  lemma CommandFacts(t: Table, tag: string)
    requires WellNamed(t) && tag in t && (t[tag].SingleCurly? || t[tag].NoCurly?)
    ensures var c := t[tag].command;
            IsWord(c) && c != "end" && c != "begin" && SpelledChar(c) == None && TagNamed(t, c, false) == Some(tag)
  {
    hide IsWord, TagNamed;
    TagNamedIs(t, tag);
  }

  lemma NoCurlyReads(t: Table, src: string, p: nat, tag: string)
    requires WellNamed(t) && tag in t && t[tag].NoCurly?
    requires Spans.At(src, p, "\\" + t[tag].command + "{}")
    ensures var z := p + |t[tag].command| + 3;
            z <= |src| && ReadItems(t, src, p) == Prepend([Group(tag, [])], ReadItems(t, src, z))
  {
    hide WellNamed, IsWord, SpelledChar, TagNamed, ReadBlock, ReadItems, Closes, WordEnd, Prepend;
    var w := t[tag].command;
    CommandFacts(t, tag);
    AtConcat(src, p, "\\" + w, "{}");
    AtConcat(src, p + 1 + |w|, "{", "}");
    assert "{" + "}" == "{}";
    AtHead(src, p + 1 + |w|, "{");
    AtHead(src, p + 2 + |w|, "}");
    LettersAreNotSpecial();
    NameReads(src, p, w);
    ReadStep(t, src, p);
  }

  lemma SingleReads(t: Table, src: string, p: nat, tag: string, code: string, items: seq<Item>)
    requires WellNamed(t) && tag in t && t[tag].SingleCurly?
    requires Spans.At(src, p, "\\" + t[tag].command + "{" + code + "}")
    requires var a := p + |t[tag].command| + 2;
             a + |code| <= |src| && ReadItems(t, src, a) == Prepend(items, ReadItems(t, src, a + |code|))
    ensures var z := p + |t[tag].command| + |code| + 3;
            z <= |src| && ReadItems(t, src, p) == Prepend([Group(tag, items)], ReadItems(t, src, z))
  {
    hide WellNamed, IsWord, SpelledChar, TagNamed, ReadBlock, ReadItems, Prepend, WordEnd;
    var w := t[tag].command;
    CommandFacts(t, tag);
    AtConcat(src, p, "\\" + w + "{" + code, "}");
    AtConcat(src, p, "\\" + w + "{", code);
    AtConcat(src, p, "\\" + w, "{");
    AtHead(src, p + 1 + |w|, "{");
    var a := p + |w| + 2;
    AtHead(src, a + |code|, "}");
    LettersAreNotSpecial();
    NameReads(src, p, w);
    InnerReads(t, src, a, a + |code|, items);
    ReadStep(t, src, p);
  }

  lemma BeginIsWord()
    ensures IsWord("begin") && IsWord("end") && SpelledChar("begin") == None && SpelledChar("end") == None
  {
  }

  /** `{`, a name, `}`. */
  lemma BracedName(src: string, p: nat, name: string)
    requires IsWord(name) && Spans.At(src, p, "{" + name + "}")
    ensures p + |name| + 2 <= |src| && src[p] == '{' && src[p + 1 + |name|] == '}'
    ensures WordEnd(src, p + 1) == p + 1 + |name| && src[p + 1..p + 1 + |name|] == name
  {
    hide IsWord;
    AtConcat(src, p, "{" + name, "}");
    AtConcat(src, p, "{", name);
    AtHead(src, p, "{");
    AtHead(src, p + 1 + |name|, "}");
    LettersAreNotSpecial();
    WordReads(src, p + 1, name);
  }

  /** `\begin{name}` or `\end{name}`. */
  function Mark(word: string, name: string): (r: string)
    ensures |r| == |word| + |name| + 3
  {
    "\\" + word + ("{" + name + "}")
  }

  lemma MarksAre(name: string)
    ensures "\\begin{" + name + "}" == Mark("begin", name) && "\\end{" + name + "}" == Mark("end", name)
    ensures |"begin"| == 5 && |"end"| == 3
  {
    assert "\\begin{" + name + "}" == "\\begin" + ("{" + name + "}");
    assert "\\end{" + name + "}" == "\\end" + ("{" + name + "}");
    assert "\\" + "begin" == "\\begin" && "\\" + "end" == "\\end";
  }

  /** A mark, split into its parts. */
  lemma MarkParts(src: string, p: nat, word: string, name: string)
    requires IsWord(word) && Spans.At(src, p, Mark(word, name))
    ensures Spans.At(src, p + 1 + |word|, "{" + name + "}")
    ensures p + 1 < |src| && src[p] == '\\' && !Escapable(src[p + 1])
    ensures WordEnd(src, p + 1) == p + 1 + |word| && src[p + 1..p + 1 + |word|] == word
    ensures Closes(src, p) <==> word == "end"
  {
    hide IsWord, WordEnd;
    AtConcat(src, p, "\\" + word, "{" + name + "}");
    AtHead(src, p + 1 + |word|, "{" + name + "}");
    LettersAreNotSpecial();
    NameReads(src, p, word);
  }

  lemma BlockReads(t: Table, src: string, p: nat, tag: string, z: nat, items: seq<Item>)
    requires WellNamed(t) && tag in t && t[tag].Block?
    requires Spans.At(src, p, Mark("begin", t[tag].name)) && Spans.At(src, z, Mark("end", t[tag].name))
    requires z <= |src| && p + |t[tag].name| + 8 <= |src|
    requires ReadItems(t, src, p + |t[tag].name| + 8) == Prepend(items, ReadItems(t, src, z))
    ensures z + |t[tag].name| + 6 <= |src|
    ensures ReadItems(t, src, p) == Prepend([Group(tag, items)], ReadItems(t, src, z + |t[tag].name| + 6))
  {
    hide IsWord, SpelledChar, TagNamed, ReadItems, ReadItem, Prepend, WordEnd, Closes, ReadBlock, WellNamed, Mark;
    var name := t[tag].name;
    BeginIsWord();
    MarksAre(name);
    MarkParts(src, p, "begin", name);
    MarkParts(src, z, "end", name);
    BlockBody(t, src, p + 6, tag, z, items);
    BeginReads(t, src, p);
    ReadStep(t, src, p);
  }

  lemma BeginReads(t: Table, src: string, p: nat)
    requires p + 6 <= |src| && src[p] == '\\' && !Escapable(src[p + 1])
    requires WordEnd(src, p + 1) == p + 6 && src[p + 1..p + 6] == "begin"
    ensures ReadItem(t, src, p) == ReadBlock(t, src, p + 6)
  {
    hide TagNamed, ReadItems, WordEnd, ReadBlock, SpelledChar;
    BeginIsWord();
  }

  lemma BlockBody(t: Table, src: string, p: nat, tag: string, z: nat, items: seq<Item>)
    requires WellNamed(t) && tag in t && t[tag].Block?
    requires Spans.At(src, p, "{" + t[tag].name + "}") && Spans.At(src, z, Mark("end", t[tag].name))
    requires p + |t[tag].name| + 2 <= |src| && z <= |src| && Closes(src, z)
    requires ReadItems(t, src, p + |t[tag].name| + 2) == Prepend(items, ReadItems(t, src, z))
    ensures ReadBlock(t, src, p) == Some((Group(tag, items), z + |t[tag].name| + 6))
  {
    hide TagNamed, ReadItems, Prepend, WordEnd, Closes, WellNamed, Mark, IsWord;
    var name := t[tag].name;
    TagNamedIs(t, tag);
    BlockNameIsWord(t, tag);
    BracedName(src, p, name);
    InnerReads(t, src, p + |name| + 2, z, items);
    MarksAre(name);
  }

  lemma BlockNameIsWord(t: Table, tag: string)
    requires WellNamed(t) && tag in t && t[tag].Block?
    ensures IsWord(t[tag].name)
  {
    hide IsWord;
    assert CommandOf(t[tag]) == t[tag].name;
  }

  /** The output of a tree is read back as its content, wherever it stands. */
  lemma {:induction false} OutputReads(t: Table, o: Obj, src: string, p: nat)
    requires WellNamed(t) && Output(t, o).Success? && Spans.At(src, p, Output(t, o).value)
    ensures ReadItems(t, src, p) == Prepend(Content(t, o), ReadItems(t, src, p + |Output(t, o).value|))
    decreases o, 1
  {
    hide WellNamed, ReadItems, Prepend, Escaped;
    if o.Str? {
      EscapedReads(t, src, p, o.s);
    } else {
      match t[o.tag]
      case NoCurly(_) => NoCurlyReads(t, src, p, o.tag);
      case SingleCurly(_) => SingleOutputReads(t, o, src, p);
      case Block(_) => BlockOutputReads(t, o, src, p);
      case Blank => BlankOutputReads(t, o, src, p);
    }
  }

  lemma {:induction false} SingleOutputReads(t: Table, o: Obj, src: string, p: nat)
    requires WellNamed(t) && Output(t, o).Success? && Spans.At(src, p, Output(t, o).value)
    requires o.Node? && o.tag in t && t[o.tag].SingleCurly?
    ensures ReadItems(t, src, p) == Prepend(Content(t, o), ReadItems(t, src, p + |Output(t, o).value|))
    decreases o, 0
  {
    hide WellNamed, ReadItems, Prepend;
    var command, code := t[o.tag].command, OutputAll(t, o.elems).value;
    AtConcat(src, p, "\\" + command + "{" + code, "}");
    AtConcat(src, p, "\\" + command + "{", code);
    OutputAllReads(t, o.elems, src, p + |command| + 2);
    SingleReads(t, src, p, o.tag, code, ContentAll(t, o.elems));
  }

  lemma BlockOutput(t: Table, o: Obj)
    requires Output(t, o).Success? && o.Node? && o.tag in t && t[o.tag].Block?
    ensures OutputAll(t, o.elems).Success?
    ensures Output(t, o).value ==
            Mark("begin", t[o.tag].name) + (OutputAll(t, o.elems).value + Mark("end", t[o.tag].name))
  {
    hide Mark, OutputAll;
    MarksAre(t[o.tag].name);
    var open, code, close := Mark("begin", t[o.tag].name), OutputAll(t, o.elems).value, Mark("end", t[o.tag].name);
    assert open + code + close == open + (code + close);
  }

  lemma {:induction false} BlockOutputReads(t: Table, o: Obj, src: string, p: nat)
    requires WellNamed(t) && Output(t, o).Success? && Spans.At(src, p, Output(t, o).value)
    requires o.Node? && o.tag in t && t[o.tag].Block?
    ensures ReadItems(t, src, p) == Prepend(Content(t, o), ReadItems(t, src, p + |Output(t, o).value|))
    decreases o, 0
  {
    hide WellNamed, ReadItems, Prepend, Mark, Output;
    BlockOutput(t, o);
    var name, code := t[o.tag].name, OutputAll(t, o.elems).value;
    var open, close := Mark("begin", name), Mark("end", name);
    AtConcat(src, p, open, code + close);
    AtConcat(src, p + |open|, code, close);
    OutputAllReads(t, o.elems, src, p + |name| + 8);
    BlockReads(t, src, p, o.tag, p + |name| + 8 + |code|, ContentAll(t, o.elems));
  }

  lemma {:induction false} BlankOutputReads(t: Table, o: Obj, src: string, p: nat)
    requires WellNamed(t) && Output(t, o).Success? && Spans.At(src, p, Output(t, o).value)
    requires o.Node? && o.tag in t && t[o.tag].Blank?
    ensures ReadItems(t, src, p) == Prepend(Content(t, o), ReadItems(t, src, p + |Output(t, o).value|))
    decreases o, 0
  {
    hide WellNamed, ReadItems, Prepend;
    var code := OutputAll(t, o.elems).value;
    assert Output(t, o).value == "\n\n" + (code + "\n\n");
    AtConcat(src, p, "\n\n", code + "\n\n");
    AtConcat(src, p + 2, code, "\n\n");
    OutputAllReads(t, o.elems, src, p + 2);
    BlankReads(t, src, p, code, ContentAll(t, o.elems));
  }

  lemma BlankReads(t: Table, src: string, p: nat, code: string, items: seq<Item>)
    requires Spans.At(src, p, "\n\n") && Spans.At(src, p + 2 + |code|, "\n\n")
    requires ReadItems(t, src, p + 2) == Prepend(items, ReadItems(t, src, p + 2 + |code|))
    ensures ReadItems(t, src, p) ==
            Prepend(Chars("\n\n") + items + Chars("\n\n"), ReadItems(t, src, p + 4 + |code|))
  {
    hide ReadItems, Prepend;
    BlankLine();
    EscapedReads(t, src, p, "\n\n");
    EscapedReads(t, src, p + 2 + |code|, "\n\n");
    var r := ReadItems(t, src, p + 4 + |code|);
    PrependTwice(items, Chars("\n\n"), r);
    PrependTwice(Chars("\n\n"), items + Chars("\n\n"), r);
    assert Chars("\n\n") + (items + Chars("\n\n")) == Chars("\n\n") + items + Chars("\n\n");
  }

  lemma BlankLine()
    ensures Escaped("\n\n") == "\n\n"
  {
    assert "\n\n"[1..] == "\n" && "\n"[1..] == "";
    assert EscapeChar('\n') == "\n";
    assert Escaped("\n") == "\n" + Escaped("");
  }

  lemma {:induction false} OutputAllReads(t: Table, es: seq<Obj>, src: string, p: nat)
    requires WellNamed(t) && OutputAll(t, es).Success? && Spans.At(src, p, OutputAll(t, es).value)
    ensures ReadItems(t, src, p) == Prepend(ContentAll(t, es), ReadItems(t, src, p + |OutputAll(t, es).value|))
    decreases es
  {
    hide WellNamed, ReadItems, Prepend, Content, Output;
    if es == [] {
      PrependNothing(ReadItems(t, src, p));
    } else {
      var first, rest := Output(t, es[0]).value, OutputAll(t, es[1..]).value;
      AtConcat(src, p, first, rest);
      OutputReads(t, es[0], src, p);
      OutputAllReads(t, es[1..], src, p + |first|);
      PrependTwice(Content(t, es[0]), ContentAll(t, es[1..]), ReadItems(t, src, p + |first| + |rest|));
    }
  }

  /** Reading a whole output gives the content of what was printed. */
  lemma OutputIsReadable(t: Table, es: seq<Obj>)
    requires WellNamed(t) && OutputAll(t, es).Success?
    ensures var out := OutputAll(t, es).value; ReadItems(t, out, 0) == Some((ContentAll(t, es), |out|))
  {
    hide WellNamed, ReadItem;
    var out := OutputAll(t, es).value;
    OutputAllReads(t, es, out, 0);
    assert ReadItems(t, out, |out|) == Some(([], |out|));
    assert ContentAll(t, es) + [] == ContentAll(t, es);
  }

  /** Two lists with the same output have the same content. */
  lemma OutputDetermines(t: Table, a: seq<Obj>, b: seq<Obj>)
    requires WellNamed(t) && OutputAll(t, a).Success? && OutputAll(t, a) == OutputAll(t, b)
    ensures ContentAll(t, a) == ContentAll(t, b)
  {
    hide WellNamed, ReadItems;
    OutputIsReadable(t, a);
    OutputIsReadable(t, b);
  }

  lemma OneString(t: Table, s: string)
    ensures OutputAll(t, [Str(s)]) == Success(Escaped(s)) && ContentAll(t, [Str(s)]) == Chars(s)
  {
    hide Escaped;
    assert [Str(s)][1..] == [];
    assert OutputAll(t, []) == Success("") && ContentAll(t, []) == [];
    assert Escaped(s) + "" == Escaped(s) && Chars(s) + [] == Chars(s);
  }

  lemma SameChars(a: string, b: string)
    requires Chars(a) == Chars(b)
    ensures a == b
  {
    assert |Chars(a)| == |a| && |Chars(b)| == |b|;
    forall k | 0 <= k < |a|
      ensures a[k] == b[k]
    {
      assert Chars(a)[k] == Ch(a[k]) && Chars(b)[k] == Ch(b[k]);
    }
  }

  /** Escaping loses nothing: it is injective. */
  lemma EscapingIsInjective(a: string, b: string)
    requires Escaped(a) == Escaped(b)
    ensures a == b
  {
    hide Escaped, OutputAll, ContentAll;
    StandardTableIsWellNamed();
    OneString(LATEX_TABLE, a);
    OneString(LATEX_TABLE, b);
    OutputDetermines(LATEX_TABLE, [Str(a)], [Str(b)]);
    SameChars(a, b);
  }
}
