/** LaTeX output: escaping strings and printing trees. */
module Latex {
  import opened Ltrf

  /** The characters that a backslash is put in front of. */
  predicate IsSymbol(c: char) { c in "&%$#_{}" }

  /** The characters that are printed as a command. */
  predicate IsSpelled(c: char) { c == '~' || c == '^' || c == '\\' }

  function CharCommand(c: char): string
    requires IsSpelled(c)
  {
    if c == '~' then "textasciitilde" else if c == '^' then "textasciicircum" else "textbackslash"
  }

  /** What one character is printed as. */
  function EscapeChar(c: char): string {
    if IsSymbol(c) then "\\" + [c]
    else if IsSpelled(c) then "\\" + CharCommand(c) + "{}"
    else [c]
  }

  function Escaped(s: string): string {
    if s == "" then "" else EscapeChar(s[0]) + Escaped(s[1..])
  }

  /** The loop over the characters, appending to the output. */
  method EscapeString(s: string) returns (out: string)
    ensures out == Escaped(s)
  {
    hide IsSymbol, IsSpelled, CharCommand;
    out := "";
    for i := 0 to |s|
      invariant out + Escaped(s[i..]) == Escaped(s)
    {
      EscapedStep(s, i, out);
      var c := s[i];
      if IsSymbol(c) {
        out := out + ("\\" + [c]);
      } else if IsSpelled(c) {
        out := out + ("\\" + CharCommand(c) + "{}");
      } else {
        out := out + [c];
      }
    }
    assert Escaped(s[|s|..]) == "";
  }

  lemma EscapedStep(s: string, i: nat, out: string)
    requires i < |s|
    ensures out + Escaped(s[i..]) == (out + EscapeChar(s[i])) + Escaped(s[i + 1..])
  {
    hide EscapeChar;
    assert s[i..][1..] == s[i + 1..];
  }

  /** The characters that LaTeX does not print as they stand. */
  predicate IsSpecial(c: char) {
    || c == '&' || c == '%' || c == '$' || c == '#' || c == '_' || c == '{' || c == '}'
    || c == '~' || c == '^' || c == '\\'
  }

  /** A string without any of them is printed as it is. */
  lemma {:induction false} PlainStaysPlain(s: string)
    requires forall k :: 0 <= k < |s| ==> !IsSpecial(s[k])
    ensures Escaped(s) == s
  {
    if s != "" {
      assert EscapeChar(s[0]) == [s[0]];
      PlainStaysPlain(s[1..]);
    }
  }

  /** How nodes with a given tag are printed. */
  datatype Outputter =
    | SingleCurly(command: string)
    | NoCurly(command: string)
    | Block(name: string)
    | Blank

  type Table = map<string, Outputter>

  /** The tags the standard modules register for LaTeX, other than the root. */
  const LATEX_TABLE: Table := map[
    "maketitle" := NoCurly("maketitle"),
    "sec" := SingleCurly("section"),
    "subsec" := SingleCurly("subsection"),
    "subsubsec" := SingleCurly("subsubsection"),
    "bold" := SingleCurly("textbf"),
    "italic" := SingleCurly("textit"),
    "bquot" := Block("lapoldefaultblockquote"),
    "marginnote" := SingleCurly("lapoldefaultaside"),
    DOC_TAG := Blank,
    PARAGRAPH_TAG := Blank
  ]

  /** An error when some tag has no outputter; it is not asked for below a node
      that prints without its children. */
  function Output(t: Table, o: Obj): Result<string>
    decreases o, 1
  {
    if o.Str? then Success(Escaped(o.s))
    else if o.tag !in t then Failure("No LtrfNode outputter found.")
    else
      match t[o.tag]
      case NoCurly(command) => Success("\\" + command + "{}")
      case SingleCurly(command) =>
        var code := OutputAll(t, o.elems);
        if code.Failure? then code else Success("\\" + command + "{" + code.value + "}")
      case Block(name) =>
        var code := OutputAll(t, o.elems);
        if code.Failure? then code
        else Success("\\begin{" + name + "}" + code.value + "\\end{" + name + "}")
      case Blank =>
        var code := OutputAll(t, o.elems);
        if code.Failure? then code else Success("\n\n" + code.value + "\n\n")
  }

  /** The outputs of a list, one after the other. */
  function OutputAll(t: Table, es: seq<Obj>): Result<string>
    decreases es
  {
    if es == [] then Success("")
    else
      var first := Output(t, es[0]);
      if first.Failure? then first
      else
        var rest := OutputAll(t, es[1..]);
        if rest.Failure? then rest else Success(first.value + rest.value)
  }

  predicate IsLetter(c: char) { 'a' <= c <= 'z' || 'A' <= c <= 'Z' }

  predicate IsWord(s: string) {
    s != "" && forall k :: 0 <= k < |s| ==> IsLetter(s[k])
  }

  /** The commands that escaping and blocks are written with. */
  predicate IsReservedCommand(s: string) {
    s in {"begin", "end", "textasciitilde", "textasciicircum", "textbackslash"}
  }

  function CommandOf(u: Outputter): string {
    match u
    case SingleCurly(command) => command
    case NoCurly(command) => command
    case Block(name) => name
    case Blank => ""
  }

  /** Names are words, commands are not reserved, and no two tags print alike. */
  predicate WellNamed(t: Table) {
    && (forall tag :: tag in t && !t[tag].Blank? ==> IsWord(CommandOf(t[tag])))
    && (forall tag :: tag in t && (t[tag].SingleCurly? || t[tag].NoCurly?) ==> !IsReservedCommand(t[tag].command))
    && (forall a, b :: a in t && b in t && a != b && !t[a].Blank? && t[a].Block? == t[b].Block? ==>
          CommandOf(t[a]) != CommandOf(t[b]))
  }

  /** The tag that is printed with a given name. */
  function StandardTag(name: string): string {
    if name == "maketitle" then "maketitle"
    else if name == "section" then "sec"
    else if name == "subsection" then "subsec"
    else if name == "subsubsection" then "subsubsec"
    else if name == "textbf" then "bold"
    else if name == "textit" then "italic"
    else if name == "lapoldefaultblockquote" then "bquot"
    else "marginnote"
  }

  lemma NamesAreWords()
    ensures IsWord("maketitle") && IsWord("section") && IsWord("subsection") && IsWord("subsubsection")
    ensures IsWord("textbf") && IsWord("textit") && IsWord("lapoldefaultblockquote") && IsWord("lapoldefaultaside")
  {
  }

  lemma NamesAreFree()
    ensures !IsReservedCommand("maketitle") && !IsReservedCommand("section") && !IsReservedCommand("subsection")
    ensures !IsReservedCommand("subsubsection") && !IsReservedCommand("textbf") && !IsReservedCommand("textit")
    ensures !IsReservedCommand("lapoldefaultaside")
  {
  }

  lemma StandardEntry(tag: string)
    requires tag in LATEX_TABLE && !LATEX_TABLE[tag].Blank?
    ensures var u := LATEX_TABLE[tag];
            IsWord(CommandOf(u)) && (!u.Block? ==> !IsReservedCommand(CommandOf(u))) && StandardTag(CommandOf(u)) == tag
  {
    hide IsWord, IsReservedCommand;
    NamesAreWords();
    NamesAreFree();
  }

  /** Everything that is proved of well-named tables is true of the standard one. */
  lemma StandardTableIsWellNamed()
    ensures WellNamed(LATEX_TABLE)
  {
    hide IsWord, IsReservedCommand, StandardTag;
    var t := LATEX_TABLE;
    forall tag | tag in t && !t[tag].Blank?
      ensures IsWord(CommandOf(t[tag])) && (!t[tag].Block? ==> !IsReservedCommand(CommandOf(t[tag])))
      ensures StandardTag(CommandOf(t[tag])) == tag
    {
      StandardEntry(tag);
    }
  }
}
