/** The ways to spell a string literal, and that reading undoes exactly those. */
module StringSpelling {
  import opened Spans
  import opened StringLiterals
  import opened Lexicon

  /** One piece of a literal as its author writes it. */
  datatype Piece =
    | Raw(c: char)
    | Named(letter: char)
    | Hex(digits: string)
    | CrLf
    | Gap(spaces: string)

  function Source(x: Piece): string {
    match x
    case Raw(c) => [c]
    case Named(letter) => ['\\', letter]
    case Hex(digits) => "\\u{" + digits + "}"
    case CrLf => "\r\n"
    case Gap(spaces) => "\\" + spaces
  }

  /** What the letter after a backslash stands for. */
  const NAMED: map<char, char> := map[
    'n' := '\n', 'r' := '\r', 't' := '\t', 'b' := 0x08 as char, 'f' := 0x0C as char,
    '\\' := '\\', '/' := '/', '"' := '"'
  ]

  const DIGITS: map<char, nat> := map[
    '0' := 0, '1' := 1, '2' := 2, '3' := 3, '4' := 4, '5' := 5, '6' := 6, '7' := 7, '8' := 8, '9' := 9,
    'a' := 10, 'b' := 11, 'c' := 12, 'd' := 13, 'e' := 14, 'f' := 15,
    'A' := 10, 'B' := 11, 'C' := 12, 'D' := 13, 'E' := 14, 'F' := 15
  ]

  /** The number that hexadecimal digits spell, read from the left after `high`. */
  function Number(digits: string, high: nat): nat
    requires forall k :: 0 <= k < |digits| ==> digits[k] in DIGITS
  {
    if digits == "" then high else Number(digits[1..], 0x10 * high + DIGITS[digits[0]])
  }

  /** The number of a Unicode character: no surrogate, and not past the last plane. */
  predicate IsCharacter(n: nat) { n <= 0x10FFFF && !(0xD800 <= n <= 0xDFFF) }

  /** The pieces that may be written. */
  predicate Legal(x: Piece) {
    match x
    case Raw(c) => c != '"' && c != '\\' && c != '\r'
    case Named(letter) => letter in NAMED
    case Hex(digits) =>
      1 <= |digits| <= 6 && (forall k :: 0 <= k < |digits| ==> digits[k] in DIGITS) && IsCharacter(Number(digits, 0))
    case CrLf => true
    case Gap(spaces) => spaces != "" && forall k :: 0 <= k < |spaces| ==> Blank(spaces[k])
  }

  /** What a piece stands for: one character, or for a gap nothing. */
  function Meaning(x: Piece): string
    requires Legal(x)
  {
    match x
    case Raw(c) => [c]
    case Named(letter) => [NAMED[letter]]
    case Hex(digits) => [Number(digits, 0) as char]
    case CrLf => "\n"
    case Gap(_) => ""
  }

  lemma NamedExactly(letter: char)
    ensures NamedEscape(letter) == if letter in NAMED then Some(NAMED[letter]) else None
  {
  }

  lemma DigitExactly(c: char)
    ensures IsHexDigit(c) <==> c in DIGITS
    ensures IsHexDigit(c) ==> HexDigit(c) == DIGITS[c]
  {
  }

  lemma DigitsExactly(digits: string)
    ensures (forall k :: 0 <= k < |digits| ==> IsHexDigit(digits[k])) <==>
            (forall k :: 0 <= k < |digits| ==> digits[k] in DIGITS)
  {
    hide IsHexDigit, DIGITS;
    forall k | 0 <= k < |digits|
      ensures IsHexDigit(digits[k]) <==> digits[k] in DIGITS
    {
      DigitExactly(digits[k]);
    }
  }

  lemma {:induction false} NumberOfLast(digits: string, high: nat)
    requires digits != "" && forall k :: 0 <= k < |digits| ==> digits[k] in DIGITS
    ensures Number(digits, high) == 0x10 * Number(digits[..|digits| - 1], high) + DIGITS[digits[|digits| - 1]]
    decreases |digits|
  {
    hide DIGITS;
    if |digits| > 1 {
      assert digits[..|digits| - 1][1..] == digits[1..][..|digits| - 2];
      NumberOfLast(digits[1..], 0x10 * high + DIGITS[digits[0]]);
    }
  }

  /** Reading digits from the right and from the left gives the same number. */
  lemma {:induction false} NumberExactly(digits: string)
    requires forall k :: 0 <= k < |digits| ==> digits[k] in DIGITS && IsHexDigit(digits[k])
    ensures HexValue(digits) == Number(digits, 0)
    decreases |digits|
  {
    hide DIGITS, IsHexDigit, HexDigit;
    if digits != "" {
      NumberExactly(digits[..|digits| - 1]);
      NumberOfLast(digits, 0);
      DigitExactly(digits[|digits| - 1]);
    }
  }

  /** What the parser asks of the digits of a code point. */
  predicate HexRead(digits: string) {
    && 1 <= |digits| <= 6
    && (forall k :: 0 <= k < |digits| ==> IsHexDigit(digits[k]))
    && IsScalar(HexValue(digits))
  }

  /** It is what makes it one. */
  lemma HexExactly(digits: string)
    ensures Legal(Hex(digits)) <==> HexRead(digits)
    ensures HexRead(digits) ==> Meaning(Hex(digits)) == [HexValue(digits) as char]
  {
    hide DIGITS, IsHexDigit, HexValue, Number;
    DigitsExactly(digits);
    if forall k :: 0 <= k < |digits| ==> IsHexDigit(digits[k]) {
      NumberExactly(digits);
    }
  }

  predicate StartsWithSpace(x: Piece) {
    x.CrLf? || (x.Raw? && Blank(x.c))
  }

  /** All pieces are legal, and no raw whitespace follows a gap: it would be part of it. */
  predicate LegalAll(xs: seq<Piece>) {
    && (forall k :: 0 <= k < |xs| ==> Legal(xs[k]))
    && forall k :: 0 <= k < |xs| - 1 ==> !(xs[k].Gap? && StartsWithSpace(xs[k + 1]))
  }

  function SourceAll(xs: seq<Piece>): string {
    if xs == [] then "" else Source(xs[0]) + SourceAll(xs[1..])
  }

  function MeaningAll(xs: seq<Piece>): string
    requires forall k :: 0 <= k < |xs| ==> Legal(xs[k])
  {
    if xs == [] then "" else Meaning(xs[0]) + MeaningAll(xs[1..])
  }

  /** Literal characters can be read one at a time. */
  lemma RawStep(src: string, p: nat, acc: string)
    requires Sees(src, p, IsLiteralChar)
    ensures BuildString(src, p, acc) == BuildString(src, p + 1, acc + [src[p]])
  {
    var q := RunWhile(src, p, IsLiteralChar);
    assert q == RunWhile(src, p + 1, IsLiteralChar);
    if q < |src| {
      assert src[p..q] == [src[p]] + src[p + 1..q];
      if p + 1 < q {
        assert acc + src[p..q] == acc + [src[p]] + src[p + 1..q];
      } else {
        assert src[p..q] == [src[p]];
      }
    }
  }

  /** A fragment that is not a run of literal characters. */
  lemma FragmentStep(src: string, p: nat, acc: string, z: nat, f: Fragment)
    requires p < |src| && ParseFragment(src, p) == SOk(z, f)
    ensures BuildString(src, p, acc) == BuildString(src, z, acc + FragmentText(f))
  {
    hide ParseFragment;
  }

  lemma NoLiteralHere(src: string, p: nat)
    requires p < |src| && !IsLiteralChar(src[p])
    ensures ParseLiteral(src, p).SErr?
  {
  }

  lemma NamedReads(src: string, p: nat, letter: char)
    requires At(src, p, ['\\', letter]) && NamedEscape(letter).Some?
    ensures ParseFragment(src, p) == SOk(p + 2, EscapedChar(NamedEscape(letter).value))
  {
    assert ['\\', letter][0] == '\\' && ['\\', letter][1] == letter;
    assert src[p + 0] == '\\' && src[p + 1] == letter;
    NoLiteralHere(src, p);
  }

  lemma {:induction false} RunAtMostIs(src: string, p: nat, q: nat, f: char -> bool, limit: nat)
    requires p <= q <= |src| && q - p <= limit
    requires forall k :: p <= k < q ==> f(src[k])
    requires !Sees(src, q, f)
    ensures RunAtMost(src, p, f, limit) == q
    decreases q - p
  {
    if p < q {
      RunAtMostIs(src, p + 1, q, f, limit - 1);
    }
  }

  lemma HexReads(src: string, p: nat, digits: string)
    requires At(src, p, "\\u{" + digits + "}") && HexRead(digits)
    ensures ParseFragment(src, p) == SOk(p + |digits| + 4, EscapedChar(HexValue(digits) as char))
  {
    hide HexValue, ParseFragment, At;
    HexParts(src, p, digits);
    HexBody(src, p, digits);
  }

  lemma HexBody(src: string, p: nat, digits: string)
    requires HexRead(digits) && p + 3 + |digits| < |src|
    requires src[p] == '\\' && src[p + 1] == 'u' && src[p + 2] == '{' && src[p + 3 + |digits|] == '}'
    requires src[p + 3..p + 3 + |digits|] == digits
    requires forall k :: p + 3 <= k < p + 3 + |digits| ==> IsHexDigit(src[k])
    ensures ParseFragment(src, p) == SOk(p + |digits| + 4, EscapedChar(HexValue(digits) as char))
  {
    hide HexValue, BracedHex, RunAtMost, ParseUnicode, ParseFragment;
    RunAtMostIs(src, p + 3, p + 3 + |digits|, IsHexDigit, 6);
    BracesRead(src, p + 2, digits);
    UnicodeReads(src, p + 1, digits);
    EscapedFragment(src, p);
  }

  lemma UnicodeReads(src: string, p: nat, digits: string)
    requires p + 1 <= |src| && CharAt(src, p, 'u') && HexRead(digits)
    requires BracedHex(src, p + 1) == SOk(p + |digits| + 3, digits)
    ensures ParseUnicode(src, p) == SOk(p + |digits| + 3, HexValue(digits) as char)
  {
    hide HexValue, BracedHex;
  }

  lemma EscapedFragment(src: string, p: nat)
    requires p < |src| && !IsLiteralChar(src[p]) && ParseEscapedChar(src, p).SOk?
    ensures var r := ParseEscapedChar(src, p); ParseFragment(src, p) == SOk(r.rest, EscapedChar(r.value))
  {
    hide ParseEscapedChar, ParseLiteral;
    NoLiteralHere(src, p);
  }

  lemma HexParts(src: string, p: nat, digits: string)
    requires At(src, p, "\\u{" + digits + "}") && HexRead(digits)
    ensures var q := p + 3 + |digits|;
            && q < |src| && src[p] == '\\' && src[p + 1] == 'u' && src[p + 2] == '{' && src[q] == '}'
            && src[p + 3..q] == digits
            && forall k :: p + 3 <= k < q ==> IsHexDigit(src[k])
  {
    hide HexValue;
    AtConcat(src, p, "\\u{" + digits, "}");
    AtConcat(src, p, "\\u{", digits);
    assert src[p + 0] == "\\u{"[0] && src[p + 1] == "\\u{"[1] && src[p + 2] == "\\u{"[2];
    var a := p + 3;
    AtHead(src, a + |digits|, "}");
    AtSlice(src, a, digits);
    forall k | a <= k < a + |digits|
      ensures IsHexDigit(src[k])
    {
      assert src[a + (k - a)] == digits[k - a];
    }
  }

  lemma BracesRead(src: string, p: nat, digits: string)
    requires p + |digits| + 2 <= |src| && src[p] == '{' && src[p + 1 + |digits|] == '}'
    requires src[p + 1..p + 1 + |digits|] == digits && 1 <= |digits| <= 6
    requires RunAtMost(src, p + 1, IsHexDigit, 6) == p + 1 + |digits|
    ensures BracedHex(src, p) == SOk(p + |digits| + 2, digits)
  {
    hide RunAtMost;
  }

  lemma CrLfReads(src: string, p: nat)
    requires AtCrLf(src, p)
    ensures ParseFragment(src, p) == SOk(p + 2, Literal("\n"))
  {
    NoLiteralHere(src, p);
  }

  lemma GapReads(src: string, p: nat, spaces: string)
    requires At(src, p, "\\" + spaces) && Legal(Gap(spaces))
    requires p + 1 + |spaces| < |src| && !IsMultispace(src[p + 1 + |spaces|])
    ensures ParseFragment(src, p) == SOk(p + 1 + |spaces|, EscapedWhitespace)
  {
    AtConcat(src, p, "\\", spaces);
    AtHead(src, p, "\\");
    AtHead(src, p + 1, spaces);
    forall k | p + 1 <= k < p + 1 + |spaces|
      ensures IsMultispace(src[k])
    {
      assert src[p + 1 + (k - p - 1)] == spaces[k - p - 1];
    }
    RunWhileIs(src, p + 1, p + 1 + |spaces|, IsMultispace);
    NoLiteralHere(src, p);
  }

  lemma QuoteEnds(src: string, p: nat, acc: string)
    requires CharAt(src, p, '"')
    ensures BuildString(src, p, acc) == SOk(p, acc)
  {
    NoLiteralHere(src, p);
  }

  /** One legal piece, with something after it that does not extend it. */
  lemma PieceReads(src: string, p: nat, x: Piece, acc: string)
    requires Legal(x) && At(src, p, Source(x)) && p + |Source(x)| < |src|
    requires x.Gap? ==> !IsMultispace(src[p + |Source(x)|])
    ensures BuildString(src, p, acc) == BuildString(src, p + |Source(x)|, acc + Meaning(x))
  {
    hide BuildString, ParseFragment, HexValue, DIGITS, NAMED, Number;
    match x
    case Raw(c) =>
      AtHead(src, p, [c]);
      RawStep(src, p, acc);
    case Named(letter) =>
      NamedExactly(letter);
      NamedReads(src, p, letter);
      FragmentStep(src, p, acc, p + 2, EscapedChar(NamedEscape(letter).value));
    case Hex(digits) =>
      HexExactly(digits);
      HexReads(src, p, digits);
      FragmentStep(src, p, acc, p + |digits| + 4, EscapedChar(HexValue(digits) as char));
    case CrLf =>
      assert src[p + 0] == "\r\n"[0] && src[p + 1] == "\r\n"[1];
      CrLfReads(src, p);
      FragmentStep(src, p, acc, p + 2, Literal("\n"));
    case Gap(spaces) =>
      GapReads(src, p, spaces);
      FragmentStep(src, p, acc, p + 1 + |spaces|, EscapedWhitespace);
  }

  /** What a piece that is no raw whitespace starts with. */
  lemma SourceHead(x: Piece)
    requires Legal(x)
    ensures Source(x) != "" && (!StartsWithSpace(x) ==> !IsMultispace(Source(x)[0]))
  {
  }

  lemma {:induction false} PiecesRead(src: string, p: nat, xs: seq<Piece>, acc: string)
    requires LegalAll(xs) && At(src, p, SourceAll(xs) + "\"")
    ensures BuildString(src, p, acc) == SOk(p + |SourceAll(xs)|, acc + MeaningAll(xs))
    decreases xs
  {
    hide BuildString, Source, Meaning, Legal, StartsWithSpace;
    AtHead(src, p, SourceAll(xs) + "\"");
    if xs == [] {
      QuoteEnds(src, p, acc);
      assert acc + "" == acc;
    } else {
      var rest := SourceAll(xs[1..]) + "\"";
      assert SourceAll(xs) + "\"" == Source(xs[0]) + rest;
      AtConcat(src, p, Source(xs[0]), rest);
      var q := p + |Source(xs[0])|;
      AtHead(src, q, rest);
      NextHead(xs);
      PieceReads(src, p, xs[0], acc);
      PiecesRead(src, q, xs[1..], acc + Meaning(xs[0]));
      assert acc + Meaning(xs[0]) + MeaningAll(xs[1..]) == acc + MeaningAll(xs);
    }
  }

  lemma NextHead(xs: seq<Piece>)
    requires LegalAll(xs) && xs != []
    ensures xs[0].Gap? ==> !IsMultispace((SourceAll(xs[1..]) + "\"")[0])
  {
    hide Source, Legal, StartsWithSpace;
    if |xs| > 1 {
      SourceHead(xs[1]);
      assert xs[0].Gap? ==> !StartsWithSpace(xs[0 + 1]);
      assert (SourceAll(xs[1..]) + "\"")[0] == Source(xs[1])[0];
    }
  }

  /** Reading undoes every legal spelling. */
  lemma SpelledThenRead(src: string, p: nat, xs: seq<Piece>)
    requires LegalAll(xs) && At(src, p, "\"" + (SourceAll(xs) + "\""))
    ensures p <= |src| && ParseString(src, p) == SOk(p + |SourceAll(xs)| + 2, MeaningAll(xs))
  {
    hide BuildString, SourceAll, MeaningAll;
    AtConcat(src, p, "\"", SourceAll(xs) + "\"");
    AtHead(src, p, "\"");
    AtConcat(src, p + 1, SourceAll(xs), "\"");
    AtHead(src, p + 1 + |SourceAll(xs)|, "\"");
    PiecesRead(src, p + 1, xs, "");
    assert "" + MeaningAll(xs) == MeaningAll(xs);
  }

  /** The piece that a fragment other than literal text was written as. */
  lemma FragmentIsPiece(src: string, p: nat) returns (x: Piece)
    requires p < |src| && !IsLiteralChar(src[p]) && ParseFragment(src, p).SOk?
    ensures Legal(x) && ParseFragment(src, p).rest == p + |Source(x)| && At(src, p, Source(x))
    ensures Meaning(x) == FragmentText(ParseFragment(src, p).value) && Source(x) != ""
    ensures x.Gap? ==> !Sees(src, p + |Source(x)|, IsMultispace)
  {
    hide ParseEscapedChar, ParseEscapedWhitespace, ParseLiteral, Legal, Source, Meaning;
    NoLiteralHere(src, p);
    if ParseEscapedChar(src, p).SOk? {
      x := EscapedPiece(src, p);
    } else if ParseEscapedWhitespace(src, p).SOk? {
      x := GapPiece(src, p);
    } else {
      x := CrLf;
      CrLfIs(src, p);
    }
  }

  lemma CrLfIs(src: string, p: nat)
    requires AtCrLf(src, p)
    ensures Legal(CrLf) && Source(CrLf) == "\r\n" && At(src, p, Source(CrLf)) && Meaning(CrLf) == "\n"
  {
    assert "\r\n"[0] == src[p] && "\r\n"[1] == src[p + 1];
  }

  lemma EscapedPiece(src: string, p: nat) returns (x: Piece)
    requires p < |src| && ParseEscapedChar(src, p).SOk?
    ensures Legal(x) && !x.Gap? && Source(x) != "" && At(src, p, Source(x))
    ensures ParseEscapedChar(src, p).rest == p + |Source(x)| && Meaning(x) == [ParseEscapedChar(src, p).value]
  {
    hide HexValue, BracedHex, HexRead, NAMED, NamedEscape, ParseUnicode, DIGITS, Number;
    EscapeFollows(src, p);
    if ParseUnicode(src, p + 1).SOk? {
      x := HexPiece(src, p);
      HexExactly(x.digits);
    } else {
      x := Named(src[p + 1]);
      NamedExactly(src[p + 1]);
      assert Source(x)[0] == src[p] && Source(x)[1] == src[p + 1];
    }
  }

  lemma EscapeFollows(src: string, p: nat)
    requires p < |src| && ParseEscapedChar(src, p).SOk?
    ensures src[p] == '\\' && p + 1 < |src|
    ensures ParseEscapedChar(src, p) ==
            if ParseUnicode(src, p + 1).SOk? then ParseUnicode(src, p + 1)
            else if NamedEscape(src[p + 1]).Some? then SOk(p + 2, NamedEscape(src[p + 1]).value)
            else SErr
  {
    hide BracedHex, HexValue, NamedEscape;
  }

  lemma GapPiece(src: string, p: nat) returns (x: Piece)
    requires p < |src| && ParseEscapedWhitespace(src, p).SOk?
    ensures Legal(x) && x.Gap? && Source(x) != "" && At(src, p, Source(x)) && Meaning(x) == ""
    ensures ParseEscapedWhitespace(src, p).rest == p + |Source(x)|
    ensures !Sees(src, p + |Source(x)|, IsMultispace)
  {
    var z := ParseEscapedWhitespace(src, p).rest;
    x := Gap(src[p + 1..z]);
    assert src[p..z] == "\\" + src[p + 1..z];
    AtSlice(src, p, Source(x));
  }

  lemma HexPiece(src: string, p: nat) returns (x: Piece)
    requires p < |src| && src[p] == '\\' && ParseUnicode(src, p + 1).SOk?
    ensures x.Hex? && HexRead(x.digits)
    ensures ParseUnicode(src, p + 1) == SOk(p + |Source(x)|, HexValue(x.digits) as char)
    ensures At(src, p, Source(x))
  {
    hide HexValue, BracedHex;
    var hex := BracedHex(src, p + 2);
    x := Hex(hex.value);
    var z := hex.rest;
    BracesWere(src, p + 2);
    assert src[p..z] == "\\u{" + src[p + 3..z - 1] + "}";
    AtSlice(src, p, Source(x));
  }

  lemma BracesWere(src: string, p: nat)
    requires p <= |src| && BracedHex(src, p).SOk?
    ensures var z := BracedHex(src, p).rest; src[p] == '{' && src[z - 1] == '}'
  {
  }

  /** Whatever is read was a legal spelling of what it is read as. */
  lemma {:induction false} ReadIsSpelled(src: string, p: nat, acc: string) returns (xs: seq<Piece>)
    requires p <= |src| && BuildString(src, p, acc).SOk?
    ensures LegalAll(xs)
    ensures BuildString(src, p, acc) == SOk(p + |SourceAll(xs)|, acc + MeaningAll(xs))
    ensures At(src, p, SourceAll(xs))
    decreases |src| - p
  {
    hide Source, Legal, Meaning, StartsWithSpace, BuildString, ParseFragment;
    if p < |src| && IsLiteralChar(src[p]) {
      RawStep(src, p, acc);
      RawIs(src, p);
      xs := OnePieceMore(src, p, acc, Raw(src[p]));
    } else if p < |src| && ParseFragment(src, p).SOk? {
      var x := FragmentIsPiece(src, p);
      FragmentStep(src, p, acc, ParseFragment(src, p).rest, ParseFragment(src, p).value);
      xs := OnePieceMore(src, p, acc, x);
    } else {
      xs := [];
      NothingRead(src, p, acc);
      assert acc + "" == acc;
    }
  }

  lemma RawIs(src: string, p: nat)
    requires Sees(src, p, IsLiteralChar)
    ensures var x := Raw(src[p]); Legal(x) && Source(x) == [src[p]] && At(src, p, Source(x)) && Meaning(x) == [src[p]]
  {
  }

  lemma NothingRead(src: string, p: nat, acc: string)
    requires p <= |src| && BuildString(src, p, acc).SOk? && !Sees(src, p, IsLiteralChar)
    requires p < |src| ==> !ParseFragment(src, p).SOk?
    ensures BuildString(src, p, acc) == SOk(p, acc)
  {
  }

  lemma {:induction false} OnePieceMore(src: string, p: nat, acc: string, x: Piece) returns (xs: seq<Piece>)
    requires p < |src| && Legal(x) && At(src, p, Source(x)) && Source(x) != "" && p + |Source(x)| <= |src|
    requires BuildString(src, p, acc).SOk?
    requires BuildString(src, p, acc) == BuildString(src, p + |Source(x)|, acc + Meaning(x))
    requires x.Gap? ==> !Sees(src, p + |Source(x)|, IsMultispace)
    ensures LegalAll(xs)
    ensures BuildString(src, p, acc) == SOk(p + |SourceAll(xs)|, acc + MeaningAll(xs))
    ensures At(src, p, SourceAll(xs))
    decreases |src| - p, 0
  {
    hide BuildString, Source, Legal, Meaning;
    var q := p + |Source(x)|;
    var rest := ReadIsSpelled(src, q, acc + Meaning(x));
    xs := [x] + rest;
    assert xs[1..] == rest;
    assert acc + Meaning(x) + MeaningAll(rest) == acc + (Meaning(x) + MeaningAll(rest));
    AtConcat(src, p, Source(x), SourceAll(rest));
    if rest != [] && StartsWithSpace(rest[0]) {
      SpaceHead(rest[0]);
      AtConcat(src, q, Source(rest[0]), SourceAll(rest[1..]));
      AtHead(src, q, Source(rest[0]));
      assert Sees(src, q, IsMultispace);
    }
  }

  lemma SpaceHead(x: Piece)
    requires StartsWithSpace(x)
    ensures Source(x) != "" && IsMultispace(Source(x)[0])
  {
  }

  /** A whole literal from `p` to `z`, spelled with the pieces `xs`. */
  predicate SpelledAt(src: string, p: nat, z: nat, v: string, xs: seq<Piece>) {
    && LegalAll(xs) && MeaningAll(xs) == v
    && z == p + |SourceAll(xs)| + 2
    && At(src, p, "\"" + (SourceAll(xs) + "\""))
  }

  /** A literal is read as a string exactly when it is a legal spelling of it. */
  lemma ReadExactlyTheSpellings(src: string, p: nat, z: nat, v: string)
    requires p <= |src|
    ensures ParseString(src, p) == SOk(z, v) <==> exists xs :: SpelledAt(src, p, z, v, xs)
  {
    hide BuildString, SourceAll, MeaningAll, Legal, StartsWithSpace;
    if ParseString(src, p) == SOk(z, v) {
      var xs := ReadIsSpelled(src, p + 1, "");
      assert "" + MeaningAll(xs) == MeaningAll(xs);
      var y := p + 1 + |SourceAll(xs)|;
      assert src[p] == '"' && src[y] == '"';
      assert At(src, p, "\"") && At(src, y, "\"");
      AtConcat(src, p + 1, SourceAll(xs), "\"");
      AtConcat(src, p, "\"", SourceAll(xs) + "\"");
      assert SpelledAt(src, p, z, v, xs);
    }
    if xs :| SpelledAt(src, p, z, v, xs) {
      SpelledThenRead(src, p, xs);
    }
  }
}
