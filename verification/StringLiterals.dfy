/** Double-quoted string literals with escapes.

    These parsers work in streaming mode: reaching the end of the input inside
    one of them is `Incomplete`, which no alternative recovers from. */
module StringLiterals {
  import opened Spans

  datatype SResult<+T> = SOk(rest: nat, value: T) | SErr | SIncomplete

  /** One character, `c`. */
  function Char(src: string, p: nat, c: char): (r: SResult<char>)
    requires p <= |src|
  {
    if p == |src| then SIncomplete
    else if src[p] == c then SOk(p + 1, c) else SErr
  }

  predicate IsHexDigit(c: char) {
    '0' <= c <= '9' || 'a' <= c <= 'f' || 'A' <= c <= 'F'
  }

  function HexDigit(c: char): nat
    requires IsHexDigit(c)
  {
    if '0' <= c <= '9' then c as int - '0' as int
    else if 'a' <= c <= 'f' then c as int - 'a' as int + 10
    else c as int - 'A' as int + 10
  }

  /** The value of hexadecimal digits, most significant first. */
  function HexValue(s: string): nat
    requires forall k :: 0 <= k < |s| ==> IsHexDigit(s[k])
  {
    if s == "" then 0 else 16 * HexValue(s[..|s| - 1]) + HexDigit(s[|s| - 1])
  }

  /** The numbers that are Unicode scalar values. */
  predicate IsScalar(n: int) {
    0 <= n < 0xD800 || 0xE000 <= n < 0x11_0000
  }

  /** At most `limit` characters satisfying `f`; where the run ends. */
  function RunAtMost(src: string, p: nat, f: char -> bool, limit: nat): (q: nat)
    requires p <= |src|
    ensures p <= q <= |src| && q <= p + limit
    ensures forall k :: p <= k < q ==> f(src[k])
    ensures q == p + limit || !Sees(src, q, f)
    decreases limit
  {
    if limit > 0 && Sees(src, p, f) then RunAtMost(src, p + 1, f, limit - 1) else p
  }

  /** `{`, one to six hexadecimal digits, `}`: the digits. */
  function BracedHex(src: string, p: nat): (r: SResult<string>)
    requires p <= |src|
    ensures r.SOk? ==> p + 3 <= r.rest <= |src| && r.value == src[p + 1..r.rest - 1] && 1 <= |r.value| <= 6
                       && forall k :: 0 <= k < |r.value| ==> IsHexDigit(r.value[k])
  {
    match Char(src, p, '{')
    case SErr => SErr
    case SIncomplete => SIncomplete
    case SOk(a, _) =>
      var q := RunAtMost(src, a, IsHexDigit, 6);
      if q == |src| && q < a + 6 then SIncomplete
      else if q == a then SErr
      else
        match Char(src, q, '}')
        case SErr => SErr
        case SIncomplete => SIncomplete
        case SOk(z, _) => SOk(z, src[a..q])
  }

  /** `u{...}`: an error when the number is not a scalar value. */
  function ParseUnicode(src: string, p: nat): (r: SResult<char>)
    requires p <= |src|
    ensures r.SOk? ==> p < r.rest <= |src|
  {
    match Char(src, p, 'u')
    case SErr => SErr
    case SIncomplete => SIncomplete
    case SOk(a, _) =>
      match BracedHex(src, a)
      case SErr => SErr
      case SIncomplete => SIncomplete
      case SOk(z, hex) => if IsScalar(HexValue(hex)) then SOk(z, HexValue(hex) as char) else SErr
  }

  /** What a one-letter escape stands for. */
  function NamedEscape(c: char): Option<char> {
    match c
    case 'n' => Some('\n')
    case 'r' => Some('\r')
    case 't' => Some('\t')
    case 'b' => Some(0x08 as char)
    case 'f' => Some(0x0C as char)
    case '\\' => Some('\\')
    case '/' => Some('/')
    case '"' => Some('"')
    case _ => None
  }

  function ParseEscapedChar(src: string, p: nat): (r: SResult<char>)
    requires p <= |src|
    ensures r.SOk? ==> p < r.rest <= |src|
  {
    match Char(src, p, '\\')
    case SErr => SErr
    case SIncomplete => SIncomplete
    case SOk(a, _) =>
      match ParseUnicode(src, a)
      case SOk(z, c) => SOk(z, c)
      case SIncomplete => SIncomplete
      case SErr =>
        if NamedEscape(src[a]).Some? then SOk(a + 1, NamedEscape(src[a]).value) else SErr
  }

  /** A backslash and all the whitespace after it. */
  function ParseEscapedWhitespace(src: string, p: nat): (r: SResult<()>)
    requires p <= |src|
    ensures r.SOk? ==> p < r.rest <= |src|
  {
    match Char(src, p, '\\')
    case SErr => SErr
    case SIncomplete => SIncomplete
    case SOk(a, _) =>
      var q := SkipSpaces(src, a);
      if q == |src| then SIncomplete else if q == a then SErr else SOk(q, ())
  }

  predicate IsLiteralChar(c: char) { c != '"' && c != '\\' && c != '\r' }

  /** A non-empty run without quote, backslash or carriage return. */
  function ParseLiteral(src: string, p: nat): (r: SResult<string>)
    requires p <= |src|
    ensures r.SOk? ==> p < r.rest <= |src|
  {
    var q := RunWhile(src, p, IsLiteralChar);
    if q == |src| then SIncomplete else if q == p then SErr else SOk(q, src[p..q])
  }

  /** A carriage return and a line feed, read as a line feed. */
  function ParseCrLf(src: string, p: nat): (r: SResult<string>)
    requires p <= |src|
    ensures r.SOk? ==> p < r.rest <= |src|
  {
    if AtCrLf(src, p) then SOk(p + 2, "\n")
    else if p == |src| || (p + 1 == |src| && src[p] == '\r') then SIncomplete
    else SErr
  }

  datatype Fragment = Literal(s: string) | EscapedChar(c: char) | EscapedWhitespace

  function ParseFragment(src: string, p: nat): (r: SResult<Fragment>)
    requires p <= |src|
    ensures r.SOk? ==> p < r.rest <= |src|
  {
    match ParseLiteral(src, p)
    case SOk(z, s) => SOk(z, Literal(s))
    case SIncomplete => SIncomplete
    case SErr =>
      match ParseEscapedChar(src, p)
      case SOk(z, c) => SOk(z, EscapedChar(c))
      case SIncomplete => SIncomplete
      case SErr =>
        match ParseEscapedWhitespace(src, p)
        case SOk(z, _) => SOk(z, EscapedWhitespace)
        case SIncomplete => SIncomplete
        case SErr =>
          match ParseCrLf(src, p)
          case SOk(z, s) => SOk(z, Literal(s))
          case SIncomplete => SIncomplete
          case SErr => SErr
  }

  function FragmentText(f: Fragment): string {
    match f
    case Literal(s) => s
    case EscapedChar(c) => [c]
    case EscapedWhitespace => ""
  }

  /** All fragments from `p` on, appended to `acc`. */
  function BuildString(src: string, p: nat, acc: string): (r: SResult<string>)
    requires p <= |src|
    ensures !r.SErr?
    ensures r.SOk? ==> p <= r.rest <= |src|
    decreases |src| - p
  {
    match ParseFragment(src, p)
    case SIncomplete => SIncomplete
    case SErr => SOk(p, acc)
    case SOk(z, f) => BuildString(src, z, acc + FragmentText(f))
  }

  /** A whole literal, quotes included. */
  function ParseString(src: string, p: nat): (r: SResult<string>)
    requires p <= |src|
    ensures r.SOk? ==> p + 2 <= r.rest <= |src|
  {
    match Char(src, p, '"')
    case SErr => SErr
    case SIncomplete => SIncomplete
    case SOk(a, _) =>
      match BuildString(src, a, "")
      case SErr => SErr
      case SIncomplete => SIncomplete
      case SOk(z, s) =>
        match Char(src, z, '"')
        case SErr => SErr
        case SIncomplete => SIncomplete
        case SOk(y, _) => SOk(y, s)
  }

  /** As an entry of the document grammar: no match unless a quote stands here,
      and from then on anything but success is a panic. */
  function QuotedString(src: string, p: nat): (r: PResult<string>)
    requires p <= |src|
    ensures r.Ok? ==> p < r.rest <= |src|
  {
    if !CharAt(src, p, '"') then Err
    else
      match ParseString(src, p)
      case SOk(z, s) => Ok(z, s)
      case SErr => Panic
      case SIncomplete => Panic
  }
}
