/** The text representation that evaluation produces and the passes rewrite. */
module Ltrf {

  /** What a key of a node may hold; all that matters is whether it is a boolean. */
  datatype Value = VBool(b: bool) | VNull | VOther(text: string)

  datatype Obj =
    | Str(s: string)
    | Node(tag: string, kv: map<string, Value>, elems: seq<Obj>)

  datatype Result<+T> = Success(value: T) | Failure(error: string)

  const PARAGRAPH_TAG := "__p"
  const BREAK_MARKER_TAG := "__para_br_marker"
  const ROOT_TAG := "__root"
  const DOC_TAG := "__doc"
  const IS_BLOCK := "isBlock"

  const NEWLINE := Str("\n")
  const SPACE := Str(" ")
  const BREAK_MARKER := Node(BREAK_MARKER_TAG, map[], [])

  /** The characters `String.prototype.trim` removes. */
  predicate IsSpaceChar(c: char) {
    || c in " \t\n\r"
    || c as int in {0x0B, 0x0C, 0xA0, 0x1680, 0x2028, 0x2029, 0x202F, 0x205F, 0x3000, 0xFEFF}
    || 0x2000 <= c as int <= 0x200A
  }

  /** The string is empty after trimming; so the empty string is whitespace. */
  predicate IsWhitespace(s: string) {
    forall k :: 0 <= k < |s| ==> IsSpaceChar(s[k])
  }

  predicate IsBlank(o: Obj) { o.Str? && IsWhitespace(o.s) }

  predicate IsPara(o: Obj) { o.Node? && o.tag == PARAGRAPH_TAG }

  predicate IsBreakMarker(o: Obj) { o.Node? && o.tag == BREAK_MARKER_TAG }

  /** The `isBlock` entry holds neither a boolean nor nothing: asking for it throws. */
  predicate HasBadBlock(o: Obj) {
    o.Node? && IS_BLOCK in o.kv && o.kv[IS_BLOCK].VOther?
  }

  predicate IsBlock(o: Obj) {
    o.Node? && IS_BLOCK in o.kv && o.kv[IS_BLOCK] == VBool(true)
  }

  function MakePara(elems: seq<Obj>): Obj {
    Node(PARAGRAPH_TAG, map[IS_BLOCK := VBool(true)], elems)
  }

  predicate All(p: Obj -> bool, es: seq<Obj>) {
    forall k :: 0 <= k < |es| ==> p(es[k])
  }

  predicate NoMarkersIn(es: seq<Obj>) {
    forall k :: 0 <= k < |es| ==> !IsBreakMarker(es[k])
  }

  predicate NoParasIn(es: seq<Obj>) {
    forall k :: 0 <= k < |es| ==> !IsPara(es[k])
  }

  /** The code points of white space and line terminators. */
  const TRIMMED: set<int> := {
    0x09, 0x0A, 0x0B, 0x0C, 0x0D, 0x20, 0xA0, 0x1680,
    0x2000, 0x2001, 0x2002, 0x2003, 0x2004, 0x2005, 0x2006, 0x2007, 0x2008, 0x2009, 0x200A,
    0x2028, 0x2029, 0x202F, 0x205F, 0x3000, 0xFEFF
  }

  /** A string is whitespace when all its characters are among these. */
  lemma WhitespaceExactly(s: string)
    ensures IsWhitespace(s) <==> forall k :: 0 <= k < |s| ==> s[k] as int in TRIMMED
  {
  }

  lemma SpaceIsWhitespace()
    ensures IsBlank(SPACE) && IsBlank(NEWLINE) && IsWhitespace("")
  {
  }
}
