/** Spans and the handful of combinators the parser is built from.

    A span is a position in a source text that stays fixed during a parse, so
    the remaining input of a parser is always a suffix of what it was given. */
module Spans {

  /** What running a parser at a position gives: success with the new position,
      a recoverable error (alternatives and repetitions fall through), or a
      panic (a failed `expect` or `assert!`), which ends the whole parse. */
  datatype PResult<+T> = Ok(rest: nat, value: T) | Err | Panic

  datatype Option<+T> = None | Some(value: T)

  /** `t` stands at position `p` of `src`. */
  predicate At(src: string, p: nat, t: string) {
    p + |t| <= |src| && forall k :: 0 <= k < |t| ==> src[p + k] == t[k]
  }

  /** The single character `c` stands at position `p`. */
  predicate CharAt(src: string, p: nat, c: char) {
    p < |src| && src[p] == c
  }

  predicate AtCrLf(src: string, p: nat) {
    p + 2 <= |src| && src[p] == '\r' && src[p + 1] == '\n'
  }

  /** The position is not at the end and the character there satisfies `f`. */
  predicate Sees(src: string, p: nat, f: char -> bool) {
    p < |src| && f(src[p])
  }

  /** The end of the longest run of characters satisfying `f` from `p` on. */
  function RunWhile(src: string, p: nat, f: char -> bool): (q: nat)
    requires p <= |src|
    ensures p <= q <= |src|
    ensures forall k :: p <= k < q ==> f(src[k])
    ensures !Sees(src, q, f)
    decreases |src| - p
  {
    if Sees(src, p, f) then RunWhile(src, p + 1, f) else p
  }

  predicate IsMultispace(c: char) { c in " \t\r\n" }

  predicate NotNewline(c: char) { c != '\n' }

  /** `opt(multispace1)`: never fails. */
  function SkipSpaces(src: string, p: nat): (q: nat)
    requires p <= |src|
    ensures p <= q <= |src|
  {
    RunWhile(src, p, IsMultispace)
  }

  lemma AtConcat(src: string, p: nat, a: string, b: string)
    ensures At(src, p, a + b) <==> At(src, p, a) && At(src, p + |a|, b)
  {
    var ab := a + b;
    assert forall k :: 0 <= k < |a| ==> ab[k] == a[k];
    assert forall k :: 0 <= k < |b| ==> ab[|a| + k] == b[k];
    if At(src, p, ab) {
      forall k | 0 <= k < |b|
        ensures src[p + |a| + k] == b[k]
      {
        assert src[p + (|a| + k)] == ab[|a| + k];
      }
    } else if At(src, p, a) && At(src, p + |a|, b) {
      forall k | 0 <= k < |ab|
        ensures src[p + k] == ab[k]
      {
        if k >= |a| {
          assert src[p + |a| + (k - |a|)] == b[k - |a|];
        }
      }
    }
  }

  lemma AtHead(src: string, p: nat, t: string)
    requires t != ""
    ensures At(src, p, t) ==> p + |t| <= |src| && src[p] == t[0]
  {
    if At(src, p, t) {
      assert src[p + 0] == t[0];
    }
  }

  lemma AtSlice(src: string, p: nat, t: string)
    requires p + |t| <= |src|
    ensures At(src, p, t) <==> src[p..p + |t|] == t
  {
    if src[p..p + |t|] == t {
      forall k | 0 <= k < |t|
        ensures src[p + k] == t[k]
      {
        assert src[p..p + |t|][k] == t[k];
      }
    }
  }

  /** A run of known characters with a known end is the longest one. */
  lemma {:induction false} RunWhileIs(src: string, p: nat, q: nat, f: char -> bool)
    requires p <= q <= |src|
    requires forall k :: p <= k < q ==> f(src[k])
    requires !Sees(src, q, f)
    ensures RunWhile(src, p, f) == q
    decreases q - p
  {
    if p < q {
      RunWhileIs(src, p + 1, q, f);
    }
  }
}
