/** The pass that gathers children into paragraphs. */
module Paragraphs {
  import opened Ltrf

  const BAD_BLOCK := "LtrfNode KV isBlock should be a boolean."

  predicate IsSeparator(o: Obj) { IsBreakMarker(o) || IsBlock(o) }

  /** Where the first separator is, if there is one. */
  function Cut(es: seq<Obj>): (k: nat)
    ensures k <= |es|
    ensures forall i :: 0 <= i < k ==> !IsSeparator(es[i])
    ensures k < |es| ==> IsSeparator(es[k])
  {
    if es == [] || IsSeparator(es[0]) then 0 else 1 + Cut(es[1..])
  }

  /** A block stays; a break marker goes. */
  function Kept(o: Obj): seq<Obj> {
    if IsBreakMarker(o) then [] else [o]
  }

  function ParaOf(es: seq<Obj>): seq<Obj> {
    if es == [] then [] else [MakePara(es)]
  }

  /** The children cut at separators. Every piece that a separator closes becomes a
      paragraph; the last piece does when an earlier one was closed non-empty. */
  function Pieces(es: seq<Obj>, closed: bool): (r: seq<Obj>)
    decreases |es|
  {
    var k := Cut(es);
    if k == |es| then (if closed then ParaOf(es) else es)
    else ParaOf(es[..k]) + Kept(es[k]) + Pieces(es[k + 1..], closed || k > 0)
  }

  function TrimFront(es: seq<Obj>): (r: seq<Obj>)
    ensures |r| <= |es| && r == es[|es| - |r|..]
    ensures forall k :: 0 <= k < |es| - |r| ==> IsBlank(es[k])
    ensures r != [] ==> !IsBlank(r[0])
  {
    if es != [] && IsBlank(es[0]) then TrimFront(es[1..]) else es
  }

  function TrimBack(es: seq<Obj>): (r: seq<Obj>)
    ensures |r| <= |es| && r == es[..|r|]
    ensures forall k :: |r| <= k < |es| ==> IsBlank(es[k])
    ensures r != [] ==> !IsBlank(r[|r| - 1])
  {
    if es != [] && IsBlank(es[|es| - 1]) then TrimBack(es[..|es| - 1]) else es
  }

  function Trim(es: seq<Obj>): seq<Obj> { TrimBack(TrimFront(es)) }

  function TrimPara(o: Obj): Obj {
    if IsPara(o) then o.(elems := Trim(o.elems)) else o
  }

  predicate IsNotEmptyPara(o: Obj) { !(IsPara(o) && o.elems == []) }

  /** Trims the paragraphs of a list and drops those that become empty. */
  function TrimParas(es: seq<Obj>): seq<Obj> {
    if es == [] then []
    else (if IsNotEmptyPara(TrimPara(es[0])) then [TrimPara(es[0])] else []) + TrimParas(es[1..])
  }

  function ParaLevel(es: seq<Obj>): seq<Obj> { TrimParas(Pieces(es, false)) }

  /** The pass on a whole tree, children first, where it does not throw. */
  function WithParas(n: Obj): (r: Obj)
    requires n.Node?
    ensures r.Node? && r.tag == n.tag && r.kv == n.kv
    decreases n, 0
  {
    n.(elems := ParaLevel(WithParasAll(n.elems)))
  }

  function WithParasAll(es: seq<Obj>): (r: seq<Obj>)
    ensures |r| == |es|
    ensures forall k :: 0 <= k < |es| ==> r[k] == if es[k].Node? then WithParas(es[k]) else es[k]
    decreases es, 1
  {
    if es == [] then []
    else [if es[0].Node? then WithParas(es[0]) else es[0]] + WithParasAll(es[1..])
  }

  /** Some descendant that is no break marker has a bad `isBlock` entry. */
  predicate Throws(n: Obj)
    requires n.Node?
    decreases n, 0
  {
    exists k :: 0 <= k < |n.elems| && ElemThrows(n.elems[k])
  }

  predicate ElemThrows(o: Obj)
    decreases o, 1
  {
    o.Node? && (Throws(o) || (!IsBreakMarker(o) && HasBadBlock(o)))
  }

  /** Removes whitespace strings from the two ends, one at a time. */
  method TrimSingleParaNode(o: Obj) returns (r: Obj)
    ensures r == TrimPara(o)
  {
    if IsPara(o) {
      var contents := o.elems;
      while |contents| > 0 && IsBlank(contents[0])
        invariant TrimFront(contents) == TrimFront(o.elems)
      {
        contents := contents[1..];
      }
      assert contents == TrimFront(o.elems);
      while |contents| > 0 && IsBlank(contents[|contents| - 1])
        invariant TrimBack(contents) == Trim(o.elems)
      {
        contents := contents[..|contents| - 1];
      }
      r := o.(elems := contents);
    } else {
      r := o;
    }
  }

  function TrimOne(o: Obj): seq<Obj> {
    if IsNotEmptyPara(TrimPara(o)) then [TrimPara(o)] else []
  }

  lemma TrimParasStep(done: seq<Obj>, es: seq<Obj>, i: nat)
    requires i < |es| && done + TrimParas(es[i..]) == TrimParas(es)
    ensures done + TrimOne(es[i]) + TrimParas(es[i + 1..]) == TrimParas(es)
  {
    hide TrimPara, IsNotEmptyPara;
    assert es[i..][1..] == es[i + 1..];
    assert done + (TrimOne(es[i]) + TrimParas(es[i + 1..])) == done + TrimOne(es[i]) + TrimParas(es[i + 1..]);
  }

  method TrimAll(es: seq<Obj>) returns (r: seq<Obj>)
    ensures r == TrimParas(es)
  {
    hide TrimParas, TrimPara, IsNotEmptyPara;
    r := [];
    assert [] + TrimParas(es[0..]) == TrimParas(es) by {
      assert es[0..] == es;
    }
    for i := 0 to |es|
      invariant r + TrimParas(es[i..]) == TrimParas(es)
    {
      TrimParasStep(r, es, i);
      var t := TrimSingleParaNode(es[i]);
      if IsNotEmptyPara(t) {
        r := r + [t];
      } else {
        assert r + [] == r;
      }
    }
    TrimNothing(es);
  }

  lemma TrimNothing(es: seq<Obj>)
    ensures TrimParas(es[|es|..]) == []
  {
  }

  lemma {:induction false} CutSkips(accum: seq<Obj>, es: seq<Obj>)
    requires forall k :: 0 <= k < |accum| ==> !IsSeparator(accum[k])
    ensures Cut(accum + es) == |accum| + Cut(es)
  {
    if accum == [] {
      assert accum + es == es;
    } else {
      assert (accum + es)[1..] == accum[1..] + es;
      CutSkips(accum[1..], es);
    }
  }

  /** A separator closes what has been gathered. */
  lemma PiecesAtSeparator(accum: seq<Obj>, es: seq<Obj>, closed: bool)
    requires forall k :: 0 <= k < |accum| ==> !IsSeparator(accum[k])
    requires es != [] && IsSeparator(es[0])
    ensures Pieces(accum + es, closed) == ParaOf(accum) + Kept(es[0]) + Pieces(es[1..], closed || accum != [])
  {
    CutSkips(accum, es);
    var all, k := accum + es, |accum|;
    assert all[..k] == accum && all[k] == es[0] && all[k + 1..] == es[1..];
  }

  /** What the loop has gathered from the first `i` children. */
  predicate Gathered(es: seq<Obj>, i: nat, outElems: seq<Obj>, paraAccum: seq<Obj>, closed: bool) {
    && i <= |es|
    && (forall k :: 0 <= k < |paraAccum| ==> !IsSeparator(paraAccum[k]))
    && outElems + Pieces(paraAccum + es[i..], closed) == Pieces(es, false)
  }

  lemma GatherStarts(es: seq<Obj>)
    ensures Gathered(es, 0, [], [], false)
  {
    assert [] + es[0..] == es;
  }

  lemma GatherSeparator(es: seq<Obj>, i: nat, outElems: seq<Obj>, paraAccum: seq<Obj>, closed: bool)
    requires Gathered(es, i, outElems, paraAccum, closed) && i < |es| && IsSeparator(es[i])
    ensures Gathered(es, i + 1, outElems + ParaOf(paraAccum) + Kept(es[i]), [], closed || paraAccum != [])
  {
    hide Pieces, IsSeparator, ParaOf, Kept;
    assert es[i..][1..] == es[i + 1..] && [] + es[i + 1..] == es[i + 1..];
    PiecesAtSeparator(paraAccum, es[i..], closed);
    var tail := Pieces(es[i + 1..], closed || paraAccum != []);
    assert outElems + (ParaOf(paraAccum) + Kept(es[i]) + tail) == outElems + ParaOf(paraAccum) + Kept(es[i]) + tail;
  }

  lemma GatherInline(es: seq<Obj>, i: nat, outElems: seq<Obj>, paraAccum: seq<Obj>, closed: bool)
    requires Gathered(es, i, outElems, paraAccum, closed) && i < |es| && !IsSeparator(es[i])
    ensures Gathered(es, i + 1, outElems, paraAccum + [es[i]], closed)
  {
    hide Pieces, IsSeparator;
    assert paraAccum + es[i..] == paraAccum + [es[i]] + es[i + 1..];
  }

  lemma GatherEnds(es: seq<Obj>, outElems: seq<Obj>, paraAccum: seq<Obj>, closed: bool)
    requires Gathered(es, |es|, outElems, paraAccum, closed)
    ensures Pieces(es, false) == outElems + if closed then ParaOf(paraAccum) else paraAccum
  {
    assert paraAccum + es[|es|..] == paraAccum;
    CutSkips(paraAccum, []);
  }

  /** The loop over the children; an error when one of them has a bad `isBlock`. */
  method GatherParas(es: seq<Obj>) returns (r: Result<seq<Obj>>)
    ensures r.Success? <==> forall k :: 0 <= k < |es| ==> IsBreakMarker(es[k]) || !HasBadBlock(es[k])
    ensures r == if r.Success? then Success(Pieces(es, false)) else Failure(BAD_BLOCK)
  {
    hide Gathered, Pieces, MakePara, IsBreakMarker, HasBadBlock, IsBlock;
    var outElems: seq<Obj> := [];
    var paraAccum: seq<Obj> := [];
    var numParas := 0;
    GatherStarts(es);
    var i := 0;
    while i < |es|
      invariant 0 <= i <= |es| && numParas >= 0
      invariant forall k :: 0 <= k < i ==> IsBreakMarker(es[k]) || !HasBadBlock(es[k])
      invariant Gathered(es, i, outElems, paraAccum, numParas >= 1)
    {
      var elem := es[i];
      if IsBreakMarker(elem) {
        GatherSeparator(es, i, outElems, paraAccum, numParas >= 1);
        if |paraAccum| >= 1 {
          outElems := outElems + [MakePara(paraAccum)];
          numParas := numParas + 1;
          paraAccum := [];
        }
        assert outElems + [] == outElems;
      } else if HasBadBlock(elem) {
        return Failure(BAD_BLOCK);
      } else if IsBlock(elem) {
        GatherSeparator(es, i, outElems, paraAccum, numParas >= 1);
        assert outElems + [] == outElems;
        if |paraAccum| >= 1 {
          outElems := outElems + [MakePara(paraAccum)];
          numParas := numParas + 1;
          paraAccum := [];
        }
        outElems := outElems + [elem];
      } else {
        GatherInline(es, i, outElems, paraAccum, numParas >= 1);
        paraAccum := paraAccum + [elem];
      }
      i := i + 1;
    }
    GatherEnds(es, outElems, paraAccum, numParas >= 1);
    if |paraAccum| >= 1 {
      if numParas >= 1 {
        outElems := outElems + [MakePara(paraAccum)];
      } else {
        outElems := outElems + paraAccum;
      }
    } else {
      assert outElems + [] == outElems;
    }
    r := Success(outElems);
  }

  method ProcessParagraphs(n: Obj) returns (r: Result<Obj>)
    requires n.Node?
    ensures r == if Throws(n) then Failure(BAD_BLOCK) else Success(WithParas(n))
    decreases n
  {
    hide Pieces, TrimParas, IsBreakMarker, HasBadBlock;
    ghost var all := WithParasAll(n.elems);
    var mapped: seq<Obj> := [];
    for i := 0 to |n.elems|
      invariant |mapped| == i && forall k :: 0 <= k < i ==> mapped[k] == all[k]
      invariant forall k :: 0 <= k < i && n.elems[k].Node? ==> !Throws(n.elems[k])
    {
      var e := n.elems[i];
      if e.Node? {
        var sub := ProcessParagraphs(e);
        if sub.Failure? {
          assert ElemThrows(n.elems[i]);
          return sub;
        }
        e := sub.value;
      }
      mapped := mapped + [e];
    }
    assert mapped == all;
    SameTrouble(n.elems);
    var gathered := GatherParas(mapped);
    if gathered.Failure? {
      var k :| 0 <= k < |mapped| && !(IsBreakMarker(mapped[k]) || !HasBadBlock(mapped[k]));
      assert ElemThrows(n.elems[k]);
      return Failure(gathered.error);
    }
    forall k | 0 <= k < |n.elems|
      ensures !ElemThrows(n.elems[k])
    {
      assert IsBreakMarker(mapped[k]) || !HasBadBlock(mapped[k]);
    }
    var trimmed := TrimAll(gathered.value);
    r := Success(n.(elems := trimmed));
  }

  /** Processing a child changes neither its tag nor its entries. */
  lemma SameTrouble(es: seq<Obj>)
    ensures var all := WithParasAll(es);
            forall k :: 0 <= k < |es| ==>
              && (IsBreakMarker(all[k]) <==> IsBreakMarker(es[k]))
              && (HasBadBlock(all[k]) <==> es[k].Node? && HasBadBlock(es[k]))
  {
  }
}
