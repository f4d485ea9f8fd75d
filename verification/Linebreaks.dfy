/** The pass that turns newlines into spaces and paragraph breaks. */
module Linebreaks {
  import opened Ltrf

  predicate IsNewline(o: Obj) { o == NEWLINE }

  /** How many newlines a list starts with. */
  function RunLength(es: seq<Obj>): (k: nat)
    ensures k <= |es|
    ensures forall i :: 0 <= i < k ==> IsNewline(es[i])
    ensures k < |es| ==> !IsNewline(es[k])
  {
    if es != [] && IsNewline(es[0]) then 1 + RunLength(es[1..]) else 0
  }

  /** Every maximal run of newlines becomes one space, with a break marker before
      it when the run has two or more newlines and does not start the node. */
  function BreakRuns(es: seq<Obj>, leading: bool): (r: seq<Obj>)
    decreases |es|
  {
    if es == [] then []
    else
      var k := RunLength(es);
      if k == 0 then [es[0]] + BreakRuns(es[1..], false)
      else (if k >= 2 && !leading then [BREAK_MARKER] else []) + [SPACE] + BreakRuns(es[k..], false)
  }

  /** A node with at most one child is left alone. */
  function LineLevel(es: seq<Obj>): seq<Obj> {
    if |es| <= 1 then es else BreakRuns(es, true)
  }

  /** The pass on a whole tree, children first. */
  function WithBreaks(n: Obj): (r: Obj)
    requires n.Node?
    ensures r.Node? && r.tag == n.tag && r.kv == n.kv
    decreases n, 0
  {
    n.(elems := LineLevel(WithBreaksAll(n.elems)))
  }

  function WithBreaksAll(es: seq<Obj>): (r: seq<Obj>)
    ensures |r| == |es|
    ensures forall k :: 0 <= k < |es| ==> r[k] == if es[k].Node? then WithBreaks(es[k]) else es[k]
    decreases es, 1
  {
    if es == [] then []
    else [if es[0].Node? then WithBreaks(es[0]) else es[0]] + WithBreaksAll(es[1..])
  }

  /** An entry of the list being built: an object, or the linebreak symbol. */
  datatype Item = Obj(o: Ltrf.Obj) | LinebreakIndicator

  function Finalize(h: seq<Item>): (r: seq<Ltrf.Obj>)
    ensures |r| == |h|
    ensures forall k :: 0 <= k < |h| ==> r[k] == if h[k].Obj? then h[k].o else BREAK_MARKER
  {
    seq(|h|, k requires 0 <= k < |h| => if h[k].Obj? then h[k].o else BREAK_MARKER)
  }

  lemma RunLengthStep(es: seq<Ltrf.Obj>)
    requires |es| >= 2 && IsNewline(es[0]) && IsNewline(es[1])
    ensures RunLength(es) == 1 + RunLength(es[1..]) >= 2
    ensures es[RunLength(es)..] == es[1..][RunLength(es[1..])..]
  {
  }

  /** One newline of a longer run: it leaves at most a marker, and then the rest of
      the run counts as already begun. */
  lemma BreakRunsInsideRun(es: seq<Ltrf.Obj>, leading: bool)
    requires |es| >= 2 && IsNewline(es[0]) && IsNewline(es[1])
    ensures BreakRuns(es, leading) == (if leading then [] else [BREAK_MARKER]) + BreakRuns(es[1..], true)
  {
    RunLengthStep(es);
    var k := RunLength(es);
    assert BreakRuns(es[1..], true) == [] + [SPACE] + BreakRuns(es[k..], false);
  }

  lemma BreakRunsOne(es: seq<Ltrf.Obj>, leading: bool)
    requires es != [] && !(|es| > 1 && IsNewline(es[0]) && IsNewline(es[1]))
    ensures BreakRuns(es, leading) == [if IsNewline(es[0]) then SPACE else es[0]] + BreakRuns(es[1..], false)
  {
    hide IsNewline, BREAK_MARKER, SPACE;
    assert RunLength(es) == if IsNewline(es[0]) then 1 else 0;
  }

  /** Nothing since the start, or since the last linebreak symbol. */
  predicate Open(h: seq<Item>) {
    h == [] || h[|h| - 1].LinebreakIndicator?
  }

  /** What the loop has built from the first `i` children. */
  predicate BuiltSoFar(es: seq<Ltrf.Obj>, i: nat, h: seq<Item>) {
    i <= |es| && Finalize(h) + BreakRuns(es[i..], Open(h)) == BreakRuns(es, true)
  }

  lemma FinalizeAppend(h: seq<Item>, x: Item)
    ensures Finalize(h + [x]) == Finalize(h) + Finalize([x])
  {
  }

  /** A newline with another one after it. */
  lemma BuildInsideRun(es: seq<Ltrf.Obj>, i: nat, h: seq<Item>)
    requires BuiltSoFar(es, i, h) && i + 1 < |es| && IsNewline(es[i]) && IsNewline(es[i + 1])
    ensures BuiltSoFar(es, i + 1, if Open(h) then h else h + [LinebreakIndicator])
  {
    hide BreakRuns, BREAK_MARKER;
    assert es[i..][1..] == es[i + 1..];
    BreakRunsInsideRun(es[i..], Open(h));
    FinalizeAppend(h, LinebreakIndicator);
    assert Finalize([LinebreakIndicator]) == [BREAK_MARKER];
    assert Finalize(h) + ([BREAK_MARKER] + BreakRuns(es[i + 1..], true)) ==
           (Finalize(h) + [BREAK_MARKER]) + BreakRuns(es[i + 1..], true);
  }

  /** A newline without another one after it, or no newline at all. */
  lemma BuildOne(es: seq<Ltrf.Obj>, i: nat, h: seq<Item>)
    requires BuiltSoFar(es, i, h) && i < |es| && !(i + 1 < |es| && IsNewline(es[i]) && IsNewline(es[i + 1]))
    ensures BuiltSoFar(es, i + 1, h + [Obj(if IsNewline(es[i]) then SPACE else es[i])])
  {
    hide Finalize, BreakRuns, SPACE, IsNewline;
    var x := if IsNewline(es[i]) then SPACE else es[i];
    assert es[i..][1..] == es[i + 1..];
    BreakRunsOne(es[i..], Open(h));
    FinalizeAppend(h, Obj(x));
    assert Finalize([Obj(x)]) == [x] by {
      assert |Finalize([Obj(x)])| == 1;
    }
    assert Finalize(h) + ([x] + BreakRuns(es[i + 1..], false)) == (Finalize(h) + [x]) + BreakRuns(es[i + 1..], false);
  }

  lemma BuildEnds(es: seq<Ltrf.Obj>, h: seq<Item>)
    requires BuiltSoFar(es, |es|, h)
    ensures Finalize(h) == BreakRuns(es, true)
  {
    assert BreakRuns(es[|es|..], Open(h)) == [];
  }

  lemma BuildStarts(es: seq<Ltrf.Obj>)
    ensures BuiltSoFar(es, 0, [])
  {
    assert es[0..] == es;
  }

  /** The loop over the children, symbol and all. */
  method BreakLoop(es: seq<Ltrf.Obj>) returns (r: seq<Ltrf.Obj>)
    ensures r == BreakRuns(es, true)
  {
    hide BreakRuns, BuiltSoFar, Finalize, SPACE, IsNewline;
    var h: seq<Item> := [];
    var i := 0;
    BuildStarts(es);
    while i < |es|
      invariant 0 <= i <= |es| && BuiltSoFar(es, i, h)
    {
      if IsNewline(es[i]) {
        if i + 1 < |es| && IsNewline(es[i + 1]) {
          BuildInsideRun(es, i, h);
          var atStart := |h| == 0;
          if !atStart && !h[|h| - 1].LinebreakIndicator? {
            h := h + [LinebreakIndicator];
          }
        } else {
          BuildOne(es, i, h);
          h := h + [Obj(SPACE)];
        }
      } else {
        BuildOne(es, i, h);
        h := h + [Obj(es[i])];
      }
      i := i + 1;
    }
    BuildEnds(es, h);
    r := Finalize(h);
  }

  method ProcessLinebreaks(n: Ltrf.Obj) returns (r: Ltrf.Obj)
    requires n.Node?
    ensures r == WithBreaks(n)
    decreases n
  {
    hide LineLevel, BreakRuns;
    ghost var all := WithBreaksAll(n.elems);
    var mapped: seq<Ltrf.Obj> := [];
    for i := 0 to |n.elems|
      invariant |mapped| == i && forall k :: 0 <= k < i ==> mapped[k] == all[k]
    {
      var e := n.elems[i];
      if e.Node? {
        e := ProcessLinebreaks(e);
      }
      mapped := mapped + [e];
    }
    assert mapped == all;
    if |mapped| <= 1 {
      AloneIsLeft(mapped);
      return n.(elems := mapped);
    }
    var broken := BreakLoop(mapped);
    SeveralAreBroken(mapped);
    r := n.(elems := broken);
  }

  lemma AloneIsLeft(es: seq<Ltrf.Obj>)
    requires |es| <= 1
    ensures LineLevel(es) == es
  {
  }

  lemma SeveralAreBroken(es: seq<Ltrf.Obj>)
    requires |es| > 1
    ensures LineLevel(es) == BreakRuns(es, true)
  {
  }
}
