/** The shape the linebreak pass leaves, and why running it again changes nothing. */
module BreakShape {
  import opened Ltrf
  import opened Linebreaks

  /** No list still holds a newline for the linebreak pass to change. */
  predicate NoLooseNewline(es: seq<Ltrf.Obj>) {
    |es| <= 1 || forall k :: 0 <= k < |es| ==> !IsNewline(es[k])
  }

  lemma {:induction false} BreakRunsClear(es: seq<Ltrf.Obj>, leading: bool)
    ensures forall k :: 0 <= k < |BreakRuns(es, leading)| ==> !IsNewline(BreakRuns(es, leading)[k])
    decreases |es|
  {
    hide IsNewline, SPACE, BREAK_MARKER;
    if es != [] {
      MarksAreNoNewlines();
      var k := RunLength(es);
      BreakRunsClear(if k == 0 then es[1..] else es[k..], false);
    }
  }

  lemma MarksAreNoNewlines()
    ensures !IsNewline(SPACE) && !IsNewline(BREAK_MARKER)
  {
  }

  lemma {:induction false} BreakRunsFixed(es: seq<Ltrf.Obj>, leading: bool)
    requires forall k :: 0 <= k < |es| ==> !IsNewline(es[k])
    ensures BreakRuns(es, leading) == es
    decreases |es|
  {
    hide IsNewline;
    if es != [] {
      assert RunLength(es) == 0;
      BreakRunsFixed(es[1..], false);
    }
  }

  /** No list at any depth still holds a newline for the pass to change. */
  predicate Settled(o: Ltrf.Obj)
    decreases o
  {
    o.Node? ==> NoLooseNewline(o.elems) && forall k :: 0 <= k < |o.elems| ==> Settled(o.elems[k])
  }

  predicate AllSettled(es: seq<Ltrf.Obj>) {
    forall k :: 0 <= k < |es| ==> Settled(es[k])
  }

  lemma MarksAreSettled()
    ensures Settled(BREAK_MARKER) && Settled(SPACE)
  {
  }

  lemma {:induction false} BreakRunsSettled(es: seq<Ltrf.Obj>, leading: bool)
    requires AllSettled(es)
    ensures AllSettled(BreakRuns(es, leading))
    decreases |es|
  {
    hide Settled, IsNewline, BREAK_MARKER, SPACE;
    if es != [] {
      MarksAreSettled();
      var k := RunLength(es);
      BreakRunsSettled(if k == 0 then es[1..] else es[k..], false);
    }
  }

  /** The pass settles every tree. */
  lemma {:induction false} LinebreakPassSettles(n: Ltrf.Obj)
    requires n.Node?
    ensures Settled(WithBreaks(n))
    decreases n
  {
    hide BreakRuns, IsNewline;
    var mapped := WithBreaksAll(n.elems);
    forall k | 0 <= k < |mapped|
      ensures Settled(mapped[k])
    {
      if n.elems[k].Node? {
        LinebreakPassSettles(n.elems[k]);
      }
    }
    BreakRunsSettled(mapped, true);
    BreakRunsClear(mapped, true);
  }

  /** A settled tree is left alone. */
  lemma {:induction false} SettledIsFixed(n: Ltrf.Obj)
    requires n.Node? && Settled(n)
    ensures WithBreaks(n) == n
    decreases n
  {
    hide BreakRuns, IsNewline;
    forall k | 0 <= k < |n.elems| && n.elems[k].Node?
      ensures WithBreaks(n.elems[k]) == n.elems[k]
    {
      SettledIsFixed(n.elems[k]);
    }
    assert WithBreaksAll(n.elems) == n.elems;
    if |n.elems| > 1 {
      BreakRunsFixed(n.elems, true);
    }
  }

  /** Running the linebreak pass a second time changes nothing, on any tree. */
  lemma LinebreakPassIsIdempotent(n: Ltrf.Obj)
    requires n.Node?
    ensures WithBreaks(WithBreaks(n)) == WithBreaks(n)
  {
    hide WithBreaks, Settled;
    LinebreakPassSettles(n);
    SettledIsFixed(WithBreaks(n));
  }

  /** If there is a marker at `k`, it is a plain one with its own space after it. */
  predicate StandsApart(r: seq<Ltrf.Obj>, k: nat)
    requires k < |r|
  {
    r[k].Node? && r[k].tag == "__para_br_marker" ==>
      r[k] == Node("__para_br_marker", map[], []) && k + 1 < |r| && r[k + 1] == Str(" ")
  }

  /** The markers the linebreak pass makes stand apart, so no two are adjacent, and
      none starts a node. */
  lemma {:induction false} MarkersStandApart(es: seq<Ltrf.Obj>, leading: bool)
    requires NoMarkersIn(es)
    ensures forall k :: 0 <= k < |BreakRuns(es, leading)| ==> StandsApart(BreakRuns(es, leading), k)
    ensures leading && es != [] ==> !IsBreakMarker(BreakRuns(es, leading)[0])
    decreases |es|
  {
    hide IsNewline, IsBreakMarker, BREAK_MARKER, SPACE;
    MarksAre();
    if es != [] {
      SpaceIsNoMarker();
      var k := RunLength(es);
      var rest := if k == 0 then es[1..] else es[k..];
      var head := if k == 0 then [es[0]] else (if k >= 2 && !leading then [BREAK_MARKER] else []) + [SPACE];
      MarkersStandApart(rest, false);
      var r, tail := BreakRuns(es, leading), BreakRuns(rest, false);
      assert r == head + tail;
      forall i | 0 <= i < |r|
        ensures StandsApart(r, i)
      {
        if i >= |head| {
          assert StandsApart(tail, i - |head|);
          assert r[i] == tail[i - |head|];
          assert i + 1 < |r| ==> r[i + 1] == tail[i - |head| + 1];
        } else {
          assert r[i] == head[i];
          assert i + 1 < |head| ==> r[i + 1] == head[i + 1];
        }
      }
    }
  }

  lemma MarksAre()
    ensures BREAK_MARKER == Node("__para_br_marker", map[], []) && SPACE == Str(" ")
    ensures forall o :: IsBreakMarker(o) <==> o.Node? && o.tag == "__para_br_marker"
  {
  }

  lemma SpaceIsNoMarker()
    ensures !IsBreakMarker(SPACE)
  {
  }

  function Markers(es: seq<Ltrf.Obj>): nat {
    if es == [] then 0 else (if IsBreakMarker(es[0]) then 1 else 0) + Markers(es[1..])
  }

  /** How many runs of two or more newlines there are, counted where they start.
      In the middle of a run, or at the start of the node, none starts. */
  function LongRuns(es: seq<Ltrf.Obj>, inside: bool): nat {
    if es == [] then 0
    else
      (if !inside && |es| > 1 && es[0] == Str("\n") && es[1] == Str("\n") then 1 else 0) +
      LongRuns(es[1..], es[0] == Str("\n"))
  }

  lemma MarkersAppend(a: seq<Ltrf.Obj>, b: seq<Ltrf.Obj>)
    requires |a| <= 1
    ensures Markers(a + b) == Markers(a) + Markers(b)
  {
    if a == [] {
      assert a + b == b;
    } else {
      assert (a + b)[1..] == b && a[1..] == [];
    }
  }

  lemma OneMarker()
    ensures Markers([BREAK_MARKER]) == 1 && Markers([SPACE]) == 0
  {
    assert Markers([]) == 0;
  }

  /** There is one marker for every long run that does not start the node. */
  lemma {:induction false} MarkersCountRuns(es: seq<Ltrf.Obj>, leading: bool)
    requires NoMarkersIn(es)
    ensures Markers(BreakRuns(es, leading)) == LongRuns(es, leading)
    decreases |es|
  {
    hide BreakRuns, IsNewline, IsBreakMarker, BREAK_MARKER, SPACE;
    NewlinesAre();
    if es == [] {
      assert BreakRuns(es, leading) == [] by {
        NothingToBreak(leading);
      }
    } else {
      OneMarker();
      if |es| > 1 && IsNewline(es[0]) && IsNewline(es[1]) {
        BreakRunsInsideRun(es, leading);
        MarkersCountRuns(es[1..], true);
        MarkersAppend(if leading then [] else [BREAK_MARKER], BreakRuns(es[1..], true));
      } else {
        BreakRunsOne(es, leading);
        MarkersCountRuns(es[1..], false);
        MarkersAppend([if IsNewline(es[0]) then SPACE else es[0]], BreakRuns(es[1..], false));
        assert LongRuns(es[1..], true) == LongRuns(es[1..], false) || !IsNewline(es[0]);
      }
    }
  }

  lemma NewlinesAre()
    ensures forall o :: IsNewline(o) <==> o == Str("\n")
  {
  }

  lemma NothingToBreak(leading: bool)
    ensures BreakRuns([], leading) == []
  {
  }
}
