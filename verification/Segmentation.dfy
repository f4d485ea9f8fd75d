/** Three passes at once: what whitespace removal, linebreaks and paragraphs
    together do to a document, said as one cut of every list of children. */
module Segmentation {
  import opened Ltrf
  import opened RemoveWhitespace
  import opened Linebreaks
  import opened Paragraphs
  import opened ChildWise

  /** How many newlines a list starts with. */
  function Newlines(es: seq<Ltrf.Obj>): (k: nat)
    ensures k == RunLength(es)
  {
    if es != [] && es[0] == Str("\n") then 1 + Newlines(es[1..]) else 0
  }

  predicate Block(o: Ltrf.Obj): (b: bool)
    ensures b == IsBlock(o)
  {
    o.Node? && "isBlock" in o.kv && o.kv["isBlock"] == VBool(true)
  }

  predicate White(o: Ltrf.Obj): (b: bool)
    ensures b == IsBlank(o)
  {
    o.Str? && IsWhitespace(o.s)
  }

  /** The length of the first thing in a list: a whole run of newlines, or one child. */
  function Width(es: seq<Ltrf.Obj>): (m: nat)
    requires es != []
    ensures 1 <= m <= |es|
  {
    if Newlines(es) == 0 then 1 else Newlines(es)
  }

  /** The list begins with a cut: a block, or a run of two or more newlines that
      does not start the node. */
  predicate CutsHere(es: seq<Ltrf.Obj>, start: bool) {
    es != [] && (Block(es[0]) || (Newlines(es) >= 2 && !start))
  }

  /** The first place where the list is cut, if there is one. */
  function Stop(es: seq<Ltrf.Obj>, start: bool): (k: nat)
    ensures k <= |es|
    decreases |es|
  {
    if es == [] || CutsHere(es, start) then 0 else Width(es) + Stop(es[Width(es)..], false)
  }

  /** A stretch without cuts: each run of newlines is one space. */
  function Spaced(es: seq<Ltrf.Obj>): seq<Ltrf.Obj>
    decreases |es|
  {
    if es == [] then []
    else
      var run := Newlines(es);
      if run == 0 then [es[0]] + Spaced(es[1..]) else [Str(" ")] + Spaced(es[run..])
  }

  /** A stretch without the whitespace strings at its ends. */
  function Stripped(es: seq<Ltrf.Obj>): seq<Ltrf.Obj>
    decreases |es|
  {
    if es == [] then []
    else if White(es[0]) then Stripped(es[1..])
    else if White(es[|es| - 1]) then Stripped(es[..|es| - 1])
    else es
  }

  /** The paragraph that a stretch becomes, if there is anything to put into it. */
  function Section(piece: seq<Ltrf.Obj>): seq<Ltrf.Obj> {
    var inner := Stripped(piece);
    if inner == [] then [] else [Node("__p", map["isBlock" := VBool(true)], inner)]
  }

  /** The stretches between cuts become paragraphs, the blocks stay between them,
      and of a run that cuts, one newline goes to the next stretch. The last
      stretch is a paragraph only if an earlier one was not empty. */
  function Segments(es: seq<Ltrf.Obj>, start: bool, closed: bool): seq<Ltrf.Obj>
    decreases |es|
  {
    var k := Stop(es, start);
    var piece := Spaced(es[..k]);
    if k == |es| then (if closed then Section(piece) else piece)
    else if Block(es[k]) then
      Section(piece) + [es[k]] + Segments(es[k + 1..], false, closed || piece != [])
    else
      StopCuts(es, start);
      var run := Newlines(es[k..]);
      Section(piece) + Segments(es[k + run - 1..], false, closed || piece != [])
  }

  /** A list of at most one child is not cut. */
  function SegmentLevel(es: seq<Ltrf.Obj>): seq<Ltrf.Obj> {
    if |es| <= 1 then es else Segments(es, true, false)
  }

  /** The children that survive whitespace removal: nodes, newlines, and strings that
      hold more than whitespace. */
  function Visible(es: seq<Ltrf.Obj>): seq<Ltrf.Obj> {
    if es == [] then []
    else (if es[0].Str? && es[0].s != "\n" && IsWhitespace(es[0].s) then [] else [es[0]]) + Visible(es[1..])
  }

  /** The declarative form of the three passes. */
  function Segment(n: Ltrf.Obj): (r: Ltrf.Obj)
    requires n.Node?
    ensures r.Node? && r.tag == n.tag && r.kv == n.kv
    decreases n, 0
  {
    n.(elems := SegmentLevel(Visible(SegmentAll(n.elems))))
  }

  function SegmentAll(es: seq<Ltrf.Obj>): (r: seq<Ltrf.Obj>)
    ensures |r| == |es|
    ensures forall k :: 0 <= k < |es| ==> r[k] == if es[k].Node? then Segment(es[k]) else es[k]
    decreases es, 1
  {
    if es == [] then []
    else [if es[0].Node? then Segment(es[0]) else es[0]] + SegmentAll(es[1..])
  }

  /** No node below the root is a paragraph or a break marker yet. */
  predicate Fresh(n: Ltrf.Obj)
    decreases n
  {
    n.Node? ==> NoMarkersIn(n.elems) && NoParasIn(n.elems) && forall k :: 0 <= k < |n.elems| ==> Fresh(n.elems[k])
  }

  lemma NewlineIsNoSeparator()
    ensures !IsSeparator(NEWLINE) && !IsSeparator(SPACE) && IsSeparator(BREAK_MARKER) && Kept(BREAK_MARKER) == []
    ensures IsNewline(NEWLINE)
  {
  }

  lemma RunStops(es: seq<Ltrf.Obj>)
    requires RunLength(es) > 0
    ensures !IsBlock(es[0]) && RunLength(es[RunLength(es)..]) == 0
  {
    hide IsBlock, NEWLINE;
    NewlineIsNoSeparator();
    RunEnds(es);
  }

  lemma RunEnds(es: seq<Ltrf.Obj>)
    ensures RunLength(es[RunLength(es)..]) == 0
  {
  }

  /** A cut never splits a run it comes after. */
  lemma {:induction false} RunPrefix(es: seq<Ltrf.Obj>, k: nat)
    requires RunLength(es) <= k <= |es|
    ensures RunLength(es[..k]) == RunLength(es)
  {
    hide IsNewline;
    if es != [] && IsNewline(es[0]) {
      assert es[..k][1..] == es[1..][..k - 1];
      RunPrefix(es[1..], k - 1);
    }
  }

  /** What that first thing becomes when it is no cut. */
  function Spacing(es: seq<Ltrf.Obj>): Ltrf.Obj
    requires es != []
  {
    if RunLength(es) == 0 then es[0] else Str(" ")
  }

  lemma StepOver(es: seq<Ltrf.Obj>, start: bool)
    requires es != [] && !CutsHere(es, start)
    ensures Stop(es, start) == Width(es) + Stop(es[Width(es)..], false)
    ensures BreakRuns(es, start) == [Spacing(es)] + BreakRuns(es[Width(es)..], false)
  {
    hide IsBlock, Block, BREAK_MARKER, IsNewline, Newlines;
    if RunLength(es) > 0 {
      assert [] + [SPACE] + BreakRuns(es[RunLength(es)..], false) == [SPACE] + BreakRuns(es[RunLength(es)..], false);
    }
  }

  lemma SpacedStep(es: seq<Ltrf.Obj>, k: nat)
    requires es != [] && Width(es) <= k <= |es|
    ensures Spaced(es[..k]) == [Spacing(es)] + Spaced(es[Width(es)..][..k - Width(es)])
  {
    hide IsNewline, SPACE;
    RunPrefix(es, k);
    assert es[..k][Width(es)..] == es[Width(es)..][..k - Width(es)];
  }

  /** Up to the first cut, the linebreak pass makes no marker. */
  lemma {:induction false} BreakRunsToStop(es: seq<Ltrf.Obj>, start: bool)
    ensures var k := Stop(es, start);
            BreakRuns(es, start) == Spaced(es[..k]) + BreakRuns(es[k..], start && k == 0)
    decreases |es|
  {
    hide CutsHere, BreakRuns, Spaced, Width, Spacing;
    var k := Stop(es, start);
    if es == [] || CutsHere(es, start) {
      StopsHere(es, start);
      assert es[0..] == es;
      assert [] + BreakRuns(es, start) == BreakRuns(es, start);
    } else {
      var m := Width(es);
      StepOver(es, start);
      BreakRunsToStop(es[m..], false);
      var j := Stop(es[m..], false);
      assert es[m..][j..] == es[k..];
      SpacedStep(es, k);
    }
  }

  lemma StopsHere(es: seq<Ltrf.Obj>, start: bool)
    requires es == [] || CutsHere(es, start)
    ensures Stop(es, start) == 0 && Spaced(es[..0]) == []
  {
    hide CutsHere;
  }

  /** Up to the first cut there is no separator. */
  lemma {:induction false} NoneBeforeStop(es: seq<Ltrf.Obj>, start: bool)
    requires NoMarkersIn(es)
    ensures NoSeparators(Spaced(es[..Stop(es, start)]))
    decreases |es|
  {
    hide IsBreakMarker, IsSeparator, CutsHere, BreakRuns, Spaced, Width, Spacing;
    var k := Stop(es, start);
    if es == [] || CutsHere(es, start) {
      StopsHere(es, start);
    } else {
      StepOver(es, start);
      NoneBeforeStop(es[Width(es)..], false);
      SpacedStep(es, k);
      SpacingIsNoSeparator(es, start);
    }
  }

  lemma SpacingIsNoSeparator(es: seq<Ltrf.Obj>, start: bool)
    requires es != [] && !CutsHere(es, start) && !IsBreakMarker(es[0])
    ensures !IsSeparator(Spacing(es))
  {
    NewlineIsNoSeparator();
  }

  predicate NoSeparators(es: seq<Ltrf.Obj>) {
    forall i :: 0 <= i < |es| ==> !IsSeparator(es[i])
  }

  lemma {:induction false} StopCuts(es: seq<Ltrf.Obj>, start: bool)
    requires Stop(es, start) < |es|
    ensures CutsHere(es[Stop(es, start)..], start && Stop(es, start) == 0)
    decreases |es|
  {
    hide CutsHere, Width;
    if CutsHere(es, start) {
      assert es[0..] == es;
    } else {
      var rest := es[Width(es)..];
      StopCuts(rest, false);
      assert rest[Stop(rest, false)..] == es[Width(es) + Stop(rest, false)..];
    }
  }

  lemma SegmentsUnfold(es: seq<Ltrf.Obj>, start: bool, closed: bool)
    ensures var k := Stop(es, start); var piece := Spaced(es[..k]);
            Segments(es, start, closed) ==
            if k == |es| then (if closed then Section(piece) else piece)
            else if IsBlock(es[k]) then
              Section(piece) + [es[k]] + Segments(es[k + 1..], false, closed || piece != [])
            else
              Section(piece) + Segments(es[k + RunLength(es[k..]) - 1..], false, closed || piece != [])
  {
    hide IsBlock, Spaced, Stop, Section, Block, RunLength, Newlines;
  }

  lemma StrippedUnfolds(es: seq<Ltrf.Obj>)
    ensures Stripped(es) ==
            if es == [] then []
            else if IsBlank(es[0]) then Stripped(es[1..])
            else if IsBlank(es[|es| - 1]) then Stripped(es[..|es| - 1])
            else es
  {
  }

  lemma {:induction false} StrippedIsSlice(es: seq<Ltrf.Obj>) returns (a: nat, b: nat)
    ensures a <= b <= |es| && Stripped(es) == es[a..b]
    ensures forall k :: 0 <= k < a || b <= k < |es| ==> IsBlank(es[k])
    ensures Stripped(es) != [] ==> !IsBlank(Stripped(es)[0]) && !IsBlank(Stripped(es)[|Stripped(es)| - 1])
    decreases |es|
  {
    hide IsBlank, Stripped;
    a, b := 0, |es|;
    StrippedUnfolds(es);
    if es == [] {
    } else if IsBlank(es[0]) {
      var a', b' := StrippedIsSlice(es[1..]);
      a, b := a' + 1, b' + 1;
      assert es[1..][a'..b'] == es[a..b];
      assert forall k :: 1 <= k < |es| ==> es[k] == es[1..][k - 1];
    } else if IsBlank(es[|es| - 1]) {
      a, b := StrippedIsSlice(es[..|es| - 1]);
      assert es[..|es| - 1][a..b] == es[a..b];
    } else {
      assert es[0..|es|] == es;
    }
  }

  /** There is only one way to cut the whitespace off both ends. */
  lemma OnlyOneSlice(es: seq<Ltrf.Obj>, a: nat, b: nat, a': nat, b': nat)
    requires a <= b <= |es| && a' <= b' <= |es|
    requires forall k :: 0 <= k < a || b <= k < |es| ==> IsBlank(es[k])
    requires forall k :: 0 <= k < a' || b' <= k < |es| ==> IsBlank(es[k])
    requires a < b ==> !IsBlank(es[a]) && !IsBlank(es[b - 1])
    requires a' < b' ==> !IsBlank(es[a']) && !IsBlank(es[b' - 1])
    ensures es[a..b] == es[a'..b']
  {
    hide IsBlank;
  }

  lemma TrimIsStripped(es: seq<Ltrf.Obj>)
    ensures Trim(es) == Stripped(es)
  {
    hide IsBlank, Trim, Stripped;
    var a, b := TrimIsSlice(es);
    var a', b' := StrippedIsSlice(es);
    assert a < b ==> Trim(es)[0] == es[a] && Trim(es)[|Trim(es)| - 1] == es[b - 1];
    assert a' < b' ==> Stripped(es)[0] == es[a'] && Stripped(es)[|Stripped(es)| - 1] == es[b' - 1];
    OnlyOneSlice(es, a, b, a', b');
  }

  lemma ParaIsSection(piece: seq<Ltrf.Obj>)
    ensures TrimParas(ParaOf(piece)) == Section(piece)
  {
    hide Trim, Stripped;
    TrimIsStripped(piece);
    TrimParasNone();
    if piece != [] {
      TrimParasHead(MakePara(piece), []);
      assert [MakePara(piece)] + [] == ParaOf(piece);
      MadePara(piece);
    } else {
      NothingStripped();
    }
  }

  lemma MadePara(piece: seq<Ltrf.Obj>)
    ensures MakePara(piece) == Node("__p", map["isBlock" := VBool(true)], piece) && IsPara(MakePara(piece))
  {
  }

  lemma NothingStripped()
    ensures Stripped([]) == []
  {
  }

  lemma NoParasStay(es: seq<Ltrf.Obj>)
    requires NoParasIn(es)
    ensures TrimParas(es) == es
  {
  }

  /** A stretch of a list holds no paragraph if the list holds none. */
  lemma {:induction false} SpacedHasNoParas(es: seq<Ltrf.Obj>)
    requires NoParasIn(es)
    ensures NoParasIn(Spaced(es))
    decreases |es|
  {
    hide IsPara;
    if es != [] {
      StringIsNoPara(Str(" "));
      SpacedHasNoParas(if Newlines(es) == 0 then es[1..] else es[Newlines(es)..]);
    }
  }

  lemma StringIsNoPara(o: Ltrf.Obj)
    requires o.Str?
    ensures !IsPara(o)
  {
  }

  /** Linebreaks and then paragraphs, on one list: the declarative cut. */
  lemma {:induction false} PiecesAreSegments(es: seq<Ltrf.Obj>, start: bool, closed: bool)
    requires NoMarkersIn(es) && NoParasIn(es)
    ensures TrimParas(Pieces(BreakRuns(es, start), closed)) == Segments(es, start, closed)
    decreases |es|
  {
    hide IsBlock, IsBreakMarker, IsPara, Spaced, Stop, BreakRuns, Pieces, ParaOf, RunLength, Segments, NoSeparators,
         TrimParas, Section;
    var k := Stop(es, start);
    var piece := Spaced(es[..k]);
    var closes := closed || piece != [];
    BreakRunsToStop(es, start);
    NoneBeforeStop(es, start);
    if k < |es| {
      StopCuts(es, start);
    }
    SegmentsUnfold(es, start, closed);
    ParaIsSection(piece);
    if k == |es| {
      LastPiece(es[k..], start && k == 0, piece, closed);
      SpacedHasNoParas(es[..k]);
      NoParasStay(piece);
    } else if IsBlock(es[k]) {
      BlockThenMore(es, k, start && k == 0, piece, closed);
      PiecesAreSegments(es[k + 1..], false, closes);
      var more := Pieces(BreakRuns(es[k + 1..], false), closes);
      TrimParasConcat(ParaOf(piece) + [es[k]], more);
      TrimParasConcat(ParaOf(piece), [es[k]]);
      NoParasStay([es[k]]);
    } else {
      RunThenMore(es, k, piece, closed);
      PiecesAreSegments(es[k + RunLength(es[k..]) - 1..], false, closes);
      TrimParasConcat(ParaOf(piece), Pieces(BreakRuns(es[k + RunLength(es[k..]) - 1..], false), closes));
    }
  }

  lemma BlockThenMore(es: seq<Ltrf.Obj>, k: nat, start: bool, piece: seq<Ltrf.Obj>, closed: bool)
    requires NoSeparators(piece) && k < |es| && IsBlock(es[k]) && !IsBreakMarker(es[k])
    ensures Pieces(piece + BreakRuns(es[k..], start), closed) ==
            ParaOf(piece) + [es[k]] + Pieces(BreakRuns(es[k + 1..], false), closed || piece != [])
  {
    hide IsBlock, IsBreakMarker, BreakRuns, Pieces, ParaOf;
    BlockPiece(es[k..], start, piece, closed);
    assert es[k..][1..] == es[k + 1..];
  }

  lemma RunThenMore(es: seq<Ltrf.Obj>, k: nat, piece: seq<Ltrf.Obj>, closed: bool)
    requires NoSeparators(piece) && k < |es| && RunLength(es[k..]) >= 2
    ensures Pieces(piece + BreakRuns(es[k..], false), closed) ==
            ParaOf(piece) + Pieces(BreakRuns(es[k + RunLength(es[k..]) - 1..], false), closed || piece != [])
  {
    hide BreakRuns, Pieces, ParaOf;
    RunPiece(es[k..], piece, closed);
    assert es[k..][RunLength(es[k..]) - 1..] == es[k + RunLength(es[k..]) - 1..];
  }

  lemma LastPiece(es: seq<Ltrf.Obj>, start: bool, piece: seq<Ltrf.Obj>, closed: bool)
    requires NoSeparators(piece) && es == []
    ensures Pieces(piece + BreakRuns(es, start), closed) == if closed then ParaOf(piece) else piece
  {
    hide IsSeparator;
    assert piece + BreakRuns(es, start) == piece + [] == piece;
    CutSkips(piece, []);
  }

  lemma BlockPiece(es: seq<Ltrf.Obj>, start: bool, piece: seq<Ltrf.Obj>, closed: bool)
    requires NoSeparators(piece) && es != [] && IsBlock(es[0]) && !IsBreakMarker(es[0])
    ensures Pieces(piece + BreakRuns(es, start), closed) ==
            ParaOf(piece) + [es[0]] + Pieces(BreakRuns(es[1..], false), closed || piece != [])
  {
    hide IsSeparator, Pieces;
    var broken := BreakRuns(es, start);
    assert broken == [es[0]] + BreakRuns(es[1..], false) by {
      if RunLength(es) > 0 {
        RunStops(es);
      }
    }
    assert broken[1..] == BreakRuns(es[1..], false);
    assert IsSeparator(es[0]) by {
      SeparatorIf(es[0]);
    }
    PiecesAtSeparator(piece, broken, closed);
  }

  lemma SeparatorIf(o: Ltrf.Obj)
    ensures IsSeparator(o) <==> IsBreakMarker(o) || IsBlock(o)
  {
  }

  /** A long run that does not start the node: a marker, and then its last newline. */
  lemma LongRunBreaks(es: seq<Ltrf.Obj>)
    requires RunLength(es) >= 2
    ensures BreakRuns(es, false) == [BREAK_MARKER] + BreakRuns(es[RunLength(es) - 1..], false)
  {
    hide BREAK_MARKER, SPACE, RunLength, BreakRuns;
    var run := RunLength(es);
    var rest := es[run - 1..];
    assert rest[1..] == es[run..];
    RunEnds(es);
    RunBreaks(es, false);
    RunBreaks(rest, false);
    assert [BREAK_MARKER] + ([SPACE] + BreakRuns(es[run..], false)) ==
           [BREAK_MARKER] + [SPACE] + BreakRuns(es[run..], false);
  }

  lemma RunBreaks(es: seq<Ltrf.Obj>, leading: bool)
    requires RunLength(es) > 0
    ensures BreakRuns(es, leading) ==
            (if RunLength(es) >= 2 && !leading then [BREAK_MARKER] else []) + [SPACE] +
            BreakRuns(es[RunLength(es)..], false)
  {
    hide BREAK_MARKER, SPACE, RunLength;
  }

  lemma RunPiece(es: seq<Ltrf.Obj>, piece: seq<Ltrf.Obj>, closed: bool)
    requires NoSeparators(piece) && RunLength(es) >= 2
    ensures Pieces(piece + BreakRuns(es, false), closed) ==
            ParaOf(piece) + Pieces(BreakRuns(es[RunLength(es) - 1..], false), closed || piece != [])
  {
    hide IsSeparator, Pieces, BREAK_MARKER, RunLength, BreakRuns, ParaOf;
    LongRunBreaks(es);
    var broken, rest := BreakRuns(es, false), BreakRuns(es[RunLength(es) - 1..], false);
    assert broken[1..] == rest;
    NewlineIsNoSeparator();
    PiecesAtSeparator(piece, broken, closed);
    assert ParaOf(piece) + Kept(BREAK_MARKER) == ParaOf(piece);
  }

  lemma LevelsFuse(es: seq<Ltrf.Obj>)
    requires NoMarkersIn(es) && NoParasIn(es)
    ensures ParaLevel(LineLevel(es)) == SegmentLevel(es)
  {
    hide IsBreakMarker, IsPara, IsBlock, BreakRuns, Segments;
    if |es| <= 1 {
      AloneIsLeft(es);
      AlonePieces(es);
    } else {
      SeveralAreBroken(es);
      PiecesAreSegments(es, true, false);
    }
  }

  lemma AlonePieces(es: seq<Ltrf.Obj>)
    requires |es| <= 1 && NoMarkersIn(es) && NoParasIn(es)
    ensures ParaLevel(es) == es
  {
    if es == [] {
      assert Pieces(es, false) == [];
    } else {
      SeparatorIf(es[0]);
      assert es == [es[0]];
      assert es[1..] == [];
      assert Pieces([], false) == [];
      assert Pieces(es, false) == es;
      assert TrimParas(es[1..]) == [];
    }
  }

  /** The same string, or a node in the place of a node. */
  predicate Rewritten(o: Ltrf.Obj, o': Ltrf.Obj) {
    if o.Node? then o'.Node? && o'.tag == o.tag && o'.kv == o.kv else o' == o
  }

  ghost predicate Rewrites(f: Ltrf.Obj -> Ltrf.Obj) {
    forall o :: Rewritten(o, f(o))
  }

  function MapAll(f: Ltrf.Obj -> Ltrf.Obj, es: seq<Ltrf.Obj>): (r: seq<Ltrf.Obj>)
    ensures |r| == |es| && forall k :: 0 <= k < |es| ==> r[k] == f(es[k])
  {
    seq(|es|, k requires 0 <= k < |es| => f(es[k]))
  }

  function RemOne(o: Ltrf.Obj): Ltrf.Obj { if o.Node? then RemWhitespace(o) else o }

  function BreakOne(o: Ltrf.Obj): Ltrf.Obj { if o.Node? then WithBreaks(o) else o }

  function ParaOne(o: Ltrf.Obj): Ltrf.Obj { if o.Node? then WithParas(o) else o }

  /** Dropping whitespace strings does not look into nodes, so the nodes may be
      rewritten before or after. */
  lemma {:induction false} VisibleCommutes(f: Ltrf.Obj -> Ltrf.Obj, es: seq<Ltrf.Obj>)
    requires Rewrites(f)
    ensures Visible(MapAll(f, es)) == MapAll(f, Visible(es))
  {
    hide IsDropped;
    if es != [] {
      VisibleCommutes(f, es[1..]);
      assert MapAll(f, es)[1..] == MapAll(f, es[1..]);
      assert Rewritten(es[0], f(es[0]));
      SameDropped(es[0], f(es[0]));
      var rest := Visible(es[1..]);
      assert MapAll(f, [es[0]] + rest) == [f(es[0])] + MapAll(f, rest);
      assert [] + rest == rest;
    }
  }

  lemma SameDropped(o: Ltrf.Obj, o': Ltrf.Obj)
    requires Rewritten(o, o')
    ensures IsDropped(o) <==> IsDropped(o')
    ensures IsNewline(o) <==> IsNewline(o')
  {
  }

  lemma {:induction false} SameRun(f: Ltrf.Obj -> Ltrf.Obj, es: seq<Ltrf.Obj>)
    requires Rewrites(f)
    ensures RunLength(MapAll(f, es)) == RunLength(es)
  {
    hide IsNewline;
    if es != [] {
      SameRun(f, es[1..]);
      assert MapAll(f, es)[1..] == MapAll(f, es[1..]);
      assert Rewritten(es[0], f(es[0]));
      SameDropped(es[0], f(es[0]));
    }
  }

  lemma MapAllConcat(f: Ltrf.Obj -> Ltrf.Obj, a: seq<Ltrf.Obj>, b: seq<Ltrf.Obj>)
    ensures MapAll(f, a + b) == MapAll(f, a) + MapAll(f, b)
  {
  }

  /** Nor do line breaks. */
  lemma {:induction false} BreakRunsCommute(f: Ltrf.Obj -> Ltrf.Obj, es: seq<Ltrf.Obj>, leading: bool)
    requires Rewrites(f) && f(BREAK_MARKER) == BREAK_MARKER
    ensures BreakRuns(MapAll(f, es), leading) == MapAll(f, BreakRuns(es, leading))
    decreases |es|
  {
    hide IsNewline, BREAK_MARKER, SPACE, RunLength;
    if es != [] {
      var k := RunLength(es);
      var m := if k == 0 then 1 else k;
      var head := if k == 0 then [es[0]] else (if k >= 2 && !leading then [BREAK_MARKER] else []) + [SPACE];
      SameRun(f, es);
      BreakRunsCommute(f, es[m..], false);
      assert MapAll(f, es)[m..] == MapAll(f, es[m..]);
      MapAllConcat(f, head, BreakRuns(es[m..], false));
      if k > 0 {
        MarksStay(f, head);
      }
    }
  }

  lemma MarksStay(f: Ltrf.Obj -> Ltrf.Obj, marks: seq<Ltrf.Obj>)
    requires Rewrites(f) && f(BREAK_MARKER) == BREAK_MARKER
    requires forall k :: 0 <= k < |marks| ==> marks[k] == BREAK_MARKER || marks[k] == SPACE
    ensures MapAll(f, marks) == marks
  {
    hide BREAK_MARKER, SPACE;
    SpaceStays(f);
  }

  lemma SpaceStays(f: Ltrf.Obj -> Ltrf.Obj)
    requires Rewrites(f)
    ensures f(SPACE) == SPACE
  {
    assert Rewritten(SPACE, f(SPACE));
  }

  lemma LineLevelCommutes(f: Ltrf.Obj -> Ltrf.Obj, es: seq<Ltrf.Obj>)
    requires Rewrites(f) && f(BREAK_MARKER) == BREAK_MARKER
    ensures LineLevel(MapAll(f, es)) == MapAll(f, LineLevel(es))
  {
    hide BREAK_MARKER, BreakRuns;
    BreakRunsCommute(f, es, true);
  }

  lemma DroppedExactly(o: Ltrf.Obj)
    ensures IsDropped(o) <==> o.Str? && o.s != "\n" && IsWhitespace(o.s)
  {
  }

  lemma {:induction false} RemIsVisible(es: seq<Ltrf.Obj>)
    ensures RemElems(es) == Visible(MapAll(RemOne, es))
  {
    hide IsDropped;
    if es != [] {
      DroppedExactly(RemOne(es[0]));
      RemIsVisible(es[1..]);
      assert MapAll(RemOne, es)[1..] == MapAll(RemOne, es[1..]);
      NodesStay(es[0]);
    }
  }

  lemma NodesStay(o: Ltrf.Obj)
    ensures o.Node? ==> !IsDropped(o) && !IsDropped(RemWhitespace(o))
  {
  }

  lemma PassesRewrite()
    ensures Rewrites(RemOne) && Rewrites(BreakOne) && Rewrites(ParaOne)
    ensures BreakOne(BREAK_MARKER) == BREAK_MARKER && ParaOne(BREAK_MARKER) == BREAK_MARKER
  {
    assert WithBreaksAll([]) == [] && WithParasAll([]) == [];
    assert ParaLevel([]) == [];
  }

  /** On a tree without paragraphs and break markers, the three passes together
      are the declarative segmentation of every list of children. */
  lemma {:induction false} PassesSegment(n: Ltrf.Obj)
    requires n.Node? && Fresh(n)
    ensures WithParas(WithBreaks(RemWhitespace(n))) == Segment(n)
    decreases n
  {
    hide ParaLevel, LineLevel, Visible, SegmentLevel, RemElems, IsPara, IsBreakMarker, BREAK_MARKER;
    var es := n.elems;
    var f, g, h := MapAll(RemOne, es), MapAll(BreakOne, MapAll(RemOne, es)),
                   MapAll(ParaOne, MapAll(BreakOne, MapAll(RemOne, es)));
    PassesRewrite();
    RemIsVisible(es);
    var visible := Visible(f);
    assert WithBreaksAll(visible) == MapAll(BreakOne, visible);
    VisibleCommutes(BreakOne, f);
    var broken := LineLevel(Visible(g));
    assert WithParasAll(broken) == MapAll(ParaOne, broken);
    LineLevelCommutes(ParaOne, Visible(g));
    VisibleCommutes(ParaOne, g);
    assert h == SegmentAll(es) by {
      forall k | 0 <= k < |es|
        ensures h[k] == if es[k].Node? then Segment(es[k]) else es[k]
      {
        if es[k].Node? {
          PassesSegment(es[k]);
        }
      }
    }
    StillFresh(es);
    LevelsFuse(Visible(SegmentAll(es)));
  }

  lemma StillFresh(es: seq<Ltrf.Obj>)
    requires NoMarkersIn(es) && NoParasIn(es)
    ensures NoMarkersIn(Visible(SegmentAll(es))) && NoParasIn(Visible(SegmentAll(es)))
  {
    var all := SegmentAll(es);
    VisibleIsSome(all);
    assert NoMarkersIn(all) && NoParasIn(all);
  }

  lemma {:induction false} VisibleIsSome(es: seq<Ltrf.Obj>)
    ensures forall o :: o in Visible(es) ==> o in es
  {
    hide IsDropped;
    if es != [] {
      VisibleIsSome(es[1..]);
    }
  }
}
