/** What the paragraph pass makes of a paragraph that was there before, read off the
    tree it is given. */
module InlineParagraphs {
  import opened Ltrf
  import opened Paragraphs
  import opened ChildWise
  import opened Shape
  import opened Wrapping

  /** Something that is not whitespace is left of the node: a child other than a
      paragraph, a paragraph that is put into another one, or one of which
      something is left. */
  predicate Leaves(c: Ltrf.Obj)
    decreases c
  {
    c.Node? &&
    exists k :: 0 <= k < |c.elems| && !IsBreakMarker(c.elems[k]) && !IsBlank(c.elems[k]) &&
                (IsPara(c.elems[k]) ==> Wrapped(c.elems, k, false) || Leaves(c.elems[k]))
  }

  /** The child is whitespace, or a paragraph that trimming empties. */
  predicate Hollow(o: Ltrf.Obj) {
    IsBlank(o) || (IsPara(o) && Trim(o.elems) == [])
  }

  lemma TrimEmpty(es: seq<Ltrf.Obj>)
    ensures Trim(es) == [] <==> All(IsBlank, es)
  {
    hide IsBlank, Trim;
    var a, b := TrimIsSlice(es);
    if Trim(es) != [] {
      assert Trim(es)[0] == es[a];
    }
  }

  lemma HollowPara(es: seq<Ltrf.Obj>)
    ensures Hollow(MakePara(es)) <==> All(IsBlank, es)
  {
    hide Trim, All;
    TrimEmpty(es);
  }

  lemma HollowTrim(o: Ltrf.Obj)
    ensures All(IsBlank, TrimOne(o)) <==> Hollow(o)
  {
    hide Trim;
    AllOne(IsBlank, TrimPara(o));
  }

  lemma HollowFits()
    ensures ParaHas(IsBlank, Hollow) && TrimHas(Hollow, IsBlank)
  {
    hide IsBlank, Hollow, MakePara, TrimOne;
    forall es: seq<Ltrf.Obj> | es != []
      ensures Hollow(MakePara(es)) <==> All(IsBlank, es)
    {
      HollowPara(es);
    }
    forall o
      ensures All(IsBlank, TrimOne(o)) <==> Hollow(o)
    {
      HollowTrim(o);
    }
  }

  lemma {:induction false} LeavesExactly(c: Ltrf.Obj)
    requires c.Node?
    ensures Leaves(c) <==> !All(IsBlank, WithParas(c).elems)
    decreases c
  {
    hide Trim, TrimParas, Pieces, Wrapped, IsPara, IsBreakMarker, IsWhitespace;
    var es := c.elems;
    var mapped := WithParasAll(es);
    HollowFits();
    ParaLevelFits(IsBlank, Hollow, IsBlank, mapped);
    forall k | 0 <= k < |es|
      ensures FitsAt(IsBlank, Hollow, mapped, k, false) <==>
              !(!IsBreakMarker(es[k]) && !IsBlank(es[k]) &&
                (IsPara(es[k]) ==> Wrapped(es, k, false) || Leaves(es[k])))
    {
      SameWrapped(es, k);
      StringsAre(es[k]);
      if es[k].Node? {
        LeavesExactly(es[k]);
        SameKind(es[k], mapped[k]);
        TrimEmpty(mapped[k].elems);
      }
    }
  }

  lemma StringsAre(o: Ltrf.Obj)
    ensures o.Str? ==> !IsPara(o) && !IsBreakMarker(o)
  {
  }

  /** In a list that is not cut: something of the child is left, and not whitespace. */
  predicate Shown(es: seq<Ltrf.Obj>, k: nat)
    requires k < |es|
  {
    !IsBreakMarker(es[k]) && !IsBlank(es[k]) && (IsPara(es[k]) ==> Leaves(es[k]))
  }

  predicate ShownBefore(es: seq<Ltrf.Obj>, k: nat)
    requires k <= |es|
  {
    exists i :: 0 <= i < k && Shown(es, i)
  }

  predicate ShownAfter(es: seq<Ltrf.Obj>, k: nat) {
    exists i :: k < i < |es| && Shown(es, i)
  }

  /** Something is left of the node, and either it is cut into paragraphs or every
      whitespace string in it has something that is left on both sides. */
  predicate ComesOutFinished(c: Ltrf.Obj)
    requires c.Node?
  {
    && Leaves(c)
    && (ClosedBefore(c.elems, |c.elems|) ||
        forall k :: 0 <= k < |c.elems| && IsBlank(c.elems[k]) ==> ShownBefore(c.elems, k) && ShownAfter(c.elems, k))
  }

  lemma BlocksConcat(a: seq<Ltrf.Obj>, b: seq<Ltrf.Obj>, c: seq<Ltrf.Obj>)
    requires AllBlocks(a) && AllBlocks(b) && AllBlocks(c)
    ensures AllBlocks(a + b + c)
  {
    hide IsBlock;
  }

  lemma NothingClosed(es: seq<Ltrf.Obj>)
    requires Cut(es) == |es|
    ensures !ClosedBefore(es, |es|)
  {
    hide IsSeparator;
  }

  /** Once a piece is closed, only blocks are left. */
  lemma {:induction false} CutIntoBlocks(es: seq<Ltrf.Obj>, closed: bool)
    requires closed || ClosedBefore(es, |es|)
    ensures AllBlocks(Pieces(es, closed))
    decreases |es|
  {
    hide AllBlocks, ClosedBefore, Cut, IsSeparator, ParaOf, Kept;
    var k := Cut(es);
    ClosedOrder(es[..k]);
    if k < |es| {
      KeptOrder(es[k]);
      if k == 0 {
        ClosedLater(es, |es| - 1);
      }
      var rest := es[k + 1..];
      CutIntoBlocks(rest, closed || k > 0);
      BlocksConcat(ParaOf(es[..k]), Kept(es[k]), Pieces(rest, closed || k > 0));
    } else {
      assert es[..k] == es;
      NothingClosed(es);
    }
  }

  function Unmarked(es: seq<Ltrf.Obj>): seq<Ltrf.Obj> {
    if es == [] then [] else Kept(es[0]) + Unmarked(es[1..])
  }

  /** If none is, only the markers go. */
  lemma {:induction false} NotCut(es: seq<Ltrf.Obj>)
    requires !ClosedBefore(es, |es|)
    ensures Pieces(es, false) == Unmarked(es)
    decreases |es|
  {
    hide IsSeparator, ParaOf, Kept;
    var k := Cut(es);
    if k < |es| {
      FirstCut(es);
      ClosedLater(es, |es| - 1);
      NotCut(es[1..]);
      assert es[..0] == [] && ParaOf([]) == [] by {
        NoPieces();
      }
      assert [] + Kept(es[0]) + Unmarked(es[1..]) == Kept(es[0]) + Unmarked(es[1..]);
    } else {
      InlineUnmarked(es);
    }
  }

  lemma FirstCut(es: seq<Ltrf.Obj>)
    requires Cut(es) < |es|
    ensures Cut(es) == 0 || ClosedBefore(es, |es|)
  {
    hide IsSeparator;
    if Cut(es) > 0 {
      ClosedByCut(es, |es|);
    }
  }

  lemma NoPieces()
    ensures ParaOf([]) == []
  {
  }

  lemma InlineUnmarked(es: seq<Ltrf.Obj>)
    requires forall k :: 0 <= k < |es| ==> !IsSeparator(es[k])
    ensures Unmarked(es) == es
  {
    hide IsBlock, IsBreakMarker;
    SeparatorsAre(es);
  }

  /** What is left of a list that is not cut. */
  function Left(es: seq<Ltrf.Obj>): seq<Ltrf.Obj> { TrimParas(Unmarked(es)) }

  function LeftOf(o: Ltrf.Obj): seq<Ltrf.Obj> {
    if IsBreakMarker(o) then [] else TrimOne(o)
  }

  /** Something of the processed child is left, and it is not whitespace. */
  predicate Firm(o: Ltrf.Obj) { !IsBreakMarker(o) && !Hollow(o) }

  lemma LeftOfIs(o: Ltrf.Obj)
    ensures LeftOf(o) == [] || (LeftOf(o) == [TrimPara(o)] && (IsBlank(TrimPara(o)) <==> !Firm(o)))
    ensures IsBlank(o) ==> LeftOf(o) == [o] && !Firm(o)
    ensures LeftOf(o) != [] ==> Firm(o) || IsBlank(o)
    ensures Firm(o) ==> LeftOf(o) != [] && !IsBlank(o)
  {
    hide Trim, IsWhitespace;
  }

  lemma {:induction false} UnmarkedConcat(a: seq<Ltrf.Obj>, b: seq<Ltrf.Obj>)
    ensures Unmarked(a + b) == Unmarked(a) + Unmarked(b)
  {
    hide Kept;
    if a == [] {
      assert a + b == b;
    } else {
      assert (a + b)[1..] == a[1..] + b;
      UnmarkedConcat(a[1..], b);
    }
  }

  lemma LeftConcat(a: seq<Ltrf.Obj>, b: seq<Ltrf.Obj>)
    ensures Left(a + b) == Left(a) + Left(b)
  {
    UnmarkedConcat(a, b);
    TrimParasConcat(Unmarked(a), Unmarked(b));
  }

  lemma LeftOne(o: Ltrf.Obj)
    ensures Left([o]) == LeftOf(o)
  {
    hide TrimPara, IsNotEmptyPara;
    assert [o][1..] == [];
    assert Unmarked([]) == [] && Unmarked([o]) == Kept(o) + [];
    assert TrimParas([]) == [];
  }

  /** Every blank has a firm child before it. */
  predicate FirmFirst(es: seq<Ltrf.Obj>) {
    forall k :: 0 <= k < |es| && IsBlank(es[k]) ==> exists i :: 0 <= i < k && Firm(es[i])
  }

  /** Every blank has a firm child after it. */
  predicate FirmLast(es: seq<Ltrf.Obj>) {
    forall k :: 0 <= k < |es| && IsBlank(es[k]) ==> exists i :: k < i < |es| && Firm(es[i])
  }

  lemma LeftNothing()
    ensures Left([]) == []
  {
  }

  lemma FirmFirstLater(es: seq<Ltrf.Obj>)
    requires es != [] && !IsBlank(es[0]) && !Firm(es[0])
    ensures FirmFirst(es) <==> FirmFirst(es[1..])
  {
    hide IsBlank, Firm;
    var rest := es[1..];
    if FirmFirst(es) {
      forall k | 0 <= k < |rest| && IsBlank(rest[k])
        ensures exists i :: 0 <= i < k && Firm(rest[i])
      {
        assert IsBlank(es[k + 1]);
        var i :| 0 <= i < k + 1 && Firm(es[i]);
        assert Firm(rest[i - 1]);
      }
    }
    if FirmFirst(rest) {
      forall k | 0 <= k < |es| && IsBlank(es[k])
        ensures exists i :: 0 <= i < k && Firm(es[i])
      {
        assert IsBlank(rest[k - 1]);
        var i :| 0 <= i < k - 1 && Firm(rest[i]);
        assert Firm(es[i + 1]);
      }
    }
  }

  lemma {:induction false} LeftBegins(es: seq<Ltrf.Obj>)
    ensures (Left(es) != [] ==> !IsBlank(Left(es)[0])) <==> FirmFirst(es)
    decreases |es|
  {
    hide Left, LeftOf, IsBlank, Firm;
    if es == [] {
      LeftNothing();
    } else {
      var o, rest := es[0], es[1..];
      assert es == [o] + rest;
      LeftConcat([o], rest);
      LeftOne(o);
      LeftOfIs(o);
      if LeftOf(o) == [] {
        LeftBegins(rest);
        FirmFirstLater(es);
      } else if Firm(o) {
        assert forall k :: 0 <= k < |es| && IsBlank(es[k]) ==> 0 < k && Firm(es[0]);
      }
    }
  }

  lemma FirmLastShorter(es: seq<Ltrf.Obj>)
    requires es != [] && !Firm(es[|es| - 1]) && FirmLast(es)
    ensures FirmLast(es[..|es| - 1])
  {
    hide IsBlank, Firm;
    var front := es[..|es| - 1];
    assert forall k :: 0 <= k < |front| ==> front[k] == es[k];
    forall k | 0 <= k < |front| && IsBlank(front[k])
      ensures exists i :: k < i < |front| && Firm(front[i])
    {
      var i := FirmAfter(es, k);
      assert i < |front| && Firm(front[i]);
    }
  }

  lemma FirmAfter(es: seq<Ltrf.Obj>, k: nat) returns (i: nat)
    requires FirmLast(es) && k < |es| && IsBlank(es[k])
    ensures k < i < |es| && Firm(es[i])
  {
    hide IsBlank, Firm;
    i :| k < i < |es| && Firm(es[i]);
  }

  lemma FirmLastLonger(es: seq<Ltrf.Obj>)
    requires es != [] && !IsBlank(es[|es| - 1]) && FirmLast(es[..|es| - 1])
    ensures FirmLast(es)
  {
    hide IsBlank, Firm;
    var front := es[..|es| - 1];
    forall k | 0 <= k < |es| && IsBlank(es[k])
      ensures exists i :: k < i < |es| && Firm(es[i])
    {
      assert IsBlank(front[k]);
      var i :| k < i < |front| && Firm(front[i]);
      assert Firm(es[i]);
    }
  }

  lemma {:induction false} LeftEnds(es: seq<Ltrf.Obj>)
    ensures (Left(es) != [] ==> !IsBlank(Left(es)[|Left(es)| - 1])) <==> FirmLast(es)
    decreases |es|
  {
    hide Left, LeftOf, IsBlank, Firm;
    if es == [] {
      LeftNothing();
    } else {
      var front, o := es[..|es| - 1], es[|es| - 1];
      assert es == front + [o];
      LeftConcat(front, [o]);
      LeftOne(o);
      LeftOfIs(o);
      if LeftOf(o) == [] {
        LeftEnds(front);
        if FirmLast(es) {
          FirmLastShorter(es);
        }
        if FirmLast(front) {
          FirmLastLonger(es);
        }
      } else if Firm(o) {
        assert forall k :: 0 <= k < |es| && IsBlank(es[k]) ==> k < |es| - 1 && Firm(es[|es| - 1]);
      }
    }
  }

  /** Firm after processing is shown before it. */
  lemma FirmIsShown(es: seq<Ltrf.Obj>, k: nat)
    requires k < |es|
    ensures Firm(WithParasAll(es)[k]) <==> Shown(es, k)
    ensures IsBlank(WithParasAll(es)[k]) <==> IsBlank(es[k])
  {
    hide Trim, Leaves, IsPara, IsBreakMarker, WithParas, IsWhitespace;
    StringsAre(es[k]);
    if es[k].Node? {
      var o := WithParas(es[k]);
      LeavesExactly(es[k]);
      SameKind(es[k], o);
      TrimEmpty(o.elems);
    }
  }

  lemma ShownExactly(es: seq<Ltrf.Obj>)
    ensures FirmFirst(WithParasAll(es)) && FirmLast(WithParasAll(es)) <==>
            forall k :: 0 <= k < |es| && IsBlank(es[k]) ==> ShownBefore(es, k) && ShownAfter(es, k)
  {
    hide IsBlank, Firm, Shown, WithParas;
    var mapped := WithParasAll(es);
    forall k | 0 <= k < |es|
      ensures (Firm(mapped[k]) <==> Shown(es, k)) && (IsBlank(mapped[k]) <==> IsBlank(es[k]))
    {
      FirmIsShown(es, k);
    }
    forall k | 0 <= k < |es|
      ensures ShownBefore(es, k) <==> exists i :: 0 <= i < k && Firm(mapped[i])
      ensures ShownAfter(es, k) <==> exists i :: k < i < |mapped| && Firm(mapped[i])
    {
      SameExists(es, mapped, k);
    }
  }

  lemma SameExists(es: seq<Ltrf.Obj>, mapped: seq<Ltrf.Obj>, k: nat)
    requires k < |es| == |mapped| && forall i :: 0 <= i < |es| ==> (Firm(mapped[i]) <==> Shown(es, i))
    ensures ShownBefore(es, k) <==> exists i :: 0 <= i < k && Firm(mapped[i])
    ensures ShownAfter(es, k) <==> exists i :: k < i < |mapped| && Firm(mapped[i])
  {
    hide Firm, Shown;
    if ShownBefore(es, k) {
      var i :| 0 <= i < k && Shown(es, i);
      assert Firm(mapped[i]);
    }
    if ShownAfter(es, k) {
      var i :| k < i < |es| && Shown(es, i);
      assert Firm(mapped[i]);
    }
  }

  lemma BlocksAreTrimmed(es: seq<Ltrf.Obj>)
    requires AllBlocks(es)
    ensures Trimmed(es) && (es != [] ==> !All(IsBlank, es))
  {
    if es != [] {
      assert IsBlock(es[0]) && IsBlock(es[|es| - 1]);
    }
  }

  lemma TrimmedIsFirm(es: seq<Ltrf.Obj>)
    ensures Trimmed(Left(es)) <==> FirmFirst(es) && FirmLast(es)
  {
    hide Left, FirmFirst, FirmLast, IsBlank;
    LeftBegins(es);
    LeftEnds(es);
  }

  /** Whether a paragraph comes out of its own processing not empty and with no
      whitespace string at an end can be read off what it is before. */
  lemma ComesOutFinishedExactly(c: Ltrf.Obj)
    requires c.Node? && IsPara(c)
    ensures Finished(WithParas(c)) <==> ComesOutFinished(c)
  {
    hide Leaves, FirmFirst, FirmLast, ShownBefore, ShownAfter, ClosedBefore, Pieces, TrimParas, Trimmed, All, Left,
         IsBlank;
    var mapped := WithParasAll(c.elems);
    var out := WithParas(c).elems;
    LeavesExactly(c);
    SameCuts(c.elems, |c.elems|);
    SameKind(c, WithParas(c));
    if ClosedBefore(c.elems, |c.elems|) {
      CutIntoBlocks(mapped, false);
      OnlyBlocks(Pieces(mapped, false));
      BlocksAreTrimmed(out);
      NoneBlank();
    } else {
      NotCut(mapped);
      LeftIs(mapped);
      TrimmedIsFirm(mapped);
      ShownExactly(c.elems);
      NoneBlank();
      TrimmedHasNoBlankEnd(out);
    }
  }

  lemma LeftIs(es: seq<Ltrf.Obj>)
    ensures Left(es) == TrimParas(Unmarked(es))
  {
  }

  lemma NoneBlank()
    ensures All(IsBlank, [])
  {
  }

  lemma TrimmedHasNoBlankEnd(es: seq<Ltrf.Obj>)
    ensures es != [] && Trimmed(es) ==> !All(IsBlank, es)
  {
    if es != [] {
      assert All(IsBlank, es) ==> IsBlank(es[0]);
    }
  }

  lemma OnlyBlocks(es: seq<Ltrf.Obj>)
    requires AllBlocks(es)
    ensures AllBlocks(TrimParas(es))
  {
    hide IsBlock, TrimPara;
    forall o | IsBlock(o)
      ensures IsBlock(TrimPara(o))
    {
      TrimKind(o);
    }
    TrimParasAll(IsBlock, es);
  }
}
