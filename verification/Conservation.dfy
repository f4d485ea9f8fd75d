/** Nothing visible is lost, duplicated, reordered or moved by the passes. */
module Conservation {
  import opened Ltrf
  import opened RemoveWhitespace
  import opened Linebreaks
  import opened Paragraphs
  import opened Process

  /** A tree without its whitespace strings and break markers, and with the
      contents of paragraphs in the place of the paragraphs, at every depth. */
  function Erase(o: Ltrf.Obj): seq<Ltrf.Obj>
    decreases o, 1
  {
    if o.Str? then (if IsWhitespace(o.s) then [] else [o])
    else if IsBreakMarker(o) then []
    else if IsPara(o) then EraseAll(o.elems)
    else [o.(elems := EraseAll(o.elems))]
  }

  function EraseAll(es: seq<Ltrf.Obj>): seq<Ltrf.Obj>
    decreases es
  {
    if es == [] then [] else Erase(es[0]) + EraseAll(es[1..])
  }

  lemma {:induction false} EraseConcat(a: seq<Ltrf.Obj>, b: seq<Ltrf.Obj>)
    ensures EraseAll(a + b) == EraseAll(a) + EraseAll(b)
  {
    hide Erase;
    if a == [] {
      assert a + b == b;
    } else {
      assert (a + b)[1..] == a[1..] + b;
      EraseConcat(a[1..], b);
    }
  }

  lemma EraseOne(o: Ltrf.Obj)
    ensures EraseAll([o]) == Erase(o)
  {
    hide Erase;
    assert EraseAll([]) == [];
  }

  /** Two lists that erase alike, child by child, erase alike. */
  lemma {:induction false} EraseSame(a: seq<Ltrf.Obj>, b: seq<Ltrf.Obj>)
    requires |a| == |b| && forall k :: 0 <= k < |a| ==> Erase(a[k]) == Erase(b[k])
    ensures EraseAll(a) == EraseAll(b)
  {
    hide Erase;
    if a != [] {
      EraseSame(a[1..], b[1..]);
    }
  }

  /** Rewriting the children of a node changes its erasure only through them. */
  lemma EraseNode(a: Ltrf.Obj, b: Ltrf.Obj)
    requires a.Node? && b.Node? && a.tag == b.tag && a.kv == b.kv && EraseAll(a.elems) == EraseAll(b.elems)
    ensures Erase(a) == Erase(b)
  {
  }

  lemma {:induction false} RemKeeps(es: seq<Ltrf.Obj>)
    ensures EraseAll(RemElems(es)) == EraseAll(es)
    decreases es
  {
    hide Erase, IsWhitespace;
    if es != [] {
      var o := es[0];
      RemElemKeeps(o);
      RemKeeps(es[1..]);
      EraseConcat(RemElem(o), RemElems(es[1..]));
    }
  }

  lemma {:induction false} RemElemKeeps(o: Ltrf.Obj)
    ensures EraseAll(RemElem(o)) == Erase(o)
    decreases o, 1
  {
    if IsDropped(o) {
      assert Erase(o) == [];
    } else if o.Node? {
      RemKeeps(o.elems);
      EraseNode(RemWhitespace(o), o);
      EraseOne(RemWhitespace(o));
    } else {
      EraseOne(o);
    }
  }

  lemma BlanksVanish()
    ensures Erase(BREAK_MARKER) == [] && Erase(SPACE) == [] && Erase(NEWLINE) == []
  {
    SpaceIsWhitespace();
  }

  lemma {:induction false} RunVanishes(es: seq<Ltrf.Obj>, k: nat)
    requires k <= |es| && forall i :: 0 <= i < k ==> IsNewline(es[i])
    ensures EraseAll(es[..k]) == []
  {
    hide Erase;
    BlanksVanish();
    if k > 0 {
      assert es[..k][1..] == es[1..][..k - 1];
      RunVanishes(es[1..], k - 1);
    }
  }

  lemma {:induction false} BreakRunsKeep(es: seq<Ltrf.Obj>, leading: bool)
    ensures EraseAll(BreakRuns(es, leading)) == EraseAll(es)
    decreases |es|
  {
    hide Erase, BREAK_MARKER, SPACE, IsNewline;
    if es != [] {
      var k := RunLength(es);
      if k == 0 {
        BreakRunsKeep(es[1..], false);
        assert ([es[0]] + BreakRuns(es[1..], false))[1..] == BreakRuns(es[1..], false);
      } else {
        RunVanishes(es, k);
        EraseConcat(es[..k], es[k..]);
        assert es[..k] + es[k..] == es;
        BreakRunsKeep(es[k..], false);
        var marks := if k >= 2 && !leading then [BREAK_MARKER] else [];
        MarksVanish(marks);
        EraseConcat(marks + [SPACE], BreakRuns(es[k..], false));
      }
    }
  }

  lemma MarksVanish(marks: seq<Ltrf.Obj>)
    requires marks == [] || marks == [BREAK_MARKER]
    ensures EraseAll(marks + [SPACE]) == []
  {
    hide Erase, BREAK_MARKER, SPACE;
    BlanksVanish();
    EraseOne(BREAK_MARKER);
    EraseOne(SPACE);
    EraseConcat(marks, [SPACE]);
  }

  lemma {:induction false} LinesKeep(n: Ltrf.Obj)
    requires n.Node?
    ensures EraseAll(WithBreaks(n).elems) == EraseAll(n.elems)
    decreases n
  {
    hide Erase, BreakRuns;
    var mapped := WithBreaksAll(n.elems);
    forall k | 0 <= k < |mapped|
      ensures Erase(mapped[k]) == Erase(n.elems[k])
    {
      if n.elems[k].Node? {
        LinesKeep(n.elems[k]);
        EraseNode(mapped[k], n.elems[k]);
      }
    }
    EraseSame(mapped, n.elems);
    BreakRunsKeep(mapped, true);
  }

  lemma EraseThree(a: seq<Ltrf.Obj>, b: seq<Ltrf.Obj>, c: seq<Ltrf.Obj>)
    ensures EraseAll(a + b + c) == EraseAll(a) + EraseAll(b) + EraseAll(c)
  {
    hide EraseAll;
    EraseConcat(a + b, c);
    EraseConcat(a, b);
  }

  lemma ParaOfKeeps(es: seq<Ltrf.Obj>)
    ensures EraseAll(ParaOf(es)) == EraseAll(es)
  {
    if es != [] {
      EraseOne(MakePara(es));
      assert Erase(MakePara(es)) == EraseAll(es);
    }
  }

  lemma {:induction false} PiecesKeep(es: seq<Ltrf.Obj>, closed: bool)
    ensures EraseAll(Pieces(es, closed)) == EraseAll(es)
    decreases |es|
  {
    hide Erase, EraseAll, Cut, ParaOf, Kept;
    var k := Cut(es);
    if k == |es| {
      ParaOfKeeps(es);
    } else {
      var rest := Pieces(es[k + 1..], closed || k > 0);
      PiecesKeep(es[k + 1..], closed || k > 0);
      ParaOfKeeps(es[..k]);
      KeptKeeps(es[k]);
      EraseThree(ParaOf(es[..k]), Kept(es[k]), rest);
      assert es == es[..k] + [es[k]] + es[k + 1..];
      EraseThree(es[..k], [es[k]], es[k + 1..]);
      EraseOne(es[k]);
    }
  }

  lemma KeptKeeps(o: Ltrf.Obj)
    ensures EraseAll(Kept(o)) == Erase(o)
  {
    EraseOne(o);
  }

  lemma {:induction false} BlanksEraseToNothing(es: seq<Ltrf.Obj>)
    requires forall k :: 0 <= k < |es| ==> IsBlank(es[k])
    ensures EraseAll(es) == []
  {
    hide Erase;
    if es != [] {
      BlanksEraseToNothing(es[1..]);
      BlankErases(es[0]);
    }
  }

  lemma BlankErases(o: Ltrf.Obj)
    requires IsBlank(o)
    ensures Erase(o) == []
  {
  }

  lemma TrimKeeps(es: seq<Ltrf.Obj>)
    ensures EraseAll(Trim(es)) == EraseAll(es)
  {
    hide IsBlank, EraseAll, TrimFront, TrimBack;
    var front := TrimFront(es);
    var back := TrimBack(front);
    EndsVanish(es, |es| - |front|, |es|);
    assert es[|es| - |front|..|es|] == front;
    EndsVanish(front, 0, |back|);
    assert front[0..|back|] == back;
  }

  lemma EndsVanish(es: seq<Ltrf.Obj>, a: nat, b: nat)
    requires a <= b <= |es|
    requires forall k :: 0 <= k < |es| && (k < a || b <= k) ==> IsBlank(es[k])
    ensures EraseAll(es[a..b]) == EraseAll(es)
  {
    hide IsBlank, EraseAll;
    assert es == es[..a] + es[a..b] + es[b..];
    EraseThree(es[..a], es[a..b], es[b..]);
    BlanksEraseToNothing(es[..a]);
    BlanksEraseToNothing(es[b..]);
  }

  lemma {:induction false} TrimParasKeep(es: seq<Ltrf.Obj>)
    ensures EraseAll(TrimParas(es)) == EraseAll(es)
    decreases |es|
  {
    hide Erase, IsNotEmptyPara, TrimPara;
    if es != [] {
      TrimParasKeep(es[1..]);
      TrimParaKeeps(es[0]);
      EraseConcat(TrimOne(es[0]), TrimParas(es[1..]));
    }
  }

  lemma TrimParaKeeps(o: Ltrf.Obj)
    ensures EraseAll(TrimOne(o)) == Erase(o)
  {
    hide Trim;
    if IsPara(o) {
      TrimKeeps(o.elems);
      EraseNode(TrimPara(o), o);
    }
    EraseOne(TrimPara(o));
  }

  lemma {:induction false} ParasKeep(n: Ltrf.Obj)
    requires n.Node?
    ensures EraseAll(WithParas(n).elems) == EraseAll(n.elems)
    decreases n
  {
    hide Erase, Pieces, TrimParas;
    var mapped := WithParasAll(n.elems);
    forall k | 0 <= k < |mapped|
      ensures Erase(mapped[k]) == Erase(n.elems[k])
    {
      if n.elems[k].Node? {
        ParasKeep(n.elems[k]);
        EraseNode(mapped[k], n.elems[k]);
      }
    }
    EraseSame(mapped, n.elems);
    PiecesKeep(mapped, false);
    TrimParasKeep(Pieces(mapped, false));
  }

  lemma {:induction false} DocsKeep(es: seq<Ltrf.Obj>)
    requires Complaints(es) == []
    ensures EraseAll(Docs(es)) == EraseAll(es)
  {
    if es != [] {
      DocsKeep(es[1..]);
      assert Complaint(es[0]) == [];
      var kept := if IsDoc(es[0]) then [es[0]] else [];
      assert EraseAll(kept) == Erase(es[0]) by {
        hide Erase, IsWhitespace;
        EraseOne(es[0]);
        if es[0].Str? {
          EraseBlank(es[0]);
        }
      }
      EraseConcat(kept, Docs(es[1..]));
    }
  }

  lemma EraseBlank(o: Ltrf.Obj)
    requires o.Str? && IsWhitespace(o.s)
    ensures Erase(o) == []
  {
  }

  /** Whenever the middle pass does not throw, the tree it returns is the tree it
      was given, up to whitespace, break markers and paragraph wrappers. */
  lemma PipelineConserves(root: Ltrf.Obj)
    requires root.Node?
    ensures var r := ApplyAll(PROCESSING_PASSES, root);
            r.Success? ==>
              && r.value.tag == root.tag && r.value.kv == root.kv
              && EraseAll(r.value.elems) == EraseAll(root.elems)
  {
    hide RemWhitespace, WithBreaks, WithParas, Complaints, Docs, Throws;
    PipelineUnfolds(root);
    var kept := ProcessRoot(root);
    if kept.Success? {
      DocsKeep(root.elems);
      var clean := RemWhitespace(kept.value);
      RemKeepsNode(kept.value);
      LinesKeep(clean);
      ParasKeep(WithBreaks(clean));
    }
  }

  lemma RemKeepsNode(n: Ltrf.Obj)
    requires n.Node?
    ensures EraseAll(RemWhitespace(n).elems) == EraseAll(n.elems)
  {
    hide RemElems;
    RemKeeps(n.elems);
  }
}
