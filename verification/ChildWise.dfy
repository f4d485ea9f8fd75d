/** Properties of single children that the paragraph pass carries over to the list
    it makes of them. */
module ChildWise {
  import opened Ltrf
  import opened Paragraphs

  /** Children with `p` have `q`, and so does a paragraph made of children with `p`. */
  ghost predicate Wraps(p: Obj -> bool, q: Obj -> bool) {
    && (forall o :: p(o) ==> q(o))
    && (forall es :: All(p, es) ==> q(MakePara(es)))
  }

  ghost predicate SurvivesTrim(q: Obj -> bool) {
    forall o :: q(o) ==> q(TrimPara(o))
  }

  lemma AllConcat(q: Obj -> bool, a: seq<Obj>, b: seq<Obj>)
    requires All(q, a) && All(q, b)
    ensures All(q, a + b)
  {
  }

  lemma ParaOfAll(p: Obj -> bool, q: Obj -> bool, es: seq<Obj>)
    requires Wraps(p, q) && All(p, es)
    ensures All(q, ParaOf(es))
  {
    hide MakePara;
  }

  lemma KeptAll(p: Obj -> bool, q: Obj -> bool, o: Obj)
    requires Wraps(p, q) && p(o)
    ensures All(q, Kept(o)) && q(o)
  {
  }

  lemma SliceAll(p: Obj -> bool, es: seq<Obj>, a: nat, b: nat)
    requires a <= b <= |es| && All(p, es)
    ensures All(p, es[a..b])
  {
  }

  lemma {:induction false} PiecesAll(p: Obj -> bool, q: Obj -> bool, es: seq<Obj>, closed: bool)
    requires Wraps(p, q) && All(p, es)
    ensures All(q, Pieces(es, closed))
    decreases |es|
  {
    hide Cut, ParaOf, Kept, All, Wraps;
    var k := Cut(es);
    SliceAll(p, es, 0, k);
    assert es[0..k] == es[..k];
    ParaOfAll(p, q, es[..k]);
    if k < |es| {
      SliceAll(p, es, k + 1, |es|);
      assert es[k + 1..|es|] == es[k + 1..];
      OneOf(p, es, k);
      KeptAll(p, q, es[k]);
      var rest := Pieces(es[k + 1..], closed || k > 0);
      PiecesAll(p, q, es[k + 1..], closed || k > 0);
      AllConcat(q, ParaOf(es[..k]), Kept(es[k]));
      AllConcat(q, ParaOf(es[..k]) + Kept(es[k]), rest);
    } else {
      assert es[..k] == es;
      Weaker(p, q, es);
    }
  }

  lemma OneOf(p: Obj -> bool, es: seq<Obj>, k: nat)
    requires k < |es| && All(p, es)
    ensures p(es[k])
  {
  }

  lemma Weaker(p: Obj -> bool, q: Obj -> bool, es: seq<Obj>)
    requires Wraps(p, q) && All(p, es)
    ensures All(q, es)
  {
  }

  lemma {:induction false} TrimParasAll(q: Obj -> bool, es: seq<Obj>)
    requires SurvivesTrim(q) && All(q, es)
    ensures All(q, TrimParas(es))
    decreases |es|
  {
    hide TrimPara, IsNotEmptyPara;
    if es != [] {
      TrimParasAll(q, es[1..]);
      assert All(q, TrimOne(es[0]));
    }
  }

  lemma ParaLevelAll(p: Obj -> bool, q: Obj -> bool, es: seq<Obj>)
    requires Wraps(p, q) && SurvivesTrim(q) && All(p, es)
    ensures All(q, ParaLevel(es))
  {
    hide Pieces, TrimParas, Wraps, SurvivesTrim;
    PiecesAll(p, q, es, false);
    TrimParasAll(q, Pieces(es, false));
  }

  /** Trimming takes a stretch out of a paragraph, with only whitespace around it. */
  lemma TrimIsSlice(es: seq<Obj>) returns (a: nat, b: nat)
    ensures a <= b <= |es| && Trim(es) == es[a..b]
    ensures forall k :: 0 <= k < a || b <= k < |es| ==> IsBlank(es[k])
    ensures Trim(es) != [] ==> !IsBlank(Trim(es)[0]) && !IsBlank(Trim(es)[|Trim(es)| - 1])
  {
    hide IsBlank, TrimFront, TrimBack;
    var front := TrimFront(es);
    a := |es| - |front|;
    b := a + |Trim(es)|;
    assert front[..|Trim(es)|] == es[a..b];
    forall k | b <= k < |es|
      ensures IsBlank(es[k])
    {
      assert es[k] == front[k - a];
    }
    if Trim(es) != [] {
      assert Trim(es)[0] == front[0];
    }
  }

  /** What a trimmed paragraph holds it held before. */
  lemma TrimmedHolds(es: seq<Obj>)
    ensures |Trim(es)| <= |es| && forall o :: o in Trim(es) ==> o in es
  {
    hide Trim, IsBlank;
    var a, b := TrimIsSlice(es);
  }

  lemma TrimParasHead(o: Obj, es: seq<Obj>)
    ensures TrimParas([o] + es) == TrimOne(o) + TrimParas(es)
  {
    hide TrimPara, IsNotEmptyPara;
    assert ([o] + es)[1..] == es;
  }

  lemma TrimParasNone()
    ensures TrimParas([]) == []
  {
  }

  lemma Associative(a: seq<Obj>, b: seq<Obj>, c: seq<Obj>)
    ensures a + (b + c) == (a + b) + c
  {
  }

  lemma {:induction false} TrimParasConcat(a: seq<Obj>, b: seq<Obj>)
    ensures TrimParas(a + b) == TrimParas(a) + TrimParas(b)
  {
    hide TrimParas, TrimOne;
    if a == [] {
      TrimParasNone();
      assert a + b == b;
    } else {
      var o, rest := a[0], a[1..];
      assert a == [o] + rest;
      Associative([o], rest, b);
      TrimParasHead(o, rest);
      TrimParasHead(o, rest + b);
      TrimParasConcat(rest, b);
      Associative(TrimOne(o), TrimParas(rest), TrimParas(b));
    }
  }
}
