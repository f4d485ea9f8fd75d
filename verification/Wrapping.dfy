/** Which children the paragraph pass puts into paragraphs, and what that means for
    properties of the list it makes: exact forms of what `ChildWise` says one way. */
module Wrapping {
  import opened Ltrf
  import opened Paragraphs
  import opened Shape

  /** A separator follows. */
  predicate Followed(es: seq<Ltrf.Obj>, k: nat) {
    exists j :: k < j < |es| && IsSeparator(es[j])
  }

  /** Before `k`, a separator closes a piece that is not empty. */
  predicate ClosedBefore(es: seq<Ltrf.Obj>, k: nat) {
    exists i, j :: 0 <= i < j < k && j < |es| && !IsSeparator(es[i]) && IsSeparator(es[j])
  }

  /** The child is put into a paragraph, if `closed` or not some piece has been closed
      before the list begins. */
  predicate Wrapped(es: seq<Ltrf.Obj>, k: nat, closed: bool)
    requires k < |es|
  {
    !IsSeparator(es[k]) && (closed || Followed(es, k) || ClosedBefore(es, k))
  }

  lemma AllThree(p: Ltrf.Obj -> bool, a: seq<Ltrf.Obj>, b: seq<Ltrf.Obj>, c: seq<Ltrf.Obj>)
    ensures All(p, a + b + c) <==> All(p, a) && All(p, b) && All(p, c)
  {
    AllBoth(p, a + b, c);
    AllBoth(p, a, b);
  }

  lemma AllBoth(p: Ltrf.Obj -> bool, a: seq<Ltrf.Obj>, b: seq<Ltrf.Obj>)
    ensures All(p, a + b) <==> All(p, a) && All(p, b)
  {
    var ab := a + b;
    assert forall k :: 0 <= k < |a| ==> ab[k] == a[k];
    assert forall k :: 0 <= k < |b| ==> ab[|a| + k] == b[k];
  }

  lemma AllOne(p: Ltrf.Obj -> bool, o: Ltrf.Obj)
    ensures All(p, [o]) <==> p(o)
  {
    assert [o][0] == o;
  }

  lemma AllNone(p: Ltrf.Obj -> bool)
    ensures All(p, [])
  {
  }

  /** Whether a child is wrapped is the same for what remains after the first cut. */
  lemma FollowedLater(es: seq<Ltrf.Obj>, m: nat, k: nat)
    requires m + k < |es|
    ensures Followed(es, m + k) <==> Followed(es[m..], k)
  {
    hide IsSeparator;
    var rest := es[m..];
    if Followed(es, m + k) {
      var j :| m + k < j < |es| && IsSeparator(es[j]);
      assert IsSeparator(rest[j - m]);
    }
    if Followed(rest, k) {
      var j :| k < j < |rest| && IsSeparator(rest[j]);
      assert IsSeparator(es[m + j]);
    }
  }

  lemma ClosedEarlier(es: seq<Ltrf.Obj>, k: nat)
    requires es != [] && ClosedBefore(es[1..], k)
    ensures ClosedBefore(es, k + 1)
  {
    hide IsSeparator;
    var rest := es[1..];
    var i, j :| 0 <= i < j < k && j < |rest| && !IsSeparator(rest[i]) && IsSeparator(rest[j]);
    assert !IsSeparator(es[i + 1]) && IsSeparator(es[j + 1]);
  }

  lemma ClosedAfter(es: seq<Ltrf.Obj>, k: nat)
    requires es != [] && IsSeparator(es[0]) && ClosedBefore(es, k + 1)
    ensures ClosedBefore(es[1..], k)
  {
    hide IsSeparator;
    var rest := es[1..];
    var i, j :| 0 <= i < j < k + 1 && j < |es| && !IsSeparator(es[i]) && IsSeparator(es[j]);
    assert !IsSeparator(rest[i - 1]) && IsSeparator(rest[j - 1]);
  }

  /** A separator at the start closes nothing. */
  lemma ClosedLater(es: seq<Ltrf.Obj>, k: nat)
    requires es != [] && IsSeparator(es[0])
    ensures ClosedBefore(es, k + 1) <==> ClosedBefore(es[1..], k)
  {
    hide IsSeparator, ClosedBefore;
    if ClosedBefore(es, k + 1) {
      ClosedAfter(es, k);
    }
    if ClosedBefore(es[1..], k) {
      ClosedEarlier(es, k);
    }
  }

  /** One that comes later closes what is before it. */
  lemma ClosedByCut(es: seq<Ltrf.Obj>, k: nat)
    requires 0 < Cut(es) < k && Cut(es) < |es|
    ensures ClosedBefore(es, k)
  {
    hide IsSeparator;
    assert !IsSeparator(es[0]) && IsSeparator(es[Cut(es)]);
  }

  lemma WrappedLater(es: seq<Ltrf.Obj>, k: nat, closed: bool)
    requires Cut(es) + 1 + k < |es|
    ensures Wrapped(es, Cut(es) + 1 + k, closed) <==> Wrapped(es[Cut(es) + 1..], k, closed || Cut(es) > 0)
  {
    hide IsSeparator, Followed, ClosedBefore, Cut;
    FollowedLater(es, Cut(es) + 1, k);
    if Cut(es) > 0 {
      ClosedByCut(es, Cut(es) + 1 + k);
    } else {
      ClosedLater(es, k);
    }
  }

  /** What a child must be, when the list made of it is to have `q` and a paragraph
      has `q` exactly when all in it has `p`: a marker goes, and a wrapped child is
      in a paragraph. */
  predicate FitsAt(p: Ltrf.Obj -> bool, q: Ltrf.Obj -> bool, es: seq<Ltrf.Obj>, k: nat, closed: bool)
    requires k < |es|
  {
    IsBreakMarker(es[k]) || (if Wrapped(es, k, closed) then p(es[k]) else q(es[k]))
  }

  predicate Fits(p: Ltrf.Obj -> bool, q: Ltrf.Obj -> bool, es: seq<Ltrf.Obj>, closed: bool) {
    forall k :: 0 <= k < |es| ==> FitsAt(p, q, es, k, closed)
  }

  ghost predicate ParaHas(p: Ltrf.Obj -> bool, q: Ltrf.Obj -> bool) {
    forall es :: es != [] ==> (q(MakePara(es)) <==> All(p, es))
  }

  /** After trimming, a child has `r` if it is left, exactly when it had `q` before. */
  ghost predicate TrimHas(q: Ltrf.Obj -> bool, r: Ltrf.Obj -> bool) {
    forall o :: All(r, TrimOne(o)) <==> q(o)
  }

  lemma FitsPara(p: Ltrf.Obj -> bool, q: Ltrf.Obj -> bool, es: seq<Ltrf.Obj>)
    requires ParaHas(p, q)
    ensures All(q, ParaOf(es)) <==> All(p, es)
  {
    hide MakePara;
    if es != [] {
      AllOne(q, MakePara(es));
    }
  }

  /** Children before a separator are wrapped. */
  lemma FitsBefore(p: Ltrf.Obj -> bool, q: Ltrf.Obj -> bool, es: seq<Ltrf.Obj>, k: nat, closed: bool)
    requires k < Cut(es) && (closed || Cut(es) < |es|)
    ensures FitsAt(p, q, es, k, closed) <==> p(es[k])
  {
    hide IsBlock;
    SeparatorsAre(es);
  }

  /** Children of a list without separators are not, if nothing was closed before. */
  lemma FitsInline(p: Ltrf.Obj -> bool, q: Ltrf.Obj -> bool, es: seq<Ltrf.Obj>, k: nat)
    requires k < |es| == Cut(es)
    ensures FitsAt(p, q, es, k, false) <==> q(es[k])
  {
    hide IsBlock;
    SeparatorsAre(es);
  }

  lemma FitsSeparator(p: Ltrf.Obj -> bool, q: Ltrf.Obj -> bool, es: seq<Ltrf.Obj>, k: nat, closed: bool)
    requires k < |es| && IsSeparator(es[k])
    ensures FitsAt(p, q, es, k, closed) <==> All(q, Kept(es[k]))
  {
    hide IsSeparator, IsBreakMarker;
    AllOne(q, es[k]);
  }

  lemma FitsParts(p: Ltrf.Obj -> bool, q: Ltrf.Obj -> bool, es: seq<Ltrf.Obj>, k: nat, closed: bool)
    requires k == Cut(es) < |es|
    ensures Fits(p, q, es, closed) <==>
            All(p, es[..k]) && FitsAt(p, q, es, k, closed) && Fits(p, q, es[k + 1..], closed || k > 0)
  {
    hide FitsAt, Cut, IsSeparator;
    var rest, closes := es[k + 1..], closed || k > 0;
    forall i | 0 <= i < k
      ensures FitsAt(p, q, es, i, closed) <==> p(es[..k][i])
    {
      FitsBefore(p, q, es, i, closed);
    }
    forall i | 0 <= i < |rest|
      ensures FitsAt(p, q, rest, i, closes) <==> FitsAt(p, q, es, k + 1 + i, closed)
    {
      FitsLater(p, q, es, i, closed);
    }
    FitsTogether(p, q, es, rest, k, closed, closes);
  }

  lemma FitsLater(p: Ltrf.Obj -> bool, q: Ltrf.Obj -> bool, es: seq<Ltrf.Obj>, k: nat, closed: bool)
    requires Cut(es) + 1 + k < |es|
    ensures FitsAt(p, q, es, Cut(es) + 1 + k, closed) <==>
            FitsAt(p, q, es[Cut(es) + 1..], k, closed || Cut(es) > 0)
  {
    hide IsBreakMarker, Wrapped, Cut;
    WrappedLater(es, k, closed);
  }

  lemma FitsTogether(p: Ltrf.Obj -> bool, q: Ltrf.Obj -> bool, es: seq<Ltrf.Obj>, rest: seq<Ltrf.Obj>, k: nat,
                     closed: bool, closes: bool)
    requires k < |es| && rest == es[k + 1..]
    requires forall i :: 0 <= i < k ==> (FitsAt(p, q, es, i, closed) <==> p(es[..k][i]))
    requires forall i :: 0 <= i < |rest| ==> (FitsAt(p, q, rest, i, closes) <==> FitsAt(p, q, es, k + 1 + i, closed))
    ensures Fits(p, q, es, closed) <==> All(p, es[..k]) && FitsAt(p, q, es, k, closed) && Fits(p, q, rest, closes)
  {
    hide FitsAt;
    if All(p, es[..k]) && FitsAt(p, q, es, k, closed) && Fits(p, q, rest, closes) {
      forall i | 0 <= i < |es|
        ensures FitsAt(p, q, es, i, closed)
      {
        if i > k {
          assert FitsAt(p, q, rest, i - k - 1, closes);
        }
      }
    }
  }

  lemma {:induction false} PiecesFit(p: Ltrf.Obj -> bool, q: Ltrf.Obj -> bool, es: seq<Ltrf.Obj>, closed: bool)
    requires ParaHas(p, q)
    ensures All(q, Pieces(es, closed)) <==> Fits(p, q, es, closed)
    decreases |es|
  {
    hide FitsAt, IsSeparator, ParaOf, Kept, Cut;
    var k := Cut(es);
    FitsPara(p, q, es[..k]);
    if k == |es| {
      assert es[..k] == es;
      forall i | 0 <= i < k
        ensures FitsAt(p, q, es, i, closed) <==> if closed then p(es[i]) else q(es[i])
      {
        if closed {
          FitsBefore(p, q, es, i, closed);
        } else {
          FitsInline(p, q, es, i);
        }
      }
    } else {
      hide All, Fits, ParaHas;
      PiecesFit(p, q, es[k + 1..], closed || k > 0);
      FitsSeparator(p, q, es, k, closed);
      FitsParts(p, q, es, k, closed);
      AllThree(q, ParaOf(es[..k]), Kept(es[k]), Pieces(es[k + 1..], closed || k > 0));
    }
  }

  lemma {:induction false} TrimParasFit(q: Ltrf.Obj -> bool, r: Ltrf.Obj -> bool, es: seq<Ltrf.Obj>)
    requires TrimHas(q, r)
    ensures All(r, TrimParas(es)) <==> All(q, es)
    decreases |es|
  {
    hide TrimPara, IsNotEmptyPara;
    if es != [] {
      TrimParasFit(q, r, es[1..]);
      AllBoth(r, TrimOne(es[0]), TrimParas(es[1..]));
      AllBoth(q, [es[0]], es[1..]);
      assert es == [es[0]] + es[1..];
      AllOne(q, es[0]);
    }
  }

  /** When all of the list that the paragraph pass makes has `r`. */
  lemma ParaLevelFits(p: Ltrf.Obj -> bool, q: Ltrf.Obj -> bool, r: Ltrf.Obj -> bool, es: seq<Ltrf.Obj>)
    requires ParaHas(p, q) && TrimHas(q, r)
    ensures All(r, ParaLevel(es)) <==> Fits(p, q, es, false)
  {
    hide Pieces, TrimParas, All, Fits, ParaHas, TrimHas;
    PiecesFit(p, q, es, false);
    TrimParasFit(q, r, Pieces(es, false));
  }

  lemma SameSeparators(es: seq<Ltrf.Obj>)
    ensures |WithParasAll(es)| == |es|
    ensures forall k :: 0 <= k < |es| ==> (IsSeparator(WithParasAll(es)[k]) <==> IsSeparator(es[k]))
  {
    hide IsSeparator, WithParas;
    forall k | 0 <= k < |es|
      ensures IsSeparator(WithParasAll(es)[k]) <==> IsSeparator(es[k])
    {
      if es[k].Node? {
        SameSeparator(es[k], WithParasAll(es)[k]);
      }
    }
  }

  lemma SameFollowed(es: seq<Ltrf.Obj>, mapped: seq<Ltrf.Obj>, k: nat)
    requires |mapped| == |es| && forall i :: 0 <= i < |es| ==> (IsSeparator(mapped[i]) <==> IsSeparator(es[i]))
    ensures Followed(es, k) ==> Followed(mapped, k)
  {
    hide IsSeparator;
    if Followed(es, k) {
      var j :| k < j < |es| && IsSeparator(es[j]);
      assert IsSeparator(mapped[j]);
    }
  }

  lemma SameClosed(es: seq<Ltrf.Obj>, mapped: seq<Ltrf.Obj>, k: nat)
    requires |mapped| == |es| && forall i :: 0 <= i < |es| ==> (IsSeparator(mapped[i]) <==> IsSeparator(es[i]))
    ensures ClosedBefore(es, k) ==> ClosedBefore(mapped, k)
  {
    hide IsSeparator;
    if ClosedBefore(es, k) {
      var i, j :| 0 <= i < j < k && j < |es| && !IsSeparator(es[i]) && IsSeparator(es[j]);
      assert !IsSeparator(mapped[i]) && IsSeparator(mapped[j]);
    }
  }

  /** Processing the children first changes neither. */
  lemma SameCuts(es: seq<Ltrf.Obj>, k: nat)
    ensures Followed(WithParasAll(es), k) <==> Followed(es, k)
    ensures ClosedBefore(WithParasAll(es), k) <==> ClosedBefore(es, k)
  {
    hide IsSeparator, WithParasAll, Followed, ClosedBefore;
    var mapped := WithParasAll(es);
    SameSeparators(es);
    SameFollowed(es, mapped, k);
    SameFollowed(mapped, es, k);
    SameClosed(es, mapped, k);
    SameClosed(mapped, es, k);
  }

  lemma SameWrapped(es: seq<Ltrf.Obj>, k: nat)
    requires k < |es|
    ensures Wrapped(WithParasAll(es), k, false) <==> Wrapped(es, k, false)
  {
    hide IsSeparator, WithParasAll, Followed, ClosedBefore;
    SameSeparators(es);
    SameCuts(es, k);
  }

  lemma SameSeparator(a: Ltrf.Obj, b: Ltrf.Obj)
    requires a.Node? && b.Node? && a.tag == b.tag && a.kv == b.kv
    ensures IsSeparator(a) == IsSeparator(b)
  {
  }
}
